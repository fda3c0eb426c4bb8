/**
  The JavaScript values a contest record's fields hold once the client has
  decoded the server's JSON, and the three conversions the client applies to
  them: truthiness (`if`, `?:`, `||`), ToNumber (`* 1000`) and ToString
  (template literals). Numbers are integers here.
*/
module Values {
  import opened Wrappers
  import opened Text

  datatype Value = Undefined | Null | Bool(b: bool) | Num(n: int) | Str(s: string)

  /** ToBoolean: undefined, null, false, 0 and the empty string are falsy. */
  predicate Truthy(v: Value) {
    match v
    case Undefined => false
    case Null => false
    case Bool(b) => b
    case Num(n) => n != 0
    case Str(s) => s != []
  }

  /** `a || b`. */
  function Or(a: Value, b: Value): Value {
    if Truthy(a) then a else b
  }

  /** `v[0] || v[1] || ... || v[k]`, grouped from the left as JavaScript groups it. */
  function OrChain(vs: seq<Value>): Value
    requires |vs| >= 1
  {
    if |vs| == 1 then vs[0] else Or(OrChain(vs[..|vs| - 1]), vs[|vs| - 1])
  }

  /** The first truthy value of a list, or its last value when none is truthy. */
  function FirstTruthy(vs: seq<Value>): Value
    requires |vs| >= 1
  {
    if |vs| == 1 || Truthy(vs[0]) then vs[0] else FirstTruthy(vs[1..])
  }

  lemma {:induction false} FirstTruthyAppend(vs: seq<Value>, v: Value)
    requires |vs| >= 1
    ensures FirstTruthy(vs + [v]) == Or(FirstTruthy(vs), v)
  {
    var w := vs + [v];
    if |vs| > 1 && !Truthy(vs[0]) {
      assert w[1..] == vs[1..] + [v];
      FirstTruthyAppend(vs[1..], v);
    }
  }

  /** A chain of `||` yields the first truthy operand, or the last operand when none is. */
  lemma {:induction false} OrChainIsFirstTruthy(vs: seq<Value>)
    requires |vs| >= 1
    ensures OrChain(vs) == FirstTruthy(vs)
    ensures Truthy(OrChain(vs)) <==> exists i :: 0 <= i < |vs| && Truthy(vs[i])
  {
    if |vs| > 1 {
      var p := vs[..|vs| - 1];
      OrChainIsFirstTruthy(p);
      FirstTruthyAppend(p, vs[|vs| - 1]);
      assert p + [vs[|vs| - 1]] == vs;
      if Truthy(OrChain(p)) {
        var i :| 0 <= i < |p| && Truthy(p[i]);
        assert vs[i] == p[i];
      }
      if exists i :: 0 <= i < |vs| && Truthy(vs[i]) {
        var i :| 0 <= i < |vs| && Truthy(vs[i]);
        if i < |vs| - 1 {
          assert p[i] == vs[i];
        }
      }
    }
  }

  /** `a || b || c`. */
  lemma OrChain3(a: Value, b: Value, c: Value)
    ensures OrChain([a, b, c]) == if Truthy(a) then a else if Truthy(b) then b else c
  {
    assert [a, b, c][..2] == [a, b] && [a, b][..1] == [a];
    assert OrChain([a, b]) == Or(OrChain([a]), b) == Or(a, b);
    assert OrChain([a, b, c]) == Or(OrChain([a, b]), c);
  }

  /** `a || b || c || d`. */
  lemma OrChain4(a: Value, b: Value, c: Value, d: Value)
    ensures OrChain([a, b, c, d]) == if Truthy(a) then a else if Truthy(b) then b else if Truthy(c) then c else d
  {
    assert [a, b, c, d][..3] == [a, b, c];
    OrChain3(a, b, c);
  }

  /** ToNumber; None is NaN, or a numeric string form this model does not read. */
  function ToNumber(v: Value): Option<int> {
    match v
    case Undefined => None
    case Null => Some(0)
    case Bool(b) => Some(if b then 1 else 0)
    case Num(n) => Some(n)
    case Str(s) => StringToNumber(s)
  }

  /** ToString, as a template literal applies it. */
  function ToText(v: Value): string {
    match v
    case Undefined => "undefined"
    case Null => "null"
    case Bool(b) => if b then "true" else "false"
    case Num(n) => IntText(n)
    case Str(s) => s
  }
}
