/**
  The two list shapes the server builds besides sorting: Array.prototype.map,
  and a loop that pushes one output for each input that passes a test, in
  input order.
*/
module Lists {
  import opened Wrappers

  /** Array.prototype.map. */
  function Map<T, U>(f: T -> U, xs: seq<T>): (r: seq<U>)
    ensures |r| == |xs| && forall i :: 0 <= i < |xs| ==> r[i] == f(xs[i])
  {
    if xs == [] then [] else [f(xs[0])] + Map(f, xs[1..])
  }

  /**
    The outputs `f` gives, skipping the inputs it gives none for, in input
    order. Defined from the last input, as a loop that pushes builds it.
  */
  function FilterMap<T, U>(f: T -> Option<U>, xs: seq<T>): (r: seq<U>)
    ensures |r| <= |xs|
    decreases |xs|
  {
    if xs == [] then []
    else FilterMap(f, xs[..|xs| - 1]) + (match f(xs[|xs| - 1]) case Some(y) => [y] case None => [])
  }

  /** One more input adds its output, if it has one, at the end. */
  lemma FilterMapStep<T, U>(f: T -> Option<U>, xs: seq<T>, i: int)
    requires 0 <= i < |xs|
    ensures FilterMap(f, xs[..i + 1]) == FilterMap(f, xs[..i]) + (match f(xs[i]) case Some(y) => [y] case None => [])
  {
    assert xs[..i + 1][..i] == xs[..i];
  }

  /** An element is an output exactly when some input gives it. */
  lemma {:induction false} FilterMapMembers<T, U>(f: T -> Option<U>, xs: seq<T>)
    ensures forall y :: y in FilterMap(f, xs) <==> exists x :: x in xs && f(x) == Some(y)
  {
    if xs != [] {
      var init := xs[..|xs| - 1];
      var last := xs[|xs| - 1];
      FilterMapMembers(f, init);
      assert xs == init + [last];
      forall y ensures y in FilterMap(f, xs) <==> exists x :: x in xs && f(x) == Some(y) {
        if y in FilterMap(f, xs) && y !in FilterMap(f, init) {
          assert f(last) == Some(y);
        }
        if exists x :: x in xs && f(x) == Some(y) {
          var x :| x in xs && f(x) == Some(y);
          if x != last {
            assert x in init;
          }
        }
      }
    }
  }
}
