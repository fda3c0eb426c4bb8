/**
  Array.prototype.sort with a comparator `(a, b) => key(a) - key(b)`, where a
  key may be missing (an Invalid Date or NaN). A missing key makes the
  comparator return NaN, which sort reads as "equal". The sort is stable
  (ECMAScript 2019 and later), so with every key present its result is the
  stable ascending order; with missing keys the comparator is inconsistent and
  the order is left to the engine. The model is a stable insertion sort that
  moves an element past another only when both keys are present and the
  other's is smaller, and the lemmas claim only what every engine shares: the
  result is a permutation, and it is ascending when every key is present.
*/
module Sorting {
  import opened Wrappers
  import opened Lists

  /** Puts `x` in front of the first element it does not belong after. */
  function Insert<T>(x: T, ys: seq<T>, key: T -> Option<int>): (r: seq<T>)
    ensures |r| == |ys| + 1
  {
    if ys == [] then [x]
    else if key(x).Some? && key(ys[0]).Some? && key(ys[0]).value < key(x).value then [ys[0]] + Insert(x, ys[1..], key)
    else [x] + ys
  }

  function SortByKey<T>(xs: seq<T>, key: T -> Option<int>): (r: seq<T>)
    ensures |r| == |xs|
  {
    if xs == [] then [] else Insert(xs[0], SortByKey(xs[1..], key), key)
  }

  predicate AllKeyed<T>(xs: seq<T>, key: T -> Option<int>) {
    forall i :: 0 <= i < |xs| ==> key(xs[i]).Some?
  }

  /** Non-decreasing by key. */
  predicate Ascending<T>(xs: seq<T>, key: T -> Option<int>)
    requires AllKeyed(xs, key)
  {
    forall i, j :: 0 <= i < j < |xs| ==> key(xs[i]).value <= key(xs[j]).value
  }

  lemma {:induction false} InsertPermutes<T>(x: T, ys: seq<T>, key: T -> Option<int>)
    ensures multiset(Insert(x, ys, key)) == multiset(ys) + multiset{x}
  {
    if ys != [] && key(x).Some? && key(ys[0]).Some? && key(ys[0]).value < key(x).value {
      InsertPermutes(x, ys[1..], key);
      assert ys == [ys[0]] + ys[1..];
    }
  }

  /** The sort only reorders: the same elements, each as often as before. */
  lemma {:induction false} SortPermutes<T>(xs: seq<T>, key: T -> Option<int>)
    ensures multiset(SortByKey(xs, key)) == multiset(xs)
  {
    if xs != [] {
      SortPermutes(xs[1..], key);
      InsertPermutes(xs[0], SortByKey(xs[1..], key), key);
      assert xs == [xs[0]] + xs[1..];
    }
  }

  lemma {:induction false} InsertAscending<T>(x: T, ys: seq<T>, key: T -> Option<int>)
    requires key(x).Some? && AllKeyed(ys, key) && Ascending(ys, key)
    ensures AllKeyed(Insert(x, ys, key), key) && Ascending(Insert(x, ys, key), key)
  {
    var r := Insert(x, ys, key);
    if ys != [] && key(ys[0]).value < key(x).value {
      var rest := Insert(x, ys[1..], key);
      InsertAscending(x, ys[1..], key);
      InsertPermutes(x, ys[1..], key);
      forall i, j | 0 <= i < j < |r|
        ensures key(r[i]).Some? && key(r[j]).Some? && key(r[i]).value <= key(r[j]).value
      {
        if i == 0 {
          // r[j] is x or an element of ys[1..], none of them below ys[0]
          assert r[j] in multiset(rest);
          assert r[j] == x || r[j] in ys[1..];
          if r[j] != x {
            var k :| 0 <= k < |ys[1..]| && ys[1..][k] == r[j];
            assert r[j] == ys[k + 1];
          }
        } else {
          assert r[i] == rest[i - 1] && r[j] == rest[j - 1];
        }
      }
    } else {
      forall i, j | 0 <= i < j < |r|
        ensures key(r[i]).Some? && key(r[j]).Some? && key(r[i]).value <= key(r[j]).value
      {
        if i == 0 {
          assert r[j] == ys[j - 1];
          assert key(ys[0]).value <= key(ys[j - 1]).value;
        } else {
          assert r[i] == ys[i - 1] && r[j] == ys[j - 1];
        }
      }
    }
  }

  /** With every key present, the sort's result is ascending by key. */
  lemma {:induction false} SortAscending<T>(xs: seq<T>, key: T -> Option<int>)
    requires AllKeyed(xs, key)
    ensures AllKeyed(SortByKey(xs, key), key) && Ascending(SortByKey(xs, key), key)
  {
    if xs != [] {
      assert AllKeyed(xs[1..], key) by {
        forall i | 0 <= i < |xs[1..]|
          ensures key(xs[1..][i]).Some?
        {
          assert xs[1..][i] == xs[i + 1];
        }
      }
      SortAscending(xs[1..], key);
      InsertAscending(xs[0], SortByKey(xs[1..], key), key);
    }
  }

  lemma {:induction false} MapInsertPermutes<T, U>(f: T -> U, x: T, ys: seq<T>, key: T -> Option<int>)
    ensures multiset(Map(f, Insert(x, ys, key))) == multiset(Map(f, ys)) + multiset{f(x)}
  {
    if ys != [] && key(x).Some? && key(ys[0]).Some? && key(ys[0]).value < key(x).value {
      MapInsertPermutes(f, x, ys[1..], key);
      assert Map(f, ys) == [f(ys[0])] + Map(f, ys[1..]);
      assert Insert(x, ys, key)[1..] == Insert(x, ys[1..], key);
    } else if ys != [] {
      assert Insert(x, ys, key)[1..] == ys;
    }
  }

  /** Mapping after sorting gives the mapped list reordered: sorting and mapping only reorder. */
  lemma {:induction false} MapSortPermutes<T, U>(f: T -> U, xs: seq<T>, key: T -> Option<int>)
    ensures multiset(Map(f, SortByKey(xs, key))) == multiset(Map(f, xs))
  {
    if xs != [] {
      MapSortPermutes(f, xs[1..], key);
      MapInsertPermutes(f, xs[0], SortByKey(xs[1..], key), key);
    }
  }
}
