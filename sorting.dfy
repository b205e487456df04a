/** Python's `sorted(xs, key=...)`, a stable sort, as an insertion sort over a
    strict weak order `less` (the order the key induces). */
module Sorting {

  ghost predicate StrictWeakOrder<T(!new)>(less: (T, T) -> bool) {
    && (forall a :: !less(a, a))
    && (forall a, b, c :: less(a, b) && less(b, c) ==> less(a, c))
    && (forall a, b, c :: !less(a, b) && !less(b, c) ==> !less(a, c))
  }

  /** No element is strictly smaller than one before it. */
  ghost predicate Sorted<T>(s: seq<T>, less: (T, T) -> bool) {
    forall i, j :: 0 <= i < j < |s| ==> !less(s[j], s[i])
  }

  /** Inserts `x` before the first element not smaller than it, so that `x`
      precedes the elements equivalent to it. */
  function Insert<T>(x: T, s: seq<T>, less: (T, T) -> bool): (r: seq<T>)
    ensures multiset(r) == multiset(s) + multiset{x}
  {
    if s == [] || !less(s[0], x) then [x] + s
    else
      assert s == [s[0]] + s[1..];
      [s[0]] + Insert(x, s[1..], less)
  }

  /** Inserting into a sorted sequence keeps it sorted. */
  lemma {:induction false} InsertSorted<T(!new)>(x: T, s: seq<T>, less: (T, T) -> bool)
    requires StrictWeakOrder(less) && Sorted(s, less)
    ensures Sorted(Insert(x, s, less), less)
  {
    if s != [] && less(s[0], x) {
      var rest := Insert(x, s[1..], less);
      InsertSorted(x, s[1..], less);
      forall k | 0 <= k < |rest| ensures !less(rest[k], s[0]) {
        assert rest[k] in multiset(rest);
        if rest[k] in multiset(s[1..]) {
          var m :| 0 <= m < |s[1..]| && s[1..][m] == rest[k];
          assert s[m + 1] == rest[k];
        }
      }
    }
  }

  /** `sorted(xs)`: a sorted permutation of `xs`. */
  function Sort<T(!new)>(xs: seq<T>, less: (T, T) -> bool): (r: seq<T>)
    requires StrictWeakOrder(less)
    ensures multiset(r) == multiset(xs)
    ensures |r| == |xs|
    ensures Sorted(r, less)
  {
    if xs == [] then []
    else
      var r := Insert(xs[0], Sort(xs[1..], less), less);
      InsertSorted(xs[0], Sort(xs[1..], less), less);
      assert xs == [xs[0]] + xs[1..];
      assert |r| == |multiset(r)|;
      r
  }
}
