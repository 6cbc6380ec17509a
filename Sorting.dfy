/** `Array.prototype.sort` with a comparator. The comparator
    `(a, b) => a.localeCompare(b)` is locale-dependent; it is modelled as an
    arbitrary total order `le`, read as `le(a, b) <==> a.localeCompare(b) <= 0`. */
module Sorting {
  import opened Text

  ghost predicate TotalOrder(le: (String, String) -> bool) {
    && (forall a, b :: le(a, b) || le(b, a))
    && (forall a, b :: le(a, b) && le(b, a) ==> a == b)
    && (forall a, b, c :: le(a, b) && le(b, c) ==> le(a, c))
  }

  ghost predicate Sorted(s: seq<String>, le: (String, String) -> bool) {
    forall i, j :: 0 <= i < j < |s| ==> le(s[i], s[j])
  }

  ghost predicate Distinct(s: seq<String>) {
    forall i, j :: 0 <= i < j < |s| ==> s[i] != s[j]
  }

  /** Insert `x` into the sorted `s` before the first element it does not
      follow. */
  function Insert(x: String, s: seq<String>, le: (String, String) -> bool): (r: seq<String>)
    ensures multiset(r) == multiset(s) + multiset{x}
  {
    if s == [] || le(x, s[0]) then [x] + s
    else
      assert s == [s[0]] + s[1..];
      [s[0]] + Insert(x, s[1..], le)
  }

  /** Insertion sort: the permutation of `s` that `le` orders. */
  function Sort(s: seq<String>, le: (String, String) -> bool): (r: seq<String>)
    ensures multiset(r) == multiset(s)
  {
    if s == [] then []
    else
      assert s == [s[0]] + s[1..];
      Insert(s[0], Sort(s[1..], le), le)
  }

  lemma {:induction false} InsertSorted(x: String, s: seq<String>, le: (String, String) -> bool)
    requires TotalOrder(le) && Sorted(s, le)
    ensures Sorted(Insert(x, s, le), le)
  {
    if s != [] && !le(x, s[0]) {
      var rest := Insert(x, s[1..], le);
      InsertSorted(x, s[1..], le);
      forall y | y in rest ensures le(s[0], y) {
        assert y in multiset(rest);
        if y != x {
          assert y in s[1..];
        }
      }
    }
  }

  lemma {:induction false} InsertDistinct(x: String, s: seq<String>, le: (String, String) -> bool)
    requires Distinct(s) && x !in s
    ensures Distinct(Insert(x, s, le))
  {
    if s != [] && !le(x, s[0]) {
      var rest := Insert(x, s[1..], le);
      InsertDistinct(x, s[1..], le);
      assert s[0] !in multiset(s[1..]);
      assert s[0] !in multiset(rest);
    }
  }

  /** `Sort` orders its result and keeps distinct elements distinct. */
  lemma {:induction false} SortCorrect(s: seq<String>, le: (String, String) -> bool)
    requires TotalOrder(le)
    ensures Sorted(Sort(s, le), le)
    ensures Distinct(s) ==> Distinct(Sort(s, le))
  {
    if s != [] {
      var rest := Sort(s[1..], le);
      SortCorrect(s[1..], le);
      InsertSorted(s[0], rest, le);
      if Distinct(s) {
        assert Distinct(s[1..]);
        assert s[0] !in multiset(s[1..]);
        assert s[0] !in multiset(rest);
        InsertDistinct(s[0], rest, le);
      }
    }
  }
}
