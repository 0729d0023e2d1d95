/** Stable insertion sort by a total preorder, as `Array.prototype.sort` performs it
    with a consistent comparator (the sort is stable since ECMAScript 2019). */
module Sorting {

  /** `le` is total and transitive: a comparator that never contradicts itself. */
  ghost predicate TotalPreorder<T(!new)>(le: (T, T) -> bool) {
    (forall a, b :: le(a, b) || le(b, a))
    && (forall a, b, c :: le(a, b) && le(b, c) ==> le(a, c))
  }

  predicate SortedBy<T>(s: seq<T>, le: (T, T) -> bool) {
    forall i, j :: 0 <= i < j < |s| ==> le(s[i], s[j])
  }

  /** Inserts `x` after every element that is not greater than it. */
  function InsertBy<T(!new)>(x: T, s: seq<T>, le: (T, T) -> bool): (r: seq<T>)
    requires TotalPreorder(le) && SortedBy(s, le)
    ensures SortedBy(r, le)
    ensures multiset(r) == multiset(s) + multiset{x}
    decreases |s|
  {
    if s == [] then [x]
    else if le(s[0], x) then
      var rest := InsertBy(x, s[1..], le);
      assert s == [s[0]] + s[1..];
      HeadBeforeAll(s[0], rest, s[1..], x, le);
      [s[0]] + rest
    else
      BeforeAll(x, s, le);
      [x] + s
  }

  /** An element that the head does not precede goes before the whole list. */
  lemma BeforeAll<T(!new)>(x: T, s: seq<T>, le: (T, T) -> bool)
    requires TotalPreorder(le) && SortedBy(s, le) && s != [] && !le(s[0], x)
    ensures SortedBy([x] + s, le)
  {
    forall j | 0 <= j < |s| ensures le(x, s[j]) {
      if j > 0 {
        assert le(s[0], s[j]);
      }
    }
    assert forall j | 1 <= j < |[x] + s| :: ([x] + s)[j] == s[j - 1];
  }

  lemma HeadBeforeAll<T(!new)>(h: T, rest: seq<T>, tail: seq<T>, x: T, le: (T, T) -> bool)
    requires TotalPreorder(le) && SortedBy(rest, le)
    requires multiset(rest) == multiset(tail) + multiset{x}
    requires le(h, x) && forall z :: z in tail ==> le(h, z)
    ensures SortedBy([h] + rest, le)
  {
    forall j | 0 <= j < |rest| ensures le(h, rest[j]) {
      assert rest[j] in multiset(rest);
      if rest[j] != x {
        assert rest[j] in multiset(tail);
      }
    }
  }

  /** Sorts by `le`, keeping equal elements in their input order. */
  function SortBy<T(!new)>(s: seq<T>, le: (T, T) -> bool): (r: seq<T>)
    requires TotalPreorder(le)
    ensures SortedBy(r, le)
    ensures multiset(r) == multiset(s)
    decreases |s|
  {
    if s == [] then []
    else
      assert s == s[..|s| - 1] + [s[|s| - 1]];
      InsertBy(s[|s| - 1], SortBy(s[..|s| - 1], le), le)
  }
}
