/** What the program relies on when it calls sort.Slice and sort.Strings: some sorted
    permutation. Ties may end up in any order, and callers see nothing more. */
module Sorting {

  ghost predicate TotalPreorder<T(!new)>(leq: (T, T) -> bool) {
    && (forall a, b :: leq(a, b) || leq(b, a))
    && (forall a, b, c | leq(a, b) && leq(b, c) :: leq(a, c))
  }

  ghost predicate SortedBy<T>(s: seq<T>, leq: (T, T) -> bool) {
    forall i, j | 0 <= i < j < |s| :: leq(s[i], s[j])
  }

  ghost predicate IsSortOf<T>(s: seq<T>, xs: seq<T>, leq: (T, T) -> bool) {
    SortedBy(s, leq) && multiset(s) == multiset(xs)
  }

  function Insert<T(!new)>(x: T, s: seq<T>, leq: (T, T) -> bool): (r: seq<T>)
    requires TotalPreorder(leq) && SortedBy(s, leq)
    ensures multiset(r) == multiset{x} + multiset(s)
    ensures SortedBy(r, leq)
  {
    if s == [] || leq(x, s[0]) then
      [x] + s
    else
      var r := Insert(x, s[1..], leq);
      assert s == [s[0]] + s[1..];
      HeadStaysLeast(s, r, x, leq);
      [s[0]] + r
  }

  lemma {:induction false} HeadStaysLeast<T(!new)>(s: seq<T>, r: seq<T>, x: T, leq: (T, T) -> bool)
    requires s != [] && SortedBy(s, leq) && leq(s[0], x)
    requires SortedBy(r, leq) && multiset(r) == multiset{x} + multiset(s[1..])
    ensures SortedBy([s[0]] + r, leq)
  {
    forall i | 0 <= i < |r| ensures leq(s[0], r[i]) {
      assert r[i] in multiset(r);
      if r[i] != x {
        assert r[i] in multiset(s[1..]);
        var k :| 0 <= k < |s| - 1 && s[1..][k] == r[i];
        assert s[k + 1] == r[i];
      }
    }
  }

  function SortOf<T(!new)>(xs: seq<T>, leq: (T, T) -> bool): (s: seq<T>)
    requires TotalPreorder(leq)
    ensures IsSortOf(s, xs, leq)
  {
    if xs == [] then []
    else
      assert xs == [xs[0]] + xs[1..];
      Insert(xs[0], SortOf(xs[1..], leq), leq)
  }

  method Sort<T(!new)>(xs: seq<T>, leq: (T, T) -> bool) returns (s: seq<T>)
    requires TotalPreorder(leq)
    ensures IsSortOf(s, xs, leq)
  {
    s := SortOf(xs, leq);
  }
}
