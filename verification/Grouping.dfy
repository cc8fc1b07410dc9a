/** The clustering of the trace aggregator: per-node traces sorted by start time and
    grouped greedily, with the optimality and order-independence of that grouping. */
module Grouping {
  import opened Correlate
  import opened Orbit
  import opened Sorting

  function StartOrder(): (Trace, Trace) -> bool {
    (a: Trace, b: Trace) => a.start <= b.start
  }

  predicate SortedByStart(s: seq<Trace>) {
    forall i, j | 0 <= i < j < |s| :: s[i].start <= s[j].start
  }

  // ---- greedy groups ----

  /** A group is never empty: its first trace sets the window. */
  type Cluster = g: seq<Trace> | g != [] witness [Trace("", 0, "", 0, 0, [])]

  /** How many of the traces start at most `window` after `first`, counted from the front. */
  function Reach(window: int, first: int, all: seq<Trace>): (n: nat)
    ensures n <= |all|
  {
    if all == [] || all[0].start - first > window then 0 else 1 + Reach(window, first, all[1..])
  }

  /** The length of the first group: its first trace and every one that reaches it. */
  function Lead(window: int, all: seq<Trace>): (n: nat)
    requires all != []
    ensures 1 <= n <= |all|
  {
    1 + Reach(window, all[0].start, all[1..])
  }

  function Greedy(window: int, all: seq<Trace>): seq<Cluster> {
    if all == [] then []
    else [all[..Lead(window, all)]] + Greedy(window, all[Lead(window, all)..])
  }

  lemma {:induction false} ReachStops(window: int, first: int, all: seq<Trace>)
    ensures var n := Reach(window, first, all);
            && (forall i | 0 <= i < n :: all[i].start - first <= window)
            && (n < |all| ==> all[n].start - first > window)
  {
    if all == [] || all[0].start - first > window {
    } else {
      ReachStops(window, first, all[1..]);
      forall i | 0 <= i < Reach(window, first, all) ensures all[i].start - first <= window {
        if i > 0 {
          assert all[i] == all[1..][i - 1];
        }
      }
    }
  }

  lemma {:induction false} LeadStops(window: int, all: seq<Trace>)
    requires all != []
    ensures var n := Lead(window, all);
            && (forall i | 1 <= i < n :: all[i].start - all[0].start <= window)
            && (n < |all| ==> all[n].start - all[0].start > window)
  {
    ReachStops(window, all[0].start, all[1..]);
    forall i | 1 <= i < Lead(window, all) ensures all[i].start - all[0].start <= window {
      assert all[i] == all[1..][i - 1];
    }
  }

  /** What the loop does with one more trace. */
  function Place(window: int, groups: seq<Cluster>, t: Trace): seq<Cluster> {
    var n := |groups|;
    if n > 0 && t.start - groups[n - 1][0].start <= window then groups[..n - 1] + [groups[n - 1] + [t]]
    else groups + [[t]]
  }

  method Group(window: int, all: seq<Trace>) returns (groups: seq<Cluster>)
    ensures groups == Greedy(window, all)
  {
    groups := [];
    for i := 0 to |all|
      invariant groups == Greedy(window, all[..i])
    {
      var t := all[i];
      GreedyPlaces(window, all[..i], t);
      assert all[..i + 1] == all[..i] + [t];
      groups := PlaceTrace(window, groups, t);
    }
    assert all[..|all|] == all;
  }

  method PlaceTrace(window: int, before: seq<Cluster>, t: Trace) returns (groups: seq<Cluster>)
    ensures groups == Place(window, before, t)
  {
    groups := before;
    var n := |groups|;
    if n > 0 && t.start - groups[n - 1][0].start <= window {
      groups := groups[n - 1 := groups[n - 1] + [t]];
    } else {
      groups := groups + [[t]];
    }
  }

  lemma {:induction false} ReachAppended(window: int, first: int, all: seq<Trace>, t: Trace)
    ensures Reach(window, first, all + [t]) ==
            if Reach(window, first, all) == |all| && t.start - first <= window then |all| + 1
                else Reach(window, first, all)
  {
    if all == [] {
      assert [] + [t] == [t];
    } else {
      assert (all + [t])[1..] == all[1..] + [t];
      ReachAppended(window, first, all[1..], t);
    }
  }

  lemma {:induction false} LeadAppended(window: int, all: seq<Trace>, t: Trace)
    requires all != []
    ensures Lead(window, all + [t]) ==
            if Lead(window, all) == |all| && t.start - all[0].start <= window then |all| + 1 else Lead(window, all)
  {
    assert (all + [t])[1..] == all[1..] + [t];
    ReachAppended(window, all[0].start, all[1..], t);
  }

  lemma {:induction false} GreedyOfLead(window: int, all: seq<Trace>)
    requires all != [] && Lead(window, all) == |all|
    ensures Greedy(window, all) == [all]
  {
    assert all[..|all|] == all;
    assert all[|all|..] == [];
  }

  lemma {:induction false} PlaceBehind(window: int, g: Cluster, groups: seq<Cluster>, t: Trace)
    requires groups != []
    ensures Place(window, [g] + groups, t) == [g] + Place(window, groups, t)
  {
    assert ([g] + groups)[..|groups|] == [g] + groups[..|groups| - 1];
  }

  lemma {:induction false} GreedyPlaces(window: int, all: seq<Trace>, t: Trace)
    ensures Greedy(window, all + [t]) == Place(window, Greedy(window, all), t)
    decreases |all|
  {
    if all == [] {
      assert all + [t] == [t];
      GreedyOfLead(window, [t]);
    } else if Lead(window, all) < |all| {
      GreedyPlaces(window, all[Lead(window, all)..], t);
      GreedyPlacesBehind(window, all, t);
    } else {
      GreedyPlacesInLead(window, all, t);
    }
  }

  lemma {:induction false} GreedyPlacesBehind(window: int, all: seq<Trace>, t: Trace)
    requires all != [] && Lead(window, all) < |all|
    requires var rest := all[Lead(window, all)..]; Greedy(window, rest + [t]) == Place(window, Greedy(window, rest), t)
    ensures Greedy(window, all + [t]) == Place(window, Greedy(window, all), t)
  {
    var more, n := all + [t], Lead(window, all);
    LeadAppended(window, all, t);
    assert more[..n] == all[..n];
    assert more[n..] == all[n..] + [t];
    PlaceBehind(window, all[..n], Greedy(window, all[n..]), t);
  }

  lemma {:induction false} GreedyPlacesInLead(window: int, all: seq<Trace>, t: Trace)
    requires all != [] && Lead(window, all) == |all|
    ensures Greedy(window, all + [t]) == Place(window, Greedy(window, all), t)
  {
    var more, n := all + [t], |all|;
    GreedyOfLead(window, all);
    LeadAppended(window, all, t);
    if Lead(window, more) == |more| {
      GreedyOfLead(window, more);
    } else {
      assert more[..n] == all;
      assert more[n..] == [t];
      GreedyOfLead(window, [t]);
    }
  }

  // ---- the groups are consecutive runs of the input, as long as the window allows ----

  function Concat(groups: seq<Cluster>): seq<Trace> {
    if groups == [] then [] else groups[0] + Concat(groups[1..])
  }

  ghost predicate WithinWindow(window: int, g: Cluster) {
    forall i | 1 <= i < |g| :: g[i].start - g[0].start <= window
  }

  /** Each group fits in the window of its head, and the next head does not. */
  ghost predicate AreRuns(window: int, groups: seq<Cluster>) {
    && (forall i | 0 <= i < |groups| :: WithinWindow(window, groups[i]))
    && (forall i | 0 < i < |groups| :: groups[i][0].start - groups[i - 1][0].start > window)
  }

  lemma {:induction false} RunsBehind(window: int, g: Cluster, groups: seq<Cluster>)
    requires WithinWindow(window, g) && AreRuns(window, groups)
    requires groups != [] ==> groups[0][0].start - g[0].start > window
    ensures AreRuns(window, [g] + groups)
  {
  }

  lemma {:induction false} GroupsAreRuns(window: int, all: seq<Trace>)
    ensures var groups := Greedy(window, all);
            && Concat(groups) == all
            && AreRuns(window, groups)
            && (all != [] ==> groups != [] && groups[0][0] == all[0])
    decreases |all|
  {
    if all == [] {
    } else {
      var n := Lead(window, all);
      var g, rest := all[..n], Greedy(window, all[n..]);
      GroupsAreRuns(window, all[n..]);
      LeadStops(window, all);
      assert WithinWindow(window, g);
      assert rest != [] ==> rest[0][0] == all[n];
      RunsBehind(window, g, rest);
      ConcatBehind(g, rest);
      assert all == g + all[n..];
    }
  }

  lemma {:induction false} ConcatBehind(g: Cluster, groups: seq<Cluster>)
    ensures Concat([g] + groups) == g + Concat(groups)
  {
    assert ([g] + groups)[1..] == groups;
  }

  // ---- no cover has fewer parts ----

  /** Every trace is in some part, and within a part starts lie at most `window` apart. */
  ghost predicate IsCover(window: int, all: seq<Trace>, parts: seq<set<Trace>>) {
    && (forall t | t in all :: exists k :: 0 <= k < |parts| && t in parts[k])
    && (forall k, a, b | 0 <= k < |parts| && a in parts[k] && b in parts[k] :: a.start - b.start <= window)
  }

  /** Where the head of a group stands in the input: behind the first group unless it is that group's. */
  lemma {:induction false} HeadIndex(window: int, all: seq<Trace>, i: nat)
    requires i < |Greedy(window, all)|
    ensures exists k :: IsHead(window, all, i, k)
    decreases |all|
  {
    if i == 0 {
      assert IsHead(window, all, 0, 0);
    } else {
      var n := Lead(window, all);
      HeadIndex(window, all[n..], i - 1);
      var m: nat :| IsHead(window, all[n..], i - 1, m);
      assert all[n..][m] == all[n + m];
      assert IsHead(window, all, i, n + m);
    }
  }

  ghost predicate IsHead(window: int, all: seq<Trace>, i: nat, k: nat) {
    && i < |Greedy(window, all)| && k < |all| && Greedy(window, all)[i][0] == all[k]
    && if i == 0 then k == 0 else k >= Lead(window, all)
  }

  lemma {:induction false} GroupBehind(window: int, all: seq<Trace>, i: nat)
    requires 0 < i < |Greedy(window, all)|
    ensures i - 1 < |Greedy(window, all[Lead(window, all)..])|
    ensures Greedy(window, all)[i] == Greedy(window, all[Lead(window, all)..])[i - 1]
  {
  }

  lemma {:induction false} SuffixIsSorted(all: seq<Trace>, n: nat)
    requires SortedByStart(all) && n <= |all|
    ensures SortedByStart(all[n..])
  {
  }

  lemma {:induction false} FirstHeadIsApart(window: int, all: seq<Trace>, j: nat)
    requires SortedByStart(all) && 0 < j < |Greedy(window, all)|
    ensures Greedy(window, all)[j][0].start - Greedy(window, all)[0][0].start > window
  {
    HeadIndex(window, all, j);
    var k: nat :| IsHead(window, all, j, k);
    LeadStops(window, all);
  }

  /** In a sorted input, the heads of two groups start more than `window` apart. */
  lemma {:induction false} HeadsAreApart(window: int, all: seq<Trace>, i: nat, j: nat)
    requires SortedByStart(all) && i < j < |Greedy(window, all)|
    ensures Greedy(window, all)[j][0].start - Greedy(window, all)[i][0].start > window
    decreases |all|
  {
    if i == 0 {
      FirstHeadIsApart(window, all, j);
    } else {
      var n := Lead(window, all);
      SuffixIsSorted(all, n);
      GroupBehind(window, all, i);
      GroupBehind(window, all, j);
      HeadsAreApart(window, all[n..], i - 1, j - 1);
    }
  }

  /** Greedy grouping is optimal: no family of sets of nearby traces that covers the input is smaller. */
  lemma {:induction false} GreedyIsOptimal(window: int, all: seq<Trace>, parts: seq<set<Trace>>)
    requires SortedByStart(all) && IsCover(window, all, parts)
    ensures |Greedy(window, all)| <= |parts|
  {
    var groups := Greedy(window, all);
    if |groups| > |parts| {
      forall i | 0 <= i < |groups| ensures exists k :: 0 <= k < |parts| && groups[i][0] in parts[k] {
        HeadIndex(window, all, i);
        var n: nat :| IsHead(window, all, i, n);
        assert all[n] in all;
      }
      var home := seq(|groups|, i requires 0 <= i < |groups| =>
                                  var k :| 0 <= k < |parts| && groups[i][0] in parts[k]; k);
      var i, j := Repeats(home, Below(|parts|));
      assert groups[i][0] in parts[home[i]] && groups[j][0] in parts[home[j]];
      HeadsAreApart(window, all, i, j);
    }
  }

  function SetsOf(groups: seq<Cluster>): (parts: seq<set<Trace>>)
    ensures |parts| == |groups|
  {
    seq(|groups|, i requires 0 <= i < |groups| => set t | t in groups[i])
  }

  lemma {:induction false} GroupBounds(window: int, all: seq<Trace>, i: nat, t: Trace)
    requires window >= 0 && SortedByStart(all) && i < |Greedy(window, all)| && t in Greedy(window, all)[i]
    ensures 0 <= t.start - Greedy(window, all)[i][0].start <= window
    decreases |all|
  {
    var n := Lead(window, all);
    LeadStops(window, all);
    if i == 0 {
      var j :| 0 <= j < n && all[j] == t;
    } else {
      GroupBounds(window, all[n..], i - 1, t);
    }
  }

  lemma {:induction false} EveryTraceIsGrouped(window: int, all: seq<Trace>, k: nat) returns (i: nat)
    requires k < |all|
    ensures i < |Greedy(window, all)| && all[k] in Greedy(window, all)[i]
    decreases |all|
  {
    var n := Lead(window, all);
    if k < n {
      i := 0;
      assert all[..n][k] == all[k];
    } else {
      i := EveryTraceIsGrouped(window, all[n..], k - n);
      i := i + 1;
    }
  }

  /** The optimum is attained: the greedy groups of a sorted input are such a cover themselves. */
  lemma {:induction false} GreedyIsCover(window: int, all: seq<Trace>)
    requires window >= 0 && SortedByStart(all)
    ensures IsCover(window, all, SetsOf(Greedy(window, all)))
  {
    var groups := Greedy(window, all);
    var parts := SetsOf(groups);
    forall t | t in all ensures exists k :: 0 <= k < |parts| && t in parts[k] {
      var k :| 0 <= k < |all| && all[k] == t;
      var i := EveryTraceIsGrouped(window, all, k);
      assert t in parts[i];
    }
    forall k, a: Trace, b: Trace | 0 <= k < |parts| && a in parts[k] && b in parts[k]
      ensures a.start - b.start <= window
    {
      GroupBounds(window, all, k, a);
      GroupBounds(window, all, k, b);
    }
  }

  function Below(n: nat): (r: set<int>)
    ensures |r| == n && forall k :: k in r <==> 0 <= k < n
  {
    if n == 0 then {} else Below(n - 1) + {n - 1}
  }

  // ---- the grouping depends on the multiset of traces only ----

  /** The first group of a sorted input holds exactly the traces that start within the window of the earliest. */
  lemma {:induction false} FirstGroupCounts(window: int, all: seq<Trace>, x: Trace)
    requires window >= 0 && SortedByStart(all) && all != []
    ensures multiset(all[..Lead(window, all)])[x] == if x.start <= all[0].start + window then multiset(all)[x] else 0
    ensures multiset(all[Lead(window, all)..])[x] == if x.start <= all[0].start + window then 0 else multiset(all)[x]
  {
    var n := Lead(window, all);
    assert all == all[..n] + all[n..];
    OneSideOnly(window, all, x);
  }

  lemma {:induction false} OneSideOnly(window: int, all: seq<Trace>, x: Trace)
    requires window >= 0 && SortedByStart(all) && all != []
    ensures x.start <= all[0].start + window ==> x !in all[Lead(window, all)..]
    ensures x.start > all[0].start + window ==> x !in all[..Lead(window, all)]
  {
    var n := Lead(window, all);
    LeadStops(window, all);
    forall i | n <= i < |all| ensures all[i].start > all[0].start + window {
      assert all[n].start <= all[i].start;
    }
  }

  lemma {:induction false} SameEarliest(s: seq<Trace>, t: seq<Trace>)
    requires SortedByStart(s) && SortedByStart(t) && multiset(s) == multiset(t) && s != []
    ensures t != [] && s[0].start == t[0].start
  {
    assert s[0] in multiset(s);
    assert s[0] in t;
    assert t[0] in multiset(t);
    assert t[0] in s;
  }

  lemma {:induction false} FirstGroupsAgree(window: int, s: seq<Trace>, t: seq<Trace>)
    requires window >= 0 && SortedByStart(s) && SortedByStart(t) && multiset(s) == multiset(t)
    requires s != [] && t != [] && s[0].start == t[0].start
    ensures multiset(s[..Lead(window, s)]) == multiset(t[..Lead(window, t)])
    ensures multiset(s[Lead(window, s)..]) == multiset(t[Lead(window, t)..])
  {
    forall x: Trace ensures multiset(s[..Lead(window, s)])[x] == multiset(t[..Lead(window, t)])[x] {
      FirstCountsAgree(window, s, t, x);
    }
    RestAgrees(window, s, t);
  }

  lemma {:induction false} RestAgrees(window: int, s: seq<Trace>, t: seq<Trace>)
    requires window >= 0 && SortedByStart(s) && SortedByStart(t) && multiset(s) == multiset(t)
    requires s != [] && t != [] && s[0].start == t[0].start
    ensures multiset(s[Lead(window, s)..]) == multiset(t[Lead(window, t)..])
  {
    forall x: Trace ensures multiset(s[Lead(window, s)..])[x] == multiset(t[Lead(window, t)..])[x] {
      FirstCountsAgree(window, s, t, x);
    }
  }

  lemma {:induction false} FirstCountsAgree(window: int, s: seq<Trace>, t: seq<Trace>, x: Trace)
    requires window >= 0 && SortedByStart(s) && SortedByStart(t) && multiset(s) == multiset(t)
    requires s != [] && t != [] && s[0].start == t[0].start
    ensures multiset(s[..Lead(window, s)])[x] == multiset(t[..Lead(window, t)])[x]
    ensures multiset(s[Lead(window, s)..])[x] == multiset(t[Lead(window, t)..])[x]
  {
    FirstGroupCounts(window, s, x);
    FirstGroupCounts(window, t, x);
  }

  ghost predicate SameGroups(g: seq<Cluster>, h: seq<Cluster>) {
    |g| == |h| && forall i | 0 <= i < |g| :: multiset(g[i]) == multiset(h[i])
  }

  /** Whatever the arrival order and however the sort breaks ties, the groups are the same. */
  lemma {:induction false} GroupsAreDetermined(window: int, s: seq<Trace>, t: seq<Trace>)
    requires window >= 0 && SortedByStart(s) && SortedByStart(t) && multiset(s) == multiset(t)
    ensures SameGroups(Greedy(window, s), Greedy(window, t))
    decreases |s|
  {
    if s == [] {
      assert |multiset(t)| == |multiset(s)| == 0;
    } else {
      SameEarliest(s, t);
      FirstGroupsAgree(window, s, t);
      var n, m := Lead(window, s), Lead(window, t);
      assert SortedByStart(s[n..]) && SortedByStart(t[m..]);
      GroupsAreDetermined(window, s[n..], t[m..]);
      SameGroupsBehind(s[..n], Greedy(window, s[n..]), t[..m], Greedy(window, t[m..]));
    }
  }

  lemma {:induction false} SameGroupsBehind(g: Cluster, gs: seq<Cluster>, h: Cluster, hs: seq<Cluster>)
    requires multiset(g) == multiset(h) && SameGroups(gs, hs)
    ensures SameGroups([g] + gs, [h] + hs)
  {
  }

  /** A negative window isolates every trace, and then ties show: order-independence holds exactly for windows >= 0. */
  lemma {:induction false} OrderIndependence(window: int)
    ensures (forall s, t | SortedByStart(s) && SortedByStart(t) && multiset(s) == multiset(t) ::
              SameGroups(Greedy(window, s), Greedy(window, t)))
            <==> window >= 0
  {
    if window >= 0 {
      forall s, t | SortedByStart(s) && SortedByStart(t) && multiset(s) == multiset(t)
        ensures SameGroups(Greedy(window, s), Greedy(window, t))
      {
        GroupsAreDetermined(window, s, t);
      }
    } else {
      var a, b := Trace("", 1, "", 0, 0, []), Trace("", 2, "", 0, 0, []);
      TiesShow(window, a, b);
    }
  }

  lemma {:induction false} TiesShow(window: int, a: Trace, b: Trace)
    requires window < 0 && a.start == b.start && a != b
    ensures SortedByStart([a, b]) && SortedByStart([b, a]) && multiset([a, b]) == multiset([b, a])
    ensures !SameGroups(Greedy(window, [a, b]), Greedy(window, [b, a]))
  {
    GreedyOfLead(window, [a]);
    GreedyOfLead(window, [b]);
    GreedyPlaces(window, [a], b);
    GreedyPlaces(window, [b], a);
    assert [a] + [b] == [a, b] && [b] + [a] == [b, a];
    assert Greedy(window, [a, b])[0] == [a] && Greedy(window, [b, a])[0] == [b];
    assert multiset([a])[a] == 1;
    assert multiset([b])[a] == 0;
  }

  // ---- later traces only touch the last group ----

  ghost predicate Extends(before: seq<Cluster>, after: seq<Cluster>) {
    && |before| <= |after|
    && (forall i | 0 <= i < |before| - 1 :: after[i] == before[i])
    && (before != [] ==> before[|before| - 1] <= after[|before| - 1])
  }

  lemma {:induction false} PlaceExtends(window: int, before: seq<Cluster>, groups: seq<Cluster>, t: Trace)
    requires Extends(before, groups)
    ensures Extends(before, Place(window, groups, t))
  {
  }

  lemma {:induction false} LaterTracesExtend(window: int, s: seq<Trace>, t: seq<Trace>)
    ensures Extends(Greedy(window, s), Greedy(window, s + t))
    decreases |t|
  {
    if t == [] {
      assert s + t == s;
    } else {
      var init, last := t[..|t| - 1], t[|t| - 1];
      LaterTracesExtend(window, s, init);
      assert s + t == (s + init) + [last];
      GreedyPlaces(window, s + init, last);
      PlaceExtends(window, Greedy(window, s), Greedy(window, s + init), last);
    }
  }

  ghost predicate ExtendsAsBags(before: seq<Cluster>, after: seq<Cluster>) {
    && |before| <= |after|
    && (forall i | 0 <= i < |before| - 1 :: multiset(after[i]) == multiset(before[i]))
    && (before != [] ==> multiset(before[|before| - 1]) <= multiset(after[|before| - 1]))
  }

  lemma {:induction false} ExtendsUpToOrder(before: seq<Cluster>, mid: seq<Cluster>, after: seq<Cluster>)
    requires Extends(before, mid) && SameGroups(mid, after)
    ensures ExtendsAsBags(before, after)
  {
    if before != [] {
      var k := |before| - 1;
      assert mid[k] == before[k] + mid[k][|before[k]|..];
    }
  }

  /** Traces that start no earlier than everything collected so far leave every group but the last
      as it was, and can only add to the last, whatever the sort does. */
  lemma {:induction false} LaterArrivalsExtend(
      window: int, earlier: seq<Trace>, added: seq<Trace>, s: seq<Trace>, all: seq<Trace>)
    requires window >= 0
    requires forall a, b | a in earlier && b in added :: a.start <= b.start
    requires IsSortOf(s, earlier, StartOrder()) && IsSortOf(all, earlier + added, StartOrder())
    ensures ExtendsAsBags(Greedy(window, s), Greedy(window, all))
  {
    var t := SortOf(added, StartOrder());
    SortsMeet(earlier, added, s, t);
    SortIsByStart(all, earlier + added);
    assert multiset(s + t) == multiset(earlier) + multiset(added) == multiset(earlier + added);
    LaterTracesExtend(window, s, t);
    GroupsAreDetermined(window, s + t, all);
    ExtendsUpToOrder(Greedy(window, s), Greedy(window, s + t), Greedy(window, all));
  }

  lemma {:induction false} SortIsByStart(s: seq<Trace>, xs: seq<Trace>)
    requires IsSortOf(s, xs, StartOrder())
    ensures SortedByStart(s)
    ensures forall x | x in s :: x in xs
  {
    forall i, j | 0 <= i < j < |s| ensures s[i].start <= s[j].start {
      assert StartOrder()(s[i], s[j]);
    }
    forall x | x in s ensures x in xs {
      assert x in multiset(s);
    }
  }

  lemma {:induction false} SortsMeet(earlier: seq<Trace>, added: seq<Trace>, s: seq<Trace>, t: seq<Trace>)
    requires forall a, b | a in earlier && b in added :: a.start <= b.start
    requires IsSortOf(s, earlier, StartOrder()) && IsSortOf(t, added, StartOrder())
    ensures SortedByStart(s + t)
  {
    SortIsByStart(s, earlier);
    SortIsByStart(t, added);
    forall i, j | 0 <= i < j < |s + t| ensures (s + t)[i].start <= (s + t)[j].start {
      if i < |s| <= j {
        assert s[i] in earlier && t[j - |s|] in added;
      }
    }
  }
}
