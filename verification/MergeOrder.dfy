/** The merged traces do not depend on the order in which the per-node traces arrive, nor on how the
    sorts break ties, up to the order of what is tied. */
module MergeOrder {
  import opened Text
  import opened Correlate
  import opened Sorting
  import opened Grouping
  import opened Merge

  /** Equal but for the order of simultaneous spans, of roots, and of links with equal votes. */
  ghost predicate SameTrace(d: DTrace, e: DTrace) {
    && d.id == e.id && d.start == e.start && d.spanMs == e.spanMs && d.nodes == e.nodes
    && multiset(d.spans) == multiset(e.spans)
    && multiset(d.roots) == multiset(e.roots)
    && (d.link == "" <==> e.link == "")
  }

  // ---- collecting in any order ----

  /** What the elements contribute, all together. */
  function Total<T, X>(xs: seq<T>, of: T -> multiset<X>): multiset<X> {
    if xs == [] then multiset{} else Total(xs[..|xs| - 1], of) + of(xs[|xs| - 1])
  }

  function Without<T>(xs: seq<T>, i: nat): seq<T>
    requires i < |xs|
  {
    xs[..i] + xs[i + 1..]
  }

  lemma {:induction false} WithoutBag<T>(xs: seq<T>, i: nat)
    requires i < |xs|
    ensures multiset(Without(xs, i)) == multiset(xs) - multiset{xs[i]}
  {
    assert xs == xs[..i] + [xs[i]] + xs[i + 1..];
  }

  lemma {:induction false} TotalAppended<T, X>(xs: seq<T>, x: T, of: T -> multiset<X>)
    ensures Total(xs + [x], of) == Total(xs, of) + of(x)
  {
    assert (xs + [x])[..|xs|] == xs;
  }

  lemma {:induction false} TotalWithout<T, X>(xs: seq<T>, i: nat, of: T -> multiset<X>)
    requires i < |xs|
    ensures Total(xs, of) == Total(Without(xs, i), of) + of(xs[i])
  {
    var n := |xs| - 1;
    if i == n {
      assert Without(xs, i) == xs[..n];
    } else {
      TotalWithout(xs[..n], i, of);
      assert Without(xs, i) == Without(xs[..n], i) + [xs[n]];
      TotalAppended(Without(xs[..n], i), xs[n], of);
    }
  }

  /** The total depends on the elements only, not on their order. */
  lemma {:induction false} TotalsAgree<T, X>(xs: seq<T>, ys: seq<T>, of: T -> multiset<X>)
    requires multiset(xs) == multiset(ys)
    ensures Total(xs, of) == Total(ys, of)
    decreases |xs|
  {
    assert |multiset(xs)| == |xs| && |multiset(ys)| == |ys|;
    if xs != [] {
      var n := |xs| - 1;
      assert xs[n] in multiset(ys);
      var i :| 0 <= i < |ys| && ys[i] == xs[n];
      WithoutBag(xs, n);
      WithoutBag(ys, i);
      TotalsAgree(Without(xs, n), Without(ys, i), of);
      TotalWithout(xs, n, of);
      TotalWithout(ys, i, of);
    }
  }

  function SpanBag(): Trace -> multiset<DSpan> {
    (t: Trace) => multiset(SpansUpTo(t, |t.spans|))
  }

  function RootBag(): Trace -> multiset<string> {
    (t: Trace) => multiset{t.node + ": " + t.root}
  }

  function LinkBag(): Trace -> multiset<string> {
    (t: Trace) => multiset{LinkKey(t.root)}
  }

  function PlacedBag(start: int): DSpan -> multiset<DSpan> {
    (s: DSpan) => multiset{Placed(s, start)}
  }

  lemma {:induction false} SpansAreTotal(g: seq<Trace>)
    ensures multiset(RawSpans(g)) == Total(g, SpanBag())
  {
    if g != [] {
      SpansAreTotal(g[..|g| - 1]);
    }
  }

  lemma {:induction false} RootsAreTotal(g: seq<Trace>)
    ensures multiset(Roots(g)) == Total(g, RootBag())
  {
    if g != [] {
      RootsAreTotal(g[..|g| - 1]);
    }
  }

  lemma {:induction false} VotesAreTotal(g: seq<Trace>, key: string)
    ensures Votes(g, key) == Total(g, LinkBag())[key]
  {
    if g != [] {
      VotesAreTotal(g[..|g| - 1], key);
    }
  }

  lemma {:induction false} PlacedAreTotal(spans: seq<DSpan>, start: int)
    requires forall i | 0 <= i < |spans| :: spans[i].offsetMs == Millis(spans[i].abs - start)
    ensures multiset(spans) == Total(AllUnplaced(spans), PlacedBag(start))
  {
    if spans != [] {
      var n := |spans| - 1;
      PlacedAreTotal(spans[..n], start);
      PlacedStep(spans[..n], spans[n], start);
      assert spans == spans[..n] + [spans[n]];
    }
  }

  lemma {:induction false} PlacedStep(spans: seq<DSpan>, s: DSpan, start: int)
    requires multiset(spans) == Total(AllUnplaced(spans), PlacedBag(start)) && s.offsetMs == Millis(s.abs - start)
    ensures multiset(spans + [s]) == Total(AllUnplaced(spans + [s]), PlacedBag(start))
  {
    assert AllUnplaced(spans + [s]) == AllUnplaced(spans) + [Unplaced(s)];
    TotalAppended(AllUnplaced(spans), Unplaced(s), PlacedBag(start));
    assert Placed(Unplaced(s), start) == s;
  }

  /** Spans, roots and votes of a group do not depend on the order of its traces. */
  lemma {:induction false} CollectedAgree(g: seq<Trace>, h: seq<Trace>)
    requires multiset(g) == multiset(h)
    ensures multiset(RawSpans(g)) == multiset(RawSpans(h))
    ensures multiset(Roots(g)) == multiset(Roots(h))
  {
    SpansAreTotal(g);
    SpansAreTotal(h);
    TotalsAgree(g, h, SpanBag());
    RootsAreTotal(g);
    RootsAreTotal(h);
    TotalsAgree(g, h, RootBag());
  }

  lemma {:induction false} VotesAgree(g: seq<Trace>, h: seq<Trace>, key: string)
    requires multiset(g) == multiset(h)
    ensures Votes(g, key) == Votes(h, key)
  {
    VotesAreTotal(g, key);
    VotesAreTotal(h, key);
    TotalsAgree(g, h, LinkBag());
  }

  // ---- the timeline ----

  /** Two orders of the same collected spans begin and end at the same times. */
  lemma {:induction false} SameEnds(d: DTrace, e: DTrace)
    requires OnTimeline(d.start, d.spanMs, d.spans) && OnTimeline(e.start, e.spanMs, e.spans)
    requires multiset(AllUnplaced(d.spans)) == multiset(AllUnplaced(e.spans))
    ensures d.start == e.start && d.spanMs == e.spanMs
  {
    assert |multiset(AllUnplaced(d.spans))| == |d.spans| && |multiset(AllUnplaced(e.spans))| == |e.spans|;
    if d.spans != [] {
      Bounds(d.spans, e.spans);
      Bounds(e.spans, d.spans);
    }
  }

  lemma {:induction false} Bounds(s: seq<DSpan>, t: seq<DSpan>)
    requires s != [] && |s| == |t| && multiset(AllUnplaced(s)) == multiset(AllUnplaced(t))
    requires forall i, j | 0 <= i < j < |t| :: t[i].abs <= t[j].abs
    ensures t[0].abs <= s[0].abs && s[|s| - 1].abs <= t[|t| - 1].abs
  {
    forall i | 0 <= i < |s|
      ensures t[0].abs <= s[i].abs <= t[|t| - 1].abs
    {
      assert AllUnplaced(s)[i] in multiset(AllUnplaced(t));
      var j :| 0 <= j < |t| && AllUnplaced(t)[j] == AllUnplaced(s)[i];
      assert t[j].abs == s[i].abs;
    }
  }

  lemma {:induction false} SameSpans(d: DTrace, e: DTrace)
    requires OnTimeline(d.start, d.spanMs, d.spans) && OnTimeline(e.start, e.spanMs, e.spans)
    requires multiset(AllUnplaced(d.spans)) == multiset(AllUnplaced(e.spans))
    ensures multiset(d.spans) == multiset(e.spans)
  {
    SameEnds(d, e);
    PlacedAreTotal(d.spans, d.start);
    PlacedAreTotal(e.spans, e.start);
    TotalsAgree(AllUnplaced(d.spans), AllUnplaced(e.spans), PlacedBag(d.start));
  }

  // ---- the nodes ----

  /** Where the order never ties two different elements, there is one way to sort. */
  lemma {:induction false} SortIsUnique<T(!new)>(a: seq<T>, b: seq<T>, leq: (T, T) -> bool)
    requires TotalPreorder(leq) && (forall x, y | leq(x, y) && leq(y, x) :: x == y)
    requires SortedBy(a, leq) && SortedBy(b, leq) && multiset(a) == multiset(b)
    ensures a == b
  {
    assert |multiset(a)| == |a| && |multiset(b)| == |b|;
    if a != [] {
      LeastFirst(a, b, leq);
      LeastFirst(b, a, leq);
      TailBag(a);
      TailBag(b);
      SortedTail(a, leq);
      SortedTail(b, leq);
      SortIsUnique(a[1..], b[1..], leq);
    }
  }

  lemma {:induction false} TailBag<T>(a: seq<T>)
    requires a != []
    ensures a == [a[0]] + a[1..] && multiset(a[1..]) == multiset(a) - multiset{a[0]}
  {
    assert a == [a[0]] + a[1..];
  }

  lemma {:induction false} SortedTail<T>(a: seq<T>, leq: (T, T) -> bool)
    requires a != [] && SortedBy(a, leq)
    ensures SortedBy(a[1..], leq)
  {
    forall i, j | 0 <= i < j < |a[1..]| ensures leq(a[1..][i], a[1..][j]) {
      assert leq(a[i + 1], a[j + 1]);
    }
  }

  lemma {:induction false} LeastFirst<T(!new)>(a: seq<T>, b: seq<T>, leq: (T, T) -> bool)
    requires TotalPreorder(leq)
    requires a != [] && |a| == |b| && SortedBy(a, leq) && multiset(a) == multiset(b)
    ensures leq(a[0], b[0])
  {
    assert b[0] in multiset(a);
    var i :| 0 <= i < |a| && a[i] == b[0];
    assert leq(a[0], a[0]);
    assert i > 0 ==> leq(a[0], a[i]);
  }

  /** Strings sort one way only. */
  lemma {:induction false} StringSortIsUnique(a: seq<string>, b: seq<string>)
    requires SortedBy(a, StringOrder()) && SortedBy(b, StringOrder()) && multiset(a) == multiset(b)
    ensures a == b
  {
    StringsAreOrdered();
    forall x, y | StringOrder()(x, y) && StringOrder()(y, x) ensures x == y {
      StringLeqTotal(x, y);
    }
    SortIsUnique(a, b, StringOrder());
  }

  lemma {:induction false} SameNodes(g: seq<Trace>, h: seq<Trace>)
    requires multiset(g) == multiset(h)
    ensures Nodes(g) == Nodes(h)
  {
    assert forall t :: t in g <==> t in multiset(g);
    assert forall t :: t in h <==> t in multiset(h);
  }

  // ---- merged traces ----

  lemma {:induction false} MergesAgree(id: int, d: DTrace, g: Cluster, e: DTrace, h: Cluster)
    requires IsMerge(d, id, g) && IsMerge(e, id, h) && multiset(g) == multiset(h)
    ensures SameTrace(d, e)
    ensures Votes(g, d.link) == Votes(g, e.link) && (OneLeader(g) ==> d.link == e.link)
  {
    CollectedAgree(g, h);
    SameEnds(d, e);
    SameSpans(d, e);
    SameNodes(g, h);
    StringSortIsUnique(d.nodes, e.nodes);
    LinksAgree(g, d.link, h, e.link);
  }

  ghost predicate Leads(g: seq<Trace>, link: string) {
    link != "" && Votes(g, link) > 0 && forall key | key != "" :: Votes(g, key) <= Votes(g, link)
  }

  ghost predicate OneLeader(g: seq<Trace>) {
    forall k, l | Leads(g, k) && Leads(g, l) :: k == l
  }

  lemma {:induction false} ElectedLeads(g: seq<Trace>, link: string)
    requires Elected(g, link)
    ensures if link != "" then Leads(g, link) else forall key :: !Leads(g, key)
  {
    if link != "" {
      var key :| key != "" && Votes(g, key) != 0;
      assert Votes(g, key) <= Votes(g, link);
    }
  }

  lemma {:induction false} LeaderIsElected(g: seq<Trace>, link: string)
    requires Leads(g, link)
    ensures Elected(g, link)
  {
  }

  /** The elected link does not depend on the map order if and only if no two links lead. */
  lemma {:induction false} LinkIsDetermined(g: seq<Trace>)
    ensures (forall k, l | Elected(g, k) && Elected(g, l) :: k == l) <==> OneLeader(g)
  {
    if OneLeader(g) {
      forall k, l | Elected(g, k) && Elected(g, l) ensures k == l {
        ElectedLeads(g, k);
        ElectedLeads(g, l);
      }
    } else {
      var k, l :| Leads(g, k) && Leads(g, l) && k != l;
      LeaderIsElected(g, k);
      LeaderIsElected(g, l);
    }
  }

  /** Two traces that name two links make a tie, and either link can be elected. */
  lemma {:induction false} TiedLinksAreAmbiguous(t: Trace, u: Trace)
    requires LinkKey(t.root) != "" && LinkKey(u.root) != "" && LinkKey(t.root) != LinkKey(u.root)
    ensures Elected([t, u], LinkKey(t.root)) && Elected([t, u], LinkKey(u.root)) && !OneLeader([t, u])
  {
    forall key ensures Votes([t, u], key) == (if key == LinkKey(t.root) || key == LinkKey(u.root) then 1 else 0) {
      VotesAppended([], t, key);
      VotesAppended([t], u, key);
      assert [] + [t] == [t] && [t] + [u] == [t, u];
    }
    assert Leads([t, u], LinkKey(t.root)) && Leads([t, u], LinkKey(u.root));
    LeaderIsElected([t, u], LinkKey(t.root));
    LeaderIsElected([t, u], LinkKey(u.root));
  }

  lemma {:induction false} VotesAppended(g: seq<Trace>, t: Trace, key: string)
    ensures Votes(g + [t], key) == Votes(g, key) + (if LinkKey(t.root) == key then 1 else 0)
  {
    assert (g + [t])[..|g|] == g;
  }

  /** Two elections over the same votes elect links with equally many. */
  lemma {:induction false} LinksAgree(g: seq<Trace>, k: string, h: seq<Trace>, l: string)
    requires Elected(g, k) && Elected(h, l) && multiset(g) == multiset(h)
    ensures k == "" <==> l == ""
    ensures Votes(g, k) == Votes(g, l)
    ensures OneLeader(g) ==> k == l
  {
    forall key ensures Votes(g, key) == Votes(h, key) {
      VotesAgree(g, h, key);
    }
    assert Elected(g, l);
    LinkIsDetermined(g);
    if k != "" {
      assert exists key :: key != "" && Votes(g, key) != 0;
    }
    if l != "" {
      assert exists key :: key != "" && Votes(h, key) != 0;
    }
  }

  /** Whatever the arrival order and however ties are sorted, the aggregator outputs the same traces. */
  lemma {:induction false} BuildIsOrderIndependent(
      window: int, s: seq<Trace>, dts: seq<DTrace>, t: seq<Trace>, ets: seq<DTrace>)
    requires window >= 0 && SortedByStart(s) && SortedByStart(t) && multiset(s) == multiset(t)
    requires AreMerges(dts, Greedy(window, s)) && AreMerges(ets, Greedy(window, t))
    ensures |dts| == |ets| == |Greedy(window, s)|
    ensures forall i | 0 <= i < |dts| ::
              SameTrace(dts[i], ets[i]) && (OneLeader(Greedy(window, s)[i]) ==> dts[i].link == ets[i].link)
  {
    GroupsAreDetermined(window, s, t);
    forall i | 0 <= i < |dts|
      ensures SameTrace(dts[i], ets[i]) && (OneLeader(Greedy(window, s)[i]) ==> dts[i].link == ets[i].link)
    {
      MergesAgree(i + 1, dts[i], Greedy(window, s)[i], ets[i], Greedy(window, t)[i]);
    }
  }
}
