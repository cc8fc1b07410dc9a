/** Merged traces in terms of the events behind them: when each event shows on the common timeline, what a single
    trace becomes, and which link is named. */
module MergeLaws {
  import opened Text
  import opened Correlate
  import opened Sorting
  import opened Grouping
  import opened Merge
  import opened MergeOrder

  // ---- every span arrives ----

  /** The span `s` of `t`, with the time that it stands for. */
  predicate Shows(d: DSpan, t: Trace, s: Span) {
    && (d.node, d.bus, d.kind, d.key, d.detail) == (t.node, s.bus, s.kind, s.key, s.detail)
    && d.abs == t.start + 1_000_000 * s.offsetMs
  }

  lemma {:induction false} RawAt(t: Trace, n: nat, k: nat)
    requires k < n <= |t.spans|
    ensures |SpansUpTo(t, n)| == n && Shows(SpansUpTo(t, n)[k], t, t.spans[k])
  {
    RawSize(t, n - 1);
    if k < n - 1 {
      RawAt(t, n - 1, k);
    }
  }

  lemma {:induction false} RawSize(t: Trace, n: nat)
    requires n <= |t.spans|
    ensures |SpansUpTo(t, n)| == n
  {
    if n > 0 {
      RawSize(t, n - 1);
    }
  }

  lemma {:induction false} RawOfTrace(g: seq<Trace>, i: nat, x: DSpan)
    requires i < |g| && x in SpansUpTo(g[i], |g[i].spans|)
    ensures x in RawSpans(g)
  {
    if i < |g| - 1 {
      RawOfTrace(g[..|g| - 1], i, x);
    }
  }

  /** Every span of every trace of the group is on the merged timeline, at its own time. */
  lemma {:induction false} EverySpanIsMerged(d: DTrace, id: int, g: seq<Trace>, i: nat, k: nat)
    requires IsMerge(d, id, g) && i < |g| && k < |g[i].spans|
    ensures exists j :: 0 <= j < |d.spans| && Shows(d.spans[j], g[i], g[i].spans[k])
  {
    var t := g[i];
    RawAt(t, |t.spans|, k);
    var x := SpansUpTo(t, |t.spans|)[k];
    RawOfTrace(g, i, x);
    assert x in multiset(AllUnplaced(d.spans));
    var j :| 0 <= j < |d.spans| && AllUnplaced(d.spans)[j] == x;
    assert Shows(d.spans[j], t, t.spans[k]);
  }

  /** And there is nothing else on it. */
  lemma {:induction false} EverySpanIsFromTrace(d: DTrace, id: int, g: seq<Trace>, j: nat)
    requires IsMerge(d, id, g) && j < |d.spans|
    ensures exists i, k :: 0 <= i < |g| && 0 <= k < |g[i].spans| && Shows(d.spans[j], g[i], g[i].spans[k])
  {
    var x := Unplaced(d.spans[j]);
    assert x == AllUnplaced(d.spans)[j] && x in multiset(RawSpans(g));
    var i, k := SourceOf(g, x);
  }

  lemma {:induction false} SourceOf(g: seq<Trace>, x: DSpan) returns (i: nat, k: nat)
    requires x in RawSpans(g)
    ensures i < |g| && k < |g[i].spans| && Shows(x, g[i], g[i].spans[k])
  {
    var n := |g| - 1;
    if x in RawSpans(g[..n]) {
      i, k := SourceOf(g[..n], x);
    } else {
      var t := g[n];
      RawSize(t, |t.spans|);
      k :| 0 <= k < |t.spans| && SpansUpTo(t, |t.spans|)[k] == x;
      RawAt(t, |t.spans|, k);
      i := n;
    }
  }

  function SpanCount(g: seq<Trace>): nat {
    if g == [] then 0 else SpanCount(g[..|g| - 1]) + |g[|g| - 1].spans|
  }

  /** Nor is anything on it twice. */
  lemma {:induction false} SpansAreCounted(d: DTrace, id: int, g: seq<Trace>)
    requires IsMerge(d, id, g)
    ensures |d.spans| == SpanCount(g)
  {
    RawCount(g);
    assert |multiset(AllUnplaced(d.spans))| == |d.spans| && |multiset(RawSpans(g))| == |RawSpans(g)|;
  }

  lemma {:induction false} RawCount(g: seq<Trace>)
    ensures |RawSpans(g)| == SpanCount(g)
  {
    if g != [] {
      RawCount(g[..|g| - 1]);
      RawSize(g[|g| - 1], |g[|g| - 1].spans|);
    }
  }

  // ---- events on the timeline ----

  /** The event at less than a millisecond before its time. */
  predicate ShowsEvent(d: DSpan, node: string, e: Event) {
    && (d.node, d.bus, d.kind, d.key, d.detail) == (node, e.bus, e.kind, e.key, e.detail)
    && d.abs <= e.ts < d.abs + 1_000_000
  }

  /** A segment as the correlator closes it: events in order, the first one at the start. */
  predicate IsSegment(acc: Acc) {
    acc.events != [] && acc.start == acc.events[0].ts && acc.last == acc.events[|acc.events| - 1].ts &&
    InOrder(acc.events)
  }

  /** Every event that a node correlated into a trace of the group is on the merged timeline at its time. */
  lemma {:induction false} EveryEventIsMerged(
      d: DTrace, id: int, g: seq<Trace>, i: nat, node: string, no: int, acc: Acc, k: nat)
    requires IsMerge(d, id, g) && i < |g| && g[i] == TraceOf(node, no, acc)
    requires IsSegment(acc) && k < |acc.events|
    ensures exists j :: 0 <= j < |d.spans| && ShowsEvent(d.spans[j], node, acc.events[k])
  {
    EverySpanIsMerged(d, id, g, i, k);
    var j :| 0 <= j < |d.spans| && Shows(d.spans[j], g[i], g[i].spans[k]);
    EventsAfterFirst(acc.events, k);
    WholeMilliseconds(acc.events[k].ts - acc.start);
    assert ShowsEvent(d.spans[j], node, acc.events[k]);
  }

  lemma {:induction false} WholeMilliseconds(ns: int)
    requires ns >= 0
    ensures 1_000_000 * Millis(ns) <= ns < 1_000_000 * Millis(ns) + 1_000_000
  {
  }

  // ---- one trace alone ----

  function AbsOf(spans: seq<DSpan>): (r: seq<int>)
    ensures |r| == |spans| && forall i | 0 <= i < |r| :: r[i] == spans[i].abs
  {
    seq(|spans|, i requires 0 <= i < |spans| => spans[i].abs)
  }

  function AbsBag(): DSpan -> multiset<int> {
    (s: DSpan) => multiset{s.abs}
  }

  function IntOrder(): (int, int) -> bool {
    (a: int, b: int) => a <= b
  }

  lemma {:induction false} AbsAreTotal(spans: seq<DSpan>)
    ensures multiset(AbsOf(spans)) == Total(spans, AbsBag())
  {
    if spans != [] {
      var n := |spans| - 1;
      AbsAreTotal(spans[..n]);
      assert AbsOf(spans) == AbsOf(spans[..n]) + [spans[n].abs];
    }
  }

  lemma {:induction false} SameTimes(a: seq<DSpan>, b: seq<DSpan>)
    requires multiset(a) == multiset(b)
    requires forall i, j | 0 <= i < j < |a| :: a[i].abs <= a[j].abs
    requires forall i, j | 0 <= i < j < |b| :: b[i].abs <= b[j].abs
    ensures AbsOf(a) == AbsOf(b)
  {
    AbsAreTotal(a);
    AbsAreTotal(b);
    TotalsAgree(a, b, AbsBag());
    SortIsUnique(AbsOf(a), AbsOf(b), IntOrder());
  }

  /** When an event of a segment shows, in whole milliseconds from the start. */
  function ShownAt(acc: Acc, i: nat): int
    requires i < |acc.events|
  {
    acc.start + 1_000_000 * Millis(acc.events[i].ts - acc.start)
  }

  lemma {:induction false} RawAtSegment(node: string, no: int, acc: Acc, i: nat)
    requires i < |acc.events|
    ensures |RawSpans([TraceOf(node, no, acc)])| == |acc.events|
    ensures RawSpans([TraceOf(node, no, acc)])[i].abs == ShownAt(acc, i)
  {
    var t := TraceOf(node, no, acc);
    RawOfOne(t);
    RawAt(t, |t.spans|, i);
  }

  lemma {:induction false} ShownInOrder(acc: Acc, i: nat, j: nat)
    requires InOrder(acc.events) && i <= j < |acc.events|
    ensures ShownAt(acc, i) <= ShownAt(acc, j)
  {
    EventsAscend(acc.events, i, j);
  }

  lemma {:induction false} RawOfSegment(node: string, no: int, acc: Acc)
    requires IsSegment(acc)
    ensures var raw := RawSpans([TraceOf(node, no, acc)]);
            && |raw| == |acc.events| && (forall i | 0 <= i < |raw| :: raw[i].abs == ShownAt(acc, i))
            && forall i, j | 0 <= i < j < |raw| :: raw[i].abs <= raw[j].abs
  {
    var raw := RawSpans([TraceOf(node, no, acc)]);
    RawAtSegment(node, no, acc, 0);
    forall i | 0 <= i < |raw| ensures raw[i].abs == ShownAt(acc, i) {
      RawAtSegment(node, no, acc, i);
    }
    forall i, j | 0 <= i < j < |raw| ensures raw[i].abs <= raw[j].abs {
      ShownInOrder(acc, i, j);
    }
  }

  lemma {:induction false} TimesOfOne(d: DTrace, id: int, node: string, no: int, acc: Acc)
    requires IsSegment(acc) && IsMerge(d, id, [TraceOf(node, no, acc)])
    ensures |d.spans| == |acc.events| && forall i | 0 <= i < |d.spans| :: d.spans[i].abs == ShownAt(acc, i)
  {
    var raw, un := RawSpans([TraceOf(node, no, acc)]), AllUnplaced(d.spans);
    RawOfSegment(node, no, acc);
    SameTimes(un, raw);
    assert |AbsOf(un)| == |AbsOf(raw)|;
    forall i | 0 <= i < |d.spans| ensures d.spans[i].abs == ShownAt(acc, i) {
      assert AbsOf(un)[i] == AbsOf(raw)[i];
    }
  }

  /** The merge of one trace starts when the trace does, shows the same offsets and lasts as long. */
  lemma {:induction false} OneTraceIsKept(d: DTrace, id: int, node: string, no: int, acc: Acc)
    requires IsSegment(acc) && IsMerge(d, id, [TraceOf(node, no, acc)])
    ensures d.start == acc.start && d.spanMs == Millis(acc.last - acc.start) && |d.spans| == |acc.events|
    ensures forall i | 0 <= i < |d.spans| :: d.spans[i].offsetMs == Millis(acc.events[i].ts - acc.start)
  {
    TimesOfOne(d, id, node, no, acc);
    StartOfOne(d, acc);
    forall i | 0 <= i < |d.spans| ensures d.spans[i].offsetMs == Millis(acc.events[i].ts - acc.start) {
      OffsetInOne(d, acc, i);
    }
  }

  lemma {:induction false} StartOfOne(d: DTrace, acc: Acc)
    requires IsSegment(acc) && OnTimeline(d.start, d.spanMs, d.spans)
    requires |d.spans| == |acc.events| && forall i | 0 <= i < |d.spans| :: d.spans[i].abs == ShownAt(acc, i)
    ensures d.start == acc.start && d.spanMs == d.spans[|d.spans| - 1].offsetMs
  {
  }

  lemma {:induction false} OffsetInOne(d: DTrace, acc: Acc, i: nat)
    requires OnTimeline(d.start, d.spanMs, d.spans) && d.start == acc.start
    requires i < |d.spans| == |acc.events| && d.spans[i].abs == ShownAt(acc, i)
    ensures d.spans[i].offsetMs == Millis(acc.events[i].ts - acc.start)
  {
    BackToMillis(Millis(acc.events[i].ts - acc.start));
  }

  lemma {:induction false} RawOfOne(t: Trace)
    ensures RawSpans([t]) == SpansUpTo(t, |t.spans|)
  {
    assert [t][..0] == [];
    assert RawSpans([t]) == [] + SpansUpTo(t, |t.spans|);
  }

  lemma {:induction false} BackToMillis(ms: int)
    ensures Millis(1_000_000 * ms) == ms
  {
  }

  lemma {:induction false} EventsAscend(events: seq<Event>, i: nat, j: nat)
    requires InOrder(events) && i <= j < |events|
    ensures events[i].ts <= events[j].ts
  {
    if i < j {
      EventsAscend(events, i, j - 1);
    }
  }

  // ---- from arrivals to the timeline ----

  /** Every trace that a time-ordered run publishes is one of a segment in order. */
  lemma {:induction false} PublishedSegment(cfg: Settings, inputs: seq<Input>, t: Trace) returns (acc: Acc)
    requires Ordered(inputs) && t in Publish(cfg.node, Settled(Fold(cfg, inputs)))
    ensures IsSegment(acc) && t == TraceOf(cfg.node, t.id, acc)
  {
    var st := Fold(cfg, inputs);
    RunIsInOrder(cfg, inputs);
    EventsAreConserved(cfg, inputs);
    PublishedFromSegments(cfg.node, Settled(st), t);
    var i :| 0 <= i < |Settled(st)| && Settled(st)[i].Segment? && t == TraceOf(cfg.node, t.id, Settled(st)[i].acc);
    acc := Settled(st)[i].acc;
    assert i < |st.fates| ==> Settled(st)[i] == st.fates[i] && FateIsSound(cfg, st.fates[i]);
  }

  /** Whatever arrives beside it, every event of every trace is on one of the merged timelines at its time. */
  lemma {:induction false} EveryEventIsShown(
      window: int, sorted: seq<Trace>, dts: seq<DTrace>, node: string, no: int, acc: Acc, k: nat)
    requires AreMerges(dts, Greedy(window, sorted)) && TraceOf(node, no, acc) in sorted
    requires IsSegment(acc) && k < |acc.events|
    ensures exists n, j :: 0 <= n < |dts| && 0 <= j < |dts[n].spans| && ShowsEvent(dts[n].spans[j], node, acc.events[k])
  {
    var n := GroupWith(window, sorted, TraceOf(node, no, acc));
    var g := Greedy(window, sorted)[n];
    var i :| 0 <= i < |g| && g[i] == TraceOf(node, no, acc);
    EveryEventIsMerged(dts[n], n + 1, g, i, node, no, acc, k);
  }

  lemma {:induction false} GroupWith(window: int, all: seq<Trace>, t: Trace) returns (n: nat)
    requires t in all
    ensures n < |Greedy(window, all)| && t in Greedy(window, all)[n]
    decreases |all|
  {
    var m := Lead(window, all);
    if t in all[..m] {
      n := 0;
    } else {
      assert t in all[m..];
      n := GroupWith(window, all[m..], t);
      n := n + 1;
    }
  }

  // ---- links ----

  /** A link event names the two ends of its interface in string order, whichever end it comes from. */
  lemma {:induction false} LinkIsNamed(bus: string, what: string, a: string, b: string)
    requires '-' !in bus && '-' !in a && forall c | c in what + (a + "-" + b) :: !IsSpace(c)
    ensures LinkKey(bus + "/link-" + what + " " + (a + "-" + b)) ==
            if StringLeq(a, b) then a + "--" + b else b + "--" + a
  {
    LinkKeyOfEvent(bus, what, a + "-" + b);
    CutBetween(a, b);
  }

  lemma {:induction false} EndsInOrder()
    ensures StringLeq("p1", "pe1") && !StringLeq("pe1", "p1")
  {
    assert "pe1"[1..] == "e1" && "p1"[1..] == "1";
  }

  lemma {:induction false} LinkExample()
    ensures LinkKey("netlink/link-down pe1-p1") == "p1--pe1"
  {
    assert "netlink" + "/link-" + "down" + " " + ("pe1" + "-" + "p1") == "netlink/link-down pe1-p1";
    assert "p1" + "--" + "pe1" == "p1--pe1";
    assert '-' !in "netlink" && '-' !in "pe1";
    assert forall c | c in "down" + ("pe1" + "-" + "p1") :: !IsSpace(c);
    LinkIsNamed("netlink", "down", "pe1", "p1");
    EndsInOrder();
  }

  /** Blanks, tabs, line ends, form feeds and vertical tabs separate words, and nothing else does. */
  lemma {:induction false} WhiteSpaceSeparates(v: string, c: char, w: string)
    requires v != "" && w != "" && forall x | x in v + w :: !IsSpace(x)
    ensures Fields(v + [c] + w) == if c in [' ', '\t', '\n', '\r', 11 as char, 12 as char] then [v, w]
            else [v + [c] + w]
  {
    var whole := v + [c] + w;
    if IsSpace(c) {
      WordEnds(v, "", c, w);
      FieldsOfWord(w, "");
      assert "" + v == v && "" + w == w;
    } else {
      forall x | x in whole ensures !IsSpace(x) {
        assert x in v + w || x == c;
      }
      FieldsOfWord(whole, "");
      assert "" + whole == whole;
    }
  }

  lemma {:induction false} WordEnds(s: string, word: string, c: char, rest: string)
    requires IsSpace(c) && word + s != "" && forall x | x in s :: !IsSpace(x)
    ensures FieldsFrom(s + [c] + rest, word) == [word + s] + FieldsFrom(rest, "")
  {
    var t := s + [c] + rest;
    if s == [] {
      assert word + s == word;
      assert t[1..] == rest;
    } else {
      assert t[1..] == s[1..] + [c] + rest;
      WordEnds(s[1..], word + [s[0]], c, rest);
      assert word + [s[0]] + s[1..] == word + s;
    }
  }

  /** A root that has no "link-" in it names no link. */
  lemma {:induction false} OtherRootsNameNoLink(root: string)
    requires 'k' !in root || '-' !in root
    ensures LinkKey(root) == ""
  {
    var i := IndexOf(root, "link-");
    if i >= 0 {
      LinkIsSpelled(root, i);
    }
  }

  lemma {:induction false} LinkIsSpelled(root: string, i: nat)
    requires OccursAt(root, "link-", i)
    ensures 'k' in root && '-' in root
  {
    assert root[i..i + 5][3] == root[i + 3] && "link-"[3] == 'k';
    assert root[i..i + 5][4] == root[i + 4] && "link-"[4] == '-';
  }

  /** The traces whose root names a link. */
  function Naming(g: seq<Trace>, key: string): set<nat> {
    set i: nat | i < |g| && LinkKey(g[i].root) == key
  }

  lemma {:induction false} VotesCount(g: seq<Trace>, key: string)
    ensures Votes(g, key) == |Naming(g, key)|
  {
    if g != [] {
      var before, t := g[..|g| - 1], g[|g| - 1];
      assert g == before + [t];
      VotesCount(before, key);
      VotesAppended(before, t, key);
      NamingStep(before, t, key);
    }
  }

  lemma {:induction false} NamingStep(g: seq<Trace>, t: Trace, key: string)
    ensures |Naming(g + [t], key)| == |Naming(g, key)| + (if LinkKey(t.root) == key then 1 else 0)
  {
    NamingGrows(g, t, key);
    assert |g| !in Naming(g, key);
  }

  lemma {:induction false} NamingGrows(g: seq<Trace>, t: Trace, key: string)
    ensures Naming(g + [t], key) == Naming(g, key) + (if LinkKey(t.root) == key then {|g|} else {})
  {
    var all := g + [t];
    forall i: nat ensures i in Naming(all, key) <==> i in Naming(g, key) || (i == |g| && LinkKey(t.root) == key) {
      if i < |g| {
        assert all[i] == g[i];
      }
    }
  }

  /** The link of the merged trace is named by at least as many traces as any other, and by at least one; there is
      none only if no trace names any. */
  lemma {:induction false} LinkHasMostVotes(d: DTrace, id: int, g: seq<Trace>, key: string)
    requires IsMerge(d, id, g) && key != "" && Naming(g, key) != {}
    ensures d.link != "" && 0 < |Naming(g, key)| <= |Naming(g, d.link)|
  {
    VotesCount(g, key);
    VotesCount(g, d.link);
  }

  /** The roots are listed in the order of the traces, each behind its node. */
  lemma {:induction false} RootAt(g: seq<Trace>, i: nat)
    requires i < |g|
    ensures |Roots(g)| == |g| && Roots(g)[i] == g[i].node + ": " + g[i].root
  {
    var n := |g| - 1;
    if n > 0 {
      RootAt(g[..n], if i < n then i else 0);
    }
  }

  /** Each node is named once, in string order. */
  lemma {:induction false} NodesAreNamedOnce(d: DTrace, id: int, g: seq<Trace>, i: nat, j: nat)
    requires IsMerge(d, id, g) && i < j < |d.nodes|
    ensures StringLeq(d.nodes[i], d.nodes[j]) && d.nodes[i] != d.nodes[j]
  {
    assert StringOrder()(d.nodes[i], d.nodes[j]);
    if d.nodes[i] == d.nodes[j] {
      TwiceInBag(d.nodes, i, j);
    }
  }

  lemma {:induction false} TwiceInBag(s: seq<string>, i: nat, j: nat)
    requires i < j < |s| && s[i] == s[j]
    ensures multiset(s)[s[i]] >= 2
  {
    assert s == s[..j] + [s[j]] + s[j + 1..];
    assert s[i] in s[..j];
  }

  /** Letters and digits are ordered by their codes, and a name comes before its extensions. */
  lemma {:induction false} NamesInOrder()
    ensures StringLeq("p1", "p10") && StringLeq("p10", "p2") && StringLeq("p2", "pe1")
    ensures !StringLeq("p10", "p1") && !StringLeq("p2", "p10") && !StringLeq("pe1", "p2")
  {
    assert "p1"[1..] == "1" && "p10"[1..] == "10" && "p2"[1..] == "2" && "pe1"[1..] == "e1";
    assert "1"[1..] == "" && "10"[1..] == "0" && "2"[1..] == "";
  }

  /** Without a span there is no time: the trace starts with the year 1. */
  lemma {:induction false} NoSpansNoTime(d: DTrace, id: int, g: seq<Trace>)
    requires IsMerge(d, id, g) && forall t | t in g :: t.spans == []
    ensures (d.spans, d.start, d.spanMs) == ([], -62_135_596_800 * 1_000_000_000, 0)
  {
    SpansAreCounted(d, id, g);
    NoneCounted(g);
  }

  lemma {:induction false} NoneCounted(g: seq<Trace>)
    requires forall t | t in g :: t.spans == []
    ensures SpanCount(g) == 0
  {
    if g != [] {
      NoneCounted(g[..|g| - 1]);
      assert g[|g| - 1] in g;
    }
  }

  // ---- export ----

  /** Microseconds are rounded down, before 1970 too. */
  lemma {:induction false} MicrosAreRoundedDown(us: int, ns: nat)
    requires ns < 1000
    ensures Micros(1000 * us + ns) == us
  {
  }

  /** An exported span lasts until the next one starts if that is more than a millisecond later, and for one
      millisecond otherwise. */
  lemma {:induction false} ChildLasts(d: DTrace, i: nat)
    requires OnTimeline(d.start, d.spanMs, d.spans) && i < |d.spans|
    ensures Child(d, i).duration ==
            if i + 1 < |d.spans| && Child(d, i + 1).timestamp > Child(d, i).timestamp + 1000
            then Child(d, i + 1).timestamp - Child(d, i).timestamp else 1000
  {
    ChildIsInside(d, i);
    if i + 1 < |d.spans| {
      ChildIsInside(d, i + 1);
    }
  }
}
