/** From a group of per-node traces to one cross-device timeline, and from that
    timeline to exported spans. */
module Merge {
  import opened Text
  import opened Correlate
  import opened Sorting
  import opened Grouping

  datatype DSpan = DSpan(offsetMs: int, node: string, bus: string, kind: string, key: string, detail: string, abs: int)

  datatype DTrace = DTrace(id: int, start: int, spanMs: int, link: string, nodes: seq<string>, roots: seq<string>,
      spans: seq<DSpan>)

  const MILLISECOND: int := 1_000_000

  /** The zero time.Time: the start of year 1. */
  const ZERO_TIME: int := -62135596800_000000000

  // ---- link votes ----

  predicate IsSpace(c: char) {
    c == ' ' || c == '\t' || c == '\n' || c == '\r' || c == 11 as char || c == 12 as char
  }

  /** strings.Fields: the maximal runs of non-space characters. `word` is the run being read. */
  function FieldsFrom(s: string, word: string): seq<string> {
    if s == [] then (if word == "" then [] else [word])
    else if IsSpace(s[0]) then (if word == "" then [] else [word]) + FieldsFrom(s[1..], "")
    else FieldsFrom(s[1..], word + [s[0]])
  }

  function Fields(s: string): seq<string> {
    FieldsFrom(s, "")
  }

  /** The two ends of a link in string order. */
  function PairKey(a: string, b: string): string {
    if StringLeq(a, b) then a + "--" + b else b + "--" + a
  }

  /** The key of an interface that is named after its two ends; the first "-" separates them. */
  function IfaceKey(iface: string): string {
    var a := Before(iface, '-');
    if |a| == |iface| then "" else PairKey(a, iface[|a| + 1..])
  }

  /** The direction-independent key of a link event, "" for any other root. */
  function LinkKey(root: string): string {
    var i := IndexOf(root, "link-");
    if i < 0 then ""
    else
      var f := Fields(root[i..]);
      if |f| < 2 then "" else IfaceKey(f[1])
  }

  lemma {:induction false} FieldsOfWord(s: string, word: string)
    requires forall c | c in s :: !IsSpace(c)
    ensures FieldsFrom(s, word) == if word + s == "" then [] else [word + s]
  {
    if s == [] {
      assert word + s == word;
    } else {
      FieldsOfWord(s[1..], word + [s[0]]);
      assert word + [s[0]] + s[1..] == word + s;
    }
  }

  lemma {:induction false} FieldsAfterWord(s: string, word: string, rest: string)
    requires forall c | c in s :: !IsSpace(c)
    ensures FieldsFrom(s + " " + rest, word) == (if word + s == "" then [] else [word + s]) + FieldsFrom(rest, "")
  {
    var t := s + " " + rest;
    if s == [] {
      assert word + s == word;
      assert t[1..] == rest;
    } else {
      assert t[1..] == s[1..] + " " + rest;
      FieldsAfterWord(s[1..], word + [s[0]], rest);
      assert word + [s[0]] + s[1..] == word + s;
    }
  }

  lemma {:induction false} FieldsOfTwoWords(v: string, w: string)
    requires v != "" && w != "" && forall c | c in v + w :: !IsSpace(c)
    ensures Fields(v + " " + w) == [v, w]
  {
    FieldsAfterWord(v, "", w);
    FieldsOfWord(w, "");
    assert "" + v == v && "" + w == w;
  }

  /** The key of "<bus>/link-<what> <iface>" is that of the interface. */
  lemma {:induction false} LinkKeyOfEvent(bus: string, what: string, iface: string)
    requires '-' !in bus && iface != ""
    requires forall c | c in what + iface :: !IsSpace(c)
    ensures LinkKey(bus + "/link-" + what + " " + iface) == IfaceKey(iface)
  {
    var word := "link-" + what;
    var root := bus + "/link-" + what + " " + iface;
    LinkIsFirst(bus, what + " " + iface);
    assert root == bus + "/link-" + (what + " " + iface);
    assert root[|bus| + 1..] == word + " " + iface;
    FieldsOfTwoWords(word, iface);
  }

  lemma {:induction false} LinkIsFirst(bus: string, rest: string)
    requires '-' !in bus
    ensures IndexOf(bus + "/link-" + rest, "link-") == |bus| + 1
  {
    var root := bus + "/link-" + rest;
    var n := |bus| + 1;
    assert root[n..n + 5] == "link-";
    assert OccursAt(root, "link-", n);
    forall j | 0 <= j < n ensures !OccursAt(root, "link-", j) {
      NoDashBefore(bus, rest, j + 4);
      assert root[j..j + 5][4] == root[j + 4] && "link-"[4] == '-';
    }
  }

  lemma {:induction false} NoDashBefore(bus: string, rest: string, i: nat)
    requires '-' !in bus && i < |bus| + 5
    ensures (bus + "/link-" + rest)[i] != '-'
  {
    if i < |bus| {
      assert (bus + "/link-" + rest)[i] == bus[i];
    } else {
      assert (bus + "/link-" + rest)[i] == "/link-"[i - |bus|];
    }
  }

  /** No dash at an end and no two in a row. */
  predicate Separable(x: string) {
    && (x != "" ==> x[0] != '-' && x[|x| - 1] != '-')
    && forall i | 0 <= i < |x| - 1 :: !(x[i] == '-' && x[i + 1] == '-')
  }

  /** Different links have different keys, and the order of the ends does not matter. */
  lemma {:induction false} PairKeyIsCanonical(a: string, b: string, c: string, d: string)
    requires Separable(a) && Separable(b) && Separable(c) && Separable(d)
    ensures PairKey(a, b) == PairKey(c, d) <==> (a == c && b == d) || (a == d && b == c)
  {
    StringLeqTotal(a, b);
    StringLeqTotal(c, d);
    var p, q := (if StringLeq(a, b) then (a, b) else (b, a)), (if StringLeq(c, d) then (c, d) else (d, c));
    if PairKey(a, b) == PairKey(c, d) {
      SplitsOnce(p.0, p.1, q.0, q.1);
    }
  }

  lemma {:induction false} SplitsOnce(a: string, b: string, c: string, d: string)
    requires Separable(a) && Separable(c) && a + "--" + b == c + "--" + d
    ensures a == c && b == d
  {
    var s := a + "--" + b;
    assert s[..|a|] == a && s[..|c|] == c && s[|a| + 2..] == b && s[|c| + 2..] == d;
    assert s[|a|] == '-' && s[|a| + 1] == '-' && s[|c|] == '-' && s[|c| + 1] == '-';
    DashesInside(s, |a|, c);
    DashesInside(s, |c|, a);
  }

  lemma {:induction false} DashesInside(s: string, i: nat, x: string)
    requires i + 1 < |s| && x <= s && s[i] == '-' && s[i + 1] == '-'
    ensures i < |x| ==> !Separable(x)
  {
    if i + 1 < |x| {
      assert x[i] == s[i] && x[i + 1] == s[i + 1];
    }
  }

  // ---- which end reports the event ----

  lemma {:induction false} DashAt(a: string, b: string)
    requires Separable(a) && Separable(b) && a != "" && b != ""
    ensures Separable(a + "-" + b)
  {
    var x := a + "-" + b;
    forall i | 0 <= i < |x| - 1
      ensures !(x[i] == '-' && x[i + 1] == '-')
    {
      if i < |a| {
        assert x[i] == a[i];
        assert i + 1 < |a| ==> x[i + 1] == a[i + 1];
      } else {
        assert x[i + 1] == b[i - |a|];
        assert i > |a| ==> x[i] == b[i - |a| - 1];
      }
    }
  }

  /** What the first dash of a separable name leaves on both sides is separable. */
  lemma {:induction false} CutAtDash(x: string)
    requires Separable(x) && '-' in x
    ensures var p := Before(x, '-');
            |p| < |x| && Separable(p) && Separable(x[|p| + 1..]) && x == p + "-" + x[|p| + 1..]
  {
    var p := Before(x, '-');
    assert |p| == |x| ==> p == x;
    SuffixIsSeparable(x, |p| + 1);
  }

  lemma {:induction false} SuffixIsSeparable(x: string, n: nat)
    requires Separable(x) && 0 < n <= |x| && x[n - 1] == '-'
    ensures Separable(x[n..])
  {
    var q := x[n..];
    assert forall i | 0 <= i < |q| :: q[i] == x[n + i];
  }

  /** The key is the same from both ends of a link if and only if neither end has a dash in its name, or the two
      interfaces happen to have one name. */
  lemma {:induction false} KeyIgnoresDirection(a: string, b: string)
    requires Separable(a) && Separable(b) && a != "" && b != ""
    ensures IfaceKey(a + "-" + b) == IfaceKey(b + "-" + a) <==>
            ('-' !in a && '-' !in b) || a + "-" + b == b + "-" + a
  {
    var s, t := a + "-" + b, b + "-" + a;
    DashAt(a, b);
    DashAt(b, a);
    assert s[|a|] == '-' && t[|b|] == '-';
    KeysMeet(s, t);
    if '-' !in a && '-' !in b {
      CutBetween(a, b);
      CutBetween(b, a);
    } else if Crossed(s, t) {
      OnlyOneDash(a, b, Before(s, '-'), Before(t, '-'));
    }
  }

  /** What stands before the first dash of one stands behind the first dash of the other. */
  predicate Crossed(x: string, y: string) {
    && |Before(x, '-')| < |x| && |Before(y, '-')| < |y|
    && Before(x, '-') == y[|Before(y, '-')| + 1..] && Before(y, '-') == x[|Before(x, '-')| + 1..]
  }

  lemma {:induction false} KeysMeet(x: string, y: string)
    requires Separable(x) && Separable(y) && '-' in x && '-' in y
    ensures IfaceKey(x) == IfaceKey(y) <==> x == y || Crossed(x, y)
    ensures Crossed(x, y) ==> x == Before(x, '-') + "-" + Before(y, '-')
  {
    CutAtDash(x);
    CutAtDash(y);
    var p, r := Before(x, '-'), Before(y, '-');
    PairKeyIsCanonical(p, x[|p| + 1..], r, y[|r| + 1..]);
  }

  lemma {:induction false} CutBetween(a: string, b: string)
    requires '-' !in a
    ensures var s := a + "-" + b; Before(s, '-') == a && s[|a| + 1..] == b
  {
    BeforeSeparator(a, '-', b);
  }

  lemma {:induction false} OnlyOneDash(a: string, b: string, p: string, q: string)
    requires a + "-" + b == p + "-" + q && '-' !in p && '-' !in q
    ensures a == p && b == q
  {
    var s := a + "-" + b;
    assert s[|a|] == '-';
    assert forall i | 0 <= i < |s| && s[i] == '-' :: i == |p|;
    assert s[..|a|] == a && s[..|p|] == p && s[|a| + 1..] == b && s[|p| + 1..] == q;
  }

  /** Between "pe-1" and "p1" the two directions have different keys. */
  lemma {:induction false} DashedNamesHaveTwoKeys()
    ensures IfaceKey("pe-1-p1") != IfaceKey("p1-pe-1")
  {
    CutBetween("pe", "1-p1");
    CutBetween("p1", "pe-1");
    assert "pe" + "-" + "1-p1" == "pe-1-p1" && "p1" + "-" + "pe-1" == "p1-pe-1";
    PairKeyIsCanonical("pe", "1-p1", "p1", "pe-1");
  }

  // ---- what a merged trace is ----

  function SpanOfTrace(t: Trace, s: Span): DSpan {
    DSpan(0, t.node, s.bus, s.kind, s.key, s.detail, t.start + s.offsetMs * MILLISECOND)
  }

  function RawSpans(g: seq<Trace>): seq<DSpan> {
    if g == [] then [] else RawSpans(g[..|g| - 1]) + SpansUpTo(g[|g| - 1], |g[|g| - 1].spans|)
  }

  function SpansUpTo(t: Trace, n: nat): seq<DSpan>
    requires n <= |t.spans|
  {
    if n == 0 then [] else SpansUpTo(t, n - 1) + [SpanOfTrace(t, t.spans[n - 1])]
  }

  function Unplaced(s: DSpan): DSpan {
    s.(offsetMs := 0)
  }

  function AllUnplaced(spans: seq<DSpan>): (r: seq<DSpan>)
    ensures |r| == |spans| && forall i | 0 <= i < |r| :: r[i] == Unplaced(spans[i])
  {
    seq(|spans|, i requires 0 <= i < |spans| => Unplaced(spans[i]))
  }

  function AbsOrder(): (DSpan, DSpan) -> bool {
    (a: DSpan, b: DSpan) => a.abs <= b.abs
  }

  function StringOrder(): (string, string) -> bool {
    (a: string, b: string) => StringLeq(a, b)
  }

  function Nodes(g: seq<Trace>): set<string> {
    set t | t in g :: t.node
  }

  function Roots(g: seq<Trace>): seq<string> {
    if g == [] then [] else Roots(g[..|g| - 1]) + [g[|g| - 1].node + ": " + g[|g| - 1].root]
  }

  function Votes(g: seq<Trace>, key: string): nat {
    if g == [] then 0 else Votes(g[..|g| - 1], key) + (if LinkKey(g[|g| - 1].root) == key then 1 else 0)
  }

  /** The elected link: one with the most votes, or "" when no root names a link. */
  ghost predicate Elected(g: seq<Trace>, link: string) {
    && (forall key | key != "" && link != "" :: Votes(g, key) <= Votes(g, link))
    && (link == "" <==> forall key | key != "" :: Votes(g, key) == 0)
  }

  /** The spans are in order of absolute time, and offsets are measured from the first one. */
  ghost predicate OnTimeline(start: int, spanMs: int, spans: seq<DSpan>) {
    && (spans != [] ==> start == spans[0].abs && spanMs == spans[|spans| - 1].offsetMs)
    && (spans == [] ==> start == ZERO_TIME && spanMs == 0)
    && (forall i, j | 0 <= i < j < |spans| :: spans[i].abs <= spans[j].abs)
    && (forall i | 0 <= i < |spans| :: spans[i].offsetMs == Millis(spans[i].abs - start))
  }

  ghost predicate IsMerge(d: DTrace, id: int, g: seq<Trace>) {
    && d.id == id
    && OnTimeline(d.start, d.spanMs, d.spans)
    && multiset(AllUnplaced(d.spans)) == multiset(RawSpans(g))
    && SortedBy(d.nodes, StringOrder()) && multiset(d.nodes) == multiset(Nodes(g))
    && d.roots == Roots(g)
    && Elected(g, d.link)
  }

  /** Offsets start at 0, never decrease and end at SpanMs. */
  lemma {:induction false} OffsetsAdvance(d: DTrace, i: nat, j: nat)
    requires OnTimeline(d.start, d.spanMs, d.spans) && i <= j < |d.spans|
    ensures d.spans[0].offsetMs == 0
    ensures 0 <= d.spans[i].offsetMs <= d.spans[j].offsetMs <= d.spanMs
  {
    assert d.spans[i].abs <= d.spans[j].abs || i == j;
    assert d.spans[j].abs <= d.spans[|d.spans| - 1].abs || j == |d.spans| - 1;
    assert d.spans[0].abs <= d.spans[i].abs || i == 0;
  }

  // ---- merging ----

  /** The votes counted so far: a key is present exactly when it has votes. */
  ghost predicate IsTally(votes: map<string, nat>, g: seq<Trace>) {
    forall key ::
      && (key in votes <==> key != "" && Votes(g, key) > 0)
      && (key in votes ==> votes[key] == Votes(g, key))
  }

  lemma {:induction false} GroupAppended(g: seq<Trace>, t: Trace)
    ensures Nodes(g + [t]) == Nodes(g) + {t.node}
    ensures Roots(g + [t]) == Roots(g) + [t.node + ": " + t.root]
    ensures RawSpans(g + [t]) == RawSpans(g) + SpansUpTo(t, |t.spans|)
  {
    assert (g + [t])[..|g|] == g;
  }

  lemma {:induction false} TallyAppended(votes: map<string, nat>, g: seq<Trace>, t: Trace)
    requires IsTally(votes, g)
    ensures LinkKey(t.root) == "" ==> IsTally(votes, g + [t])
    ensures var lk := LinkKey(t.root);
            lk != "" ==> IsTally(votes[lk := (if lk in votes then votes[lk] else 0) + 1], g + [t])
  {
    assert (g + [t])[..|g|] == g;
    forall key ensures Votes(g + [t], key) == Votes(g, key) + (if LinkKey(t.root) == key then 1 else 0) {
    }
  }

  method AppendSpans(t: Trace, before: seq<DSpan>) returns (spans: seq<DSpan>)
    ensures spans == before + SpansUpTo(t, |t.spans|)
  {
    spans := before;
    for j := 0 to |t.spans|
      invariant spans == before + SpansUpTo(t, j)
    {
      var s := t.spans[j];
      spans := spans + [DSpan(0, t.node, s.bus, s.kind, s.key, s.detail, t.start + s.offsetMs * MILLISECOND)];
    }
  }

  method Gather(g: seq<Trace>)
    returns (nodeSet: set<string>, roots: seq<string>, votes: map<string, nat>, spans: seq<DSpan>)
    ensures nodeSet == Nodes(g) && roots == Roots(g) && spans == RawSpans(g)
    ensures IsTally(votes, g)
  {
    nodeSet, roots, votes, spans := {}, [], map[], [];
    for i := 0 to |g|
      invariant nodeSet == Nodes(g[..i]) && roots == Roots(g[..i]) && spans == RawSpans(g[..i])
      invariant IsTally(votes, g[..i])
    {
      var t := g[i];
      assert g[..i + 1] == g[..i] + [t];
      GroupAppended(g[..i], t);
      TallyAppended(votes, g[..i], t);
      nodeSet := nodeSet + {t.node};
      roots := roots + [t.node + ": " + t.root];
      var lk := LinkKey(t.root);
      if lk != "" {
        votes := votes[lk := (if lk in votes then votes[lk] else 0) + 1];
      }
      spans := AppendSpans(t, spans);
    }
    assert g[..|g|] == g;
  }

  method SortedKeys(names: set<string>) returns (s: seq<string>)
    ensures SortedBy(s, StringOrder()) && multiset(s) == multiset(names)
  {
    var todo := names;
    s := [];
    while todo != {}
      invariant multiset(s) + multiset(todo) == multiset(names)
      decreases |todo|
    {
      var n :| n in todo;
      todo := todo - {n};
      s := s + [n];
    }
    StringsAreOrdered();
    s := Sort(s, StringOrder());
  }

  lemma {:induction false} StringsAreOrdered()
    ensures TotalPreorder(StringOrder())
  {
    forall a: string, b: string ensures StringOrder()(a, b) || StringOrder()(b, a) {
      StringLeqTotal(a, b);
    }
    forall a: string, b: string, c: string | StringOrder()(a, b) && StringOrder()(b, c) ensures StringOrder()(a, c) {
      StringLeqTransitive(a, b, c);
    }
  }

  /** The votes are counted in map order; ties go to whichever key comes first. */
  method Elect(g: seq<Trace>, votes: map<string, nat>) returns (link: string)
    requires IsTally(votes, g)
    ensures Elected(g, link)
  {
    link := "";
    var best := 0;
    var todo := votes.Keys;
    while todo != {}
      invariant todo <= votes.Keys
      invariant link == "" ==> best == 0 && todo == votes.Keys
      invariant link != "" ==> link in votes && best == votes[link]
      invariant forall key | key in votes && key !in todo :: votes[key] <= best
      decreases |todo|
    {
      var k :| k in todo;
      todo := todo - {k};
      if votes[k] > best {
        best, link := votes[k], k;
      }
    }
    assert link == "" ==> votes.Keys == {};
  }

  function Placed(s: DSpan, start: int): DSpan {
    s.(offsetMs := Millis(s.abs - start))
  }

  method SetOffsets(sorted: seq<DSpan>, start: int) returns (spanMs: int, spans: seq<DSpan>)
    requires forall i, j | 0 <= i < j < |sorted| :: sorted[i].abs <= sorted[j].abs
    requires sorted != [] ==> start <= sorted[0].abs
    ensures |spans| == |sorted| && forall k | 0 <= k < |spans| :: spans[k] == Placed(sorted[k], start)
    ensures spanMs == if spans == [] then 0 else spans[|spans| - 1].offsetMs
  {
    spans := sorted;
    spanMs := 0;
    for i := 0 to |spans|
      invariant |spans| == |sorted|
      invariant forall k | 0 <= k < i :: spans[k] == Placed(sorted[k], start)
      invariant forall k | i <= k < |spans| :: spans[k] == sorted[k]
      invariant spanMs == if i == 0 then 0 else Millis(sorted[i - 1].abs - start)
    {
      spans := spans[i := spans[i].(offsetMs := Millis(spans[i].abs - start))];
      assert start <= sorted[i].abs && (i > 0 ==> sorted[i - 1].abs <= sorted[i].abs);
      if spans[i].offsetMs > spanMs {
        spanMs := spans[i].offsetMs;
      }
    }
  }

  method PlaceSpans(raw: seq<DSpan>) returns (start: int, spanMs: int, spans: seq<DSpan>)
    requires forall s | s in raw :: s.offsetMs == 0
    ensures OnTimeline(start, spanMs, spans)
    ensures multiset(AllUnplaced(spans)) == multiset(raw)
  {
    var sorted := Sort(raw, AbsOrder());
    SortIsByAbs(sorted);
    start := ZERO_TIME;
    if |sorted| > 0 {
      start := sorted[0].abs;
    }
    spanMs, spans := SetOffsets(sorted, start);
    forall i | 0 <= i < |spans| ensures Unplaced(spans[i]) == sorted[i] {
      assert sorted[i] in multiset(raw);
    }
    assert AllUnplaced(spans) == sorted;
  }

  lemma {:induction false} SortIsByAbs(s: seq<DSpan>)
    requires SortedBy(s, AbsOrder())
    ensures forall i, j | 0 <= i < j < |s| :: s[i].abs <= s[j].abs
  {
    forall i, j | 0 <= i < j < |s| ensures s[i].abs <= s[j].abs {
      assert AbsOrder()(s[i], s[j]);
    }
  }

  lemma {:induction false} RawIsUnplaced(g: seq<Trace>)
    ensures forall s | s in RawSpans(g) :: s.offsetMs == 0
  {
    if g != [] {
      RawIsUnplaced(g[..|g| - 1]);
      SpansUpToUnplaced(g[|g| - 1], |g[|g| - 1].spans|);
    }
  }

  lemma {:induction false} SpansUpToUnplaced(t: Trace, n: nat)
    requires n <= |t.spans|
    ensures forall s | s in SpansUpTo(t, n) :: s.offsetMs == 0
  {
    if n > 0 {
      SpansUpToUnplaced(t, n - 1);
    }
  }

  method MergeGroup(id: int, g: seq<Trace>) returns (d: DTrace)
    ensures IsMerge(d, id, g)
  {
    var nodeSet, roots, votes, raw := Gather(g);
    RawIsUnplaced(g);
    var start, spanMs, spans := PlaceSpans(raw);
    var nodes := SortedKeys(nodeSet);
    var link := Elect(g, votes);
    d := DTrace(id, start, spanMs, link, nodes, roots, spans);
  }

  // ---- the aggregator ----

  ghost predicate AreMerges(dts: seq<DTrace>, groups: seq<Cluster>) {
    |dts| == |groups| && forall i | 0 <= i < |dts| :: IsMerge(dts[i], i + 1, groups[i])
  }

  method Build(window: int, arrivals: seq<Trace>) returns (dts: seq<DTrace>)
    ensures exists sorted ::
              SortedByStart(sorted) && multiset(sorted) == multiset(arrivals) && AreMerges(dts, Greedy(window, sorted))
  {
    var all := Sort(arrivals, StartOrder());
    SortIsByStart(all, arrivals);
    var groups := Group(window, all);
    dts := MergeAll(groups);
  }

  method MergeAll(groups: seq<Cluster>) returns (dts: seq<DTrace>)
    ensures AreMerges(dts, groups)
  {
    dts := [];
    for i := 0 to |groups|
      invariant AreMerges(dts, groups[..i])
    {
      var d := MergeGroup(i + 1, groups[i]);
      dts := dts + [d];
    }
    assert groups[..|groups|] == groups;
  }

  // ---- exported spans ----

  /** The timing of one exported span, in microseconds. */
  datatype ZSpan = ZSpan(name: string, service: string, timestamp: int, duration: int)

  /** Time.UnixMicro rounds down. */
  function Micros(ns: int): int {
    ns / 1000
  }

  method Export(d: DTrace) returns (root: ZSpan, children: seq<ZSpan>)
    ensures root.name == if d.link == "" then "convergence" else "convergence " + d.link
    ensures root.service == "network" && root.timestamp == Micros(d.start) && root.duration == d.spanMs * 1000 + 1
    ensures |children| == |d.spans| && forall i | 0 <= i < |children| :: children[i] == Child(d, i)
    ensures forall i | 0 <= i < |children| ::
              children[i].name == d.spans[i].bus + "/" + d.spans[i].kind && children[i].service == d.spans[i].node
    ensures OnTimeline(d.start, d.spanMs, d.spans) ==>
              Contiguous(root, children) && Overhangs(root, children) && NearTheirTimes(d, children)
  {
    root := ZSpan(if d.link != "" then "convergence " + d.link else "convergence", "network",
                  Micros(d.start), d.spanMs * 1000 + 1);
    children := [];
    for i := 0 to |d.spans|
      invariant |children| == i
      invariant forall k | 0 <= k < i :: children[k] == Child(d, k)
    {
      var s := d.spans[i];
      var abs := d.start + s.offsetMs * MILLISECOND;
      var dur := 1000;
      if i + 1 < |d.spans| {
        var gap := (d.spans[i + 1].offsetMs - s.offsetMs) * 1000;
        if gap > dur {
          dur := gap;
        }
      }
      children := children + [ZSpan(s.bus + "/" + s.kind, s.node, Micros(abs), dur)];
    }
    if OnTimeline(d.start, d.spanMs, d.spans) {
      ChildrenAreContiguous(d, root, children);
    }
  }

  lemma {:induction false} ChildrenAreContiguous(d: DTrace, root: ZSpan, children: seq<ZSpan>)
    requires OnTimeline(d.start, d.spanMs, d.spans)
    requires root.timestamp == Micros(d.start) && root.duration == d.spanMs * 1000 + 1
    requires |children| == |d.spans| && forall k | 0 <= k < |children| :: children[k] == Child(d, k)
    ensures Contiguous(root, children) && Overhangs(root, children) && NearTheirTimes(d, children)
  {
    forall i | 0 <= i < |children|
      ensures Inside(root, children[i]) && Near(d.spans[i].abs, children[i]) && End(children[i]) <= End(root) + 999
      ensures i + 1 < |children| ==> Covers(children[i], children[i + 1])
      ensures i + 1 == |children| ==> End(children[i]) == End(root) + 999
    {
      ChildIsInside(d, i);
      ChildEnds(d, i);
    }
  }

  /** A child lasts until the next one starts, and at least a millisecond. */
  lemma {:induction false} ChildEnds(d: DTrace, i: nat)
    requires OnTimeline(d.start, d.spanMs, d.spans) && i < |d.spans|
    ensures i + 1 < |d.spans| ==> Covers(Child(d, i), Child(d, i + 1))
    ensures End(Child(d, i)) <= Micros(d.start) + d.spanMs * 1000 + 1000
    ensures i + 1 == |d.spans| ==> End(Child(d, i)) == Micros(d.start) + d.spanMs * 1000 + 1000
  {
    ChildIsInside(d, i);
    if i + 1 < |d.spans| {
      ChildIsInside(d, i + 1);
    }
  }

  function Child(d: DTrace, i: nat): ZSpan
    requires i < |d.spans|
  {
    var s := d.spans[i];
    var gap := if i + 1 < |d.spans| then (d.spans[i + 1].offsetMs - s.offsetMs) * 1000 else 0;
    ZSpan(s.bus + "/" + s.kind, s.node, Micros(d.start + s.offsetMs * MILLISECOND), if gap > 1000 then gap else 1000)
  }

  predicate Inside(root: ZSpan, c: ZSpan) { root.timestamp <= c.timestamp < root.timestamp + root.duration }

  predicate Covers(c: ZSpan, next: ZSpan) { c.timestamp + c.duration >= next.timestamp >= c.timestamp }

  predicate Near(abs: int, c: ZSpan) { c.timestamp <= Micros(abs) <= c.timestamp + 1000 }

  function End(c: ZSpan): int { c.timestamp + c.duration }

  /** Every child starts inside the root and lasts at least until the next one starts. */
  ghost predicate Contiguous(root: ZSpan, children: seq<ZSpan>) {
    && (forall i | 0 <= i < |children| :: Inside(root, children[i]))
    && (forall i | 0 <= i < |children| - 1 :: Covers(children[i], children[i + 1]))
  }

  /** Children may end up to 999 microseconds after the root, and the last one does. */
  ghost predicate Overhangs(root: ZSpan, children: seq<ZSpan>) {
    && (forall i | 0 <= i < |children| :: End(children[i]) <= End(root) + 999)
    && (children != [] ==> End(children[|children| - 1]) == End(root) + 999)
  }

  /** A child's timestamp is at most one millisecond before the time of the event. */
  ghost predicate NearTheirTimes(d: DTrace, children: seq<ZSpan>) {
    |children| == |d.spans| && forall i | 0 <= i < |children| :: Near(d.spans[i].abs, children[i])
  }

  lemma {:induction false} MicrosOfOffset(start: int, offsetMs: int)
    ensures Micros(start + offsetMs * MILLISECOND) == Micros(start) + offsetMs * 1000
  {
  }

  lemma {:induction false} ChildIsInside(d: DTrace, i: nat)
    requires OnTimeline(d.start, d.spanMs, d.spans) && i < |d.spans|
    ensures Child(d, i).timestamp == Micros(d.start) + d.spans[i].offsetMs * 1000
    ensures 0 <= d.spans[i].offsetMs <= d.spanMs
    ensures i + 1 < |d.spans| ==> d.spans[i].offsetMs <= d.spans[i + 1].offsetMs
    ensures Near(d.spans[i].abs, Child(d, i))
  {
    OffsetsAdvance(d, i, i);
    if i + 1 < |d.spans| {
      OffsetsAdvance(d, i, i + 1);
    }
    assert d.spans[0].abs <= d.spans[i].abs || i == 0;
    MicrosOfOffset(d.start, d.spans[i].offsetMs);
  }
}
