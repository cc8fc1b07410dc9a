/** OSPF adjacencies: one neighbor table is read at a time and reconciled into the recorded states,
    the leaves of the cache and the adjacency events. */
module Ospf {
  import opened Text

  // ---- the neighbor table as the router shows it ----

  datatype Entry = Entry(nbrState: string, converged: string, ifaceName: string, ifaceAddress: string)

  datatype Neighbor = Neighbor(iface: string, addr: string, state: string)

  /** By router-id. */
  type Shown = map<string, seq<Entry>>
  type Table = map<string, Neighbor>

  function NeighborOf(e: Entry): Neighbor {
    Neighbor(Before(e.ifaceName, ':'), e.ifaceAddress, if e.converged == "" then e.nbrState else e.converged)
  }

  function Parsed(shown: Shown): Table {
    map rid | rid in shown && shown[rid] != [] :: NeighborOf(shown[rid][0])
  }

  method ParseNeighbors(shown: Shown) returns (table: Table)
    ensures table == Parsed(shown)
  {
    table := map[];
    var todo := shown.Keys;
    while todo != {}
      invariant todo <= shown.Keys && table == Parsed(shown - todo)
    {
      var rid :| rid in todo;
      if shown[rid] != [] {
        table := table[rid := NeighborOf(shown[rid][0])];
      }
      todo := todo - {rid};
    }
    assert shown - {} == shown;
  }

  function AdjState(s: string): string {
    var head := Before(s, '/');
    if head == "Full" then "FULL"
    else if head == "2-Way" then "TWO_WAY"
    else if head == "Init" then "INIT"
    else if head == "Down" then "DOWN"
    else if head == "ExStart" then "EXCHANGE_START"
    else if head == "Exchange" then "EXCHANGE"
    else if head == "Loading" then "LOADING"
    else if head == "Attempt" then "ATTEMPT"
    else "UNKNOWN"
  }

  /** The role that follows the state is ignored. */
  lemma {:induction false} AdjStateIgnoresRole(state: string, role: string)
    requires '/' !in state
    ensures AdjState(state + "/" + role) == AdjState(state)
  {
    BeforeSeparator(state, '/', role);
    assert state + "/" + role == state + ['/'] + role;
    BeforeAll(state, '/');
  }

  lemma {:induction false} BeforeAll(s: string, sep: char)
    requires sep !in s
    ensures Before(s, sep) == s
  {
    if s != [] {
      BeforeAll(s[1..], sep);
      assert s == [s[0]] + s[1..];
    }
  }

  /** No two states the router distinguishes are recorded alike. */
  lemma {:induction false} AdjStateIsFaithful(s: string, t: string)
    requires AdjState(s) != "UNKNOWN" && AdjState(s) == AdjState(t)
    ensures Before(s, '/') == Before(t, '/')
  {
    AdjStateShape(s);
    AdjStateShape(t);
  }

  /** The length and the first letter tell the recorded states apart. */
  lemma {:induction false} AdjStateShape(s: string)
    ensures var name, head := AdjState(s), Before(s, '/');
            && (|name| == 4 && name[0] == 'F' <==> head == "Full")
            && (|name| == 7 && name[0] == 'T' <==> head == "2-Way")
            && (|name| == 4 && name[0] == 'I' <==> head == "Init")
            && (|name| == 4 && name[0] == 'D' <==> head == "Down")
            && (|name| == 14 <==> head == "ExStart")
            && (|name| == 8 <==> head == "Exchange")
            && (|name| == 7 && name[0] == 'L' <==> head == "Loading")
            && (|name| == 7 && name[0] == 'A' <==> head == "Attempt")
            && (name == "UNKNOWN" || name[0] != 'U')
  {
    assert Distinct(["Full", "2-Way", "Init", "Down", "ExStart", "Exchange", "Loading", "Attempt"]);
  }

  ghost predicate Distinct(names: seq<string>) {
    forall i, j | 0 <= i < j < |names| :: names[i] != names[j]
  }

  function LowerChar(c: char): char {
    if 'A' <= c <= 'Z' then 'a' + (c - 'A') else c
  }

  function Lower(s: string): string {
    seq(|s|, i requires 0 <= i < |s| => LowerChar(s[i]))
  }

  // ---- events ----

  datatype Event = Event(kind: string, rid: string, detail: string)

  datatype Turn =
    | Changed(iface: string, before: string, after: string)
    | Gone(iface: string)

  function EventOf(rid: string, t: Turn): Event {
    match t
    case Changed(iface, before, after) => Event("adj-" + Lower(after), rid, "if=" + iface + " " + before + "->" + after)
    case Gone(iface) => Event("adj-down", rid, "if=" + iface + " neighbor gone")
  }

  /** The events that concern one neighbor, in order. */
  function About(events: seq<Event>, rid: string): seq<Event> {
    if events == [] then []
    else
      var e := events[|events| - 1];
      About(events[..|events| - 1], rid) + (if e.rid == rid then [e] else [])
  }

  lemma {:induction false} AboutAppended(events: seq<Event>, e: Event)
    ensures forall rid :: About(events + [e], rid) == About(events, rid) + (if e.rid == rid then [e] else [])
  {
    assert (events + [e])[..|events|] == events;
  }

  /** An adjacency that goes to Down and a neighbor that disappears share a kind; nothing else has it. */
  lemma {:induction false} AdjDownMeans(rid: string, iface: string, before: string, state: string)
    ensures EventOf(rid, Changed(iface, before, AdjState(state))).kind == EventOf(rid, Gone(iface)).kind
            <==> Before(state, '/') == "Down"
  {
    var after := AdjState(state);
    assert EventOf(rid, Gone(iface)).kind == "adj-" + "down";
    var kind := EventOf(rid, Changed(iface, before, after)).kind;
    assert kind[4..] == Lower(after) && ("adj-" + "down")[4..] == "down";
    if after == "DOWN" {
      assert Lower("DOWN") == "down";
    } else if |after| == 4 {
      assert Lower(after)[0] != 'd';
    }
  }

  // ---- one reconciliation ----

  datatype Path = Path(iface: string, rid: string)
  datatype Leaves = Leaves(adjacency: string, addr: string)

  /** Everything a reconciliation keeps or reports. */
  datatype Record = Record(seen: map<string, string>, st: map<string, string>, cache: map<Path, Leaves>,
      events: seq<Event>)

  const BLANK: Record := Record(map[], map[], map[], [])

  function IfacesOf(t: Table): map<string, string> {
    map rid | rid in t :: t[rid].iface
  }

  function StatesOf(t: Table): map<string, string> {
    map rid | rid in t :: AdjState(t[rid].state)
  }

  function PathsOf(t: Table): set<Path> {
    set rid | rid in t :: Path(t[rid].iface, rid)
  }

  function LeavesOf(t: Table): map<Path, Leaves> {
    map p | p in PathsOf(t) :: Leaves(AdjState(t[p.rid].state), t[p.rid].addr)
  }

  /** The paths of neighbors that were seen and are not in the table any more. */
  function GonePaths(seen: map<string, string>, cur: Table): set<Path> {
    set rid | rid in seen && rid !in cur :: Path(seen[rid], rid)
  }

  lemma {:induction false} LeafAt(t: Table, p: Path)
    ensures p in LeavesOf(t) <==> p.rid in t && t[p.rid].iface == p.iface
    ensures p in LeavesOf(t) ==> LeavesOf(t)[p] == Leaves(AdjState(t[p.rid].state), t[p.rid].addr)
  {
    if p.rid in t && t[p.rid].iface == p.iface {
      assert p == Path(t[p.rid].iface, p.rid);
    }
  }

  lemma {:induction false} LeavesAdd(t: Table, rid: string, n: Neighbor)
    requires rid !in t
    ensures LeavesOf(t[rid := n]) == LeavesOf(t)[Path(n.iface, rid) := Leaves(AdjState(n.state), n.addr)]
  {
    var a, b := LeavesOf(t[rid := n]), LeavesOf(t)[Path(n.iface, rid) := Leaves(AdjState(n.state), n.addr)];
    forall p: Path
      ensures (p in a <==> p in b) && (p in a ==> a[p] == b[p])
    {
      LeafAt(t, p);
      LeafAt(t[rid := n], p);
    }
  }

  lemma {:induction false} NeighborAdd(t: Table, rid: string, n: Neighbor)
    requires rid !in t
    ensures IfacesOf(t[rid := n]) == IfacesOf(t)[rid := n.iface]
    ensures StatesOf(t[rid := n]) == StatesOf(t)[rid := AdjState(n.state)]
  {
  }

  lemma {:induction false} RecordedAdd(
      st: map<string, string>, cache: map<Path, Leaves>, t: Table, rid: string, n: Neighbor)
    requires rid !in t
    ensures IfacesOf(t[rid := n]) == IfacesOf(t)[rid := n.iface]
    ensures st + StatesOf(t[rid := n]) == (st + StatesOf(t))[rid := AdjState(n.state)]
    ensures cache + LeavesOf(t[rid := n]) ==
            (cache + LeavesOf(t))[Path(n.iface, rid) := Leaves(AdjState(n.state), n.addr)]
  {
    NeighborAdd(t, rid, n);
    LeavesAdd(t, rid, n);
    OverlayAdd(st, StatesOf(t), rid, AdjState(n.state));
    OverlayAdd(cache, LeavesOf(t), Path(n.iface, rid), Leaves(AdjState(n.state), n.addr));
  }

  lemma {:induction false} OverlayAdd<K, V>(m: map<K, V>, t: map<K, V>, k: K, v: V)
    ensures m + t[k := v] == (m + t)[k := v]
  {
  }

  lemma {:induction false} TakeOne<K, V>(m: map<K, V>, todo: set<K>, k: K)
    requires k in todo && k in m
    ensures m - (todo - {k}) == (m - todo)[k := m[k]]
  {
  }

  /** The transition of a neighbor that the table shows; a first sight is silent. */
  function ChangeOf(st: map<string, string>, cur: Table, rid: string): seq<Event> {
    if rid in cur && rid in st && st[rid] != AdjState(cur[rid].state)
    then [EventOf(rid, Changed(cur[rid].iface, st[rid], AdjState(cur[rid].state)))]
    else []
  }

  function LossOf(seen: map<string, string>, cur: Table, rid: string): seq<Event> {
    if rid in seen && rid !in cur then [EventOf(rid, Gone(seen[rid]))] else []
  }

  /** The transitions of the neighbors in `t` are reported, each after anything already said about it. */
  ghost predicate ReportsChanges(events: seq<Event>, st: map<string, string>, t: Table, events': seq<Event>) {
    && events <= events'
    && forall rid :: About(events', rid) == About(events, rid) + ChangeOf(st, t, rid)
  }

  ghost predicate ReportsLosses(events: seq<Event>, seen: map<string, string>, cur: Table, events': seq<Event>) {
    && events <= events'
    && forall rid :: About(events', rid) == About(events, rid) + LossOf(seen, cur, rid)
  }

  /** What reconciling with `cur` makes of a record. The tables are traversed in no particular order,
      so only the order of the events about one neighbor is fixed, and that transitions come before losses. */
  ghost predicate Reconciled(r: Record, cur: Table, r': Record) {
    && r'.seen == IfacesOf(cur)
    && r'.st == (r.st + StatesOf(cur)) - (r.seen.Keys - cur.Keys)
    && r'.cache == (r.cache + LeavesOf(cur)) - GonePaths(r.seen, cur)
    && exists said :: ReportsChanges(r.events, r.st, cur, said) && ReportsLosses(said, r.seen, cur, r'.events)
  }

  lemma {:induction false} OneMoreChange(
      es: seq<Event>, st: map<string, string>, t: Table, es1: seq<Event>, rid: string, n: Neighbor, es2: seq<Event>)
    requires rid !in t && ReportsChanges(es, st, t, es1) && ReportsChanges(es1, st + StatesOf(t), map[rid := n], es2)
    ensures ReportsChanges(es, st, t[rid := n], es2)
  {
    forall other
      ensures About(es2, other) == About(es, other) + ChangeOf(st, t[rid := n], other)
    {
      ChangeAdd(st, t, rid, n, other);
    }
  }

  lemma {:induction false} ChangeAdd(st: map<string, string>, t: Table, rid: string, n: Neighbor, other: string)
    requires rid !in t
    ensures ChangeOf(st, t[rid := n], other) ==
            ChangeOf(st, t, other) + ChangeOf(st + StatesOf(t), map[rid := n], other)
  {
  }

  lemma {:induction false} OneMoreLoss(
      es: seq<Event>, part: map<string, string>, cur: Table, es1: seq<Event>, rid: string, iface: string,
          es2: seq<Event>)
    requires rid !in part && ReportsLosses(es, part, cur, es1) && ReportsLosses(es1, map[rid := iface], cur, es2)
    ensures ReportsLosses(es, part[rid := iface], cur, es2)
  {
    forall other
      ensures About(es2, other) == About(es, other) + LossOf(part[rid := iface], cur, other)
    {
      if other == rid {
        assert LossOf(part, cur, other) == [];
      } else {
        assert LossOf(map[rid := iface], cur, other) == [];
      }
    }
  }

  lemma {:induction false} GoneAdd(part: map<string, string>, rid: string, iface: string, cur: Table)
    requires rid !in part
    ensures GonePaths(part[rid := iface], cur) == GonePaths(part, cur) + (if rid in cur then {} else {Path(iface, rid)})
  {
    var a, b := GonePaths(part[rid := iface], cur), GonePaths(part, cur) +
        (if rid in cur then {} else {Path(iface, rid)});
    forall p: Path
      ensures p in a <==> p in b
    {
      GoneAt(part, cur, p);
      GoneAt(part[rid := iface], cur, p);
    }
  }

  lemma {:induction false} ForgottenAdd(
      st: map<string, string>, cache: map<Path, Leaves>, part: map<string, string>, rid: string, iface: string,
          cur: Table)
    requires rid !in part
    ensures st - (part[rid := iface].Keys - cur.Keys) ==
            if rid in cur then st - (part.Keys - cur.Keys) else st - (part.Keys - cur.Keys) - {rid}
    ensures cache - GonePaths(part[rid := iface], cur) ==
            if rid in cur then cache - GonePaths(part, cur) else cache - GonePaths(part, cur) - {Path(iface, rid)}
  {
    GoneAdd(part, rid, iface, cur);
  }

  lemma {:induction false} GoneAt(seen: map<string, string>, cur: Table, p: Path)
    ensures p in GonePaths(seen, cur) <==> p.rid in seen && p.rid !in cur && seen[p.rid] == p.iface
  {
    if p.rid in seen && p.rid !in cur && seen[p.rid] == p.iface {
      assert p == Path(seen[p.rid], p.rid);
    }
  }

  /** The outcome of asking the router: the command fails, its output is no table, or it is one.
      Output that does not parse is taken for an empty table. */
  datatype Reading = Failed | Garbled | Answer(shown: Shown) {
    function Table(): Table {
      if Answer? then Parsed(shown) else map[]
    }
  }

  class OSPF {
    var seen: map<string, string>
    var st: map<string, string>
    var cache: map<Path, Leaves>
    var events: seq<Event>

    ghost function Value(): Record
      reads this
    {
      Record(seen, st, cache, events)
    }

    constructor ()
      ensures Value() == BLANK
    {
      seen, st, cache, events := map[], map[], map[], [];
    }

    method Reconcile(reading: Reading)
      modifies this
      ensures reading.Failed? ==> Value() == old(Value())
      ensures !reading.Failed? ==> Reconciled(old(Value()), reading.Table(), Value())
    {
      if reading.Failed? {
        return;
      }
      var cur: Table := map[];
      if reading.Answer? {
        cur := ParseNeighbors(reading.shown);
      }
      var now := RecordNeighbors(cur);
      ForgetGone(cur);
      seen := now;
    }

    method RecordNeighbors(cur: Table) returns (now: map<string, string>)
      modifies this`st, this`cache, this`events
      ensures now == IfacesOf(cur)
      ensures st == old(st) + StatesOf(cur) && cache == old(cache) + LeavesOf(cur)
      ensures ReportsChanges(old(events), old(st), cur, events)
    {
      now := map[];
      var todo := cur.Keys;
      ghost var done: Table := map[];
      while todo != {}
        invariant todo <= cur.Keys && done == cur - todo
        invariant now == IfacesOf(done)
        invariant st == old(st) + StatesOf(done) && cache == old(cache) + LeavesOf(done)
        invariant ReportsChanges(old(events), old(st), done, events)
      {
        var rid :| rid in todo;
        ghost var said := events;
        RecordOne(rid, cur[rid]);
        OneMoreChange(old(events), old(st), done, said, rid, cur[rid], events);
        RecordedAdd(old(st), old(cache), done, rid, cur[rid]);
        TakeOne(cur, todo, rid);
        now := now[rid := cur[rid].iface];
        todo := todo - {rid};
        done := done[rid := cur[rid]];
      }
      assert done == cur;
    }

    method RecordOne(rid: string, n: Neighbor)
      modifies this`st, this`cache, this`events
      ensures st == old(st)[rid := AdjState(n.state)]
      ensures cache == old(cache)[Path(n.iface, rid) := Leaves(AdjState(n.state), n.addr)]
      ensures ReportsChanges(old(events), old(st), map[rid := n], events)
    {
      var now := AdjState(n.state);
      cache := cache[Path(n.iface, rid) := Leaves(now, n.addr)];
      if rid in st && st[rid] != now {
        var e := EventOf(rid, Changed(n.iface, st[rid], now));
        AboutAppended(events, e);
        events := events + [e];
      }
      st := st[rid := now];
    }

    method ForgetGone(cur: Table)
      modifies this`st, this`cache, this`events
      ensures st == old(st) - (seen.Keys - cur.Keys) && cache == old(cache) - GonePaths(seen, cur)
      ensures ReportsLosses(old(events), seen, cur, events)
    {
      var todo := seen.Keys;
      ghost var done: map<string, string> := map[];
      while todo != {}
        invariant todo <= seen.Keys && done == seen - todo
        invariant st == old(st) - (done.Keys - cur.Keys) && cache == old(cache) - GonePaths(done, cur)
        invariant ReportsLosses(old(events), done, cur, events)
      {
        var rid :| rid in todo;
        ghost var said := events;
        ForgetOne(rid, seen[rid], cur);
        OneMoreLoss(old(events), done, cur, said, rid, seen[rid], events);
        ForgottenAdd(old(st), old(cache), done, rid, seen[rid], cur);
        TakeOne(seen, todo, rid);
        todo := todo - {rid};
        done := done[rid := seen[rid]];
      }
      assert done == seen;
    }

    method ForgetOne(rid: string, iface: string, cur: Table)
      modifies this`st, this`cache, this`events
      ensures st == (if rid in cur then old(st) else old(st) - {rid})
      ensures cache == (if rid in cur then old(cache) else old(cache) - {Path(iface, rid)})
      ensures ReportsLosses(old(events), map[rid := iface], cur, events)
    {
      if rid !in cur {
        var e := EventOf(rid, Gone(iface));
        AboutAppended(events, e);
        cache := cache - {Path(iface, rid)};
        events := events + [e];
        st := st - {rid};
      }
    }
  }
}
