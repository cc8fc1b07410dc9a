/** What a series of reconciliations amounts to: the recorded states, the events told about each
    neighbor and the cached leaves, as functions of the tables that were read. */
module OspfHistory {
  import opened Wrappers
  import opened Ospf

  function Latest(tables: seq<Table>): Table {
    if tables == [] then map[] else tables[|tables| - 1]
  }

  /** What happened to a neighbor between two tables. */
  function TurnOf(prev: Table, cur: Table, rid: string): Option<Turn> {
    if rid !in prev then None
    else if rid !in cur then Some(Gone(prev[rid].iface))
    else if AdjState(prev[rid].state) == AdjState(cur[rid].state) then None
    else Some(Changed(cur[rid].iface, AdjState(prev[rid].state), AdjState(cur[rid].state)))
  }

  function Story(tables: seq<Table>, rid: string): seq<Turn> {
    if tables == [] then []
    else
      var before := tables[..|tables| - 1];
      match TurnOf(Latest(before), Latest(tables), rid)
      case None => Story(before, rid)
      case Some(t) => Story(before, rid) + [t]
  }

  function Told(rid: string, turns: seq<Turn>): (events: seq<Event>)
    ensures |events| == |turns|
  {
    seq(|turns|, i requires 0 <= i < |turns| => EventOf(rid, turns[i]))
  }

  function Cached(tables: seq<Table>): map<Path, Leaves> {
    if tables == [] then map[]
    else
      var before := tables[..|tables| - 1];
      (Cached(before) + LeavesOf(Latest(tables))) - GonePaths(IfacesOf(Latest(before)), Latest(tables))
  }

  /** The record is what the tables, reconciled in turn, should have left. */
  ghost predicate Follows(tables: seq<Table>, r: Record) {
    && r.seen == IfacesOf(Latest(tables))
    && r.st == StatesOf(Latest(tables))
    && r.cache == Cached(tables)
    && forall rid :: About(r.events, rid) == Told(rid, Story(tables, rid))
  }

  lemma {:induction false} StatesReplaced(prev: Table, cur: Table)
    ensures (StatesOf(prev) + StatesOf(cur)) - (IfacesOf(prev).Keys - cur.Keys) == StatesOf(cur)
  {
  }

  /** The compact record, which only remembers the last table, tells the same events as the tables themselves. */
  lemma {:induction false} NewsIsTurn(prev: Table, cur: Table, rid: string)
    ensures ChangeOf(StatesOf(prev), cur, rid) + LossOf(IfacesOf(prev), cur, rid) ==
            match TurnOf(prev, cur, rid) case None => [] case Some(t) => [EventOf(rid, t)]
  {
  }

  lemma {:induction false} EventsFollow(tables: seq<Table>, r: Record, cur: Table, r': Record, rid: string)
    requires Follows(tables, r) && Reconciled(r, cur, r')
    ensures About(r'.events, rid) ==
            Told(rid, Story(tables, rid)) +
                match TurnOf(Latest(tables), cur, rid) case None => [] case Some(t) => [EventOf(rid, t)]
  {
    NewsIsTurn(Latest(tables), cur, rid);
    var said :| ReportsChanges(r.events, r.st, cur, said) && ReportsLosses(said, r.seen, cur, r'.events);
    assert About(r'.events, rid) == About(r.events, rid) + (ChangeOf(r.st, cur, rid) + LossOf(r.seen, cur, rid));
  }

  lemma {:induction false} StoryGrows(tables: seq<Table>, cur: Table, rid: string)
    ensures Told(rid, Story(tables + [cur], rid)) ==
            Told(rid, Story(tables, rid)) +
                match TurnOf(Latest(tables), cur, rid) case None => [] case Some(t) => [EventOf(rid, t)]
  {
    assert (tables + [cur])[..|tables|] == tables;
  }

  lemma {:induction false} ReconciledFollows(tables: seq<Table>, r: Record, cur: Table, r': Record)
    requires Follows(tables, r) && Reconciled(r, cur, r')
    ensures Follows(tables + [cur], r')
  {
    assert (tables + [cur])[..|tables|] == tables && Latest(tables + [cur]) == cur;
    StatesReplaced(Latest(tables), cur);
    forall rid
      ensures About(r'.events, rid) == Told(rid, Story(tables + [cur], rid))
    {
      EventsFollow(tables, r, cur, r', rid);
      StoryGrows(tables, cur, rid);
    }
  }

  lemma {:induction false} BlankFollows()
    ensures Follows([], BLANK)
  {
  }

  // ---- the story a neighbor's events tell ----

  /** A transition starts from the state the one before it ended in, unless the neighbor was gone in between. */
  ghost predicate Continuous(turns: seq<Turn>) {
    && (forall i | 0 <= i < |turns| :: turns[i].Changed? ==> turns[i].before != turns[i].after)
    && (forall i | 0 <= i < |turns| - 1 :: turns[i].Changed? && turns[i + 1].Changed? ==>
       turns[i].after == turns[i + 1].before)
  }

  /** The events about a neighbor form one continuous account, and a transition that ends it ends in the recorded
      state. */
  lemma {:induction false} StoryIsContinuous(tables: seq<Table>, rid: string)
    ensures Continuous(Story(tables, rid)) && EndsIn(Story(tables, rid), Latest(tables), rid)
  {
    if tables != [] {
      var before := tables[..|tables| - 1];
      StoryIsContinuous(before, rid);
      TurnContinues(Story(before, rid), Latest(before), Latest(tables), rid);
    }
  }

  ghost predicate EndsIn(turns: seq<Turn>, now: Table, rid: string) {
    var n := |turns| - 1;
    turns != [] && turns[n].Changed? ==> rid in now && AdjState(now[rid].state) == turns[n].after
  }

  lemma {:induction false} TurnContinues(turns: seq<Turn>, prev: Table, cur: Table, rid: string)
    requires Continuous(turns) && EndsIn(turns, prev, rid)
    ensures var more := match TurnOf(prev, cur, rid) case None => turns case Some(t) => turns + [t];
            Continuous(more) && EndsIn(more, cur, rid)
  {
    var n := |turns| - 1;
    match TurnOf(prev, cur, rid)
    case None =>
    case Some(t) =>
      if turns != [] {
        assert turns[n].Changed? && t.Changed? ==> turns[n].after == t.before;
      }
  }

  // ---- the cache beside the record ----

  /** No neighbor moves to another interface. */
  ghost predicate NobodyMoves(prev: Table, cur: Table) {
    forall rid | rid in prev && rid in cur :: prev[rid].iface == cur[rid].iface
  }

  lemma {:induction false} CachedAt(cache: map<Path, Leaves>, prev: Table, cur: Table, p: Path)
    ensures var after := (cache + LeavesOf(cur)) - GonePaths(IfacesOf(prev), cur);
            && (p in after <==>
               (p in cache || p in LeavesOf(cur)) && !(p.rid in prev && p.rid !in cur && prev[p.rid].iface == p.iface))
            && (p in LeavesOf(cur) ==> p in after && after[p] == LeavesOf(cur)[p])
  {
    GoneAt(IfacesOf(prev), cur, p);
    LeafAt(cur, p);
  }

  /** Every neighbor of the last table is cached with its state and address, whatever else is. */
  lemma {:induction false} LiveLeavesAreCached(tables: seq<Table>, rid: string)
    requires rid in Latest(tables)
    ensures var n, cache := Latest(tables)[rid], Cached(tables);
            Path(n.iface, rid) in cache && cache[Path(n.iface, rid)] == Leaves(AdjState(n.state), n.addr)
  {
    var before, p := tables[..|tables| - 1], Path(Latest(tables)[rid].iface, rid);
    CachedAt(Cached(before), Latest(before), Latest(tables), p);
    LeafAt(Latest(tables), p);
  }

  /** Deletion goes by router-id, so the leaves of a neighbor that moved stay behind: one reconciliation
      keeps the cache exact if and only if nobody moves. */
  lemma {:induction false} ExactUnlessMoved(prev: Table, cur: Table)
    ensures (LeavesOf(prev) + LeavesOf(cur)) - GonePaths(IfacesOf(prev), cur) == LeavesOf(cur) <==>
            NobodyMoves(prev, cur)
  {
    var after := (LeavesOf(prev) + LeavesOf(cur)) - GonePaths(IfacesOf(prev), cur);
    if NobodyMoves(prev, cur) {
      forall p: Path
        ensures (p in after <==> p in LeavesOf(cur)) && (p in after ==> after[p] == LeavesOf(cur)[p])
      {
        StaleAt(prev, cur, p);
      }
      assert after == LeavesOf(cur);
    } else {
      var rid :| rid in prev && rid in cur && prev[rid].iface != cur[rid].iface;
      StaleAt(prev, cur, Path(prev[rid].iface, rid));
    }
  }

  /** What stays in an exact cache besides the leaves of the table are the paths of neighbors that moved. */
  lemma {:induction false} StaleAt(prev: Table, cur: Table, p: Path)
    ensures var after := (LeavesOf(prev) + LeavesOf(cur)) - GonePaths(IfacesOf(prev), cur);
            && (p in LeavesOf(cur) ==> p in after && after[p] == LeavesOf(cur)[p])
            && (p in after && p !in LeavesOf(cur) <==> IsStale(prev, cur, p))
  {
    CachedAt(LeavesOf(prev), prev, cur, p);
    LeafAt(prev, p);
    LeafAt(cur, p);
  }

  /** The path of a neighbor that has moved away. */
  predicate IsStale(prev: Table, cur: Table, p: Path) {
    && p.rid in prev && prev[p.rid].iface == p.iface
    && p.rid in cur && cur[p.rid].iface != p.iface
  }

  /** A neighbor that moves from one interface to another leaves its old leaves behind. */
  lemma {:induction false} MovedNeighborStaysCached(rid: string, before: Neighbor, after: Neighbor)
    requires before.iface != after.iface
    ensures var tables := [map[rid := before], map[rid := after]];
            !NobodyEverMoves(tables) && Path(before.iface, rid) in Cached(tables) && !IsExact(tables)
  {
    var first, second: Table := map[rid := before], map[rid := after];
    var p := Path(before.iface, rid);
    assert [first, second][..1] == [first] && [first][..0] == [];
    assert Latest([first]) == first && Latest([first, second]) == second;
    LeafAt(first, p);
    LeafAt(second, p);
    CachedAt(Cached([]), map[], first, p);
    CachedAt(Cached([first]), first, second, p);
    assert rid in first && rid in second;
    assert !NobodyMoves(first, second);
  }

  ghost predicate IsExact(tables: seq<Table>) {
    Cached(tables) == LeavesOf(Latest(tables))
  }

  ghost function Exactness(): seq<Table> -> bool {
    (tables: seq<Table>) => IsExact(tables)
  }

  /** Something holds of a sequence from its beginning on. */
  ghost predicate AllAlong<T>(holds: seq<T> -> bool, s: seq<T>) {
    forall k | 0 <= k <= |s| :: holds(s[..k])
  }

  ghost predicate AlwaysExact(tables: seq<Table>) {
    AllAlong(Exactness(), tables)
  }

  lemma {:induction false} AllAlongStep<T>(holds: seq<T> -> bool, s: seq<T>, x: T)
    ensures AllAlong(holds, s + [x]) <==> AllAlong(holds, s) && holds(s + [x])
  {
    var all := s + [x];
    assert all[..|s| + 1] == all;
    forall k | 0 <= k <= |s| ensures all[..k] == s[..k] {
    }
    if AllAlong(holds, all) {
      forall k | 0 <= k <= |s| ensures holds(s[..k]) {
        assert holds(all[..k]);
      }
      assert holds(all[..|s| + 1]);
    }
  }

  ghost predicate NobodyEverMoves(tables: seq<Table>) {
    forall k | 0 < k < |tables| :: NobodyMoves(tables[k - 1], tables[k])
  }

  lemma {:induction false} MovesStep(tables: seq<Table>, cur: Table)
    ensures NobodyEverMoves(tables + [cur]) <==>
            NobodyEverMoves(tables) && (tables != [] ==> NobodyMoves(Latest(tables), cur))
  {
    var all := tables + [cur];
    forall k | 0 <= k < |tables| ensures all[k] == tables[k] {
    }
    if NobodyEverMoves(all) && tables != [] {
      assert NobodyMoves(all[|tables| - 1], all[|tables|]);
      forall k | 0 < k < |tables| ensures NobodyMoves(tables[k - 1], tables[k]) {
        assert NobodyMoves(all[k - 1], all[k]);
      }
    }
  }

  lemma {:induction false} ExactStep(tables: seq<Table>, cur: Table)
    requires IsExact(tables)
    ensures IsExact(tables + [cur]) <==> NobodyMoves(Latest(tables), cur)
  {
    assert (tables + [cur])[..|tables|] == tables;
    ExactUnlessMoved(Latest(tables), cur);
  }

  /** Over a whole series of tables, the cache shows the last one exactly all along if and only if
      no neighbor ever moves between consecutive tables. */
  lemma {:induction false} CacheIsExactUnlessMoved(tables: seq<Table>)
    ensures AlwaysExact(tables) <==> NobodyEverMoves(tables)
  {
    if tables != [] {
      var before, cur := tables[..|tables| - 1], tables[|tables| - 1];
      assert tables == before + [cur];
      CacheIsExactUnlessMoved(before);
      AllAlongStep(Exactness(), before, cur);
      MovesStep(before, cur);
      if AlwaysExact(before) {
        assert Exactness()(before[..|before|]) && before[..|before|] == before;
        ExactStep(before, cur);
      }
    }
  }
}
