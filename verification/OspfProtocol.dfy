/** The trigger protocol around the reconciliation: a channel with one slot that coalesces requests,
    a single worker, and a router whose table changes at any time. */
module OspfProtocol {
  import opened Ospf
  import opened OspfHistory

  /** The worker waits, has taken a request and not read yet, or holds a table it is about to record. */
  datatype Worker = Idle | Woken | Applying(cur: Table)

  /** `inFlight` counts the changes whose syslog line has not been signalled yet; `tables` is the history
      of the recorded tables. Syslog lines are received once the socket is bound. */
  datatype System = System(
    live: Shown, bound: bool, inFlight: nat, trigger: bool, worker: Worker, rec: Record, tables: seq<Table>)

  datatype Label =
    | Bind
    | Change(table: Shown)
    | Signal
    | Kick
    | Receive
    | Read(reading: Reading)
    | Apply

  /** The first reconciliation is not asked for by anybody, and comes before the socket. */
  ghost predicate Initial(s: System) {
    !s.bound && s.inFlight == 0 && !s.trigger && s.worker == Woken && s.rec == BLANK && s.tables == []
  }

  ghost predicate Step(s: System, l: Label, s': System) {
    match l
    case Bind =>
      s' == s.(bound := true)
    case Change(table) =>
      s' == s.(live := table, inFlight := s.inFlight + (if s.bound then 1 else 0))
    case Signal =>
      s.inFlight > 0 && s' == s.(inFlight := s.inFlight - 1, trigger := true)
    case Kick =>
      s' == s.(trigger := true)
    case Receive =>
      s.trigger && s.worker == Idle && s' == s.(trigger := false, worker := Woken)
    case Read(reading) =>
      && s.worker == Woken
      && (reading.Answer? ==> reading.shown == s.live)
      && s' == s.(worker := if reading.Failed? then Idle else Applying(reading.Table()))
    case Apply =>
      && s.worker.Applying?
      && Reconciled(s.rec, s.worker.cur, s'.rec)
      && s' == s.(worker := Idle, rec := s'.rec, tables := s.tables + [s.worker.cur])
  }

  /** `ss` are the states before, between and after the steps `ls`. */
  ghost predicate IsRun(ss: seq<System>, ls: seq<Label>) {
    && |ss| == |ls| + 1
    && forall i | 0 <= i < |ls| :: Step(ss[i], ls[i], ss[i + 1])
  }

  ghost predicate IsRunFromStart(ss: seq<System>, ls: seq<Label>) {
    IsRun(ss, ls) && Initial(ss[0])
  }

  /** A run without its last step is a run. */
  lemma {:induction false} RunBefore(ss: seq<System>, ls: seq<Label>)
    requires IsRun(ss, ls) && ls != []
    ensures var n := |ls| - 1;
            && IsRun(ss[..n + 1], ls[..n]) && ss[..n + 1][0] == ss[0] && ss[..n + 1][n] == ss[n]
            && Step(ss[n], ls[n], ss[n + 1])
  {
  }

  /** Nothing is on its way and the worker waits. */
  ghost predicate Quiescent(s: System) {
    s.inFlight == 0 && !s.trigger && s.worker == Idle
  }

  // ---- the record, in every run ----

  /** Whatever is lost or fails, the record is at all times the history of the tables it was given. */
  lemma {:induction false} RecordFollowsTables(ss: seq<System>, ls: seq<Label>)
    requires IsRunFromStart(ss, ls)
    ensures var end := ss[|ls|]; Follows(end.tables, end.rec)
  {
    if ls == [] {
      BlankFollows();
    } else {
      var n := |ls| - 1;
      RunBefore(ss, ls);
      RecordFollowsTables(ss[..n + 1], ls[..n]);
      var s, s' := ss[n], ss[n + 1];
      if ls[n].Apply? {
        ReconciledFollows(s.tables, s.rec, s.worker.cur, s'.rec);
      }
    }
  }

  // ---- no lost wake-up ----

  /** The table that is recorded, or about to be. */
  function Known(s: System): Table {
    if s.worker.Applying? then s.worker.cur else Latest(s.tables)
  }

  /** Something is on its way that ends in a read. */
  predicate Pending(s: System) {
    s.inFlight > 0 || s.trigger || s.worker == Woken
  }

  /** A change nobody has read has a signal in flight, a full trigger, or a worker about to read. */
  ghost predicate Accounted(s: System) {
    Known(s) == Parsed(s.live) || Pending(s)
  }

  /** The last read of the run, if there was one, gave the table. */
  predicate LastReadAnswered(ls: seq<Label>) {
    if ls == [] then true
    else
      var l := ls[|ls| - 1];
      if l.Read? then l.reading.Answer? else LastReadAnswered(ls[..|ls| - 1])
  }

  /** Every change since the last read came after the socket was bound. */
  predicate Heard(ls: seq<Label>) {
    if ls == [] then true
    else
      var before, l := ls[..|ls| - 1], ls[|ls| - 1];
      l.Read? || ((l.Change? ==> Bind in before) && Heard(before))
  }

  lemma {:induction false} BoundByBind(ss: seq<System>, ls: seq<Label>)
    requires IsRunFromStart(ss, ls)
    ensures ss[|ls|].bound <==> Bind in ls
  {
    if ls != [] {
      var n := |ls| - 1;
      RunBefore(ss, ls);
      assert ls == ls[..n] + [ls[n]];
      BoundByBind(ss[..n + 1], ls[..n]);
    }
  }

  lemma {:induction false} StepAccounts(s: System, l: Label, s': System)
    requires Step(s, l, s') && (l.Read? ==> l.reading.Answer?) && (l.Change? ==> s.bound)
    requires !l.Read? ==> Accounted(s)
    ensures Accounted(s')
  {
  }

  /** The invariant of the protocol. Reads that fail, or print no table, do no lasting harm, nor do changes before
      the socket is bound: it is enough that the last read gave the table and that no such change came after it. */
  lemma {:induction false} NoLostWakeUp(ss: seq<System>, ls: seq<Label>)
    requires IsRunFromStart(ss, ls) && LastReadAnswered(ls) && Heard(ls)
    ensures Accounted(ss[|ls|])
  {
    if ls != [] {
      var n := |ls| - 1;
      RunBefore(ss, ls);
      if !ls[n].Read? {
        NoLostWakeUp(ss[..n + 1], ls[..n]);
      }
      BoundByBind(ss[..n + 1], ls[..n]);
      StepAccounts(ss[n], ls[n], ss[n + 1]);
    }
  }

  // ---- when the record is up to date ----

  /** The last read that did not fail gave the table, and the table has not changed since. */
  predicate Fresh(ls: seq<Label>) {
    if ls == [] then false
    else
      match ls[|ls| - 1]
      case Change(_) => false
      case Read(reading) => reading.Answer? || (reading.Failed? && Fresh(ls[..|ls| - 1]))
      case _ => Fresh(ls[..|ls| - 1])
  }

  lemma {:induction false} FreshIsKnown(ss: seq<System>, ls: seq<Label>)
    requires IsRunFromStart(ss, ls) && Fresh(ls)
    ensures Known(ss[|ls|]) == Parsed(ss[|ls|].live)
  {
    var n := |ls| - 1;
    RunBefore(ss, ls);
    if !(ls[n].Read? && ls[n].reading.Answer?) {
      FreshIsKnown(ss[..n + 1], ls[..n]);
    }
    StepKeepsKnown(ss[n], ls[n], ss[n + 1]);
  }

  lemma {:induction false} StepKeepsKnown(s: System, l: Label, s': System)
    requires Step(s, l, s') && !l.Change? && (l.Read? ==> !l.reading.Garbled?)
    requires Known(s) == Parsed(s.live) || (l.Read? && l.reading.Answer?)
    ensures Known(s') == Parsed(s'.live)
  {
  }

  /** A quiet run whose last read answered is fresh if and only if every change since was heard. There are other
      fresh runs, since a failed read changes nothing. */
  lemma {:induction false} AnsweredIsFresh(ss: seq<System>, ls: seq<Label>)
    requires IsRunFromStart(ss, ls) && LastReadAnswered(ls)
    ensures Heard(ls) ==> Fresh(ls) || Pending(ss[|ls|])
    ensures !Heard(ls) ==> !Fresh(ls)
  {
    if ls != [] {
      var n := |ls| - 1;
      RunBefore(ss, ls);
      BoundByBind(ss[..n + 1], ls[..n]);
      if !ls[n].Read? {
        AnsweredIsFresh(ss[..n + 1], ls[..n]);
      }
    }
  }

  /** When a fresh run is quiet, the recorded adjacency states are those of the router's table, the cache shows
      each of its neighbors, and the events told about a neighbor are the story of the tables that were read. */
  lemma {:induction false} QuiescentConsistency(ss: seq<System>, ls: seq<Label>)
    requires IsRunFromStart(ss, ls) && Fresh(ls) && Quiescent(ss[|ls|])
    ensures var end := ss[|ls|];
            && end.rec.st == StatesOf(Parsed(end.live)) && end.rec.seen == IfacesOf(Parsed(end.live))
            && LeavesOf(Parsed(end.live)).Items <= end.rec.cache.Items
            && forall rid :: About(end.rec.events, rid) == Told(rid, Story(end.tables, rid))
  {
    var end := ss[|ls|];
    RecordFollowsTables(ss, ls);
    FreshIsKnown(ss, ls);
    forall p | p in LeavesOf(Parsed(end.live))
      ensures p in end.rec.cache && end.rec.cache[p] == LeavesOf(Parsed(end.live))[p]
    {
      LeafAt(Parsed(end.live), p);
      LiveLeavesAreCached(end.tables, p.rid);
    }
  }

  ghost predicate UpToDate(s: System) {
    s.rec.st == StatesOf(Parsed(s.live))
  }

  /** The same step, perhaps with another table. */
  predicate SameKind(a: Label, b: Label) {
    match a
    case Change(_) => b.Change?
    case Read(reading) => b.Read? && (reading.Failed? <==> b.reading.Failed?) &&
        (reading.Garbled? <==> b.reading.Garbled?)
    case _ => a == b
  }

  predicate Alike(ls: seq<Label>, ls': seq<Label>) {
    |ls| == |ls'| && forall i | 0 <= i < |ls| :: SameKind(ls[i], ls'[i])
  }

  /** What decides which steps are possible. */
  predicate SameControl(s: System, s': System) {
    && s.bound == s'.bound && s.inFlight == s'.inFlight && s.trigger == s'.trigger
    && (s.worker == Idle <==> s'.worker == Idle) && (s.worker == Woken <==> s'.worker == Woken)
  }

  lemma {:induction false} AlikeIsFresh(ls: seq<Label>, ls': seq<Label>)
    requires Alike(ls, ls')
    ensures Fresh(ls) <==> Fresh(ls')
  {
    if ls != [] {
      var n := |ls| - 1;
      assert SameKind(ls[n], ls'[n]);
      assert Alike(ls[..n], ls'[..n]);
      AlikeIsFresh(ls[..n], ls'[..n]);
    }
  }

  /** What the worker knows after a step in which the table does not change, if it knew `known` before. */
  function KnownAfter(live: Shown, known: Table, l: Label): Table {
    if l.Read? && l.reading.Garbled? then map[]
    else if l.Read? && l.reading.Answer? then Parsed(live)
    else known
  }

  /** A step other than a change can be repeated in any state with the same control. */
  lemma {:induction false} Mimic(s: System, l: Label, s1: System, t: System) returns (l': Label, t1: System)
    requires Step(s, l, s1) && SameControl(s, t) && !l.Change?
    ensures SameKind(l, l') && Step(t, l', t1) && SameControl(s1, t1)
    ensures t1.live == t.live && Known(t1) == KnownAfter(t.live, Known(t), l)
  {
    l', t1 := l, t;
    match l
    case Bind => t1 := t.(bound := true);
    case Signal => t1 := t.(inFlight := t.inFlight - 1, trigger := true);
    case Kick => t1 := t.(trigger := true);
    case Receive => t1 := t.(trigger := false, worker := Woken);
    case Read(reading) =>
      if reading.Answer? {
        l' := Read(Answer(t.live));
      }
      t1 := t.(worker := if l'.reading.Failed? then Idle else Applying(l'.reading.Table()));
    case Apply =>
      SomeReport(t.rec, t.worker.cur);
      var rec :| Reconciled(t.rec, t.worker.cur, rec);
      t1 := t.(worker := Idle, rec := rec, tables := t.tables + [t.worker.cur]);
  }

  function Changed(s: System, t: Shown): System {
    s.(live := t, inFlight := s.inFlight + (if s.bound then 1 else 0))
  }

  lemma {:induction false} RunGoesOn(ss: seq<System>, ls: seq<Label>, l: Label, s: System)
    requires IsRunFromStart(ss, ls) && Step(ss[|ls|], l, s)
    ensures IsRunFromStart(ss + [s], ls + [l])
  {
  }

  /** A run of the same kinds of steps, in the same control state. */
  ghost predicate IsLike(ss: seq<System>, ls: seq<Label>, ss': seq<System>, ls': seq<Label>)
    requires |ss| == |ls| + 1
  {
    IsRunFromStart(ss', ls') && Alike(ls, ls') && SameControl(ss[|ls|], ss'[|ls'|])
  }

  /** Some like run ends with the router showing `t` and the worker knowing `known`. */
  ghost predicate CanEnd(ss: seq<System>, ls: seq<Label>, t: Shown, known: Table)
    requires |ss| == |ls| + 1
  {
    exists ss', ls' :: EndsWith(ss, ls, ss', ls', t, known)
  }

  ghost predicate EndsWith(
      ss: seq<System>, ls: seq<Label>, ss': seq<System>, ls': seq<Label>, t: Shown, known: Table)
    requires |ss| == |ls| + 1
  {
    IsLike(ss, ls, ss', ls') && ss'[|ls'|].live == t && Known(ss'[|ls'|]) == known
  }

  /** A like run of all steps but the last can take the last one too. */
  lemma {:induction false} MimicRun(ss: seq<System>, ls: seq<Label>, live: Shown, known: Table)
    requires IsRunFromStart(ss, ls) && ls != [] && !ls[|ls| - 1].Change?
    requires CanEnd(ss[..|ls|], ls[..|ls| - 1], live, known)
    ensures CanEnd(ss, ls, live, KnownAfter(live, known, ls[|ls| - 1]))
  {
    var n := |ls| - 1;
    RunBefore(ss, ls);
    var ss1, ls1 :| EndsWith(ss[..n + 1], ls[..n], ss1, ls1, live, known);
    var l, s := Mimic(ss[n], ls[n], ss[n + 1], ss1[n]);
    LikeGoesOn(ss, ls, ss1, ls1, l, s);
    assert EndsWith(ss, ls, ss1 + [s], ls1 + [l], s.live, Known(s));
  }

  /** If the last one is a change, it can change to any table. */
  lemma {:induction false} ChangeRun(ss: seq<System>, ls: seq<Label>, live: Shown, known: Table, t: Shown)
    requires IsRunFromStart(ss, ls) && ls != [] && ls[|ls| - 1].Change?
    requires CanEnd(ss[..|ls|], ls[..|ls| - 1], live, known)
    ensures CanEnd(ss, ls, t, known)
  {
    var n := |ls| - 1;
    RunBefore(ss, ls);
    var ss1, ls1 :| EndsWith(ss[..n + 1], ls[..n], ss1, ls1, live, known);
    var s := Changed(ss1[n], t);
    LikeGoesOn(ss, ls, ss1, ls1, Change(t), s);
    assert EndsWith(ss, ls, ss1 + [s], ls1 + [Change(t)], t, known);
  }

  lemma {:induction false} LikeGoesOn(
      ss: seq<System>, ls: seq<Label>, ss1: seq<System>, ls1: seq<Label>, l: Label, s: System)
    requires |ss| == |ls| + 1 && ls != [] && IsLike(ss[..|ls|], ls[..|ls| - 1], ss1, ls1)
    requires SameKind(ls[|ls| - 1], l) && Step(ss1[|ls1|], l, s) && SameControl(ss[|ls|], s)
    ensures IsLike(ss, ls, ss1 + [s], ls1 + [l])
  {
    RunGoesOn(ss1, ls1, l, s);
  }

  /** Any run has a like one in which the router shows the table `t` all along. */
  lemma {:induction false} Steered(ss: seq<System>, ls: seq<Label>, t: Shown)
    requires IsRunFromStart(ss, ls)
    ensures CanEnd(ss, ls, t, map[]) || CanEnd(ss, ls, t, Parsed(t))
  {
    if ls == [] {
      assert EndsWith(ss, ls, [ss[0].(live := t)], [], t, map[]);
    } else {
      var n := |ls| - 1;
      RunBefore(ss, ls);
      Steered(ss[..n + 1], ls[..n], t);
      var known := if CanEnd(ss[..n + 1], ls[..n], t, map[]) then map[] else Parsed(t);
      if ls[n].Change? {
        ChangeRun(ss, ls, t, known, t);
      } else {
        MimicRun(ss, ls, t, known);
      }
    }
  }

  /** A run that is not fresh has a like one in which the router shows `t` at the end and the worker knows
      of no neighbor. */
  lemma {:induction false} SteeredAstray(ss: seq<System>, ls: seq<Label>, t: Shown)
    requires IsRunFromStart(ss, ls) && !Fresh(ls)
    ensures CanEnd(ss, ls, t, map[])
  {
    if ls == [] {
      assert EndsWith(ss, ls, [ss[0].(live := t)], [], t, map[]);
    } else {
      var n := |ls| - 1;
      var before := ss[..n + 1];
      RunBefore(ss, ls);
      if ls[n].Change? {
        Steered(before, ls[..n], map[]);
        assert Parsed(map[]) == map[];
        ChangeRun(ss, ls, map[], map[], t);
      } else if ls[n].Read? && ls[n].reading.Garbled? {
        Steered(before, ls[..n], t);
        MimicRun(ss, ls, t, if CanEnd(before, ls[..n], t, map[]) then map[] else Parsed(t));
      } else {
        SteeredAstray(before, ls[..n], t);
        MimicRun(ss, ls, t, map[]);
      }
    }
  }

  /** Freshness is the exact condition: it guarantees that the record is up to date when all is quiet, and without it
      the same steps, with other tables, end quiet and out of date. Reads that fail or print no table are included. */
  lemma {:induction false} FreshnessIsExact(ss: seq<System>, ls: seq<Label>)
    requires IsRunFromStart(ss, ls) && Quiescent(ss[|ls|])
    ensures Fresh(ls) <==>
            forall ss', ls' | IsRunFromStart(ss', ls') && Alike(ls, ls') && Quiescent(ss'[|ls'|]) ::
                UpToDate(ss'[|ls'|])
  {
    if Fresh(ls) {
      forall ss', ls' | IsRunFromStart(ss', ls') && Alike(ls, ls') && Quiescent(ss'[|ls'|])
        ensures UpToDate(ss'[|ls'|])
      {
        AlikeIsFresh(ls, ls');
        QuiescentConsistency(ss', ls');
      }
    } else {
      var table: Shown := map["10.0.0.1" := [Entry("", "", "", "")]];
      SteeredAstray(ss, ls, table);
      var ss', ls' :| EndsWith(ss, ls, ss', ls', table, map[]);
      RecordFollowsTables(ss', ls');
      assert "10.0.0.1" in StatesOf(Parsed(table));
      assert !UpToDate(ss'[|ls'|]);
    }
  }

  /** The exact condition of the invariant: a run guarantees that an unread change is accounted for if and only if it is
      fresh or something is pending. */
  lemma {:induction false} AccountIsExact(ss: seq<System>, ls: seq<Label>)
    requires IsRunFromStart(ss, ls)
    ensures Fresh(ls) || Pending(ss[|ls|]) <==>
            forall ss', ls' | IsLike(ss, ls, ss', ls') :: Accounted(ss'[|ls'|])
  {
    if Fresh(ls) {
      forall ss', ls' | IsLike(ss, ls, ss', ls')
        ensures Accounted(ss'[|ls'|])
      {
        AlikeIsFresh(ls, ls');
        FreshIsKnown(ss', ls');
      }
    } else if !Pending(ss[|ls|]) {
      var table: Shown := map["10.0.0.1" := [Entry("", "", "", "")]];
      SteeredAstray(ss, ls, table);
      var ss', ls' :| EndsWith(ss, ls, ss', ls', table, map[]);
      assert "10.0.0.1" in Parsed(table);
      assert !Accounted(ss'[|ls'|]);
    }
  }

  /** The same steps, perhaps with changes to other tables. */
  predicate SameButChanges(ls: seq<Label>, ls': seq<Label>) {
    |ls| == |ls'| && forall i | 0 <= i < |ls| :: ls[i] == ls'[i] || (ls[i].Change? && ls'[i].Change?)
  }

  /** As long as output always parses, even the readings can stay: nothing that a run which is not fresh has read or
      recorded tells it which table the router shows. */
  lemma {:induction false} LiveTableIsUnseen(ss: seq<System>, ls: seq<Label>, t: Shown)
    requires IsRunFromStart(ss, ls) && !Fresh(ls)
    requires forall l | l in ls && l.Read? :: !l.reading.Garbled?
    ensures exists ss', ls' :: IsUnseenBy(ss, ls, ss', ls', t)
  {
    if ls == [] {
      assert IsUnseenBy(ss, ls, [ss[0].(live := t)], [], t);
    } else {
      var n := |ls| - 1;
      RunBefore(ss, ls);
      UnseenStep(ss[n], ls[n], ss[n + 1], t);
      if ls[n].Change? {
        UnseenGoesOn(ss, ls, ss[..n + 1], ls[..n], Change(t), t);
      } else {
        LiveTableIsUnseen(ss[..n + 1], ls[..n], t);
        var ss', ls' :| IsUnseenBy(ss[..n + 1], ls[..n], ss', ls', t);
        UnseenGoesOn(ss, ls, ss', ls', ls[n], t);
      }
    }
  }

  /** The other run ends in the same state but for the table `t`. */
  ghost predicate IsUnseenBy(ss: seq<System>, ls: seq<Label>, ss': seq<System>, ls': seq<Label>, t: Shown)
    requires |ss| == |ls| + 1
  {
    IsRunFromStart(ss', ls') && SameButChanges(ls, ls') && ss'[|ls'|] == ss[|ls|].(live := t)
  }

  lemma {:induction false} UnseenGoesOn(
      ss: seq<System>, ls: seq<Label>, ss': seq<System>, ls': seq<Label>, l: Label, t: Shown)
    requires |ss| == |ls| + 1 && ls != [] && IsRunFromStart(ss', ls') && SameButChanges(ls[..|ls| - 1], ls')
    requires Step(ss'[|ls'|], l, ss[|ls|].(live := t))
    requires l == ls[|ls| - 1] || (l.Change? && ls[|ls| - 1].Change?)
    ensures exists more, labels :: IsUnseenBy(ss, ls, more, labels, t)
  {
    var s := ss[|ls|].(live := t);
    RunGoesOn(ss', ls', l, s);
    assert SameButChanges(ls, ls' + [l]) by {
      assert ls == ls[..|ls| - 1] + [ls[|ls| - 1]];
    }
    assert IsUnseenBy(ss, ls, ss' + [s], ls' + [l], t);
  }

  /** A step that does not look at the table can be taken whatever the table is. */
  lemma {:induction false} UnseenStep(s: System, l: Label, s': System, t: Shown)
    requires Step(s, l, s')
    ensures l.Change? ==> Step(s, Change(t), s'.(live := t))
    ensures !l.Change? && !(l.Read? && l.reading.Answer?) ==> Step(s.(live := t), l, s'.(live := t))
  {
  }

  /** A failed last read does lose a change: the system is quiet and the record is out of date. */
  lemma {:induction false} FailedReadLosesAChange(rid: string, e: Entry)
    ensures var table: Shown := map[rid := [e]];
            var start := System(table, false, 0, false, Woken, BLANK, []);
            var ss := [start, start.(worker := Idle)];
            var ls := [Read(Failed)];
            && IsRunFromStart(ss, ls) && Quiescent(ss[1]) && !Fresh(ls)
            && ss[1].rec.st != StatesOf(Parsed(ss[1].live))
  {
    var table: Shown := map[rid := [e]];
    assert rid in StatesOf(Parsed(table));
  }

  /** So does a change between the first reading and the binding of the socket. */
  lemma {:induction false} SilentChangeIsLost(rid: string, e: Entry)
    ensures exists ss, ls ::
              && IsRunFromStart(ss, ls) && ls == [Read(Answer(map[]))] + [Apply] + [Change(map[rid := [e]])] + [Bind]
              && Quiescent(ss[4]) && LastReadAnswered(ls) && !Fresh(ls) && !UpToDate(ss[4])
  {
    var table: Shown := map[rid := [e]];
    NothingRead();
    var ss: seq<System> :| IsBlankRun(ss);
    var ls: seq<Label> := [Read(Answer(map[]))] + [Apply];
    var read := ss[2];
    ss, ls := GoOn(ss, ls, Change(table), read.(live := table));
    ss, ls := GoOn(ss, ls, Bind, read.(live := table, bound := true));
    assert rid in StatesOf(Parsed(table));
  }

  /** The start-up reading of a router without neighbors. */
  lemma {:induction false} NothingRead()
    ensures exists ss :: IsBlankRun(ss)
  {
    var start := System(map[], false, 0, false, Woken, BLANK, []);
    NothingToReport();
    var ss, ls := GoOn([start], [], Read(Answer(map[])), start.(worker := Applying(map[])));
    ss, ls := GoOn(ss, ls, Apply, start.(worker := Idle, tables := [] + [map[]]));
    assert IsBlankRun(ss);
  }

  ghost predicate IsBlankRun(ss: seq<System>) {
    var ls := [Read(Answer(map[]))] + [Apply];
    && IsRunFromStart(ss, ls) && LastReadAnswered(ls)
    && ss[2] == System(map[], false, 0, false, Idle, BLANK, [map[]])
  }

  lemma {:induction false} GoOn(ss: seq<System>, ls: seq<Label>, l: Label, s: System)
    returns (ss': seq<System>, ls': seq<Label>)
    requires IsRunFromStart(ss, ls) && Step(ss[|ls|], l, s)
    ensures ss' == ss + [s] && ls' == ls + [l] && IsRunFromStart(ss', ls')
    ensures LastReadAnswered(ls') <==> if l.Read? then l.reading.Answer? else LastReadAnswered(ls)
    ensures l.Change? ==> !Fresh(ls')
    ensures !l.Change? && !l.Read? ==> (Fresh(ls') <==> Fresh(ls))
  {
    RunGoesOn(ss, ls, l, s);
    ss', ls' := ss + [s], ls + [l];
    assert ls'[..|ls|] == ls;
  }

  lemma {:induction false} NothingToReport()
    ensures Reconciled(BLANK, map[], BLANK)
  {
    assert ReportsChanges([], map[], map[], []) && ReportsLosses([], map[], map[], []);
  }

  // ---- the protocol comes to rest ----

  /** The steps the exporter and its worker take by themselves. */
  predicate IsInternal(l: Label) {
    l.Signal? || l.Receive? || l.Read? || l.Apply?
  }

  function Work(s: System): nat {
    4 * s.inFlight
    + (if s.trigger then 3 else 0)
    + match s.worker case Idle => 0 case Woken => 2 case Applying(_) => 1
  }

  /** Once the router is left alone, only so many steps are possible. */
  lemma {:induction false} InternalRunsEnd(ss: seq<System>, ls: seq<Label>)
    requires IsRun(ss, ls) && forall l | l in ls :: IsInternal(l)
    ensures |ls| + Work(ss[|ls|]) <= Work(ss[0])
  {
    if ls != [] {
      var n := |ls| - 1;
      RunBefore(ss, ls);
      InternalRunsEnd(ss[..n + 1], ls[..n]);
      assert ls[n] in ls;
    }
  }

  lemma {:induction false} SomeReport(r: Record, cur: Table)
    ensures exists r' :: Reconciled(r, cur, r')
  {
    SomeChanges(r.events, r.st, cur);
    var said :| ReportsChanges(r.events, r.st, cur, said);
    SomeLosses(said, r.seen, cur);
    var events :| ReportsLosses(said, r.seen, cur, events);
    var r' := Record(IfacesOf(cur), (r.st + StatesOf(cur)) - (r.seen.Keys - cur.Keys),
                     (r.cache + LeavesOf(cur)) - GonePaths(r.seen, cur), events);
    assert Reconciled(r, cur, r');
  }

  lemma {:induction false} SomeChanges(es: seq<Event>, st: map<string, string>, t: Table)
    ensures exists es' :: ReportsChanges(es, st, t, es')
    decreases |t|
  {
    if t == map[] {
      assert ReportsChanges(es, st, t, es);
    } else {
      var rid :| rid in t;
      var rest := t - {rid};
      assert t == rest[rid := t[rid]];
      SomeChanges(es, st, rest);
      var es1 :| ReportsChanges(es, st, rest, es1);
      var es' := SayAll(es1, ChangeOf(st + StatesOf(rest), map[rid := t[rid]], rid), rid);
      OneMoreChange(es, st, rest, es1, rid, t[rid], es');
    }
  }

  lemma {:induction false} SomeLosses(es: seq<Event>, seen: map<string, string>, cur: Table)
    ensures exists es' :: ReportsLosses(es, seen, cur, es')
    decreases |seen|
  {
    if seen == map[] {
      assert ReportsLosses(es, seen, cur, es);
    } else {
      var rid :| rid in seen;
      var rest := seen - {rid};
      assert seen == rest[rid := seen[rid]];
      SomeLosses(es, rest, cur);
      var es1 :| ReportsLosses(es, rest, cur, es1);
      var es' := SayAll(es1, LossOf(map[rid := seen[rid]], cur, rid), rid);
      OneMoreLoss(es, rest, cur, es1, rid, seen[rid], es');
    }
  }

  lemma {:induction false} SayAll(es: seq<Event>, news: seq<Event>, rid: string) returns (es': seq<Event>)
    requires |news| <= 1 && forall e | e in news :: e.rid == rid
    ensures es <= es' && forall other :: About(es', other) == About(es, other) + (if other == rid then news else [])
  {
    es' := es + news;
    if news != [] {
      AboutAppended(es, news[0]);
      assert news == [news[0]];
    } else {
      assert es' == es;
    }
  }

  /** Some internal step is possible until everything is quiet, and none that only fails is needed. */
  lemma {:induction false} StuckOnlyWhenQuiescent(s: System)
    requires !Quiescent(s)
    ensures exists l, s' :: IsInternal(l) && Step(s, l, s') && (l.Read? ==> l.reading.Answer?)
  {
    match s.worker
    case Woken =>
      assert Step(s, Read(Answer(s.live)), s.(worker := Applying(Parsed(s.live))));
    case Applying(cur) =>
      SomeReport(s.rec, cur);
      var rec :| Reconciled(s.rec, cur, rec);
      assert Step(s, Apply, s.(worker := Idle, rec := rec, tables := s.tables + [cur]));
    case Idle =>
      if s.trigger {
        assert Step(s, Receive, s.(trigger := false, worker := Woken));
      } else {
        assert Step(s, Signal, s.(inFlight := s.inFlight - 1, trigger := true));
      }
  }

  /** A run that goes on by itself until it cannot ends quiet, at most Work steps later. */
  lemma {:induction false} ComesToRest(ss: seq<System>, ls: seq<Label>)
    requires IsRun(ss, ls) && forall l | l in ls :: IsInternal(l)
    requires !exists l, s' :: IsInternal(l) && Step(ss[|ls|], l, s')
    ensures Quiescent(ss[|ls|]) && |ls| <= Work(ss[0])
  {
    InternalRunsEnd(ss, ls);
    if !Quiescent(ss[|ls|]) {
      StuckOnlyWhenQuiescent(ss[|ls|]);
      assert false;
    }
  }

  /** From any state whatever, lost changes included, one request heals the record: whatever happens after it, as long
      as the reads answer, the quiet state it leads to is up to date if no change since the last of them was silent. */
  lemma {:induction false} KickHeals(ss: seq<System>, ls: seq<Label>, at: nat)
    requires IsRunFromStart(ss, ls) && at < |ls| && ls[at].Kick?
    requires Quiescent(ss[|ls|])
    requires forall i | at < i < |ls| && ls[i].Read? :: ls[i].reading.Answer?
    ensures exists i :: at < i < |ls| && ls[i].Read?
    ensures (Fresh(ls) <==> Heard(ls)) && (Heard(ls) ==> UpToDate(ss[|ls|]))
  {
    if !exists i :: at < i < |ls| && ls[i].Read? {
      StaysBusy(ss, ls, at, |ls|);
      assert false;
    }
    var i :| at < i < |ls| && ls[i].Read?;
    AnsweredSince(ls, i);
    AnsweredIsFresh(ss, ls);
    if Heard(ls) {
      QuiescentConsistency(ss, ls);
    }
  }

  /** A request is not forgotten before something is read. */
  lemma {:induction false} StaysBusy(ss: seq<System>, ls: seq<Label>, at: nat, k: nat)
    requires IsRun(ss, ls) && at < k <= |ls| && ls[at].Kick?
    requires forall i | at < i < k :: !ls[i].Read?
    ensures ss[k].trigger || ss[k].worker == Woken
  {
    assert Step(ss[k - 1], ls[k - 1], ss[k]);
    if at < k - 1 {
      StaysBusy(ss, ls, at, k - 1);
    }
  }

  lemma {:induction false} AnsweredSince(ls: seq<Label>, i: nat)
    requires i < |ls| && ls[i].Read?
    requires forall j | i <= j < |ls| && ls[j].Read? :: ls[j].reading.Answer?
    ensures LastReadAnswered(ls)
  {
    if i < |ls| - 1 {
      AnsweredSince(ls[..|ls| - 1], i);
    }
  }

  // ---- coalescing ----

  function Requests(ls: seq<Label>): nat {
    if ls == [] then 0
    else Requests(ls[..|ls| - 1]) + (if ls[|ls| - 1].Signal? || ls[|ls| - 1].Kick? then 1 else 0)
  }

  function Reads(ls: seq<Label>): nat {
    if ls == [] then 0
    else Reads(ls[..|ls| - 1]) + (if ls[|ls| - 1].Read? then 1 else 0)
  }

  /** The router is asked at most once per request, besides the first time. */
  lemma {:induction false} ReadsAreBounded(ss: seq<System>, ls: seq<Label>)
    requires IsRunFromStart(ss, ls)
    ensures var end := ss[|ls|];
            Reads(ls) + (if end.trigger then 1 else 0) + (if end.worker == Woken then 1 else 0) <= Requests(ls) + 1
  {
    if ls != [] {
      var n := |ls| - 1;
      RunBefore(ss, ls);
      ReadsAreBounded(ss[..n + 1], ls[..n]);
    }
  }

  /** However many requests arrive while the worker is busy, they cost one read:
      a stretch in which nothing is received has at most one. */
  lemma {:induction false} BurstsCoalesce(ss: seq<System>, ls: seq<Label>)
    requires IsRun(ss, ls) && forall l | l in ls :: !l.Receive?
    ensures Reads(ls) + (if ss[|ls|].worker == Woken then 1 else 0) == (if ss[0].worker == Woken then 1 else 0)
  {
    if ls != [] {
      var n := |ls| - 1;
      RunBefore(ss, ls);
      BurstsCoalesce(ss[..n + 1], ls[..n]);
      assert ls[n] in ls;
    }
  }
}
