/** The route lineage tracker: a compact record per prefix, proved to agree with the
    whole history of observations, and the edge-triggered install-gap alarm. */
module Lineage {
  import opened Wrappers
  import opened Text

  const RIB_IN: nat := 0
  const FPM: nat := 1
  const KERNEL: nat := 2
  const N_STAGES: nat := 3
  const STAGE_NAMES: seq<string> := ["rib-in", "fpm", "kernel"]

  /** The latest word of one stage about a prefix. */
  datatype Mark = Mark(present: bool, ts: int, detail: string)

  datatype Entry = Entry(prefix: string, hops: seq<Mark>, kproto: string, flagged: bool)

  datatype Alarm = Alarm(kind: string, prefix: string, detail: string)

  datatype Row = Row(prefix: string, stages: map<string, string>, gap: string)

  // ---- protoOf ----

  const PROTO: string := "proto="

  function ProtoOf(detail: string): string {
    var i := IndexOf(detail, PROTO);
    if i < 0 then "" else Before(detail[i + |PROTO|..], ' ')
  }

  /** The installer's name survives the trip through the detail text of a kernel observation. */
  lemma {:induction false} ProtoOfKernelDetail(proto: string, nh: string, table: string)
    requires ' ' !in proto
    ensures ProtoOf("proto=" + proto + " nh=" + nh + " table=" + table) == proto
  {
    var detail := "proto=" + proto + " nh=" + nh + " table=" + table;
    var rest := "nh=" + nh + " table=" + table;
    assert detail == PROTO + (proto + [' '] + rest);
    assert detail[0..|PROTO|] == PROTO;
    assert OccursAt(detail, PROTO, 0);
    assert detail[|PROTO|..] == proto + [' '] + rest;
    BeforeSeparator(proto, ' ', rest);
  }

  // ---- the history ----

  datatype Happening =
    | Seen(prefix: string, stage: nat, present: bool, detail: string, at: int)
    | Scan(at: int)

  /** The latest observation of prefix `p` at stage `s`. */
  ghost function Last(h: seq<Happening>, p: string, s: nat): Option<Mark> {
    if h == [] then None
    else
      var x := h[|h| - 1];
      if x.Seen? && x.prefix == p && x.stage == s then Some(Mark(x.present, x.at, x.detail))
      else Last(h[..|h| - 1], p, s)
  }

  ghost predicate Present(h: seq<Happening>, p: string, s: nat) {
    Last(h, p, s).Some? && Last(h, p, s).value.present
  }

  ghost predicate Tracked(h: seq<Happening>, p: string) {
    Present(h, p, RIB_IN) || Present(h, p, FPM) || Present(h, p, KERNEL)
  }

  /** FPM claims the route, the kernel does not confirm it, and grace is over. */
  ghost predicate Overdue(grace: int, h: seq<Happening>, p: string, at: int) {
    Present(h, p, FPM) && !Present(h, p, KERNEL) && at - Last(h, p, FPM).value.ts > grace
  }

  /** The `i`-th happening confirms `p` in the kernel. */
  ghost predicate ConfirmsAt(h: seq<Happening>, i: nat, p: string)
    requires i < |h|
  {
    h[i].Seen? && h[i].prefix == p && h[i].stage == KERNEL && h[i].present
  }

  /** The `i`-th happening withdraws the last stage that held `p`. */
  ghost predicate WithdrawsAt(h: seq<Happening>, i: nat, p: string)
    requires i < |h|
  {
    Tracked(h[..i], p) && !Tracked(h[..i + 1], p)
  }

  ghost predicate ResetsAt(h: seq<Happening>, i: nat, p: string)
    requires i < |h|
  {
    ConfirmsAt(h, i, p) || WithdrawsAt(h, i, p)
  }

  /** A scan found `p` overdue and nothing has reset the alarm since. */
  ghost predicate Raised(grace: int, h: seq<Happening>, p: string) {
    exists i :: 0 <= i < |h| && RaisedSince(grace, h, p, i)
  }

  ghost predicate RaisedSince(grace: int, h: seq<Happening>, p: string, i: nat)
    requires i < |h|
  {
    && h[i].Scan? && Overdue(grace, h[..i], p, h[i].at)
    && forall j | i < j < |h| :: !ResetsAt(h, j, p)
  }

  ghost predicate Fires(grace: int, h: seq<Happening>, p: string, at: int) {
    Overdue(grace, h, p, at) && !Raised(grace, h, p)
  }

  lemma {:induction false} RaisedStep(grace: int, h: seq<Happening>, x: Happening, p: string)
    ensures Raised(grace, h + [x], p) <==>
            || (x.Scan? && Overdue(grace, h, p, x.at))
            || (Raised(grace, h, p) && !ResetsAt(h + [x], |h|, p))
  {
    var k := h + [x];
    assert k[..|h|] == h;
    forall j | 0 <= j <= |h| ensures k[..j] == h[..j] {
    }
    if Raised(grace, k, p) {
      var i :| 0 <= i < |k| && RaisedSince(grace, k, p, i);
      if i < |h| {
        assert RaisedSince(grace, h, p, i) by {
          forall j | i < j < |h| ensures !ResetsAt(h, j, p) {
            assert !ResetsAt(k, j, p);
          }
        }
      }
    }
    if x.Scan? && Overdue(grace, h, p, x.at) {
      assert RaisedSince(grace, k, p, |h|);
    }
    if Raised(grace, h, p) && !ResetsAt(k, |h|, p) {
      var i :| 0 <= i < |h| && RaisedSince(grace, h, p, i);
      assert RaisedSince(grace, k, p, i) by {
        forall j | i < j < |k| ensures !ResetsAt(k, j, p) {
          if j < |h| {
            assert !ResetsAt(h, j, p);
          }
        }
      }
    }
  }

  /** Observations of other prefixes, and scans, leave the latest word unchanged. */
  lemma {:induction false} LastStep(h: seq<Happening>, x: Happening, p: string, s: nat)
    ensures Last(h + [x], p, s) ==
            if x.Seen? && x.prefix == p && x.stage == s then Some(Mark(x.present, x.at, x.detail)) else Last(h, p, s)
  {
    assert (h + [x])[..|h|] == h;
  }

  /** A prefix that nobody holds has no alarm raised. */
  lemma {:induction false} UntrackedIsNotRaised(grace: int, h: seq<Happening>, p: string)
    requires !Tracked(h, p)
    ensures !Raised(grace, h, p)
  {
    if h == [] {
    } else {
      var before, x := h[..|h| - 1], h[|h| - 1];
      assert h == before + [x];
      RaisedStep(grace, before, x, p);
      if x.Scan? {
        LastStep(before, x, p, RIB_IN);
        LastStep(before, x, p, FPM);
        LastStep(before, x, p, KERNEL);
      }
      if !Tracked(before, p) {
        UntrackedIsNotRaised(grace, before, p);
      } else {
        assert h[..|before|] == before && h[..|before| + 1] == h;
        assert WithdrawsAt(h, |before|, p);
      }
    }
  }

  // ---- episodes ----

  ghost predicate InGap(h: seq<Happening>, p: string) {
    Present(h, p, FPM) && !Present(h, p, KERNEL)
  }

  /** `p` has been in a gap since the first `b` happenings. */
  ghost predicate GapSince(h: seq<Happening>, p: string, b: nat) {
    b <= |h| && forall k | b <= k <= |h| :: InGap(h[..k], p)
  }

  /** The `i`-th happening is a scan that finds `p` overdue. */
  ghost predicate FoundAt(grace: int, h: seq<Happening>, p: string, i: nat)
    requires i < |h|
  {
    h[i].Scan? && Overdue(grace, h[..i], p, h[i].at)
  }

  lemma {:induction false} NoResetInGap(h: seq<Happening>, p: string)
    requires h != [] && InGap(h, p)
    ensures !ResetsAt(h, |h| - 1, p)
  {
    var n := |h| - 1;
    assert h == h[..n] + [h[n]] && h[..n + 1] == h;
    LastStep(h[..n], h[n], p, KERNEL);
  }

  /** Within a gap the alarm is raised if it was before, or by a scan since. */
  lemma {:induction false} RaisedInGap(grace: int, h: seq<Happening>, p: string, b: nat)
    requires GapSince(h, p, b)
    ensures Raised(grace, h, p) <==> Raised(grace, h[..b], p) || exists i :: b <= i < |h| && FoundAt(grace, h, p, i)
  {
    if b == |h| {
      assert h[..b] == h;
    } else {
      var n := |h| - 1;
      var before := h[..n];
      assert h == before + [h[n]] && h[..|h|] == h;
      assert forall k | 0 <= k <= n :: before[..k] == h[..k];
      RaisedInGap(grace, before, p, b);
      NoResetInGap(h, p);
      RaisedStep(grace, before, h[n], p);
      FoundOneMore(grace, before, h[n], p, b);
    }
  }

  lemma {:induction false} FoundOneMore(grace: int, before: seq<Happening>, x: Happening, p: string, b: nat)
    requires b <= |before|
    ensures (exists i :: b <= i < |before| + 1 && FoundAt(grace, before + [x], p, i)) <==>
            || FoundAt(grace, before + [x], p, |before|)
            || exists i :: b <= i < |before| && FoundAt(grace, before, p, i)
  {
    var h := before + [x];
    assert forall i | 0 <= i < |before| :: before[..i] == h[..i];
    if i :| b <= i < |before| && FoundAt(grace, before, p, i) {
      assert FoundAt(grace, h, p, i);
    }
    if i :| b <= i < |before| && FoundAt(grace, h, p, i) {
      assert FoundAt(grace, before, p, i);
    }
  }

  /** The alarm is raised after `b` happenings if a scan among them found `p` overdue without a later reset. */
  lemma {:induction false} RaisedBefore(grace: int, h: seq<Happening>, p: string, b: nat)
    requires b <= |h|
    ensures !Raised(grace, h[..b], p) <==>
            forall i | 0 <= i < b && FoundAt(grace, h, p, i) :: exists j :: i < j < b && ResetsAt(h, j, p)
  {
    var early := h[..b];
    assert forall k | 0 <= k <= b :: early[..k] == h[..k];
    assert forall j | 0 <= j < b :: ResetsAt(h, j, p) == ResetsAt(early, j, p);
    assert forall i | 0 <= i < b :: FoundAt(grace, h, p, i) == FoundAt(grace, early, p, i);
    if Raised(grace, early, p) {
      var i :| 0 <= i < b && RaisedSince(grace, early, p, i);
      assert FoundAt(grace, h, p, i);
    }
    if i :| 0 <= i < b && FoundAt(grace, h, p, i) && !exists j :: i < j < b && ResetsAt(h, j, p) {
      assert RaisedSince(grace, early, p, i);
    }
  }

  /** When an episode is reported: the first scan of it that finds `p` overdue fires if and only if a kernel
      confirmation or a full withdrawal lies between the episode and each earlier scan that found `p` overdue.
      Every other scan of the episode is silent. */
  lemma {:induction false} EpisodeIsReported(grace: int, h: seq<Happening>, p: string, b: nat, at: int)
    requires GapSince(h, p, b) && Overdue(grace, h, p, at)
    ensures Fires(grace, h, p, at) <==>
            && (forall i | b <= i < |h| :: !FoundAt(grace, h, p, i))
            && (forall i | 0 <= i < b && FoundAt(grace, h, p, i) :: exists j :: i < j < b && ResetsAt(h, j, p))
  {
    RaisedInGap(grace, h, p, b);
    RaisedBefore(grace, h, p, b);
  }

  /** A raised alarm outlives the end of its gap when FPM gives the route up while a neighbor still offers it:
      when FPM pushes it again and the kernel does not follow, nothing is reported. */
  lemma {:induction false} LaterGapIsSilent(grace: int, h: seq<Happening>, gone: Happening, back: Happening, at: int)
    requires gone.Seen? && gone.stage == FPM && !gone.present && back.Seen?
    requires back == gone.(present := true, at := back.at, detail := back.detail) && at - back.at > grace
    requires Raised(grace, h, gone.prefix) && Present(h, gone.prefix, RIB_IN) && !Present(h, gone.prefix, KERNEL)
    ensures var more := h + [gone] + [back];
            Overdue(grace, more, gone.prefix, at) && !Fires(grace, more, gone.prefix, at)
  {
    var p := gone.prefix;
    StillTracked(h, gone, p);
    StillTracked(h + [gone], back, p);
    RaisedStep(grace, h, gone, p);
    RaisedStep(grace, h + [gone], back, p);
    LastStep(h + [gone], back, p, FPM);
  }

  lemma {:induction false} StillTracked(h: seq<Happening>, x: Happening, p: string)
    requires x.Seen? && x.stage == FPM && Present(h, p, RIB_IN) && !Present(h, p, KERNEL)
    ensures Present(h + [x], p, RIB_IN) && !Present(h + [x], p, KERNEL) && !ResetsAt(h + [x], |h|, p)
  {
    LastStep(h, x, p, RIB_IN);
    LastStep(h, x, p, KERNEL);
    assert (h + [x])[..|h| + 1] == h + [x];
  }

  /** It happens: offered and pushed at 0, found missing at `grace + 1`, given up and pushed again there,
      missing once more at `2 * grace + 2`. */
  lemma {:induction false} SecondGapIsSilent(grace: nat, p: string)
    ensures var t := grace + 1;
            var h := [Seen(p, RIB_IN, true, "", 0)] + [Seen(p, FPM, true, "", 0)] + [Scan(t)]
                     + [Seen(p, FPM, false, "", t)] + [Seen(p, FPM, true, "", t)];
            Overdue(grace, h, p, 2 * t) && !Fires(grace, h, p, 2 * t)
  {
    var t := grace + 1;
    var offered, pushed := [Seen(p, RIB_IN, true, "", 0)], Seen(p, FPM, true, "", 0);
    assert [] + offered == offered;
    LastStep([], offered[0], p, RIB_IN);
    LastStep([], offered[0], p, KERNEL);
    StillTracked(offered, pushed, p);
    LastStep(offered, pushed, p, FPM);
    var h := offered + [pushed];
    RaisedStep(grace, h, Scan(t), p);
    LastStep(h, Scan(t), p, RIB_IN);
    LastStep(h, Scan(t), p, KERNEL);
    LaterGapIsSilent(grace, h + [Scan(t)], Seen(p, FPM, false, "", t), Seen(p, FPM, true, "", t), 2 * t);
  }

  // ---- how often the alarm can fire ----

  ghost function Emissions(grace: int, h: seq<Happening>, p: string): nat {
    if h == [] then 0
    else
      var before, x := h[..|h| - 1], h[|h| - 1];
      Emissions(grace, before, p) + (if x.Scan? && Fires(grace, before, p, x.at) then 1 else 0)
  }

  ghost function Confirmations(h: seq<Happening>, p: string): nat {
    if h == [] then 0
    else Confirmations(h[..|h| - 1], p) + (if ConfirmsAt(h, |h| - 1, p) then 1 else 0)
  }

  ghost function Withdrawals(h: seq<Happening>, p: string): nat {
    if h == [] then 0
    else Withdrawals(h[..|h| - 1], p) + (if WithdrawsAt(h, |h| - 1, p) then 1 else 0)
  }

  /** The alarm is edge-triggered: over any history it fires for `p` at most once more than it is reset. */
  lemma {:induction false} EmissionsAreBounded(grace: int, h: seq<Happening>, p: string)
    ensures Emissions(grace, h, p) <= Confirmations(h, p) + Withdrawals(h, p) + (if Raised(grace, h, p) then 1 else 0)
    ensures Emissions(grace, h, p) <= 1 + Confirmations(h, p) + Withdrawals(h, p)
  {
    if h == [] {
    } else {
      var before, x := h[..|h| - 1], h[|h| - 1];
      assert h == before + [x];
      EmissionsAreBounded(grace, before, p);
      RaisedStep(grace, before, x, p);
    }
  }

  /** No scan misses an overdue prefix: it fires now, or it fired before and was not reset since. */
  lemma {:induction false} OverdueIsRaised(grace: int, h: seq<Happening>, p: string, at: int)
    requires Overdue(grace, h, p, at)
    ensures Raised(grace, h + [Scan(at)], p)
    ensures Fires(grace, h, p, at) <==> Emissions(grace, h + [Scan(at)], p) == Emissions(grace, h, p) + 1
    ensures !Fires(grace, h, p, at) ==> Raised(grace, h, p)
  {
    RaisedStep(grace, h, Scan(at), p);
    assert (h + [Scan(at)])[..|h|] == h;
  }

  // ---- the snapshot as a function of the history ----

  ghost function GapOf(h: seq<Happening>, p: string): string {
    if Present(h, p, FPM) && !Present(h, p, KERNEL) then "install-gap"
    else if Present(h, p, KERNEL) && !Present(h, p, FPM) && ProtoOf(Last(h, p, KERNEL).value.detail) == "zebra"
        then "orphan-kernel"
    else ""
  }

  function StageText(detail: string): string {
    if detail == "" then "yes" else detail
  }

  ghost function StagesUpTo(h: seq<Happening>, p: string, n: nat): map<string, string>
    requires n <= N_STAGES
  {
    if n == 0 then map[]
    else
      var stages := StagesUpTo(h, p, n - 1);
      if Present(h, p, n - 1) then stages[STAGE_NAMES[n - 1] := StageText(Last(h, p, n - 1).value.detail)] else stages
  }

  ghost function StagesOf(h: seq<Happening>, p: string): map<string, string> {
    StagesUpTo(h, p, N_STAGES)
  }

  /** The snapshot names a stage exactly when the latest observation there was present, with its detail. */
  lemma {:induction false} StagesShowPresence(h: seq<Happening>, p: string, s: nat)
    requires s < N_STAGES
    ensures STAGE_NAMES[s] in StagesOf(h, p) <==> Present(h, p, s)
    ensures Present(h, p, s) ==> StagesOf(h, p)[STAGE_NAMES[s]] == StageText(Last(h, p, s).value.detail)
  {
    var m0, m1, m2 := StagesUpTo(h, p, 0), StagesUpTo(h, p, 1), StagesUpTo(h, p, 2);
    assert |STAGE_NAMES[0]| == 6 && |STAGE_NAMES[1]| == 3 && |STAGE_NAMES[2]| == 6;
    assert STAGE_NAMES[0][0] == 'r' && STAGE_NAMES[2][0] == 'k';
    assert m0 == map[];
    assert m1 == if Present(h, p, 0) then m0[STAGE_NAMES[0] := StageText(Last(h, p, 0).value.detail)] else m0;
    assert m2 == if Present(h, p, 1) then m1[STAGE_NAMES[1] := StageText(Last(h, p, 1).value.detail)] else m1;
  }

  ghost function RowOf(h: seq<Happening>, p: string): Row {
    Row(p, StagesOf(h, p), GapOf(h, p))
  }

  // ---- the tracker ----

  /** The record of `p` says what the history says. */
  ghost predicate Agrees(grace: int, e: Entry, h: seq<Happening>, p: string) {
    && e.prefix == p
    && |e.hops| == N_STAGES
    && (forall s: nat | s < N_STAGES :: e.hops[s].present == Present(h, p, s))
    && (forall s: nat | s < N_STAGES && Present(h, p, s) :: e.hops[s] == Last(h, p, s).value)
    && (Present(h, p, KERNEL) ==> e.kproto == ProtoOf(Last(h, p, KERNEL).value.detail))
    && e.flagged == Raised(grace, h, p)
  }

  const NEW_HOPS: seq<Mark> := [Mark(false, 0, ""), Mark(false, 0, ""), Mark(false, 0, "")]

  /** Updating the record of the observed prefix keeps it in agreement. */
  lemma {:induction false} ObservationAgrees(grace: int, e: Entry, h: seq<Happening>, x: Happening)
    requires x.Seen? && x.stage < N_STAGES
    requires if Tracked(h, x.prefix) then Agrees(grace, e, h, x.prefix) else e == Entry(x.prefix, NEW_HOPS, "", false)
    ensures var hops := e.hops[x.stage := Mark(x.present, x.at, x.detail)];
            var confirmed := x.stage == KERNEL && x.present;
            var e' := Entry(x.prefix, hops, if confirmed then ProtoOf(x.detail) else e.kproto, !confirmed && e.flagged);
            && (Tracked(h + [x], x.prefix) ==> Agrees(grace, e', h + [x], x.prefix))
            && (Tracked(h + [x], x.prefix) <==>
               x.present || hops[RIB_IN].present || hops[FPM].present || hops[KERNEL].present)
  {
    var p := x.prefix;
    LastStep(h, x, p, RIB_IN);
    LastStep(h, x, p, FPM);
    LastStep(h, x, p, KERNEL);
    RaisedStep(grace, h, x, p);
    if !Tracked(h, p) {
      UntrackedIsNotRaised(grace, h, p);
    }
    assert (h + [x])[..|h|] == h && (h + [x])[..|h| + 1] == h + [x];
  }

  lemma {:induction false} OthersAgree(grace: int, e: Entry, h: seq<Happening>, x: Happening, p: string)
    requires x.Seen? && x.prefix != p
    ensures Tracked(h + [x], p) == Tracked(h, p)
    ensures Agrees(grace, e, h, p) ==> Agrees(grace, e, h + [x], p)
    ensures Emissions(grace, h + [x], p) == Emissions(grace, h, p)
  {
    LastStep(h, x, p, RIB_IN);
    LastStep(h, x, p, FPM);
    LastStep(h, x, p, KERNEL);
    RaisedStep(grace, h, x, p);
    assert (h + [x])[..|h|] == h && (h + [x])[..|h| + 1] == h + [x];
  }

  lemma {:induction false} ScanAgrees(grace: int, e: Entry, h: seq<Happening>, at: int, p: string)
    ensures Tracked(h + [Scan(at)], p) == Tracked(h, p)
    ensures Agrees(grace, e, h, p) ==>
              Agrees(grace, e.(flagged := e.flagged || Overdue(grace, h, p, at)), h + [Scan(at)], p)
    ensures Emissions(grace, h + [Scan(at)], p) == Emissions(grace, h, p) + (if Fires(grace, h, p, at) then 1 else 0)
  {
    var x := Scan(at);
    LastStep(h, x, p, RIB_IN);
    LastStep(h, x, p, FPM);
    LastStep(h, x, p, KERNEL);
    RaisedStep(grace, h, x, p);
    assert (h + [x])[..|h|] == h && (h + [x])[..|h| + 1] == h + [x];
  }

  function AlarmFor(graceText: string, p: string, fpmDetail: string): Alarm {
    Alarm("install-gap", p, "fpm pushed but kernel unconfirmed >" + graceText + " (" + fpmDetail + ")")
  }

  function CountFor(alarms: seq<Alarm>, p: string): nat {
    if alarms == [] then 0
    else CountFor(alarms[..|alarms| - 1], p) + (if alarms[|alarms| - 1].prefix == p then 1 else 0)
  }

  lemma {:induction false} CountForConcat(a: seq<Alarm>, b: seq<Alarm>, p: string)
    ensures CountFor(a + b, p) == CountFor(a, p) + CountFor(b, p)
  {
    if b == [] {
      assert a + b == a;
    } else {
      CountForConcat(a, b[..|b| - 1], p);
      assert (a + b)[..|a + b| - 1] == a + b[..|b| - 1];
    }
  }

  /** What one scan of the table emits: one alarm for each prefix that fires, with its FPM detail. */
  ghost predicate IsScanOutput(grace: int, graceText: string, h: seq<Happening>, at: int, alarms: seq<Alarm>) {
    && (forall p :: CountFor(alarms, p) == if Fires(grace, h, p, at) then 1 else 0)
    && (forall a | a in alarms ::
       Present(h, a.prefix, FPM) && a == AlarmFor(graceText, a.prefix, Last(h, a.prefix, FPM).value.detail))
  }

  function PrefixesOf(rows: seq<Row>): (ps: seq<string>)
    ensures |ps| == |rows| && forall i | 0 <= i < |ps| :: ps[i] == rows[i].prefix
  {
    seq(|rows|, i requires 0 <= i < |rows| => rows[i].prefix)
  }

  lemma {:induction false} PrefixesAppended(rows: seq<Row>, r: Row)
    ensures PrefixesOf(rows + [r]) == PrefixesOf(rows) + [r.prefix]
    ensures multiset(PrefixesOf(rows + [r])) == multiset(PrefixesOf(rows)) + multiset{r.prefix}
  {
  }

  ghost predicate RowsAreRight(h: seq<Happening>, rows: seq<Row>) {
    forall i | 0 <= i < |rows| :: rows[i] == RowOf(h, rows[i].prefix)
  }

  /** What the snapshot shows: each tracked prefix once, as the history says. */
  ghost predicate IsSnapshot(h: seq<Happening>, rows: seq<Row>) {
    && (forall p :: multiset(PrefixesOf(rows))[p] == if Tracked(h, p) then 1 else 0)
    && RowsAreRight(h, rows)
  }

  /** The test a scan applies to a record. */
  predicate GapIn(e: Entry, grace: int, now: int)
    requires |e.hops| == N_STAGES
  {
    e.hops[FPM].present && !e.hops[KERNEL].present && !e.flagged && now - e.hops[FPM].ts > grace
  }

  function Scanned(e: Entry, grace: int, now: int): Entry
    requires |e.hops| == N_STAGES
  {
    if GapIn(e, grace, now) then e.(flagged := true) else e
  }

  lemma {:induction false} GapIsFire(grace: int, e: Entry, h: seq<Happening>, p: string, now: int)
    requires Agrees(grace, e, h, p)
    ensures GapIn(e, grace, now) <==> Fires(grace, h, p, now)
    ensures Present(h, p, FPM) ==> e.hops[FPM].detail == Last(h, p, FPM).value.detail
    ensures Agrees(grace, Scanned(e, grace, now), h + [Scan(now)], p)
  {
    ScanAgrees(grace, e, h, now, p);
    assert Scanned(e, grace, now) == e.(flagged := e.flagged || Overdue(grace, h, p, now));
  }

  // ---- the table as a whole ----

  /** Exactly the tracked prefixes have records, and the records say what the history says. */
  ghost predicate IsTable(grace: int, routes: map<string, Entry>, h: seq<Happening>) {
    && (forall p :: p in routes <==> Tracked(h, p))
    && (forall p | p in routes :: Agrees(grace, routes[p], h, p))
  }

  ghost predicate IsLog(grace: int, emitted: seq<Alarm>, h: seq<Happening>) {
    forall p :: CountFor(emitted, p) == Emissions(grace, h, p)
  }

  lemma {:induction false} TableObserved(
      grace: int, routes: map<string, Entry>, h: seq<Happening>, x: Happening, e: Entry)
    requires IsTable(grace, routes, h) && x.Seen?
    requires Tracked(h + [x], x.prefix) ==> Agrees(grace, e, h + [x], x.prefix)
    ensures var p := x.prefix;
            IsTable(grace, if Tracked(h + [x], p) then routes[p := e] else routes - {p}, h + [x])
  {
    forall p | p != x.prefix
      ensures Tracked(h + [x], p) == Tracked(h, p)
      ensures p in routes ==> Agrees(grace, routes[p], h + [x], p)
    {
      OthersAgree(grace, if p in routes then routes[p] else e, h, x, p);
    }
  }

  lemma {:induction false} LogObserved(grace: int, emitted: seq<Alarm>, h: seq<Happening>, x: Happening)
    requires IsLog(grace, emitted, h) && x.Seen?
    ensures IsLog(grace, emitted, h + [x])
  {
    assert (h + [x])[..|h|] == h;
  }

  /** Part of a scan: all records but those in `todo` have been looked at. */
  ghost predicate IsPartlyScanned(
    before: map<string, Entry>, routes: map<string, Entry>, todo: set<string>, grace: int, now: int)
    requires forall p | p in before :: |before[p].hops| == N_STAGES
  {
    && todo <= before.Keys == routes.Keys
    && forall p | p in routes :: routes[p] == if p in todo then before[p] else Scanned(before[p], grace, now)
  }

  ghost predicate AreAlarms(
    out: seq<Alarm>, before: map<string, Entry>, todo: set<string>, grace: int, graceText: string, now: int)
    requires forall p | p in before :: |before[p].hops| == N_STAGES
  {
    && (forall p :: CountFor(out, p) == if p in before && p !in todo && GapIn(before[p], grace, now) then 1 else 0)
    && (forall a | a in out :: a.prefix in before && GapIn(before[a.prefix], grace, now) &&
          a == AlarmFor(graceText, a.prefix, before[a.prefix].hops[FPM].detail))
  }

  lemma {:induction false} AlarmsGrow(
    out: seq<Alarm>, before: map<string, Entry>, todo: set<string>, grace: int, graceText: string, now: int, p: string)
    requires (forall p | p in before :: |before[p].hops| == N_STAGES) && p in todo && todo <= before.Keys
    requires AreAlarms(out, before, todo, grace, graceText, now)
    ensures var more := if GapIn(before[p], grace, now) then [AlarmFor(graceText, p, before[p].hops[FPM].detail)]
            else [];
            AreAlarms(out + more, before, todo - {p}, grace, graceText, now)
  {
    if GapIn(before[p], grace, now) {
      var a := AlarmFor(graceText, p, before[p].hops[FPM].detail);
      assert (out + [a])[..|out|] == out;
    } else {
      assert out + [] == out;
    }
  }

  /** All records but those in `todo` have their row. */
  ghost predicate AreRows(h: seq<Happening>, rows: seq<Row>, keys: set<string>, todo: set<string>) {
    && (forall p :: multiset(PrefixesOf(rows))[p] == if p in keys && p !in todo then 1 else 0)
    && RowsAreRight(h, rows)
  }

  lemma {:induction false} RowsGrow(h: seq<Happening>, rows: seq<Row>, keys: set<string>, todo: set<string>, r: Row)
    requires AreRows(h, rows, keys, todo) && r.prefix in todo && todo <= keys && r == RowOf(h, r.prefix)
    ensures AreRows(h, rows + [r], keys, todo - {r.prefix})
  {
    PrefixesAppended(rows, r);
  }

  class Tracker {
    var routes: map<string, Entry>
    const grace: int
    const graceText: string
    ghost var history: seq<Happening>
    ghost var emitted: seq<Alarm>

    ghost predicate Valid()
      reads this
    {
      IsTable(grace, routes, history) && IsLog(grace, emitted, history)
    }

    constructor (grace: int, graceText: string)
      ensures Valid() && history == [] && emitted == []
      ensures this.grace == if grace <= 0 then 3_000_000_000 else grace
    {
      this.grace := if grace <= 0 then 3_000_000_000 else grace;
      this.graceText := graceText;
      routes := map[];
      history, emitted := [], [];
    }

    /** Records one observation made at time `now`. */
    method Observe(prefix: string, stage: nat, present: bool, detail: string, now: int)
      requires Valid()
      modifies this
      ensures Valid() && emitted == old(emitted)
      ensures history == if prefix == "" || stage >= N_STAGES then old(history)
                         else old(history) + [Seen(prefix, stage, present, detail, now)]
    {
      if prefix == "" || stage >= N_STAGES {
        return;
      }
      ghost var x := Seen(prefix, stage, present, detail, now);
      var e := if prefix in routes then routes[prefix] else Entry(prefix, NEW_HOPS, "", false);
      ObservationAgrees(grace, e, history, x);
      e := e.(hops := e.hops[stage := Mark(present, now, detail)]);
      if stage == KERNEL && present {
        e := e.(flagged := false, kproto := ProtoOf(detail));
      }
      TableObserved(grace, routes, history, x, e);
      LogObserved(grace, emitted, history, x);
      assert routes[prefix := e] - {prefix} == routes - {prefix};
      routes := routes[prefix := e];
      if !present && !e.hops[RIB_IN].present && !e.hops[FPM].present && !e.hops[KERNEL].present {
        routes := routes - {prefix};
      }
      history := history + [x];
    }

    /** The scan itself: flags every record with a gap and collects one alarm for each. */
    method ScanTable(now: int) returns (out: seq<Alarm>)
      requires forall p | p in routes :: routes[p].prefix == p && |routes[p].hops| == N_STAGES
      modifies `routes
      ensures routes.Keys == old(routes).Keys
      ensures forall p | p in routes :: routes[p] == Scanned(old(routes)[p], grace, now)
      ensures forall p :: CountFor(out, p) == if p in routes && GapIn(old(routes)[p], grace, now) then 1 else 0
      ensures forall a | a in out :: a.prefix in routes && GapIn(old(routes)[a.prefix], grace, now) &&
                a == AlarmFor(graceText, a.prefix, old(routes)[a.prefix].hops[FPM].detail)
    {
      ghost var before := routes;
      out := [];
      var todo := routes.Keys;
      while todo != {}
        invariant IsPartlyScanned(before, routes, todo, grace, now)
        invariant AreAlarms(out, before, todo, grace, graceText, now)
        decreases |todo|
      {
        var p :| p in todo;
        AlarmsGrow(out, before, todo, grace, graceText, now, p);
        todo := todo - {p};
        var e := routes[p];
        if e.hops[FPM].present && !e.hops[KERNEL].present && !e.flagged && now - e.hops[FPM].ts > grace {
          routes := routes[p := e.(flagged := true)];
          out := out + [AlarmFor(graceText, e.prefix, e.hops[FPM].detail)];
        } else {
          assert out + [] == out;
        }
      }
    }

    /** One scan for install gaps at time `now`; returns what is handed to the emit hook. */
    method Reconcile(now: int) returns (out: seq<Alarm>)
      requires Valid()
      modifies this
      ensures Valid()
      ensures history == old(history) + [Scan(now)] && emitted == old(emitted) + out
      ensures IsScanOutput(grace, graceText, old(history), now, out)
    {
      ghost var h := history;
      ghost var before := routes;
      out := ScanTable(now);
      forall p | p in before
        ensures GapIn(before[p], grace, now) <==> Fires(grace, h, p, now)
        ensures Present(h, p, FPM) ==> before[p].hops[FPM].detail == Last(h, p, FPM).value.detail
        ensures Agrees(grace, routes[p], h + [Scan(now)], p)
      {
        GapIsFire(grace, before[p], h, p, now);
      }
      assert forall p | p !in before :: !Fires(grace, h, p, now);
      forall p
        ensures Tracked(h + [Scan(now)], p) == Tracked(h, p)
        ensures CountFor(emitted + out, p) == Emissions(grace, h + [Scan(now)], p)
      {
        ScanAgrees(grace, Entry("", NEW_HOPS, "", false), h, now, p);
        CountForConcat(emitted, out, p);
      }
      history := h + [Scan(now)];
      emitted := emitted + out;
    }

    /** One row for a tracked prefix. */
    method RowFor(e: Entry) returns (r: Row)
      requires Agrees(grace, e, history, e.prefix)
      ensures r == RowOf(history, e.prefix)
    {
      var stages: map<string, string> := map[];
      for s := 0 to N_STAGES
        invariant stages == StagesUpTo(history, e.prefix, s)
      {
        if e.hops[s].present {
          var d := e.hops[s].detail;
          if d == "" {
            d := "yes";
          }
          stages := stages[STAGE_NAMES[s] := d];
        }
      }
      var gap := "";
      if e.hops[FPM].present && !e.hops[KERNEL].present {
        gap := "install-gap";
      } else if e.hops[KERNEL].present && !e.hops[FPM].present && e.kproto == "zebra" {
        gap := "orphan-kernel";
      }
      r := Row(e.prefix, stages, gap);
    }

    method Snapshot() returns (rows: seq<Row>)
      requires Valid()
      ensures IsSnapshot(history, rows)
    {
      rows := [];
      var todo := routes.Keys;
      while todo != {}
        invariant todo <= routes.Keys && AreRows(history, rows, routes.Keys, todo)
        decreases |todo|
      {
        var p :| p in todo;
        var r := RowFor(routes[p]);
        RowsGrow(history, rows, routes.Keys, todo, r);
        todo := todo - {p};
        rows := rows + [r];
      }
    }
  }
}
