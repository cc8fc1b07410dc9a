/** The lineage of a prefix, told from the last things seen of it: its gap, its stages, and when the alarm goes off. */
module LineageLaws {
  import opened Text
  import opened Lineage

  // ---- the gap ----

  /** Pushed, and not in the kernel. */
  lemma {:induction false} PushedOnly(
      h: seq<Happening>, p: string, lost: string, t2: int, pushed: string, t1: int)
    ensures RowOf(h + [Seen(p, 2, false, lost, t2)] + [Seen(p, 1, true, pushed, t1)], p).gap == "install-gap"
  {
    LastStep(h, Seen(p, 2, false, lost, t2), p, 2);
    LastStep(h + [Seen(p, 2, false, lost, t2)], Seen(p, 1, true, pushed, t1), p, 1);
    LastStep(h + [Seen(p, 2, false, lost, t2)], Seen(p, 1, true, pushed, t1), p, 2);
  }

  /** In the kernel, and not pushed: it depends on who installed it. */
  lemma {:induction false} KernelOnly(
      h: seq<Happening>, p: string, lost: string, t1: int, proto: string, nh: string, table: string, t2: int)
    requires ' ' !in proto
    ensures RowOf(h + [Seen(p, 1, false, lost, t1)]
                    + [Seen(p, 2, true, "proto=" + proto + " nh=" + nh + " table=" + table, t2)], p).gap ==
            if proto == "zebra" then "orphan-kernel" else ""
  {
    var before := h + [Seen(p, 1, false, lost, t1)];
    var seen := Seen(p, 2, true, "proto=" + proto + " nh=" + nh + " table=" + table, t2);
    LastStep(h, Seen(p, 1, false, lost, t1), p, 1);
    LastStep(before, seen, p, 1);
    LastStep(before, seen, p, 2);
    ProtoOfKernelDetail(proto, nh, table);
  }

  /** Pushed and confirmed, or neither. */
  lemma {:induction false} NoGap(h: seq<Happening>, p: string, there: bool, d1: string, t1: int, d2: string, t2: int)
    ensures RowOf(h + [Seen(p, 1, there, d1, t1)] + [Seen(p, 2, there, d2, t2)], p).gap == ""
  {
    var before := h + [Seen(p, 1, there, d1, t1)];
    LastStep(h, Seen(p, 1, there, d1, t1), p, 1);
    LastStep(before, Seen(p, 2, there, d2, t2), p, 1);
    LastStep(before, Seen(p, 2, there, d2, t2), p, 2);
  }

  /** The same for a route that was never pushed. */
  lemma {:induction false} NeverPushed(p: string, proto: string, nh: string, table: string, at: int)
    requires ' ' !in proto
    ensures RowOf([Seen(p, 2, true, "proto=" + proto + " nh=" + nh + " table=" + table, at)], p).gap ==
            if proto == "zebra" then "orphan-kernel" else ""
  {
    OnlySight(Seen(p, 2, true, "proto=" + proto + " nh=" + nh + " table=" + table, at));
    ProtoOfKernelDetail(proto, nh, table);
  }

  lemma {:induction false} OnlySight(x: Happening)
    requires x.Seen?
    ensures Last([x], x.prefix, x.stage).Some? && Last([x], x.prefix, x.stage).value == Mark(x.present, x.at, x.detail)
    ensures forall s: nat | s != x.stage :: Last([x], x.prefix, s).None?
  {
    assert [] + [x] == [x];
    forall s: nat ensures Last([], x.prefix, s).None? {
    }
    LastStep([], x, x.prefix, x.stage);
    forall s: nat | s != x.stage ensures Last([x], x.prefix, s).None? {
      LastStep([], x, x.prefix, s);
    }
  }

  /** The three stages by name, and the word for a sight without detail. */
  lemma {:induction false} StageExample(p: string, pushed: string, kernel: string)
    requires pushed != "" && kernel != ""
    ensures var h := [Seen(p, 0, true, "", 0)] + [Seen(p, 1, true, pushed, 0)] + [Seen(p, 2, true, kernel, 0)];
            StagesOf(h, p) == map["rib-in" := "yes", "fpm" := pushed, "kernel" := kernel]
  {
    var a, b, c := Seen(p, 0, true, "", 0), Seen(p, 1, true, pushed, 0), Seen(p, 2, true, kernel, 0);
    OnlySight(a);
    forall s: nat ensures Last([a] + [b], p, s) == if s == 1 then Last([a] + [b], p, 1) else Last([a], p, s) {
      LastStep([a], b, p, s);
    }
    LastStep([a], b, p, 0);
    LastStep([a], b, p, 1);
    LastStep([a] + [b], c, p, 0);
    LastStep([a] + [b], c, p, 1);
    LastStep([a] + [b], c, p, 2);
    var h := [a] + [b] + [c];
    assert StagesUpTo(h, p, 0) == map[];
    assert StagesUpTo(h, p, 1) == map["rib-in" := "yes"];
    assert StagesUpTo(h, p, 2) == map["rib-in" := "yes"]["fpm" := pushed];
  }

  // ---- the alarm ----

  /** A route that was pushed at `since` and is not in the kernel is overdue from the first moment after grace. */
  lemma {:induction false} OverdueAfterGrace(
      grace: int, h: seq<Happening>, p: string, lost: string, t2: int, pushed: string, since: int, at: int)
    ensures Overdue(grace, h + [Seen(p, 2, false, lost, t2)] + [Seen(p, 1, true, pushed, since)], p, at) <==>
            at > since + grace
  {
    var before := h + [Seen(p, 2, false, lost, t2)];
    LastStep(h, Seen(p, 2, false, lost, t2), p, 2);
    LastStep(before, Seen(p, 1, true, pushed, since), p, 1);
    LastStep(before, Seen(p, 1, true, pushed, since), p, 2);
  }

  /** The first scan of a route that was only ever pushed: one alarm after grace, and none until then. */
  lemma {:induction false} FirstAlarm(grace: int, p: string, pushed: string, since: int, at: int, alarms: seq<Alarm>)
    requires IsScanOutput(grace, "3s", [Seen(p, 1, true, pushed, since)], at, alarms)
    ensures alarms == if at <= since + grace then [] else
                      [Alarm("install-gap", p, "fpm pushed but kernel unconfirmed >3s (" + pushed + ")")]
  {
    var h := [Seen(p, 1, true, pushed, since)];
    OnlySight(h[0]);
    NeverScanned(grace, h, p);
    forall a | a in alarms ensures a.prefix == p {
      NeverSeen(h, a.prefix);
    }
    AllAlike(alarms, p);
    assert "fpm pushed but kernel unconfirmed >" + "3s" + " (" + pushed + ")" ==
           "fpm pushed but kernel unconfirmed >3s (" + pushed + ")";
  }

  lemma {:induction false} NeverScanned(grace: int, h: seq<Happening>, p: string)
    requires forall x | x in h :: !x.Scan?
    ensures !Raised(grace, h, p)
  {
  }

  lemma {:induction false} NeverSeen(h: seq<Happening>, p: string)
    requires |h| == 1 && h[0].Seen? && Last(h, p, 1).Some?
    ensures h[0].prefix == p
  {
  }

  lemma {:induction false} AllAlike(alarms: seq<Alarm>, p: string)
    requires forall a | a in alarms :: a.prefix == p
    ensures CountFor(alarms, p) == |alarms|
  {
    if alarms != [] {
      AllAlike(alarms[..|alarms| - 1], p);
    }
  }

  /** Once the kernel has confirmed the route, losing it again is reported again, whatever was before. */
  lemma {:induction false} LostAgainIsReported(
      grace: int, h: seq<Happening>, p: string, found: string, t1: int, lost: string, t2: int, at: int)
    requires var more := h + [Seen(p, 2, true, found, t1)] + [Seen(p, 2, false, lost, t2)]; Overdue(grace, more, p, at)
    ensures Fires(grace, h + [Seen(p, 2, true, found, t1)] + [Seen(p, 2, false, lost, t2)], p, at)
  {
    var confirmed := Seen(p, 2, true, found, t1);
    RaisedStep(grace, h, confirmed, p);
    RaisedStep(grace, h + [confirmed], Seen(p, 2, false, lost, t2), p);
  }

  /** So is a route that nobody held in between and that is pushed again. */
  lemma {:induction false} PushedAgainIsReported(
      grace: int, h: seq<Happening>, p: string, pushed: string, since: int, at: int)
    requires !Present(h, p, 0) && !Present(h, p, 1) && !Present(h, p, 2)
    ensures Fires(grace, h + [Seen(p, 1, true, pushed, since)], p, at) <==> at > since + grace
  {
    var push := Seen(p, 1, true, pushed, since);
    UntrackedIsNotRaised(grace, h, p);
    RaisedStep(grace, h, push, p);
    LastStep(h, push, p, 1);
    LastStep(h, push, p, 2);
  }
}
