/** What a stream of events comes to, told from the events themselves: which of them warm-up drops, what the others
    open or join, and the traces that single roots and bursts of follow-ups are published as. */
module CorrelateLaws {
  import opened Wrappers
  import opened Sequences
  import opened Correlate

  /** The traces published once everything read so far is flushed. */
  function Published(cfg: Settings, inputs: seq<Input>): seq<Trace> {
    Publish(cfg.node, Settled(Fold(cfg, inputs)))
  }

  // ---- warm-up ----

  /** No trace is active that an event at `ts` could still join. */
  predicate Idle(cfg: Settings, inputs: seq<Input>, ts: int) {
    var active := Fold(cfg, inputs).active;
    active.None? || ts - active.value.last > cfg.window
  }

  /** The last input was dropped: it closes the list of fates, and no trace is active. */
  predicate LastIsDropped(cfg: Settings, inputs: seq<Input>, e: Event) {
    var st := Fold(cfg, inputs);
    st.active.None? && st.fates != [] && st.fates[|st.fates| - 1] == Dropped(e)
  }

  /** The last input is the latest event of the active trace. */
  predicate LastIsActive(cfg: Settings, inputs: seq<Input>, e: Event) {
    var st := Fold(cfg, inputs);
    st.active.Some? && st.active.value.events != [] && st.active.value.events[|st.active.value.events| - 1] == e
  }

  /** An arrival is dropped exactly when it is a follow-up, reaches no active trace, and warm-up is not over. */
  lemma {:induction false} WarmUpDecides(cfg: Settings, inputs: seq<Input>, a: Arrival)
    ensures LastIsDropped(cfg, inputs + [Arrive(a)], a.e) <==>
            !a.e.root && a.clock - cfg.started < cfg.warmup && Idle(cfg, inputs, a.e.ts)
  {
    FoldAppended(cfg, inputs, Arrive(a));
  }

  /** Every other arrival becomes part of the active trace. */
  lemma {:induction false} NotDroppedIsActive(cfg: Settings, inputs: seq<Input>, a: Arrival)
    ensures LastIsActive(cfg, inputs + [Arrive(a)], a.e) <==> !LastIsDropped(cfg, inputs + [Arrive(a)], a.e)
  {
    FoldAppended(cfg, inputs, Arrive(a));
  }

  /** The input `j` is a follow-up consumed during warm-up. */
  predicate IsEarlyFollowUp(cfg: Settings, inputs: seq<Input>, j: nat, e: Event) {
    && j < |inputs| && inputs[j].Arrive? && inputs[j].a.e == e
    && !e.root && inputs[j].a.clock - cfg.started < cfg.warmup
  }

  /** In any run, whatever is dropped is a follow-up that was consumed during warm-up. */
  lemma {:induction false} DroppedIsEarly(cfg: Settings, inputs: seq<Input>, e: Event)
    requires Dropped(e) in Fold(cfg, inputs).fates
    ensures exists j: nat :: IsEarlyFollowUp(cfg, inputs, j, e)
  {
    var n := |inputs| - 1;
    var before, input := inputs[..n], inputs[n];
    assert inputs == before + [input];
    if Dropped(e) in Fold(cfg, before).fates {
      DroppedIsEarly(cfg, before, e);
      var j: nat :| IsEarlyFollowUp(cfg, before, j, e);
      assert IsEarlyFollowUp(cfg, inputs, j, e);
    } else {
      FoldAppended(cfg, before, input);
      assert IsEarlyFollowUp(cfg, inputs, n, e);
    }
  }

  // ---- what opens and what joins ----

  /** An arrival within the window of the active trace joins it, whatever it is and whenever it is consumed. */
  lemma {:induction false} ArrivalJoins(cfg: Settings, inputs: seq<Input>, a: Arrival, acc: Acc)
    requires Fold(cfg, inputs).active == Some(acc) && a.e.ts - acc.last <= cfg.window
    ensures Fold(cfg, inputs + [Arrive(a)]) ==
            State(Some(Acc(acc.start, a.e.ts, acc.root, acc.churn, acc.events + [a.e])), Fold(cfg, inputs).fates)
  {
    FoldAppended(cfg, inputs, Arrive(a));
  }

  /** An arrival that reaches no active trace closes it and, unless it is dropped, opens its own. */
  lemma {:induction false} ArrivalOpens(cfg: Settings, inputs: seq<Input>, a: Arrival)
    requires Idle(cfg, inputs, a.e.ts) && (a.e.root || a.clock - cfg.started >= cfg.warmup)
    ensures var e := a.e;
            Fold(cfg, inputs + [Arrive(a)]) ==
            State(Some(Acc(e.ts, e.ts,
                           if e.root then e.bus + "/" + e.kind + " " + e.key
                           else "churn/" + e.bus + "-" + e.kind + " " + e.key,
                           !e.root, [e])),
                  Settled(Fold(cfg, inputs)))
  {
    FoldAppended(cfg, inputs, Arrive(a));
  }

  /** A tick closes the active trace when that has been quiet for longer than the idle limit. */
  lemma {:induction false} TickCloses(cfg: Settings, inputs: seq<Input>, now: int)
    ensures var st := Fold(cfg, inputs);
            Fold(cfg, inputs + [Tick(now)]) ==
            if st.active.Some? && now > st.active.value.last + cfg.idle
            then State(None, st.fates + [Segment(st.active.value)]) else st
  {
    FoldAppended(cfg, inputs, Tick(now));
  }

  // ---- what is published ----

  /** An event on the timeline of a trace that started at `start` and not after the event. */
  function At(start: int, e: Event): Span
  {
    Span((e.ts - start) / 1_000_000, e.bus, e.kind, e.key, e.detail)
  }

  /** A root that nothing follows is one trace, warm-up or not. */
  lemma {:induction false} LoneRootIsTraced(cfg: Settings, inputs: seq<Input>, a: Arrival)
    requires a.e.root && Idle(cfg, inputs, a.e.ts)
    ensures var e, before := a.e, Published(cfg, inputs);
            Published(cfg, inputs + [Arrive(a)]) ==
            before + [Trace(cfg.node, |before| + 1, e.bus + "/" + e.kind + " " + e.key, e.ts, 0,
                            [Span(0, e.bus, e.kind, e.key, e.detail)])]
  {
    ArrivalOpens(cfg, inputs, a);
    var acc := Fold(cfg, inputs + [Arrive(a)]).active.value;
    PublishAppended(cfg.node, Settled(Fold(cfg, inputs)), acc);
    assert SpansIn(acc) == [Span(0, a.e.bus, a.e.kind, a.e.key, a.e.detail)];
  }

  /** The active trace after three arrivals, each within the window of the one before. */
  lemma {:induction false} ThreeInARow(cfg: Settings, inputs: seq<Input>, a: Arrival, b: Arrival, c: Arrival)
    requires Idle(cfg, inputs, a.e.ts) && (a.e.root || a.clock - cfg.started >= cfg.warmup)
    requires b.e.ts - a.e.ts <= cfg.window && c.e.ts - b.e.ts <= cfg.window
    ensures Fold(cfg, inputs + [Arrive(a)] + [Arrive(b)]) ==
            State(Some(Acc(a.e.ts, b.e.ts, RootText(a.e), !a.e.root, [a.e, b.e])), Settled(Fold(cfg, inputs)))
    ensures Fold(cfg, inputs + [Arrive(a)] + [Arrive(b)] + [Arrive(c)]) ==
            State(Some(Acc(a.e.ts, c.e.ts, RootText(a.e), !a.e.root, [a.e, b.e, c.e])), Settled(Fold(cfg, inputs)))
  {
    ArrivalOpens(cfg, inputs, a);
    var one := inputs + [Arrive(a)];
    ArrivalJoins(cfg, one, b, Fold(cfg, one).active.value);
    assert [a.e] + [b.e] == [a.e, b.e];
    var two := one + [Arrive(b)];
    ArrivalJoins(cfg, two, c, Fold(cfg, two).active.value);
    assert [a.e, b.e] + [c.e] == [a.e, b.e, c.e];
  }

  /** After warm-up, three follow-ups in a row are published as one trace of churn. */
  lemma {:induction false} ChurnIsTraced(cfg: Settings, inputs: seq<Input>, a: Arrival, b: Arrival, c: Arrival)
    requires !a.e.root && a.clock - cfg.started >= cfg.warmup && Idle(cfg, inputs, a.e.ts)
    requires a.e.ts <= b.e.ts <= a.e.ts + cfg.window && b.e.ts <= c.e.ts <= b.e.ts + cfg.window
    ensures var e, before := a.e, Published(cfg, inputs);
            Published(cfg, inputs + [Arrive(a)] + [Arrive(b)] + [Arrive(c)]) ==
            before + [Trace(cfg.node, |before| + 1, "churn/" + e.bus + "-" + e.kind + " " + e.key, e.ts,
                            (c.e.ts - e.ts) / 1_000_000, [At(e.ts, e), At(e.ts, b.e), At(e.ts, c.e)])]
  {
    ThreeInARow(cfg, inputs, a, b, c);
    var acc := Fold(cfg, inputs + [Arrive(a)] + [Arrive(b)] + [Arrive(c)]).active.value;
    PublishAppended(cfg.node, Settled(Fold(cfg, inputs)), acc);
    ThreeSpans(acc, a.e, b.e, c.e);
  }

  lemma {:induction false} ThreeSpans(acc: Acc, a: Event, b: Event, c: Event)
    requires acc.events == [a, b, c] && acc.start == a.ts <= b.ts && a.ts <= c.ts
    ensures SpansIn(acc) == [At(a.ts, a), At(a.ts, b), At(a.ts, c)]
  {
  }

  /** Two of them are not. */
  lemma {:induction false} PairOfChurnIsNot(cfg: Settings, inputs: seq<Input>, a: Arrival, b: Arrival)
    requires !a.e.root && a.clock - cfg.started >= cfg.warmup && Idle(cfg, inputs, a.e.ts)
    requires b.e.ts - a.e.ts <= cfg.window && cfg.window >= 0
    ensures Published(cfg, inputs + [Arrive(a)] + [Arrive(b)]) == Published(cfg, inputs)
  {
    ThreeInARow(cfg, inputs, a, b, b);
    PublishAppended(cfg.node, Settled(Fold(cfg, inputs)), Fold(cfg, inputs + [Arrive(a)] + [Arrive(b)]).active.value);
  }

  /** During warm-up the same three leave nothing behind. */
  lemma {:induction false} StartUpSyncIsDropped(cfg: Settings, a: Arrival, b: Arrival, c: Arrival)
    requires !a.e.root && !b.e.root && !c.e.root
    requires a.clock < cfg.started + cfg.warmup && b.clock < cfg.started + cfg.warmup && c.clock < cfg.started +
    cfg.warmup
    ensures Fold(cfg, [Arrive(a), Arrive(b), Arrive(c)]) == State(None, [Dropped(a.e), Dropped(b.e), Dropped(c.e)])
  {
    var all := [Arrive(a), Arrive(b), Arrive(c)];
    assert all[..0] == [] && all[..1] == [Arrive(a)] && all[..2] == [Arrive(a), Arrive(b)];
    FoldAppended(cfg, [], Arrive(a));
    assert [] + [Arrive(a)] == [Arrive(a)];
    FoldAppended(cfg, [Arrive(a)], Arrive(b));
    assert [Arrive(a)] + [Arrive(b)] == [Arrive(a), Arrive(b)];
    FoldAppended(cfg, [Arrive(a), Arrive(b)], Arrive(c));
    assert [Arrive(a), Arrive(b)] + [Arrive(c)] == all;
  }

  /** Durations are cut off to whole milliseconds towards zero. */
  lemma {:induction false} MillisecondsAreCutOff()
    ensures [Millis(1_999_999), Millis(2_000_000), Millis(-1_999_999), Millis(-2_000_000)] == [1, 2, -1, -2]
  {
  }
}
