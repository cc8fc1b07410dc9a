/** The convergence correlator: a stream of events and timer ticks folded into traces,
    proved equal to a batch segmentation of the events that knows nothing about ticks. */
module Correlate {
  import opened Wrappers
  import opened Sequences

  /** Times and durations are in nanoseconds. */
  datatype Event = Event(bus: string, kind: string, key: string, detail: string, root: bool, ts: int)

  datatype Span = Span(offsetMs: int, bus: string, kind: string, key: string, detail: string)

  datatype Trace = Trace(node: string, id: int, root: string, start: int, spanMs: int, spans: seq<Span>)

  datatype Settings = Settings(node: string, window: int, idle: int, warmup: int, started: int)

  /** The trace being accumulated. */
  datatype Acc = Acc(start: int, last: int, root: string, churn: bool, events: seq<Event>)

  /** An event, with the clock read when it is consumed. */
  datatype Arrival = Arrival(e: Event, clock: int)

  datatype Input = Arrive(a: Arrival) | Tick(now: int)

  /** Duration.Milliseconds truncates towards zero. */
  function Millis(ns: int): int {
    if ns >= 0 then ns / 1_000_000 else -((-ns) / 1_000_000)
  }

  // ---- the batch segmentation ----

  /** What becomes of events: dropped during warm-up, or part of a closed segment. */
  datatype Fate = Dropped(e: Event) | Segment(acc: Acc)

  function RootText(e: Event): string {
    if e.root then e.bus + "/" + e.kind + " " + e.key else "churn/" + e.bus + "-" + e.kind + " " + e.key
  }

  predicate InWarmup(cfg: Settings, a: Arrival) {
    !a.e.root && a.clock - cfg.started < cfg.warmup
  }

  function EventsOf(arrivals: seq<Arrival>): (es: seq<Event>)
    ensures |es| == |arrivals| && forall i | 0 <= i < |es| :: es[i] == arrivals[i].e
  {
    seq(|arrivals|, i requires 0 <= i < |arrivals| => arrivals[i].e)
  }

  function SegmentOf(events: seq<Event>): Acc
    requires events != []
  {
    Acc(events[0].ts, events[|events| - 1].ts, RootText(events[0]), !events[0].root, events)
  }

  /** How many arrivals from the front follow each other within the window. */
  function Burst(window: int, arrivals: seq<Arrival>): (n: nat)
    requires arrivals != []
    ensures 1 <= n <= |arrivals|
    ensures forall i | 0 < i < n :: arrivals[i].e.ts - arrivals[i - 1].e.ts <= window
    ensures n < |arrivals| ==> arrivals[n].e.ts - arrivals[n - 1].e.ts > window
  {
    if |arrivals| == 1 || arrivals[1].e.ts - arrivals[0].e.ts > window then 1
    else 1 + Burst(window, arrivals[1..])
  }

  /** Follow-up events that open nothing during warm-up are dropped; otherwise the longest burst is a segment. */
  function Batch(cfg: Settings, arrivals: seq<Arrival>): seq<Fate> {
    if arrivals == [] then []
    else if InWarmup(cfg, arrivals[0]) then [Dropped(arrivals[0].e)] + Batch(cfg, arrivals[1..])
    else
      var n := Burst(cfg.window, arrivals);
      [Segment(SegmentOf(EventsOf(arrivals[..n])))] + Batch(cfg, arrivals[n..])
  }

  // ---- publishing ----

  /** Fewer than three events of pure churn are not worth a trace. */
  predicate Worthwhile(acc: Acc) {
    !(acc.churn && |acc.events| < 3)
  }

  function SpanOf(start: int, e: Event): Span {
    Span(Millis(e.ts - start), e.bus, e.kind, e.key, e.detail)
  }

  function SpansIn(acc: Acc): (spans: seq<Span>)
    ensures |spans| == |acc.events| && forall i | 0 <= i < |spans| :: spans[i] == SpanOf(acc.start, acc.events[i])
  {
    seq(|acc.events|, i requires 0 <= i < |acc.events| => SpanOf(acc.start, acc.events[i]))
  }

  function TraceOf(node: string, id: int, acc: Acc): Trace {
    Trace(node, id, acc.root, acc.start, Millis(acc.last - acc.start), SpansIn(acc))
  }

  function Publish(node: string, fates: seq<Fate>): seq<Trace> {
    if fates == [] then []
    else
      var before, f := Publish(node, fates[..|fates| - 1]), fates[|fates| - 1];
      if f.Segment? && Worthwhile(f.acc) then before + [TraceOf(node, |before| + 1, f.acc)] else before
  }

  lemma {:induction false} PublishAppended(node: string, fates: seq<Fate>, acc: Acc)
    ensures Publish(node, fates + [Segment(acc)]) ==
            Publish(node, fates) + (if Worthwhile(acc) then [TraceOf(node, |Publish(node, fates)| + 1, acc)] else [])
  {
    assert (fates + [Segment(acc)])[..|fates|] == fates;
  }

  lemma {:induction false} PublishedNumbers(node: string, fates: seq<Fate>)
    ensures forall i | 0 <= i < |Publish(node, fates)| :: Publish(node, fates)[i].id == i + 1
  {
    if fates != [] {
      PublishedNumbers(node, fates[..|fates| - 1]);
    }
  }

  lemma {:induction false} PublishDropped(node: string, fates: seq<Fate>, e: Event)
    ensures Publish(node, fates + [Dropped(e)]) == Publish(node, fates)
  {
    assert (fates + [Dropped(e)])[..|fates|] == fates;
  }

  // ---- the stream ----

  datatype State = State(active: Option<Acc>, fates: seq<Fate>)

  function Flushed(st: State): State
    requires st.active.Some?
  {
    State(None, st.fates + [Segment(st.active.value)])
  }

  function Joined(active: Option<Acc>, e: Event): Acc {
    match active
    case None => SegmentOf([e])
    case Some(acc) => acc.(last := e.ts, events := acc.events + [e])
  }

  function React(cfg: Settings, st: State, input: Input): State {
    match input
    case Tick(now) =>
      if st.active.Some? && now - st.active.value.last > cfg.idle then Flushed(st) else st
    case Arrive(a) =>
      var st' := if st.active.Some? && a.e.ts - st.active.value.last > cfg.window then Flushed(st) else st;
      if st'.active.None? && InWarmup(cfg, a) then st'.(fates := st'.fates + [Dropped(a.e)])
      else st'.(active := Some(Joined(st'.active, a.e)))
  }

  function Fold(cfg: Settings, inputs: seq<Input>): State {
    if inputs == [] then State(None, [])
    else React(cfg, Fold(cfg, inputs[..|inputs| - 1]), inputs[|inputs| - 1])
  }

  /** The fates once the active trace is flushed too. */
  function Settled(st: State): seq<Fate> {
    if st.active.Some? then Flushed(st).fates else st.fates
  }

  function Arrivals(inputs: seq<Input>): seq<Arrival> {
    if inputs == [] then []
    else
      var before, input := Arrivals(inputs[..|inputs| - 1]), inputs[|inputs| - 1];
      if input.Arrive? then before + [input.a] else before
  }

  function Time(input: Input): int {
    match input case Tick(now) => now case Arrive(a) => a.e.ts
  }

  predicate Ordered(inputs: seq<Input>) {
    forall i | 0 < i < |inputs| :: Time(inputs[i - 1]) <= Time(inputs[i])
  }

  // ---- the stream computes the batch ----

  /** The arrival `a` continues the segment that the batch so far ends with. */
  predicate Continues(cfg: Settings, fates: seq<Fate>, a: Arrival) {
    fates != [] && fates[|fates| - 1].Segment? && a.e.ts - fates[|fates| - 1].acc.last <= cfg.window
  }

  lemma {:induction false} BurstAppended(window: int, arrivals: seq<Arrival>, a: Arrival)
    requires arrivals != []
    ensures Burst(window, arrivals + [a]) ==
            if Burst(window, arrivals) == |arrivals| && a.e.ts - arrivals[|arrivals| - 1].e.ts <= window
            then |arrivals| + 1 else Burst(window, arrivals)
  {
    if |arrivals| == 1 {
      assert (arrivals + [a])[1..] == [a];
    } else {
      assert (arrivals + [a])[1..] == arrivals[1..] + [a];
      BurstAppended(window, arrivals[1..], a);
    }
  }

  /** What one more arrival does to the segmentation so far. */
  function Append(cfg: Settings, fates: seq<Fate>, a: Arrival): seq<Fate> {
    if Continues(cfg, fates, a) then fates[..|fates| - 1] + [Segment(Joined(Some(fates[|fates| - 1].acc), a.e))]
    else if InWarmup(cfg, a) then fates + [Dropped(a.e)]
    else fates + [Segment(SegmentOf([a.e]))]
  }

  lemma {:induction false} AppendBehind(cfg: Settings, f: Fate, rest: seq<Fate>, a: Arrival)
    requires rest != [] || f.Dropped?
    ensures Append(cfg, [f] + rest, a) == [f] + Append(cfg, rest, a)
  {
    if rest == [] {
      assert [f] + rest == [f];
    } else {
      assert ([f] + rest)[..|rest|] == [f] + rest[..|rest| - 1];
    }
  }

  lemma {:induction false} BatchOfOne(cfg: Settings, a: Arrival)
    ensures Batch(cfg, [a]) == [if InWarmup(cfg, a) then Dropped(a.e) else Segment(SegmentOf([a.e]))]
  {
    assert [a][1..] == [] && [a][..1] == [a];
    assert EventsOf([a]) == [a.e];
  }

  lemma {:induction false} BatchAppended(cfg: Settings, arrivals: seq<Arrival>, a: Arrival)
    ensures Batch(cfg, arrivals + [a]) == Append(cfg, Batch(cfg, arrivals), a)
    decreases |arrivals|
  {
    if arrivals == [] {
      BatchOfOne(cfg, a);
      assert [] + [a] == [a];
    } else if InWarmup(cfg, arrivals[0]) {
      BatchAppended(cfg, arrivals[1..], a);
      BatchAfterDrop(cfg, arrivals, a);
    } else if Burst(cfg.window, arrivals) == |arrivals| {
      BatchWithinBurst(cfg, arrivals, a);
    } else {
      BatchAppended(cfg, arrivals[Burst(cfg.window, arrivals)..], a);
      BatchAfterBurst(cfg, arrivals, a);
    }
  }

  lemma {:induction false} BatchAfterDrop(cfg: Settings, arrivals: seq<Arrival>, a: Arrival)
    requires arrivals != [] && InWarmup(cfg, arrivals[0])
    requires Batch(cfg, arrivals[1..] + [a]) == Append(cfg, Batch(cfg, arrivals[1..]), a)
    ensures Batch(cfg, arrivals + [a]) == Append(cfg, Batch(cfg, arrivals), a)
  {
    var all := arrivals + [a];
    assert all[0] == arrivals[0];
    assert all[1..] == arrivals[1..] + [a];
    AppendBehind(cfg, Dropped(arrivals[0].e), Batch(cfg, arrivals[1..]), a);
  }

  lemma {:induction false} BatchAfterBurst(cfg: Settings, arrivals: seq<Arrival>, a: Arrival)
    requires arrivals != [] && !InWarmup(cfg, arrivals[0]) && Burst(cfg.window, arrivals) < |arrivals|
    ensures var n := Burst(cfg.window, arrivals);
            var f, rest := Segment(SegmentOf(EventsOf(arrivals[..n]))), arrivals[n..];
            && Batch(cfg, arrivals + [a]) == [f] + Batch(cfg, rest + [a])
            && Append(cfg, Batch(cfg, arrivals), a) == [f] + Append(cfg, Batch(cfg, rest), a)
  {
    var all, n := arrivals + [a], Burst(cfg.window, arrivals);
    BurstAppended(cfg.window, arrivals, a);
    assert all[0] == arrivals[0];
    assert all[..n] == arrivals[..n];
    assert all[n..] == arrivals[n..] + [a];
    var f, rest := Segment(SegmentOf(EventsOf(arrivals[..n]))), Batch(cfg, arrivals[n..]);
    assert Batch(cfg, all) == [f] + Batch(cfg, arrivals[n..] + [a]);
    assert Batch(cfg, arrivals) == [f] + rest;
    AppendBehind(cfg, f, rest, a);
  }

  lemma {:induction false} BatchOfBurst(cfg: Settings, arrivals: seq<Arrival>)
    requires arrivals != [] && !InWarmup(cfg, arrivals[0]) && Burst(cfg.window, arrivals) == |arrivals|
    ensures Batch(cfg, arrivals) == [Segment(SegmentOf(EventsOf(arrivals)))]
  {
    var n := |arrivals|;
    assert arrivals[..n] == arrivals;
    assert arrivals[n..] == [];
  }

  lemma {:induction false} BatchWithinBurst(cfg: Settings, arrivals: seq<Arrival>, a: Arrival)
    requires arrivals != [] && !InWarmup(cfg, arrivals[0]) && Burst(cfg.window, arrivals) == |arrivals|
    ensures Batch(cfg, arrivals + [a]) == Append(cfg, Batch(cfg, arrivals), a)
  {
    var all, n := arrivals + [a], |arrivals|;
    BurstAppended(cfg.window, arrivals, a);
    BatchOfBurst(cfg, arrivals);
    assert all[0] == arrivals[0];
    if Burst(cfg.window, all) == |all| {
      BatchOfBurst(cfg, all);
      assert EventsOf(all) == EventsOf(arrivals) + [a.e];
    } else {
      BatchOfOne(cfg, a);
      assert all[..n] == arrivals;
      assert all[n..] == [a];
    }
  }

  lemma {:induction false} FoldAppended(cfg: Settings, inputs: seq<Input>, input: Input)
    ensures Fold(cfg, inputs + [input]) == React(cfg, Fold(cfg, inputs), input)
    ensures Arrivals(inputs + [input]) == Arrivals(inputs) + (if input.Arrive? then [input.a] else [])
  {
    assert (inputs + [input])[..|inputs|] == inputs;
  }

  lemma {:induction false} FoldOfOne(cfg: Settings, a: Arrival)
    ensures Arrivals([Arrive(a)]) == [a]
    ensures !InWarmup(cfg, a) ==> Fold(cfg, [Arrive(a)]) == State(Some(SegmentOf([a.e])), [])
  {
    FoldAppended(cfg, [], Arrive(a));
    assert [] + [Arrive(a)] == [Arrive(a)];
  }

  /** The stream does the same to its settled fates, as long as it has not closed a segment too early. */
  lemma {:induction false} ReactAppends(cfg: Settings, st: State, a: Arrival)
    requires st.active.None? ==> !Continues(cfg, st.fates, a)
    ensures Settled(React(cfg, st, Arrive(a))) == Append(cfg, Settled(st), a)
  {
    if st.active.Some? {
      assert Settled(st)[..|st.fates|] == st.fates;
    }
  }

  /** An idle stream is past the point where its last segment could be continued. */
  ghost predicate Caught(cfg: Settings, st: State, now: int) {
    match st.active
    case Some(acc) => acc.last <= now
    case None => st.fates != [] && st.fates[|st.fates| - 1].Segment? ==>
        now - st.fates[|st.fates| - 1].acc.last > cfg.window
  }

  lemma {:induction false} StepKeepsCaught(cfg: Settings, st: State, input: Input, earlier: int)
    requires cfg.idle >= cfg.window || cfg.window < 0
    requires st == State(None, []) || (Caught(cfg, st, earlier) && earlier <= Time(input))
    ensures Caught(cfg, React(cfg, st, input), Time(input))
    ensures input.Tick? ==> Settled(React(cfg, st, input)) == Settled(st)
    ensures input.Arrive? && st.active.None? ==> !Continues(cfg, st.fates, input.a)
  {
  }

  lemma {:induction false} StreamInStep(cfg: Settings, inputs: seq<Input>)
    requires Ordered(inputs) && (cfg.idle >= cfg.window || cfg.window < 0)
    ensures Settled(Fold(cfg, inputs)) == Batch(cfg, Arrivals(inputs))
    ensures inputs != [] ==> Caught(cfg, Fold(cfg, inputs), Time(inputs[|inputs| - 1]))
  {
    if inputs == [] {
    } else {
      var before, input := inputs[..|inputs| - 1], inputs[|inputs| - 1];
      StreamInStep(cfg, before);
      StepKeepsCaught(cfg, Fold(cfg, before), input, if before == [] then 0 else Time(before[|before| - 1]));
      if input.Arrive? {
        ReactAppends(cfg, Fold(cfg, before), input.a);
        BatchAppended(cfg, Arrivals(before), input.a);
      }
    }
  }

  /** A tick can split a segment: in time order with a window that is wider than the idle limit, and with any limits
      when the tick is taken before an event that is already waiting. */
  lemma {:induction false} TickCanSplit(cfg: Settings, first: Arrival, now: int, second: Arrival)
    requires first.e.root && second.e.root
    requires now - first.e.ts > cfg.idle && second.e.ts - first.e.ts <= cfg.window
    ensures var inputs := [Arrive(first)] + [Tick(now)] + [Arrive(second)];
            |Settled(Fold(cfg, inputs))| == 2 && |Batch(cfg, Arrivals(inputs))| == 1
  {
    var ticked := [Arrive(first)] + [Tick(now)];
    TickFlushes(cfg, first, now);
    FoldAppended(cfg, ticked, Arrive(second));
    BatchOfOne(cfg, first);
    BatchAppended(cfg, [first], second);
  }

  lemma {:induction false} TickFlushes(cfg: Settings, first: Arrival, now: int)
    requires first.e.root && cfg.idle < now - first.e.ts
    ensures Fold(cfg, [Arrive(first)] + [Tick(now)]) == State(None, [Segment(SegmentOf([first.e]))])
    ensures Arrivals([Arrive(first)] + [Tick(now)]) == [first]
  {
    FoldOfOne(cfg, first);
    FoldAppended(cfg, [Arrive(first)], Tick(now));
  }

  /** Timer flushing never changes the segmentation, exactly when the idle limit is at least the window
      (or the window is negative, so that every event stands alone). */
  lemma {:induction false} TimerIsInvisible(cfg: Settings)
    ensures (forall inputs | Ordered(inputs) :: Settled(Fold(cfg, inputs)) == Batch(cfg, Arrivals(inputs)))
            <==> cfg.idle >= cfg.window || cfg.window < 0
  {
    if cfg.idle >= cfg.window || cfg.window < 0 {
      forall inputs | Ordered(inputs) ensures Settled(Fold(cfg, inputs)) == Batch(cfg, Arrivals(inputs)) {
        StreamInStep(cfg, inputs);
      }
    } else {
      var later := if cfg.idle < 0 then 0 else cfg.idle + 1;
      var first := Arrival(Event("", "", "", "", true, 0), 0);
      var second := Arrival(Event("", "", "", "", true, later), later);
      TickCanSplit(cfg, first, later, second);
      assert Ordered([Arrive(first)] + [Tick(later)] + [Arrive(second)]);
    }
  }

  /** So the published traces depend on the events alone. */
  lemma {:induction false} TicksDoNotMatter(cfg: Settings, inputs: seq<Input>, other: seq<Input>)
    requires cfg.idle >= cfg.window && Ordered(inputs) && Ordered(other) && Arrivals(inputs) == Arrivals(other)
    ensures Publish(cfg.node, Settled(Fold(cfg, inputs))) == Publish(cfg.node, Settled(Fold(cfg, other)))
    ensures Publish(cfg.node, Settled(Fold(cfg, inputs))) == Publish(cfg.node, Batch(cfg, Arrivals(inputs)))
  {
    TimerIsInvisible(cfg);
  }

  // ---- conservation ----

  function EventsIn(fates: seq<Fate>): seq<Event> {
    if fates == [] then []
    else
      var before, f := EventsIn(fates[..|fates| - 1]), fates[|fates| - 1];
      before + (if f.Dropped? then [f.e] else f.acc.events)
  }

  ghost predicate WellFormed(cfg: Settings, acc: Acc) {
    && acc.events != []
    && acc == SegmentOf(acc.events)
    && forall i | 0 < i < |acc.events| :: acc.events[i].ts - acc.events[i - 1].ts <= cfg.window
  }

  ghost predicate FateIsSound(cfg: Settings, f: Fate) {
    match f case Dropped(e) => !e.root case Segment(acc) => WellFormed(cfg, acc)
  }

  /** Each of `events` is in exactly one place, in order: dropped, in a closed segment, or in the active trace. */
  ghost predicate Accounted(cfg: Settings, st: State, events: seq<Event>) {
    && EventsIn(st.fates) + (if st.active.Some? then st.active.value.events else []) == events
    && (st.active.Some? ==> WellFormed(cfg, st.active.value))
    && forall i | 0 <= i < |st.fates| :: FateIsSound(cfg, st.fates[i])
  }

  lemma {:induction false} FlushKeepsAccount(cfg: Settings, st: State, events: seq<Event>)
    requires Accounted(cfg, st, events) && st.active.Some?
    ensures Accounted(cfg, Flushed(st), events)
  {
    EventsInAppended(st.fates, Segment(st.active.value));
  }

  lemma {:induction false} DropIsAccounted(cfg: Settings, st: State, events: seq<Event>, e: Event)
    requires Accounted(cfg, st, events) && st.active.None? && !e.root
    ensures Accounted(cfg, st.(fates := st.fates + [Dropped(e)]), events + [e])
  {
    EventsInAppended(st.fates, Dropped(e));
  }

  lemma {:induction false} JoinIsAccounted(cfg: Settings, st: State, events: seq<Event>, e: Event)
    requires Accounted(cfg, st, events)
    requires st.active.Some? ==> e.ts - st.active.value.last <= cfg.window
    ensures Accounted(cfg, st.(active := Some(Joined(st.active, e))), events + [e])
  {
  }

  lemma {:induction false} ArrivalIsAccounted(cfg: Settings, st: State, events: seq<Event>, a: Arrival)
    requires Accounted(cfg, st, events)
    ensures Accounted(cfg, React(cfg, st, Arrive(a)), events + [a.e])
  {
    var st' := st;
    if st.active.Some? && a.e.ts - st.active.value.last > cfg.window {
      FlushKeepsAccount(cfg, st, events);
      st' := Flushed(st);
    }
    if st'.active.None? && InWarmup(cfg, a) {
      DropIsAccounted(cfg, st', events, a.e);
    } else {
      JoinIsAccounted(cfg, st', events, a.e);
    }
  }

  /** Conservation over whole runs. Dropped events are never roots, and every segment is a burst
      headed by its own first event. Timestamps need not be in order. */
  lemma {:induction false} EventsAreConserved(cfg: Settings, inputs: seq<Input>)
    ensures Accounted(cfg, Fold(cfg, inputs), EventsOf(Arrivals(inputs)))
  {
    if inputs == [] {
    } else {
      var before, input := inputs[..|inputs| - 1], inputs[|inputs| - 1];
      EventsAreConserved(cfg, before);
      var st, events := Fold(cfg, before), EventsOf(Arrivals(before));
      if input.Arrive? {
        ArrivalIsAccounted(cfg, st, events, input.a);
        assert EventsOf(Arrivals(inputs)) == events + [input.a.e];
      } else if st.active.Some? {
        FlushKeepsAccount(cfg, st, events);
      }
    }
  }

  lemma {:induction false} EventsInAppended(fates: seq<Fate>, f: Fate)
    ensures EventsIn(fates + [f]) == EventsIn(fates) + (if f.Dropped? then [f.e] else f.acc.events)
  {
    assert (fates + [f])[..|fates|] == fates;
  }

  /** A timeline starts at 0, never goes back and ends at SpanMs. */
  predicate IsTimeline(t: Trace) {
    && t.spans != []
    && t.spans[0].offsetMs == 0
    && t.spans[|t.spans| - 1].offsetMs == t.spanMs
    && forall i | 0 < i < |t.spans| :: t.spans[i - 1].offsetMs <= t.spans[i].offsetMs
  }

  predicate InOrder(events: seq<Event>) {
    forall i | 0 < i < |events| :: events[i - 1].ts <= events[i].ts
  }

  lemma {:induction false} TimelineOfTrace(cfg: Settings, node: string, id: int, acc: Acc)
    requires WellFormed(cfg, acc) && InOrder(acc.events)
    ensures IsTimeline(TraceOf(node, id, acc)) && |TraceOf(node, id, acc).spans| == |acc.events|
  {
    forall i | 0 <= i < |acc.events| ensures acc.start <= acc.events[i].ts {
      EventsAfterFirst(acc.events, i);
    }
  }

  /** In a time-ordered run the events of every segment, closed or active, are in order. */
  ghost predicate AllInOrder(st: State) {
    && (st.active.Some? ==> InOrder(st.active.value.events))
    && forall i | 0 <= i < |st.fates| && st.fates[i].Segment? :: InOrder(st.fates[i].acc.events)
  }

  lemma {:induction false} RunIsInOrder(cfg: Settings, inputs: seq<Input>)
    requires Ordered(inputs)
    ensures AllInOrder(Fold(cfg, inputs))
    ensures Fold(cfg, inputs).active.Some? ==>
            inputs != [] && Fold(cfg, inputs).active.value.last <= Time(inputs[|inputs| - 1])
  {
    if inputs != [] {
      var n := |inputs| - 1;
      var before := inputs[..n];
      RunIsInOrder(cfg, before);
      EventsAreConserved(cfg, before);
      assert n > 0 ==> Time(before[n - 1]) <= Time(inputs[n]);
      StepKeepsOrder(cfg, Fold(cfg, before), inputs[n]);
    }
  }

  lemma {:induction false} StepKeepsOrder(cfg: Settings, st: State, input: Input)
    requires AllInOrder(st)
    requires st.active.Some? ==> WellFormed(cfg, st.active.value) && st.active.value.last <= Time(input)
    ensures AllInOrder(React(cfg, st, input))
    ensures React(cfg, st, input).active.Some? ==> React(cfg, st, input).active.value.last <= Time(input)
  {
  }

  lemma {:induction false} PublishedFromSegments(node: string, fates: seq<Fate>, t: Trace)
    requires t in Publish(node, fates)
    ensures exists i :: 0 <= i < |fates| && fates[i].Segment? && t == TraceOf(node, t.id, fates[i].acc)
  {
    var n := |fates| - 1;
    var before := fates[..n];
    if t in Publish(node, before) {
      PublishedFromSegments(node, before, t);
      var i :| 0 <= i < n && before[i].Segment? && t == TraceOf(node, t.id, before[i].acc);
      assert fates[i] == before[i];
    } else {
      assert fates[n].Segment? && t == TraceOf(node, t.id, fates[n].acc);
    }
  }

  /** Every trace that a time-ordered run publishes, a final flush included, has a proper timeline. */
  lemma {:induction false} PublishedTimelines(cfg: Settings, inputs: seq<Input>)
    requires Ordered(inputs)
    ensures forall t | t in Publish(cfg.node, Settled(Fold(cfg, inputs))) :: IsTimeline(t)
  {
    var st := Fold(cfg, inputs);
    RunIsInOrder(cfg, inputs);
    EventsAreConserved(cfg, inputs);
    forall t | t in Publish(cfg.node, Settled(st)) ensures IsTimeline(t) {
      PublishedFromSegments(cfg.node, Settled(st), t);
      var i :| 0 <= i < |Settled(st)| && Settled(st)[i].Segment? && t == TraceOf(cfg.node, t.id, Settled(st)[i].acc);
      assert i < |st.fates| ==> Settled(st)[i] == st.fates[i] && FateIsSound(cfg, st.fates[i]);
      TimelineOfTrace(cfg, cfg.node, t.id, Settled(st)[i].acc);
    }
  }

  lemma {:induction false} EventsAfterFirst(events: seq<Event>, i: nat)
    requires i < |events|
    requires InOrder(events)
    ensures events[0].ts <= events[i].ts
  {
    if i > 0 {
      EventsAfterFirst(events, i - 1);
    }
  }

  /** A root event does not always open a trace: one that arrives within the window of a single
      follow-up event joins its churn segment, and is discarded with it if nothing else follows. */
  lemma {:induction false} RootCanBeDiscarded(cfg: Settings, follow: Arrival, root: Arrival)
    requires !follow.e.root && root.e.root && !InWarmup(cfg, follow)
    requires root.e.ts - follow.e.ts <= cfg.window
    ensures Publish(cfg.node, Settled(Fold(cfg, [Arrive(follow)] + [Arrive(root)]))) == []
  {
    var acc := Joined(Some(SegmentOf([follow.e])), root.e);
    FoldOfOne(cfg, follow);
    FoldAppended(cfg, [Arrive(follow)], Arrive(root));
    assert Settled(Fold(cfg, [Arrive(follow)] + [Arrive(root)])) == [Segment(acc)];
    PublishNothing(cfg.node, acc);
  }

  /** Exactly when that happens, in any run: a closed segment is published if and only if a root opened it
      or it has at least three events. */
  lemma {:induction false} PublishedUnlessShortChurn(cfg: Settings, inputs: seq<Input>, i: nat)
    requires i < |Fold(cfg, inputs).fates| && Fold(cfg, inputs).fates[i].Segment?
    ensures var fates := Fold(cfg, inputs).fates;
            var acc, before := fates[i].acc, Publish(cfg.node, fates[..i]);
            && acc.events != []
            && Publish(cfg.node, fates[..i + 1]) ==
               before + (if acc.events[0].root || |acc.events| >= 3 then [TraceOf(cfg.node, |before| + 1, acc)] else [])
  {
    var fates := Fold(cfg, inputs).fates;
    EventsAreConserved(cfg, inputs);
    assert FateIsSound(cfg, fates[i]);
    PublishAt(cfg.node, fates, i);
  }

  // ---- which root events are lost ----

  /** A root event of a segment goes unpublished if and only if the segment is one follow-up and then this event. */
  lemma {:induction false} RootUnpublishedIff(cfg: Settings, acc: Acc, j: nat)
    requires WellFormed(cfg, acc) && j < |acc.events| && acc.events[j].root
    ensures !Worthwhile(acc) <==> |acc.events| == 2 && j == 1 && !acc.events[0].root
  {
  }

  function Gap(arrivals: seq<Arrival>, k: nat): int
    requires 0 < k < |arrivals|
  {
    arrivals[k].e.ts - arrivals[k - 1].e.ts
  }

  /** The `k`-th arrival gets into a segment. */
  predicate Kept(cfg: Settings, arrivals: seq<Arrival>, k: nat)
    requires k < |arrivals|
  {
    !InWarmup(cfg, arrivals[k]) || (k > 0 && Gap(arrivals, k) <= cfg.window && Kept(cfg, arrivals, k - 1))
  }

  /** The `k`-th arrival opens a segment. */
  predicate Opens(cfg: Settings, arrivals: seq<Arrival>, k: nat)
    requires k < |arrivals|
  {
    !InWarmup(cfg, arrivals[k]) && (k == 0 || Gap(arrivals, k) > cfg.window || !Kept(cfg, arrivals, k - 1))
  }

  /** The arrival before opens a segment as a follow-up, this one is within the window of it, and the next one, if any,
      is not within the window of this one. */
  predicate Swallowed(cfg: Settings, arrivals: seq<Arrival>, k: nat)
    requires k < |arrivals|
  {
    && k > 0 && !arrivals[k - 1].e.root && Opens(cfg, arrivals, k - 1)
    && Gap(arrivals, k) <= cfg.window
    && (k + 1 < |arrivals| ==> Gap(arrivals, k + 1) > cfg.window)
  }

  /** Nothing before the `n`-th arrival reaches it. */
  predicate CutBefore(cfg: Settings, arrivals: seq<Arrival>, n: nat)
    requires 0 < n <= |arrivals|
  {
    n == |arrivals| || Gap(arrivals, n) > cfg.window || !Kept(cfg, arrivals, n - 1)
  }

  lemma {:induction false} KeptBehind(cfg: Settings, arrivals: seq<Arrival>, n: nat, k: nat)
    requires 0 < n <= k < |arrivals| && CutBefore(cfg, arrivals, n)
    ensures Kept(cfg, arrivals, k) <==> Kept(cfg, arrivals[n..], k - n)
  {
    if k > n {
      KeptBehind(cfg, arrivals, n, k - 1);
    }
  }

  lemma {:induction false} SwallowedBehind(cfg: Settings, arrivals: seq<Arrival>, n: nat, k: nat)
    requires 0 < n <= k < |arrivals| && CutBefore(cfg, arrivals, n)
    ensures Swallowed(cfg, arrivals, k) <==> Swallowed(cfg, arrivals[n..], k - n)
  {
    if k > n + 1 {
      KeptBehind(cfg, arrivals, n, k - 2);
    }
  }

  lemma {:induction false} KeptInBurst(cfg: Settings, arrivals: seq<Arrival>, k: nat)
    requires arrivals != [] && !InWarmup(cfg, arrivals[0]) && k < Burst(cfg.window, arrivals)
    ensures Kept(cfg, arrivals, k)
  {
    if k > 0 {
      KeptInBurst(cfg, arrivals, k - 1);
    }
  }

  function Size(f: Fate): nat {
    if f.Dropped? then 1 else |f.acc.events|
  }

  /** Where the `k`-th event went, counted through the fates in order. */
  function FateIndex(fates: seq<Fate>, k: nat): nat {
    if fates == [] || k < Size(fates[0]) then 0 else 1 + FateIndex(fates[1..], k - Size(fates[0]))
  }

  /** The fate of the `k`-th arrival holds its event, and a root is lost exactly when it is swallowed. */
  ghost predicate RootFate(cfg: Settings, arrivals: seq<Arrival>, fates: seq<Fate>, k: nat)
    requires k < |arrivals|
  {
    var i := FateIndex(fates, k);
    && i < |fates| && fates[i].Segment? && arrivals[k].e in fates[i].acc.events
    && (Worthwhile(fates[i].acc) <==> !Swallowed(cfg, arrivals, k))
  }

  lemma {:induction false} RootsInBatch(cfg: Settings, arrivals: seq<Arrival>, k: nat)
    requires k < |arrivals| && arrivals[k].e.root
    ensures RootFate(cfg, arrivals, Batch(cfg, arrivals), k)
    decreases |arrivals|
  {
    if InWarmup(cfg, arrivals[0]) {
      RootBehind(cfg, arrivals, Dropped(arrivals[0].e), 1, k);
    } else {
      var n := Burst(cfg.window, arrivals);
      if k < n {
        RootInBurst(cfg, arrivals, k);
      } else {
        RootBehind(cfg, arrivals, Segment(SegmentOf(EventsOf(arrivals[..n]))), n, k);
      }
    }
  }

  lemma {:induction false} RootInBurst(cfg: Settings, arrivals: seq<Arrival>, k: nat)
    requires arrivals != [] && !InWarmup(cfg, arrivals[0])
    requires k < Burst(cfg.window, arrivals) && arrivals[k].e.root
    ensures RootFate(cfg, arrivals, Batch(cfg, arrivals), k)
  {
    var n := Burst(cfg.window, arrivals);
    var events := EventsOf(arrivals[..n]);
    assert events[k] == arrivals[k].e && events[0] == arrivals[0].e;
    if k > 1 {
      KeptInBurst(cfg, arrivals, k - 2);
      assert !Opens(cfg, arrivals, k - 1);
    }
  }

  lemma {:induction false} RootBehind(cfg: Settings, arrivals: seq<Arrival>, f: Fate, n: nat, k: nat)
    requires 0 < n <= k < |arrivals| && arrivals[k].e.root && Size(f) == n
    requires CutBefore(cfg, arrivals, n) && Batch(cfg, arrivals) == [f] + Batch(cfg, arrivals[n..])
    ensures RootFate(cfg, arrivals, Batch(cfg, arrivals), k)
    decreases |arrivals|, 0
  {
    RootsInBatch(cfg, arrivals[n..], k - n);
    SwallowedBehind(cfg, arrivals, n, k);
    RootFateBehind(cfg, arrivals, f, Batch(cfg, arrivals[n..]), n, k);
  }

  lemma {:induction false} RootFateBehind(
      cfg: Settings, arrivals: seq<Arrival>, f: Fate, rest: seq<Fate>, n: nat, k: nat)
    requires 0 < n <= k < |arrivals| && Size(f) == n
    requires Swallowed(cfg, arrivals, k) <==> Swallowed(cfg, arrivals[n..], k - n)
    requires RootFate(cfg, arrivals[n..], rest, k - n)
    ensures RootFate(cfg, arrivals, [f] + rest, k)
  {
    assert ([f] + rest)[1..] == rest;
  }

  /** The `k`-th event is in a segment of `fates`, which is published exactly if the event is not swallowed. */
  ghost predicate LostOrPublished(cfg: Settings, arrivals: seq<Arrival>, fates: seq<Fate>, k: nat)
    requires k < |arrivals|
  {
    var i := FateIndex(fates, k);
    && i < |fates| && fates[i].Segment? && arrivals[k].e in fates[i].acc.events
    && var before := Publish(cfg.node, fates[..i]);
       Publish(cfg.node, fates[..i + 1]) ==
       before + (if Swallowed(cfg, arrivals, k) then [] else [TraceOf(cfg.node, |before| + 1, fates[i].acc)])
  }

  /** What a time-ordered run does with a root event: the segment it is in is published, unless the event is swallowed,
      which can be told from the arrivals around it. */
  lemma {:induction false} RootIsLostIff(cfg: Settings, inputs: seq<Input>, k: nat)
    requires cfg.idle >= cfg.window && Ordered(inputs)
    requires k < |Arrivals(inputs)| && Arrivals(inputs)[k].e.root
    ensures LostOrPublished(cfg, Arrivals(inputs), Settled(Fold(cfg, inputs)), k)
  {
    StreamInStep(cfg, inputs);
    RootIsLostInBatch(cfg, Arrivals(inputs), k);
  }

  lemma {:induction false} RootIsLostInBatch(cfg: Settings, arrivals: seq<Arrival>, k: nat)
    requires k < |arrivals| && arrivals[k].e.root
    ensures LostOrPublished(cfg, arrivals, Batch(cfg, arrivals), k)
  {
    RootsInBatch(cfg, arrivals, k);
    RootIsLostIn(cfg, arrivals, Batch(cfg, arrivals), k);
  }

  lemma {:induction false} RootIsLostIn(cfg: Settings, arrivals: seq<Arrival>, fates: seq<Fate>, k: nat)
    requires k < |arrivals| && RootFate(cfg, arrivals, fates, k)
    ensures LostOrPublished(cfg, arrivals, fates, k)
  {
    PublishAt(cfg.node, fates, FateIndex(fates, k));
  }

  lemma {:induction false} PublishAt(node: string, fates: seq<Fate>, i: nat)
    requires i < |fates| && fates[i].Segment?
    ensures var before := Publish(node, fates[..i]);
            Publish(node, fates[..i + 1]) ==
                before + (if Worthwhile(fates[i].acc) then [TraceOf(node, |before| + 1, fates[i].acc)] else [])
  {
    assert fates[..i + 1] == fates[..i] + [Segment(fates[i].acc)];
    PublishAppended(node, fates[..i], fates[i].acc);
  }

  // ---- which ticks show ----

  /** The `j`-th input is a tick by which the last arrival before it is out of date, and yet the next arrival
      belongs to the same segment. */
  ghost predicate IsEarlyTick(cfg: Settings, inputs: seq<Input>, j: nat) {
    && j < |inputs| && inputs[j].Tick?
    && var all, m := Arrivals(inputs), |Arrivals(inputs[..j])|;
       && 0 < m < |all|
       && inputs[j].now - all[m - 1].e.ts > cfg.idle
       && Gap(all, m) <= cfg.window && Kept(cfg, all, m - 1)
  }

  ghost predicate NoEarlyTick(cfg: Settings, inputs: seq<Input>) {
    forall j: nat :: !IsEarlyTick(cfg, inputs, j)
  }

  lemma {:induction false} ArrivalsGrow(inputs: seq<Input>, j: nat)
    requires j <= |inputs|
    ensures Arrivals(inputs[..j]) <= Arrivals(inputs)
  {
    if j == |inputs| {
      assert inputs[..j] == inputs;
    } else {
      var before := inputs[..|inputs| - 1];
      ArrivalsGrow(before, j);
      assert before[..j] == inputs[..j];
    }
  }

  lemma {:induction false} FatesGrow(cfg: Settings, inputs: seq<Input>, j: nat)
    requires j <= |inputs|
    ensures Fold(cfg, inputs[..j]).fates <= Fold(cfg, inputs).fates
  {
    if j == |inputs| {
      assert inputs[..j] == inputs;
    } else {
      var before := inputs[..|inputs| - 1];
      FatesGrow(cfg, before, j);
      assert before[..j] == inputs[..j];
    }
  }

  lemma {:induction false} KeptInPrefix(cfg: Settings, part: seq<Arrival>, all: seq<Arrival>, k: nat)
    requires part <= all && k < |part|
    ensures Kept(cfg, part, k) <==> Kept(cfg, all, k)
  {
    if k > 0 {
      KeptInPrefix(cfg, part, all, k - 1);
    }
  }

  function EventsOfFate(f: Fate): seq<Event> {
    if f.Dropped? then [f.e] else f.acc.events
  }

  lemma {:induction false} EventsInBoth(f: Fate, before: seq<Fate>, last: Fate)
    requires EventsIn([f] + before) == EventsOfFate(f) + EventsIn(before)
    ensures EventsIn(([f] + before) + [last]) == EventsOfFate(f) + EventsIn(before + [last])
  {
    EventsInAppended([f] + before, last);
    EventsInAppended(before, last);
    Regroup(EventsOfFate(f), EventsIn(before), EventsOfFate(last));
  }

  lemma {:induction false} EventsInFront(f: Fate, rest: seq<Fate>)
    ensures EventsIn([f] + rest) == EventsOfFate(f) + EventsIn(rest)
  {
    if rest == [] {
      assert [f] + rest == [] + [f];
      EventsInAppended([], f);
    } else {
      var n := |rest| - 1;
      var before, last := rest[..n], rest[n];
      EventsInFront(f, before);
      assert rest == before + [last];
      Regroup([f], before, [last]);
      EventsInBoth(f, before, last);
    }
  }

  /** In the batch, fates end only where nothing reaches across. */
  lemma {:induction false} BoundariesAreCuts(cfg: Settings, arrivals: seq<Arrival>, i: nat)
    requires i <= |Batch(cfg, arrivals)|
    ensures var m := |EventsIn(Batch(cfg, arrivals)[..i])|;
            (i > 0 ==> m > 0) && m <= |arrivals| && (m > 0 ==> CutBefore(cfg, arrivals, m))
    decreases |arrivals|
  {
    if i > 0 {
      var warm := InWarmup(cfg, arrivals[0]);
      var n := if warm then 1 else Burst(cfg.window, arrivals);
      var f := if warm then Dropped(arrivals[0].e) else Segment(SegmentOf(EventsOf(arrivals[..n])));
      BoundaryBehind(cfg, arrivals, f, n, i);
    } else {
      assert Batch(cfg, arrivals)[..0] == [];
    }
  }

  lemma {:induction false} BoundaryBehind(cfg: Settings, arrivals: seq<Arrival>, f: Fate, n: nat, i: nat)
    requires 0 < i <= |Batch(cfg, arrivals)| && 0 < n <= |arrivals| && Size(f) == n
    requires CutBefore(cfg, arrivals, n) && Batch(cfg, arrivals) == [f] + Batch(cfg, arrivals[n..])
    ensures var m := |EventsIn(Batch(cfg, arrivals)[..i])|;
            0 < m <= |arrivals| && CutBefore(cfg, arrivals, m)
    decreases |arrivals|, 0
  {
    BoundariesAreCuts(cfg, arrivals[n..], i - 1);
    BoundaryStep(cfg, arrivals, f, Batch(cfg, arrivals[n..]), n, i);
  }

  lemma {:induction false} BoundaryStep(cfg: Settings, arrivals: seq<Arrival>, f: Fate, rest: seq<Fate>, n: nat, i: nat)
    requires 0 < i <= |rest| + 1 && 0 < n <= |arrivals| && Size(f) == n && CutBefore(cfg, arrivals, n)
    requires var m := |EventsIn(rest[..i - 1])|;
             m <= |arrivals| - n && (m > 0 ==> CutBefore(cfg, arrivals[n..], m))
    ensures var m := |EventsIn(([f] + rest)[..i])|; 0 < m <= |arrivals| && CutBefore(cfg, arrivals, m)
  {
    assert ([f] + rest)[..i] == [f] + rest[..i - 1];
    EventsInFront(f, rest[..i - 1]);
    CutBehind(cfg, arrivals, n, |EventsIn(rest[..i - 1])|);
  }

  lemma {:induction false} CutBehind(cfg: Settings, arrivals: seq<Arrival>, n: nat, m: nat)
    requires 0 < n && n + m <= |arrivals| && CutBefore(cfg, arrivals, n)
    requires m > 0 ==> CutBefore(cfg, arrivals[n..], m)
    ensures CutBefore(cfg, arrivals, n + m)
  {
    if m > 0 && n + m < |arrivals| {
      KeptBehind(cfg, arrivals, n, n + m - 1);
    }
  }

  /** Whether the last arrival was kept can be told from the last fate. */
  lemma {:induction false} LastFateIsKept(cfg: Settings, arrivals: seq<Arrival>)
    requires arrivals != []
    ensures var fates, n := Batch(cfg, arrivals), |arrivals| - 1;
            && fates != []
            && (fates[|fates| - 1].Segment? <==> Kept(cfg, arrivals, n))
            && (fates[|fates| - 1].Segment? ==> fates[|fates| - 1].acc.last == arrivals[n].e.ts)
  {
    var n := |arrivals| - 1;
    var before := arrivals[..n];
    assert arrivals == before + [arrivals[n]];
    BatchAppended(cfg, before, arrivals[n]);
    LastOfAppended(cfg, Batch(cfg, before), arrivals[n]);
    if n > 0 {
      LastFateIsKept(cfg, before);
      KeptInPrefix(cfg, before, arrivals, n - 1);
    }
  }

  lemma {:induction false} LastOfAppended(cfg: Settings, fates: seq<Fate>, a: Arrival)
    ensures var more := Append(cfg, fates, a);
            && more != []
            && (more[|more| - 1].Segment? <==> Continues(cfg, fates, a) || !InWarmup(cfg, a))
            && (more[|more| - 1].Segment? ==> more[|more| - 1].acc.last == a.e.ts)
  {
  }

  /** The last arrival of a stream is the last event of its active trace. */
  lemma {:induction false} ActiveEndsWithLast(cfg: Settings, inputs: seq<Input>)
    requires Fold(cfg, inputs).active.Some?
    ensures var all := Arrivals(inputs); all != [] && Fold(cfg, inputs).active.value.last == all[|all| - 1].e.ts
  {
    EventsAreConserved(cfg, inputs);
    var all, acc := Arrivals(inputs), Fold(cfg, inputs).active.value;
    assert EventsOf(all)[|all| - 1] == acc.events[|acc.events| - 1];
  }

  /** Where the last arrival is out of date, a tick leaves no trace active, so that a fate ends there. */
  lemma {:induction false} TickEndsFate(cfg: Settings, inputs: seq<Input>, j: nat)
    requires j < |inputs| && inputs[j].Tick? && Arrivals(inputs[..j]) != []
    requires var seen := Arrivals(inputs[..j]); inputs[j].now - seen[|seen| - 1].e.ts > cfg.idle
    ensures var fates := Fold(cfg, inputs[..j + 1]).fates;
            fates <= Settled(Fold(cfg, inputs)) && |EventsIn(fates)| == |Arrivals(inputs[..j])|
  {
    var seen := inputs[..j];
    assert inputs[..j + 1] == seen + [inputs[j]];
    FoldAppended(cfg, seen, inputs[j]);
    if Fold(cfg, seen).active.Some? {
      ActiveEndsWithLast(cfg, seen);
    }
    assert Fold(cfg, inputs[..j + 1]).active.None?;
    EventsAreConserved(cfg, inputs[..j + 1]);
    FatesGrow(cfg, inputs, j + 1);
  }

  lemma {:induction false} EarlyTickShows(cfg: Settings, inputs: seq<Input>, j: nat)
    requires IsEarlyTick(cfg, inputs, j)
    ensures Settled(Fold(cfg, inputs)) != Batch(cfg, Arrivals(inputs))
  {
    ArrivalsGrow(inputs, j);
    TickEndsFate(cfg, inputs, j);
    var fates := Fold(cfg, inputs[..j + 1]).fates;
    if Settled(Fold(cfg, inputs)) == Batch(cfg, Arrivals(inputs)) {
      assert Batch(cfg, Arrivals(inputs))[..|fates|] == fates;
      BoundariesAreCuts(cfg, Arrivals(inputs), |fates|);
    }
  }

  /** The tick that closed the trace of the last arrival. */
  ghost predicate IsClosingTick(cfg: Settings, inputs: seq<Input>, j: nat) {
    && j < |inputs| && inputs[j].Tick?
    && var all := Arrivals(inputs);
       all != [] && Arrivals(inputs[..j]) == all && inputs[j].now - all[|all| - 1].e.ts > cfg.idle
  }

  ghost predicate IsClosed(cfg: Settings, inputs: seq<Input>) {
    var all := Arrivals(inputs);
    Fold(cfg, inputs).active.None? && all != [] && Kept(cfg, all, |all| - 1)
  }

  lemma {:induction false} NoEarlyTickBefore(cfg: Settings, inputs: seq<Input>, input: Input)
    requires NoEarlyTick(cfg, inputs + [input])
    ensures NoEarlyTick(cfg, inputs)
  {
    forall j: nat ensures !IsEarlyTick(cfg, inputs, j) {
      if IsEarlyTick(cfg, inputs, j) {
        EarlyTickStays(cfg, inputs, input, j);
      }
    }
  }

  lemma {:induction false} EarlyTickStays(cfg: Settings, inputs: seq<Input>, input: Input, j: nat)
    requires IsEarlyTick(cfg, inputs, j)
    ensures !NoEarlyTick(cfg, inputs + [input])
  {
    var more := inputs + [input];
    FoldAppended(cfg, inputs, input);
    assert more[..j] == inputs[..j];
    KeptInPrefix(cfg, Arrivals(inputs), Arrivals(more), |Arrivals(inputs[..j])| - 1);
    assert IsEarlyTick(cfg, more, j);
  }

  /** A closing tick turns out to have been early when an arrival comes within the window. */
  lemma {:induction false} ClosingWasEarly(cfg: Settings, inputs: seq<Input>, i: nat, a: Arrival)
    requires IsClosingTick(cfg, inputs, i)
    requires var all := Arrivals(inputs); Kept(cfg, all, |all| - 1) && a.e.ts - all[|all| - 1].e.ts <= cfg.window
    ensures !NoEarlyTick(cfg, inputs + [Arrive(a)])
  {
    var all, more := Arrivals(inputs), inputs + [Arrive(a)];
    FoldAppended(cfg, inputs, Arrive(a));
    assert more[..i] == inputs[..i];
    KeptInPrefix(cfg, all, all + [a], |all| - 1);
    assert IsEarlyTick(cfg, more, i);
  }

  lemma {:induction false} ClosedByTick(cfg: Settings, inputs: seq<Input>, tick: Input)
    requires tick.Tick? && IsClosed(cfg, inputs + [tick])
    requires IsClosed(cfg, inputs) ==> exists i: nat :: IsClosingTick(cfg, inputs, i)
    ensures exists i: nat :: IsClosingTick(cfg, inputs + [tick], i)
  {
    var more := inputs + [tick];
    FoldAppended(cfg, inputs, tick);
    if Fold(cfg, inputs).active.Some? {
      ActiveEndsWithLast(cfg, inputs);
      assert more[..|inputs|] == inputs;
      assert IsClosingTick(cfg, more, |inputs|);
    } else {
      var i: nat :| IsClosingTick(cfg, inputs, i);
      assert more[..i] == inputs[..i];
      assert IsClosingTick(cfg, more, i);
    }
  }

  /** After a closing tick no arrival continues the closed segment. */
  lemma {:induction false} NothingContinues(cfg: Settings, inputs: seq<Input>, a: Arrival)
    requires NoEarlyTick(cfg, inputs + [Arrive(a)]) && Settled(Fold(cfg, inputs)) == Batch(cfg, Arrivals(inputs))
    requires IsClosed(cfg, inputs) ==> exists i: nat :: IsClosingTick(cfg, inputs, i)
    ensures Fold(cfg, inputs).active.None? ==> !Continues(cfg, Fold(cfg, inputs).fates, a)
  {
    var st := Fold(cfg, inputs);
    if st.active.None? && Continues(cfg, st.fates, a) {
      ContinuesKept(cfg, Arrivals(inputs), st.fates, a);
      var i: nat :| IsClosingTick(cfg, inputs, i);
      ClosingWasEarly(cfg, inputs, i, a);
    }
  }

  lemma {:induction false} ContinuesKept(cfg: Settings, all: seq<Arrival>, fates: seq<Fate>, a: Arrival)
    requires fates == Batch(cfg, all) && Continues(cfg, fates, a)
    ensures all != [] && Kept(cfg, all, |all| - 1) && a.e.ts - all[|all| - 1].e.ts <= cfg.window
  {
    if all != [] {
      LastFateIsKept(cfg, all);
    }
  }

  lemma {:induction false} QuietStream(cfg: Settings, inputs: seq<Input>)
    requires NoEarlyTick(cfg, inputs)
    ensures Settled(Fold(cfg, inputs)) == Batch(cfg, Arrivals(inputs))
    ensures IsClosed(cfg, inputs) ==> exists i: nat :: IsClosingTick(cfg, inputs, i)
  {
    if inputs != [] {
      var n := |inputs| - 1;
      var before, input := inputs[..n], inputs[n];
      assert inputs == before + [input];
      NoEarlyTickBefore(cfg, before, input);
      QuietStream(cfg, before);
      FoldAppended(cfg, before, input);
      if input.Tick? {
        if IsClosed(cfg, inputs) {
          ClosedByTick(cfg, before, input);
        }
      } else {
        NothingContinues(cfg, before, input.a);
        ReactAppends(cfg, Fold(cfg, before), input.a);
        BatchAppended(cfg, Arrivals(before), input.a);
        LastFateIsKept(cfg, Arrivals(inputs));
      }
    }
  }

  /** The exact condition on any interleaving, ordered or not and whatever the limits are: the timer leaves the
      segmentation alone if and only if there is no early tick. */
  lemma {:induction false} EarlyTicksDecide(cfg: Settings, inputs: seq<Input>)
    ensures Settled(Fold(cfg, inputs)) == Batch(cfg, Arrivals(inputs)) <==> NoEarlyTick(cfg, inputs)
  {
    if NoEarlyTick(cfg, inputs) {
      QuietStream(cfg, inputs);
    } else {
      var j: nat :| IsEarlyTick(cfg, inputs, j);
      EarlyTickShows(cfg, inputs, j);
    }
  }

  lemma {:induction false} PublishNothing(node: string, acc: Acc)
    requires !Worthwhile(acc)
    ensures Publish(node, [Segment(acc)]) == []
  {
    assert [Segment(acc)][..0] == [];
  }

  // ---- the correlator ----

  function LastN<T>(s: seq<T>, n: nat): seq<T> {
    if |s| <= n then s else s[|s| - n..]
  }

  lemma {:induction false} LastNAppended<T>(s: seq<T>, x: T, n: nat)
    ensures LastN(LastN(s, n) + [x], n) == LastN(s + [x], n)
  {
  }

  class Correlator {
    const cfg: Settings
    const max: nat
    var ring: seq<Trace>
    var seqNo: nat
    ghost var log: seq<Trace>
    ghost var fates: seq<Fate>

    /** The ring is the tail of everything ever flushed, and that is what the closed segments publish. */
    ghost predicate Valid()
      reads this
    {
      ring == LastN(log, max) && seqNo == |log| && log == Publish(cfg.node, fates)
    }

    constructor (node: string, started: int)
      ensures Valid() && fates == [] && log == []
      ensures max == 50 && cfg == Settings(node, 3_000_000_000, 3_000_000_000, 15_000_000_000, started)
    {
      cfg := Settings(node, 3_000_000_000, 3_000_000_000, 15_000_000_000, started);
      max := 50;
      ring, seqNo, log, fates := [], 0, [], [];
    }

    method SpansOf(a: Acc) returns (spans: seq<Span>)
      ensures spans == SpansIn(a)
    {
      spans := [];
      for i := 0 to |a.events|
        invariant |spans| == i
        invariant forall k | 0 <= k < i :: spans[k] == SpanOf(a.start, a.events[k])
      {
        var e := a.events[i];
        spans := spans + [Span(Millis(e.ts - a.start), e.bus, e.kind, e.key, e.detail)];
      }
    }

    method Flush(a: Acc)
      requires Valid()
      modifies this
      ensures Valid()
      ensures fates == if a.events == [] then old(fates) else old(fates) + [Segment(a)]
      ensures log == if a.events == [] || !Worthwhile(a) then old(log)
              else old(log) + [TraceOf(cfg.node, |old(log)| + 1, a)]
    {
      if |a.events| == 0 {
        return;
      }
      PublishAppended(cfg.node, fates, a);
      fates := fates + [Segment(a)];
      if a.churn && |a.events| < 3 {
        return;
      }
      seqNo := seqNo + 1;
      var spans := SpansOf(a);
      var t := Trace(cfg.node, seqNo, a.root, a.start, Millis(a.last - a.start), spans);
      Push(t);
    }

    method Push(t: Trace)
      requires ring == LastN(log, max)
      modifies `ring, `log
      ensures log == old(log) + [t] && ring == LastN(log, max)
    {
      LastNAppended(log, t, max);
      log := log + [t];
      ring := ring + [t];
      if |ring| > max {
        ring := ring[|ring| - max..];
      }
    }

    /** Flushes the active trace when its last event is more than `limit` before `now`. */
    method FlushAfter(active: Option<Acc>, now: int, limit: int) returns (active': Option<Acc>)
      requires Valid() && (active.Some? ==> active.value.events != [])
      modifies this
      ensures Valid()
      ensures var st := State(active, old(fates));
              State(active', fates) == if active.Some? && now - active.value.last > limit then Flushed(st) else st
    {
      active' := active;
      if active.Some? && now - active.value.last > limit {
        Flush(active.value);
        active' := None;
      }
    }

    /** One turn of the select loop. */
    method Handle(active: Option<Acc>, input: Input) returns (active': Option<Acc>)
      requires Valid() && (active.Some? ==> active.value.events != [])
      modifies this
      ensures Valid() && (active'.Some? ==> active'.value.events != [])
      ensures State(active', fates) == React(cfg, State(active, old(fates)), input)
    {
      active' := active;
      match input {
        case Arrive(a) =>
          var e := a.e;
          active' := FlushAfter(active', e.ts, cfg.window);
          if active'.None? {
            if !e.root {
              if a.clock - cfg.started < cfg.warmup {
                PublishDropped(cfg.node, fates, e);
                fates := fates + [Dropped(e)];
                return;
              }
              active' := Some(Acc(e.ts, e.ts, "churn/" + e.bus + "-" + e.kind + " " + e.key, true, []));
            } else {
              active' := Some(Acc(e.ts, e.ts, e.bus + "/" + e.kind + " " + e.key, false, []));
            }
            assert [] + [e] == [e];
          }
          active' := Some(active'.value.(last := e.ts, events := active'.value.events + [e]));
        case Tick(now) =>
          active' := FlushAfter(active', now, cfg.idle);
      }
    }

    /** The loop of the correlator, over any finite prefix of its input. */
    method Run(input: seq<Input>) returns (active: Option<Acc>)
      requires Valid() && fates == []
      modifies this
      ensures Valid()
      ensures State(active, fates) == Fold(cfg, input)
      ensures Ordered(input) && cfg.idle >= cfg.window ==>
                Settled(State(active, fates)) == Batch(cfg, Arrivals(input))
    {
      active := None;
      for i := 0 to |input|
        invariant Valid()
        invariant State(active, fates) == Fold(cfg, input[..i])
        invariant active.Some? ==> active.value.events != []
      {
        assert input[..i + 1][..i] == input[..i];
        active := Handle(active, input[i]);
      }
      assert input[..|input|] == input;
      if Ordered(input) && cfg.idle >= cfg.window {
        StreamInStep(cfg, input);
      }
    }
  }

  /** The ring holds the last `max` traces with consecutive numbers ending at the counter. */
  lemma {:induction false} RingNumbers(node: string, fates: seq<Fate>, max: nat, k: nat)
    requires k < |LastN(Publish(node, fates), max)|
    ensures var log := Publish(node, fates);
            var ring := LastN(log, max);
            |ring| == (if |log| <= max then |log| else max) && ring[k].id == |log| - |ring| + 1 + k
  {
    PublishedNumbers(node, fates);
  }
}
