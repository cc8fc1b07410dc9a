/** What the path walk answers, told from the tables alone: label switching, pops and pushes in terms of raw
    table entries, and whole walks spelled out hop by hop. */
module ForwardingLaws {
  import opened Wrappers
  import opened Text
  import opened Orbit
  import opened PathTrace

  // ---- the answer is determined ----

  /** A run from `start` that explains these hops. */
  ghost predicate Answers(net: Network, start: string, dst: string, hops: seq<Hop>, reached: bool) {
    exists run, ending ::
      && Explains(net, dst, run, hops, ending) && run[0] == Config(start, [])
      && (reached <==> ending == Reached)
  }

  /** Two runs from one place go the same way as far as both go. */
  lemma {:induction false} RunsCoincide(net: Network, dst: string, a: seq<Config>, b: seq<Config>, i: nat)
    requires IsRun(net, dst, a) && IsRun(net, dst, b) && a[0] == b[0] && i < |a| && i < |b|
    ensures a[i] == b[i]
  {
    if i > 0 {
      RunsCoincide(net, dst, a, b, i - 1);
      assert Forward(net, dst, a[i - 1]) == Some(a[i]) && Forward(net, dst, b[i - 1]) == Some(b[i]);
    }
  }

  /** Where one explained run ends, another one from the same place does not go on. */
  lemma {:induction false} NoLonger(
      net: Network, dst: string, a: seq<Config>, g: seq<Hop>, x: Ending, b: seq<Config>, h: seq<Hop>, y: Ending)
    requires Explains(net, dst, a, g, x) && Explains(net, dst, b, h, y) && a[0] == b[0]
    ensures |b| <= |a|
  {
    if |a| < |b| {
      var n := |a| - 1;
      var next := b[n + 1];
      assert !Arrived(net, dst, b[n]) && Forward(net, dst, b[n]) == Some(next);
      RunsCoincide(net, dst, a, b, n);
      assert false;
    }
  }

  /** The tables determine the hops and the verdict. */
  lemma {:induction false} AnswerIsDetermined(
      net: Network, start: string, dst: string, g: seq<Hop>, x: bool, h: seq<Hop>, y: bool)
    requires Answers(net, start, dst, g, x) && Answers(net, start, dst, h, y)
    ensures g == h && x == y
  {
    var a, ax :| Explains(net, dst, a, g, ax) && a[0] == Config(start, []) && (x <==> ax == Reached);
    var b, bx :| Explains(net, dst, b, h, bx) && b[0] == Config(start, []) && (y <==> bx == Reached);
    NoLonger(net, dst, a, g, ax, b, h, bx);
    NoLonger(net, dst, b, h, bx, a, g, ax);
    forall i | 0 <= i < |a| ensures a[i] == b[i] {
      RunsCoincide(net, dst, a, b, i);
    }
    assert a == b;
    SameHops(net, dst, a, g, ax, h, bx);
  }

  lemma {:induction false} SameHops(
      net: Network, dst: string, run: seq<Config>, g: seq<Hop>, x: Ending, h: seq<Hop>, y: Ending)
    requires Explains(net, dst, run, g, x) && Explains(net, dst, run, h, y)
    ensures x == y && g == h
  {
    var n := |run| - 1;
    assert forall i | 0 <= i < n :: Some(g[i]) == HopAt(net, dst, run[i], i + 1) == Some(h[i]);
    if x == Stray {
      assert HopAt(net, dst, run[n], n + 1) == Some(g[n]);
    }
    if y == Stray {
      assert HopAt(net, dst, run[n], n + 1) == Some(h[n]);
    }
  }

  // ---- label operations from raw entries ----

  /** An entry with an out-label swaps, whatever else it says; several out-labels replace the top one. */
  lemma {:induction false} SwapFromEntry(
      net: Network, dst: string, node: string, top: string, inner: seq<string>, out: seq<string>, seqNo: nat)
    requires out != [] && (forall l | l in out :: l != "" && ',' !in l)
    requires net.lfib(node, top).outLabel == Join(out, ",")
    ensures var e, c := net.lfib(node, top), Config(node, [top] + inner);
            (Forward(net, dst, c), HopAt(net, dst, c, seqNo)) ==
            (if e.nexthop in net.owner then Some(Config(net.owner[e.nexthop], out + inner)) else None,
             Some(Hop(seqNo, node, MplsSwap, e.nexthop, top + "->" + e.outLabel,
                      "if=" + e.iface + " stack[" + Join(out + inner, " ") + "]")))
  {
    assert forall i | 0 <= i < |out| :: out[i] in out;
    SplitUndoesJoin(out, ',');
    JoinIsNotEmpty(out, ",");
    assert ([top] + inner)[1..] == inner;
  }

  lemma {:induction false} JoinIsNotEmpty(parts: seq<string>, sep: string)
    requires parts != [] && parts[0] != ""
    ensures Join(parts, sep) != ""
  {
  }

  /** An entry with a next hop and no out-label pops towards that neighbor. */
  lemma {:induction false} PenultimatePop(
      net: Network, dst: string, node: string, top: string, inner: seq<string>, seqNo: nat)
    requires net.lfib(node, top).outLabel == "" && net.lfib(node, top).nexthop != ""
    ensures var e, c := net.lfib(node, top), Config(node, [top] + inner);
            (Forward(net, dst, c), HopAt(net, dst, c, seqNo)) ==
            (if e.nexthop in net.owner then Some(Config(net.owner[e.nexthop], inner)) else None,
             Some(Hop(seqNo, node, MplsPopPhp, e.nexthop, top, "if=" + e.iface + " stack[" + Join(inner, " ") + "]")))
  {
    assert ([top] + inner)[1..] == inner;
  }

  /** An entry with an interface only pops in place, into the VRF of that name. */
  lemma {:induction false} EgressPop(
      net: Network, dst: string, node: string, top: string, inner: seq<string>, seqNo: nat)
    requires net.lfib(node, top).outLabel == "" && net.lfib(node, top).nexthop == "" && net.lfib(node, top).iface != ""
    ensures var c := Config(node, [top] + inner);
            (Forward(net, dst, c), HopAt(net, dst, c, seqNo)) ==
            (Some(Config(node, inner)),
             Some(Hop(seqNo, node, MplsPopVrf, "", top, "-> VRF " + net.lfib(node, top).iface)))
  {
    assert ([top] + inner)[1..] == inner;
  }

  /** Only an entry with nothing in it is no entry. */
  lemma {:induction false} UnknownLabel(
      net: Network, dst: string, node: string, top: string, inner: seq<string>, seqNo: nat)
    ensures HopAt(net, dst, Config(node, [top] + inner), seqNo) == None <==>
            net.lfib(node, top) == LabelEntry("", "", "")
  {
  }

  /** Label switching: along nodes whose entries swap each label for the next, the packet is handed from node to node
      and every hop is a swap, with whatever lies below carried along. */
  lemma {:induction false} LabelSwitchedPath(
      net: Network, dst: string, nodes: seq<string>, labels: seq<string>, inner: seq<string>, k: nat)
    requires |nodes| == |labels| && k < |nodes|
    requires forall i | 0 <= i < |labels| :: labels[i] != "" && ',' !in labels[i]
    requires forall i | 0 <= i < k ::
               var e := net.lfib(nodes[i], labels[i]);
               e.outLabel == labels[i + 1] && e.nexthop in net.owner && net.owner[e.nexthop] == nodes[i + 1]
    ensures After(Stepper(net, dst), Config(nodes[0], [labels[0]] + inner), k) ==
            Some(Config(nodes[k], [labels[k]] + inner))
    ensures forall i | 0 <= i < k ::
              var e := net.lfib(nodes[i], labels[i]);
              HopAt(net, dst, Config(nodes[i], [labels[i]] + inner), i + 1) ==
              Some(Hop(i + 1, nodes[i], MplsSwap, e.nexthop, labels[i] + "->" + labels[i + 1],
                       "if=" + e.iface + " stack[" + Join([labels[i + 1]] + inner, " ") + "]"))
  {
    var run := seq(k + 1, i requires 0 <= i <= k => Config(nodes[i], [labels[i]] + inner));
    forall i | 0 <= i < k
      ensures Forward(net, dst, run[i]) == Some(run[i + 1])
      ensures var e := net.lfib(nodes[i], labels[i]);
              HopAt(net, dst, run[i], i + 1) ==
              Some(Hop(i + 1, nodes[i], MplsSwap, e.nexthop, labels[i] + "->" + labels[i + 1],
                       "if=" + e.iface + " stack[" + Join([labels[i + 1]] + inner, " ") + "]"))
    {
      SwapFromEntry(net, dst, nodes[i], labels[i], inner, [labels[i + 1]], i + 1);
    }
    RunIsOrbit(net, dst, run, k);
  }

  /** Routing: a route with a label text pushes it, one without does not, and only an all-empty answer is no route. */
  lemma {:induction false} RouteFromEntry(net: Network, dst: string, node: string, pushed: seq<string>, seqNo: nat)
    requires forall l | l in pushed :: l != "" && ',' !in l
    requires net.route(node, dst).labels == Join(pushed, ",")
    ensures var r, c := net.route(node, dst), Config(node, []);
            (Forward(net, dst, c), HopAt(net, dst, c, seqNo)) ==
            if r.nexthop == "" && r.labels == "" && r.prefix == "" then (None, None)
            else (if r.nexthop in net.owner then Some(Config(net.owner[r.nexthop], pushed)) else None,
                  Some(Hop(seqNo, node, if pushed == [] then Ip else IpPush, r.nexthop, r.labels,
                           "vrf=" + r.vrf + " " + r.prefix)))
  {
    assert forall i | 0 <= i < |pushed| :: pushed[i] in pushed;
    if pushed != [] {
      SplitUndoesJoin(pushed, ',');
      JoinIsNotEmpty(pushed, ",");
    }
  }

  /** The packet is at its destination when it has no label left and the node owns the address. */
  lemma {:induction false} ArrivalFromOwner(net: Network, start: string, dst: string, k: nat, c: Config)
    requires After(Stepper(net, dst), Config(start, []), k) == Some(c)
    ensures ArrivesAt(net, start, dst, k) <==> c.stack == [] && dst in net.owner && net.owner[dst] == c.node
  {
  }

  // ---- whole walks ----

  lemma {:induction false} ArrivesWithHops(net: Network, dst: string, run: seq<Config>, hops: seq<Hop>)
    requires |run| == |hops| + 1 <= 24 && run[0].stack == []
    requires forall i | 0 <= i < |hops| ::
               !Arrived(net, dst, run[i]) &&
               (Forward(net, dst, run[i]), HopAt(net, dst, run[i], i + 1)) == (Some(run[i + 1]), Some(hops[i]))
    requires Arrived(net, dst, run[|hops|])
    ensures Answers(net, run[0].node, dst,
                    hops + [Hop(|run|, run[|hops|].node, Dest, "", "", "destination " + dst + " reached")], true)
  {
    forall i | 0 <= i < |run| - 1
      ensures !Arrived(net, dst, run[i]) && Forward(net, dst, run[i]) == Some(run[i + 1])
      ensures HopAt(net, dst, run[i], i + 1) == Some(hops[i])
    {
      assert (Forward(net, dst, run[i]), HopAt(net, dst, run[i], i + 1)) == (Some(run[i + 1]), Some(hops[i]));
    }
    EndAtDestination(net, dst, run, hops);
    assert run[0] == Config(run[0].node, []);
  }

  /** Two labels are pushed. */
  lemma {:induction false} PushTwo(
      net: Network, dst: string, node: string, next: string, r: Route, a: string, b: string, seqNo: nat)
    requires a != "" && ',' !in a && b != "" && ',' !in b
    requires net.route(node, dst) == r && r.labels == a + "," + b && Owns(net, next, r.nexthop)
    ensures var c := Config(node, []);
            (Forward(net, dst, c), HopAt(net, dst, c, seqNo)) ==
            (Some(Config(next, [a, b])),
             Some(Hop(seqNo, node, IpPush, r.nexthop, r.labels, "vrf=" + r.vrf + " " + r.prefix)))
  {
    assert [a, b][1..] == [b];
    RouteFromEntry(net, dst, node, [a, b], seqNo);
  }

  /** The outer of two labels is swapped. */
  lemma {:induction false} SwapOuter(
      net: Network, dst: string, node: string, next: string, e: LabelEntry, top: string, inner: string, seqNo: nat)
    requires net.lfib(node, top) == e && e.outLabel != "" && ',' !in e.outLabel && Owns(net, next, e.nexthop)
    ensures var c := Config(node, [top, inner]);
            (Forward(net, dst, c), HopAt(net, dst, c, seqNo)) ==
            (Some(Config(next, [e.outLabel, inner])),
             Some(Hop(seqNo, node, MplsSwap, e.nexthop, top + "->" + e.outLabel,
                      "if=" + e.iface + " stack[" + (e.outLabel + " " + inner) + "]")))
  {
    var stack := [e.outLabel, inner];
    assert [top] + [inner] == [top, inner] && [e.outLabel] + [inner] == stack;
    assert stack[1..] == [inner];
    SwapFromEntry(net, dst, node, top, [inner], [e.outLabel], seqNo);
  }

  /** The outer of two labels is popped. */
  lemma {:induction false} PopOuter(
      net: Network, dst: string, node: string, next: string, e: LabelEntry, top: string, inner: string, seqNo: nat)
    requires net.lfib(node, top) == e && e.outLabel == "" && e.nexthop != "" && Owns(net, next, e.nexthop)
    ensures var c := Config(node, [top, inner]);
            (Forward(net, dst, c), HopAt(net, dst, c, seqNo)) ==
            (Some(Config(next, [inner])),
             Some(Hop(seqNo, node, MplsPopPhp, e.nexthop, top, "if=" + e.iface + " stack[" + inner + "]")))
  {
    assert [top] + [inner] == [top, inner];
    PenultimatePop(net, dst, node, top, [inner], seqNo);
  }

  /** Push two labels, swap the outer one, pop it before the last node, pop the inner one there, arrive. The packet
      is at the last node twice, and arrives only when the inner label is gone. */
  lemma {:induction false} WalkThroughTunnel(
      net: Network, dst: string, n0: string, n1: string, n2: string, n3: string, outer: string, inner: string,
      r: Route, swap: LabelEntry, pop: LabelEntry, vrf: string)
    requires Owns(net, n1, r.nexthop) && Owns(net, n2, swap.nexthop) && Owns(net, n3, pop.nexthop) && Owns(net, n3, dst)
    requires outer != "" && ',' !in outer && swap.outLabel != "" && ',' !in swap.outLabel && inner != "" &&
             ',' !in inner
    requires n0 != n3 && net.route(n0, dst) == r && r.labels == outer + "," + inner
    requires net.lfib(n1, outer) == swap
    requires net.lfib(n2, swap.outLabel) == pop && pop.outLabel == "" && pop.nexthop != ""
    requires net.lfib(n3, inner) == LabelEntry("", "", vrf) && vrf != ""
    ensures Answers(net, n0, dst,
                    [Hop(1, n0, IpPush, r.nexthop, r.labels, "vrf=" + r.vrf + " " + r.prefix),
                     Hop(2, n1, MplsSwap, swap.nexthop, outer + "->" + swap.outLabel,
                         "if=" + swap.iface + " stack[" + (swap.outLabel + " " + inner) + "]"),
                     Hop(3, n2, MplsPopPhp, pop.nexthop, swap.outLabel, "if=" + pop.iface + " stack[" + inner + "]"),
                     Hop(4, n3, MplsPopVrf, "", inner, "-> VRF " + vrf),
                     Hop(5, n3, Dest, "", "", "destination " + dst + " reached")],
                    true)
  {
    var run := [Config(n0, []), Config(n1, [outer, inner]), Config(n2, [swap.outLabel, inner]), Config(n3, [inner]),
                Config(n3, [])];
    var hops := [Hop(1, n0, IpPush, r.nexthop, r.labels, "vrf=" + r.vrf + " " + r.prefix),
                 Hop(2, n1, MplsSwap, swap.nexthop, outer + "->" + swap.outLabel,
                     "if=" + swap.iface + " stack[" + (swap.outLabel + " " + inner) + "]"),
                 Hop(3, n2, MplsPopPhp, pop.nexthop, swap.outLabel, "if=" + pop.iface + " stack[" + inner + "]"),
                 Hop(4, n3, MplsPopVrf, "", inner, "-> VRF " + vrf)];
    PushTwo(net, dst, n0, n1, r, outer, inner, 1);
    SwapOuter(net, dst, n1, n2, swap, outer, inner, 2);
    PopOuter(net, dst, n2, n3, pop, swap.outLabel, inner, 3);
    assert [inner] + [] == [inner];
    EgressPop(net, dst, n3, inner, [], 4);
    forall i | 0 <= i < 4
      ensures !Arrived(net, dst, run[i])
      ensures (Forward(net, dst, run[i]), HopAt(net, dst, run[i], i + 1)) == (Some(run[i + 1]), Some(hops[i]))
    {
    }
    ArrivesWithHops(net, dst, run, hops);
    var last := Hop(5, n3, Dest, "", "", "destination " + dst + " reached");
    assert hops + [last] == [hops[0], hops[1], hops[2], hops[3], last];
  }

  /** A walk that starts at the destination is over at once. */
  lemma {:induction false} WalkToSelf(net: Network, dst: string, start: string)
    requires dst in net.owner && net.owner[dst] == start
    ensures Answers(net, start, dst, [Hop(1, start, Dest, "", "", "destination " + dst + " reached")], true)
  {
    assert Explains(net, dst, [Config(start, [])],
                    [Hop(1, start, Dest, "", "", "destination " + dst + " reached")], Reached);
  }

  /** Without a route at all; the VRF does not count. */
  lemma {:induction false} WalkWithoutRoute(net: Network, dst: string, start: string, vrf: string)
    requires net.route(start, dst) == Route(vrf, "", "", "") && !(dst in net.owner && net.owner[dst] == start)
    ensures Answers(net, start, dst, [Hop(1, start, Drop, "", "", "no route to " + dst)], false)
  {
    assert Explains(net, dst, [Config(start, [])], [Hop(1, start, Drop, "", "", "no route to " + dst)], Unrouted);
  }

  /** With a label that the next node does not know. */
  lemma {:induction false} WalkWithUnknownLabel(net: Network, dst: string, start: string, r: Route, next: string)
    requires net.route(start, dst) == r && r.labels != "" && ',' !in r.labels
    requires !(dst in net.owner && net.owner[dst] == start) && r.nexthop in net.owner && net.owner[r.nexthop] == next
    requires net.lfib(next, r.labels) == LabelEntry("", "", "")
    ensures Answers(net, start, dst,
                    [Hop(1, start, IpPush, r.nexthop, r.labels, "vrf=" + r.vrf + " " + r.prefix),
                     Hop(2, next, Drop, "", "", "no LFIB entry for label " + r.labels)],
                    false)
  {
    var pushed := [r.labels];
    RouteFromEntry(net, dst, start, pushed, 1);
    assert Explains(net, dst, [Config(start, []), Config(next, pushed)],
                    [Hop(1, start, IpPush, r.nexthop, r.labels, "vrf=" + r.vrf + " " + r.prefix),
                     Hop(2, next, Drop, "", "", "no LFIB entry for label " + r.labels)],
                    Unrouted);
  }

  /** With a route whose next hop nobody owns: the route is shown, and then the loss. */
  lemma {:induction false} WalkOffTheMap(net: Network, dst: string, start: string, r: Route)
    requires net.route(start, dst) == r && r.labels == "" && r.prefix != "" && r.nexthop !in net.owner
    requires !(dst in net.owner && net.owner[dst] == start)
    ensures Answers(net, start, dst,
                    [Hop(1, start, Ip, r.nexthop, "", "vrf=" + r.vrf + " " + r.prefix),
                     Hop(2, "?", Drop, "", "", "next-hop not in inventory")],
                    false)
  {
    RouteFromEntry(net, dst, start, [], 1);
    assert Explains(net, dst, [Config(start, [])],
                    [Hop(1, start, Ip, r.nexthop, "", "vrf=" + r.vrf + " " + r.prefix),
                     Hop(2, "?", Drop, "", "", "next-hop not in inventory")],
                    Stray);
  }
}
