/** The label-stack path walk of the path-trace exporter: a bounded loop over
    (node, label stack) proved against a small-step forwarding semantics. */
module PathTrace {
  import opened Wrappers
  import opened Text
  import opened Orbit

  /** What a route lookup answers; all fields empty when no route matches. */
  datatype Route = Route(vrf: string, prefix: string, nexthop: string, labels: string) {
    predicate Missing() { nexthop == "" && labels == "" && prefix == "" }
  }

  /** What a label lookup answers; all fields empty when there is no entry. */
  datatype LabelEntry = LabelEntry(outLabel: string, nexthop: string, iface: string)

  /** The tables, fixed for the length of one walk. `owner` maps an address to the node that has it. */
  datatype Network = Network(
    owner: map<string, string>,
    route: (string, string) -> Route,
    lfib: (string, string) -> LabelEntry)

  datatype Kind = Dest | Drop | Ip | IpPush | MplsSwap | MplsPopPhp | MplsPopVrf

  datatype Hop = Hop(seqNo: nat, node: string, kind: Kind, nexthop: string, labels: string, detail: string)

  datatype Config = Config(node: string, stack: seq<string>)

  const BUDGET: nat := 24

  predicate IsNodeName(s: string) { s != "" && s != "?" }

  ghost predicate ValidOwners(owner: map<string, string>) {
    forall ip | ip in owner :: IsNodeName(owner[ip])
  }

  // ---- small-step forwarding semantics ----

  /** What a router does with a labelled packet. */
  datatype LabelAction = NoEntry | Swap(labels: seq<string>) | PopToNeighbor | PopToVrf

  function ActionOf(e: LabelEntry): LabelAction {
    if e.outLabel != "" then Swap(Split(e.outLabel, ','))
    else if e.nexthop != "" then PopToNeighbor
    else if e.iface != "" then PopToVrf
    else NoEntry
  }

  function Imposed(labels: string): seq<string> {
    if labels == "" then [] else Split(labels, ',')
  }

  predicate Owns(net: Network, node: string, ip: string) {
    ip in net.owner && net.owner[ip] == node
  }

  function Deliver(net: Network, nexthop: string, stack: seq<string>): Option<Config> {
    if nexthop in net.owner then Some(Config(net.owner[nexthop], stack)) else None
  }

  /** One forwarding step of a packet for `dst`. An unlabelled packet is routed,
      a labelled one is swapped, popped towards a neighbour, or popped into a VRF in place. */
  function Forward(net: Network, dst: string, c: Config): Option<Config> {
    if c.stack == [] then
      var r := net.route(c.node, dst);
      if r.Missing() then None else Deliver(net, r.nexthop, Imposed(r.labels))
    else
      var e := net.lfib(c.node, c.stack[0]);
      match ActionOf(e)
      case NoEntry => None
      case Swap(labels) => Deliver(net, e.nexthop, labels + c.stack[1..])
      case PopToNeighbor => Deliver(net, e.nexthop, c.stack[1..])
      case PopToVrf => Some(Config(c.node, c.stack[1..]))
  }

  function Stepper(net: Network, dst: string): Config -> Option<Config> {
    c => Forward(net, dst, c)
  }

  predicate Arrived(net: Network, dst: string, c: Config) {
    c.stack == [] && Owns(net, c.node, dst)
  }

  function Arrival(net: Network, dst: string): Config -> bool {
    c => Arrived(net, dst, c)
  }

  /** The unbounded semantics: the packet is at its destination after exactly `k` steps. */
  ghost predicate ArrivesAt(net: Network, start: string, dst: string, k: nat) {
    HitsAt(Stepper(net, dst), Config(start, []), Arrival(net, dst), k)
  }

  // ---- what each hop must say ----

  function StackText(iface: string, stack: seq<string>): string {
    "if=" + iface + " stack[" + Join(stack, " ") + "]"
  }

  /** The hop that describes the table entry used at `c`, if there is one. */
  function HopAt(net: Network, dst: string, c: Config, seqNo: nat): Option<Hop> {
    if c.stack == [] then
      var r := net.route(c.node, dst);
      if r.Missing() then None
      else Some(Hop(seqNo, c.node, if r.labels == "" then Ip else IpPush, r.nexthop, r.labels,
                    "vrf=" + r.vrf + " " + r.prefix))
    else
      var top, rest := c.stack[0], c.stack[1..];
      var e := net.lfib(c.node, top);
      match ActionOf(e)
      case NoEntry => None
      case Swap(labels) => Some(Hop(seqNo, c.node, MplsSwap, e.nexthop, top + "->" + e.outLabel,
          StackText(e.iface, labels + rest)))
      case PopToNeighbor => Some(Hop(seqNo, c.node, MplsPopPhp, e.nexthop, top, StackText(e.iface, rest)))
      case PopToVrf => Some(Hop(seqNo, c.node, MplsPopVrf, "", top, "-> VRF " + e.iface))
  }

  function DestHop(dst: string, c: Config, seqNo: nat): Hop {
    Hop(seqNo, c.node, Dest, "", "", "destination " + dst + " reached")
  }

  function DropHop(dst: string, c: Config, seqNo: nat): Hop {
    Hop(seqNo, c.node, Drop, "", "", if c.stack == [] then "no route to " + dst
        else "no LFIB entry for label " + c.stack[0])
  }

  function StrayHop(seqNo: nat): Hop {
    Hop(seqNo, "?", Drop, "", "", "next-hop not in inventory")
  }

  /** `run` is a run of the forwarding semantics that does not pass through the destination. */
  ghost predicate IsRun(net: Network, dst: string, run: seq<Config>) {
    && run != []
    && forall i | 0 <= i < |run| - 1 :: !Arrived(net, dst, run[i]) && Forward(net, dst, run[i]) == Some(run[i + 1])
  }

  /** The first `n` hops describe the moves of the run, numbered from 1. */
  ghost predicate Describes(net: Network, dst: string, run: seq<Config>, hops: seq<Hop>, n: nat) {
    && n <= |hops| && n <= |run|
    && forall i | 0 <= i < n :: HopAt(net, dst, run[i], i + 1) == Some(hops[i])
  }

  /** How a walk may end: at the destination, without an entry, at an unknown next hop, or out of budget. */
  datatype Ending = Reached | Unrouted | Stray | OutOfBudget

  ghost predicate Explains(net: Network, dst: string, run: seq<Config>, hops: seq<Hop>, ending: Ending) {
    var moves := |run| - 1;
    && IsRun(net, dst, run)
    && Describes(net, dst, run, hops, moves)
    && match ending
       case Reached =>
         && moves < BUDGET && |hops| == moves + 1
         && Arrived(net, dst, run[moves]) && hops[moves] == DestHop(dst, run[moves], moves + 1)
       case Unrouted =>
         && moves < BUDGET && |hops| == moves + 1 && !Arrived(net, dst, run[moves])
         && HopAt(net, dst, run[moves], 0) == None && hops[moves] == DropHop(dst, run[moves], moves + 1)
       case Stray =>
         && moves < BUDGET && |hops| == moves + 2 && !Arrived(net, dst, run[moves])
         && Describes(net, dst, run, hops, moves + 1)
         && Forward(net, dst, run[moves]) == None && hops[moves].nexthop !in net.owner
         && hops[moves + 1] == StrayHop(moves + 2)
       case OutOfBudget => moves == BUDGET && |hops| == BUDGET
  }

  // ---- the walk ----

  method NodeOf(owner: map<string, string>, ip: string) returns (node: string)
    ensures node == if ip in owner then owner[ip] else "?"
  {
    if ip in owner {
      return owner[ip];
    }
    return "?";
  }

  /** What one iteration must achieve at `c`: the right hop, and the right next configuration
      ("?" for a next hop nobody owns). */
  ghost predicate Advances(net: Network, dst: string, c: Config, seqNo: nat, found: bool, hop: Hop, node: string,
      stack: seq<string>) {
    && (!found ==> HopAt(net, dst, c, 0) == None && hop == DropHop(dst, c, seqNo))
    && (found ==>
      && HopAt(net, dst, c, seqNo) == Some(hop)
      && (node == "?" ==> Forward(net, dst, c) == None && hop.nexthop !in net.owner)
      && (node != "?" ==> IsNodeName(node) && Forward(net, dst, c) == Some(Config(node, stack))))
  }

  method IpPhase(net: Network, dst: string, node: string, seqNo: nat)
    returns (found: bool, hop: Hop, node': string, stack: seq<string>)
    requires ValidOwners(net.owner)
    ensures Advances(net, dst, Config(node, []), seqNo, found, hop, node', stack)
  {
    var r := net.route(node, dst);
    if r.nexthop == "" && r.labels == "" && r.prefix == "" {
      return false, Hop(seqNo, node, Drop, "", "", "no route to " + dst), node, [];
    }
    stack := [];
    var kind := Ip;
    if r.labels != "" {
      stack := Split(r.labels, ',');
      kind := IpPush;
    }
    hop := Hop(seqNo, node, kind, r.nexthop, r.labels, "vrf=" + r.vrf + " " + r.prefix);
    node' := NodeOf(net.owner, r.nexthop);
    found := true;
  }

  method MplsPhase(net: Network, dst: string, node: string, stack: seq<string>, seqNo: nat)
    returns (found: bool, hop: Hop, node': string, stack': seq<string>)
    requires ValidOwners(net.owner) && IsNodeName(node) && stack != []
    ensures Advances(net, dst, Config(node, stack), seqNo, found, hop, node', stack')
  {
    var top := stack[0];
    var e := net.lfib(node, top);
    if e.outLabel == "" && e.nexthop == "" && e.iface == "" {
      return false, Hop(seqNo, node, Drop, "", "", "no LFIB entry for label " + top), node, stack;
    }
    found := true;
    var rest := stack[1..];
    if e.outLabel != "" {
      var newTop := Split(e.outLabel, ',');
      stack' := newTop + rest;
      hop := Hop(seqNo, node, MplsSwap, e.nexthop, top + "->" + e.outLabel, StackText(e.iface, stack'));
      node' := NodeOf(net.owner, e.nexthop);
    } else if e.nexthop != "" {
      stack' := rest;
      hop := Hop(seqNo, node, MplsPopPhp, e.nexthop, top, StackText(e.iface, stack'));
      node' := NodeOf(net.owner, e.nexthop);
    } else {
      stack' := rest;
      hop := Hop(seqNo, node, MplsPopVrf, "", top, "-> VRF " + e.iface);
      node' := node;
    }
  }

  /** One more move keeps the run and its description in step. */
  lemma {:induction false} ExtendRun(
      net: Network, dst: string, run: seq<Config>, hops: seq<Hop>, hop: Hop, next: Config)
    requires IsRun(net, dst, run) && |hops| == |run| - 1 && Describes(net, dst, run, hops, |hops|)
    requires !Arrived(net, dst, run[|run| - 1])
    requires HopAt(net, dst, run[|run| - 1], |run|) == Some(hop)
    requires Forward(net, dst, run[|run| - 1]) == Some(next)
    ensures IsRun(net, dst, run + [next]) && Describes(net, dst, run + [next], hops + [hop], |run|)
  {
  }

  lemma {:induction false} EndAtDestination(net: Network, dst: string, run: seq<Config>, hops: seq<Hop>)
    requires IsRun(net, dst, run) && |hops| == |run| - 1 < BUDGET && Describes(net, dst, run, hops, |hops|)
    requires Arrived(net, dst, run[|run| - 1])
    ensures Explains(net, dst, run, hops + [DestHop(dst, run[|run| - 1], |run|)], Reached)
  {
  }

  lemma {:induction false} EndInDrop(
      net: Network, dst: string, run: seq<Config>, hops: seq<Hop>, hop: Hop, found: bool, node: string,
          stack: seq<string>)
    requires IsRun(net, dst, run) && |hops| == |run| - 1 < BUDGET && Describes(net, dst, run, hops, |hops|)
    requires !Arrived(net, dst, run[|run| - 1])
    requires Advances(net, dst, run[|run| - 1], |run|, found, hop, node, stack)
    ensures !found ==> Explains(net, dst, run, hops + [hop], Unrouted)
    ensures found && node == "?" ==> Explains(net, dst, run, hops + [hop] + [StrayHop(|run| + 1)], Stray)
  {
  }

  lemma {:induction false} HopsAreNumbered(net: Network, dst: string, run: seq<Config>, hops: seq<Hop>, ending: Ending)
    requires Explains(net, dst, run, hops, ending)
    ensures |hops| <= BUDGET + 1 && (ending == Reached ==> |hops| <= BUDGET)
    ensures forall i | 0 <= i < |hops| :: hops[i].seqNo == i + 1
  {
  }

  method Trace(net: Network, start: string, dst: string)
    returns (hops: seq<Hop>, reached: bool, ghost run: seq<Config>, ghost ending: Ending)
    requires ValidOwners(net.owner) && IsNodeName(start)
    ensures run != [] && run[0] == Config(start, [])
    ensures Explains(net, dst, run, hops, ending)
    ensures reached <==> ending == Reached
    ensures reached <==> exists k: nat | k < 24 :: ArrivesAt(net, start, dst, k)
    ensures |hops| <= 25 && (reached ==> |hops| <= 24)
    ensures forall i | 0 <= i < |hops| :: hops[i].seqNo == i + 1
  {
    hops, reached, ending := [], false, OutOfBudget;
    var node := start;
    var stack: seq<string> := [];
    var seqNo := 1;
    run := [Config(start, [])];
    for i := 0 to BUDGET
      invariant |run| == i + 1 && run[0] == Config(start, []) && run[i] == Config(node, stack)
      invariant IsNodeName(node)
      invariant seqNo == i + 1 && |hops| == i
      invariant IsRun(net, dst, run) && Describes(net, dst, run, hops, i)
      invariant !reached && ending == OutOfBudget
    {
      if (if dst in net.owner then net.owner[dst] else "") == node && |stack| == 0 {
        EndAtDestination(net, dst, run, hops);
        hops := hops + [Hop(seqNo, node, Dest, "", "", "destination " + dst + " reached")];
        reached, ending := true, Reached;
        break;
      }
      var found, hop, node', stack';
      if |stack| == 0 {
        found, hop, node', stack' := IpPhase(net, dst, node, seqNo);
      } else {
        found, hop, node', stack' := MplsPhase(net, dst, node, stack, seqNo);
      }
      EndInDrop(net, dst, run, hops, hop, found, node', stack');
      if !found {
        hops, ending := hops + [hop], Unrouted;
        break;
      }
      seqNo := seqNo + 1;
      node, stack := node', stack';
      if node == "?" {
        hops, ending := hops + [hop] + [Hop(seqNo, "?", Drop, "", "", "next-hop not in inventory")], Stray;
        break;
      }
      ExtendRun(net, dst, run, hops, hop, Config(node, stack));
      hops := hops + [hop];
      run := run + [Config(node, stack)];
    }
    RunArrival(net, start, dst, run, hops, ending);
    HopsAreNumbered(net, dst, run, hops, ending);
  }

  // ---- relating a walk to the unbounded semantics ----

  lemma {:induction false} RunIsOrbit(net: Network, dst: string, run: seq<Config>, k: nat)
    requires k < |run|
    requires forall i | 0 <= i < k :: Forward(net, dst, run[i]) == Some(run[i + 1])
    ensures After(Stepper(net, dst), run[0], k) == Some(run[k])
  {
    if k == 0 {
    } else {
      RunIsOrbit(net, dst, run, k - 1);
      AfterAdds(Stepper(net, dst), run[0], k - 1, 1);
      assert After(Stepper(net, dst), run[k - 1], 1) == Some(run[k]);
    }
  }

  /** An explained walk decides arrival within the budget. */
  lemma {:induction false} RunArrival(
      net: Network, start: string, dst: string, run: seq<Config>, hops: seq<Hop>, ending: Ending)
    requires Explains(net, dst, run, hops, ending) && run[0] == Config(start, [])
    ensures ending == Reached <==> exists k: nat | k < BUDGET :: ArrivesAt(net, start, dst, k)
  {
    var moves := |run| - 1;
    RunIsOrbit(net, dst, run, moves);
    if ending == Reached {
      assert ArrivesAt(net, start, dst, moves);
    } else {
      forall k: nat | k < BUDGET ensures !ArrivesAt(net, start, dst, k) {
        if k <= moves {
          RunIsOrbit(net, dst, run, k);
        } else {
          AfterAdds(Stepper(net, dst), run[0], moves, k - moves);
          assert Forward(net, dst, run[moves]) == None;
        }
      }
    }
  }

  // ---- when the budget is enough ----

  /** Every configuration the packet can get to is in `space`. */
  ghost predicate Confined(net: Network, start: string, dst: string, space: set<Config>) {
    forall k: nat :: StaysIn(Stepper(net, dst), Config(start, []), space, k)
  }

  /** With at most 24 reachable configurations, looking 23 steps ahead decides reachability. */
  lemma {:induction false} BudgetIsComplete(net: Network, start: string, dst: string, space: set<Config>)
    requires Confined(net, start, dst, space) && |space| <= BUDGET
    ensures (exists k: nat | k < BUDGET :: ArrivesAt(net, start, dst, k)) <==>
            (exists k: nat :: ArrivesAt(net, start, dst, k))
  {
    if k: nat :| ArrivesAt(net, start, dst, k) {
      HitWithinSpace(Stepper(net, dst), Config(start, []), Arrival(net, dst), space, k);
      var first: nat :| first < |space| && HitsAt(Stepper(net, dst), Config(start, []), Arrival(net, dst), first);
      assert ArrivesAt(net, start, dst, first);
    }
  }

  /** In such a network, running out of budget means a genuine forwarding loop:
      a configuration repeats, the packet is forwarded for ever and it never arrives. */
  lemma {:induction false} ExhaustionIsALoop(
      net: Network, start: string, dst: string, space: set<Config>, run: seq<Config>, hops: seq<Hop>)
    requires Confined(net, start, dst, space) && |space| <= BUDGET
    requires Explains(net, dst, run, hops, OutOfBudget) && run[0] == Config(start, [])
    ensures exists i, j :: 0 <= i < j < |run| && run[i] == run[j]
    ensures forall n: nat :: After(Stepper(net, dst), Config(start, []), n).Some? && !ArrivesAt(net, start, dst, n)
  {
    forall n: nat | n < |run| ensures run[n] in space {
      RunIsOrbit(net, dst, run, n);
      assert StaysIn(Stepper(net, dst), run[0], space, n);
    }
    var i, j := Repeats(run, space);
    RunIsOrbit(net, dst, run, i);
    RunIsOrbit(net, dst, run, j);
    RunArrival(net, start, dst, run, hops, OutOfBudget);
    BudgetIsComplete(net, start, dst, space);
    forall n: nat ensures After(Stepper(net, dst), run[0], n).Some? {
      LoopNeverStops(Stepper(net, dst), run[0], i, j, n);
    }
  }

  // ---- the budget is tight: chains of routers ----

  function ChainNode(i: nat): string {
    seq(i + 1, _ => 'n')
  }

  function ChainAddress(i: nat): string {
    "10.0.0." + Decimal(i)
  }

  /** The `i`-th router has the `i`-th address, up to `n`. */
  function ChainOwners(n: nat): map<string, string> {
    if n == 0 then map[ChainAddress(0) := ChainNode(0)] else ChainOwners(n - 1)[ChainAddress(n) := ChainNode(n)]
  }

  lemma {:induction false} AddressesDiffer(i: nat, j: nat)
    ensures ChainAddress(i) == ChainAddress(j) ==> i == j
  {
    assert ChainAddress(i)[7..] == Decimal(i) && ChainAddress(j)[7..] == Decimal(j);
    if Decimal(i) == Decimal(j) {
      DecimalInjective(i, j);
    }
  }

  lemma {:induction false} ChainOwner(n: nat, i: nat)
    ensures ChainAddress(i) in ChainOwners(n) <==> i <= n
    ensures i <= n ==> ChainOwners(n)[ChainAddress(i)] == ChainNode(i)
  {
    AddressesDiffer(i, n);
    if n > 0 {
      ChainOwner(n - 1, i);
    }
  }

  lemma {:induction false} ChainOwnersAreValid(n: nat)
    ensures ValidOwners(ChainOwners(n))
  {
    assert ChainNode(n)[0] == 'n';
    if n > 0 {
      ChainOwnersAreValid(n - 1);
    }
  }

  /** Routers 0 to `n`; each has a default route to the address of the next one. */
  function Chain(n: nat): Network {
    Network(
      ChainOwners(n),
      (node: string, _: string) => Route("default", "0.0.0.0/0", ChainAddress(|node|), ""),
      (_: string, _: string) => LabelEntry("", "", ""))
  }

  function ChainConfigs(n: nat): (space: set<Config>)
    ensures |space| <= n + 1
    ensures forall i | 0 <= i <= n :: Config(ChainNode(i), []) in space
  {
    if n == 0 then {Config(ChainNode(0), [])} else ChainConfigs(n - 1) + {Config(ChainNode(n), [])}
  }

  lemma {:induction false} ChainStep(n: nat, i: nat)
    requires i <= n
    ensures Forward(Chain(n), ChainAddress(n), Config(ChainNode(i), [])) ==
            if i < n then Some(Config(ChainNode(i + 1), [])) else None
    ensures Arrived(Chain(n), ChainAddress(n), Config(ChainNode(i), [])) <==> i == n
  {
    assert |ChainNode(i)| == i + 1 && |ChainNode(n)| == n + 1;
    ChainOwner(n, n);
    ChainOwner(n, i + 1);
  }

  lemma {:induction false} ChainRun(n: nat, k: nat)
    ensures After(Stepper(Chain(n), ChainAddress(n)), Config(ChainNode(0), []), k) ==
            if k <= n then Some(Config(ChainNode(k), [])) else None
  {
    var net, dst := Chain(n), ChainAddress(n);
    var run := seq(n + 1, i requires 0 <= i <= n => Config(ChainNode(i), []));
    forall i | 0 <= i < n ensures Forward(net, dst, run[i]) == Some(run[i + 1]) {
      ChainStep(n, i);
    }
    if k <= n {
      RunIsOrbit(net, dst, run, k);
    } else {
      RunIsOrbit(net, dst, run, n);
      ChainStep(n, n);
      AfterAdds(Stepper(net, dst), run[0], n, k - n);
    }
  }

  lemma {:induction false} ChainArrival(n: nat, k: nat)
    ensures ArrivesAt(Chain(n), ChainNode(0), ChainAddress(n), k) <==> k == n
  {
    ChainRun(n, k);
    if k <= n {
      ChainStep(n, k);
    }
  }

  lemma {:induction false} ChainIsConfined(n: nat)
    ensures Confined(Chain(n), ChainNode(0), ChainAddress(n), ChainConfigs(n))
  {
    var step, start := Stepper(Chain(n), ChainAddress(n)), Config(ChainNode(0), []);
    forall k: nat ensures StaysIn(step, start, ChainConfigs(n), k) {
      forall i: nat | i <= k && After(step, start, i).Some?
        ensures After(step, start, i).value in ChainConfigs(n)
      {
        ChainRun(n, i);
      }
    }
  }

  /** One configuration more than the budget and completeness fails: in a chain of n + 1 routers the packet does arrive,
      after exactly n steps, which the walk of 24 iterations does not see when n >= 24. */
  lemma {:induction false} BudgetIsTight(n: nat)
    requires n >= BUDGET
    ensures exists net: Network, start: string, dst: string, space: set<Config> ::
              && ValidOwners(net.owner) && IsNodeName(start)
              && Confined(net, start, dst, space) && |space| <= n + 1
              && ArrivesAt(net, start, dst, n)
              && !exists k: nat | k < BUDGET :: ArrivesAt(net, start, dst, k)
  {
    ChainOwnersAreValid(n);
    assert ChainNode(0)[0] == 'n';
    ChainIsConfined(n);
    ChainArrival(n, n);
    forall k: nat | k < BUDGET ensures !ArrivesAt(Chain(n), ChainNode(0), ChainAddress(n), k) {
      ChainArrival(n, k);
    }
    assert Confined(Chain(n), ChainNode(0), ChainAddress(n), ChainConfigs(n));
  }

  // ---- tunnels ----

  /** A stretch of forwarding in which every packet still carries a label. */
  ghost predicate IsTunnel(net: Network, run: seq<Config>) {
    && run != []
    && forall i | 0 <= i < |run| - 1 :: run[i].stack != [] && Forward(net, "", run[i]) == Some(run[i + 1])
  }

  function Over(c: Config, inner: seq<string>): Config {
    Config(c.node, c.stack + inner)
  }

  function Carrying(run: seq<Config>, inner: seq<string>): (r: seq<Config>)
    ensures |r| == |run| && forall i | 0 <= i < |run| :: r[i] == Over(run[i], inner)
  {
    seq(|run|, i requires 0 <= i < |run| => Over(run[i], inner))
  }

  /** Same node, kind, next hop and labels. The detail names the same VRF, or the same interface and the whole stack
      that is left, so it shows `inner` below `stack`. */
  ghost predicate SameMove(a: Option<Hop>, b: Option<Hop>, stack: seq<string>, inner: seq<string>) {
    && a.Some? && b.Some? && a.value.(detail := "") == b.value.(detail := "")
    && if a.value.kind == MplsPopVrf then a.value.detail == b.value.detail
       else exists iface ::
           a.value.detail == StackText(iface, stack) && b.value.detail == StackText(iface, stack + inner)
  }

  /** Only the top label is ever looked at: what lies below it is carried along unread. */
  lemma {:induction false} LabelStepIgnoresInner(net: Network, dst: string, c: Config, inner: seq<string>, seqNo: nat)
    requires c.stack != []
    ensures Forward(net, "", c) == None ==> Forward(net, dst, Over(c, inner)) == None
    ensures Forward(net, "", c).Some? ==>
            Forward(net, dst, Over(c, inner)) == Some(Over(Forward(net, "", c).value, inner))
    ensures Forward(net, "", c).Some? ==>
              SameMove(HopAt(net, "", c, seqNo), HopAt(net, dst, Over(c, inner), seqNo),
                  Forward(net, "", c).value.stack, inner)
  {
    var o := Over(c, inner);
    assert o.stack[0] == c.stack[0];
    assert o.stack[1..] == c.stack[1..] + inner;
    var e := net.lfib(c.node, c.stack[0]);
    if ActionOf(e).Swap? {
      assert ActionOf(e).labels + o.stack[1..] == ActionOf(e).labels + c.stack[1..] + inner;
    }
    if Forward(net, "", c).Some? && !ActionOf(e).PopToVrf? {
      var left := Forward(net, "", c).value.stack;
      assert HopAt(net, "", c, seqNo).value.detail == StackText(e.iface, left);
      assert HopAt(net, dst, o, seqNo).value.detail == StackText(e.iface, left + inner);
    }
  }

  /** A tunnel that delivers a packet to `m` with an empty stack delivers it, with any inner
      stack `inner`, to `m` carrying exactly `inner`, whatever the packet's final destination. */
  lemma {:induction false} TunnelIsTransparent(net: Network, dst: string, run: seq<Config>, inner: seq<string>)
    requires IsTunnel(net, run)
    ensures var end := run[|run| - 1];
            After(Stepper(net, dst), Over(run[0], inner), |run| - 1) == Some(Over(end, inner)) &&
            (end.stack == [] ==> Over(end, inner) == Config(end.node, inner))
  {
    var carried := Carrying(run, inner);
    forall i | 0 <= i < |run| - 1 ensures Forward(net, dst, carried[i]) == Some(carried[i + 1]) {
      LabelStepIgnoresInner(net, dst, run[i], inner, 0);
    }
    RunIsOrbit(net, dst, carried, |run| - 1);
    assert [] + inner == inner;
  }

  /** It gets there over the same nodes, interfaces, next hops and labels. */
  lemma {:induction false} TunnelHopsAreTheSame(net: Network, dst: string, run: seq<Config>, inner: seq<string>, i: nat)
    requires IsTunnel(net, run) && i < |run| - 1
    ensures SameMove(HopAt(net, "", run[i], i + 1), HopAt(net, dst, Carrying(run, inner)[i], i + 1), run[i + 1].stack,
            inner)
  {
    assert run[i].stack != [] && Forward(net, "", run[i]) == Some(run[i + 1]);
    LabelStepIgnoresInner(net, dst, run[i], inner, i + 1);
  }

  lemma {:induction false} VpnEntry(net: Network, dst: string, ingress: string, first: Config, vpn: string)
    requires |first.stack| == 1
    requires var r := net.route(ingress, dst);
             r.nexthop in net.owner && net.owner[r.nexthop] == first.node &&
             r.labels != "" && Split(r.labels, ',') == [first.stack[0], vpn]
    ensures After(Stepper(net, dst), Config(ingress, []), 1) == Some(Over(first, [vpn]))
  {
    assert first.stack + [vpn] == [first.stack[0], vpn];
    assert Forward(net, dst, Config(ingress, [])) == Some(Over(first, [vpn]));
  }

  lemma {:induction false} VpnExit(net: Network, dst: string, egress: string, vpn: string)
    requires ActionOf(net.lfib(egress, vpn)) == PopToVrf
    ensures After(Stepper(net, dst), Config(egress, [vpn]), 1) == Some(Config(egress, []))
  {
    assert Config(egress, [vpn]).stack[1..] == [];
    assert Forward(net, dst, Config(egress, [vpn])) == Some(Config(egress, []));
  }

  /** The L3VPN path: the ingress imposes the tunnel's label over a VPN label, the tunnel ends at
      the egress node and that node pops the VPN label into a VRF. Then the packet continues there, unlabelled. */
  lemma {:induction false} VpnDelivery(net: Network, dst: string, ingress: string, run: seq<Config>, vpn: string)
    requires IsTunnel(net, run) && |run| >= 2 && |run[0].stack| == 1 && run[|run| - 1].stack == []
    requires var r := net.route(ingress, dst);
             r.nexthop in net.owner && net.owner[r.nexthop] == run[0].node &&
             r.labels != "" && Split(r.labels, ',') == [run[0].stack[0], vpn]
    requires ActionOf(net.lfib(run[|run| - 1].node, vpn)) == PopToVrf
    ensures After(Stepper(net, dst), Config(ingress, []), |run| + 1) == Some(Config(run[|run| - 1].node, []))
  {
    var step, egress := Stepper(net, dst), run[|run| - 1].node;
    var entry := Over(run[0], [vpn]);
    TunnelIsTransparent(net, dst, run, [vpn]);
    VpnEntry(net, dst, ingress, run[0], vpn);
    VpnExit(net, dst, egress, vpn);
    AfterAdds(step, Config(ingress, []), 1, |run| - 1);
    AfterAdds(step, Config(ingress, []), |run|, 1);
  }
}
