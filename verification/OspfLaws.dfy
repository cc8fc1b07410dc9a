/** From what the router shows to what is recorded: interfaces, states, addresses and the texts of the events. */
module OspfLaws {
  import opened Wrappers
  import opened Text
  import opened Ospf
  import opened OspfHistory
  import opened OspfProtocol

  // ---- one neighbor ----

  /** The first entry counts. Its interface name may go on behind a colon, and the converged state is preferred. */
  lemma {:induction false} FirstEntryIsParsed(shown: Shown, rid: string, e: Entry, iface: string, local: string)
    requires rid in shown && shown[rid] != [] && shown[rid][0] == e
    requires ':' !in iface && (e.ifaceName == iface || e.ifaceName == iface + ":" + local)
    ensures rid in Parsed(shown)
    ensures Parsed(shown)[rid] ==
            Neighbor(iface, e.ifaceAddress, if e.converged == "" then e.nbrState else e.converged)
  {
    BeforeAll(iface, ':');
    BeforeSeparator(iface, ':', local);
    assert iface + ":" + local == iface + [':'] + local;
  }

  /** What the router shows of a neighbor is what is recorded of it, once a fresh run is quiet. */
  lemma {:induction false} ShownIsRecorded(
      ss: seq<System>, ls: seq<Label>, rid: string, e: Entry, iface: string, local: string)
    requires IsRunFromStart(ss, ls) && Fresh(ls) && Quiescent(ss[|ls|])
    requires var live := ss[|ls|].live; rid in live && live[rid] != [] && live[rid][0] == e
    requires ':' !in iface && (e.ifaceName == iface || e.ifaceName == iface + ":" + local)
    ensures var rec, state := ss[|ls|].rec, AdjState(if e.converged == "" then e.nbrState else e.converged);
            && rid in rec.seen && rid in rec.st && Path(iface, rid) in rec.cache
            && (rec.seen[rid], rec.st[rid], rec.cache[Path(iface, rid)]) ==
               (iface, state, Leaves(state, e.ifaceAddress))
  {
    var end := ss[|ls|];
    FirstEntryIsParsed(end.live, rid, e, iface, local);
    QuiescentConsistency(ss, ls);
    var t, p := Parsed(end.live), Path(iface, rid);
    LeafAt(t, p);
    assert (p, LeavesOf(t)[p]) in LeavesOf(t).Items;
  }

  /** A neighbor that the router does not show, or shows without entries, is not recorded; nor are leaves of it
      cached, unless it had moved from one interface to another. */
  lemma {:induction false} UnshownIsForgotten(ss: seq<System>, ls: seq<Label>, rid: string)
    requires IsRunFromStart(ss, ls) && Fresh(ls) && Quiescent(ss[|ls|])
    requires var live := ss[|ls|].live; rid !in live || live[rid] == []
    ensures rid !in ss[|ls|].rec.seen && rid !in ss[|ls|].rec.st
    ensures NobodyEverMoves(ss[|ls|].tables) ==> forall p | p in ss[|ls|].rec.cache :: p.rid != rid
  {
    var end := ss[|ls|];
    QuiescentConsistency(ss, ls);
    RecordFollowsTables(ss, ls);
    FreshIsKnown(ss, ls);
    if NobodyEverMoves(end.tables) {
      CacheIsExactUnlessMoved(end.tables);
      assert Exactness()(end.tables[..|end.tables|]) && end.tables[..|end.tables|] == end.tables;
      forall p | p in end.rec.cache ensures p.rid != rid {
        LeafAt(Latest(end.tables), p);
      }
    }
  }

  // ---- states ----

  /** The recorded names of the router's states, whatever role is added to them. */
  lemma {:induction false} ShortStateNames(role: string)
    ensures (AdjState("Full/" + role), AdjState("2-Way/" + role), AdjState("Init/" + role), AdjState("Down/" + role)) ==
            ("FULL", "TWO_WAY", "INIT", "DOWN")
  {
    HeadIs("Full", "Full/", role);
    HeadIs("2-Way", "2-Way/", role);
    HeadIs("Init", "Init/", role);
    HeadIs("Down", "Down/", role);
    assert "Init"[0] != "Full"[0] && "Down"[0] != "Full"[0] && "Down"[0] != "Init"[0];
  }

  lemma {:induction false} LongStateNames(role: string)
    ensures (AdjState("ExStart/" + role), AdjState("Exchange/" + role), AdjState("Loading/" + role),
             AdjState("Attempt/" + role)) ==
            ("EXCHANGE_START", "EXCHANGE", "LOADING", "ATTEMPT")
  {
    HeadIs("ExStart", "ExStart/", role);
    HeadIs("Exchange", "Exchange/", role);
    HeadIs("Loading", "Loading/", role);
    HeadIs("Attempt", "Attempt/", role);
    assert "Loading"[0] != "ExStart"[0] && "Attempt"[0] != "ExStart"[0] && "Attempt"[0] != "Loading"[0];
  }

  lemma {:induction false} HeadIs(head: string, front: string, role: string)
    requires '/' !in head && front == head + "/"
    ensures Before(front + role, '/') == head
  {
    BeforeSeparator(head, '/', role);
    assert front + role == head + ['/'] + role;
  }

  /** Other names, other spellings and no name at all are not distinguished. */
  lemma {:induction false} OtherStates(head: string)
    requires '/' !in head
    requires head !in ["Full", "2-Way", "Init", "Down", "ExStart", "Exchange", "Loading", "Attempt"]
    ensures AdjState(head) == "UNKNOWN"
  {
    BeforeAll(head, '/');
    var known := ["Full", "2-Way", "Init", "Down", "ExStart", "Exchange", "Loading", "Attempt"];
    assert head != known[0] && head != known[1] && head != known[2] && head != known[3];
    assert head != known[4] && head != known[5] && head != known[6] && head != known[7];
  }

  // ---- events ----

  /** The texts of the two kinds of events. */
  lemma {:induction false} EventTexts(rid: string)
    ensures EventOf(rid, Changed("eth0", "INIT", "FULL")) == Event("adj-full", rid, "if=eth0 INIT->FULL")
    ensures EventOf(rid, Gone("eth0")) == Event("adj-down", rid, "if=eth0 neighbor gone")
    ensures Lower("EXCHANGE_START") == "exchange_start"
  {
    assert Lower("FULL") == "full" && "adj-" + "full" == "adj-full";
    assert "if=" + "eth0" + " " + "INIT" + "->" + "FULL" == "if=eth0 INIT->FULL";
    assert "if=" + "eth0" + " neighbor gone" == "if=eth0 neighbor gone";
  }

  /** The router shows the neighbor in this state, on this interface. */
  ghost predicate Sight(shown: Shown, rid: string, iface: string, state: string) {
    && rid in shown && |shown[rid]| > 0
    && shown[rid][0].ifaceName == iface + ":172.30.0.11" && ':' !in iface
    && shown[rid][0].converged != "" && AdjState(shown[rid][0].converged) == state
  }

  lemma {:induction false} SightIsParsed(shown: Shown, rid: string, iface: string, state: string)
    requires Sight(shown, rid, iface, state)
    ensures rid in Parsed(shown) && Parsed(shown)[rid].iface == iface && AdjState(Parsed(shown)[rid].state) == state
  {
    assert iface + ":" + "172.30.0.11" == iface + ":172.30.0.11";
    FirstEntryIsParsed(shown, rid, shown[rid][0], iface, "172.30.0.11");
  }

  /** A neighbor comes up, moves and changes at once, and is gone when the output is no table. The first sight is
      silent; a transition names the new interface, and so does the loss. */
  lemma {:induction false} FromSightToLoss(
      rid: string, s1: Shown, r1: Record, s2: Shown, r2: Record, r3: Record)
    requires Sight(s1, rid, "eth1", "INIT") && Sight(s2, rid, "eth0", "FULL")
    requires Reconciled(BLANK, Answer(s1).Table(), r1) && Reconciled(r1, Answer(s2).Table(), r2)
    requires Reconciled(r2, Garbled.Table(), r3)
    ensures About(r3.events, rid) == [Event("adj-full", rid, "if=eth0 INIT->FULL"),
                                      Event("adj-down", rid, "if=eth0 neighbor gone")]
  {
    SightIsParsed(s1, rid, "eth1", "INIT");
    SightIsParsed(s2, rid, "eth0", "FULL");
    ThreeTables(rid, Answer(s1).Table(), r1, Answer(s2).Table(), r2, r3);
    EventTexts(rid);
  }

  lemma {:induction false} ThreeTables(rid: string, t1: Table, r1: Record, t2: Table, r2: Record, r3: Record)
    requires rid in t1 && rid in t2
    requires AdjState(t1[rid].state) == "INIT" && AdjState(t2[rid].state) == "FULL" && t2[rid].iface == "eth0"
    requires Reconciled(BLANK, t1, r1) && Reconciled(r1, t2, r2) && Reconciled(r2, map[], r3)
    ensures About(r3.events, rid) == [EventOf(rid, Changed("eth0", "INIT", "FULL")), EventOf(rid, Gone("eth0"))]
  {
    ToldOfThree(rid, t1, r1, t2, r2, map[], r3);
    StoryOfThree(rid, t1, t2);
    ToldTwo(rid, Changed("eth0", "INIT", "FULL"), Gone("eth0"));
  }

  lemma {:induction false} ToldTwo(rid: string, t: Turn, u: Turn)
    ensures Told(rid, [t, u]) == [EventOf(rid, t), EventOf(rid, u)]
  {
  }

  lemma {:induction false} ToldOfThree(
      rid: string, t1: Table, r1: Record, t2: Table, r2: Record, t3: Table, r3: Record)
    requires Reconciled(BLANK, t1, r1) && Reconciled(r1, t2, r2) && Reconciled(r2, t3, r3)
    ensures About(r3.events, rid) == Told(rid, Story([] + [t1] + [t2] + [t3], rid))
  {
    BlankFollows();
    ReconciledFollows([], BLANK, t1, r1);
    ReconciledFollows([] + [t1], r1, t2, r2);
    ReconciledFollows([] + [t1] + [t2], r2, t3, r3);
  }

  lemma {:induction false} StoryOfThree(rid: string, t1: Table, t2: Table)
    requires rid in t1 && rid in t2
    requires AdjState(t1[rid].state) == "INIT" && AdjState(t2[rid].state) == "FULL" && t2[rid].iface == "eth0"
    ensures Story([] + [t1] + [t2] + [map[]], rid) == [Changed("eth0", "INIT", "FULL"), Gone("eth0")]
  {
    assert "INIT"[0] != "FULL"[0];
    StoryStep([], t1, rid);
    StoryStep([] + [t1], t2, rid);
    StoryStep([] + [t1] + [t2], map[], rid);
  }

  lemma {:induction false} StoryStep(tables: seq<Table>, cur: Table, rid: string)
    ensures Latest(tables + [cur]) == cur
    ensures Story(tables + [cur], rid) ==
            Story(tables, rid) + match TurnOf(Latest(tables), cur, rid) case None => [] case Some(t) => [t]
  {
    assert (tables + [cur])[..|tables|] == tables;
  }
}
