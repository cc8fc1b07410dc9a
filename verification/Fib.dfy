/** The route lookup behind the path walk: table entries are collected from gNMI
    updates, then scanned in map order for the longest matching prefix. */
module Fib {
  import opened Wrappers
  import opened PathTrace

  datatype Leaf = NextHopLeaf | PushedLabelsLeaf | OtherLeaf

  /** One update of the forwarding table: the keys on its path, its last element and its value. */
  datatype Update = Update(prefix: string, instance: string, leaf: Leaf, value: string)

  datatype Entry = Entry(vrf: string, nexthop: string, labels: string)

  const NO_ROUTE := Route("", "", "", "")

  // ---- collecting the table ----

  /** The most recent update of one leaf of one prefix. */
  function Latest(updates: seq<Update>, prefix: string, leaf: Leaf): Option<Update> {
    if updates == [] then None
    else
      var u := updates[|updates| - 1];
      if u.prefix == prefix && u.leaf == leaf then Some(u) else Latest(updates[..|updates| - 1], prefix, leaf)
  }

  function EntryFor(updates: seq<Update>, prefix: string): Entry {
    var nh, lbl := Latest(updates, prefix, NextHopLeaf), Latest(updates, prefix, PushedLabelsLeaf);
    Entry(if nh.Some? then nh.value.instance else "",
          if nh.Some? then nh.value.value else "",
          if lbl.Some? then lbl.value.value else "")
  }

  ghost predicate IsTableOf(table: map<string, Entry>, updates: seq<Update>) {
    && (forall p :: p in table <==> p != "" && exists u | u in updates :: u.prefix == p)
    && (forall p | p in table :: table[p] == EntryFor(updates, p))
  }

  function Prefixes(updates: seq<Update>): set<string> {
    set u | u in updates && u.prefix != "" :: u.prefix
  }

  function TableOf(updates: seq<Update>): map<string, Entry> {
    map p | p in Prefixes(updates) :: EntryFor(updates, p)
  }

  /** There is one such table. */
  lemma {:induction false} TableIsUnique(table: map<string, Entry>, updates: seq<Update>)
    ensures IsTableOf(table, updates) <==> table == TableOf(updates)
  {
    forall p ensures p in Prefixes(updates) <==> p != "" && exists u | u in updates :: u.prefix == p {
    }
  }

  function Refresh(e: Entry, u: Update): Entry {
    match u.leaf
    case NextHopLeaf => e.(nexthop := u.value, vrf := u.instance)
    case PushedLabelsLeaf => e.(labels := u.value)
    case OtherLeaf => e
  }

  lemma {:induction false} EntryForAppended(done: seq<Update>, u: Update, p: string)
    ensures EntryFor(done + [u], p) == if u.prefix == p then Refresh(EntryFor(done, p), u) else EntryFor(done, p)
  {
    assert (done + [u])[..|done|] == done;
  }

  lemma {:induction false} NothingLatest(updates: seq<Update>, prefix: string)
    requires forall u | u in updates :: u.prefix != prefix
    ensures EntryFor(updates, prefix) == Entry("", "", "")
  {
    if updates == [] {
    } else {
      NothingLatest(updates[..|updates| - 1], prefix);
    }
  }

  lemma {:induction false} TableAppended(table: map<string, Entry>, done: seq<Update>, u: Update, e: Entry)
    requires IsTableOf(table, done) && e == EntryFor(done + [u], u.prefix)
    ensures IsTableOf(if u.prefix == "" then table else table[u.prefix := e], done + [u])
  {
    var table' := if u.prefix == "" then table else table[u.prefix := e];
    forall p ensures p in table' <==> p != "" && exists v | v in done + [u] :: v.prefix == p {
      if p in table {
        var v :| v in done && v.prefix == p;
        assert v in done + [u];
      }
      assert u in done + [u];
    }
    forall p | p in table' ensures table'[p] == EntryFor(done + [u], p) {
      EntryForAppended(done, u, p);
    }
  }

  method Collect(updates: seq<Update>) returns (table: map<string, Entry>)
    ensures IsTableOf(table, updates)
  {
    table := map[];
    for i := 0 to |updates|
      invariant IsTableOf(table, updates[..i])
    {
      var u := updates[i];
      ghost var done := updates[..i];
      assert updates[..i + 1] == done + [u];
      var e := if u.prefix in table then table[u.prefix] else Entry("", "", "");
      if u.prefix !in table && u.prefix != "" {
        NothingLatest(done, u.prefix);
      }
      if u.prefix != "" {
        match u.leaf {
          case NextHopLeaf => e := e.(nexthop := u.value, vrf := u.instance);
          case PushedLabelsLeaf => e := e.(labels := u.value);
          case OtherLeaf =>
        }
        EntryForAppended(done, u, u.prefix);
        TableAppended(table, done, u, e);
        table := table[u.prefix := e];
      } else {
        TableAppended(table, done, u, EntryFor(done + [u], ""));
      }
    }
    assert updates[..|updates|] == updates;
  }

  // ---- instances ----

  /** The updates of one routing instance. */
  function OfInstance(updates: seq<Update>, instance: string): seq<Update> {
    if updates == [] then []
    else
      var before, u := OfInstance(updates[..|updates| - 1], instance), updates[|updates| - 1];
      if u.instance == instance then before + [u] else before
  }

  lemma {:induction false} LatestOfInstance(updates: seq<Update>, instance: string, prefix: string, leaf: Leaf)
    ensures var all, own := Latest(updates, prefix, leaf), Latest(OfInstance(updates, instance), prefix, leaf);
            && (own.Some? ==> own.value.instance == instance)
            && (all.None? ==> own.None?)
            && (all.Some? && all.value.instance == instance ==> own == all)
  {
    if updates != [] {
      var n := |updates| - 1;
      var own := OfInstance(updates[..n], instance);
      LatestOfInstance(updates[..n], instance, prefix, leaf);
      assert (own + [updates[n]])[..|own|] == own;
    }
  }

  /** The entry of a prefix comes from one instance: its updates alone give the same next hop and the same labels. */
  ghost predicate FromOneInstance(updates: seq<Update>, prefix: string) {
    exists instance ::
      var own := OfInstance(updates, instance);
      && Latest(own, prefix, NextHopLeaf) == Latest(updates, prefix, NextHopLeaf)
      && Latest(own, prefix, PushedLabelsLeaf) == Latest(updates, prefix, PushedLabelsLeaf)
  }

  /** Prefixes are keyed without the instance, so this holds if and only if the latest next hop and the latest labels
      of the prefix, where it has both, were reported in one instance. */
  lemma {:induction false} EntryFromOneInstance(updates: seq<Update>, prefix: string)
    ensures FromOneInstance(updates, prefix) <==>
            var nh, lbl := Latest(updates, prefix, NextHopLeaf), Latest(updates, prefix, PushedLabelsLeaf);
            nh.Some? && lbl.Some? ==> nh.value.instance == lbl.value.instance
  {
    var nh, lbl := Latest(updates, prefix, NextHopLeaf), Latest(updates, prefix, PushedLabelsLeaf);
    if FromOneInstance(updates, prefix) {
      var i :|
        var own := OfInstance(updates, i);
        Latest(own, prefix, NextHopLeaf) == nh && Latest(own, prefix, PushedLabelsLeaf) == lbl;
      LatestOfInstance(updates, i, prefix, NextHopLeaf);
      LatestOfInstance(updates, i, prefix, PushedLabelsLeaf);
    }
    var instance := if nh.Some? then nh.value.instance else if lbl.Some? then lbl.value.instance else "";
    LatestOfInstance(updates, instance, prefix, NextHopLeaf);
    LatestOfInstance(updates, instance, prefix, PushedLabelsLeaf);
  }

  /** Labels reported in one instance and then a next hop in another make one entry. */
  lemma {:induction false} TwoInstancesAreMixed(prefix: string, labels: string, nexthop: string)
    ensures var labelled := Update(prefix, "red", PushedLabelsLeaf, labels);
            var updates := [labelled, Update(prefix, "blue", NextHopLeaf, nexthop)];
            EntryFor(updates, prefix) == Entry("blue", nexthop, labels) && !FromOneInstance(updates, prefix)
  {
    var first, second := Update(prefix, "red", PushedLabelsLeaf, labels), Update(prefix, "blue", NextHopLeaf, nexthop);
    assert [first, second][..1] == [first];
    EntryFromOneInstance([first, second], prefix);
    assert "red"[0] != "blue"[0];
  }

  // ---- prefixes ----

  function Pow2(n: nat): (p: nat)
    ensures p > 0
  {
    if n == 0 then 1 else 2 * Pow2(n - 1)
  }

  /** A network of IPv4 addresses as net.ParseCIDR returns it: the host bits are masked off. `mapped` says that it was
      written as an IPv4-mapped IPv6 prefix, of 96 bits more. */
  datatype RawCidr = RawCidr(network: nat, ones: nat, mapped: bool) {
    predicate Valid() { ones <= 32 && network % Pow2(32 - ones) == 0 }

    /** The size of the mask, by which networks are compared. */
    function Size(): nat { if mapped then 96 + ones else ones }
  }
  type Cidr = c: RawCidr | c.Valid() witness RawCidr(0, 0, false)

  predicate Contains(c: Cidr, addr: nat) {
    addr / Pow2(32 - c.ones) == c.network / Pow2(32 - c.ones)
  }

  /** Two networks of the same length that contain a common address are the same network. */
  lemma {:induction false} SameLengthSameNetwork(c: Cidr, d: Cidr, addr: nat)
    requires c.Size() == d.Size() && Contains(c, addr) && Contains(d, addr)
    ensures c == d
  {
    var size := Pow2(32 - c.ones);
    MultipleOfSize(c.network, size);
    MultipleOfSize(d.network, size);
  }

  lemma {:induction false} MultipleOfSize(n: nat, size: nat)
    requires size > 0 && n % size == 0
    ensures n == (n / size) * size
  {
  }

  // ---- the scan ----

  predicate Usable(e: Entry) { e.nexthop != "" || e.labels != "" }

  predicate Matches(table: map<string, Entry>, cidr: string -> Option<Cidr>, addr: nat, p: string) {
    p in table && Usable(table[p]) && cidr(p).Some? && Contains(cidr(p).value, addr)
  }

  ghost predicate Longest(table: map<string, Entry>, cidr: string -> Option<Cidr>, addr: nat, p: string) {
    && Matches(table, cidr, addr, p)
    && forall q | Matches(table, cidr, addr, q) :: cidr(q).value.Size() <= cidr(p).value.Size()
  }

  function RouteOf(table: map<string, Entry>, p: string): Route
    requires p in table
  {
    Route(table[p].vrf, p, table[p].nexthop, table[p].labels)
  }

  /** `r` is a legitimate answer: a usable entry of maximal length, or nothing when nothing matches. */
  ghost predicate IsLookup(table: map<string, Entry>, cidr: string -> Option<Cidr>, addr: nat, r: Route) {
    if forall q :: !Matches(table, cidr, addr, q) then r == NO_ROUTE
    else Longest(table, cidr, addr, r.prefix) && r == RouteOf(table, r.prefix)
  }

  /** The scan visits the map in no particular order; whatever the order, the answer is legitimate. */
  method RouteLookup(updates: seq<Update>, cidr: string -> Option<Cidr>, addr: Option<nat>)
    returns (r: Route)
    ensures if addr.None? then r == NO_ROUTE else IsLookup(TableOf(updates), cidr, addr.value, r)
  {
    var byPfx := Collect(updates);
    TableIsUnique(byPfx, updates);
    r := NO_ROUTE;
    if addr.None? {
      return;
    }
    var best: int := -1;
    var todo := byPfx.Keys;
    while todo != {}
      invariant todo <= byPfx.Keys
      invariant best == -1 ==> r == NO_ROUTE && forall q | q !in todo :: !Matches(byPfx, cidr, addr.value, q)
      invariant best != -1 ==>
        && Matches(byPfx, cidr, addr.value, r.prefix) && r == RouteOf(byPfx, r.prefix)
        && best == cidr(r.prefix).value.Size()
        && forall q | q !in todo && Matches(byPfx, cidr, addr.value, q) :: cidr(q).value.Size() <= best
      decreases |todo|
    {
      var pfx :| pfx in todo;
      todo := todo - {pfx};
      var e := byPfx[pfx];
      if Usable(e) {
        var c := cidr(pfx);
        if c.Some? && Contains(c.value, addr.value) && c.value.Size() > best {
          best := c.value.Size();
          r := Route(e.vrf, pfx, e.nexthop, e.labels);
        }
      }
    }
  }

  /** No usable spelling of a network occurs twice among the longest matches. */
  ghost predicate SpelledOnce(table: map<string, Entry>, cidr: string -> Option<Cidr>, addr: nat) {
    forall p, q | Longest(table, cidr, addr, p) && Longest(table, cidr, addr, q) && cidr(p) == cidr(q) :: p == q
  }

  /** The answer does not depend on the map order exactly when the longest matching network is spelled only once. */
  lemma {:induction false} LookupIsDetermined(table: map<string, Entry>, cidr: string -> Option<Cidr>, addr: nat)
    ensures (forall r, s | IsLookup(table, cidr, addr, r) && IsLookup(table, cidr, addr, s) :: r == s)
            <==> SpelledOnce(table, cidr, addr)
  {
    if SpelledOnce(table, cidr, addr) {
      forall r, s | IsLookup(table, cidr, addr, r) && IsLookup(table, cidr, addr, s) ensures r == s {
        if q :| Matches(table, cidr, addr, q) {
          SameLengthSameNetwork(cidr(r.prefix).value, cidr(s.prefix).value, addr);
        }
      }
    } else {
      var p, q :| Longest(table, cidr, addr, p) && Longest(table, cidr, addr, q) && cidr(p) == cidr(q) && p != q;
      assert IsLookup(table, cidr, addr, RouteOf(table, p));
      assert IsLookup(table, cidr, addr, RouteOf(table, q));
    }
  }

  /** Canonically spelled tables, in which different prefixes denote different networks, always have one answer. */
  lemma {:induction false} CanonicalTablesAreDetermined(
      table: map<string, Entry>, cidr: string -> Option<Cidr>, addr: nat)
    requires forall p, q | p in table && q in table && cidr(p).Some? && cidr(p) == cidr(q) :: p == q
    ensures forall r, s | IsLookup(table, cidr, addr, r) && IsLookup(table, cidr, addr, s) :: r == s
    ensures forall r | IsLookup(table, cidr, addr, r) && "" !in table ::
              r.Missing() <==> forall q :: !Matches(table, cidr, addr, q)
  {
    LookupIsDetermined(table, cidr, addr);
  }

  function TwoDefaults(): map<string, Entry> {
    map["0.0.0.0/0" := Entry("default", "192.0.2.1", ""), "1.2.3.4/0" := Entry("default", "192.0.2.2", "")]
  }

  function AllToDefault(): string -> Option<Cidr> {
    _ => Some(RawCidr(0, 0, false))
  }

  /** Two spellings of the default route are two different legitimate answers. */
  lemma {:induction false} TwoSpellingsAreAmbiguous()
    ensures !SpelledOnce(TwoDefaults(), AllToDefault(), 0)
    ensures exists r, s ::
            IsLookup(TwoDefaults(), AllToDefault(), 0, r) && IsLookup(TwoDefaults(), AllToDefault(), 0, s) && r != s
  {
    assert "0.0.0.0/0"[0] != "1.2.3.4/0"[0];
    assert "192.0.2.1" != "" && "192.0.2.2" != "";
    assert Longest(TwoDefaults(), AllToDefault(), 0, "0.0.0.0/0");
    assert Longest(TwoDefaults(), AllToDefault(), 0, "1.2.3.4/0");
    LookupIsDetermined(TwoDefaults(), AllToDefault(), 0);
  }

  // ---- mapped prefixes ----

  lemma {:induction false} SomeLongest(
      table: map<string, Entry>, cidr: string -> Option<Cidr>, addr: nat, p: string)
    requires Matches(table, cidr, addr, p)
    ensures exists l :: Longest(table, cidr, addr, l)
    decreases 128 - cidr(p).value.Size()
  {
    if !Longest(table, cidr, addr, p) {
      var q :| Matches(table, cidr, addr, q) && cidr(q).value.Size() > cidr(p).value.Size();
      SomeLongest(table, cidr, addr, q);
    }
  }

  /** A plain prefix matches that is more specific than every mapped one that matches, and there is one. */
  ghost predicate Eclipsed(table: map<string, Entry>, cidr: string -> Option<Cidr>, addr: nat) {
    exists p, q ::
      && Matches(table, cidr, addr, p) && cidr(p).value.mapped
      && Matches(table, cidr, addr, q) && !cidr(q).value.mapped
      && forall m | Matches(table, cidr, addr, m) && cidr(m).value.mapped :: cidr(m).value.ones < cidr(q).value.ones
  }

  /** The answer is the most specific match in terms of IPv4 bits, unless a plain prefix is eclipsed by a mapped one. */
  lemma {:induction false} LongestIsMostSpecific(table: map<string, Entry>, cidr: string -> Option<Cidr>, addr: nat)
    ensures (forall p, q | Longest(table, cidr, addr, p) && Matches(table, cidr, addr, q) ::
            cidr(q).value.ones <= cidr(p).value.ones)
            <==> !Eclipsed(table, cidr, addr)
  {
    if Eclipsed(table, cidr, addr) {
      var p, q :|
        && Matches(table, cidr, addr, p) && cidr(p).value.mapped
        && Matches(table, cidr, addr, q) && !cidr(q).value.mapped
        && forall m | Matches(table, cidr, addr, m) && cidr(m).value.mapped :: cidr(m).value.ones < cidr(q).value.ones;
      SomeLongest(table, cidr, addr, p);
      var l :| Longest(table, cidr, addr, l);
      assert cidr(l).value.mapped;
    }
    if p, q :|
      && Longest(table, cidr, addr, p) && Matches(table, cidr, addr, q)
      && cidr(q).value.ones > cidr(p).value.ones
    {
      assert cidr(p).value.mapped && !cidr(q).value.mapped;
    }
  }

  const MAPPED_DEFAULT := "::ffff:0:0/96"
  const HOST_ROUTE := "192.0.2.1/32"
  const HOST: nat := 0xC0000201

  function MappedTable(): map<string, Entry> {
    map[MAPPED_DEFAULT := Entry("default", "192.0.2.254", ""), HOST_ROUTE := Entry("default", "192.0.2.2", "")]
  }

  function MappedCidr(): string -> Option<Cidr> {
    (p: string) => Some(if p == MAPPED_DEFAULT then RawCidr(0, 0, true) else RawCidr(HOST, 32, false))
  }

  /** A mapped default route beats a host route. */
  lemma {:induction false} MappedDefaultWins()
    ensures Eclipsed(MappedTable(), MappedCidr(), HOST)
    ensures forall r | IsLookup(MappedTable(), MappedCidr(), HOST, r) :: r.prefix == MAPPED_DEFAULT
  {
    var table, cidr := MappedTable(), MappedCidr();
    assert MAPPED_DEFAULT[0] != HOST_ROUTE[0];
    assert "192.0.2.254" != "" && "192.0.2.2" != "";
    EverythingIsInDefault(HOST);
    assert Matches(table, cidr, HOST, MAPPED_DEFAULT) && Matches(table, cidr, HOST, HOST_ROUTE);
  }

  lemma {:induction false} EverythingIsInDefault(addr: nat)
    requires addr < 0x1_0000_0000
    ensures Pow2(32) == 0x1_0000_0000 && Contains(RawCidr(0, 0, true), addr)
  {
    assert Pow2(8) == 0x100;
    assert Pow2(16) == 0x1_0000;
    assert Pow2(24) == 0x100_0000;
  }

  // ---- the label table ----

  datatype LabelLeaf = OutLabelLeaf | LabelNextHopLeaf | InterfaceLeaf | UnknownLeaf

  datatype LabelUpdate = LabelUpdate(leaf: LabelLeaf, value: string)

  /** The latest value of a leaf, "" if it was never reported. */
  function LatestValue(updates: seq<LabelUpdate>, leaf: LabelLeaf): string {
    if updates == [] then ""
    else
      var u := updates[|updates| - 1];
      if u.leaf == leaf then u.value else LatestValue(updates[..|updates| - 1], leaf)
  }

  method MplsLookup(updates: seq<LabelUpdate>) returns (e: LabelEntry)
    ensures e == LabelEntry(LatestValue(updates, OutLabelLeaf), LatestValue(updates, LabelNextHopLeaf),
            LatestValue(updates, InterfaceLeaf))
  {
    e := LabelEntry("", "", "");
    for i := 0 to |updates|
      invariant e == LabelEntry(LatestValue(updates[..i], OutLabelLeaf), LatestValue(updates[..i], LabelNextHopLeaf),
                LatestValue(updates[..i], InterfaceLeaf))
    {
      var u := updates[i];
      assert updates[..i + 1][..i] == updates[..i];
      match u.leaf
      case OutLabelLeaf => e := e.(outLabel := u.value);
      case LabelNextHopLeaf => e := e.(nexthop := u.value);
      case InterfaceLeaf => e := e.(iface := u.value);
      case UnknownLeaf =>
    }
    assert updates[..|updates|] == updates;
  }
}
