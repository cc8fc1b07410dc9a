/** The route lookup in terms of the updates behind a table and of the addresses in a network. */
module FibLaws {
  import opened Wrappers
  import opened PathTrace
  import opened Fib

  // ---- the table ----

  /** A next hop counts until another one is reported for the prefix, and brings its instance with it. */
  lemma {:induction false} NextHopStands(before: seq<Update>, u: Update, after: seq<Update>)
    requires u.leaf == NextHopLeaf && u.prefix != ""
    requires forall v | v in after :: v.prefix != u.prefix || v.leaf != NextHopLeaf
    ensures u.prefix in TableOf(before + [u] + after)
    ensures var e := TableOf(before + [u] + after)[u.prefix]; (e.vrf, e.nexthop) == (u.instance, u.value)
  {
    LatestStands(before, u, after);
  }

  /** Labels count until others are reported for the prefix. */
  lemma {:induction false} LabelsStand(before: seq<Update>, u: Update, after: seq<Update>)
    requires u.leaf == PushedLabelsLeaf && u.prefix != ""
    requires forall v | v in after :: v.prefix != u.prefix || v.leaf != PushedLabelsLeaf
    ensures u.prefix in TableOf(before + [u] + after)
    ensures TableOf(before + [u] + after)[u.prefix].labels == u.value
  {
    LatestStands(before, u, after);
  }

  lemma {:induction false} LatestStands(before: seq<Update>, u: Update, after: seq<Update>)
    requires forall v | v in after :: v.prefix != u.prefix || v.leaf != u.leaf
    ensures Latest(before + [u] + after, u.prefix, u.leaf) == Some(u) && u in before + [u] + after
  {
    var all := before + [u] + after;
    if after != [] {
      LatestStands(before, u, after[..|after| - 1]);
      assert all[..|all| - 1] == before + [u] + after[..|after| - 1];
      assert all[|all| - 1] == after[|after| - 1];
    } else {
      assert all[..|all| - 1] == before && all[|all| - 1] == u;
    }
  }

  /** What was never reported is empty. */
  lemma {:induction false} NeverReported(updates: seq<Update>, prefix: string)
    requires prefix in TableOf(updates)
    ensures (forall u | u in updates :: u.prefix != prefix || u.leaf != NextHopLeaf) ==>
              TableOf(updates)[prefix].nexthop == "" == TableOf(updates)[prefix].vrf
    ensures (forall u | u in updates :: u.prefix != prefix || u.leaf != PushedLabelsLeaf) ==>
              TableOf(updates)[prefix].labels == ""
  {
    NoneIsLatest(updates, prefix, NextHopLeaf);
    NoneIsLatest(updates, prefix, PushedLabelsLeaf);
  }

  lemma {:induction false} NoneIsLatest(updates: seq<Update>, prefix: string, leaf: Leaf)
    ensures (forall u | u in updates :: u.prefix != prefix || u.leaf != leaf) ==> Latest(updates, prefix, leaf) == None
  {
    if updates != [] {
      NoneIsLatest(updates[..|updates| - 1], prefix, leaf);
    }
  }

  // ---- the lookup ----

  /** A network contains as many addresses as it has host bits for, from the first one on. */
  lemma {:induction false} ContainsIsRange(c: Cidr, addr: nat)
    ensures Contains(c, addr) <==> c.network <= addr < c.network + Pow2(32 - c.ones)
  {
    var size := Pow2(32 - c.ones);
    MultipleOfSize(c.network, size);
    SameBlock(c.network / size, size, addr);
  }

  lemma {:induction false} SameBlock(block: nat, size: nat, addr: nat)
    requires size > 0
    ensures addr / size == block <==> block * size <= addr < block * size + size
  {
    var q := addr / size;
    assert q * size <= addr < q * size + size;
    if q < block {
      assert (q + 1) * size <= block * size;
    } else if q > block {
      assert (block + 1) * size <= q * size;
    }
  }

  /** The number of addresses. */
  lemma {:induction false} NetworkSizes()
    ensures [Pow2(0), Pow2(8), Pow2(16), Pow2(24), Pow2(32)] == [1, 256, 65536, 16777216, 4294967296]
  {
    assert Pow2(8) == 256;
    assert Pow2(16) == 65536;
    assert Pow2(24) == 16777216;
  }

  /** The entry says where to send a packet, and the address is in its network. */
  ghost predicate Offers(table: map<string, Entry>, cidr: string -> Option<Cidr>, addr: nat, q: string) {
    && q in table && (table[q].nexthop != "" || table[q].labels != "")
    && cidr(q).Some? && cidr(q).value.network <= addr < cidr(q).value.network + Pow2(32 - cidr(q).value.ones)
  }

  /** Whenever some entry offers a way, the answer is an entry that does, with no shorter a mask, and repeats what that
      entry says; labels without a next hop are a way too. */
  lemma {:induction false} LongestOfferWins(
      table: map<string, Entry>, cidr: string -> Option<Cidr>, addr: nat, r: Route, q: string)
    requires IsLookup(table, cidr, addr, r) && Offers(table, cidr, addr, q)
    ensures Offers(table, cidr, addr, r.prefix)
    ensures r == Route(table[r.prefix].vrf, r.prefix, table[r.prefix].nexthop, table[r.prefix].labels)
    ensures var c, best := cidr(q).value, cidr(r.prefix).value;
            (if c.mapped then 96 + c.ones else c.ones) <= (if best.mapped then 96 + best.ones else best.ones)
  {
    ContainsIsRange(cidr(q).value, addr);
    assert Matches(table, cidr, addr, q);
    ContainsIsRange(cidr(r.prefix).value, addr);
  }

  /** And when none does, there is no answer. */
  lemma {:induction false} NoOfferNoAnswer(table: map<string, Entry>, cidr: string -> Option<Cidr>, addr: nat, r: Route)
    requires IsLookup(table, cidr, addr, r)
    ensures (forall q :: !Offers(table, cidr, addr, q)) ==> r == Route("", "", "", "")
  {
    if q :| Matches(table, cidr, addr, q) {
      ContainsIsRange(cidr(q).value, addr);
      assert Offers(table, cidr, addr, q);
    }
  }

  /** Among plain prefixes the answer is unique in mask: a host route beats a default route that is there as well. */
  lemma {:induction false} HostRouteBeatsDefault(
      table: map<string, Entry>, cidr: string -> Option<Cidr>, addr: nat, r: Route, host: string)
    requires IsLookup(table, cidr, addr, r) && Offers(table, cidr, addr, host)
    requires cidr(host) == Some(RawCidr(addr, 32, false))
    requires forall q | q in table && q != host && cidr(q).Some? :: cidr(q).value.ones < 32 && !cidr(q).value.mapped
    ensures r == Route(table[host].vrf, host, table[host].nexthop, table[host].labels)
  {
    LongestOfferWins(table, cidr, addr, r, host);
  }

  // ---- the label table ----

  /** A leaf of a label entry counts until it is reported again. */
  lemma {:induction false} LeafStands(before: seq<LabelUpdate>, u: LabelUpdate, after: seq<LabelUpdate>)
    requires forall v | v in after :: v.leaf != u.leaf
    ensures LatestValue(before + [u] + after, u.leaf) == u.value
  {
    var all := before + [u] + after;
    if after != [] {
      LeafStands(before, u, after[..|after| - 1]);
      assert all[..|all| - 1] == before + [u] + after[..|after| - 1];
      assert all[|all| - 1] == after[|after| - 1];
    }
  }

  lemma {:induction false} LeafNeverReported(updates: seq<LabelUpdate>, leaf: LabelLeaf)
    requires forall u | u in updates :: u.leaf != leaf
    ensures LatestValue(updates, leaf) == ""
  {
    if updates != [] {
      LeafNeverReported(updates[..|updates| - 1], leaf);
    }
  }
}
