/** The reachability lists of BGP UPDATE messages: labelled VPN-IPv4 prefixes and EVPN routes. */
module Nlri {
  import opened Text
  import opened Bytes
  import opened Sequences
  import opened RouteText

  // ---- labelled VPN-IPv4 prefixes ----

  /** A decoded prefix; `consumed` is 0 when there is none. */
  datatype VpnPrefix = VpnPrefix(rd: string, prefix: string, mpls: nat, consumed: nat)

  const NO_PREFIX := VpnPrefix("", "", 0, 0)

  function LabelAt(data: seq<Byte>, i: nat): nat
    requires i + 3 <= |data|
  {
    (data[i] as int * 0x1_0000 + data[i + 1] as int * 0x100 + data[i + 2]) / 16
  }

  /** The last label of the stack at `i` and the index after it; `last` if there is none. */
  function ScanLabels(data: seq<Byte>, i: nat, last: nat): (r: (nat, nat))
    requires i <= |data|
    ensures i <= r.1 <= |data|
    decreases |data| - i
  {
    if i + 3 > |data| then (last, i)
    else if data[i + 2] % 2 == 1 then (LabelAt(data, i), i + 3)
    else ScanLabels(data, i + 3, LabelAt(data, i))
  }

  /** copy into a four-byte address. */
  function Padded(b: seq<Byte>): (ip: seq<Byte>)
    ensures |ip| == 4 && forall i | 0 <= i < 4 :: ip[i] == if i < |b| then b[i] else 0
  {
    seq(4, i requires 0 <= i < 4 => if i < |b| then b[i] else 0)
  }

  /** The prefix in the `data` after a length octet of `bits`. */
  function VpnOf(data: seq<Byte>, bits: nat): (r: VpnPrefix)
    ensures r.consumed <= 1 + |data|
  {
    var (mpls, i) := ScanLabels(data, 0, 0);
    if i + 8 > |data| then NO_PREFIX
    else
      var plen := bits - (i + 8) * 8;
      VpnPrefix(FormatRD(data[i..i + 8]),
                Dotted(Padded(data[i + 8..])) + "/" + Decimal(if plen < 0 then 0 else plen),
                mpls, 1 + |data|)
  }

  function VpnFront(p: seq<Byte>): (r: VpnPrefix)
    ensures r.consumed <= |p|
  {
    if |p| < 1 then NO_PREFIX
    else
      var total := (p[0] as int + 7) / 8;
      if |p| < 1 + total then NO_PREFIX else VpnOf(p[1..1 + total], p[0])
  }

  /** The label loop: the label it ends with and the index behind it. */
  method ReadLabels(data: seq<Byte>) returns (mpls: nat, i: nat)
    ensures (mpls, i) == ScanLabels(data, 0, 0)
  {
    mpls, i := 0, 0;
    while i + 3 <= |data|
      invariant 0 <= i <= |data|
      invariant ScanLabels(data, i, mpls) == ScanLabels(data, 0, 0)
      decreases |data| - i
    {
      mpls := (data[i] as int * 0x1_0000 + data[i + 1] as int * 0x100 + data[i + 2]) / 16;
      var bos := data[i + 2] % 2;
      i := i + 3;
      if bos == 1 {
        break;
      }
    }
  }

  method ParseVpnNlri(p: seq<Byte>) returns (r: VpnPrefix)
    ensures r == VpnFront(p)
  {
    if |p| < 1 {
      return NO_PREFIX;
    }
    var bits: int := p[0];
    var total := (bits + 7) / 8;
    if |p| < 1 + total {
      return NO_PREFIX;
    }
    var data := p[1..1 + total];
    var mpls, i := ReadLabels(data);
    if i + 8 > |data| {
      return NO_PREFIX;
    }
    var rd := FormatRD(data[i..i + 8]);
    i := i + 8;
    var ip := Padded(data[i..]);
    var prefixBits: int := bits - i * 8;
    if prefixBits < 0 {
      prefixBits := 0;
    }
    r := VpnPrefix(rd, Dotted(ip) + "/" + Decimal(prefixBits), mpls, 1 + total);
  }

  /** A label stack entry of section 2.3 of RFC 8277: 20 bits of label, 3 more, and the bottom bit. */
  datatype MplsLabel = MplsLabel(value: nat, exp: nat) {
    predicate Valid() { value < 0x10_0000 && exp < 8 }

    ghost function Encode(bottom: bool): (b: seq<Byte>)
      requires Valid()
      ensures |b| == 3 && LabelAt(b, 0) == value && (b[2] % 2 == 1 <==> bottom)
    {
      var bit := if bottom then 1 else 0;
      var b := PutU24Be(value * 16 + exp * 2 + bit);
      LabelBits(b, value, exp, bit);
      b
    }
  }

  lemma {:induction false} LabelBits(b: seq<Byte>, value: nat, exp: nat, bit: nat)
    requires |b| == 3 && exp < 8 && bit < 2 && U24Be(b) == value * 16 + exp * 2 + bit
    ensures LabelAt(b, 0) == value && b[2] % 2 == bit
  {
    Quotient(U24Be(b), 16, value, exp * 2 + bit);
    Quotient(U24Be(b), 2, value * 8 + exp, bit);
    Quotient(U24Be(b), 2, b[0] as int * 0x8000 + b[1] as int * 0x80 + b[2] as int / 2, b[2] % 2);
  }

  /** A stack whose last label may carry the bottom bit or not. */
  ghost function EncodeLabels(ls: seq<MplsLabel>, marked: bool): (b: seq<Byte>)
    requires forall l | l in ls :: l.Valid()
    ensures |b| == 3 * |ls|
  {
    if ls == [] then []
    else
      assert ls[0] in ls;
      ls[0].Encode(marked && |ls| == 1) + EncodeLabels(ls[1..], marked)
  }

  /** The scan reads exactly the stack, up to its marked bottom; without the mark it goes on behind it. */
  lemma {:induction false} LabelsRoundTrip(data: seq<Byte>, i: nat, ls: seq<MplsLabel>, marked: bool, last: nat)
    requires ls != [] && (forall l | l in ls :: l.Valid())
    requires i + 3 * |ls| <= |data| && data[i..i + 3 * |ls|] == EncodeLabels(ls, marked)
    ensures ScanLabels(data, i, last) ==
            var bottom, next := ls[|ls| - 1].value, i + 3 * |ls|;
            if marked then (bottom, next) else ScanLabels(data, next, bottom)
    decreases |ls|
  {
    assert ls[0] in ls;
    var b := ls[0].Encode(marked && |ls| == 1);
    var all := EncodeLabels(ls, marked);
    assert data[i..i + 3] == all[..3] == b;
    assert data[i] == b[0] && data[i + 1] == b[1] && data[i + 2] == b[2];
    if |ls| > 1 {
      assert data[i + 3..i + 3 + 3 * |ls[1..]|] == all[3..] == EncodeLabels(ls[1..], marked);
      LabelsRoundTrip(data, i + 3, ls[1..], marked, LabelAt(data, i));
    }
  }

  /** How many bytes hold `plen` bits. */
  function Octets(plen: nat): nat { (plen + 7) / 8 }

  /** A labelled VPN-IPv4 route as a speaker sends it (section 4.3.4 of RFC 4364). `marked` says whether
      the stack ends with the bottom bit. */
  datatype VpnRoute = VpnRoute(labels: seq<MplsLabel>, marked: bool, rd: Rd, addr: seq<Byte>, plen: nat) {
    predicate Valid() {
      && labels != [] && (forall l | l in labels :: l.Valid())
      && rd.Valid() && |addr| == 4 && plen <= 32
      && Bits() <= 255
    }

    function Bits(): nat { 24 * |labels| + 64 + plen }

    /** No octet beyond the prefix length is set. */
    predicate Canonical()
      requires |addr| == 4
    {
      forall i | Octets(plen) <= i < 4 :: addr[i] == 0
    }

    /** What it takes for the decoder to give the route back. */
    predicate Readable()
      requires |addr| == 4
    {
      marked && Canonical()
    }

    /** Everything after the length octet. */
    ghost function Data(): (b: seq<Byte>)
      requires Valid()
      ensures |b| == 3 * |labels| + 8 + Octets(plen)
    {
      EncodeLabels(labels, marked) + rd.Encode() + addr[..Octets(plen)]
    }

    ghost function Encode(): (b: seq<Byte>)
      requires Valid()
      ensures |b| == 1 + 3 * |labels| + 8 + Octets(plen)
    {
      [Bits()] + Data()
    }

    ghost function Decoded(): VpnPrefix
      requires Valid()
    {
      VpnPrefix(rd.AsText(), Dotted(addr) + "/" + Decimal(plen), labels[|labels| - 1].value, |Encode()|)
    }
  }

  /** The octets beyond the prefix length are not on the wire, so the address text comes back only when they are
      zero. */
  ghost function MarkedReading(r: VpnRoute): VpnPrefix
    requires r.Valid()
  {
    VpnPrefix(r.rd.AsText(), Dotted(Padded(r.addr[..Octets(r.plen)])) + "/" + Decimal(r.plen),
              r.labels[|r.labels| - 1].value, |r.Encode()|)
  }

  /** What is made of a route without the bottom bit, of distinguisher `b` and address octets `tail`. The scan takes
      three octets of the distinguisher for a label, or more, and then there must be eight octets left. */
  function Misread(b: seq<Byte>, tail: seq<Byte>, plen: nat, size: nat): VpnPrefix
    requires |b| == 8
  {
    if |tail| < 3 || b[2] % 2 == 0 then NO_PREFIX
    else VpnPrefix(FormatRD(b[3..] + tail[..3]),
                   Dotted(Padded(tail[3..])) + "/" + Decimal(if plen < 24 then 0 else plen - 24), LabelAt(b, 0), size)
  }

  ghost function UnmarkedReading(r: VpnRoute): VpnPrefix
    requires r.Valid()
  {
    Misread(r.rd.Encode(), r.addr[..Octets(r.plen)], r.plen, |r.Encode()|)
  }

  /** How the route at the front of a list is decoded, and that it is given back if and only if its stack is
      marked and its address is canonical. */
  lemma {:induction false} VpnRouteRoundTrip(r: VpnRoute, rest: seq<Byte>)
    requires r.Valid()
    ensures VpnFront(r.Encode() + rest) == if r.marked then MarkedReading(r) else UnmarkedReading(r)
    ensures VpnFront(r.Encode() + rest) == r.Decoded() <==> r.Readable()
  {
    VpnRouteLayout(r, rest);
    if r.marked {
      MarkedIsRead(r);
      PrefixTextDecides(r);
    } else {
      UnmarkedIsMisread(r);
      if UnmarkedReading(r) != NO_PREFIX {
        PrefixTextShowsLength(r.addr[..Octets(r.plen)][3..], if r.plen < 24 then 0 else r.plen - 24, r.addr, r.plen);
      }
    }
  }

  lemma {:induction false} MarkedIsRead(r: VpnRoute)
    requires r.Valid() && r.marked
    ensures VpnOf(r.Data(), r.Bits()) == MarkedReading(r)
  {
    var n, data := 3 * |r.labels|, r.Data();
    assert data[0..n] == EncodeLabels(r.labels, true);
    LabelsRoundTrip(data, 0, r.labels, true, 0);
    ReadBehind(data, r.Bits(), r.labels[|r.labels| - 1].value, n);
    assert data[n..n + 8] == r.rd.Encode();
    FormatUndoesEncode(r.rd);
    assert data[n + 8..] == r.addr[..Octets(r.plen)];
  }

  lemma {:induction false} UnmarkedIsMisread(r: VpnRoute)
    requires r.Valid() && !r.marked
    ensures VpnOf(r.Data(), r.Bits()) == UnmarkedReading(r)
  {
    UnmarkedScan(r);
    MisreadFrom(r.Data(), 3 * |r.labels|, r.rd.Encode(), r.addr[..Octets(r.plen)], r.plen,
        r.labels[|r.labels| - 1].value);
  }

  lemma {:induction false} UnmarkedScan(r: VpnRoute)
    requires r.Valid() && !r.marked
    ensures var n, data := 3 * |r.labels|, r.Data();
            && ScanLabels(data, 0, 0) == ScanLabels(data, n, r.labels[|r.labels| - 1].value)
            && data[n..] == r.rd.Encode() + r.addr[..Octets(r.plen)]
  {
    var n, data := 3 * |r.labels|, r.Data();
    assert data[0..n] == EncodeLabels(r.labels, false);
    LabelsRoundTrip(data, 0, r.labels, false, 0);
  }

  lemma {:induction false} MisreadFrom(data: seq<Byte>, n: nat, b: seq<Byte>, tail: seq<Byte>, plen: nat, last: nat)
    requires |b| == 8 && |tail| <= 4 && |data| == n + 8 + |tail| && data[n..] == b + tail
    requires ScanLabels(data, 0, 0) == ScanLabels(data, n, last)
    ensures VpnOf(data, 8 * n + 64 + plen) == Misread(b, tail, plen, 1 + |data|)
  {
    ScanIntoDistinguisher(data, n, b, tail, last);
    var (mpls, i) := ScanLabels(data, 0, 0);
    ReadBehind(data, 8 * n + 64 + plen, mpls, i);
  }

  /** What stands behind the labels is read as a distinguisher and an address. */
  lemma {:induction false} ReadBehind(data: seq<Byte>, bits: nat, mpls: nat, i: nat)
    requires ScanLabels(data, 0, 0) == (mpls, i)
    ensures i + 8 > |data| ==> VpnOf(data, bits) == NO_PREFIX
    ensures i + 8 <= |data| ==>
              VpnOf(data, bits) ==
              VpnPrefix(FormatRD(data[i..i + 8]), Dotted(Padded(data[i + 8..])) + "/" +
                  Decimal(if bits < (i + 8) * 8 then 0 else bits - (i + 8) * 8),
                        mpls, 1 + |data|)
  {
  }

  lemma {:induction false} ScanIntoDistinguisher(data: seq<Byte>, n: nat, b: seq<Byte>, tail: seq<Byte>, last: nat)
    requires |b| == 8 && |tail| <= 4 && |data| == n + 8 + |tail| && data[n..] == b + tail
    ensures var (mpls, i) := ScanLabels(data, n, last);
            && (b[2] % 2 == 0 ==> i >= n + 6)
            && (b[2] % 2 == 1 ==> i == n + 3 && mpls == LabelAt(b, 0))
    ensures |tail| >= 3 ==> data[n + 3..n + 11] == b[3..] + tail[..3] && data[n + 11..] == tail[3..]
  {
    assert data[n] == b[0] && data[n + 1] == b[1] && data[n + 2] == b[2] by {
      assert data[n..][0] == b[0] && data[n..][1] == b[1] && data[n..][2] == b[2];
    }
    if |tail| >= 3 {
      assert data[n + 3..n + 11] == (b + tail)[3..11];
      assert data[n + 11..] == (b + tail)[11..];
    }
  }

  /** The length is part of the text. */
  lemma {:induction false} PrefixTextShowsLength(a: seq<Byte>, m: nat, b: seq<Byte>, n: nat)
    requires |b| == 4 && m != n
    ensures Dotted(Padded(a)) + "/" + Decimal(m) != Dotted(b) + "/" + Decimal(n)
  {
    DottedAvoids(Padded(a), '/');
    DottedAvoids(b, '/');
    var s, t := Dotted(Padded(a)), Dotted(b);
    if s + "/" + Decimal(m) == t + "/" + Decimal(n) {
      BeforeSeparator(s, '/', Decimal(m));
      BeforeSeparator(t, '/', Decimal(n));
      assert (s + "/" + Decimal(m))[|s| + 1..] == Decimal(m) && (t + "/" + Decimal(n))[|t| + 1..] == Decimal(n);
      DecimalInjective(m, n);
    }
  }

  lemma {:induction false} VpnRouteLayout(r: VpnRoute, rest: seq<Byte>)
    requires r.Valid()
    ensures VpnFront(r.Encode() + rest) == VpnOf(r.Data(), r.Bits())
  {
    var p := r.Encode() + rest;
    assert p[0] == r.Bits();
    assert (r.Bits() + 7) / 8 == |r.Data()|;
    assert p[1..1 + |r.Data()|] == r.Data();
  }

  lemma {:induction false} PrefixTextDecides(r: VpnRoute)
    requires r.Valid()
    ensures var read := Padded(r.addr[..Octets(r.plen)]);
            Dotted(read) + "/" + Decimal(r.plen) == Dotted(r.addr) + "/" + Decimal(r.plen) <==> r.Canonical()
  {
    var ip, tail := Padded(r.addr[..Octets(r.plen)]), "/" + Decimal(r.plen);
    if r.Canonical() {
      assert ip == r.addr;
    }
    if Dotted(ip) + tail == Dotted(r.addr) + tail {
      assert (Dotted(ip) + tail)[..|Dotted(ip)|] == Dotted(ip);
      assert (Dotted(r.addr) + tail)[..|Dotted(r.addr)|] == Dotted(r.addr);
      DottedInjective(ip, r.addr);
    }
    assert Dotted(ip) + "/" + Decimal(r.plen) == Dotted(ip) + tail;
    assert Dotted(r.addr) + "/" + Decimal(r.plen) == Dotted(r.addr) + tail;
  }

  // ---- lists of them ----

  /** The decoded prefixes of a list, and the bytes at which decoding stopped. */
  function VpnList(p: seq<Byte>): (seq<VpnPrefix>, seq<Byte>)
    decreases |p|
  {
    var r := VpnFront(p);
    if |p| == 0 || r.consumed == 0 then ([], p)
    else
      var (more, rest) := VpnList(p[r.consumed..]);
      ([r] + more, rest)
  }

  ghost function EncodeRoutes(rs: seq<VpnRoute>): seq<Byte>
    requires forall r | r in rs :: r.Valid()
  {
    if rs == [] then []
    else
      assert rs[0] in rs;
      rs[0].Encode() + EncodeRoutes(rs[1..])
  }

  ghost function AllDecoded(rs: seq<VpnRoute>): (ds: seq<VpnPrefix>)
    requires forall r | r in rs :: r.Valid()
    ensures |ds| == |rs|
  {
    if rs == [] then []
    else
      assert rs[0] in rs;
      [rs[0].Decoded()] + AllDecoded(rs[1..])
  }

  ghost predicate AllReadable(rs: seq<VpnRoute>) {
    forall r | r in rs :: |r.addr| == 4 && r.Readable()
  }

  /** Decoding an encoded list yields exactly its routes, in order, and consumes every byte,
      if and only if every route is readable. */
  lemma {:induction false} VpnListRoundTrip(rs: seq<VpnRoute>)
    requires forall r | r in rs :: r.Valid()
    ensures VpnList(EncodeRoutes(rs)).0 == AllDecoded(rs) <==> AllReadable(rs)
    ensures AllReadable(rs) ==> VpnList(EncodeRoutes(rs)).1 == []
  {
    if rs != [] {
      var r, more := rs[0], rs[1..];
      assert r in rs;
      VpnListRoundTrip(more);
      VpnListStep(r, EncodeRoutes(more), AllDecoded(more));
      ReadableStep(rs);
    }
  }

  lemma {:induction false} ReadableStep(rs: seq<VpnRoute>)
    requires rs != [] && |rs[0].addr| == 4
    ensures AllReadable(rs) <==> rs[0].Readable() && AllReadable(rs[1..])
  {
    assert rs == [rs[0]] + rs[1..];
  }

  lemma {:induction false} VpnListStep(r: VpnRoute, rest: seq<Byte>, ds: seq<VpnPrefix>)
    requires r.Valid()
    ensures VpnList(r.Encode() + rest).0 == [r.Decoded()] + ds <==> r.Readable() && VpnList(rest).0 == ds
    ensures r.Readable() ==> VpnList(r.Encode() + rest).1 == VpnList(rest).1
  {
    FrontOfList(r, rest);
    VpnRouteRoundTrip(r, rest);
    var d := VpnFront(r.Encode() + rest);
    if d != NO_PREFIX {
      var more := VpnList(rest).0;
      assert ([d] + more)[0] == d && ([d] + more)[1..] == more;
      assert ([r.Decoded()] + ds)[0] == r.Decoded() && ([r.Decoded()] + ds)[1..] == ds;
    }
  }

  /** A list goes on behind a route that was taken for some prefix, and ends at one that was not. */
  lemma {:induction false} FrontOfList(r: VpnRoute, rest: seq<Byte>)
    requires r.Valid()
    ensures var d, p := VpnFront(r.Encode() + rest), r.Encode() + rest;
            VpnList(p) == if d == NO_PREFIX then ([], p) else ([d] + VpnList(rest).0, VpnList(rest).1)
  {
    VpnRouteRoundTrip(r, rest);
    assert (r.Encode() + rest)[|r.Encode()|..] == rest;
  }

  /** Where a route without the bottom bit is not taken for a prefix, it and everything behind it is lost. */
  lemma {:induction false} ListStopsAt(good: seq<VpnRoute>, bad: VpnRoute, rest: seq<Byte>)
    requires (forall r | r in good :: r.Valid() && r.Readable()) && bad.Valid() && !bad.marked &&
             UnmarkedReading(bad) == NO_PREFIX
    ensures VpnList(EncodeRoutes(good) + (bad.Encode() + rest)) == (AllDecoded(good), bad.Encode() + rest)
  {
    var lost := bad.Encode() + rest;
    if good == [] {
      FrontOfList(bad, rest);
      VpnRouteRoundTrip(bad, rest);
      assert [] + lost == lost;
    } else {
      assert good[0] in good;
      ListStopsAt(good[1..], bad, rest);
      ReadableFront(good[0], EncodeRoutes(good[1..]) + lost);
      assert EncodeRoutes(good) + lost == good[0].Encode() + (EncodeRoutes(good[1..]) + lost);
    }
  }

  lemma {:induction false} ReadableFront(r: VpnRoute, rest: seq<Byte>)
    requires r.Valid() && r.Readable()
    ensures VpnList(r.Encode() + rest) == ([r.Decoded()] + VpnList(rest).0, VpnList(rest).1)
  {
    FrontOfList(r, rest);
    VpnRouteRoundTrip(r, rest);
  }

  // ---- withdrawals ----

  /** A withdrawal as section 2.4 of RFC 8277 asks for: the three octets 0x800000 in place of a label. */
  function CompatibleWithdrawal(rd: Rd, addr: seq<Byte>, plen: nat): (r: VpnRoute)
    requires rd.Valid() && |addr| == 4 && plen <= 32
    ensures r.Valid() && !r.marked
  {
    VpnRoute([MplsLabel(0x80000, 0)], false, rd, addr, plen)
  }

  lemma {:induction false} CompatibleWithdrawalBytes(rd: Rd, addr: seq<Byte>, plen: nat)
    requires rd.Valid() && |addr| == 4 && plen <= 32
    ensures CompatibleWithdrawal(rd, addr, plen).Encode() ==
            [88 + plen, 0x80, 0, 0] + rd.Encode() + addr[..Octets(plen)]
  {
    var r := CompatibleWithdrawal(rd, addr, plen);
    assert r.labels[1..] == [];
    U24BeIsInjective(r.labels[0].Encode(false), [0x80, 0, 0]);
    assert EncodeLabels(r.labels, false) == [0x80, 0, 0] + [];
  }

  /** Two of them, for 65000:1. Of 10.1.2.0/24 three octets of the distinguisher are taken for a label and the rest for
      0.0.0.0/0; 10.1.0.0/16 is not taken for a prefix at all. */
  lemma {:induction false} CompatibleWithdrawalsAreMisread(rest: seq<Byte>)
    ensures VpnFront(CompatibleWithdrawal(As2(65000, 1), [10, 1, 2, 0], 24).Encode() + rest).prefix ==
            Dotted([0, 0, 0, 0]) + "/" + Decimal(0)
    ensures VpnFront(CompatibleWithdrawal(As2(65000, 1), [10, 1, 0, 0], 16).Encode() + rest) == NO_PREFIX
  {
    var long, short := CompatibleWithdrawal(As2(65000, 1), [10, 1, 2, 0], 24),
        CompatibleWithdrawal(As2(65000, 1), [10, 1, 0, 0], 16);
    VpnRouteRoundTrip(long, rest);
    VpnRouteRoundTrip(short, rest);
    U16BeIsInjective(PutU16Be(65000), [0xFD, 0xE8]);
    assert long.rd.Encode()[2] == 0xFD;
    assert Padded(long.addr[..3][3..]) == [0, 0, 0, 0];
  }

  // ---- EVPN ----

  /** A decoded EVPN route. Addresses are kept as bytes; none is the empty sequence. */
  datatype EvpnRoute =
    | MacRoute(rd: string, mac: seq<Byte>, ip: seq<Byte>)
    | ImetRoute(rd: string, ip: seq<Byte>)
    | PrefixRoute(rd: string, ip: seq<Byte>, plen: nat)

  /** An address of v[at] bits that follows `at`, if it is there. */
  function AddressAfter(v: seq<Byte>, at: nat): seq<Byte>
    requires at < |v|
  {
    var n := v[at] / 8;
    if n > 0 && at + 1 + n <= |v| then v[at + 1..at + 1 + n] else []
  }

  function DecodeEvpn(rtype: Byte, v: seq<Byte>): seq<EvpnRoute> {
    if rtype == 2 then
      if |v| < 30 then [] else [MacRoute(FormatRD(v[0..8]), v[23..29], AddressAfter(v, 29))]
    else if rtype == 3 then
      if |v| < 13 then [] else [ImetRoute(FormatRD(v[0..8]), AddressAfter(v, 12))]
    else if rtype == 5 then
      if |v| < 23 then []
      else
        var rest := v[23..];
        var n := if |rest| >= 35 || v[22] > 32 then 16 else 4;
        if |rest| < n then [] else [PrefixRoute(FormatRD(v[0..8]), rest[..n], v[22])]
    else []
  }

  /** The routes of an EVPN list, and the bytes at which decoding stopped. */
  function EvpnList(p: seq<Byte>): (seq<EvpnRoute>, seq<Byte>)
    decreases |p|
  {
    if |p| < 2 || p[1] == 0 || |p| < 2 + p[1] as int then ([], p)
    else
      var n := 2 + p[1] as int;
      var (more, rest) := EvpnList(p[n..]);
      (DecodeEvpn(p[0], p[2..n]) + more, rest)
  }

  /** EVPN routes as section 7 of RFC 7432 and section 3.1 of RFC 9136 lay them out.
      `Unknown` is any route type the decoder does not handle. */
  datatype EvpnMessage =
    | MacMessage(rd: Rd, esiTag: seq<Byte>, macLen: Byte, mac: seq<Byte>, ip: seq<Byte>, labels: seq<Byte>)
    | ImetMessage(rd: Rd, tag: seq<Byte>, ip: seq<Byte>)
    | PrefixMessage(rd: Rd, esiTag: seq<Byte>, plen: Byte, ip: seq<Byte>, gw: seq<Byte>, mpls: seq<Byte>)
    | Unknown(rtype: Byte, value: seq<Byte>)
  {
    predicate Valid() {
      match this
      case MacMessage(rd, esiTag, _, mac, ip, labels) =>
        rd.Valid() && |esiTag| == 14 && |mac| == 6 && |ip| in {0, 4, 16} && |labels| in {3, 6}
      case ImetMessage(rd, tag, ip) => rd.Valid() && |tag| == 4 && |ip| in {4, 16}
      case PrefixMessage(rd, esiTag, plen, ip, gw, mpls) =>
        rd.Valid() && |esiTag| == 14 && |mpls| == 3 && |gw| == |ip| &&
        ((|ip| == 4 && plen <= 32) || (|ip| == 16 && plen <= 128))
      case Unknown(rtype, value) => rtype !in {2, 3, 5} && 0 < |value| < 0x100
    }

    function RouteType(): Byte {
      match this
      case MacMessage(_, _, _, _, _, _) => 2
      case ImetMessage(_, _, _) => 3
      case PrefixMessage(_, _, _, _, _, _) => 5
      case Unknown(rtype, _) => rtype
    }

    ghost function Value(): (v: seq<Byte>)
      requires Valid()
      ensures 0 < |v| < 0x100
    {
      match this
      case MacMessage(rd, esiTag, macLen, mac, ip, labels) =>
        rd.Encode() + esiTag + [macLen] + mac + [|ip| * 8] + ip + labels
      case ImetMessage(rd, tag, ip) => rd.Encode() + tag + [|ip| * 8] + ip
      case PrefixMessage(rd, esiTag, plen, ip, gw, mpls) => rd.Encode() + esiTag + [plen] + ip + gw + mpls
      case Unknown(_, value) => value
    }

    ghost function Encode(): (b: seq<Byte>)
      requires Valid()
    {
      [RouteType(), |Value()|] + Value()
    }

    function Decoded(): seq<EvpnRoute> {
      match this
      case MacMessage(rd, _, _, mac, ip, _) => [MacRoute(rd.AsText(), mac, ip)]
      case ImetMessage(rd, _, ip) => [ImetRoute(rd.AsText(), ip)]
      case PrefixMessage(rd, _, plen, ip, _, _) => [PrefixRoute(rd.AsText(), ip, plen)]
      case Unknown(_, _) => []
    }
  }

  lemma {:induction false} EvpnRoundTrip(m: EvpnMessage)
    requires m.Valid()
    ensures DecodeEvpn(m.RouteType(), m.Value()) == m.Decoded()
  {
    match m
    case Unknown(_, _) =>
    case MacMessage(_, _, _, _, _, _) => MacRoundTrip(m);
    case ImetMessage(_, _, _) => ImetRoundTrip(m);
    case PrefixMessage(_, _, _, _, _, _) => PrefixRoundTrip(m);
  }

  lemma {:induction false} MacLayout(m: EvpnMessage)
    requires m.Valid() && m.MacMessage?
    ensures var v := m.Value();
            && |v| >= 30 + |m.ip| && v[0..8] == m.rd.Encode() && v[23..29] == m.mac
            && v[29] == |m.ip| * 8 && v[30..30 + |m.ip|] == m.ip
  {
  }

  lemma {:induction false} MacRoundTrip(m: EvpnMessage)
    requires m.Valid() && m.MacMessage?
    ensures DecodeEvpn(2, m.Value()) == m.Decoded()
  {
    MacLayout(m);
    FormatUndoesEncode(m.rd);
  }

  lemma {:induction false} ImetLayout(m: EvpnMessage)
    requires m.Valid() && m.ImetMessage?
    ensures var v := m.Value();
            |v| >= 13 + |m.ip| && v[0..8] == m.rd.Encode() && v[12] == |m.ip| * 8 && v[13..13 + |m.ip|] == m.ip
  {
  }

  lemma {:induction false} ImetRoundTrip(m: EvpnMessage)
    requires m.Valid() && m.ImetMessage?
    ensures DecodeEvpn(3, m.Value()) == m.Decoded()
  {
    ImetLayout(m);
    FormatUndoesEncode(m.rd);
  }

  lemma {:induction false} PrefixLayout(m: EvpnMessage)
    requires m.Valid() && m.PrefixMessage?
    ensures var v := m.Value();
            && |v| == 26 + 2 * |m.ip| && v[0..8] == m.rd.Encode() && v[22] == m.plen && v[23..][..|m.ip|] == m.ip
  {
  }

  lemma {:induction false} PrefixRoundTrip(m: EvpnMessage)
    requires m.Valid() && m.PrefixMessage?
    ensures DecodeEvpn(5, m.Value()) == m.Decoded()
  {
    PrefixLayout(m);
    FormatUndoesEncode(m.rd);
  }

  ghost function EncodeMessages(ms: seq<EvpnMessage>): seq<Byte>
    requires forall m | m in ms :: m.Valid()
  {
    if ms == [] then []
    else
      assert ms[0] in ms;
      ms[0].Encode() + EncodeMessages(ms[1..])
  }

  function AllRoutes(ms: seq<EvpnMessage>): seq<EvpnRoute> {
    if ms == [] then [] else ms[0].Decoded() + AllRoutes(ms[1..])
  }

  /** Decoding an encoded EVPN list yields exactly the routes of known type, in order, and consumes every byte. */
  lemma {:induction false} EvpnListRoundTrip(ms: seq<EvpnMessage>)
    requires forall m | m in ms :: m.Valid()
    ensures EvpnList(EncodeMessages(ms)) == (AllRoutes(ms), [])
  {
    if ms != [] {
      assert ms[0] in ms;
      var p, v := EncodeMessages(ms), ms[0].Value();
      EvpnListRoundTrip(ms[1..]);
      EvpnRoundTrip(ms[0]);
      assert p[2..2 + |v|] == v && p[2 + |v|..] == EncodeMessages(ms[1..]);
    }
  }
}
