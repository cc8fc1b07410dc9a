/** UPDATE messages written out octet by octet, and what is reported of them. */
module BgpMessages {
  import opened Wrappers
  import opened Text
  import opened Bytes
  import opened RouteText
  import opened Nlri
  import opened BgpUpdate

  // ---- numbers and addresses in text ----

  lemma {:induction false} OneDigit(d: nat)
    requires d < 10
    ensures Decimal(d) == ['0' + d as char]
  {
  }

  lemma {:induction false} MoreDigits(n: nat, d: nat)
    requires n > 0 && d < 10
    ensures Decimal(10 * n + d) == Decimal(n) + ['0' + d as char]
  {
  }

  lemma {:induction false} TextOf65000()
    ensures Decimal(65000) == "65000"
  {
    OneDigit(6);
    MoreDigits(6, 5);
    MoreDigits(65, 0);
    MoreDigits(650, 0);
    MoreDigits(6500, 0);
  }

  lemma {:induction false} TextOf65536()
    ensures Decimal(65536) == "65536"
  {
    OneDigit(6);
    MoreDigits(6, 5);
    MoreDigits(65, 5);
    MoreDigits(655, 3);
    MoreDigits(6553, 6);
  }

  lemma {:induction false} ShortTexts()
    ensures Decimal(0) == "0" && Decimal(1) == "1" && Decimal(2) == "2" && Decimal(7) == "7"
    ensures Decimal(10) == "10" && Decimal(24) == "24" && Decimal(100) == "100"
  {
    MoreDigits(1, 0);
    MoreDigits(2, 4);
    MoreDigits(10, 0);
  }

  lemma {:induction false} AddressText(a: Byte, b: Byte, c: Byte, d: Byte)
    ensures Dotted([a, b, c, d]) == Decimal(a) + "." + (Decimal(b) + "." + (Decimal(c) + "." + Decimal(d)))
  {
    var parts := Decimals([a, b, c, d]);
    assert parts == [Decimal(a), Decimal(b), Decimal(c), Decimal(d)];
    assert parts[1..] == [Decimal(b), Decimal(c), Decimal(d)];
    assert parts[1..][1..] == [Decimal(c), Decimal(d)];
    assert parts[1..][1..][1..] == [Decimal(d)];
    assert Join(parts[1..][1..], ".") == Decimal(c) + "." + Decimal(d);
    assert Join(parts[1..], ".") == Decimal(b) + "." + (Decimal(c) + "." + Decimal(d));
  }

  lemma {:induction false} AddressTexts()
    ensures Dotted([10, 0, 0, 1]) == "10.0.0.1" && Dotted([10, 1, 2, 0]) == "10.1.2.0"
  {
    ShortTexts();
    AddressText(10, 0, 0, 1);
    AddressText(10, 1, 2, 0);
    assert "10" + "." + ("0" + "." + ("0" + "." + "1")) == "10.0.0.1";
    assert "10" + "." + ("1" + "." + ("2" + "." + "0")) == "10.1.2.0";
  }

  // ---- distinguishers and targets ----

  /** Type 0: an AS number of two octets. */
  lemma {:induction false} TypeZero()
    ensures FormatRD([0, 0] + [0xFD, 0xE8, 0, 0, 0, 100]) == "65000:100"
  {
    var b: seq<Byte> := [0, 0] + [0xFD, 0xE8, 0, 0, 0, 100];
    assert b[0..2] == [0, 0] && b[2..4] == [0xFD, 0xE8] && b[4..8] == [0, 0, 0, 100];
    assert U32Be(b[4..8]) == 100;
    ShortTexts();
    TextOf65000();
    assert "65000" + ":" + "100" == "65000:100";
  }

  /** Type 1: an IPv4 address. */
  lemma {:induction false} TypeOne()
    ensures FormatRD([0, 1] + [10, 0, 0, 1, 0, 7]) == "10.0.0.1:7"
  {
    var b: seq<Byte> := [0, 1] + [10, 0, 0, 1, 0, 7];
    assert b[0..2] == [0, 1] && b[2..6] == [10, 0, 0, 1] && b[6..8] == [0, 7];
    ShortTexts();
    AddressTexts();
    assert "10.0.0.1" + ":" + "7" == "10.0.0.1:7";
  }

  /** Type 2: an AS number of four octets. */
  lemma {:induction false} TypeTwo()
    ensures FormatRD([0, 2] + [0, 1, 0, 0, 0, 7]) == "65536:7"
  {
    var b: seq<Byte> := [0, 2] + [0, 1, 0, 0, 0, 7];
    assert b[0..2] == [0, 2] && b[2..6] == [0, 1, 0, 0] && b[6..8] == [0, 7];
    assert U32Be(b[2..6]) == 65536;
    ShortTexts();
    TextOf65536();
    assert "65536" + ":" + "7" == "65536:7";
  }

  /** A route target of subtype 2 says what the distinguisher of its type and body says. */
  lemma {:induction false} TargetReadsLikeDistinguisher(kind: Byte, body: seq<Byte>)
    requires kind <= 2 && |body| == 6
    ensures TargetText([kind, 2] + body) == [FormatRD([0, kind] + body)]
  {
    var c, b := [kind, 2] + body, [0, kind] + body;
    assert b[0..2] == [0, kind];
    assert c[2..4] == b[2..4] && c[4..8] == b[4..8] && c[2..6] == b[2..6] && c[6..8] == b[6..8];
  }

  /** Targets of all three types are found; communities of another subtype or type are not, and a cut one ends
      the list. */
  lemma {:induction false} TargetsFromOctets(other: seq<Byte>, cut: seq<Byte>)
    requires |other| == 8 && (other[1] != 2 || other[0] > 2) && |cut| < 8
    ensures RouteTargets([0, 2] + [0xFD, 0xE8, 0, 0, 0, 100] + (other + ([1, 2] + [10, 0, 0, 1, 0, 7] +
                         ([2, 2] + [0, 1, 0, 0, 0, 7] + cut)))) ==
            ["65000:100", "10.0.0.1:7", "65536:7"]
  {
    TypeZero();
    TypeOne();
    TypeTwo();
    TargetReadsLikeDistinguisher(0, [0xFD, 0xE8, 0, 0, 0, 100]);
    TargetReadsLikeDistinguisher(1, [10, 0, 0, 1, 0, 7]);
    TargetReadsLikeDistinguisher(2, [0, 1, 0, 0, 0, 7]);
    ListOfTargets([0, 2] + [0xFD, 0xE8, 0, 0, 0, 100], other, [1, 2] + [10, 0, 0, 1, 0, 7],
                  [2, 2] + [0, 1, 0, 0, 0, 7], cut);
  }

  lemma {:induction false} ListOfTargets(a: seq<Byte>, other: seq<Byte>, b: seq<Byte>, c: seq<Byte>, cut: seq<Byte>)
    requires |a| == |b| == |c| == |other| == 8 && TargetText(other) == [] && |cut| < 8
    ensures RouteTargets(a + (other + (b + (c + cut)))) == TargetText(a) + (TargetText(b) + TargetText(c))
  {
    NextTarget(c, cut);
    NextTarget(b, c + cut);
    NextTarget(other, b + (c + cut));
    NextTarget(a, other + (b + (c + cut)));
  }

  lemma {:induction false} NextTarget(c: seq<Byte>, rest: seq<Byte>)
    requires |c| == 8
    ensures RouteTargets(c + rest) == TargetText(c) + RouteTargets(rest)
  {
    assert (c + rest)[..8] == c && (c + rest)[8..] == rest;
  }

  // ---- an announcement ----

  /** 10.1.2.0/24 of 65000:100 with label 17. */
  const ROUTE: seq<Byte> := [112, 0x00, 0x01, 0x11, 0, 0, 0xFD, 0xE8, 0, 0, 0, 100, 10, 1, 2]

  lemma {:induction false} RouteDataFromOctets()
    ensures VpnOf(ROUTE[1..], 112) == VpnPrefix("65000:100", "10.1.2.0/24", 17, 15)
  {
    var data := ROUTE[1..];
    assert data == [0x00, 0x01, 0x11, 0, 0, 0xFD, 0xE8, 0, 0, 0, 100, 10, 1, 2];
    assert ScanLabels(data, 0, 0) == (17, 3);
    assert Padded(data[11..]) == [10, 1, 2, 0];
    assert data[3..11] == [0, 0] + [0xFD, 0xE8, 0, 0, 0, 100];
    TypeZero();
    ReadBehind(data, 112, 17, 3);
    assert Dotted([10, 1, 2, 0]) + "/" + Decimal(24) == "10.1.2.0/24" by {
      ShortTexts();
      AddressTexts();
    }
  }

  lemma {:induction false} RouteFromOctets()
    ensures VpnList(ROUTE).0 == [VpnPrefix("65000:100", "10.1.2.0/24", 17, 15)]
  {
    RouteDataFromOctets();
    assert |ROUTE| == 15 && ROUTE[0] == 112 && ROUTE[1..15] == ROUTE[1..] && ROUTE[15..] == [];
    ListOfOne(ROUTE);
  }

  lemma {:induction false} ListOfOne(p: seq<Byte>)
    requires p != [] && |p| == 1 + (p[0] as int + 7) / 8 && VpnOf(p[1..], p[0]).consumed == |p|
    ensures VpnList(p).0 == [VpnOf(p[1..], p[0])]
  {
    assert p[1..|p|] == p[1..];
    assert VpnFront(p) == VpnOf(p[1..], p[0]);
    assert p[|p|..] == [] && VpnList([]).0 == [];
  }

  /** An announcement of address family 1, subsequent family 128: a next hop of twelve octets, eight of them zero, an
      octet that is skipped, and the list. */
  function ReachOctets(addr: seq<Byte>, list: seq<Byte>): seq<Byte> {
    [0, 1, 128, 12] + (Zeros(8) + addr) + [0] + list
  }

  lemma {:induction false} ReachFromOctets(addr: seq<Byte>, list: seq<Byte>, rts: seq<string>)
    requires |addr| == 4
    ensures ReportsOf(ReachOctets(addr, list), rts, false) == VpnReports(VpnList(list).0, Some(addr), rts, false)
  {
    SixteenBits(1);
    NextHopIsRead(Zeros(8), addr);
    VpnValueIsReported(list, Zeros(8) + addr, rts);
    assert ReachOctets(addr, list) == ReachValue(1, 128, Zeros(8) + addr, list);
  }

  lemma {:induction false} UnreachFromOctets(list: seq<Byte>)
    ensures ReportsOf([0, 1, 128] + list, [], true) == VpnReports(VpnList(list).0, None, [], true)
  {
    SixteenBits(1);
    UnreachRoundTrip(1, 128, list, true);
    assert [0, 1, 128] + list == UnreachValue(1, 128, list);
  }

  /** The marker, a message length, and the type 2. */
  function Header(len: Byte): seq<Byte> {
    seq(16, _ => 0xFF) + [0, len, 2]
  }

  /** A message with these attributes and nothing else. */
  function MessageOctets(len: Byte, attrs: seq<Byte>): seq<Byte>
    requires |attrs| < 256
  {
    Header(len) + [0, 0, 0, |attrs|] + attrs
  }

  lemma {:induction false} Flat(header: seq<Byte>, n: Byte, attrs: seq<Byte>)
    ensures header + ([0, 0] + ([] + ([0, n] + (attrs + [])))) == header + [0, 0, 0, n] + attrs
  {
    assert [0, 0] + ([] + ([0, n] + (attrs + []))) == [0, 0, 0, n] + attrs;
  }

  lemma {:induction false} MessageIsEncoded(u: Update, len: Byte)
    requires u.Valid() && u.header == Header(len) && u.withdrawn == [] && u.nlri == [] && |EncodeAttrs(u.attrs)| < 256
    ensures u.Encode() == MessageOctets(len, EncodeAttrs(u.attrs))
  {
    var b := EncodeAttrs(u.attrs);
    SixteenBits(0);
    SixteenBits(|b|);
    Flat(Header(len), |b|, b);
  }

  lemma {:induction false} MessageIsRead(len: Byte, attrs: seq<PathAttr>)
    requires (forall a | a in attrs :: a.Valid()) && |EncodeAttrs(attrs)| < 256
    ensures Reports(MessageOctets(len, EncodeAttrs(attrs))) == ReportsOfAttrs(attrs)
  {
    var u := Update(Header(len), [], attrs, []);
    UpdateRoundTrip(u);
    MessageIsEncoded(u, len);
  }

  lemma {:induction false} ThreeAttributes(a: PathAttr, b: PathAttr, c: PathAttr)
    requires a.Valid() && b.Valid() && c.Valid()
    ensures EncodeAttrs([a, b, c]) == a.Encode() + (b.Encode() + c.Encode())
  {
    var all := [a, b, c];
    assert all[1..] == [b, c] && [b, c][1..] == [c] && [c][1..] == [];
    assert EncodeAttrs([c]) == c.Encode() + [];
    assert EncodeAttrs([b, c]) == b.Encode() + EncodeAttrs([c]);
  }

  lemma {:induction false} LastOfThree(a: PathAttr, b: PathAttr, c: PathAttr, atype: nat)
    ensures LastValue([a, b, c], atype) ==
            if c.atype == atype then Some(c.value) else if b.atype == atype then Some(b.value)
            else if a.atype == atype then Some(a.value) else None
  {
    assert [a, b, c][..2] == [a, b] && [a, b][..1] == [a] && [a][..0] == [];
    assert LastValue([a], atype) == if a.atype == atype then Some(a.value) else None;
    assert LastValue([a, b], atype) == if b.atype == atype then Some(b.value) else LastValue([a], atype);
  }

  /** An attribute of up to 255 octets, with one octet of length or with two. */
  lemma {:induction false} AttributeOctets(flags: Byte, atype: Byte, value: seq<Byte>)
    requires |value| < 256
    ensures PathAttr(flags, atype, value).Encode() ==
            (if flags / 16 % 2 == 1 then [flags, atype, 0, |value|] else [flags, atype, |value|]) + value
  {
    SixteenBits(|value|);
    assert [flags, atype] + [0, |value|] == [flags, atype, 0, |value|];
    assert [flags, atype] + [|value|] == [flags, atype, |value|];
  }

  /** 14 and 15 are the multiprotocol attributes, and 16 goes with 14 only. */
  lemma {:induction false} ThreeAreReported(a: PathAttr, b: PathAttr, c: PathAttr)
    requires a.atype == 1 && b.atype in {14, 15} && c.atype == 16
    ensures ReportsOfAttrs([a, b, c]) ==
            if b.atype == 14 then ReportsOf(b.value, RouteTargets(c.value), false) else ReportsOf(b.value, [], true)
  {
    LastOfThree(a, b, c, 14);
    LastOfThree(a, b, c, 15);
    LastOfThree(a, b, c, 16);
  }

  lemma {:induction false} ThreeFromOctets(
      len: Byte, a: PathAttr, b: PathAttr, c: PathAttr, x: seq<Byte>, y: seq<Byte>, z: seq<Byte>)
    requires a.Valid() && b.Valid() && c.Valid() && a.Encode() == x && b.Encode() == y && c.Encode() == z
    requires |x + (y + z)| < 256
    ensures Reports(MessageOctets(len, x + (y + z))) == ReportsOfAttrs([a, b, c])
  {
    ThreeAttributes(a, b, c);
    MessageIsRead(len, [a, b, c]);
  }

  /** Announcements are reported before withdrawals, wherever the attributes stand, and the later of two attributes of
      one type counts. */
  lemma {:induction false} BothAreReported(a: PathAttr, b: PathAttr, c: PathAttr)
    requires a.atype in {14, 15} && b.atype == 15 && c.atype == 14
    ensures ReportsOfAttrs([a, b, c]) == ReportsOf(c.value, [], false) + ReportsOf(b.value, [], true)
  {
    LastOfThree(a, b, c, 14);
    LastOfThree(a, b, c, 15);
    LastOfThree(a, b, c, 16);
  }

  /** An ORIGIN, MP_REACH_NLRI as attribute 14 with two octets of length, extended communities as attribute 16. */
  lemma {:induction false} AnnouncementFromOctets(len: Byte, reach: seq<Byte>, comm: seq<Byte>)
    requires |reach| < 200 && |comm| < 40
    ensures Reports(MessageOctets(len, [0x40, 1, 1] + [0] + ([0x90, 14, 0, |reach|] + reach
                                       + ([0xC0, 16, |comm|] + comm)))) ==
            ReportsOf(reach, RouteTargets(comm), false)
  {
    var a, b, c := PathAttr(0x40, 1, [0]), PathAttr(0x90, 14, reach), PathAttr(0xC0, 16, comm);
    AttributeOctets(0x40, 1, [0]);
    AttributeOctets(0x90, 14, reach);
    AttributeOctets(0xC0, 16, comm);
    ThreeFromOctets(len, a, b, c, [0x40, 1, 1] + [0], [0x90, 14, 0, |reach|] + reach, [0xC0, 16, |comm|] + comm);
    ThreeAreReported(a, b, c);
  }

  /** A withdrawal: MP_UNREACH_NLRI as attribute 15; communities beside it do not matter. */
  lemma {:induction false} WithdrawalFromOctets(len: Byte, unreach: seq<Byte>, comm: seq<Byte>)
    requires |unreach| < 200 && |comm| < 40
    ensures Reports(MessageOctets(len, [0x40, 1, 1] + [0] + ([0x80, 15, |unreach|] + unreach
                                       + ([0xC0, 16, |comm|] + comm)))) ==
            ReportsOf(unreach, [], true)
  {
    var a, b, c := PathAttr(0x40, 1, [0]), PathAttr(0x80, 15, unreach), PathAttr(0xC0, 16, comm);
    AttributeOctets(0x40, 1, [0]);
    AttributeOctets(0x80, 15, unreach);
    AttributeOctets(0xC0, 16, comm);
    ThreeFromOctets(len, a, b, c, [0x40, 1, 1] + [0], [0x80, 15, |unreach|] + unreach, [0xC0, 16, |comm|] + comm);
    ThreeAreReported(a, b, c);
  }

  /** 10.1.2.0/24 of 65000:100 is announced with label 17, next hop 10.0.0.1 and its route target. */
  lemma {:induction false} AnnouncementInFull(len: Byte)
    ensures Reports(MessageOctets(len, [0x40, 1, 1] + [0] + ([0x90, 14, 0, 32] + ReachOctets([10, 0, 0, 1], ROUTE)
                                       + ([0xC0, 16, 8] + ([0, 2] + [0xFD, 0xE8, 0, 0, 0, 100]))))) ==
            [VpnReport(VpnPrefix("65000:100", "10.1.2.0/24", 17, 15), Some([10, 0, 0, 1]), ["65000:100"], false)]
  {
    var comm: seq<Byte> := [0, 2] + [0xFD, 0xE8, 0, 0, 0, 100];
    AnnouncementFromOctets(len, ReachOctets([10, 0, 0, 1], ROUTE), comm);
    OneTarget([0xFD, 0xE8, 0, 0, 0, 100]);
    TypeZero();
    ReachFromOctets([10, 0, 0, 1], ROUTE, ["65000:100"]);
    RouteFromOctets();
  }

  lemma {:induction false} OneTarget(body: seq<Byte>)
    requires |body| == 6
    ensures RouteTargets([0, 2] + body) == [FormatRD([0, 0] + body)]
  {
    TargetReadsLikeDistinguisher(0, body);
    NextTarget([0, 2] + body, []);
    assert [0, 2] + body + [] == [0, 2] + body;
  }

  /** And withdrawn again. */
  lemma {:induction false} WithdrawalInFull(len: Byte, comm: seq<Byte>)
    requires |comm| < 40
    ensures Reports(MessageOctets(len, [0x40, 1, 1] + [0] + ([0x80, 15, 18] + ([0, 1, 128] + ROUTE)
                                       + ([0xC0, 16, |comm|] + comm)))) ==
            [VpnReport(VpnPrefix("65000:100", "10.1.2.0/24", 17, 15), None, [], true)]
  {
    WithdrawalFromOctets(len, [0, 1, 128] + ROUTE, comm);
    UnreachFromOctets(ROUTE);
    RouteFromOctets();
  }

  // ---- EVPN ----

  /** Address family 25, subsequent family 70. */
  lemma {:induction false} EvpnReachFromOctets(nexthop: seq<Byte>, list: seq<Byte>, rts: seq<string>)
    requires |nexthop| in {4, 16}
    ensures ReportsOf([0, 25, 70, |nexthop|] + nexthop + ([0] + list), rts, false) ==
            EvpnReports(EvpnList(list).0, Some(nexthop), rts, false)
  {
    ReachValueOctets(25, 70, nexthop, list);
    EvpnValueIsReported(list, nexthop, rts);
  }

  lemma {:induction false} ReachValueOctets(afi: Byte, safi: Byte, nexthop: seq<Byte>, list: seq<Byte>)
    requires |nexthop| < 0x100
    ensures ReachValue(afi, safi, nexthop, list) == [0, afi, safi, |nexthop|] + nexthop + ([0] + list)
  {
    SixteenBits(afi);
    Regrouped([0, afi], safi, |nexthop|, nexthop, [0] + list);
    assert [0, afi] + [safi] + [|nexthop|] == [0, afi, safi, |nexthop|];
  }

  lemma {:induction false} Regrouped(afi: seq<Byte>, safi: Byte, n: Byte, nexthop: seq<Byte>, rest: seq<Byte>)
    ensures afi + [safi] + [n] + nexthop + rest == afi + [safi] + ([n] + (nexthop + rest))
  {
  }

  /** Route type 2 is a MAC address, 3 a multicast tunnel end, 5 a prefix, and nothing else is a route. */
  lemma {:induction false} EvpnTypes(rd: seq<Byte>, esiTag: seq<Byte>, mac: seq<Byte>, ip: seq<Byte>, last: seq<Byte>)
    requires |rd| == 8 && |esiTag| == 14 && |mac| == 6 && |ip| == 4 && |last| == 3
    ensures (DecodeEvpn(2, rd + esiTag + [48] + mac + [32] + ip + last), DecodeEvpn(3, rd + esiTag[10..] + [32] + ip),
             DecodeEvpn(5, rd + esiTag + [24] + ip + Zeros(4) + last)) ==
            ([MacRoute(FormatRD(rd), mac, ip)], [ImetRoute(FormatRD(rd), ip)], [PrefixRoute(FormatRD(rd), ip, 24)])
  {
    var m, i, p := rd + esiTag + [48] + mac + [32] + ip + last, rd + esiTag[10..] + [32] + ip,
        rd + esiTag + [24] + ip + Zeros(4) + last;
    assert m[0..8] == rd && m[23..29] == mac && m[30..34] == ip;
    assert i[0..8] == rd && i[13..17] == ip;
    assert p[0..8] == rd && p[23..][..4] == ip;
  }

  /** A MAC address may come without an IP address; then there is none. */
  lemma {:induction false} MacAlone(rd: seq<Byte>, esiTag: seq<Byte>, mac: seq<Byte>, last: seq<Byte>)
    requires |rd| == 8 && |esiTag| == 14 && |mac| == 6
    ensures DecodeEvpn(2, rd + esiTag + [48] + mac + [0] + last) == [MacRoute(FormatRD(rd), mac, [])]
  {
    var m := rd + esiTag + [48] + mac + [0] + last;
    assert m[0..8] == rd && m[23..29] == mac;
  }

  /** A prefix longer than 32 bits has sixteen octets, however short the route is. */
  lemma {:induction false} LongPrefix(rd: seq<Byte>, esiTag: seq<Byte>, plen: Byte, ip: seq<Byte>, rest: seq<Byte>)
    requires |rd| == 8 && |esiTag| == 14 && |ip| == 16 && plen > 32
    ensures DecodeEvpn(5, rd + esiTag + [plen] + ip + rest) == [PrefixRoute(FormatRD(rd), ip, plen)]
  {
    var p := rd + esiTag + [plen] + ip + rest;
    assert p[0..8] == rd && p[23..][..16] == ip;
  }

  lemma {:induction false} EvpnListOfOne(rtype: Byte, v: seq<Byte>)
    requires 0 < |v| < 256
    ensures EvpnList([rtype, |v|] + v).0 == DecodeEvpn(rtype, v)
  {
    var p := [rtype, |v|] + v;
    assert p[2..2 + |v|] == v && p[2 + |v|..] == [];
    EvpnFront(p);
  }

  /** One announced route is one report, with its next hop and the targets. */
  lemma {:induction false} OneEvpnRoute(
      rtype: Byte, v: seq<Byte>, route: EvpnRoute, nexthop: seq<Byte>, rts: seq<string>)
    requires 0 < |v| < 256 && DecodeEvpn(rtype, v) == [route] && |nexthop| in {4, 16}
    ensures ReportsOf([0, 25, 70, |nexthop|] + nexthop + ([0] + ([rtype, |v|] + v)), rts, false) ==
            [EvpnReport(route, Some(nexthop), rts, false)]
  {
    EvpnReachFromOctets(nexthop, [rtype, |v|] + v, rts);
    EvpnListOfOne(rtype, v);
  }

  /** One withdrawn route is one report, with neither. */
  lemma {:induction false} OneEvpnWithdrawal(rtype: Byte, v: seq<Byte>, route: EvpnRoute)
    requires 0 < |v| < 256 && DecodeEvpn(rtype, v) == [route]
    ensures ReportsOf([0, 25, 70] + ([rtype, |v|] + v), [], true) == [EvpnReport(route, None, [], true)]
  {
    var list := [rtype, |v|] + v;
    SixteenBits(25);
    UnreachRoundTrip(25, 70, list, false);
    assert [0, 25] + [70] == [0, 25, 70];
    EvpnListOfOne(rtype, v);
  }

  /** A list ends at a route without a value, and at one that is cut short. */
  lemma {:induction false} EmptyRouteEndsList(rtype: Byte, n: Byte, rest: seq<Byte>)
    requires n == 0 || |rest| < n as int
    ensures EvpnList([rtype, n] + rest) == ([], [rtype, n] + rest)
  {
  }

  lemma {:induction false} OtherEvpnTypes(rtype: Byte, v: seq<Byte>)
    ensures DecodeEvpn(rtype, v) != [] ==> rtype in {2, 3, 5} && |v| >= 13
  {
  }

  // ---- what is not reported ----

  /** Only these two families are. */
  lemma {:induction false} OtherFamilies(v: seq<Byte>, rts: seq<string>, withdraw: bool)
    ensures ReportsOf(v, rts, withdraw) != [] ==>
              |v| >= 3 && ((v[0], v[1], v[2]) == (0, 1, 128) || (v[0], v[1], v[2]) == (0, 25, 70))
  {
    if ReportsOf(v, rts, withdraw) != [] {
      FamilyOctets(v[0..2]);
    }
  }

  lemma {:induction false} FamilyOctets(b: seq<Byte>)
    requires |b| == 2
    ensures U16Be(b) == 1 <==> b[0] == 0 && b[1] == 1
    ensures U16Be(b) == 25 <==> b[0] == 0 && b[1] == 25
  {
  }

  /** Nor is an attribute that is cut short, in its header or in its value. */
  lemma {:induction false} CutAttributeIsNone(a: PathAttr, size: nat)
    requires a.Valid() && size < |a.Encode()|
    ensures WalkAttrs(a.Encode()[..size]) == []
  {
    var b := a.Encode()[..size];
    if |b| >= 3 && HeaderIsWhole(b) {
      AttrFront(a, []);
      assert a.Encode() + [] == a.Encode();
      assert HeaderLen(b) + ValueLen(b) == |a.Encode()| by {
        assert |b| >= 4 ==> b[2..4] == a.Encode()[2..4];
      }
    }
  }

  /** Only messages of type 2 with room for both length fields are. */
  lemma {:induction false} OtherMessages(m: seq<Byte>)
    ensures Reports(m) != [] ==> |m| >= 23 && m[18] == 2
  {
  }

  /** Next hops of a bare address, and of one behind a distinguisher. */
  lemma {:induction false} NextHopSizes(b: seq<Byte>)
    ensures NextHopOf(b, false) ==
            (if |b| in {4, 16} then Some(b) else if |b| in {12, 24} then Some([b[8], b[9], b[10], b[11]]) else None)
    ensures NextHopOf(b, true) == if |b| < 12 then None else Some([b[8], b[9], b[10], b[11]])
  {
    if |b| >= 12 {
      assert b[8..12] == [b[8], b[9], b[10], b[11]];
    }
  }
}
