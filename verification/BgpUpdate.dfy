/** BGP UPDATE messages as they arrive in BMP route monitoring: path attributes, the
    multiprotocol ones among them, and the routes they report. */
module BgpUpdate {
  import opened Wrappers
  import opened Bytes
  import opened RouteText
  import opened Nlri

  const BGP_HDR_LEN: nat := 19
  const BGP_UPDATE: nat := 2
  const MP_REACH: nat := 14
  const MP_UNREACH: nat := 15
  const EXT_COMM: nat := 16

  const AFI_IPV4: nat := 1
  const AFI_L2VPN: nat := 25
  const SAFI_MPLS_VPN: nat := 128
  const SAFI_EVPN: nat := 70

  // ---- path attributes ----

  datatype PathAttr = PathAttr(flags: Byte, atype: Byte, value: seq<Byte>) {
    /** The extended-length flag. */
    predicate Extended() { flags / 16 % 2 == 1 }

    predicate Valid() { |value| < (if Extended() then 0x1_0000 else 0x100) }

    /** Sections 4.3 of RFC 4271: one or two octets of length, as the flag says. */
    ghost function Encode(): (b: seq<Byte>)
      requires Valid()
    {
      [flags, atype] + (if Extended() then PutU16Be(|value|) else [|value|]) + value
    }
  }

  predicate IsExtended(attrs: seq<Byte>)
    requires attrs != []
  {
    attrs[0] / 16 % 2 == 1
  }

  /** An attribute starts here and its header is complete: an extended one needs a fourth byte. */
  predicate HeaderIsWhole(attrs: seq<Byte>) {
    |attrs| >= 3 ==> IsExtended(attrs) ==> |attrs| >= 4
  }

  function HeaderLen(attrs: seq<Byte>): nat
    requires attrs != []
  {
    if IsExtended(attrs) then 4 else 3
  }

  function ValueLen(attrs: seq<Byte>): nat
    requires |attrs| >= 3 && HeaderIsWhole(attrs)
  {
    if IsExtended(attrs) then U16Be(attrs[2..4]) else attrs[2]
  }

  /** The attributes the loop visits. */
  function WalkAttrs(attrs: seq<Byte>): seq<PathAttr>
    decreases |attrs|
  {
    if |attrs| < 3 || !HeaderIsWhole(attrs) then []
    else
      var n := HeaderLen(attrs) + ValueLen(attrs);
      if |attrs| < n then []
      else [PathAttr(attrs[0], attrs[1], attrs[HeaderLen(attrs)..n])] + WalkAttrs(attrs[n..])
  }

  /** No attribute that the walk meets has a cut-off extended header. */
  ghost predicate HeadersAreWhole(attrs: seq<Byte>)
    decreases |attrs|
  {
    && HeaderIsWhole(attrs)
    && (|attrs| >= 3 && |attrs| >= HeaderLen(attrs) + ValueLen(attrs) ==>
          HeadersAreWhole(attrs[HeaderLen(attrs) + ValueLen(attrs)..]))
  }

  /** What is left when the loop ends. */
  function WalkRest(attrs: seq<Byte>): seq<Byte>
    decreases |attrs|
  {
    if |attrs| < 3 || !HeaderIsWhole(attrs) then attrs
    else
      var n := HeaderLen(attrs) + ValueLen(attrs);
      if |attrs| < n then attrs else WalkRest(attrs[n..])
  }

  /** The one case in which a length is read behind the attributes: exactly three octets are left and the
      extended-length flag is set in them. */
  lemma {:induction false} OnlyCutHeadersOverrun(attrs: seq<Byte>)
    ensures HeadersAreWhole(attrs) <==> !(|WalkRest(attrs)| == 3 && IsExtended(WalkRest(attrs)))
    decreases |attrs|
  {
    if |attrs| >= 3 && HeaderIsWhole(attrs) {
      var n := HeaderLen(attrs) + ValueLen(attrs);
      if |attrs| >= n {
        OnlyCutHeadersOverrun(attrs[n..]);
      }
    }
  }

  ghost function EncodeAttrs(attrs: seq<PathAttr>): seq<Byte>
    requires forall a | a in attrs :: a.Valid()
  {
    if attrs == [] then []
    else
      assert attrs[0] in attrs;
      attrs[0].Encode() + EncodeAttrs(attrs[1..])
  }

  lemma {:induction false} AttrFront(a: PathAttr, rest: seq<Byte>)
    requires a.Valid()
    ensures var b := a.Encode() + rest;
            && |b| >= 3 && HeaderIsWhole(b) && |b| >= HeaderLen(b) + ValueLen(b)
            && b[0] == a.flags && b[1] == a.atype
            && b[HeaderLen(b)..HeaderLen(b) + ValueLen(b)] == a.value
            && b[HeaderLen(b) + ValueLen(b)..] == rest
  {
    var b := a.Encode() + rest;
    if a.Extended() {
      assert b[2..4] == PutU16Be(|a.value|);
    }
  }

  lemma {:induction false} WalkAttrFront(a: PathAttr, rest: seq<Byte>)
    requires a.Valid()
    ensures WalkAttrs(a.Encode() + rest) == [a] + WalkAttrs(rest)
    ensures HeadersAreWhole(a.Encode() + rest) <==> HeadersAreWhole(rest)
  {
    AttrFront(a, rest);
  }

  /** Short and extended lengths mixed, the walk visits exactly the encoded attributes in order. */
  lemma {:induction false} AttrsRoundTrip(attrs: seq<PathAttr>)
    requires forall a | a in attrs :: a.Valid()
    ensures HeadersAreWhole(EncodeAttrs(attrs)) && WalkAttrs(EncodeAttrs(attrs)) == attrs
  {
    if attrs != [] {
      var a, more := attrs[0], attrs[1..];
      assert a in attrs;
      AttrsRoundTrip(more);
      WalkAttrFront(a, EncodeAttrs(more));
      assert EncodeAttrs(attrs) == a.Encode() + EncodeAttrs(more);
      assert attrs == [a] + more;
    }
  }

  /** The value of the last attribute of a type. */
  function LastValue(attrs: seq<PathAttr>, atype: nat): Option<seq<Byte>> {
    if attrs == [] then None
    else
      var a := attrs[|attrs| - 1];
      if a.atype == atype then Some(a.value) else LastValue(attrs[..|attrs| - 1], atype)
  }

  // ---- multiprotocol reachability ----

  /** One route handed on, with what came with it. */
  datatype Report =
    | VpnReport(route: VpnPrefix, nexthop: Option<seq<Byte>>, rts: seq<string>, withdraw: bool)
    | EvpnReport(evpn: EvpnRoute, nexthop: Option<seq<Byte>>, rts: seq<string>, withdraw: bool)

  /** The IPv4 next hop of a VPN route follows an 8-byte distinguisher; EVPN carries a bare address. */
  function NextHopOf(b: seq<Byte>, isVpn: bool): Option<seq<Byte>> {
    if isVpn then (if |b| >= 12 then Some(b[8..12]) else None)
    else if |b| == 4 || |b| == 16 then Some(b)
    else if |b| == 12 || |b| == 24 then Some(b[8..12])
    else None
  }

  /** The next hop and the reachability list of an attribute value, None when it is cut short. */
  function Payload(v: seq<Byte>, isVpn: bool, withdraw: bool): Option<(Option<seq<Byte>>, seq<Byte>)>
    requires |v| >= 3
  {
    var p := v[3..];
    if withdraw then Some((None, p))
    else if |p| < 1 then None
    else
      var n, q := p[0] as int, p[1..];
      if |q| < n then None
      else
        var r := q[n..];
        if |r| < 1 then None else Some((NextHopOf(q[..n], isVpn), r[1..]))
  }

  function VpnReports(ds: seq<VpnPrefix>, nh: Option<seq<Byte>>, rts: seq<string>, withdraw: bool): (r: seq<Report>)
    ensures |r| == |ds| && forall i | 0 <= i < |r| :: r[i] == VpnReport(ds[i], nh, rts, withdraw)
  {
    seq(|ds|, i requires 0 <= i < |ds| => VpnReport(ds[i], nh, rts, withdraw))
  }

  function EvpnReports(es: seq<EvpnRoute>, nh: Option<seq<Byte>>, rts: seq<string>, withdraw: bool): (r: seq<Report>)
    ensures |r| == |es| && forall i | 0 <= i < |r| :: r[i] == EvpnReport(es[i], nh, rts, withdraw)
  {
    seq(|es|, i requires 0 <= i < |es| => EvpnReport(es[i], nh, rts, withdraw))
  }

  function ReportsOf(v: seq<Byte>, rts: seq<string>, withdraw: bool): seq<Report> {
    if |v| < 3 then []
    else
      var afi, safi := U16Be(v[0..2]), v[2];
      var isVpn, isEvpn := afi == AFI_IPV4 && safi == SAFI_MPLS_VPN, afi == AFI_L2VPN && safi == SAFI_EVPN;
      var payload := Payload(v, isVpn, withdraw);
      if payload.None? then []
      else if isVpn then VpnReports(VpnList(payload.value.1).0, payload.value.0, rts, withdraw)
      else if isEvpn then EvpnReports(EvpnList(payload.value.1).0, payload.value.0, rts, withdraw)
      else []
  }

  method HandleMP(v: seq<Byte>, rts: seq<string>, withdraw: bool) returns (out: seq<Report>)
    ensures out == ReportsOf(v, rts, withdraw)
  {
    out := [];
    if |v| < 3 {
      return;
    }
    var afi := U16Be(v[0..2]);
    var safi := v[2];
    var isVpn := afi == AFI_IPV4 && safi == SAFI_MPLS_VPN;
    var isEvpn := afi == AFI_L2VPN && safi == SAFI_EVPN;
    if !isVpn && !isEvpn {
      return;
    }
    var p := v[3..];
    var nh: Option<seq<Byte>> := None;
    if !withdraw {
      if |p| < 1 {
        return;
      }
      var nhLen: int := p[0];
      p := p[1..];
      if |p| < nhLen {
        return;
      }
      nh := NextHopOf(p[..nhLen], isVpn);
      p := p[nhLen..];
      if |p| < 1 {
        return;
      }
      p := p[1..];
    }
    assert Payload(v, isVpn, withdraw) == Some((nh, p));
    if isVpn {
      var ds := ReadVpnList(p);
      out := VpnReports(ds, nh, rts, withdraw);
    } else {
      var es := ReadEvpnList(p);
      out := EvpnReports(es, nh, rts, withdraw);
    }
  }

  method ReadVpnList(list: seq<Byte>) returns (ds: seq<VpnPrefix>)
    ensures ds == VpnList(list).0
  {
    ds := [];
    var p := list;
    while |p| > 0
      invariant VpnList(list).0 == ds + VpnList(p).0
      decreases |p|
    {
      var d := ParseVpnNlri(p);
      if d.consumed == 0 {
        break;
      }
      p := p[d.consumed..];
      ds := ds + [d];
    }
  }

  lemma {:induction false} EvpnFront(p: seq<Byte>)
    requires |p| >= 2 && 0 < p[1] && 2 + p[1] as int <= |p|
    ensures EvpnList(p).0 == DecodeEvpn(p[0], p[2..2 + p[1]]) + EvpnList(p[2 + p[1]..]).0
  {
  }

  /** Reads the EVPN route at the front; None when the list ends or is cut short. */
  method ReadEvpn(p: seq<Byte>) returns (routes: Option<seq<EvpnRoute>>, rest: seq<Byte>)
    requires |p| >= 2
    ensures routes.None? ==> EvpnList(p).0 == []
    ensures routes.Some? ==> EvpnList(p).0 == routes.value + EvpnList(rest).0 && |rest| < |p|
  {
    var n: int := p[1];
    if n == 0 || |p| < 2 + n {
      return None, p;
    }
    EvpnFront(p);
    routes := Some(DecodeEvpn(p[0], p[2..2 + n]));
    rest := p[2 + n..];
  }

  method ReadEvpnList(list: seq<Byte>) returns (es: seq<EvpnRoute>)
    ensures es == EvpnList(list).0
  {
    es := [];
    var p := list;
    while |p| >= 2
      invariant EvpnList(list).0 == es + EvpnList(p).0
      decreases |p|
    {
      var routes, rest := ReadEvpn(p);
      if routes.None? {
        break;
      }
      es := es + routes.value;
      p := rest;
    }
  }

  // ---- the UPDATE message ----

  /** The path attribute bytes of a well-framed UPDATE. */
  function PathAttrs(m: seq<Byte>): Option<seq<Byte>> {
    if |m| < BGP_HDR_LEN || m[18] != BGP_UPDATE then None
    else
      var p := m[BGP_HDR_LEN..];
      if |p| < 2 then None
      else
        var wLen, q := U16Be(p[0..2]), p[2..];
        if |q| < wLen + 2 then None
        else
          var r := q[wLen..];
          var paLen, body := U16Be(r[0..2]), r[2..];
          if |body| < paLen then None else Some(body[..paLen])
  }

  function Reports(m: seq<Byte>): seq<Report> {
    if PathAttrs(m).None? then [] else ReportsOfAttrs(WalkAttrs(PathAttrs(m).value))
  }

  /** The last MP_REACH and MP_UNREACH are reported; route targets go with the announcements only. */
  function ReportsOfAttrs(attrs: seq<PathAttr>): seq<Report> {
    var reach, unreach, comm := LastValue(attrs, MP_REACH), LastValue(attrs, MP_UNREACH), LastValue(attrs, EXT_COMM);
    var rts := if comm.None? then [] else RouteTargets(comm.value);
    (if reach.None? then [] else ReportsOf(reach.value, rts, false))
    + (if unreach.None? then [] else ReportsOf(unreach.value, [], true))
  }

  /** The octets behind the path attributes of a well-framed UPDATE: its IPv4 reachability. */
  function BehindAttrs(m: seq<Byte>): seq<Byte>
    requires PathAttrs(m).Some?
  {
    m[|m| - BehindLen(m)..]
  }

  function BehindLen(m: seq<Byte>): (n: nat)
    requires PathAttrs(m).Some?
    ensures n <= |m|
  {
    var q := m[BGP_HDR_LEN + 2..];
    |q| - U16Be(m[BGP_HDR_LEN..][0..2]) - 2 - |PathAttrs(m).value|
  }

  /** A message is the end of its buffer, so a cut-off extended header must have something behind it:
      its length is read from there, found too long, and the loop stops. */
  method ParseUpdate(m: seq<Byte>) returns (out: seq<Report>)
    requires PathAttrs(m).Some? ==> HeadersAreWhole(PathAttrs(m).value) || BehindAttrs(m) != []
    ensures out == Reports(m)
  {
    out := [];
    if |m| < BGP_HDR_LEN || m[18] != BGP_UPDATE {
      return;
    }
    var p := m[BGP_HDR_LEN..];
    if |p| < 2 {
      return;
    }
    var wLen := U16Be(p[0..2]);
    p := p[2..];
    if |p| < wLen + 2 {
      return;
    }
    p := p[wLen..];
    var paLen := U16Be(p[0..2]);
    p := p[2..];
    if |p| < paLen {
      return;
    }
    assert PathAttrs(m) == Some(p[..paLen]);
    assert BehindAttrs(m) == p[paLen..];
    var s := SelectAttrs(p[..paLen], p[paLen..]);
    SelectionIsLast(WalkAttrs(p[..paLen]));
    if s.reach.Some? {
      out := HandleMP(s.reach.value, s.rts, false);
    }
    if s.unreach.Some? {
      var more := HandleMP(s.unreach.value, [], true);
      out := out + more;
    }
  }

  /** What the attribute loop selects: later values overwrite earlier ones. */
  datatype Selection = Selection(reach: Option<seq<Byte>>, unreach: Option<seq<Byte>>, rts: seq<string>)

  function Pick(s: Selection, a: PathAttr): Selection {
    if a.atype == MP_REACH then s.(reach := Some(a.value))
    else if a.atype == MP_UNREACH then s.(unreach := Some(a.value))
    else if a.atype == EXT_COMM then s.(rts := RouteTargets(a.value))
    else s
  }

  function SelectionOf(attrs: seq<PathAttr>): Selection {
    if attrs == [] then Selection(None, None, [])
    else Pick(SelectionOf(attrs[..|attrs| - 1]), attrs[|attrs| - 1])
  }

  lemma {:induction false} SelectionIsLast(attrs: seq<PathAttr>)
    ensures SelectionOf(attrs).reach == LastValue(attrs, MP_REACH)
    ensures SelectionOf(attrs).unreach == LastValue(attrs, MP_UNREACH)
    ensures SelectionOf(attrs).rts == match LastValue(attrs, EXT_COMM) case None => [] case Some(v) => RouteTargets(v)
  {
    if attrs != [] {
      SelectionIsLast(attrs[..|attrs| - 1]);
    }
  }

  method Select(s: Selection, a: PathAttr) returns (s': Selection)
    ensures s' == Pick(s, a)
  {
    s' := s;
    if a.atype == MP_REACH {
      s' := s.(reach := Some(a.value));
    } else if a.atype == MP_UNREACH {
      s' := s.(unreach := Some(a.value));
    } else if a.atype == EXT_COMM {
      var rts := ParseRTs(a.value);
      s' := s.(rts := rts);
    }
  }

  lemma {:induction false} SelectionAppended(attrs: seq<PathAttr>, a: PathAttr)
    ensures SelectionOf(attrs + [a]) == Pick(SelectionOf(attrs), a)
  {
    assert (attrs + [a])[..|attrs|] == attrs;
  }

  /** Reads the attribute at the front; None when what is left is too short for it. The length of an extended
      attribute may lie partly in `behind`, the octets that follow the attributes in the message. */
  method ReadAttr(attrs: seq<Byte>, behind: seq<Byte>) returns (a: Option<PathAttr>, rest: seq<Byte>)
    requires |attrs| >= 3 && (HeadersAreWhole(attrs) || behind != [])
    ensures a.None? ==> WalkAttrs(attrs) == []
    ensures a.Some? ==> WalkAttrs(attrs) == [a.value] + WalkAttrs(rest) && |rest| < |attrs|
    ensures a.Some? && HeadersAreWhole(attrs) ==> HeadersAreWhole(rest)
  {
    var alen: int, hdr: int;
    if attrs[0] / 16 % 2 == 1 {
      alen, hdr := U16Be((attrs + behind)[2..4]), 4;
    } else {
      alen, hdr := attrs[2], 3;
    }
    if |attrs| < hdr + alen {
      return None, attrs;
    }
    assert hdr == 4 ==> (attrs + behind)[2..4] == attrs[2..4];
    a := Some(PathAttr(attrs[0], attrs[1], attrs[hdr..hdr + alen]));
    rest := attrs[hdr + alen..];
  }

  method SelectAttrs(attrs: seq<Byte>, behind: seq<Byte>) returns (s: Selection)
    requires HeadersAreWhole(attrs) || behind != []
    ensures s == SelectionOf(WalkAttrs(attrs))
  {
    s := Selection(None, None, []);
    var rest := attrs;
    ghost var done: seq<PathAttr> := [];
    while |rest| >= 3
      invariant HeadersAreWhole(rest) || behind != []
      invariant WalkAttrs(attrs) == done + WalkAttrs(rest)
      invariant s == SelectionOf(done)
      decreases |rest|
    {
      var a, next := ReadAttr(rest, behind);
      if a.None? {
        break;
      }
      s := Select(s, a.value);
      SelectionAppended(done, a.value);
      done := done + [a.value];
      rest := next;
    }
    assert WalkAttrs(attrs) == done;
  }

  // ---- encoding whole messages ----

  /** An UPDATE as section 4.3 of RFC 4271 frames it. */
  datatype Update = Update(header: seq<Byte>, withdrawn: seq<Byte>, attrs: seq<PathAttr>, nlri: seq<Byte>) {
    ghost predicate Valid() {
      && |header| == 19 && header[18] == 2
      && |withdrawn| < 0x1_0000
      && (forall a | a in attrs :: a.Valid()) && |EncodeAttrs(attrs)| < 0x1_0000
    }

    ghost function Encode(): seq<Byte>
      requires Valid()
    {
      header + (PutU16Be(|withdrawn|) + (withdrawn + (PutU16Be(|EncodeAttrs(attrs)|) + (EncodeAttrs(attrs) + nlri))))
    }
  }

  /** Decoding an UPDATE visits exactly its attributes, whatever the withdrawn routes and the IPv4 reachability
      beside them. */
  lemma {:induction false} UpdateRoundTrip(u: Update)
    requires u.Valid()
    ensures PathAttrs(u.Encode()) == Some(EncodeAttrs(u.attrs)) && HeadersAreWhole(EncodeAttrs(u.attrs))
    ensures Reports(u.Encode()) == ReportsOfAttrs(u.attrs)
  {
    var m, body := u.Encode(), EncodeAttrs(u.attrs);
    var tail := PutU16Be(|body|) + (body + u.nlri);
    assert m[19..] == PutU16Be(|u.withdrawn|) + (u.withdrawn + tail);
    var p := m[19..];
    assert p[0..2] == PutU16Be(|u.withdrawn|) && p[2..] == u.withdrawn + tail;
    assert p[2..][|u.withdrawn|..] == tail;
    assert tail[0..2] == PutU16Be(|body|) && tail[2..] == body + u.nlri;
    assert (body + u.nlri)[..|body|] == body;
    AttrsRoundTrip(u.attrs);
  }

  /** MP_REACH_NLRI and MP_UNREACH_NLRI values, sections 3 and 4 of RFC 4760. */
  ghost function ReachValue(afi: nat, safi: Byte, nexthop: seq<Byte>, list: seq<Byte>): seq<Byte>
    requires FitsU16(afi) && |nexthop| < 0x100
  {
    PutU16Be(afi) + [safi] + ([|nexthop|] + (nexthop + ([0] + list)))
  }

  ghost function UnreachValue(afi: nat, safi: Byte, list: seq<Byte>): seq<Byte>
    requires FitsU16(afi)
  {
    PutU16Be(afi) + [safi] + list
  }

  lemma {:induction false} ReachRoundTrip(afi: nat, safi: Byte, nexthop: seq<Byte>, list: seq<Byte>, isVpn: bool)
    requires FitsU16(afi) && |nexthop| < 0x100
    ensures var v := ReachValue(afi, safi, nexthop, list);
            |v| >= 3 && U16Be(v[0..2]) == afi && v[2] == safi &&
                Payload(v, isVpn, false) == Some((NextHopOf(nexthop, isVpn), list))
  {
    var v := ReachValue(afi, safi, nexthop, list);
    assert v[0..2] == PutU16Be(afi);
    assert v[3..] == [|nexthop|] + (nexthop + ([0] + list));
    assert v[3..][1..] == nexthop + ([0] + list);
    assert (nexthop + ([0] + list))[..|nexthop|] == nexthop;
    assert (nexthop + ([0] + list))[|nexthop|..] == [0] + list;
    assert ([0] + list)[1..] == list;
  }

  /** The next-hop field of a VPN route is a distinguisher and an address; what is read back is the address
      if and only if that has four octets. */
  lemma {:induction false} NextHopIsRead(rd: seq<Byte>, addr: seq<Byte>)
    requires |rd| == 8
    ensures NextHopOf(rd + addr, true) == (if |addr| < 4 then None else Some(addr[..4]))
    ensures NextHopOf(rd + addr, true) == Some(addr) <==> |addr| == 4
  {
    if |addr| >= 4 {
      assert (rd + addr)[8..12] == addr[..4];
    }
    if |addr| == 4 {
      assert addr[..4] == addr;
    }
  }

  /** The IPv6 next hop 2001:db8::1 of an IPv4 VPN route (RFC 8950) is read as the IPv4 address 32.1.13.184. */
  lemma {:induction false} Ipv6NextHopIsMisread()
    ensures NextHopOf(Zeros(8) + ([0x20, 0x01, 0x0d, 0xb8] + Zeros(11) + [1]), true) == Some([32, 1, 13, 184])
  {
    var addr: seq<Byte> := [0x20, 0x01, 0x0d, 0xb8] + Zeros(11) + [1];
    NextHopIsRead(Zeros(8), addr);
    assert addr[..4] == [32, 1, 13, 184];
  }

  /** An L3VPN announcement, end to end: an UPDATE that carries VPN routes in its last MP_REACH and communities
      in its last extended-community attribute, among any other attributes, reports exactly those routes, in order,
      each with its next hop and the route targets, if and only if every route is readable and, where there is
      any route, the next hop is an IPv4 address. */
  lemma {:induction false} VpnAnnouncementIsReported(
    u: Update, routes: seq<VpnRoute>, rd: seq<Byte>, nexthop: seq<Byte>, cs: seq<Community>)
    requires u.Valid() && (forall r | r in routes :: r.Valid()) && (forall c | c in cs :: c.Valid())
    requires |rd| == 8 && |nexthop| < 0xF8
    requires LastValue(u.attrs, 14) ==
             Some(ReachValue(1, 128, rd + nexthop, EncodeRoutes(routes)))
    requires LastValue(u.attrs, 16) == Some(EncodeCommunities(cs))
    requires LastValue(u.attrs, 15) == None
    ensures Reports(u.Encode()) == VpnReports(AllDecoded(routes), Some(nexthop), Targets(cs), false) <==>
            AllReadable(routes) && (|nexthop| == 4 || routes == [])
  {
    UpdateRoundTrip(u);
    var list := EncodeRoutes(routes);
    VpnValueIsReported(list, rd + nexthop, Targets(cs));
    TargetsRoundTrip(cs, []);
    assert EncodeCommunities(cs) + [] == EncodeCommunities(cs);
    VpnListRoundTrip(routes);
    NextHopIsRead(rd, nexthop);
    ReportsTellAll(VpnList(list).0, NextHopOf(rd + nexthop, true), AllDecoded(routes), Some(nexthop), Targets(cs));
  }

  lemma {:induction false} ReportsTellAll(
    ds: seq<VpnPrefix>, nh: Option<seq<Byte>>, es: seq<VpnPrefix>, other: Option<seq<Byte>>, rts: seq<string>)
    ensures VpnReports(ds, nh, rts, false) == VpnReports(es, other, rts, false) <==>
            ds == es && (nh == other || es == [])
  {
    var a, b := VpnReports(ds, nh, rts, false), VpnReports(es, other, rts, false);
    if a == b {
      forall i | 0 <= i < |ds| ensures ds[i] == es[i] {
        assert a[i].route == b[i].route;
      }
      assert |ds| == |es| && ds == es;
      if es != [] {
        assert a[0].nexthop == b[0].nexthop;
      }
    }
    if ds == es && (nh == other || es == []) {
      assert a == b;
    }
  }

  lemma {:induction false} ReportsTellRoutes(
      ds: seq<VpnPrefix>, es: seq<VpnPrefix>, nh: Option<seq<Byte>>, rts: seq<string>, withdraw: bool)
    ensures VpnReports(ds, nh, rts, withdraw) == VpnReports(es, nh, rts, withdraw) <==> ds == es
  {
    var a, b := VpnReports(ds, nh, rts, withdraw), VpnReports(es, nh, rts, withdraw);
    if a == b {
      forall i | 0 <= i < |ds| ensures ds[i] == es[i] {
        assert a[i].route == b[i].route;
      }
    }
  }

  lemma {:induction false} VpnValueIsReported(list: seq<Byte>, field: seq<Byte>, rts: seq<string>)
    requires |field| < 0x100
    ensures ReportsOf(ReachValue(1, 128, field, list), rts, false) ==
            VpnReports(VpnList(list).0, NextHopOf(field, true), rts, false)
  {
    ReachRoundTrip(1, 128, field, list, true);
  }

  lemma {:induction false} WithdrawnListIsReported(u: Update, list: seq<Byte>)
    requires u.Valid()
    requires LastValue(u.attrs, 15) == Some(UnreachValue(1, 128, list))
    requires LastValue(u.attrs, 14) == None
    ensures Reports(u.Encode()) == VpnReports(VpnList(list).0, None, [], true)
  {
    UpdateRoundTrip(u);
    UnreachRoundTrip(1, 128, list, true);
  }

  /** An L3VPN withdrawal, end to end: the withdrawn routes are reported exactly, if and only if every one of them
      is readable, which means that its stack ends with the bottom bit and its address is canonical. */
  lemma {:induction false} VpnWithdrawalIsReported(u: Update, routes: seq<VpnRoute>)
    requires u.Valid() && (forall r | r in routes :: r.Valid())
    requires LastValue(u.attrs, 15) == Some(UnreachValue(1, 128, EncodeRoutes(routes)))
    requires LastValue(u.attrs, 14) == None
    ensures Reports(u.Encode()) == VpnReports(AllDecoded(routes), None, [], true) <==> AllReadable(routes)
  {
    var list := EncodeRoutes(routes);
    WithdrawnListIsReported(u, list);
    VpnListRoundTrip(routes);
    ReportsTellRoutes(VpnList(list).0, AllDecoded(routes), None, [], true);
  }

  /** Where a withdrawn route without the bottom bit is not taken for a prefix, neither it nor any route
      behind it is reported. */
  lemma {:induction false} WithdrawalsAreLostBehind(u: Update, good: seq<VpnRoute>, bad: VpnRoute, rest: seq<Byte>)
    requires u.Valid() && (forall r | r in good :: r.Valid() && r.Readable())
    requires bad.Valid() && !bad.marked && UnmarkedReading(bad) == NO_PREFIX
    requires LastValue(u.attrs, 15) ==
             Some(UnreachValue(1, 128, EncodeRoutes(good) + (bad.Encode() + rest)))
    requires LastValue(u.attrs, 14) == None
    ensures Reports(u.Encode()) == VpnReports(AllDecoded(good), None, [], true)
  {
    WithdrawnListIsReported(u, EncodeRoutes(good) + (bad.Encode() + rest));
    ListStopsAt(good, bad, rest);
  }

  /** Withdrawals with the label 0x800000 of section 2.4 of RFC 8277 are never reported as the routes they withdraw. */
  lemma {:induction false} CompatibleWithdrawalsAreNotReported(u: Update, routes: seq<VpnRoute>)
    requires u.Valid() && routes != [] &&
             (forall r | r in routes :: r.Valid() && r == CompatibleWithdrawal(r.rd, r.addr, r.plen))
    requires LastValue(u.attrs, 15) == Some(UnreachValue(1, 128, EncodeRoutes(routes)))
    requires LastValue(u.attrs, 14) == None
    ensures Reports(u.Encode()) != VpnReports(AllDecoded(routes), None, [], true)
  {
    VpnWithdrawalIsReported(u, routes);
    assert routes[0] in routes && !routes[0].marked;
  }

  /** An EVPN announcement, end to end: every route of known type, with the bare next hop and the route targets. */
  lemma {:induction false} EvpnAnnouncementIsReported(
      u: Update, routes: seq<EvpnMessage>, nexthop: seq<Byte>, cs: seq<Community>)
    requires u.Valid() && (forall m | m in routes :: m.Valid()) && (forall c | c in cs :: c.Valid())
    requires |nexthop| in {4, 16}
    requires LastValue(u.attrs, 14) == Some(ReachValue(25, 70, nexthop, EncodeMessages(routes)))
    requires LastValue(u.attrs, 16) == Some(EncodeCommunities(cs))
    requires LastValue(u.attrs, 15) == None
    ensures Reports(u.Encode()) == EvpnReports(AllRoutes(routes), Some(nexthop), Targets(cs), false)
  {
    UpdateRoundTrip(u);
    EvpnValueIsReported(EncodeMessages(routes), nexthop, Targets(cs));
    EvpnListRoundTrip(routes);
    TargetsRoundTrip(cs, []);
    assert EncodeCommunities(cs) + [] == EncodeCommunities(cs);
  }

  lemma {:induction false} EvpnValueIsReported(list: seq<Byte>, nexthop: seq<Byte>, rts: seq<string>)
    requires |nexthop| in {4, 16}
    ensures ReportsOf(ReachValue(25, 70, nexthop, list), rts, false) ==
            EvpnReports(EvpnList(list).0, Some(nexthop), rts, false)
  {
    ReachRoundTrip(25, 70, nexthop, list, false);
  }

  lemma {:induction false} UnreachRoundTrip(afi: nat, safi: Byte, list: seq<Byte>, isVpn: bool)
    requires FitsU16(afi)
    ensures var v := UnreachValue(afi, safi, list);
            |v| >= 3 && U16Be(v[0..2]) == afi && v[2] == safi && Payload(v, isVpn, true) == Some((None, list))
  {
    var v := UnreachValue(afi, safi, list);
    assert v[0..2] == PutU16Be(afi) && v[3..] == list;
  }

  /** An EVPN withdrawal, end to end: every route of known type is reported withdrawn, without next hop or targets. */
  lemma {:induction false} EvpnWithdrawalIsReported(u: Update, routes: seq<EvpnMessage>)
    requires u.Valid() && (forall m | m in routes :: m.Valid())
    requires LastValue(u.attrs, 15) == Some(UnreachValue(25, 70, EncodeMessages(routes)))
    requires LastValue(u.attrs, 14) == None
    ensures Reports(u.Encode()) == EvpnReports(AllRoutes(routes), None, [], true)
  {
    UpdateRoundTrip(u);
    EvpnListRoundTrip(routes);
    UnreachRoundTrip(25, 70, EncodeMessages(routes), false);
  }
}
