/** The text forms of BGP identifiers: dotted addresses, route distinguishers and route targets. */
module RouteText {
  import opened Text
  import opened Bytes

  // ---- addresses ----

  /** net.IP.String on four bytes. */
  function Dotted(b: seq<Byte>): string {
    Join(Decimals(b), ".")
  }

  lemma {:induction false} DottedInjective(a: seq<Byte>, b: seq<Byte>)
    requires |a| == |b| == 4 && Dotted(a) == Dotted(b)
    ensures a == b
  {
    SplitUndoesJoin(Decimals(a), '.');
    SplitUndoesJoin(Decimals(b), '.');
    forall i | 0 <= i < 4 ensures a[i] == b[i] {
      assert Decimals(a)[i] == Decimals(b)[i];
      DecimalInjective(a[i], b[i]);
    }
  }

  lemma {:induction false} JoinAvoids(parts: seq<string>, sep: string, c: char)
    requires c !in sep && forall i | 0 <= i < |parts| :: c !in parts[i]
    ensures c !in Join(parts, sep)
  {
    if |parts| > 1 {
      JoinAvoids(parts[1..], sep, c);
    }
  }

  lemma {:induction false} DottedAvoids(b: seq<Byte>, c: char)
    requires c != '.' && !IsDigit(c)
    ensures c !in Dotted(b)
  {
    JoinAvoids(Decimals(b), ".", c);
  }

  lemma {:induction false} DottedShape(b: seq<Byte>)
    requires |b| == 4
    ensures ':' !in Dotted(b) && '.' in Dotted(b)
  {
    var parts := Decimals(b);
    JoinAvoids(parts, ".", ':');
    assert Dotted(b) == parts[0] + "." + Join(parts[1..], ".");
    assert Dotted(b)[|parts[0]|] == '.';
  }

  // ---- route distinguishers ----

  function FormatRD(b: seq<Byte>): string {
    if |b| < 8 then ""
    else
      var kind := U16Be(b[0..2]);
      if kind == 0 then Decimal(U16Be(b[2..4])) + ":" + Decimal(U32Be(b[4..8]))
      else if kind == 1 then Dotted(b[2..6]) + ":" + Decimal(U16Be(b[6..8]))
      else if kind == 2 then Decimal(U32Be(b[2..6])) + ":" + Decimal(U16Be(b[6..8]))
      else ""
  }

  /** A route distinguisher of one of the three types of section 4.2 of RFC 4364. */
  datatype Rd = As2(asn: nat, n: nat) | Ip4(ip: seq<Byte>, n: nat) | As4(asn: nat, n: nat) {
    predicate Valid() {
      match this
      case As2(asn, n) => FitsU16(asn) && FitsU32(n)
      case Ip4(ip, n) => |ip| == 4 && FitsU16(n)
      case As4(asn, n) => FitsU32(asn) && FitsU16(n)
    }

    function Kind(): nat {
      match this case As2(_, _) => 0 case Ip4(_, _) => 1 case As4(_, _) => 2
    }

    /** The six bytes after the type. */
    ghost function Body(): (b: seq<Byte>)
      requires Valid()
      ensures |b| == 6
    {
      match this
      case As2(asn, n) => PutU16Be(asn) + PutU32Be(n)
      case Ip4(ip, n) => ip + PutU16Be(n)
      case As4(asn, n) => PutU32Be(asn) + PutU16Be(n)
    }

    ghost function Encode(): (b: seq<Byte>)
      requires Valid()
      ensures |b| == 8
    {
      PutU16Be(Kind()) + Body()
    }

    function Admin(): string {
      match this case As2(asn, _) => Decimal(asn) case Ip4(ip, _) => Dotted(ip) case As4(asn, _) => Decimal(asn)
    }

    function AsText(): string { Admin() + ":" + Decimal(n) }
  }

  /** The six bytes read back as their two numbers, whatever precedes them. */
  lemma {:induction false} BodyReads(rd: Rd, b: seq<Byte>)
    requires rd.Valid() && |b| == 8 && b[2..] == rd.Body()
    ensures rd.As2? ==> U16Be(b[2..4]) == rd.asn && U32Be(b[4..8]) == rd.n
    ensures rd.Ip4? ==> b[2..6] == rd.ip && U16Be(b[6..8]) == rd.n
    ensures rd.As4? ==> U32Be(b[2..6]) == rd.asn && U16Be(b[6..8]) == rd.n
  {
    var body := b[2..];
    assert b[2..4] == body[0..2] && b[4..8] == body[2..6] && b[2..6] == body[0..4] && b[6..8] == body[4..6];
    match rd
    case As2(asn, n) => assert body[0..2] == PutU16Be(asn) && body[2..6] == PutU32Be(n);
    case Ip4(ip, n) => assert body[0..4] == ip && body[4..6] == PutU16Be(n);
    case As4(asn, n) => assert body[0..4] == PutU32Be(asn) && body[4..6] == PutU16Be(n);
  }

  lemma {:induction false} FormatUndoesEncode(rd: Rd)
    requires rd.Valid()
    ensures FormatRD(rd.Encode()) == rd.AsText()
  {
    var b := rd.Encode();
    assert b[0..2] == PutU16Be(rd.Kind()) && b[2..] == rd.Body();
    BodyReads(rd, b);
  }

  /** Two distinguishers render alike exactly when they carry the same numbers: the text forgets
      whether an AS number was written in two or four bytes, and nothing else. */
  lemma {:induction false} TextForgetsOnlyWidth(a: Rd, b: Rd)
    requires a.Valid() && b.Valid()
    ensures a.AsText() == b.AsText() <==>
            a.n == b.n && (if a.Ip4? then b.Ip4? && a.ip == b.ip else !b.Ip4? && a.asn == b.asn)
  {
    AdminShape(a);
    AdminShape(b);
    if a.AsText() == b.AsText() {
      BeforeSeparator(a.Admin(), ':', Decimal(a.n));
      BeforeSeparator(b.Admin(), ':', Decimal(b.n));
      assert a.Admin() == b.Admin();
      assert a.AsText()[|a.Admin()| + 1..] == Decimal(a.n) && b.AsText()[|b.Admin()| + 1..] == Decimal(b.n);
      DecimalInjective(a.n, b.n);
      if a.Ip4? {
        DottedInjective(a.ip, b.ip);
      } else {
        DecimalInjective(a.asn, b.asn);
      }
    }
  }

  lemma {:induction false} AdminShape(rd: Rd)
    requires rd.Valid()
    ensures ':' !in rd.Admin() && ('.' in rd.Admin() <==> rd.Ip4?)
  {
    if rd.Ip4? {
      DottedShape(rd.ip);
    }
  }

  // ---- route targets ----

  const ROUTE_TARGET: Byte := 2

  /** One extended community, if it is a route target of a known type. */
  function TargetText(c: seq<Byte>): seq<string>
    requires |c| == 8
  {
    if c[1] != ROUTE_TARGET then []
    else if c[0] == 0 then [Decimal(U16Be(c[2..4])) + ":" + Decimal(U32Be(c[4..8]))]
    else if c[0] == 1 then [Dotted(c[2..6]) + ":" + Decimal(U16Be(c[6..8]))]
    else if c[0] == 2 then [Decimal(U32Be(c[2..6])) + ":" + Decimal(U16Be(c[6..8]))]
    else []
  }

  function RouteTargets(v: seq<Byte>): seq<string> {
    if |v| < 8 then [] else TargetText(v[..8]) + RouteTargets(v[8..])
  }

  method ParseRTs(v: seq<Byte>) returns (rts: seq<string>)
    ensures rts == RouteTargets(v)
  {
    rts := [];
    var rest := v;
    while |rest| >= 8
      invariant RouteTargets(v) == rts + RouteTargets(rest)
      decreases |rest|
    {
      var text := ParseRT(rest[..8]);
      rts := rts + text;
      rest := rest[8..];
    }
  }

  method ParseRT(c: seq<Byte>) returns (text: seq<string>)
    requires |c| == 8
    ensures text == TargetText(c)
  {
    if c[1] != ROUTE_TARGET {
      return [];
    }
    match c[0] {
      case 0 => text := [Decimal(U16Be(c[2..4])) + ":" + Decimal(U32Be(c[4..8]))];
      case 1 => text := [Dotted(c[2..6]) + ":" + Decimal(U16Be(c[6..8]))];
      case 2 => text := [Decimal(U32Be(c[2..6])) + ":" + Decimal(U16Be(c[6..8]))];
      case _ => text := [];
    }
  }

  /** An extended community: a route target, or anything else (section 4 of RFC 4360). */
  datatype Community = Target(rd: Rd) | Other(b: seq<Byte>) {
    predicate Valid() {
      match this
      case Target(rd) => rd.Valid()
      case Other(b) => |b| == 8 && (b[1] != ROUTE_TARGET || b[0] > 2)
    }

    ghost function Encode(): (b: seq<Byte>)
      requires Valid()
      ensures |b| == 8
    {
      match this case Target(rd) => [rd.Kind(), ROUTE_TARGET] + rd.Body() case Other(b) => b
    }
  }

  ghost function EncodeCommunities(cs: seq<Community>): seq<Byte>
    requires forall c | c in cs :: c.Valid()
  {
    if cs == [] then []
    else
      assert cs[0] in cs;
      cs[0].Encode() + EncodeCommunities(cs[1..])
  }

  function Targets(cs: seq<Community>): seq<string> {
    if cs == [] then [] else (if cs[0].Target? then [cs[0].rd.AsText()] else []) + Targets(cs[1..])
  }

  /** Exactly the encoded route targets are found, in order; other communities and trailing bytes are skipped. */
  lemma {:induction false} TargetsRoundTrip(cs: seq<Community>, rest: seq<Byte>)
    requires (forall c | c in cs :: c.Valid()) && |rest| < 8
    ensures RouteTargets(EncodeCommunities(cs) + rest) == Targets(cs)
  {
    var v := EncodeCommunities(cs) + rest;
    if cs == [] {
      assert v == rest;
    } else {
      assert cs[0] in cs;
      var c := cs[0].Encode();
      assert v[..8] == c && v[8..] == EncodeCommunities(cs[1..]) + rest;
      TargetsRoundTrip(cs[1..], rest);
      if cs[0].Target? {
        assert c[2..] == cs[0].rd.Body();
        BodyReads(cs[0].rd, c);
      }
    }
  }
}
