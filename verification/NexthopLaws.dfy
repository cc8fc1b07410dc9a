/** Nexthop objects in terms of attribute numbers and octets: what each attribute contributes, a message written out,
    and the order in which an object is resolved. */
module NexthopLaws {
  import opened Wrappers
  import opened Bytes
  import opened Sequences
  import opened Netlink
  import opened Nexthop

  /** Four octets, least significant first. */
  function Number(a: Byte, b: Byte, c: Byte, d: Byte): nat {
    a as int + b as int * 0x100 + c as int * 0x1_0000 + d as int * 0x100_0000
  }

  // ---- one more attribute ----

  /** A gateway replaces the one before it, whatever its size; a blackhole attribute needs no payload. */
  lemma {:induction false} GatewayAndBlackhole(attrs: seq<Attr>, p: seq<Byte>)
    ensures (ObjectOf(attrs + [Attr(6, p)]), ObjectOf(attrs + [Attr(3, p)])) ==
            (ObjectOf(attrs).(gw := p), ObjectOf(attrs).(blackhole := true))
  {
    ObjectAppended(attrs, Attr(6, p));
    ObjectAppended(attrs, Attr(3, p));
  }

  /** An interface index has four octets, least significant first, and shorter ones are ignored. */
  lemma {:induction false} InterfaceIndex(attrs: seq<Attr>, p: seq<Byte>)
    ensures ObjectOf(attrs + [Attr(5, p)]) ==
            if |p| < 4 then ObjectOf(attrs)
            else ObjectOf(attrs).(oif := Number(p[0], p[1], p[2], p[3]))
  {
    ObjectAppended(attrs, Attr(5, p));
    if |p| >= 4 {
      LittleEndian(p);
    }
  }

  lemma {:induction false} LittleEndian(p: seq<Byte>)
    requires |p| >= 4
    ensures U32Le(p) == Number(p[0], p[1], p[2], p[3])
  {
    assert p[0..2] == [p[0], p[1]] && p[2..4] == [p[2], p[3]];
  }

  /** The members of one more group attribute are added behind those so far, each from the first four of its
      eight octets. */
  lemma {:induction false} GroupMembers(attrs: seq<Attr>, m: seq<Byte>, rest: seq<Byte>)
    requires |m| == 8
    ensures ObjectOf(attrs + [Attr(2, m + rest)]).group ==
            ObjectOf(attrs).group + [Number(m[0], m[1], m[2], m[3])] + Members(rest)
  {
    ObjectAppended(attrs, Attr(2, m + rest));
    assert (m + rest)[0..4] == m[..4] && (m + rest)[8..] == rest;
    LittleEndian(m[..4]);
    Regroup(ObjectOf(attrs).group, [U32Le(m[..4])], Members(rest));
  }

  /** Labels count unless the encapsulation is said to be of a type other than 1, which is MPLS, or 0. */
  lemma {:induction false} OtherEncapsulations(attrs: seq<Attr>, p: seq<Byte>)
    requires forall a | a in attrs :: a.atype != 7
    ensures ObjectOf(attrs + [Attr(7, p)]).labels ==
            if |p| < 2 || (p[1] == 0 && p[0] <= 1) then ObjectOf(attrs).labels else []
  {
    FieldsAppended(attrs, Attr(7, p));
    NoType(attrs);
  }

  /** One more encapsulation replaces the labels of the one before. */
  lemma {:induction false} LaterEncapsulation(attrs: seq<Attr>, p: seq<Byte>)
    requires forall a | a in attrs :: a.atype != 7
    ensures ObjectOf(attrs + [Attr(8, p)]) == ObjectOf(attrs).(labels := MplsEncap(p))
  {
    FieldsAppended(attrs, Attr(8, p));
    NoType(attrs);
  }

  lemma {:induction false} NoType(attrs: seq<Attr>)
    requires forall a | a in attrs :: a.atype != 7
    ensures LastLong(attrs, 7, 2) == None
  {
    if attrs != [] {
      NoType(attrs[..|attrs| - 1]);
    }
  }

  /** The id decides which object is stored, and a message without one changes nothing. */
  lemma {:induction false} StoredUnderItsId(nh: map<nat, Object>, attrs: seq<Attr>, p: seq<Byte>)
    requires |p| >= 4
    ensures UpdatedBy(nh, attrs + [Attr(1, p)], false) ==
            var id := Number(p[0], p[1], p[2], p[3]);
            if id == 0 then nh else nh[id := ObjectOf(attrs)]
  {
    ObjectAppended(attrs, Attr(1, p));
    FieldsAppended(attrs, Attr(1, p));
    LittleEndian(p);
  }

  lemma {:induction false} ObjectAppended(attrs: seq<Attr>, a: Attr)
    ensures ObjectOf(attrs + [a]) ==
            var f := Visit(FieldsOf(attrs), a);
            Object(f.gw, f.oif, f.group, if f.encapType in {0, 1} then f.labels else [], f.bh)
  {
    FieldsAppended(attrs, a);
  }

  // ---- octets ----

  /** Attributes are framed by their length and their type, with the flags in the top bits and padding behind. */
  lemma {:induction false} AttributeOctets(flags: nat, atype: Byte, payload: seq<Byte>)
    requires flags < 4 && |payload| + 4 < 256
    ensures RawAttr(flags, atype, payload).Encode() ==
            [|payload| + 4, 0, atype, flags * 64] + payload + Zeros((4 - |payload| % 4) % 4)
  {
    SixteenBits(|payload| + 4);
    SixteenBits(flags * 0x4000 + atype);
    Quotient(flags * 0x4000 + atype, 0x100, flags * 0x40, atype);
    Padding(|payload|);
    assert [|payload| + 4, 0] + [atype, flags * 64] == [|payload| + 4, 0, atype, flags * 64];
  }

  lemma {:induction false} Padding(n: nat)
    ensures Align4(n + 4) - (n + 4) == (4 - n % 4) % 4
  {
    Quotient(n, 4, n / 4, n % 4);
  }

  /** The top two of the sixteen bits of a type are flags. */
  lemma {:induction false} FlagsAreStripped(t: Byte, f: Byte)
    ensures Walk([4, 0, t, f]) == [Attr(t + 256 * (f % 64), [])]
  {
    var b: seq<Byte> := [4, 0, t, f];
    assert b[0..2] == [4, 0] && b[2..4] == [t, f] && b[4..4] == [] && b[4..] == [];
    Quotient(f * 256 + t, 0x4000, f / 64, f % 64 * 256 + t);
  }

  /** A label stack entry: label 17, bottom of the stack, time to live 64. */
  lemma {:induction false} OneLabel(rest: seq<Byte>)
    ensures DecodeStack([0x00, 0x01, 0x11, 0x40] + rest) == [17]
  {
    var p := [0x00, 0x01, 0x11, 0x40] + rest;
    assert p[..4] == [0x00, 0x01, 0x11, 0x40];
    assert p[..4][0..2] == [0x00, 0x01] && p[..4][2..4] == [0x11, 0x40];
    assert U32Be(p[..4]) == 0x1_1140;
  }

  /** Without the bottom bit the next entry belongs to the stack. */
  lemma {:induction false} TwoLabels(rest: seq<Byte>)
    ensures DecodeStack([0x00, 0x01, 0x20, 0x40] + ([0x00, 0x01, 0x11, 0x40] + rest)) == [18, 17]
  {
    var p := [0x00, 0x01, 0x20, 0x40] + ([0x00, 0x01, 0x11, 0x40] + rest);
    OneLabel(rest);
    assert p[..4] == [0x00, 0x01, 0x20, 0x40] && p[4..] == [0x00, 0x01, 0x11, 0x40] + rest;
    assert p[..4][0..2] == [0x00, 0x01] && p[..4][2..4] == [0x20, 0x40];
    assert U32Be(p[..4]) == 0x1_2040;
  }

  lemma {:induction false} EncapOctets()
    ensures MplsEncap([8, 0, 1, 0] + [0x00, 0x01, 0x11, 0x40]) == [17]
  {
    var dst := RawAttr(0, 1, [0x00, 0x01, 0x11, 0x40]);
    AttributeOctets(0, 1, dst.payload);
    OneLabel([]);
    assert dst.payload + [] == dst.payload;
    assert [dst][1..] == [] && EncodeAll([dst]) == dst.Encode() + [];
    WalkUndoesEncoding([dst]);
    assert dst.Encode() == [8, 0, 1, 0] + [0x00, 0x01, 0x11, 0x40];
    assert AllSeen([dst]) == [Attr(1, dst.payload)];
    LastOfAppended([], Attr(1, dst.payload), 1);
    assert [] + [Attr(1, dst.payload)] == [Attr(1, dst.payload)];
  }

  /** The attributes of a message in the order in which the kernel and zebra send them: id, interface, gateway, type
      of encapsulation, encapsulation. */
  function Sent(id: Byte, oif: Byte, gw: seq<Byte>, encap: seq<Byte>): seq<RawAttr> {
    [RawAttr(0, 1, [id, 0, 0, 0])] + ([RawAttr(0, 5, [oif, 0, 0, 0])] + ([RawAttr(0, 6, gw)]
    + ([RawAttr(0, 7, [1, 0])] + [RawAttr(2, 8, encap)])))
  }

  lemma {:induction false} SentOctets(id: Byte, oif: Byte, gw: seq<Byte>, encap: seq<Byte>)
    requires |gw| == 4 && |encap| == 8
    ensures AllValid(Sent(id, oif, gw, encap))
    ensures EncodeAll(Sent(id, oif, gw, encap)) ==
            [8, 0, 1, 0] + [id, 0, 0, 0] + ([8, 0, 5, 0] + [oif, 0, 0, 0] + ([8, 0, 6, 0] + gw
            + ([6, 0, 7, 0] + [1, 0] + Zeros(2) + ([12, 0, 8, 128] + encap))))
  {
    FiveEncoded(RawAttr(0, 1, [id, 0, 0, 0]), RawAttr(0, 5, [oif, 0, 0, 0]), RawAttr(0, 6, gw),
                RawAttr(0, 7, [1, 0]), RawAttr(2, 8, encap));
    UnpaddedOctets(0, 1, [id, 0, 0, 0]);
    UnpaddedOctets(0, 5, [oif, 0, 0, 0]);
    UnpaddedOctets(0, 6, gw);
    AttributeOctets(0, 7, [1, 0]);
    UnpaddedOctets(2, 8, encap);
  }

  lemma {:induction false} FiveEncoded(a: RawAttr, b: RawAttr, c: RawAttr, d: RawAttr, e: RawAttr)
    requires a.Valid() && b.Valid() && c.Valid() && d.Valid() && e.Valid()
    ensures var all := [a] + ([b] + ([c] + ([d] + [e])));
            AllValid(all) &&
            EncodeAll(all) == a.Encode() + (b.Encode() + (c.Encode() + (d.Encode() + e.Encode())))
  {
    OneEncoded(e);
    EncodeFront(d, [e]);
    EncodeFront(c, [d] + [e]);
    EncodeFront(b, [c] + ([d] + [e]));
    EncodeFront(a, [b] + ([c] + ([d] + [e])));
  }

  lemma {:induction false} UnpaddedOctets(flags: nat, atype: Byte, payload: seq<Byte>)
    requires flags < 4 && |payload| + 4 < 256 && |payload| % 4 == 0
    ensures RawAttr(flags, atype, payload).Encode() == [|payload| + 4, 0, atype, flags * 64] + payload
  {
    AttributeOctets(flags, atype, payload);
  }

  lemma {:induction false} EncodeFront(a: RawAttr, rest: seq<RawAttr>)
    requires a.Valid() && AllValid(rest)
    ensures AllValid([a] + rest) && EncodeAll([a] + rest) == a.Encode() + EncodeAll(rest)
  {
    assert ([a] + rest)[1..] == rest;
  }

  lemma {:induction false} OneEncoded(a: RawAttr)
    requires a.Valid()
    ensures AllValid([a]) && EncodeAll([a]) == a.Encode()
  {
    assert [a][1..] == [];
  }

  lemma {:induction false} SentFields(id: Byte, oif: Byte, gw: seq<Byte>, encap: seq<Byte>)
    ensures FieldsOf(AllSeen(Sent(id, oif, gw, encap))) == Fields(id, oif, gw, [], MplsEncap(encap), 1, false)
  {
    var a, b, c, d, e := Attr(1, [id, 0, 0, 0]), Attr(5, [oif, 0, 0, 0]), Attr(6, gw), Attr(7, [1, 0]), Attr(8, encap);
    assert AllSeen(Sent(id, oif, gw, encap)) == [a] + [b] + [c] + [d] + [e];
    LittleEndian(a.payload);
    LittleEndian(b.payload);
    assert FieldsOf([]) == Fields(0, 0, [], [], [], 0, false);
    FieldsAppended([], a);
    assert [] + [a] == [a];
    FieldsAppended([a], b);
    FieldsAppended([a] + [b], c);
    FieldsAppended([a] + [b] + [c], d);
    FieldsAppended([a] + [b] + [c] + [d], e);
  }

  /** A message behind its 24 octets of header, with an encapsulation of one label. */
  lemma {:induction false} MessageOctets(
      nh: map<nat, Object>, header: seq<Byte>, id: Byte, oif: Byte, gw: seq<Byte>)
    requires |header| == 24 && |gw| == 4 && id > 0
    ensures Updated(nh, header + ([8, 0, 1, 0] + [id, 0, 0, 0] + ([8, 0, 5, 0] + [oif, 0, 0, 0] + ([8, 0, 6, 0] + gw
                                  + ([6, 0, 7, 0] + [1, 0] + Zeros(2)
                                  + ([12, 0, 8, 128] + ([8, 0, 1, 0] + [0x00, 0x01, 0x11, 0x40])))))), false) ==
            nh[id as nat := Object(gw, oif, [], [17], false)]
  {
    var encap: seq<Byte> := [8, 0, 1, 0] + [0x00, 0x01, 0x11, 0x40];
    var attrs := Sent(id, oif, gw, encap);
    SentOctets(id, oif, gw, encap);
    SentFields(id, oif, gw, encap);
    EncapOctets();
    ReadBehindHeader(nh, header, attrs);
    StoredFields(nh, AllSeen(attrs), Fields(id, oif, gw, [], [17], 1, false));
  }

  lemma {:induction false} StoredFields(nh: map<nat, Object>, attrs: seq<Attr>, f: Fields)
    requires FieldsOf(attrs) == f && f.id != 0 && f.encapType == 1
    ensures UpdatedBy(nh, attrs, false) == nh[f.id := Object(f.gw, f.oif, f.group, f.labels, f.bh)]
  {
  }

  // ---- resolving ----

  /** A blackhole is one whatever else it says. */
  lemma {:induction false} BlackholeFirst(nh: map<nat, Object>, id: nat, depth: nat)
    requires id in nh && nh[id].blackhole && depth <= 4
    ensures Resolve(nh, id, depth) == Resolved([], 0, true, [])
  {
  }

  /** Then a gateway or an interface counts, and the group beside it does not. */
  lemma {:induction false} OwnBeforeGroup(nh: map<nat, Object>, id: nat, depth: nat)
    requires id in nh && !nh[id].blackhole && (nh[id].gw != [] || nh[id].oif != 0) && depth <= 4
    ensures Resolve(nh, id, depth) == Resolved(nh[id].gw, nh[id].oif, false, nh[id].labels)
  {
  }

  /** Along a chain of plain groups the first member is followed each time; labels of the groups do not count, and
      other members do not matter. */
  lemma {:induction false} FirstMembersAreFollowed(
      nh: map<nat, Object>, ids: seq<nat>, others: seq<seq<nat>>, labels: seq<seq<nat>>, k: nat)
    requires k < |ids| && |ids| == |others| == |labels|
    requires forall i | 0 <= i < k ::
               ids[i] in nh && nh[ids[i]] == Object([], 0, [ids[i + 1]] + others[i], labels[i], false)
    ensures Resolve(nh, ids[0], 0) == if k <= 4 then Resolve(nh, ids[k], k) else Resolved([], 0, false, [])
  {
    if k > 0 {
      FirstMembersAreFollowed(nh, ids, others, labels, k - 1);
      assert nh[ids[k - 1]] == Object([], 0, [ids[k]] + others[k - 1], labels[k - 1], false);
    }
  }
}
