/** Nexthop objects: how netlink messages update the table, and how a route's nexthop id
    is resolved through groups, proved against following group heads without a limit. */
module Nexthop {
  import opened Wrappers
  import opened Bytes
  import opened Sequences
  import opened Netlink
  import opened Orbit

  const NLHDR_LEN: nat := 16
  const NHMSG_LEN: nat := 8

  const NHA_ID: nat := 1
  const NHA_GROUP: nat := 2
  const NHA_BLACKHOLE: nat := 3
  const NHA_OIF: nat := 5
  const NHA_GATEWAY: nat := 6
  const NHA_ENCAP_TYPE: nat := 7
  const NHA_ENCAP: nat := 8
  const LWT_ENCAP_MPLS: nat := 1

  /** A gateway of no bytes is Go's nil address. */
  datatype Object = Object(gw: seq<Byte>, oif: nat, group: seq<nat>, labels: seq<nat>, blackhole: bool)

  // ---- decoding a nexthop message ----

  /** The last payload of a type that has at least `size` bytes: shorter ones are ignored. */
  function LastLong(attrs: seq<Attr>, atype: nat, size: nat): (r: Option<seq<Byte>>)
    ensures r.Some? ==> |r.value| >= size
  {
    if attrs == [] then None
    else
      var a := attrs[|attrs| - 1];
      if a.atype == atype && |a.payload| >= size then Some(a.payload) else LastLong(attrs[..|attrs| - 1], atype, size)
  }

  function U32Of(attrs: seq<Attr>, atype: nat): nat {
    var p := LastLong(attrs, atype, 4);
    if p.None? then 0 else U32Le(p.value)
  }

  /** The member ids of one group attribute: 8 bytes each, id first. */
  function Members(p: seq<Byte>): seq<nat> {
    if |p| < 8 then [] else [U32Le(p[0..4])] + Members(p[8..])
  }

  function GroupOf(attrs: seq<Attr>): seq<nat> {
    if attrs == [] then []
    else
      var a := attrs[|attrs| - 1];
      GroupOf(attrs[..|attrs| - 1]) + (if a.atype == NHA_GROUP then Members(a.payload) else [])
  }

  /** The nested attributes of every encapsulation are walked in bounds. */
  ghost predicate NestedInBounds(attrs: seq<Attr>) {
    forall a | a in attrs && a.atype == NHA_ENCAP :: InBounds(a.payload)
  }

  /** The message is walked in bounds, nested attributes included. */
  ghost predicate ReadsInBounds(b: seq<Byte>) {
    |b| >= NLHDR_LEN + NHMSG_LEN ==>
      InBounds(b[NLHDR_LEN + NHMSG_LEN..]) && NestedInBounds(Walk(b[NLHDR_LEN + NHMSG_LEN..]))
  }

  function EncapOf(attrs: seq<Attr>): seq<nat> {
    if attrs == [] then []
    else
      var a := attrs[|attrs| - 1];
      if a.atype == NHA_ENCAP then MplsEncap(a.payload) else EncapOf(attrs[..|attrs| - 1])
  }

  function EncapTypeOf(attrs: seq<Attr>): nat {
    var p := LastLong(attrs, NHA_ENCAP_TYPE, 2);
    if p.None? then 0 else U16Le(p.value)
  }

  /** The object a list of attributes describes. Labels count only under MPLS encapsulation or an unstated type. */
  function ObjectOf(attrs: seq<Attr>): Object {
    var gw := LastOf(attrs, NHA_GATEWAY);
    Object(if gw.None? then [] else gw.value,
           U32Of(attrs, NHA_OIF),
           GroupOf(attrs),
           if EncapTypeOf(attrs) in {0, LWT_ENCAP_MPLS} then EncapOf(attrs) else [],
           LastOf(attrs, NHA_BLACKHOLE).Some?)
  }

  // ---- the callback, one attribute at a time ----

  /** The local variables of the handler after visiting `attrs`. */
  datatype Fields = Fields(id: nat, oif: nat, gw: seq<Byte>, group: seq<nat>, labels: seq<nat>, encapType: nat,
      bh: bool)

  function FieldsOf(attrs: seq<Attr>): Fields {
    var gw := LastOf(attrs, NHA_GATEWAY);
    Fields(U32Of(attrs, NHA_ID), U32Of(attrs, NHA_OIF), if gw.None? then [] else gw.value, GroupOf(attrs),
           EncapOf(attrs), EncapTypeOf(attrs), LastOf(attrs, NHA_BLACKHOLE).Some?)
  }

  function Visit(f: Fields, a: Attr): Fields {
    var p := a.payload;
    if a.atype == NHA_ID then (if |p| >= 4 then f.(id := U32Le(p)) else f)
    else if a.atype == NHA_OIF then (if |p| >= 4 then f.(oif := U32Le(p)) else f)
    else if a.atype == NHA_GATEWAY then f.(gw := p)
    else if a.atype == NHA_BLACKHOLE then f.(bh := true)
    else if a.atype == NHA_ENCAP_TYPE then (if |p| >= 2 then f.(encapType := U16Le(p)) else f)
    else if a.atype == NHA_ENCAP then f.(labels := MplsEncap(p))
    else if a.atype == NHA_GROUP then f.(group := f.group + Members(p))
    else f
  }

  lemma {:induction false} FieldsAppended(attrs: seq<Attr>, a: Attr)
    ensures FieldsOf(attrs + [a]) == Visit(FieldsOf(attrs), a)
  {
    LastLongAppended(attrs, a, NHA_ID, 4);
    LastLongAppended(attrs, a, NHA_OIF, 4);
    LastLongAppended(attrs, a, NHA_ENCAP_TYPE, 2);
    LastOfAppended(attrs, a, NHA_GATEWAY);
    LastOfAppended(attrs, a, NHA_BLACKHOLE);
    ListsAppended(attrs, a);
  }

  lemma {:induction false} LastLongAppended(attrs: seq<Attr>, a: Attr, atype: nat, size: nat)
    ensures LastLong(attrs + [a], atype, size) ==
            if a.atype == atype && |a.payload| >= size then Some(a.payload) else LastLong(attrs, atype, size)
  {
    assert (attrs + [a])[..|attrs|] == attrs;
  }

  lemma {:induction false} ListsAppended(attrs: seq<Attr>, a: Attr)
    ensures GroupOf(attrs + [a]) == GroupOf(attrs) + (if a.atype == NHA_GROUP then Members(a.payload) else [])
    ensures EncapOf(attrs + [a]) == if a.atype == NHA_ENCAP then MplsEncap(a.payload) else EncapOf(attrs)
  {
    assert (attrs + [a])[..|attrs|] == attrs;
  }

  method MembersOf(p: seq<Byte>) returns (ids: seq<nat>)
    ensures ids == Members(p)
  {
    var rest := p;
    ids := [];
    while |rest| >= 8
      invariant Members(p) == ids + Members(rest)
      decreases |rest|
    {
      Regroup(ids, [U32Le(rest[0..4])], Members(rest[8..]));
      ids := ids + [U32Le(rest[0..4])];
      rest := rest[8..];
    }
  }

  // ---- what a message does to the table ----

  function UpdatedBy(nh: map<nat, Object>, attrs: seq<Attr>, del: bool): map<nat, Object> {
    var id := U32Of(attrs, NHA_ID);
    if id == 0 then nh else if del then nh - {id} else nh[id := ObjectOf(attrs)]
  }

  function Updated(nh: map<nat, Object>, b: seq<Byte>, del: bool): map<nat, Object> {
    if |b| < NLHDR_LEN + NHMSG_LEN then nh else UpdatedBy(nh, Walk(b[NLHDR_LEN + NHMSG_LEN..]), del)
  }

  class Table {
    var nh: map<nat, Object>

    constructor ()
      ensures nh == map[]
    {
      nh := map[];
    }

    method HandleNexthop(b: seq<Byte>, del: bool)
      requires ReadsInBounds(b)
      modifies this
      ensures nh == Updated(old(nh), b, del)
    {
      if |b| < NLHDR_LEN + NHMSG_LEN {
        return;
      }
      var visited := ForEachAttr(b[NLHDR_LEN + NHMSG_LEN..]);
      var f := ScanFields(visited);
      if f.id == 0 {
        return;
      }
      if f.encapType != 0 && f.encapType != LWT_ENCAP_MPLS {
        f := f.(labels := []);
      }
      if del {
        nh := nh - {f.id};
      } else {
        nh := nh[f.id := Object(f.gw, f.oif, f.group, f.labels, f.bh)];
      }
    }

    method ScanFields(visited: seq<Attr>) returns (f: Fields)
      requires NestedInBounds(visited)
      ensures f == FieldsOf(visited)
    {
      f := Fields(0, 0, [], [], [], 0, false);
      for i := 0 to |visited|
        invariant f == FieldsOf(visited[..i])
      {
        var a := visited[i];
        var p := a.payload;
        assert visited[..i + 1] == visited[..i] + [a];
        FieldsAppended(visited[..i], a);
        if a.atype == NHA_ID {
          if |p| >= 4 {
            f := f.(id := U32Le(p));
          }
        } else if a.atype == NHA_OIF {
          if |p| >= 4 {
            f := f.(oif := U32Le(p));
          }
        } else if a.atype == NHA_GATEWAY {
          f := f.(gw := p);
        } else if a.atype == NHA_BLACKHOLE {
          f := f.(bh := true);
        } else if a.atype == NHA_ENCAP_TYPE {
          if |p| >= 2 {
            f := f.(encapType := U16Le(p));
          }
        } else if a.atype == NHA_ENCAP {
          var labels := ParseMplsEncap(p);
          f := f.(labels := labels);
        } else if a.atype == NHA_GROUP {
          var ids := MembersOf(p);
          f := f.(group := f.group + ids);
        }
      }
      assert visited[..|visited|] == visited;
    }
  }

  // ---- encoding an object ----

  /** An object as zebra announces it, with the full stack entries of its labels and the weights of its members. */
  datatype Announcement = Announcement(
    id: nat, gw: seq<Byte>, oif: nat, members: seq<(nat, nat)>, stack: seq<StackEntry>, blackhole: bool)
  {
    ghost predicate Valid() {
      && 0 < id && FitsU32(id) && FitsU32(oif) && |gw| <= 16
      && |members| < 0x1000 && (forall m | m in members :: FitsU32(m.0) && FitsU32(m.1))
      && |stack| < 0x1000 && (forall e | e in stack :: e.Valid())
    }

    function AsObject(): Object {
      Object(gw, oif, Ids(members), Labels(stack), blackhole)
    }
  }

  function Ids(members: seq<(nat, nat)>): (ids: seq<nat>)
    ensures |ids| == |members| && forall i | 0 <= i < |ids| :: ids[i] == members[i].0
  {
    seq(|members|, i requires 0 <= i < |members| => members[i].0)
  }

  ghost function EncodeMembers(members: seq<(nat, nat)>): (b: seq<Byte>)
    requires forall m | m in members :: FitsU32(m.0) && FitsU32(m.1)
    ensures |b| == 8 * |members|
  {
    if members == [] then []
    else
      assert members[0] in members;
      PutU32Le(members[0].0) + PutU32Le(members[0].1) + EncodeMembers(members[1..])
  }

  lemma {:induction false} MembersRoundTrip(members: seq<(nat, nat)>)
    requires forall m | m in members :: FitsU32(m.0) && FitsU32(m.1)
    ensures Members(EncodeMembers(members)) == Ids(members)
  {
    if members != [] {
      var b := EncodeMembers(members);
      assert members[0] in members;
      assert b[0..4] == PutU32Le(members[0].0);
      assert b[8..] == EncodeMembers(members[1..]);
      MembersRoundTrip(members[1..]);
      assert Ids(members) == [members[0].0] + Ids(members[1..]);
    }
  }

  lemma {:induction false} StackSize(stack: seq<StackEntry>)
    requires forall e | e in stack :: e.Valid()
    ensures |EncodeStack(stack)| == 4 * |stack|
  {
    if stack != [] {
      StackSize(stack[1..]);
    }
  }

  ghost function EncapPayload(stack: seq<StackEntry>): (p: seq<Byte>)
    requires |stack| < 0x1000 && forall e | e in stack :: e.Valid()
    ensures |p| % 4 == 0 && |p| <= 4 * |stack| + 4
  {
    StackSize(stack);
    var dst := RawAttr(0, 1, EncodeStack(stack));
    assert EncodeAll([dst]) == dst.Encode() by {
      assert [dst][1..] == [];
    }
    EncodeAll([dst])
  }

  lemma {:induction false} EncapPayloadRoundTrip(stack: seq<StackEntry>)
    requires 0 < |stack| < 0x1000 && forall e | e in stack :: e.Valid()
    ensures MplsEncap(EncapPayload(stack)) == Labels(stack)
  {
    var dst := RawAttr(0, 1, EncodeStack(stack));
    StackSize(stack);
    assert [] + [dst] + [] == [dst];
    EncapRoundTrip([], 0, stack, []);
  }

  function Optional<T>(present: bool, x: T): seq<T> {
    if present then [x] else []
  }

  ghost function IdAttr(a: Announcement): RawAttr requires FitsU32(a.id) {
    RawAttr(0, 1, PutU32Le(a.id))
  }

  ghost function GroupAttr(
      a: Announcement): RawAttr requires forall m | m in a.members :: FitsU32(m.0) && FitsU32(m.1) {
    RawAttr(0, 2, EncodeMembers(a.members))
  }

  ghost function OifAttr(a: Announcement): RawAttr requires FitsU32(a.oif) {
    RawAttr(0, 5, PutU32Le(a.oif))
  }

  ghost function EncapAttr(
      a: Announcement): RawAttr requires |a.stack| < 0x1000 && forall e | e in a.stack :: e.Valid() {
    RawAttr(2, 8, EncapPayload(a.stack))
  }

  const BLACKHOLE_ATTR := RawAttr(0, 3, [])
  ghost const ENCAP_TYPE_ATTR := RawAttr(0, 7, PutU16Le(1))

  ghost function FirstAttributes(a: Announcement): seq<RawAttr>
    requires a.Valid()
  {
    [IdAttr(a)]
    + Optional(a.members != [], GroupAttr(a))
    + Optional(a.blackhole, BLACKHOLE_ATTR)
  }

  ghost function PlainAttributes(a: Announcement): seq<RawAttr>
    requires a.Valid()
  {
    FirstAttributes(a)
    + Optional(a.oif != 0, OifAttr(a))
    + Optional(a.gw != [], RawAttr(0, 6, a.gw))
  }

  /** Absent fields are not sent; the encapsulation carries the nested flag. */
  ghost function Attributes(a: Announcement): seq<RawAttr>
    requires a.Valid()
  {
    PlainAttributes(a)
    + Optional(a.stack != [], ENCAP_TYPE_ATTR)
    + Optional(a.stack != [], EncapAttr(a))
  }

  lemma {:induction false} VisitOptional(attrs: seq<RawAttr>, present: bool, r: RawAttr)
    requires AllValid(attrs) && r.Valid()
    ensures var more := attrs + Optional(present, r);
            && AllValid(more)
            && FieldsOf(AllSeen(more)) == if present then Visit(FieldsOf(AllSeen(attrs)), r.Seen())
               else FieldsOf(AllSeen(attrs))
  {
    var more := attrs + Optional(present, r);
    if present {
      assert AllSeen(more) == AllSeen(attrs) + [r.Seen()];
      FieldsAppended(AllSeen(attrs), r.Seen());
    } else {
      assert more == attrs;
    }
  }

  lemma {:induction false} IdIsRead(a: Announcement)
    requires a.Valid()
    ensures AllValid([IdAttr(a)]) && FieldsOf(AllSeen([IdAttr(a)])) == Fields(a.id, 0, [], [], [], 0, false)
  {
    VisitOptional([], true, IdAttr(a));
    assert [] + Optional(true, IdAttr(a)) == [IdAttr(a)];
    assert FieldsOf(AllSeen([])) == Fields(0, 0, [], [], [], 0, false);
  }

  lemma {:induction false} FirstAttributesAreRead(a: Announcement)
    requires a.Valid()
    ensures AllValid(FirstAttributes(a))
    ensures FieldsOf(AllSeen(FirstAttributes(a))) == Fields(a.id, 0, [], Ids(a.members), [], 0, a.blackhole)
  {
    var r2 := [IdAttr(a)] + Optional(a.members != [], GroupAttr(a));
    IdIsRead(a);
    assert FieldsOf(AllSeen(r2)) == Fields(a.id, 0, [], Ids(a.members), [], 0, false) by {
      VisitOptional([IdAttr(a)], a.members != [], GroupAttr(a));
      MembersRoundTrip(a.members);
    }
    assert AllValid(r2) by {
      VisitOptional([IdAttr(a)], a.members != [], GroupAttr(a));
    }
    VisitOptional(r2, a.blackhole, BLACKHOLE_ATTR);
  }

  lemma {:induction false} PlainAttributesAreRead(a: Announcement)
    requires a.Valid()
    ensures AllValid(PlainAttributes(a))
    ensures FieldsOf(AllSeen(PlainAttributes(a))) == Fields(a.id, a.oif, a.gw, Ids(a.members), [], 0, a.blackhole)
  {
    FirstAttributesAreRead(a);
    VisitOptional(FirstAttributes(a), a.oif != 0, OifAttr(a));
    VisitOptional(FirstAttributes(a) + Optional(a.oif != 0, OifAttr(a)), a.gw != [], RawAttr(0, 6, a.gw));
  }

  /** Visiting the attributes of an announcement leaves exactly its fields. */
  lemma {:induction false} AttributesAreRead(a: Announcement)
    requires a.Valid()
    ensures AllValid(Attributes(a))
    ensures FieldsOf(AllSeen(Attributes(a))) ==
            Fields(a.id, a.oif, a.gw, Ids(a.members), Labels(a.stack), if a.stack == [] then 0 else 1, a.blackhole)
  {
    var r6 := PlainAttributes(a) + Optional(a.stack != [], ENCAP_TYPE_ATTR);
    PlainAttributesAreRead(a);
    VisitOptional(PlainAttributes(a), a.stack != [], ENCAP_TYPE_ATTR);
    VisitOptional(r6, a.stack != [], EncapAttr(a));
    if a.stack != [] {
      EncapPayloadRoundTrip(a.stack);
    }
  }

  /** A netlink message that announces an object stores exactly that object, and nothing else changes;
      the same message as a deletion removes it. */
  lemma {:induction false} AnnouncementRoundTrip(nh: map<nat, Object>, header: seq<Byte>, a: Announcement)
    requires |header| == 24 && a.Valid()
    ensures AllValid(Attributes(a))
    ensures var b := header + EncodeAll(Attributes(a));
            && ReadsInBounds(b)
            && Updated(nh, b, false) == nh[a.id := a.AsObject()]
            && Updated(nh, b, true) == nh - {a.id}
  {
    AttributesAreRead(a);
    FieldsGiveObject(AllSeen(Attributes(a)), a);
    EncapIsPadded(a);
    ReadBehindHeader(nh, header, Attributes(a));
  }

  lemma {:induction false} ReadBehindHeader(nh: map<nat, Object>, header: seq<Byte>, attrs: seq<RawAttr>)
    requires |header| == 24 && AllValid(attrs)
    ensures ReadsInBounds(header + EncodeAll(attrs)) <==> NestedInBounds(AllSeen(attrs))
    ensures forall del :: Updated(nh, header + EncodeAll(attrs), del) == UpdatedBy(nh, AllSeen(attrs), del)
  {
    WalkUndoesEncoding(attrs);
    assert (header + EncodeAll(attrs))[24..] == EncodeAll(attrs);
  }

  lemma {:induction false} EncapIsPadded(a: Announcement)
    requires a.Valid()
    ensures NestedInBounds(AllSeen(Attributes(a)))
  {
    var attrs := Attributes(a);
    forall x | x in AllSeen(attrs) && x.atype == 8
      ensures InBounds(x.payload)
    {
      var i :| 0 <= i < |attrs| && AllSeen(attrs)[i] == x;
      assert attrs[i] in attrs && attrs[i] == EncapAttr(a);
      PaddedIsInBounds(x.payload);
    }
  }

  lemma {:induction false} FieldsGiveObject(attrs: seq<Attr>, a: Announcement)
    requires a.Valid()
    requires FieldsOf(attrs) ==
             Fields(a.id, a.oif, a.gw, Ids(a.members), Labels(a.stack), if a.stack == [] then 0 else 1, a.blackhole)
    ensures U32Of(attrs, 1) == a.id && ObjectOf(attrs) == a.AsObject()
  {
  }

  // ---- resolution ----

  /** A concrete answer; all empty when there is none. */
  datatype Resolved = Resolved(gw: seq<Byte>, oif: nat, blackhole: bool, labels: seq<nat>)

  const UNRESOLVED := Resolved([], 0, false, [])

  /** The code's recursion, cut off at a depth of 4. */
  function Resolve(nh: map<nat, Object>, id: nat, depth: nat): Resolved
    decreases 5 - depth
  {
    if depth > 4 then UNRESOLVED
    else if id !in nh then UNRESOLVED
    else if nh[id].blackhole then Resolved([], 0, true, [])
    else if nh[id].gw != [] || nh[id].oif != 0 then Resolved(nh[id].gw, nh[id].oif, false, nh[id].labels)
    else if nh[id].group != [] then Resolve(nh, nh[id].group[0], depth + 1)
    else UNRESOLVED
  }

  /** An object that is only a group stands for its first member. */
  function Follow(nh: map<nat, Object>, id: nat): Option<nat> {
    if id in nh && !nh[id].blackhole && nh[id].gw == [] && nh[id].oif == 0 && nh[id].group != []
    then Some(nh[id].group[0]) else None
  }

  function Follower(nh: map<nat, Object>): nat -> Option<nat> {
    (id: nat) => Follow(nh, id)
  }

  /** What an object answers for itself. */
  function Own(nh: map<nat, Object>, id: nat): Resolved {
    if id !in nh then UNRESOLVED
    else if nh[id].blackhole then Resolved([], 0, true, [])
    else if nh[id].gw != [] || nh[id].oif != 0 then Resolved(nh[id].gw, nh[id].oif, false, nh[id].labels)
    else UNRESOLVED
  }

  function Concrete(nh: map<nat, Object>): nat -> bool {
    (id: nat) => Own(nh, id) != UNRESOLVED
  }

  /** Following group heads reaches an object that answers after `k` steps. */
  ghost predicate AnswersAt(nh: map<nat, Object>, id: nat, k: nat) {
    HitsAt(Follower(nh), id, Concrete(nh), k)
  }

  /** Resolution without a limit: the answer at the end of the chain; cycles and dead ends have none. */
  ghost function ResolveFully(nh: map<nat, Object>, id: nat): Resolved {
    if exists k: nat :: AnswersAt(nh, id, k) then
      var k: nat :| AnswersAt(nh, id, k);
      Own(nh, After(Follower(nh), id, k).value)
    else UNRESOLVED
  }

  lemma {:induction false} NothingAfterAnswer(nh: map<nat, Object>, id: nat, k: nat, l: nat)
    requires AnswersAt(nh, id, k) && l > k
    ensures After(Follower(nh), id, l) == None
  {
    AfterAdds(Follower(nh), id, k, l - k);
    assert Follow(nh, After(Follower(nh), id, k).value) == None;
  }

  /** The chain ends at one place only. */
  lemma {:induction false} AnswersOnce(nh: map<nat, Object>, id: nat, k: nat, l: nat)
    requires AnswersAt(nh, id, k) && AnswersAt(nh, id, l)
    ensures k == l
  {
    if l > k {
      NothingAfterAnswer(nh, id, k, l);
    } else if l < k {
      NothingAfterAnswer(nh, id, l, k);
    }
  }

  lemma {:induction false} AnswerIsUnique(nh: map<nat, Object>, id: nat, k: nat)
    requires AnswersAt(nh, id, k)
    ensures ResolveFully(nh, id) == Own(nh, After(Follower(nh), id, k).value) != UNRESOLVED
  {
    forall l: nat | AnswersAt(nh, id, l) ensures l == k {
      AnswersOnce(nh, id, k, l);
    }
  }

  /** The bounded recursion finds exactly the answers that lie within its remaining depth. */
  lemma {:induction false} ResolveIsBounded(nh: map<nat, Object>, id: nat, depth: nat)
    requires depth <= 5
    ensures forall k: nat | depth + k <= 4 && AnswersAt(nh, id, k) ::
              Resolve(nh, id, depth) == Own(nh, After(Follower(nh), id, k).value)
    ensures (forall k: nat | depth + k <= 4 :: !AnswersAt(nh, id, k)) ==> Resolve(nh, id, depth) == UNRESOLVED
    decreases 5 - depth
  {
    if depth == 5 {
    } else {
      var next := Follow(nh, id);
      if next.Some? {
        ResolveIsBounded(nh, next.value, depth + 1);
        forall k: nat | k > 0 ensures AnswersAt(nh, id, k) <==> AnswersAt(nh, next.value, k - 1) {
        }
        forall k: nat ensures AnswersAt(nh, next.value, k) <==> AnswersAt(nh, id, k + 1) {
        }
      } else {
        forall k: nat | k > 0 ensures !AnswersAt(nh, id, k) {
        }
        assert AnswersAt(nh, id, 0) <==> Own(nh, id) != UNRESOLVED;
      }
    }
  }

  /** The code agrees with unlimited resolution exactly when there is no answer at all
      or the answer lies within five objects. */
  lemma {:induction false} ResolveIsExact(nh: map<nat, Object>, id: nat)
    ensures Resolve(nh, id, 0) == ResolveFully(nh, id) <==>
            (forall k: nat :: AnswersAt(nh, id, k) ==> k <= 4)
  {
    ResolveIsBounded(nh, id, 0);
    if k: nat :| AnswersAt(nh, id, k) {
      AnswerIsUnique(nh, id, k);
      forall l: nat | AnswersAt(nh, id, l) ensures l == k {
        AnswersOnce(nh, id, k, l);
      }
    }
  }

  /** A table of at most five objects is always resolved exactly, cycles included. */
  lemma {:induction false} SmallTablesAreExact(nh: map<nat, Object>, id: nat)
    requires |nh| <= 5
    ensures Resolve(nh, id, 0) == ResolveFully(nh, id)
  {
    forall k: nat | AnswersAt(nh, id, k) ensures k <= 4 {
      forall i: nat | i <= k ensures After(Follower(nh), id, i).Some? && After(Follower(nh), id, i).value in nh.Keys {
        PrefixDefined(Follower(nh), id, i, k);
        if i < k {
          AfterAdds(Follower(nh), id, i, 1);
          PrefixDefined(Follower(nh), id, i + 1, k);
          assert After(Follower(nh), After(Follower(nh), id, i).value, 1).Some?;
          assert Follow(nh, After(Follower(nh), id, i).value).Some?;
        }
      }
      HitWithinSpace(Follower(nh), id, Concrete(nh), nh.Keys, k);
      var first: nat :| first < |nh.Keys| && HitsAt(Follower(nh), id, Concrete(nh), first);
      AnswersOnce(nh, id, first, k);
      assert |nh.Keys| == |nh|;
    }
    ResolveIsExact(nh, id);
  }

  function GroupOfOne(id: nat): Object {
    Object([], 0, [id], [], false)
  }

  /** A chain of six objects: five groups in a row, then a gateway. */
  function SixChain(): map<nat, Object> {
    map[1 := GroupOfOne(2), 2 := GroupOfOne(3), 3 := GroupOfOne(4), 4 := GroupOfOne(5), 5 := GroupOfOne(6),
        6 := Object([10, 0, 0, 1], 0, [], [], false)]
  }

  /** The sixth object is out of reach. */
  lemma {:induction false} SixthIsMissed()
    ensures Resolve(SixChain(), 1, 0) == UNRESOLVED
    ensures ResolveFully(SixChain(), 1) == Resolved([10, 0, 0, 1], 0, false, [])
  {
    var f := Follower(SixChain());
    SixChainRun(5);
    assert AnswersAt(SixChain(), 1, 5);
    AnswerIsUnique(SixChain(), 1, 5);
    ResolveIsExact(SixChain(), 1);
    ResolveIsBounded(SixChain(), 1, 0);
    forall k: nat | k <= 4 ensures !AnswersAt(SixChain(), 1, k) {
      SixChainRun(k);
    }
  }

  lemma {:induction false} SixChainRun(k: nat)
    requires k <= 5
    ensures After(Follower(SixChain()), 1, k) == Some(k + 1)
  {
    if k > 0 {
      SixChainRun(k - 1);
      AfterAdds(Follower(SixChain()), 1, k - 1, 1);
      assert After(Follower(SixChain()), k, 1) == Some(k + 1);
    }
  }
}
