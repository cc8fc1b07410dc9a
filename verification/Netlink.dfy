/** The netlink side of the FPM ingester: the padded attribute stream, the nested MPLS
    encapsulation, and the label text handed on to the path walk. */
module Netlink {
  import opened Wrappers
  import opened Text
  import opened Bytes
  import opened Sequences
  import PathTrace

  // ---- the attribute stream ----

  /** An attribute as the walk reports it: bare type number and payload. */
  datatype Attr = Attr(atype: nat, payload: seq<Byte>)

  function Align4(n: nat): (m: nat)
    ensures n <= m < n + 4 && m % 4 == 0
  {
    (n + 3) / 4 * 4
  }

  /** An attribute starts here: its length is plausible and it is all there, though perhaps not its padding. */
  predicate Starts(b: seq<Byte>) {
    |b| >= 4 && 4 <= U16Le(b[0..2]) <= |b|
  }

  /** How far the walk advances behind it. */
  function Advance(b: seq<Byte>): (n: nat)
    requires Starts(b)
    ensures n >= 4 && n % 4 == 0
  {
    Align4(U16Le(b[0..2]))
  }

  /** The attributes of a stream. Behind one whose padding is cut off there is nothing to walk. */
  function Walk(b: seq<Byte>): seq<Attr>
    decreases |b|
  {
    if !Starts(b) then []
    else
      [Attr(U16Le(b[2..4]) % 0x4000, b[4..U16Le(b[0..2])])] + (if Advance(b) > |b| then [] else Walk(b[Advance(b)..]))
  }

  /** The walk never advances past the end of the stream. */
  ghost predicate InBounds(b: seq<Byte>)
    decreases |b|
  {
    Starts(b) ==> Advance(b) <= |b| && InBounds(b[Advance(b)..])
  }

  /** What the walk finds at the front of a stream, and where it goes on. */
  lemma {:induction false} WalkFront(b: seq<Byte>)
    requires InBounds(b) && Starts(b)
    ensures 4 <= U16Le(b[0..2]) <= Advance(b) <= |b| && InBounds(b[Advance(b)..])
    ensures Walk(b) == [Attr(U16Le(b[2..4]) % 0x4000, b[4..U16Le(b[0..2])])] + Walk(b[Advance(b)..])
  {
  }

  /** The loop calls its callback on each attribute in turn; the calls are collected here. */
  method ForEachAttr(attrs: seq<Byte>) returns (visited: seq<Attr>)
    requires InBounds(attrs)
    ensures visited == Walk(attrs)
  {
    var rest := attrs;
    visited := [];
    while |rest| >= 4
      invariant InBounds(rest)
      invariant Walk(attrs) == visited + Walk(rest)
      decreases |rest|
    {
      var alen := U16Le(rest[0..2]);
      var atype := U16Le(rest[2..4]) % 0x4000;
      if alen < 4 || alen > |rest| {
        return;
      }
      WalkFront(rest);
      var next := rest[Align4(alen)..];
      Regroup(visited, [Attr(atype, rest[4..alen])], Walk(next));
      visited := visited + [Attr(atype, rest[4..alen])];
      rest := next;
    }
  }

  /** Streams that are padded to a multiple of four are always walked in bounds. */
  lemma {:induction false} PaddedIsInBounds(b: seq<Byte>)
    requires |b| % 4 == 0
    ensures InBounds(b)
    decreases |b|
  {
    if Starts(b) {
      PaddedIsInBounds(b[Advance(b)..]);
    }
  }

  /** An attribute as a sender writes it, flag bits and all. */
  datatype RawAttr = RawAttr(flags: nat, atype: nat, payload: seq<Byte>) {
    predicate Valid() { flags < 4 && atype < 0x4000 && |payload| + 4 < 0x1_0000 }

    ghost function Encode(): (b: seq<Byte>)
      requires Valid()
      ensures |b| == Align4(|payload| + 4)
    {
      var n := |payload| + 4;
      PutU16Le(n) + PutU16Le(flags * 0x4000 + atype) + payload + Zeros(Align4(n) - n)
    }

    function Seen(): Attr { Attr(atype, payload) }
  }

  ghost predicate AllValid(attrs: seq<RawAttr>) {
    forall a | a in attrs :: a.Valid()
  }

  ghost function EncodeAll(attrs: seq<RawAttr>): (b: seq<Byte>)
    requires forall a | a in attrs :: a.Valid()
    ensures |b| % 4 == 0
  {
    if attrs == [] then [] else attrs[0].Encode() + EncodeAll(attrs[1..])
  }

  function AllSeen(attrs: seq<RawAttr>): (s: seq<Attr>)
    ensures |s| == |attrs| && forall i | 0 <= i < |s| :: s[i] == attrs[i].Seen()
  {
    seq(|attrs|, i requires 0 <= i < |attrs| => attrs[i].Seen())
  }

  lemma {:induction false} WalkOne(a: RawAttr, rest: seq<Byte>)
    requires a.Valid()
    ensures Walk(a.Encode() + rest) == [a.Seen()] + Walk(rest)
    ensures InBounds(a.Encode() + rest) <==> InBounds(rest)
  {
    var b, n := a.Encode() + rest, |a.payload| + 4;
    assert b[0..2] == PutU16Le(n);
    assert b[2..4] == PutU16Le(a.flags * 0x4000 + a.atype);
    assert b[4..n] == a.payload;
    assert b[Align4(n)..] == rest;
  }

  /** The walk visits exactly the encoded attributes, in order, whatever their flags, sizes and number,
      and then goes on with what follows them. */
  lemma {:induction false} WalkGoesThrough(attrs: seq<RawAttr>, rest: seq<Byte>)
    requires AllValid(attrs)
    ensures Walk(EncodeAll(attrs) + rest) == AllSeen(attrs) + Walk(rest)
    ensures InBounds(EncodeAll(attrs) + rest) <==> InBounds(rest)
  {
    if attrs == [] {
      assert [] + rest == rest && AllSeen(attrs) == [];
    } else {
      var more := EncodeAll(attrs[1..]) + rest;
      WalkGoesThrough(attrs[1..], rest);
      WalkOne(attrs[0], more);
      FrontOfStream(attrs, rest);
      AllSeenFront(attrs);
      Regroup([attrs[0].Seen()], AllSeen(attrs[1..]), Walk(rest));
    }
  }

  lemma {:induction false} AllSeenFront(attrs: seq<RawAttr>)
    requires attrs != []
    ensures AllSeen(attrs) == [attrs[0].Seen()] + AllSeen(attrs[1..])
  {
  }

  lemma {:induction false} FrontOfStream(attrs: seq<RawAttr>, rest: seq<Byte>)
    requires attrs != [] && AllValid(attrs)
    ensures EncodeAll(attrs) + rest == attrs[0].Encode() + (EncodeAll(attrs[1..]) + rest)
  {
    Regroup(attrs[0].Encode(), EncodeAll(attrs[1..]), rest);
  }

  lemma {:induction false} WalkUndoesEncoding(attrs: seq<RawAttr>)
    requires AllValid(attrs)
    ensures Walk(EncodeAll(attrs)) == AllSeen(attrs) && InBounds(EncodeAll(attrs))
  {
    WalkGoesThrough(attrs, []);
    assert EncodeAll(attrs) + [] == EncodeAll(attrs);
  }

  /** Up to three stray octets behind the attributes are ignored. */
  lemma {:induction false} StrayOctetsAreIgnored(attrs: seq<RawAttr>, stray: seq<Byte>)
    requires AllValid(attrs) && |stray| < 4
    ensures Walk(EncodeAll(attrs) + stray) == AllSeen(attrs) && InBounds(EncodeAll(attrs) + stray)
  {
    WalkGoesThrough(attrs, stray);
  }

  /** The last attribute may be cut behind its payload only where it needs no more padding. */
  lemma {:induction false} CutPaddingOverruns(attrs: seq<RawAttr>, last: RawAttr, size: nat)
    requires AllValid(attrs) && last.Valid() && |last.payload| + 4 <= size <= |last.Encode()|
    ensures InBounds(EncodeAll(attrs) + last.Encode()[..size]) <==> size == |last.Encode()|
  {
    var b := last.Encode()[..size];
    WalkGoesThrough(attrs, b);
    assert b[0..2] == PutU16Le(|last.payload| + 4);
  }

  // ---- MPLS label stacks ----

  /** A netlink label stack entry: label value, traffic class and TTL. The bottom bit follows from its position. */
  datatype StackEntry = StackEntry(value: nat, tc: nat, ttl: nat) {
    predicate Valid() { value < 0x10_0000 && tc < 8 && ttl < 256 }
  }

  function LabelOf(entry: nat): nat { entry / 0x1000 }

  predicate IsBottom(entry: nat) { entry / 0x100 % 2 == 1 }

  function DecodeStack(p: seq<Byte>): seq<nat> {
    if |p| < 4 then []
    else
      var entry := U32Be(p[..4]);
      [LabelOf(entry)] + (if IsBottom(entry) then [] else DecodeStack(p[4..]))
  }

  method DecodeMplsStack(p: seq<Byte>) returns (labels: seq<nat>)
    ensures labels == DecodeStack(p)
  {
    var rest := p;
    labels := [];
    while |rest| >= 4
      invariant DecodeStack(p) == labels + DecodeStack(rest)
      decreases |rest|
    {
      var entry := U32Be(rest[..4]);
      Regroup(labels, [LabelOf(entry)], if IsBottom(entry) then [] else DecodeStack(rest[4..]));
      labels := labels + [entry / 0x1000];
      if entry / 0x100 % 2 == 1 {
        break;
      }
      rest := rest[4..];
    }
  }

  /** The 32 bits of an entry: 20 of label, 3 of traffic class, the bottom bit and 8 of TTL. */
  function StackWord(e: StackEntry, bottom: bool): (w: nat)
    requires e.Valid()
    ensures FitsU32(w) && LabelOf(w) == e.value && (IsBottom(w) <==> bottom)
  {
    var bit := if bottom then 1 else 0;
    EntryBits(e.value, e.tc, bit, e.ttl);
    e.value * 0x1000 + e.tc * 0x200 + bit * 0x100 + e.ttl
  }

  lemma {:induction false} EntryBits(value: nat, tc: nat, bit: nat, ttl: nat)
    requires value < 0x10_0000 && tc < 8 && bit < 2 && ttl < 0x100
    ensures var w := value * 0x1000 + tc * 0x200 + bit * 0x100 + ttl;
            w < 0x1_0000_0000 && w / 0x1000 == value && w / 0x100 % 2 == bit
  {
    var w := value * 0x1000 + tc * 0x200 + bit * 0x100 + ttl;
    Quotient(w, 0x1000, value, tc * 0x200 + bit * 0x100 + ttl);
    Quotient(w, 0x100, value * 16 + tc * 2 + bit, ttl);
    Quotient(value * 16 + tc * 2 + bit, 2, value * 8 + tc, bit);
  }

  ghost function EncodeStack(entries: seq<StackEntry>): seq<Byte>
    requires forall e | e in entries :: e.Valid()
  {
    if entries == [] then []
    else
      assert entries[0] in entries;
      PutU32Be(StackWord(entries[0], |entries| == 1)) + EncodeStack(entries[1..])
  }

  function Labels(entries: seq<StackEntry>): (ls: seq<nat>)
    ensures |ls| == |entries| && forall i | 0 <= i < |ls| :: ls[i] == entries[i].value
  {
    seq(|entries|, i requires 0 <= i < |entries| => entries[i].value)
  }

  lemma {:induction false} StackFront(w: nat, tail: seq<Byte>)
    requires FitsU32(w)
    ensures DecodeStack(PutU32Be(w) + tail) == [LabelOf(w)] + (if IsBottom(w) then [] else DecodeStack(tail))
  {
    var p := PutU32Be(w) + tail;
    assert p[..4] == PutU32Be(w) && p[4..] == tail;
  }

  /** Decoding an encoded stack yields its labels, and reads nothing past the bottom of the stack. */
  lemma {:induction false} StackRoundTrip(entries: seq<StackEntry>, rest: seq<Byte>)
    requires entries != [] && forall e | e in entries :: e.Valid()
    ensures DecodeStack(EncodeStack(entries) + rest) == Labels(entries)
  {
    assert entries[0] in entries;
    var word, tail := StackWord(entries[0], |entries| == 1), EncodeStack(entries[1..]) + rest;
    assert EncodeStack(entries) + rest == PutU32Be(word) + tail;
    StackFront(word, tail);
    if |entries| > 1 {
      StackRoundTrip(entries[1..], rest);
    }
    assert Labels(entries) == [entries[0].value] + Labels(entries[1..]);
  }

  // ---- nested encapsulation ----

  const MPLS_IPTUNNEL_DST: nat := 1

  /** The payload of the last attribute of a type, as assignments in a callback leave it. */
  function LastOf(attrs: seq<Attr>, atype: nat): Option<seq<Byte>> {
    if attrs == [] then None
    else
      var a := attrs[|attrs| - 1];
      if a.atype == atype then Some(a.payload) else LastOf(attrs[..|attrs| - 1], atype)
  }

  /** The labels of the last destination attribute, none without one. */
  function LabelsIn(attrs: seq<Attr>): seq<nat> {
    match LastOf(attrs, MPLS_IPTUNNEL_DST) case None => [] case Some(v) => DecodeStack(v)
  }

  function MplsEncap(p: seq<Byte>): seq<nat> {
    LabelsIn(Walk(p))
  }

  method ParseMplsEncap(p: seq<Byte>) returns (labels: seq<nat>)
    requires InBounds(p)
    ensures labels == MplsEncap(p)
  {
    var visited := ForEachAttr(p);
    labels := LastLabels(visited);
  }

  /** The callback: each destination attribute replaces the labels found so far. */
  method LastLabels(visited: seq<Attr>) returns (labels: seq<nat>)
    ensures labels == LabelsIn(visited)
  {
    labels := [];
    for i := 0 to |visited|
      invariant labels == LabelsIn(visited[..i])
    {
      LastOfAppended(visited[..i], visited[i], MPLS_IPTUNNEL_DST);
      assert visited[..i + 1] == visited[..i] + [visited[i]];
      if visited[i].atype == MPLS_IPTUNNEL_DST {
        labels := DecodeMplsStack(visited[i].payload);
      }
    }
    assert visited[..|visited|] == visited;
  }

  lemma {:induction false} LastOfAppended(attrs: seq<Attr>, a: Attr, atype: nat)
    ensures LastOf(attrs + [a], atype) == if a.atype == atype then Some(a.payload) else LastOf(attrs, atype)
  {
    assert (attrs + [a])[..|attrs|] == attrs;
  }

  lemma {:induction false} LastOfConcat(a: seq<Attr>, b: seq<Attr>, atype: nat)
    ensures LastOf(a + b, atype) == if LastOf(b, atype).Some? then LastOf(b, atype) else LastOf(a, atype)
  {
    if b == [] {
      assert a + b == a;
    } else {
      LastOfConcat(a, b[..|b| - 1], atype);
      assert (a + b)[..|a + b| - 1] == a + b[..|b| - 1];
    }
  }

  lemma {:induction false} LastOfAbsent(a: seq<Attr>, atype: nat)
    requires forall x | x in a :: x.atype != atype
    ensures LastOf(a, atype) == None
  {
    if a != [] {
      LastOfAbsent(a[..|a| - 1], atype);
    }
  }

  lemma {:induction false} EncodeAllConcat(a: seq<RawAttr>, b: seq<RawAttr>)
    requires AllValid(a) && AllValid(b)
    ensures AllValid(a + b) && EncodeAll(a + b) == EncodeAll(a) + EncodeAll(b)
  {
    if a == [] {
      assert a + b == b;
    } else {
      EncodeAllConcat(a[1..], b);
      assert (a + b)[1..] == a[1..] + b && (a + b)[0] == a[0];
      Regroup(a[0].Encode(), EncodeAll(a[1..]), EncodeAll(b));
    }
  }

  lemma {:induction false} SeenBetween(before: seq<RawAttr>, a: RawAttr, after: seq<RawAttr>)
    ensures AllSeen(before + [a] + after) == AllSeen(before) + [a.Seen()] + AllSeen(after)
  {
  }

  lemma {:induction false} LastOfBetween(before: seq<Attr>, a: Attr, after: seq<Attr>)
    requires forall x | x in after :: x.atype != a.atype
    ensures LastOf(before + [a] + after, a.atype) == Some(a.payload)
  {
    LastOfAbsent(after, a.atype);
    LastOfConcat(before + [a], after, a.atype);
    LastOfAppended(before, a, a.atype);
  }

  /** Whatever attributes surround it, the label stack of an encapsulation is recovered. */
  lemma {:induction false} EncapRoundTrip(
      before: seq<RawAttr>, flags: nat, entries: seq<StackEntry>, after: seq<RawAttr>)
    requires entries != [] && forall e | e in entries :: e.Valid()
    requires var dst := RawAttr(flags, 1, EncodeStack(entries)); AllValid(before + [dst] + after)
    requires forall a | a in after :: a.atype != 1
    ensures var dst := RawAttr(flags, 1, EncodeStack(entries));
            MplsEncap(EncodeAll(before + [dst] + after)) == Labels(entries)
  {
    var dst := RawAttr(flags, 1, EncodeStack(entries));
    var attrs := before + [dst] + after;
    WalkUndoesEncoding(attrs);
    SeenBetween(before, dst, after);
    LastOfBetween(AllSeen(before), dst.Seen(), AllSeen(after));
    StackRoundTrip(entries, []);
    assert EncodeStack(entries) + [] == EncodeStack(entries);
  }

  // ---- the label text ----

  method LabelsCsv(l: seq<nat>) returns (s: string)
    ensures s == Join(Decimals(l), ",")
  {
    s := "";
    for i := 0 to |l|
      invariant s == Join(Decimals(l[..i]), ",")
    {
      JoinAppended(Decimals(l[..i]), Decimal(l[i]), ",");
      assert Decimals(l[..i + 1]) == Decimals(l[..i]) + [Decimal(l[i])];
      if i > 0 {
        s := s + ",";
      }
      s := s + Decimal(l[i]);
    }
    assert l[..|l|] == l;
  }

  lemma {:induction false} JoinAppended(parts: seq<string>, x: string, sep: string)
    ensures Join(parts + [x], sep) == if parts == [] then x else Join(parts, sep) + sep + x
  {
    if parts == [] {
      assert parts + [x] == [x];
    } else {
      JoinAppended(parts[1..], x, sep);
      assert (parts + [x])[1..] == parts[1..] + [x];
      if |parts| > 1 {
        assert parts[0] + sep + (Join(parts[1..], sep) + sep + x) == parts[0] + sep + Join(parts[1..], sep) + sep + x;
      }
    }
  }

  /** The path walk reads the label text back as the very stack that was on the wire, top first. */
  lemma {:induction false} LabelTextRoundTrip(l: seq<nat>)
    ensures PathTrace.Imposed(Join(Decimals(l), ",")) == Decimals(l)
  {
    if l == [] {
    } else {
      var parts := Decimals(l);
      SplitUndoesJoin(parts, ',');
      assert |Join(parts, ",")| >= |parts[0]|;
    }
  }
}
