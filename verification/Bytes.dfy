/** Bytes and the fixed-width integers of the wire formats, in both byte orders. */
module Bytes {
  import opened Sequences

  type Byte = b: int | 0 <= b < 0x100

  predicate FitsU16(n: int) { 0 <= n < 0x1_0000 }
  predicate FitsU32(n: int) { 0 <= n < 0x1_0000_0000 }

  function U16Be(b: seq<Byte>): (n: nat)
    requires |b| >= 2
    ensures FitsU16(n)
  {
    b[0] as int * 0x100 + b[1]
  }

  function U16Le(b: seq<Byte>): (n: nat)
    requires |b| >= 2
    ensures FitsU16(n)
  {
    b[1] as int * 0x100 + b[0]
  }

  function U24Be(b: seq<Byte>): (n: nat)
    requires |b| >= 3
    ensures n < 0x100_0000
  {
    b[0] as int * 0x1_0000 + b[1] as int * 0x100 + b[2]
  }

  function U32Be(b: seq<Byte>): (n: nat)
    requires |b| >= 4
    ensures FitsU32(n)
  {
    U16Be(b[0..2]) * 0x1_0000 + U16Be(b[2..4])
  }

  function U32Le(b: seq<Byte>): (n: nat)
    requires |b| >= 4
    ensures FitsU32(n)
  {
    U16Le(b[2..4]) * 0x1_0000 + U16Le(b[0..2])
  }

  // ---- writing: the octets that read as a number ----

  ghost function PutU16Be(n: nat): (b: seq<Byte>)
    requires FitsU16(n)
    ensures |b| == 2 && U16Be(b) == n
  {
    var octets: seq<Byte> := [n / 0x100, n % 0x100];
    assert U16Be(octets) == n;
    var b: seq<Byte> :| |b| == 2 && U16Be(b) == n;
    b
  }

  ghost function PutU16Le(n: nat): (b: seq<Byte>)
    requires FitsU16(n)
    ensures |b| == 2 && U16Le(b) == n
  {
    var octets: seq<Byte> := [n % 0x100, n / 0x100];
    assert U16Le(octets) == n;
    var b: seq<Byte> :| |b| == 2 && U16Le(b) == n;
    b
  }

  ghost function PutU24Be(n: nat): (b: seq<Byte>)
    requires n < 0x100_0000
    ensures |b| == 3 && U24Be(b) == n
  {
    var octets: seq<Byte> := [n / 0x1_0000, n / 0x100 % 0x100, n % 0x100];
    assert U24Be(octets) == n;
    var b: seq<Byte> :| |b| == 3 && U24Be(b) == n;
    b
  }

  ghost function PutU32Be(n: nat): (b: seq<Byte>)
    requires FitsU32(n)
    ensures |b| == 4 && U32Be(b) == n
  {
    var hi, lo := PutU16Be(n / 0x1_0000), PutU16Be(n % 0x1_0000);
    assert (hi + lo)[0..2] == hi && (hi + lo)[2..4] == lo;
    assert U32Be(hi + lo) == n;
    var b: seq<Byte> :| |b| == 4 && U32Be(b) == n;
    b
  }

  ghost function PutU32Le(n: nat): (b: seq<Byte>)
    requires FitsU32(n)
    ensures |b| == 4 && U32Le(b) == n
  {
    var hi, lo := PutU16Le(n / 0x1_0000), PutU16Le(n % 0x1_0000);
    assert (lo + hi)[0..2] == lo && (lo + hi)[2..4] == hi;
    assert U32Le(lo + hi) == n;
    var b: seq<Byte> :| |b| == 4 && U32Le(b) == n;
    b
  }

  /** There is only one way to write a number. */
  lemma {:induction false} U16BeIsInjective(a: seq<Byte>, b: seq<Byte>)
    requires |a| == |b| == 2 && U16Be(a) == U16Be(b)
    ensures a == b
  {
  }

  lemma {:induction false} U24BeIsInjective(a: seq<Byte>, b: seq<Byte>)
    requires |a| == |b| == 3 && U24Be(a) == U24Be(b)
    ensures a == b
  {
    U16BeIsInjective([a[0], a[1]], [b[0], b[1]]);
  }

  // ---- the octets themselves ----

  /** Most significant first in one order, least significant first in the other. */
  lemma {:induction false} SixteenBits(n: nat)
    requires FitsU16(n)
    ensures (PutU16Be(n), PutU16Le(n)) == ([n / 0x100, n % 0x100], [n % 0x100, n / 0x100])
  {
    U16BeIsInjective(PutU16Be(n), [n / 0x100, n % 0x100]);
    U16LeIsInjective(PutU16Le(n), [n % 0x100, n / 0x100]);
  }

  lemma {:induction false} TwentyFourBits(n: nat)
    requires n < 0x100_0000
    ensures PutU24Be(n) == [n / 0x1_0000, n / 0x100 % 0x100, n % 0x100]
  {
    var b := PutU24Be(n);
    Quotient(n, 0x1_0000, b[0], b[1] as int * 0x100 + b[2]);
    Quotient(n, 0x100, b[0] as int * 0x100 + b[1], b[2]);
    Quotient(b[0] as int * 0x100 + b[1], 0x100, b[0], b[1]);
  }

  lemma {:induction false} ThirtyTwoBits(n: nat)
    requires FitsU32(n)
    ensures PutU32Be(n) == [n / 0x1_0000 / 0x100, n / 0x1_0000 % 0x100, n % 0x1_0000 / 0x100, n % 0x1_0000 % 0x100]
    ensures PutU32Le(n) == [n % 0x1_0000 % 0x100, n % 0x1_0000 / 0x100, n / 0x1_0000 % 0x100, n / 0x1_0000 / 0x100]
  {
    SixteenBits(n / 0x1_0000);
    SixteenBits(n % 0x1_0000);
    var be, le := PutU32Be(n), PutU32Le(n);
    Quotient(n, 0x1_0000, U16Be(be[0..2]), U16Be(be[2..4]));
    Quotient(n, 0x1_0000, U16Le(le[2..4]), U16Le(le[0..2]));
    U16BeIsInjective(be[0..2], PutU16Be(n / 0x1_0000));
    U16BeIsInjective(be[2..4], PutU16Be(n % 0x1_0000));
    U16LeIsInjective(le[2..4], PutU16Le(n / 0x1_0000));
    U16LeIsInjective(le[0..2], PutU16Le(n % 0x1_0000));
    assert be == be[0..2] + be[2..4] && le == le[0..2] + le[2..4];
  }

  lemma {:induction false} U16LeIsInjective(a: seq<Byte>, b: seq<Byte>)
    requires |a| == |b| == 2 && U16Le(a) == U16Le(b)
    ensures a == b
  {
  }

  function Zeros(n: nat): (z: seq<Byte>)
    ensures |z| == n && forall i | 0 <= i < n :: z[i] == 0
  {
    seq(n, _ => 0)
  }
}
