/** Bytes, little-endian words and the few facts about them every other module needs. */
module Bytes {
  type Byte = bv8
  type Bytes = seq<Byte>

  datatype Option<+T> = None | Some(value: T)

  const U32_LIMIT: nat := 0x1_0000_0000

  /** Unsigned 32-bit arithmetic keeps the low 32 bits. */
  function Low32(x: int): (r: nat)
    ensures r < U32_LIMIT
    ensures 0 <= x < U32_LIMIT ==> r == x
  {
    x % U32_LIMIT
  }

  /** The number a little-endian byte string stands for. */
  function LeValue(b: Bytes): nat {
    if |b| == 0 then 0 else Digit(b[0]) + 0x100 * LeValue(b[1..])
  }

  /** The low `n` bytes of a number, least significant first. */
  function LeBytes(v: nat, n: nat): (b: Bytes)
    ensures |b| == n
  {
    if n == 0 then [] else [ByteOf(v % 0x100)] + LeBytes(v / 0x100, n - 1)
  }

  /** A little-endian 32-bit field read as a number (addresses, lengths, generations). */
  function LeNat(b: Bytes): (v: nat)
    requires |b| == 4
    ensures v < U32_LIMIT
  {
    FourBytes(b);
    LeValue(b)
  }

  lemma FourBytes(b: Bytes)
    requires |b| == 4
    ensures LeValue(b) < U32_LIMIT
  {
    hide Digit;
    assert LeValue(b) == Digit(b[0]) + 0x100 * LeValue(b[1..]);
    assert LeValue(b[1..]) == Digit(b[1]) + 0x100 * LeValue(b[1..][1..]);
    assert LeValue(b[1..][1..]) == Digit(b[2]) + 0x100 * LeValue(b[1..][1..][1..]);
    assert LeValue(b[1..][1..][1..]) == Digit(b[3]);
  }

  /** The number a byte stands for, counted down to zero. */
  function Digit(b: Byte): (d: nat)
    ensures d < 0x100
    decreases b, 0
  {
    if b == 0 then 0 else DigitValue(b - 1); Digit(b - 1) + 1
  }

  lemma {:induction false} DigitValue(b: Byte)
    ensures Digit(b) == b as nat
    decreases b, 1
  {
    if b != 0 {
      DigitValue(b - 1);
    }
  }

  /** The byte a number below 256 is stored as, counted up from zero. */
  function ByteOf(n: nat): Byte
    requires n < 0x100
  {
    if n == 0 then 0 else ByteOf(n - 1) + 1
  }

  /** A number stored as a little-endian 32-bit field. */
  function PutNat(v: nat): (b: Bytes)
    requires v < U32_LIMIT
    ensures |b| == 4
  {
    LeBytes(v, 4)
  }

  /** A little-endian 32-bit field read as a bit vector (CRC values are only ever compared). */
  function LeWord(b: Bytes): bv32
    requires |b| == 4
  {
    (b[0] as bv32) | ((b[1] as bv32) << 8) | ((b[2] as bv32) << 16) | ((b[3] as bv32) << 24)
  }

  function PutWord(w: bv32): (b: Bytes)
    ensures |b| == 4
  {
    [(w & 0xFF) as bv8, ((w >> 8) & 0xFF) as bv8, ((w >> 16) & 0xFF) as bv8, (w >> 24) as bv8]
  }

  lemma DigitSteps(x: Byte)
    ensures Digit(x) < 255 ==> Digit(x + 1) == Digit(x) + 1
  {
    DigitValue(x);
  }

  lemma {:induction false} ByteOfNat(n: nat)
    requires n < 0x100
    ensures Digit(ByteOf(n)) == n
  {
    if n > 0 {
      ByteOfNat(n - 1);
      DigitSteps(ByteOf(n - 1));
    }
  }

  lemma DigitInjective(a: Byte, b: Byte)
    requires Digit(a) == Digit(b)
    ensures a == b
  {
    DigitValue(a);
    DigitValue(b);
  }

  lemma {:induction false} LeValueOfBytes(v: nat, n: nat)
    ensures v < Power256(n) ==> LeValue(LeBytes(v, n)) == v
    decreases n
  {
    hide Digit;
    if n > 0 {
      LeValueOfBytes(v / 0x100, n - 1);
      ByteOfNat(v % 0x100);
      assert LeBytes(v, n)[1..] == LeBytes(v / 0x100, n - 1);
    }
  }

  function Power256(n: nat): nat { if n == 0 then 1 else 0x100 * Power256(n - 1) }

  lemma NatRoundTrip(v: nat)
    requires v < U32_LIMIT
    ensures LeNat(PutNat(v)) == v
  {
    assert Power256(4) == U32_LIMIT;
    LeValueOfBytes(v, 4);
  }

  lemma ByteDigit(b: Byte)
    ensures ByteOf(Digit(b)) == b
  {
    hide Digit;
    ByteOfNat(Digit(b));
    DigitInjective(ByteOf(Digit(b)), b);
  }

  lemma {:induction false} LeBytesOfValue(b: Bytes)
    ensures LeBytes(LeValue(b), |b|) == b
    decreases |b|
  {
    hide Digit;
    if |b| > 0 {
      LeBytesOfValue(b[1..]);
      ByteDigit(b[0]);
      assert LeValue(b) % 0x100 == Digit(b[0]) && LeValue(b) / 0x100 == LeValue(b[1..]);
    }
  }

  lemma PutNatOfLeNat(b: Bytes)
    requires |b| == 4
    ensures PutNat(LeNat(b)) == b
  {
    LeBytesOfValue(b);
  }

  lemma WordRoundTrip(w: bv32)
    ensures LeWord(PutWord(w)) == w
  {
  }

  lemma PutWordOfLeWord(b: Bytes)
    requires |b| == 4
    ensures PutWord(LeWord(b)) == b
  {
    assert b == [b[0], b[1], b[2], b[3]];
  }

  /** Subranges of two sequences agree when their elements do. */
  lemma SameSlice<T>(a: seq<T>, b: seq<T>, lo: nat, hi: nat)
    requires lo <= hi <= |a| && hi <= |b|
    requires forall i :: lo <= i < hi ==> a[i] == b[i]
    ensures a[lo..hi] == b[lo..hi]
  {
  }
}
