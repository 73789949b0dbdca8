/** Intel HEX: one line to one record, and records to one image. Checksums and record types follow the
    Intel Hexadecimal Object File Format Specification, Revision A. */
module Hex {
  import opened Bytes

  const MAX_IMAGE_SPAN: nat := 16 * 1024 * 1024

  datatype HexRecord = Data(offset: nat, bytes: Bytes) | Eof | ExtendedSegment(value: nat) | ExtendedLinear(value: nat)
                     | Ignored

  // ---- one line ----------------------------------------------------------

  function HexDigit(ch: char): Option<nat> {
    if '0' <= ch <= '9' then Some(ch as nat - '0' as nat)
    else if 'a' <= ch <= 'f' then Some(ch as nat - 'a' as nat + 10)
    else if 'A' <= ch <= 'F' then Some(ch as nat - 'A' as nat + 10)
    else None
  }

  function Digits(s: string): (v: Option<nat>)
    ensures v.Some? ==> v.value < Pow16(|s|)
  {
    if |s| == 0 then Some(0)
    else
      match Digits(s[..|s| - 1])
      case None => None
      case Some(front) => match HexDigit(s[|s| - 1]) case None => None case Some(d) => Some(16 * front + d)
  }

  function Pow16(n: nat): nat { if n == 0 then 1 else 16 * Pow16(n - 1) }

  /** The library's base-16 conversion: at least one digit, and a leading plus sign is accepted. */
  function FromHex(s: string): (v: Option<nat>)
    ensures v.Some? ==> v.value < Pow16(|s|)
  {
    if |s| == 0 then None
    else if s[0] == '+' && |s| > 1 then PowGrows(|s| - 1); Digits(s[1..])
    else Digits(s)
  }

  lemma PowGrows(n: nat)
    ensures Pow16(n) <= Pow16(n + 1)
  {
  }

  /** Bytes from pairs of digits. */
  function HexBytes(s: string): (b: Option<Bytes>)
    ensures b.Some? ==> 2 * |b.value| == |s|
  {
    if |s| == 0 then Some([])
    else if |s| == 1 then None
    else
      match FromHex(s[..2])
      case None => None
      case Some(v) =>
        match HexBytes(s[2..]) case None => None case Some(rest) => Some([ByteOf(v)] + rest)
  }

  /** Byte addition keeps the low eight bits. */
  function Plus(x: nat, y: nat): (s: nat)
    ensures s < 0x100
  {
    (x + y) % 0x100
  }

  function Sum(b: Bytes): (s: nat)
    ensures s < 0x100
  {
    if |b| == 0 then 0 else Plus(Digit(b[0]), Sum(b[1..]))
  }

  predicate Ascii(s: string) { forall i :: 0 <= i < |s| ==> s[i] as nat < 128 }

  /** One trimmed, nonblank line. */
  function ParseLine(line: string): Option<HexRecord> {
    if |line| == 0 || line[0] != ':' || !Ascii(line) || |line| < 11 then None
    else
      var n, addr, t := FromHex(line[1..3]), FromHex(line[3..7]), FromHex(line[7..9]);
      if n.None? || addr.None? || t.None? || |line| != 11 + 2 * n.value then None
      else
        var checked := HexBytes(line[1..]);
        if checked.None? || Sum(checked.value) != 0 then None
        else ReadRecord(t.value, n.value, addr.value, line[9..|line| - 2])
  }

  /** The typed record of a line whose length and checksum are right. */
  function ReadRecord(t: nat, n: nat, addr: nat, data: string): Option<HexRecord> {
    if t == 0 then
      match HexBytes(data) case None => None case Some(d) => Some(Data(addr, d))
    else if t == 1 then
      if n != 0 || addr != 0 then None else Some(Eof)
    else if t == 2 || t == 4 then
      if n != 2 then None
      else
        match FromHex(data)
        case None => None
        case Some(v) => Some(if t == 2 then ExtendedSegment(v) else ExtendedLinear(v))
    else Some(Ignored)
  }

  // ---- writing a line and reading it back --------------------------------

  function HexChar(d: nat): char
    requires d < 16
  {
    "0123456789ABCDEF"[d]
  }

  function HexOf(b: Bytes): (s: string)
    ensures |s| == 2 * |b|
  {
    if |b| == 0 then "" else [HexChar(Digit(b[0]) / 16), HexChar(Digit(b[0]) % 16)] + HexOf(b[1..])
  }

  function Checksum(b: Bytes): Byte { ByteOf((0x100 - Sum(b)) % 0x100) }

  function Front(kind: Byte, hi: Byte, lo: Byte, data: Bytes): Bytes
    requires |data| < 0x100
  {
    [ByteOf(|data|), hi, lo, kind] + data
  }

  /** A record line as a well-behaved tool writes it. */
  function RenderLine(kind: Byte, hi: Byte, lo: Byte, data: Bytes): string
    requires |data| < 0x100
  {
    var front := Front(kind, hi, lo, data);
    ":" + HexOf(front + [Checksum(front)])
  }

  lemma CharReads(d: nat)
    requires d < 16
    ensures HexDigit(HexChar(d)) == Some(d) && HexChar(d) != '+' && HexChar(d) as nat < 128
  {
  }

  lemma PairReads(h: nat, l: nat)
    requires h < 16 && l < 16
    ensures FromHex([HexChar(h), HexChar(l)]) == Some(16 * h + l)
  {
    CharReads(h);
    CharReads(l);
    var s := [HexChar(h), HexChar(l)];
    hide HexChar, HexDigit;
    assert s[..1] == [HexChar(h)] && [HexChar(h)][..0] == [];
    assert Digits([HexChar(h)]) == Some(h);
  }

  lemma ByteReads(b: Byte, v: nat)
    requires v == 16 * (Digit(b) / 16) + Digit(b) % 16
    ensures v == Digit(b) && ByteOf(v) == b
  {
    ByteDigit(b);
  }

  lemma {:induction false} HexOfReads(b: Bytes)
    ensures HexBytes(HexOf(b)) == Some(b) && Ascii(HexOf(b))
    decreases |b|
  {
    hide HexChar, FromHex, Digit;
    if |b| > 0 {
      var h, l := Digit(b[0]) / 16, Digit(b[0]) % 16;
      var s := HexOf(b);
      HexOfReads(b[1..]);
      PairReads(h, l);
      CharReads(h);
      CharReads(l);
      ByteReads(b[0], 16 * h + l);
      assert s[..2] == [HexChar(h), HexChar(l)] && s[2..] == HexOf(b[1..]);
      assert [b[0]] + b[1..] == b;
    }
  }

  lemma {:induction false} HexOfConcat(a: Bytes, b: Bytes)
    ensures HexOf(a + b) == HexOf(a) + HexOf(b)
    decreases |a|
  {
    hide HexChar, Digit;
    if |a| == 0 {
      assert a + b == b && HexOf(a) + HexOf(b) == HexOf(b);
    } else {
      HexOfConcat(a[1..], b);
      assert (a + b)[1..] == a[1..] + b;
      assert HexOf(a) + HexOf(b) ==
        [HexChar(Digit(a[0]) / 16), HexChar(Digit(a[0]) % 16)] + (HexOf(a[1..]) + HexOf(b));
    }
  }

  lemma PlusFacts(x: nat, y: nat, z: nat)
    ensures Plus(x, Plus(y, z)) == Plus(Plus(x, y), z)
    ensures x < 0x100 ==> Plus(0, x) == x && Plus(x, 0) == x
  {
  }

  lemma {:induction false} SumConcat(a: Bytes, b: Bytes)
    ensures Sum(a + b) == Plus(Sum(a), Sum(b))
    decreases |a|
  {
    hide Digit, Plus;
    if |a| == 0 {
      assert a + b == b;
      PlusFacts(Sum(b), 0, 0);
    } else {
      SumConcat(a[1..], b);
      assert (a + b)[1..] == a[1..] + b;
      PlusFacts(Digit(a[0]), Sum(a[1..]), Sum(b));
    }
  }

  lemma ChecksumCancels(b: Bytes)
    ensures Sum(b + [Checksum(b)]) == 0
  {
    hide Digit, Checksum, Plus;
    SumConcat(b, [Checksum(b)]);
    assert [Checksum(b)][1..] == [];
    CheckDigit(b);
    PlusCancels(Sum(b));
  }

  lemma CheckDigit(b: Bytes)
    ensures Digit(Checksum(b)) == (0x100 - Sum(b)) % 0x100
  {
    hide Digit;
    ByteOfNat((0x100 - Sum(b)) % 0x100);
  }

  lemma PlusCancels(x: nat)
    requires x < 0x100
    ensures Plus(x, Plus((0x100 - x) % 0x100, 0)) == 0
  {
  }

  lemma OneByteReads(b: Byte)
    ensures FromHex(HexOf([b])) == Some(Digit(b))
  {
    hide FromHex, Digit, HexChar;
    var h, l := Digit(b) / 16, Digit(b) % 16;
    PairReads(h, l);
    assert [b][1..] == [];
    assert HexOf([b]) == [HexChar(h), HexChar(l)] + HexOf([]);
    assert HexOf([b]) == [HexChar(h), HexChar(l)];
    ByteReads(b, 16 * h + l);
  }

  lemma DigitsMore(s: string, d: nat)
    requires d < 16 && Digits(s).Some?
    ensures Digits(s + [HexChar(d)]) == Some(16 * Digits(s).value + d)
  {
    CharReads(d);
    hide HexChar, HexDigit;
    assert (s + [HexChar(d)])[..|s|] == s;
  }

  lemma FromHexDigits(s: string)
    requires |s| > 0 && s[0] != '+'
    ensures FromHex(s) == Digits(s)
  {
  }

  lemma FourDigits(a: nat, b: nat, c: nat, d: nat)
    requires a < 16 && b < 16 && c < 16 && d < 16
    ensures FromHex([HexChar(a), HexChar(b), HexChar(c), HexChar(d)]) == Some(16 * (16 * (16 * a + b) + c) + d)
  {
    hide HexChar, HexDigit, Digits, FromHex;
    NoDigits();
    DigitsMore("", a);
    DigitsMore("" + [HexChar(a)], b);
    DigitsMore("" + [HexChar(a)] + [HexChar(b)], c);
    DigitsMore("" + [HexChar(a)] + [HexChar(b)] + [HexChar(c)], d);
    var s := [HexChar(a), HexChar(b), HexChar(c), HexChar(d)];
    assert "" + [HexChar(a)] + [HexChar(b)] + [HexChar(c)] + [HexChar(d)] == s;
    CharReads(a);
    FromHexDigits(s);
  }

  lemma TwoBytesRead(x: Byte, y: Byte)
    ensures FromHex(HexOf([x, y])) == Some(0x100 * Digit(x) + Digit(y))
  {
    hide Digit, HexChar, HexOf, FromHex;
    var a, b, c, d := Digit(x) / 16, Digit(x) % 16, Digit(y) / 16, Digit(y) % 16;
    ByteReads(x, 16 * a + b);
    ByteReads(y, 16 * c + d);
    HexOfTwo(x, y);
    FourDigits(a, b, c, d);
  }

  lemma NoDigits()
    ensures Digits("") == Some(0)
  {
  }

  lemma HexOfTwo(x: Byte, y: Byte)
    ensures HexOf([x, y]) == [HexChar(Digit(x) / 16), HexChar(Digit(x) % 16), HexChar(Digit(y) / 16), HexChar(Digit(y) % 16)]
  {
    hide Digit, HexChar;
    assert [x, y][1..] == [y] && [y][1..] == [];
    assert HexOf([y]) == [HexChar(Digit(y) / 16), HexChar(Digit(y) % 16)] + HexOf([]);
  }

  lemma LineSlices(n: string, addr: string, kind: string, data: string, sum: string)
    requires |n| == |kind| == |sum| == 2 && |addr| == 4
    ensures var rest := n + addr + kind + data + sum; var line := ":" + rest;
      && |line| == 11 + |data| && line[0] == ':' && line[1..] == rest
      && line[1..3] == n && line[3..7] == addr && line[7..9] == kind && line[9..|line| - 2] == data
  {
  }

  lemma HexOfFront(n: Byte, hi: Byte, lo: Byte, kind: Byte, data: Bytes, sum: Byte)
    ensures HexOf([n, hi, lo, kind] + data + [sum])
         == HexOf([n]) + HexOf([hi, lo]) + HexOf([kind]) + HexOf(data) + HexOf([sum])
  {
    hide HexOf;
    assert [n, hi, lo, kind] == [n] + [hi, lo] + [kind];
    HexOfConcat([n] + [hi, lo] + [kind] + data, [sum]);
    HexOfConcat([n] + [hi, lo] + [kind], data);
    HexOfConcat([n] + [hi, lo], [kind]);
    HexOfConcat([n], [hi, lo]);
  }

  /** A rendered data line parses to the record it was rendered from. */
  lemma RenderedDataReads(hi: Byte, lo: Byte, data: Bytes)
    requires |data| < 0x100
    ensures ParseLine(RenderLine(0, hi, lo, data)) == Some(Data(0x100 * Digit(hi) + Digit(lo), data))
  {
    hide HexBytes, HexOf, Digit, ParseLine, RenderLine, Ascii;
    RenderedReads(0, hi, lo, data);
    HexOfReads(data);
    ZeroDigit();
  }

  lemma ZeroDigit()
    ensures Digit(0) == 0
  {
  }

  /** Any rendered line passes the length and checksum tests, and is read by its type. */
  lemma RenderedReads(kind: Byte, hi: Byte, lo: Byte, data: Bytes)
    requires |data| < 0x100
    ensures ParseLine(RenderLine(kind, hi, lo, data))
         == ReadRecord(Digit(kind), |data|, 0x100 * Digit(hi) + Digit(lo), HexOf(data))
  {
    hide HexBytes, HexOf, Digit, FromHex, Sum, Ascii, ReadRecord, Checksum, HexChar, ParseLine, RenderLine, Front;
    var front := Front(kind, hi, lo, data);
    RenderedSlices(kind, hi, lo, data);
    ByteOfNat(|data|);
    OneByteReads(ByteOf(|data|));
    TwoBytesRead(hi, lo);
    OneByteReads(kind);
    HexOfReads(front + [Checksum(front)]);
    ChecksumCancels(front);
    AsciiColon(HexOf(front + [Checksum(front)]));
    LineReads(RenderLine(kind, hi, lo, data), |data|, 0x100 * Digit(hi) + Digit(lo), Digit(kind), HexOf(data),
              front + [Checksum(front)]);
  }

  lemma RenderedSlices(kind: Byte, hi: Byte, lo: Byte, data: Bytes)
    requires |data| < 0x100
    ensures var front, line := Front(kind, hi, lo, data), RenderLine(kind, hi, lo, data);
      && |line| == 11 + 2 * |data| && line[0] == ':' && line == ":" + HexOf(front + [Checksum(front)])
      && line[1..] == HexOf(front + [Checksum(front)])
      && line[1..3] == HexOf([ByteOf(|data|)]) && line[3..7] == HexOf([hi, lo]) && line[7..9] == HexOf([kind])
      && line[9..|line| - 2] == HexOf(data)
  {
    hide HexOf, Digit, Checksum;
    var front := Front(kind, hi, lo, data);
    HexOfFront(ByteOf(|data|), hi, lo, kind, data, Checksum(front));
    LineSlices(HexOf([ByteOf(|data|)]), HexOf([hi, lo]), HexOf([kind]), HexOf(data), HexOf([Checksum(front)]));
  }

  lemma LineReads(line: string, n: nat, addr: nat, t: nat, data: string, checked: Bytes)
    requires |line| == 11 + 2 * n && line[0] == ':' && Ascii(line)
    requires FromHex(line[1..3]) == Some(n) && FromHex(line[3..7]) == Some(addr) && FromHex(line[7..9]) == Some(t)
    requires line[9..|line| - 2] == data && HexBytes(line[1..]) == Some(checked) && Sum(checked) == 0
    ensures ParseLine(line) == ReadRecord(t, n, addr, data)
  {
    hide HexBytes, FromHex, Sum, Ascii, ReadRecord;
  }

  lemma AsciiColon(s: string)
    requires Ascii(s)
    ensures Ascii(":" + s)
  {
  }

  // ---- placing records ---------------------------------------------------

  datatype Placed = Placed(at: nat, bytes: Bytes)

  datatype Progress = Progress(base: nat, placed: seq<Placed>, eof: bool)

  /** One record into the accumulator; nothing on an address beyond 32 bits. */
  function Step(p: Progress, r: HexRecord): Option<Progress> {
    match r
    case Data(offset, bytes) =>
      if p.base + offset + |bytes| > U32_LIMIT then None
      else Some(p.(placed := p.placed + [Placed(p.base + offset, bytes)]))
    case Eof => Some(p.(eof := true))
    case ExtendedSegment(v) => Some(p.(base := v * 16))
    case ExtendedLinear(v) => Some(p.(base := v * 0x1_0000))
    case Ignored => Some(p)
  }

  /** All lines up to `n`, in order; nothing may follow the end record. */
  function Scan(lines: seq<string>, n: nat): Option<Progress>
    requires n <= |lines|
  {
    if n == 0 then Some(Progress(0, [], false))
    else
      match Scan(lines, n - 1)
      case None => None
      case Some(p) =>
        if |lines[n - 1]| == 0 then Some(p)
        else if p.eof then None
        else match ParseLine(lines[n - 1]) case None => None case Some(r) => Step(p, r)
  }

  // ---- the address map ---------------------------------------------------

  predicate Covers(r: Placed, a: nat) { r.at <= a < r.at + |r.bytes| }

  predicate Clash(x: Placed, y: Placed) {
    |x.bytes| > 0 && |y.bytes| > 0 && x.at < y.at + |y.bytes| && y.at < x.at + |x.bytes|
  }

  /** Some address is written by two records. */
  predicate Overlaps(p: seq<Placed>) { exists i, j :: 0 <= i < j < |p| && Clash(p[i], p[j]) }

  function MinAt(p: seq<Placed>): (m: nat)
    requires |p| > 0
    ensures forall i :: 0 <= i < |p| ==> m <= p[i].at
  {
    if |p| == 1 then p[0].at
    else
      var m := MinAt(p[..|p| - 1]);
      if p[|p| - 1].at < m then p[|p| - 1].at else m
  }

  function MaxEnd(p: seq<Placed>): (m: nat)
    ensures forall i :: 0 <= i < |p| ==> p[i].at + |p[i].bytes| <= m
  {
    if |p| == 0 then 0
    else
      var m := MaxEnd(p[..|p| - 1]);
      if p[|p| - 1].at + |p[|p| - 1].bytes| > m then p[|p| - 1].at + |p[|p| - 1].bytes| else m
  }

  /** The bounds are attained. */
  lemma {:induction false} MinAttained(p: seq<Placed>) returns (i: nat)
    requires |p| > 0
    ensures i < |p| && p[i].at == MinAt(p)
    decreases |p|
  {
    i := |p| - 1;
    if |p| > 1 && p[|p| - 1].at >= MinAt(p[..|p| - 1]) {
      i := MinAttained(p[..|p| - 1]);
    }
  }

  lemma {:induction false} MaxAttained(p: seq<Placed>) returns (i: nat)
    requires MaxEnd(p) > 0
    ensures i < |p| && p[i].at + |p[i].bytes| == MaxEnd(p)
    decreases |p|
  {
    i := |p| - 1;
    if p[|p| - 1].at + |p[|p| - 1].bytes| <= MaxEnd(p[..|p| - 1]) {
      i := MaxAttained(p[..|p| - 1]);
    }
  }

  predicate Covered(p: seq<Placed>, a: nat) { exists i :: 0 <= i < |p| && Covers(p[i], a) }

  /** Every record's bytes are where it says, and every other byte is the gap filler. */
  ghost predicate IsImage(p: seq<Placed>, base: nat, img: Bytes) {
    && (forall i, a: nat :: 0 <= i < |p| && Covers(p[i], a) ==>
          base <= a < base + |img| && img[a - base] == p[i].bytes[a - p[i].at])
    && (forall a: nat :: !Covered(p, a) && base <= a < base + |img| ==> img[a - base] == 0xFF)
  }

  /** The records determine the image. */
  lemma ImageIsUnique(p: seq<Placed>, base: nat, img: Bytes, other: Bytes)
    requires IsImage(p, base, img) && IsImage(p, base, other) && |img| == |other|
    ensures img == other
  {
    forall k: nat | k < |img|
      ensures img[k] == other[k]
    {
      var a := base + k;
      if Covered(p, a) {
        var i :| 0 <= i < |p| && Covers(p[i], a);
        assert img[a - base] == p[i].bytes[a - p[i].at] == other[a - base];
      }
    }
  }

  // ---- the accumulator's loops -------------------------------------------

  datatype Outcome = Image(base: nat, bytes: Bytes) | Rejected

  /** What a file with this progress at its end amounts to. */
  ghost predicate Amounts(p: Progress, r: Outcome) {
    if !p.eof then r == Rejected
    else if |p.placed| == 0 then r == Image(0, [])
    else if MaxEnd(p.placed) - MinAt(p.placed) > MAX_IMAGE_SPAN || Overlaps(p.placed) then r == Rejected
    else
      r.Image? && r.base == MinAt(p.placed) && |r.bytes| == MaxEnd(p.placed) - MinAt(p.placed)
      && IsImage(p.placed, r.base, r.bytes)
  }

  /** Two records clash exactly when some address is written by both. */
  lemma ClashMeets(x: Placed, y: Placed)
    ensures Clash(x, y) <==> exists a: nat :: Covers(x, a) && Covers(y, a)
  {
    if Clash(x, y) {
      var a := if x.at < y.at then y.at else x.at;
      assert Covers(x, a) && Covers(y, a);
    }
  }

  /** Image and flags after the first `n` records. */
  ghost predicate SoFar(p: seq<Placed>, base: nat, n: nat, used: seq<bool>, img: Bytes)
    requires n <= |p| && |used| == |img|
  {
    && (forall k: nat :: k < |used| ==> (used[k] <==> Covered(p[..n], base + k)))
    && (forall k: nat :: k < |used| && !used[k] ==> img[k] == 0xFF)
    && (forall i, a: nat :: 0 <= i < n && Covers(p[i], a) ==>
          base <= a < base + |img| && img[a - base] == p[i].bytes[a - p[i].at])
  }

  /** One record's bytes into the image, refusing an address already used. */
  method PlaceRecord(p: seq<Placed>, base: nat, n: nat, img: array<Byte>, used: array<bool>) returns (ok: bool)
    requires n < |p| && img.Length == used.Length && (img as object) != used
    requires base <= p[n].at && p[n].at + |p[n].bytes| <= base + img.Length
    requires SoFar(p, base, n, used[..], img[..])
    modifies img, used
    ensures ok ==> SoFar(p, base, n + 1, used[..], img[..]) && forall i :: 0 <= i < n ==> !Clash(p[i], p[n])
    ensures !ok ==> exists i :: 0 <= i < n && Clash(p[i], p[n])
  {
    var off := p[n].at - base;
    var m := 0;
    while m < |p[n].bytes|
      invariant 0 <= m <= |p[n].bytes|
      invariant forall k: nat :: k < used.Length ==> (used[k] <==> Covered(p[..n], base + k) || off <= k < off + m)
      invariant forall k: nat :: k < used.Length && !used[k] ==> img[k] == 0xFF
      invariant forall i, a: nat :: 0 <= i < n && Covers(p[i], a) ==>
        base <= a < base + img.Length && img[a - base] == p[i].bytes[a - p[i].at]
      invariant forall k: nat :: off <= k < off + m ==> img[k] == p[n].bytes[k - off]
      invariant forall a: nat :: p[n].at <= a < p[n].at + m ==> !Covered(p[..n], a)
    {
      if used[off + m] {
        return false;
      }
      assert !Covered(p[..n], p[n].at + m);
      forall i, a: nat | 0 <= i < n && Covers(p[i], a)
        ensures a != base + (off + m)
      {
        assert Covers(p[..n][i], a);
      }
      used[off + m] := true;
      img[off + m] := p[n].bytes[m];
      m := m + 1;
    }
    forall a: nat | Covers(p[n], a)
      ensures !Covered(p[..n], a) && img[a - base] == p[n].bytes[a - p[n].at]
    {
      assert img[off + (a - p[n].at)] == p[n].bytes[a - p[n].at];
    }
    RecordPlaced(p, base, n, used[..], img[..]);
    ok := true;
  }

  lemma RecordPlaced(p: seq<Placed>, base: nat, n: nat, used: seq<bool>, img: Bytes)
    requires n < |p| && |img| == |used|
    requires base <= p[n].at && p[n].at + |p[n].bytes| <= base + |img|
    requires forall k: nat :: k < |used| ==>
      (used[k] <==> Covered(p[..n], base + k) || p[n].at - base <= k < p[n].at - base + |p[n].bytes|)
    requires forall k: nat :: k < |used| && !used[k] ==> img[k] == 0xFF
    requires forall i, a: nat :: 0 <= i < n && Covers(p[i], a) ==>
      base <= a < base + |img| && img[a - base] == p[i].bytes[a - p[i].at]
    requires forall a: nat :: Covers(p[n], a) ==> !Covered(p[..n], a) && img[a - base] == p[n].bytes[a - p[n].at]
    ensures SoFar(p, base, n + 1, used, img) && forall i :: 0 <= i < n ==> !Clash(p[i], p[n])
  {
    forall k: nat | k < |used|
      ensures used[k] <==> Covered(p[..n + 1], base + k)
    {
    }
    forall i | 0 <= i < n
      ensures !Clash(p[i], p[n])
    {
      if Clash(p[i], p[n]) {
        ClashCovered(p, n, i);
      }
    }
  }

  lemma ClashCovered(p: seq<Placed>, n: nat, i: nat)
    requires i < n < |p| && Clash(p[i], p[n])
    ensures exists a: nat :: Covers(p[n], a) && Covered(p[..n], a)
  {
    ClashMeets(p[i], p[n]);
    var a: nat :| Covers(p[i], a) && Covers(p[n], a);
    assert Covers(p[..n][i], a);
  }

  class Accumulator {
    var base: nat
    var records: seq<Placed>
    var min: Option<nat>
    var max: nat
    var sawEof: bool

    ghost function State(): Progress
      reads this
    {
      Progress(base, records, sawEof)
    }

    ghost predicate Valid()
      reads this
    {
      min == (if |records| == 0 then None else Some(MinAt(records))) && max == MaxEnd(records)
    }

    constructor ()
      ensures Valid() && State() == Progress(0, [], false)
    {
      base, records, min, max, sawEof := 0, [], None, 0, false;
    }

    method Feed(r: HexRecord) returns (ok: bool)
      requires Valid()
      modifies this
      ensures Valid()
      ensures ok <==> Step(old(State()), r).Some?
      ensures ok ==> State() == Step(old(State()), r).value
    {
      hide MinAt, MaxEnd;
      ok := true;
      match r
      case Data(offset, bytes) =>
        var full := base + offset;
        var end := full + |bytes|;
        if end > U32_LIMIT {
          return false;
        }
        BoundsSnoc(records, Placed(full, bytes));
        records := records + [Placed(full, bytes)];
        if min.None? || full < min.value {
          min := Some(full);
        }
        if end > max {
          max := end;
        }
      case Eof => sawEof := true;
      case ExtendedSegment(v) => base := v * 16;
      case ExtendedLinear(v) => base := v * 0x1_0000;
      case Ignored =>
    }

    /** No end record, too wide a span or overlapping records reject the file. */
    method Finish() returns (r: Outcome)
      requires Valid()
      ensures Amounts(State(), r)
    {
      hide Clash, Covers;
      if !sawEof {
        return Rejected;
      }
      if |records| == 0 {
        return Image(0, []);
      }
      if max - min.value > MAX_IMAGE_SPAN {
        return Rejected;
      }
      r := FillImage(records, min.value, max - min.value);
    }
  }

  /** Fill the image between the lowest and the highest address, refusing overlaps. */
  method FillImage(records: seq<Placed>, low: nat, span: nat) returns (r: Outcome)
    requires |records| > 0 && low == MinAt(records) && low + span == MaxEnd(records)
    ensures if Overlaps(records) then r == Rejected
            else r.Image? && r.base == low && |r.bytes| == span && IsImage(records, low, r.bytes)
  {
    hide Clash, Covers, MinAt, MaxEnd;
    var img := new Byte[span](_ => 0xFF);
    var used := new bool[span](_ => false);
    var n := 0;
    while n < |records|
      invariant 0 <= n <= |records|
      invariant SoFar(records, low, n, used[..], img[..])
      invariant !Overlaps(records[..n])
    {
      var ok := PlaceRecord(records, low, n, img, used);
      if !ok {
        var i :| 0 <= i < n && Clash(records[i], records[n]);
        return Rejected;
      }
      assert records[..n + 1][..n] == records[..n];
      n := n + 1;
    }
    assert records[..n] == records;
    r := Image(low, img[..]);
  }

  lemma BoundsSnoc(p: seq<Placed>, r: Placed)
    ensures MinAt(p + [r]) == if |p| == 0 || r.at < MinAt(p) then r.at else MinAt(p)
    ensures MaxEnd(p + [r]) == if r.at + |r.bytes| > MaxEnd(p) then r.at + |r.bytes| else MaxEnd(p)
  {
    hide MinAt, MaxEnd;
    MinSnoc(p, r);
    MaxSnoc(p, r);
  }

  lemma MinSnoc(p: seq<Placed>, r: Placed)
    ensures MinAt(p + [r]) == if |p| == 0 || r.at < MinAt(p) then r.at else MinAt(p)
  {
    assert (p + [r])[..|p|] == p;
  }

  lemma MaxSnoc(p: seq<Placed>, r: Placed)
    ensures MaxEnd(p + [r]) == if r.at + |r.bytes| > MaxEnd(p) then r.at + |r.bytes| else MaxEnd(p)
  {
    assert (p + [r])[..|p|] == p;
  }

  /** Read the records in order, then assemble. */
  method ParseIntelHex(lines: seq<string>) returns (r: Outcome)
    ensures Scan(lines, |lines|).None? ==> r == Rejected
    ensures Scan(lines, |lines|).Some? ==> Amounts(Scan(lines, |lines|).value, r)
  {
    hide ParseLine, Step;
    var acc := new Accumulator();
    var i := 0;
    while i < |lines|
      invariant 0 <= i <= |lines| && acc.Valid()
      invariant Scan(lines, i) == Some(acc.State())
    {
      if |lines[i]| > 0 {
        if acc.sawEof {
          StaysRejected(lines, i + 1, |lines|);
          return Rejected;
        }
        var rec := ParseLine(lines[i]);
        if rec.None? {
          StaysRejected(lines, i + 1, |lines|);
          return Rejected;
        }
        var ok := acc.Feed(rec.value);
        if !ok {
          StaysRejected(lines, i + 1, |lines|);
          return Rejected;
        }
      }
      i := i + 1;
    }
    r := acc.Finish();
  }

  lemma {:induction false} StaysRejected(lines: seq<string>, k: nat, n: nat)
    requires k <= n <= |lines| && Scan(lines, k).None?
    ensures Scan(lines, n).None?
    decreases n
  {
    hide ParseLine, Step;
    if k < n {
      StaysRejected(lines, k, n - 1);
    }
  }

  // ---- order does not matter ---------------------------------------------

  lemma InBoth(p: seq<Placed>, q: seq<Placed>, i: nat) returns (j: nat)
    requires multiset(p) == multiset(q) && i < |p|
    ensures j < |q| && q[j] == p[i]
  {
    assert p[i] in multiset(p);
    assert p[i] in q;
    j :| 0 <= j < |q| && q[j] == p[i];
  }

  lemma CoveredPermutes(p: seq<Placed>, q: seq<Placed>, a: nat)
    requires multiset(p) == multiset(q) && Covered(p, a)
    ensures Covered(q, a)
  {
    var i :| 0 <= i < |p| && Covers(p[i], a);
    var j := InBoth(p, q, i);
    assert Covers(q[j], a);
  }

  lemma BoundsPermute(p: seq<Placed>, q: seq<Placed>)
    requires multiset(p) == multiset(q)
    ensures |p| > 0 ==> |q| > 0 && MinAt(q) <= MinAt(p)
    ensures MaxEnd(p) <= MaxEnd(q)
  {
    if |p| > 0 {
      var i := MinAttained(p);
      var j := InBoth(p, q, i);
    }
    if MaxEnd(p) > 0 {
      var i := MaxAttained(p);
      var j := InBoth(p, q, i);
    }
  }

  lemma Remove(p: seq<Placed>, i: nat)
    requires i < |p|
    ensures multiset(p[..i] + p[i + 1..]) == multiset(p) - multiset{p[i]}
  {
    assert p == p[..i] + [p[i]] + p[i + 1..];
  }

  lemma OverlapsPermute(p: seq<Placed>, q: seq<Placed>)
    requires multiset(p) == multiset(q) && Overlaps(p)
    ensures Overlaps(q)
  {
    hide Clash;
    var i, j :| 0 <= i < j < |p| && Clash(p[i], p[j]);
    var m := InBoth(p, q, i);
    Remove(p, i);
    Remove(q, m);
    var ps, qs := p[..i] + p[i + 1..], q[..m] + q[m + 1..];
    assert ps[j - 1] == p[j];
    var k := InBoth(ps, qs, j - 1);
    var n := if k < m then k else k + 1;
    assert q[n] == qs[k] == p[j];
    ClashSymmetric(p[i], p[j]);
    if m < n {
      assert Clash(q[m], q[n]);
    } else {
      assert Clash(q[n], q[m]);
    }
  }

  lemma ClashSymmetric(x: Placed, y: Placed)
    ensures Clash(x, y) <==> Clash(y, x)
  {
  }

  lemma ImagePermutes(p: seq<Placed>, q: seq<Placed>, base: nat, img: Bytes)
    requires multiset(p) == multiset(q) && IsImage(p, base, img)
    ensures IsImage(q, base, img)
  {
    hide Covered;
    forall j, a: nat | 0 <= j < |q| && Covers(q[j], a)
      ensures base <= a < base + |img| && img[a - base] == q[j].bytes[a - q[j].at]
    {
      var i := InBoth(q, p, j);
      assert Covers(p[i], a);
    }
    forall a: nat | !Covered(q, a) && base <= a < base + |img|
      ensures img[a - base] == 0xFF
    {
      if Covered(p, a) {
        CoveredPermutes(p, q, a);
      }
    }
  }

  /** The same data records in any order amount to the same file. */
  lemma OrderDoesNotMatter(p: Progress, q: Progress, r: Outcome)
    requires p.eof == q.eof && multiset(p.placed) == multiset(q.placed) && Amounts(p, r)
    ensures Amounts(q, r)
  {
    hide Overlaps, IsImage;
    BoundsPermute(p.placed, q.placed);
    BoundsPermute(q.placed, p.placed);
    if Overlaps(p.placed) {
      OverlapsPermute(p.placed, q.placed);
    }
    if Overlaps(q.placed) {
      OverlapsPermute(q.placed, p.placed);
    }
    if r.Image? && IsImage(p.placed, r.base, r.bytes) {
      ImagePermutes(p.placed, q.placed, r.base, r.bytes);
    }
  }

  /** The same addressing state and the same data records, in whatever order. */
  ghost predicate Alike(p: Option<Progress>, q: Option<Progress>) {
    && (p.Some? <==> q.Some?)
    && (p.Some? ==> p.value.base == q.value.base && p.value.eof == q.value.eof
                    && multiset(p.value.placed) == multiset(q.value.placed))
  }

  lemma AlikeStep(p: Progress, q: Progress, r: HexRecord)
    requires Alike(Some(p), Some(q))
    ensures Alike(Step(p, r), Step(q, r))
  {
  }

  function TwoSteps(p: Progress, r: HexRecord, s: HexRecord): Option<Progress> {
    match Step(p, r) case None => None case Some(m) => Step(m, s)
  }

  lemma SwappedSteps(p: Progress, r: HexRecord, s: HexRecord)
    requires r.Data? && s.Data?
    ensures Alike(TwoSteps(p, r, s), TwoSteps(p, s, r))
  {
    TwoData(p, r, s);
    TwoData(p, s, r);
    hide TwoSteps, Step;
  }

  function At(p: Progress, r: HexRecord): Placed
    requires r.Data?
  {
    Placed(p.base + r.offset, r.bytes)
  }

  predicate Fits(p: Progress, r: HexRecord)
    requires r.Data?
  {
    p.base + r.offset + |r.bytes| <= U32_LIMIT
  }

  lemma TwoData(p: Progress, r: HexRecord, s: HexRecord)
    requires r.Data? && s.Data?
    ensures TwoSteps(p, r, s)
         == if Fits(p, r) && Fits(p, s) then Some(p.(placed := p.placed + [At(p, r)] + [At(p, s)])) else None
  {
  }

  lemma {:induction false} ScanSame(a: seq<string>, b: seq<string>, n: nat)
    requires n <= |a| && n <= |b| && a[..n] == b[..n]
    ensures Scan(a, n) == Scan(b, n)
    decreases n
  {
    hide ParseLine, Step;
    if n > 0 {
      assert a[n - 1] == a[..n][n - 1] == b[..n][n - 1] == b[n - 1];
      assert a[..n - 1] == a[..n][..n - 1] == b[..n - 1];
      ScanSame(a, b, n - 1);
    }
  }

  predicate IsData(line: string) { |line| > 0 && ParseLine(line).Some? && ParseLine(line).value.Data? }

  lemma {:induction false} ScanSwapped(lines: seq<string>, i: nat, n: nat)
    requires i + 2 <= n <= |lines| && IsData(lines[i]) && IsData(lines[i + 1])
    ensures Alike(Scan(lines, n), Scan(lines[i := lines[i + 1]][i + 1 := lines[i]], n))
    decreases n
  {
    hide ParseLine, Step, TwoSteps;
    var swapped := lines[i := lines[i + 1]][i + 1 := lines[i]];
    if n == i + 2 {
      ScanSame(lines, swapped, i);
      ScanTwo(lines, i);
      ScanTwo(swapped, i);
      if Scan(lines, i).Some? && !Scan(lines, i).value.eof {
        SwappedSteps(Scan(lines, i).value, ParseLine(lines[i]).value, ParseLine(lines[i + 1]).value);
      }
    } else {
      ScanSwapped(lines, i, n - 1);
      var p, q := Scan(lines, n - 1), Scan(swapped, n - 1);
      if p.Some? && |lines[n - 1]| > 0 && ParseLine(lines[n - 1]).Some? {
        AlikeStep(p.value, q.value, ParseLine(lines[n - 1]).value);
      }
    }
  }

  lemma ScanTwo(lines: seq<string>, i: nat)
    requires i + 2 <= |lines| && IsData(lines[i]) && IsData(lines[i + 1])
    ensures Scan(lines, i + 2) ==
      match Scan(lines, i)
      case None => None
      case Some(p) =>
        if p.eof then None else TwoSteps(p, ParseLine(lines[i]).value, ParseLine(lines[i + 1]).value)
  {
    hide ParseLine;
  }

  /** Exchanging two neighbouring data lines, and so reordering data records under one base address in any
      way, changes nothing about what the file amounts to. */
  lemma SwappedDataLines(lines: seq<string>, i: nat, r: Outcome)
    requires i + 2 <= |lines| && IsData(lines[i]) && IsData(lines[i + 1])
    ensures var swapped := lines[i := lines[i + 1]][i + 1 := lines[i]];
      var p, q := Scan(lines, |lines|), Scan(swapped, |lines|);
      && (p.Some? <==> q.Some?)
      && (p.Some? ==> (Amounts(p.value, r) <==> Amounts(q.value, r)))
  {
    hide ParseLine, Amounts;
    ScanSwapped(lines, i, |lines|);
    var swapped := lines[i := lines[i + 1]][i + 1 := lines[i]];
    var p, q := Scan(lines, |lines|), Scan(swapped, |lines|);
    if p.Some? && Amounts(p.value, r) {
      OrderDoesNotMatter(p.value, q.value, r);
    }
    if q.Some? && Amounts(q.value, r) {
      OrderDoesNotMatter(q.value, p.value, r);
    }
  }

  /** A file amounts to one outcome. */
  lemma OutcomeIsUnique(p: Progress, r: Outcome, s: Outcome)
    requires Amounts(p, r) && Amounts(p, s)
    ensures r == s
  {
    hide Overlaps, IsImage;
    if r.Image? && |p.placed| > 0 {
      ImageIsUnique(p.placed, r.base, r.bytes, s.bytes);
    }
  }
}
