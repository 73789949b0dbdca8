/** CRC-32/ISO-HDLC: the bitwise definition (section 8 of RFC 1952), the firmware's nibble-table
    loop, the application companion's bit loop, and what the code is guaranteed to detect. */
module Crc32 {
  import opened Bytes

  const INIT: bv32 := 0xFFFFFFFF

  function Xor(a: bv32, b: bv32): bv32 { a ^ b }

  function Widen(b: Byte): bv32 { b as bv32 }

  /** One reflected shift of the register. */
  function Bit(s: bv32): bv32 {
    if s & 1 == 1 then (s >> 1) ^ 0xEDB88320 else s >> 1
  }

  function Shifts(s: bv32, n: nat): bv32 {
    if n == 0 then s else Bit(Shifts(s, n - 1))
  }

  function ByteStep(s: bv32, b: Byte): bv32 { Shifts(Xor(s, Widen(b)), 8) }

  /** The register after the first `n` bytes of a string. */
  function UpdateFirst(s: bv32, data: Bytes, n: nat): bv32
    requires n <= |data|
  {
    if n == 0 then s else ByteStep(UpdateFirst(s, data, n - 1), data[n - 1])
  }

  /** The register after a byte string. */
  function Update(s: bv32, data: Bytes): bv32 { UpdateFirst(s, data, |data|) }

  lemma {:induction false} FirstOfPrefix(s: bv32, data: Bytes, m: nat, n: nat)
    requires n <= m <= |data|
    ensures UpdateFirst(s, data[..m], n) == UpdateFirst(s, data, n)
    decreases n
  {
    hide ByteStep;
    if n > 0 {
      FirstOfPrefix(s, data, m, n - 1);
    }
  }

  lemma UpdateLast(s: bv32, data: Bytes)
    requires |data| > 0
    ensures Update(s, data) == ByteStep(Update(s, data[..|data| - 1]), data[|data| - 1])
  {
    hide ByteStep;
    FirstOfPrefix(s, data, |data| - 1, |data| - 1);
  }

  function Final(s: bv32): bv32 { Xor(s, 0xFFFFFFFF) }

  function Crc(data: Bytes): bv32 { Final(Update(INIT, data)) }

  /** Folding chunks one after another is one pass over the concatenation. */
  lemma {:induction false} UpdateConcat(s: bv32, a: Bytes, b: Bytes)
    ensures Update(s, a + b) == Update(Update(s, a), b)
  {
    hide ByteStep;
    if |b| == 0 {
      assert a + b == a;
    } else {
      UpdateLast(s, a + b);
      UpdateLast(Update(s, a), b);
      var n := |a + b| - 1;
      assert (a + b)[..n] == a + b[..|b| - 1];
      assert (a + b)[n] == b[|b| - 1];
      UpdateConcat(s, a, b[..|b| - 1]);
    }
  }

  lemma UpdateOne(s: bv32, data: Bytes, b: Byte)
    ensures Update(s, data + [b]) == ByteStep(Update(s, data), b)
  {
    hide ByteStep;
    UpdateLast(s, data + [b]);
    assert (data + [b])[..|data|] == data;
  }

  // ---- the firmware's nibble table ---------------------------------------

  const TABLE: seq<bv32> := [
    0x00000000, 0x1DB71064, 0x3B6E20C8, 0x26D930AC,
    0x76DC4190, 0x6B6B51F4, 0x4DB26158, 0x5005713C,
    0xEDB88320, 0xF00F9344, 0xD6D6A3E8, 0xCB61B38C,
    0x9B64C2B0, 0x86D3D2D4, 0xA00AE278, 0xBDBDF21C]

  lemma FourShifts(s: bv32)
    ensures Shifts(s, 4) == Bit(Bit(Bit(Bit(s))))
  {
    hide Bit;
    assert Shifts(s, 1) == Bit(Shifts(s, 0));
    assert Shifts(s, 2) == Bit(Shifts(s, 1));
    assert Shifts(s, 3) == Bit(Shifts(s, 2));
  }

  lemma {:induction false} ShiftsAdd(s: bv32, m: nat, n: nat)
    ensures Shifts(s, m + n) == Shifts(Shifts(s, m), n)
  {
    hide Bit;
    if n > 0 {
      ShiftsAdd(s, m, n - 1);
    }
  }

  /** The table read as a function of a nibble. */
  function Entry(n: bv32): bv32 {
    if n == 0 then TABLE[0] else if n == 1 then TABLE[1] else if n == 2 then TABLE[2] else if n == 3 then TABLE[3]
    else if n == 4 then TABLE[4] else if n == 5 then TABLE[5] else if n == 6 then TABLE[6] else if n == 7 then TABLE[7]
    else if n == 8 then TABLE[8] else if n == 9 then TABLE[9] else if n == 10 then TABLE[10] else if n == 11 then TABLE[11]
    else if n == 12 then TABLE[12] else if n == 13 then TABLE[13] else if n == 14 then TABLE[14] else TABLE[15]
  }

  lemma EntryOfNibble(n: bv32)
    requires n <= 15
    ensures n as nat < 16 && TABLE[n as nat] == Entry(n)
  {
    hide TABLE;
    if n < 8 {
      assert n == 0 || n == 1 || n == 2 || n == 3 || n == 4 || n == 5 || n == 6 || n == 7;
    } else {
      assert n == 8 || n == 9 || n == 10 || n == 11 || n == 12 || n == 13 || n == 14 || n == 15;
    }
  }

  lemma XorCancel(a: bv32, b: bv32, c: bv32)
    ensures (a ^ c) ^ (b ^ c) == a ^ b
    ensures (a ^ c) ^ b == (a ^ b) ^ c
    ensures a ^ (b ^ c) == (a ^ b) ^ c
  {
  }

  lemma LowBitXor(a: bv32, b: bv32)
    ensures ((a ^ b) & 1 == 1) <==> ((a & 1 == 1) != (b & 1 == 1))
  {
  }

  lemma BitLinear(a: bv32, b: bv32)
    ensures Bit(Xor(a, b)) == Xor(Bit(a), Bit(b))
  {
    LowBitXor(a, b);
    XorCancel(a >> 1, b >> 1, 0xEDB88320);
  }

  lemma FourEven(a: bv32)
    requires a & 0xF0000000 == 0
    ensures Bit(Bit(Bit(Bit(a << 4)))) == a
  {
  }

  lemma FourLinear(a: bv32, b: bv32)
    ensures Bit(Bit(Bit(Bit(Xor(a, b))))) == Xor(Bit(Bit(Bit(Bit(a)))), Bit(Bit(Bit(Bit(b)))))
  {
    hide Bit, Xor;
    BitLinear(a, b);
    BitLinear(Bit(a), Bit(b));
    BitLinear(Bit(Bit(a)), Bit(Bit(b)));
    BitLinear(Bit(Bit(Bit(a))), Bit(Bit(Bit(b))));
  }

  lemma NibbleParts(s: bv32)
    ensures Xor((s >> 4) << 4, s & 0xF) == s && (s >> 4) & 0xF0000000 == 0 && s & 0xF <= 15
  {
  }

  lemma EntryOfLow(n: bv32)
    requires n <= 15
    ensures Entry(n) == Bit(Bit(Bit(Bit(n))))
  {
  }

  lemma FourOfParts(s: bv32, up: bv32, high: bv32, low: bv32)
    requires Xor(high, low) == s && Bit(Bit(Bit(Bit(high)))) == up && low <= 15
    ensures Xor(up, Entry(low)) == Bit(Bit(Bit(Bit(s))))
  {
    hide Bit, Entry, Xor;
    FourLinear(high, low);
    EntryOfLow(low);
  }

  /** The upper bits shift straight through; the low nibble picks its table entry. */
  lemma EntryIsFourBits(s: bv32)
    ensures Xor(s >> 4, Entry(s & 0xF)) == Bit(Bit(Bit(Bit(s))))
  {
    hide Bit, Entry, Xor;
    NibbleParts(s);
    FourEven(s >> 4);
    FourOfParts(s, s >> 4, (s >> 4) << 4, s & 0xF);
  }

  lemma TableEntry(s: bv32)
    ensures (s & 0xF) as nat < 16
    ensures (s >> 4) ^ TABLE[(s & 0xF) as nat] == Bit(Bit(Bit(Bit(s))))
  {
    hide Entry, Bit;
    EntryOfNibble(s & 0xF);
    EntryIsFourBits(s);
  }

  function TableStep(s: bv32): (r: bv32)
    ensures r == Shifts(s, 4)
  {
    TableEntry(s); FourShifts(s);
    (s >> 4) ^ TABLE[(s & 0xF) as nat]
  }

  /** The firmware's CRC loop computes the bitwise register on every byte string. */
  method TableUpdate(start: bv32, data: Bytes) returns (state: bv32)
    ensures state == Update(start, data)
  {
    hide Shifts, Xor, Widen, TableStep;
    state := start;
    var i := 0;
    while i < |data|
      invariant 0 <= i <= |data|
      invariant state == UpdateFirst(start, data, i)
    {
      ghost var entry := Xor(state, Widen(data[i]));
      state := Xor(state, Widen(data[i]));
      state := TableStep(state);
      state := TableStep(state);
      ShiftsAdd(entry, 4, 4);
      i := i + 1;
    }
  }

  lemma MaskedShift(s: bv32)
    ensures (s >> 1) ^ (0xEDB88320 & (0 - (s & 1))) == Bit(s)
  {
    var mask: bv32 := 0 - (s & 1);
    if s & 1 == 1 {
      assert mask == 0xFFFFFFFF;
    } else {
      assert mask == 0;
    }
  }

  function MaskStep(s: bv32): (r: bv32)
    ensures r == Bit(s)
  {
    MaskedShift(s);
    (s >> 1) ^ (0xEDB88320 & (0 - (s & 1)))
  }

  lemma OnesComplement(s: bv32)
    ensures !s == Final(s)
  {
  }

  /** The application companion's bit loop computes the same value. */
  method BitwiseCrc(data: Bytes) returns (crc: bv32)
    ensures crc == Crc(data)
  {
    hide Bit, MaskStep, Xor, Widen;
    crc := 0xFFFFFFFF;
    var i := 0;
    while i < |data|
      invariant 0 <= i <= |data|
      invariant crc == UpdateFirst(INIT, data, i)
    {
      crc := Xor(crc, Widen(data[i]));
      ghost var before := crc;
      var bit := 0;
      while bit < 8
        invariant 0 <= bit <= 8
        invariant crc == Shifts(before, bit)
      {
        crc := MaskStep(crc);
        bit := bit + 1;
      }
      i := i + 1;
    }
    OnesComplement(crc);
    crc := !crc;
  }

  // ---- what the CRC is guaranteed to detect ------------------------------

  lemma {:induction false} ShiftsLinear(a: bv32, b: bv32, n: nat)
    ensures Shifts(Xor(a, b), n) == Xor(Shifts(a, n), Shifts(b, n))
  {
    hide Bit, Xor;
    if n > 0 {
      ShiftsLinear(a, b, n - 1);
      BitLinear(Shifts(a, n - 1), Shifts(b, n - 1));
    }
  }

  lemma BitInjective(a: bv32, b: bv32)
    requires Bit(a) == Bit(b)
    ensures a == b
  {
  }

  lemma {:induction false} ShiftsInjective(a: bv32, b: bv32, n: nat)
    requires Shifts(a, n) == Shifts(b, n)
    ensures a == b
  {
    hide Bit;
    if n > 0 {
      BitInjective(Shifts(a, n - 1), Shifts(b, n - 1));
      ShiftsInjective(a, b, n - 1);
    }
  }

  lemma XorComm(a: bv32, b: bv32)
    ensures Xor(a, b) == Xor(b, a)
    ensures Xor(a, 0) == a
  {
  }

  lemma XorRegroup(a: bv32, b: bv32, c: bv32)
    ensures Xor(a, Xor(b, c)) == Xor(Xor(a, c), b)
  {
  }

  lemma XorInjective(a: bv32, b: bv32, c: bv32)
    requires Xor(a, c) == Xor(b, c)
    ensures a == b
  {
  }

  /** Zero low bits shift straight out: the polynomial is never applied. */
  lemma EvenShifts(a: bv32)
    requires a & 0xFF000000 == 0
    ensures Shifts(a << 8, 8) == a
  {
    hide Bit, Shifts;
    ShiftsAdd(a << 8, 4, 4);
    FourShifts(a << 8);
    FourEven(a << 4);
    FourShifts(a << 4);
    FourEven(a);
  }

  function ShiftUp(w: bv32): bv32 { w << 8 }

  lemma SplitWord(b0: Byte, b1: Byte, b2: Byte, b3: Byte)
    ensures LeWord([b0, b1, b2, b3]) == Xor(ShiftUp(LeWord([b1, b2, b3, 0])), Widen(b0))
    ensures LeWord([b1, b2, b3, 0]) & 0xFF000000 == 0
  {
  }

  lemma EvenSplit(b1: Byte, b2: Byte, b3: Byte)
    ensures Shifts(ShiftUp(LeWord([b1, b2, b3, 0])), 8) == LeWord([b1, b2, b3, 0])
  {
    hide LeWord, Shifts;
    SplitWord(0, b1, b2, b3);
    EvenShifts(LeWord([b1, b2, b3, 0]));
  }

  /** Absorbing a whole word and shifting once per byte peels off its first byte. */
  lemma Absorb(s: bv32, b0: Byte, b1: Byte, b2: Byte, b3: Byte)
    ensures Shifts(Xor(s, LeWord([b0, b1, b2, b3])), 8) == Xor(ByteStep(s, b0), LeWord([b1, b2, b3, 0]))
  {
    hide Bit, Shifts, LeWord, Xor, Widen, ShiftUp;
    SplitWord(b0, b1, b2, b3);
    var w := LeWord([b1, b2, b3, 0]);
    XorRegroup(s, ShiftUp(w), Widen(b0));
    ShiftsLinear(Xor(s, Widen(b0)), ShiftUp(w), 8);
    EvenSplit(b1, b2, b3);
  }

  lemma ZeroWord()
    ensures LeWord([0, 0, 0, 0]) == 0
  {
  }

  /** Four bytes enter the register exactly as one little-endian word. */
  lemma FourBytes(s: bv32, b0: Byte, b1: Byte, b2: Byte, b3: Byte)
    ensures ByteStep(ByteStep(ByteStep(ByteStep(s, b0), b1), b2), b3)
         == Shifts(Xor(s, LeWord([b0, b1, b2, b3])), 32)
  {
    hide Bit, Shifts, ByteStep, LeWord, Xor;
    var s1 := ByteStep(s, b0);
    var s2 := ByteStep(s1, b1);
    var s3 := ByteStep(s2, b2);
    var w := Xor(s, LeWord([b0, b1, b2, b3]));
    Absorb(s, b0, b1, b2, b3);
    Absorb(s1, b1, b2, b3, 0);
    Absorb(s2, b2, b3, 0, 0);
    Absorb(s3, b3, 0, 0, 0);
    ZeroWord();
    XorComm(ByteStep(s3, b3), 0);
    ShiftsAdd(w, 8, 24);
    ShiftsAdd(Xor(s1, LeWord([b1, b2, b3, 0])), 8, 16);
    ShiftsAdd(Xor(s2, LeWord([b2, b3, 0, 0])), 8, 8);
  }

  lemma ByteStepInjective(s: bv32, t: bv32, b: Byte)
    requires ByteStep(s, b) == ByteStep(t, b)
    ensures s == t
  {
    hide Bit, Shifts, Xor, Widen;
    ShiftsInjective(Xor(s, Widen(b)), Xor(t, Widen(b)), 8);
    XorInjective(s, t, Widen(b));
  }

  lemma {:induction false} UpdateInjective(s: bv32, t: bv32, data: Bytes)
    requires Update(s, data) == Update(t, data)
    ensures s == t
  {
    hide ByteStep;
    if |data| > 0 {
      var n := |data| - 1;
      UpdateLast(s, data);
      UpdateLast(t, data);
      ByteStepInjective(Update(s, data[..n]), Update(t, data[..n]), data[n]);
      UpdateInjective(s, t, data[..n]);
    }
  }

  lemma UpdateFour(s: bv32, w: Bytes)
    requires |w| == 4
    ensures Update(s, w) == Shifts(Xor(s, LeWord(w)), 32)
  {
    hide ByteStep, Shifts, LeWord, Xor;
    assert w == [w[0], w[1], w[2], w[3]];
    UpdateOne(s, [], w[0]);
    UpdateOne(s, [w[0]], w[1]);
    UpdateOne(s, [w[0], w[1]], w[2]);
    UpdateOne(s, [w[0], w[1], w[2]], w[3]);
    assert [] + [w[0]] == [w[0]];
    assert [w[0]] + [w[1]] == [w[0], w[1]];
    assert [w[0], w[1]] + [w[2]] == [w[0], w[1], w[2]];
    assert [w[0], w[1], w[2]] + [w[3]] == w;
    FourBytes(s, w[0], w[1], w[2], w[3]);
  }

  /** The register after four bytes determines the four bytes. */
  lemma FourBytesInjective(s: bv32, w: Bytes, w': Bytes)
    requires |w| == |w'| == 4
    requires Update(s, w) == Update(s, w')
    ensures w == w'
  {
    hide Shifts, Update, LeWord, Xor, PutWord;
    UpdateFour(s, w);
    UpdateFour(s, w');
    ShiftsInjective(Xor(s, LeWord(w)), Xor(s, LeWord(w')), 32);
    XorComm(s, LeWord(w));
    XorComm(s, LeWord(w'));
    XorInjective(LeWord(w), LeWord(w'), s);
    PutWordOfLeWord(w);
    PutWordOfLeWord(w');
  }

  /** Equal-length messages that differ only inside one window of at most four bytes never share a CRC. */
  lemma BurstDetected(pre: Bytes, w: Bytes, w': Bytes, post: Bytes)
    requires |w| == |w'| <= 4 && w != w'
    ensures Crc(pre + w + post) != Crc(pre + w' + post)
  {
    hide Update, Xor;
    if Crc(pre + w + post) == Crc(pre + w' + post) {
      var s := Update(INIT, pre);
      UpdateConcat(INIT, pre + w, post);
      UpdateConcat(INIT, pre, w);
      UpdateConcat(INIT, pre + w', post);
      UpdateConcat(INIT, pre, w');
      XorInjective(Update(INIT, pre + w + post), Update(INIT, pre + w' + post), 0xFFFFFFFF);
      UpdateInjective(Update(s, w), Update(s, w'), post);
      var pad := seq(4 - |w|, _ => 0 as Byte);
      UpdateConcat(s, w, pad);
      UpdateConcat(s, w', pad);
      assert (w + pad)[..|w|] == w && (w' + pad)[..|w|] == w';
      FourBytesInjective(s, w + pad, w' + pad);
    }
  }

  /** What the register always holds after a message followed by its own CRC. */
  function Residue(): bv32 { Shifts(0xFFFFFFFF, 32) }

  lemma FinalDifference(s: bv32)
    ensures Xor(s, Final(s)) == 0xFFFFFFFF
  {
  }

  lemma OnesDifference(s: bv32, w: bv32)
    ensures w == Final(s) <==> Xor(s, w) == 0xFFFFFFFF
  {
    hide Xor, Final;
    FinalDifference(s);
    if Xor(s, w) == 0xFFFFFFFF {
      XorComm(s, w);
      XorComm(s, Final(s));
      XorInjective(w, Final(s), s);
    }
  }

  /** Four bytes are the CRC of what precedes them exactly when one pass over everything leaves the residue. */
  lemma CheckedByResidue(body: Bytes, t: Bytes)
    requires |t| == 4
    ensures LeWord(t) == Crc(body) <==> Update(INIT, body + t) == Residue()
  {
    hide Shifts, Update, LeWord, Xor, Final;
    var s := Update(INIT, body);
    UpdateConcat(INIT, body, t);
    UpdateFour(s, t);
    OnesDifference(s, LeWord(t));
    if Update(INIT, body + t) == Residue() {
      ShiftsInjective(Xor(s, LeWord(t)), 0xFFFFFFFF, 32);
    }
  }

  /** A message with its CRC appended, changed inside a window of at most four bytes anywhere, the CRC
      itself included, never checks again. */
  lemma SealedBurstDetected(f: Bytes, g: Bytes, lo: nat, hi: nat)
    requires |f| == |g| >= 4 && lo <= hi <= |f| && hi - lo <= 4
    requires f[..lo] == g[..lo] && f[hi..] == g[hi..] && f != g
    requires LeWord(f[|f| - 4..]) == Crc(f[..|f| - 4])
    ensures LeWord(g[|g| - 4..]) != Crc(g[..|g| - 4])
  {
    hide Update, LeWord, Residue;
    var n := |f| - 4;
    assert f[..n] + f[n..] == f && g[..n] + g[n..] == g;
    CheckedByResidue(f[..n], f[n..]);
    CheckedByResidue(g[..n], g[n..]);
    assert f == f[..lo] + f[lo..hi] + f[hi..] && g == g[..lo] + g[lo..hi] + g[hi..];
    BurstDetected(f[..lo], f[lo..hi], g[lo..hi], f[hi..]);
  }
}
