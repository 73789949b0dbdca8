/** A whole Intel HEX file, written and read back: extended addresses, data lines and the end record. */
module HexFile {
  import opened Bytes
  import opened Hex

  /** Data at a sixteen-bit offset from an extended address, linear or segmented. */
  datatype Piece = Piece(linear: bool, hi: Byte, lo: Byte, offHi: Byte, offLo: Byte, data: Bytes)

  /** Where the file format puts it: a linear address counts units of 64 KiB, a segment address units of 16. */
  function Address(p: Piece): nat {
    (if p.linear then 65536 else 16) * (256 * Digit(p.hi) + Digit(p.lo)) + (256 * Digit(p.offHi) + Digit(p.offLo))
  }

  predicate Writable(p: Piece) { |p.data| < 0x100 && Address(p) + |p.data| <= 0x1_0000_0000 }

  function AddressLine(p: Piece): string { RenderLine(if p.linear then 4 else 2, 0, 0, [p.hi, p.lo]) }

  function DataLine(p: Piece): string
    requires |p.data| < 0x100
  {
    RenderLine(0, p.offHi, p.offLo, p.data)
  }

  function EndLine(): string { RenderLine(1, 0, 0, []) }

  /** The lines of the first pieces, each under its own extended address. */
  function Lines(ps: seq<Piece>): (lines: seq<string>)
    requires forall i :: 0 <= i < |ps| ==> Writable(ps[i])
    ensures |lines| == 2 * |ps|
  {
    if |ps| == 0 then []
    else
      assert Writable(ps[|ps| - 1]);
      Lines(ps[..|ps| - 1]) + [AddressLine(ps[|ps| - 1]), DataLine(ps[|ps| - 1])]
  }

  function Places(ps: seq<Piece>): seq<Placed> {
    seq(|ps|, i requires 0 <= i < |ps| => Placed(Address(ps[i]), ps[i].data))
  }

  lemma RenderedIsLong(kind: Byte, hi: Byte, lo: Byte, data: Bytes)
    requires |data| < 0x100
    ensures |RenderLine(kind, hi, lo, data)| >= 11
  {
    hide HexOf, Checksum;
  }

  /** A rendered extended-address line is read as such, with its own value. */
  lemma AddressReads(p: Piece)
    ensures ParseLine(AddressLine(p)) == Some(AddressRecord(p))
  {
    hide ParseLine, RenderLine, HexOf, FromHex, HexBytes, Digit;
    RenderedReads(if p.linear then 4 else 2, 0, 0, [p.hi, p.lo]);
    TwoBytesRead(p.hi, p.lo);
    SmallDigits();
  }

  lemma SmallDigits()
    ensures Digit(0) == 0 && Digit(1) == 1 && Digit(2) == 2 && Digit(4) == 4
  {
  }

  lemma EndReads()
    ensures ParseLine(EndLine()) == Some(Eof)
  {
    hide ParseLine, RenderLine, HexOf, FromHex, HexBytes, Digit;
    RenderedReads(1, 0, 0, []);
    SmallDigits();
  }

  /** Lines of other types, correctly summed, change nothing. */
  lemma OthersIgnored(kind: Byte, hi: Byte, lo: Byte, data: Bytes, p: Progress)
    requires |data| < 0x100 && Digit(kind) !in {0, 1, 2, 4}
    ensures ParseLine(RenderLine(kind, hi, lo, data)).Some?
    ensures Step(p, ParseLine(RenderLine(kind, hi, lo, data)).value) == Some(p)
  {
    hide ParseLine, RenderLine, HexOf, Digit;
    RenderedReads(kind, hi, lo, data);
  }

  lemma ScanMore(lines: seq<string>, line: string)
    requires |line| > 0
    ensures Scan(lines + [line], |lines| + 1) ==
      match Scan(lines, |lines|)
      case None => None
      case Some(p) =>
        if p.eof then None else match ParseLine(line) case None => None case Some(r) => Step(p, r)
  {
    hide ParseLine, Step;
    ScanSame(lines, lines + [line], |lines|);
  }

  /** Where a data line after an extended-address line lands, whatever came before. */
  lemma ExtendedPlaces(lines: seq<string>, p: Piece)
    requires Writable(p) && Scan(lines, |lines|).Some? && !Scan(lines, |lines|).value.eof
    ensures var q := Scan(lines + [AddressLine(p), DataLine(p)], |lines| + 2);
      && q.Some? && !q.value.eof
      && q.value.placed == Scan(lines, |lines|).value.placed + [Placed(Address(p), p.data)]
  {
    hide ParseLine, AddressLine, DataLine, Digit, Scan, Address, Step;
    LinesAreLong(p);
    StepsPlace(Scan(lines, |lines|).value, p);
    LinesRead(p);
    ScanMore(lines, AddressLine(p));
    ScanMore(lines + [AddressLine(p)], DataLine(p));
    assert lines + [AddressLine(p)] + [DataLine(p)] == lines + [AddressLine(p), DataLine(p)];
  }

  function AddressRecord(p: Piece): HexRecord {
    var v := 256 * Digit(p.hi) + Digit(p.lo);
    if p.linear then ExtendedLinear(v) else ExtendedSegment(v)
  }

  /** An extended-address record, then a data record at an offset from it. */
  lemma StepsPlace(q: Progress, p: Piece)
    requires Writable(p)
    ensures Step(q, AddressRecord(p)).Some?
    ensures Step(Step(q, AddressRecord(p)).value, Data(256 * Digit(p.offHi) + Digit(p.offLo), p.data)).Some?
    ensures var r := Step(Step(q, AddressRecord(p)).value, Data(256 * Digit(p.offHi) + Digit(p.offLo), p.data)).value;
      r.eof == q.eof && r.placed == q.placed + [Placed(Address(p), p.data)]
    ensures Step(q, AddressRecord(p)).value.eof == q.eof
  {
    hide Digit;
  }

  lemma LinesRead(p: Piece)
    requires Writable(p)
    ensures ParseLine(AddressLine(p)) == Some(AddressRecord(p))
    ensures ParseLine(DataLine(p)) == Some(Data(256 * Digit(p.offHi) + Digit(p.offLo), p.data))
  {
    hide ParseLine, RenderLine, Digit;
    AddressReads(p);
    RenderedDataReads(p.offHi, p.offLo, p.data);
  }

  lemma LinesAreLong(p: Piece)
    requires Writable(p)
    ensures |AddressLine(p)| > 0 && |DataLine(p)| > 0
  {
    hide RenderLine;
    RenderedIsLong(if p.linear then 4 else 2, 0, 0, [p.hi, p.lo]);
    RenderedIsLong(0, p.offHi, p.offLo, p.data);
  }

  lemma {:induction false} LinesPlace(ps: seq<Piece>)
    requires forall i :: 0 <= i < |ps| ==> Writable(ps[i])
    ensures var q := Scan(Lines(ps), |Lines(ps)|); q.Some? && !q.value.eof && q.value.placed == Places(ps)
    decreases |ps|
  {
    hide AddressLine, DataLine, Step, ParseLine, Address;
    if |ps| > 0 {
      var front := ps[..|ps| - 1];
      LinesPlace(front);
      ExtendedPlaces(Lines(front), ps[|ps| - 1]);
      assert Places(ps) == Places(front) + [Placed(Address(ps[|ps| - 1]), ps[|ps| - 1].data)];
    }
  }

  /** A written file reads as its pieces at their addresses, in order, and properly ended. */
  lemma WrittenFileReads(ps: seq<Piece>)
    requires forall i :: 0 <= i < |ps| ==> Writable(ps[i])
    ensures var q := Scan(Lines(ps) + [EndLine()], |Lines(ps)| + 1); q.Some? && q.value.eof && q.value.placed == Places(ps)
  {
    hide Lines, EndLine, ParseLine;
    LinesPlace(ps);
    EndReads();
    EndIsLong();
    ScanMore(Lines(ps), EndLine());
  }

  lemma EndIsLong()
    ensures |EndLine()| >= 11
  {
    RenderedIsLong(1, 0, 0, []);
  }

  /** Without its end line, or with anything after it, the same file is rejected. */
  lemma EndMatters(ps: seq<Piece>, more: string, r: Outcome)
    requires forall i :: 0 <= i < |ps| ==> Writable(ps[i])
    ensures Scan(Lines(ps), |Lines(ps)|).Some? && (Amounts(Scan(Lines(ps), |Lines(ps)|).value, r) <==> r == Rejected)
    ensures |more| > 0 ==> Scan(Lines(ps) + [EndLine()] + [more], |Lines(ps)| + 2) == None
  {
    hide Lines, EndLine, ParseLine;
    LinesPlace(ps);
    WrittenFileReads(ps);
    if |more| > 0 {
      ScanMore(Lines(ps) + [EndLine()], more);
    }
  }

  // ---- an image cut into pieces ------------------------------------------

  function Join(ps: seq<Piece>): Bytes {
    if |ps| == 0 then [] else Join(ps[..|ps| - 1]) + ps[|ps| - 1].data
  }

  /** The pieces lie end to end from `base`. */
  predicate Contiguous(ps: seq<Piece>, base: nat) {
    |ps| > 0 ==>
      && Contiguous(ps[..|ps| - 1], base)
      && Address(ps[|ps| - 1]) == base + |Join(ps[..|ps| - 1])| && |ps[|ps| - 1].data| > 0
  }

  lemma {:induction false} ContiguousPiece(ps: seq<Piece>, base: nat, i: nat)
    requires Contiguous(ps, base) && i < |ps|
    ensures Address(ps[i]) == base + |Join(ps[..i])| && |ps[i].data| > 0
    ensures |Join(ps[..i])| + |ps[i].data| <= |Join(ps)|
    ensures Join(ps)[|Join(ps[..i])|..|Join(ps[..i])| + |ps[i].data|] == ps[i].data
    decreases |ps|
  {
    hide Address;
    var front := ps[..|ps| - 1];
    if i < |ps| - 1 {
      ContiguousPiece(front, base, i);
      assert front[..i] == ps[..i];
    }
  }

  lemma {:induction false} Ordered(ps: seq<Piece>, base: nat, i: nat, j: nat)
    requires Contiguous(ps, base) && i < j < |ps|
    ensures Address(ps[i]) + |ps[i].data| <= Address(ps[j])
    decreases |ps|
  {
    hide Address;
    ContiguousPiece(ps, base, j);
    ContiguousPiece(ps, base, i);
    var front := ps[..j];
    ContiguousFront(ps, base, j);
    ContiguousPiece(front, base, i);
    assert front[..i] == ps[..i];
  }

  lemma {:induction false} ContiguousFront(ps: seq<Piece>, base: nat, n: nat)
    requires Contiguous(ps, base) && n <= |ps|
    ensures Contiguous(ps[..n], base)
    decreases |ps|
  {
    hide Address;
    if n == |ps| {
      assert ps[..n] == ps;
    } else {
      ContiguousFront(ps[..|ps| - 1], base, n);
      assert ps[..|ps| - 1][..n] == ps[..n];
    }
  }

  lemma PieceInImage(ps: seq<Piece>, base: nat, i: nat)
    requires Contiguous(ps, base) && i < |ps|
    ensures var p := Places(ps)[i];
      && base <= p.at && p.at + |p.bytes| <= base + |Join(ps)|
      && forall a: nat :: Covers(p, a) ==> Join(ps)[a - base] == p.bytes[a - p.at]
  {
    hide Address, Contiguous;
    ContiguousPiece(ps, base, i);
    var p, n := Places(ps)[i], |Join(ps[..i])|;
    forall a: nat | Covers(p, a)
      ensures Join(ps)[a - base] == p.bytes[a - p.at]
    {
      assert Join(ps)[n..n + |ps[i].data|][a - base - n] == ps[i].data[a - p.at];
    }
  }

  lemma NoOverlaps(ps: seq<Piece>, base: nat)
    requires Contiguous(ps, base)
    ensures !Overlaps(Places(ps))
  {
    hide Address, Contiguous, Join;
    forall i, j | 0 <= i < j < |Places(ps)|
      ensures !Clash(Places(ps)[i], Places(ps)[j])
    {
      Ordered(ps, base, i, j);
    }
  }

  lemma ContiguousBounds(ps: seq<Piece>, base: nat)
    requires Contiguous(ps, base) && |ps| > 0
    ensures MinAt(Places(ps)) == base && MaxEnd(Places(ps)) == base + |Join(ps)|
  {
    hide Address, MinAt, MaxEnd, Contiguous, Join;
    var p := Places(ps);
    ContiguousPiece(ps, base, 0);
    EmptyJoin(ps[..0]);
    assert p[0].at == base;
    var low := MinAttained(p);
    PieceInImage(ps, base, low);
    LastEnds(ps, base);
    var high := MaxAttained(p);
    PieceInImage(ps, base, high);
  }

  lemma EmptyJoin(ps: seq<Piece>)
    requires |ps| == 0
    ensures Join(ps) == []
  {
  }

  lemma ContiguousImage(ps: seq<Piece>, base: nat)
    requires Contiguous(ps, base)
    ensures IsImage(Places(ps), base, Join(ps))
  {
    hide Address, Contiguous, Join;
    forall i: nat | i < |Places(ps)|
      ensures base <= Places(ps)[i].at && Places(ps)[i].at + |Places(ps)[i].bytes| <= base + |Join(ps)|
      ensures forall a: nat :: Covers(Places(ps)[i], a) ==> Join(ps)[a - base] == Places(ps)[i].bytes[a - Places(ps)[i].at]
    {
      PieceInImage(ps, base, i);
    }
    EveryByteCovered(ps, base);
  }

  lemma LastEnds(ps: seq<Piece>, base: nat)
    requires Contiguous(ps, base) && |ps| > 0
    ensures var p := Places(ps)[|ps| - 1]; p.at + |p.bytes| == base + |Join(ps)|
    ensures MaxEnd(Places(ps)) > 0 && MaxEnd(Places(ps)) >= base + |Join(ps)|
  {
    hide Address, MaxEnd;
  }

  lemma {:induction false} EveryByteCovered(ps: seq<Piece>, base: nat)
    requires Contiguous(ps, base)
    ensures forall a: nat :: base <= a < base + |Join(ps)| ==> Covered(Places(ps), a)
    decreases |ps|
  {
    hide Address;
    if |ps| > 0 {
      var n, front := |ps| - 1, ps[..|ps| - 1];
      EveryByteCovered(front, base);
      forall a: nat | base <= a < base + |Join(ps)|
        ensures Covered(Places(ps), a)
      {
        if a < base + |Join(front)| {
          assert Covered(Places(front), a);
          var i :| 0 <= i < |front| && Covers(Places(front)[i], a);
          assert Covers(Places(ps)[i], a);
        } else {
          assert Covers(Places(ps)[n], a);
        }
      }
    }
  }

  /** An image cut anywhere into lines, under whatever extended addresses put the pieces end to end, is read back
      whole at its base. */
  lemma WrittenImageReads(ps: seq<Piece>, base: nat, r: Outcome)
    requires (forall i :: 0 <= i < |ps| ==> Writable(ps[i])) && Contiguous(ps, base) && 0 < |ps| && |Join(ps)| <= MAX_IMAGE_SPAN
    ensures var q := Scan(Lines(ps) + [EndLine()], |Lines(ps)| + 1);
      q.Some? && (Amounts(q.value, r) <==> r == Image(base, Join(ps)))
  {
    hide Lines, EndLine, Scan, Join, Overlaps, IsImage, MinAt, MaxEnd, Contiguous, Address;
    WrittenFileReads(ps);
    ContiguousImage(ps, base);
    ContiguousBounds(ps, base);
    NoOverlaps(ps, base);
    if r.Image? && r.base == base && |r.bytes| == |Join(ps)| && IsImage(Places(ps), base, r.bytes) {
      ImageIsUnique(Places(ps), base, r.bytes, Join(ps));
    }
  }
}
