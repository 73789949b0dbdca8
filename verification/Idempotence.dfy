/** A command whose answer was lost may be sent again: the second execution changes nothing. */
module Idempotence {
  import opened Bytes
  import opened Crc32
  import opened Geometry
  import opened Flash
  import opened Record
  import opened Decision
  import opened Core
  import opened Invariant
  import opened Preservation
  import opened WritePath

  /** Everything a later command or boot can depend on, except the fate of operations to come. Two fields of
      the flash are left out. `prog`: programming a byte with the value it already shows can still clear the
      programmable bits of a byte that was erased and happened to show it, which no read can tell. `erased`:
      a log for proofs, to which a repeated ERASE adds, and which no command reads. */
  ghost predicate SameState(d: Dev, e: Dev) {
    && e.flash.cell == d.flash.cell && e.flash.dirty == d.flash.dirty && e.flash.armed == d.flash.armed
    && e.flash.violations == d.flash.violations && e.ram == d.ram && e.bootRequest == d.bootRequest
  }

  /** The blocks of [a, end) are erased, marked and known to be touched. */
  ghost predicate ErasedRange(c: Config, d: Dev, a: nat, end: nat)
    requires WellFormed(c, d)
  {
    && (forall i: nat :: a <= i < end && i < |d.flash.cell| ==>
          d.flash.cell[i] == ErasedByte(i) && d.flash.prog[i] == 0xFF)
    && (forall b: nat :: BlockIn(c, b, a, end) ==> b in d.flash.dirty && b in d.flash.armed)
    && (forall b: nat :: BlockIn(c, b, a, end) && WriteBase(c, d) <= b * c.eraseBlock ==>
          RelBlock(c, d, b * c.eraseBlock) in d.ram.bitmap)
  }

  predicate BlockIn(c: Config, b: nat, a: nat, end: nat) { a <= b * c.eraseBlock < end }

  lemma ErasePair(c: Config, d: Dev, a: nat)
    requires Inv(c, d) && EraseAllowed(c, d.flash, a) && Erase(c, d.flash, a).1 == 0
    ensures var e := BitmapMark(c, d.(flash := Erase(c, d.flash, a).0), a);
      WellFormed(c, e) && ErasedRange(c, e, a, a + c.eraseBlock)
  {
    hide Parse, Crc, Update, StreamOK, LastOK, BitmapOK, GenerationsOK, Truthful, RecordStateOK, SlotsOK;
    EraseEffect(c, d.flash, a);
    var e := BitmapMark(c, d.(flash := Erase(c, d.flash, a).0), a);
    AlignedIsProduct(a, c.eraseBlock);
    forall b: nat | BlockIn(c, b, a, a + c.eraseBlock)
      ensures b == a / c.eraseBlock && b * c.eraseBlock == a
    {
      BlockMembers(b * c.eraseBlock, a, c.eraseBlock);
      ProductIsAligned(b, c.eraseBlock);
    }
  }

  lemma ErasedRangeGrows(c: Config, d: Dev, e: Dev, a: nat, m: nat, end: nat)
    requires WellFormed(c, d) && WellFormed(c, e)
    requires ErasedRange(c, d, a, m) && ErasedRange(c, e, m, end)
    requires SameOutside(d.flash.cell, e.flash.cell, m, end) && SameOutside(d.flash.prog, e.flash.prog, m, end)
    requires e.flash.dirty >= d.flash.dirty && e.flash.armed >= d.flash.armed
    requires e.ram.bitmap >= d.ram.bitmap && e.ram.writeSlot == d.ram.writeSlot
    ensures ErasedRange(c, e, a, end)
  {
    forall b: nat | BlockIn(c, b, a, end)
      ensures BlockIn(c, b, a, m) || BlockIn(c, b, m, end)
    {
    }
  }

  /** One successful block of the loop. */
  lemma EraseStep(c: Config, d: Dev, a: nat)
    requires Inv(c, d) && d.ram.session && d.ram.disarmed && Capacity(c, d.ram.writeSlot) != 0
    requires Aligned(a, c.eraseBlock) && WriteBase(c, d) <= a && a + c.eraseBlock <= RecordAddr(c, d.ram.writeSlot)
    requires d.ram.running ==> d.ram.expected <= a
    requires Erase(c, d.flash, a).1 == 0
    ensures var e := BitmapMark(c, d.(flash := Erase(c, d.flash, a).0), a);
      && Inv(c, e) && LoopDone(c, d, e, a, a + c.eraseBlock)
      && e.ram == d.ram.(bitmap := e.ram.bitmap)
  {
    hide Parse, Crc, Update, StreamOK, LastOK, BitmapOK, GenerationsOK, Truthful, RecordStateOK, SlotsOK, ErasedRange;
    InvEraseBlock(c, d, a);
    EraseIsAllowed(c, d, a);
    EraseEffect(c, d.flash, a);
    ErasePair(c, d, a);
  }

  lemma OutsideTransitive(s: Bytes, t: Bytes, u: Bytes, a: nat, m: nat, end: nat)
    requires a <= m <= end && SameOutside(s, t, a, m) && SameOutside(t, u, m, end)
    ensures SameOutside(s, u, a, end)
  {
  }

  /** A loop that completes erased its first block. */
  lemma EraseLoopUnfolds(c: Config, d: Dev, a: nat, end: nat)
    requires c.eraseBlock > 0 && a < end && EraseLoop(c, d, a, end).1 == 0
    ensures Erase(c, d.flash, a).1 == 0
    ensures EraseLoop(c, d, a, end)
         == EraseLoop(c, BitmapMark(c, d.(flash := Erase(c, d.flash, a).0), a), a + c.eraseBlock, end)
  {
    hide Erase, BitmapMark;
  }

  ghost predicate LoopDone(c: Config, d: Dev, e: Dev, a: nat, end: nat) {
    && WellFormed(c, e) && ErasedRange(c, e, a, end)
    && SameOutside(d.flash.prog, e.flash.prog, a, end) && SameOutside(d.flash.cell, e.flash.cell, a, end)
    && e.flash.dirty >= d.flash.dirty && e.flash.armed >= d.flash.armed
    && e.ram.bitmap >= d.ram.bitmap && e.ram.writeSlot == d.ram.writeSlot
  }

  lemma LoopDoneChains(c: Config, d: Dev, e1: Dev, e: Dev, a: nat, m: nat, end: nat)
    requires a <= m <= end && LoopDone(c, d, e1, a, m) && LoopDone(c, e1, e, m, end)
    ensures LoopDone(c, d, e, a, end)
  {
    hide ErasedRange, SameOutside;
    OutsideTransitive(d.flash.prog, e1.flash.prog, e.flash.prog, a, m, end);
    OutsideTransitive(d.flash.cell, e1.flash.cell, e.flash.cell, a, m, end);
    ErasedRangeGrows(c, e1, e, a, m, end);
  }

  lemma LoopNothing(c: Config, d: Dev, a: nat, end: nat)
    requires WellFormed(c, d)
    ensures a >= end ==> LoopDone(c, d, EraseLoop(c, d, a, end).0, a, end)
  {
  }

  ghost predicate LoopReady(c: Config, d: Dev, a: nat, end: nat) {
    && Inv(c, d) && d.ram.session && d.ram.disarmed && Capacity(c, d.ram.writeSlot) != 0
    && Aligned(a, c.eraseBlock) && Aligned(end, c.eraseBlock)
    && WriteBase(c, d) <= a && end <= RecordAddr(c, d.ram.writeSlot)
    && (d.ram.running ==> d.ram.expected <= a)
  }

  lemma LoopAdvances(c: Config, d: Dev, a: nat, end: nat)
    requires LoopReady(c, d, a, end) && a < end && Erase(c, d.flash, a).1 == 0
    ensures var e1 := BitmapMark(c, d.(flash := Erase(c, d.flash, a).0), a);
      c.eraseBlock > 0 && a + c.eraseBlock <= end
      && LoopReady(c, e1, a + c.eraseBlock, end) && LoopDone(c, d, e1, a, a + c.eraseBlock)
  {
    hide Parse, Crc, Update, StreamOK, LastOK, BitmapOK, GenerationsOK, Truthful, RecordStateOK, SlotsOK, Physical;
    NextBlock(a, end, c.eraseBlock);
    EraseStep(c, d, a);
    hide Inv, LoopDone, Erase, BitmapMark;
  }

  /** A completed erase loop leaves its whole range erased and marked. */
  lemma {:induction false} EraseLoopCompletes(c: Config, d: Dev, a: nat, end: nat)
    requires LoopReady(c, d, a, end) && c.eraseBlock > 0 && WellFormed(c, d)
    requires EraseLoop(c, d, a, end).1 == 0
    ensures LoopDone(c, d, EraseLoop(c, d, a, end).0, a, end)
    decreases if a < end then end - a else 0
  {
    hide LoopReady, LoopDone, EraseLoop, BitmapMark, Erase;
    LoopNothing(c, d, a, end);
    if a < end {
      EraseLoopUnfolds(c, d, a, end);
      LoopAdvances(c, d, a, end);
      var e1 := BitmapMark(c, d.(flash := Erase(c, d.flash, a).0), a);
      LoopDoneWellFormed(c, d, e1, a, a + c.eraseBlock);
      EraseLoopCompletes(c, e1, a + c.eraseBlock, end);
      LoopDoneChains(c, d, e1, EraseLoop(c, d, a, end).0, a, a + c.eraseBlock, end);
    }
  }

  lemma LoopDoneWellFormed(c: Config, d: Dev, e: Dev, a: nat, end: nat)
    requires LoopDone(c, d, e, a, end)
    ensures WellFormed(c, e)
  {
  }

  lemma EraseIsAllowed(c: Config, d: Dev, a: nat)
    requires Inv(c, d) && Capacity(c, d.ram.writeSlot) != 0
    requires Aligned(a, c.eraseBlock) && WriteBase(c, d) <= a && a + c.eraseBlock <= RecordAddr(c, d.ram.writeSlot)
    ensures EraseAllowed(c, d.flash, a)
  {
    hide Parse, Crc, Update, StreamOK, LastOK, BitmapOK, GenerationsOK, Truthful, RecordStateOK, SlotsOK;
  }

  /** Erasing what is already erased and marked changes nothing, even when the erase then fails. */
  lemma EraseErased(c: Config, d: Dev, a: nat)
    requires WellFormed(c, d) && EraseAllowed(c, d.flash, a) && ErasedRange(c, d, a, a + c.eraseBlock)
    requires WriteBase(c, d) <= a
    ensures var (f, r) := Erase(c, d.flash, a);
      && f.cell == d.flash.cell && f.prog == d.flash.prog && f.dirty == d.flash.dirty && f.armed == d.flash.armed
      && f.violations == d.flash.violations
      && BitmapMark(c, d, a) == d
  {
    AlignedIsProduct(a, c.eraseBlock);
    assert BlockIn(c, a / c.eraseBlock, a, a + c.eraseBlock);
    assert a / c.eraseBlock in d.flash.dirty && RelBlock(c, d, a) in d.ram.bitmap;
    assert EraseCells(d.flash.cell, a, c.eraseBlock) == d.flash.cell;
    assert EraseProg(d.flash.prog, a, c.eraseBlock) == d.flash.prog;
    assert d.ram.bitmap + {RelBlock(c, d, a)} == d.ram.bitmap;
    assert d.flash.dirty + {a / c.eraseBlock} == d.flash.dirty;
    assert d.flash.armed + {a / c.eraseBlock} == d.flash.armed;
  }

  lemma AgainStep(c: Config, d: Dev, a: nat, end: nat)
    requires WellFormed(c, d) && ErasedRange(c, d, a, end) && a < end
    requires Aligned(a, c.eraseBlock) && Aligned(end, c.eraseBlock)
    requires c.appStart <= a && end <= |d.flash.cell| && WriteBase(c, d) <= a
    ensures a + c.eraseBlock <= end && Aligned(a + c.eraseBlock, c.eraseBlock)
    ensures var e := d.(flash := Erase(c, d.flash, a).0);
      && SameState(d, e) && e.flash.prog == d.flash.prog && BitmapMark(c, e, a) == e
      && WellFormed(c, e) && ErasedRange(c, e, a + c.eraseBlock, end)
  {
    hide Aligned, Erase, ErasedRange, BitmapMark;
    NextBlock(a, end, c.eraseBlock);
    ErasedPart(c, d, a, a + c.eraseBlock, end);
    AlignedAllowed(c, d, a);
    EraseErased(c, d, a);
    var e := d.(flash := Erase(c, d.flash, a).0);
    MarkCongruent(c, d, e, a);
    RangeCongruent(c, d, e, a + c.eraseBlock, end);
  }

  lemma MarkCongruent(c: Config, d: Dev, e: Dev, a: nat)
    requires c.eraseBlock > 0 && BitmapMark(c, d, a) == d && e == d.(flash := e.flash)
    ensures BitmapMark(c, e, a) == e
  {
  }

  lemma RangeCongruent(c: Config, d: Dev, e: Dev, a: nat, end: nat)
    requires WellFormed(c, d) && WellFormed(c, e) && ErasedRange(c, d, a, end)
    requires SameState(d, e) && e.flash.prog == d.flash.prog
    ensures ErasedRange(c, e, a, end)
  {
  }

  lemma {:induction false} EraseLoopAgain(c: Config, d: Dev, a: nat, end: nat)
    requires WellFormed(c, d) && ErasedRange(c, d, a, end)
    requires Aligned(a, c.eraseBlock) && Aligned(end, c.eraseBlock)
    requires c.appStart <= a && end <= |d.flash.cell| && WriteBase(c, d) <= a
    ensures SameState(d, EraseLoop(c, d, a, end).0) && EraseLoop(c, d, a, end).0.flash.prog == d.flash.prog
    decreases if a < end then end - a else 0
  {
    hide Aligned, Erase, ErasedRange, BitmapMark;
    if a < end {
      AgainStep(c, d, a, end);
      var (f, r) := Erase(c, d.flash, a);
      if r == 0 {
        EraseLoopAgain(c, d.(flash := f), a + c.eraseBlock, end);
      }
    }
  }

  lemma AlignedAllowed(c: Config, d: Dev, a: nat)
    requires WellFormed(c, d) && Aligned(a, c.eraseBlock)
    requires c.appStart <= a && a + c.eraseBlock <= |d.flash.cell|
    ensures EraseAllowed(c, d.flash, a)
  {
  }

  lemma ErasedPart(c: Config, d: Dev, a: nat, m: nat, end: nat)
    requires WellFormed(c, d) && ErasedRange(c, d, a, end) && a <= m <= end
    ensures ErasedRange(c, d, a, m) && ErasedRange(c, d, m, end)
  {
    forall b: nat | BlockIn(c, b, a, m) || BlockIn(c, b, m, end)
      ensures BlockIn(c, b, a, end)
    {
    }
  }

  /** What a successful WRITE leaves for its repetition. */
  ghost predicate JustWritten(c: Config, e: Dev, addr: nat, data: Bytes)
  {
    && Inv(c, e) && e.ram.disarmed && |data| > 0
    && addr + |data| <= |e.flash.cell| && e.flash.cell[addr..addr + |data|] == data
    && Touched(c, addr, |data|) <= e.flash.armed && Touched(c, addr, |data|) <= e.flash.dirty
    && WriteAllowed(c, e.flash, addr, |data|)
    && !Classify(e, addr, data).Fold? && (Classify(e, addr, data).Poison? ==> !e.ram.running)
  }

  lemma ChunkJustWritten(c: Config, d: Dev, addr: nat, data: Bytes)
    requires Inv(c, d) && d.ram.session && d.ram.disarmed
    requires InWindow(c, d.ram.writeSlot, addr, |data|) && Aligned(addr, 4) && Aligned(|data|, 4)
    requires Touched(c, addr, |data|) <= d.flash.armed
    requires Classify(d, addr, data).Poison? ==> !d.ram.running
    requires WriteChunk(c, d, addr, data, Classify(d, addr, data)).1 == 0
    ensures JustWritten(c, WriteChunk(c, d, addr, data, Classify(d, addr, data)).0, addr, data)
  {
    hide Parse, Crc, Update, StreamOK, LastOK, BitmapOK, GenerationsOK, Truthful, RecordStateOK, SlotsOK, Write, Verify,
         Touched;
    InvWriteChunk(c, d, addr, data);
    WriteMarksDirty(c, d.flash, addr, data);
    assert WriteAllowed(c, d.flash, addr, |data|);
  }

  lemma WriteAgain(c: Config, e: Dev, addr: nat, data: Bytes, w: World)
    requires JustWritten(c, e, addr, data)
    ensures WellFormed(c, Enter(e, w)) && SameState(e, WriteBody(c, Enter(e, w), addr, data).0)
  {
    InvEnter(c, e, w);
    var g := Enter(e, w);
    hide Parse, Crc, Update, StreamOK, LastOK, BitmapOK, GenerationsOK, Truthful, RecordStateOK, SlotsOK, Write, Verify,
         Touched;
    ClassifyStable(e, g, addr, data);
    RewriteHarmless(c, g.flash, addr, data);
    assert NoteWrite(g, addr, data) == g;
    assert MutationBegin(c, g) == (g, 0);
  }

  lemma WriteMarksDirty(c: Config, f: Flash, addr: nat, data: Bytes)
    requires WriteAllowed(c, f, addr, |data|)
    ensures Write(c, f, addr, data).1 == 0 ==> Touched(c, addr, |data|) <= Write(c, f, addr, data).0.dirty
  {
  }

}
