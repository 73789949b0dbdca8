/** When nothing fails, an update succeeds: from any reachable state, any image that fits the write slot can
    be installed. */
module Completeness {
  import opened Bytes
  import opened Crc32
  import opened Geometry
  import opened Flash
  import opened Record
  import opened Decision
  import opened Core
  import opened Invariant
  import opened Preservation
  import opened WritePath
  import opened CommitPath
  import opened Frames
  import opened Idempotence
  import opened Repetition
  import opened Link
  import opened UpdateFlow
  import opened FlashPlan

  /** The next `n` flash operations land whole and report success. */
  ghost predicate AllGood(plan: seq<Outcome>, n: nat) {
    n <= |plan| && forall i :: 0 <= i < n ==> plan[i].landed >= 12 && plan[i].code == 0
  }

  lemma GoodErase(c: Config, f: Flash, a: nat, n: nat)
    requires EraseAllowed(c, f, a) && n > 0 && AllGood(f.plan, n)
    ensures Erase(c, f, a).1 == 0 && AllGood(Erase(c, f, a).0.plan, n - 1)
  {
    hide EraseCells, EraseProg;
  }

  lemma GoodWrite(c: Config, f: Flash, a: nat, data: Bytes, n: nat)
    requires WriteAllowed(c, f, a, |data|) && |data| <= MAX_WRITE_DATA && n > 0 && AllGood(f.plan, n)
    ensures var (g, code) := Write(c, f, a, data);
      && code == 0
      && g.cell == Program(f.cell, f.prog, a, data, |data|) && g.prog == Program(f.prog, f.prog, a, data, |data|)
      && AllGood(g.plan, n - 1)
  {
    hide Program, Touched;
  }

  // ---- ERASE -------------------------------------------------------------

  lemma {:induction false} LoopSucceeds(c: Config, d: Dev, a: nat, end: nat, n: nat)
    requires LoopReady(c, d, a, end) && c.eraseBlock > 0 && WellFormed(c, d)
    requires end <= a + n * c.eraseBlock && AllGood(d.flash.plan, n)
    ensures EraseLoop(c, d, a, end).1 == 0
    decreases n
  {
    hide LoopReady, Erase, BitmapMark, AllGood, LoopDone, WellFormed;
    if a < end {
      ReadyAllowed(c, d, a, end);
      GoodErase(c, d.flash, a, n);
      LoopAdvances(c, d, a, end);
      var e := BitmapMark(c, d.(flash := Erase(c, d.flash, a).0), a);
      LoopDoneWellFormed(c, d, e, a, a + c.eraseBlock);
      MarkKeepsFlash(c, d.(flash := Erase(c, d.flash, a).0), a);
      LoopSucceeds(c, e, a + c.eraseBlock, end, n - 1);
    }
  }

  lemma MarkKeepsFlash(c: Config, d: Dev, a: nat)
    requires c.eraseBlock > 0
    ensures BitmapMark(c, d, a).flash == d.flash
  {
  }

  lemma ReadyAllowed(c: Config, d: Dev, a: nat, end: nat)
    requires LoopReady(c, d, a, end) && a < end
    ensures c.eraseBlock > 0 && EraseAllowed(c, d.flash, a)
  {
    hide Parse, Crc, Update, StreamOK, LastOK, BitmapOK, GenerationsOK, Truthful, RecordStateOK, SlotsOK;
    NextBlock(a, end, c.eraseBlock);
    EraseIsAllowed(c, d, a);
  }

  lemma DisarmSucceeds(c: Config, d: Dev, n: nat)
    requires Inv(c, d) && d.ram.session && Capacity(c, d.ram.writeSlot) != 0 && n > 0 && AllGood(d.flash.plan, n)
    ensures WellFormed(c, d) && MutationBegin(c, d).1 == 0 && AllGood(MutationBegin(c, d).0.flash.plan, n - 1)
  {
    hide Parse, Crc, Update, StreamOK, LastOK, BitmapOK, GenerationsOK, Truthful, RecordStateOK, SlotsOK, Erase;
    RecordErase(c, d);
    GoodErase(c, d.flash, RecordAddr(c, d.ram.writeSlot), n);
  }

  /** An ERASE in range, with good operations, is answered OK. */
  lemma EraseSucceeds(c: Config, d: Dev, addr: nat, len: nat, n: nat)
    requires Inv(c, d) && d.ram.session && EraseAccepted(c, d, addr, len)
    requires len <= n * c.eraseBlock && AllGood(d.flash.plan, n + 1)
    ensures EraseBody(c, d, addr, len).1 == [OK]
  {
    hide Inv, Load, MutationBegin, EraseLoop, Aligned, NoteErase, SameOutside, WellFormed, AllGood, LoopReady;
    InvWellFormed(c, d);
    WindowLayout(c, d, addr, len);
    InvNoteErase(c, d, addr);
    var d0 := NoteErase(d, addr);
    InvWellFormed(c, d0);
    DisarmSucceeds(c, d0, n + 1);
    InvMutationBegin(c, d0);
    var d1 := MutationBegin(c, d0).0;
    InvWellFormed(c, d1);
    BecomesReady(c, d, d0, d1, addr, addr + len);
    LoopSucceeds(c, d1, addr, addr + len, n);
  }

  lemma BecomesReady(c: Config, d: Dev, d0: Dev, e: Dev, a: nat, end: nat)
    requires WellFormed(c, d) && Inv(c, e) && SameRun(d0, e) && e.ram.disarmed && d.ram.session
    requires d0 == d.(ram := d.ram.(running := d0.ram.running)) && (d0.ram.running ==> d.ram.expected <= a)
    requires Capacity(c, d.ram.writeSlot) != 0
    requires Aligned(a, c.eraseBlock) && Aligned(end, c.eraseBlock)
    requires WriteBase(c, d) <= a && end <= RecordAddr(c, d.ram.writeSlot)
    ensures LoopReady(c, e, a, end)
  {
    hide Inv;
  }

  // ---- WRITE -------------------------------------------------------------

  /** The first `n` bytes of the image are in place, the run is unbroken there, and the rest up to `end`
      is erased and marked. */
  ghost predicate Ready(c: Config, d: Dev, image: Bytes, n: nat, end: nat) {
    && Inv(c, d) && WellFormed(c, d) && d.ram.session && d.ram.disarmed && d.ram.rec == Invalid
    && Capacity(c, d.ram.writeSlot) != 0
    && n <= |image| && Aligned(n, 4) && Aligned(|image|, 4)
    && WriteBase(c, d) + |image| <= end <= RecordAddr(c, d.ram.writeSlot)
    && d.ram.running && d.ram.expected == WriteBase(c, d) + n
    && Placed(d, WriteBase(c, d), image, n, end)
    && (forall b: nat :: b * c.eraseBlock < end - WriteBase(c, d) ==> b in d.ram.bitmap)
  }

  ghost predicate Placed(d: Dev, base: nat, image: Bytes, n: nat, end: nat) {
    && n <= |image| && base + |image| <= end <= |d.flash.cell| == |d.flash.prog|
    && d.flash.cell[base..base + n] == image[..n]
    && forall i: nat :: base + n <= i < end ==> d.flash.prog[i] == 0xFF
  }

  /** Marked blocks cover any bytes of the erased span. */
  lemma SpanCovered(c: Config, d: Dev, addr: nat, n: nat, end: nat)
    requires c.eraseBlock > 0 && n > 0 && WriteBase(c, d) <= addr && addr + n <= end
    requires forall b: nat :: b * c.eraseBlock < end - WriteBase(c, d) ==> b in d.ram.bitmap
    ensures BitmapCovers(c, d, addr, n)
  {
    hide SlotBase;
    var last := addr + n - 1 - WriteBase(c, d);
    forall b: nat | b in BlockRange(RelBlock(c, d, addr), RelBlock(c, d, addr + n - 1))
      ensures b in d.ram.bitmap
    {
      MulMonotone(b, last / c.eraseBlock, c.eraseBlock);
    }
  }

  /** Programming erased bytes whole reads back as the data and leaves the rest as it was. */
  lemma ProgramErased(cell: Bytes, prog: Bytes, base: nat, image: Bytes, n: nat, m: nat, end: nat)
    requires |cell| == |prog| && n <= m <= |image| && base + |image| <= end <= |cell|
    requires cell[base..base + n] == image[..n]
    requires forall i: nat :: base + n <= i < end ==> prog[i] == 0xFF
    ensures var data := image[n..m];
      var c2, p2 := Program(cell, prog, base + n, data, |data|), Program(prog, prog, base + n, data, |data|);
      && c2[base..base + m] == image[..m] && c2[base + n..base + m] == data
      && forall i: nat :: base + m <= i < end ==> p2[i] == 0xFF
  {
    hide And;
    var data := image[n..m];
    var c2 := Program(cell, prog, base + n, data, |data|);
    forall i: nat | base <= i < base + m
      ensures c2[i] == image[i - base]
    {
      if i < base + n {
        assert cell[base..base + n][i - base] == image[..n][i - base];
      } else {
        AndSame(prog[i], data[i - (base + n)]);
      }
    }
    assert c2[base..base + m] == image[..m];
    assert c2[base + n..base + m] == data;
  }

  lemma ChunkAccepted(c: Config, d: Dev, image: Bytes, n: nat, m: nat, end: nat)
    requires Ready(c, d, image, n, end) && n < m <= |image| && Aligned(m, 4) && m - n <= MAX_WRITE_DATA
    ensures WriteAccepted(c, d, WriteBase(c, d) + n, image[n..m])
    ensures Touched(c, WriteBase(c, d) + n, m - n) <= d.flash.armed
  {
    hide Inv, BitmapCovers, Touched, Placed;
    SlotLayout(c, d.ram.writeSlot);
    SpanCovered(c, d, WriteBase(c, d) + n, m - n, end);
    FourSteps(WriteBase(c, d), n, m);
    hide Legal, Aligned;
    CoveredIsArmed(c, d, WriteBase(c, d) + n, m - n);
  }

  lemma FourSteps(a: nat, n: nat, m: nat)
    requires a % 4 == 0 && n % 4 == 0 && m % 4 == 0 && n <= m
    ensures (a + n) % 4 == 0 && (m - n) % 4 == 0
  {
  }

  lemma ChunkAllowed(c: Config, d: Dev, addr: nat, data: Bytes)
    requires Inv(c, d) && WriteAccepted(c, d, addr, data) && Touched(c, addr, |data|) <= d.flash.armed
    ensures WriteAllowed(c, d.flash, addr, |data|)
  {
    InvWellFormed(c, d);
    CapacityMeaning(c, d.ram.writeSlot);
    hide Inv, Touched, BitmapCovers;
  }

  /** The next chunk in order, with a good operation, is answered OK and joins the run. */
  lemma WriteSucceeds(c: Config, d: Dev, image: Bytes, n: nat, m: nat, end: nat)
    requires Ready(c, d, image, n, end) && n < m <= |image| && Aligned(m, 4) && m - n <= MAX_WRITE_DATA
    requires AllGood(d.flash.plan, 1)
    ensures WriteAccepted(c, d, WriteBase(c, d) + n, image[n..m])
    ensures var (e, p) := WriteBody(c, d, WriteBase(c, d) + n, image[n..m]);
      p == [OK] && Ready(c, e, image, m, end) && e.ram.writeSlot == d.ram.writeSlot && e.ram.highest == d.ram.highest
  {
    hide Inv, WellFormed, Aligned, FoldChunk, Verify, Program, Touched, WriteAccepted, WriteAllowed, AllGood, SlotBase, Ready,
         Write, WriteBody, Placed;
    ReadyFacts(c, d, image, n, end);
    var addr, data := WriteBase(c, d) + n, image[n..m];
    ChunkAccepted(c, d, image, n, m, end);
    ChunkAllowed(c, d, addr, data);
    GoodWrite(c, d.flash, addr, data, 1);
    PlacedNext(c, d, image, n, m, end);
    ReadyBody(c, d, addr, data);
    MutatedFacts(c, d, addr, data);
    ReadyNext(c, d, image, n, m, end, Write(c, d.flash, addr, data).0);
  }

  lemma ReadyFacts(c: Config, d: Dev, image: Bytes, n: nat, end: nat)
    requires Ready(c, d, image, n, end)
    ensures Inv(c, d) && WellFormed(c, d) && d.ram.session && d.ram.disarmed && n <= |image|
    ensures d.ram.expected == WriteBase(c, d) + n && Placed(d, WriteBase(c, d), image, n, end)
  {
    hide Inv;
  }

  /** What a whole write of the next chunk leaves in flash. */
  lemma PlacedNext(c: Config, d: Dev, image: Bytes, n: nat, m: nat, end: nat)
    requires WellFormed(c, d) && Placed(d, WriteBase(c, d), image, n, end) && n < m <= |image|
    requires var (g, code) := Write(c, d.flash, WriteBase(c, d) + n, image[n..m]); var data := image[n..m];
      && code == 0
      && g.cell == Program(d.flash.cell, d.flash.prog, WriteBase(c, d) + n, data, |data|)
      && g.prog == Program(d.flash.prog, d.flash.prog, WriteBase(c, d) + n, data, |data|)
    ensures var g := Write(c, d.flash, WriteBase(c, d) + n, image[n..m]).0;
      && Placed(d.(flash := g), WriteBase(c, d), image, m, end)
      && Verify(g, WriteBase(c, d) + n, image[n..m]) == 0
  {
    hide Write, Program, Verify, WellFormed, SlotBase;
    ProgramErased(d.flash.cell, d.flash.prog, WriteBase(c, d), image, n, m, end);
    VerifyContent(Write(c, d.flash, WriteBase(c, d) + n, image[n..m]).0, WriteBase(c, d) + n, image[n..m]);
  }

  lemma ReadyNext(c: Config, d: Dev, image: Bytes, n: nat, m: nat, end: nat, g: Flash)
    requires Ready(c, d, image, n, end) && n < m <= |image| && Aligned(m, 4)
    requires Placed(d.(flash := g), WriteBase(c, d), image, m, end)
    requires var e := FoldChunk(d.(flash := g), WriteBase(c, d) + n, image[n..m]); Inv(c, e) && WellFormed(c, e)
    ensures var e := FoldChunk(d.(flash := g), WriteBase(c, d) + n, image[n..m]);
      Ready(c, e, image, m, end) && e.ram.writeSlot == d.ram.writeSlot && e.ram.highest == d.ram.highest
  {
    hide Inv, WellFormed, Update, SlotBase, Capacity, RecordAddr, Legal;
  }

  lemma VerifyContent(f: Flash, a: nat, data: Bytes)
    requires a + |data| <= |f.cell| && f.cell[a..a + |data|] == data
    ensures Verify(f, a, data) == 0
  {
  }

  /** An in-order chunk on a disarmed slot goes straight to the program step. */
  lemma ReadyBody(c: Config, d: Dev, addr: nat, data: Bytes)
    requires WellFormed(c, d) && d.ram.disarmed && addr == d.ram.expected
    requires Write(c, d.flash, addr, data).1 == 0 && Verify(Write(c, d.flash, addr, data).0, addr, data) == 0
    ensures WriteBody(c, d, addr, data) == (FoldChunk(d.(flash := Write(c, d.flash, addr, data).0), addr, data), [OK])
  {
    hide Write, Verify, Update, WellFormed;
  }

  lemma MutatedFacts(c: Config, d: Dev, addr: nat, data: Bytes)
    requires Inv(c, d) && d.ram.session && WriteAccepted(c, d, addr, data)
    ensures var e := WriteBody(c, d, addr, data).0; Inv(c, e) && WellFormed(c, e)
  {
    hide Inv, WellFormed, WriteBody, MutationFrame, BitmapCovers, InWindow, Aligned;
    InvWellFormed(c, d);
    InvWriteBody(c, d, addr, data);
    FrameInv(c, d, WriteBody(c, d, addr, data).0);
    InvWellFormed(c, WriteBody(c, d, addr, data).0);
  }

  /** A session that has erased its slot from the base up to `end` and written nothing. */
  ghost predicate Clearing(c: Config, d: Dev, end: nat) {
    && Inv(c, d) && WellFormed(c, d) && d.ram.session && d.ram.running
    && d.ram.expected == WriteBase(c, d) <= end && ErasedRange(c, d, WriteBase(c, d), end)
    && (d.ram.disarmed || end == WriteBase(c, d))
  }

  /** The next ERASE continues the erased range and leaves the run at the base. */
  lemma EraseExtends(c: Config, d: Dev, addr: nat, len: nat)
    requires Clearing(c, d, addr) && EraseAccepted(c, d, addr, len) && EraseBody(c, d, addr, len).1 == [OK]
    ensures var e := EraseBody(c, d, addr, len).0;
      && Clearing(c, e, addr + len) && e.ram.disarmed
      && e.ram.writeSlot == d.ram.writeSlot && e.ram.highest == d.ram.highest
  {
    hide Inv, Load, MutationBegin, EraseLoop, Aligned, SameOutside, WellFormed, ErasedRange, LoopDone, LoopReady, SlotBase,
         Capacity, RecordAddr;
    InvWellFormed(c, d);
    WindowLayout(c, d, addr, len);
    assert NoteErase(d, addr) == d;
    InvMutationBegin(c, d);
    var d1 := MutationBegin(c, d).0;
    InvWellFormed(c, d1);
    BecomesReady(c, d, d, d1, addr, addr + len);
    InvEraseLoop(c, d1, addr, addr + len);
    EraseLoopCompletes(c, d1, addr, addr + len);
    var e := EraseLoop(c, d1, addr, addr + len).0;
    InvWellFormed(c, e);
    RangeJoins(c, d, d1, e, addr, addr + len);
  }

  lemma RangeJoins(c: Config, d: Dev, d1: Dev, e: Dev, addr: nat, end: nat)
    requires WellFormed(c, d) && ErasedRange(c, d, WriteBase(c, d), addr) && WriteBase(c, d) <= addr
    requires d1 == MutationBegin(c, d).0 && LoopDone(c, d1, e, addr, end) && d1.ram.writeSlot == d.ram.writeSlot
    requires d.ram.disarmed || addr == WriteBase(c, d)
    ensures WellFormed(c, e) && WriteBase(c, e) == WriteBase(c, d) && ErasedRange(c, e, WriteBase(c, e), end)
  {
    hide ErasedRange, SameOutside, Erase, SlotBase;
    if d.ram.disarmed {
      ErasedRangeGrows(c, d, e, WriteBase(c, d), addr, end);
    }
  }

  /** Once the range covers the image, the first chunk can come. */
  lemma ClearedIsReady(c: Config, d: Dev, image: Bytes, end: nat)
    requires Clearing(c, d, end) && d.ram.disarmed && Capacity(c, d.ram.writeSlot) != 0
    requires WriteBase(c, d) + |image| <= end <= RecordAddr(c, d.ram.writeSlot) && Aligned(|image|, 4)
    ensures Ready(c, d, image, 0, end)
  {
    hide Inv, WellFormed, ErasedRange, Placed, SlotBase, Capacity, RecordAddr;
    InvWellFormed(c, d);
    DisarmedHoldsNothing(c, d);
    ReserveInside(c, d);
    RangeIsPlaced(c, d, image, end);
    RangeIsMarked(c, d, end);
  }

  lemma ReserveInside(c: Config, d: Dev)
    requires WellFormed(c, d) && Capacity(c, d.ram.writeSlot) != 0
    ensures RecordAddr(c, d.ram.writeSlot) <= |d.flash.cell|
  {
    CapacityMeaning(c, d.ram.writeSlot);
  }

  lemma RangeIsPlaced(c: Config, e: Dev, image: Bytes, end: nat)
    requires WellFormed(c, e) && ErasedRange(c, e, WriteBase(c, e), end) && |e.flash.prog| == |e.flash.cell|
    requires WriteBase(c, e) + |image| <= end <= |e.flash.cell|
    ensures Placed(e, WriteBase(c, e), image, 0, end)
  {
    hide Legal, SlotBase;
  }

  lemma RangeIsMarked(c: Config, e: Dev, end: nat)
    requires WellFormed(c, e) && ErasedRange(c, e, WriteBase(c, e), end)
    ensures forall b: nat :: b * c.eraseBlock < end - WriteBase(c, e) ==> b in e.ram.bitmap
  {
    BaseAligned(c, e);
    hide SlotBase, Legal;
    var base := WriteBase(c, e);
    forall b: nat | b * c.eraseBlock < end - base
      ensures b in e.ram.bitmap
    {
      ShiftedBlock(b, base, c.eraseBlock);
      assert BlockIn(c, b + base / c.eraseBlock, base, end);
    }
  }

  lemma BaseAligned(c: Config, d: Dev)
    requires WellFormed(c, d)
    ensures c.eraseBlock > 0 && WriteBase(c, d) % c.eraseBlock == 0
  {
    SlotLayout(c, d.ram.writeSlot);
  }

  lemma ShiftedBlock(b: nat, base: nat, e: nat)
    requires e > 0 && base % e == 0
    ensures (b + base / e) * e == b * e + base && (b * e + base - base) / e == b
  {
    AlignedIsProduct(base, e);
    ProductIsAligned(b, e);
  }

  // ---- COMMIT ------------------------------------------------------------

  lemma TornWhole(r: Record)
    requires r.generation < U32_LIMIT && r.imgLen < U32_LIMIT
    ensures Torn(r, 8) == Encode(r)
  {
    hide Encode;
  }

  /** With both operations good, a record store succeeds. */
  lemma StoreSucceeds(c: Config, d: Dev, r: Record)
    requires Inv(c, d) && Capacity(c, d.ram.writeSlot) != 0 && Sound(r, ImageMax(c)) && AllGood(d.flash.plan, 2)
    ensures RecordStore(c, d.flash, d.ram.writeSlot, r).1 == 0
  {
    hide Inv, Parse, Load, Erase, Write, Encode, Torn, Program, Touched, AllGood;
    InvWellFormed(c, d);
    SlotLayout(c, d.ram.writeSlot);
    CapacityMeaning(c, d.ram.writeSlot);
    var w, a := d.ram.writeSlot, RecordAddr(c, d.ram.writeSlot);
    RecordErase(c, d);
    GoodErase(c, d.flash, a, 2);
    var f := Erase(c, d.flash, a).0;
    RecordIsOneBlock(c, w);
    hide Legal;
    GoodWrite(c, f, a, Encode(r), 1);
    StoredWhole(c, f, w, r);
    VerifyContent(Write(c, f, a, Encode(r)).0, a, Encode(r));
  }

  lemma StoredWhole(c: Config, f: Flash, slot: nat, r: Record)
    requires Legal(c) && IsSlot(slot) && |f.cell| == |f.prog| == c.siliconEnd
    requires SlotBase(c, slot) + c.slotSize <= c.siliconEnd
    requires r.generation < U32_LIMIT && r.imgLen < U32_LIMIT
    requires var a := RecordAddr(c, slot); forall i: nat :: a <= i < a + RECORD_SIZE ==>
      f.cell[i] == ErasedByte(i) && f.prog[i] == 0xFF
    requires Write(c, f, RecordAddr(c, slot), Encode(r)).0.cell
          == Program(f.cell, f.prog, RecordAddr(c, slot), Encode(r), RECORD_SIZE)
    ensures var a, g := RecordAddr(c, slot), Write(c, f, RecordAddr(c, slot), Encode(r)).0;
      a + RECORD_SIZE <= |g.cell| && g.cell[a..a + RECORD_SIZE] == Encode(r)
  {
    hide Write, Encode, Torn, Program;
    ProgrammedIsTorn(c, f, slot, r, Outcome(8, 0));
    TornWhole(r);
  }

  /** The whole image in place: COMMIT attests it, and with good operations stores its record. */
  lemma CommitSucceeds(c: Config, d: Dev, image: Bytes, end: nat)
    requires Ready(c, d, image, |image|, end) && 0 < |image| < U32_LIMIT && d.ram.highest + 1 < GENERATION_CEILING
    requires AllGood(d.flash.plan, 2)
    ensures CommitStores(c, d, |image|, Crc(image))
    ensures StoreRecord(c, d, NextRecord(d, |image|, Crc(image))).1 == [OK]
  {
    hide Inv, Crc, RecordStore, AllGood, Parse, Load;
    var r := NextRecord(d, |image|, Crc(image));
    ImageAttested(c, d, image, end);
    StoreSucceeds(c, d, r);
  }

  lemma ImageAttested(c: Config, d: Dev, image: Bytes, end: nat)
    requires Ready(c, d, image, |image|, end) && 0 < |image|
    ensures |image| <= Capacity(c, d.ram.writeSlot) && Attestation(c, d, |image|) == Some(Crc(image))
  {
    hide Inv, Crc, View, Update;
    CapacityMeaning(c, d.ram.writeSlot);
    hide Legal;
    assert image[..|image|] == image;
    AttestationTrue(c, d, |image|);
  }

  // ---- the whole update --------------------------------------------------

  lemma ReadyEnter(c: Config, d: Dev, image: Bytes, n: nat, end: nat, w: World)
    requires Ready(c, d, image, n, end)
    ensures Ready(c, Enter(d, w), image, n, end) && WriteBase(c, Enter(d, w)) == WriteBase(c, d)
  {
    EnterFacts(c, d, w);
    hide Inv, Legal, WellFormed;
  }

  /** Enough good operations for the longest command, an ERASE of the whole slot. */
  ghost predicate Healthy(c: Config, w: World) {
    Legal(c) && AllGood(w.plan, ImageMax(c) / c.eraseBlock + 2)
  }

  /** A world for every command of an update: for HELLO, for the ERASE and the WRITE that begin so many bytes
      into the slot, and for COMMIT. */
  datatype Weather = Weather(hello: World, erase: nat -> World, write: nat -> World, commit: World)

  /** No operation of any of the commands fails. */
  ghost predicate Fair(c: Config, ws: Weather) {
    && (forall n: nat :: Healthy(c, ws.erase(n))) && (forall n: nat :: Healthy(c, ws.write(n)))
    && Healthy(c, ws.commit)
  }

  lemma FairSuffices(c: Config, ws: Weather, n: nat)
    requires Fair(c, ws)
    ensures Legal(c) && c.eraseBlock > 0
    ensures Healthy(c, ws.erase(n)) && AllGood(ws.write(n).plan, 1) && AllGood(ws.commit.plan, 2)
  {
    hide AllGood;
    PlanSuffices(c, ws.write(n));
    PlanSuffices(c, ws.commit);
  }

  /** The chunk loop: every chunk of at most 48 bytes in order; true when all are answered OK. */
  function WriteAll(c: Config, d: Dev, base: nat, image: Bytes, off: nat, ws: Weather): (r: (Dev, bool))
    requires Inv(c, d) && off <= |image| && base + |image| < U32_LIMIT
    ensures Inv(c, r.0)
    decreases |image| - off
  {
    if off == |image| then (d, true)
    else
      var m := if off + MAX_WRITE_DATA < |image| then off + MAX_WRITE_DATA else |image|;
      var s := Once(c, d, ws.write(off), CMD_WRITE, WritePayload(base + off, image[off..m]));
      if s.payload == [OK] then WriteAll(c, s.dev, base, image, m, ws) else (s.dev, false)
  }

  ghost predicate ChunkDone(c: Config, d: Dev, image: Bytes, m: nat, end: nat, s: Step) {
    s.payload == [OK] && Ready(c, s.dev, image, m, end)
    && s.dev.ram.writeSlot == d.ram.writeSlot && s.dev.ram.highest == d.ram.highest
  }

  predicate CarriesChunk(pl: Bytes, addr: nat, data: Bytes) {
    |pl| == 4 + |data| && LeNat(pl[0..4]) == addr && pl[4..] == data
  }

  lemma ChunkCarried(addr: nat, data: Bytes)
    requires addr < U32_LIMIT
    ensures CarriesChunk(WritePayload(addr, data), addr, data)
  {
    hide PutNat, LeNat;
    var pl := WritePayload(addr, data);
    NatRoundTrip(addr);
    assert pl[0..4] == PutNat(addr) && pl[4..] == data;
  }

  lemma OneChunk(c: Config, d: Dev, image: Bytes, n: nat, m: nat, end: nat, w: World, pl: Bytes)
    requires n < m <= |image| && Aligned(m, 4) && m - n <= MAX_WRITE_DATA && AllGood(w.plan, 1)
    requires CarriesChunk(pl, WriteBase(c, d) + n, image[n..m])
    requires Inv(c, d) && Ready(c, d, image, n, end)
    ensures ChunkDone(c, d, image, m, end, Once(c, d, w, CMD_WRITE, pl))
  {
    hide Inv, Once, DoWrite, WriteBody, Ready, WriteAccepted, AllGood, SlotBase, LeNat, WellFormed, Aligned;
    ChunkLength(c, d, image, n, m, end);
    ReadyFacts(c, d, image, n, end);
    ReadyEnter(c, d, image, n, end, w);
    EnterFacts(c, d, w);
    InSession(c, d, w, pl);
    WriteSucceeds(c, Enter(d, w), image, n, m, end);
    AcceptedWrites(c, Enter(d, w), pl);
  }

  lemma ChunkLength(c: Config, d: Dev, image: Bytes, n: nat, m: nat, end: nat)
    requires Ready(c, d, image, n, end) && n < m && Aligned(m, 4)
    ensures m - n >= 4
  {
    hide Inv, Placed;
  }

  lemma {:induction false} WriteAllSucceeds(c: Config, u: Transfer, d: Dev, off: nat, end: nat, ws: Weather)
    requires Ready(c, d, u.image, off, end) && Inv(c, d) && Fair(c, ws) && off <= |u.image|
    requires Writing(c, u, off, d) && d.ram.writeSlot == u.slot && SlotBase(c, u.slot) + |u.image| < U32_LIMIT
    ensures var (e, ok) := WriteAll(c, d, SlotBase(c, u.slot), u.image, off, ws);
      ok && Ready(c, e, u.image, |u.image|, end) && Writing(c, u, |u.image|, e)
      && e.ram.writeSlot == u.slot && e.ram.highest == d.ram.highest
    decreases |u.image| - off
  {
    hide Inv, Once, Ready, Writing, AllGood, SlotBase, Aligned, WritePayload, Fair, Legal;
    if off < |u.image| {
      FairSuffices(c, ws, off);
      var w := ws.write(off);
      var m := if off + MAX_WRITE_DATA < |u.image| then off + MAX_WRITE_DATA else |u.image|;
      ChunkEnd(c, d, u.image, off, end);
      ChunkCarried(SlotBase(c, u.slot) + off, u.image[off..m]);
      OneChunk(c, d, u.image, off, m, end, w, WritePayload(SlotBase(c, u.slot) + off, u.image[off..m]));
      WriteKeeps(c, u, off, m, d, w);
      var s := Once(c, d, w, CMD_WRITE, WritePayload(SlotBase(c, u.slot) + off, u.image[off..m]));
      WriteAllSucceeds(c, u, s.dev, m, end, ws);
    }
  }

  lemma ChunkEnd(c: Config, d: Dev, image: Bytes, off: nat, end: nat)
    requires Ready(c, d, image, off, end)
    ensures Aligned(off + MAX_WRITE_DATA, 4) && Aligned(|image|, 4)
  {
    hide Inv, Placed;
  }

  /** What the host checks before it starts, and what COMMIT needs of the generation counter. */
  predicate Updatable(c: Config, d: Dev, image: Bytes) {
    && WellFormed(c, d) && Capacity(c, d.ram.writeSlot) != 0
    && 0 < |image| <= ImageMax(c) && Aligned(|image|, 4)
    && d.ram.highest + 1 < GENERATION_CEILING
  }

  /** Answered OK throughout: the image is installed, the slots have changed roles and the generation has
      advanced by one. */
  ghost predicate Completed(c: Config, u: Transfer, highest: nat, r: (Dev, bool)) {
    r.1 && Installed(c, u, r.0) && Promoted(u, highest, r.0)
  }

  predicate Promoted(u: Transfer, highest: nat, e: Dev) {
    IsSlot(u.slot) && e.ram.active == Some(u.slot) && e.ram.writeSlot == Other(u.slot) && e.ram.highest == highest + 1
  }

  function EraseChunk(block: nat): (chunk: nat)
    requires block > 0
    ensures chunk > 0
  {
    (if ERASE_CHUNK / block > 1 then ERASE_CHUNK / block else 1) * block
  }

  /** The erase loop: whole chunks in order, then what is left; true when all are answered OK. */
  function EraseAll(c: Config, d: Dev, base: nat, done: nat, total: nat, chunk: nat, ws: Weather): (r: (Dev, bool))
    requires Inv(c, d) && done <= total && base + total < U32_LIMIT && chunk > 0
    ensures Inv(c, r.0)
    decreases total - done
  {
    if done == total then (d, true)
    else
      var len := if chunk < total - done then chunk else total - done;
      var s := Once(c, d, ws.erase(done), CMD_ERASE, ErasePayload(base + done, len));
      if s.payload == [OK] then EraseAll(c, s.dev, base, done + len, total, chunk, ws) else (s.dev, false)
  }

  /** HELLO, the erase loop over the rounded-up span and the chunk loop; true when all are answered OK. */
  function Written(c: Config, d: Dev, image: Bytes, ws: Weather): (r: (Dev, bool))
    requires Inv(c, d) && Updatable(c, d, image)
    ensures Inv(c, r.0)
  {
    var h := Once(c, d, ws.hello, CMD_HELLO, HELLO_REQUEST);
    var base, len := SlotBase(c, d.ram.writeSlot), RoundUp(|image|, c.eraseBlock);
    SpanFits(c, d.ram.writeSlot, image);
    if h.payload[0] != OK then (h.dev, false)
    else
      var (e, cleared) := EraseAll(c, h.dev, base, 0, len, EraseChunk(c.eraseBlock), ws);
      if !cleared then (e, false) else WriteAll(c, e, base, image, 0, ws)
  }

  function Commit(c: Config, d: Dev, image: Bytes, w: World): (r: (Dev, bool))
    requires Inv(c, d) && |image| < U32_LIMIT
    ensures Inv(c, r.0)
  {
    var s := Once(c, d, w, CMD_COMMIT, CommitPayload(|image|, Crc(image)));
    (s.dev, s.payload == [OK])
  }

  /** And COMMIT. */
  function FullUpdate(c: Config, d: Dev, image: Bytes, ws: Weather): (r: (Dev, bool))
    requires Inv(c, d) && Updatable(c, d, image)
    ensures Inv(c, r.0)
  {
    var (x, ok) := Written(c, d, image, ws);
    SpanFits(c, d.ram.writeSlot, image);
    if !ok then (x, false) else Commit(c, x, image, ws.commit)
  }

  lemma SpanFits(c: Config, slot: nat, image: Bytes)
    requires Legal(c) && IsSlot(slot) && |image| <= ImageMax(c)
    ensures |image| <= RoundUp(|image|, c.eraseBlock) <= ImageMax(c) < U32_LIMIT
    ensures SlotBase(c, slot) + |image| <= SlotBase(c, slot) + RoundUp(|image|, c.eraseBlock) <= RecordAddr(c, slot)
    ensures RecordAddr(c, slot) < U32_LIMIT
    ensures Aligned(RoundUp(|image|, c.eraseBlock), c.eraseBlock) && Aligned(SlotBase(c, slot), c.eraseBlock)
    ensures RoundUp(|image|, c.eraseBlock) <= (ImageMax(c) / c.eraseBlock) * c.eraseBlock
  {
    SlotLayout(c, slot);
    RoundUpFits(|image|, c.eraseBlock, ImageMax(c));
    AlignedIsProduct(ImageMax(c), c.eraseBlock);
    ProductIsAligned((|image| + c.eraseBlock - 1) / c.eraseBlock, c.eraseBlock);
  }

  lemma HelloStep(c: Config, d: Dev, w: World, image: Bytes)
    requires Inv(c, d) && Updatable(c, d, image)
    ensures var h := Once(c, d, w, CMD_HELLO, HELLO_REQUEST);
      && h.payload[0] == OK && Updatable(c, h.dev, image)
      && h.dev.ram.session && h.dev.ram.running && h.dev.ram.expected == WriteBase(c, h.dev)
      && h.dev.ram.writeSlot == d.ram.writeSlot && h.dev.ram.highest == d.ram.highest
      && Inv(c, h.dev) && WellFormed(c, h.dev)
      && Opened(c, Transfer(d.ram.writeSlot, d.flash.cell, image), h.dev)
  {
    hide Inv, WellFormed, HelloPayload, Capacity, ImageMax, Aligned;
    InvWellFormed(c, d);
    HelloOnce(c, d, w);
    var h := Once(c, d, w, CMD_HELLO, HELLO_REQUEST);
    HelloOpens(c, Transfer(d.ram.writeSlot, d.flash.cell, image), h.dev);
    HelloBegins(c, h.dev);
  }

  lemma HelloBegins(c: Config, d: Dev)
    requires WellFormed(c, d)
    ensures HelloPayload(c, d)[0] == OK
  {
    hide PutNat, WellFormed;
  }

  /** The slot is cleared up to `end`, for an update that is in its erase stage. */
  ghost predicate Erased(c: Config, u: Transfer, highest: nat, end: nat, d: Dev) {
    Clearing(c, d, end) && Opened(c, u, d) && d.ram.writeSlot == u.slot && d.ram.highest == highest
    && (end > SlotBase(c, u.slot) ==> d.ram.disarmed && Erasing(c, u, d))
  }

  /** One chunk of the erase loop. */
  lemma EraseStepOk(c: Config, u: Transfer, highest: nat, d: Dev, w: World, addr: nat, len: nat, pl: Bytes)
    requires Inv(c, d) && Erased(c, u, highest, addr, d) && Healthy(c, w) && CarriesRange(pl, addr, len)
    requires WellFormed(c, d) && EraseAccepted(c, d, addr, len)
    ensures var s := Once(c, d, w, CMD_ERASE, pl); s.payload == [OK] && Erased(c, u, highest, addr + len, s.dev)
  {
    hide Inv, Once, DoErase, EraseBody, EraseAccepted, AllGood, SlotBase, LeNat, WellFormed, Legal, Healthy, Opened, Erasing,
         ErasedRange, ImageMax;
    PlanSuffices(c, w);
    EnterFacts(c, d, w);
    InSession(c, d, w, pl);
    var g := Enter(d, w);
    StillErasable(c, d, g, addr, len);
    SpanBounded(c, g, addr, len);
    EraseSucceeds(c, g, addr, len, ImageMax(c) / c.eraseBlock);
    AcceptedErases(c, g, pl);
    EnterClearing(c, d, w, addr);
    EraseExtends(c, g, addr, len);
    EraseKeeps(c, u, d, w, pl);
  }

  lemma EnterClearing(c: Config, d: Dev, w: World, end: nat)
    requires Clearing(c, d, end)
    ensures Clearing(c, Enter(d, w), end)
  {
    hide Inv, WellFormed, ErasedRange, SlotBase;
    EnterFacts(c, d, w);
    RangeCongruent(c, d, Enter(d, w), WriteBase(c, d), end);
  }

  lemma SpanBounded(c: Config, d: Dev, addr: nat, len: nat)
    requires WellFormed(c, d) && EraseAccepted(c, d, addr, len)
    ensures len > 0 && len <= (ImageMax(c) / c.eraseBlock) * c.eraseBlock
  {
    SlotLayout(c, d.ram.writeSlot);
    AlignedIsProduct(ImageMax(c), c.eraseBlock);
  }

  lemma WindowPart(c: Config, d: Dev, done: nat, len: nat)
    requires WellFormed(c, d) && Capacity(c, d.ram.writeSlot) != 0 && 0 < len && done + len <= ImageMax(c)
    requires Aligned(done, c.eraseBlock) && Aligned(len, c.eraseBlock)
    ensures EraseAccepted(c, d, WriteBase(c, d) + done, len)
  {
    SlotLayout(c, d.ram.writeSlot);
    AlignedEnd(WriteBase(c, d), done, c.eraseBlock);
    hide Legal;
  }

  lemma ChunkAligned(block: nat, done: nat, total: nat)
    requires block > 0 && Aligned(done, block) && Aligned(total, block) && done < total
    ensures var chunk := EraseChunk(block); var len := if chunk < total - done then chunk else total - done;
      0 < len <= total - done && Aligned(len, block) && Aligned(done + len, block)
  {
    ProductIsAligned(if ERASE_CHUNK / block > 1 then ERASE_CHUNK / block else 1, block);
    AlignedDifference(total, done, block);
    AlignedEnd(done, EraseChunk(block), block);
  }

  /** A span of whole blocks of the slot, and how far the erase loop has come in it. */
  predicate Sweep(c: Config, u: Transfer, done: nat, total: nat) {
    && Legal(c) && Capacity(c, u.slot) != 0 && done <= total <= ImageMax(c)
    && SlotBase(c, u.slot) + total < U32_LIMIT
    && Aligned(done, c.eraseBlock) && Aligned(total, c.eraseBlock)
  }

  function NextLength(c: Config, done: nat, total: nat): (len: nat)
    requires c.eraseBlock > 0 && done < total
    ensures 0 < len <= total - done
  {
    if EraseChunk(c.eraseBlock) < total - done then EraseChunk(c.eraseBlock) else total - done
  }

  lemma SweepStep(c: Config, u: Transfer, highest: nat, d: Dev, done: nat, total: nat, w: World)
    requires Inv(c, d) && Erased(c, u, highest, SlotBase(c, u.slot) + done, d) && Healthy(c, w)
    requires Sweep(c, u, done, total) && done < total && c.eraseBlock > 0
    ensures var len := NextLength(c, done, total);
      var s := Once(c, d, w, CMD_ERASE, ErasePayload(SlotBase(c, u.slot) + done, len));
      && s.payload == [OK] && Erased(c, u, highest, SlotBase(c, u.slot) + (done + len), s.dev)
      && Sweep(c, u, done + len, total)
  {
    hide Inv, WellFormed, Once, Erased, Healthy, SlotBase, Capacity, ImageMax, Aligned, ErasePayload, EraseChunk, EraseAccepted,
         Legal;
    FrameRelevant(c, d);
    ChunkAligned(c.eraseBlock, done, total);
    var len, addr := NextLength(c, done, total), SlotBase(c, u.slot) + done;
    ErasedSlot(c, u, highest, addr, d);
    WindowPart(c, d, done, len);
    RangeCarried(addr, len);
    EraseStepOk(c, u, highest, d, w, addr, len, ErasePayload(addr, len));
  }

  lemma {:induction false} EraseAllSucceeds(c: Config, u: Transfer, highest: nat, d: Dev, done: nat, total: nat, ws: Weather)
    requires Inv(c, d) && Erased(c, u, highest, SlotBase(c, u.slot) + done, d) && Fair(c, ws)
    requires Sweep(c, u, done, total) && c.eraseBlock > 0
    ensures var (e, ok) := EraseAll(c, d, SlotBase(c, u.slot), done, total, EraseChunk(c.eraseBlock), ws);
      ok && Erased(c, u, highest, SlotBase(c, u.slot) + total, e)
    decreases total - done
  {
    hide Inv, Once, Erased, Healthy, SlotBase, ErasePayload, EraseChunk, Legal, Capacity, ImageMax, Aligned, Fair;
    if done < total {
      FairSuffices(c, ws, done);
      var w := ws.erase(done);
      SweepStep(c, u, highest, d, done, total, w);
      var len := NextLength(c, done, total);
      var s := Once(c, d, w, CMD_ERASE, ErasePayload(SlotBase(c, u.slot) + done, len));
      EraseAllSucceeds(c, u, highest, s.dev, done + len, total, ws);
    }
  }

  lemma ErasedSlot(c: Config, u: Transfer, highest: nat, end: nat, d: Dev)
    requires Erased(c, u, highest, end, d)
    ensures d.ram.writeSlot == u.slot && WriteBase(c, d) == SlotBase(c, u.slot)
  {
  }

  lemma StillErasable(c: Config, d: Dev, g: Dev, addr: nat, len: nat)
    requires WellFormed(c, d) && WellFormed(c, g) && g.ram == d.ram && EraseAccepted(c, d, addr, len)
    ensures EraseAccepted(c, g, addr, len) && WriteBase(c, g) == WriteBase(c, d)
  {
  }

  lemma CommitStepOk(c: Config, u: Transfer, d: Dev, w: World, end: nat)
    requires Ready(c, d, u.image, |u.image|, end) && Inv(c, d) && 0 < |u.image| < U32_LIMIT && AllGood(w.plan, 2)
    requires d.ram.highest + 1 < GENERATION_CEILING && Committing(c, u, d) && d.ram.writeSlot == u.slot
    ensures var s := Once(c, d, w, CMD_COMMIT, CommitPayload(|u.image|, Crc(u.image)));
      s.payload == [OK] && Installed(c, u, s.dev) && Promoted(u, d.ram.highest, s.dev)
  {
    hide Inv, Once, DoCommit, StoreRecord, Ready, Committing, Installed, AllGood, CommitStores, Crc, LeNat, LeWord,
         CommitPayload, WellFormed;
    ReadyFacts(c, d, u.image, |u.image|, end);
    ReadyEnter(c, d, u.image, |u.image|, end, w);
    EnterFacts(c, d, w);
    var pl := CommitPayload(|u.image|, Crc(u.image));
    CommitPayloadFields(|u.image|, Crc(u.image));
    InSession(c, d, w, pl);
    var g := Enter(d, w);
    CommitSucceeds(c, g, u.image, end);
    HighestBound(c, g);
    CommitShape(c, g, pl);
    StoredIsPromoted(c, u, g);
    CommitKeeps(c, u, d, w);
  }

  lemma StoredIsPromoted(c: Config, u: Transfer, d: Dev)
    requires Inv(c, d) && d.ram.session && d.ram.writeSlot == u.slot && |u.image| < U32_LIMIT
    requires WellFormed(c, d) && CommitStores(c, d, |u.image|, Crc(u.image))
    ensures var (e, p) := StoreRecord(c, d, NextRecord(d, |u.image|, Crc(u.image)));
      p == [OK] ==> Promoted(u, d.ram.highest, e)
  {
    hide Inv, Crc, Attestation, StoreRecord, Load, Image, Legal;
    InvCommitStores(c, d, |u.image|, Crc(u.image));
  }

  lemma NothingErased(c: Config, u: Transfer, d: Dev)
    requires Inv(c, d) && WellFormed(c, d) && Opened(c, u, d) && d.ram.writeSlot == u.slot
    requires d.ram.session && d.ram.running && d.ram.expected == WriteBase(c, d)
    ensures Erased(c, u, d.ram.highest, SlotBase(c, u.slot) + 0, d) && Aligned(0, c.eraseBlock)
  {
    hide Inv;
  }

  /** The whole image in place, the run unbroken up to its end, and the rest of the span erased. */
  ghost predicate InPlace(c: Config, u: Transfer, highest: nat, r: (Dev, bool)) {
    && r.1 && c.eraseBlock > 0
    && Ready(c, r.0, u.image, |u.image|, SlotBase(c, u.slot) + RoundUp(|u.image|, c.eraseBlock))
    && Writing(c, u, |u.image|, r.0) && r.0.ram.writeSlot == u.slot && r.0.ram.highest == highest
  }

  /** When no operation fails, HELLO, ERASEs and WRITEs are all answered OK and put the image in place. */
  lemma ImageWritten(c: Config, d: Dev, image: Bytes, ws: Weather)
    requires Inv(c, d) && Updatable(c, d, image) && Fair(c, ws)
    ensures InPlace(c, Transfer(d.ram.writeSlot, d.flash.cell, image), d.ram.highest, Written(c, d, image, ws))
  {
    hide Fair, Inv, Once, Opened, Erasing, Writing, SlotBase, Capacity, RoundUp, WellFormed, Ready, Clearing, EraseAll,
         ErasePayload, AllGood, Aligned, WriteAll, Legal, ImageMax, RecordAddr, HelloPayload, EraseChunk;
    InvWellFormed(c, d);
    FairSuffices(c, ws, 0);
    SpanFits(c, d.ram.writeSlot, image);
    var u := Transfer(d.ram.writeSlot, d.flash.cell, image);
    HelloStep(c, d, ws.hello, image);
    var h := Once(c, d, ws.hello, CMD_HELLO, HELLO_REQUEST).dev;
    var base, len := SlotBase(c, d.ram.writeSlot), RoundUp(|image|, c.eraseBlock);
    NothingErased(c, u, h);
    EraseAllSucceeds(c, u, d.ram.highest, h, 0, len, ws);
    var e := EraseAll(c, h, base, 0, len, EraseChunk(c.eraseBlock), ws).0;
    ClearedIsReady(c, e, image, base + len);
    InSlot(c, u, e, base + len);
    NothingWritten(c, u, e);
    WriteAllSucceeds(c, u, e, 0, base + len, ws);
  }

  /** When no operation fails, every command of an update is answered OK and the image is installed: from
      every reachable state, for every image of whole words that fits the write slot. */
  lemma UpdateCompletes(c: Config, d: Dev, image: Bytes, ws: Weather)
    requires Inv(c, d) && Updatable(c, d, image) && Fair(c, ws)
    ensures Completed(c, Transfer(d.ram.writeSlot, d.flash.cell, image), d.ram.highest, FullUpdate(c, d, image, ws))
  {
    hide Fair, Inv, Once, Writing, Committing, Installed, SlotBase, RoundUp, WellFormed, Crc, Ready, Written, CommitPayload,
         AllGood, Legal, ImageMax, RecordAddr, Capacity;
    InvWellFormed(c, d);
    FairSuffices(c, ws, 0);
    SpanFits(c, d.ram.writeSlot, image);
    ImageWritten(c, d, image, ws);
    var u := Transfer(d.ram.writeSlot, d.flash.cell, image);
    var x := Written(c, d, image, ws).0;
    WrittenIsCommitting(c, u, x);
    CommitStepOk(c, u, x, ws.commit, SlotBase(c, u.slot) + RoundUp(|image|, c.eraseBlock));
  }

  lemma InSlot(c: Config, u: Transfer, d: Dev, end: nat)
    requires Ready(c, d, u.image, 0, end) && d.ram.writeSlot == u.slot
    ensures SlotBase(c, u.slot) <= c.siliconEnd
  {
    hide Inv, Placed;
    CapacityMeaning(c, d.ram.writeSlot);
  }

  lemma PlanSuffices(c: Config, w: World)
    requires Healthy(c, w)
    ensures Legal(c) && c.eraseBlock > 0
    ensures AllGood(w.plan, ImageMax(c) / c.eraseBlock + 1) && AllGood(w.plan, 2) && AllGood(w.plan, 1)
  {
    hide ImageMax;
  }
}
