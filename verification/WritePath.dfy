/** WRITE keeps the invariant: bytes only land in blocks erased this session, and the run stays true. */
module WritePath {
  import opened Bytes
  import opened Crc32
  import opened Geometry
  import opened Flash
  import opened Record
  import opened Decision
  import opened Core
  import opened Invariant
  import opened Preservation

  /** The bitmap check covers every block the bytes overlap. */
  lemma CoveredIsArmed(c: Config, d: Dev, addr: nat, n: nat)
    requires Inv(c, d) && InWindow(c, d.ram.writeSlot, addr, n) && BitmapCovers(c, d, addr, n)
    ensures Touched(c, addr, n) <= d.flash.armed
  {
    hide Inv, InWindow, BlockRange, Legal, SlotBase;
    InvWellFormed(c, d);
    WindowBase(c, d, addr, n);
    forall t: nat | t in Touched(c, addr, n)
      ensures t in d.flash.armed
    {
      BlockShift(c, d, addr, n, t);
      MarkedIsArmed(c, d, t - WriteBase(c, d) / c.eraseBlock);
    }
  }

  lemma WindowBase(c: Config, d: Dev, addr: nat, n: nat)
    requires WellFormed(c, d) && InWindow(c, d.ram.writeSlot, addr, n)
    ensures n > 0 && WriteBase(c, d) <= addr && WriteBase(c, d) % c.eraseBlock == 0
  {
    SlotLayout(c, d.ram.writeSlot);
  }

  lemma MarkedIsArmed(c: Config, d: Dev, b: nat)
    requires Inv(c, d) && b in d.ram.bitmap
    ensures b + WriteBase(c, d) / c.eraseBlock in d.flash.armed
  {
    hide Parse, Crc, Update, StreamOK, LastOK, GenerationsOK, Truthful, RecordStateOK, SlotsOK, BlockInImage;
  }

  /** An overlapped block, relative to the slot, is in the range the bitmap check covers. */
  lemma BlockShift(c: Config, d: Dev, addr: nat, n: nat, t: nat)
    requires WellFormed(c, d) && n > 0 && WriteBase(c, d) <= addr && WriteBase(c, d) % c.eraseBlock == 0
    requires t in Touched(c, addr, n) && BitmapCovers(c, d, addr, n)
    ensures WriteBase(c, d) / c.eraseBlock <= t && t - WriteBase(c, d) / c.eraseBlock in d.ram.bitmap
  {
    RelativeBlock(addr, WriteBase(c, d), c.eraseBlock);
    RelativeBlock(addr + n - 1, WriteBase(c, d), c.eraseBlock);
    hide Legal, SlotBase;
    var b := t - WriteBase(c, d) / c.eraseBlock;
    assert b in BlockRange(RelBlock(c, d, addr), RelBlock(c, d, addr + n - 1));
  }

  /** Folding a verified chunk at the run's position keeps the running CRC true. */
  lemma FoldKeepsStream(c: Config, d: Dev, addr: nat, data: Bytes)
    requires Inv(c, d) && Capacity(c, d.ram.writeSlot) != 0 && d.ram.session
    requires InWindow(c, d.ram.writeSlot, addr, |data|) && addr == d.ram.expected
    requires d.flash.cell[addr..addr + |data|] == data
    ensures Inv(c, FoldChunk(d, addr, data))
  {
    hide Parse, Crc, Update;
    var b := WriteBase(c, d);
    assert d.flash.cell[b..addr + |data|] == d.flash.cell[b..addr] + data;
    UpdateConcat(INIT, d.flash.cell[b..addr], data);
    EmptyUpdate(d.flash.cell[b..b]);
  }

  lemma EmptyUpdate(s: Bytes)
    requires s == []
    ensures Update(INIT, s) == INIT
  {
  }

  /** The program-and-verify step of WRITE. */
  lemma InvWriteChunk(c: Config, d: Dev, addr: nat, data: Bytes)
    requires Inv(c, d) && d.ram.session && d.ram.disarmed
    requires InWindow(c, d.ram.writeSlot, addr, |data|) && Aligned(addr, 4) && Aligned(|data|, 4)
    requires Touched(c, addr, |data|) <= d.flash.armed
    requires Classify(d, addr, data).Poison? ==> !d.ram.running
    ensures var (e, r) := WriteChunk(c, d, addr, data, Classify(d, addr, data));
      && Inv(c, e) && SameOutside(d.flash.cell, e.flash.cell, addr, addr + |data|)
      && e.ram.disarmed && e.ram.session && e.ram.rec == d.ram.rec && e.bootRequest == d.bootRequest
      && e.ram.highest == d.ram.highest && e.ram.active == d.ram.active && e.ram.writeSlot == d.ram.writeSlot
      && e.flash.armed == d.flash.armed && e.ram.bitmap == d.ram.bitmap
      && (r == 0 ==> e.flash.cell[addr..addr + |data|] == data)
  {
    hide Parse, Crc, Update, Write, StreamOK, BitmapOK, GenerationsOK, Truthful, RecordStateOK, SlotsOK;
    WriteEffect(c, d.flash, addr, data);
    var (f, r) := Write(c, d.flash, addr, data);
    if d.ram.running && Classify(d, addr, data).Retry? {
      RewriteHarmless(c, d.flash, addr, data);
    }
    ImageChange(c, d, f, addr, addr + |data|);
    if r == 0 && Verify(f, addr, data) == 0 && Classify(d, addr, data).Fold? {
      FoldKeepsStream(c, d.(flash := f), addr, data);
    }
  }

  lemma InvNoteWrite(c: Config, d: Dev, addr: nat, data: Bytes)
    requires Inv(c, d)
    ensures var e := NoteWrite(d, addr, data);
      && Inv(c, e) && (Classify(d, addr, data).Poison? ==> !e.ram.running)
      && e == d.(ram := d.ram.(running := e.ram.running))
  {
    hide Parse, Crc, Update;
  }

  lemma ClassifyStable(d: Dev, e: Dev, addr: nat, data: Bytes)
    requires e.ram.expected == d.ram.expected && e.ram.lastAddr == d.ram.lastAddr && e.ram.lastData == d.ram.lastData
    ensures Classify(e, addr, data) == Classify(d, addr, data)
  {
  }

  /** Outside the written bytes the slot's image area reads as before. */
  ghost predicate ImageSameBut(c: Config, d: Dev, e: Dev, lo: nat, hi: nat)
    requires WellFormed(c, d) && WellFormed(c, e)
  {
    forall i: nat :: i < |d.flash.cell| && WriteBase(c, d) <= i < RecordAddr(c, d.ram.writeSlot) && !(lo <= i < hi)
      ==> e.flash.cell[i] == d.flash.cell[i]
  }

  /** An accepted WRITE. */
  lemma InvWriteBody(c: Config, d: Dev, addr: nat, data: Bytes)
    requires Inv(c, d) && d.ram.session
    requires InWindow(c, d.ram.writeSlot, addr, |data|) && Aligned(addr, 4) && Aligned(|data|, 4)
    requires BitmapCovers(c, d, addr, |data|)
    ensures var (e, p) := WriteBody(c, d, addr, data);
      && MutationFrame(c, d, e)
      && (p == [OK] ==> e.ram.disarmed && e.flash.cell[addr..addr + |data|] == data)
      && ImageSameBut(c, d, e, addr, addr + |data|)
  {
    hide Parse, Crc, Update, Write, MutationBegin, WriteChunk, BitmapCovers, Classify, NoteWrite, Touched,
         StreamOK, LastOK, BitmapOK, GenerationsOK, Truthful, SlotsOK, Physical;
    CoveredIsArmed(c, d, addr, |data|);
    InvNoteWrite(c, d, addr, data);
    var d0 := NoteWrite(d, addr, data);
    InvMutationBegin(c, d0);
    var (d1, r1) := MutationBegin(c, d0);
    if r1 == 0 {
      ClassifyStable(d, d1, addr, data);
      InvWriteChunk(c, d1, addr, data);
    }
  }

  /** The argument checks that let a WRITE through. */
  predicate WriteAccepted(c: Config, d: Dev, addr: nat, data: Bytes)
    requires WellFormed(c, d)
  {
    && Aligned(addr, 4) && Aligned(|data|, 4)
    && InWindow(c, d.ram.writeSlot, addr, |data|) && BitmapCovers(c, d, addr, |data|)
  }

  /** A WRITE is refused without any effect, or runs on the bytes of its payload. */
  lemma WriteShape(c: Config, d: Dev, pl: Bytes)
    requires WellFormed(c, d)
    ensures (DoWrite(c, d, pl).0 == d && DoWrite(c, d, pl).1 != [OK])
      || (8 <= |pl| && WriteAccepted(c, d, LeNat(pl[0..4]), pl[4..])
          && DoWrite(c, d, pl) == WriteBody(c, d, LeNat(pl[0..4]), pl[4..]))
  {
    hide WriteBody, BitmapCovers, LeNat, InWindow, Aligned;
  }

  lemma InvWrite(c: Config, d: Dev, pl: Bytes)
    requires Inv(c, d) && d.ram.session
    ensures MutationFrame(c, d, DoWrite(c, d, pl).0)
  {
    FrameRefl(c, d);
    hide WriteBody, DoWrite, BitmapCovers, LeNat, InWindow, Aligned, Inv, MutationFrame;
    WriteShape(c, d, pl);
    if DoWrite(c, d, pl).0 != d {
      InvWriteBody(c, d, LeNat(pl[0..4]), pl[4..]);
    }
  }
}
