/** Every transition and every command keeps the invariant, whatever the flash does. */
module Preservation {
  import opened Bytes
  import opened Crc32
  import opened Geometry
  import opened Flash
  import opened Record
  import opened Decision
  import opened Core
  import opened Invariant

  /** What only the record state machine may change. */
  ghost predicate SameRun(d: Dev, e: Dev) {
    && e.ram.session == d.ram.session && e.ram.running == d.ram.running && e.ram.bitmap == d.ram.bitmap
    && e.ram.expected == d.ram.expected && e.ram.lastAddr == d.ram.lastAddr && e.ram.lastData == d.ram.lastData
    && e.ram.crcState == d.ram.crcState
    && e.ram.highest == d.ram.highest && e.ram.active == d.ram.active && e.ram.writeSlot == d.ram.writeSlot
  }

  /** Erasing the write slot's record block: either nothing happened or the record is gone. */
  lemma RecordErase(c: Config, d: Dev)
    requires Inv(c, d) && Capacity(c, d.ram.writeSlot) != 0
    ensures var w := d.ram.writeSlot; var (f, r) := Erase(c, d.flash, RecordAddr(c, w));
      && EraseAllowed(c, d.flash, RecordAddr(c, w))
      && Physical(c, f) && f.violations == 0 && f.armed >= d.flash.armed
      && SameOutside(d.flash.cell, f.cell, RecordAddr(c, w), RecordAddr(c, w) + RECORD_BLOCK)
      && (f.cell == d.flash.cell || Load(c, f.cell, w).None?)
      && (r == 0 ==> Load(c, f.cell, w).None?)
      && (r == 0 ==> RecordAddr(c, w) / c.eraseBlock in f.armed)
      && (r == 0 ==> forall i: nat :: RecordAddr(c, w) <= i < RecordAddr(c, w) + RECORD_SIZE ==>
            f.cell[i] == ErasedByte(i) && f.prog[i] == 0xFF)
  {
    hide Parse;
    var w := d.ram.writeSlot;
    SlotLayout(c, w);
    EraseEffect(c, d.flash, RecordAddr(c, w));
    var (f, r) := Erase(c, d.flash, RecordAddr(c, w));
    if f.cell != d.flash.cell || r == 0 {
      ErasedHoldsNoRecord(c, f.cell, w);
    }
  }

  /** Replacing the flash after a change confined to the write slot's record reserve. */
  lemma ReserveChange(c: Config, d: Dev, e: Dev)
    requires Inv(c, d) && SameRun(d, e)
    requires Physical(c, e.flash) && e.flash.violations == 0 && e.flash.armed >= d.flash.armed
    requires Capacity(c, d.ram.writeSlot) != 0
    requires SameOutside(d.flash.cell, e.flash.cell,
                         RecordAddr(c, d.ram.writeSlot), RecordAddr(c, d.ram.writeSlot) + RECORD_BLOCK)
    requires e.ram.rec == Invalid
    requires TruthfulSlot(c, e.flash.cell, d.ram.writeSlot)
    requires Generation(c, e.flash.cell, d.ram.writeSlot) <= d.ram.highest + 1
    requires e.ram.disarmed ==> Load(c, e.flash.cell, d.ram.writeSlot).None? && e.ram.session
    ensures Inv(c, e)
  {
    hide Parse, Crc, Update;
    var w := d.ram.writeSlot;
    ReserveFrame(c, d.flash.cell, e.flash.cell, w);
    SlotLayout(c, w);
    var b, x := WriteBase(c, d), d.ram.expected;
    if d.ram.session && d.ram.running && b <= x <= RecordAddr(c, w) {
      SameSlice(d.flash.cell, e.flash.cell, b, x);
      if b <= d.ram.lastAddr <= x {
        SameSlice(d.flash.cell, e.flash.cell, d.ram.lastAddr, x);
      }
    }
  }

  /** Disarming before a mutation: on success the write slot holds no record at all. */
  lemma InvMutationBegin(c: Config, d: Dev)
    requires Inv(c, d) && d.ram.session && Capacity(c, d.ram.writeSlot) != 0
    ensures var (e, r) := MutationBegin(c, d);
      && Inv(c, e) && SameRun(d, e) && e.bootRequest == d.bootRequest
      && e.flash.armed >= d.flash.armed
      && e.ram.rec == Invalid
      && (r == 0 ==> e.ram.disarmed)
      && SameOutside(d.flash.cell, e.flash.cell,
                     RecordAddr(c, d.ram.writeSlot), RecordAddr(c, d.ram.writeSlot) + RECORD_BLOCK)
      && (e.flash.cell == d.flash.cell || Load(c, e.flash.cell, d.ram.writeSlot).None?)
  {
    hide Parse, Crc, Update, Erase;
    if !d.ram.disarmed {
      RecordErase(c, d);
      ReserveChange(c, d, MutationBegin(c, d).0);
    }
  }

  // ---- image-area changes ------------------------------------------------

  /** Replacing the flash after a change confined to [lo, hi) of the disarmed write slot's image area,
      at or beyond the position of an unbroken run. */
  lemma ImageChange(c: Config, d: Dev, f: Flash, lo: nat, hi: nat)
    requires Inv(c, d) && d.ram.disarmed && Capacity(c, d.ram.writeSlot) != 0
    requires Physical(c, f) && f.violations == 0 && f.armed >= d.flash.armed
    requires WriteBase(c, d) <= lo <= hi <= RecordAddr(c, d.ram.writeSlot)
    requires SameOutside(d.flash.cell, f.cell, lo, hi)
    requires d.ram.running ==> d.ram.expected <= lo || f.cell == d.flash.cell
    ensures Inv(c, d.(flash := f))
  {
    hide Parse, Crc, Update;
    var w := d.ram.writeSlot;
    ImageAreaFrame(c, d.flash.cell, f.cell, w, lo, hi);
    var b, x := WriteBase(c, d), d.ram.expected;
    if d.ram.session && d.ram.running && b <= x <= lo {
      SameSlice(d.flash.cell, f.cell, b, x);
      if b <= d.ram.lastAddr <= x {
        SameSlice(d.flash.cell, f.cell, d.ram.lastAddr, x);
      }
    }
  }

  lemma MarkErased(c: Config, d: Dev, a: nat)
    requires Inv(c, d) && d.ram.session && Capacity(c, d.ram.writeSlot) != 0
    requires Aligned(a, c.eraseBlock) && WriteBase(c, d) <= a && a + c.eraseBlock <= RecordAddr(c, d.ram.writeSlot)
    requires a / c.eraseBlock in d.flash.armed
    ensures Inv(c, BitmapMark(c, d, a))
  {
    hide Parse, Crc, Update, StreamOK, LastOK, RecordStateOK, SlotsOK, GenerationsOK, Truthful;
    SlotLayout(c, d.ram.writeSlot);
    var b := RelBlock(c, d, a);
    MarkedBlock(c, a, WriteBase(c, d), b);
    var e := BitmapMark(c, d, a);
    hide BlockInImage;
    assert BitmapOK(c, e);
    SameButBitmap(c, d, e);
  }

  lemma MarkedBlock(c: Config, a: nat, base: nat, b: nat)
    requires Legal(c) && base % c.eraseBlock == 0 && a % c.eraseBlock == 0
    requires base <= a && a + c.eraseBlock <= base + ImageMax(c) && b == (a - base) / c.eraseBlock
    ensures BlockInImage(c, b) && b + base / c.eraseBlock == a / c.eraseBlock
  {
    RelativeBlock(a, base, c.eraseBlock);
    AlignedDifference(a, base, c.eraseBlock);
    AlignedIsProduct(a - base, c.eraseBlock);
    assert (b + 1) * c.eraseBlock == a - base + c.eraseBlock;
  }

  lemma SameButBitmap(c: Config, d: Dev, e: Dev)
    requires Inv(c, d) && d.ram.session && e == d.(ram := d.ram.(bitmap := e.ram.bitmap)) && BitmapOK(c, e)
    ensures Inv(c, e)
  {
    hide Parse, Crc, Update, BitmapOK;
  }

  /** One block of an ERASE. */
  lemma InvEraseBlock(c: Config, d: Dev, a: nat)
    requires Inv(c, d) && d.ram.session && d.ram.disarmed && Capacity(c, d.ram.writeSlot) != 0
    requires Aligned(a, c.eraseBlock) && WriteBase(c, d) <= a && a + c.eraseBlock <= RecordAddr(c, d.ram.writeSlot)
    requires d.ram.running ==> d.ram.expected <= a
    ensures var (f, r) := Erase(c, d.flash, a);
      && Inv(c, d.(flash := f))
      && SameOutside(d.flash.cell, f.cell, a, a + c.eraseBlock)
      && f.armed >= d.flash.armed
      && (r == 0 ==> Inv(c, BitmapMark(c, d.(flash := f), a)))
  {
    hide Parse, Crc, Update, Erase;
    SlotLayout(c, d.ram.writeSlot);
    EraseEffect(c, d.flash, a);
    var (f, r) := Erase(c, d.flash, a);
    ImageChange(c, d, f, a, a + c.eraseBlock);
    if r == 0 {
      MarkErased(c, d.(flash := f), a);
    }
  }

  /** The block loop of ERASE: the invariant, and no byte outside the range changed. */
  lemma {:induction false} InvEraseLoop(c: Config, d: Dev, a: nat, end: nat)
    requires Inv(c, d) && d.ram.session && d.ram.disarmed && Capacity(c, d.ram.writeSlot) != 0
    requires Aligned(a, c.eraseBlock) && Aligned(end, c.eraseBlock)
    requires WriteBase(c, d) <= a && end <= RecordAddr(c, d.ram.writeSlot)
    requires d.ram.running ==> d.ram.expected <= a
    ensures var (e, r) := EraseLoop(c, d, a, end);
      && Inv(c, e) && SameOutside(d.flash.cell, e.flash.cell, a, end)
      && e.ram == d.ram.(bitmap := e.ram.bitmap) && e.ram.bitmap >= d.ram.bitmap
      && e.flash.armed >= d.flash.armed && e.bootRequest == d.bootRequest
    decreases if a < end then end - a else 0
  {
    hide Parse, Crc, Update, Erase, StreamOK, LastOK, BitmapOK, GenerationsOK, Truthful, RecordStateOK, SlotsOK, Aligned;
    if a < end {
      NextBlock(a, end, c.eraseBlock);
      InvEraseBlock(c, d, a);
      var (f, r) := Erase(c, d.flash, a);
      if r == 0 {
        InvEraseLoop(c, BitmapMark(c, d.(flash := f), a), a + c.eraseBlock, end);
      }
    }
  }

  lemma InvNoteErase(c: Config, d: Dev, addr: nat)
    requires Inv(c, d)
    ensures var e := NoteErase(d, addr);
      && Inv(c, e) && (e.ram.running ==> d.ram.expected <= addr)
      && e == d.(ram := d.ram.(running := e.ram.running))
  {
    hide Parse, Crc, Update;
  }

  /** An accepted ERASE. */
  lemma InvEraseBody(c: Config, d: Dev, addr: nat, len: nat)
    requires Inv(c, d) && d.ram.session
    requires Aligned(addr, c.eraseBlock) && Aligned(len, c.eraseBlock) && InWindow(c, d.ram.writeSlot, addr, len)
    ensures MutationFrame(c, d, EraseBody(c, d, addr, len).0)
  {
    hide Inv, Load, Erase, MutationBegin, EraseLoop, Aligned, NoteErase, SameOutside, WellFormed;
    InvWellFormed(c, d);
    WindowLayout(c, d, addr, len);
    InvNoteErase(c, d, addr);
    var d0 := NoteErase(d, addr);
    InvWellFormed(c, d0);
    InvMutationBegin(c, d0);
    var (d1, r1) := MutationBegin(c, d0);
    InvWellFormed(c, d1);
    var e := EraseBody(c, d, addr, len).0;
    if r1 == 0 {
      InvEraseLoop(c, d1, addr, addr + len);
      InvWellFormed(c, e);
      DisarmedHoldsNothing(c, e);
    }
    SlotChange(c, d, d1, e, addr, addr + len);
  }

  lemma InvWellFormed(c: Config, d: Dev)
    requires Inv(c, d)
    ensures WellFormed(c, d) && Legal(c) && IsSlot(d.ram.writeSlot)
  {
  }

  lemma DisarmedHoldsNothing(c: Config, d: Dev)
    requires Inv(c, d) && d.ram.disarmed
    ensures Load(c, d.flash.cell, d.ram.writeSlot).None? && d.ram.rec == Invalid
  {
  }

  lemma WindowLayout(c: Config, d: Dev, addr: nat, len: nat)
    requires WellFormed(c, d) && Aligned(addr, c.eraseBlock) && Aligned(len, c.eraseBlock)
    requires InWindow(c, d.ram.writeSlot, addr, len)
    ensures Aligned(addr + len, c.eraseBlock) && Capacity(c, d.ram.writeSlot) != 0
    ensures WriteBase(c, d) <= addr && addr + len <= RecordAddr(c, d.ram.writeSlot)
  {
    AlignedEnd(addr, len, c.eraseBlock);
  }

  /** Changes to a slot's reserve and then to its image area stay in the slot. */
  lemma SlotChange(c: Config, d: Dev, m: Dev, e: Dev, lo: nat, hi: nat)
    requires WellFormed(c, d) && |m.flash.cell| == |e.flash.cell| == c.siliconEnd
    requires WriteBase(c, d) <= lo <= hi <= RecordAddr(c, d.ram.writeSlot)
    requires SameOutside(d.flash.cell, m.flash.cell,
                         RecordAddr(c, d.ram.writeSlot), RecordAddr(c, d.ram.writeSlot) + RECORD_BLOCK)
    requires e.flash.cell == m.flash.cell || SameOutside(m.flash.cell, e.flash.cell, lo, hi)
    ensures SameOutside(d.flash.cell, e.flash.cell, WriteBase(c, d), WriteBase(c, d) + c.slotSize)
  {
    SlotLayout(c, d.ram.writeSlot);
  }

  /** What any ERASE or WRITE leaves alone, and what it leaves true. */
  ghost predicate MutationFrame(c: Config, d: Dev, e: Dev)
    requires WellFormed(c, d)
  {
    && Inv(c, e) && e.ram.session && e.bootRequest == d.bootRequest
    && e.ram.highest == d.ram.highest && e.ram.active == d.ram.active && e.ram.writeSlot == d.ram.writeSlot
    && SameOutside(d.flash.cell, e.flash.cell, WriteBase(c, d), WriteBase(c, d) + c.slotSize)
    && (e.flash.cell == d.flash.cell || Load(c, e.flash.cell, d.ram.writeSlot).None?)
    && (e.ram.rec == Invalid || e.ram == d.ram)
  }

  lemma FrameRefl(c: Config, d: Dev)
    requires Inv(c, d) && d.ram.session
    ensures WellFormed(c, d) && MutationFrame(c, d, d)
  {
    hide Parse, Crc, Update;
  }

  /** The argument checks that let an ERASE through. */
  predicate EraseAccepted(c: Config, d: Dev, addr: nat, len: nat)
    requires WellFormed(c, d)
  {
    Aligned(addr, c.eraseBlock) && Aligned(len, c.eraseBlock) && InWindow(c, d.ram.writeSlot, addr, len)
  }

  /** An ERASE is refused without any effect, or runs on the range of its payload. */
  lemma EraseShape(c: Config, d: Dev, pl: Bytes)
    requires WellFormed(c, d)
    ensures (DoErase(c, d, pl).0 == d && DoErase(c, d, pl).1 != [OK])
      || (|pl| == 8 && EraseAccepted(c, d, LeNat(pl[0..4]), LeNat(pl[4..8]))
          && DoErase(c, d, pl) == EraseBody(c, d, LeNat(pl[0..4]), LeNat(pl[4..8])))
  {
    hide EraseBody, LeNat, InWindow, Aligned;
  }

  lemma InvErase(c: Config, d: Dev, pl: Bytes)
    requires Inv(c, d) && d.ram.session
    ensures MutationFrame(c, d, DoErase(c, d, pl).0)
  {
    FrameRefl(c, d);
    hide EraseBody, DoErase, LeNat, InWindow, Aligned, Inv, MutationFrame;
    EraseShape(c, d, pl);
    if DoErase(c, d, pl).0 != d {
      InvEraseBody(c, d, LeNat(pl[0..4]), LeNat(pl[4..8]));
    }
  }
}
