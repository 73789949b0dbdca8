/** The joint invariant: what RAM may believe about flash that can fail, lose power and read stale. */
module Invariant {
  import opened Bytes
  import opened Crc32
  import opened Geometry
  import opened Flash
  import opened Record
  import opened Decision
  import opened Core

  /** A slot's valid record, if any, carries the CRC of the slot's true leading bytes. */
  ghost predicate TruthfulSlot(c: Config, v: Bytes, slot: nat)
    requires Legal(c) && IsSlot(slot) && |v| == c.siliconEnd
  {
    Load(c, v, slot).Some? ==>
      (LoadIsSound(c, v, slot);
       Crc(Image(c, v, slot, Load(c, v, slot).value.imgLen)) == Load(c, v, slot).value.imgCrc)
  }

  ghost predicate Truthful(c: Config, v: Bytes)
    requires Legal(c) && |v| == c.siliconEnd
  {
    TruthfulSlot(c, v, 0) && TruthfulSlot(c, v, 1)
  }

  /** The running CRC describes the true bytes from the write base to the run's position. */
  ghost predicate StreamOK(c: Config, d: Dev)
    requires WellFormed(c, d)
  {
    var b, x := WriteBase(c, d), d.ram.expected;
    d.ram.session && d.ram.running ==>
      || (x == b && d.ram.crcState == INIT)
      || (Capacity(c, d.ram.writeSlot) != 0 && b <= x <= RecordAddr(c, d.ram.writeSlot)
          && d.ram.crcState == Update(INIT, d.flash.cell[b..x]))
  }

  /** The remembered last chunk still reads back as itself. */
  ghost predicate LastOK(c: Config, d: Dev)
    requires WellFormed(c, d)
  {
    var a, n := d.ram.lastAddr, |d.ram.lastData|;
    d.ram.session && d.ram.running && n > 0 ==>
      WriteBase(c, d) <= a && a + n == d.ram.expected <= |d.flash.cell| && d.flash.cell[a..a + n] == d.ram.lastData
  }

  predicate BlockInImage(c: Config, b: nat)
    requires Legal(c)
  {
    (b + 1) * c.eraseBlock <= ImageMax(c)
  }

  /** Every armed bit stands for a block of the write slot's image area erased since reset. */
  ghost predicate BitmapOK(c: Config, d: Dev)
    requires WellFormed(c, d)
  {
    forall b: nat :: b in d.ram.bitmap ==>
      Capacity(c, d.ram.writeSlot) != 0
      && BlockInImage(c, b)
      && b + WriteBase(c, d) / c.eraseBlock in d.flash.armed
  }

  /** After a commit RAM names exactly the record that flash holds. */
  ghost predicate FreshOK(c: Config, d: Dev)
    requires WellFormed(c, d)
  {
    && d.ram.active.Some?
    && Load(c, d.flash.cell, d.ram.active.value)
       == Some(Record(d.ram.highest, d.ram.committedLen, d.ram.committedCrc))
  }

  ghost predicate RecordStateOK(c: Config, d: Dev)
    requires WellFormed(c, d)
  {
    && (d.ram.rec == FromFlash ==> d.flash.dirty == {} && d.ram.active == Select(c, d.flash.cell))
    && (d.ram.disarmed ==> d.ram.rec == Invalid && Load(c, d.flash.cell, d.ram.writeSlot).None?)
    && (d.ram.rec == Fresh ==> FreshOK(c, d))
  }

  /** The write slot is never the active one, and is B only when A is active. */
  ghost predicate SlotsOK(c: Config, d: Dev)
    requires WellFormed(c, d)
  {
    match d.ram.active
    case None => d.ram.writeSlot == 0
    case Some(k) => k == Other(d.ram.writeSlot) && Load(c, d.flash.cell, k).Some?
  }

  /** RAM's generation floor covers every valid record; only a failed store can have overtaken it. */
  ghost predicate GenerationsOK(c: Config, d: Dev)
    requires WellFormed(c, d)
  {
    && d.ram.highest < U32_LIMIT
    && Generation(c, d.flash.cell, Other(d.ram.writeSlot)) <= d.ram.highest
    && Generation(c, d.flash.cell, d.ram.writeSlot) <= d.ram.highest + 1
  }

  ghost predicate Inv(c: Config, d: Dev) {
    && WellFormed(c, d)
    && Physical(c, d.flash) && d.flash.violations == 0
    && Truthful(c, d.flash.cell)
    && StreamOK(c, d) && LastOK(c, d) && BitmapOK(c, d)
    && RecordStateOK(c, d) && SlotsOK(c, d) && GenerationsOK(c, d)
    && (!d.ram.session ==> d.ram.bitmap == {} && !d.ram.disarmed)
  }

  // ---- entry and session -------------------------------------------------

  /** Reset on truthful flash establishes the invariant. */
  lemma InvPowerUp(c: Config, f: Flash, bootRequest: bool)
    requires Legal(c) && Physical(c, f) && f.violations == 0 && Truthful(c, f.cell)
    ensures Inv(c, PowerUp(c, f, bootRequest))
  {
    hide Parse;
    var v := Xip(c, Reset(f));
    CleanView(c, Reset(f), 0, |f.cell|);
    assert v == f.cell;
    SelectIsArgmax(c, v);
  }

  lemma InvSessionOpen(c: Config, d: Dev)
    requires Inv(c, d)
    ensures Inv(c, SessionOpen(c, d))
  {
    hide Parse;
  }

  lemma InvEnter(c: Config, d: Dev, w: World)
    requires Inv(c, d)
    ensures Inv(c, Enter(d, w))
  {
    hide Parse;
  }

  // ---- frame rules for the true content ----------------------------------

  /** Changing bytes of one slot's image area leaves every record and the other slot's image alone. */
  lemma ImageAreaFrame(c: Config, v: Bytes, w: Bytes, slot: nat, lo: nat, hi: nat)
    requires Legal(c) && IsSlot(slot) && |v| == |w| == c.siliconEnd
    requires SlotBase(c, slot) <= lo <= hi <= RecordAddr(c, slot) && SameOutside(v, w, lo, hi)
    ensures Load(c, v, 0) == Load(c, w, 0) && Load(c, v, 1) == Load(c, w, 1)
    ensures TruthfulSlot(c, v, Other(slot)) <==> TruthfulSlot(c, w, Other(slot))
  {
    hide Parse, Crc;
    LoadCongruent(c, v, w, 0);
    LoadCongruent(c, v, w, 1);
    OtherImageSame(c, v, w, slot);
  }

  lemma OtherImageSame(c: Config, v: Bytes, w: Bytes, slot: nat)
    requires Legal(c) && IsSlot(slot) && |v| == |w| == c.siliconEnd
    requires SameOutside(v, w, SlotBase(c, slot), SlotBase(c, slot) + c.slotSize)
    ensures Load(c, v, Other(slot)) == Load(c, w, Other(slot))
    ensures TruthfulSlot(c, v, Other(slot)) <==> TruthfulSlot(c, w, Other(slot))
  {
    hide Parse, Crc;
    var o := Other(slot);
    LoadCongruent(c, v, w, o);
    if Load(c, v, o).Some? {
      LoadIsSound(c, v, o);
      SameSlice(v, w, SlotBase(c, o), SlotBase(c, o) + Load(c, v, o).value.imgLen);
    }
  }

  /** Changing only a slot's record reserve leaves both images and the other record alone. */
  lemma ReserveFrame(c: Config, v: Bytes, w: Bytes, slot: nat)
    requires Legal(c) && IsSlot(slot) && |v| == |w| == c.siliconEnd
    requires SameOutside(v, w, RecordAddr(c, slot), RecordAddr(c, slot) + RECORD_BLOCK)
    ensures Load(c, v, Other(slot)) == Load(c, w, Other(slot))
    ensures TruthfulSlot(c, v, Other(slot)) <==> TruthfulSlot(c, w, Other(slot))
    ensures Capacity(c, slot) != 0 ==>
      v[SlotBase(c, slot)..RecordAddr(c, slot)] == w[SlotBase(c, slot)..RecordAddr(c, slot)]
  {
    OtherImageSame(c, v, w, slot);
    if Capacity(c, slot) != 0 {
      SameSlice(v, w, SlotBase(c, slot), RecordAddr(c, slot));
    }
  }
}
