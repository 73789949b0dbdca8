/** Why an erase must find the die finished: a record that landed after its write timed out, and a disarm the
    busy die ignores. */
module BusyDie {
  import opened Bytes
  import opened Crc32
  import opened Geometry
  import opened Flash
  import opened Record
  import opened Decision
  import opened Core
  import opened Invariant
  import opened Preservation
  import opened WritePath
  import opened CommitPath
  import opened Theorems
  import opened Repetition
  import opened Link
  import opened UpdateFlow
  import opened FlashPlan
  import opened Completeness
  import opened Stranding

  /** An erase that succeeds, then a write that lands whole but is reported failed: its polling ran out. */
  predicate LateWrite(plan: seq<Outcome>) {
    && |plan| >= 2 && plan[0].landed > 0 && plan[0].code == 0
    && plan[1].landed >= 8 && plan[1].code != 0
  }

  /** The disarm while the die is still busy: its erase is ignored, the wait finds the earlier write over and the
      driver reports success. RAM goes where the engine takes it on success; flash stays as it was. */
  function IgnoredBegin(c: Config, d: Dev): Dev
    requires WellFormed(c, d)
  {
    MutationBegin(c, d.(flash := d.flash.(plan := [Outcome(1, 0)]))).0.(flash := d.flash)
  }

  lemma IgnoredFacts(c: Config, d: Dev)
    requires WellFormed(c, d)
    ensures var e := IgnoredBegin(c, d);
      WellFormed(c, e) && e.flash == d.flash && e.ram.disarmed && e.ram.writeSlot == d.ram.writeSlot
  {
    hide EraseCells, EraseProg, Legal;
  }

  /** An ERASE of one block whose disarm was ignored; the die has finished when the block's own erase comes. */
  function BusyErase(c: Config, d: Dev, addr: nat): (Dev, Byte)
    requires WellFormed(c, d)
  {
    EraseLoop(c, IgnoredBegin(c, NoteErase(d, addr)), addr, addr + c.eraseBlock)
  }

  /** The record is in place although the store failed. */
  lemma LateStore(c: Config, d: Dev, r: Record)
    requires Inv(c, d) && Capacity(c, d.ram.writeSlot) != 0 && Sound(r, ImageMax(c)) && LateWrite(d.flash.plan)
    ensures WellFormed(c, d)
    ensures var (f, code) := RecordStore(c, d.flash, d.ram.writeSlot, r);
      code == 1 && |f.cell| == c.siliconEnd && Load(c, f.cell, d.ram.writeSlot) == Some(r)
  {
    hide Inv, Parse, Load, Erase, Write, Encode, Torn, Program, Touched;
    InvWellFormed(c, d);
    SlotLayout(c, d.ram.writeSlot);
    CapacityMeaning(c, d.ram.writeSlot);
    var w, a := d.ram.writeSlot, RecordAddr(c, d.ram.writeSlot);
    RecordErase(c, d);
    ErasedFirst(c, d.flash, a);
    var f := Erase(c, d.flash, a).0;
    RecordIsOneBlock(c, w);
    hide Legal;
    LandsLate(c, f, a, Encode(r));
    StoredWhole(c, f, w, r);
    LoadsEncoded(c, Write(c, f, a, Encode(r)).0.cell, w, r);
  }

  lemma ErasedFirst(c: Config, f: Flash, a: nat)
    requires EraseAllowed(c, f, a) && LateWrite(f.plan)
    ensures Erase(c, f, a).1 == 0 && Erase(c, f, a).0.plan == f.plan[1..]
  {
    hide EraseCells, EraseProg;
  }

  lemma LandsLate(c: Config, f: Flash, a: nat, data: Bytes)
    requires WriteAllowed(c, f, a, |data|) && |data| == RECORD_SIZE
    requires |f.plan| > 0 && f.plan[0].landed >= 8 && f.plan[0].code != 0
    ensures Write(c, f, a, data).1 != 0 && Write(c, f, a, data).0.cell == Program(f.cell, f.prog, a, data, RECORD_SIZE)
  {
    hide Program, Touched;
  }

  lemma LoadsEncoded(c: Config, v: Bytes, slot: nat, r: Record)
    requires Legal(c) && IsSlot(slot) && |v| == c.siliconEnd && Capacity(c, slot) != 0 && Sound(r, ImageMax(c))
    requires RecordAddr(c, slot) + RECORD_SIZE <= |v|
    requires v[RecordAddr(c, slot)..RecordAddr(c, slot) + RECORD_SIZE] == Encode(r)
    ensures Load(c, v, slot) == Some(r)
  {
    hide Parse, Encode;
    ParseEncode(r, Capacity(c, slot));
  }

  /** A session whose write slot holds a truthful record over a four-byte image, the slot not disarmed. */
  ghost predicate LateRecord(c: Config, d: Dev, image: Bytes) {
    && Inv(c, d) && WellFormed(c, d) && d.ram.session && !d.ram.disarmed && |image| == 4
    && Load(c, d.flash.cell, d.ram.writeSlot) == Some(NextRecord(d, 4, Crc(image)))
  }

  /** COMMIT is answered with a flash error, and its record is there. */
  lemma LateCommit(c: Config, d: Dev, image: Bytes, end: nat, w: World)
    requires Ready(c, d, image, 4, end) && WellFormed(c, d) && |image| == 4 && LateWrite(w.plan)
    requires d.ram.highest + 1 < GENERATION_CEILING
    ensures var s := Once(c, d, w, CMD_COMMIT, CommitPayload(4, Crc(image)));
      s.payload == Err(E_FLASH, 1) && LateRecord(c, s.dev, image) && s.dev.ram.writeSlot == d.ram.writeSlot
  {
    hide Inv, Once, DoCommit, StoreRecord, Ready, Crc, LeNat, LeWord, CommitPayload, CommitStores, WellFormed, Load;
    ReadyFacts(c, d, image, 4, end);
    ReadyEnter(c, d, image, 4, end, w);
    EnterFacts(c, d, w);
    var pl := CommitPayload(4, Crc(image));
    CommitPayloadFields(4, Crc(image));
    InSession(c, d, w, pl);
    var g := Enter(d, w);
    LateAttested(c, g, image, end);
    HighestBound(c, g);
    CommitShape(c, g, pl);
    LateStored(c, g, image);
  }

  lemma LateAttested(c: Config, d: Dev, image: Bytes, end: nat)
    requires Ready(c, d, image, 4, end) && |image| == 4 && d.ram.highest + 1 < GENERATION_CEILING
    ensures WellFormed(c, d) && CommitStores(c, d, 4, Crc(image)) && Capacity(c, d.ram.writeSlot) != 0
  {
    hide Inv, Crc;
    ImageAttested(c, d, image, end);
  }

  lemma LateStored(c: Config, d: Dev, image: Bytes)
    requires Inv(c, d) && WellFormed(c, d) && d.ram.session && |image| == 4 && CommitStores(c, d, 4, Crc(image))
    requires LateWrite(d.flash.plan)
    ensures var (e, p) := StoreRecord(c, d, NextRecord(d, 4, Crc(image)));
      p == Err(E_FLASH, 1) && LateRecord(c, e, image) && e.ram.writeSlot == d.ram.writeSlot
  {
    hide Inv, Crc, RecordStore, Load, Attestation, Image, LateWrite;
    LateStore(c, d, NextRecord(d, 4, Crc(image)));
    InvCommitStores(c, d, 4, Crc(image));
    InvWellFormed(c, StoreRecord(c, d, NextRecord(d, 4, Crc(image))).0);
  }

  lemma OneBlockLoop(c: Config, d: Dev, a: nat)
    requires c.eraseBlock > 0 && Erase(c, d.flash, a).1 == 0
    ensures EraseLoop(c, d, a, a + c.eraseBlock) == (BitmapMark(c, d.(flash := Erase(c, d.flash, a).0), a), 0)
  {
    hide Erase, BitmapMark;
  }

  /** A record over an image of which the first word is then erased. */
  lemma RecordOutlivesImage(c: Config, v: Bytes, w: Bytes, slot: nat, r: Record, image: Bytes)
    requires Legal(c) && IsSlot(slot) && |v| == |w| == c.siliconEnd && Load(c, v, slot) == Some(r)
    requires r.imgLen == |image| == 4 && r.imgCrc == Crc(image) && image != ERASED_WORD
    requires SameOutside(v, w, SlotBase(c, slot), SlotBase(c, slot) + c.eraseBlock)
    requires SlotBase(c, slot) + 4 <= |w| && w[SlotBase(c, slot)..SlotBase(c, slot) + 4] == ERASED_WORD
    ensures Load(c, w, slot) == Some(r) && !Truthful(c, w)
  {
    hide Load, Crc;
    OneBlockFits(c);
    SlotLayout(c, slot);
    LoadCongruent(c, v, w, slot);
    BurstDetected([], ERASED_WORD, image, []);
    assert [] + ERASED_WORD + [] == ERASED_WORD && [] + image + [] == image;
    assert !TruthfulSlot(c, w, slot);
  }

  lemma LateFacts(c: Config, d: Dev, image: Bytes)
    requires LateRecord(c, d, image)
    ensures WellFormed(c, d) && SlotBase(c, d.ram.writeSlot) + c.slotSize <= c.siliconEnd && d.flash.violations == 0
    ensures c.appStart <= WriteBase(c, d) && WriteBase(c, d) % c.eraseBlock == 0 && WriteBase(c, d) % 4 == 0
    ensures 4 <= c.eraseBlock <= c.slotSize
  {
    hide Load;
    OneBlockFits(c);
    SlotLayout(c, d.ram.writeSlot);
    LoadIsSound(c, d.flash.cell, d.ram.writeSlot);
  }

  /** The ERASE that follows reports success and leaves the record valid over bytes it does not describe. */
  lemma BusyEraseLies(c: Config, d: Dev, image: Bytes, w: World)
    requires LateRecord(c, d, image) && image != ERASED_WORD && AllGood(w.plan, 1)
    ensures var (e, code) := BusyErase(c, Enter(d, w), WriteBase(c, d));
      && code == 0 && WellFormed(c, e) && e.ram.disarmed
      && Load(c, e.flash.cell, d.ram.writeSlot) == Some(NextRecord(d, 4, Crc(image)))
      && !Truthful(c, e.flash.cell)
  {
    hide Inv, Load, Crc, Erase, EraseLoop, Truthful, Legal, SlotBase, IgnoredBegin;
    LateFacts(c, d, image);
    var b := WriteBase(c, d);
    var g := IgnoredBegin(c, NoteErase(Enter(d, w), b));
    IgnoredFacts(c, NoteErase(Enter(d, w), b));
    GoodErase(c, g.flash, b, 1);
    OneBlockLoop(c, g, b);
    BlockErased(c, g.flash, b);
    RecordOutlivesImage(c, d.flash.cell, Erase(c, g.flash, b).0.cell, d.ram.writeSlot, NextRecord(d, 4, Crc(image)), image);
  }

  lemma BlockErased(c: Config, f: Flash, a: nat)
    requires EraseAllowed(c, f, a) && a % 4 == 0 && c.eraseBlock >= 4 && Erase(c, f, a).1 == 0
    ensures var g := Erase(c, f, a).0;
      && |g.cell| == |f.cell| == |g.prog| && g.cell[a..a + 4] == ERASED_WORD
      && SameOutside(f.cell, g.cell, a, a + c.eraseBlock)
  {
    hide ErasedByte, EraseProg;
    ErasedPeriod(a, 0); ErasedPeriod(a, 1); ErasedPeriod(a, 2); ErasedPeriod(a, 3);
    ErasedWordBytes();
    var g := Erase(c, f, a).0;
    assert g.cell[a..a + 4] == [ErasedByte(0), ErasedByte(1), ErasedByte(2), ErasedByte(3)];
  }

  /** From every reachable state: write any four bytes, let the record's write time out although it lands, and
      repeat the ERASE before the die has finished. The answer is success, and a valid record vouches for an
      image that is gone. */
  lemma BusyDieBreaksTruth(c: Config, d: Dev, image: Bytes, ws: Weather, wc: World, we: World)
    requires Inv(c, d) && Updatable(c, d, image) && Fair(c, ws) && |image| == 4 && image != ERASED_WORD
    requires LateWrite(wc.plan) && AllGood(we.plan, 1)
    ensures var x := Written(c, d, image, ws);
      var k := Once(c, x.0, wc, CMD_COMMIT, CommitPayload(4, Crc(image)));
      && x.1 && k.payload == Err(E_FLASH, 1) && Inv(c, k.dev) && WellFormed(c, k.dev)
      && var (e, code) := BusyErase(c, Enter(k.dev, we), WriteBase(c, k.dev));
      && code == 0 && WellFormed(c, e) && Load(c, e.flash.cell, d.ram.writeSlot).Some? && !Truthful(c, e.flash.cell)
  {
    hide Inv, Once, Written, CommitPayload, Crc, BusyErase, Truthful, Load, Fair, AllGood, LateWrite, Ready, Legal, SlotBase,
         RoundUp, Writing;
    ImageWritten(c, d, image, ws);
    var x := Written(c, d, image, ws).0;
    var end := SlotBase(c, d.ram.writeSlot) + RoundUp(4, c.eraseBlock);
    ReadyFacts(c, x, image, 4, end);
    LateCommit(c, x, image, end, wc);
    var k := Once(c, x, wc, CMD_COMMIT, CommitPayload(4, Crc(image))).dev;
    BusyEraseLies(c, k, image, we);
  }
}
