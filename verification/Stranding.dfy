/** How a part that could boot loses its last application: one blank commit, then one more mutation. */
module Stranding {
  import opened Bytes
  import opened Crc32
  import opened Geometry
  import opened Flash
  import opened Record
  import opened Decision
  import opened Core
  import opened Invariant
  import opened Preservation
  import opened WritePath
  import opened CommitPath
  import opened Frames
  import opened Theorems
  import opened Idempotence
  import opened Repetition
  import opened Link
  import opened UpdateFlow
  import opened FlashPlan
  import opened Completeness
  import opened Lifecycle
  import F = Factory

  // ---- an answered mutation ----------------------------------------------

  /** With the write slot disarmed there is something to launch exactly when the active image is not blank. */
  lemma DisarmedLaunches(c: Config, d: Dev, e: Dev)
    requires Inv(c, d) && WellFormed(c, d) && MutationFrame(c, d, e) && e.ram.disarmed && d.ram.active.Some?
    ensures WellFormed(c, e) && (Select(c, e.flash.cell).Some? <==> !BlankActive(c, d))
  {
    FrameInv(c, d, e);
    FrameRelevant(c, e);
    DisarmedHoldsNothing(c, e);
    hide Inv, Load, BlankActive, Select, ImageValid;
    ActiveIsOther(c, d);
    ActiveBootableUnlessBlank(c, d);
    BootableCongruent(c, d.flash.cell, e.flash.cell, d.ram.active.value);
    SelectIsArgmax(c, e.flash.cell);
  }

  lemma ErasedDisarms(c: Config, d: Dev, pl: Bytes)
    requires Inv(c, d) && WellFormed(c, d) && d.ram.session && DoErase(c, d, pl).1[0] == OK
    ensures DoErase(c, d, pl).0.ram.disarmed
  {
    hide Inv, LeNat, DoErase, EraseBody, EraseAccepted, ErasedRange;
    EraseShape(c, d, pl);
    EraseAnswers(c, d, pl);
    EraseLeaves(c, d, LeNat(pl[0..4]), LeNat(pl[4..8]));
  }

  lemma WrittenDisarms(c: Config, d: Dev, pl: Bytes)
    requires Inv(c, d) && WellFormed(c, d) && d.ram.session && DoWrite(c, d, pl).1[0] == OK
    ensures DoWrite(c, d, pl).0.ram.disarmed
  {
    hide Inv, LeNat, DoWrite, WriteBody, WriteAccepted, Touched, WriteAllowed, Classify;
    WriteShape(c, d, pl);
    WriteAnswers(c, d, pl);
    WriteLeaves(c, d, LeNat(pl[0..4]), pl[4..]);
  }

  /** After an ERASE or a WRITE answered OK the reset finds something to launch exactly when the active slot's
      image did not begin with the erased pattern. */
  lemma AnsweredMutationLaunches(c: Config, d: Dev, w: World, cmd: Byte, pl: Bytes)
    requires Inv(c, d) && d.ram.session && d.ram.active.Some? && (cmd == CMD_ERASE || cmd == CMD_WRITE)
    requires Once(c, d, w, cmd, pl).payload[0] == OK
    ensures WellFormed(c, d)
    ensures Select(c, Once(c, d, w, cmd, pl).dev.flash.cell).Some? <==> !BlankActive(c, d)
  {
    hide Inv, Once, DoErase, DoWrite, MutationFrame, Select, WellFormed;
    FrameRelevant(c, d);
    EnterFacts(c, d, w);
    InSession(c, d, w, pl);
    var g := Enter(d, w);
    SameBlank(c, d, g);
    if cmd == CMD_ERASE {
      ErasedDisarms(c, g, pl);
      InvErase(c, g, pl);
      DisarmedLaunches(c, g, DoErase(c, g, pl).0);
    } else {
      WrittenDisarms(c, g, pl);
      InvWrite(c, g, pl);
      DisarmedLaunches(c, g, DoWrite(c, g, pl).0);
    }
  }

  lemma SameBlank(c: Config, d: Dev, e: Dev)
    requires WellFormed(c, d) && WellFormed(c, e) && e.ram == d.ram && e.flash.cell == d.flash.cell
    ensures BlankActive(c, d) == BlankActive(c, e)
  {
  }

  // ---- two commands that strand a part -----------------------------------

  function BlankPayload(): Bytes { CommitPayload(4, Crc(ERASED_WORD)) }

  /** Freshly reset, with something to launch and an erased first word in the slot offered for writing. */
  ghost predicate Fresh(c: Config, d: Dev) {
    && Inv(c, d) && WellFormed(c, d) && Launchable(c, d) && d.ram.rec == FromFlash
    && Capacity(c, 0) != 0 && Capacity(c, 1) != 0
    && SlotBase(c, d.ram.writeSlot) + 4 <= |d.flash.cell| && FirstWordErased(c, d.flash.cell, d.ram.writeSlot)
    && d.ram.highest + 1 < GENERATION_CEILING
  }

  lemma HelloStaysFresh(c: Config, d: Dev, w: World)
    requires Fresh(c, d)
    ensures var h := Once(c, d, w, CMD_HELLO, HELLO_REQUEST); Fresh(c, h.dev) && h.dev.ram.session && h.payload[0] == OK
  {
    hide Inv, HelloPayload, Select, Legal, Capacity, SlotBase;
    HelloOnce(c, d, w);
    HelloBegins(c, Once(c, d, w, CMD_HELLO, HELLO_REQUEST).dev);
  }

  lemma BlankAttested(c: Config, d: Dev)
    requires Fresh(c, d) && d.ram.session
    ensures CommitStores(c, d, 4, Crc(ERASED_WORD)) && Sound(NextRecord(d, 4, Crc(ERASED_WORD)), ImageMax(c))
  {
    hide Inv, Crc, Select, View;
    SlotLayout(c, d.ram.writeSlot);
    CapacityMeaning(c, d.ram.writeSlot);
    CleanDevice(c, d);
  }

  /** The blank COMMIT is answered OK, its slot becomes active, and the old one still launches. */
  lemma BlankCommitted(c: Config, d: Dev)
    requires Fresh(c, d) && d.ram.session && AllGood(d.flash.plan, 2)
    ensures var (e, p) := StoreRecord(c, d, NextRecord(d, 4, Crc(ERASED_WORD)));
      && p == [OK] && Inv(c, e) && WellFormed(c, e) && e.ram.session && BlankActive(c, e) && Launchable(c, e)
      && e.ram.writeSlot == Other(d.ram.writeSlot)
  {
    hide Inv, Crc, StoreRecord, Load, ImageValid, AllGood, CommitStores, Sound, Legal, Image;
    var w := d.ram.writeSlot;
    BlankAttested(c, d);
    StoreSucceeds(c, d, NextRecord(d, 4, Crc(ERASED_WORD)));
    StoreAnswers(c, d, NextRecord(d, 4, Crc(ERASED_WORD)));
    InvCommitStores(c, d, 4, Crc(ERASED_WORD));
    var e := StoreRecord(c, d, NextRecord(d, 4, Crc(ERASED_WORD))).0;
    FrameRelevant(c, e);
    ReserveApart(c, d.flash.cell, e.flash.cell, w);
    BootableCongruent(c, d.flash.cell, e.flash.cell, Other(w));
    BlankNeverBoots(c, d.flash.cell, w);
    hide Bootable;
    SelectIsArgmax(c, d.flash.cell);
    SelectIsArgmax(c, e.flash.cell);
  }

  lemma StoreAnswers(c: Config, d: Dev, r: Record)
    requires WellFormed(c, d) && r.generation < U32_LIMIT && r.imgLen < U32_LIMIT
    requires RecordStore(c, d.flash, d.ram.writeSlot, r).1 == 0
    ensures StoreRecord(c, d, r).1 == [OK]
  {
    hide RecordStore;
  }

  lemma BlankNeverBoots(c: Config, v: Bytes, slot: nat)
    requires Legal(c) && IsSlot(slot) && |v| == c.siliconEnd
    requires SlotBase(c, slot) + 4 <= |v| && FirstWordErased(c, v, slot)
    ensures !Bootable(c, v, slot)
  {
    hide Load;
  }

  /** A change in one slot's record reserve leaves its first word and the whole other slot. */
  lemma ReserveApart(c: Config, v: Bytes, w: Bytes, slot: nat)
    requires Legal(c) && IsSlot(slot) && |v| == |w| == c.siliconEnd && SlotBase(c, slot) + 4 <= |v|
    requires SameOutside(v, w, RecordAddr(c, slot), RecordAddr(c, slot) + RECORD_BLOCK)
    ensures FirstWordErased(c, v, slot) == FirstWordErased(c, w, slot)
    ensures SameInside(v, w, SlotBase(c, Other(slot)), SlotBase(c, Other(slot)) + c.slotSize)
  {
    SlotLayout(c, slot);
    OneBlockFits(c);
    hide Legal;
    SameSlice(v, w, SlotBase(c, slot), SlotBase(c, slot) + 4);
  }

  lemma BlankCommitStep(c: Config, d: Dev, w: World)
    requires Fresh(c, d) && d.ram.session && AllGood(w.plan, 2)
    ensures var k := Once(c, d, w, CMD_COMMIT, BlankPayload());
      && k.payload == [OK] && Inv(c, k.dev) && WellFormed(c, k.dev) && k.dev.ram.session
      && BlankActive(c, k.dev) && Launchable(c, k.dev) && k.dev.ram.writeSlot == Other(d.ram.writeSlot)
  {
    hide Inv, Once, DoCommit, StoreRecord, CommitStores, Crc, LeNat, LeWord, CommitPayload, BlankActive, Select, AllGood;
    var pl := BlankPayload();
    EnterFacts(c, d, w);
    CommitPayloadFields(4, Crc(ERASED_WORD));
    InSession(c, d, w, pl);
    var g := Enter(d, w);
    HighestBound(c, g);
    CommitShape(c, g, pl);
    BlankAttested(c, g);
    BlankCommitted(c, g);
  }

  lemma FirstBlockErasable(c: Config, d: Dev)
    requires WellFormed(c, d) && Capacity(c, d.ram.writeSlot) != 0
    ensures EraseAccepted(c, d, WriteBase(c, d), c.eraseBlock)
  {
    hide EraseAccepted, SlotBase, Capacity;
    OneBlockFits(c);
    WindowPart(c, d, 0, c.eraseBlock);
  }

  lemma BlockErases(c: Config, d: Dev, pl: Bytes)
    requires Inv(c, d) && WellFormed(c, d) && d.ram.session && AllGood(d.flash.plan, 2) && c.eraseBlock > 0
    requires Capacity(c, d.ram.writeSlot) != 0 && CarriesRange(pl, WriteBase(c, d), c.eraseBlock)
    ensures DoErase(c, d, pl).1 == [OK]
  {
    hide Inv, DoErase, EraseBody, EraseAccepted, AllGood, SlotBase, LeNat, Capacity, Legal;
    FirstBlockErasable(c, d);
    EraseSucceeds(c, d, WriteBase(c, d), c.eraseBlock, 1);
    AcceptedErases(c, d, pl);
  }

  lemma EraseStep(c: Config, d: Dev, w: World, pl: Bytes)
    requires Inv(c, d) && WellFormed(c, d) && d.ram.session && AllGood(w.plan, 2) && c.eraseBlock > 0
    requires Capacity(c, d.ram.writeSlot) != 0 && CarriesRange(pl, WriteBase(c, d), c.eraseBlock)
    ensures Once(c, d, w, CMD_ERASE, pl).payload == [OK]
  {
    hide Inv, Once, DoErase, AllGood, SlotBase, LeNat, Capacity, Legal;
    EnterFacts(c, d, w);
    InSession(c, d, w, pl);
    BlockErases(c, Enter(d, w), pl);
  }

  lemma OneBlockFits(c: Config)
    requires Legal(c)
    ensures c.eraseBlock <= ImageMax(c) && Aligned(c.eraseBlock, c.eraseBlock) && Aligned(0, c.eraseBlock)
  {
    SlotLayout(c, 0);
    AlignedIsProduct(ImageMax(c), c.eraseBlock);
    var q := ImageMax(c) / c.eraseBlock;
    assert q >= 1;
    MulMonotone(1, q, c.eraseBlock);
  }

  /** Two commands strand it: after HELLO, a COMMIT of the four erased bytes in the slot offered is answered OK
      and the old application still launches; one ERASE then is answered OK, and nothing can be launched. */
  lemma TwoCommandsStrand(c: Config, d: Dev, wh: World, wc: World, we: World)
    requires Fresh(c, d) && AllGood(wc.plan, 2) && AllGood(we.plan, 2)
    ensures var h := Once(c, d, wh, CMD_HELLO, HELLO_REQUEST);
      var k := Once(c, h.dev, wc, CMD_COMMIT, BlankPayload());
      && h.payload[0] == OK && k.payload == [OK] && Launchable(c, k.dev)
      && WriteBase(c, k.dev) < U32_LIMIT && c.eraseBlock < U32_LIMIT
      && var e := Once(c, k.dev, we, CMD_ERASE, ErasePayload(WriteBase(c, k.dev), c.eraseBlock));
      e.payload == [OK] && Select(c, e.dev.flash.cell) == None
  {
    hide Inv, Once, Fresh, BlankActive, Select, AllGood, ErasePayload, BlankPayload, SlotBase;
    FreshFacts(c, d);
    HelloStaysFresh(c, d, wh);
    var h := Once(c, d, wh, CMD_HELLO, HELLO_REQUEST).dev;
    FreshFacts(c, h);
    BlankCommitStep(c, h, wc);
    var k := Once(c, h, wc, CMD_COMMIT, BlankPayload()).dev;
    BaseFits(c, k);
    RangeCarried(WriteBase(c, k), c.eraseBlock);
    var pl := ErasePayload(WriteBase(c, k), c.eraseBlock);
    EraseStep(c, k, we, pl);
    AnsweredMutationLaunches(c, k, we, CMD_ERASE, pl);
  }

  lemma FreshFacts(c: Config, d: Dev)
    requires Fresh(c, d)
    ensures Inv(c, d) && WellFormed(c, d) && IsSlot(d.ram.writeSlot) && Capacity(c, 0) != 0 && Capacity(c, 1) != 0
  {
    hide Inv, Select;
  }

  lemma BaseFits(c: Config, d: Dev)
    requires WellFormed(c, d)
    ensures WriteBase(c, d) < U32_LIMIT && 0 < c.eraseBlock < U32_LIMIT
  {
    SlotLayout(c, d.ram.writeSlot);
    OneBlockFits(c);
  }

  // ---- from the factory --------------------------------------------------

  lemma FactoryIsFresh(c: Config, openboot: Bytes, app: Bytes, appMax: Option<nat>)
    requires Legal(c) && Capacity(c, 0) != 0 && Capacity(c, 1) != 0 && FactoryBytes(c, openboot, app, appMax).Some?
    requires F.Padded(app)[..4] != ERASED_WORD
    ensures Fresh(c, PowerUp(c, FactoryFlash(c, FactoryBytes(c, openboot, app, appMax).value), false))
  {
    hide Parse, Crc, Update, F.Padded, F.Programmed, F.ComposeFactory, F.BootRecord, Load, Truthful, Inv, Physical, Carried, Image;
    FactoryStarts(c, openboot, app, appMax);
    F.FactoryEnds(c, openboot, app, appMax);
    var bytes := FactoryBytes(c, openboot, app, appMax).value;
    var d := PowerUp(c, FactoryFlash(c, bytes), false);
    PowerUpFlash(c, FactoryFlash(c, bytes));
    ErasedSlotStart(c, bytes);
    ResetKeepsBootable(c, d);
    StartsFromFlash(c, FactoryFlash(c, bytes));
  }

  lemma StartsFromFlash(c: Config, f: Flash)
    requires Legal(c) && |f.cell| == |f.prog| == c.siliconEnd
    ensures PowerUp(c, f, false).ram.rec == FromFlash
  {
    hide Select, Highest;
  }

  lemma ErasedSlotStart(c: Config, bytes: Bytes)
    requires Legal(c) && Capacity(c, 1) != 0 && |bytes| <= SlotBase(c, 1)
    ensures SlotBase(c, 1) + 4 <= c.siliconEnd && FirstWordErased(c, F.Programmed(c, bytes), 1)
  {
    SlotLayout(c, 1);
    CapacityMeaning(c, 1);
    var b, v := SlotBase(c, 1), F.Programmed(c, bytes);
    hide ErasedByte;
    ErasedPeriod(b, 0); ErasedPeriod(b, 1); ErasedPeriod(b, 2); ErasedPeriod(b, 3);
    ErasedWordBytes();
    assert v[b..b + 4] == [ErasedByte(0), ErasedByte(1), ErasedByte(2), ErasedByte(3)];
  }

  lemma ErasedWordBytes()
    ensures [ErasedByte(0), ErasedByte(1), ErasedByte(2), ErasedByte(3)] == ERASED_WORD
  {
  }

  /** So a part straight from the factory can be left with nothing to launch. */
  lemma FactoryStranded(c: Config, openboot: Bytes, app: Bytes, appMax: Option<nat>, wh: World, wc: World, we: World)
    requires Legal(c) && Capacity(c, 0) != 0 && Capacity(c, 1) != 0 && FactoryBytes(c, openboot, app, appMax).Some?
    requires F.Padded(app)[..4] != ERASED_WORD && AllGood(wc.plan, 2) && AllGood(we.plan, 2)
    ensures var d := PowerUp(c, FactoryFlash(c, FactoryBytes(c, openboot, app, appMax).value), false);
      && Inv(c, d) && WellFormed(c, d) && Launchable(c, d)
      && var h := Once(c, d, wh, CMD_HELLO, HELLO_REQUEST).dev;
      var k := Once(c, h, wc, CMD_COMMIT, BlankPayload());
      && k.payload == [OK] && Launchable(c, k.dev) && WriteBase(c, k.dev) < U32_LIMIT && c.eraseBlock < U32_LIMIT
      && var e := Once(c, k.dev, we, CMD_ERASE, ErasePayload(WriteBase(c, k.dev), c.eraseBlock));
      e.payload == [OK] && Select(c, e.dev.flash.cell) == None
  {
    hide Inv, Once, Select, AllGood, ErasePayload, BlankPayload, SlotBase, PowerUp, FactoryBytes, FactoryFlash, Capacity, F.Padded;
    FactoryIsFresh(c, openboot, app, appMax);
    TwoCommandsStrand(c, PowerUp(c, FactoryFlash(c, FactoryBytes(c, openboot, app, appMax).value), false), wh, wc, we);
  }
}
