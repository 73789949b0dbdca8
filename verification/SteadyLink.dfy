/** A link that delivers and a device on which nothing fails, for as long as a flow needs: what each command of the
    flow is then answered. */
module SteadyLink {
  import opened Bytes
  import opened Crc32
  import opened Geometry
  import opened Flash
  import opened Record
  import opened Decision
  import opened Core
  import opened Invariant
  import opened Preservation
  import opened CommitPath
  import opened Frames
  import opened HostProto
  import opened Link
  import opened UpdateFlow
  import opened FlashPlan
  import opened Completeness
  import Protocol

  ghost predicate Passes(c: Config, script: seq<Act>, i: nat)
    requires 2 * i + 1 < |script|
  {
    script[2 * i].Deliver? && Healthy(c, script[2 * i].world) && script[2 * i + 1].Arrive?
  }

  /** The next `n` requests are delivered, meet healthy operations, and their answers arrive. */
  ghost predicate Steady(c: Config, script: seq<Act>, n: nat) {
    |script| >= 2 * n && forall i: nat :: i < n ==> Passes(c, script, i)
  }

  lemma SteadyStep(c: Config, script: seq<Act>, n: nat, m: nat)
    requires Steady(c, script, n) && m < n
    ensures Clear(script) && Healthy(c, script[0].world) && Steady(c, script[2..], m)
  {
    hide Healthy;
    assert Passes(c, script, 0);
    var rest := script[2..];
    forall i: nat | i < m
      ensures Passes(c, rest, i)
    {
      assert Passes(c, script, i + 1);
      assert rest[2 * i] == script[2 * (i + 1)] && rest[2 * i + 1] == script[2 * (i + 1) + 1];
    }
  }

  lemma SteadyLess(c: Config, script: seq<Act>, n: nat, m: nat)
    requires Steady(c, script, n) && m <= n
    ensures Steady(c, script, m)
  {
    hide Passes;
  }

  lemma RanOnce(c: Config, d: Dev, w: World, cmd: Byte, pl: Bytes)
    requires Inv(c, d) && cmd != CMD_BOOT
    ensures Replay(c, d, [Ran(w)], cmd, pl) == Once(c, d, w, cmd, pl).dev
  {
    hide Inv, DoHello, DoErase, DoWrite, DoCrc, DoCommit, Restarted;
    assert [Ran(w)][..0] == [];
    assert Replay(c, d, [], cmd, pl) == d;
  }

  // ---- HELLO -------------------------------------------------------------

  /** After HELLO the erase loop can begin. */
  lemma HelloSteady(c: Config, d: Dev, w: World, image: Bytes)
    requires Inv(c, d)
    ensures WellFormed(c, d)
    ensures var s := Once(c, d, w, CMD_HELLO, HELLO_REQUEST); var u := Transfer(d.ram.writeSlot, d.flash.cell, image);
      && s.payload[0] == OK && ParseInfo(s.payload) == Some(OwnInfo(c, d))
      && s.dev.ram.highest == d.ram.highest && s.dev.ram.writeSlot == d.ram.writeSlot && c.eraseBlock > 0
      && Erased(c, u, d.ram.highest, SlotBase(c, u.slot), s.dev)
  {
    hide Inv, WellFormed, HelloPayload, OwnInfo, Legal, Clearing, Opened, Erasing;
    InvWellFormed(c, d);
    FrameRelevant(c, d);
    HelloOnce(c, d, w);
    var h := Once(c, d, w, CMD_HELLO, HELLO_REQUEST).dev;
    var u := Transfer(d.ram.writeSlot, d.flash.cell, image);
    HelloOpens(c, u, h);
    HelloBegins(c, h);
    HelloAlwaysAccepted(c, h);
    SameInfo(c, d, h);
    NothingErased(c, u, h);
    assert SlotBase(c, u.slot) + 0 == SlotBase(c, u.slot);
  }

  lemma SameInfo(c: Config, d: Dev, h: Dev)
    requires WellFormed(c, d) && WellFormed(c, h) && h.ram.active == d.ram.active && h.ram.writeSlot == d.ram.writeSlot
    ensures OwnInfo(c, h) == OwnInfo(c, d)
  {
  }

  // ---- after COMMIT ------------------------------------------------------

  /** In session, with the record just stored. */
  predicate Leaving(d: Dev) { d.ram.session && d.ram.rec == Fresh }

  lemma CommitLeaves(c: Config, u: Transfer, d: Dev, w: World, end: nat)
    requires Ready(c, d, u.image, |u.image|, end) && Inv(c, d) && 0 < |u.image| < U32_LIMIT && AllGood(w.plan, 2)
    requires d.ram.highest + 1 < GENERATION_CEILING
    ensures Leaving(Once(c, d, w, CMD_COMMIT, CommitPayload(|u.image|, Crc(u.image))).dev)
  {
    hide Inv, Once, DoCommit, StoreRecord, Ready, AllGood, CommitStores, Crc, LeNat, LeWord, CommitPayload, WellFormed;
    ReadyFacts(c, d, u.image, |u.image|, end);
    ReadyEnter(c, d, u.image, |u.image|, end, w);
    EnterFacts(c, d, w);
    var pl := CommitPayload(|u.image|, Crc(u.image));
    CommitPayloadFields(|u.image|, Crc(u.image));
    InSession(c, d, w, pl);
    var g := Enter(d, w);
    CommitSucceeds(c, g, u.image, end);
    HighestBound(c, g);
    CommitShape(c, g, pl);
    StoredLeaves(c, g, NextRecord(g, |u.image|, Crc(u.image)));
  }

  lemma StoredLeaves(c: Config, d: Dev, r: Record)
    requires WellFormed(c, d) && d.ram.session && r.generation < U32_LIMIT && r.imgLen < U32_LIMIT
    ensures StoreRecord(c, d, r).1 == [OK] ==> Leaving(StoreRecord(c, d, r).0)
  {
    hide RecordStore;
  }

  /** Reading the image back is answered, with its CRC. */
  lemma CrcSteady(c: Config, u: Transfer, d: Dev, w: World, pl: Bytes)
    requires Inv(c, d) && Installed(c, u, d) && CrcLive(c) && CarriesRange(pl, SlotBase(c, u.slot), |u.image|)
    requires Leaving(d)
    ensures var s := Once(c, d, w, CMD_CRC, pl); s.payload == [OK] + PutWord(Crc(u.image)) && Leaving(s.dev)
  {
    hide Inv, LeNat, PutWord, Crc, View, Load, Xip, Legal;
    EnterFacts(c, d, w);
    CrcOnce(c, u, d, w, pl);
    InstalledRange(c, u, d);
  }

  lemma InstalledRange(c: Config, u: Transfer, d: Dev)
    requires Installed(c, u, d)
    ensures WellFormed(c, d) && InRegion(c, SlotBase(c, u.slot), |u.image|)
    ensures Aligned(SlotBase(c, u.slot), 4) && Aligned(|u.image|, 4) && 4 <= |u.image|
  {
    hide Inv, Load, Generation, Crc;
    LoadIsSound(c, d.flash.cell, u.slot);
    SlotLayout(c, u.slot);
  }

  /** BOOT after a COMMIT is answered OK in both modes. */
  lemma BootSteady(c: Config, d: Dev, w: World, mode: Byte)
    requires Inv(c, d) && Leaving(d) && mode <= 1
    ensures Once(c, d, w, CMD_BOOT, [mode]).payload == [OK]
  {
    EnterFacts(c, d, w);
    hide Inv, Bootable, Select;
  }

  // ---- COMMIT of what is in flash ----------------------------------------

  /** A bless the device can judge: a fitting whole-word length it has not just committed, bytes it can read, and a
      generation left. */
  predicate Judgeable(c: Config, d: Dev, image: Bytes)
    requires WellFormed(c, d)
  {
    && 0 < |image| <= Capacity(c, d.ram.writeSlot) && |image| % 4 == 0 && d.ram.highest + 1 < GENERATION_CEILING
    && (CrcLive(c) || d.ram.rec == FromFlash) && !CommitReplay(d, |image|, Crc(image))
  }

  /** Judged by the bytes themselves: accepted exactly when their CRC is the image's, and otherwise a mismatch. */
  lemma CommitJudges(c: Config, d: Dev, image: Bytes, w: World)
    requires Inv(c, d) && WellFormed(c, d) && d.ram.session && Judgeable(c, d, image) && Healthy(c, w)
    ensures SlotBase(c, d.ram.writeSlot) + |image| <= |d.flash.cell| && |image| < U32_LIMIT
    ensures Once(c, d, w, CMD_COMMIT, CommitPayload(|image|, Crc(image))).payload ==
      if Crc(Image(c, d.flash.cell, d.ram.writeSlot, |image|)) == Crc(image) then [OK] else [0x09, 0x01]
  {
    hide Inv, Once, DoCommit, Crc, LeNat, LeWord, CommitPayload, Image, Legal, AllGood, Healthy, Capacity;
    CapacityBound(c, d.ram.writeSlot, |image|);
    PlanSuffices(c, w);
    EnterFacts(c, d, w);
    CommitPayloadFields(|image|, Crc(image));
    InSession(c, d, w, CommitPayload(|image|, Crc(image)));
    CommitJudged(c, Enter(d, w), image, CommitPayload(|image|, Crc(image)));
  }

  lemma CommitJudged(c: Config, d: Dev, image: Bytes, pl: Bytes)
    requires Inv(c, d) && WellFormed(c, d) && d.ram.session && Judgeable(c, d, image) && AllGood(d.flash.plan, 2)
    requires |pl| == 8 && LeNat(pl[0..4]) == |image| && LeWord(pl[4..8]) == Crc(image)
    ensures SlotBase(c, d.ram.writeSlot) + |image| <= |d.flash.cell|
    ensures DoCommit(c, d, pl).1 ==
      if Crc(Image(c, d.flash.cell, d.ram.writeSlot, |image|)) == Crc(image) then [OK] else [0x09, 0x01]
  {
    hide Inv, DoCommit, StoreRecord, Crc, LeNat, LeWord, Legal, AllGood, Capacity, Protocol.CanVouch;
    CapacityBound(c, d.ram.writeSlot, |image|);
    JudgeVouches(c, d, image);
    Protocol.CommitTable(c, d, pl);
    if Crc(Image(c, d.flash.cell, d.ram.writeSlot, |image|)) == Crc(image) {
      CommitStored(c, d, image);
    }
  }

  lemma CommitStored(c: Config, d: Dev, image: Bytes)
    requires Inv(c, d) && WellFormed(c, d) && Judgeable(c, d, image) && AllGood(d.flash.plan, 2) && |image| < U32_LIMIT
    ensures StoreRecord(c, d, NextRecord(d, |image|, Crc(image))).1 == [OK]
  {
    hide Inv, StoreRecord, Crc, AllGood, Legal, Capacity;
    SoundNext(c, d, image);
    StoreSucceeds(c, d, NextRecord(d, |image|, Crc(image)));
    StoreOk(c, d, NextRecord(d, |image|, Crc(image)));
  }

  lemma CapacityBound(c: Config, slot: nat, len: nat)
    requires Legal(c) && IsSlot(slot) && 0 < len <= Capacity(c, slot)
    ensures SlotBase(c, slot) + len <= c.siliconEnd && len < U32_LIMIT
    ensures c.appStart + slot * c.slotSize + c.slotSize <= c.siliconEnd && len + 4096 <= c.slotSize
  {
  }

  lemma JudgeVouches(c: Config, d: Dev, image: Bytes)
    requires WellFormed(c, d) && Judgeable(c, d, image)
    ensures Protocol.CanVouch(c, d, |image|)
  {
    hide Crc;
  }

  lemma SoundNext(c: Config, d: Dev, image: Bytes)
    requires Inv(c, d) && WellFormed(c, d) && Judgeable(c, d, image)
    ensures Sound(NextRecord(d, |image|, Crc(image)), ImageMax(c)) && Capacity(c, d.ram.writeSlot) != 0
  {
    hide Crc, Inv;
    CapacityBound(c, d.ram.writeSlot, |image|);
  }

  lemma StoreOk(c: Config, d: Dev, r: Record)
    requires WellFormed(c, d) && r.generation < U32_LIMIT && r.imgLen < U32_LIMIT
    requires RecordStore(c, d.flash, d.ram.writeSlot, r).1 == 0
    ensures StoreRecord(c, d, r).1 == [OK]
  {
    hide RecordStore;
  }

  // ---- WRITE -------------------------------------------------------------

  /** How far the chunk loop has come. */
  ghost predicate Chunking(c: Config, u: Transfer, highest: nat, off: nat, end: nat, d: Dev) {
    && Inv(c, d) && off <= |u.image| && SlotBase(c, u.slot) + |u.image| < U32_LIMIT
    && Ready(c, d, u.image, off, end) && Writing(c, u, off, d) && d.ram.writeSlot == u.slot && d.ram.highest == highest
  }

  lemma ChunkStep(c: Config, u: Transfer, highest: nat, off: nat, end: nat, d: Dev, w: World)
    requires Chunking(c, u, highest, off, end, d) && off < |u.image| && Healthy(c, w)
    ensures var m := if off + MAX_WRITE_DATA < |u.image| then off + MAX_WRITE_DATA else |u.image|;
      var s := Once(c, d, w, CMD_WRITE, WritePayload(SlotBase(c, u.slot) + off, u.image[off..m]));
      s.payload == [OK] && Chunking(c, u, highest, m, end, s.dev)
  {
    hide Inv, Once, Ready, Writing, AllGood, SlotBase, Aligned, WritePayload, Legal, Healthy;
    PlanSuffices(c, w);
    var m := if off + MAX_WRITE_DATA < |u.image| then off + MAX_WRITE_DATA else |u.image|;
    ChunkEnd(c, d, u.image, off, end);
    ReadyFacts(c, d, u.image, off, end);
    ChunkCarried(SlotBase(c, u.slot) + off, u.image[off..m]);
    OneChunk(c, d, u.image, off, m, end, w, WritePayload(SlotBase(c, u.slot) + off, u.image[off..m]));
    WriteKeeps(c, u, off, m, d, w);
  }

  /** From a cleared span to the chunk loop. */
  lemma ClearedChunks(c: Config, u: Transfer, highest: nat, total: nat, d: Dev)
    requires Erased(c, u, highest, SlotBase(c, u.slot) + total, d) && Sweep(c, u, total, total)
    requires 0 < |u.image| <= total && Aligned(|u.image|, 4)
    ensures Chunking(c, u, highest, 0, SlotBase(c, u.slot) + total, d)
  {
    hide Inv, Opened, Erasing, Writing, Ready, SlotBase, Capacity, Aligned;
    SweepEnds(c, u, total);
    FrameRelevantCleared(c, u, highest, SlotBase(c, u.slot) + total, d);
    ClearedIsReady(c, d, u.image, SlotBase(c, u.slot) + total);
    InSlot(c, u, d, SlotBase(c, u.slot) + total);
    NothingWritten(c, u, d);
  }

  lemma SweepEnds(c: Config, u: Transfer, total: nat)
    requires Sweep(c, u, total, total)
    ensures SlotBase(c, u.slot) + total <= RecordAddr(c, u.slot)
  {
  }

  lemma FrameRelevantCleared(c: Config, u: Transfer, highest: nat, end: nat, d: Dev)
    requires Erased(c, u, highest, end, d)
    ensures Inv(c, d) && WellFormed(c, d) && WriteBase(c, d) == SlotBase(c, u.slot)
  {
    hide Inv;
  }
}
