/** What each command of an update establishes on the device, however often it was attempted, lost,
    repeated or cut short before one attempt was answered OK. */
module UpdateFlow {
  import opened Bytes
  import opened Crc32
  import opened Geometry
  import opened Flash
  import opened Record
  import opened Decision
  import opened Core
  import opened Invariant
  import opened Preservation
  import opened WritePath
  import opened CommitPath
  import opened Frames
  import opened Safety
  import opened Theorems
  import opened HostProto
  import opened Link
  import opened Client

  // ---- histories ---------------------------------------------------------

  ghost predicate KeptByReset(c: Config, P: Dev -> bool) {
    forall d: Dev :: Inv(c, d) && P(d) ==> P(Restarted(c, d))
  }

  ghost predicate KeptByCommand(c: Config, P: Dev -> bool, cmd: Byte, pl: Bytes) {
    forall d: Dev, w: World :: Inv(c, d) && P(d) ==> P(Once(c, d, w, cmd, pl).dev)
  }

  /** An OK answer to the command establishes `Q`. */
  ghost predicate Establishes(c: Config, P: Dev -> bool, Q: Dev -> bool, cmd: Byte, pl: Bytes) {
    forall d: Dev, w: World :: Inv(c, d) && P(d) && Once(c, d, w, cmd, pl).payload[0] == OK ==>
      Q(Once(c, d, w, cmd, pl).dev)
  }

  lemma {:induction false} ReplayKeeps(c: Config, P: Dev -> bool, d: Dev, hs: seq<Happening>, cmd: Byte, pl: Bytes)
    requires Inv(c, d) && P(d) && KeptByReset(c, P) && KeptByCommand(c, P, cmd, pl)
    ensures P(Replay(c, d, hs, cmd, pl))
    decreases |hs|
  {
    hide Inv, Once, Restarted;
    if |hs| > 0 {
      ReplayKeeps(c, P, d, hs[..|hs| - 1], cmd, pl);
    }
  }

  lemma {:induction false} ResetsKeep(c: Config, Q: Dev -> bool, d: Dev, hs: seq<Happening>, cmd: Byte, pl: Bytes, k: nat)
    requires Inv(c, d) && KeptByReset(c, Q) && k < |hs|
    requires forall j: nat :: k < j < |hs| ==> hs[j].WasReset?
    requires Q(Replay(c, d, hs[..k + 1], cmd, pl))
    ensures Q(Replay(c, d, hs, cmd, pl))
    decreases |hs|
  {
    hide Inv, Once, Restarted;
    if k == |hs| - 1 {
      assert hs[..k + 1] == hs;
    } else {
      var shorter := hs[..|hs| - 1];
      assert shorter[..k + 1] == hs[..k + 1];
      ResetsKeep(c, Q, d, shorter, cmd, pl, k);
    }
  }

  lemma TakeMore(hs: seq<Happening>, k: nat)
    requires k < |hs|
    ensures hs[..k] + [hs[k]] == hs[..k + 1]
  {
  }

  /** If attempts keep `P` and an OK answer turns it into `Q`, then after an answered command `Q` holds. */
  lemma Outcome(c: Config, P: Dev -> bool, Q: Dev -> bool, d: Dev, e: Dev, hs: seq<Happening>, cmd: Byte, pl: Bytes,
                k: nat, p: Bytes)
    requires Executed(c, d, e, hs, cmd, pl, k, p) && P(d)
    requires KeptByReset(c, P) && KeptByCommand(c, P, cmd, pl) && KeptByReset(c, Q) && Establishes(c, P, Q, cmd, pl)
    ensures Q(e)
  {
    hide Inv, Once, Restarted, Replay;
    ReplayKeeps(c, P, d, hs[..k], cmd, pl);
    ReplayMore(c, d, hs[..k], hs[k], cmd, pl);
    TakeMore(hs, k);
    ResetsKeep(c, Q, d, hs, cmd, pl, k);
  }

  // ---- single executions -------------------------------------------------

  lemma RestartKeepsFlash(c: Config, d: Dev)
    requires Inv(c, d)
    ensures var e := Restarted(c, d); WellFormed(c, e) && e.flash.cell == d.flash.cell && !e.ram.session
  {
    hide Select, Highest;
  }

  lemma NoSession(c: Config, d: Dev, w: World, cmd: Byte, pl: Bytes)
    requires Inv(c, d) && !d.ram.session && CMD_ERASE <= cmd <= CMD_BOOT
    ensures Once(c, d, w, cmd, pl) == Step(Enter(d, w), Err(E_STATE, 0), Continue)
  {
    hide Inv;
  }

  lemma InSession(c: Config, d: Dev, w: World, pl: Bytes)
    requires Inv(c, d) && d.ram.session
    ensures Inv(c, Enter(d, w)) && WellFormed(c, Enter(d, w))
    ensures var (e, p) := DoErase(c, Enter(d, w), pl); Once(c, d, w, CMD_ERASE, pl) == Step(e, p, Continue)
    ensures var (e, p) := DoWrite(c, Enter(d, w), pl); Once(c, d, w, CMD_WRITE, pl) == Step(e, p, Continue)
    ensures var (e, p) := DoCommit(c, Enter(d, w), pl); Once(c, d, w, CMD_COMMIT, pl) == Step(e, p, Continue)
  {
    hide Inv, DoErase, DoWrite, DoCommit;
    InvEnter(c, d, w);
    FrameRelevant(c, Enter(d, w));
  }

  /** An ERASE answered OK has invalidated the record. */
  lemma EraseInvalidates(c: Config, d: Dev, pl: Bytes)
    requires Inv(c, d) && d.ram.session && DoErase(c, d, pl).1[0] == OK
    ensures DoErase(c, d, pl).0.ram.rec == Invalid
  {
    FrameRelevant(c, d);
    hide LeNat, DoErase, EraseBody, EraseAccepted;
    EraseShape(c, d, pl);
    EraseAnswers(c, d, pl);
    EraseBodyInvalidates(c, d, LeNat(pl[0..4]), LeNat(pl[4..8]));
  }

  lemma EraseAnswers(c: Config, d: Dev, pl: Bytes)
    requires WellFormed(c, d)
    ensures DoErase(c, d, pl).1[0] == OK ==> DoErase(c, d, pl).1 == [OK]
  {
    hide MutationBegin, EraseLoop, LeNat, InWindow, Aligned, NoteErase, WellFormed;
  }

  lemma EraseBodyInvalidates(c: Config, d: Dev, addr: nat, len: nat)
    requires Inv(c, d) && d.ram.session && EraseAccepted(c, d, addr, len)
    requires EraseBody(c, d, addr, len).1 == [OK]
    ensures EraseBody(c, d, addr, len).0.ram.rec == Invalid
  {
    hide Parse, Crc, Update, Erase, MutationBegin, EraseLoop, StreamOK, LastOK, BitmapOK, GenerationsOK, Truthful,
         Aligned, Physical, NoteErase;
    AlignedEnd(addr, len, c.eraseBlock);
    InvNoteErase(c, d, addr);
    InvMutationBegin(c, NoteErase(d, addr));
    var d1 := MutationBegin(c, NoteErase(d, addr)).0;
    InvEraseLoop(c, d1, addr, addr + len);
  }

  // ---- the stages of an update -------------------------------------------

  /** An image on its way into a slot, and what flash held when the session opened. */
  datatype Transfer = Transfer(slot: nat, before: Bytes, image: Bytes)

  /** Nothing outside the slot has changed. */
  ghost predicate Sparing(c: Config, u: Transfer, d: Dev) {
    && Inv(c, d) && WellFormed(c, d) && IsSlot(u.slot)
    && SameOutside(u.before, d.flash.cell, SlotBase(c, u.slot), SlotBase(c, u.slot) + c.slotSize)
  }

  ghost predicate Opened(c: Config, u: Transfer, d: Dev) {
    Sparing(c, u, d) && (d.ram.session ==> d.ram.writeSlot == u.slot)
  }

  ghost predicate Erasing(c: Config, u: Transfer, d: Dev) {
    Opened(c, u, d) && (d.ram.session ==> d.ram.rec == Invalid)
  }

  ghost predicate Matching(c: Config, u: Transfer, v: Bytes, n: nat) {
    n <= |u.image| && SlotBase(c, u.slot) + n <= |v| && v[SlotBase(c, u.slot)..SlotBase(c, u.slot) + n] == u.image[..n]
  }

  ghost predicate Writing(c: Config, u: Transfer, n: nat, d: Dev) {
    Erasing(c, u, d) && (d.ram.session ==> Matching(c, u, d.flash.cell, n))
  }

  /** Flash holds the image under a valid record that is newer than the other slot's. */
  ghost predicate Holds(c: Config, u: Transfer, v: Bytes)
    requires Legal(c) && IsSlot(u.slot) && |v| == c.siliconEnd
  {
    && Matching(c, u, v, |u.image|)
    && Load(c, v, u.slot).Some?
    && Load(c, v, u.slot).value.imgLen == |u.image| && Load(c, v, u.slot).value.imgCrc == Crc(u.image)
    && Generation(c, v, Other(u.slot)) < Load(c, v, u.slot).value.generation
  }

  ghost predicate Stored(c: Config, u: Transfer, d: Dev)
    requires WellFormed(c, d) && IsSlot(u.slot)
  {
    && Holds(c, u, d.flash.cell) && d.ram.active == Some(u.slot) && d.ram.writeSlot == Other(u.slot)
    && d.ram.rec == Fresh && d.ram.committedLen == |u.image| && d.ram.committedCrc == Crc(u.image)
  }

  ghost predicate Committing(c: Config, u: Transfer, d: Dev) {
    && Sparing(c, u, d)
    && (!d.ram.session || Stored(c, u, d)
        || (d.ram.writeSlot == u.slot && d.ram.rec == Invalid && Matching(c, u, d.flash.cell, |u.image|)))
  }

  /** The update is in place, session or not. */
  ghost predicate Installed(c: Config, u: Transfer, d: Dev) {
    Sparing(c, u, d) && Holds(c, u, d.flash.cell)
  }

  lemma ResetKeepsStages(c: Config, u: Transfer, d: Dev)
    requires Sparing(c, u, d)
    ensures var e := Restarted(c, d); Opened(c, u, e) && Erasing(c, u, e) && Committing(c, u, e)
    ensures var e := Restarted(c, d); forall n: nat :: Writing(c, u, n, e)
    ensures Installed(c, u, d) ==> Installed(c, u, Restarted(c, d))
  {
    hide Inv, Restarted, Holds, Stored, Matching;
    RestartKeepsFlash(c, d);
  }

  lemma StagesKeptByReset(c: Config, u: Transfer, n: nat)
    ensures KeptByReset(c, d => Opened(c, u, d)) && KeptByReset(c, d => Erasing(c, u, d))
    ensures KeptByReset(c, d => Writing(c, u, n, d)) && KeptByReset(c, d => Committing(c, u, d))
    ensures KeptByReset(c, d => Installed(c, u, d))
  {
    hide Inv, Restarted, Holds, Stored, Matching, Sparing;
    forall d: Dev | Inv(c, d) && Sparing(c, u, d)
      ensures var e := Restarted(c, d); Opened(c, u, e) && Erasing(c, u, e) && Committing(c, u, e) && Writing(c, u, n, e)
      ensures Installed(c, u, d) ==> Installed(c, u, Restarted(c, d))
    {
      ResetKeepsStages(c, u, d);
    }
  }

  // ---- ERASE -------------------------------------------------------------

  lemma SparingStep(c: Config, u: Transfer, d: Dev, e: Dev)
    requires Sparing(c, u, d) && Inv(c, e)
    requires SameOutside(d.flash.cell, e.flash.cell, SlotBase(c, u.slot), SlotBase(c, u.slot) + c.slotSize)
    ensures Sparing(c, u, e)
  {
    FrameRelevant(c, e);
    hide Inv;
  }

  lemma EnterFacts(c: Config, d: Dev, w: World)
    requires Inv(c, d)
    ensures var g := Enter(d, w);
      Inv(c, g) && WellFormed(c, g) && g.flash.cell == d.flash.cell && g.ram == d.ram && g.bootRequest == d.bootRequest
  {
    InvEnter(c, d, w);
    FrameRelevant(c, Enter(d, w));
  }

  /** What a mutation leaves of an open transfer. */
  lemma MutationKeepsOpened(c: Config, u: Transfer, d: Dev, g: Dev, e: Dev)
    requires Opened(c, u, d) && d.ram.session && WellFormed(c, g) && MutationFrame(c, g, e)
    requires g.flash.cell == d.flash.cell && g.ram == d.ram
    ensures Opened(c, u, e) && (Erasing(c, u, d) ==> Erasing(c, u, e))
    ensures e.ram.session && e.ram.writeSlot == u.slot
  {
    hide Inv, Load;
    SparingStep(c, u, d, e);
  }

  lemma QuietKeepsOpened(c: Config, u: Transfer, d: Dev, e: Dev)
    requires Opened(c, u, d) && Inv(c, e) && e.flash.cell == d.flash.cell && e.ram == d.ram
    ensures Opened(c, u, e) && (Erasing(c, u, d) ==> Erasing(c, u, e))
  {
    hide Inv;
    SparingStep(c, u, d, e);
  }

  lemma EraseKeeps(c: Config, u: Transfer, d: Dev, w: World, pl: Bytes)
    requires Inv(c, d) && Opened(c, u, d)
    ensures var s := Once(c, d, w, CMD_ERASE, pl);
      && Opened(c, u, s.dev) && (Erasing(c, u, d) ==> Erasing(c, u, s.dev))
      && (s.payload[0] == OK ==> Erasing(c, u, s.dev))
  {
    hide Inv, Once, DoErase, Opened, Erasing, MutationFrame, WellFormed;
    EnterFacts(c, d, w);
    var g := Enter(d, w);
    if d.ram.session {
      InSession(c, d, w, pl);
      InvErase(c, g, pl);
      MutationKeepsOpened(c, u, d, g, DoErase(c, g, pl).0);
      if DoErase(c, g, pl).1[0] == OK {
        EraseInvalidates(c, g, pl);
        OpenedErasing(c, u, DoErase(c, g, pl).0);
      }
    } else {
      NoSession(c, d, w, CMD_ERASE, pl);
      QuietKeepsOpened(c, u, d, g);
    }
  }

  lemma OpenedErasing(c: Config, u: Transfer, d: Dev)
    requires Opened(c, u, d) && d.ram.rec == Invalid
    ensures Erasing(c, u, d)
  {
  }

  /** An ERASE answered OK: the record is invalid, and only the slot has changed. */
  lemma EraseOutcome(c: Config, u: Transfer, d: Dev, e: Dev, hs: seq<Happening>, pl: Bytes, k: nat, p: Bytes)
    requires Opened(c, u, d) && Executed(c, d, e, hs, CMD_ERASE, pl, k, p)
    ensures Erasing(c, u, e)
  {
    hide Inv, Once, Opened, Erasing, Executed, Replay, Restarted;
    StagesKeptByReset(c, u, 0);
    forall x: Dev, w: World | Inv(c, x) && Opened(c, u, x)
      ensures var s := Once(c, x, w, CMD_ERASE, pl);
        Opened(c, u, s.dev) && (s.payload[0] == OK ==> Erasing(c, u, s.dev))
    {
      EraseKeeps(c, u, x, w, pl);
    }
    Outcome(c, x => Opened(c, u, x), x => Erasing(c, u, x), d, e, hs, CMD_ERASE, pl, k, p);
  }

  // ---- WRITE -------------------------------------------------------------

  function WritePayload(addr: nat, data: Bytes): Bytes
    requires addr < U32_LIMIT
  {
    PutNat(addr) + data
  }

  /** Writing the next chunk keeps what is already there, and OK means the chunk is there too. */
  lemma WriteKeeps(c: Config, u: Transfer, n: nat, m: nat, d: Dev, w: World)
    requires Inv(c, d) && Writing(c, u, n, d) && n <= m <= |u.image| && SlotBase(c, u.slot) + n < U32_LIMIT
    ensures var s := Once(c, d, w, CMD_WRITE, WritePayload(SlotBase(c, u.slot) + n, u.image[n..m]));
      && Writing(c, u, n, s.dev) && (s.payload[0] == OK ==> Writing(c, u, m, s.dev))
  {
    hide Inv, Once, DoWrite, MutationFrame, WellFormed, Matching, PutNat, LeNat, Sparing;
    var pl := WritePayload(SlotBase(c, u.slot) + n, u.image[n..m]);
    EnterFacts(c, d, w);
    var g := Enter(d, w);
    if d.ram.session {
      InSession(c, d, w, pl);
      InvWrite(c, g, pl);
      var e := DoWrite(c, g, pl).0;
      MutationKeepsOpened(c, u, d, g, e);
      WriteContent(c, u, n, m, g);
    } else {
      NoSession(c, d, w, CMD_WRITE, pl);
      QuietKeepsOpened(c, u, d, g);
    }
  }

  lemma WriteContent(c: Config, u: Transfer, n: nat, m: nat, d: Dev)
    requires Inv(c, d) && WellFormed(c, d) && d.ram.session && IsSlot(u.slot) && d.ram.writeSlot == u.slot
    requires n <= m <= |u.image| && SlotBase(c, u.slot) + n < U32_LIMIT && Matching(c, u, d.flash.cell, n)
    ensures var (e, p) := DoWrite(c, d, WritePayload(SlotBase(c, u.slot) + n, u.image[n..m]));
      && Matching(c, u, e.flash.cell, n) && (p[0] == OK ==> Matching(c, u, e.flash.cell, m))
  {
    hide Inv, DoWrite, WriteBody, MutationFrame, WellFormed, PutNat, LeNat, WriteAccepted;
    var addr, data := SlotBase(c, u.slot) + n, u.image[n..m];
    var pl := WritePayload(addr, data);
    NatRoundTrip(addr);
    assert pl[0..4] == PutNat(addr) && pl[4..] == data;
    WriteShape(c, d, pl);
    WriteAnswers(c, d, pl);
    if DoWrite(c, d, pl).0 != d || DoWrite(c, d, pl).1 == [OK] {
      AcceptedContent(c, u, n, m, d, addr, data);
    }
  }

  lemma WriteAnswers(c: Config, d: Dev, pl: Bytes)
    requires WellFormed(c, d)
    ensures DoWrite(c, d, pl).1[0] == OK ==> DoWrite(c, d, pl).1 == [OK]
  {
    hide MutationBegin, WriteChunk, LeNat, InWindow, Aligned, NoteWrite, WellFormed, BitmapCovers, Classify;
  }

  lemma AcceptedContent(c: Config, u: Transfer, n: nat, m: nat, d: Dev, addr: nat, data: Bytes)
    requires Inv(c, d) && WellFormed(c, d) && d.ram.session && IsSlot(u.slot) && d.ram.writeSlot == u.slot
    requires n <= m <= |u.image| && Matching(c, u, d.flash.cell, n)
    requires addr == SlotBase(c, u.slot) + n && data == u.image[n..m] && WriteAccepted(c, d, addr, data)
    ensures var (e, p) := WriteBody(c, d, addr, data);
      && Matching(c, u, e.flash.cell, n) && (p == [OK] ==> Matching(c, u, e.flash.cell, m))
  {
    hide Inv, WriteBody, MutationFrame, WellFormed, WriteAccepted, ImageSameBut, Legal, SlotBase;
    AcceptedIsWindow(c, d, addr, data);
    InvWriteBody(c, d, addr, data);
    var e := WriteBody(c, d, addr, data).0;
    FrameInv(c, d, e);
    FrameRelevant(c, e);
    PrefixSame(c, d, e, addr, addr + |data|, n);
  }

  lemma AcceptedIsWindow(c: Config, d: Dev, addr: nat, data: Bytes)
    requires WellFormed(c, d) && WriteAccepted(c, d, addr, data)
    ensures InWindow(c, d.ram.writeSlot, addr, |data|) && Aligned(addr, 4) && Aligned(|data|, 4)
    ensures BitmapCovers(c, d, addr, |data|)
    ensures addr + |data| <= RecordAddr(c, d.ram.writeSlot) <= |d.flash.cell|
  {
    hide BitmapCovers, Legal;
  }

  lemma PrefixSame(c: Config, d: Dev, e: Dev, lo: nat, hi: nat, n: nat)
    requires WellFormed(c, d) && WellFormed(c, e) && ImageSameBut(c, d, e, lo, hi)
    requires lo == WriteBase(c, d) + n && hi <= RecordAddr(c, d.ram.writeSlot) <= |d.flash.cell| && lo <= hi
    ensures |e.flash.cell| == |d.flash.cell|
    ensures forall i: nat :: WriteBase(c, d) <= i < lo ==> d.flash.cell[i] == e.flash.cell[i]
  {
    hide Legal, SlotBase;
  }

  /** A WRITE answered OK: the chunk joins what was already in place. */
  lemma WriteOutcome(c: Config, u: Transfer, n: nat, m: nat, d: Dev, e: Dev, hs: seq<Happening>, k: nat, p: Bytes)
    requires n <= m <= |u.image| && SlotBase(c, u.slot) + n < U32_LIMIT && Writing(c, u, n, d)
    requires Executed(c, d, e, hs, CMD_WRITE, WritePayload(SlotBase(c, u.slot) + n, u.image[n..m]), k, p)
    ensures Writing(c, u, m, e)
  {
    hide Inv, Once, Writing, Executed, Replay, Restarted, WritePayload, SlotBase;
    var pl := WritePayload(SlotBase(c, u.slot) + n, u.image[n..m]);
    StagesKeptByReset(c, u, n);
    StagesKeptByReset(c, u, m);
    forall x: Dev, w: World | Inv(c, x) && Writing(c, u, n, x)
      ensures var s := Once(c, x, w, CMD_WRITE, pl);
        Writing(c, u, n, s.dev) && (s.payload[0] == OK ==> Writing(c, u, m, s.dev))
    {
      WriteKeeps(c, u, n, m, x, w);
    }
    Outcome(c, x => Writing(c, u, n, x), x => Writing(c, u, m, x), d, e, hs, CMD_WRITE, pl, k, p);
  }

  // ---- COMMIT ------------------------------------------------------------

  function CommitPayload(len: nat, crc: bv32): (pl: Bytes)
    requires len < U32_LIMIT
    ensures |pl| == 8
  {
    PutNat(len) + PutWord(crc)
  }

  lemma TwoFields(a: Bytes, b: Bytes)
    requires |a| == |b| == 4
    ensures (a + b)[0..4] == a && (a + b)[4..8] == b
  {
  }

  predicate Carries(pl: Bytes, len: nat, crc: bv32) {
    |pl| == 8 && LeNat(pl[0..4]) == len && LeWord(pl[4..8]) == crc
  }

  lemma CommitPayloadFields(len: nat, crc: bv32)
    requires len < U32_LIMIT
    ensures Carries(CommitPayload(len, crc), len, crc)
  {
    hide PutNat, PutWord, LeNat, LeWord;
    TwoFields(PutNat(len), PutWord(crc));
    NatRoundTrip(len);
    WordRoundTrip(crc);
  }

  lemma CommitAnswers(c: Config, d: Dev, pl: Bytes)
    requires WellFormed(c, d)
    ensures DoCommit(c, d, pl).1[0] == OK ==> DoCommit(c, d, pl).1 == [OK]
  {
    hide LeNat, LeWord, Aligned, WellFormed, Attestation, RecordStore, RecordCommitted;
  }

  /** A stored record leaves the image below it in place. */
  lemma StoreKeepsImage(c: Config, u: Transfer, d: Dev, e: Dev)
    requires WellFormed(c, d) && IsSlot(u.slot) && |e.flash.cell| == c.siliconEnd
    requires Matching(c, u, d.flash.cell, |u.image|) && |u.image| <= Capacity(c, u.slot)
    requires SameOutside(d.flash.cell, e.flash.cell, RecordAddr(c, u.slot), RecordAddr(c, u.slot) + RECORD_BLOCK)
    ensures Matching(c, u, e.flash.cell, |u.image|)
    ensures SameOutside(d.flash.cell, e.flash.cell, SlotBase(c, u.slot), SlotBase(c, u.slot) + c.slotSize)
  {
    SlotLayout(c, u.slot);
    hide Legal;
    SameSlice(d.flash.cell, e.flash.cell, SlotBase(c, u.slot), SlotBase(c, u.slot) + |u.image|);
  }

  /** The first COMMIT to succeed: from a written image to an installed one. */
  lemma PendingCommits(c: Config, u: Transfer, d: Dev)
    requires Sparing(c, u, d) && d.ram.session && 0 < |u.image| < U32_LIMIT
    requires d.ram.writeSlot == u.slot && Matching(c, u, d.flash.cell, |u.image|)
    requires CommitStores(c, d, |u.image|, Crc(u.image))
    ensures var (e, p) := StoreRecord(c, d, NextRecord(d, |u.image|, Crc(u.image)));
      Committing(c, u, e) && (p == [OK] ==> Installed(c, u, e))
  {
    hide Parse, Crc, Update, Attestation, StoreRecord, Inv, Load, Legal, Matching, SameOutside;
    var len, crc := |u.image|, Crc(u.image);
    InvCommitStores(c, d, len, crc);
    var (e, p) := StoreRecord(c, d, NextRecord(d, len, crc));
    FrameRelevant(c, e);
    StoreKeepsImage(c, u, d, e);
    SparingStep(c, u, d, e);
    if p == [OK] {
      CommitWins(c, d, len, crc);
    }
  }

  lemma CommitSession(c: Config, u: Transfer, d: Dev, pl: Bytes)
    requires Inv(c, d) && WellFormed(c, d) && Committing(c, u, d) && d.ram.session && |u.image| < U32_LIMIT
    requires pl == CommitPayload(|u.image|, Crc(u.image))
    ensures var (e, p) := DoCommit(c, d, pl); Committing(c, u, e) && (p[0] == OK ==> Installed(c, u, e))
  {
    hide Crc, Inv, WellFormed, Attestation, StoreRecord, LeNat, LeWord, CommitPayload, DoCommit, Holds, Sparing, Matching;
    HighestBound(c, d);
    CommitPayloadFields(|u.image|, Crc(u.image));
    CommitShape(c, d, pl);
    CommitAnswers(c, d, pl);
    if CommitStores(c, d, |u.image|, Crc(u.image)) {
      PendingCommits(c, u, d);
    }
  }

  lemma HighestBound(c: Config, d: Dev)
    requires Inv(c, d)
    ensures d.ram.highest < U32_LIMIT
  {
  }

  lemma CommitKeeps(c: Config, u: Transfer, d: Dev, w: World)
    requires Inv(c, d) && Committing(c, u, d) && |u.image| < U32_LIMIT
    ensures var s := Once(c, d, w, CMD_COMMIT, CommitPayload(|u.image|, Crc(u.image)));
      Committing(c, u, s.dev) && (s.payload[0] == OK ==> Installed(c, u, s.dev))
  {
    hide Inv, Once, DoCommit, WellFormed, CommitPayload, Crc, Installed;
    var pl := CommitPayload(|u.image|, Crc(u.image));
    EnterFacts(c, d, w);
    EnterCommitting(c, u, d, w);
    hide Committing;
    if d.ram.session {
      InSession(c, d, w, pl);
      CommitSession(c, u, Enter(d, w), pl);
    } else {
      NoSession(c, d, w, CMD_COMMIT, pl);
    }
  }

  lemma EnterCommitting(c: Config, u: Transfer, d: Dev, w: World)
    requires Inv(c, d) && Committing(c, u, d)
    ensures Committing(c, u, Enter(d, w))
  {
    EnterFacts(c, d, w);
    hide Inv, Load, Crc, Matching, WellFormed;
  }

  /** A COMMIT answered OK, by whichever attempt and whether it stored the record or replayed the answer:
      the image is installed. */
  lemma CommitOutcome(c: Config, u: Transfer, d: Dev, e: Dev, hs: seq<Happening>, k: nat, p: Bytes)
    requires |u.image| < U32_LIMIT && Committing(c, u, d)
    requires Executed(c, d, e, hs, CMD_COMMIT, CommitPayload(|u.image|, Crc(u.image)), k, p)
    ensures Installed(c, u, e)
  {
    hide Inv, Once, Committing, Installed, Executed, Replay, Restarted, CommitPayload, Crc;
    var pl := CommitPayload(|u.image|, Crc(u.image));
    StagesKeptByReset(c, u, 0);
    forall x: Dev, w: World | Inv(c, x) && Committing(c, u, x)
      ensures var s := Once(c, x, w, CMD_COMMIT, pl);
        Committing(c, u, s.dev) && (s.payload[0] == OK ==> Installed(c, u, s.dev))
    {
      CommitKeeps(c, u, x, w);
    }
    Outcome(c, x => Committing(c, u, x), x => Installed(c, u, x), d, e, hs, CMD_COMMIT, pl, k, p);
  }

  /** The answer that tells the host its image and the device's content differ. */
  predicate SaysMismatch(p: Bytes) { |p| >= 2 && p[0] == E_VERIFY && p[1] == DET_MISMATCH }

  /** COMMIT reports a mismatch only when it can vouch for the true bytes and they differ from the claim. */
  lemma MismatchIsTrue(c: Config, d: Dev, pl: Bytes, len: nat, crc: bv32)
    requires Inv(c, d) && WellFormed(c, d) && d.ram.session && Carries(pl, len, crc)
    requires SaysMismatch(DoCommit(c, d, pl).1)
    ensures 0 < len <= Capacity(c, d.ram.writeSlot) && !CommitReplay(d, len, crc)
    ensures Crc(Image(c, d.flash.cell, d.ram.writeSlot, len)) != crc
  {
    hide Inv, WellFormed, LeNat, LeWord, Aligned, Attestation, RecordStore, RecordCommitted, Crc, Image, Capacity;
    AttestedTrue(c, d, len);
  }

  lemma AttestedTrue(c: Config, d: Dev, len: nat)
    requires Inv(c, d) && d.ram.session
    ensures WellFormed(c, d) && (0 < len <= Capacity(c, d.ram.writeSlot) && Attestation(c, d, len).Some? ==>
      Attestation(c, d, len) == Some(Crc(Image(c, d.flash.cell, d.ram.writeSlot, len))))
  {
    FrameRelevant(c, d);
    hide Inv, Attestation, Crc, Image, WellFormed;
    if 0 < len <= Capacity(c, d.ram.writeSlot) && Attestation(c, d, len).Some? {
      AttestationTrue(c, d, len);
    }
  }

  lemma NoMismatch(c: Config, u: Transfer, d: Dev, w: World)
    requires Inv(c, d) && Committing(c, u, d) && |u.image| < U32_LIMIT
    ensures !SaysMismatch(Once(c, d, w, CMD_COMMIT, CommitPayload(|u.image|, Crc(u.image))).payload)
  {
    hide Inv, Once, DoCommit, WellFormed, CommitPayload, Crc, Holds, Carries, Capacity, LeNat, LeWord;
    var pl := CommitPayload(|u.image|, Crc(u.image));
    EnterFacts(c, d, w);
    EnterCommitting(c, u, d, w);
    if d.ram.session {
      InSession(c, d, w, pl);
      CommitPayloadFields(|u.image|, Crc(u.image));
      var g := Enter(d, w);
      if SaysMismatch(DoCommit(c, g, pl).1) {
        MismatchIsTrue(c, g, pl, |u.image|, Crc(u.image));
        MatchingImage(c, u, g);
      }
    } else {
      NoSession(c, d, w, CMD_COMMIT, pl);
    }
  }

  lemma MatchingImage(c: Config, u: Transfer, d: Dev)
    requires WellFormed(c, d) && d.ram.writeSlot == u.slot && Matching(c, u, d.flash.cell, |u.image|)
    requires |u.image| <= Capacity(c, u.slot)
    ensures Image(c, d.flash.cell, u.slot, |u.image|) == u.image
  {
  }

  /** After the whole image was written, COMMIT never answers that it differs. */
  lemma CommitNeverMismatches(c: Config, u: Transfer, d: Dev, hs: seq<Happening>, k: nat, p: Bytes)
    requires |u.image| < U32_LIMIT && Committing(c, u, d) && Inv(c, d)
    requires LastAnswer(c, d, hs, CMD_COMMIT, CommitPayload(|u.image|, Crc(u.image)), k, p)
    ensures !SaysMismatch(p)
  {
    hide Inv, Once, Committing, Installed, Replay, Restarted, CommitPayload, Crc, SaysMismatch;
    var pl := CommitPayload(|u.image|, Crc(u.image));
    StagesKeptByReset(c, u, 0);
    forall x: Dev, w: World | Inv(c, x) && Committing(c, u, x)
      ensures Committing(c, u, Once(c, x, w, CMD_COMMIT, pl).dev)
    {
      CommitKeeps(c, u, x, w);
    }
    ReplayKeeps(c, x => Committing(c, u, x), d, hs[..k], CMD_COMMIT, pl);
    NoMismatch(c, u, Replay(c, d, hs[..k], CMD_COMMIT, pl), hs[k].world);
  }

  /** Writing the whole image is what COMMIT waits for. */
  lemma WrittenIsCommitting(c: Config, u: Transfer, d: Dev)
    requires Writing(c, u, |u.image|, d)
    ensures Committing(c, u, d)
  {
    hide Inv, Holds, Matching;
  }

  // ---- CRC and BOOT ------------------------------------------------------

  /** Reading back and booting change nothing that is installed. */
  lemma InstalledKeeps(c: Config, u: Transfer, d: Dev, w: World, cmd: Byte, pl: Bytes)
    requires Inv(c, d) && Installed(c, u, d) && (cmd == CMD_CRC || cmd == CMD_BOOT)
    ensures Installed(c, u, Once(c, d, w, cmd, pl).dev)
  {
    hide Inv, Execute, Holds, Vouches, HeldBy, Quiet;
    EnterFacts(c, d, w);
    ExecuteShape(c, Enter(d, w), cmd, pl);
    QuietFlash(Enter(d, w), Execute(c, Enter(d, w), cmd, pl).dev);
    InvExecute(c, Enter(d, w), cmd, pl);
    SparingStep(c, u, d, Once(c, d, w, cmd, pl).dev);
  }

  /** On a part whose view is always coherent, the CRC read back is the installed image's. */
  lemma InstalledCrc(c: Config, u: Transfer, d: Dev, hs: seq<Happening>, pl: Bytes, k: nat, p: Bytes)
    requires Installed(c, u, d) && CrcLive(c) && CarriesRange(pl, SlotBase(c, u.slot), |u.image|)
    requires Inv(c, d) && LastAnswer(c, d, hs, CMD_CRC, pl, k, p) && p[0] == OK
    ensures p == [OK] + PutWord(Crc(u.image))
  {
    hide Inv, Once, Installed, Replay, Restarted, PutWord, Crc, CarriesRange, SlotBase;
    InstalledOutcome(c, u, d, hs[..k], CMD_CRC, pl);
    CrcOnce(c, u, Replay(c, d, hs[..k], CMD_CRC, pl), hs[k].world, pl);
  }

  predicate CarriesRange(pl: Bytes, addr: nat, len: nat) {
    |pl| == 8 && LeNat(pl[0..4]) == addr && LeNat(pl[4..8]) == len
  }

  lemma CrcOnce(c: Config, u: Transfer, d: Dev, w: World, pl: Bytes)
    requires Inv(c, d) && Installed(c, u, d) && CrcLive(c) && CarriesRange(pl, SlotBase(c, u.slot), |u.image|)
    ensures var p := Once(c, d, w, CMD_CRC, pl).payload; p[0] == OK ==> p == [OK] + PutWord(Crc(u.image))
  {
    hide Inv, LeNat, PutWord, Crc, View, Load, Xip, Aligned;
    EnterFacts(c, d, w);
    LiveView(c, Enter(d, w));
    assert u.image[..|u.image|] == u.image;
  }

  lemma LiveView(c: Config, d: Dev)
    requires WellFormed(c, d) && CrcLive(c)
    ensures View(c, d) == d.flash.cell
  {
    CleanView(c, d.flash, 0, |d.flash.cell|);
  }

  lemma QuietFlash(d: Dev, e: Dev)
    requires Quiet(d, e)
    ensures e.flash == d.flash
  {
  }

  lemma InstalledOutcome(c: Config, u: Transfer, d: Dev, hs: seq<Happening>, cmd: Byte, pl: Bytes)
    requires Inv(c, d) && Installed(c, u, d) && (cmd == CMD_CRC || cmd == CMD_BOOT)
    ensures Installed(c, u, Replay(c, d, hs, cmd, pl))
  {
    hide Inv, Once, Installed, Replay, Restarted;
    StagesKeptByReset(c, u, 0);
    forall x: Dev, w: World | Inv(c, x) && Installed(c, u, x)
      ensures Installed(c, u, Once(c, x, w, cmd, pl).dev)
    {
      InstalledKeeps(c, u, x, w, cmd, pl);
    }
    ReplayKeeps(c, x => Installed(c, u, x), d, hs, cmd, pl);
  }

  // ---- HELLO -------------------------------------------------------------

  const HELLO_REQUEST: Bytes := HELLO_MAGIC + [PROTO_MAJOR, PROTO_MINOR]

  /** Attempts at HELLO leave flash alone. */
  lemma HelloKeepsFlash(c: Config, d: Dev, hs: seq<Happening>)
    requires Inv(c, d)
    ensures Replay(c, d, hs, CMD_HELLO, HELLO_REQUEST).flash.cell == d.flash.cell
  {
    hide Inv, Once, Replay, Restarted, HelloPayload, WellFormed, SessionOpen;
    var before := d.flash.cell;
    forall x: Dev, w: World | Inv(c, x)
      ensures var s := Once(c, x, w, CMD_HELLO, HELLO_REQUEST); s.dev.flash.cell == x.flash.cell
    {
      HelloOnce(c, x, w);
    }
    forall x: Dev | Inv(c, x)
      ensures Restarted(c, x).flash.cell == x.flash.cell
    {
      RestartKeepsFlash(c, x);
    }
    ReplayKeeps(c, (x: Dev) => x.flash.cell == before, d, hs, CMD_HELLO, HELLO_REQUEST);
  }

  /** HELLO answered OK: it opened a session on unchanged flash, and the answer describes that session. */
  lemma HelloOutcome(c: Config, d: Dev, e: Dev, hs: seq<Happening>, k: nat, p: Bytes, image: Bytes) returns (m: Dev)
    requires Executed(c, d, e, hs, CMD_HELLO, HELLO_REQUEST, k, p)
    ensures Inv(c, m) && WellFormed(c, m) && p == HelloPayload(c, m) && m.flash.cell == d.flash.cell
    ensures Opened(c, Transfer(m.ram.writeSlot, d.flash.cell, image), e)
  {
    hide Inv, Once, Replay, Restarted, HelloPayload, WellFormed, SessionOpen, Opened;
    HelloKeepsFlash(c, d, hs[..k]);
    var x := Replay(c, d, hs[..k], CMD_HELLO, HELLO_REQUEST);
    HelloOnce(c, x, hs[k].world);
    m := Once(c, x, hs[k].world, CMD_HELLO, HELLO_REQUEST).dev;
    ReplayMore(c, d, hs[..k], hs[k], CMD_HELLO, HELLO_REQUEST);
    TakeMore(hs, k);
    HelloSettles(c, d, e, hs, k, p, Transfer(m.ram.writeSlot, d.flash.cell, image), m);
  }

  lemma HelloSettles(c: Config, d: Dev, e: Dev, hs: seq<Happening>, k: nat, p: Bytes, u: Transfer, m: Dev)
    requires Executed(c, d, e, hs, CMD_HELLO, HELLO_REQUEST, k, p) && m == Replay(c, d, hs[..k + 1], CMD_HELLO, HELLO_REQUEST)
    requires Inv(c, m) && WellFormed(c, m) && m.ram.writeSlot == u.slot && m.flash.cell == u.before
    ensures Opened(c, u, e)
  {
    hide Inv, Once, Replay, Restarted, WellFormed, Opened;
    HelloOpens(c, u, m);
    StagesKeptByReset(c, u, 0);
    ResetsKeep(c, y => Opened(c, u, y), d, hs, CMD_HELLO, HELLO_REQUEST, k);
  }

  lemma HelloOnce(c: Config, x: Dev, w: World)
    requires Inv(c, x)
    ensures var s := Once(c, x, w, CMD_HELLO, HELLO_REQUEST);
      && Inv(c, s.dev) && WellFormed(c, s.dev) && s.action == Continue
      && s.dev == SessionOpen(c, Enter(x, w)) && s.payload == HelloPayload(c, s.dev)
      && s.dev.flash.cell == x.flash.cell
  {
    EnterFacts(c, x, w);
    hide Inv, HelloPayload, WellFormed;
    assert HELLO_REQUEST[0..4] == HELLO_MAGIC;
  }

  lemma HelloOpens(c: Config, u: Transfer, m: Dev)
    requires Inv(c, m) && WellFormed(c, m) && m.ram.writeSlot == u.slot && m.flash.cell == u.before
    ensures Opened(c, u, m)
  {
    hide Inv;
  }
}
