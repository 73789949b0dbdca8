/** Attesting an image that is already in flash: HELLO and COMMIT with nothing erased or written. */
module Bless {
  import opened Bytes
  import opened Crc32
  import opened Geometry
  import opened Flash
  import opened Record
  import opened Decision
  import opened Core
  import opened Invariant
  import opened Preservation
  import opened CommitPath
  import opened Frames
  import opened Theorems
  import opened HostProto
  import opened Link
  import opened Client
  import opened UpdateFlow
  import opened FlashPlan
  import opened FlashFlow
  import opened Completeness
  import opened BootLog
  import opened SteadyLink

  // ---- what a bless may and may not have done ----------------------------

  /** Nothing but the slot's record reserve has changed. */
  ghost predicate ImagesKept(c: Config, u: Transfer, d: Dev) {
    && Inv(c, d) && WellFormed(c, d) && IsSlot(u.slot)
    && SameOutside(u.before, d.flash.cell, RecordAddr(c, u.slot), RecordAddr(c, u.slot) + RECORD_BLOCK)
  }

  /** The slot's record names the image's length and CRC, is the newest, and the bytes that were in the slot
      before have that CRC. */
  ghost predicate Vouched(c: Config, u: Transfer, v: Bytes)
    requires Legal(c) && IsSlot(u.slot) && |v| == c.siliconEnd
  {
    && Load(c, v, u.slot).Some?
    && Load(c, v, u.slot).value.imgLen == |u.image| && Load(c, v, u.slot).value.imgCrc == Crc(u.image)
    && Generation(c, v, Other(u.slot)) < Load(c, v, u.slot).value.generation
    && SlotBase(c, u.slot) + |u.image| <= |u.before|
    && Crc(u.before[SlotBase(c, u.slot)..SlotBase(c, u.slot) + |u.image|]) == Crc(u.image)
  }

  ghost predicate Blessed(c: Config, u: Transfer, d: Dev) {
    ImagesKept(c, u, d) && Vouched(c, u, d.flash.cell)
  }

  predicate Repeats(u: Transfer, d: Dev) { CommitReplay(d, |u.image|, Crc(u.image)) }

  /** Waiting for the first COMMIT to succeed, or after it. */
  ghost predicate Blessing(c: Config, u: Transfer, d: Dev) {
    && ImagesKept(c, u, d)
    && (d.ram.session ==>
          if Repeats(u, d) then Vouched(c, u, d.flash.cell) else d.ram.writeSlot == u.slot)
  }

  /** The commit being repeated put its record into the other slot; nothing has changed since. */
  ghost predicate Acknowledged(c: Config, u: Transfer, d: Dev) {
    && Inv(c, d) && WellFormed(c, d) && IsSlot(u.slot) && d.flash.cell == u.before
    && Load(c, d.flash.cell, Other(u.slot)).Some?
    && Load(c, d.flash.cell, Other(u.slot)).value.imgLen == |u.image|
    && Load(c, d.flash.cell, Other(u.slot)).value.imgCrc == Crc(u.image)
  }

  ghost predicate Repeating(c: Config, u: Transfer, d: Dev) {
    && Acknowledged(c, u, d) && (d.ram.session ==> Repeats(u, d))
  }

  // ---- COMMIT on the device ----------------------------------------------

  lemma ImagesKeptStep(c: Config, u: Transfer, d: Dev, e: Dev)
    requires ImagesKept(c, u, d) && Inv(c, e)
    requires SameOutside(d.flash.cell, e.flash.cell, RecordAddr(c, u.slot), RecordAddr(c, u.slot) + RECORD_BLOCK)
    ensures ImagesKept(c, u, e)
  {
    FrameRelevant(c, e);
    hide Inv;
  }

  /** The bytes a COMMIT attests are the ones that were there before. */
  lemma ImageBefore(c: Config, u: Transfer, d: Dev)
    requires ImagesKept(c, u, d) && d.ram.writeSlot == u.slot && 0 < |u.image| <= Capacity(c, u.slot)
    ensures SlotBase(c, u.slot) + |u.image| <= |u.before|
    ensures Image(c, d.flash.cell, u.slot, |u.image|)
         == u.before[SlotBase(c, u.slot)..SlotBase(c, u.slot) + |u.image|]
  {
    hide Inv;
    CapacityMeaning(c, u.slot);
    SameSlice(u.before, d.flash.cell, SlotBase(c, u.slot), SlotBase(c, u.slot) + |u.image|);
  }

  lemma StoreBlesses(c: Config, u: Transfer, d: Dev)
    requires ImagesKept(c, u, d) && d.ram.session && d.ram.writeSlot == u.slot && 0 < |u.image| < U32_LIMIT
    requires CommitStores(c, d, |u.image|, Crc(u.image))
    ensures var (e, p) := StoreRecord(c, d, NextRecord(d, |u.image|, Crc(u.image)));
      Blessing(c, u, e) && (p == [OK] ==> Blessed(c, u, e))
  {
    hide Parse, Crc, Update, Attestation, StoreRecord, Inv, Load, Legal, SameOutside, Image;
    var len, crc := |u.image|, Crc(u.image);
    InvCommitStores(c, d, len, crc);
    var (e, p) := StoreRecord(c, d, NextRecord(d, len, crc));
    FrameRelevant(c, e);
    ImagesKeptStep(c, u, d, e);
    if p == [OK] {
      ImageBefore(c, u, d);
      CommitWins(c, d, len, crc);
    }
  }

  lemma BlessCommit(c: Config, u: Transfer, d: Dev, pl: Bytes)
    requires Inv(c, d) && WellFormed(c, d) && Blessing(c, u, d) && d.ram.session && |u.image| < U32_LIMIT
    requires pl == CommitPayload(|u.image|, Crc(u.image))
    ensures var (e, p) := DoCommit(c, d, pl); Blessing(c, u, e) && (p[0] == OK ==> Blessed(c, u, e))
  {
    hide Crc, Inv, WellFormed, Attestation, StoreRecord, LeNat, LeWord, CommitPayload, DoCommit, Vouched, ImagesKept;
    HighestBound(c, d);
    CommitPayloadFields(|u.image|, Crc(u.image));
    CommitShape(c, d, pl);
    CommitAnswers(c, d, pl);
    if CommitStores(c, d, |u.image|, Crc(u.image)) {
      StoreBlesses(c, u, d);
    }
  }

  lemma BlessKeeps(c: Config, u: Transfer, d: Dev, w: World)
    requires Inv(c, d) && Blessing(c, u, d) && |u.image| < U32_LIMIT
    ensures var s := Once(c, d, w, CMD_COMMIT, CommitPayload(|u.image|, Crc(u.image)));
      Blessing(c, u, s.dev) && (s.payload[0] == OK ==> Blessed(c, u, s.dev))
  {
    hide Inv, Once, DoCommit, WellFormed, CommitPayload, Crc, Blessed;
    var pl := CommitPayload(|u.image|, Crc(u.image));
    EnterFacts(c, d, w);
    EnterBlessing(c, u, d, w);
    hide Blessing;
    if d.ram.session {
      InSession(c, d, w, pl);
      BlessCommit(c, u, Enter(d, w), pl);
    } else {
      NoSession(c, d, w, CMD_COMMIT, pl);
    }
  }

  lemma EnterBlessing(c: Config, u: Transfer, d: Dev, w: World)
    requires Inv(c, d)
    ensures Blessing(c, u, d) ==> Blessing(c, u, Enter(d, w))
    ensures Repeating(c, u, d) ==> Repeating(c, u, Enter(d, w))
  {
    EnterFacts(c, d, w);
    hide Inv, Load, Crc, WellFormed;
  }

  lemma RepeatKeeps(c: Config, u: Transfer, d: Dev, w: World)
    requires Inv(c, d) && Repeating(c, u, d) && |u.image| < U32_LIMIT
    ensures Repeating(c, u, Once(c, d, w, CMD_COMMIT, CommitPayload(|u.image|, Crc(u.image))).dev)
  {
    hide Inv, Once, DoCommit, WellFormed, CommitPayload, Crc, Acknowledged, LeNat, LeWord, Attestation, StoreRecord;
    var pl := CommitPayload(|u.image|, Crc(u.image));
    EnterFacts(c, d, w);
    EnterBlessing(c, u, d, w);
    if d.ram.session {
      InSession(c, d, w, pl);
      HighestBound(c, Enter(d, w));
      CommitPayloadFields(|u.image|, Crc(u.image));
      CommitShape(c, Enter(d, w), pl);
    } else {
      NoSession(c, d, w, CMD_COMMIT, pl);
    }
  }

  /** A bless answered OK has stored a record, exactly unless the device still remembered committing that
      length and CRC: then it has done nothing. */
  lemma BlessStoresUnlessRepeated(c: Config, d: Dev, len: nat, crc: bv32, pl: Bytes)
    requires Inv(c, d) && Carries(pl, len, crc) && len < U32_LIMIT
    ensures WellFormed(c, SessionOpen(c, d))
    ensures var g := SessionOpen(c, d); DoCommit(c, g, pl).1 == [OK] ==>
      if CommitReplay(d, len, crc) then DoCommit(c, g, pl).0 == g
      else var e := DoCommit(c, g, pl).0;
        && WellFormed(c, e) && e.ram.active == Some(d.ram.writeSlot)
        && Load(c, e.flash.cell, d.ram.writeSlot) == Some(Record(d.ram.highest + 1, len, crc))
        && e.ram.highest == d.ram.highest + 1
  {
    hide Crc, Inv, Attestation, StoreRecord, LeNat, LeWord, DoCommit, Load, Legal, Image;
    var g := SessionOpen(c, d);
    InvSessionOpen(c, d);
    FrameRelevant(c, g);
    HighestBound(c, g);
    CommitShape(c, g, pl);
    if CommitStores(c, g, len, crc) {
      InvCommitStores(c, g, len, crc);
      FrameRelevant(c, DoCommit(c, g, pl).0);
    }
  }

  // ---- resets and HELLO --------------------------------------------------

  lemma PhasesKeptByReset(c: Config, u: Transfer)
    ensures KeptByReset(c, d => Blessing(c, u, d)) && KeptByReset(c, d => Blessed(c, u, d))
    ensures KeptByReset(c, d => Repeating(c, u, d))
  {
    hide Inv, Restarted, Vouched, Load, SameOutside, Crc;
    forall d: Dev | Inv(c, d)
      ensures Blessing(c, u, d) ==> Blessing(c, u, Restarted(c, d))
      ensures Blessed(c, u, d) ==> Blessed(c, u, Restarted(c, d))
      ensures Repeating(c, u, d) ==> Repeating(c, u, Restarted(c, d))
    {
      RestartKeepsFlash(c, d);
    }
  }

  /** Neither HELLO nor a reset makes the device remember a commit it did not remember before. */
  lemma HelloForgets(c: Config, u: Transfer, d: Dev, hs: seq<Happening>)
    requires Inv(c, d) && !Repeats(u, d)
    ensures !Repeats(u, Replay(c, d, hs, CMD_HELLO, HELLO_REQUEST))
  {
    hide Inv, Once, Replay, Restarted, HelloPayload, WellFormed, Crc;
    forall x: Dev, w: World | Inv(c, x)
      ensures Once(c, x, w, CMD_HELLO, HELLO_REQUEST).dev.ram.rec == x.ram.rec
      ensures Repeats(u, Once(c, x, w, CMD_HELLO, HELLO_REQUEST).dev) ==> Repeats(u, x)
    {
      HelloOnce(c, x, w);
    }
    forall x: Dev | Inv(c, x)
      ensures !Repeats(u, Restarted(c, x))
    {
      RestartForgets(c, x);
    }
    ReplayKeeps(c, (x: Dev) => !Repeats(u, x), d, hs, CMD_HELLO, HELLO_REQUEST);
  }

  lemma RestartForgets(c: Config, d: Dev)
    requires Inv(c, d)
    ensures Restarted(c, d).ram.rec == FromFlash
  {
  }

  /** After HELLO one of the two phases has begun. */
  lemma PhaseBegins(c: Config, u: Transfer, e: Dev)
    requires Opened(c, u, e) && Inv(c, e) && e.flash.cell == u.before
    ensures !Repeats(u, e) ==> Blessing(c, u, e)
    ensures Repeats(u, e) && e.ram.session ==> Repeating(c, u, e)
    ensures !e.ram.session ==> Blessing(c, u, e)
  {
    hide Parse, Crc, Update, StreamOK, LastOK, BitmapOK, GenerationsOK, Truthful, Physical, Load;
  }

  // ---- the answered command ----------------------------------------------

  lemma BlessOutcome(c: Config, u: Transfer, d: Dev, e: Dev, hs: seq<Happening>, k: nat, p: Bytes)
    requires |u.image| < U32_LIMIT && Blessing(c, u, d)
    requires Executed(c, d, e, hs, CMD_COMMIT, CommitPayload(|u.image|, Crc(u.image)), k, p)
    ensures Blessed(c, u, e)
  {
    hide Inv, Once, Blessing, Blessed, Executed, Replay, Restarted, CommitPayload, Crc;
    var pl := CommitPayload(|u.image|, Crc(u.image));
    PhasesKeptByReset(c, u);
    forall x: Dev, w: World | Inv(c, x) && Blessing(c, u, x)
      ensures var s := Once(c, x, w, CMD_COMMIT, pl);
        Blessing(c, u, s.dev) && (s.payload[0] == OK ==> Blessed(c, u, s.dev))
    {
      BlessKeeps(c, u, x, w);
    }
    UpdateFlow.Outcome(c, x => Blessing(c, u, x), x => Blessed(c, u, x), d, e, hs, CMD_COMMIT, pl, k, p);
  }

  lemma RepeatOutcome(c: Config, u: Transfer, d: Dev, hs: seq<Happening>)
    requires |u.image| < U32_LIMIT && Repeating(c, u, d) && Inv(c, d)
    ensures Acknowledged(c, u, Replay(c, d, hs, CMD_COMMIT, CommitPayload(|u.image|, Crc(u.image))))
  {
    hide Inv, Once, Acknowledged, Replay, Restarted, CommitPayload, Crc;
    var pl := CommitPayload(|u.image|, Crc(u.image));
    PhasesKeptByReset(c, u);
    forall x: Dev, w: World | Inv(c, x) && Repeating(c, u, x)
      ensures Repeating(c, u, Once(c, x, w, CMD_COMMIT, pl).dev)
    {
      RepeatKeeps(c, u, x, w);
    }
    ReplayKeeps(c, x => Repeating(c, u, x), d, hs, CMD_COMMIT, pl);
  }

  /** The bytes in the slot before the bless do not have the image's CRC. */
  ghost predicate Differs(c: Config, u: Transfer) {
    && SlotBase(c, u.slot) + |u.image| <= |u.before|
    && Crc(u.before[SlotBase(c, u.slot)..SlotBase(c, u.slot) + |u.image|]) != Crc(u.image)
  }

  lemma OtherStatus()
    ensures !SaysMismatch(Err(E_STATE, 0))
  {
  }

  /** A bless answered with a mismatch: the bytes that were in the slot really have another CRC. */
  lemma MismatchOnce(c: Config, u: Transfer, d: Dev, w: World)
    requires Inv(c, d) && |u.image| < U32_LIMIT && (Blessing(c, u, d) || Repeating(c, u, d))
    requires SaysMismatch(Once(c, d, w, CMD_COMMIT, CommitPayload(|u.image|, Crc(u.image))).payload)
    ensures Differs(c, u)
  {
    hide Inv, Once, DoCommit, WellFormed, CommitPayload, Crc, Vouched, Carries, Capacity, LeNat, LeWord, Acknowledged, Image,
         SaysMismatch;
    var pl := CommitPayload(|u.image|, Crc(u.image));
    EnterFacts(c, d, w);
    EnterBlessing(c, u, d, w);
    if d.ram.session {
      InSession(c, d, w, pl);
      CommitPayloadFields(|u.image|, Crc(u.image));
      var g := Enter(d, w);
      MismatchIsTrue(c, g, pl, |u.image|, Crc(u.image));
      ImageBefore(c, u, g);
    } else {
      NoSession(c, d, w, CMD_COMMIT, pl);
      OtherStatus();
    }
  }

  lemma MismatchOutcome(c: Config, u: Transfer, d: Dev, hs: seq<Happening>, k: nat, p: Bytes)
    requires |u.image| < U32_LIMIT && Inv(c, d) && (Blessing(c, u, d) || Repeating(c, u, d)) && SaysMismatch(p)
    requires LastAnswer(c, d, hs, CMD_COMMIT, CommitPayload(|u.image|, Crc(u.image)), k, p)
    ensures Differs(c, u)
  {
    hide Inv, Once, Blessing, Blessed, Repeating, Replay, Restarted, CommitPayload, Crc, SaysMismatch;
    var pl := CommitPayload(|u.image|, Crc(u.image));
    PhasesKeptByReset(c, u);
    forall x: Dev, w: World | Inv(c, x)
      ensures Blessing(c, u, x) ==> Blessing(c, u, Once(c, x, w, CMD_COMMIT, pl).dev)
      ensures Repeating(c, u, x) ==> Repeating(c, u, Once(c, x, w, CMD_COMMIT, pl).dev)
    {
      if Blessing(c, u, x) { BlessKeeps(c, u, x, w); }
      if Repeating(c, u, x) { RepeatKeeps(c, u, x, w); }
    }
    if Blessing(c, u, d) {
      ReplayKeeps(c, x => Blessing(c, u, x), d, hs[..k], CMD_COMMIT, pl);
    } else {
      ReplayKeeps(c, x => Repeating(c, u, x), d, hs[..k], CMD_COMMIT, pl);
    }
    MismatchOnce(c, u, Replay(c, d, hs[..k], CMD_COMMIT, pl), hs[k].world);
  }

  // ---- the flow ----------------------------------------------------------

  datatype BlessResult = BlessRefused | BlessFailed
                       | BlessOk(slot: nat, image: HostImage) | BlessMismatch(slot: nat, image: HostImage)

  datatype Attested = Confirmed | Contradicted | NoVerdict

  /** COMMIT of an image nobody wrote. On a steady link the bytes in flash decide. */
  method Attest(client: BootClient, image: HostImage, ghost u: Transfer, ghost first: Dev) returns (r: Attested)
    requires client.link.Idle() && Inv(client.link.c, client.link.dev) && Opened(client.link.c, u, client.link.dev)
    requires client.link.dev.flash.cell == u.before && u.image == image.bytes && |image.bytes| < U32_LIMIT
    requires Repeats(u, client.link.dev) ==> Repeats(u, first)
    modifies client`seqNo, client.link
    ensures Inv(client.link.c, client.link.dev)
    ensures r.Confirmed? ==>
      || Blessed(client.link.c, u, client.link.dev)
      || (Repeats(u, first) && Acknowledged(client.link.c, u, client.link.dev))
    ensures r.Contradicted? ==> Differs(client.link.c, u)
    ensures client.link.boots == old(client.link.boots)
    ensures client.link.sent == old(client.link.sent) + [(CMD_COMMIT, CommitPayload(|image.bytes|, Crc(image.bytes)))]
    ensures old(Judging(client.link.c, client.link.dev, image.bytes, client.link.script)) ==>
      r == if old(Agrees(client.link.c, client.link.dev, image.bytes)) then Confirmed else Contradicted
  {
    hide Inv, Opened, Blessing, Blessed, Repeating, Acknowledged, Executed, Replay, CommitPayload, Crc, Repeats,
         LastAnswer, Differs, Judging, Agrees, Resets, Accounted, Once;
    ghost var before, s0 := client.link.dev, client.link.script;
    PhaseBegins(client.link.c, u, before);
    ghost var steady := Judging(client.link.c, before, image.bytes, s0);
    if steady {
      Judged(client.link.c, before, image.bytes, s0);
    }
    var a := client.Run(CMD_COMMIT, CommitPayload(|image.bytes|, Crc(image.bytes)), Attempts(MAX_ATTEMPTS));
    OnlyBootResets(client.link.c, before, client.link.past, CMD_COMMIT, CommitPayload(|image.bytes|, Crc(image.bytes)));
    if a.DeviceSays? && SaysMismatch(a.payload) {
      MismatchOutcome(client.link.c, u, before, client.link.past, client.link.lastRan, a.payload);
      return Contradicted;
    }
    if !a.Done? {
      return NoVerdict;
    }
    if Blessing(client.link.c, u, before) {
      BlessOutcome(client.link.c, u, before, client.link.dev, client.link.past, client.link.lastRan, a.payload);
    } else {
      RepeatOutcome(client.link.c, u, before, client.link.past);
    }
    r := Confirmed;
  }

  /** The bytes at the write slot's base have the image's CRC. */
  predicate Agrees(c: Config, d: Dev, image: Bytes) {
    var base := SlotBase(c, d.ram.writeSlot);
    base + |image| <= |d.flash.cell| && Crc(d.flash.cell[base..base + |image|]) == Crc(image)
  }

  /** In session on a steady link, before a COMMIT the device can judge. */
  ghost predicate Judging(c: Config, d: Dev, image: Bytes, script: seq<Act>) {
    Inv(c, d) && WellFormed(c, d) && d.ram.session && Judgeable(c, d, image) && Steady(c, script, 1)
  }

  lemma Judged(c: Config, d: Dev, image: Bytes, script: seq<Act>)
    requires Judging(c, d, image, script)
    ensures Inv(c, d) && Clear(script) && |image| < U32_LIMIT
    ensures Once(c, d, script[0].world, CMD_COMMIT, CommitPayload(|image|, Crc(image))).payload ==
      if Agrees(c, d, image) then [OK] else [E_VERIFY, DET_MISMATCH]
  {
    hide Inv, WellFormed, Judgeable, Steady, Healthy, Once, CommitPayload, Crc;
    SteadyStep(c, script, 1, 0);
    CommitJudges(c, d, image, script[0].world);
  }

  /** OK means the device vouched for the bytes that were in the slot; or, if it still remembered committing
      the same length and CRC this power cycle, that it repeated that answer, and then the record is the
      other slot's. A mismatch means the bytes in the slot really have another CRC. Nothing but HELLO and that COMMIT
      is sent. And on a steady link a bless the device can judge is accepted exactly when the bytes match, and
      otherwise reported as a mismatch. */
  method BlessDevice(client: BootClient, source: Source) returns (r: BlessResult)
    requires client.link.Idle() && Inv(client.link.c, client.link.dev)
    modifies client`seqNo, client.link
    ensures Inv(client.link.c, client.link.dev)
    ensures r.BlessOk? ==>
      var u := Transfer(r.slot, old(client.link.dev).flash.cell, r.image.bytes);
      && (source == Single(r.image) || (source.Variants? && r.image in source.images))
      && SlotBase(client.link.c, r.slot) == r.image.base
      && (|| Blessed(client.link.c, u, client.link.dev)
          || (Repeats(u, old(client.link.dev)) && Acknowledged(client.link.c, u, client.link.dev)))
    ensures r.BlessMismatch? ==>
      && SlotBase(client.link.c, r.slot) == r.image.base
      && Differs(client.link.c, Transfer(r.slot, old(client.link.dev).flash.cell, r.image.bytes))
    ensures client.link.boots == old(client.link.boots)
    ensures
      var hello := old(client.link.sent) + [(CMD_HELLO, HELLO_REQUEST)];
      if r.BlessOk? || r.BlessMismatch? then
        |r.image.bytes| < U32_LIMIT
        && client.link.sent == hello + [(CMD_COMMIT, CommitPayload(|r.image.bytes|, Crc(r.image.bytes)))]
      else if r.BlessRefused? then
        client.link.sent == hello && client.link.dev.flash.cell == old(client.link.dev.flash.cell)
      else hello <= client.link.sent
    ensures WellFormed(client.link.c, old(client.link.dev))
    ensures old(Steady(client.link.c, client.link.script, 2)) ==>
      (r.BlessRefused? <==> old(Expected(client.link.c, client.link.dev, source, false)) == Refused)
    ensures old(Steady(client.link.c, client.link.script, 2) && CanJudge(client.link.c, client.link.dev, source)) ==>
      r == old(Judgement(client.link.c, client.link.dev, source))
  {
    hide Differs, Inv, Opened, Blessed, Acknowledged, Crc, WellFormed, SlotBase, Repeats, CommitPayload, Steady, Agrees,
         Judging, Judgeable, Expected, ForBase;
    ghost var first := client.link.dev;
    Fitting(client.link.c, first);
    var greeted, image, slot := Identify(client, source);
    if !greeted {
      return BlessFailed;
    }
    if image.None? {
      return BlessRefused;
    }
    ghost var u := Transfer(slot, first.flash.cell, image.value.bytes);
    var a := Attest(client, image.value, u, first);
    match a
    case Confirmed => r := BlessOk(slot, image.value);
    case Contradicted => r := BlessMismatch(slot, image.value);
    case NoVerdict => r := BlessFailed;
  }

  /** HELLO, then the image for the slot the device names, if it is one COMMIT could take there. */
  method Identify(client: BootClient, source: Source) returns (greeted: bool, image: Option<HostImage>, slot: nat)
    requires client.link.Idle() && Inv(client.link.c, client.link.dev)
    modifies client`seqNo, client.link
    ensures Inv(client.link.c, client.link.dev) && WellFormed(client.link.c, old(client.link.dev))
    ensures client.link.boots == old(client.link.boots)
    ensures client.link.sent == old(client.link.sent) + [(CMD_HELLO, HELLO_REQUEST)]
    ensures client.link.dev.flash.cell == old(client.link.dev.flash.cell)
    ensures image.Some? ==>
      && greeted && client.link.Idle() && |image.value.bytes| < U32_LIMIT
      && (source == Single(image.value) || (source.Variants? && image.value in source.images))
      && SlotBase(client.link.c, slot) == image.value.base
      && var u := Transfer(slot, old(client.link.dev).flash.cell, image.value.bytes);
      Opened(client.link.c, u, client.link.dev) && (Repeats(u, client.link.dev) ==> Repeats(u, old(client.link.dev)))
    ensures old(Steady(client.link.c, client.link.script, 2)) ==>
      greeted && Identified(client.link.c, old(client.link.dev), client.link.dev, source, image, slot, client.link.script)
  {
    hide Inv, Opened, OwnInfo, Crc, WellFormed, SlotBase, Usable, Replay, Repeats, Steady, Greeted, FamilyFits, Committable,
         Identified;
    ghost var first := client.link.dev;
    Fitting(client.link.c, first);
    ghost var steady := Steady(client.link.c, client.link.script, 1 + 1);
    var info, m := Hello(client, [], 1);
    HelloKeepsFlash(client.link.c, first, client.link.past);
    if info.None? {
      return false, None, 0;
    }
    greeted, image := true, Candidate(source, info.value);
    slot := if info.value.writeSlot == 0 then 0 else 1;
    if steady {
      CandidateIdentified(client.link.c, first, client.link.dev, source, client.link.script);
    }
    if image.Some? {
      OwnBase(client.link.c, m);
      CommittableFacts(client.link.c, m, image.value);
      ghost var u := Transfer(slot, first.flash.cell, image.value.bytes);
      if !Repeats(u, first) {
        HelloForgets(client.link.c, u, first, client.link.past);
      }
    }
  }

  function Candidate(source: Source, info: DeviceInfo): (image: Option<HostImage>)
    ensures image.Some? ==> Committable(info, image.value)
    ensures image.Some? ==> source == Single(image.value) || (source.Variants? && image.value in source.images)
  {
    if !FamilyFits(source, info.chipFamily) then None
    else
      var image := ForBase(source, info.writeBase);
      if image.None? || !Committable(info, image.value) then None else image
  }

  /** On a steady link the device and the source decide, and the COMMIT of a judgeable image will be judged. */
  ghost predicate Identified(c: Config, d: Dev, h: Dev, source: Source, image: Option<HostImage>, slot: nat,
                             script: seq<Act>)
    requires WellFormed(c, d)
  {
    match image
    case None => Expected(c, d, source, false) == Refused && Expected(c, d, source, true) == Refused
    case Some(i) =>
      && Expected(c, d, source, false) == DryRun && Expected(c, d, source, true) == Flashed(slot, i)
      && slot == d.ram.writeSlot
      && (Judgeable(c, d, i.bytes) ==> Judging(c, h, i.bytes, script))
      && (Agrees(c, h, i.bytes) <==> Agrees(c, d, i.bytes))
  }

  lemma CandidateIdentified(c: Config, d: Dev, h: Dev, source: Source, script: seq<Act>)
    requires WellFormed(c, d) && Greeted(c, d, h) && Steady(c, script, 1)
    ensures var i := OwnInfo(c, d);
      Identified(c, d, h, source, Candidate(source, i), if i.writeSlot == 0 then 0 else 1, script)
  {
    hide Steady, Greeted, OwnInfo, ForBase, Committable, FamilyFits, Judgeable, Judging, Agrees, WellFormed;
    OwnBase(c, d);
    var image := Candidate(source, OwnInfo(c, d));
    if image.Some? {
      SameAgrees(c, d, h, image.value.bytes);
      if Judgeable(c, d, image.value.bytes) {
        StillJudging(c, d, h, image.value.bytes, script);
      }
    }
  }

  lemma SameAgrees(c: Config, d: Dev, h: Dev, image: Bytes)
    requires Greeted(c, d, h)
    ensures Agrees(c, h, image) <==> Agrees(c, d, image)
  {
    hide Crc, Erased, Inv, SlotBase;
  }

  /** The image the flow would bless is one the device can judge. */
  predicate CanJudge(c: Config, d: Dev, source: Source)
    requires WellFormed(c, d)
  {
    Expected(c, d, source, true).Flashed? && Judgeable(c, d, Expected(c, d, source, true).image.bytes)
  }

  function Judgement(c: Config, d: Dev, source: Source): BlessResult
    requires WellFormed(c, d) && CanJudge(c, d, source)
  {
    var image := Expected(c, d, source, true).image;
    if Agrees(c, d, image.bytes) then BlessOk(d.ram.writeSlot, image) else BlessMismatch(d.ram.writeSlot, image)
  }

  lemma Fitting(c: Config, d: Dev)
    requires Inv(c, d)
    ensures WellFormed(c, d)
  {
  }

  lemma StillJudging(c: Config, d: Dev, h: Dev, image: Bytes, script: seq<Act>)
    requires WellFormed(c, d) && Judgeable(c, d, image) && Greeted(c, d, h) && Steady(c, script, 1)
    ensures Judging(c, h, image, script) && (Agrees(c, h, image) <==> Agrees(c, d, image))
  {
    hide Steady, Crc, Erased, Legal, SlotBase, Capacity;
    Fitting(c, h);
    hide Inv;
  }

  lemma CommittableFacts(c: Config, m: Dev, image: HostImage)
    requires WellFormed(c, m) && Committable(OwnInfo(c, m), image)
    ensures |image.bytes| < U32_LIMIT && image.base == SlotBase(c, m.ram.writeSlot)
    ensures m.ram.writeSlot == if OwnInfo(c, m).writeSlot == 0 then 0 else 1
  {
    SlotLayout(c, m.ram.writeSlot);
  }
}
