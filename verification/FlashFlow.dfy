/** The host's flash flow, end to end over the lossy link: HELLO, plan, ERASE, WRITE, COMMIT, check, BOOT. */
module FlashFlow {
  import opened Bytes
  import opened Crc32
  import opened Geometry
  import opened Flash
  import opened Record
  import opened Decision
  import opened Core
  import opened Invariant
  import opened HostProto
  import P = Preservation
  import opened Link
  import opened Client
  import opened UpdateFlow
  import opened FlashPlan
  import opened Completeness
  import opened BootLog
  import opened SteadyLink

  datatype FlowResult = DryRun | Refused | CommandFailed | VerifyMismatch | Flashed(slot: nat, image: HostImage)

  // ---- what was sent -----------------------------------------------------

  /** Nothing but this command. */
  predicate Only(sent: seq<(Byte, Bytes)>, cmd: Byte) { forall i :: 0 <= i < |sent| ==> sent[i].0 == cmd }

  /** An upload: ERASEs and WRITEs, then the COMMIT of this image. */
  predicate Upload(sent: seq<(Byte, Bytes)>, image: Bytes)
    requires |image| < U32_LIMIT
  {
    && |sent| > 0 && sent[|sent| - 1] == (CMD_COMMIT, CommitPayload(|image|, Crc(image)))
    && forall i :: 0 <= i < |sent| - 1 ==> sent[i].0 == CMD_ERASE || sent[i].0 == CMD_WRITE
  }

  /** After the COMMIT: the read-back if planned; then BOOT mode 0 if the application is to start, mode 1 if it is
      not and the transport cannot hold the device, and otherwise nothing. */
  function Ending(image: HostImage, check: bool, boot: bool, holds: bool): seq<(Byte, Bytes)>
    requires image.base < U32_LIMIT && |image.bytes| < U32_LIMIT
  {
    (if check then [(CMD_CRC, ErasePayload(image.base, |image.bytes|))] else [])
    + (if boot then [(CMD_BOOT, [0x00])] else if holds then [] else [(CMD_BOOT, [0x01])])
  }

  lemma UploadSent(erases: seq<(Byte, Bytes)>, writes: seq<(Byte, Bytes)>, image: Bytes)
    requires |image| < U32_LIMIT && Only(erases, CMD_ERASE) && Only(writes, CMD_WRITE)
    ensures Upload(erases + writes + [(CMD_COMMIT, CommitPayload(|image|, Crc(image)))], image)
  {
    hide Crc, CommitPayload;
  }

  // ---- ERASE -------------------------------------------------------------

  /** On a steady link the erase loop is here. */
  ghost predicate Sweeping(c: Config, u: Transfer, highest: nat, start: nat, done: nat, total: nat, block: nat, d: Dev,
                           script: seq<Act>, rest: nat) {
    && c.eraseBlock > 0 && block == c.eraseBlock && start == SlotBase(c, u.slot)
    && Sweep(c, u, done, total) && Inv(c, d) && Erased(c, u, highest, SlotBase(c, u.slot) + done, d)
    && Steady(c, script, total - done + rest)
  }

  lemma SweepAdvances(c: Config, u: Transfer, highest: nat, start: nat, done: nat, total: nat, block: nat, d: Dev,
                      script: seq<Act>, rest: nat)
    requires Sweeping(c, u, highest, start, done, total, block, d, script, rest) && done < total
    ensures Clear(script) && block > 0 && start + total < U32_LIMIT
    ensures var len := if EraseChunk(block) < total - done then EraseChunk(block) else total - done;
      var s := Once(c, d, script[0].world, CMD_ERASE, ErasePayload(start + done, len));
      && s.payload == [OK] && Replay(c, d, [Ran(script[0].world)], CMD_ERASE, ErasePayload(start + done, len)) == s.dev
      && Sweeping(c, u, highest, start, done + len, total, block, s.dev, script[2..], rest)
  {
    hide Inv, Once, Erased, Sweep, SlotBase, ErasePayload, EraseChunk, Steady, Healthy, Replay;
    SweepBound(c, u, done, total);
    var len := NextLength(c, done, total);
    SteadyStep(c, script, total - done + rest, total - (done + len) + rest);
    SweepStep(c, u, highest, d, done, total, script[0].world);
    RanOnce(c, d, script[0].world, CMD_ERASE, ErasePayload(start + done, len));
  }

  lemma SweepBound(c: Config, u: Transfer, done: nat, total: nat)
    requires Sweep(c, u, done, total)
    ensures SlotBase(c, u.slot) + total < U32_LIMIT && done <= total
  {
    hide Legal, Capacity;
  }

  /** ERASE in chunks. On a steady link to a healthy device it succeeds. */
  method EraseRegion(client: BootClient, start: nat, total: nat, block: nat, ghost u: Transfer, ghost highest: nat,
                     ghost rest: nat)
    returns (ok: bool)
    requires client.link.Idle() && Opened(client.link.c, u, client.link.dev)
    requires block > 0 && start + total < U32_LIMIT
    modifies client`seqNo, client.link
    ensures Inv(client.link.c, client.link.dev)
    ensures ok ==> client.link.Idle() && Opened(client.link.c, u, client.link.dev)
    ensures ok && total > 0 ==> Erasing(client.link.c, u, client.link.dev)
    ensures client.link.boots == old(client.link.boots)
    ensures !old(client.link.dev.bootRequest) ==> !client.link.dev.bootRequest
    ensures old(client.link.sent) <= client.link.sent && Only(client.link.sent[|old(client.link.sent)|..], CMD_ERASE)
    ensures old(Sweeping(client.link.c, u, highest, start, 0, total, block, client.link.dev, client.link.script, rest)) ==>
      ok && Sweeping(client.link.c, u, highest, start, total, total, block, client.link.dev, client.link.script, rest)
  {
    hide Inv, Opened, Erasing, Executed, PutNat, Replay, ErasePayload, Sweeping, Once, Resets, Accounted, Steady;
    OpenedInv(client.link.c, u, client.link.dev);
    var chunk := (if ERASE_CHUNK / block > 1 then ERASE_CHUNK / block else 1) * block;
    var done := 0;
    ghost var steady :=
      Sweeping(client.link.c, u, highest, start, 0, total, block, client.link.dev, client.link.script, rest);
    while done < total
      invariant 0 <= done <= total
      invariant Inv(client.link.c, client.link.dev) && client.link.Idle() && Opened(client.link.c, u, client.link.dev)
      invariant done > 0 ==> Erasing(client.link.c, u, client.link.dev)
      invariant client.link.boots == old(client.link.boots)
      invariant !old(client.link.dev.bootRequest) ==> !client.link.dev.bootRequest
      invariant old(client.link.sent) <= client.link.sent && Only(client.link.sent[|old(client.link.sent)|..], CMD_ERASE)
      invariant steady ==>
        Sweeping(client.link.c, u, highest, start, done, total, block, client.link.dev, client.link.script, rest)
    {
      var addr := start + done;
      var len := if chunk < total - done then chunk else total - done;
      ghost var before := client.link.dev;
      if steady {
        SweepAdvances(client.link.c, u, highest, start, done, total, block, before, client.link.script, rest);
      }
      var r := client.Run(CMD_ERASE, ErasePayload(addr, len), Attempts(MAX_ATTEMPTS));
      OnlyBootResets(client.link.c, before, client.link.past, CMD_ERASE, ErasePayload(addr, len));
      if !r.Done? {
        return false;
      }
      EraseOutcome(client.link.c, u, before, client.link.dev, client.link.past, ErasePayload(addr, len),
                   client.link.lastRan, r.payload);
      ErasingOpened(client.link.c, u, client.link.dev);
      done := done + len;
    }
    ok := true;
  }

  // ---- WRITE -------------------------------------------------------------

  ghost predicate Streaming(c: Config, u: Transfer, highest: nat, off: nat, end: nat, chunk: nat, d: Dev,
                            script: seq<Act>, rest: nat) {
    && chunk == MAX_WRITE_DATA && Inv(c, d) && Chunking(c, u, highest, off, end, d) && off <= |u.image|
    && Steady(c, script, |u.image| - off + rest)
  }

  lemma StreamAdvances(c: Config, u: Transfer, highest: nat, off: nat, end: nat, chunk: nat, d: Dev, script: seq<Act>,
                       rest: nat)
    requires Streaming(c, u, highest, off, end, chunk, d, script, rest) && off < |u.image|
    ensures Clear(script) && SlotBase(c, u.slot) + |u.image| < U32_LIMIT
    ensures var m := if off + chunk < |u.image| then off + chunk else |u.image|;
      var pl := WritePayload(SlotBase(c, u.slot) + off, u.image[off..m]);
      var s := Once(c, d, script[0].world, CMD_WRITE, pl);
      && s.payload == [OK] && Replay(c, d, [Ran(script[0].world)], CMD_WRITE, pl) == s.dev
      && Streaming(c, u, highest, m, end, chunk, s.dev, script[2..], rest)
  {
    hide Inv, Once, Chunking, SlotBase, WritePayload, Steady, Healthy, Replay;
    ChunkBound(c, u, highest, off, end, d);
    var m := if off + chunk < |u.image| then off + chunk else |u.image|;
    SteadyStep(c, script, |u.image| - off + rest, |u.image| - m + rest);
    ChunkStep(c, u, highest, off, end, d, script[0].world);
    RanOnce(c, d, script[0].world, CMD_WRITE, WritePayload(SlotBase(c, u.slot) + off, u.image[off..m]));
    ChunkBound(c, u, highest, m, end,
               Once(c, d, script[0].world, CMD_WRITE, WritePayload(SlotBase(c, u.slot) + off, u.image[off..m])).dev);
  }

  lemma ChunkBound(c: Config, u: Transfer, highest: nat, off: nat, end: nat, d: Dev)
    requires Chunking(c, u, highest, off, end, d)
    ensures Inv(c, d) && off <= |u.image| && SlotBase(c, u.slot) + |u.image| < U32_LIMIT
  {
    hide Inv, Ready, Writing;
  }

  /** Sequential WRITEs from the slot base. On a steady link to a healthy device they succeed. */
  method WriteImage(client: BootClient, base: nat, image: Bytes, chunk: nat, ghost u: Transfer, ghost highest: nat,
                    ghost end: nat, ghost rest: nat)
    returns (ok: bool)
    requires client.link.Idle() && Writing(client.link.c, u, 0, client.link.dev)
    requires image == u.image && base == SlotBase(client.link.c, u.slot) && base + |image| < U32_LIMIT
    requires 0 < chunk <= MAX_WRITE_DATA
    modifies client`seqNo, client.link
    ensures Inv(client.link.c, client.link.dev)
    ensures ok ==> client.link.Idle() && Writing(client.link.c, u, |image|, client.link.dev)
    ensures client.link.boots == old(client.link.boots)
    ensures !old(client.link.dev.bootRequest) ==> !client.link.dev.bootRequest
    ensures old(client.link.sent) <= client.link.sent && Only(client.link.sent[|old(client.link.sent)|..], CMD_WRITE)
    ensures old(Streaming(client.link.c, u, highest, 0, end, chunk, client.link.dev, client.link.script, rest)) ==>
      ok && Streaming(client.link.c, u, highest, |image|, end, chunk, client.link.dev, client.link.script, rest)
  {
    hide Inv, Writing, Executed, PutNat, Replay, WritePayload, Streaming, Once, Resets, Accounted, Steady, SlotBase;
    WritingInv(client.link.c, u, 0, client.link.dev);
    ghost var steady := Streaming(client.link.c, u, highest, 0, end, chunk, client.link.dev, client.link.script, rest);
    var off := 0;
    while off < |image|
      invariant 0 <= off <= |image|
      invariant Inv(client.link.c, client.link.dev) && client.link.Idle()
      invariant Writing(client.link.c, u, off, client.link.dev)
      invariant client.link.boots == old(client.link.boots)
      invariant !old(client.link.dev.bootRequest) ==> !client.link.dev.bootRequest
      invariant old(client.link.sent) <= client.link.sent && Only(client.link.sent[|old(client.link.sent)|..], CMD_WRITE)
      invariant steady ==>
        Streaming(client.link.c, u, highest, off, end, chunk, client.link.dev, client.link.script, rest)
    {
      var stop := if off + chunk < |image| then off + chunk else |image|;
      ghost var before := client.link.dev;
      WritePayloadLength(base + off, image[off..stop]);
      if steady {
        StreamAdvances(client.link.c, u, highest, off, end, chunk, before, client.link.script, rest);
      }
      var r := client.Run(CMD_WRITE, WritePayload(base + off, image[off..stop]), Attempts(MAX_ATTEMPTS));
      OnlyBootResets(client.link.c, before, client.link.past, CMD_WRITE, WritePayload(base + off, image[off..stop]));
      if !r.Done? {
        return false;
      }
      WriteOutcome(client.link.c, u, off, stop, before, client.link.dev, client.link.past, client.link.lastRan, r.payload);
      off := stop;
    }
    ok := true;
  }

  // ---- the upload --------------------------------------------------------

  /** On a steady link, after HELLO, with an image the device can commit. */
  ghost predicate Starting(c: Config, u: Transfer, highest: nat, p: Plan, d: Dev, script: seq<Act>, rest: nat) {
    && p.chunk == MAX_WRITE_DATA && 0 < |u.image| <= p.eraseLen && |u.image| % 4 == 0 && |u.image| < U32_LIMIT
    && highest + 1 < GENERATION_CEILING
    && Sweeping(c, u, highest, SlotBase(c, u.slot), 0, p.eraseLen, p.block, d, script, |u.image| + 1 + rest)
  }

  lemma SweptStreams(c: Config, u: Transfer, highest: nat, total: nat, block: nat, d: Dev, script: seq<Act>, rest: nat)
    requires Sweeping(c, u, highest, SlotBase(c, u.slot), total, total, block, d, script, |u.image| + 1 + rest)
    requires 0 < |u.image| <= total && |u.image| % 4 == 0
    ensures Streaming(c, u, highest, 0, SlotBase(c, u.slot) + total, MAX_WRITE_DATA, d, script, 1 + rest)
  {
    hide Inv, Erased, SlotBase, Steady, Chunking;
    ClearedChunks(c, u, highest, total, d);
    hide Sweep;
    ChunkBound(c, u, highest, 0, SlotBase(c, u.slot) + total, d);
    SteadyLess(c, script, |u.image| + 1 + rest, |u.image| - 0 + (1 + rest));
  }

  /** The COMMIT of a steady upload is answered OK. */
  lemma CommitSteady(c: Config, u: Transfer, highest: nat, end: nat, d: Dev, script: seq<Act>, rest: nat)
    requires Streaming(c, u, highest, |u.image|, end, MAX_WRITE_DATA, d, script, 1 + rest)
    requires 0 < |u.image| < U32_LIMIT && highest + 1 < GENERATION_CEILING
    ensures Clear(script) && Inv(c, d)
    ensures var pl := CommitPayload(|u.image|, Crc(u.image)); var s := Once(c, d, script[0].world, CMD_COMMIT, pl);
      && s.payload == [OK] && Replay(c, d, [Ran(script[0].world)], CMD_COMMIT, pl) == s.dev
      && Leaving(s.dev) && Steady(c, script[2..], rest)
  {
    hide Inv, Once, Ready, Writing, SlotBase, Crc, CommitPayload, Steady, Healthy, Replay, Committing, Installed, Leaving,
         AllGood, Completeness.Promoted;
    SteadyStep(c, script, 1 + rest, rest);
    var w := script[0].world;
    PlanSuffices(c, w);
    WrittenIsCommitting(c, u, d);
    CommitStepOk(c, u, d, w, end);
    CommitLeaves(c, u, d, w, end);
    RanOnce(c, d, w, CMD_COMMIT, CommitPayload(|u.image|, Crc(u.image)));
  }

  /** ERASE, WRITE and COMMIT: no failure means the image is installed, and on a steady link to a healthy device
      there is none. The device never claims that the image it was sent differs from the one it holds. */
  method Transmit(client: BootClient, image: HostImage, p: Plan, ghost u: Transfer, ghost highest: nat, ghost rest: nat)
    returns (failure: Option<FlowResult>)
    requires client.link.Idle() && Opened(client.link.c, u, client.link.dev)
    requires image.bytes == u.image && image.base == SlotBase(client.link.c, u.slot) <= client.link.c.siliconEnd
    requires p.block > 0 && image.base + p.eraseLen < U32_LIMIT && |image.bytes| <= p.eraseLen
    requires 0 < p.chunk <= MAX_WRITE_DATA && p.crc == Crc(image.bytes)
    modifies client`seqNo, client.link
    ensures Inv(client.link.c, client.link.dev)
    ensures failure.None? ==> client.link.Idle() && Installed(client.link.c, u, client.link.dev)
    ensures failure.Some? ==> failure.value == CommandFailed
    ensures client.link.boots == old(client.link.boots) && old(client.link.sent) <= client.link.sent
    ensures !old(client.link.dev.bootRequest) ==> !client.link.dev.bootRequest
    ensures failure.None? ==> |image.bytes| < U32_LIMIT && Upload(client.link.sent[|old(client.link.sent)|..], image.bytes)
    ensures old(Starting(client.link.c, u, highest, p, client.link.dev, client.link.script, rest)) ==>
      failure.None? && Leaving(client.link.dev) && Steady(client.link.c, client.link.script, rest)
  {
    hide Inv, Opened, Erasing, Writing, Committing, Installed, Executed, Replay, CommitPayload, Crc, SlotBase, LastAnswer,
         SaysMismatch, Sweeping, Streaming, Once, Resets, Accounted, Steady, Leaving, Upload, Only;
    ghost var steady := Starting(client.link.c, u, highest, p, client.link.dev, client.link.script, rest);
    ghost var s0 := client.link.sent;
    var ok := EraseRegion(client, image.base, p.eraseLen, p.block, u, highest, |image.bytes| + 1 + rest);
    if !ok {
      return Some(CommandFailed);
    }
    if |image.bytes| == 0 {
      var mismatch := CommitNothing(client, p.crc);
      return Some(if mismatch then VerifyMismatch else CommandFailed);
    }
    NothingWritten(client.link.c, u, client.link.dev);
    ghost var s1 := client.link.sent;
    if steady {
      SweptStreams(client.link.c, u, highest, p.eraseLen, p.block, client.link.dev, client.link.script, rest);
    }
    ghost var end := image.base + p.eraseLen;
    ok := WriteImage(client, image.base, image.bytes, p.chunk, u, highest, end, 1 + rest);
    if !ok {
      return Some(CommandFailed);
    }
    WrittenIsCommitting(client.link.c, u, client.link.dev);
    WritingInv(client.link.c, u, |image.bytes|, client.link.dev);
    ghost var before, s2 := client.link.dev, client.link.sent;
    if steady {
      CommitSteady(client.link.c, u, highest, end, before, client.link.script, rest);
    }
    var r := client.Run(CMD_COMMIT, CommitPayload(|image.bytes|, p.crc), Attempts(MAX_ATTEMPTS));
    OnlyBootResets(client.link.c, before, client.link.past, CMD_COMMIT, CommitPayload(|image.bytes|, p.crc));
    if r.DeviceSays? && SaysMismatch(r.payload) {
      CommitNeverMismatches(client.link.c, u, before, client.link.past, client.link.lastRan, r.payload);
      return Some(VerifyMismatch);
    }
    if !r.Done? {
      return Some(CommandFailed);
    }
    CommitOutcome(client.link.c, u, before, client.link.dev, client.link.past, client.link.lastRan, r.payload);
    UploadSent(s1[|s0|..], s2[|s1|..], image.bytes);
    Slices(s0, s1, s2, [(CMD_COMMIT, CommitPayload(|image.bytes|, p.crc))]);
    failure := None;
  }

  /** What was sent after `s0`, stage by stage. */
  lemma Slices(s0: seq<(Byte, Bytes)>, s1: seq<(Byte, Bytes)>, s2: seq<(Byte, Bytes)>, x: seq<(Byte, Bytes)>)
    requires s0 <= s1 <= s2
    ensures s0 <= s2 + x && (s2 + x)[|s0|..] == s1[|s0|..] + s2[|s1|..] + x
  {
  }

  /** COMMIT of no bytes is always refused by the device, and never as a mismatch, so an empty image never
      succeeds. */
  method CommitNothing(client: BootClient, crc: bv32) returns (mismatch: bool)
    requires client.link.Idle() && Inv(client.link.c, client.link.dev)
    modifies client`seqNo, client.link
    ensures Inv(client.link.c, client.link.dev) && !mismatch
    ensures client.link.boots == old(client.link.boots) && old(client.link.sent) <= client.link.sent
    ensures !old(client.link.dev.bootRequest) ==> !client.link.dev.bootRequest
  {
    hide Inv, Replay, CommitPayload, LastAnswer, SaysMismatch, Resets, Accounted;
    ghost var before := client.link.dev;
    var r := client.Run(CMD_COMMIT, CommitPayload(0, crc), Attempts(MAX_ATTEMPTS));
    OnlyBootResets(client.link.c, before, client.link.past, CMD_COMMIT, CommitPayload(0, crc));
    if r.Done? || r.DeviceSays? {
      EmptyNeverCommits(client.link.c, before, client.link.past, crc, client.link.lastRan, r.payload);
    }
    mismatch := r.DeviceSays? && SaysMismatch(r.payload);
  }

  // ---- check and BOOT ----------------------------------------------------

  /** Read-back on a part whose view is always coherent: an answer always agrees, and on a steady link there is
      one. */
  method LiveCheck(client: BootClient, image: HostImage, crc: bv32, ghost u: Transfer, ghost rest: nat)
    returns (r: Option<bool>)
    requires client.link.Idle() && Installed(client.link.c, u, client.link.dev) && CrcLive(client.link.c)
    requires image.base == SlotBase(client.link.c, u.slot) < U32_LIMIT && image.bytes == u.image
    requires |image.bytes| < U32_LIMIT && crc == Crc(image.bytes)
    modifies client`seqNo, client.link
    ensures Installed(client.link.c, u, client.link.dev)
    ensures r.Some? ==> client.link.Idle() && r.value
    ensures client.link.boots == old(client.link.boots)
    ensures !old(client.link.dev.bootRequest) ==> !client.link.dev.bootRequest
    ensures client.link.sent == old(client.link.sent) + [(CMD_CRC, ErasePayload(image.base, |image.bytes|))]
    ensures old(Leaving(client.link.dev) && Steady(client.link.c, client.link.script, 1 + rest)) ==>
      r.Some? && Leaving(client.link.dev) && Steady(client.link.c, client.link.script, rest)
  {
    hide Inv, Installed, Replay, ErasePayload, LeWord, PutWord, Crc, CarriesRange, SlotBase, Once, LastAnswer, CrcLive,
         Resets, Accounted, Steady, Leaving;
    InstalledInv(client.link.c, u, client.link.dev);
    var pl := ErasePayload(image.base, |image.bytes|);
    RangeCarried(image.base, |image.bytes|);
    ghost var before, s0 := client.link.dev, client.link.script;
    ghost var steady := Leaving(before) && Steady(client.link.c, s0, 1 + rest);
    if steady {
      SteadyStep(client.link.c, s0, 1 + rest, rest);
      CrcSteady(client.link.c, u, before, s0[0].world, pl);
      RanOnce(client.link.c, before, s0[0].world, CMD_CRC, pl);
    }
    var a := client.Run(CMD_CRC, pl, Attempts(MAX_ATTEMPTS));
    OnlyBootResets(client.link.c, before, client.link.past, CMD_CRC, pl);
    InstalledOutcome(client.link.c, u, before, client.link.past, CMD_CRC, pl);
    if !a.Done? || |a.payload| < 5 {
      return None;
    }
    InstalledCrc(client.link.c, u, before, client.link.past, pl, client.link.lastRan, a.payload);
    WordInside(crc);
    r := Some(LeWord(a.payload[1..5]) == crc);
  }

  /** What BOOT asked for, by mode: 1 came back to the bootloader; 0, on a device nobody had asked to stay, started
      the image unless it is blank. */
  ghost predicate Led(image: HostImage, mode: Byte, asked: bool, boots: seq<Boot>) {
    && |boots| > 0
    && (mode == 1 ==> boots[|boots| - 1] == Stay)
    && (mode == 0 && !asked && |image.bytes| >= 4 && image.bytes[..4] != ERASED_WORD ==>
          boots[|boots| - 1] == Jump(image.base))
  }

  lemma BootLed(c: Config, u: Transfer, image: HostImage, d: Dev, hs: seq<Happening>, mode: Byte, k: nat, p: Bytes)
    requires Installed(c, u, d) && image.bytes == u.image && image.base == SlotBase(c, u.slot)
    requires Inv(c, d) && LastAnswer(c, d, hs, CMD_BOOT, [mode], k, p) && |p| > 0 && p[0] == OK
    ensures Led(image, mode, d.bootRequest, Resets(c, d, hs, CMD_BOOT, [mode]))
  {
    hide Inv, Crc, Replay, LastAnswer, Resets, Holds, Decide, Select, Legal;
    BootLeads(c, d, hs, mode, k, p);
    if 4 <= |u.image| {
      InstalledBoots(c, u, d);
    }
  }

  /** Never resent. Answered OK, the device resets as the mode asks. */
  method Boot(client: BootClient, image: HostImage, mode: Byte, ghost u: Transfer) returns (ok: bool)
    requires client.link.Idle() && Installed(client.link.c, u, client.link.dev)
    requires image.bytes == u.image && image.base == SlotBase(client.link.c, u.slot)
    modifies client`seqNo, client.link
    ensures Installed(client.link.c, u, client.link.dev)
    ensures client.link.sent == old(client.link.sent) + [(CMD_BOOT, [mode])] && old(client.link.boots) <= client.link.boots
    ensures |client.link.used| == 1
    ensures ok ==> Led(image, mode, old(client.link.dev.bootRequest), client.link.boots[|old(client.link.boots)|..])
    ensures old(Leaving(client.link.dev) && Steady(client.link.c, client.link.script, 1)) && mode <= 1 ==> ok
  {
    hide Inv, Installed, Executed, Replay, Resets, Answered, Reports, LastAnswer, Led, SlotBase, Once, Steady, Leaving;
    InstalledInv(client.link.c, u, client.link.dev);
    ghost var before, s0 := client.link.dev, client.link.script;
    ghost var steady := Leaving(before) && Steady(client.link.c, s0, 1) && mode <= 1;
    if steady {
      SteadyStep(client.link.c, s0, 1, 0);
      BootSteady(client.link.c, before, s0[0].world, mode);
    }
    var r := client.Run(CMD_BOOT, [mode], NeverResend);
    InstalledOutcome(client.link.c, u, before, client.link.past, CMD_BOOT, [mode]);
    if r.Done? {
      DoneIsLast(client.link.c, before, client.link.dev, client.link.past, CMD_BOOT, [mode], client.link.lastRan, r.payload);
      BootLed(client.link.c, u, image, before, client.link.past, mode, client.link.lastRan, r.payload);
    }
    ok := r.Done?;
  }

  lemma DoneIsLast(c: Config, d: Dev, e: Dev, hs: seq<Happening>, cmd: Byte, pl: Bytes, k: nat, p: Bytes)
    requires Executed(c, d, e, hs, cmd, pl, k, p)
    ensures Inv(c, d) && LastAnswer(c, d, hs, cmd, pl, k, p) && |p| > 0 && p[0] == OK
  {
    hide Inv, LastAnswer, Replay;
  }

  /** COMMIT done; check and boot as asked, and nothing else. On a steady link all of it is answered. */
  method Finish(client: BootClient, image: HostImage, p: Plan, boot: bool, holds: bool, ghost u: Transfer)
    returns (failure: Option<FlowResult>)
    requires client.link.Idle() && Installed(client.link.c, u, client.link.dev)
    requires image.base == SlotBase(client.link.c, u.slot) < U32_LIMIT && image.bytes == u.image
    requires |image.bytes| < U32_LIMIT && p.crc == Crc(image.bytes) && (p.liveCheck ==> CrcLive(client.link.c))
    modifies client`seqNo, client.link
    ensures Installed(client.link.c, u, client.link.dev)
    ensures failure.Some? ==> failure.value == CommandFailed
    ensures old(client.link.boots) <= client.link.boots && old(client.link.sent) <= client.link.sent
    ensures failure.None? ==> client.link.sent == old(client.link.sent) + Ending(image, p.liveCheck, boot, holds)
    ensures failure.None? ==>
      Parted(image, boot, holds, old(client.link.dev.bootRequest), client.link.boots[|old(client.link.boots)|..])
    ensures old(Leaving(client.link.dev) && Steady(client.link.c, client.link.script, 2)) ==> failure.None?
  {
    hide Installed, Crc, SlotBase, CrcLive, Led, Steady, Leaving, ErasePayload;
    ghost var asked, b0 := client.link.dev.bootRequest, client.link.boots;
    ghost var steady := Leaving(client.link.dev) && Steady(client.link.c, client.link.script, 2);
    if steady {
      SteadyLess(client.link.c, client.link.script, 2, 1);
    }
    if p.liveCheck {
      var same := LiveCheck(client, image, p.crc, u, 1);
      if same.None? {
        return Some(CommandFailed);
      }
      if !same.value {
        return Some(VerifyMismatch);
      }
    }
    if boot || !holds {
      ghost var before := client.link.dev.bootRequest;
      var ok := Boot(client, image, if boot then 0 else 1, u);
      if !ok {
        return Some(CommandFailed);
      }
      LedEarlier(image, if boot then 0 else 1, asked, before, client.link.boots[|b0|..]);
    }
    return None;
  }

  lemma LedEarlier(image: HostImage, mode: Byte, asked: bool, later: bool, boots: seq<Boot>)
    requires Led(image, mode, later, boots) && (!asked ==> !later)
    ensures Led(image, mode, asked, boots)
  {
  }

  /** Where the flow leaves the device: the image started if that was asked, back in the bootloader if it was not and
      the transport cannot hold the device there, and otherwise never reset. */
  ghost predicate Parted(image: HostImage, boot: bool, holds: bool, asked: bool, boots: seq<Boot>) {
    if boot then Led(image, 0, asked, boots) else if holds then boots == [] else Led(image, 1, asked, boots)
  }

  // ---- the whole flow ----------------------------------------------------

  /** HELLO: a session on unchanged flash, and the device's own values. On a steady link it is answered. */
  method Hello(client: BootClient, ghost image: Bytes, ghost rest: nat) returns (info: Option<DeviceInfo>, ghost m: Dev)
    requires client.link.Idle() && Inv(client.link.c, client.link.dev)
    modifies client`seqNo, client.link
    ensures Inv(client.link.c, client.link.dev)
    ensures client.link.dev == Replay(client.link.c, old(client.link.dev), client.link.past, CMD_HELLO, HELLO_REQUEST)
    ensures info.Some? ==>
      && client.link.Idle() && WellFormed(client.link.c, m) && info.value == OwnInfo(client.link.c, m)
      && Usable(info.value) && WriteBase(client.link.c, m) <= client.link.c.siliconEnd
    ensures info.Some? ==> forall i: Bytes ::
      Opened(client.link.c, Transfer(m.ram.writeSlot, old(client.link.dev).flash.cell, i), client.link.dev)
    ensures client.link.boots == old(client.link.boots)
    ensures !old(client.link.dev.bootRequest) ==> !client.link.dev.bootRequest
    ensures client.link.sent == old(client.link.sent) + [(CMD_HELLO, HELLO_REQUEST)]
    ensures old(Steady(client.link.c, client.link.script, 1 + rest)) ==>
      && WellFormed(client.link.c, old(client.link.dev)) && info == Some(OwnInfo(client.link.c, old(client.link.dev)))
      && Greeted(client.link.c, old(client.link.dev), client.link.dev) && Steady(client.link.c, client.link.script, rest)
  {
    hide Inv, Executed, Replay, ParseInfo, HelloPayload, Opened, OwnInfo, Usable, WellFormed, Once, Resets, Accounted,
         Steady, Greeted;
    ghost var before, s0 := client.link.dev, client.link.script;
    ghost var steady := Steady(client.link.c, s0, 1 + rest);
    m := before;
    if steady {
      SteadyStep(client.link.c, s0, 1 + rest, rest);
      HelloGreets(client.link.c, before, s0[0].world);
      RanOnce(client.link.c, before, s0[0].world, CMD_HELLO, HELLO_REQUEST);
    }
    var r := client.Run(CMD_HELLO, HELLO_REQUEST, Attempts(MAX_ATTEMPTS));
    OnlyBootResets(client.link.c, before, client.link.past, CMD_HELLO, HELLO_REQUEST);
    if !r.Done? {
      return None, m;
    }
    m := HelloOutcome(client.link.c, before, client.link.dev, client.link.past, client.link.lastRan, r.payload, image);
    AnyImage(client.link.c, m.ram.writeSlot, before.flash.cell, image, client.link.dev);
    info := ParseInfo(r.payload);
    HelloAlwaysAccepted(client.link.c, m);
    ParsedUsable(client.link.c, m);
    OwnMajor(client.link.c, m);
    if info.Some? && info.value.protoMajor != PROTO_MAJOR {
      info := None;
    }
  }

  lemma OwnMajor(c: Config, d: Dev)
    requires WellFormed(c, d)
    ensures OwnInfo(c, d).protoMajor == PROTO_MAJOR && OwnInfo(c, d).chipFamily == c.family
  {
  }

  /** The session HELLO leaves on a device: the erase loop can begin, whatever the image. */
  ghost predicate Greeted(c: Config, d: Dev, h: Dev) {
    && c.eraseBlock > 0 && Inv(c, h) && h.ram == SessionOpen(c, d).ram && h.flash.cell == d.flash.cell
    && forall i: Bytes :: Erased(c, Transfer(d.ram.writeSlot, d.flash.cell, i), d.ram.highest, SlotBase(c, d.ram.writeSlot), h)
  }

  lemma HelloGreets(c: Config, d: Dev, w: World)
    requires Inv(c, d)
    ensures WellFormed(c, d)
    ensures var s := Once(c, d, w, CMD_HELLO, HELLO_REQUEST);
      s.payload[0] == OK && ParseInfo(s.payload) == Some(OwnInfo(c, d)) && Greeted(c, d, s.dev)
  {
    hide Inv, Once, Erased, OwnInfo, ParseInfo, WellFormed, HelloPayload;
    HelloSteady(c, d, w, []);
    HelloOnce(c, d, w);
    forall i: Bytes
      ensures Erased(c, Transfer(d.ram.writeSlot, d.flash.cell, i), d.ram.highest, SlotBase(c, d.ram.writeSlot),
                     Once(c, d, w, CMD_HELLO, HELLO_REQUEST).dev)
    {
      HelloSteady(c, d, w, i);
    }
  }

  /** What the flow makes of a device and a source when nothing goes wrong: refused without a build of the device's
      family for its write slot that fits there, a dry run unless forced, and otherwise flashed into that slot. */
  function Expected(c: Config, d: Dev, source: Source, force: bool): FlowResult
    requires WellFormed(c, d)
  {
    var image := ForBase(source, WriteBase(c, d));
    if !FamilyFits(source, c.family) || image.None? || !Committable(OwnInfo(c, d), image.value) then Refused
    else if !force then DryRun
    else Flashed(d.ram.writeSlot, image.value)
  }

  /** The image for the device's write slot is one COMMIT takes: whole words, and a generation left for it. */
  predicate Suits(c: Config, d: Dev, source: Source)
    requires WellFormed(c, d)
  {
    var image := ForBase(source, WriteBase(c, d));
    image.Some? ==> |image.value.bytes| > 0 && |image.value.bytes| % 4 == 0 && d.ram.highest + 1 < GENERATION_CEILING
  }

  lemma PlanStarts(c: Config, d: Dev, h: Dev, image: HostImage, verify: bool, script: seq<Act>)
    requires WellFormed(c, d) && Greeted(c, d, h) && Usable(OwnInfo(c, d))
    requires PlanFlash(OwnInfo(c, d), image, verify).Some?
    requires |image.bytes| > 0 && |image.bytes| % 4 == 0 && d.ram.highest + 1 < GENERATION_CEILING
    requires Steady(c, script, 2 * ImageMax(c) + 3)
    ensures Starting(c, Transfer(d.ram.writeSlot, d.flash.cell, image.bytes), d.ram.highest,
                     PlanFlash(OwnInfo(c, d), image, verify).value, h, script, 2)
  {
    hide Inv, Erased, Steady, Crc, OwnInfo, PlanFlash, RoundUp, Greeted, Usable, SlotBase, Capacity, Sweep, Starting, Legal,
         ImageMax;
    PlanGeometry(c, d, image, verify);
    SpanFits(c, d.ram.writeSlot, image.bytes);
    SpanSweep(c, Transfer(d.ram.writeSlot, d.flash.cell, image.bytes), d);
    MakesStart(c, d, h, image.bytes, PlanFlash(OwnInfo(c, d), image, verify).value, script);
  }

  lemma SpanSweep(c: Config, u: Transfer, d: Dev)
    requires WellFormed(c, d) && Capacity(c, u.slot) != 0 && |u.image| <= ImageMax(c) && IsSlot(u.slot)
    ensures c.eraseBlock > 0 && Sweep(c, u, 0, RoundUp(|u.image|, c.eraseBlock))
  {
    hide RoundUp;
    SpanFits(c, u.slot, u.image);
  }

  lemma MakesStart(c: Config, d: Dev, h: Dev, image: Bytes, p: Plan, script: seq<Act>)
    requires Legal(c) && Greeted(c, d, h) && Steady(c, script, 2 * ImageMax(c) + 3)
    requires 0 < |image| <= p.eraseLen <= ImageMax(c) < U32_LIMIT && |image| % 4 == 0
    requires p.chunk == MAX_WRITE_DATA && p.block == c.eraseBlock && d.ram.highest + 1 < GENERATION_CEILING
    requires Sweep(c, Transfer(d.ram.writeSlot, d.flash.cell, image), 0, p.eraseLen)
    ensures Starting(c, Transfer(d.ram.writeSlot, d.flash.cell, image), d.ram.highest, p, h, script, 2)
  {
    hide Inv, Erased, Steady, Sweep, SlotBase, Legal, ImageMax;
    SteadyLess(c, script, 2 * ImageMax(c) + 3, p.eraseLen - 0 + (|image| + 1 + 2));
    assert SlotBase(c, d.ram.writeSlot) + 0 == SlotBase(c, d.ram.writeSlot);
  }

  lemma PlanGeometry(c: Config, d: Dev, image: HostImage, verify: bool)
    requires WellFormed(c, d) && Usable(OwnInfo(c, d)) && PlanFlash(OwnInfo(c, d), image, verify).Some?
    ensures var p := PlanFlash(OwnInfo(c, d), image, verify).value;
      && p.eraseLen == RoundUp(|image.bytes|, c.eraseBlock) && p.block == c.eraseBlock && p.chunk == MAX_WRITE_DATA
      && Capacity(c, d.ram.writeSlot) != 0 && |image.bytes| <= ImageMax(c) && p.liveCheck == (verify && CrcLive(c))
  {
    hide Crc, RoundUp;
  }

  /** Everything a completed flow sent after HELLO: the upload and its ending. */
  ghost predicate Session(sent: seq<(Byte, Bytes)>, image: HostImage, check: bool, boot: bool, holds: bool) {
    && |image.bytes| < U32_LIMIT && image.base < U32_LIMIT
    && var e := |Ending(image, check, boot, holds)|;
    && |sent| >= e && Upload(sent[..|sent| - e], image.bytes) && sent[|sent| - e..] == Ending(image, check, boot, holds)
  }

  lemma SessionSent(up: seq<(Byte, Bytes)>, image: HostImage, check: bool, boot: bool, holds: bool)
    requires |image.bytes| < U32_LIMIT && image.base < U32_LIMIT && Upload(up, image.bytes)
    ensures Session(up + Ending(image, check, boot, holds), image, check, boot, holds)
  {
    hide Upload, Ending;
    var e := Ending(image, check, boot, holds);
    var sent := up + e;
    assert sent[..|sent| - |e|] == up && sent[|sent| - |e|..] == e;
  }

  /** The forced part of the flow. */
  method ExecuteFlash(client: BootClient, image: HostImage, p: Plan, boot: bool, holds: bool, ghost u: Transfer,
                      ghost highest: nat)
    returns (failure: Option<FlowResult>)
    requires client.link.Idle() && Opened(client.link.c, u, client.link.dev)
    requires image.bytes == u.image && image.base == SlotBase(client.link.c, u.slot) <= client.link.c.siliconEnd
    requires p.block > 0 && image.base + p.eraseLen < U32_LIMIT && |image.bytes| <= p.eraseLen
    requires 0 < p.chunk <= MAX_WRITE_DATA && p.crc == Crc(image.bytes) && (p.liveCheck ==> CrcLive(client.link.c))
    modifies client`seqNo, client.link
    ensures Inv(client.link.c, client.link.dev)
    ensures failure.Some? ==> failure.value == CommandFailed
    ensures old(client.link.sent) <= client.link.sent && old(client.link.boots) <= client.link.boots
    ensures failure.None? ==>
      && Installed(client.link.c, u, client.link.dev)
      && Session(client.link.sent[|old(client.link.sent)|..], image, p.liveCheck, boot, holds)
      && Parted(image, boot, holds, old(client.link.dev.bootRequest), client.link.boots[|old(client.link.boots)|..])
    ensures old(Starting(client.link.c, u, highest, p, client.link.dev, client.link.script, 2)) ==> failure.None?
  {
    hide Inv, Opened, Installed, Crc, SlotBase, CrcLive, Steady, Starting, Upload, Ending, Session, Led, Leaving;
    ghost var s0, b0, asked := client.link.sent, client.link.boots, client.link.dev.bootRequest;
    failure := Transmit(client, image, p, u, highest, 2);
    if failure.Some? {
      return;
    }
    ghost var s1, later := client.link.sent, client.link.dev.bootRequest;
    failure := Finish(client, image, p, boot, holds, u);
    InstalledInv(client.link.c, u, client.link.dev);
    if failure.None? {
      SessionSent(s1[|s0|..], image, p.liveCheck, boot, holds);
      assert client.link.sent[|s0|..] == s1[|s0|..] + Ending(image, p.liveCheck, boot, holds);
      PartedEarlier(image, boot, holds, asked, later, client.link.boots[|b0|..]);
    }
  }

  lemma PartedEarlier(image: HostImage, boot: bool, holds: bool, asked: bool, later: bool, boots: seq<Boot>)
    requires Parted(image, boot, holds, later, boots) && (!asked ==> !later)
    ensures Parted(image, boot, holds, asked, boots)
  {
  }

  /** What a run of the flow that says Flashed has established. */
  ghost predicate Complete(c: Config, d: Dev, e: Dev, source: Source, verify: bool, boot: bool, holds: bool, slot: nat,
                           image: HostImage, sent: seq<(Byte, Bytes)>, boots: seq<Boot>) {
    && (source == Single(image) || (source.Variants? && image in source.images)) && FamilyFits(source, c.family)
    && IsSlot(slot) && SlotBase(c, slot) == image.base
    && Installed(c, Transfer(slot, d.flash.cell, image.bytes), e)
    && |sent| > 0 && sent[0] == (CMD_HELLO, HELLO_REQUEST)
    && Session(sent[1..], image, verify && CrcLive(c), boot, holds) && Parted(image, boot, holds, d.bootRequest, boots)
  }

  lemma Completes(c: Config, d: Dev, e: Dev, source: Source, verify: bool, boot: bool, holds: bool, slot: nat,
                  image: HostImage, sent: seq<(Byte, Bytes)>, boots: seq<Boot>)
    requires IsSlot(slot) && SlotBase(c, slot) == image.base && FamilyFits(source, c.family)
    requires ForBase(source, image.base) == Some(image)
    requires Installed(c, Transfer(slot, d.flash.cell, image.bytes), e)
    requires |sent| > 0 && sent[0] == (CMD_HELLO, HELLO_REQUEST)
    requires Session(sent[1..], image, verify && CrcLive(c), boot, holds) && Parted(image, boot, holds, d.bootRequest, boots)
    ensures Complete(c, d, e, source, verify, boot, holds, slot, image, sent, boots)
  {
    hide Installed, Session, Parted, CrcLive, FamilyFits, SlotBase;
  }

  /** The whole flow. Flashed means: over a link that may lose or corrupt any message, with any flash failures and
      resets on the way, the device holds exactly the image at the write base, under a valid record newer than the
      other slot's, nothing outside that slot has changed, and the device was last sent where the options ask. The
      device never contradicts an image it accepted: neither COMMIT nor the read-back reports a mismatch. Without
      force nothing but HELLO is sent. And on a link that delivers, to a device on which nothing fails, the flow ends
      as the source and the device's own geometry decide. */
  method FlashDevice(client: BootClient, source: Source, force: bool, verify: bool, boot: bool, holds: bool)
    returns (r: FlowResult)
    requires client.link.Idle() && Inv(client.link.c, client.link.dev)
    modifies client`seqNo, client.link
    ensures Inv(client.link.c, client.link.dev)
    ensures r != VerifyMismatch
    ensures r == DryRun ==> !force
    ensures !force || r == Refused ==>
      && client.link.sent == old(client.link.sent) + [(CMD_HELLO, HELLO_REQUEST)]
      && client.link.boots == old(client.link.boots) && client.link.dev.flash.cell == old(client.link.dev.flash.cell)
    ensures old(client.link.sent) <= client.link.sent && old(client.link.boots) <= client.link.boots
    ensures r.Flashed? ==> force && Complete(client.link.c, old(client.link.dev), client.link.dev, source, verify, boot,
      holds, r.slot, r.image, client.link.sent[|old(client.link.sent)|..], client.link.boots[|old(client.link.boots)|..])
    ensures WellFormed(client.link.c, old(client.link.dev))
    ensures old(Steady(client.link.c, client.link.script, 2 * ImageMax(client.link.c) + 4)
                && Suits(client.link.c, client.link.dev, source)) ==>
      r == old(Expected(client.link.c, client.link.dev, source, force))
  {
    hide Inv, Opened, Installed, Crc, WellFormed, SlotBase, CrcLive, Steady, Starting, Session, Parted, Legal, ImageMax,
         Complete, Suits, Expected, Fits, FamilyFits, ForBase;
    ghost var first, b0, s0 := client.link.dev, client.link.boots, client.link.sent;
    P.InvWellFormed(client.link.c, first);
    var greeted, choice, slot := Choose(client, source, verify);
    if !greeted {
      return CommandFailed;
    }
    if choice.None? {
      return Refused;
    }
    if !force {
      return DryRun;
    }
    var (image, plan) := choice.value;
    FitsFacts(client.link.c, first, client.link.dev, source, verify, slot, image, plan);
    ghost var u := Transfer(slot, first.flash.cell, image.bytes);
    ghost var s1, asked := client.link.sent, client.link.dev.bootRequest;
    var failure := ExecuteFlash(client, image, plan, boot, holds, u, first.ram.highest);
    if failure.Some? {
      return failure.value;
    }
    PartedEarlier(image, boot, holds, first.bootRequest, asked, client.link.boots[|b0|..]);
    assert client.link.sent[|s0|..][1..] == client.link.sent[|s1|..];
    Completes(client.link.c, first, client.link.dev, source, verify, boot, holds, slot, image,
              client.link.sent[|s0|..], client.link.boots[|b0|..]);
    r := Flashed(slot, image);
  }

  /** A choice the device can take, after HELLO. */
  ghost predicate Fits(c: Config, d: Dev, h: Dev, source: Source, verify: bool, slot: nat, image: HostImage, p: Plan) {
    && FamilyFits(source, c.family) && ForBase(source, image.base) == Some(image)
    && IsSlot(slot) && image.base == SlotBase(c, slot) <= c.siliconEnd
    && p.block > 0 && |image.bytes| <= p.eraseLen && image.base + p.eraseLen < U32_LIMIT
    && 0 < p.chunk <= MAX_WRITE_DATA && p.crc == Crc(image.bytes) && p.liveCheck == (verify && CrcLive(c))
    && Opened(c, Transfer(slot, d.flash.cell, image.bytes), h)
  }

  lemma FitsFacts(c: Config, d: Dev, h: Dev, source: Source, verify: bool, slot: nat, image: HostImage, p: Plan)
    requires Fits(c, d, h, source, verify, slot, image, p)
    ensures FamilyFits(source, c.family) && ForBase(source, image.base) == Some(image)
    ensures IsSlot(slot) && image.base == SlotBase(c, slot) <= c.siliconEnd
    ensures p.block > 0 && |image.bytes| <= p.eraseLen && image.base + p.eraseLen < U32_LIMIT
    ensures 0 < p.chunk <= MAX_WRITE_DATA && p.crc == Crc(image.bytes) && p.liveCheck == (verify && CrcLive(c))
    ensures Opened(c, Transfer(slot, d.flash.cell, image.bytes), h)
  {
    hide Opened, Crc, CrcLive, SlotBase, FamilyFits, ForBase;
  }

  /** HELLO, then the build for the slot the device names and the plan for it. */
  method Choose(client: BootClient, source: Source, verify: bool)
    returns (greeted: bool, choice: Option<(HostImage, Plan)>, slot: nat)
    requires client.link.Idle() && Inv(client.link.c, client.link.dev)
    modifies client`seqNo, client.link
    ensures Inv(client.link.c, client.link.dev) && WellFormed(client.link.c, old(client.link.dev))
    ensures client.link.sent == old(client.link.sent) + [(CMD_HELLO, HELLO_REQUEST)]
    ensures client.link.boots == old(client.link.boots) && client.link.dev.flash.cell == old(client.link.dev.flash.cell)
    ensures !old(client.link.dev.bootRequest) ==> !client.link.dev.bootRequest
    ensures choice.Some? ==>
      && greeted && client.link.Idle()
      && Fits(client.link.c, old(client.link.dev), client.link.dev, source, verify, slot, choice.value.0, choice.value.1)
    ensures old(Steady(client.link.c, client.link.script, 2 * ImageMax(client.link.c) + 4)
                && Suits(client.link.c, client.link.dev, source)) ==>
      && greeted
      && if choice.None? then forall f :: Expected(client.link.c, old(client.link.dev), source, f) == Refused
         else Launched(client.link.c, old(client.link.dev), client.link.dev, source, slot, choice.value.0, choice.value.1,
                       client.link.script)
  {
    hide Inv, Opened, OwnInfo, Crc, WellFormed, PlanFlash, SlotBase, Usable, CrcLive, Replay, Steady, Greeted, Starting,
         Committable, FamilyFits, Legal, ForBase, ImageMax, Choice, Expected, Suits, Fits, Launched;
    ghost var first := client.link.dev;
    P.InvWellFormed(client.link.c, first);
    ghost var room := 2 * ImageMax(client.link.c) + 3;
    ghost var steady := Steady(client.link.c, client.link.script, 1 + room) && Suits(client.link.c, first, source);
    var info, m := Hello(client, [], room);
    HelloKeepsFlash(client.link.c, first, client.link.past);
    slot := 0;
    if info.None? {
      return false, None, slot;
    }
    greeted, choice := true, Choice(source, info.value, verify);
    slot := if info.value.writeSlot == 0 then 0 else 1;
    if choice.Some? {
      ChosenFits(client.link.c, first, m, client.link.dev, source, verify);
    }
    if steady {
      ChosenExactly(client.link.c, first, source, verify);
      if choice.Some? {
        ChosenStarts(client.link.c, first, client.link.dev, source, verify, client.link.script);
      }
    }
  }

  /** On a steady link the choice is what the device and the source make it, and the upload can start. */
  ghost predicate Launched(c: Config, d: Dev, h: Dev, source: Source, slot: nat, image: HostImage, p: Plan,
                           script: seq<Act>)
    requires WellFormed(c, d)
  {
    && Expected(c, d, source, false) == DryRun && Expected(c, d, source, true) == Flashed(slot, image)
    && Starting(c, Transfer(slot, d.flash.cell, image.bytes), d.ram.highest, p, h, script, 2)
  }

  lemma ChosenFits(c: Config, d: Dev, m: Dev, h: Dev, source: Source, verify: bool)
    requires WellFormed(c, m) && Usable(OwnInfo(c, m)) && Choice(source, OwnInfo(c, m), verify).Some?
    requires WriteBase(c, m) <= c.siliconEnd
    requires forall i: Bytes :: Opened(c, Transfer(m.ram.writeSlot, d.flash.cell, i), h)
    ensures var (image, p) := Choice(source, OwnInfo(c, m), verify).value;
      Fits(c, d, h, source, verify, if OwnInfo(c, m).writeSlot == 0 then 0 else 1, image, p)
  {
    hide Crc, OwnInfo, PlanFlash, SlotBase, Usable, Legal, ForBase, Choice, FamilyFits, Opened, CrcLive, WellFormed;
    ChosenGeometry(c, m, source, verify);
  }

  lemma ChosenStarts(c: Config, d: Dev, h: Dev, source: Source, verify: bool, script: seq<Act>)
    requires WellFormed(c, d) && Usable(OwnInfo(c, d)) && Choice(source, OwnInfo(c, d), verify).Some? && Suits(c, d, source)
    requires Greeted(c, d, h) && Steady(c, script, 2 * ImageMax(c) + 3)
    ensures var (image, p) := Choice(source, OwnInfo(c, d), verify).value;
      Launched(c, d, h, source, if OwnInfo(c, d).writeSlot == 0 then 0 else 1, image, p, script)
  {
    hide Crc, OwnInfo, PlanFlash, SlotBase, Usable, Steady, Greeted, Starting, Legal, ForBase, ImageMax, Choice, WellFormed,
         Expected;
    ChosenGeometry(c, d, source, verify);
    ChosenExactly(c, d, source, verify);
    PlanStarts(c, d, h, Choice(source, OwnInfo(c, d), verify).value.0, verify, script);
  }

  /** The build for the device's write slot and the plan to send it, if the device can take it. */
  function Choice(source: Source, info: DeviceInfo, verify: bool): Option<(HostImage, Plan)>
    requires Usable(info)
  {
    if !FamilyFits(source, info.chipFamily) then None
    else
      var image := ForBase(source, info.writeBase);
      if image.None? then None
      else
        var plan := PlanFlash(info, image.value, verify);
        if plan.None? then None else Some((image.value, plan.value))
  }

  lemma ChosenExactly(c: Config, d: Dev, source: Source, verify: bool)
    requires WellFormed(c, d) && Usable(OwnInfo(c, d))
    ensures Expected(c, d, source, false) == (if Choice(source, OwnInfo(c, d), verify).None? then Refused else DryRun)
    ensures Choice(source, OwnInfo(c, d), verify).Some? ==>
      Expected(c, d, source, true) == Flashed(d.ram.writeSlot, Choice(source, OwnInfo(c, d), verify).value.0)
    ensures Choice(source, OwnInfo(c, d), verify).None? ==> Expected(c, d, source, true) == Refused
  {
    hide ForBase, Crc, OwnInfo, FamilyFits, PlanFlash, Committable;
    OwnBase(c, d);
    var image := ForBase(source, WriteBase(c, d));
    if image.Some? {
      PlannedExactly(c, d, image.value, verify);
    }
  }

  lemma ChosenGeometry(c: Config, d: Dev, source: Source, verify: bool)
    requires WellFormed(c, d) && Usable(OwnInfo(c, d)) && Choice(source, OwnInfo(c, d), verify).Some?
    ensures var (image, p) := Choice(source, OwnInfo(c, d), verify).value;
      && FamilyFits(source, c.family) && ForBase(source, WriteBase(c, d)) == Some(image)
      && OwnInfo(c, d).writeBase == WriteBase(c, d) && PlanFlash(OwnInfo(c, d), image, verify) == Some(p)
      && image.base == WriteBase(c, d) && p.block > 0
      && |image.bytes| <= p.eraseLen && image.base + p.eraseLen < U32_LIMIT
      && 0 < p.chunk <= MAX_WRITE_DATA && p.crc == Crc(image.bytes) && p.liveCheck == (verify && CrcLive(c))
    ensures IsSlot(d.ram.writeSlot) && d.ram.writeSlot == if OwnInfo(c, d).writeSlot == 0 then 0 else 1
  {
    hide ForBase, Crc, OwnInfo, FamilyFits, PlanFlash;
    OwnBase(c, d);
    var image := Choice(source, OwnInfo(c, d), verify).value.0;
    PlanFacts(c, d, image, verify);
    PlanGeometry(c, d, image, verify);
  }

  lemma OwnBase(c: Config, d: Dev)
    requires WellFormed(c, d)
    ensures OwnInfo(c, d).writeBase == WriteBase(c, d) && OwnInfo(c, d).chipFamily == c.family
    ensures (if OwnInfo(c, d).writeSlot == 0 then 0 else 1) == d.ram.writeSlot
  {
  }

  lemma PlannedExactly(c: Config, d: Dev, image: HostImage, verify: bool)
    requires WellFormed(c, d) && Usable(OwnInfo(c, d))
    ensures PlanFlash(OwnInfo(c, d), image, verify).Some? <==> Committable(OwnInfo(c, d), image)
  {
    hide Crc, OwnInfo;
    if Committable(OwnInfo(c, d), image) {
      PlanAlwaysFits(c, d, image, verify);
    }
  }
}
