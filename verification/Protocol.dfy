/** What each command answers: the status bytes of the protocol (docs/PROTOCOL.md, sections 5 to 7) and exactly
    when each is sent. */
module Protocol {
  import opened Bytes
  import opened Crc32
  import opened Geometry
  import opened Flash
  import opened Record
  import opened Decision
  import opened Core
  import opened Invariant
  import opened Preservation
  import opened WritePath
  import opened CommitPath
  import opened Frames
  import opened Theorems

  // ---- which commands run ------------------------------------------------

  /** Without a session only HELLO is looked at; opcodes outside the protocol never run; and the only answer after
      which the device resets is BOOT's OK. */
  lemma OnlyHelloOpens(c: Config, d: Dev, cmd: Byte, pl: Bytes)
    requires WellFormed(c, d)
    ensures !(0x01 <= cmd <= 0x06) ==> Execute(c, d, cmd, pl) == Step(d, [0x03, 0x00], Continue)
    ensures 0x02 <= cmd <= 0x06 && !d.ram.session ==> Execute(c, d, cmd, pl) == Step(d, [0x04, 0x00], Continue)
    ensures Execute(c, d, cmd, pl).action == ResetDevice
      <==> cmd == 0x06 && d.ram.session && Execute(c, d, cmd, pl).payload == [0x00]
  {
    hide DoHello, DoErase, DoWrite, DoCrc, DoCommit, RecordTrusted;
  }

  /** What the device says to bytes that are no request: nothing to what it cannot delimit, a frame error to a bad
      CRC, a refusal under the command's own opcode to nonzero flags; and none of it changes anything. */
  lemma NotARequest(c: Config, d: Dev, buf: Bytes, w: World)
    requires WellFormed(c, d) && !Receive(buf).Request?
    ensures HandleFrame(c, d, buf, w).dev == d && HandleFrame(c, d, buf, w).action == Continue
    ensures var delimited := |buf| >= 8 && Digit(buf[2]) <= 56 && 8 + Digit(buf[2]) <= |buf|;
      HandleFrame(c, d, buf, w).reply ==
        if !delimited then Silent
        else if Crc(buf[..4 + Digit(buf[2])]) != LeWord(buf[4 + Digit(buf[2])..8 + Digit(buf[2])]) then
          Answer(Seal(0xFF, buf[1], [0x01, 0x00]))
        else Answer(Seal(buf[0] | 0x80, buf[1], [0x05, 0x00]))
  {
    hide Crc, LeWord, Seal, Digit, WellFormed;
  }

  // ---- HELLO -------------------------------------------------------------

  /** HELLO is accepted exactly on its six bytes: magic OBP1 and version 0.2. */
  lemma HelloAnswers(c: Config, d: Dev, pl: Bytes)
    requires WellFormed(c, d)
    ensures var (e, p) := DoHello(c, d, pl);
      && (p[0] == 0x00 <==> pl == [0x4F, 0x42, 0x50, 0x31, 0x00, 0x02])
      && (p == [0x02, 0x00] <==> |pl| != 6)
      && (p == [0x05, 0x00] <==> |pl| == 6 && pl[..4] != [0x4F, 0x42, 0x50, 0x31])
      && (p == [0x0A, 0x00] <==> |pl| == 6 && pl[..4] == [0x4F, 0x42, 0x50, 0x31] && pl[4..] != [0x00, 0x02])
      && (if p[0] == 0x00 then |p| == 48 && p[39] == 0x00 else |p| == 2 && e == d)
  {
    hide HelloPayload, SessionOpen;
    HelloFirst(c, d);
    if |pl| == 6 {
      assert pl == pl[..4] + pl[4..] && pl[4..] == [pl[4], pl[5]];
    }
  }

  lemma HelloFirst(c: Config, d: Dev)
    requires WellFormed(c, d)
    ensures WellFormed(c, SessionOpen(c, d)) && |HelloPayload(c, SessionOpen(c, d))| == 48
    ensures HelloPayload(c, SessionOpen(c, d))[0] == HelloPayload(c, SessionOpen(c, d))[39] == 0x00
  {
  }

  /** What survives from one session to the next. */
  ghost predicate SamePowerCycle(d: Dev, e: Dev) {
    && d.flash == e.flash && d.bootRequest == e.bootRequest
    && d.ram.rec == e.ram.rec && d.ram.committedLen == e.ram.committedLen && d.ram.committedCrc == e.ram.committedCrc
    && d.ram.highest == e.ram.highest && d.ram.active == e.ram.active && d.ram.writeSlot == e.ram.writeSlot
  }

  /** An accepted HELLO forgets every earlier session: what it leaves depends on flash and on what is kept for the
      power cycle alone, and those it keeps. Nothing is marked erased and the slot counts as armed. */
  lemma HelloForgets(c: Config, d: Dev, e: Dev)
    requires WellFormed(c, d) && WellFormed(c, e) && SamePowerCycle(d, e)
    ensures DoHello(c, d, HELLO_REQUEST_BYTES) == DoHello(c, e, HELLO_REQUEST_BYTES)
    ensures var h := DoHello(c, d, HELLO_REQUEST_BYTES).0;
      SamePowerCycle(d, h) && h.ram.session && !h.ram.disarmed && h.ram.bitmap == {}
  {
    hide HelloPayload;
  }

  const HELLO_REQUEST_BYTES: Bytes := [0x4F, 0x42, 0x50, 0x31, 0x00, 0x02]

  // ---- ERASE -------------------------------------------------------------

  /** The window a session may change, in addresses: the write slot below its record reserve, and nothing when the
      silicon cannot hold the slot. */
  predicate Writable(c: Config, d: Dev, addr: nat, len: nat) {
    var base := c.appStart + d.ram.writeSlot * c.slotSize;
    base + c.slotSize <= c.siliconEnd && 0 < len && base <= addr && addr + len + 4096 <= base + c.slotSize
  }

  lemma WritableIsWindow(c: Config, d: Dev, addr: nat, len: nat)
    requires WellFormed(c, d)
    ensures Writable(c, d, addr, len) <==> InWindow(c, d.ram.writeSlot, addr, len)
  {
  }

  /** The report of the first of the next `n` erases to fail, or 0. */
  function FirstFailure(plan: seq<Outcome>, n: nat): Byte {
    if n == 0 then 0
    else if |plan| == 0 then 0xE0
    else if EraseCode(plan[0]) != 0 then EraseCode(plan[0])
    else FirstFailure(plan[1..], n - 1)
  }

  lemma {:induction false} LoopReports(c: Config, d: Dev, a: nat, end: nat, n: nat)
    requires WellFormed(c, d) && a % c.eraseBlock == 0 && c.appStart <= a && end <= c.siliconEnd
    requires end == a + n * c.eraseBlock
    ensures EraseLoop(c, d, a, end).1 == FirstFailure(d.flash.plan, n)
    decreases n
  {
    hide Erase, BitmapMark, EraseAllowed;
    if n > 0 {
      NextBlockFits(c, d, a, end, n);
      EraseReports(c, d.flash, a);
      FailureStep(d.flash.plan, n);
      if Erase(c, d.flash, a).1 == 0 {
        MarkKeeps(c, d, Erase(c, d.flash, a).0, a);
        LoopReports(c, BitmapMark(c, d.(flash := Erase(c, d.flash, a).0), a), a + c.eraseBlock, end, n - 1);
      }
    }
  }

  lemma NextBlockFits(c: Config, d: Dev, a: nat, end: nat, n: nat)
    requires WellFormed(c, d) && a % c.eraseBlock == 0 && c.appStart <= a && end <= c.siliconEnd && n > 0
    requires end == a + n * c.eraseBlock
    ensures a < end && EraseAllowed(c, d.flash, a) && (a + c.eraseBlock) % c.eraseBlock == 0
    ensures end == a + c.eraseBlock + (n - 1) * c.eraseBlock
  {
    MulMonotone(1, n, c.eraseBlock);
    AlignedSum(a, c.eraseBlock, c.eraseBlock);
    assert (n - 1) * c.eraseBlock == n * c.eraseBlock - c.eraseBlock;
  }

  lemma FailureStep(plan: seq<Outcome>, n: nat)
    requires n > 0
    ensures FirstFailure(plan, n) == if FirstFailure(plan, 1) != 0 then FirstFailure(plan, 1) else FirstFailure(plan[1..], n - 1)
    ensures FirstFailure(plan, 1) == 0 ==> |plan| > 0
  {
    if |plan| > 0 {
      NoMore(plan[1..]);
    }
  }

  lemma MarkKeeps(c: Config, d: Dev, f: Flash, a: nat)
    requires WellFormed(c, d) && |f.cell| == |f.prog| == c.siliconEnd
    ensures var e := BitmapMark(c, d.(flash := f), a); WellFormed(c, e) && e.flash == f
  {
  }

  lemma EraseReports(c: Config, f: Flash, a: nat)
    requires EraseAllowed(c, f, a)
    ensures var (g, r) := Erase(c, f, a);
      && |g.cell| == |f.cell| && |g.prog| == |f.prog| && r == FirstFailure(f.plan, 1)
      && (r == 0 ==> |f.plan| > 0 && g.plan == f.plan[1..])
  {
    hide EraseCells, EraseProg;
    if |f.plan| > 0 {
      assert FirstFailure(f.plan[1..], 0) == 0;
    }
  }

  /** ERASE answers: a refusal changes nothing; otherwise the disarm, unless this session has done it, and one erase
      per block, and the first failure's report is the detail. */
  lemma EraseTable(c: Config, d: Dev, pl: Bytes)
    requires WellFormed(c, d)
    ensures |pl| != 8 ==> DoErase(c, d, pl) == (d, [0x02, 0x00])
    ensures |pl| == 8 ==>
      var addr, len := LeNat(pl[0..4]), LeNat(pl[4..8]);
      if addr % c.eraseBlock != 0 || len % c.eraseBlock != 0 then DoErase(c, d, pl) == (d, [0x06, 0x02])
      else if !Writable(c, d, addr, len) then DoErase(c, d, pl) == (d, [0x06, 0x01])
      else
        var r := FirstFailure(d.flash.plan, (if d.ram.disarmed then 0 else 1) + len / c.eraseBlock);
        DoErase(c, d, pl).1 == if r == 0 then [0x00] else [0x08, r]
  {
    if |pl| == 8 {
      var addr, len := LeNat(pl[0..4]), LeNat(pl[4..8]);
      WritableIsWindow(c, d, addr, len);
      hide LeNat, EraseBody, InWindow, Writable, FirstFailure, WellFormed;
      if addr % c.eraseBlock == 0 && len % c.eraseBlock == 0 && Writable(c, d, addr, len) {
        BodyReports(c, d, addr, len);
      }
    }
  }

  lemma BodyReports(c: Config, d: Dev, addr: nat, len: nat)
    requires WellFormed(c, d) && addr % c.eraseBlock == 0 && len % c.eraseBlock == 0 && Writable(c, d, addr, len)
    ensures var r := FirstFailure(d.flash.plan, (if d.ram.disarmed then 0 else 1) + len / c.eraseBlock);
      EraseBody(c, d, addr, len).1 == if r == 0 then [0x00] else [0x08, r]
  {
    hide Erase, EraseLoop, MutationBegin, FirstFailure, SlotBase;
    var d0, n := NoteErase(d, addr), len / c.eraseBlock;
    WritableInside(c, d, addr, len);
    AlignedIsProduct(len, c.eraseBlock);
    BeginPlans(c, d0);
    var (d1, r1) := MutationBegin(c, d0);
    NoMore(d.flash.plan);
    if !d.ram.disarmed {
      FailureStep(d.flash.plan, 1 + n);
    }
    if r1 == 0 {
      LoopReports(c, d1, addr, addr + len, n);
    }
  }

  lemma NoMore(plan: seq<Outcome>)
    ensures FirstFailure(plan, 0) == 0 && plan[0..] == plan
  {
  }

  lemma WritableInside(c: Config, d: Dev, addr: nat, len: nat)
    requires WellFormed(c, d) && Writable(c, d, addr, len)
    ensures Capacity(c, d.ram.writeSlot) != 0 && c.appStart <= addr && addr + len <= c.siliconEnd
    ensures EraseAllowed(c, d.flash, RecordAddr(c, d.ram.writeSlot))
  {
    SlotLayout(c, d.ram.writeSlot);
  }

  // ---- WRITE -------------------------------------------------------------

  /** The byte at `i` lies in a block of the write slot marked erased this session. */
  predicate ByteMarked(c: Config, d: Dev, i: nat)
    requires c.eraseBlock > 0
  {
    var base := c.appStart + d.ram.writeSlot * c.slotSize;
    base <= i && (i - base) / c.eraseBlock in d.ram.bitmap
  }

  /** The bitmap check over block numbers asks exactly whether every byte of the range is marked. */
  lemma MarkedIsCovered(c: Config, d: Dev, addr: nat, n: nat)
    requires c.eraseBlock > 0 && n > 0 && WriteBase(c, d) <= addr
    ensures BitmapCovers(c, d, addr, n) <==> forall i: nat :: addr <= i < addr + n ==> ByteMarked(c, d, i)
  {
    hide ByteMarked, BitmapCovers;
    if BitmapCovers(c, d, addr, n) {
      forall i: nat | addr <= i < addr + n
        ensures ByteMarked(c, d, i)
      {
        CoveredByte(c, d, addr, n, i);
      }
    }
    if forall i: nat :: addr <= i < addr + n ==> ByteMarked(c, d, i) {
      BytesCover(c, d, addr, n);
    }
  }

  lemma CoveredByte(c: Config, d: Dev, addr: nat, n: nat, i: nat)
    requires c.eraseBlock > 0 && n > 0 && WriteBase(c, d) <= addr <= i < addr + n && BitmapCovers(c, d, addr, n)
    ensures ByteMarked(c, d, i)
  {
    var base := WriteBase(c, d);
    DivMonotone(addr - base, i - base, c.eraseBlock);
    DivMonotone(i - base, addr + n - 1 - base, c.eraseBlock);
    assert (i - base) / c.eraseBlock in BlockRange(RelBlock(c, d, addr), RelBlock(c, d, addr + n - 1));
  }

  lemma BytesCover(c: Config, d: Dev, addr: nat, n: nat)
    requires c.eraseBlock > 0 && n > 0 && WriteBase(c, d) <= addr
    requires forall i: nat :: addr <= i < addr + n ==> ByteMarked(c, d, i)
    ensures BitmapCovers(c, d, addr, n)
  {
    var base := WriteBase(c, d);
    forall b: nat | b in BlockRange(RelBlock(c, d, addr), RelBlock(c, d, addr + n - 1))
      ensures b in d.ram.bitmap
    {
      var x := ByteOfBlock(addr - base, addr + n - 1 - base, b, c.eraseBlock);
      assert ByteMarked(c, d, base + x);
    }
  }

  lemma ByteOfBlock(lo: nat, hi: nat, b: nat, e: nat) returns (x: nat)
    requires e > 0 && lo <= hi && lo / e <= b <= hi / e
    ensures lo <= x <= hi && x / e == b
  {
    if b == lo / e {
      x := lo;
    } else {
      x := b * e;
      MulMonotone(lo / e + 1, b, e);
      MulMonotone(b, hi / e, e);
      ProductIsAligned(b, e);
      assert lo == (lo / e) * e + lo % e && hi == (hi / e) * e + hi % e;
      assert (lo / e + 1) * e == (lo / e) * e + e;
    }
  }

  /** How a write that reached the controller is reported. */
  function Programmed(plan: seq<Outcome>, same: bool): Byte {
    if |plan| == 0 then 0xE0 else if plan[0].code != 0 then plan[0].code else if same then 0 else 0xE5
  }

  /** An accepted WRITE: the disarm unless done, then the program, then the read-back. */
  lemma WriteBodyReports(c: Config, d: Dev, addr: nat, data: Bytes)
    requires Inv(c, d) && d.ram.session && WriteAccepted(c, d, addr, data)
    ensures WellFormed(c, d) && addr + |data| <= c.siliconEnd
    ensures var k, (e, p) := if d.ram.disarmed then 0 else 1, WriteBody(c, d, addr, data);
      && |e.flash.cell| == c.siliconEnd
      && var begun := FirstFailure(d.flash.plan, k);
      var r := if begun != 0 then begun
               else Programmed(if k <= |d.flash.plan| then d.flash.plan[k..] else [], e.flash.cell[addr..addr + |data|] == data);
      p == if r == 0 then [0x00] else [0x08, r]
  {
    hide Inv, Write, Verify, Update, Legal, SlotBase, Capacity, BitmapCovers, Classify;
    InvWellFormed(c, d);
    WindowInside(c, d, addr, |data|);
    var d0 := NoteWrite(d, addr, data);
    BeginPlans(c, d0);
    WriteReady(c, d, addr, data);
    var (d1, r1) := MutationBegin(c, d0);
    if r1 == 0 {
      WriteReports(c, d1.flash, addr, data);
    }
  }

  lemma WindowInside(c: Config, d: Dev, addr: nat, len: nat)
    requires WellFormed(c, d) && InWindow(c, d.ram.writeSlot, addr, len)
    ensures Writable(c, d, addr, len) && addr + len <= c.siliconEnd && WriteBase(c, d) <= addr
    ensures EraseAllowed(c, d.flash, RecordAddr(c, d.ram.writeSlot))
  {
    WritableIsWindow(c, d, addr, len);
    WritableInside(c, d, addr, len);
  }

  lemma BeginPlans(c: Config, d: Dev)
    requires WellFormed(c, d) && EraseAllowed(c, d.flash, RecordAddr(c, d.ram.writeSlot))
    ensures var k, (e, r) := if d.ram.disarmed then 0 else 1, MutationBegin(c, d);
      && WellFormed(c, e) && r == FirstFailure(d.flash.plan, k)
      && (r == 0 ==> k <= |d.flash.plan| && e.flash.plan == d.flash.plan[k..])
  {
    hide Erase, Legal;
    if !d.ram.disarmed {
      EraseReports(c, d.flash, RecordAddr(c, d.ram.writeSlot));
    }
  }

  lemma WriteReady(c: Config, d: Dev, addr: nat, data: Bytes)
    requires Inv(c, d) && WellFormed(c, d) && d.ram.session && WriteAccepted(c, d, addr, data)
    ensures WriteAllowed(c, MutationBegin(c, NoteWrite(d, addr, data)).0.flash, addr, |data|)
  {
    hide Inv, Erase, BitmapCovers, Classify, Touched;
    CoveredIsArmed(c, d, addr, |data|);
    WindowInside(c, d, addr, |data|);
    InvNoteWrite(c, d, addr, data);
    InvMutationBegin(c, NoteWrite(d, addr, data));
    BeginArmed(c, NoteWrite(d, addr, data));
    WritableInside(c, d, addr, |data|);
  }

  lemma BeginArmed(c: Config, d: Dev)
    requires WellFormed(c, d)
    ensures var f := MutationBegin(c, d).0.flash;
      f.armed >= d.flash.armed && |f.cell| == |d.flash.cell| && |f.prog| == |d.flash.prog|
  {
  }

  lemma WriteReports(c: Config, f: Flash, addr: nat, data: Bytes)
    requires WriteAllowed(c, f, addr, |data|)
    ensures var (g, r) := Write(c, f, addr, data);
      && |g.cell| == |f.cell|
      && Programmed(f.plan, g.cell[addr..addr + |data|] == data) == if r != 0 then r else Verify(g, addr, data)
  {
    hide Program, Touched;
  }

  /** WRITE answers: a refusal changes nothing. */
  lemma WriteTable(c: Config, d: Dev, pl: Bytes)
    requires Inv(c, d) && WellFormed(c, d) && d.ram.session
    ensures |pl| < 8 || |pl| > 52 || |pl| % 4 != 0 ==> DoWrite(c, d, pl) == (d, [0x02, 0x00])
    ensures 8 <= |pl| <= 52 && |pl| % 4 == 0 ==>
      var addr, data := LeNat(pl[0..4]), pl[4..];
      if addr % 4 != 0 then DoWrite(c, d, pl) == (d, [0x06, 0x02])
      else if !Writable(c, d, addr, |data|) then DoWrite(c, d, pl) == (d, [0x06, 0x01])
      else if exists i: nat :: addr <= i < addr + |data| && !ByteMarked(c, d, i) then
        DoWrite(c, d, pl) == (d, [0x07, 0x00])
      else WriteAccepted(c, d, addr, data) && DoWrite(c, d, pl) == WriteBody(c, d, addr, data)
  {
    hide Inv, LeNat, WriteBody, InWindow, Writable, BitmapCovers, Legal, ByteMarked;
    if 8 <= |pl| <= 52 && |pl| % 4 == 0 {
      var addr, data := LeNat(pl[0..4]), pl[4..];
      WritableIsWindow(c, d, addr, |data|);
      if Writable(c, d, addr, |data|) {
        WindowInside(c, d, addr, |data|);
        MarkedIsCovered(c, d, addr, |data|);
      }
    }
  }

  // ---- CRC ---------------------------------------------------------------

  /** CRC answers, never changing anything: for word-aligned ranges of the application region the CRC of what the
      memory-mapped view shows, which is the true CRC on a part that reads coherently. */
  lemma CrcTable(c: Config, d: Dev, pl: Bytes)
    requires WellFormed(c, d)
    ensures DoCrc(c, d, pl).0 == d
    ensures |pl| != 8 ==> DoCrc(c, d, pl).1 == [0x02, 0x00]
    ensures |pl| == 8 ==>
      var addr, len := LeNat(pl[0..4]), LeNat(pl[4..8]);
      if addr % 4 != 0 || len % 4 != 0 then DoCrc(c, d, pl).1 == [0x06, 0x02]
      else if len == 0 || addr < c.appStart || addr + len > c.siliconEnd then DoCrc(c, d, pl).1 == [0x06, 0x01]
      else CrcLive(c) ==> DoCrc(c, d, pl).1 == [0x00] + PutWord(Crc(d.flash.cell[addr..addr + len]))
  {
    hide LeNat, Crc, PutWord, Legal, CrcLive;
    if CrcLive(c) {
      LiveIsTrue(c, d);
    }
  }

  lemma LiveIsTrue(c: Config, d: Dev)
    requires WellFormed(c, d) && CrcLive(c)
    ensures View(c, d) == d.flash.cell
  {
    hide CrcLive;
    CleanView(c, d.flash, 0, |d.flash.cell|);
  }

  // ---- COMMIT ------------------------------------------------------------

  /** The device knows the CRC of the first `len` true bytes of the write slot: its reads are coherent, or nothing
      was touched since reset, or exactly they were streamed in order. */
  predicate CanVouch(c: Config, d: Dev, len: nat) {
    || c.features / 2 % 2 == 1
    || d.ram.rec == FromFlash
    || (d.ram.running && d.ram.expected == c.appStart + d.ram.writeSlot * c.slotSize + len)
  }

  lemma VouchIsAttestation(c: Config, d: Dev, len: nat)
    requires Inv(c, d) && WellFormed(c, d) && d.ram.session && 0 < len <= Capacity(c, d.ram.writeSlot)
    ensures SlotBase(c, d.ram.writeSlot) + len <= |d.flash.cell|
    ensures Attestation(c, d, len) == if CanVouch(c, d, len) then Some(Crc(Image(c, d.flash.cell, d.ram.writeSlot, len))) else None
  {
    VouchedSome(c, d, len);
    hide Inv, Crc, View, Update, CanVouch, Attestation;
    CapacityMeaning(c, d.ram.writeSlot);
    if Attestation(c, d, len).Some? {
      AttestationTrue(c, d, len);
    }
  }

  lemma VouchedSome(c: Config, d: Dev, len: nat)
    requires WellFormed(c, d) && 0 < len <= Capacity(c, d.ram.writeSlot)
    ensures Attestation(c, d, len).Some? <==> CanVouch(c, d, len)
  {
    hide Crc, View, Update, Image;
    CapacityMeaning(c, d.ram.writeSlot);
  }

  /** COMMIT answers: a refusal, and the acknowledgement of a repetition, change nothing. */
  lemma CommitTable(c: Config, d: Dev, pl: Bytes)
    requires Inv(c, d) && WellFormed(c, d) && d.ram.session
    ensures |pl| != 8 ==> DoCommit(c, d, pl) == (d, [0x02, 0x00])
    ensures |pl| == 8 ==>
      var len, crc, base := LeNat(pl[0..4]), LeWord(pl[4..8]), c.appStart + d.ram.writeSlot * c.slotSize;
      if len == 0 || len % 4 != 0 then DoCommit(c, d, pl) == (d, [0x02, 0x00])
      else if base + c.slotSize > c.siliconEnd || len + 4096 > c.slotSize then DoCommit(c, d, pl) == (d, [0x06, 0x01])
      else if d.ram.rec == Fresh && d.ram.committedLen == len && d.ram.committedCrc == crc then
        DoCommit(c, d, pl) == (d, [0x00])
      else if !CanVouch(c, d, len) then DoCommit(c, d, pl) == (d, [0x09, 0x02])
      else if Crc(d.flash.cell[base..base + len]) != crc then DoCommit(c, d, pl) == (d, [0x09, 0x01])
      else if d.ram.highest >= 0xFFFF_FFFE then DoCommit(c, d, pl) == (d, [0x08, 0x00])
      else DoCommit(c, d, pl) == StoreRecord(c, d, Record(d.ram.highest + 1, len, crc))
  {
    hide Inv, Crc, LeNat, LeWord, Attestation, CanVouch, StoreRecord, Legal, Capacity;
    CommitBounds(c, d);
    if |pl| == 8 {
      var len := LeNat(pl[0..4]);
      if len > 0 {
        FittingLength(c, d.ram.writeSlot, len);
      }
      if 0 < len <= Capacity(c, d.ram.writeSlot) {
        VouchIsAttestation(c, d, len);
      }
    }
  }

  lemma CommitBounds(c: Config, d: Dev)
    requires Inv(c, d)
    ensures WellFormed(c, d) && d.ram.highest < U32_LIMIT
  {
  }

  lemma FittingLength(c: Config, slot: nat, len: nat)
    requires Legal(c) && len > 0
    ensures len <= Capacity(c, slot) <==>
      c.appStart + slot * c.slotSize + c.slotSize <= c.siliconEnd && len + 4096 <= c.slotSize
  {
  }

  /** So a claim of a fitting length that is no repetition is answered with a mismatch exactly when the device can
      vouch for the bytes it holds and their CRC is another, and as not sequential exactly when it cannot. */
  lemma MismatchExactly(c: Config, d: Dev, pl: Bytes)
    requires Inv(c, d) && WellFormed(c, d) && d.ram.session && |pl| == 8
    requires var len := LeNat(pl[0..4]); 0 < len <= Capacity(c, d.ram.writeSlot) && len % 4 == 0
    requires !CommitReplay(d, LeNat(pl[0..4]), LeWord(pl[4..8]))
    ensures var len, crc := LeNat(pl[0..4]), LeWord(pl[4..8]);
      && SlotBase(c, d.ram.writeSlot) + len <= |d.flash.cell|
      && (DoCommit(c, d, pl).1 == [0x09, 0x01] <==>
            CanVouch(c, d, len) && Crc(Image(c, d.flash.cell, d.ram.writeSlot, len)) != crc)
      && (DoCommit(c, d, pl).1 == [0x09, 0x02] <==> !CanVouch(c, d, len))
  {
    hide Inv, Crc, LeNat, LeWord, CanVouch, DoCommit;
    CommitTable(c, d, pl);
    VouchIsAttestation(c, d, LeNat(pl[0..4]));
    StoreAnswer(c, d, Record(d.ram.highest + 1, LeNat(pl[0..4]), LeWord(pl[4..8])));
  }

  lemma StoreAnswer(c: Config, d: Dev, r: Record)
    requires WellFormed(c, d)
    ensures r.generation < U32_LIMIT && r.imgLen < U32_LIMIT ==>
      StoreRecord(c, d, r).1 == [0x00] || StoreRecord(c, d, r).1[0] == 0x08
  {
    hide RecordStore;
  }

  /** The record store's report: 1 for a failed erase or program, otherwise the read-back's. */
  function Stored(plan: seq<Outcome>, same: bool): Byte {
    if FirstFailure(plan, 1) != 0 then 0x01
    else if Programmed(plan[1..], true) != 0 then 0x01
    else if same then 0 else 0xE5
  }

  /** And the store is answered by what its erase, its program and its read-back report. */
  lemma StoreTable(c: Config, d: Dev, r: Record)
    requires Inv(c, d) && Capacity(c, d.ram.writeSlot) != 0 && Sound(r, ImageMax(c))
    ensures WellFormed(c, d)
    ensures var (e, p) := StoreRecord(c, d, r); var a := RecordAddr(c, d.ram.writeSlot);
      && a + RECORD_SIZE <= |e.flash.cell|
      && var code := Stored(d.flash.plan, e.flash.cell[a..a + RECORD_SIZE] == Encode(r));
      p == if code == 0 then [0x00] else [0x08, code]
  {
    hide Inv, Parse, Load, Erase, Write, Encode, Verify, Programmed;
    InvWellFormed(c, d);
    SlotLayout(c, d.ram.writeSlot);
    CapacityMeaning(c, d.ram.writeSlot);
    var a := RecordAddr(c, d.ram.writeSlot);
    RecordErase(c, d);
    EraseReports(c, d.flash, a);
    var (f, r1) := Erase(c, d.flash, a);
    if r1 == 0 {
      RecordIsOneBlock(c, d.ram.writeSlot);
      hide Legal;
      WriteReports(c, f, a, Encode(r));
      StoreReports(c, f, a, Encode(r));
    }
  }

  lemma StoreReports(c: Config, f: Flash, a: nat, data: Bytes)
    requires WriteAllowed(c, f, a, |data|)
    ensures var (g, r) := Write(c, f, a, data);
      && |g.cell| == |f.cell| && (r != 0 <==> Programmed(f.plan, true) != 0)
      && (Verify(g, a, data) == 0 <==> g.cell[a..a + |data|] == data)
      && (Verify(g, a, data) == 0 || Verify(g, a, data) == 0xE5)
  {
    hide Program, Touched;
  }

  // ---- BOOT --------------------------------------------------------------

  /** BOOT mode 0 is answered OK without touching anything, the request included, exactly: after a COMMIT always;
      before any mutation when the true flash has something to launch; in between when the active slot is bootable as
      served. Mode 1 arms the request and nothing else. */
  lemma BootTable(c: Config, d: Dev, pl: Bytes)
    requires Inv(c, d) && WellFormed(c, d)
    ensures |pl| != 1 ==> DoBoot(c, d, pl) == (d, [0x02, 0x00], Continue)
    ensures |pl| == 1 && pl[0] > 1 ==> DoBoot(c, d, pl) == (d, [0x05, 0x00], Continue)
    ensures DoBoot(c, d, [1]) == (d.(bootRequest := true), [0x00], ResetDevice)
    ensures DoBoot(c, d, [0]) == (d, [0x00], ResetDevice) || DoBoot(c, d, [0]) == (d, [0x09, 0x03], Continue)
    ensures DoBoot(c, d, [0]).1 == [0x00] <==>
      match d.ram.rec
      case Fresh => true
      case FromFlash => Bootable(c, d.flash.cell, 0) || Bootable(c, d.flash.cell, 1)
      case Invalid => d.ram.active.Some? && Bootable(c, View(c, d), d.ram.active.value)
  {
    hide Bootable, Select;
    if d.ram.rec == FromFlash {
      FlashIsTruth(c, d);
      SelectIsArgmax(c, d.flash.cell);
    }
  }

  lemma FlashIsTruth(c: Config, d: Dev)
    requires Inv(c, d) && d.ram.rec == FromFlash
    ensures WellFormed(c, d) && View(c, d) == d.flash.cell
  {
    hide Parse, Crc, Update;
    CleanView(c, d.flash, 0, |d.flash.cell|);
  }

  /** Before any mutation BOOT is answered OK exactly when the reset then launches. */
  lemma UntouchedBootExact(c: Config, d: Dev)
    requires Inv(c, d) && WellFormed(c, d) && d.ram.rec == FromFlash && !d.bootRequest
    ensures DoBoot(c, d, [0]).1 == [0x00] <==> AfterReset(c, DoBoot(c, d, [0]).0).Jump?
  {
    hide Inv, Bootable, Select, DoBoot;
    BootTable(c, d, [0]);
    ResetViewIsTruth(c, d.flash);
    LaunchAddress(c, d.flash.cell);
  }

  /** BOOT mode 1 keeps the device in the bootloader through the reset it causes, although there may be an
      application to launch, and through that one only: the request is gone afterwards and the next reset decides by
      the slots again. */
  lemma StayIsOneShot(c: Config, d: Dev)
    requires WellFormed(c, d)
    ensures var (e, p, act) := DoBoot(c, d, [1]);
      && p == [0x00] && act == ResetDevice && AfterReset(c, e) == Stay
      && var g := PowerUp(c, e.flash, false);
      g.flash.cell == d.flash.cell && AfterReset(c, g) == Decide(c, d.flash.cell, false)
  {
    hide Select, Highest;
    var e := DoBoot(c, d, [1]).0;
    ResetViewIsTruth(c, d.flash);
    ResetViewIsTruth(c, PowerUp(c, e.flash, false).flash);
  }
}
