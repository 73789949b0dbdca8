/** The erased-block bitmap is a record of history: exactly the write-slot blocks erased since the
    session opened or the slots flipped. */
module BitmapHistory {
  import opened Bytes
  import opened Crc32
  import opened Geometry
  import opened Flash
  import opened Record
  import opened Decision
  import opened Core
  import opened Invariant
  import opened Preservation
  import opened WritePath
  import opened CommitPath
  import opened Frames
  import opened Safety

  predicate InImage(c: Config, slot: nat, a: nat)
    requires Legal(c)
  {
    SlotBase(c, slot) <= a < RecordAddr(c, slot)
  }

  function Relative(c: Config, slot: nat, a: nat): nat
    requires Legal(c)
  {
    if a < SlotBase(c, slot) then 0 else (a - SlotBase(c, slot)) / c.eraseBlock
  }

  /** The image blocks of a slot that a log of erase addresses names, relative to the slot. */
  function ImageBlocks(c: Config, slot: nat, log: seq<nat>): set<nat>
    requires Legal(c)
  {
    set a | a in log && InImage(c, slot, a) :: Relative(c, slot, a)
  }

  /** From `d` to `e` the erase log only grew, and the bitmap by exactly what was logged. */
  ghost predicate Tracks(c: Config, d: Dev, e: Dev)
    requires WellFormed(c, d)
  {
    var n := |d.flash.erased|;
    && e.ram.writeSlot == d.ram.writeSlot
    && n <= |e.flash.erased| && e.flash.erased[..n] == d.flash.erased
    && e.ram.bitmap == d.ram.bitmap + ImageBlocks(c, d.ram.writeSlot, e.flash.erased[n..])
  }

  lemma TracksRefl(c: Config, d: Dev, e: Dev)
    requires WellFormed(c, d) && e.ram.writeSlot == d.ram.writeSlot
    requires e.flash.erased == d.flash.erased && e.ram.bitmap == d.ram.bitmap
    ensures Tracks(c, d, e)
  {
    hide Legal;
    assert e.flash.erased[|d.flash.erased|..] == [];
  }

  lemma TracksTrans(c: Config, d: Dev, m: Dev, e: Dev)
    requires WellFormed(c, d) && WellFormed(c, m) && Tracks(c, d, m) && Tracks(c, m, e)
    ensures Tracks(c, d, e)
  {
    hide Legal, InImage, Relative;
    var n, k := |d.flash.erased|, |m.flash.erased|;
    assert e.flash.erased[..n] == e.flash.erased[..k][..n];
    assert e.flash.erased[n..] == m.flash.erased[n..] + e.flash.erased[k..];
  }

  /** One erase logs its address exactly when it reports success. */
  lemma EraseLogs(c: Config, f: Flash, a: nat)
    requires EraseAllowed(c, f, a)
    ensures var (g, r) := Erase(c, f, a); g.erased == if r == 0 then f.erased + [a] else f.erased
  {
  }

  /** Erasing the record block is not an image erase. */
  lemma RecordEraseTracks(c: Config, d: Dev, e: Dev)
    requires Inv(c, d) && Capacity(c, d.ram.writeSlot) != 0
    requires e.flash == Erase(c, d.flash, RecordAddr(c, d.ram.writeSlot)).0
    requires e.ram.writeSlot == d.ram.writeSlot && e.ram.bitmap == d.ram.bitmap
    ensures WellFormed(c, d) && Tracks(c, d, e)
  {
    hide Parse, Crc, Update, StreamOK, LastOK, BitmapOK, GenerationsOK, Truthful, RecordStateOK, SlotsOK, Physical;
    RecordErase(c, d);
    EraseLogs(c, d.flash, RecordAddr(c, d.ram.writeSlot));
    var n := |d.flash.erased|;
    assert e.flash.erased[..n] == d.flash.erased;
    assert e.flash.erased[n..] == [] || e.flash.erased[n..] == [RecordAddr(c, d.ram.writeSlot)];
    assert !InImage(c, d.ram.writeSlot, RecordAddr(c, d.ram.writeSlot));
    assert ImageBlocks(c, d.ram.writeSlot, e.flash.erased[n..]) == {};
  }

  lemma MutationTracks(c: Config, d: Dev)
    requires Inv(c, d) && Capacity(c, d.ram.writeSlot) != 0
    ensures WellFormed(c, d) && Tracks(c, d, MutationBegin(c, d).0)
  {
    hide Parse, Crc, Update, StreamOK, LastOK, BitmapOK, GenerationsOK, Truthful, RecordStateOK, SlotsOK, Physical,
         Erase, Tracks;
    if d.ram.disarmed {
      TracksRefl(c, d, d);
    } else {
      RecordEraseTracks(c, d, MutationBegin(c, d).0);
    }
  }

  /** One block of an ERASE: logged and marked, or neither. */
  lemma BlockTracks(c: Config, d: Dev, a: nat)
    requires WellFormed(c, d) && EraseAllowed(c, d.flash, a) && InImage(c, d.ram.writeSlot, a)
    ensures var (f, r) := Erase(c, d.flash, a);
      Tracks(c, d, if r != 0 then d.(flash := f) else BitmapMark(c, d.(flash := f), a))
  {
    hide Legal, Erase, RecordAddr, SlotBase;
    EraseLogs(c, d.flash, a);
    var (f, r) := Erase(c, d.flash, a);
    var n := |d.flash.erased|;
    assert f.erased[..n] == d.flash.erased;
    assert r != 0 ==> f.erased[n..] == [];
    assert r == 0 ==> f.erased[n..] == [a];
  }

  ghost predicate LoopInside(c: Config, d: Dev, a: nat, end: nat) {
    && WellFormed(c, d) && Aligned(a, c.eraseBlock) && Aligned(end, c.eraseBlock)
    && WriteBase(c, d) <= a && end <= RecordAddr(c, d.ram.writeSlot) && c.appStart <= a && end <= c.siliconEnd
  }

  lemma LoopStep(c: Config, d: Dev, a: nat, end: nat)
    requires LoopInside(c, d, a, end) && a < end
    ensures c.eraseBlock > 0 && EraseAllowed(c, d.flash, a) && InImage(c, d.ram.writeSlot, a)
    ensures var (f, r) := Erase(c, d.flash, a);
      WellFormed(c, d.(flash := f)) && LoopInside(c, BitmapMark(c, d.(flash := f), a), a + c.eraseBlock, end)
  {
    NextBlock(a, end, c.eraseBlock);
  }

  lemma {:induction false} LoopTracks(c: Config, d: Dev, a: nat, end: nat)
    requires LoopInside(c, d, a, end) && WellFormed(c, d) && c.eraseBlock > 0
    ensures Tracks(c, d, EraseLoop(c, d, a, end).0)
    decreases if a < end then end - a else 0
  {
    hide LoopInside, WellFormed, Erase, BitmapMark, Tracks;
    if a < end {
      LoopStep(c, d, a, end);
      BlockTracks(c, d, a);
      var (f, r) := Erase(c, d.flash, a);
      if r == 0 {
        var m := BitmapMark(c, d.(flash := f), a);
        LoopTracks(c, m, a + c.eraseBlock, end);
        TracksTrans(c, d, m, EraseLoop(c, m, a + c.eraseBlock, end).0);
      }
    } else {
      TracksRefl(c, d, d);
    }
  }

  /** Disarming after the run's bookkeeping. */
  lemma BeginTracks(c: Config, d: Dev, d0: Dev)
    requires Inv(c, d0) && WellFormed(c, d) && d0 == d.(ram := d.ram.(running := d0.ram.running))
    requires d.ram.session && Capacity(c, d.ram.writeSlot) != 0
    ensures var d1 := MutationBegin(c, d0).0;
      WellFormed(c, d1) && Tracks(c, d, d1) && d1.ram.writeSlot == d.ram.writeSlot
  {
    InvMutationBegin(c, d0);
    MutationTracks(c, d0);
    TracksRefl(c, d, d0);
    FrameRelevant(c, MutationBegin(c, d0).0);
    hide Inv, WellFormed, MutationBegin, Tracks, SameRun, Load, SameOutside;
    TracksTrans(c, d, d0, MutationBegin(c, d0).0);
  }

  lemma EraseBodyTracks(c: Config, d: Dev, addr: nat, len: nat)
    requires Inv(c, d) && d.ram.session && EraseAccepted(c, d, addr, len)
    ensures Tracks(c, d, EraseBody(c, d, addr, len).0)
  {
    hide Inv, WellFormed, MutationBegin, EraseLoop, Tracks, Aligned, LoopInside, NoteErase;
    FrameRelevant(c, d);
    InvNoteErase(c, d, addr);
    var d0 := NoteErase(d, addr);
    FrameRelevant(c, d0);
    BeginTracks(c, d, d0);
    var (d1, r1) := MutationBegin(c, d0);
    EraseInside(c, d, d1, addr, len);
    if r1 == 0 {
      LoopTracks(c, d1, addr, addr + len);
      TracksTrans(c, d, d1, EraseLoop(c, d1, addr, addr + len).0);
    }
  }

  lemma EraseInside(c: Config, d: Dev, e: Dev, addr: nat, len: nat)
    requires WellFormed(c, d) && WellFormed(c, e) && EraseAccepted(c, d, addr, len) && e.ram.writeSlot == d.ram.writeSlot
    ensures LoopInside(c, e, addr, addr + len) && c.eraseBlock > 0
  {
    SlotLayout(c, d.ram.writeSlot);
    AlignedEnd(addr, len, c.eraseBlock);
  }

  lemma ChunkTracks(c: Config, d: Dev, addr: nat, data: Bytes, kind: WriteClass)
    requires WellFormed(c, d)
    ensures Tracks(c, d, WriteChunk(c, d, addr, data, kind).0)
  {
    hide Legal, WellFormed, Update, Tracks, Program, Touched, WriteAllowed, Verify;
    TracksRefl(c, d, WriteChunk(c, d, addr, data, kind).0);
  }

  lemma WriteBodyTracks(c: Config, d: Dev, addr: nat, data: Bytes)
    requires Inv(c, d) && d.ram.session && WriteAccepted(c, d, addr, data)
    ensures Tracks(c, d, WriteBody(c, d, addr, data).0)
  {
    hide Inv, WellFormed, MutationBegin, Tracks, NoteWrite, WriteChunk, Classify, BitmapCovers, Aligned;
    FrameRelevant(c, d);
    InvNoteWrite(c, d, addr, data);
    var d0 := NoteWrite(d, addr, data);
    FrameRelevant(c, d0);
    BeginTracks(c, d, d0);
    var (d1, r1) := MutationBegin(c, d0);
    if r1 == 0 {
      ChunkTracks(c, d1, addr, data, Classify(d, addr, data));
      TracksTrans(c, d, d1, WriteChunk(c, d1, addr, data, Classify(d, addr, data)).0);
    }
  }

  // ---- whole runs --------------------------------------------------------

  /** A device, and where in the erase log its present session or slot began. */
  datatype Session = Session(dev: Dev, mark: nat)

  /** The bitmap is exactly the write slot's image blocks erased since the mark. */
  ghost predicate BitmapExact(c: Config, s: Session)
    requires WellFormed(c, s.dev)
  {
    && s.mark <= |s.dev.flash.erased|
    && s.dev.ram.bitmap == ImageBlocks(c, s.dev.ram.writeSlot, s.dev.flash.erased[s.mark..])
  }

  /** An accepted HELLO opens a session; a COMMIT that stores its record flips the slots. */
  predicate Restarts(c: Config, d: Dev, cmd: Byte, pl: Bytes)
    requires WellFormed(c, d)
  {
    (cmd == CMD_HELLO && Execute(c, d, cmd, pl).payload[0] == OK)
    || Execute(c, d, cmd, pl).dev.ram.writeSlot != d.ram.writeSlot
  }

  lemma TracksKeepsExact(c: Config, d: Dev, e: Dev, mark: nat)
    requires WellFormed(c, d) && WellFormed(c, e) && Tracks(c, d, e) && BitmapExact(c, Session(d, mark))
    ensures BitmapExact(c, Session(e, mark))
  {
    hide Legal, InImage, Relative;
    var n := |d.flash.erased|;
    assert e.flash.erased[mark..] == d.flash.erased[mark..] + e.flash.erased[n..];
  }

  lemma FreshIsExact(c: Config, e: Dev)
    requires WellFormed(c, e) && e.ram.bitmap == {}
    ensures BitmapExact(c, Session(e, |e.flash.erased|))
  {
    hide Legal, InImage, Relative;
    assert e.flash.erased[|e.flash.erased|..] == [];
  }

  lemma EraseHistory(c: Config, d: Dev, pl: Bytes)
    requires Inv(c, d) && d.ram.session
    ensures WellFormed(c, d) && Tracks(c, d, DoErase(c, d, pl).0)
  {
    FrameRelevant(c, d);
    hide Inv, WellFormed, DoErase, EraseBody, Tracks, LeNat, EraseAccepted;
    EraseShape(c, d, pl);
    if DoErase(c, d, pl).0 == d {
      TracksRefl(c, d, d);
    } else {
      EraseBodyTracks(c, d, LeNat(pl[0..4]), LeNat(pl[4..8]));
    }
  }

  lemma WriteHistory(c: Config, d: Dev, pl: Bytes)
    requires Inv(c, d) && d.ram.session
    ensures WellFormed(c, d) && Tracks(c, d, DoWrite(c, d, pl).0)
  {
    FrameRelevant(c, d);
    hide Inv, WellFormed, DoWrite, WriteBody, Tracks, LeNat, WriteAccepted;
    WriteShape(c, d, pl);
    if DoWrite(c, d, pl).0 == d {
      TracksRefl(c, d, d);
    } else {
      WriteBodyTracks(c, d, LeNat(pl[0..4]), pl[4..]);
    }
  }

  /** The record write logs no erase of its own. */
  lemma StoreFlashLog(c: Config, d: Dev, r: Record)
    requires WellFormed(c, d) && r.generation < U32_LIMIT && r.imgLen < U32_LIMIT
    ensures RecordStore(c, d.flash, d.ram.writeSlot, r).0.erased
         == Erase(c, d.flash, RecordAddr(c, d.ram.writeSlot)).0.erased
  {
    hide Legal, Erase, Encode, WriteAllowed, Program, Touched, Verify, RecordAddr;
  }

  lemma StoreHistory(c: Config, d: Dev, r: Record)
    requires Inv(c, d) && Capacity(c, d.ram.writeSlot) != 0 && r.generation < U32_LIMIT && r.imgLen < U32_LIMIT
    ensures WellFormed(c, d)
    ensures var e := StoreRecord(c, d, r).0;
      if e.ram.writeSlot == d.ram.writeSlot then Tracks(c, d, e) else e.ram.bitmap == {}
  {
    FrameRelevant(c, d);
    StoreFlashLog(c, d, r);
    var (f, code) := RecordStore(c, d.flash, d.ram.writeSlot, r);
    if code != 0 {
      var e := StoreRecord(c, d, r).0;
      var m := d.(flash := Erase(c, d.flash, RecordAddr(c, d.ram.writeSlot)).0);
      RecordEraseTracks(c, d, m);
      hide Inv, Erase, RecordStore, Legal, ImageBlocks;
    } else {
      hide Inv, Erase, RecordStore, Legal, ImageBlocks;
    }
  }

  lemma CommitHistory(c: Config, d: Dev, pl: Bytes)
    requires Inv(c, d) && d.ram.session
    ensures WellFormed(c, d)
    ensures var e := DoCommit(c, d, pl).0;
      if e.ram.writeSlot == d.ram.writeSlot then Tracks(c, d, e) else e.ram.bitmap == {}
  {
    HighestFits(c, d);
    hide Inv, WellFormed, DoCommit, StoreRecord, Tracks, LeNat, LeWord, Attestation, CommitReplays, Capacity;
    CommitShape(c, d, pl);
    if |pl| == 8 && CommitStores(c, d, LeNat(pl[0..4]), LeWord(pl[4..8])) {
      StoreHistory(c, d, NextRecord(d, LeNat(pl[0..4]), LeWord(pl[4..8])));
    } else {
      TracksRefl(c, d, d);
    }
  }

  lemma HighestFits(c: Config, d: Dev)
    requires Inv(c, d)
    ensures WellFormed(c, d) && d.ram.highest < U32_LIMIT
  {
  }

  /** Commands that neither erase nor open a session. */
  lemma StillHistory(c: Config, d: Dev, cmd: Byte, pl: Bytes)
    requires WellFormed(c, d) && !Mutates(d, cmd) && !Restarts(c, d, cmd, pl)
    ensures Tracks(c, d, Execute(c, d, cmd, pl).dev)
  {
    hide WellFormed, DoErase, DoWrite, DoCommit, DoCrc, RecordTrusted, HelloPayload, Tracks, SessionOpen;
    CrcReadsOnly(c, d, pl);
    HelloStarts(c, d, pl);
    TracksRefl(c, d, Execute(c, d, cmd, pl).dev);
  }

  lemma HelloStarts(c: Config, d: Dev, pl: Bytes)
    requires WellFormed(c, d)
    ensures DoHello(c, d, pl).1[0] == OK ==> DoHello(c, d, pl).0 == SessionOpen(c, d)
    ensures DoHello(c, d, pl).1[0] != OK ==> DoHello(c, d, pl).0 == d
  {
    hide PutNat, WellFormed;
  }

  /** One command keeps the bitmap exact against the mark it leaves. */
  lemma ExecuteHistory(c: Config, d: Dev, cmd: Byte, pl: Bytes, mark: nat)
    requires Inv(c, d) && WellFormed(c, d) && BitmapExact(c, Session(d, mark))
    ensures var e := Execute(c, d, cmd, pl).dev;
      WellFormed(c, e) && BitmapExact(c, Session(e, if Restarts(c, d, cmd, pl) then |e.flash.erased| else mark))
  {
    hide Inv, WellFormed, DoErase, DoWrite, DoCommit, DoCrc, RecordTrusted, HelloPayload, Tracks, BitmapExact, Restarts,
         Execute, Quiet, Vouches;
    InvExecute(c, d, cmd, pl);
    var e := Execute(c, d, cmd, pl).dev;
    FrameRelevant(c, e);
    ExecuteShape(c, d, cmd, pl);
    if Mutates(d, cmd) {
      MutationHistory(c, d, cmd, pl);
      if e.ram.writeSlot == d.ram.writeSlot {
        TracksKeepsExact(c, d, e, mark);
        NoRestart(c, d, cmd, pl);
      } else {
        FreshIsExact(c, e);
        FlipRestarts(c, d, cmd, pl);
      }
    } else if Restarts(c, d, cmd, pl) {
      RestartIsHello(c, d, cmd, pl);
      FreshIsExact(c, e);
    } else {
      StillHistory(c, d, cmd, pl);
      TracksKeepsExact(c, d, e, mark);
    }
  }

  lemma NoRestart(c: Config, d: Dev, cmd: Byte, pl: Bytes)
    requires WellFormed(c, d) && Mutates(d, cmd) && Execute(c, d, cmd, pl).dev.ram.writeSlot == d.ram.writeSlot
    ensures !Restarts(c, d, cmd, pl)
  {
  }

  lemma FlipRestarts(c: Config, d: Dev, cmd: Byte, pl: Bytes)
    requires WellFormed(c, d) && Execute(c, d, cmd, pl).dev.ram.writeSlot != d.ram.writeSlot
    ensures Restarts(c, d, cmd, pl)
  {
  }

  lemma RestartIsHello(c: Config, d: Dev, cmd: Byte, pl: Bytes)
    requires WellFormed(c, d) && !Mutates(d, cmd) && Restarts(c, d, cmd, pl)
    ensures Execute(c, d, cmd, pl).dev.ram.bitmap == {}
  {
    hide WellFormed, DoErase, DoWrite, DoCommit, DoCrc, RecordTrusted, HelloPayload;
    CrcReadsOnly(c, d, pl);
    HelloStarts(c, d, pl);
  }

  lemma MutationHistory(c: Config, d: Dev, cmd: Byte, pl: Bytes)
    requires Inv(c, d) && WellFormed(c, d) && Mutates(d, cmd)
    ensures var e := Execute(c, d, cmd, pl).dev;
      if e.ram.writeSlot == d.ram.writeSlot then Tracks(c, d, e) else e.ram.bitmap == {}
  {
    hide Inv, WellFormed, DoErase, DoWrite, DoCommit, Execute, Quiet, Vouches;
    ExecuteShape(c, d, cmd, pl);
    if cmd == CMD_ERASE {
      EraseHistory(c, d, pl);
    } else if cmd == CMD_WRITE {
      WriteHistory(c, d, pl);
    } else {
      CommitHistory(c, d, pl);
    }
  }

  predicate FrameRestarts(c: Config, d: Dev, buf: Bytes, w: World)
    requires WellFormed(c, d)
  {
    match Receive(buf)
    case Request(cmd, q, pl) => Restarts(c, Enter(d, w), cmd, pl)
    case _ => false
  }

  function Follow(c: Config, s: Session, ev: Event): Session
    requires WellFormed(c, s.dev)
  {
    match ev
    case Frame(buf, w) =>
      var e := HandleFrame(c, s.dev, buf, w).dev;
      Session(e, if FrameRestarts(c, s.dev, buf, w) then |e.flash.erased| else s.mark)
    case PowerCycle => Session(PowerUp(c, s.dev.flash, false), 0)
  }

  lemma FollowKeepsExact(c: Config, s: Session, ev: Event)
    requires Inv(c, s.dev) && WellFormed(c, s.dev) && BitmapExact(c, s)
    ensures var t := Follow(c, s, ev); Inv(c, t.dev) && WellFormed(c, t.dev) && BitmapExact(c, t)
  {
    hide Inv, Receive, Execute, Restarts, BitmapExact, PowerUp, FrameVouches, Vouches, Seal;
    match ev
    case Frame(buf, w) =>
      var r := Receive(buf);
      if r.Request? {
        var d := Enter(s.dev, w);
        InvEnter(c, s.dev, w);
        EnterExact(c, s, w);
        ExecuteHistory(c, d, r.cmd, r.payload, s.mark);
        InvExecute(c, d, r.cmd, r.payload);
      }
    case PowerCycle =>
      PhysicalTruth(c, s.dev);
      InvPowerUp(c, s.dev.flash, false);
      PowerUpExact(c, s.dev.flash);
  }

  lemma PhysicalTruth(c: Config, d: Dev)
    requires Inv(c, d)
    ensures Legal(c) && Physical(c, d.flash) && d.flash.violations == 0 && Truthful(c, d.flash.cell)
  {
  }

  lemma EnterExact(c: Config, s: Session, w: World)
    requires WellFormed(c, s.dev) && BitmapExact(c, s)
    ensures BitmapExact(c, Session(Enter(s.dev, w), s.mark))
  {
  }

  lemma PowerUpExact(c: Config, f: Flash)
    requires Legal(c) && |f.cell| == |f.prog| == c.siliconEnd
    ensures BitmapExact(c, Session(PowerUp(c, f, false), 0))
  {
    hide Select, Highest;
  }

  function Trace(c: Config, s: Session, events: seq<Event>): Session
    requires Inv(c, s.dev) && WellFormed(c, s.dev) && BitmapExact(c, s)
    decreases |events|
  {
    if |events| == 0 then s
    else FollowKeepsExact(c, s, events[0]); Trace(c, Follow(c, s, events[0]), events[1..])
  }

  /** In every state reachable from reset, through any frames, flash failures, power cuts and resets:
      the bitmap is the set of write-slot blocks erased since the session opened or the slots flipped. */
  lemma {:induction false} BitmapIsHistory(c: Config, s: Session, events: seq<Event>)
    requires Inv(c, s.dev) && WellFormed(c, s.dev) && BitmapExact(c, s)
    ensures var t := Trace(c, s, events); Inv(c, t.dev) && WellFormed(c, t.dev) && BitmapExact(c, t)
    decreases |events|
  {
    hide Inv, Follow, BitmapExact, WellFormed;
    if |events| > 0 {
      FollowKeepsExact(c, s, events[0]);
      BitmapIsHistory(c, Follow(c, s, events[0]), events[1..]);
    }
  }

  /** So every byte a WRITE may program lies in a block erased since then, inside the write slot's image
      area: outside the other slot and both record reserves. */
  lemma WrittenBytesWereErased(c: Config, s: Session, addr: nat, data: Bytes, i: nat)
    requires Inv(c, s.dev) && WellFormed(c, s.dev) && BitmapExact(c, s) && WriteAccepted(c, s.dev, addr, data)
    requires addr <= i < addr + |data|
    ensures InImage(c, s.dev.ram.writeSlot, i) && i < c.siliconEnd
    ensures !(SlotBase(c, Other(s.dev.ram.writeSlot)) <= i < SlotBase(c, Other(s.dev.ram.writeSlot)) + c.slotSize)
    ensures exists a :: (a in s.dev.flash.erased[s.mark..] && InImage(c, s.dev.ram.writeSlot, a)
                         && Relative(c, s.dev.ram.writeSlot, i) == Relative(c, s.dev.ram.writeSlot, a))
  {
    hide Inv, WellFormed, Aligned, ImageBlocks, BlockRange;
    WrittenRange(c, s.dev, addr, data, i);
    CoveredRelative(c, s.dev, addr, |data|, i);
    InLog(c, s.dev.ram.writeSlot, s.dev.flash.erased[s.mark..], Relative(c, s.dev.ram.writeSlot, i));
  }

  lemma InLog(c: Config, slot: nat, log: seq<nat>, b: nat)
    requires Legal(c) && b in ImageBlocks(c, slot, log)
    ensures exists a :: (a in log && InImage(c, slot, a) && b == Relative(c, slot, a))
  {
    hide Legal, InImage, Relative;
  }

  lemma WrittenRange(c: Config, d: Dev, addr: nat, data: Bytes, i: nat)
    requires WellFormed(c, d) && WriteAccepted(c, d, addr, data) && addr <= i < addr + |data|
    ensures InImage(c, d.ram.writeSlot, i) && i < c.siliconEnd
    ensures !(SlotBase(c, Other(d.ram.writeSlot)) <= i < SlotBase(c, Other(d.ram.writeSlot)) + c.slotSize)
    ensures Legal(c) && WriteBase(c, d) <= addr && BitmapCovers(c, d, addr, |data|)
  {
    hide BitmapCovers;
    CapacityMeaning(c, d.ram.writeSlot);
  }

  lemma CoveredRelative(c: Config, d: Dev, addr: nat, n: nat, i: nat)
    requires Legal(c) && WriteBase(c, d) <= addr <= i < addr + n && BitmapCovers(c, d, addr, n)
    ensures Relative(c, d.ram.writeSlot, i) in d.ram.bitmap
  {
    BlocksBetween(c, WriteBase(c, d), addr, addr + n - 1, i);
    hide Legal;
    assert Relative(c, d.ram.writeSlot, i) in BlockRange(RelBlock(c, d, addr), RelBlock(c, d, addr + n - 1));
  }

  lemma BlocksBetween(c: Config, base: nat, lo: nat, hi: nat, i: nat)
    requires Legal(c) && base <= lo <= i <= hi
    ensures (lo - base) / c.eraseBlock <= (i - base) / c.eraseBlock <= (hi - base) / c.eraseBlock
  {
    DivMonotone(lo - base, i - base, c.eraseBlock);
    DivMonotone(i - base, hi - base, c.eraseBlock);
  }
}
