/** Repeating an answered ERASE, WRITE or COMMIT any number of times changes nothing, whatever then
    happens to the flash operations of the repetitions. */
module Repetition {
  import opened Bytes
  import opened Crc32
  import opened Geometry
  import opened Flash
  import opened Record
  import opened Decision
  import opened Core
  import opened Invariant
  import opened Preservation
  import opened WritePath
  import opened CommitPath
  import opened Frames
  import opened Idempotence
  import opened Link
  import opened UpdateFlow

  function Repeated(c: Config, d: Dev, cmd: Byte, pl: Bytes, ws: seq<World>): (e: Dev)
    requires Inv(c, d)
    ensures Inv(c, e)
    decreases |ws|
  {
    if |ws| == 0 then d else Once(c, Repeated(c, d, cmd, pl, ws[..|ws| - 1]), ws[|ws| - 1], cmd, pl).dev
  }

  lemma SameStateTrans(d: Dev, m: Dev, e: Dev)
    requires SameState(d, m) && SameState(m, e)
    ensures SameState(d, e)
  {
  }

  /** If every repetition from a state satisfying `P` keeps the state and `P`, so does any number of them. */
  lemma {:induction false} RepeatedKeeps(c: Config, P: Dev -> bool, d: Dev, cmd: Byte, pl: Bytes, ws: seq<World>)
    requires Inv(c, d) && P(d)
    requires forall x: Dev, w: World :: Inv(c, x) && P(x) ==>
      SameState(x, Once(c, x, w, cmd, pl).dev) && P(Once(c, x, w, cmd, pl).dev)
    ensures SameState(d, Repeated(c, d, cmd, pl, ws)) && P(Repeated(c, d, cmd, pl, ws))
    decreases |ws|
  {
    hide Inv, Once, SameState;
    if |ws| == 0 {
      SameStateRefl(d);
    } else {
      var m := Repeated(c, d, cmd, pl, ws[..|ws| - 1]);
      RepeatedKeeps(c, P, d, cmd, pl, ws[..|ws| - 1]);
      SameStateTrans(d, m, Once(c, m, ws[|ws| - 1], cmd, pl).dev);
    }
  }

  lemma SameStateRefl(d: Dev)
    ensures SameState(d, d)
  {
  }

  // ---- ERASE -------------------------------------------------------------

  /** What an ERASE answered OK leaves for its repetition. */
  ghost predicate JustErased(c: Config, e: Dev, addr: nat, len: nat) {
    && Inv(c, e) && WellFormed(c, e) && e.ram.session && e.ram.disarmed
    && EraseAccepted(c, e, addr, len) && ErasedRange(c, e, addr, addr + len)
    && (e.ram.running ==> e.ram.expected <= addr)
  }

  lemma EraseLeaves(c: Config, d: Dev, addr: nat, len: nat)
    requires Inv(c, d) && d.ram.session && EraseAccepted(c, d, addr, len)
    requires EraseBody(c, d, addr, len).1 == [OK]
    ensures JustErased(c, EraseBody(c, d, addr, len).0, addr, len)
  {
    hide Parse, Crc, Update, StreamOK, LastOK, BitmapOK, GenerationsOK, Truthful, RecordStateOK, SlotsOK, Physical,
         EraseLoop, Erase, ErasedRange, MutationBegin;
    SlotLayout(c, d.ram.writeSlot);
    AlignedEnd(addr, len, c.eraseBlock);
    InvNoteErase(c, d, addr);
    InvMutationBegin(c, NoteErase(d, addr));
    var d1 := MutationBegin(c, NoteErase(d, addr)).0;
    InvEraseLoop(c, d1, addr, addr + len);
    EraseLoopCompletes(c, d1, addr, addr + len);
  }

  lemma EraseBodyAgain(c: Config, e: Dev, addr: nat, len: nat)
    requires JustErased(c, e, addr, len)
    ensures SameState(e, EraseBody(c, e, addr, len).0) && EraseBody(c, e, addr, len).0.flash.prog == e.flash.prog
  {
    hide Parse, Crc, Update, StreamOK, LastOK, BitmapOK, GenerationsOK, Truthful, RecordStateOK, SlotsOK, Physical,
         EraseLoop, Erase, ErasedRange;
    SlotLayout(c, e.ram.writeSlot);
    AlignedEnd(addr, len, c.eraseBlock);
    assert NoteErase(e, addr) == e;
    assert MutationBegin(c, e) == (e, 0);
    EraseLoopAgain(c, e, addr, addr + len);
  }

  lemma JustErasedCarries(c: Config, d: Dev, e: Dev, addr: nat, len: nat)
    requires JustErased(c, d, addr, len) && SameState(d, e) && e.flash.prog == d.flash.prog && Inv(c, e)
    ensures JustErased(c, e, addr, len)
  {
    FrameRelevant(c, e);
    hide Inv, Legal, InWindow;
  }

  lemma EraseRepeats(c: Config, d: Dev, w: World, pl: Bytes)
    requires Inv(c, d) && |pl| == 8 && JustErased(c, d, LeNat(pl[0..4]), LeNat(pl[4..8]))
    ensures var e := Once(c, d, w, CMD_ERASE, pl).dev;
      SameState(d, e) && JustErased(c, e, LeNat(pl[0..4]), LeNat(pl[4..8]))
  {
    hide Inv, LeNat, DoErase, EraseBody, ErasedRange, EraseAccepted, Once;
    var addr, len := LeNat(pl[0..4]), LeNat(pl[4..8]);
    var g := Enter(d, w);
    InSession(c, d, w, pl);
    JustErasedCarries(c, d, g, addr, len);
    AcceptedErases(c, g, pl);
    EraseBodyAgain(c, g, addr, len);
    var e := EraseBody(c, g, addr, len).0;
    JustErasedCarries(c, g, e, addr, len);
  }

  lemma AcceptedErases(c: Config, d: Dev, pl: Bytes)
    requires WellFormed(c, d) && |pl| == 8 && EraseAccepted(c, d, LeNat(pl[0..4]), LeNat(pl[4..8]))
    ensures DoErase(c, d, pl) == EraseBody(c, d, LeNat(pl[0..4]), LeNat(pl[4..8]))
  {
    hide LeNat, EraseBody, InWindow;
  }

  // ---- WRITE -------------------------------------------------------------

  ghost predicate JustSent(c: Config, e: Dev, addr: nat, data: Bytes) {
    JustWritten(c, e, addr, data) && WellFormed(c, e) && e.ram.session && WriteAccepted(c, e, addr, data)
  }

  lemma WriteLeaves(c: Config, d: Dev, addr: nat, data: Bytes)
    requires Inv(c, d) && d.ram.session && WriteAccepted(c, d, addr, data)
    requires WriteBody(c, d, addr, data).1 == [OK]
    ensures JustSent(c, WriteBody(c, d, addr, data).0, addr, data)
  {
    hide Inv, MutationBegin, NoteWrite, Classify, Touched, WriteChunk, JustWritten, WriteAccepted, WellFormed, SameOutside,
         Load;
    FrameRelevant(c, d);
    AcceptedIsWindow(c, d, addr, data);
    CoveredIsArmed(c, d, addr, |data|);
    InvNoteWrite(c, d, addr, data);
    var d0 := NoteWrite(d, addr, data);
    FrameRelevant(c, d0);
    InvMutationBegin(c, d0);
    var d1 := MutationBegin(c, d0).0;
    FrameRelevant(c, d1);
    ClassifyStable(d, d1, addr, data);
    InvWriteChunk(c, d1, addr, data);
    ChunkJustWritten(c, d1, addr, data);
    var e := WriteChunk(c, d1, addr, data, Classify(d1, addr, data)).0;
    FrameRelevant(c, e);
    StillAccepted(c, d, e, addr, data);
  }

  lemma StillAccepted(c: Config, d: Dev, e: Dev, addr: nat, data: Bytes)
    requires WellFormed(c, d) && WellFormed(c, e) && WriteAccepted(c, d, addr, data)
    requires e.ram.writeSlot == d.ram.writeSlot && e.ram.bitmap == d.ram.bitmap
    ensures WriteAccepted(c, e, addr, data)
  {
    hide Legal, InWindow;
  }

  lemma JustSentCarries(c: Config, d: Dev, e: Dev, addr: nat, data: Bytes)
    requires JustSent(c, d, addr, data) && SameState(d, e) && Inv(c, e)
    ensures JustSent(c, e, addr, data)
  {
    FrameRelevant(c, e);
    hide Inv, Legal, Touched, InWindow;
  }

  lemma WriteBodyAgain(c: Config, d: Dev, addr: nat, data: Bytes, w: World)
    requires JustSent(c, d, addr, data)
    ensures WellFormed(c, Enter(d, w)) && SameState(d, WriteBody(c, Enter(d, w), addr, data).0)
  {
    WriteAgain(c, d, addr, data, w);
  }

  lemma WriteRepeats(c: Config, d: Dev, w: World, pl: Bytes)
    requires Inv(c, d) && 8 <= |pl| <= MAX_PAYLOAD && |pl| - 4 <= MAX_WRITE_DATA && JustSent(c, d, LeNat(pl[0..4]), pl[4..])
    ensures var e := Once(c, d, w, CMD_WRITE, pl).dev; SameState(d, e) && JustSent(c, e, LeNat(pl[0..4]), pl[4..])
  {
    hide Inv, LeNat, DoWrite, WriteBody, JustWritten, WriteAccepted, Once;
    var addr, data := LeNat(pl[0..4]), pl[4..];
    var g := Enter(d, w);
    InSession(c, d, w, pl);
    JustSentCarries(c, d, g, addr, data);
    AcceptedWrites(c, g, pl);
    WriteBodyAgain(c, d, addr, data, w);
    JustSentCarries(c, d, Once(c, d, w, CMD_WRITE, pl).dev, addr, data);
  }

  lemma AcceptedWrites(c: Config, d: Dev, pl: Bytes)
    requires WellFormed(c, d) && 8 <= |pl| && |pl| - 4 <= MAX_WRITE_DATA && WriteAccepted(c, d, LeNat(pl[0..4]), pl[4..])
    ensures DoWrite(c, d, pl) == WriteBody(c, d, LeNat(pl[0..4]), pl[4..])
  {
    hide LeNat, WriteBody, InWindow, BitmapCovers;
  }

  // ---- COMMIT ------------------------------------------------------------

  ghost predicate JustCommitted(d: Dev, pl: Bytes) {
    d.ram.session && |pl| == 8 && CommitReplay(d, LeNat(pl[0..4]), LeWord(pl[4..8]))
  }

  lemma CommitRepeats(c: Config, d: Dev, w: World, pl: Bytes)
    requires Inv(c, d) && JustCommitted(d, pl)
    ensures var e := Once(c, d, w, CMD_COMMIT, pl).dev; SameState(d, e) && JustCommitted(e, pl)
  {
    hide Inv, LeNat, LeWord, DoCommit, Once;
    InSession(c, d, w, pl);
    ReplayIsStill(c, Enter(d, w), pl);
  }

  lemma ReplayIsStill(c: Config, d: Dev, pl: Bytes)
    requires WellFormed(c, d) && JustCommitted(d, pl)
    ensures DoCommit(c, d, pl).0 == d
  {
    hide LeNat, LeWord;
  }

  lemma CommitLeaves(c: Config, d: Dev, pl: Bytes)
    requires Inv(c, d) && WellFormed(c, d) && d.ram.session && DoCommit(c, d, pl).1 == [OK]
    ensures JustCommitted(DoCommit(c, d, pl).0, pl)
  {
    hide LeNat, LeWord, Inv, StoreRecord, DoCommit, Attestation, Capacity;
    HighestBound(c, d);
    CommitShape(c, d, pl);
    if CommitStores(c, d, LeNat(pl[0..4]), LeWord(pl[4..8])) {
      InvCommitStores(c, d, LeNat(pl[0..4]), LeWord(pl[4..8]));
    }
  }

  // ---- the theorem -------------------------------------------------------

  lemma FirstErase(c: Config, d: Dev, pl: Bytes)
    requires Inv(c, d) && WellFormed(c, d) && d.ram.session && DoErase(c, d, pl).1 == [OK]
    ensures |pl| == 8 && JustErased(c, DoErase(c, d, pl).0, LeNat(pl[0..4]), LeNat(pl[4..8]))
  {
    hide LeNat, DoErase, EraseBody, Inv, EraseAccepted;
    EraseShape(c, d, pl);
    EraseLeaves(c, d, LeNat(pl[0..4]), LeNat(pl[4..8]));
  }

  lemma FirstWrite(c: Config, d: Dev, pl: Bytes)
    requires Inv(c, d) && WellFormed(c, d) && d.ram.session && DoWrite(c, d, pl).1 == [OK]
    ensures 8 <= |pl| && |pl| - 4 <= MAX_WRITE_DATA && JustSent(c, DoWrite(c, d, pl).0, LeNat(pl[0..4]), pl[4..])
  {
    WriteLength(c, d, pl);
    hide LeNat, DoWrite, WriteBody, Inv, WriteAccepted;
    WriteShape(c, d, pl);
    WriteLeaves(c, d, LeNat(pl[0..4]), pl[4..]);
  }

  lemma WriteLength(c: Config, d: Dev, pl: Bytes)
    requires WellFormed(c, d) && DoWrite(c, d, pl).1 == [OK]
    ensures 8 <= |pl| && |pl| - 4 <= MAX_WRITE_DATA
  {
    hide LeNat, WriteBody, InWindow, BitmapCovers;
  }

  /** ERASE, WRITE or COMMIT answered OK and then executed again, once or any number of times, with any
      flash failures: the device stays where the first execution left it. */
  lemma RepetitionChangesNothing(c: Config, d: Dev, w: World, cmd: Byte, pl: Bytes, ws: seq<World>)
    requires Inv(c, d) && |pl| <= MAX_PAYLOAD
    requires cmd == CMD_ERASE || cmd == CMD_WRITE || cmd == CMD_COMMIT
    requires Once(c, d, w, cmd, pl).payload == [OK]
    ensures var e := Once(c, d, w, cmd, pl).dev; SameState(e, Repeated(c, e, cmd, pl, ws))
  {
    hide Inv, Once, LeNat, LeWord, JustErased, JustSent, JustCommitted, SameState, DoErase, DoWrite, DoCommit, WellFormed;
    if !d.ram.session {
      NoSession(c, d, w, cmd, pl);
    }
    InSession(c, d, w, pl);
    var g, e := Enter(d, w), Once(c, d, w, cmd, pl).dev;
    if cmd == CMD_ERASE {
      FirstErase(c, g, pl);
      forall x: Dev, v: World | Inv(c, x) && JustErased(c, x, LeNat(pl[0..4]), LeNat(pl[4..8]))
        ensures var y := Once(c, x, v, cmd, pl).dev; SameState(x, y) && JustErased(c, y, LeNat(pl[0..4]), LeNat(pl[4..8]))
      {
        EraseRepeats(c, x, v, pl);
      }
      RepeatedKeeps(c, x => JustErased(c, x, LeNat(pl[0..4]), LeNat(pl[4..8])), e, cmd, pl, ws);
    } else if cmd == CMD_WRITE {
      FirstWrite(c, g, pl);
      forall x: Dev, v: World | Inv(c, x) && JustSent(c, x, LeNat(pl[0..4]), pl[4..])
        ensures var y := Once(c, x, v, cmd, pl).dev; SameState(x, y) && JustSent(c, y, LeNat(pl[0..4]), pl[4..])
      {
        WriteRepeats(c, x, v, pl);
      }
      RepeatedKeeps(c, x => JustSent(c, x, LeNat(pl[0..4]), pl[4..]), e, cmd, pl, ws);
    } else {
      CommitLeaves(c, g, pl);
      forall x: Dev, v: World | Inv(c, x) && JustCommitted(x, pl)
        ensures var y := Once(c, x, v, cmd, pl).dev; SameState(x, y) && JustCommitted(y, pl)
      {
        CommitRepeats(c, x, v, pl);
      }
      RepeatedKeeps(c, x => JustCommitted(x, pl), e, cmd, pl, ws);
    }
  }
}
