/** Where the resets that BOOT's answers cause go, over the lossy link. */
module BootLog {
  import opened Bytes
  import opened Crc32
  import opened Geometry
  import opened Flash
  import opened Record
  import opened Decision
  import opened Core
  import opened Invariant
  import opened Preservation
  import opened WritePath
  import opened CommitPath
  import opened Frames
  import opened Theorems
  import opened Link
  import opened UpdateFlow

  lemma MutationsAskNothing(c: Config, d: Dev, pl: Bytes)
    requires Inv(c, d) && WellFormed(c, d) && d.ram.session
    ensures DoErase(c, d, pl).0.bootRequest == d.bootRequest && DoWrite(c, d, pl).0.bootRequest == d.bootRequest
    ensures DoCommit(c, d, pl).0.bootRequest == d.bootRequest
  {
    hide Inv, DoErase, DoWrite, DoCommit, LeNat, LeWord, CommitStores, StoreRecord, Crc, Image, WellFormed;
    InvErase(c, d, pl);
    InvWrite(c, d, pl);
    HighestBound(c, d);
    CommitShape(c, d, pl);
    if |pl| == 8 && CommitStores(c, d, LeNat(pl[0..4]), LeWord(pl[4..8])) {
      InvCommitStores(c, d, LeNat(pl[0..4]), LeWord(pl[4..8]));
    }
  }

  /** No command but BOOT touches the request, or resets. */
  lemma OnceAsksNothing(c: Config, d: Dev, w: World, cmd: Byte, pl: Bytes)
    requires Inv(c, d) && cmd != CMD_BOOT
    ensures Once(c, d, w, cmd, pl).dev.bootRequest == d.bootRequest && Once(c, d, w, cmd, pl).action == Continue
  {
    hide Inv, WellFormed, Execute;
    EnterFacts(c, d, w);
    ExecuteAsksNothing(c, Enter(d, w), cmd, pl);
  }

  lemma ExecuteAsksNothing(c: Config, d: Dev, cmd: Byte, pl: Bytes)
    requires Inv(c, d) && WellFormed(c, d) && cmd != CMD_BOOT
    ensures Execute(c, d, cmd, pl).dev.bootRequest == d.bootRequest && Execute(c, d, cmd, pl).action == Continue
  {
    hide Inv, DoHello, DoErase, DoWrite, DoCrc, DoCommit, WellFormed;
    ReadsAskNothing(c, d, pl);
    if d.ram.session {
      MutationsAskNothing(c, d, pl);
    }
  }

  lemma ReadsAskNothing(c: Config, d: Dev, pl: Bytes)
    requires WellFormed(c, d)
    ensures DoHello(c, d, pl).0.bootRequest == d.bootRequest && DoCrc(c, d, pl).0.bootRequest == d.bootRequest
  {
    hide HelloPayload, LeNat, Crc, PutWord;
  }

  /** However often any other command is attempted, nothing resets on its answers and nobody asks to stay. */
  lemma {:induction false} OnlyBootResets(c: Config, d: Dev, hs: seq<Happening>, cmd: Byte, pl: Bytes)
    requires Inv(c, d) && cmd != CMD_BOOT
    ensures Resets(c, d, hs, cmd, pl) == []
    ensures !d.bootRequest ==> !Replay(c, d, hs, cmd, pl).bootRequest
    decreases |hs|
  {
    hide Inv, Once, Restarted, AfterReset;
    if |hs| > 0 {
      var x := Replay(c, d, hs[..|hs| - 1], cmd, pl);
      OnlyBootResets(c, d, hs[..|hs| - 1], cmd, pl);
      RestartForgets(c, x);
      if hs[|hs| - 1].Ran? {
        OnceAsksNothing(c, x, hs[|hs| - 1].world, cmd, pl);
      }
    }
  }

  /** One BOOT, answered OK: a reset decided on unchanged flash, and by mode 1 always in favour of staying. */
  lemma BootOnce(c: Config, d: Dev, w: World, mode: Byte)
    requires Inv(c, d)
    ensures var s := Once(c, d, w, CMD_BOOT, [mode]);
      && s.dev.flash.cell == d.flash.cell
      && (s.action == ResetDevice <==> s.payload[0] == OK)
      && (s.dev.bootRequest == d.bootRequest || s.action == ResetDevice)
      && (s.payload[0] == OK && mode == 1 ==> AfterReset(c, s.dev) == Stay)
      && (s.payload[0] == OK && mode == 0 && !d.bootRequest ==> AfterReset(c, s.dev) == Decide(c, d.flash.cell, false))
  {
    EnterFacts(c, d, w);
    ResetViewIsTruth(c, Enter(d, w).flash);
    hide Inv, RecordTrusted, Select, Legal;
  }

  /** A request never outlives the reset of the answer that armed it. */
  lemma {:induction false} BootsLeave(c: Config, d: Dev, hs: seq<Happening>, mode: Byte)
    requires Inv(c, d)
    ensures var e := Replay(c, d, hs, CMD_BOOT, [mode]);
      e.flash.cell == d.flash.cell && (!d.bootRequest ==> !e.bootRequest)
    decreases |hs|
  {
    hide Inv, Once, Restarted;
    if |hs| > 0 {
      var front := hs[..|hs| - 1];
      BootsLeave(c, d, front, mode);
      var x := Replay(c, d, front, CMD_BOOT, [mode]);
      RestartForgets(c, x);
      if hs[|hs| - 1].Ran? {
        BootOnce(c, x, hs[|hs| - 1].world, mode);
        RestartForgets(c, Once(c, x, hs[|hs| - 1].world, CMD_BOOT, [mode]).dev);
      }
    }
  }

  lemma RestartForgets(c: Config, d: Dev)
    requires Inv(c, d)
    ensures !Restarted(c, d).bootRequest && Restarted(c, d).flash.cell == d.flash.cell
  {
    hide Inv, Select, Highest;
    RestartKeepsFlash(c, d);
  }

  lemma {:induction false} ResetsTail(c: Config, d: Dev, hs: seq<Happening>, cmd: Byte, pl: Bytes, k: nat)
    requires Inv(c, d) && k < |hs| && forall j: nat :: k < j < |hs| ==> hs[j].WasReset?
    ensures Resets(c, d, hs, cmd, pl) == Resets(c, d, hs[..k + 1], cmd, pl)
    decreases |hs|
  {
    hide Inv, Replay;
    if k == |hs| - 1 {
      assert hs[..k + 1] == hs;
    } else {
      var front := hs[..|hs| - 1];
      assert front[..k + 1] == hs[..k + 1];
      ResetsTail(c, d, front, cmd, pl, k);
    }
  }

  /** What a BOOT answered OK leads to: mode 1 back into the bootloader; mode 0, on a device nobody had asked to
      stay, wherever the unchanged flash says. */
  lemma BootLeads(c: Config, d: Dev, hs: seq<Happening>, mode: Byte, k: nat, p: Bytes)
    requires Inv(c, d) && LastAnswer(c, d, hs, CMD_BOOT, [mode], k, p) && |p| > 0 && p[0] == OK
    requires |d.flash.cell| == c.siliconEnd && Legal(c)
    ensures var b := Resets(c, d, hs, CMD_BOOT, [mode]);
      && |b| > 0 && (mode == 1 ==> b[|b| - 1] == Stay)
      && (mode == 0 && !d.bootRequest ==> b[|b| - 1] == Decide(c, d.flash.cell, false))
  {
    hide Inv, Once, Replay, Resets, AfterReset, Decide;
    var x := Replay(c, d, hs[..k], CMD_BOOT, [mode]);
    BootsLeave(c, d, hs[..k], mode);
    BootOnce(c, x, hs[k].world, mode);
    ResetsTail(c, d, hs, CMD_BOOT, [mode], k);
    TakeMore(hs, k);
    ResetsMore(c, d, hs[..k], hs[k], CMD_BOOT, [mode]);
  }
}
