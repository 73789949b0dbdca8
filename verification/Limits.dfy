/** Where the promises stop: the concrete situations behind the conditions of the main theorems. */
module Limits {
  import opened Bytes
  import opened Crc32
  import opened Geometry
  import opened Flash
  import opened Record
  import opened Decision
  import opened Core
  import opened Invariant
  import opened Preservation
  import opened CommitPath
  import opened Theorems
  import Completeness

  /** A factory-fresh part, and a world in which the next erase and the next write both succeed. */
  function Blank(c: Config): Flash {
    Flash(seq(c.siliconEnd, i requires 0 <= i < c.siliconEnd => ErasedByte(i)), seq(c.siliconEnd, _ => 0xFF),
          {}, {}, [], [Outcome(12, 0), Outcome(12, 0)], _ => 0, 0)
  }

  function BlankSession(c: Config): (d: Dev)
    requires Legal(c)
  {
    SessionOpen(c, PowerUp(c, Blank(c), false))
  }

  lemma BlankHoldsNothing(c: Config, slot: nat)
    requires Legal(c) && IsSlot(slot)
    ensures Load(c, Blank(c).cell, slot) == None
  {
    if Capacity(c, slot) != 0 {
      SlotLayout(c, slot);
    }
    ErasedHoldsNoRecord(c, Blank(c).cell, slot);
  }

  lemma BlankStart(c: Config)
    requires Legal(c)
    ensures var d := BlankSession(c);
      && Inv(c, d) && d.ram.session && d.ram.active == None && d.ram.writeSlot == 0 && d.ram.highest == 0
      && d.ram.rec == FromFlash && d.flash == Blank(c) && !d.bootRequest && View(c, d) == Blank(c).cell
  {
    hide Parse, Crc, Update;
    BlankHoldsNothing(c, 0);
    BlankHoldsNothing(c, 1);
    var f := Blank(c);
    assert Reset(f) == f;
    CleanView(c, f, 0, |f.cell|);
    assert Xip(c, f) == f.cell;
    InvPowerUp(c, f, false);
    InvSessionOpen(c, PowerUp(c, f, false));
  }

  lemma BlankImage(c: Config)
    requires Legal(c) && Capacity(c, 0) != 0
    ensures SlotBase(c, 0) + 4 <= |Blank(c).cell|
    ensures Image(c, Blank(c).cell, 0, 4) == ERASED_WORD && FirstWordErased(c, Blank(c).cell, 0)
  {
    SlotLayout(c, 0);
    var b := SlotBase(c, 0);
    hide ErasedByte;
    ErasedPeriod(b, 0); ErasedPeriod(b, 1); ErasedPeriod(b, 2); ErasedPeriod(b, 3);
    assert Image(c, Blank(c).cell, 0, 4) == ERASED_WORD;
  }

  function BlankRecord(): Record { Record(1, 4, Crc(ERASED_WORD)) }

  lemma BlankCommits(c: Config)
    requires Legal(c) && Capacity(c, 0) != 0
    ensures CommitStores(c, BlankSession(c), 4, Crc(ERASED_WORD))
    ensures NextRecord(BlankSession(c), 4, Crc(ERASED_WORD)) == BlankRecord() && Sound(BlankRecord(), ImageMax(c))
    ensures StoreRecord(c, BlankSession(c), BlankRecord()).1 == [OK]
  {
    hide Crc, Parse, RecordStore, Image, Inv;
    BlankStart(c);
    BlankImage(c);
    SlotLayout(c, 0);
    FourAligned(c);
    assert Sound(BlankRecord(), ImageMax(c));
    Completeness.StoreSucceeds(c, BlankSession(c), BlankRecord());
  }

  lemma FourAligned(c: Config)
    requires Legal(c)
    ensures ImageMax(c) >= 4
  {
    SlotLayout(c, 0);
  }

  /** COMMIT accepts an image that begins with the erased pattern. BOOT then answers OK, and the reset
      it announces finds nothing to launch: on a blank part with room for slot A, COMMIT of its first
      four bytes does it. */
  lemma BlankCommitStrands(c: Config, pl: Bytes)
    requires Legal(c) && Capacity(c, 0) != 0
    requires |pl| == 8 && LeNat(pl[0..4]) == 4 && LeWord(pl[4..8]) == Crc(ERASED_WORD)
    ensures DoCommit(c, BlankSession(c), pl).1 == [OK]
    ensures var e := DoCommit(c, BlankSession(c), pl).0;
      && WellFormed(c, e) && DoBoot(c, e, [0]).1 == [OK]
      && AfterReset(c, DoBoot(c, e, [0]).0) == Stay
  {
    hide Crc, Parse, RecordStore, Update, LeNat, LeWord, StreamOK, LastOK, BitmapOK, Truthful, Physical, Attestation,
         StoreRecord, Image;
    BlankStart(c);
    BlankCommits(c);
    BlankImage(c);
    var d := BlankSession(c);
    CommitShape(c, d, pl);
    CommitWins(c, d, 4, Crc(ERASED_WORD));
    InvCommitStores(c, d, 4, Crc(ERASED_WORD));
    var e := StoreRecord(c, d, BlankRecord()).0;
    BlankHoldsNothing(c, 1);
    OtherUnchanged(c, d, e);
    CapacityMeaning(c, 0);
    SlotLayout(c, 0);
    SameSlice(d.flash.cell, e.flash.cell, SlotBase(c, 0), SlotBase(c, 0) + 4);
    ResetViewIsTruth(c, e.flash);
    SelectIsArgmax(c, e.flash.cell);
  }

  /** Blessing right after a commit: HELLO and the same COMMIT once more are answered OK although the slot
      now offered holds no record and gets none. */
  lemma SecondBlessIsEmpty(c: Config, pl: Bytes)
    requires Legal(c) && Capacity(c, 0) != 0 && Capacity(c, 1) != 0
    requires |pl| == 8 && LeNat(pl[0..4]) == 4 && LeWord(pl[4..8]) == Crc(ERASED_WORD)
    ensures var e := SessionOpen(c, DoCommit(c, BlankSession(c), pl).0);
      && WellFormed(c, e) && e.ram.writeSlot == 1 && Load(c, e.flash.cell, 1) == None
      && DoCommit(c, e, pl) == (e, [OK])
  {
    hide Crc, Parse, RecordStore, Update, LeNat, LeWord, StreamOK, LastOK, BitmapOK, Truthful, Physical, Attestation,
         StoreRecord, Image, DoCommit;
    BlankStart(c);
    BlankCommits(c);
    var d := BlankSession(c);
    CommitShape(c, d, pl);
    InvCommitStores(c, d, 4, Crc(ERASED_WORD));
    var e := StoreRecord(c, d, BlankRecord()).0;
    BlankHoldsNothing(c, 1);
    OtherUnchanged(c, d, e);
    InvSessionOpen(c, e);
    FourAligned(c);
    CapacityMeaning(c, 1);
    CommitShape(c, SessionOpen(c, e), pl);
  }

  /** A die with room for slot A only, under a build that expects both. */
  const HALF_DIE: Config :=
    Config(0x2000, 0xA000, 0x6000, 4096, 0x4000, 0, false, 0x70, 1, 1, [0, 0, 0, 0, 0, 0, 0, 0])

  /** There a lost COMMIT answer cannot be asked for again: the repetition is refused although the
      record is in place, because the capacity of the next write slot is checked first. */
  lemma HalfDieRefusesReplay(pl: Bytes, w: World)
    requires |pl| == 8 && LeNat(pl[0..4]) == 4 && LeWord(pl[4..8]) == Crc(ERASED_WORD)
    ensures Legal(HALF_DIE) && DoCommit(HALF_DIE, BlankSession(HALF_DIE), pl).1 == [OK]
    ensures var e := Enter(DoCommit(HALF_DIE, BlankSession(HALF_DIE), pl).0, w);
      WellFormed(HALF_DIE, e) && DoCommit(HALF_DIE, e, pl) == (e, Err(E_ADDR, DET_RANGE))
  {
    hide Crc, Parse, RecordStore, Update, LeNat, LeWord, Inv, Attestation, StoreRecord, DoCommit, CommitStores;
    BlankStart(HALF_DIE);
    BlankCommits(HALF_DIE);
    CommitShape(HALF_DIE, BlankSession(HALF_DIE), pl);
    CommitReplayExact(HALF_DIE, BlankSession(HALF_DIE), 4, Crc(ERASED_WORD), pl, w);
  }
}
