/** BOOT over a view that may be stale: when its answer does not depend on what the view serves. */
module StaleBoot {
  import opened Bytes
  import opened Crc32
  import opened Geometry
  import opened Flash
  import opened Record
  import opened Decision
  import opened Core
  import opened Invariant
  import opened Preservation
  import opened CommitPath
  import opened Frames
  import opened Theorems
  import opened Stranding

  /** The memory-mapped view while dirty blocks are served from `stale`. */
  function Served(c: Config, d: Dev, stale: nat -> Byte): (v: Bytes)
    requires WellFormed(c, d)
    ensures |v| == c.siliconEnd
  {
    View(c, Enter(d, World(d.flash.plan, stale)))
  }

  /** BOOT mode 0 is answered OK over this view. */
  predicate Answers(c: Config, d: Dev, stale: nat -> Byte)
    requires WellFormed(c, d)
  {
    DoBoot(c, Enter(d, World(d.flash.plan, stale)), [0]).1 == [OK]
  }

  predicate Clean(c: Config, f: Flash, i: nat)
    requires c.eraseBlock > 0
  {
    i / c.eraseBlock !in f.dirty
  }

  /** No block that the check of this slot reads has been touched since reset: the record's, the first of the
      image and, in a build that checks image CRCs, every other one of the image. */
  predicate ReadsClean(c: Config, d: Dev, slot: nat)
    requires WellFormed(c, d) && IsSlot(slot) && Load(c, d.flash.cell, slot).Some?
  {
    && Clean(c, d.flash, RecordAddr(c, slot)) && Clean(c, d.flash, SlotBase(c, slot))
    && (c.bootImageCrc ==>
          forall i: nat :: SlotBase(c, slot) <= i < SlotBase(c, slot) + Load(c, d.flash.cell, slot).value.imgLen ==>
            Clean(c, d.flash, i))
  }

  lemma ServedAt(c: Config, d: Dev, stale: nat -> Byte, i: nat)
    requires WellFormed(c, d) && i < c.siliconEnd
    ensures Served(c, d, stale)[i] == if CrcLive(c) || Clean(c, d.flash, i) then d.flash.cell[i] else stale(i)
  {
    hide CrcLive, Xip;
    XipAt(c, Enter(d, World(d.flash.plan, stale)).flash, i);
  }

  lemma ServedInside(c: Config, d: Dev, stale: nat -> Byte, lo: nat, hi: nat)
    requires WellFormed(c, d)
    requires forall i: nat :: lo <= i < hi && i < c.siliconEnd ==> CrcLive(c) || Clean(c, d.flash, i)
    ensures SameInside(d.flash.cell, Served(c, d, stale), lo, hi)
  {
    hide Legal, CrcLive, Served, Clean;
    forall i: nat | lo <= i < hi && i < c.siliconEnd
      ensures d.flash.cell[i] == Served(c, d, stale)[i]
    {
      ServedAt(c, d, stale, i);
    }
  }

  /** All bytes of one aligned block are clean with its first. */
  lemma CleanBlock(c: Config, f: Flash, a: nat, n: nat)
    requires c.eraseBlock > 0 && a % c.eraseBlock == 0 && n <= c.eraseBlock && Clean(c, f, a)
    ensures forall i: nat :: a <= i < a + n ==> Clean(c, f, i)
  {
    forall i: nat | a <= i < a + n
      ensures Clean(c, f, i)
    {
      BlockMembers(i, a, c.eraseBlock);
    }
  }

  /** The check of a slot reads its record, its first word and, where image CRCs are checked, its image. */
  lemma BootableReads(c: Config, v: Bytes, w: Bytes, slot: nat)
    requires Legal(c) && IsSlot(slot) && |v| == |w| == c.siliconEnd
    requires SameInside(v, w, RecordAddr(c, slot), RecordAddr(c, slot) + RECORD_SIZE)
    requires SameInside(v, w, SlotBase(c, slot), SlotBase(c, slot) + 4)
    requires c.bootImageCrc && Load(c, v, slot).Some? ==>
      SameInside(v, w, SlotBase(c, slot), SlotBase(c, slot) + Load(c, v, slot).value.imgLen)
    ensures Bootable(c, v, slot) == Bootable(c, w, slot)
  {
    LoadCongruent(c, v, w, slot);
    hide Load;
    if Load(c, v, slot).Some? {
      LoadIsSound(c, v, slot);
      var b := SlotBase(c, slot);
      SameSlice(v, w, b, b + 4);
      if c.bootImageCrc {
        SameSlice(v, w, b, b + Load(c, v, slot).value.imgLen);
      }
    }
  }

  lemma AnswersIsBootable(c: Config, d: Dev, stale: nat -> Byte)
    requires Inv(c, d) && WellFormed(c, d) && d.ram.active.Some? && d.ram.rec == Invalid
    ensures Answers(c, d, stale) <==> Bootable(c, Served(c, d, stale), d.ram.active.value)
  {
    hide Inv, Bootable;
  }

  /** Over clean blocks the view answers as the truth does. */
  lemma CleanAnswers(c: Config, d: Dev, slot: nat, stale: nat -> Byte)
    requires WellFormed(c, d) && IsSlot(slot) && Bootable(c, d.flash.cell, slot)
    requires CrcLive(c) || ReadsClean(c, d, slot)
    ensures Bootable(c, Served(c, d, stale), slot)
  {
    hide Bootable, Load, CrcLive, Served, Clean;
    SlotLayout(c, slot);
    BootableLoads(c, d.flash.cell, slot);
    var a, b := RecordAddr(c, slot), SlotBase(c, slot);
    if !CrcLive(c) {
      CleanBlock(c, d.flash, a, RECORD_SIZE);
      CleanBlock(c, d.flash, b, 4);
    }
    ServedInside(c, d, stale, a, a + RECORD_SIZE);
    ServedInside(c, d, stale, b, b + 4);
    if c.bootImageCrc {
      ServedInside(c, d, stale, b, b + Load(c, d.flash.cell, slot).value.imgLen);
    }
    BootableReads(c, d.flash.cell, Served(c, d, stale), slot);
  }

  lemma BootableLoads(c: Config, v: Bytes, slot: nat)
    requires Legal(c) && IsSlot(slot) && |v| == c.siliconEnd && Bootable(c, v, slot)
    ensures Load(c, v, slot).Some? && SlotBase(c, slot) + c.slotSize <= |v|
    ensures 0 < Load(c, v, slot).value.imgLen <= ImageMax(c)
  {
    hide Load;
    LoadIsSound(c, v, slot);
  }

  // ---- the views that are refused ----------------------------------------

  /** Zeros where the record is. */
  lemma ZerosRefused(c: Config, d: Dev, slot: nat)
    requires WellFormed(c, d) && IsSlot(slot) && Bootable(c, d.flash.cell, slot)
    requires !CrcLive(c) && !Clean(c, d.flash, RecordAddr(c, slot))
    ensures !Bootable(c, Served(c, d, _ => 0), slot)
  {
    hide Bootable, Load, CrcLive, Served;
    SlotLayout(c, slot);
    BootableLoads(c, d.flash.cell, slot);
    ServedAt(c, d, _ => 0, RecordAddr(c, slot));
    NoRecordInZeros(c, Served(c, d, _ => 0), slot);
  }

  /** The erased pattern where the image begins. */
  lemma ErasedRefused(c: Config, d: Dev, slot: nat)
    requires WellFormed(c, d) && IsSlot(slot) && Bootable(c, d.flash.cell, slot)
    requires !CrcLive(c) && !Clean(c, d.flash, SlotBase(c, slot))
    ensures !Bootable(c, Served(c, d, ErasedByte), slot)
  {
    hide Bootable, Load, CrcLive, Served;
    SlotLayout(c, slot);
    BootableLoads(c, d.flash.cell, slot);
    var b, v := SlotBase(c, slot), Served(c, d, ErasedByte);
    forall j: nat | j < 4
      ensures v[b + j] == ErasedByte(j)
    {
      BlockMembers(b + j, b, c.eraseBlock);
      ServedAt(c, d, ErasedByte, b + j);
      ErasedPeriod(b, j);
    }
    ErasedWordBytes();
    assert v[b..b + 4] == [v[b + 0], v[b + 1], v[b + 2], v[b + 3]];
    BlankNeverBoots(c, v, slot);
  }

  function Changed(b: Byte): (r: Byte)
    ensures r != b
  {
    b ^ 1
  }

  /** The true content but for the byte at `at`. */
  function OneOff(cell: Bytes, at: nat): nat -> Byte {
    (i: nat) => if i >= |cell| then 0 else if i == at then Changed(cell[i]) else cell[i]
  }

  lemma OneOffServed(c: Config, d: Dev, at: nat)
    requires WellFormed(c, d) && at < c.siliconEnd && !CrcLive(c) && !Clean(c, d.flash, at)
    ensures Served(c, d, OneOff(d.flash.cell, at)) == d.flash.cell[at := Changed(d.flash.cell[at])]
  {
    hide Legal, CrcLive, Served, Clean, Changed;
    var v := Served(c, d, OneOff(d.flash.cell, at));
    forall i: nat | i < c.siliconEnd
      ensures v[i] == d.flash.cell[at := Changed(d.flash.cell[at])][i]
    {
      ServedAt(c, d, OneOff(d.flash.cell, at), i);
    }
  }

  /** One wrong byte of the image. */
  lemma OneOffRefused(c: Config, d: Dev, slot: nat, i: nat)
    requires WellFormed(c, d) && IsSlot(slot) && TruthfulSlot(c, d.flash.cell, slot) && Bootable(c, d.flash.cell, slot)
    requires c.bootImageCrc && SlotBase(c, slot) <= i < SlotBase(c, slot) + Load(c, d.flash.cell, slot).value.imgLen
    requires !CrcLive(c) && !Clean(c, d.flash, i)
    ensures !Bootable(c, Served(c, d, OneOff(d.flash.cell, i)), slot)
  {
    hide Load, CrcLive, Served, Clean, Changed, OneOff, Crc, Bootable, TruthfulSlot, Legal;
    BootableLoads(c, d.flash.cell, slot);
    OneOffServed(c, d, i);
    WrongImageRefused(c, d.flash.cell, slot, i - SlotBase(c, slot), Changed(d.flash.cell[i]));
  }

  lemma WrongImageRefused(c: Config, v: Bytes, slot: nat, i: nat, x: Byte)
    requires Legal(c) && IsSlot(slot) && |v| == c.siliconEnd && c.bootImageCrc
    requires TruthfulSlot(c, v, slot) && Bootable(c, v, slot) && i < Load(c, v, slot).value.imgLen
    requires SlotBase(c, slot) + i < |v| && x != v[SlotBase(c, slot) + i]
    ensures !Bootable(c, v[SlotBase(c, slot) + i := x], slot)
  {
    hide Load, Crc;
    BootableLoads(c, v, slot);
    var b, r := SlotBase(c, slot), Load(c, v, slot).value;
    LoadCongruent(c, v, v[b + i := x], slot);
    ChangedByte(v, b, r.imgLen, i, x);
  }

  lemma ChangedByte(s: Bytes, b: nat, n: nat, i: nat, x: Byte)
    requires i < n && b + n <= |s| && x != s[b + i]
    ensures Crc(s[b + i := x][b..b + n]) != Crc(s[b..b + n])
  {
    hide Crc;
    var pre, post := s[b..b + i], s[b + i + 1..b + n];
    assert s[b..b + n] == pre + [s[b + i]] + post;
    assert s[b + i := x][b..b + n] == pre + [x] + post;
    BurstDetected(pre, [x], [s[b + i]], post);
  }

  /** After an interrupted update a bootable slot is answered OK whatever a stale view serves exactly when the
      part reads coherently or no block the check reads has been touched since reset. Otherwise some view is
      refused: zeros over the record, the erased pattern over the first word, or one wrong byte of the image. */
  lemma BootAnswersEveryView(c: Config, d: Dev)
    requires Inv(c, d) && BootableActive(c, d) && d.ram.rec == Invalid
    ensures WellFormed(c, d) && Load(c, d.flash.cell, d.ram.active.value).Some?
    ensures (forall stale: nat -> Byte :: Answers(c, d, stale)) <==> CrcLive(c) || ReadsClean(c, d, d.ram.active.value)
  {
    FrameRelevant(c, d);
    BootedSlot(c, d);
    hide Inv, Bootable, Load, CrcLive, Answers, Clean, Served, OneOff, TruthfulSlot;
    var k := d.ram.active.value;
    BootableLoads(c, d.flash.cell, k);
    if CrcLive(c) || ReadsClean(c, d, k) {
      forall stale: nat -> Byte
        ensures Answers(c, d, stale)
      {
        CleanAnswers(c, d, k, stale);
        AnswersIsBootable(c, d, stale);
      }
    } else {
      var stale := Refused(c, d, k);
      AnswersIsBootable(c, d, stale);
      assert !Answers(c, d, stale);
    }
  }

  lemma Refused(c: Config, d: Dev, slot: nat) returns (stale: nat -> Byte)
    requires WellFormed(c, d) && IsSlot(slot) && TruthfulSlot(c, d.flash.cell, slot) && Bootable(c, d.flash.cell, slot)
    requires Load(c, d.flash.cell, slot).Some? && !CrcLive(c) && !ReadsClean(c, d, slot)
    ensures !Bootable(c, Served(c, d, stale), slot)
  {
    hide Bootable, Load, CrcLive, Clean, Served, OneOff, TruthfulSlot;
    if !Clean(c, d.flash, RecordAddr(c, slot)) {
      stale := _ => 0;
      ZerosRefused(c, d, slot);
    } else if !Clean(c, d.flash, SlotBase(c, slot)) {
      stale := ErasedByte;
      ErasedRefused(c, d, slot);
    } else {
      var b := SlotBase(c, slot);
      var i: nat :| b <= i < b + Load(c, d.flash.cell, slot).value.imgLen && !Clean(c, d.flash, i);
      stale := OneOff(d.flash.cell, i);
      OneOffRefused(c, d, slot, i);
    }
  }

  lemma BootedSlot(c: Config, d: Dev)
    requires Inv(c, d) && WellFormed(c, d) && BootableActive(c, d)
    ensures IsSlot(d.ram.active.value) && TruthfulSlot(c, d.flash.cell, d.ram.active.value)
  {
    hide TruthfulSlot, Bootable, Load, Physical, StreamOK, LastOK, BitmapOK, GenerationsOK, RecordStateOK;
  }
}
