/** COMMIT keeps the invariant: it only ever vouches for the true image, and its record lands as meant
    or not at all. */
module CommitPath {
  import opened Bytes
  import opened Crc32
  import opened Geometry
  import opened Flash
  import opened Record
  import opened Decision
  import opened Core
  import opened Invariant
  import opened Preservation

  /** Whatever CRC COMMIT compares with the host's claim is the CRC of the true bytes, on stale-view
      parts included. */
  lemma AttestationTrue(c: Config, d: Dev, len: nat)
    requires Inv(c, d) && d.ram.session && 0 < len <= Capacity(c, d.ram.writeSlot)
    requires Attestation(c, d, len).Some?
    ensures Attestation(c, d, len) == Some(Crc(Image(c, d.flash.cell, d.ram.writeSlot, len)))
  {
    hide Parse, Update, LastOK, BitmapOK, GenerationsOK, SlotsOK, Truthful;
    if AttestViaXip(c, d) {
      CleanView(c, d.flash, 0, |d.flash.cell|);
      assert View(c, d) == d.flash.cell;
    }
  }

  /** Inside one aligned block every byte shares the block's number. */
  lemma RecordIsOneBlock(c: Config, slot: nat)
    requires Legal(c) && IsSlot(slot)
    ensures Touched(c, RecordAddr(c, slot), RECORD_SIZE) == {RecordAddr(c, slot) / c.eraseBlock}
  {
    SlotLayout(c, slot);
    BlockMembers(RecordAddr(c, slot) + RECORD_SIZE - 1, RecordAddr(c, slot), c.eraseBlock);
  }

  /** Programming the record over a freshly erased block leaves one of its torn forms. */
  lemma ProgrammedIsTorn(c: Config, f: Flash, slot: nat, r: Record, o: Outcome)
    requires Legal(c) && IsSlot(slot) && |f.cell| == |f.prog| == c.siliconEnd
    requires SlotBase(c, slot) + c.slotSize <= c.siliconEnd
    requires r.generation < U32_LIMIT && r.imgLen < U32_LIMIT
    requires var a := RecordAddr(c, slot); forall i: nat :: a <= i < a + RECORD_SIZE ==>
      f.cell[i] == ErasedByte(i) && f.prog[i] == 0xFF
    ensures var a := RecordAddr(c, slot); var k := if o.landed < 8 then o.landed else 8;
      Program(f.cell, f.prog, a, Encode(r), Words(o, RECORD_SIZE))[a..a + RECORD_SIZE] == Torn(r, k)
  {
    hide Crc, PutWord, PutNat, Encode;
    SlotLayout(c, slot);
    var a := RecordAddr(c, slot);
    var k := if o.landed < 8 then o.landed else 8;
    var cell := Program(f.cell, f.prog, a, Encode(r), Words(o, RECORD_SIZE));
    hide ErasedByte, Program;
    forall j: nat | j < RECORD_SIZE
      ensures cell[a + j] == Torn(r, k)[j]
    {
      ErasedPeriod(a, j);
    }
  }

  lemma ErasedPeriod(a: nat, j: nat)
    requires a % 4 == 0
    ensures ErasedByte(a + j) == ErasedByte(j)
  {
  }

  /** The write after a successful erase of the record block. */
  lemma RecordProgram(c: Config, f: Flash, slot: nat, r: Record)
    requires Legal(c) && IsSlot(slot) && Capacity(c, slot) != 0 && Sound(r, ImageMax(c))
    requires Physical(c, f)
    requires RecordAddr(c, slot) / c.eraseBlock in f.armed
    requires var a := RecordAddr(c, slot); forall i: nat :: a <= i < a + RECORD_SIZE ==>
      f.cell[i] == ErasedByte(i) && f.prog[i] == 0xFF
    ensures var (g, code) := Write(c, f, RecordAddr(c, slot), Encode(r));
      && Physical(c, g) && g.violations == f.violations && g.armed == f.armed
      && SameOutside(f.cell, g.cell, RecordAddr(c, slot), RecordAddr(c, slot) + RECORD_SIZE)
      && (Load(c, g.cell, slot).None? || Load(c, g.cell, slot) == Some(r))
      && (Verify(g, RecordAddr(c, slot), Encode(r)) == 0 ==> Load(c, g.cell, slot) == Some(r))
  {
    hide Crc, PutWord, PutNat, Encode, Parse, Touched;
    var a := RecordAddr(c, slot);
    SlotLayout(c, slot);
    RecordIsOneBlock(c, slot);
    WriteEffect(c, f, a, Encode(r));
    var (g, code) := Write(c, f, a, Encode(r));
    var o := if |f.plan| == 0 then Outcome(0, 0) else f.plan[0];
    ProgrammedIsTorn(c, f, slot, r, o);
    var k := if o.landed < 8 then o.landed else 8;
    assert g.cell[a..a + RECORD_SIZE] == Torn(r, k);
    if Load(c, g.cell, slot).Some? {
      TornMeansIntended(r, k, ImageMax(c));
    }
    ParseEncode(r, ImageMax(c));
  }

  /** Storing a record: afterwards the write slot holds what it held, nothing, or exactly this record. */
  lemma RecordStoreEffect(c: Config, d: Dev, r: Record)
    requires Inv(c, d) && Capacity(c, d.ram.writeSlot) != 0 && Sound(r, ImageMax(c))
    ensures var w := d.ram.writeSlot; var (f, code) := RecordStore(c, d.flash, w, r);
      && Physical(c, f) && f.violations == 0 && f.armed >= d.flash.armed
      && SameOutside(d.flash.cell, f.cell, RecordAddr(c, w), RecordAddr(c, w) + RECORD_BLOCK)
      && (f.cell == d.flash.cell || Load(c, f.cell, w).None? || Load(c, f.cell, w) == Some(r))
      && (code == 0 ==> Load(c, f.cell, w) == Some(r))
  {
    hide Parse, Crc, Update, Erase, Write, Encode, Verify,
         StreamOK, LastOK, BitmapOK, GenerationsOK, SlotsOK, RecordStateOK, Truthful;
    SlotLayout(c, d.ram.writeSlot);
    RecordErase(c, d);
    var (f1, r1) := Erase(c, d.flash, RecordAddr(c, d.ram.writeSlot));
    if r1 == 0 {
      RecordProgram(c, f1, d.ram.writeSlot, r);
    }
  }

  /** The image below the record reserve, and so its CRC, survives any store. */
  lemma ImageSurvives(c: Config, v: Bytes, w: Bytes, slot: nat, len: nat)
    requires Legal(c) && IsSlot(slot) && |v| == |w| == c.siliconEnd && Capacity(c, slot) != 0
    requires SameOutside(v, w, RecordAddr(c, slot), RecordAddr(c, slot) + RECORD_BLOCK)
    requires len <= ImageMax(c)
    ensures Image(c, v, slot, len) == Image(c, w, slot, len)
  {
    SameSlice(v, w, SlotBase(c, slot), SlotBase(c, slot) + len);
  }

  /** A record whose CRC is the true one makes its slot truthful, wherever the store stopped. */
  lemma StoredIsTruthful(c: Config, d: Dev, r: Record)
    requires Inv(c, d) && Capacity(c, d.ram.writeSlot) != 0 && Sound(r, ImageMax(c))
    requires Crc(Image(c, d.flash.cell, d.ram.writeSlot, r.imgLen)) == r.imgCrc
    ensures TruthfulSlot(c, RecordStore(c, d.flash, d.ram.writeSlot, r).0.cell, d.ram.writeSlot)
  {
    hide Parse, Crc, Update, RecordStore,
         StreamOK, LastOK, BitmapOK, GenerationsOK, SlotsOK, RecordStateOK;
    var w := d.ram.writeSlot;
    RecordStoreEffect(c, d, r);
    var f := RecordStore(c, d.flash, w, r).0;
    if f.cell != d.flash.cell && Load(c, f.cell, w).Some? {
      ImageSurvives(c, d.flash.cell, f.cell, w, r.imgLen);
    }
  }

  /** What storing an attested record leaves behind. */
  ghost predicate CommitFrame(c: Config, d: Dev, e: Dev, p: Bytes, r: Record)
    requires WellFormed(c, d)
  {
    var w := d.ram.writeSlot;
    && Inv(c, e) && e.ram.session && e.bootRequest == d.bootRequest
    && SameOutside(d.flash.cell, e.flash.cell, RecordAddr(c, w), RecordAddr(c, w) + RECORD_BLOCK)
    && (e.flash.cell == d.flash.cell || Load(c, e.flash.cell, w).None? || Load(c, e.flash.cell, w) == Some(r))
    && (p == [OK] ==> (
          && Load(c, e.flash.cell, w) == Some(r)
          && e.ram.active == Some(w) && e.ram.writeSlot == Other(w) && e.ram.rec == Fresh
          && e.ram.highest == r.generation && e.ram.committedLen == r.imgLen && e.ram.committedCrc == r.imgCrc))
    && (p != [OK] ==> (
          && e.ram.active == d.ram.active && e.ram.writeSlot == w && e.ram.highest == d.ram.highest
          && e.ram.rec == Invalid))
  }

  lemma InvStoreFailed(c: Config, d: Dev, r: Record, f: Flash)
    requires Inv(c, d) && d.ram.session && Capacity(c, d.ram.writeSlot) != 0 && Sound(r, ImageMax(c))
    requires r.generation == d.ram.highest + 1
    requires Crc(Image(c, d.flash.cell, d.ram.writeSlot, r.imgLen)) == r.imgCrc
    requires f == RecordStore(c, d.flash, d.ram.writeSlot, r).0
    ensures forall p: Bytes :: p != [OK] ==>
      CommitFrame(c, d, RecordWriteFailed(RecordBeginWrite(d).(flash := f)), p, r)
  {
    hide Parse, Crc, Update, RecordStore, StreamOK, LastOK, BitmapOK, SlotsOK, RecordStateOK, Truthful, TruthfulSlot;
    RecordStoreEffect(c, d, r);
    StoredIsTruthful(c, d, r);
    ReserveChange(c, d, RecordWriteFailed(RecordBeginWrite(d).(flash := f)));
  }

  lemma InvStoreCommitted(c: Config, d: Dev, r: Record, f: Flash)
    requires Inv(c, d) && d.ram.session && Capacity(c, d.ram.writeSlot) != 0 && Sound(r, ImageMax(c))
    requires r.generation == d.ram.highest + 1
    requires Crc(Image(c, d.flash.cell, d.ram.writeSlot, r.imgLen)) == r.imgCrc
    requires RecordStore(c, d.flash, d.ram.writeSlot, r) == (f, 0)
    ensures CommitFrame(c, d, RecordCommitted(c, RecordBeginWrite(d).(flash := f), r), [OK], r)
  {
    hide Parse, Crc, Update, RecordStore;
    var w := d.ram.writeSlot;
    RecordStoreEffect(c, d, r);
    StoredIsTruthful(c, d, r);
    ReserveFrame(c, d.flash.cell, f.cell, w);
    var e := RecordCommitted(c, RecordBeginWrite(d).(flash := f), r);
    assert WellFormed(c, e);
    assert Truthful(c, e.flash.cell);
    assert GenerationsOK(c, e);
    assert RecordStateOK(c, e);
  }

  lemma InvStoreRecord(c: Config, d: Dev, r: Record)
    requires Inv(c, d) && d.ram.session && Capacity(c, d.ram.writeSlot) != 0 && Sound(r, ImageMax(c))
    requires r.generation == d.ram.highest + 1
    requires Crc(Image(c, d.flash.cell, d.ram.writeSlot, r.imgLen)) == r.imgCrc
    ensures var (e, p) := StoreRecord(c, d, r); CommitFrame(c, d, e, p, r)
  {
    assert WellFormed(c, d);
    hide Parse, Crc, Update, RecordStore, Inv, Image, CommitFrame, RecordCommitted, RecordBeginWrite, RecordWriteFailed;
    var (f, code) := RecordStore(c, d.flash, d.ram.writeSlot, r);
    if code == 0 {
      InvStoreCommitted(c, d, r, f);
    } else {
      InvStoreFailed(c, d, r, f);
    }
  }

  /** The record an accepted COMMIT stores. */
  function NextRecord(d: Dev, len: nat, crc: bv32): Record { Record(d.ram.highest + 1, len, crc) }

  /** COMMIT reaches the record store. */
  predicate CommitStores(c: Config, d: Dev, len: nat, crc: bv32)
    requires WellFormed(c, d)
  {
    && 0 < len <= Capacity(c, d.ram.writeSlot) && Aligned(len, 4)
    && !CommitReplay(d, len, crc) && Attestation(c, d, len) == Some(crc)
    && d.ram.highest + 1 < GENERATION_CEILING
  }

  predicate CommitReplays(c: Config, d: Dev, len: nat, crc: bv32)
    requires WellFormed(c, d)
  {
    0 < len <= Capacity(c, d.ram.writeSlot) && Aligned(len, 4) && CommitReplay(d, len, crc)
  }

  /** A COMMIT is refused or acknowledged as a replay without any effect, or stores its record. */
  lemma CommitShape(c: Config, d: Dev, pl: Bytes)
    requires WellFormed(c, d) && d.ram.highest < U32_LIMIT
    ensures |pl| != 8 ==> DoCommit(c, d, pl).0 == d && DoCommit(c, d, pl).1 != [OK]
    ensures |pl| == 8 ==>
      var len, crc := LeNat(pl[0..4]), LeWord(pl[4..8]);
      if CommitStores(c, d, len, crc) then DoCommit(c, d, pl) == StoreRecord(c, d, NextRecord(d, len, crc))
      else DoCommit(c, d, pl).0 == d && (DoCommit(c, d, pl).1 == [OK] <==> CommitReplays(c, d, len, crc))
  {
    hide LeNat, LeWord, Attestation, StoreRecord, Aligned;
  }

  /** A COMMIT that stores a record vouches for the true image. */
  lemma InvCommitStores(c: Config, d: Dev, len: nat, crc: bv32)
    requires Inv(c, d) && d.ram.session && CommitStores(c, d, len, crc) && len < U32_LIMIT
    ensures Crc(Image(c, d.flash.cell, d.ram.writeSlot, len)) == crc
    ensures var r := NextRecord(d, len, crc); var (e, p) := StoreRecord(c, d, r);
      CommitFrame(c, d, e, p, r) && Inv(c, e)
  {
    hide Attestation, StoreRecord, Crc, Parse, Update, Image, StreamOK, LastOK, BitmapOK, SlotsOK, RecordStateOK,
         Truthful, Physical, GenerationsOK, RecordStore;
    AttestationTrue(c, d, len);
    InvStoreRecord(c, d, NextRecord(d, len, crc));
  }

  lemma InvCommit(c: Config, d: Dev, pl: Bytes)
    requires Inv(c, d) && d.ram.session
    ensures Inv(c, DoCommit(c, d, pl).0)
  {
    assert WellFormed(c, d) && d.ram.highest < U32_LIMIT;
    hide LeNat, LeWord, Inv, CommitStores, CommitReplays, StoreRecord, DoCommit, CommitFrame, Image, Crc;
    CommitShape(c, d, pl);
    if |pl| == 8 && CommitStores(c, d, LeNat(pl[0..4]), LeWord(pl[4..8])) {
      InvCommitStores(c, d, LeNat(pl[0..4]), LeWord(pl[4..8]));
    }
  }
}
