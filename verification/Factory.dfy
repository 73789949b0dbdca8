/** The other two hands that touch boot records: the application companion, which judges them, and the
    factory composer, which writes the first one. */
module Factory {
  import opened Bytes
  import opened Crc32
  import opened Geometry
  import opened Flash
  import opened Record
  import opened Decision
  import opened Core
  import opened Invariant
  import opened Preservation
  import opened CommitPath

  // ---- the application companion -----------------------------------------

  /** The companion's verdict, with its own bitwise CRC, is the bootloader's own rule on every 32 bytes. */
  method OpenbootRecordValid(bytes: Bytes, capacity: nat) returns (ok: bool)
    requires |bytes| == RECORD_SIZE
    ensures ok <==> Parse(bytes, capacity).Some?
  {
    hide Crc, LeNat, LeWord, PutWord;
    if bytes[0..4] != MAGIC {
      return false;
    }
    var crc := BitwiseCrc(bytes[0..28]);
    PutWordOfLeWord(bytes[28..32]);
    WordRoundTrip(crc);
    if crc != LeWord(bytes[28..32]) {
      return false;
    }
    var reserved := bytes[16..28];
    var i := 0;
    while i < 12
      invariant 0 <= i <= 12
      invariant forall j :: 0 <= j < i ==> reserved[j] == 0
    {
      if reserved[i] != 0 {
        assert ZEROS[i] == 0;
        return false;
      }
      i := i + 1;
    }
    assert reserved == ZEROS;
    if LeNat(bytes[4..8]) == 0 {
      return false;
    }
    var len := LeNat(bytes[8..12]);
    ok := len != 0 && len % 4 == 0 && len <= capacity;
  }

  /** So an application reading its own slot's record learns exactly whether the bootloader would load it,
      on any die that holds the slot. */
  method GetRecord(c: Config, v: Bytes, slot: nat) returns (ok: bool)
    requires Legal(c) && IsSlot(slot) && |v| == c.siliconEnd && SlotBase(c, slot) + c.slotSize <= c.siliconEnd
    ensures ok <==> Load(c, v, slot).Some?
  {
    hide Parse;
    CapacityMeaning(c, slot);
    ok := OpenbootRecordValid(v[RecordAddr(c, slot)..RecordAddr(c, slot) + RECORD_SIZE], ImageMax(c));
  }

  // ---- the factory composer ----------------------------------------------

  const FACTORY_GENERATION: nat := 1

  function Zeros(n: nat): (z: Bytes)
    ensures |z| == n
  {
    seq(n, _ => 0)
  }

  /** The record as the composer packs it. */
  function BootRecord(imgLen: nat, imgCrc: bv32): (b: Bytes)
    requires imgLen < U32_LIMIT
    ensures |b| == RECORD_SIZE
  {
    var body := MAGIC + PutNat(FACTORY_GENERATION) + PutNat(imgLen) + PutWord(imgCrc) + Zeros(12);
    body + PutWord(Crc(body))
  }

  /** The application rounded up to whole flash words. */
  function Padded(app: Bytes): (image: Bytes)
    ensures |image| % 4 == 0 && |app| <= |image| < |app| + 4 && image[..|app|] == app
    ensures |app| > 0 ==> |image| >= 4
  {
    app + Zeros((4 - |app| % 4) % 4)
  }

  datatype Composed = Factory(bytes: Bytes) | Refused

  function ComposeFactory(region: nat, openboot: Bytes, app: Bytes, appMax: Option<nat>, bless: Option<nat>): Composed {
    if !(0 < |openboot| <= region) then Refused
    else if |app| == 0 then Refused
    else if appMax.Some? && |app| > appMax.value then Refused
    else
      var head := openboot + Zeros(region - |openboot|);
      match bless
      case None => Factory(head + app)
      case Some(capacity) =>
        if appMax.Some? && capacity + RECORD_SIZE > appMax.value then Refused
        else
          var image := Padded(app);
          if |image| > capacity || |image| >= U32_LIMIT then Refused
          else Factory(head + image + Zeros(capacity - |image|) + BootRecord(|image|, Crc(image)))
  }

  /** The composer's record is byte for byte the bootloader's encoding. */
  lemma BootRecordIsEncode(imgLen: nat, imgCrc: bv32)
    requires imgLen < U32_LIMIT
    ensures BootRecord(imgLen, imgCrc) == Encode(Record(FACTORY_GENERATION, imgLen, imgCrc))
  {
    hide Crc, PutNat, PutWord;
    assert Zeros(12) == ZEROS;
  }

  /** And what a first COMMIT, successful, leaves in flash for the same image is those very bytes. */
  lemma FirstCommitStoresSameBytes(c: Config, d: Dev, len: nat, crc: bv32)
    requires Inv(c, d) && d.ram.session && len < U32_LIMIT && CommitStores(c, d, len, crc) && d.ram.highest == 0
    requires StoreRecord(c, d, NextRecord(d, len, crc)).1 == [OK]
    ensures var a := RecordAddr(c, d.ram.writeSlot); var e := StoreRecord(c, d, NextRecord(d, len, crc)).0;
      a + RECORD_SIZE <= |e.flash.cell| && e.flash.cell[a..a + RECORD_SIZE] == BootRecord(len, crc)
  {
    hide Parse, Crc, Update, Inv, WellFormed, RecordStore, BootRecord, Attestation, Encode, StoreRecord, Capacity, RecordAddr;
    FrameOfStore(c, d, len, crc);
    BootRecordIsEncode(len, crc);
    StoreRecordFlash(c, d, NextRecord(d, len, crc));
    VerifiedStore(c, d.flash, d.ram.writeSlot, NextRecord(d, len, crc));
  }

  lemma FrameOfStore(c: Config, d: Dev, len: nat, crc: bv32)
    requires Inv(c, d)
    ensures WellFormed(c, d) && Legal(c) && IsSlot(d.ram.writeSlot)
  {
  }

  lemma StoreRecordFlash(c: Config, d: Dev, r: Record)
    requires WellFormed(c, d) && r.generation < U32_LIMIT && r.imgLen < U32_LIMIT
    ensures StoreRecord(c, d, r).0.flash == RecordStore(c, d.flash, d.ram.writeSlot, r).0
    ensures StoreRecord(c, d, r).1 == [OK] ==> RecordStore(c, d.flash, d.ram.writeSlot, r).1 == 0
  {
    hide Legal, RecordStore;
  }

  /** A record store that reports success has been read back. */
  lemma VerifiedStore(c: Config, f: Flash, slot: nat, r: Record)
    requires Legal(c) && IsSlot(slot) && r.generation < U32_LIMIT && r.imgLen < U32_LIMIT
    ensures var (g, code) := RecordStore(c, f, slot, r);
      code == 0 ==>
        && RecordAddr(c, slot) + RECORD_SIZE <= |g.cell|
        && g.cell[RecordAddr(c, slot)..RecordAddr(c, slot) + RECORD_SIZE] == Encode(r)
  {
    hide Legal, Erase, Write, Encode, RecordAddr;
  }

  /** Flash after programming a blank part with `bytes` from address 0. */
  function Programmed(c: Config, bytes: Bytes): (v: Bytes)
    ensures |v| == c.siliconEnd
  {
    seq(c.siliconEnd, i requires 0 <= i < c.siliconEnd => if i < |bytes| then bytes[i] else ErasedByte(i))
  }

  lemma ProgrammedSlice(c: Config, bytes: Bytes, lo: nat, hi: nat)
    requires lo <= hi <= |bytes| && hi <= c.siliconEnd
    ensures Programmed(c, bytes)[lo..hi] == bytes[lo..hi]
  {
  }

  lemma FactoryLayout(head: Bytes, image: Bytes, gap: Bytes, record: Bytes)
    ensures var f := head + image + gap + record; var a, b := |head| + |image|, |head| + |image| + |gap|;
      && f[|head|..a] == image && f[b..b + |record|] == record && |f| == b + |record|
  {
  }

  /** A blessed factory image, programmed into a blank part: slot A holds the padded application under a
      truthful generation-1 record, slot B holds nothing, and the first boot launches slot A, exactly when
      the application does not begin with the erased pattern. */
  lemma FactoryBoots(c: Config, openboot: Bytes, app: Bytes, appMax: Option<nat>)
    requires Legal(c) && Capacity(c, 0) != 0
    requires ComposeFactory(c.appStart, openboot, app, appMax, Some(ImageMax(c))).Factory?
    ensures var v := Programmed(c, ComposeFactory(c.appStart, openboot, app, appMax, Some(ImageMax(c))).bytes);
      && 4 <= |Padded(app)| < U32_LIMIT && SlotBase(c, 0) + |Padded(app)| <= |v|
      && Load(c, v, 0) == Some(Record(FACTORY_GENERATION, |Padded(app)|, Crc(Padded(app))))
      && Image(c, v, 0, |Padded(app)|) == Padded(app)
      && Load(c, v, 1) == None && Truthful(c, v)
      && (Select(c, v) == Some(0) <==> Padded(app)[..4] != ERASED_WORD)
      && Decide(c, v, false) == (if Padded(app)[..4] != ERASED_WORD then Jump(c.appStart) else Stay)
  {
    hide Parse, Crc, BootRecord, Encode, Padded, Programmed, ComposeFactory, Truthful, Select, Legal;
    var image := Padded(app);
    var f := ComposeFactory(c.appStart, openboot, app, appMax, Some(ImageMax(c))).bytes;
    FactoryContent(c, openboot, app, appMax);
    BootRecordIsEncode(|image|, Crc(image));
    ParseEncode(Record(FACTORY_GENERATION, |image|, Crc(image)), ImageMax(c));
    UntouchedSlot(c, f);
    FactorySelects(c, Programmed(c, f), image);
    FactoryLaunches(c, Programmed(c, f));
  }

  /** With nothing in slot B the reset launches slot A or stays. */
  lemma FactoryLaunches(c: Config, v: Bytes)
    requires Legal(c) && |v| == c.siliconEnd && Load(c, v, 1) == None
    ensures Decide(c, v, false) == (if Select(c, v) == Some(0) then Jump(c.appStart) else Stay)
  {
    hide Load, Select, Legal;
    LaunchedSlot(c, v, 0);
    LaunchAddress(c, v);
    SelectIsArgmax(c, v);
  }

  /** The composed image ends inside slot A. */
  lemma FactoryEnds(c: Config, openboot: Bytes, app: Bytes, appMax: Option<nat>)
    requires Legal(c) && ComposeFactory(c.appStart, openboot, app, appMax, Some(ImageMax(c))).Factory?
    ensures |ComposeFactory(c.appStart, openboot, app, appMax, Some(ImageMax(c))).bytes| <= SlotBase(c, 1)
  {
    hide Crc, BootRecord, Padded;
  }

  /** Where the composed parts land. */
  lemma FactoryContent(c: Config, openboot: Bytes, app: Bytes, appMax: Option<nat>)
    requires Legal(c) && Capacity(c, 0) != 0
    requires ComposeFactory(c.appStart, openboot, app, appMax, Some(ImageMax(c))).Factory?
    ensures var f := ComposeFactory(c.appStart, openboot, app, appMax, Some(ImageMax(c))).bytes;
      var v, image := Programmed(c, f), Padded(app);
      && 4 <= |image| < U32_LIMIT && |image| <= ImageMax(c) && |image| % 4 == 0 && |f| <= RecordAddr(c, 1)
      && RecordAddr(c, 0) + RECORD_SIZE <= |v|
      && v[c.appStart..c.appStart + |image|] == image
      && v[RecordAddr(c, 0)..RecordAddr(c, 0) + RECORD_SIZE] == BootRecord(|image|, Crc(image))
      && Capacity(c, 0) == ImageMax(c)
  {
    hide Parse, Crc, BootRecord, Zeros, Programmed;
    SlotLayout(c, 0);
    var image := Padded(app);
    hide Padded, Legal;
    var f := ComposeFactory(c.appStart, openboot, app, appMax, Some(ImageMax(c))).bytes;
    var head := openboot + Zeros(c.appStart - |openboot|);
    FactoryLayout(head, image, Zeros(ImageMax(c) - |image|), BootRecord(|image|, Crc(image)));
    ProgrammedSlice(c, f, c.appStart, c.appStart + |image|);
    ProgrammedSlice(c, f, RecordAddr(c, 0), RecordAddr(c, 0) + RECORD_SIZE);
  }

  lemma UntouchedSlot(c: Config, f: Bytes)
    requires Legal(c) && |f| <= RecordAddr(c, 1)
    ensures Load(c, Programmed(c, f), 1) == None
  {
    hide Parse;
    if Capacity(c, 1) != 0 {
      SlotLayout(c, 1);
      ErasedHoldsNoRecord(c, Programmed(c, f), 1);
    }
  }

  lemma FactorySelects(c: Config, v: Bytes, image: Bytes)
    requires Legal(c) && |v| == c.siliconEnd && Load(c, v, 1) == None && 4 <= |image| < U32_LIMIT
    requires Load(c, v, 0) == Some(Record(FACTORY_GENERATION, |image|, Crc(image)))
    requires SlotBase(c, 0) + |image| <= |v| && Image(c, v, 0, |image|) == image
    ensures Truthful(c, v) && (Select(c, v) == Some(0) <==> image[..4] != ERASED_WORD)
  {
    hide Parse, Crc, Load;
    LoadIsSound(c, v, 0);
    var b := SlotBase(c, 0);
    assert v[b..b + 4] == v[b..b + |image|][..4];
    SelectIsArgmax(c, v);
  }
}
