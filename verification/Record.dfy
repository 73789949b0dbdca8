/** The 32-byte boot record: its one validity definition and what a torn write of it can mean. */
module Record {
  import opened Bytes
  import opened Crc32
  import opened Geometry
  import opened Flash

  const MAGIC: Bytes := [0x4F, 0x42, 0x52, 0x32]
  const ZEROS: Bytes := [0, 0, 0, 0, 0, 0, 0, 0, 0, 0, 0, 0]

  datatype Record = Record(generation: nat, imgLen: nat, imgCrc: bv32)

  /** A record COMMIT could have produced for a slot of this capacity. */
  predicate Sound(r: Record, capacity: nat) {
    && 0 < r.generation < U32_LIMIT
    && 0 < r.imgLen < U32_LIMIT && r.imgLen % 4 == 0 && r.imgLen <= capacity
  }

  function Body(r: Record): (b: Bytes)
    requires r.generation < U32_LIMIT && r.imgLen < U32_LIMIT
    ensures |b| == 28
  {
    MAGIC + PutNat(r.generation) + PutNat(r.imgLen) + PutWord(r.imgCrc) + ZEROS
  }

  function Encode(r: Record): (b: Bytes)
    requires r.generation < U32_LIMIT && r.imgLen < U32_LIMIT
    ensures |b| == RECORD_SIZE
  {
    Body(r) + PutWord(Crc(Body(r)))
  }

  /** The record-validity rule of the bootloader, check by check. */
  function Parse(b: Bytes, capacity: nat): (r: Option<Record>)
    requires |b| == RECORD_SIZE
  {
    if b[0..4] != MAGIC then None
    else if PutWord(Crc(b[0..28])) != b[28..32] then None
    else if b[16..28] != ZEROS then None
    else if LeNat(b[4..8]) == 0 then None
    else if LeNat(b[8..12]) != 0 && LeNat(b[8..12]) % 4 == 0 && LeNat(b[8..12]) <= capacity then
      Some(Record(LeNat(b[4..8]), LeNat(b[8..12]), LeWord(b[12..16])))
    else None
  }

  /** A stored record reads back as itself. */
  lemma ParseEncode(r: Record, capacity: nat)
    requires Sound(r, capacity)
    ensures Parse(Encode(r), capacity) == Some(r)
  {
    hide Crc, PutWord, PutNat, LeNat, LeWord;
    var b := Encode(r);
    assert b[0..28] == Body(r);
    assert b[28..32] == PutWord(Crc(Body(r)));
    assert b[0..4] == MAGIC && b[16..28] == ZEROS;
    assert b[4..8] == PutNat(r.generation);
    assert b[8..12] == PutNat(r.imgLen);
    assert b[12..16] == PutWord(r.imgCrc);
    NatRoundTrip(r.generation);
    NatRoundTrip(r.imgLen);
    WordRoundTrip(r.imgCrc);
  }

  /** Only the canonical encoding of a sound record is ever valid. */
  lemma ParseCanonical(b: Bytes, capacity: nat)
    requires |b| == RECORD_SIZE && Parse(b, capacity).Some?
    ensures Sound(Parse(b, capacity).value, capacity)
    ensures b == Encode(Parse(b, capacity).value)
  {
    hide Crc, PutWord, PutNat, LeNat, LeWord;
    var r := Parse(b, capacity).value;
    PutNatOfLeNat(b[4..8]);
    PutNatOfLeNat(b[8..12]);
    PutWordOfLeWord(b[12..16]);
    assert b[0..28] == b[0..4] + b[4..8] + b[8..12] + b[12..16] + b[16..28];
    assert b[0..28] == Body(r);
    assert b == b[0..28] + b[28..32];
  }

  /** Two encodings that agree on the 28 covered bytes are of the same record. */
  lemma BodyInjective(r: Record, q: Record)
    requires r.generation < U32_LIMIT && r.imgLen < U32_LIMIT
    requires q.generation < U32_LIMIT && q.imgLen < U32_LIMIT
    requires Body(r) == Body(q)
    ensures r == q
  {
    hide PutWord, PutNat, LeNat, LeWord;
    NatRoundTrip(r.generation); NatRoundTrip(q.generation);
    NatRoundTrip(r.imgLen); NatRoundTrip(q.imgLen);
    WordRoundTrip(r.imgCrc); WordRoundTrip(q.imgCrc);
    assert Body(r)[4..8] == PutNat(r.generation) && Body(q)[4..8] == PutNat(q.generation);
    assert Body(r)[8..12] == PutNat(r.imgLen) && Body(q)[8..12] == PutNat(q.imgLen);
    assert Body(r)[12..16] == PutWord(r.imgCrc) && Body(q)[12..16] == PutWord(q.imgCrc);
  }

  /** The record bytes after the first `k` words landed on an erased block. */
  function Torn(r: Record, k: nat): (b: Bytes)
    requires r.generation < U32_LIMIT && r.imgLen < U32_LIMIT
    requires k <= 8
    ensures |b| == RECORD_SIZE
  {
    seq(RECORD_SIZE, i requires 0 <= i < RECORD_SIZE => if i < 4 * k then Encode(r)[i] else ErasedByte(i))
  }

  /** A record torn at any whole word is valid only as exactly the record that was meant. Nothing is
      assumed about CRC collisions: unlanded reserved words read as the nonzero erased pattern, so
      only the final CRC word can be missing. */
  lemma TornMeansIntended(r: Record, k: nat, capacity: nat)
    requires r.generation < U32_LIMIT && r.imgLen < U32_LIMIT && k <= 8
    requires Parse(Torn(r, k), capacity).Some?
    ensures k >= 7 && Parse(Torn(r, k), capacity) == Some(r)
  {
    hide Crc, PutWord, PutNat, LeNat, LeWord, Parse;
    var b := Torn(r, k);
    assert b[24] == b[16..28][8];
    assert k < 7 ==> b[24] == ErasedByte(24);
    assert ErasedByte(24) == 0xA9;
    ReservedAreZero(b, capacity);
    ParseCanonical(b, capacity);
    var q := Parse(b, capacity).value;
    assert b[0..28] == Encode(r)[0..28];
    assert Encode(r)[0..28] == Body(r) && Encode(q)[0..28] == Body(q);
    BodyInjective(r, q);
  }

  lemma ReservedAreZero(b: Bytes, capacity: nat)
    requires |b| == RECORD_SIZE && Parse(b, capacity).Some?
    ensures b[16..28] == ZEROS && b[0..4] == MAGIC
  {
  }

  // ---- records in flash --------------------------------------------------

  /** The record a view of flash shows for a slot. */
  function Load(c: Config, v: Bytes, slot: nat): (r: Option<Record>)
    requires Legal(c) && IsSlot(slot) && |v| == c.siliconEnd
    ensures r.Some? ==> Capacity(c, slot) != 0
  {
    if Capacity(c, slot) == 0 then None
    else Parse(v[RecordAddr(c, slot)..RecordAddr(c, slot) + RECORD_SIZE], Capacity(c, slot))
  }

  lemma LoadIsSound(c: Config, v: Bytes, slot: nat)
    requires Legal(c) && IsSlot(slot) && |v| == c.siliconEnd && Load(c, v, slot).Some?
    ensures Sound(Load(c, v, slot).value, ImageMax(c))
    ensures SlotBase(c, slot) + c.slotSize <= c.siliconEnd
  {
    hide Crc, PutWord, PutNat, LeNat, LeWord, Parse;
    ParseCanonical(v[RecordAddr(c, slot)..RecordAddr(c, slot) + RECORD_SIZE], Capacity(c, slot));
  }

  /** A record depends only on its own 32 bytes. */
  lemma LoadCongruent(c: Config, v: Bytes, w: Bytes, slot: nat)
    requires Legal(c) && IsSlot(slot) && |v| == |w| == c.siliconEnd
    requires Capacity(c, slot) != 0 ==> SameInside(v, w, RecordAddr(c, slot), RecordAddr(c, slot) + RECORD_SIZE)
    ensures Load(c, v, slot) == Load(c, w, slot)
  {
    hide Parse;
    if Capacity(c, slot) != 0 {
      SameSlice(v, w, RecordAddr(c, slot), RecordAddr(c, slot) + RECORD_SIZE);
    }
  }

  /** An erased block holds no record. */
  lemma ErasedHoldsNoRecord(c: Config, v: Bytes, slot: nat)
    requires Legal(c) && IsSlot(slot) && |v| == c.siliconEnd
    requires Capacity(c, slot) != 0 ==>
      v[RecordAddr(c, slot)] == ErasedByte(RecordAddr(c, slot))
    ensures Load(c, v, slot) == None
  {
    hide Parse;
    var a := RecordAddr(c, slot);
    SlotLayout(c, slot);
    if Capacity(c, slot) != 0 {
      assert v[a] == v[a..a + RECORD_SIZE][0..4][0];
      assert ErasedByte(a) == 0xA9;
      if Load(c, v, slot).Some? {
        ReservedAreZero(v[a..a + RECORD_SIZE], Capacity(c, slot));
      }
    }
  }
}
