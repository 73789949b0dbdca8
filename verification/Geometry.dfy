/** Build-time and silicon geometry of an A/B device, and the block arithmetic that rests on it. */
module Geometry {
  import opened Bytes

  const RECORD_BLOCK: nat := 4096
  const RECORD_SIZE: nat := 32
  const FEAT_CRC_LIVE: nat := 2

  /** What the build injects, plus the one thing only the silicon knows: where its flash ends. */
  datatype Config = Config(
    appStart: nat,     // first application byte, base of slot A
    buildEnd: nat,     // exclusive application end compiled in
    siliconEnd: nat,   // exclusive end after clamping to the die
    eraseBlock: nat,
    slotSize: nat,
    features: nat,
    bootImageCrc: bool,
    chipRev: Byte, family: Byte, transport: Byte, uid: Bytes)

  /** The build's own assertions, and a clamped end that leaves a nonempty region. */
  predicate Legal(c: Config) {
    && c.eraseBlock > 0 && c.eraseBlock % RECORD_SIZE == 0 && RECORD_BLOCK % c.eraseBlock == 0
    && c.appStart % c.eraseBlock == 0 && c.slotSize % c.eraseBlock == 0
    && c.slotSize > RECORD_BLOCK
    && c.appStart + 2 * c.slotSize <= c.buildEnd < U32_LIMIT
    && c.appStart < c.siliconEnd <= c.buildEnd
    && c.features < U32_LIMIT && |c.uid| == 8
  }

  predicate CrcLive(c: Config) { c.features / FEAT_CRC_LIVE % 2 == 1 }

  predicate IsSlot(slot: nat) { slot == 0 || slot == 1 }

  function Other(slot: nat): (o: nat)
    requires IsSlot(slot)
    ensures IsSlot(o)
  {
    1 - slot
  }

  function SlotBase(c: Config, slot: nat): nat { c.appStart + slot * c.slotSize }

  function ImageMax(c: Config): nat
    requires Legal(c)
  {
    c.slotSize - RECORD_BLOCK
  }

  function RecordAddr(c: Config, slot: nat): nat
    requires Legal(c)
  {
    SlotBase(c, slot) + ImageMax(c)
  }

  /** A slot the die cannot hold whole has no capacity at all. */
  function Capacity(c: Config, slot: nat): nat
    requires Legal(c)
  {
    if SlotBase(c, slot) + c.slotSize > c.siliconEnd then 0 else ImageMax(c)
  }

  lemma CapacityMeaning(c: Config, slot: nat)
    requires Legal(c) && IsSlot(slot)
    ensures Capacity(c, slot) != 0 <==> SlotBase(c, slot) + c.slotSize <= c.siliconEnd
    ensures slot == 1 && Capacity(c, 1) != 0 ==> Capacity(c, 0) != 0
  {
  }

  // ---- block arithmetic --------------------------------------------------

  predicate Aligned(a: nat, e: nat)
    requires e > 0
  {
    a % e == 0
  }

  lemma MulMonotone(p: nat, q: nat, e: nat)
    requires p <= q
    ensures p * e <= q * e
  {
    var d: nat := q - p;
    assert q * e == p * e + d * e;
  }

  lemma DivUnique(a: nat, e: nat, q: nat)
    requires e > 0
    requires q * e <= a < (q + 1) * e
    ensures a / e == q
  {
    var d := a / e;
    assert a == d * e + a % e;
    if d < q {
      MulMonotone(d + 1, q, e);
    } else if d > q {
      MulMonotone(q + 1, d, e);
    }
  }

  lemma AlignedIsProduct(a: nat, e: nat)
    requires e > 0 && a % e == 0
    ensures a == (a / e) * e
  {
  }

  lemma ProductIsAligned(q: nat, e: nat)
    requires e > 0
    ensures (q * e) % e == 0 && (q * e) / e == q
  {
    DivUnique(q * e, e, q);
    assert q * e == (q * e / e) * e + (q * e) % e;
  }

  lemma AlignedSum(a: nat, b: nat, e: nat)
    requires e > 0 && a % e == 0 && b % e == 0
    ensures (a + b) % e == 0 && (a + b) / e == a / e + b / e
  {
    AlignedIsProduct(a, e);
    AlignedIsProduct(b, e);
    ProductIsAligned(a / e + b / e, e);
  }

  lemma AlignedDifference(a: nat, b: nat, e: nat)
    requires e > 0 && a % e == 0 && b % e == 0 && b <= a
    ensures (a - b) % e == 0
  {
    DivMonotone(b, a, e);
    AlignedIsProduct(a, e);
    AlignedIsProduct(b, e);
    var qa, qb := a / e, b / e;
    ProductIsAligned(qa - qb, e);
    assert (qa - qb) * e == qa * e - qb * e;
  }

  /** The bytes of one aligned block are exactly the bytes with its block number. */
  lemma BlockMembers(i: nat, a: nat, e: nat)
    requires e > 0 && a % e == 0
    ensures i / e == a / e <==> a <= i < a + e
  {
    AlignedIsProduct(a, e);
    if a <= i < a + e {
      DivUnique(i, e, a / e);
    }
    assert i == (i / e) * e + i % e;
  }

  /** An aligned boundary separates block numbers. */
  lemma BoundarySeparates(x: nat, m: nat, y: nat, e: nat)
    requires e > 0 && m % e == 0 && x < m <= y
    ensures x / e < m / e <= y / e
  {
    AlignedIsProduct(m, e);
    DivMonotone(m, y, e);
    assert x == (x / e) * e + x % e;
    var qx, qm := x / e, m / e;
    if qx >= qm {
      MulMonotone(qm, qx, e);
    }
  }

  lemma DivMonotone(x: nat, y: nat, e: nat)
    requires e > 0 && x <= y
    ensures x / e <= y / e
  {
    assert x == (x / e) * e + x % e;
    assert y == (y / e) * e + y % e;
    var qx, qy := x / e, y / e;
    if qy < qx {
      MulMonotone(qy + 1, qx, e);
    }
  }

  /** Relative block numbers are absolute ones shifted by the slot's first block. */
  lemma RelativeBlock(a: nat, base: nat, e: nat)
    requires e > 0 && base % e == 0 && base <= a
    ensures (a - base) / e + base / e == a / e
  {
    var q := (a - base) / e;
    assert a - base == q * e + (a - base) % e;
    AlignedIsProduct(base, e);
    assert a == (q + base / e) * e + (a - base) % e;
    assert (q + base / e + 1) * e == (q + base / e) * e + e;
    DivUnique(a, e, q + base / e);
  }

  /** From one aligned address, the next block still fits before an aligned end. */
  lemma NextBlock(a: nat, end: nat, e: nat)
    requires e > 0 && Aligned(a, e) && Aligned(end, e) && a < end
    ensures a + e <= end && Aligned(a + e, e)
  {
    AlignedDifference(end, a, e);
    AlignedIsProduct(end - a, e);
    var q := (end - a) / e;
    assert q >= 1;
    assert 1 * e <= q * e;
    ProductIsAligned(1, e);
    AlignedSum(a, 1 * e, e);
  }

  lemma AlignedToFour(a: nat, e: nat)
    requires e > 0 && e % RECORD_SIZE == 0 && a % e == 0
    ensures a % 32 == 0 && a % 4 == 0
  {
    AlignedIsProduct(a, e);
    AlignedIsProduct(e, 32);
    assert a == (a / e) * (e / 32) * 32;
    ProductIsAligned((a / e) * (e / 32), 32);
  }

  /** Everything the other modules need about where a slot and its record lie. */
  lemma SlotLayout(c: Config, slot: nat)
    requires Legal(c) && IsSlot(slot)
    ensures SlotBase(c, slot) % c.eraseBlock == 0 && RecordAddr(c, slot) % c.eraseBlock == 0
    ensures ImageMax(c) % c.eraseBlock == 0
    ensures SlotBase(c, slot) % 4 == 0 && RecordAddr(c, slot) % 4 == 0 && ImageMax(c) % 4 == 0
    ensures RECORD_SIZE <= c.eraseBlock <= RECORD_BLOCK
    ensures c.appStart <= SlotBase(c, slot)
    ensures RecordAddr(c, slot) + RECORD_BLOCK == SlotBase(c, slot) + c.slotSize <= c.buildEnd
    ensures (SlotBase(c, slot) + c.slotSize) % c.eraseBlock == 0
  {
    var e := c.eraseBlock;
    AlignedDifference(c.slotSize, RECORD_BLOCK, e);
    AlignedSum(c.appStart, c.slotSize, e);
    AlignedSum(c.appStart + c.slotSize, c.slotSize, e);
    AlignedSum(SlotBase(c, slot), ImageMax(c), e);
    AlignedToFour(SlotBase(c, slot), e);
    AlignedToFour(RecordAddr(c, slot), e);
    AlignedToFour(ImageMax(c), e);
  }

  lemma AlignedEnd(a: nat, len: nat, e: nat)
    requires e > 0 && Aligned(a, e) && Aligned(len, e)
    ensures Aligned(a + len, e)
  {
    AlignedSum(a, len, e);
  }

  /** Blocks touched inside one slot are never blocks of the other. */
  lemma SlotsShareNoBlock(c: Config, slot: nat, i: nat, j: nat)
    requires Legal(c) && IsSlot(slot)
    requires SlotBase(c, slot) <= i < SlotBase(c, slot) + c.slotSize
    requires SlotBase(c, Other(slot)) <= j < SlotBase(c, Other(slot)) + c.slotSize
    ensures i / c.eraseBlock != j / c.eraseBlock
  {
    SlotLayout(c, 1);
    if slot == 0 {
      BoundarySeparates(i, SlotBase(c, 1), j, c.eraseBlock);
    } else {
      BoundarySeparates(j, SlotBase(c, 1), i, c.eraseBlock);
    }
  }
}
