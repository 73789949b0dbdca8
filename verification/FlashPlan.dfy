/** What the host plans before it sends anything, and what its commands establish on the device. */
module FlashPlan {
  import opened Bytes
  import opened Crc32
  import opened Geometry
  import opened Flash
  import opened Record
  import opened Decision
  import opened Core
  import opened Invariant
  import opened HostProto
  import opened Link
  import opened Client
  import opened UpdateFlow
  import B = Bundle

  type HostImage = B.HostImage

  const ERASE_CHUNK: nat := 32 * 1024
  const FAMILY_UNSPECIFIED: Byte := 0

  /** What the user hands over: one image, or a bundle of per-slot builds. */
  datatype Source = Single(image: HostImage) | Variants(family: Byte, images: seq<HostImage>)

  function ForBase(s: Source, base: nat): (r: Option<HostImage>)
    ensures s.Variants? && r.Some? ==> r.value in s.images && r.value.base == base
    ensures s.Variants? && r.None? ==> forall i :: i in s.images ==> i.base != base
  {
    match s
    case Single(i) => Some(i)
    case Variants(_, images) => FindBase(images, base)
  }

  function FindBase(images: seq<HostImage>, base: nat): (r: Option<HostImage>)
    ensures r.Some? ==> r.value in images && r.value.base == base
    ensures r.None? ==> forall i :: i in images ==> i.base != base
  {
    if |images| == 0 then None
    else if images[0].base == base then Some(images[0])
    else FindBase(images[1..], base)
  }

  predicate FamilyFits(s: Source, family: Byte) {
    s.Variants? && s.family != FAMILY_UNSPECIFIED ==> s.family == family
  }

  /** [base, base + len) lies inside the window this session may change. */
  predicate InWriteWindow(i: DeviceInfo, base: nat, len: nat) {
    i.writeCapacity != 0 && i.writeBase <= base && base + len <= i.writeBase + i.writeCapacity
  }

  predicate Committable(i: DeviceInfo, image: HostImage) {
    image.base == i.writeBase && InWriteWindow(i, image.base, |image.bytes|)
  }

  function RoundUp(n: nat, block: nat): nat
    requires block > 0
  {
    (n + block - 1) / block * block
  }

  datatype Plan = Plan(eraseLen: nat, block: nat, chunk: nat, crc: bv32, liveCheck: bool)

  function PlanFlash(i: DeviceInfo, image: HostImage, verify: bool): (r: Option<Plan>)
    requires Usable(i)
  {
    if !Committable(i, image) then None
    else
      var eraseLen := RoundUp(|image.bytes|, i.eraseBlock);
      if !InWriteWindow(i, image.base, eraseLen) then None
      else Some(Plan(eraseLen, i.eraseBlock, i.maxWriteData, Crc(image.bytes),
                     verify && i.features / FEAT_CRC_LIVE % 2 == 1))
  }

  /** For a device's own geometry an image that fits always leaves a plan: the rounded-up erase span fits
      too, so the product never leaves 32 bits. */
  lemma PlanAlwaysFits(c: Config, d: Dev, image: HostImage, verify: bool)
    requires WellFormed(c, d) && Usable(OwnInfo(c, d)) && Committable(OwnInfo(c, d), image)
    ensures PlanFlash(OwnInfo(c, d), image, verify).Some?
    ensures |image.bytes| <= RoundUp(|image.bytes|, c.eraseBlock) <= ImageMax(c) < U32_LIMIT
  {
    SlotLayout(c, d.ram.writeSlot);
    hide Crc;
    RoundUpFits(|image.bytes|, c.eraseBlock, ImageMax(c));
  }

  /** What the device can take, in addresses: an image for the slot it offers, in a slot the silicon holds, below the
      record reserve. */
  lemma CommittableExactly(c: Config, d: Dev, image: HostImage)
    requires WellFormed(c, d)
    ensures Committable(OwnInfo(c, d), image) <==>
      && image.base == c.appStart + d.ram.writeSlot * c.slotSize
      && image.base + c.slotSize <= c.siliconEnd && |image.bytes| + 4096 <= c.slotSize
  {
  }

  lemma RoundUpFits(n: nat, block: nat, max: nat)
    requires block > 0 && n <= max && max % block == 0
    ensures n <= RoundUp(n, block) <= max
  {
    AlignedIsProduct(max, block);
    BlocksFit(n, block, max, (n + block - 1) / block, max / block);
  }

  lemma BlocksFit(n: nat, block: nat, max: nat, q: nat, m: nat)
    requires q * block <= n + block - 1 < q * block + block && max == m * block && n <= max
    ensures n <= q * block <= max
  {
    if q > m {
      MulMonotone(m + 1, q, block);
    }
  }

  function ErasePayload(addr: nat, len: nat): (pl: Bytes)
    requires addr < U32_LIMIT && len < U32_LIMIT
    ensures |pl| == 8
  {
    PutNat(addr) + PutNat(len)
  }

  lemma OpenedInv(c: Config, u: Transfer, d: Dev)
    requires Opened(c, u, d)
    ensures Inv(c, d)
  {
  }

  lemma ErasingOpened(c: Config, u: Transfer, d: Dev)
    requires Erasing(c, u, d)
    ensures Opened(c, u, d)
  {
  }

  lemma NothingWritten(c: Config, u: Transfer, d: Dev)
    requires Erasing(c, u, d) && SlotBase(c, u.slot) <= c.siliconEnd
    ensures Writing(c, u, 0, d)
  {
    hide Inv;
  }

  lemma WritePayloadLength(addr: nat, data: Bytes)
    requires addr < U32_LIMIT
    ensures |WritePayload(addr, data)| == 4 + |data|
  {
  }

  lemma WritingInv(c: Config, u: Transfer, n: nat, d: Dev)
    requires Writing(c, u, n, d)
    ensures Inv(c, d)
  {
  }

  lemma InstalledInv(c: Config, u: Transfer, d: Dev)
    requires Installed(c, u, d)
    ensures Inv(c, d)
  {
  }

  lemma EmptyNeverCommits(c: Config, d: Dev, hs: seq<Happening>, crc: bv32, k: nat, p: Bytes)
    requires Inv(c, d) && LastAnswer(c, d, hs, CMD_COMMIT, CommitPayload(0, crc), k, p)
    ensures |p| > 0 && p[0] != OK && !SaysMismatch(p)
  {
    hide Inv, Replay, CommitPayload, Execute, Happen, Once;
    var x := Replay(c, d, hs[..k], CMD_COMMIT, CommitPayload(0, crc));
    EmptyCommitRefused(c, x, hs[k].world, crc);
  }

  lemma EmptyCommitRefused(c: Config, x: Dev, w: World, crc: bv32)
    requires Inv(c, x)
    ensures var p := Once(c, x, w, CMD_COMMIT, CommitPayload(0, crc)).payload; p[0] == E_LEN || p[0] == E_STATE
  {
    hide Inv, CommitPayload, Once, DoCommit;
    var pl := CommitPayload(0, crc);
    CommitPayloadFields(0, crc);
    if x.ram.session {
      InSession(c, x, w, pl);
      ZeroLength(c, Enter(x, w), pl);
    } else {
      NoSession(c, x, w, CMD_COMMIT, pl);
    }
  }

  lemma ZeroLength(c: Config, d: Dev, pl: Bytes)
    requires WellFormed(c, d) && |pl| == 8 && LeNat(pl[0..4]) == 0
    ensures DoCommit(c, d, pl).1[0] == E_LEN
  {
    hide LeNat, LeWord;
  }

  lemma WordInside(crc: bv32)
    ensures LeWord(([OK] + PutWord(crc))[1..5]) == crc
  {
    hide LeWord, PutWord;
    WordRoundTrip(crc);
    assert ([OK] + PutWord(crc))[1..5] == PutWord(crc);
  }

  lemma RangeCarried(addr: nat, len: nat)
    requires addr < U32_LIMIT && len < U32_LIMIT
    ensures CarriesRange(ErasePayload(addr, len), addr, len)
  {
    hide PutNat, LeNat;
    TwoFields(PutNat(addr), PutNat(len));
    NatRoundTrip(addr);
    NatRoundTrip(len);
  }

  lemma ParsedUsable(c: Config, m: Dev)
    requires WellFormed(c, m) && ParseInfo(HelloPayload(c, m)) == Some(OwnInfo(c, m))
    ensures Usable(OwnInfo(c, m)) && WriteBase(c, m) <= c.siliconEnd
  {
    hide HelloPayload, WellFormed, SlotBase, Capacity;
  }

  lemma AnyImage(c: Config, slot: nat, before: Bytes, image: Bytes, d: Dev)
    requires Opened(c, Transfer(slot, before, image), d)
    ensures forall i: Bytes :: Opened(c, Transfer(slot, before, i), d)
  {
    hide Inv;
  }

  lemma PlanFacts(c: Config, m: Dev, image: HostImage, verify: bool)
    requires WellFormed(c, m) && Usable(OwnInfo(c, m)) && PlanFlash(OwnInfo(c, m), image, verify).Some?
    ensures var p := PlanFlash(OwnInfo(c, m), image, verify).value;
      && image.base == SlotBase(c, m.ram.writeSlot) && p.block > 0
      && |image.bytes| <= p.eraseLen && image.base + p.eraseLen < U32_LIMIT
      && 0 < p.chunk <= MAX_WRITE_DATA && p.crc == Crc(image.bytes) && (p.liveCheck ==> CrcLive(c))
    ensures IsSlot(m.ram.writeSlot) && m.ram.writeSlot == if OwnInfo(c, m).writeSlot == 0 then 0 else 1
  {
    PlanAlwaysFits(c, m, image, verify);
    hide Crc;
  }

  lemma HeldBoots(c: Config, u: Transfer, v: Bytes)
    requires Legal(c) && IsSlot(u.slot) && |v| == c.siliconEnd && Holds(c, u, v) && 4 <= |u.image|
    ensures Bootable(c, v, u.slot) <==> u.image[..4] != ERASED_WORD
  {
    hide Parse, Crc, Generation;
    LoadIsSound(c, v, u.slot);
    var b := SlotBase(c, u.slot);
    assert v[b..b + 4] == v[b..b + |u.image|][..4];
    assert u.image[..|u.image|] == u.image;
  }

  /** An installed image is what the next boot launches, exactly when it does not begin with the erased
      pattern. */
  lemma InstalledBoots(c: Config, u: Transfer, d: Dev)
    requires Installed(c, u, d) && 4 <= |u.image|
    ensures Select(c, d.flash.cell) == Some(u.slot) <==> u.image[..4] != ERASED_WORD
    ensures Decide(c, d.flash.cell, false) == Jump(c.appStart + u.slot * c.slotSize) <==> u.image[..4] != ERASED_WORD
  {
    hide Parse, Crc, Inv, Load, Bootable, Legal, Matching, Select, Decide;
    HeldBoots(c, u, d.flash.cell);
    SelectIsArgmax(c, d.flash.cell);
    LaunchedSlot(c, d.flash.cell, u.slot);
  }
}
