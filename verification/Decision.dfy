/** The reset-time boot decision: which slot, if any, is launched. */
module Decision {
  import opened Bytes
  import opened Crc32
  import opened Geometry
  import opened Flash
  import opened Record

  function Image(c: Config, v: Bytes, slot: nat, len: nat): Bytes
    requires SlotBase(c, slot) + len <= |v|
  {
    v[SlotBase(c, slot)..SlotBase(c, slot) + len]
  }

  predicate FirstWordErased(c: Config, v: Bytes, slot: nat)
    requires SlotBase(c, slot) + 4 <= |v|
  {
    v[SlotBase(c, slot)..SlotBase(c, slot) + 4] == ERASED_WORD
  }

  /** The image checks behind a valid record. */
  predicate ImageValid(c: Config, v: Bytes, slot: nat, r: Record)
    requires Legal(c) && IsSlot(slot) && |v| == c.siliconEnd
    requires SlotBase(c, slot) + c.slotSize <= |v| && r.imgLen <= ImageMax(c)
  {
    (c.bootImageCrc ==> Crc(Image(c, v, slot, r.imgLen)) == r.imgCrc) && !FirstWordErased(c, v, slot)
  }

  /** Record and image checks for one slot. */
  predicate Bootable(c: Config, v: Bytes, slot: nat)
    requires Legal(c) && IsSlot(slot) && |v| == c.siliconEnd
  {
    Load(c, v, slot).Some? && (LoadIsSound(c, v, slot); ImageValid(c, v, slot, Load(c, v, slot).value))
  }

  datatype Selection = Selection(best: Option<nat>, bestGen: nat, highest: nat)

  /** One pass of the selection loop over one slot. */
  function Consider(c: Config, v: Bytes, slot: nat, s: Selection): Selection
    requires Legal(c) && IsSlot(slot) && |v| == c.siliconEnd
  {
    match Load(c, v, slot)
    case None => s
    case Some(r) =>
      var t := s.(highest := if r.generation > s.highest then r.generation else s.highest);
      if s.best.Some? && r.generation <= s.bestGen then t
      else if !Bootable(c, v, slot) then t
      else t.(best := Some(slot), bestGen := r.generation)
  }

  function SelectAll(c: Config, v: Bytes): Selection
    requires Legal(c) && |v| == c.siliconEnd
  {
    Consider(c, v, 1, Consider(c, v, 0, Selection(None, 0, 0)))
  }

  /** The slot the device should boot. */
  function Select(c: Config, v: Bytes): (best: Option<nat>)
    requires Legal(c) && |v| == c.siliconEnd
  {
    SelectAll(c, v).best
  }

  function Highest(c: Config, v: Bytes): nat
    requires Legal(c) && |v| == c.siliconEnd
  {
    SelectAll(c, v).highest
  }

  ghost function Generation(c: Config, v: Bytes, slot: nat): nat
    requires Legal(c) && IsSlot(slot) && |v| == c.siliconEnd
  {
    match Load(c, v, slot) case None => 0 case Some(r) => r.generation
  }

  /** The one-pass loop is the argmax over bootable slots, ties going to the lower slot; and it
      reports the maximum generation over all valid records, bootable or not. */
  lemma SelectIsArgmax(c: Config, v: Bytes)
    requires Legal(c) && |v| == c.siliconEnd
    ensures Select(c, v).None? <==> !Bootable(c, v, 0) && !Bootable(c, v, 1)
    ensures forall k: nat :: Select(c, v) == Some(k) <==>
      && IsSlot(k) && Bootable(c, v, k)
      && (Bootable(c, v, Other(k)) ==>
            Generation(c, v, Other(k)) < Generation(c, v, k)
            || (Generation(c, v, Other(k)) == Generation(c, v, k) && k == 0))
    ensures forall k: nat :: IsSlot(k) && Load(c, v, k).Some? ==> 0 < Generation(c, v, k) <= Highest(c, v)
    ensures Highest(c, v) == 0 || Highest(c, v) == Generation(c, v, 0) || Highest(c, v) == Generation(c, v, 1)
    ensures Highest(c, v) < U32_LIMIT
  {
    hide Parse, ImageValid;
    if Load(c, v, 0).Some? { LoadIsSound(c, v, 0); }
    if Load(c, v, 1).Some? { LoadIsSound(c, v, 1); }
  }

  datatype Boot = Stay | Jump(base: nat)

  /** The launch decision after a reset: an armed request keeps the bootloader, and is consumed. */
  function Decide(c: Config, v: Bytes, requested: bool): Boot
    requires Legal(c) && |v| == c.siliconEnd
  {
    if requested then Stay
    else match Select(c, v) case None => Stay case Some(k) => Jump(SlotBase(c, k))
  }

  /** Where a reset goes: nowhere when asked to stay or when no slot can boot; to the start of the region for slot
      A, one slot further for slot B, whichever bootable slot is newer, and to A when both are equally new. */
  lemma LaunchAddress(c: Config, v: Bytes)
    requires Legal(c) && |v| == c.siliconEnd
    ensures Decide(c, v, true) == Stay
    ensures Decide(c, v, false) == Stay <==> !Bootable(c, v, 0) && !Bootable(c, v, 1)
    ensures Decide(c, v, false) == Jump(c.appStart) <==>
      Bootable(c, v, 0) && (Bootable(c, v, 1) ==> Generation(c, v, 1) <= Generation(c, v, 0))
    ensures Decide(c, v, false) == Jump(c.appStart + c.slotSize) <==>
      Bootable(c, v, 1) && (Bootable(c, v, 0) ==> Generation(c, v, 0) < Generation(c, v, 1))
  {
    hide Bootable, Generation, Select;
    SelectIsArgmax(c, v);
    assert Select(c, v) == Some(0) || Select(c, v) == Some(1) || Select(c, v).None?;
  }

  /** The slot selected is the slot launched. */
  lemma LaunchedSlot(c: Config, v: Bytes, slot: nat)
    requires Legal(c) && IsSlot(slot) && |v| == c.siliconEnd
    ensures Select(c, v) == Some(slot) <==> Decide(c, v, false) == Jump(c.appStart + slot * c.slotSize)
  {
    hide Bootable, Generation, Select;
    LaunchAddress(c, v);
    SelectIsArgmax(c, v);
  }

  /** Whether a slot is bootable depends only on that slot's bytes. */
  lemma BootableCongruent(c: Config, v: Bytes, w: Bytes, slot: nat)
    requires Legal(c) && IsSlot(slot) && |v| == |w| == c.siliconEnd
    requires SameInside(v, w, SlotBase(c, slot), SlotBase(c, slot) + c.slotSize)
    ensures Load(c, v, slot) == Load(c, w, slot)
    ensures Bootable(c, v, slot) == Bootable(c, w, slot)
  {
    hide Parse;
    LoadCongruent(c, v, w, slot);
    if Load(c, v, slot).Some? {
      LoadIsSound(c, v, slot);
      var b := SlotBase(c, slot);
      SameSlice(v, w, b, b + Load(c, v, slot).value.imgLen);
      SameSlice(v, w, b, b + 4);
    }
  }
}
