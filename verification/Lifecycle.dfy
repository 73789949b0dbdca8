/** A product's life: programmed at the factory, then updated again and again, slot after slot. */
module Lifecycle {
  import opened Bytes
  import opened Crc32
  import opened Geometry
  import opened Flash
  import opened Record
  import opened Decision
  import opened Core
  import opened Invariant
  import opened Preservation
  import opened Frames
  import opened Safety
  import opened Theorems
  import opened Link
  import opened UpdateFlow
  import opened FlashPlan
  import opened Completeness
  import F = Factory

  // ---- update after update -----------------------------------------------

  /** The host's updates one after another, stopping at the first that is refused or fails. */
  function Updates(c: Config, d: Dev, images: seq<Bytes>, ws: seq<Weather>): (r: (Dev, bool))
    requires Inv(c, d) && |ws| == |images|
    ensures Inv(c, r.0)
    decreases |images|
  {
    if |images| == 0 then (d, true)
    else
      var n := |images| - 1;
      var (e, ok) := Updates(c, d, images[..n], ws[..n]);
      if !ok || !Updatable(c, e, images[n]) then (e, false) else FullUpdate(c, e, images[n], ws[n])
  }

  /** The slot holds the image under a valid record with its length and CRC. */
  ghost predicate Carried(c: Config, v: Bytes, slot: nat, image: Bytes)
    requires Legal(c) && IsSlot(slot) && |v| == c.siliconEnd
  {
    && SlotBase(c, slot) + |image| <= |v| && v[SlotBase(c, slot)..SlotBase(c, slot) + |image|] == image
    && Load(c, v, slot).Some?
    && Load(c, v, slot).value.imgLen == |image| && Load(c, v, slot).value.imgCrc == Crc(image)
  }

  ghost predicate AllFit(c: Config, images: seq<Bytes>)
    requires Legal(c)
  {
    forall i :: 0 <= i < |images| ==> 0 < |images[i]| <= ImageMax(c) && Aligned(|images[i]|, 4)
  }

  ghost predicate AllFair(c: Config, ws: seq<Weather>) { forall i :: 0 <= i < |ws| ==> Fair(c, ws[i]) }

  /** Every update so far succeeded; the newest image is in the active slot and outranks the other, and the
      one before it is still whole in the write slot. */
  ghost predicate Served(c: Config, d: Dev, images: seq<Bytes>, r: (Dev, bool)) {
    var e, n := r.0, |images|;
    && r.1 && WellFormed(c, e) && e.ram.highest == d.ram.highest + n
    && (n > 0 ==>
          && e.ram.active == Some(Other(e.ram.writeSlot))
          && Carried(c, e.flash.cell, Other(e.ram.writeSlot), images[n - 1])
          && Generation(c, e.flash.cell, e.ram.writeSlot) < Generation(c, e.flash.cell, Other(e.ram.writeSlot)))
    && (n > 1 ==> Carried(c, e.flash.cell, e.ram.writeSlot, images[n - 2]))
  }

  lemma InstalledCarries(c: Config, u: Transfer, highest: nat, r: (Dev, bool))
    requires Completed(c, u, highest, r)
    ensures var e := r.0;
      && WellFormed(c, e) && Inv(c, e)
      && e.ram.active == Some(Other(e.ram.writeSlot)) && Other(e.ram.writeSlot) == u.slot
      && Carried(c, e.flash.cell, u.slot, u.image)
      && Generation(c, e.flash.cell, e.ram.writeSlot) < Generation(c, e.flash.cell, u.slot)
      && SameOutside(u.before, e.flash.cell, SlotBase(c, u.slot), SlotBase(c, u.slot) + c.slotSize)
  {
    hide Inv, Load, Crc, Legal, SameOutside;
    assert u.image[..|u.image|] == u.image;
  }

  /** An image in the other slot is out of an update's reach. */
  lemma OtherCarried(c: Config, v: Bytes, w: Bytes, slot: nat, image: Bytes)
    requires Legal(c) && IsSlot(slot) && |v| == |w| == c.siliconEnd
    requires SameOutside(v, w, SlotBase(c, slot), SlotBase(c, slot) + c.slotSize)
    requires Carried(c, v, Other(slot), image)
    ensures Carried(c, w, Other(slot), image)
  {
    hide Parse, Crc, Load;
    OtherImageSame(c, v, w, slot);
    LoadIsSound(c, v, Other(slot));
    var b := SlotBase(c, Other(slot));
    SameSlice(v, w, b, b + |image|);
  }

  lemma ServedNext(c: Config, d: Dev, images: seq<Bytes>, before: (Dev, bool), r: (Dev, bool))
    requires |images| > 0 && Served(c, d, images[..|images| - 1], before)
    requires Completed(c, Transfer(before.0.ram.writeSlot, before.0.flash.cell, images[|images| - 1]), before.0.ram.highest, r)
    ensures Served(c, d, images, r)
  {
    var n := |images| - 1;
    var u := Transfer(before.0.ram.writeSlot, before.0.flash.cell, images[n]);
    hide Inv, Carried, Legal, Load, Installed, SameOutside, Generation;
    InstalledCarries(c, u, before.0.ram.highest, r);
    if n > 0 {
      assert images[..n][n - 1] == images[n - 1];
      OtherCarried(c, before.0.flash.cell, r.0.flash.cell, u.slot, images[n - 1]);
    }
  }

  /** While operations succeed, any number of updates all succeed, alternating slots, up to the generation
      ceiling: the newest image is active and outranks the other slot, whose image is the one before. */
  lemma {:induction false} UpdatesComplete(c: Config, d: Dev, images: seq<Bytes>, ws: seq<Weather>)
    requires Inv(c, d) && Legal(c) && AllFit(c, images) && |ws| == |images| && AllFair(c, ws)
    requires Capacity(c, 0) != 0 && Capacity(c, 1) != 0 && d.ram.highest + |images| < GENERATION_CEILING
    ensures Served(c, d, images, Updates(c, d, images, ws))
    decreases |images|
  {
    FrameRelevant(c, d);
    hide Fair, Inv, Served, FullUpdate, Updatable, Completed, Healthy, Capacity, Legal;
    if |images| > 0 {
      var n := |images| - 1;
      UpdatesComplete(c, d, images[..n], ws[..n]);
      var before := Updates(c, d, images[..n], ws[..n]);
      UpdateCompletes(c, before.0, images[n], ws[n]);
      ServedNext(c, d, images, before, FullUpdate(c, before.0, images[n], ws[n]));
    } else {
      NothingServed(c, d, images);
    }
  }

  lemma NothingServed(c: Config, d: Dev, images: seq<Bytes>)
    requires WellFormed(c, d) && |images| == 0
    ensures Served(c, d, images, (d, true))
  {
  }

  // ---- from the factory --------------------------------------------------

  /** A part fresh from the factory: the composed image programmed into blank flash. */
  function FactoryFlash(c: Config, bytes: Bytes): (f: Flash)
    ensures |f.cell| == |f.prog| == c.siliconEnd
  {
    Flash(F.Programmed(c, bytes),
          seq(c.siliconEnd, i requires 0 <= i < c.siliconEnd => if i < |bytes| then bytes[i] else 0xFF),
          {}, {}, [], [], _ => 0, 0)
  }

  lemma FactoryPhysical(c: Config, bytes: Bytes)
    ensures Physical(c, FactoryFlash(c, bytes))
  {
    hide ErasedByte;
  }

  function FactoryBytes(c: Config, openboot: Bytes, app: Bytes, appMax: Option<nat>): (r: Option<Bytes>)
    requires Legal(c)
  {
    match F.ComposeFactory(c.appStart, openboot, app, appMax, Some(ImageMax(c)))
    case Refused => None
    case Factory(bytes) => Some(bytes)
  }

  /** The first power-up of such a part: slot A active and bootable, slot B offered for writing. */
  lemma FactoryStarts(c: Config, openboot: Bytes, app: Bytes, appMax: Option<nat>)
    requires Legal(c) && Capacity(c, 0) != 0 && FactoryBytes(c, openboot, app, appMax).Some?
    requires F.Padded(app)[..4] != ERASED_WORD
    ensures var d := PowerUp(c, FactoryFlash(c, FactoryBytes(c, openboot, app, appMax).value), false);
      && Inv(c, d) && WellFormed(c, d) && BootableActive(c, d) && d.ram.active == Some(0) && d.ram.writeSlot == 1
      && d.ram.highest == 1 && Carried(c, d.flash.cell, 0, F.Padded(app))
      && Physical(c, d.flash) && d.flash.violations == 0 && Truthful(c, d.flash.cell)
  {
    hide Parse, Crc, Update, F.ComposeFactory, F.Padded, F.Programmed, Load, Truthful, Inv, Bootable, Physical;
    var bytes := FactoryBytes(c, openboot, app, appMax).value;
    var f := FactoryFlash(c, bytes);
    F.FactoryBoots(c, openboot, app, appMax);
    FactoryPhysical(c, bytes);
    InvPowerUp(c, f, false);
    assert Reset(f) == f;
    CleanView(c, f, 0, |f.cell|);
    assert Xip(c, f) == f.cell;
    SelectIsArgmax(c, f.cell);
  }

  /** A factory part never bricks: whatever frames, failures, power cuts and resets follow, there is always
      an application to launch, unless a frame erases, writes or commits while the active slot holds an image
      that begins with the erased pattern. */
  lemma FactoryNeverBricks(c: Config, openboot: Bytes, app: Bytes, appMax: Option<nat>, events: seq<Event>)
    requires Legal(c) && Capacity(c, 0) != 0 && FactoryBytes(c, openboot, app, appMax).Some?
    requires F.Padded(app)[..4] != ERASED_WORD
    ensures var s := Origin(c, FactoryFlash(c, FactoryBytes(c, openboot, app, appMax).value));
      && WellFormed(c, s.dev) && Good(c, s)
      && (SparesBlank(c, s, events) ==> Select(c, Run(c, s, events).dev.flash.cell).Some?)
  {
    hide Parse, Crc, Update, FactoryBytes, F.Padded, F.Programmed, Load, Truthful, Inv, Bootable, Physical, PowerUp,
         SparesBlank, Good, Initial, Run, Carried, BootableActive, Select;
    FactoryStarts(c, openboot, app, appMax);
    var f := FactoryFlash(c, FactoryBytes(c, openboot, app, appMax).value);
    FactoryPhysical(c, FactoryBytes(c, openboot, app, appMax).value);
    PowerUpFlash(c, f);
    AlwaysTruthful(c, f, events);
    if SparesBlank(c, Origin(c, f), events) {
      ResetKeepsBootable(c, Origin(c, f).dev);
      NeverBricked(c, Origin(c, f), events);
    }
  }

  lemma PowerUpFlash(c: Config, f: Flash)
    requires Legal(c) && |f.cell| == |f.prog| == c.siliconEnd
    ensures PowerUp(c, f, false).flash.cell == f.cell && PowerUp(c, f, false).flash.violations == f.violations
  {
    hide Select, Highest, Xip;
  }

  /** The first update of a factory part, nothing failing, is installed in slot B and boots from there, and
      the factory application is still whole in slot A. */
  lemma FirstUpdateBoots(c: Config, openboot: Bytes, app: Bytes, appMax: Option<nat>, image: Bytes, ws: Weather)
    requires Legal(c) && Capacity(c, 0) != 0 && Capacity(c, 1) != 0 && FactoryBytes(c, openboot, app, appMax).Some?
    requires F.Padded(app)[..4] != ERASED_WORD && Fair(c, ws)
    requires 4 <= |image| <= ImageMax(c) && Aligned(|image|, 4)
    ensures var d := PowerUp(c, FactoryFlash(c, FactoryBytes(c, openboot, app, appMax).value), false);
      && Inv(c, d) && Updatable(c, d, image)
      && var (e, ok) := FullUpdate(c, d, image, ws);
      && ok && WellFormed(c, e) && Carried(c, e.flash.cell, 0, F.Padded(app)) && Carried(c, e.flash.cell, 1, image)
      && (Select(c, e.flash.cell) == Some(1) <==> image[..4] != ERASED_WORD)
      && (Decide(c, e.flash.cell, false) == Jump(c.appStart + c.slotSize) <==> image[..4] != ERASED_WORD)
  {
    hide Parse, Crc, F.Padded, F.Programmed, FactoryBytes, FactoryFlash, Load, Truthful, Inv, Bootable, Physical, PowerUp,
         Carried, BootableActive, Legal, Fair, FullUpdate, Installed, Select, Capacity, SameOutside, Generation;
    FactoryStarts(c, openboot, app, appMax);
    var d := PowerUp(c, FactoryFlash(c, FactoryBytes(c, openboot, app, appMax).value), false);
    var u := Transfer(1, d.flash.cell, image);
    UpdateCompletes(c, d, image, ws);
    InstalledCarries(c, u, 1, FullUpdate(c, d, image, ws));
    OtherCarried(c, d.flash.cell, FullUpdate(c, d, image, ws).0.flash.cell, 1, F.Padded(app));
    InstalledBoots(c, u, FullUpdate(c, d, image, ws).0);
  }
}
