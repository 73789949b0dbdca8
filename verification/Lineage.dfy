/** Where the application a reset launches comes from, over whole runs. */
module Lineage {
  import opened Bytes
  import opened Geometry
  import opened Flash
  import opened Record
  import opened Decision
  import opened Core
  import opened Invariant
  import opened Preservation
  import opened Frames
  import opened Safety
  import opened Theorems

  /** What the COMMITs of a run vouch for. */
  function Issued(c: Config, s: History, events: seq<Event>): set<Vouched>
    requires WellFormed(c, s.dev) && Good(c, s)
    decreases |events|
  {
    if |events| == 0 then {}
    else
      var h := if events[0].Frame? then FrameVouches(c, s.dev, events[0].buf, events[0].world) else {};
      ApplyWellFormed(c, s, events[0]);
      GoodStep(c, s, events[0]);
      h + Issued(c, Apply(c, s, events[0]), events[1..])
  }

  ghost predicate SlotSame(c: Config, v: Bytes, w: Bytes, k: nat) {
    SameInside(v, w, SlotBase(c, k), SlotBase(c, k) + c.slotSize)
  }

  /** The slot was rewritten: it holds nothing, or a record issued meanwhile over exactly its image. */
  ghost predicate Rewritten(c: Config, v: Bytes, k: nat, h: set<Vouched>)
    requires Legal(c) && IsSlot(k) && |v| == c.siliconEnd
  {
    Load(c, v, k).None? || HeldBy(c, v, k, h)
  }

  ghost predicate Fate(c: Config, v: Bytes, w: Bytes, k: nat, h: set<Vouched>)
    requires Legal(c) && IsSlot(k) && |w| == c.siliconEnd
  {
    SlotSame(c, v, w, k) || Rewritten(c, w, k, h)
  }

  /** Against the start: either the active slot is the same, untouched, and the other may be anything that
      was issued; or the slot that was not active has been rewritten. */
  ghost predicate Descends(c: Config, s: Dev, t: Dev, h: set<Vouched>)
    requires WellFormed(c, s) && WellFormed(c, t) && s.ram.active.Some?
  {
    var a := s.ram.active.value;
    var v, w := s.flash.cell, t.flash.cell;
    || (t.ram.active == s.ram.active && SlotSame(c, v, w, a) && Fate(c, v, w, Other(a), h))
    || (Fate(c, v, w, a, h) && Rewritten(c, w, Other(a), h))
  }

  lemma SameStays(c: Config, u: Bytes, v: Bytes, w: Bytes, k: nat, h: set<Vouched>, g: set<Vouched>)
    requires Legal(c) && IsSlot(k) && |u| == |v| == |w| == c.siliconEnd && SlotSame(c, v, w, k)
    ensures SlotSame(c, u, v, k) ==> SlotSame(c, u, w, k)
    ensures Rewritten(c, v, k, h) ==> Rewritten(c, w, k, h + g)
    ensures Fate(c, u, v, k, h) ==> Fate(c, u, w, k, h + g)
  {
    hide Load, HeldBy;
    LoadCongruent(c, v, w, k);
    if HeldBy(c, v, k, h) {
      HeldCongruent(c, v, w, k, h, h + g);
    }
  }

  lemma Grows(c: Config, u: Bytes, v: Bytes, k: nat, h: set<Vouched>, g: set<Vouched>)
    requires Legal(c) && IsSlot(k) && |v| == c.siliconEnd && HeldBy(c, v, k, g)
    ensures Rewritten(c, v, k, h + g)
  {
    hide Load;
  }

  /** The slot a command may change: the same, or rewritten. */
  lemma WrittenStays(c: Config, u: Bytes, v: Bytes, w: Bytes, k: nat, h: set<Vouched>, g: set<Vouched>)
    requires Legal(c) && IsSlot(k) && |u| == |v| == |w| == c.siliconEnd
    requires w == v || Load(c, w, k).None? || HeldBy(c, w, k, g)
    ensures Rewritten(c, v, k, h) ==> Rewritten(c, w, k, h + g)
    ensures Fate(c, u, v, k, h) ==> Fate(c, u, w, k, h + g)
  {
    hide Load, HeldBy, SameInside;
    if w == v {
      AllSame(c, v, k);
      SameStays(c, u, v, w, k, h, g);
    } else if HeldBy(c, w, k, g) {
      Grows(c, u, w, k, h, g);
    }
  }

  lemma AllSame(c: Config, v: Bytes, k: nat)
    ensures SlotSame(c, v, v, k)
  {
  }

  lemma OtherSame(c: Config, v: Bytes, w: Bytes, k: nat)
    requires Legal(c) && IsSlot(k)
    requires SameOutside(v, w, SlotBase(c, k), SlotBase(c, k) + c.slotSize)
    ensures SlotSame(c, v, w, Other(k))
  {
  }

  /** One frame keeps the lineage. */
  lemma FrameDescends(c: Config, s: Dev, d: Dev, h: set<Vouched>, buf: Bytes, w: World)
    requires WellFormed(c, s) && s.ram.active.Some? && Inv(c, d) && WellFormed(c, d) && Descends(c, s, d, h)
    ensures var e := HandleFrame(c, d, buf, w).dev;
      WellFormed(c, e) && Descends(c, s, e, h + FrameVouches(c, d, buf, w))
  {
    hide Inv, HandleFrame, FrameVouches, HeldBy, Load, SameInside, SameOutside, SlotSame, Rewritten, Fate, Legal;
    FrameEvolves(c, d, buf, w);
    EvolvesDescends(c, s, d, HandleFrame(c, d, buf, w).dev, h, FrameVouches(c, d, buf, w));
  }

  lemma EvolvesDescends(c: Config, s: Dev, d: Dev, e: Dev, h: set<Vouched>, g: set<Vouched>)
    requires WellFormed(c, s) && s.ram.active.Some? && Inv(c, d) && WellFormed(c, d) && Descends(c, s, d, h)
    requires Evolves(c, d, e, g)
    ensures WellFormed(c, e) && Descends(c, s, e, h + g)
  {
    hide Inv, HeldBy, Load, SameInside, SameOutside, SlotSame, Rewritten, Fate, Legal;
    var k, a := d.ram.writeSlot, s.ram.active.value;
    OtherSame(c, d.flash.cell, e.flash.cell, k);
    SameStays(c, s.flash.cell, d.flash.cell, e.flash.cell, Other(k), h, g);
    WrittenStays(c, s.flash.cell, d.flash.cell, e.flash.cell, k, h, g);
    if d.ram.active.Some? {
      ActiveIsOther(c, d);
    }
    if Promoted(c, d, e, g) {
      Grows(c, s.flash.cell, e.flash.cell, k, h, g);
      FateOfSame(c, s.flash.cell, e.flash.cell, a, h + g);
    }
  }

  lemma FateOfSame(c: Config, v: Bytes, w: Bytes, k: nat, h: set<Vouched>)
    requires Legal(c) && IsSlot(k) && |w| == c.siliconEnd
    ensures SlotSame(c, v, w, k) ==> Fate(c, v, w, k, h)
    ensures Rewritten(c, w, k, h) ==> Fate(c, v, w, k, h)
  {
    hide HeldBy, Load, SameInside;
  }

  /** The selection depends only on the two slots. */
  lemma SelectCongruent(c: Config, v: Bytes, w: Bytes)
    requires Legal(c) && |v| == |w| == c.siliconEnd && SlotSame(c, v, w, 0) && SlotSame(c, v, w, 1)
    ensures Select(c, v) == Select(c, w)
  {
    hide Bootable, Load;
    BootableCongruent(c, v, w, 0);
    BootableCongruent(c, v, w, 1);
    LoadCongruent(c, v, w, 0);
    LoadCongruent(c, v, w, 1);
  }

  /** A reset keeps the lineage: the selection stays with the untouched active slot unless a record issued
      meanwhile outranks it. */
  lemma ResetDescends(c: Config, s: Dev, d: Dev, h: set<Vouched>)
    requires Inv(c, s) && WellFormed(c, s) && Launchable(c, s) && Select(c, s.flash.cell) == s.ram.active
    requires Inv(c, d) && WellFormed(c, d) && Launchable(c, d) && Descends(c, s, d, h)
    ensures WellFormed(c, PowerUp(c, d.flash, false)) && Descends(c, s, PowerUp(c, d.flash, false), h)
  {
    hide Inv, HeldBy, Load, SameInside, SlotSame, Bootable, Legal, Select, Rewritten, Xip;
    var e := PowerUp(c, d.flash, false);
    PowerUpFlash(c, d);
    var a := s.ram.active.value;
    ActiveIsOther(c, s);
    if SlotSame(c, s.flash.cell, d.flash.cell, a) && SlotSame(c, s.flash.cell, d.flash.cell, Other(a)) {
      SelectCongruent(c, s.flash.cell, d.flash.cell);
    }
  }

  lemma PowerUpFlash(c: Config, d: Dev)
    requires WellFormed(c, d)
    ensures var e := PowerUp(c, d.flash, false);
      WellFormed(c, e) && e.flash.cell == d.flash.cell && e.ram.active == Select(c, d.flash.cell)
  {
    hide Select, Highest, Xip;
    ResetViewIsTruth(c, d.flash);
  }

  lemma {:induction false} RunDescends(c: Config, s0: Dev, s: History, h: set<Vouched>, events: seq<Event>)
    requires Inv(c, s0) && WellFormed(c, s0) && Launchable(c, s0) && Select(c, s0.flash.cell) == s0.ram.active
    requires WellFormed(c, s.dev) && Good(c, s) && Launchable(c, s.dev) && SparesBlank(c, s, events)
    requires Descends(c, s0, s.dev, h)
    ensures Descends(c, s0, Run(c, s, events).dev, h + Issued(c, s, events))
    decreases |events|
  {
    hide Inv, AllHeld, MutatesBlank, HandleFrame, FrameVouches, PowerUp, Descends, Select;
    if |events| == 0 {
      assert h + {} == h;
    } else {
      GoodStep(c, s, events[0]);
      ApplyWellFormed(c, s, events[0]);
      var g := if events[0].Frame? then FrameVouches(c, s.dev, events[0].buf, events[0].world) else {};
      var t := Apply(c, s, events[0]);
      match events[0] {
        case Frame(buf, w) =>
          FrameKeepsLaunchable(c, s.dev, buf, w);
          FrameDescends(c, s0, s.dev, h, buf, w);
        case PowerCycle =>
          ResetKeepsLaunchable(c, s.dev);
          ResetDescends(c, s0, s.dev, h);
          assert h + g == h;
      }
      RunDescends(c, s0, t, h + g, events[1..]);
      assert (h + g) + Issued(c, t, events[1..]) == h + Issued(c, s, events);
    }
  }

  /** After any run the reset launches the start's own active slot, every byte of it as before, or a slot whose
      record a COMMIT of that run issued over exactly the image below it. */
  lemma RunOutcome(c: Config, s: History, events: seq<Event>)
    requires WellFormed(c, s.dev) && Good(c, s) && Launchable(c, s.dev) && SparesBlank(c, s, events)
    requires Select(c, s.dev.flash.cell) == s.dev.ram.active
    ensures var v, w := s.dev.flash.cell, Run(c, s, events).dev.flash.cell;
      && Select(c, w).Some? && IsSlot(Select(c, w).value)
      && var k := Select(c, w).value;
      (s.dev.ram.active == Some(k) && SlotSame(c, v, w, k)) || (Load(c, w, k).Some? && HeldBy(c, w, k, Issued(c, s, events)))
  {
    hide AllHeld, Inv, SparesBlank, SlotSame, HeldBy, Issued, Run, Bootable, Load, Select, Legal;
    NeverBricked(c, s, events);
    StartDescends(c, s.dev);
    RunDescends(c, s.dev, s, {}, events);
    var h := Issued(c, s, events);
    assert {} + h == h;
    SelectionDescends(c, s.dev, Run(c, s, events).dev, h);
  }

  lemma StartDescends(c: Config, d: Dev)
    requires WellFormed(c, d) && d.ram.active.Some?
    ensures Descends(c, d, d, {})
  {
    hide HeldBy, Load, SameInside, Rewritten;
    AllSame(c, d.flash.cell, 0);
    AllSame(c, d.flash.cell, 1);
  }

  lemma SelectionDescends(c: Config, s: Dev, t: Dev, h: set<Vouched>)
    requires Inv(c, s) && WellFormed(c, s) && WellFormed(c, t) && s.ram.active.Some? && Descends(c, s, t, h)
    requires Select(c, s.flash.cell) == s.ram.active && Select(c, t.flash.cell).Some?
    ensures IsSlot(Select(c, t.flash.cell).value)
    ensures var v, w, k := s.flash.cell, t.flash.cell, Select(c, t.flash.cell).value;
      (s.ram.active == Some(k) && SlotSame(c, v, w, k)) || (Load(c, w, k).Some? && HeldBy(c, w, k, h))
  {
    hide Inv, HeldBy, SameInside, SlotSame, Legal, Select;
    var v, w := s.flash.cell, t.flash.cell;
    SelectedLoads(c, w);
    ActiveIsOther(c, s);
    var a := s.ram.active.value;
    if SlotSame(c, v, w, a) && SlotSame(c, v, w, Other(a)) {
      SelectCongruent(c, v, w);
    }
  }

  lemma SelectedLoads(c: Config, v: Bytes)
    requires Legal(c) && |v| == c.siliconEnd && Select(c, v).Some?
    ensures IsSlot(Select(c, v).value) && Load(c, v, Select(c, v).value).Some?
  {
    hide Parse;
  }
}
