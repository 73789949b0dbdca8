/** The promises of the A/B design, over every run. */
module Theorems {
  import opened Bytes
  import opened Crc32
  import opened Geometry
  import opened Flash
  import opened Record
  import opened Decision
  import opened Core
  import opened Invariant
  import opened Preservation
  import opened WritePath
  import opened CommitPath
  import opened Frames
  import opened Safety

  // ---- records are always truthful ---------------------------------------

  /** What flash already held at the start counts as vouched for. */
  function Initial(c: Config, v: Bytes, k: nat): set<Vouched>
    requires Legal(c) && IsSlot(k) && |v| == c.siliconEnd
  {
    match Load(c, v, k)
    case None => {}
    case Some(r) => LoadIsSound(c, v, k); {Vouched(k, r, Image(c, v, k, r.imgLen))}
  }

  /** The first power-up of a part, with what its flash already holds. */
  function Origin(c: Config, f: Flash): (s: History)
    requires Legal(c) && |f.cell| == |f.prog| == c.siliconEnd
  {
    History(PowerUp(c, f, false), Initial(c, f.cell, 0) + Initial(c, f.cell, 1))
  }

  lemma {:induction false} RunGood(c: Config, s: History, events: seq<Event>)
    requires WellFormed(c, s.dev) && Good(c, s)
    ensures Good(c, Run(c, s, events))
    decreases |events|
  {
    hide Good, Apply;
    if |events| > 0 {
      GoodStep(c, s, events[0]);
      ApplyWellFormed(c, s, events[0]);
      RunGood(c, Apply(c, s, events[0]), events[1..]);
    }
  }

  lemma ApplyWellFormed(c: Config, s: History, ev: Event)
    requires WellFormed(c, s.dev) && Good(c, s)
    ensures WellFormed(c, Apply(c, s, ev).dev)
  {
    GoodStep(c, s, ev);
    FrameRelevant(c, Apply(c, s, ev).dev);
  }

  /** Starting from flash whose records are truthful: in every state any sequence of frames, flash
      failures, power cuts and resets can reach, every valid record's CRC is the CRC of its slot's true
      bytes, those bytes are exactly the image a COMMIT vouched for, and no operation was out of bounds,
      misaligned or a program of an unerased block. */
  lemma AlwaysTruthful(c: Config, f: Flash, events: seq<Event>)
    requires Legal(c) && Physical(c, f) && f.violations == 0 && Truthful(c, f.cell)
    ensures var s := Origin(c, f);
      && WellFormed(c, s.dev) && Good(c, s)
      && var t := Run(c, s, events);
      && Truthful(c, t.dev.flash.cell) && t.dev.flash.violations == 0 && AllHeld(c, t)
  {
    hide Parse, Crc, Update;
    InvPowerUp(c, f, false);
    var s := Origin(c, f);
    assert Good(c, s);
    RunGood(c, s, events);
  }

  /** In every reachable state, through failed writes, retries, re-erases and partial erases: while the
      sequential run is unbroken, the running CRC is the CRC of the true bytes from the write base to the
      run's position. */
  lemma RunningCrcIsTrue(c: Config, s: History, events: seq<Event>)
    requires WellFormed(c, s.dev) && Good(c, s)
    ensures var d := Run(c, s, events).dev; var b := WriteBase(c, d);
      d.ram.session && d.ram.running && d.ram.expected <= c.siliconEnd ==>
        b <= d.ram.expected && Final(d.ram.crcState) == Crc(d.flash.cell[b..d.ram.expected])
  {
    hide Good, Apply;
    RunGood(c, s, events);
    GoodStream(c, Run(c, s, events));
  }

  lemma GoodStream(c: Config, s: History)
    requires WellFormed(c, s.dev) && Good(c, s)
    ensures var d := s.dev; var b := WriteBase(c, d);
      d.ram.session && d.ram.running && d.ram.expected <= c.siliconEnd ==>
        b <= d.ram.expected && Final(d.ram.crcState) == Crc(d.flash.cell[b..d.ram.expected])
  {
    hide Parse, Update, LastOK, BitmapOK, GenerationsOK, RecordStateOK, SlotsOK, Truthful, AllHeld, Final;
    var d := s.dev;
    if d.ram.session && d.ram.running && d.ram.expected <= c.siliconEnd && d.ram.expected == WriteBase(c, d) {
      EmptyUpdate(d.flash.cell[WriteBase(c, d)..d.ram.expected]);
    }
  }

  // ---- the device stays bootable -----------------------------------------

  ghost predicate BootableActive(c: Config, d: Dev)
    requires WellFormed(c, d)
  {
    d.ram.active.Some? && Bootable(c, d.flash.cell, d.ram.active.value)
  }

  /** The active slot's image begins with the erased pattern. */
  predicate BlankActive(c: Config, d: Dev)
    requires WellFormed(c, d)
  {
    d.ram.active.Some? && SlotBase(c, d.ram.active.value) + 4 <= |d.flash.cell|
    && FirstWordErased(c, d.flash.cell, d.ram.active.value)
  }

  /** This frame is a COMMIT about to store a record for an image that begins with the erased pattern. */
  predicate CommitsBlank(c: Config, d: Dev, buf: Bytes, w: World)
    requires WellFormed(c, d)
  {
    FrameVouches(c, d, buf, w) != {} && SlotBase(c, d.ram.writeSlot) + 4 <= |d.flash.cell|
    && FirstWordErased(c, d.flash.cell, d.ram.writeSlot)
  }

  /** The active slot is bootable exactly when its image does not begin with the erased pattern: its
      record is valid and truthful in every reachable state. */
  lemma ActiveBootableUnlessBlank(c: Config, d: Dev)
    requires Inv(c, d) && d.ram.active.Some?
    ensures BootableActive(c, d) <==> !BlankActive(c, d)
  {
    hide Parse, Crc, Update;
    LoadIsSound(c, d.flash.cell, d.ram.active.value);
  }

  /** A promoted slot's image begins as it did before the COMMIT. */
  lemma PromotedBlank(c: Config, d: Dev, e: Dev, h: set<Vouched>)
    requires WellFormed(c, d) && WellFormed(c, e) && Promoted(c, d, e, h)
    ensures h != {} && SlotBase(c, d.ram.writeSlot) + 4 <= |d.flash.cell|
    ensures BlankActive(c, e) <==> FirstWordErased(c, d.flash.cell, d.ram.writeSlot)
  {
    hide Parse;
    CapacityMeaning(c, d.ram.writeSlot);
    SlotLayout(c, d.ram.writeSlot);
    var b := SlotBase(c, d.ram.writeSlot);
    SameSlice(d.flash.cell, e.flash.cell, b, b + 4);
  }

  /** One frame keeps the active slot bootable unless it commits a blank image. */
  lemma FrameKeepsBootable(c: Config, d: Dev, buf: Bytes, w: World)
    requires Inv(c, d) && BootableActive(c, d) && !CommitsBlank(c, d, buf, w)
    ensures var e := HandleFrame(c, d, buf, w).dev; WellFormed(c, e) && BootableActive(c, e)
  {
    FrameRelevant(c, d);
    InvHandleFrame(c, d, buf, w);
    FrameEvolves(c, d, buf, w);
    var e := HandleFrame(c, d, buf, w).dev;
    FrameRelevant(c, e);
    hide Inv, HandleFrame, FrameVouches, Promoted, BlankActive, Bootable, FirstWordErased, Load, HeldBy;
    var h := FrameVouches(c, d, buf, w);
    if Promoted(c, d, e, h) {
      PromotedBlank(c, d, e, h);
      ActiveBootableUnlessBlank(c, e);
    } else {
      ActiveIsOther(c, d);
      BootableCongruent(c, d.flash.cell, e.flash.cell, d.ram.active.value);
    }
  }

  lemma ActiveIsOther(c: Config, d: Dev)
    requires Inv(c, d) && d.ram.active.Some?
    ensures d.ram.active == Some(Other(d.ram.writeSlot))
  {
  }

  lemma ResetKeepsBootable(c: Config, d: Dev)
    requires Inv(c, d) && BootableActive(c, d)
    ensures var e := PowerUp(c, d.flash, false); BootableActive(c, e)
    ensures Select(c, d.flash.cell).Some?
  {
    hide Parse, Crc, Update;
    SelectIsArgmax(c, d.flash.cell);
    CleanView(c, Reset(d.flash), 0, |d.flash.cell|);
    assert Xip(c, Reset(d.flash)) == d.flash.cell;
  }

  ghost predicate NoBlankCommit(c: Config, s: History, events: seq<Event>)
    requires WellFormed(c, s.dev) && Good(c, s)
    decreases |events|
  {
    |events| > 0 ==>
      && (events[0].Frame? ==> !CommitsBlank(c, s.dev, events[0].buf, events[0].world))
      && (GoodStep(c, s, events[0]); ApplyWellFormed(c, s, events[0]);
          NoBlankCommit(c, Apply(c, s, events[0]), events[1..]))
  }

  /** While no host commits an image that begins with the erased pattern, the active slot itself stays
      bootable. */
  lemma {:induction false} ActiveStaysBootable(c: Config, s: History, events: seq<Event>)
    requires WellFormed(c, s.dev) && Good(c, s) && BootableActive(c, s.dev) && NoBlankCommit(c, s, events)
    ensures BootableActive(c, Run(c, s, events).dev)
    decreases |events|
  {
    ResetKeepsBootable(c, s.dev);
    hide Inv, AllHeld, CommitsBlank, HandleFrame, FrameVouches, BootableActive, PowerUp, Bootable;
    if |events| > 0 {
      GoodStep(c, s, events[0]);
      ApplyWellFormed(c, s, events[0]);
      match events[0] {
        case Frame(buf, w) => FrameKeepsBootable(c, s.dev, buf, w);
        case PowerCycle =>
      }
      ActiveStaysBootable(c, Apply(c, s, events[0]), events[1..]);
    }
  }

  // ---- there is always something to launch --------------------------------

  /** A slot is active and the reset finds a slot to launch. */
  ghost predicate Launchable(c: Config, d: Dev)
    requires WellFormed(c, d)
  {
    d.ram.active.Some? && Select(c, d.flash.cell).Some?
  }

  /** This frame is an ERASE, WRITE or COMMIT in a session whose active slot holds a blank image. */
  predicate MutatesBlank(c: Config, d: Dev, buf: Bytes, w: World)
    requires WellFormed(c, d)
  {
    BlankActive(c, d) && Receive(buf).Request? && Mutates(Enter(d, w), Receive(buf).cmd)
  }

  lemma ActiveSurvives(c: Config, d: Dev, buf: Bytes, w: World)
    requires Inv(c, d) && d.ram.active.Some?
    ensures var e := HandleFrame(c, d, buf, w).dev;
      && WellFormed(c, d) && WellFormed(c, e) && e.ram.active.Some? && d.ram.active == Some(Other(d.ram.writeSlot))
      && Bootable(c, e.flash.cell, d.ram.active.value) == Bootable(c, d.flash.cell, d.ram.active.value)
  {
    FrameRelevant(c, d);
    FrameEvolves(c, d, buf, w);
    hide Inv, HandleFrame, FrameVouches, Bootable, Load, HeldBy;
    ActiveIsOther(c, d);
    BootableCongruent(c, d.flash.cell, HandleFrame(c, d, buf, w).dev.flash.cell, d.ram.active.value);
  }

  /** What a frame leaves nothing to launch in: exactly a blank active image and a write slot that, afterwards,
      cannot boot. */
  lemma FrameStrandsExactly(c: Config, d: Dev, buf: Bytes, w: World)
    requires Inv(c, d) && d.ram.active.Some?
    ensures var e := HandleFrame(c, d, buf, w).dev;
      && WellFormed(c, d) && WellFormed(c, e)
      && (Select(c, e.flash.cell).None? <==> BlankActive(c, d) && !Bootable(c, e.flash.cell, d.ram.writeSlot))
  {
    hide Inv, HandleFrame, Bootable, BlankActive, Select;
    ActiveSurvives(c, d, buf, w);
    ActiveBootableUnlessBlank(c, d);
    SelectIsArgmax(c, HandleFrame(c, d, buf, w).dev.flash.cell);
  }

  lemma FrameKeepsLaunchable(c: Config, d: Dev, buf: Bytes, w: World)
    requires Inv(c, d) && WellFormed(c, d) && Launchable(c, d) && !MutatesBlank(c, d, buf, w)
    ensures var e := HandleFrame(c, d, buf, w).dev; WellFormed(c, e) && Launchable(c, e)
  {
    hide Inv, HandleFrame, Bootable, BlankActive, Select, Receive, Mutates;
    ActiveSurvives(c, d, buf, w);
    FrameStrandsExactly(c, d, buf, w);
    if BlankActive(c, d) {
      UnmutatedContent(c, d, buf, w);
    }
  }

  lemma UnmutatedContent(c: Config, d: Dev, buf: Bytes, w: World)
    requires Inv(c, d) && WellFormed(c, d)
    requires !(Receive(buf).Request? && Mutates(Enter(d, w), Receive(buf).cmd))
    ensures HandleFrame(c, d, buf, w).dev.flash.cell == d.flash.cell
  {
    hide Inv, Receive, Execute, Seal, Mutates, Vouches;
    var r := Receive(buf);
    if r.Request? {
      InvEnter(c, d, w);
      FrameRelevant(c, Enter(d, w));
      ExecuteShape(c, Enter(d, w), r.cmd, r.payload);
    }
  }

  lemma ResetKeepsLaunchable(c: Config, d: Dev)
    requires WellFormed(c, d) && Launchable(c, d)
    ensures var e := PowerUp(c, d.flash, false); WellFormed(c, e) && Launchable(c, e)
  {
    hide Select, Highest;
    ResetViewIsTruth(c, d.flash);
  }

  ghost predicate SparesBlank(c: Config, s: History, events: seq<Event>)
    requires WellFormed(c, s.dev) && Good(c, s)
    decreases |events|
  {
    |events| > 0 ==>
      && (events[0].Frame? ==> !MutatesBlank(c, s.dev, events[0].buf, events[0].world))
      && (GoodStep(c, s, events[0]); ApplyWellFormed(c, s, events[0]);
          SparesBlank(c, Apply(c, s, events[0]), events[1..]))
  }

  /** A device that has something to launch always has: after any frames, flash failures, power cuts and
      resets, the boot decision finds a slot, provided no frame erases, writes or commits while the active
      slot holds an image that begins with the erased pattern. Committing such an image is survived: the slot
      that was active before still launches, and a reset makes it active again. */
  lemma {:induction false} NeverBricked(c: Config, s: History, events: seq<Event>)
    requires WellFormed(c, s.dev) && Good(c, s) && Launchable(c, s.dev) && SparesBlank(c, s, events)
    ensures Launchable(c, Run(c, s, events).dev)
    decreases |events|
  {
    hide Inv, AllHeld, MutatesBlank, HandleFrame, FrameVouches, Launchable, PowerUp;
    if |events| > 0 {
      GoodStep(c, s, events[0]);
      ApplyWellFormed(c, s, events[0]);
      match events[0] {
        case Frame(buf, w) => FrameKeepsLaunchable(c, s.dev, buf, w);
        case PowerCycle => ResetKeepsLaunchable(c, s.dev);
      }
      NeverBricked(c, Apply(c, s, events[0]), events[1..]);
    }
  }

  /** Committing no blank image at all is more than that asks. */
  lemma {:induction false} NoBlankSpares(c: Config, s: History, events: seq<Event>)
    requires WellFormed(c, s.dev) && Good(c, s) && BootableActive(c, s.dev) && NoBlankCommit(c, s, events)
    ensures Launchable(c, s.dev) && SparesBlank(c, s, events)
    decreases |events|
  {
    ResetKeepsBootable(c, s.dev);
    ActiveBootableUnlessBlank(c, s.dev);
    hide Inv, AllHeld, CommitsBlank, HandleFrame, FrameVouches, PowerUp, Bootable, BlankActive, Select, Receive, Mutates;
    if |events| > 0 {
      GoodStep(c, s, events[0]);
      ApplyWellFormed(c, s, events[0]);
      match events[0] {
        case Frame(buf, w) => FrameKeepsBootable(c, s.dev, buf, w);
        case PowerCycle =>
      }
      NoBlankSpares(c, Apply(c, s, events[0]), events[1..]);
    }
  }

  ghost predicate BootsSafely(c: Config, s: History, t: History)
    requires WellFormed(c, s.dev) && WellFormed(c, t.dev)
  {
    match Select(c, t.dev.flash.cell)
    case None => false
    case Some(k) =>
      && IsSlot(k) && HeldBy(c, t.dev.flash.cell, k, t.vouched)
      && if s.dev.ram.active == Some(k) then
           SameInside(s.dev.flash.cell, t.dev.flash.cell, SlotBase(c, k), SlotBase(c, k) + c.slotSize)
         else k == s.dev.ram.writeSlot
  }

  /** Cut power anywhere inside any frame: the next boot launches the untouched active slot, or the
      write slot with a record over exactly the image it was issued for. Never nothing. */
  lemma CrashOutcome(c: Config, s: History, buf: Bytes, w: World)
    requires WellFormed(c, s.dev) && Good(c, s) && BootableActive(c, s.dev)
    ensures WellFormed(c, Apply(c, s, Frame(buf, w)).dev)
    ensures var t := Apply(c, s, Frame(buf, w)); BootsSafely(c, s, t)
  {
    hide Inv, HandleFrame, FrameVouches, HeldBy, Promoted, Bootable, Load, Select;
    GoodStep(c, s, Frame(buf, w));
    ApplyWellFormed(c, s, Frame(buf, w));
    FrameEvolves(c, s.dev, buf, w);
    ActiveIsOther(c, s.dev);
    var t := Apply(c, s, Frame(buf, w));
    BootableCongruent(c, s.dev.flash.cell, t.dev.flash.cell, s.dev.ram.active.value);
    SelectIsArgmax(c, t.dev.flash.cell);
  }

  // ---- BOOT --------------------------------------------------------------

  /** What the boot decision does after the reset a BOOT answer announces. */
  function AfterReset(c: Config, d: Dev): Boot
    requires WellFormed(c, d)
  {
    Decide(c, Xip(c, Reset(d.flash)), d.bootRequest)
  }

  lemma ResetViewIsTruth(c: Config, f: Flash)
    requires c.eraseBlock > 0
    ensures Xip(c, Reset(f)) == f.cell
  {
    CleanView(c, Reset(f), 0, |f.cell|);
  }

  /** BOOT mode 0 answered OK: the reset launches an application unless the active image is blank and
      the other slot cannot boot either. Whatever the stale view serves, in all three record states,
      second updates in one power cycle included. */
  lemma BootAnswerExact(c: Config, d: Dev)
    requires Inv(c, d) && DoBoot(c, d, [0]).1 == [OK] && !d.bootRequest
    ensures d.ram.active.Some?
    ensures AfterReset(c, DoBoot(c, d, [0]).0).Jump?
      <==> !BlankActive(c, d) || Bootable(c, d.flash.cell, d.ram.writeSlot)
    ensures d.ram.rec == FromFlash ==> !BlankActive(c, d)
  {
    hide Parse, Crc, Update, StreamOK, LastOK, BitmapOK, GenerationsOK, Truthful;
    ResetViewIsTruth(c, d.flash);
    SelectIsArgmax(c, d.flash.cell);
    if d.ram.rec == FromFlash {
      CleanView(c, d.flash, 0, |d.flash.cell|);
      assert View(c, d) == d.flash.cell;
    }
    ActiveBootableUnlessBlank(c, d);
  }

  /** So with no blank image committed, OK means launch. */
  lemma BootAnswerHonest(c: Config, d: Dev)
    requires Inv(c, d) && BootableActive(c, d) && !d.bootRequest && DoBoot(c, d, [0]).1 == [OK]
    ensures AfterReset(c, DoBoot(c, d, [0]).0).Jump?
  {
    hide Inv, Bootable, AfterReset;
    BootAnswerExact(c, d);
    ActiveBootableUnlessBlank(c, d);
  }

  /** An update interrupted after the record was invalidated: BOOT asks the active slot. It answers OK exactly
      when that slot is bootable as the memory-mapped view serves it; OK means launch; and a coherent view
      never refuses. */
  lemma InterruptedUpdateBoots(c: Config, d: Dev)
    requires Inv(c, d) && BootableActive(c, d) && d.ram.rec == Invalid && !d.bootRequest
    ensures WellFormed(c, d)
    ensures DoBoot(c, d, [0]).1 == [OK] <==> Bootable(c, View(c, d), d.ram.active.value)
    ensures DoBoot(c, d, [0]).1 == [OK] ==> AfterReset(c, DoBoot(c, d, [0]).0).Jump?
    ensures SlotCoherent(c, d, d.ram.active.value) ==> DoBoot(c, d, [0]).1 == [OK]
  {
    hide Inv, Bootable, AfterReset, Load, BlankActive;
    FrameRelevant(c, d);
    if SlotCoherent(c, d, d.ram.active.value) {
      CoherentBootable(c, d, d.ram.active.value);
    }
    if DoBoot(c, d, [0]).1 == [OK] {
      BootAnswerHonest(c, d);
    }
  }

  /** A stale view can refuse it: when the active slot's record block was touched this power cycle, as by its
      own commit, and the part does not read coherently, a view serving zeros there is answered with no
      record, although the reset would launch. */
  lemma StaleViewRefuses(c: Config, d: Dev, plan: seq<Outcome>)
    requires Inv(c, d) && BootableActive(c, d) && d.ram.rec == Invalid && !CrcLive(c)
    requires c.eraseBlock > 0 && RecordAddr(c, d.ram.active.value) / c.eraseBlock in d.flash.dirty
    ensures var g := Enter(d, World(plan, _ => 0));
      && WellFormed(c, g) && DoBoot(c, g, [0]).1 == Err(E_VERIFY, DET_NORECORD)
      && Select(c, g.flash.cell).Some?
  {
    hide Inv, Crc, Bootable, Select;
    FrameRelevant(c, d);
    var g := Enter(d, World(plan, _ => 0));
    ResetKeepsBootable(c, d);
    BootableHasRoom(c, d.flash.cell, d.ram.active.value);
    ZerosServed(c, g, d.ram.active.value);
    NoRecordInZeros(c, View(c, g), d.ram.active.value);
  }

  lemma BootableHasRoom(c: Config, v: Bytes, slot: nat)
    requires Legal(c) && IsSlot(slot) && |v| == c.siliconEnd && Bootable(c, v, slot)
    ensures Capacity(c, slot) != 0
  {
    hide Parse, ImageValid;
  }

  lemma ZerosServed(c: Config, d: Dev, slot: nat)
    requires WellFormed(c, d) && IsSlot(slot) && !CrcLive(c) && (forall i :: d.flash.stale(i) == 0)
    requires RecordAddr(c, slot) / c.eraseBlock in d.flash.dirty && Capacity(c, slot) != 0
    ensures RecordAddr(c, slot) < |View(c, d)| && View(c, d)[RecordAddr(c, slot)] == 0
  {
    SlotLayout(c, slot);
    CapacityMeaning(c, slot);
    XipAt(c, d.flash, RecordAddr(c, slot));
  }

  lemma NoRecordInZeros(c: Config, v: Bytes, slot: nat)
    requires Legal(c) && IsSlot(slot) && |v| == c.siliconEnd
    requires RecordAddr(c, slot) < |v| && v[RecordAddr(c, slot)] == 0
    ensures !Bootable(c, v, slot)
  {
    hide Crc, ImageValid;
  }

  /** No block of the slot has been touched since reset, or the part reads coherently anyway. */
  ghost predicate SlotCoherent(c: Config, d: Dev, slot: nat) {
    forall i: nat | SlotBase(c, slot) <= i < SlotBase(c, slot) + c.slotSize :: i < |d.flash.cell| ==> Coherent(c, d.flash, i)
  }

  lemma CoherentBootable(c: Config, d: Dev, slot: nat)
    requires WellFormed(c, d) && IsSlot(slot)
    requires SlotCoherent(c, d, slot)
    ensures Bootable(c, View(c, d), slot) == Bootable(c, d.flash.cell, slot)
  {
    hide Bootable, Coherent, Load;
    forall i: nat | SlotBase(c, slot) <= i < SlotBase(c, slot) + c.slotSize && i < |d.flash.cell|
      ensures View(c, d)[i] == d.flash.cell[i]
    {
      XipAt(c, d.flash, i);
    }
    BootableCongruent(c, View(c, d), d.flash.cell, slot);
  }

  // ---- the idle launch ---------------------------------------------------

  /** Without a session nothing has touched flash since reset. */
  predicate Untouched(d: Dev) { d.ram.session || d.ram.rec == FromFlash }

  lemma FrameKeepsUntouched(c: Config, d: Dev, buf: Bytes, w: World)
    requires Inv(c, d) && WellFormed(c, d) && Untouched(d)
    ensures Untouched(HandleFrame(c, d, buf, w).dev)
  {
    hide Inv, WellFormed, Receive, Seal, Execute;
    var r := Receive(buf);
    if r.Request? {
      InvEnter(c, d, w);
      FrameRelevant(c, Enter(d, w));
      CommandKeepsUntouched(c, Enter(d, w), r.cmd, r.payload);
    }
  }

  lemma CommandKeepsUntouched(c: Config, d: Dev, cmd: Byte, pl: Bytes)
    requires Inv(c, d) && WellFormed(c, d) && Untouched(d)
    ensures Untouched(Execute(c, d, cmd, pl).dev)
  {
    hide Inv, WellFormed, DoErase, DoWrite, DoCommit, HelloPayload, RecordTrusted, MutationFrame, SessionOpen;
    if d.ram.session {
      if cmd == CMD_ERASE {
        InvErase(c, d, pl);
        FrameSession(c, d, DoErase(c, d, pl).0);
      } else if cmd == CMD_WRITE {
        InvWrite(c, d, pl);
        FrameSession(c, d, DoWrite(c, d, pl).0);
      } else if cmd == CMD_COMMIT {
        CommitKeepsSession(c, d, pl);
      }
    }
    CrcReadsOnly(c, d, pl);
    HelloSession(c, d);
  }

  lemma HelloSession(c: Config, d: Dev)
    ensures SessionOpen(c, d).ram.session
  {
  }

  lemma FrameSession(c: Config, d: Dev, e: Dev)
    requires WellFormed(c, d) && MutationFrame(c, d, e)
    ensures e.ram.session
  {
    hide Inv;
  }

  lemma CommitKeepsSession(c: Config, d: Dev, pl: Bytes)
    requires WellFormed(c, d) && d.ram.session
    ensures DoCommit(c, d, pl).0.ram.session
  {
    hide LeNat, LeWord, WellFormed, Attestation, RecordStore, Aligned;
  }

  /** The idle deadline launches exactly what the boot decision would, in every state a session has not
      been opened in: whatever frames came before, the view it selects from is the truth. */
  lemma {:induction false} IdleLaunchIsBootDecision(c: Config, s: History, events: seq<Event>)
    requires WellFormed(c, s.dev) && Good(c, s) && Untouched(s.dev)
    ensures var d := Run(c, s, events).dev;
      Untouched(d) && (!d.ram.session ==> Select(c, View(c, d)) == Select(c, d.flash.cell))
    decreases |events|
  {
    hide Inv, AllHeld, HandleFrame, FrameVouches, Select, PowerUp, View;
    if |events| > 0 {
      GoodStep(c, s, events[0]);
      ApplyWellFormed(c, s, events[0]);
      match events[0] {
        case Frame(buf, w) => FrameKeepsUntouched(c, s.dev, buf, w);
        case PowerCycle => PowerUpUntouched(c, s.dev.flash);
      }
      IdleLaunchIsBootDecision(c, Apply(c, s, events[0]), events[1..]);
    } else if !s.dev.ram.session {
      CleanDevice(c, s.dev);
    }
  }

  lemma PowerUpUntouched(c: Config, f: Flash)
    requires Legal(c) && |f.cell| == |f.prog| == c.siliconEnd
    ensures Untouched(PowerUp(c, f, false))
  {
    hide Select, Highest;
  }

  lemma CleanDevice(c: Config, d: Dev)
    requires Inv(c, d) && d.ram.rec == FromFlash
    ensures WellFormed(c, d) && View(c, d) == d.flash.cell
  {
    hide Parse, Crc, Update, StreamOK, LastOK, BitmapOK, GenerationsOK, Truthful, SlotsOK, Physical;
    CleanView(c, d.flash, 0, |d.flash.cell|);
  }

  // ---- COMMIT ------------------------------------------------------------

  /** A COMMIT answered OK by storing a record: the generation is in range and strictly above the other
      slot's, and the next boot picks the slot just committed exactly when its image is not blank. */
  lemma CommitWins(c: Config, d: Dev, len: nat, crc: bv32)
    requires Inv(c, d) && d.ram.session && len < U32_LIMIT && CommitStores(c, d, len, crc)
    requires StoreRecord(c, d, NextRecord(d, len, crc)).1 == [OK]
    ensures var e := StoreRecord(c, d, NextRecord(d, len, crc)).0; var w := d.ram.writeSlot;
      && WellFormed(c, e)
      && Load(c, e.flash.cell, w) == Some(Record(d.ram.highest + 1, len, crc))
      && 1 <= d.ram.highest + 1 <= 0xFFFF_FFFE
      && Generation(c, e.flash.cell, Other(w)) < d.ram.highest + 1
      && (Select(c, e.flash.cell) == Some(w) <==> !BlankActive(c, e))
  {
    hide Parse, Crc, Update, Attestation, StoreRecord, StreamOK, LastOK, BitmapOK, Truthful, Physical;
    InvCommitStores(c, d, len, crc);
    var e := StoreRecord(c, d, NextRecord(d, len, crc)).0;
    CapacityMeaning(c, d.ram.writeSlot);
    OtherUnchanged(c, d, e);
    ActiveBootableUnlessBlank(c, e);
    SelectIsArgmax(c, e.flash.cell);
  }

  lemma OtherUnchanged(c: Config, d: Dev, e: Dev)
    requires Legal(c) && WellFormed(c, d) && |e.flash.cell| == c.siliconEnd
    requires SameOutside(d.flash.cell, e.flash.cell, RecordAddr(c, d.ram.writeSlot),
                         RecordAddr(c, d.ram.writeSlot) + RECORD_BLOCK)
    ensures Load(c, d.flash.cell, Other(d.ram.writeSlot)) == Load(c, e.flash.cell, Other(d.ram.writeSlot))
  {
    LoadCongruent(c, d.flash.cell, e.flash.cell, Other(d.ram.writeSlot));
  }

  /** Replaying a COMMIT whose answer was lost changes nothing. It is acknowledged exactly when the new
      write slot also fits the silicon: the capacity check comes before the replay check. */
  lemma CommitReplayExact(c: Config, d: Dev, len: nat, crc: bv32, pl: Bytes, w: World)
    requires Inv(c, d) && d.ram.session && len < U32_LIMIT && CommitStores(c, d, len, crc)
    requires StoreRecord(c, d, NextRecord(d, len, crc)).1 == [OK]
    requires |pl| == 8 && LeNat(pl[0..4]) == len && LeWord(pl[4..8]) == crc
    ensures var e := Enter(StoreRecord(c, d, NextRecord(d, len, crc)).0, w);
      && WellFormed(c, e)
      && DoCommit(c, e, pl) == (e, if Capacity(c, Other(d.ram.writeSlot)) != 0 then [OK] else Err(E_ADDR, DET_RANGE))
  {
    hide Parse, Crc, Update, Attestation, StoreRecord, StreamOK, LastOK, BitmapOK, Truthful, Physical,
         GenerationsOK, LeNat, LeWord;
    InvCommitStores(c, d, len, crc);
  }
}
