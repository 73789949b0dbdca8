/** The promises carried over to the engine as the firmware keeps it: whole runs of the imperative code. */
module EngineRuns {
  import opened Bytes
  import opened Geometry
  import opened Flash
  import opened Record
  import opened Decision
  import opened Core
  import opened Invariant
  import opened Frames
  import opened Bitmap
  import opened NorFlash
  import opened BootCore
  import opened Safety
  import opened Theorems

  method SetWorld(core: BootCore, w: World)
    requires core.Valid()
    modifies core.Repr()
    ensures core.Valid() && core.State() == Enter(old(core.State()), w)
    ensures core.flash.plan == w.plan && core.flash.stale == w.stale
  {
    hide Bits, Marked, Legal;
    core.flash.Enter(w.plan, w.stale);
  }

  /** A request meets its own world, whatever was there before; anything else meets none. */
  lemma SameFrame(c: Config, d: Dev, buf: Bytes, w: World, any: World)
    requires WellFormed(c, d)
    ensures WellFormed(c, Enter(d, w))
    ensures Receive(buf).Request? ==> Core.HandleFrame(c, Enter(d, w), buf, w) == Core.HandleFrame(c, d, buf, w)
    ensures !Receive(buf).Request? ==> Core.HandleFrame(c, d, buf, any) == Core.HandleFrame(c, d, buf, w)
  {
    hide Receive, Execute, Seal;
    assert Enter(Enter(d, w), w) == Enter(d, w);
  }

  lemma RequestFact(core: BootCore)
    requires core.Valid()
    ensures core.State().bootRequest == core.bootRequest
  {
  }

  /** One frame or one reset. */
  method Step(core: BootCore, ev: Event, ghost s: History) returns (launched: bool)
    requires core.Valid() && s.dev == core.State() && WellFormed(core.c, s.dev) && Good(core.c, s)
    modifies core.Repr()
    ensures core.Valid() && core.State() == Apply(core.c, s, ev).dev
    ensures launched <==> ev.PowerCycle? && !s.dev.bootRequest && Select(core.c, s.dev.flash.cell).Some?
  {
    hide BootCore.Valid, BootCore.State, Inv, AllHeld, Core.HandleFrame, PowerUp, Select;
    launched := false;
    match ev
    case Frame(buf, w) =>
      SameFrame(core.c, s.dev, buf, w, World(core.flash.plan, core.flash.stale));
      if Receive(buf).Request? {
        SetWorld(core, w);
      }
      var _, _ := core.HandleFrame(buf);
    case PowerCycle =>
      RequestFact(core);
      var b := core.PowerCycle();
      launched := b.Jump?;
  }

  /** A run of the engine takes the steps of the transition system. */
  method Operate(core: BootCore, events: seq<Event>, ghost s: History)
    requires core.Valid() && s.dev == core.State() && WellFormed(core.c, s.dev) && Good(core.c, s)
    modifies core.Repr()
    ensures core.Valid() && core.State() == Run(core.c, s, events).dev
  {
    hide BootCore.Valid, BootCore.State, Inv, AllHeld, Apply;
    ghost var t := s;
    var i := 0;
    assert events[0..] == events;
    while i < |events|
      invariant 0 <= i <= |events| && core.Valid() && core.State() == t.dev
      invariant WellFormed(core.c, t.dev) && Good(core.c, t) && Run(core.c, t, events[i..]) == Run(core.c, s, events)
    {
      GoodStep(core.c, t, events[i]);
      ApplyWellFormed(core.c, t, events[i]);
      RunOne(core.c, t, events, i);
      var _ := Step(core, events[i], t);
      t := Apply(core.c, t, events[i]);
      i := i + 1;
    }
  }

  lemma RunOne(c: Config, s: History, events: seq<Event>, i: nat)
    requires i < |events| && WellFormed(c, s.dev) && Good(c, s)
    ensures WellFormed(c, Apply(c, s, events[i]).dev) && Good(c, Apply(c, s, events[i]))
    ensures Run(c, s, events[i..]) == Run(c, Apply(c, s, events[i]), events[i + 1..])
  {
    hide Inv, AllHeld, Apply;
    GoodStep(c, s, events[i]);
    ApplyWellFormed(c, s, events[i]);
    assert events[i..][1..] == events[i + 1..];
  }

  lemma OriginLaunches(c: Config, f: Flash)
    requires Legal(c) && |f.cell| == |f.prog| == c.siliconEnd && Select(c, f.cell).Some?
    ensures Launchable(c, Origin(c, f).dev)
  {
    hide Select, Highest, Initial;
    ResetViewIsTruth(c, f);
  }

  /** Power on and run: from truthful flash, after any frames, failures, power cuts and resets, the arrays hold
      truthful records, no operation was illegal, and a part with something to launch still has, unless a frame
      mutated flash while the active image was blank. */
  method PowerOnAndOperate(flash: NorFlash, events: seq<Event>) returns (core: BootCore)
    requires flash.Valid() && Physical(flash.c, flash.Value()) && flash.violations == 0 && Truthful(flash.c, flash.cell[..])
    modifies flash.Repr()
    ensures core.Valid() && core.flash == flash && fresh(core.Own())
    ensures Truthful(flash.c, flash.cell[..]) && flash.violations == 0
    ensures var s := Origin(flash.c, old(flash.Value()));
      && Good(flash.c, s)
      && (Select(flash.c, old(flash.cell[..])).Some? && SparesBlank(flash.c, s, events) ==>
            Select(flash.c, flash.cell[..]).Some?)
  {
    hide Inv, AllHeld, BootCore.Valid, SparesBlank, Run, Bits, Select, Truthful, Physical, PowerUp, Initial;
    ghost var f := flash.Value();
    ghost var s := Origin(flash.c, f);
    AlwaysTruthful(flash.c, f, events);
    core := new BootCore(flash, false);
    var _ := core.PowerCycle();
    Operate(core, events, s);
    if Select(flash.c, f.cell).Some? && SparesBlank(flash.c, s, events) {
      OriginLaunches(flash.c, f);
      NeverBricked(flash.c, s, events);
    }
  }

  /** BOOT mode 1 on the engine itself, and the two resets that follow: the first stays whatever the slots hold, the
      second goes where the content says. */
  method StayOnce(core: BootCore) returns (p: Bytes, first: Boot, second: Boot)
    requires core.Valid()
    modifies core.Repr()
    ensures core.Valid() && core.flash.cell[..] == old(core.flash.cell[..]) && |core.flash.cell[..]| == core.c.siliconEnd
    ensures p == [0x00] && first == Stay && second == Decide(core.c, core.flash.cell[..], false)
  {
    hide Bits, Marked, Select, Highest, Xip, Bootable;
    var action;
    p, action := core.DoBoot([1]);
    first := core.PowerCycle();
    second := core.PowerCycle();
  }
}
