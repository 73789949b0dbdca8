/** Whole runs: frames with arbitrary flash failures, power cuts and resets, in any order. */
module Safety {
  import opened Bytes
  import opened Crc32
  import opened Geometry
  import opened Flash
  import opened Record
  import opened Decision
  import opened Core
  import opened Invariant
  import opened Preservation
  import opened WritePath
  import opened CommitPath
  import opened Frames

  /** A record together with the exact image bytes it was issued for. */
  datatype Vouched = Vouched(slot: nat, record: Record, image: Bytes)

  /** What a command vouches for: only a COMMIT that reaches the record store vouches for anything. */
  function Vouches(c: Config, d: Dev, cmd: Byte, pl: Bytes): set<Vouched>
    requires WellFormed(c, d)
  {
    if cmd == CMD_COMMIT && d.ram.session && |pl| == 8 && CommitStores(c, d, LeNat(pl[0..4]), LeWord(pl[4..8])) then
      var len := LeNat(pl[0..4]);
      CapacityMeaning(c, d.ram.writeSlot);
      {Vouched(d.ram.writeSlot, NextRecord(d, len, LeWord(pl[4..8])), Image(c, d.flash.cell, d.ram.writeSlot, len))}
    else {}
  }

  /** Slot `k` of `v` holds exactly what `h` says, or no valid record. */
  ghost predicate HeldBy(c: Config, v: Bytes, k: nat, h: set<Vouched>)
    requires Legal(c) && IsSlot(k) && |v| == c.siliconEnd
  {
    Load(c, v, k).Some? ==>
      (LoadIsSound(c, v, k);
       var r := Load(c, v, k).value; Vouched(k, r, Image(c, v, k, r.imgLen)) in h)
  }

  /** How one command can change flash and roles. */
  ghost predicate Evolves(c: Config, d: Dev, e: Dev, h: set<Vouched>)
    requires WellFormed(c, d)
  {
    var w := d.ram.writeSlot;
    && WellFormed(c, e)
    && SameOutside(d.flash.cell, e.flash.cell, WriteBase(c, d), WriteBase(c, d) + c.slotSize)
    && (e.flash.cell == d.flash.cell || Load(c, e.flash.cell, w).None? || HeldBy(c, e.flash.cell, w, h))
    && (Promoted(c, d, e, h)
        || (e.ram.active == d.ram.active && e.ram.writeSlot == w && e.ram.highest == d.ram.highest))
  }

  /** A successful COMMIT: the write slot, with its image below the record untouched, becomes active. */
  ghost predicate Promoted(c: Config, d: Dev, e: Dev, h: set<Vouched>)
    requires WellFormed(c, d) && WellFormed(c, e)
  {
    var w := d.ram.writeSlot;
    && e.ram.active == Some(w) && e.ram.writeSlot == Other(w) && e.ram.highest == d.ram.highest + 1
    && Load(c, e.flash.cell, w).Some? && Load(c, e.flash.cell, w).value.generation == d.ram.highest + 1
    && HeldBy(c, e.flash.cell, w, h)
    && Capacity(c, w) != 0
    && SameInside(d.flash.cell, e.flash.cell, SlotBase(c, w), RecordAddr(c, w))
  }

  lemma CommitEvolves(c: Config, d: Dev, len: nat, crc: bv32, e: Dev, p: Bytes)
    requires Inv(c, d) && CommitStores(c, d, len, crc)
    requires CommitFrame(c, d, e, p, NextRecord(d, len, crc))
    ensures SlotBase(c, d.ram.writeSlot) + len <= |d.flash.cell|
    ensures Evolves(c, d, e, {Vouched(d.ram.writeSlot, NextRecord(d, len, crc), Image(c, d.flash.cell, d.ram.writeSlot, len))})
  {
    hide Parse, Crc, Update, Attestation, StreamOK, LastOK, BitmapOK, SlotsOK, RecordStateOK, Truthful, Physical, GenerationsOK;
    CapacityMeaning(c, d.ram.writeSlot);
    ImageSurvives(c, d.flash.cell, e.flash.cell, d.ram.writeSlot, len);
  }

  lemma CommitCommandEvolves(c: Config, d: Dev, pl: Bytes)
    requires Inv(c, d) && d.ram.session
    ensures Evolves(c, d, DoCommit(c, d, pl).0, Vouches(c, d, CMD_COMMIT, pl))
  {
    assert WellFormed(c, d) && d.ram.highest < U32_LIMIT;
    hide LeNat, LeWord, Inv, CommitStores, CommitReplays, StoreRecord, DoCommit, CommitFrame, Image, Crc, Evolves;
    CommitShape(c, d, pl);
    if |pl| == 8 && CommitStores(c, d, LeNat(pl[0..4]), LeWord(pl[4..8])) {
      var len, crc := LeNat(pl[0..4]), LeWord(pl[4..8]);
      InvCommitStores(c, d, len, crc);
      CommitEvolves(c, d, len, crc, DoCommit(c, d, pl).0, DoCommit(c, d, pl).1);
    }
  }

  /** Commands that touch neither flash nor the slot roles. */
  ghost predicate Quiet(d: Dev, e: Dev) {
    e.flash == d.flash
    && e.ram.active == d.ram.active && e.ram.writeSlot == d.ram.writeSlot && e.ram.highest == d.ram.highest
  }

  predicate Mutates(d: Dev, cmd: Byte) {
    d.ram.session && (cmd == CMD_ERASE || cmd == CMD_WRITE || cmd == CMD_COMMIT)
  }

  lemma ExecuteShape(c: Config, d: Dev, cmd: Byte, pl: Bytes)
    requires WellFormed(c, d)
    ensures !Mutates(d, cmd) ==> Quiet(d, Execute(c, d, cmd, pl).dev) && Vouches(c, d, cmd, pl) == {}
    ensures Mutates(d, cmd) && cmd == CMD_ERASE ==>
      Execute(c, d, cmd, pl) == Step(DoErase(c, d, pl).0, DoErase(c, d, pl).1, Continue) && Vouches(c, d, cmd, pl) == {}
    ensures Mutates(d, cmd) && cmd == CMD_WRITE ==>
      Execute(c, d, cmd, pl) == Step(DoWrite(c, d, pl).0, DoWrite(c, d, pl).1, Continue) && Vouches(c, d, cmd, pl) == {}
    ensures Mutates(d, cmd) && cmd == CMD_COMMIT ==>
      Execute(c, d, cmd, pl) == Step(DoCommit(c, d, pl).0, DoCommit(c, d, pl).1, Continue)
  {
    hide DoErase, DoWrite, DoCommit, DoCrc, RecordTrusted, HelloPayload, CommitStores;
    CrcReadsOnly(c, d, pl);
  }

  /** Every command changes at most the write slot, and leaves there either no record, the old content,
      or a record issued for exactly the image below it. */
  lemma ExecuteEvolves(c: Config, d: Dev, cmd: Byte, pl: Bytes)
    requires Inv(c, d)
    ensures WellFormed(c, d) && Evolves(c, d, Execute(c, d, cmd, pl).dev, Vouches(c, d, cmd, pl))
  {
    FrameRelevant(c, d);
    InvExecute(c, d, cmd, pl);
    FrameRelevant(c, Execute(c, d, cmd, pl).dev);
    ExecuteShape(c, d, cmd, pl);
    hide Inv, Execute, DoErase, DoWrite, DoCommit, MutationFrame, Evolves, Vouches, WellFormed;
    if Mutates(d, cmd) {
      if cmd == CMD_ERASE {
        InvErase(c, d, pl);
      } else if cmd == CMD_WRITE {
        InvWrite(c, d, pl);
      } else {
        CommitCommandEvolves(c, d, pl);
      }
    }
  }

  // ---- runs --------------------------------------------------------------

  /** A frame with the world's choices for it, or the end of the power cycle. A power cut inside a
      flash operation is a frame whose plan ends there, followed by PowerCycle. */
  datatype Event = Frame(buf: Bytes, world: World) | PowerCycle

  datatype History = History(dev: Dev, vouched: set<Vouched>)

  function FrameVouches(c: Config, d: Dev, buf: Bytes, w: World): set<Vouched>
    requires WellFormed(c, d)
  {
    match Receive(buf)
    case Request(cmd, q, pl) => Vouches(c, Enter(d, w), cmd, pl)
    case _ => {}
  }

  function Apply(c: Config, s: History, ev: Event): History
    requires WellFormed(c, s.dev)
  {
    match ev
    case Frame(buf, w) => History(HandleFrame(c, s.dev, buf, w).dev, s.vouched + FrameVouches(c, s.dev, buf, w))
    case PowerCycle => History(PowerUp(c, s.dev.flash, false), s.vouched)
  }

  /** Every valid record stands over exactly the image it was issued for. */
  ghost predicate AllHeld(c: Config, s: History)
    requires WellFormed(c, s.dev)
  {
    HeldBy(c, s.dev.flash.cell, 0, s.vouched) && HeldBy(c, s.dev.flash.cell, 1, s.vouched)
  }

  ghost predicate Good(c: Config, s: History) {
    Inv(c, s.dev) && AllHeld(c, s)
  }

  lemma HeldCongruent(c: Config, v: Bytes, w: Bytes, k: nat, h: set<Vouched>, g: set<Vouched>)
    requires Legal(c) && IsSlot(k) && |v| == |w| == c.siliconEnd && h <= g
    requires SameInside(v, w, SlotBase(c, k), SlotBase(c, k) + c.slotSize)
    requires HeldBy(c, v, k, h)
    ensures HeldBy(c, w, k, g)
  {
    hide Parse;
    LoadCongruent(c, v, w, k);
    if Load(c, v, k).Some? {
      LoadIsSound(c, v, k);
      SameSlice(v, w, SlotBase(c, k), SlotBase(c, k) + Load(c, v, k).value.imgLen);
    }
  }

  lemma EvolvesKeepsHeld(c: Config, d: Dev, e: Dev, h: set<Vouched>, g: set<Vouched>)
    requires WellFormed(c, d) && Evolves(c, d, e, h)
    requires HeldBy(c, d.flash.cell, 0, g) && HeldBy(c, d.flash.cell, 1, g)
    ensures HeldBy(c, e.flash.cell, 0, g + h) && HeldBy(c, e.flash.cell, 1, g + h)
  {
    hide Parse, Load, Promoted;
    HeldCongruent(c, d.flash.cell, e.flash.cell, Other(d.ram.writeSlot), g, g + h);
  }

  lemma GoodStep(c: Config, s: History, ev: Event)
    requires Good(c, s)
    ensures WellFormed(c, s.dev) && Good(c, Apply(c, s, ev))
  {
    FrameRelevant(c, s.dev);
    match ev
    case Frame(buf, w) =>
      InvHandleFrame(c, s.dev, buf, w);
      FrameEvolves(c, s.dev, buf, w);
      FrameRelevant(c, HandleFrame(c, s.dev, buf, w).dev);
      hide Inv, HandleFrame, FrameVouches, Evolves, HeldBy;
      EvolvesKeepsHeld(c, s.dev, HandleFrame(c, s.dev, buf, w).dev, FrameVouches(c, s.dev, buf, w), s.vouched);
    case PowerCycle =>
      PowerCycleKeeps(c, s);
  }

  lemma FrameEvolves(c: Config, d: Dev, buf: Bytes, w: World)
    requires Inv(c, d)
    ensures WellFormed(c, d) && Evolves(c, d, HandleFrame(c, d, buf, w).dev, FrameVouches(c, d, buf, w))
  {
    FrameRelevant(c, d);
    InvEnter(c, d, w);
    FrameRelevant(c, Enter(d, w));
    var r := Receive(buf);
    if r.Request? {
      ExecuteEvolves(c, Enter(d, w), r.cmd, r.payload);
      EvolvesFromEnter(c, d, w, Execute(c, Enter(d, w), r.cmd, r.payload).dev, Vouches(c, Enter(d, w), r.cmd, r.payload));
    } else {
      hide Inv, Receive, Seal, Evolves;
    }
  }

  lemma EvolvesFromEnter(c: Config, d: Dev, w: World, e: Dev, h: set<Vouched>)
    requires WellFormed(c, d) && Evolves(c, Enter(d, w), e, h)
    ensures Evolves(c, d, e, h)
  {
    hide Parse, Load, HeldBy;
  }

  lemma PowerCycleKeeps(c: Config, s: History)
    requires Good(c, s)
    ensures WellFormed(c, s.dev) && Good(c, Apply(c, s, PowerCycle))
  {
    hide Parse, Crc, Update;
    InvPowerUp(c, s.dev.flash, false);
  }

  function Run(c: Config, s: History, events: seq<Event>): History
    requires WellFormed(c, s.dev) && Good(c, s)
    ensures WellFormed(c, Run(c, s, events).dev)
    decreases |events|
  {
    if |events| == 0 then s
    else
      GoodStep(c, s, events[0]);
      FrameRelevant(c, Apply(c, s, events[0]).dev);
      Run(c, Apply(c, s, events[0]), events[1..])
  }
}
