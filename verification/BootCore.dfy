/** The protocol engine as the firmware keeps it: static state updated in place, loops over blocks
    and bytes, unsigned 32-bit range checks. Each handler is proved to take exactly the step of the
    transition system. */
module BootCore {
  import opened Bytes
  import opened Crc32
  import opened Geometry
  import opened Flash
  import opened Record
  import opened Decision
  import opened Core
  import opened Invariant
  import opened Frames
  import opened Bitmap
  import opened NorFlash
  import F = Flash

  const SLOT_NONE: nat := 0xFFFF_FFFF
  const SLOT_COUNT: nat := 2

  class BootCore {
    const c: Config
    const flash: NorFlash
    // session-scoped
    var session: bool
    var disarmed: bool
    var poisoned: bool
    const bitmap: array<Byte>
    var expectedNext: nat
    var lastAddr: nat
    var lastLen: nat
    var crcState: bv32
    const lastData: array<Byte>
    // power-cycle-scoped
    var recState: RecState
    var committedLen: nat
    var committedCrc: bv32
    var highestGen: nat
    var activeSlot: nat
    var writeSlot: nat
    // survives a soft reset
    var bootRequest: bool

    ghost function Own(): set<object> { {this, bitmap, lastData} }

    ghost function Repr(): set<object> { Own() + flash.Repr() }

    ghost predicate Valid()
      reads this, flash
    {
      && flash.Valid() && c == flash.c
      && Own() !! flash.Repr() && bitmap != lastData
      && bitmap.Length == BitmapBytes(c) && lastData.Length == MAX_WRITE_DATA
      && lastLen <= lastData.Length
      && IsSlot(writeSlot) && (activeSlot == SLOT_NONE || IsSlot(activeSlot))
    }

    ghost function RamState(): Ram
      reads this, Own()
      requires lastLen <= lastData.Length
    {
      Ram(session, disarmed, !poisoned, Bits(bitmap[..]), expectedNext, lastAddr, lastData[..lastLen], crcState,
          recState, committedLen, committedCrc, highestGen,
          if activeSlot == SLOT_NONE then None else Some(activeSlot), writeSlot)
    }

    /** The state of the transition system this object is in. */
    ghost function State(): (d: Dev)
      requires Valid()
      reads this, flash, Repr()
      ensures WellFormed(c, d)
    {
      Dev(flash.Value(), RamState(), bootRequest)
    }

    /** Static storage before anything ran. */
    constructor (flash: NorFlash, bootRequest: bool)
      requires flash.Valid()
      ensures Valid() && this.flash == flash && fresh(Own()) && this.bootRequest == bootRequest
    {
      c := flash.c;
      this.flash := flash;
      bitmap := new Byte[BitmapBytes(flash.c)](_ => 0);
      lastData := new Byte[MAX_WRITE_DATA](_ => 0);
      session, disarmed, poisoned := false, false, false;
      expectedNext, lastAddr, lastLen, crcState := 0, 0, 0, 0;
      recState, committedLen, committedCrc := FromFlash, 0, 0;
      highestGen, activeSlot, writeSlot := 0, SLOT_NONE, 0;
      this.bootRequest := bootRequest;
    }

    /** Entry of the main loop: everything is derived once, from a view nothing has disturbed. */
    method CoreInit()
      requires Valid()
      modifies Own()
      ensures Valid() && flash.Value() == old(flash.Value()) && bootRequest == old(bootRequest)
      ensures RamState() == InitialRam(c, Select(c, View()), Highest(c, View()))
    {
      hide Bits, Select, Highest, Xip, Legal, Marked, RamState;
      ZeroSession();
      var best, highest := BootSelect();
      DeriveOnce(best, highest);
    }

    method DeriveOnce(best: nat, highest: nat)
      requires Valid() && (best == SLOT_NONE || IsSlot(best))
      modifies this`recState, this`committedLen, this`committedCrc, this`highestGen, this`activeSlot, this`writeSlot
      ensures Valid() && bootRequest == old(bootRequest)
      ensures RamState() == old(RamState()).(
        rec := FromFlash, committedLen := 0, committedCrc := 0, highest := highest,
        active := if best == SLOT_NONE then None else Some(best),
        writeSlot := if best == SLOT_NONE then 0 else Other(best))
    {
      hide Bits, Legal, NorFlash.Valid, RamState;
      NoteRecord(FromFlash, 0, 0, highest);
      NoteSlots(best, if best == SLOT_NONE then 0 else OtherSlot(best));
    }

    method NoteRecord(state: RecState, len: nat, crc: bv32, generation: nat)
      requires Valid()
      modifies this`recState, this`committedLen, this`committedCrc, this`highestGen
      ensures Valid()
      ensures RamState() == old(RamState()).(rec := state, committedLen := len, committedCrc := crc, highest := generation)
    {
      hide Bits, Legal, NorFlash.Valid;
      recState, committedLen, committedCrc, highestGen := state, len, crc, generation;
    }

    method NoteSlots(active: nat, write: nat)
      requires Valid() && (active == SLOT_NONE || IsSlot(active)) && IsSlot(write)
      modifies this`activeSlot, this`writeSlot
      ensures Valid() && writeSlot == write
      ensures RamState() == old(RamState()).(
        active := if active == SLOT_NONE then None else Some(active), writeSlot := write)
    {
      hide Bits, Legal, NorFlash.Valid;
      activeSlot, writeSlot := active, write;
    }

    /** Clear the session structure. */
    method ZeroSession()
      requires Valid()
      modifies Own()
      ensures Valid() && bootRequest == old(bootRequest)
      ensures RamState() == old(RamState()).(session := false, disarmed := false, running := true, bitmap := {},
                                             expected := 0, lastAddr := 0, lastData := [], crcState := 0)
    {
      hide Bits, Legal, NorFlash.Valid;
      ClearBitmap();
      session, disarmed, poisoned := false, false, false;
      expectedNext, lastAddr, lastLen, crcState := 0, 0, 0, 0;
    }

    // ---- the boot decision -----------------------------------------------

    ghost function View(): Bytes
      requires Valid()
      reads this, flash, Repr()
    {
      Xip(c, flash.Value())
    }

    method RecordLoad(slot: nat) returns (r: Option<Record>)
      requires Valid()
      ensures slot >= SLOT_COUNT ==> r.None?
      ensures slot < SLOT_COUNT ==> IsSlot(slot) && r == Load(c, View(), slot)
    {
      hide Parse, LeWord, PutWord, Xip;
      if slot >= SLOT_COUNT {
        return None;
      }
      var addr := RecordAddr(c, slot);
      if Capacity(c, slot) == 0 {
        return None;
      }
      ghost var v := View();
      var b: Bytes := [];
      var i := 0;
      while i < 8
        invariant 0 <= i <= 8
        invariant b == v[addr..addr + 4 * i]
      {
        var w := flash.XipReadWord(addr + 4 * i);
        PutWordOfLeWord(v[addr + 4 * i..addr + 4 * i + 4]);
        b := b + PutWord(w);
        i := i + 1;
      }
      r := ParseRecord(b, Capacity(c, slot));
    }

    method BootImageValid(slot: nat, r: Record) returns (ok: bool)
      requires Valid() && IsSlot(slot)
      requires SlotBase(c, slot) + c.slotSize <= c.siliconEnd && r.imgLen <= ImageMax(c) && Aligned(r.imgLen, 4)
      ensures ok == ImageValid(c, View(), slot, r)
    {
      hide LeWord, PutWord, Xip, Crc, Aligned;
      var base := SlotBase(c, slot);
      if c.bootImageCrc {
        var crc := flash.XipCrc(base, r.imgLen);
        if crc != r.imgCrc {
          return false;
        }
      }
      var w := flash.XipReadWord(base);
      PutWordOfLeWord(View()[base..base + 4]);
      PutWordOfLeWord(ERASED_WORD);
      ok := w != LeWord(ERASED_WORD);
    }

    method BootAppValid(slot: nat) returns (ok: bool)
      requires Valid() && IsSlot(slot)
      ensures ok == Bootable(c, View(), slot)
    {
      hide Parse, Xip, ImageValid;
      var r := RecordLoad(slot);
      if r.None? {
        return false;
      }
      LoadIsSound(c, View(), slot);
      ok := BootImageValid(slot, r.value);
    }

    /** One pass over the slots, loading each record once. */
    method BootSelect() returns (best: nat, highest: nat)
      requires Valid()
      ensures best == SLOT_NONE || IsSlot(best)
      ensures (if best == SLOT_NONE then None else Some(best)) == Select(c, View())
      ensures highest == Highest(c, View())
    {
      hide Parse, Xip, ImageValid, Load, Bootable;
      ghost var v := View();
      ghost var s := Selection(None, 0, 0);
      highest, best := 0, SLOT_NONE;
      var bestGen := 0;
      var slot := 0;
      while slot < SLOT_COUNT
        invariant 0 <= slot <= SLOT_COUNT
        invariant s == if slot == 0 then Selection(None, 0, 0)
                       else if slot == 1 then Consider(c, v, 0, Selection(None, 0, 0))
                       else SelectAll(c, v)
        invariant best == SLOT_NONE || IsSlot(best)
        invariant s == Selection(if best == SLOT_NONE then None else Some(best), bestGen, highest)
      {
        s := Consider(c, v, slot, s);
        var r := RecordLoad(slot);
        if r.Some? {
          BootableIs(c, v, slot);
          if r.value.generation > highest {
            highest := r.value.generation;
          }
          if best == SLOT_NONE || r.value.generation > bestGen {
            var ok := BootImageValid(slot, r.value);
            if ok {
              bestGen, best := r.value.generation, slot;
            }
          }
        }
        slot := slot + 1;
      }
    }

    /** The reset-time decision: a request is one-shot, otherwise the best slot is launched. */
    method BootDecide() returns (b: Boot)
      requires Valid()
      modifies this`bootRequest
      ensures Valid() && b == Decide(c, View(), old(bootRequest)) && !bootRequest
    {
      hide Select;
      var requested := bootRequest;
      if requested {
        bootRequest := false;
        return Stay;
      }
      var slot, _ := BootSelect();
      if slot == SLOT_NONE {
        return Stay;
      }
      b := Jump(SlotBase(c, slot));
    }

    /** A reset: the boot decision from a coherent view, which consumes a request, and the way up to the main
        loop. */
    method PowerCycle() returns (b: Boot)
      requires Valid()
      modifies Repr()
      ensures Valid() && State() == PowerUp(c, old(State().flash), false)
      ensures b == Decide(c, old(State().flash.cell), old(bootRequest))
    {
      hide Bits, Select, Highest, Xip, Legal, Marked, Decide;
      ghost var f := flash.Value();
      flash.Reset();
      CleanAfterReset(f);
      b := BootDecide();
      CoreInit();
    }

    lemma CleanAfterReset(f: Flash)
      requires Valid()
      ensures |f.cell| == c.siliconEnd ==> Xip(c, F.Reset(f)) == f.cell
    {
      CleanView(c, F.Reset(f), 0, |f.cell|);
    }

    lemma Facts()
      requires Valid()
      ensures c.eraseBlock > 0 && IsSlot(writeSlot) && State().ram.writeSlot == writeSlot
      ensures State().flash.cell == flash.cell[..]
    {
    }

    lemma WindowFacts(addr: nat, len: nat)
      requires Valid() && InWindow(c, writeSlot, addr, len)
      ensures SlotBase(c, writeSlot) <= addr && addr + len <= SlotBase(c, writeSlot) + c.slotSize
      ensures addr + len < U32_LIMIT && Low32(addr + len) == addr + len
    {
      SlotLayout(c, writeSlot);
    }

    // ---- range gates -----------------------------------------------------

    /** The gate of CRC: unsigned 32-bit comparisons decide mathematical containment. */
    method ReadRangeOk(addr: nat, len: nat) returns (ok: bool)
      requires Valid() && addr < U32_LIMIT && len < U32_LIMIT
      ensures ok == InRegion(c, addr, len)
    {
      var end := c.siliconEnd;
      ok := addr >= c.appStart && addr < end && len != 0 && len <= Low32(end - addr);
    }

    /** The gate of ERASE and WRITE. */
    method WriteRangeOk(addr: nat, len: nat) returns (ok: bool)
      requires Valid() && addr < U32_LIMIT && len < U32_LIMIT
      ensures ok == InWindow(c, writeSlot, addr, len)
    {
      SlotLayout(c, writeSlot);
      hide Low32;
      var base := SlotBase(c, writeSlot);
      var cap := Capacity(c, writeSlot);
      ok := cap != 0 && addr >= base && addr < Low32(base + cap) && len != 0 && len <= Low32(base + cap - addr);
    }

    // ---- state transitions -----------------------------------------------

    method ClearBitmap()
      modifies bitmap
      ensures Bits(bitmap[..]) == {}
    {
      var i := 0;
      while i < bitmap.Length
        invariant 0 <= i <= bitmap.Length
        invariant forall j :: 0 <= j < i ==> bitmap[j] == 0
      {
        bitmap[i] := 0;
        i := i + 1;
      }
    }

    method SessionOpen()
      requires Valid()
      modifies Own()
      ensures Valid() && State() == Core.SessionOpen(c, old(State()))
    {
      hide Bits;
      ZeroSession();
      session, poisoned := true, false;
      expectedNext, crcState := SlotBase(c, writeSlot), INIT;
    }

    method MutationBegin() returns (r: Byte)
      requires Valid()
      modifies Repr()
      ensures Valid() && (State(), r) == Core.MutationBegin(c, old(State()))
      ensures writeSlot == old(writeSlot) && expectedNext == old(expectedNext)
    {
      hide Bits, F.Erase;
      if disarmed {
        return 0;
      }
      recState, committedLen, committedCrc := Invalid, 0, 0;
      r := flash.Erase(RecordAddr(c, writeSlot));
      if r == 0 {
        disarmed := true;
      }
    }

    method StreamNoteErase(addr: nat)
      requires Valid()
      modifies this`poisoned
      ensures Valid() && State() == NoteErase(old(State()), addr)
    {
      if addr < expectedNext {
        poisoned := true;
      }
    }

    method SameAsLast(data: Bytes) returns (same: bool)
      requires Valid() && |data| == lastLen
      ensures same == (data == lastData[..lastLen])
    {
      var i := 0;
      while i < |data|
        invariant 0 <= i <= |data|
        invariant data[..i] == lastData[..i]
      {
        if data[i] != lastData[i] {
          assert lastData[..lastLen][i] != data[i];
          return false;
        }
        i := i + 1;
      }
      assert data[..i] == data && lastData[..i] == lastData[..lastLen];
      return true;
    }

    method StreamClassifyWrite(addr: nat, data: Bytes) returns (kind: WriteClass)
      requires Valid() && addr + |data| < U32_LIMIT
      modifies this`poisoned
      ensures Valid() && State() == NoteWrite(old(State()), addr, data)
      ensures kind == Classify(old(State()), addr, data) && (kind.Fold? ==> addr == expectedNext)
    {
      hide Bits, Low32;
      if addr == expectedNext {
        return Fold;
      }
      if addr == lastAddr && |data| == lastLen && Low32(addr + |data|) == expectedNext {
        var same := SameAsLast(data);
        if same {
          return Retry;
        }
      }
      poisoned := true;
      return Poison;
    }

    method RememberChunk(data: Bytes)
      requires Valid() && |data| <= lastData.Length
      modifies lastData
      ensures lastData[..|data|] == data
    {
      var i := 0;
      while i < |data|
        invariant 0 <= i <= |data|
        invariant lastData[..i] == data[..i]
      {
        lastData[i] := data[i];
        i := i + 1;
      }
      assert data[..i] == data;
    }

    method AdvanceRun(addr: nat, len: nat, crc: bv32)
      requires Valid() && len <= lastData.Length && expectedNext + len < U32_LIMIT
      modifies this
      ensures Valid() && bootRequest == old(bootRequest)
      ensures RamState() == old(RamState()).(crcState := crc, expected := old(expectedNext) + len,
                                             lastAddr := addr, lastData := lastData[..len])
    {
      hide Bits, Low32, Legal;
      crcState := crc;
      expectedNext := Low32(expectedNext + len);
      lastAddr, lastLen := addr, len;
    }

    method StreamFold(addr: nat, data: Bytes)
      requires Valid() && |data| <= MAX_WRITE_DATA && expectedNext + |data| < U32_LIMIT
      modifies Own()
      ensures Valid() && State() == FoldChunk(old(State()), addr, data)
    {
      hide Bits, Update, Legal, Marked;
      var crc := TableUpdate(crcState, data);
      AdvanceRun(addr, |data|, crc);
      RememberChunk(data);
    }

    // ---- the erased-block bitmap -----------------------------------------

    /** Block number relative to the write slot, and its place in the byte array. */
    lemma BitmapIndex(addr: nat)
      requires Valid() && SlotBase(c, writeSlot) <= addr < SlotBase(c, writeSlot) + c.slotSize
      ensures addr - SlotBase(c, writeSlot) < U32_LIMIT
      ensures Low32(addr - SlotBase(c, writeSlot)) / c.eraseBlock / 8 < bitmap.Length
    {
      SlotLayout(c, writeSlot);
      var rel, e := addr - SlotBase(c, writeSlot), c.eraseBlock;
      BoundarySeparates(rel, c.slotSize, c.slotSize, e);
    }

    method BitmapMark(addr: nat)
      requires Valid() && SlotBase(c, writeSlot) <= addr < SlotBase(c, writeSlot) + c.slotSize
      modifies bitmap
      ensures Valid() && State() == Core.BitmapMark(c, old(State()), addr)
    {
      BitmapIndex(addr);
      hide Bits, Legal, BitSet, SetBit, Low32;
      var blk := BlockOf(c, Low32(addr - SlotBase(c, writeSlot)));
      BitsMark(bitmap[..], blk);
      bitmap[blk / 8] := SetBit(bitmap[blk / 8], blk % 8);
    }

    method BitmapCovers(addr: nat, len: nat) returns (ok: bool)
      requires Valid() && InWindow(c, writeSlot, addr, len)
      ensures ok == Core.BitmapCovers(c, State(), addr, len)
    {
      BitmapIndex(addr);
      BitmapIndex(addr + len - 1);
      hide Legal, BitSet, Low32, BlockRange;
      var base := SlotBase(c, writeSlot);
      var first := BlockOf(c, Low32(addr - base));
      var last := BlockOf(c, Low32(Low32(addr + len) - 1 - base));
      ok := BitsCover(first, last);
    }

    method BitsCover(first: nat, last: nat) returns (ok: bool)
      requires last / 8 < bitmap.Length
      ensures ok == (BlockRange(first, last) <= Bits(bitmap[..]))
    {
      hide BitSet;
      var b := first;
      while b <= last
        invariant first <= b
        invariant forall k: nat :: first <= k < b && k <= last ==> k in Bits(bitmap[..])
        decreases last + 1 - b
      {
        if !BitSet(bitmap[b / 8], b % 8) {
          assert b in BlockRange(first, last) && b !in Bits(bitmap[..]);
          return false;
        }
        b := b + 1;
      }
      return true;
    }

    // ---- the boot record -------------------------------------------------

    method RecordStore(slot: nat, r: Record) returns (code: Byte)
      requires Valid() && IsSlot(slot) && r.generation < U32_LIMIT && r.imgLen < U32_LIMIT
      modifies flash.Repr()
      ensures Valid() && RamState() == old(RamState()) && bootRequest == old(bootRequest)
      ensures (flash.Value(), code) == Core.RecordStore(c, old(flash.Value()), slot, r)
    {
      hide Bits, Legal, Marked, F.Erase, F.Write, F.Verify, Encode, RamState;
      var a := RecordAddr(c, slot);
      code := flash.Erase(a);
      if code != 0 {
        return 1;
      }
      code := flash.Write(a, Encode(r));
      if code != 0 {
        return 1;
      }
      code := flash.Verify(a, Encode(r));
    }

    /** Everything session-scoped, against the present write slot. */
    method Rearm()
      requires Valid()
      modifies Own()
      ensures Valid() && bootRequest == old(bootRequest)
      ensures RamState() == old(RamState()).(disarmed := false, bitmap := {}, running := true, crcState := INIT,
                                             expected := SlotBase(c, writeSlot), lastAddr := 0, lastData := [])
    {
      hide Bits, Legal, NorFlash.Valid, RamState;
      StartRun();
      ForgetBlocks();
    }

    method StartRun()
      requires Valid()
      modifies this`disarmed, this`poisoned, this`expectedNext, this`crcState, this`lastAddr, this`lastLen
      ensures Valid()
      ensures RamState() == old(RamState()).(disarmed := false, running := true, crcState := INIT,
                                             expected := SlotBase(c, writeSlot), lastAddr := 0, lastData := [])
    {
      hide Bits, Legal, NorFlash.Valid, SlotBase, BitmapBytes;
      disarmed, poisoned, expectedNext, crcState := false, false, SlotBase(c, writeSlot), INIT;
      lastAddr, lastLen := 0, 0;
    }

    method ForgetBlocks()
      requires Valid()
      modifies bitmap
      ensures Valid() && RamState() == old(RamState()).(bitmap := {})
    {
      hide Bits, Legal, NorFlash.Valid;
      ClearBitmap();
    }

    method MoveSlots(r: Record)
      requires Valid()
      modifies this`recState, this`committedLen, this`committedCrc, this`highestGen, this`activeSlot, this`writeSlot
      ensures Valid() && bootRequest == old(bootRequest)
      ensures RamState() == old(RamState()).(rec := Fresh, committedLen := r.imgLen, committedCrc := r.imgCrc,
                                             highest := r.generation, active := Some(old(writeSlot)),
                                             writeSlot := Other(old(writeSlot)))
    {
      hide Bits, Legal, NorFlash.Valid, RamState;
      NoteRecord(Fresh, r.imgLen, r.imgCrc, r.generation);
      NoteSlots(writeSlot, OtherSlot(writeSlot));
    }

    /** The slot just committed becomes active and the session is re-armed for the other. */
    method RecordNoteCommitted(r: Record)
      requires Valid()
      modifies Own()
      ensures Valid() && State() == RecordCommitted(c, old(State()), r)
    {
      hide Bits, Legal, Marked;
      MoveSlots(r);
      Rearm();
    }

    method BootRecordTrusted() returns (ok: bool)
      requires Valid()
      ensures ok == RecordTrusted(c, State())
    {
      hide Select, Bootable, Xip, Legal, Bits;
      if recState == Fresh {
        return true;
      }
      if recState == FromFlash {
        var best, _ := BootSelect();
        return best != SLOT_NONE;
      }
      if activeSlot == SLOT_NONE {
        return false;
      }
      ok := BootAppValid(activeSlot);
    }

    // ---- commands --------------------------------------------------------

    method DoHello(pl: Bytes) returns (p: Bytes)
      requires Valid()
      modifies Own()
      ensures Valid() && (State(), p) == Core.DoHello(c, old(State()), pl)
    {
      hide Bits, Legal, Marked, HelloPayload, Core.SessionOpen;
      if |pl| != 6 {
        return Err(E_LEN, 0);
      }
      if pl[0..4] != HELLO_MAGIC {
        return Err(E_ARG, 0);
      }
      if pl[4] != PROTO_MAJOR || pl[5] != PROTO_MINOR {
        return Err(E_PROTO, 0);
      }
      SessionOpen();
      p := HelloResponse();
    }

    method HelloResponse() returns (p: Bytes)
      requires Valid()
      ensures p == HelloPayload(c, State())
    {
      hide PutNat;
      SlotLayout(c, writeSlot);
      var active := if activeSlot == SLOT_NONE then SLOT_ID_NONE else SlotId(activeSlot);
      p := [OK, PROTO_MAJOR, PROTO_MINOR, c.chipRev, 0x0B, 0x00, c.family, c.transport]
        + PutNat(c.appStart) + PutNat(c.siliconEnd) + PutNat(c.eraseBlock)
        + [0x00, 0x01, 4, 48] + PutNat(c.features) + c.uid
        + [2, active, SlotId(writeSlot), 0]
        + PutNat(SlotBase(c, writeSlot)) + PutNat(Capacity(c, writeSlot));
    }

    /** One block of the loop. */
    method EraseBlock(a: nat) returns (r: Byte)
      requires Valid() && SlotBase(c, writeSlot) <= a < SlotBase(c, writeSlot) + c.slotSize
      modifies flash.Repr(), bitmap
      ensures Valid() && r == F.Erase(c, old(State()).flash, a).1
      ensures var d := old(State()).(flash := F.Erase(c, old(State()).flash, a).0);
        State() == if r != 0 then d else Core.BitmapMark(c, d, a)
    {
      hide Bits, Legal, Marked, F.Erase, Core.BitmapMark, RamState;
      r := flash.Erase(a);
      if r == 0 {
        BitmapMark(a);
      }
    }

    /** The block loop of ERASE. */
    method EraseBlocks(addr: nat, len: nat) returns (r: Byte)
      requires Valid() && InWindow(c, writeSlot, addr, len)
      requires Aligned(addr, c.eraseBlock) && Aligned(len, c.eraseBlock)
      modifies flash.Repr(), bitmap
      ensures Valid() && (State(), r) == EraseLoop(c, old(State()), addr, addr + len)
    {
      hide Bits, Legal, Marked, Aligned, F.Erase, Core.BitmapMark, Low32, RamState, State, InWindow, SlotBase, Capacity, Valid;
      Facts();
      WindowFacts(addr, len);
      AlignedEnd(addr, len, c.eraseBlock);
      ghost var end := addr + len;
      ghost var d := State();
      var a := addr;
      while a < Low32(addr + len)
        invariant Valid() && addr <= a <= end && Aligned(a, c.eraseBlock)
        invariant EraseLoop(c, State(), a, end) == EraseLoop(c, d, addr, end)
        decreases end - a
      {
        NextBlock(a, end, c.eraseBlock);
        r := EraseBlock(a);
        if r != 0 {
          return r;
        }
        a := a + c.eraseBlock;
      }
      r := 0;
    }

    method DoErase(pl: Bytes) returns (p: Bytes)
      requires Valid()
      modifies Repr()
      ensures Valid() && (State(), p) == Core.DoErase(c, old(State()), pl)
    {
      hide Bits, Legal, Marked, Aligned, LeNat, EraseBody, InWindow, RamState, SlotBase, Capacity, State, Valid;
      Facts();
      if |pl| != 8 {
        return Err(E_LEN, 0);
      }
      var addr, len := LeNat(pl[0..4]), LeNat(pl[4..8]);
      if !Aligned(addr, c.eraseBlock) || !Aligned(len, c.eraseBlock) {
        return Err(E_ADDR, DET_ALIGN);
      }
      var ok := WriteRangeOk(addr, len);
      if !ok {
        return Err(E_ADDR, DET_RANGE);
      }
      p := EraseAccepted(addr, len);
    }

    method EraseAccepted(addr: nat, len: nat) returns (p: Bytes)
      requires Valid() && InWindow(c, writeSlot, addr, len)
      requires Aligned(addr, c.eraseBlock) && Aligned(len, c.eraseBlock)
      modifies Repr()
      ensures Valid() && (State(), p) == EraseBody(c, old(State()), addr, len)
    {
      hide Bits, Legal, Marked, Aligned, Core.MutationBegin, EraseLoop, InWindow, NoteErase, RamState, SlotBase, Capacity,
           State, Valid;
      Facts();
      StreamNoteErase(addr);
      var r := MutationBegin();
      if r != 0 {
        return Err(E_FLASH, r);
      }
      r := EraseBlocks(addr, len);
      if r != 0 {
        return Err(E_FLASH, r);
      }
      p := [OK];
    }

    method WriteChunk(addr: nat, data: Bytes, kind: WriteClass) returns (r: Byte)
      requires Valid() && |data| <= MAX_WRITE_DATA && (kind.Fold? ==> expectedNext == addr)
      requires addr + |data| < U32_LIMIT
      modifies Repr()
      ensures Valid() && (State(), r) == Core.WriteChunk(c, old(State()), addr, data, kind)
    {
      hide Bits, Legal, Marked, F.Write, F.Verify, FoldChunk, RamState;
      r := flash.Write(addr, data);
      if r == 0 {
        r := flash.Verify(addr, data);
      }
      if r != 0 {
        return r;
      }
      if kind.Fold? {
        StreamFold(addr, data);
      }
    }

    method WriteAccepted(addr: nat, data: Bytes) returns (p: Bytes)
      requires Valid() && |data| <= MAX_WRITE_DATA && InWindow(c, writeSlot, addr, |data|)
      modifies Repr()
      ensures Valid() && (State(), p) == WriteBody(c, old(State()), addr, data)
    {
      hide Bits, Legal, Marked, Core.MutationBegin, InWindow, NoteWrite, RamState, SlotBase, Capacity, Core.WriteChunk,
           State, Valid, Classify;
      WindowFacts(addr, |data|);
      var kind := StreamClassifyWrite(addr, data);
      var r := MutationBegin();
      if r != 0 {
        return Err(E_FLASH, r);
      }
      r := WriteChunk(addr, data, kind);
      if r != 0 {
        return Err(E_FLASH, r);
      }
      p := [OK];
    }

    method DoWrite(pl: Bytes) returns (p: Bytes)
      requires Valid()
      modifies Repr()
      ensures Valid() && (State(), p) == Core.DoWrite(c, old(State()), pl)
    {
      hide Bits, Legal, Marked, Aligned, LeNat, WriteBody, InWindow, RamState, SlotBase, Capacity, State, Valid,
           Core.BitmapCovers;
      Facts();
      if |pl| < 8 || |pl| - 4 > MAX_WRITE_DATA || !Aligned(|pl| - 4, 4) {
        return Err(E_LEN, 0);
      }
      var addr, data := LeNat(pl[0..4]), pl[4..];
      if !Aligned(addr, 4) {
        return Err(E_ADDR, DET_ALIGN);
      }
      var ok := WriteRangeOk(addr, |data|);
      if !ok {
        return Err(E_ADDR, DET_RANGE);
      }
      ok := BitmapCovers(addr, |data|);
      if !ok {
        return Err(E_NOT_ERASED, 0);
      }
      p := WriteAccepted(addr, data);
    }

    method CrcOfRegion(addr: nat, len: nat) returns (crc: bv32)
      requires Valid() && Aligned(len, 4) && InRegion(c, addr, len)
      ensures WellFormed(c, State()) && crc == Crc(Core.View(c, State())[addr..addr + len])
    {
      hide Bits, Xip, Crc;
      crc := flash.XipCrc(addr, len);
    }

    method DoCrc(pl: Bytes) returns (p: Bytes)
      requires Valid()
      ensures (State(), p) == Core.DoCrc(c, State(), pl)
    {
      hide Bits, Legal, Marked, Aligned, LeNat, RamState, State, Valid, Core.View, Crc, PutWord, InRegion;
      Facts();
      if |pl| != 8 {
        return Err(E_LEN, 0);
      }
      var addr, len := LeNat(pl[0..4]), LeNat(pl[4..8]);
      if !Aligned(addr, 4) || !Aligned(len, 4) {
        return Err(E_ADDR, DET_ALIGN);
      }
      var ok := ReadRangeOk(addr, len);
      if !ok {
        return Err(E_ADDR, DET_RANGE);
      }
      var crc := CrcOfRegion(addr, len);
      p := [OK] + PutWord(crc);
    }

    /** What COMMIT may compare the host's claim with, if anything. */
    method Attest(len: nat) returns (a: Option<bv32>)
      requires Valid() && 0 < len <= Capacity(c, writeSlot) && Aligned(len, 4)
      ensures a == Attestation(c, State(), len)
    {
      hide Bits, Xip, Crc, Legal, Aligned, Low32;
      if CrcLive(c) || recState == FromFlash {
        var crc := flash.XipCrc(SlotBase(c, writeSlot), len);
        return Some(crc);
      }
      StreamEnd(len);
      if poisoned || expectedNext != Low32(SlotBase(c, writeSlot) + len) {
        return None;
      }
      a := Some(Final(crcState));
    }

    lemma StreamEnd(len: nat)
      requires Valid() && len <= Capacity(c, writeSlot)
      ensures Low32(SlotBase(c, writeSlot) + len) == SlotBase(c, writeSlot) + len
    {
      SlotLayout(c, writeSlot);
    }

    method RecordBeginWrite()
      requires Valid()
      modifies this
      ensures Valid() && State() == Core.RecordBeginWrite(old(State()))
    {
      hide Bits, Legal, Marked;
      recState, committedLen, committedCrc := Invalid, 0, 0;
    }

    method RecordNoteWriteFailed()
      requires Valid()
      modifies this
      ensures Valid() && State() == RecordWriteFailed(old(State()))
    {
      hide Bits, Legal, Marked;
      disarmed := false;
    }

    method StoreRecord(r: Record) returns (p: Bytes)
      requires Valid() && r.generation < U32_LIMIT && r.imgLen < U32_LIMIT
      modifies Repr()
      ensures Valid() && (State(), p) == Core.StoreRecord(c, old(State()), r)
    {
      hide Bits, Legal, Marked, RamState, Valid, Core.RecordStore, RecordCommitted, RecordWriteFailed;
      StoreFacts();
      RecordBeginWrite();
      StoreFacts();
      var code := RecordStore(writeSlot, r);
      StoreFacts();
      if code != 0 {
        RecordNoteWriteFailed();
        return Err(E_FLASH, code);
      }
      RecordNoteCommitted(r);
      p := [OK];
    }

    lemma StoreFacts()
      requires Valid()
      ensures IsSlot(writeSlot) && writeSlot == RamState().writeSlot && Own() !! flash.Repr() && Legal(c)
    {
    }

    method DoCommit(pl: Bytes) returns (p: Bytes)
      requires Valid()
      modifies Repr()
      ensures Valid() && (State(), p) == Core.DoCommit(c, old(State()), pl)
    {
      hide Bits, Legal, Marked, Aligned, LeNat, LeWord, RamState, State, Valid, Capacity, Core.StoreRecord, Attestation;
      CommitFacts();
      if |pl| != 8 {
        return Err(E_LEN, 0);
      }
      var len, crc := LeNat(pl[0..4]), LeWord(pl[4..8]);
      if len == 0 || !Aligned(len, 4) {
        return Err(E_LEN, 0);
      }
      if len > Capacity(c, writeSlot) {
        return Err(E_ADDR, DET_RANGE);
      }
      if recState == Fresh && committedLen == len && committedCrc == crc {
        return [OK];
      }
      var a := Attest(len);
      if a.None? {
        return Err(E_VERIFY, DET_NONSEQ);
      }
      if a.value != crc {
        return Err(E_VERIFY, DET_MISMATCH);
      }
      var generation := Low32(highestGen + 1);
      if generation == 0xFFFF_FFFF || generation == 0 {
        return Err(E_FLASH, 0);
      }
      p := StoreRecord(Record(generation, len, crc));
    }

    lemma CommitFacts()
      requires Valid()
      ensures Legal(c) && IsSlot(writeSlot) && State().ram.writeSlot == writeSlot
      ensures State().ram.rec == recState && State().ram.highest == highestGen
      ensures State().ram.committedLen == committedLen && State().ram.committedCrc == committedCrc
    {
    }

    method RequestStay()
      requires Valid()
      modifies this`bootRequest
      ensures Valid() && State() == old(State()).(bootRequest := true)
    {
      bootRequest := true;
    }

    method DoBoot(pl: Bytes) returns (p: Bytes, action: Action)
      requires Valid()
      modifies this`bootRequest
      ensures Valid() && (State(), p, action) == Core.DoBoot(c, old(State()), pl)
    {
      hide Bits, Legal, Marked, RecordTrusted, RamState;
      if |pl| != 1 {
        return Err(E_LEN, 0), Continue;
      }
      if pl[0] > 1 {
        return Err(E_ARG, 0), Continue;
      }
      if pl[0] == 0 {
        var ok := BootRecordTrusted();
        if !ok {
          return Err(E_VERIFY, DET_NORECORD), Continue;
        }
        return [OK], ResetDevice;
      }
      RequestStay();
      return [OK], ResetDevice;
    }

    // ---- frames ----------------------------------------------------------

    method Dispatch(cmd: Byte, pl: Bytes) returns (p: Bytes, action: Action)
      requires Valid()
      modifies Repr()
      ensures Valid() && Step(State(), p, action) == Execute(c, old(State()), cmd, pl)
    {
      hide Bits, Legal, Marked, RamState, State, Valid, Core.DoHello, Core.DoErase, Core.DoWrite, Core.DoCrc,
           Core.DoCommit, Core.DoBoot;
      SessionFact();
      action := Continue;
      if cmd == CMD_HELLO {
        p := DoHello(pl);
        return;
      }
      if !IsSessionCommand(cmd) {
        return Err(E_CMD, 0), Continue;
      }
      if !session {
        return Err(E_STATE, 0), Continue;
      }
      if cmd == CMD_BOOT {
        p, action := DoBoot(pl);
      } else if cmd == CMD_ERASE {
        p := DoErase(pl);
      } else if cmd == CMD_WRITE {
        p := DoWrite(pl);
      } else if cmd == CMD_CRC {
        p := DoCrc(pl);
      } else {
        p := DoCommit(pl);
      }
    }

    lemma SessionFact()
      requires Valid()
      ensures State().ram.session == session
    {
    }

    method Respond(r: Received) returns (reply: Reply, action: Action)
      requires Valid() && (r.Request? ==> |r.payload| <= MAX_PAYLOAD)
      modifies Repr()
      ensures Valid()
      ensures r.Request? ==>
        var s := Execute(c, old(State()), r.cmd, r.payload);
        Handled(State(), reply, action) == Handled(s.dev, Answer(Seal(r.cmd | RESP_BIT, r.seqNo, s.payload)), s.action)
      ensures !r.Request? ==> State() == old(State()) && action == Continue
      ensures r.Undecodable? ==> reply == Silent
      ensures r.Corrupt? ==> reply == Answer(Seal(FRAME_ERR, r.seqNo, Err(E_CRC, 0)))
      ensures r.BadFlags? ==> reply == Answer(Seal(r.cmd | RESP_BIT, r.seqNo, Err(E_ARG, 0)))
    {
      hide Bits, Legal, Marked, RamState, State, Valid, Execute, Seal;
      match r
      case Undecodable =>
        return Silent, Continue;
      case Corrupt(q) =>
        return Answer(Seal(FRAME_ERR, q, Err(E_CRC, 0))), Continue;
      case BadFlags(cmd, q) =>
        return Answer(Seal(cmd | RESP_BIT, q, Err(E_ARG, 0))), Continue;
      case Request(cmd, q, pl) =>
        var p;
        p, action := Dispatch(cmd, pl);
        reply := Answer(Seal(cmd | RESP_BIT, q, p));
    }

    lemma WorldInPlace()
      requires Valid()
      ensures Enter(State(), World(flash.plan, flash.stale)) == State()
    {
      hide Bits, Marked;
    }

    /** One received buffer, to completion. The flash operations it may issue meet the fate the
        environment has set. */
    method HandleFrame(buf: Bytes) returns (reply: Reply, action: Action)
      requires Valid()
      modifies Repr()
      ensures Valid()
      ensures Handled(State(), reply, action) ==
        Core.HandleFrame(c, old(State()), buf, World(old(flash.plan), old(flash.stale)))
    {
      hide Bits, Legal, Marked, RamState, State, Valid, Execute, Receive, Seal, Enter;
      WorldInPlace();
      var r := ReceiveFrame(buf);
      reply, action := Respond(r);
    }
  }

  function InitialRam(c: Config, active: Option<nat>, highest: nat): Ram {
    Ram(false, false, true, {}, 0, 0, [], 0, FromFlash, 0, 0, highest, active,
        match active case None => 0 case Some(k) => if k == 0 then 1 else 0)
  }

  /** The frame checks, in order, before any command is looked at. */
  method ReceiveFrame(buf: Bytes) returns (r: Received)
    ensures r == Receive(buf)
    ensures r.Request? ==> |r.payload| <= MAX_PAYLOAD
  {
    hide Crc, LeWord, Digit;
    if |buf| < 8 {
      return Undecodable;
    }
    var n := Digit(buf[2]);
    if n > MAX_PAYLOAD || |buf| < 8 + n {
      return Undecodable;
    }
    var crc := CrcOf(buf[..4 + n]);
    if crc != LeWord(buf[4 + n..8 + n]) {
      return Corrupt(buf[1]);
    }
    if buf[3] != 0 {
      return BadFlags(buf[0], buf[1]);
    }
    r := Request(buf[0], buf[1], buf[4..4 + n]);
  }

  function OtherSlot(slot: nat): (o: nat)
    requires IsSlot(slot)
    ensures o == Other(slot)
  {
    if slot == 0 then 1 else 0
  }

  /** The record-validity checks, in the order the loader makes them. */
  method ParseRecord(b: Bytes, capacity: nat) returns (r: Option<Record>)
    requires |b| == RECORD_SIZE
    ensures r == Parse(b, capacity)
  {
    hide Crc, LeNat, LeWord, PutWord;
    if b[0..4] != MAGIC {
      return None;
    }
    var crc := CrcOf(b[0..28]);
    PutWordOfLeWord(b[28..32]);
    WordRoundTrip(crc);
    if crc != LeWord(b[28..32]) {
      return None;
    }
    var reserved := b[16..28];
    var i := 0;
    while i < 12
      invariant 0 <= i <= 12
      invariant forall j :: 0 <= j < i ==> reserved[j] == 0
    {
      if reserved[i] != 0 {
        assert ZEROS[i] == 0;
        return None;
      }
      i := i + 1;
    }
    assert reserved == ZEROS;
    if LeNat(b[4..8]) == 0 {
      return None;
    }
    var len := LeNat(b[8..12]);
    if len != 0 && len % 4 == 0 && len <= capacity {
      return Some(Record(LeNat(b[4..8]), len, LeWord(b[12..16])));
    }
    return None;
  }

  method CrcOf(data: Bytes) returns (crc: bv32)
    ensures crc == Crc(data)
  {
    crc := TableUpdate(INIT, data);
    crc := Final(crc);
  }

  lemma BootableIs(c: Config, v: Bytes, slot: nat)
    requires Legal(c) && IsSlot(slot) && |v| == c.siliconEnd && Load(c, v, slot).Some?
    ensures Sound(Load(c, v, slot).value, ImageMax(c)) && Aligned(Load(c, v, slot).value.imgLen, 4)
    ensures SlotBase(c, slot) + c.slotSize <= c.siliconEnd
    ensures Bootable(c, v, slot) == ImageValid(c, v, slot, Load(c, v, slot).value)
  {
    hide Parse, ImageValid;
    LoadIsSound(c, v, slot);
  }
}
