/** The device protocol engine as a transition system: one function per state transition and per
    command, over the flash and the RAM state. The imperative engine is proved equal to these. */
module Core {
  import opened Bytes
  import opened Crc32
  import opened Geometry
  import opened Flash
  import opened Record
  import opened Decision

  // ---- protocol constants ------------------------------------------------

  const CMD_HELLO: Byte := 0x01
  const CMD_ERASE: Byte := 0x02
  const CMD_WRITE: Byte := 0x03
  const CMD_CRC: Byte := 0x04
  const CMD_COMMIT: Byte := 0x05
  const CMD_BOOT: Byte := 0x06
  const RESP_BIT: Byte := 0x80
  const FRAME_ERR: Byte := 0xFF

  const OK: Byte := 0x00
  const E_CRC: Byte := 0x01
  const E_LEN: Byte := 0x02
  const E_CMD: Byte := 0x03
  const E_STATE: Byte := 0x04
  const E_ARG: Byte := 0x05
  const E_ADDR: Byte := 0x06
  const E_NOT_ERASED: Byte := 0x07
  const E_FLASH: Byte := 0x08
  const E_VERIFY: Byte := 0x09
  const E_PROTO: Byte := 0x0A

  const DET_RANGE: Byte := 0x01
  const DET_ALIGN: Byte := 0x02
  const DET_MISMATCH: Byte := 0x01
  const DET_NONSEQ: Byte := 0x02
  const DET_NORECORD: Byte := 0x03

  const HELLO_MAGIC: Bytes := [0x4F, 0x42, 0x50, 0x31]
  const PROTO_MAJOR: Byte := 0x00
  const PROTO_MINOR: Byte := 0x02
  const MAX_PAYLOAD: nat := 56
  const MAX_WRITE_DATA: nat := 48
  const SLOT_ID_NONE: Byte := 0xFF
  const GENERATION_CEILING: nat := 0xFFFF_FFFF

  // ---- state -------------------------------------------------------------

  /** What is known about the boot record this power cycle. */
  datatype RecState = FromFlash | Invalid | Fresh

  datatype Ram = Ram(
    // session-scoped
    session: bool,
    disarmed: bool,          // the write slot's record was invalidated this session
    running: bool,           // the sequential run is unbroken
    bitmap: set<nat>,        // blocks of the write slot erased this session
    expected: nat,           // next address of the run
    lastAddr: nat,
    lastData: Bytes,         // the last chunk folded into the run
    crcState: bv32,
    // power-cycle-scoped
    rec: RecState,
    committedLen: nat,
    committedCrc: bv32,
    highest: nat,            // highest generation seen at reset or committed since
    active: Option<nat>,
    writeSlot: nat)

  datatype Dev = Dev(flash: Flash, ram: Ram, bootRequest: bool)

  predicate WellFormed(c: Config, d: Dev) {
    && Legal(c) && |d.flash.cell| == |d.flash.prog| == c.siliconEnd
    && IsSlot(d.ram.writeSlot)
    && (d.ram.active.Some? ==> IsSlot(d.ram.active.value))
  }

  function WriteBase(c: Config, d: Dev): nat { SlotBase(c, d.ram.writeSlot) }

  function View(c: Config, d: Dev): (v: Bytes)
    requires WellFormed(c, d)
    ensures |v| == c.siliconEnd
  {
    Xip(c, d.flash)
  }

  /** State at entry of the main loop: everything derived once, from a coherent view. */
  function PowerUp(c: Config, f: Flash, bootRequest: bool): (d: Dev)
    requires Legal(c) && |f.cell| == |f.prog| == c.siliconEnd
    ensures WellFormed(c, d)
  {
    var v := Xip(c, Reset(f));
    var active := Select(c, v);
    Dev(Reset(f),
        Ram(false, false, true, {}, 0, 0, [], 0, FromFlash, 0, 0, Highest(c, v), active,
            match active case None => 0 case Some(k) => if k == 0 then 1 else 0),
        bootRequest)
  }

  // ---- ranges ------------------------------------------------------------

  predicate InRegion(c: Config, addr: nat, len: nat) {
    c.appStart <= addr && len != 0 && addr + len <= c.siliconEnd
  }

  predicate InWindow(c: Config, slot: nat, addr: nat, len: nat)
    requires Legal(c)
  {
    && Capacity(c, slot) != 0 && len != 0
    && SlotBase(c, slot) <= addr && addr + len <= SlotBase(c, slot) + Capacity(c, slot)
  }

  // ---- transitions -------------------------------------------------------

  function SessionOpen(c: Config, d: Dev): Dev {
    d.(ram := d.ram.(session := true, disarmed := false, running := true, bitmap := {},
                     expected := WriteBase(c, d), lastAddr := 0, lastData := [], crcState := INIT))
  }

  /** Disarm before mutation. */
  function MutationBegin(c: Config, d: Dev): (Dev, Byte)
    requires WellFormed(c, d)
  {
    if d.ram.disarmed then (d, 0)
    else
      var (f, r) := Erase(c, d.flash, RecordAddr(c, d.ram.writeSlot));
      (Dev(f, d.ram.(rec := Invalid, committedLen := 0, committedCrc := 0, disarmed := r == 0), d.bootRequest), r)
  }

  function NoteErase(d: Dev, addr: nat): Dev {
    if addr < d.ram.expected then d.(ram := d.ram.(running := false)) else d
  }

  datatype WriteClass = Fold | Retry | Poison

  function Classify(d: Dev, addr: nat, data: Bytes): WriteClass {
    if addr == d.ram.expected then Fold
    else if addr == d.ram.lastAddr && |data| == |d.ram.lastData| && addr + |data| == d.ram.expected
         && data == d.ram.lastData then Retry
    else Poison
  }

  function NoteWrite(d: Dev, addr: nat, data: Bytes): Dev {
    if Classify(d, addr, data).Poison? then d.(ram := d.ram.(running := false)) else d
  }

  function FoldChunk(d: Dev, addr: nat, data: Bytes): Dev {
    d.(ram := d.ram.(crcState := Update(d.ram.crcState, data), expected := d.ram.expected + |data|,
                     lastAddr := addr, lastData := data))
  }

  function RelBlock(c: Config, d: Dev, addr: nat): nat
    requires c.eraseBlock > 0
  {
    if addr < WriteBase(c, d) then 0 else (addr - WriteBase(c, d)) / c.eraseBlock
  }

  function BitmapMark(c: Config, d: Dev, addr: nat): Dev
    requires c.eraseBlock > 0
  {
    d.(ram := d.ram.(bitmap := d.ram.bitmap + {RelBlock(c, d, addr)}))
  }

  predicate BitmapCovers(c: Config, d: Dev, addr: nat, len: nat)
    requires c.eraseBlock > 0 && len > 0
  {
    BlockRange(RelBlock(c, d, addr), RelBlock(c, d, addr + len - 1)) <= d.ram.bitmap
  }

  predicate StreamCovers(c: Config, d: Dev, len: nat) {
    d.ram.running && d.ram.expected == WriteBase(c, d) + len
  }

  predicate AttestViaXip(c: Config, d: Dev) { CrcLive(c) || d.ram.rec == FromFlash }

  function RecordBeginWrite(d: Dev): Dev {
    d.(ram := d.ram.(rec := Invalid, committedLen := 0, committedCrc := 0))
  }

  function RecordWriteFailed(d: Dev): Dev { d.(ram := d.ram.(disarmed := false)) }

  /** The slot just committed becomes active; everything session-scoped is re-armed for the other. */
  function RecordCommitted(c: Config, d: Dev, r: Record): Dev
    requires IsSlot(d.ram.writeSlot)
  {
    var w := Other(d.ram.writeSlot);
    d.(ram := d.ram.(rec := Fresh, committedLen := r.imgLen, committedCrc := r.imgCrc, highest := r.generation,
                     active := Some(d.ram.writeSlot), writeSlot := w, disarmed := false, bitmap := {},
                     running := true, expected := SlotBase(c, w), crcState := INIT,
                     lastAddr := 0, lastData := []))
  }

  /** Erase the record's block, write the record, read it back. */
  function RecordStore(c: Config, f: Flash, slot: nat, r: Record): (Flash, Byte)
    requires Legal(c) && IsSlot(slot)
    requires r.generation < U32_LIMIT && r.imgLen < U32_LIMIT
  {
    var a := RecordAddr(c, slot);
    var (f1, r1) := Erase(c, f, a);
    if r1 != 0 then (f1, 1)
    else
      var (f2, r2) := Write(c, f1, a, Encode(r));
      if r2 != 0 then (f2, 1) else (f2, Verify(f2, a, Encode(r)))
  }

  /** Will the reset this answers for land in an application? */
  predicate RecordTrusted(c: Config, d: Dev)
    requires WellFormed(c, d)
  {
    match d.ram.rec
    case Fresh => true
    case FromFlash => Select(c, View(c, d)).Some?
    case Invalid => d.ram.active.Some? && Bootable(c, View(c, d), d.ram.active.value)
  }

  // ---- commands: each returns the new state and the response payload -----

  function Err(status: Byte, detail: Byte): Bytes { [status, detail] }

  function SlotId(k: nat): Byte { if k == 0 then 0 else 1 }

  function HelloPayload(c: Config, d: Dev): (p: Bytes)
    requires WellFormed(c, d)
    ensures |p| == 48
  {
    SlotLayout(c, d.ram.writeSlot);
    [OK, PROTO_MAJOR, PROTO_MINOR, c.chipRev, 0x0B, 0x00, c.family, c.transport]
    + PutNat(c.appStart) + PutNat(c.siliconEnd) + PutNat(c.eraseBlock)
    + [0x00, 0x01, 4, 48] + PutNat(c.features) + c.uid
    + [2, match d.ram.active case None => SLOT_ID_NONE case Some(k) => SlotId(k), SlotId(d.ram.writeSlot), 0]
    + PutNat(WriteBase(c, d)) + PutNat(Capacity(c, d.ram.writeSlot))
  }

  function DoHello(c: Config, d: Dev, pl: Bytes): (r: (Dev, Bytes))
    requires WellFormed(c, d)
    ensures 1 <= |r.1| <= MAX_PAYLOAD
  {
    if |pl| != 6 then (d, Err(E_LEN, 0))
    else if pl[0..4] != HELLO_MAGIC then (d, Err(E_ARG, 0))
    else if pl[4] != PROTO_MAJOR || pl[5] != PROTO_MINOR then (d, Err(E_PROTO, 0))
    else
      var d1 := SessionOpen(c, d);
      (d1, HelloPayload(c, d1))
  }

  function EraseLoop(c: Config, d: Dev, a: nat, end: nat): (Dev, Byte)
    requires c.eraseBlock > 0
    decreases if a < end then end - a else 0
  {
    if a >= end then (d, 0)
    else
      var (f, r) := Erase(c, d.flash, a);
      if r != 0 then (d.(flash := f), r)
      else EraseLoop(c, BitmapMark(c, d.(flash := f), a), a + c.eraseBlock, end)
  }

  /** An ERASE that passed its argument checks. */
  function EraseBody(c: Config, d: Dev, addr: nat, len: nat): (r: (Dev, Bytes))
    requires WellFormed(c, d)
    ensures 1 <= |r.1| <= MAX_PAYLOAD
  {
    var (d1, r1) := MutationBegin(c, NoteErase(d, addr));
    if r1 != 0 then (d1, Err(E_FLASH, r1))
    else
      var (d2, r2) := EraseLoop(c, d1, addr, addr + len);
      if r2 != 0 then (d2, Err(E_FLASH, r2)) else (d2, [OK])
  }

  function DoErase(c: Config, d: Dev, pl: Bytes): (r: (Dev, Bytes))
    requires WellFormed(c, d)
    ensures 1 <= |r.1| <= MAX_PAYLOAD
  {
    if |pl| != 8 then (d, Err(E_LEN, 0))
    else
      var addr, len := LeNat(pl[0..4]), LeNat(pl[4..8]);
      if !Aligned(addr, c.eraseBlock) || !Aligned(len, c.eraseBlock) then (d, Err(E_ADDR, DET_ALIGN))
      else if !InWindow(c, d.ram.writeSlot, addr, len) then (d, Err(E_ADDR, DET_RANGE))
      else EraseBody(c, d, addr, len)
  }

  /** Program one chunk and read it back, folding it when it continues the run. */
  function WriteChunk(c: Config, d: Dev, addr: nat, data: Bytes, kind: WriteClass): (Dev, Byte) {
    var (f, r) := Write(c, d.flash, addr, data);
    var d1 := d.(flash := f);
    if r != 0 then (d1, r)
    else if Verify(f, addr, data) != 0 then (d1, Verify(f, addr, data))
    else (if kind.Fold? then FoldChunk(d1, addr, data) else d1, 0)
  }

  /** A WRITE that passed its argument checks. */
  function WriteBody(c: Config, d: Dev, addr: nat, data: Bytes): (r: (Dev, Bytes))
    requires WellFormed(c, d)
    ensures 1 <= |r.1| <= MAX_PAYLOAD
  {
    var (d1, r1) := MutationBegin(c, NoteWrite(d, addr, data));
    if r1 != 0 then (d1, Err(E_FLASH, r1))
    else
      var (d2, r2) := WriteChunk(c, d1, addr, data, Classify(d, addr, data));
      if r2 != 0 then (d2, Err(E_FLASH, r2)) else (d2, [OK])
  }

  function DoWrite(c: Config, d: Dev, pl: Bytes): (r: (Dev, Bytes))
    requires WellFormed(c, d)
    ensures 1 <= |r.1| <= MAX_PAYLOAD
  {
    if |pl| < 8 || |pl| - 4 > MAX_WRITE_DATA || !Aligned(|pl| - 4, 4) then (d, Err(E_LEN, 0))
    else
      var addr, data := LeNat(pl[0..4]), pl[4..];
      if !Aligned(addr, 4) then (d, Err(E_ADDR, DET_ALIGN))
      else if !InWindow(c, d.ram.writeSlot, addr, |data|) then (d, Err(E_ADDR, DET_RANGE))
      else if !BitmapCovers(c, d, addr, |data|) then (d, Err(E_NOT_ERASED, 0))
      else WriteBody(c, d, addr, data)
  }

  function DoCrc(c: Config, d: Dev, pl: Bytes): (r: (Dev, Bytes))
    requires WellFormed(c, d)
    ensures 1 <= |r.1| <= MAX_PAYLOAD
  {
    if |pl| != 8 then (d, Err(E_LEN, 0))
    else
      var addr, len := LeNat(pl[0..4]), LeNat(pl[4..8]);
      if !Aligned(addr, 4) || !Aligned(len, 4) then (d, Err(E_ADDR, DET_ALIGN))
      else if !InRegion(c, addr, len) then (d, Err(E_ADDR, DET_RANGE))
      else (d, [OK] + PutWord(Crc(View(c, d)[addr..addr + len])))
  }

  /** The CRC COMMIT compares against the host's claim, if it can vouch for one at all. */
  function Attestation(c: Config, d: Dev, len: nat): Option<bv32>
    requires WellFormed(c, d) && len <= Capacity(c, d.ram.writeSlot)
  {
    if AttestViaXip(c, d) then
      if len == 0 then None else Some(Crc(Image(c, View(c, d), d.ram.writeSlot, len)))
    else if StreamCovers(c, d, len) then Some(Final(d.ram.crcState))
    else None
  }

  predicate CommitReplay(d: Dev, len: nat, crc: bv32) {
    d.ram.rec == Fresh && d.ram.committedLen == len && d.ram.committedCrc == crc
  }

  /** Store the record of an attested image. */
  function StoreRecord(c: Config, d: Dev, r: Record): (s: (Dev, Bytes))
    requires WellFormed(c, d)
    requires r.generation < U32_LIMIT && r.imgLen < U32_LIMIT
    ensures 1 <= |s.1| <= MAX_PAYLOAD
  {
    var (f, code) := RecordStore(c, d.flash, d.ram.writeSlot, r);
    var d1 := RecordBeginWrite(d).(flash := f);
    if code != 0 then (RecordWriteFailed(d1), Err(E_FLASH, code))
    else (RecordCommitted(c, d1, r), [OK])
  }

  function DoCommit(c: Config, d: Dev, pl: Bytes): (r: (Dev, Bytes))
    requires WellFormed(c, d)
    ensures 1 <= |r.1| <= MAX_PAYLOAD
  {
    if |pl| != 8 then (d, Err(E_LEN, 0))
    else
      var len, crc := LeNat(pl[0..4]), LeWord(pl[4..8]);
      if len == 0 || !Aligned(len, 4) then (d, Err(E_LEN, 0))
      else if len > Capacity(c, d.ram.writeSlot) then (d, Err(E_ADDR, DET_RANGE))
      else if CommitReplay(d, len, crc) then (d, [OK])
      else match Attestation(c, d, len)
        case None => (d, Err(E_VERIFY, DET_NONSEQ))
        case Some(a) =>
          var generation := (d.ram.highest + 1) % U32_LIMIT;
          if a != crc then (d, Err(E_VERIFY, DET_MISMATCH))
          else if generation == GENERATION_CEILING || generation == 0 then (d, Err(E_FLASH, 0))
          else StoreRecord(c, d, Record(generation, len, crc))
  }

  datatype Action = Continue | ResetDevice

  function DoBoot(c: Config, d: Dev, pl: Bytes): (r: (Dev, Bytes, Action))
    requires WellFormed(c, d)
    ensures 1 <= |r.1| <= MAX_PAYLOAD
  {
    if |pl| != 1 then (d, Err(E_LEN, 0), Continue)
    else if pl[0] > 1 then (d, Err(E_ARG, 0), Continue)
    else if pl[0] == 0 then
      if !RecordTrusted(c, d) then (d, Err(E_VERIFY, DET_NORECORD), Continue)
      else (d, [OK], ResetDevice)
    else (d.(bootRequest := true), [OK], ResetDevice)
  }

  // ---- frames ------------------------------------------------------------

  function Seal(cmd: Byte, seqNo: Byte, payload: Bytes): (frame: Bytes)
    requires |payload| <= MAX_PAYLOAD
    ensures |frame| == 8 + |payload|
  {
    var body := [cmd, seqNo, ByteOf(|payload|), 0] + payload;
    body + PutWord(Crc(body))
  }

  /** What a received buffer is, before any command is looked at. */
  datatype Received = Undecodable | Corrupt(seqNo: Byte) | BadFlags(cmd: Byte, seqNo: Byte)
                    | Request(cmd: Byte, seqNo: Byte, payload: Bytes)

  function Receive(buf: Bytes): Received {
    if |buf| < 8 then Undecodable
    else
      var n := Digit(buf[2]);
      if n > MAX_PAYLOAD || |buf| < 8 + n then Undecodable
      else if Crc(buf[..4 + n]) != LeWord(buf[4 + n..8 + n]) then Corrupt(buf[1])
      else if buf[3] != 0 then BadFlags(buf[0], buf[1])
      else Request(buf[0], buf[1], buf[4..4 + n])
  }

  predicate IsSessionCommand(cmd: Byte) {
    cmd == CMD_BOOT || cmd == CMD_ERASE || cmd == CMD_WRITE || cmd == CMD_CRC || cmd == CMD_COMMIT
  }

  datatype Step = Step(dev: Dev, payload: Bytes, action: Action)

  /** One decoded command. */
  function Execute(c: Config, d: Dev, cmd: Byte, pl: Bytes): (s: Step)
    requires WellFormed(c, d)
    ensures 1 <= |s.payload| <= MAX_PAYLOAD
  {
    if cmd == CMD_HELLO then
      var (d1, p) := DoHello(c, d, pl); Step(d1, p, Continue)
    else if !IsSessionCommand(cmd) then Step(d, Err(E_CMD, 0), Continue)
    else if !d.ram.session then Step(d, Err(E_STATE, 0), Continue)
    else if cmd == CMD_BOOT then
      var (d1, p, a) := DoBoot(c, d, pl); Step(d1, p, a)
    else if cmd == CMD_ERASE then
      var (d1, p) := DoErase(c, d, pl); Step(d1, p, Continue)
    else if cmd == CMD_WRITE then
      var (d1, p) := DoWrite(c, d, pl); Step(d1, p, Continue)
    else if cmd == CMD_CRC then
      var (d1, p) := DoCrc(c, d, pl); Step(d1, p, Continue)
    else
      var (d1, p) := DoCommit(c, d, pl); Step(d1, p, Continue)
  }

  /** What the outside world decides about one frame: the fate of its flash operations and what the
      memory-mapped view serves for dirty blocks meanwhile. */
  datatype World = World(plan: seq<Outcome>, stale: nat -> Byte)

  function Enter(d: Dev, w: World): Dev { d.(flash := d.flash.(plan := w.plan, stale := w.stale)) }

  datatype Reply = Silent | Answer(frame: Bytes)

  datatype Handled = Handled(dev: Dev, reply: Reply, action: Action)

  function HandleFrame(c: Config, d: Dev, buf: Bytes, w: World): Handled
    requires WellFormed(c, d)
  {
    match Receive(buf)
    case Undecodable => Handled(d, Silent, Continue)
    case Corrupt(q) => Handled(d, Answer(Seal(FRAME_ERR, q, Err(E_CRC, 0))), Continue)
    case BadFlags(cmd, q) => Handled(d, Answer(Seal(cmd | RESP_BIT, q, Err(E_ARG, 0))), Continue)
    case Request(cmd, q, pl) =>
      var s := Execute(c, Enter(d, w), cmd, pl);
      Handled(s.dev, Answer(Seal(cmd | RESP_BIT, q, s.payload)), s.action)
  }
}
