/** The controller driver over a serial NOR die: commands and addresses clocked out a byte at a time,
    page programs that wrap inside their page, a write-enable latch, and bounded status polling. */
module FlashDriver {
  import opened Bytes
  import opened Flash
  import G = Geometry

  const WRITE_ENABLE: Byte := 0x06
  const PAGE_PROGRAM: Byte := 0x02
  const READ_STATUS: Byte := 0x05
  const FAST_READ: Byte := 0x0B
  const RESUME: Byte := 0xFF
  const PAGE: nat := 256
  const ADDRESS_SPACE: nat := 0x100_0000

  const ERASE_PARAM: nat := 0x51
  const ERASE_TIMEOUT: nat := 0x52
  const WRITE_PARAM: nat := 0x61
  const WRITE_TIMEOUT: nat := 0x62
  const VERIFY_PARAM: nat := 0x71
  const VERIFY_MISMATCH: nat := 0x72

  // ---- what a whole operation should do ----------------------------------

  /** Clear the bits of `data` from the bytes at `a` onwards. */
  function Linear(m: Bytes, a: nat, data: Bytes): (r: Bytes)
    ensures |r| == |m|
  {
    seq(|m|, i requires 0 <= i < |m| => if a <= i < a + |data| then And(m[i], data[i - a]) else m[i])
  }

  lemma LinearConcat(m: Bytes, a: nat, x: Bytes, y: Bytes)
    ensures Linear(Linear(m, a, x), a + |x|, y) == Linear(m, a, x + y)
  {
    hide And;
  }

  /** A driver call that programs a prefix of the buffer is one of the outcomes the flash model allows a
      write: the first so many words land. */
  lemma LinearIsProgram(m: Bytes, a: nat, data: Bytes, n: nat)
    requires n <= |data| && n % 4 == 0
    ensures Linear(m, a, data[..n]) == Program(m, m, a, data, Words(Outcome(n / 4, 0), |data|))
  {
    hide And;
  }

  // ---- what the die does -------------------------------------------------

  /** The address a program's byte number `k` goes to: it wraps within the page it started in. */
  function Wrapped(a: nat, k: nat): nat { a / PAGE * PAGE + (a + k) % PAGE }

  lemma WrappedInPage(a: nat, k: nat, size: nat)
    requires size % PAGE == 0 && a < size
    ensures Wrapped(a, k) < size
  {
    assert a / PAGE < size / PAGE;
  }

  function PageProgram(m: Bytes, a: nat, data: Bytes): (r: Bytes)
    requires |m| % PAGE == 0 && a < |m|
    ensures |r| == |m|
    decreases |data|
  {
    if |data| == 0 then m
    else
      var k := |data| - 1;
      var front := PageProgram(m, a, data[..k]);
      WrappedInPage(a, k, |m|);
      front[Wrapped(a, k) := And(front[Wrapped(a, k)], data[k])]
  }

  lemma NoWrap(a: nat, k: nat)
    requires a % PAGE + k < PAGE
    ensures Wrapped(a, k) == a + k
  {
  }

  /** A program that does not run past the end of its page is linear. */
  lemma {:induction false} PageIsLinear(m: Bytes, a: nat, data: Bytes)
    requires |m| % PAGE == 0 && a < |m| && a % PAGE + |data| <= PAGE
    ensures PageProgram(m, a, data) == Linear(m, a, data)
    decreases |data|
  {
    hide And, Wrapped, Linear;
    if |data| == 0 {
      LinearEmpty(m, a);
    } else {
      var k := |data| - 1;
      PageIsLinear(m, a, data[..k]);
      NoWrap(a, k);
      WrappedInPage(a, k, |m|);
      LinearSnoc(m, a, data);
    }
  }

  lemma LinearEmpty(m: Bytes, a: nat)
    ensures Linear(m, a, []) == m
  {
  }

  lemma LinearSnoc(m: Bytes, a: nat, data: Bytes)
    requires |data| > 0 && a + |data| <= |m|
    ensures var k := |data| - 1; var front := Linear(m, a, data[..k]);
      Linear(m, a, data) == front[a + k := And(front[a + k], data[k])]
  {
    hide And;
  }

  function Address(sent: Bytes): (a: nat)
    requires |sent| >= 3
    ensures a < ADDRESS_SPACE
  {
    0x1_0000 * Digit(sent[0]) + 0x100 * Digit(sent[1]) + Digit(sent[2])
  }

  class SpiNor {
    const mem: array<Byte>
    const eraseOp: Byte
    const eraseBlock: nat
    const waitIters: nat         // status polls the driver allows an operation
    var gate: bool               // the controller is open
    var wel: bool                // write-enable latch
    var busy: nat                // status polls until the running operation is over
    const durations: nat -> nat  // status polls the die's n-th operation takes
    var started: nat             // operations the die has begun
    const bus: nat -> Byte       // what is clocked in while a busy die does not answer
    var op: Option<Byte>         // command being clocked
    var sent: Bytes              // bytes clocked out after it
    var clocked: nat             // bytes clocked in after it

    ghost predicate Valid()
      reads this
    {
      && mem.Length % PAGE == 0 && mem.Length <= ADDRESS_SPACE
      && 0 < eraseBlock && waitIters > 0
      && (eraseOp == 0x20 || eraseOp == 0x81)
    }

    /** Gate closed, no command, latch clear: how every driver call finds and leaves the part. After a
        timeout the die may still be busy. */
    ghost predicate Closed()
      reads this
    {
      Valid() && !gate && !wel && op == None
    }

    /** And the die has finished. */
    ghost predicate Quiet()
      reads this
    {
      Closed() && busy == 0
    }

    /** How many polls the next mutating command's wait needs: the die first finishes what it is doing. */
    ghost function FirstPolls(): nat
      reads this
    {
      if busy == 0 then durations(started) else busy
    }

    constructor (content: Bytes, eraseOp: Byte, eraseBlock: nat, waitIters: nat, durations: nat -> nat, bus: nat -> Byte)
      requires |content| % PAGE == 0 && |content| <= ADDRESS_SPACE && 0 < eraseBlock && waitIters > 0
      requires eraseOp == 0x20 || eraseOp == 0x81
      ensures Quiet() && fresh(mem) && mem[..] == content && started == 0
      ensures this.eraseBlock == eraseBlock && this.waitIters == waitIters && this.durations == durations
    {
      mem := new Byte[|content|](i requires 0 <= i < |content| => content[i]);
      this.eraseOp, this.eraseBlock, this.waitIters, this.durations := eraseOp, eraseBlock, waitIters, durations;
      this.bus := bus;
      gate, wel, busy, started, op, sent, clocked := false, false, 0, 0, None, [], 0;
    }

    /** The bytes sent name a whole block. */
    predicate ErasableAt()
      reads this
    {
      |sent| == 3 && eraseBlock > 0 && Address(sent) % eraseBlock == 0 && Address(sent) + eraseBlock <= mem.Length
    }

    /** Start a command. */
    method Begin(cmd: Byte)
      requires Valid() && gate && op == None
      modifies this`op, this`sent, this`clocked
      ensures Valid() && op == Some(cmd) && sent == [] && clocked == 0
    {
      op, sent, clocked := Some(cmd), [], 0;
    }

    method Out(v: Byte)
      requires Valid() && gate && op.Some?
      modifies this`sent
      ensures Valid() && sent == old(sent) + [v]
    {
      sent := sent + [v];
    }

    /** Clock one byte in: the status register, or the next byte of a fast read. */
    method In() returns (v: Byte)
      requires Valid() && gate && op.Some?
      modifies this`clocked, this`busy
      ensures Valid() && clocked == old(clocked) + 1
      ensures op == Some(READ_STATUS) && old(clocked) > 0 ==>
        (v == 1 <==> old(busy) > 0) && (v == 0 <==> old(busy) == 0)
        && busy == if old(busy) > 0 then old(busy) - 1 else 0
      ensures !(op == Some(READ_STATUS) && old(clocked) > 0) ==> busy == old(busy)
      ensures op == Some(FAST_READ) && |sent| == 5 && Address(sent) + old(clocked) < mem.Length ==>
        v == if busy == 0 then mem[Address(sent) + old(clocked)] else bus(old(clocked))
    {
      v := 0;
      if op == Some(READ_STATUS) {
        if clocked > 0 && busy > 0 {
          v, busy := 1, busy - 1;
        }
      } else if busy > 0 {
        v := bus(clocked);
      } else if op == Some(FAST_READ) && |sent| == 5 && Address(sent) + clocked < mem.Length {
        v := mem[Address(sent) + clocked];
      }
      clocked := clocked + 1;
    }

    /** Deselecting the die is what makes it act: latch, program, or erase; without the latch it ignores
        a mutation, and while busy it ignores everything but status reads. */
    method End()
      requires Valid() && gate && op.Some?
      modifies this`op, this`wel, this`busy, this`started, mem
      ensures Valid() && op == None
      ensures old(busy) > 0 ==>
        wel == old(wel) && busy == old(busy) && mem[..] == old(mem[..]) && started == old(started)
      ensures old(busy) == 0 && old(op) == Some(WRITE_ENABLE) ==>
        wel && busy == 0 && mem[..] == old(mem[..]) && started == old(started)
      ensures old(busy) == 0 && old(wel) && old(op) == Some(PAGE_PROGRAM) && |sent| > 3 && Address(sent) < mem.Length ==>
        !wel && mem[..] == PageProgram(old(mem[..]), Address(sent), sent[3..])
        && busy == durations(old(started)) && started == old(started) + 1
      ensures old(busy) == 0 && old(wel) && old(op) == Some(eraseOp) && ErasableAt() ==>
        !wel && mem[..] == EraseProg(old(mem[..]), Address(sent), eraseBlock)
        && busy == durations(old(started)) && started == old(started) + 1
      ensures old(op) == Some(READ_STATUS) || old(op) == Some(FAST_READ) || old(op) == Some(RESUME) ==>
        wel == old(wel) && busy == old(busy) && mem[..] == old(mem[..]) && started == old(started)
    {
      var cmd := op.value;
      op := None;
      if busy > 0 || cmd == READ_STATUS || cmd == FAST_READ {
        return;
      }
      if cmd == WRITE_ENABLE {
        wel := true;
      } else if wel && cmd == PAGE_PROGRAM && |sent| > 3 && Address(sent) < mem.Length {
        wel := false;
        ProgramPage(Address(sent), sent[3..]);
        StartOperation();
      } else if wel && cmd == eraseOp && ErasableAt() {
        wel := false;
        var a := Address(sent);
        forall i | a <= i < a + eraseBlock {
          mem[i] := 0xFF;
        }
        StartOperation();
      }
    }

    method StartOperation()
      requires Valid()
      modifies this`busy, this`started
      ensures Valid() && busy == durations(old(started)) && started == old(started) + 1
    {
      busy, started := durations(started), started + 1;
    }

    method ProgramPage(a: nat, data: Bytes)
      requires Valid() && a < mem.Length
      modifies mem
      ensures mem[..] == PageProgram(old(mem[..]), a, data)
    {
      hide And, Wrapped;
      var k := 0;
      assert data[..0] == [];
      while k < |data|
        invariant 0 <= k <= |data|
        invariant mem[..] == PageProgram(old(mem[..]), a, data[..k])
      {
        WrappedInPage(a, k, mem.Length);
        assert data[..k + 1][..k] == data[..k];
        mem[Wrapped(a, k)] := And(mem[Wrapped(a, k)], data[k]);
        k := k + 1;
      }
      assert data[..k] == data;
    }
  }

  // ---- the driver --------------------------------------------------------

  /** Fast read and unique-ID read take two dummy bytes and no write-enable. */
  predicate ReadClass(cmd: Byte) { cmd & 0xBF == 0x0B }

  function TopByte(a: nat): Byte { ByteOf(a / 0x1_0000 % 0x100) }

  function ShiftUp(a: nat): nat { Low32(0x100 * a) }

  function AddressBytes(a: nat): (b: Bytes)
    ensures |b| == 3
  {
    [TopByte(a), TopByte(ShiftUp(a)), TopByte(ShiftUp(ShiftUp(a)))]
  }

  lemma TopOf(v: nat, high: nat, t: nat, low: nat)
    requires t < 0x100 && low < 0x1_0000 && v == 0x1_0000 * (0x100 * high + t) + low
    ensures v / 0x1_0000 % 0x100 == t
  {
    assert v / 0x1_0000 == 0x100 * high + t;
  }

  lemma ShiftsOut(x: nat, y: nat, z: nat)
    requires x < 0x100 && y < 0x100 && z < 0x100
    ensures ShiftUp(0x1_0000 * x + 0x100 * y + z) == 0x100_0000 * x + 0x1_0000 * y + 0x100 * z
    ensures ShiftUp(0x100_0000 * x + 0x1_0000 * y + 0x100 * z) == 0x100_0000 * y + 0x1_0000 * z
  {
    var w := 0x100_0000 * y + 0x1_0000 * z;
    assert 0x100 * (0x100_0000 * x + 0x1_0000 * y + 0x100 * z) == U32_LIMIT * x + w;
  }

  /** Three bytes clocked from the top carry a 24-bit address. */
  lemma AddressCarried(a: nat, rest: Bytes)
    requires a < ADDRESS_SPACE
    ensures Address(AddressBytes(a) + rest) == a
  {
    hide Digit, Low32, ShiftUp;
    var x, y, z := a / 0x1_0000, a / 0x100 % 0x100, a % 0x100;
    assert a == 0x1_0000 * x + 0x100 * y + z;
    ShiftsOut(x, y, z);
    TopOf(a, 0, x, 0x100 * y + z);
    TopOf(ShiftUp(a), x, y, 0x100 * z);
    TopOf(ShiftUp(ShiftUp(a)), y, z, 0);
    ByteOfNat(x);
    ByteOfNat(y);
    ByteOfNat(z);
  }

  /** Opcode and address, after a write-enable if the opcode mutates. A busy die ignores the write-enable. */
  method CmdAddr(nor: SpiNor, cmd: Byte, addr: nat)
    requires nor.Valid() && nor.gate && nor.op == None && addr < ADDRESS_SPACE
    modifies nor, nor.mem
    ensures nor.Valid() && nor.gate && nor.op == Some(cmd) && nor.busy == old(nor.busy) && nor.clocked == 0
    ensures nor.mem[..] == old(nor.mem[..]) && nor.started == old(nor.started)
    ensures ReadClass(cmd) ==> |nor.sent| == 5 && nor.sent[..3] == AddressBytes(addr) && nor.wel == old(nor.wel)
    ensures !ReadClass(cmd) ==>
      nor.sent == AddressBytes(addr) && nor.wel == if nor.busy == 0 then true else old(nor.wel)
  {
    hide TopByte, ShiftUp, PageProgram, EraseProg;
    var n := 5;
    if !ReadClass(cmd) {
      nor.Begin(WRITE_ENABLE);
      nor.End();
      n := 3;
    }
    nor.Begin(cmd);
    var a := addr;
    nor.Out(TopByte(a));
    a := ShiftUp(a);
    nor.Out(TopByte(a));
    a := ShiftUp(a);
    nor.Out(TopByte(a));
    a := ShiftUp(a);
    n := n - 3;
    assert nor.sent == AddressBytes(addr);
    while n > 0
      invariant 0 <= n && nor.Valid()
      invariant |nor.sent| + n == if ReadClass(cmd) then 5 else 3
      invariant |nor.sent| >= 3 && nor.sent[..3] == AddressBytes(addr)
      modifies nor`sent
    {
      nor.Out(TopByte(a));
      a := ShiftUp(a);
      n := n - 1;
    }
    assert !ReadClass(cmd) ==> nor.sent[..3] == nor.sent;
  }

  method Open(nor: SpiNor)
    requires nor.Closed()
    modifies nor, nor.mem
    ensures nor.Valid() && nor.gate && nor.op == None && !nor.wel
    ensures nor.busy == old(nor.busy) && nor.started == old(nor.started) && nor.mem[..] == old(nor.mem[..])
  {
    nor.gate := true;
    nor.Begin(RESUME);
    nor.End();
  }

  method Close(nor: SpiNor)
    requires nor.Valid()
    modifies nor`gate
    ensures nor.Valid() && !nor.gate
  {
    nor.gate := false;
  }

  /** Deselect, then poll until the die is idle or the bound is reached. A die that was idle has acted; one
      that was busy has ignored the command, and what is polled is its earlier operation. */
  method Wait(nor: SpiNor) returns (ok: bool)
    requires nor.Valid() && nor.gate && nor.wel == (nor.busy == 0)
    requires (nor.op == Some(PAGE_PROGRAM) && |nor.sent| > 3 && Address(nor.sent) < nor.mem.Length)
      || (nor.op == Some(nor.eraseOp) && nor.ErasableAt())
    modifies nor, nor.mem
    ensures nor.Valid() && nor.gate && nor.op == None && !nor.wel
    ensures ok <==> old(nor.FirstPolls()) < nor.waitIters
    ensures nor.busy == if ok then 0 else old(nor.FirstPolls()) - nor.waitIters
    ensures old(nor.busy) > 0 ==> nor.mem[..] == old(nor.mem[..])
    ensures old(nor.busy) == 0 && old(nor.op) == Some(PAGE_PROGRAM) ==>
      nor.mem[..] == PageProgram(old(nor.mem[..]), Address(old(nor.sent)), old(nor.sent)[3..])
    ensures old(nor.busy) == 0 && old(nor.op) == Some(nor.eraseOp) ==>
      nor.mem[..] == EraseProg(old(nor.mem[..]), Address(old(nor.sent)), nor.eraseBlock)
  {
    hide PageProgram, EraseProg;
    ghost var polls := nor.FirstPolls();
    nor.End();
    ghost var m := nor.mem[..];
    var i := nor.waitIters;
    while i != 0
      invariant nor.Valid() && nor.gate && nor.op == None && !nor.wel && nor.mem[..] == m
      invariant 0 <= i <= nor.waitIters && polls == nor.busy + (nor.waitIters - i)
      decreases i
    {
      nor.Begin(READ_STATUS);
      var _ := nor.In();
      var status := nor.In();
      nor.End();
      if status == 0 {
        return true;
      }
      i := i - 1;
    }
    return false;
  }

  /** What erasing [a, a + n) leaves when its first `skip` bytes were skipped. */
  function Cleared(m: Bytes, a: nat, n: nat, skip: nat): Bytes {
    if n <= skip then m else EraseProg(m, a + skip, n - skip)
  }

  predicate BadErase(nor: SpiNor, addr: nat, len: nat)
    requires nor.eraseBlock > 0
  {
    len == 0 || addr % nor.eraseBlock != 0 || len % nor.eraseBlock != 0
  }

  /** Erase whole blocks. On a die that has finished, zero means exactly those blocks are erased and a timeout
      means some leading ones. A die still busy from an operation that timed out ignores the first block:
      zero then means the others. Every way out leaves the gate closed. */
  method FlashErase(nor: SpiNor, addr: nat, len: nat) returns (rc: nat)
    requires nor.Closed() && addr < U32_LIMIT && len < U32_LIMIT && addr + len <= nor.mem.Length
    modifies nor, nor.mem
    ensures nor.Closed()
    ensures rc == ERASE_PARAM <==> BadErase(nor, addr, len)
    ensures rc == 0 || rc == ERASE_PARAM || rc == ERASE_TIMEOUT
    ensures rc == ERASE_PARAM ==> nor.mem[..] == old(nor.mem[..]) && nor.busy == old(nor.busy)
    ensures var skip := if old(nor.busy) == 0 then 0 else nor.eraseBlock;
      && (rc == 0 ==> nor.busy == 0 && nor.mem[..] == Cleared(old(nor.mem[..]), addr, len, skip))
      && (rc == ERASE_TIMEOUT ==>
            exists n: nat :: n <= len && n % nor.eraseBlock == 0 && nor.mem[..] == Cleared(old(nor.mem[..]), addr, n, skip))
      && (rc != ERASE_PARAM && old(nor.FirstPolls()) >= nor.waitIters ==>
            && rc == ERASE_TIMEOUT && nor.busy == old(nor.FirstPolls()) - nor.waitIters
            && nor.mem[..] == Cleared(old(nor.mem[..]), addr, nor.eraseBlock, skip))
    ensures len == nor.eraseBlock && rc != ERASE_PARAM ==> (rc == 0 <==> old(nor.FirstPolls()) < nor.waitIters)
  {
    hide EraseProg, AddressBytes, Address, Cleared;
    ghost var m := nor.mem[..];
    ghost var skip := if nor.busy == 0 then 0 else nor.eraseBlock;
    if len == 0 || addr % nor.eraseBlock != 0 || len % nor.eraseBlock != 0 {
      return ERASE_PARAM;
    }
    Open(nor);
    var done := 0;
    ClearedNothing(m, addr, skip);
    while done < len
      invariant nor.Valid() && nor.gate && nor.op == None && !nor.wel
      invariant if done == 0 then nor.busy == old(nor.busy) && nor.started == old(nor.started) else nor.busy == 0
      invariant done > 0 ==> done >= nor.eraseBlock && old(nor.FirstPolls()) < nor.waitIters
      invariant done <= len && (addr + done) % nor.eraseBlock == 0 && (len - done) % nor.eraseBlock == 0
      invariant done % nor.eraseBlock == 0
      invariant nor.mem[..] == Cleared(m, addr, done, skip)
    {
      BlockFits(len - done, addr + done, nor.eraseBlock);
      BlockFits(len - done, done, nor.eraseBlock);
      CmdAddr(nor, nor.eraseOp, addr + done);
      AddressCarried(addr + done, []);
      assert nor.sent + [] == nor.sent;
      var ok := Wait(nor);
      ClearedMore(m, addr, done, nor.eraseBlock, skip);
      done := done + nor.eraseBlock;
      if !ok {
        Close(nor);
        return ERASE_TIMEOUT;
      }
    }
    Close(nor);
    return 0;
  }

  lemma ClearedNothing(m: Bytes, a: nat, skip: nat)
    ensures Cleared(m, a, 0, skip) == m
  {
  }

  /** The next block: erased, unless it is the one a busy die ignores. */
  lemma ClearedMore(m: Bytes, a: nat, n: nat, block: nat, skip: nat)
    requires block > 0 && (skip == 0 || skip == block) && (n == 0 || n >= block)
    ensures Cleared(m, a, n + block, skip)
         == if n < skip then Cleared(m, a, n, skip) else EraseProg(Cleared(m, a, n, skip), a + n, block)
  {
    hide EraseProg;
    if n >= skip {
      EraseMore(m, a + skip, n - skip, block);
    }
  }

  /** So zero means the work was done exactly when the die had finished before the call, which a status read
      tells, or the first block was blank anyway. */
  lemma EraseDoneExactly(m: Bytes, addr: nat, len: nat, block: nat, busy: nat)
    requires 0 < block <= len && addr + len <= |m|
    ensures Cleared(m, addr, len, if busy == 0 then 0 else block) == EraseProg(m, addr, len)
      <==> busy == 0 || forall i: nat :: addr <= i < addr + block ==> m[i] == 0xFF
  {
    var got, want := Cleared(m, addr, len, if busy == 0 then 0 else block), EraseProg(m, addr, len);
    if busy != 0 {
      assert forall i: nat :: addr <= i < addr + block ==> got[i] == m[i] && want[i] == 0xFF;
      assert forall i: nat :: i < |m| && !(addr <= i < addr + block) ==> got[i] == want[i];
      if forall i: nat :: addr <= i < addr + block ==> m[i] == 0xFF {
        assert got == want;
      }
    }
  }

  /** It happens: an erase times out, and the next one, of another block, reports success with nothing
      erased. */
  method EraseAfterTimeout() returns (first: nat, second: nat, before: Bytes, after: Bytes)
    ensures first == ERASE_TIMEOUT && second == 0 && after == before
    ensures |after| == 2 * PAGE && forall i :: PAGE <= i < 2 * PAGE ==> after[i] == 0
  {
    hide EraseProg;
    var nor := new SpiNor(seq(2 * PAGE, _ => 0), 0x81, PAGE, 4, _ => 5, _ => 0);
    first := FlashErase(nor, 0, PAGE);
    before := nor.mem[..];
    FirstBlockOnly(seq(2 * PAGE, _ => 0));
    second := FlashErase(nor, PAGE, PAGE);
    after := nor.mem[..];
  }

  lemma FirstBlockOnly(m: Bytes)
    requires |m| == 2 * PAGE && forall i :: 0 <= i < |m| ==> m[i] == 0
    ensures var n := Cleared(m, 0, PAGE, 0); |n| == |m| && forall i :: PAGE <= i < |m| ==> n[i] == 0
  {
  }

  lemma EraseMore(m: Bytes, a: nat, n: nat, k: nat)
    ensures EraseProg(EraseProg(m, a, n), a + n, k) == EraseProg(m, a, n + k)
  {
  }

  lemma BlockFits(rest: nat, a: nat, block: nat)
    requires block > 0 && rest > 0 && rest % block == 0 && a % block == 0
    ensures block <= rest && (a + block) % block == 0 && (rest - block) % block == 0
  {
    var q, p := rest / block, a / block;
    assert rest == q * block && a == p * block;
    assert q >= 1;
    assert q * block >= 1 * block;
    MultipleOf(p + 1, block);
    MultipleOf(q - 1, block);
    assert (q - 1) * block == rest - block && (p + 1) * block == a + block;
  }

  lemma MultipleOf(q: nat, block: nat)
    requires block > 0
    ensures (q * block) % block == 0
  {
    var r := (q * block) % block;
    var k := (q * block) / block;
    assert q * block == k * block + r;
    assert k < q ==> (k + 1) * block <= q * block;
    assert k > q ==> (q + 1) * block <= k * block;
  }

  predicate BadSpan(addr: nat, len: nat) { len == 0 || addr % 4 != 0 || len % 4 != 0 }

  /** Clock the words of one page: from `addr + start` until the buffer or the page ends. */
  method ClockPage(nor: SpiNor, addr: nat, buf: Bytes, start: nat) returns (k: nat)
    requires nor.Valid() && nor.gate && nor.op == Some(PAGE_PROGRAM) && nor.sent == AddressBytes(addr + start)
    requires addr % 4 == 0 && |buf| % 4 == 0 && start % 4 == 0 && start < |buf|
    modifies nor`sent
    ensures nor.Valid() && start < k <= |buf| && k % 4 == 0
    ensures nor.sent == AddressBytes(addr + start) + buf[start..k]
    ensures (addr + start) % PAGE + (k - start) <= PAGE && (k == |buf| || (addr + k) % PAGE == 0)
  {
    hide AddressBytes;
    k := start;
    ghost var low := (addr + start) % PAGE;
    WordInPage(addr + start);
    while true
      invariant nor.Valid() && start <= k < |buf| && k % 4 == 0
      invariant nor.sent == AddressBytes(addr + start) + buf[start..k]
      invariant low + (k - start) <= PAGE - 4
      decreases |buf| - k
    {
      ClockWord(nor, buf, k);
      assert buf[start..k] + buf[k..k + 4] == buf[start..k + 4];
      k := k + 4;
      PageEnd(addr + start, k - start);
      if k == |buf| || (addr + k) % PAGE == 0 {
        return;
      }
    }
  }

  method ClockWord(nor: SpiNor, buf: Bytes, k: nat)
    requires nor.Valid() && nor.gate && nor.op.Some? && k + 4 <= |buf|
    modifies nor`sent
    ensures nor.Valid() && nor.sent == old(nor.sent) + buf[k..k + 4]
  {
    var i := 0;
    assert old(nor.sent) + buf[k..k] == old(nor.sent);
    while i < 4
      invariant 0 <= i <= 4 && nor.Valid()
      invariant nor.sent == old(nor.sent) + buf[k..k + i]
    {
      assert buf[k..k + i] + [buf[k + i]] == buf[k..k + i + 1];
      nor.Out(buf[k + i]);
      i := i + 1;
    }
  }

  lemma WordInPage(a: nat)
    requires a % 4 == 0
    ensures a % PAGE <= PAGE - 4
  {
  }

  /** Inside a page the low byte of the address tells how far the page end is. */
  lemma PageEnd(a: nat, n: nat)
    requires a % PAGE + n <= PAGE && a % 4 == 0 && n % 4 == 0
    ensures (a + n) % PAGE == 0 <==> a % PAGE + n == PAGE || a % PAGE + n == 0
    ensures (a + n) % PAGE != 0 ==> a % PAGE + n <= PAGE - 4
  {
  }

  /** How much of the buffer goes into the first page. */
  function FirstPage(addr: nat, n: nat): nat {
    if n < PAGE - addr % PAGE then n else PAGE - addr % PAGE
  }

  /** What programming the first `k` bytes leaves when the first `skip` of them were ignored. */
  function Landed(m: Bytes, a: nat, buf: Bytes, k: nat, skip: nat): Bytes
    requires k <= |buf|
  {
    if k <= skip then m else Linear(m, a + skip, buf[skip..k])
  }

  /** Program a buffer. On a die that has finished, zero means exactly one linear program of the whole buffer,
      however it was split into pages; a timeout means one of a whole-word prefix. A die still busy from an
      operation that timed out ignores the first page. Every way out leaves the gate closed. */
  method FlashWrite(nor: SpiNor, addr: nat, buf: Bytes) returns (rc: nat)
    requires nor.Closed() && addr + |buf| <= nor.mem.Length
    modifies nor, nor.mem
    ensures nor.Closed()
    ensures rc == WRITE_PARAM <==> BadSpan(addr, |buf|)
    ensures rc == 0 || rc == WRITE_PARAM || rc == WRITE_TIMEOUT
    ensures rc == WRITE_PARAM ==> nor.mem[..] == old(nor.mem[..]) && nor.busy == old(nor.busy)
    ensures var skip := if old(nor.busy) == 0 then 0 else FirstPage(addr, |buf|);
      && (rc == 0 ==> nor.busy == 0 && nor.mem[..] == Landed(old(nor.mem[..]), addr, buf, |buf|, skip))
      && (rc == WRITE_TIMEOUT ==>
            exists k: nat :: k <= |buf| && k % 4 == 0 && nor.mem[..] == Landed(old(nor.mem[..]), addr, buf, k, skip))
      && (rc != WRITE_PARAM && old(nor.FirstPolls()) >= nor.waitIters ==>
            && rc == WRITE_TIMEOUT && nor.busy == old(nor.FirstPolls()) - nor.waitIters
            && nor.mem[..] == Landed(old(nor.mem[..]), addr, buf, FirstPage(addr, |buf|), skip))
    ensures |buf| == FirstPage(addr, |buf|) && rc != WRITE_PARAM ==>
      (rc == 0 <==> old(nor.FirstPolls()) < nor.waitIters)
  {
    hide Linear, PageProgram, AddressBytes, Address, Landed, FirstPage;
    ghost var m := nor.mem[..];
    ghost var skip := if nor.busy == 0 then 0 else FirstPage(addr, |buf|);
    if BadSpan(addr, |buf|) {
      return WRITE_PARAM;
    }
    Open(nor);
    var k := 0;
    LandedNothing(m, addr, buf, skip);
    while k < |buf|
      invariant nor.Valid() && nor.gate && nor.op == None && !nor.wel
      invariant if k == 0 then nor.busy == old(nor.busy) && nor.started == old(nor.started) else nor.busy == 0
      invariant k > 0 ==> k >= FirstPage(addr, |buf|) && old(nor.FirstPolls()) < nor.waitIters
      invariant k <= |buf| && k % 4 == 0
      invariant nor.mem[..] == Landed(m, addr, buf, k, skip)
    {
      var start := k;
      ghost var before := nor.mem[..];
      CmdAddr(nor, PAGE_PROGRAM, addr + start);
      k := ClockPage(nor, addr, buf, start);
      AddressCarried(addr + start, buf[start..k]);
      PageIsLinear(before, addr + start, buf[start..k]);
      if start == 0 {
        FirstStop(addr, |buf|, k);
      }
      LandedMore(m, addr, buf, start, k, skip);
      var ok := Wait(nor);
      if !ok {
        Close(nor);
        return WRITE_TIMEOUT;
      }
    }
    Close(nor);
    return 0;
  }

  lemma LandedNothing(m: Bytes, a: nat, buf: Bytes, skip: nat)
    ensures Landed(m, a, buf, 0, skip) == m
  {
  }

  /** The first stop of the word loop is the end of the first page or of the buffer. */
  lemma FirstStop(addr: nat, n: nat, k: nat)
    requires 0 < k <= n && addr % PAGE + k <= PAGE && (k == n || (addr + k) % PAGE == 0)
    ensures k == FirstPage(addr, n)
  {
  }

  /** The next page: programmed, unless it is the one a busy die ignores. */
  lemma LandedMore(m: Bytes, a: nat, buf: Bytes, k: nat, n: nat, skip: nat)
    requires k <= n <= |buf| && (skip <= k || (k == 0 && n == skip))
    ensures Landed(m, a, buf, n, skip)
         == if k < skip then Landed(m, a, buf, k, skip) else Linear(Landed(m, a, buf, k, skip), a + k, buf[k..n])
  {
    hide Linear;
    if skip <= k {
      LinearEmpty(m, a + skip);
      LinearConcat(m, a + skip, buf[skip..k], buf[k..n]);
      assert buf[skip..k] + buf[k..n] == buf[skip..n];
      assert buf[skip..skip] == [] && buf[k..k] == [];
      LinearEmpty(Landed(m, a, buf, k, skip), a + k);
    }
  }

  lemma LinearAt(m: Bytes, a: nat, data: Bytes, i: nat)
    requires i < |m|
    ensures Linear(m, a, data)[i] == if a <= i < a + |data| then And(m[i], data[i - a]) else m[i]
  {
  }

  /** Programming without the first `n` bytes is programming everything exactly when those clear nothing. */
  lemma SkippedHead(m: Bytes, a: nat, buf: Bytes, n: nat)
    requires n <= |buf| && a + |buf| <= |m|
    ensures Linear(m, a + n, buf[n..]) == Linear(m, a, buf)
      <==> forall j: nat :: j < n ==> And(m[a + j], buf[j]) == m[a + j]
  {
    hide Linear, And;
    var got, want := Linear(m, a + n, buf[n..]), Linear(m, a, buf);
    forall i: nat | i < |m|
      ensures got[i] == want[i] <==> !(a <= i < a + n) || And(m[a + (i - a)], buf[i - a]) == m[a + (i - a)]
    {
      LinearAt(m, a + n, buf[n..], i);
      LinearAt(m, a, buf, i);
    }
    forall j: nat | j < n
      ensures got[a + j] == want[a + j] <==> And(m[a + j], buf[j]) == m[a + j]
    {
      assert a + j - a == j;
    }
    assert (forall j: nat :: j < n ==> And(m[a + j], buf[j]) == m[a + j]) ==> got == want;
  }

  /** So zero means the whole buffer was programmed exactly when the die had finished before the call, which a
      status read tells, or the first page's data would have cleared nothing. */
  lemma WriteDoneExactly(m: Bytes, addr: nat, buf: Bytes, busy: nat)
    requires addr + |buf| <= |m|
    ensures FirstPage(addr, |buf|) <= |buf|
    ensures Landed(m, addr, buf, |buf|, if busy == 0 then 0 else FirstPage(addr, |buf|)) == Linear(m, addr, buf)
      <==> busy == 0 || forall j: nat :: j < FirstPage(addr, |buf|) ==> And(m[addr + j], buf[j]) == m[addr + j]
  {
    hide And, Linear;
    var n := FirstPage(addr, |buf|);
    SkippedHead(m, addr, buf, n);
    assert buf[n..|buf|] == buf[n..] && buf[0..|buf|] == buf;
    if n == |buf| {
      assert buf[n..] == [];
      LinearEmpty(m, addr + n);
    }
    if buf == [] {
      LinearEmpty(m, addr);
    }
  }

  /** What a fast read from `addr` serves: flash, or whatever the lines carry while the die is busy. */
  ghost function Shown(nor: SpiNor, addr: nat, n: nat): (b: Bytes)
    requires addr + n <= nor.mem.Length
    reads nor, nor.mem
    ensures |b| == n
  {
    if nor.busy == 0 then nor.mem[addr..addr + n] else seq(n, i requires 0 <= i < n => nor.bus(i))
  }

  ghost predicate Reading(nor: SpiNor, addr: nat, i: nat, n: nat)
    reads nor, nor.mem
  {
    && nor.Valid() && nor.gate && nor.op == Some(FAST_READ) && !nor.wel
    && |nor.sent| == 5 && Address(nor.sent) == addr && nor.clocked == i && addr + n <= nor.mem.Length
  }

  /** Four bytes in, as the controller assembles them. */
  method ReadWord(nor: SpiNor, addr: nat, i: nat, ghost n: nat) returns (word: Bytes)
    requires Reading(nor, addr, i, n) && i + 4 <= n
    modifies nor`clocked, nor`busy
    ensures Reading(nor, addr, i + 4, n) && nor.busy == old(nor.busy) && word == Shown(nor, addr, n)[i..i + 4]
  {
    hide Address, Shown;
    ghost var shown := Shown(nor, addr, n);
    var b0 := ReadByte(nor, addr, i, n);
    var b1 := ReadByte(nor, addr, i + 1, n);
    var b2 := ReadByte(nor, addr, i + 2, n);
    var b3 := ReadByte(nor, addr, i + 3, n);
    word := [b0, b1, b2, b3];
  }

  method ReadByte(nor: SpiNor, addr: nat, i: nat, ghost n: nat) returns (b: Byte)
    requires Reading(nor, addr, i, n) && i < n
    modifies nor`clocked, nor`busy
    ensures Reading(nor, addr, i + 1, n) && nor.busy == old(nor.busy)
    ensures Shown(nor, addr, n) == old(Shown(nor, addr, n)) && b == Shown(nor, addr, n)[i]
  {
    hide Address;
    b := nor.In();
  }

  /** Compare through a fast read. On a die that has finished, zero exactly when flash equals the buffer; on a
      busy one the answer is about the idle lines and says nothing of flash. */
  method FlashVerify(nor: SpiNor, addr: nat, buf: Bytes) returns (rc: nat)
    requires nor.Closed() && addr + |buf| <= nor.mem.Length
    modifies nor, nor.mem
    ensures nor.Closed() && nor.mem[..] == old(nor.mem[..]) && nor.busy == old(nor.busy)
    ensures rc == VERIFY_PARAM <==> BadSpan(addr, |buf|)
    ensures !BadSpan(addr, |buf|) && nor.busy == 0 ==> (rc == 0 <==> nor.mem[addr..addr + |buf|] == buf)
    ensures !BadSpan(addr, |buf|) && nor.busy > 0 ==>
      (rc == 0 <==> forall i: nat :: i < |buf| ==> nor.bus(i) == buf[i])
    ensures !BadSpan(addr, |buf|) ==> rc == 0 || rc == VERIFY_MISMATCH
  {
    hide AddressBytes, Address;
    if BadSpan(addr, |buf|) {
      return VERIFY_PARAM;
    }
    Open(nor);
    CmdAddr(nor, FAST_READ, addr);
    AddressCarried(addr, nor.sent[3..]);
    assert nor.sent[..3] + nor.sent[3..] == nor.sent;
    ghost var shown := Shown(nor, addr, |buf|);
    rc := 0;
    var i := 0;
    while i < |buf|
      invariant Reading(nor, addr, i, |buf|) && i <= |buf| && i % 4 == 0
      invariant nor.busy == old(nor.busy) && nor.mem[..] == old(nor.mem[..]) && Shown(nor, addr, |buf|) == shown
      invariant shown[..i] == buf[..i]
    {
      var word := ReadWord(nor, addr, i, |buf|);
      if word != buf[i..i + 4] {
        rc := VERIFY_MISMATCH;
        break;
      }
      i := i + 4;
    }
    assert rc == 0 ==> shown[..i] == shown && buf[..i] == buf;
    assert rc == 0 <==> shown == buf;
    nor.End();
    Close(nor);
  }

  // ---- the flash model's operations --------------------------------------

  /** On a die that has finished, erasing one block is an outcome the flash model allows: the erase lands and the
      code is the driver's. A die that reports success has finished again. */
  method EraseIsOutcome(nor: SpiNor, c: G.Config, ghost f: Flash, addr: nat) returns (rc: nat, ghost o: Outcome)
    requires nor.Quiet() && nor.mem[..] == f.prog && nor.eraseBlock == c.eraseBlock && EraseAllowed(c, f, addr)
    modifies nor, nor.mem
    ensures nor.Closed() && (rc == 0 ==> nor.Quiet()) && (rc == 0 || rc == ERASE_TIMEOUT)
    ensures var (g, code) := Erase(c, f.(plan := [o]), addr);
      nor.mem[..] == g.prog && rc == Digit(code)
  {
    hide EraseProg, EraseCells, Digit;
    assert c.eraseBlock % c.eraseBlock == 0;
    rc := FlashErase(nor, addr, c.eraseBlock);
    o := Outcome(1, ByteOf(rc));
    ByteOfNat(rc);
  }

  /** And so is programming a buffer: a prefix of whole words lands, all of them if success is reported. */
  method WriteIsOutcome(nor: SpiNor, c: G.Config, ghost f: Flash, addr: nat, data: Bytes)
    returns (rc: nat, ghost o: Outcome)
    requires nor.Quiet() && nor.mem[..] == f.prog && WriteAllowed(c, f, addr, |data|)
    modifies nor, nor.mem
    ensures nor.Closed() && (rc == 0 ==> nor.Quiet() && 4 * o.landed == |data|) && (rc == 0 || rc == WRITE_TIMEOUT)
    ensures var (g, code) := Write(c, f.(plan := [o]), addr, data);
      nor.mem[..] == g.prog && rc == Digit(code)
  {
    hide Linear, Program, Digit, Touched;
    ghost var m := nor.mem[..];
    rc := FlashWrite(nor, addr, data);
    ghost var k: nat := |data|;
    if rc != 0 {
      ghost var n: nat :| n <= |data| && n % 4 == 0 && nor.mem[..] == Landed(m, addr, data, n, 0);
      k := n;
    }
    o := Outcome(k / 4, ByteOf(rc));
    ByteOfNat(rc);
    LandedIsLinear(m, addr, data, k);
    LinearIsProgram(m, addr, data, k);
  }

  lemma LandedIsLinear(m: Bytes, a: nat, buf: Bytes, k: nat)
    requires k <= |buf|
    ensures Landed(m, a, buf, k, 0) == Linear(m, a, buf[..k])
  {
    hide Linear;
    assert buf[0..k] == buf[..k];
    LinearEmpty(m, a);
  }
}
