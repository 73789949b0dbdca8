/** The physics of the part: NOR cells that programming can only clear, an erase that sets a
    scrambled pattern, operations that can fail or lose power, and a memory-mapped view that may
    serve anything for blocks touched since reset. */
module Flash {
  import opened Bytes
  import opened Geometry

  /** What one controller operation does: how much of it lands and what the driver reports.
      An erase lands whole or not at all; a write lands a prefix of whole words. A write may
      report success although only a prefix landed; an erase may not. */
  datatype Outcome = Outcome(landed: nat, code: Byte)

  datatype Flash = Flash(
    cell: Bytes,         // what each byte really reads as
    prog: Bytes,         // bits still programmable: all ones after an erase
    dirty: set<nat>,     // blocks touched since reset
    armed: set<nat>,     // blocks erased since reset
    erased: seq<nat>,    // addresses of the erases reported successful since reset, in order
    plan: seq<Outcome>,  // fate of the coming operations; when it runs out, power is gone
    stale: nat -> Byte,  // what the memory-mapped view serves for a dirty block
    violations: nat)     // operations no correct core ever issues

  const POWER_OUT: Byte := 0xE0
  const MISMATCH: Byte := 0xE5

  /** Erased flash does not read as ones on these parts. */
  function ErasedByte(i: nat): Byte {
    if i % 4 == 0 then 0xA9 else if i % 4 == 1 then 0xBD else if i % 4 == 2 then 0xF9 else 0xF3
  }

  const ERASED_WORD: Bytes := [0xA9, 0xBD, 0xF9, 0xF3]

  function Words(o: Outcome, n: nat): (k: nat)
    ensures k <= n
  {
    if 4 * o.landed < n then 4 * o.landed else n
  }

  // ---- erase -------------------------------------------------------------

  predicate EraseAllowed(c: Config, f: Flash, a: nat) {
    c.eraseBlock > 0 && a % c.eraseBlock == 0 && c.appStart <= a && a + c.eraseBlock <= |f.cell| == |f.prog|
  }

  function EraseCells(s: Bytes, a: nat, n: nat): (r: Bytes)
    ensures |r| == |s|
  {
    seq(|s|, i requires 0 <= i < |s| => if a <= i < a + n then ErasedByte(i) else s[i])
  }

  function EraseProg(s: Bytes, a: nat, n: nat): (r: Bytes)
    ensures |r| == |s|
  {
    seq(|s|, i requires 0 <= i < |s| => if a <= i < a + n then 0xFF else s[i])
  }

  /** The driver's report for an erase, on a die that had finished before the call: success is only ever
      reported for one that landed. */
  function EraseCode(o: Outcome): Byte {
    if o.landed == 0 && o.code == 0 then POWER_OUT else o.code
  }

  /** Erase the block at `a`. */
  function Erase(c: Config, f: Flash, a: nat): (Flash, Byte) {
    if !EraseAllowed(c, f, a) then
      (f.(violations := f.violations + 1), 0)
    else if |f.plan| == 0 then
      (f, POWER_OUT)
    else
      var touched := f.(plan := f.plan[1..], dirty := f.dirty + {a / c.eraseBlock});
      if f.plan[0].landed == 0 then
        (touched, EraseCode(f.plan[0]))
      else
        (touched.(cell := EraseCells(f.cell, a, c.eraseBlock), prog := EraseProg(f.prog, a, c.eraseBlock),
                  armed := f.armed + {a / c.eraseBlock},
                  erased := if EraseCode(f.plan[0]) == 0 then f.erased + [a] else f.erased),
         EraseCode(f.plan[0]))
  }

  // ---- program and verify ------------------------------------------------

  /** Blocks overlapped by the bytes [a, a + n). */
  function Touched(c: Config, a: nat, n: nat): set<nat>
    requires c.eraseBlock > 0
  {
    if n == 0 then {} else BlockRange(a / c.eraseBlock, (a + n - 1) / c.eraseBlock)
  }

  function BlockRange(lo: nat, hi: nat): (r: set<nat>)
    ensures forall b: nat :: b in r <==> lo <= b <= hi
    decreases hi
  {
    if hi < lo then {} else if hi == 0 then {0} else BlockRange(lo, hi - 1) + {hi}
  }

  predicate WriteAllowed(c: Config, f: Flash, a: nat, n: nat) {
    && c.eraseBlock > 0 && n > 0 && a % 4 == 0 && n % 4 == 0
    && c.appStart <= a && a + n <= |f.cell| == |f.prog|
    && Touched(c, a, n) <= f.armed
  }

  /** NOR cells only lose bits. */
  function And(p: Byte, d: Byte): Byte { p & d }

  /** Programming clears bits: the new byte is the AND of what was still programmable and the data. */
  function Program(s: Bytes, prog: Bytes, a: nat, data: Bytes, n: nat): (r: Bytes)
    requires |s| == |prog| && n <= |data|
    ensures |r| == |s|
  {
    seq(|s|, i requires 0 <= i < |s| => if a <= i < a + n then And(prog[i], data[i - a]) else s[i])
  }

  function Write(c: Config, f: Flash, a: nat, data: Bytes): (Flash, Byte) {
    if !WriteAllowed(c, f, a, |data|) then
      (f.(violations := f.violations + 1), 0)
    else if |f.plan| == 0 then
      (f, POWER_OUT)
    else
      var n := Words(f.plan[0], |data|);
      (f.(plan := f.plan[1..], dirty := f.dirty + Touched(c, a, |data|),
          cell := Program(f.cell, f.prog, a, data, n), prog := Program(f.prog, f.prog, a, data, n)),
       f.plan[0].code)
  }

  /** The controller's read-back sees the true content. */
  function Verify(f: Flash, a: nat, data: Bytes): Byte {
    if a + |data| <= |f.cell| && f.cell[a..a + |data|] == data then 0 else MISMATCH
  }

  // ---- the memory-mapped view and reset ----------------------------------

  predicate Coherent(c: Config, f: Flash, i: nat) {
    CrcLive(c) || c.eraseBlock == 0 || i / c.eraseBlock !in f.dirty
  }

  function Xip(c: Config, f: Flash): (v: Bytes)
    ensures |v| == |f.cell|
  {
    seq(|f.cell|, i requires 0 <= i < |f.cell| => if Coherent(c, f, i) then f.cell[i] else f.stale(i))
  }

  lemma XipAt(c: Config, f: Flash, i: nat)
    requires i < |f.cell|
    ensures Xip(c, f)[i] == if Coherent(c, f, i) then f.cell[i] else f.stale(i)
  {
  }

  /** Reset restores coherence and forgets which blocks were erased. */
  function Reset(f: Flash): Flash {
    f.(dirty := {}, armed := {}, erased := [])
  }

  // ---- what the operations guarantee -------------------------------------

  /** The flash is as large as the die, and a programmed byte reads as what was programmed. */
  ghost predicate Physical(c: Config, f: Flash) {
    && |f.cell| == |f.prog| == c.siliconEnd
    && forall i: nat :: i < |f.cell| ==> f.cell[i] == f.prog[i] || f.prog[i] == 0xFF
  }

  /** Bytes outside [lo, hi) read the same in both contents. */
  ghost predicate SameOutside(s: Bytes, t: Bytes, lo: nat, hi: nat) {
    |s| == |t| && forall i: nat :: i < |s| && !(lo <= i < hi) ==> s[i] == t[i]
  }

  ghost predicate SameInside(s: Bytes, t: Bytes, lo: nat, hi: nat) {
    |s| == |t| && forall i: nat :: i < |s| && lo <= i < hi ==> s[i] == t[i]
  }

  lemma EraseEffect(c: Config, f: Flash, a: nat)
    requires Physical(c, f) && EraseAllowed(c, f, a)
    ensures var (f', r) := Erase(c, f, a);
      && Physical(c, f') && f'.violations == f.violations && f'.stale == f.stale
      && SameOutside(f.cell, f'.cell, a, a + c.eraseBlock)
      && f.armed <= f'.armed
      && (forall b :: b in f'.dirty && b !in f.dirty ==> b == a / c.eraseBlock)
      && (if |f.plan| > 0 then a / c.eraseBlock in f'.dirty else f' == f && r != 0)
      && (f'.cell == f.cell || f'.cell == EraseCells(f.cell, a, c.eraseBlock))
      && (r == 0 ==> (
          && f'.cell == EraseCells(f.cell, a, c.eraseBlock)
          && f'.prog == EraseProg(f.prog, a, c.eraseBlock)
          && f'.armed == f.armed + {a / c.eraseBlock}
          && f'.dirty == f.dirty + {a / c.eraseBlock}))
  {
  }

  lemma WriteEffect(c: Config, f: Flash, a: nat, data: Bytes)
    requires Physical(c, f) && WriteAllowed(c, f, a, |data|)
    ensures var (f', r) := Write(c, f, a, data);
      && Physical(c, f') && f'.violations == f.violations && f'.stale == f.stale
      && SameOutside(f.cell, f'.cell, a, a + |data|)
      && f'.armed == f.armed
      && (forall b :: b in f'.dirty && b !in f.dirty ==> b in Touched(c, a, |data|))
      && (if |f.plan| > 0 then Touched(c, a, |data|) <= f'.dirty else f' == f && r != 0)
      && f'.cell == Program(f.cell, f.prog, a, data, if |f.plan| == 0 then 0 else Words(f.plan[0], |data|))
  {
    var (f', r) := Write(c, f, a, data);
    if |f.plan| == 0 {
      assert f'.cell == Program(f.cell, f.prog, a, data, 0);
    } else {
      forall i: nat | i < |f'.cell|
        ensures f'.cell[i] == f'.prog[i] || f'.prog[i] == 0xFF
      {
      }
    }
  }

  /** Re-programming bytes that already read as the data changes nothing, however much lands. */
  lemma RewriteHarmless(c: Config, f: Flash, a: nat, data: Bytes)
    requires Physical(c, f) && WriteAllowed(c, f, a, |data|)
    requires f.cell[a..a + |data|] == data
    ensures Write(c, f, a, data).0.cell == f.cell
  {
    var f' := Write(c, f, a, data).0;
    forall i: nat | i < |f.cell|
      ensures f'.cell[i] == f.cell[i]
    {
      if a <= i < a + |data| {
        assert f.cell[i] == f.cell[a..a + |data|][i - a] == data[i - a];
        AndSame(f.prog[i], data[i - a]);
      }
    }
  }

  lemma AndSame(p: Byte, d: Byte)
    ensures d == p || p == 0xFF ==> And(p, d) == d
  {
  }

  /** Where nothing is dirty the memory-mapped view is the truth. */
  lemma CleanView(c: Config, f: Flash, lo: nat, hi: nat)
    requires c.eraseBlock > 0
    requires forall i: nat :: lo <= i < hi ==> Coherent(c, f, i)
    ensures SameInside(f.cell, Xip(c, f), lo, hi)
  {
  }
}
