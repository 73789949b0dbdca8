/** The simulated part as the test harness keeps it: byte arrays updated in place. Every operation
    has exactly the effect of the flash specification. */
module NorFlash {
  import opened Bytes
  import opened Crc32
  import opened Geometry
  import opened Flash
  import F = Flash

  /** The block numbers a flag array marks. */
  function Marked(flags: seq<bool>): set<nat> { set b: nat | b < |flags| && flags[b] }

  lemma MarkedAfter(flags: seq<bool>, b: nat)
    requires b < |flags|
    ensures Marked(flags[b := true]) == Marked(flags) + {b}
  {
  }

  /** The erase block a byte lies in. */
  function BlockOf(c: Config, a: nat): nat
    requires c.eraseBlock > 0
  {
    a / c.eraseBlock
  }

  class NorFlash {
    const c: Config
    const cell: array<Byte>
    const prog: array<Byte>
    const blkErased: array<bool>
    const blkDirty: array<bool>
    var plan: seq<Outcome>
    var stale: nat -> Byte
    var violations: nat
    ghost var erased: seq<nat>

    ghost function Repr(): set<object> { {this, cell, prog, blkErased, blkDirty} }

    ghost predicate Valid()
      reads this
    {
      && Legal(c)
      && cell.Length == prog.Length == c.siliconEnd && cell != prog
      && blkErased.Length == blkDirty.Length == c.siliconEnd / c.eraseBlock + 1 && blkErased != blkDirty
      && {cell as object, prog} !! {blkErased as object, blkDirty}
    }

    ghost function Value(): (f: Flash)
      reads Repr()
    {
      Flash(cell[..], prog[..], Marked(blkDirty[..]), Marked(blkErased[..]), erased, plan, stale, violations)
    }

    /** Power-on of a part with this content: no block touched or erased yet. */
    constructor (c: Config, content: Bytes, programmable: Bytes)
      requires Legal(c) && |content| == |programmable| == c.siliconEnd
      ensures Valid() && this.c == c && fresh(Repr())
      ensures Value() == Flash(content, programmable, {}, {}, [], [], this.stale, 0)
    {
      this.c := c;
      cell := new Byte[|content|](i requires 0 <= i < |content| => content[i]);
      prog := new Byte[|content|](i requires 0 <= i < |content| => programmable[i]);
      blkErased := new bool[c.siliconEnd / c.eraseBlock + 1](_ => false);
      blkDirty := new bool[c.siliconEnd / c.eraseBlock + 1](_ => false);
      plan, stale, violations, erased := [], _ => 0xFF, 0, [];
      new;
      assert cell[..] == content && prog[..] == programmable;
      assert Marked(blkDirty[..]) == {} && Marked(blkErased[..]) == {};
    }

    lemma BlockIndex(a: nat)
      requires Valid() && a < c.siliconEnd
      ensures BlockOf(c, a) < blkDirty.Length
    {
      DivMonotone(a, c.siliconEnd, c.eraseBlock);
    }

    /** Set the bytes of one erased block. */
    method FillErased(a: nat, n: nat)
      requires Valid() && a + n <= cell.Length
      modifies cell, prog
      ensures cell[..] == EraseCells(old(cell[..]), a, n)
      ensures prog[..] == EraseProg(old(prog[..]), a, n)
    {
      var i := 0;
      while i < n
        invariant 0 <= i <= n
        invariant forall j :: 0 <= j < cell.Length ==>
          cell[j] == if a <= j < a + i then ErasedByte(j) else old(cell[j])
        invariant forall j :: 0 <= j < prog.Length ==>
          prog[j] == if a <= j < a + i then 0xFF else old(prog[j])
      {
        cell[a + i], prog[a + i] := ErasedByte(a + i), 0xFF;
        i := i + 1;
      }
    }

    method Erase(a: nat) returns (r: Byte)
      requires Valid()
      modifies Repr()
      ensures (Value(), r) == F.Erase(c, old(Value()), a)
    {
      assert c.eraseBlock > 0;
      hide EraseCells, EraseProg, Marked, Legal;
      if !(a % c.eraseBlock == 0 && c.appStart <= a && a + c.eraseBlock <= cell.Length) {
        violations := violations + 1;
        return 0;
      }
      if |plan| == 0 {
        return POWER_OUT;
      }
      var o := plan[0];
      plan := plan[1..];
      var blk := BlockOf(c, a);
      BlockIndex(a);
      MarkedAfter(blkDirty[..], blk);
      MarkedAfter(blkErased[..], blk);
      blkDirty[blk] := true;
      r := EraseCode(o);
      if o.landed != 0 {
        FillErased(a, c.eraseBlock);
        blkErased[blk] := true;
        if r == 0 {
          erased := erased + [a];
        }
      }
    }

    /** Were all blocks under these bytes erased since reset? */
    method AllErased(first: nat, last: nat) returns (ok: bool)
      requires Valid() && last < blkErased.Length
      ensures ok == (BlockRange(first, last) <= Marked(blkErased[..]))
    {
      var b := first;
      while b <= last
        invariant first <= b
        invariant forall k: nat :: first <= k < b && k <= last ==> k in Marked(blkErased[..])
        decreases last + 1 - b
      {
        if !blkErased[b] {
          assert b in BlockRange(first, last) && b !in Marked(blkErased[..]);
          return false;
        }
        b := b + 1;
      }
      return true;
    }

    method TouchBlocks(first: nat, last: nat)
      requires Valid() && last < blkDirty.Length
      modifies blkDirty
      ensures Marked(blkDirty[..]) == old(Marked(blkDirty[..])) + BlockRange(first, last)
    {
      var b := first;
      while b <= last
        invariant first <= b
        invariant forall k: nat :: k in Marked(blkDirty[..]) <==>
          k in old(Marked(blkDirty[..])) || (first <= k < b && k <= last)
        decreases last + 1 - b
      {
        MarkedAfter(blkDirty[..], b);
        blkDirty[b] := true;
        b := b + 1;
      }
    }

    /** Programming only clears bits. */
    method ProgramBytes(a: nat, data: Bytes, n: nat)
      requires Valid() && n <= |data| && a + n <= cell.Length
      modifies cell, prog
      ensures cell[..] == Program(old(cell[..]), old(prog[..]), a, data, n)
      ensures prog[..] == Program(old(prog[..]), old(prog[..]), a, data, n)
    {
      hide And;
      var i := 0;
      while i < n
        invariant 0 <= i <= n
        invariant forall j :: 0 <= j < cell.Length ==>
          cell[j] == if a <= j < a + i then And(old(prog[j]), data[j - a]) else old(cell[j])
        invariant forall j :: 0 <= j < prog.Length ==>
          prog[j] == if a <= j < a + i then And(old(prog[j]), data[j - a]) else old(prog[j])
      {
        prog[a + i] := And(prog[a + i], data[i]);
        cell[a + i] := prog[a + i];
        i := i + 1;
      }
    }

    /** First and last block under some bytes. */
    method Span(a: nat, n: nat) returns (first: nat, last: nat)
      requires Valid() && 0 < n && a + n <= cell.Length
      ensures Touched(c, a, n) == BlockRange(first, last) && last < blkDirty.Length
    {
      BlockIndex(a + n - 1);
      first, last := BlockOf(c, a), BlockOf(c, a + n - 1);
    }

    /** Word-aligned, inside the application region, and only over blocks erased since reset. */
    method WriteInOrder(a: nat, n: nat) returns (ok: bool, first: nat, last: nat)
      requires Valid()
      ensures ok == WriteAllowed(c, Value(), a, n)
      ensures ok ==> last < blkDirty.Length && Touched(c, a, n) == BlockRange(first, last) && a + n <= cell.Length
    {
      hide Marked, BlockRange, Touched;
      ok, first, last := false, 0, 0;
      if n > 0 && a % 4 == 0 && n % 4 == 0 && c.appStart <= a && a + n <= cell.Length {
        first, last := Span(a, n);
        ok := AllErased(first, last);
      }
    }

    method Write(a: nat, data: Bytes) returns (r: Byte)
      requires Valid()
      modifies Repr()
      ensures (Value(), r) == F.Write(c, old(Value()), a, data)
    {
      hide WriteAllowed, Touched, Program, Marked, BlockRange;
      var ok, first, last := WriteInOrder(a, |data|);
      if !ok {
        violations := violations + 1;
        return 0;
      }
      if |plan| == 0 {
        return POWER_OUT;
      }
      var o := plan[0];
      plan := plan[1..];
      TouchBlocks(first, last);
      ProgramBytes(a, data, Words(o, |data|));
      return o.code;
    }

    /** The controller's comparison. */
    method Verify(a: nat, data: Bytes) returns (r: Byte)
      requires Valid()
      ensures r == F.Verify(Value(), a, data)
    {
      if a + |data| > cell.Length {
        return MISMATCH;
      }
      var i := 0;
      while i < |data|
        invariant 0 <= i <= |data|
        invariant cell[a..a + i] == data[..i]
      {
        if cell[a + i] != data[i] {
          assert Value().cell[a..a + |data|][i] != data[i];
          return MISMATCH;
        }
        i := i + 1;
      }
      assert Value().cell[a..a + |data|] == data;
      return 0;
    }

    /** One byte through the memory-mapped view. */
    method XipRead(i: nat) returns (b: Byte)
      requires Valid() && i < cell.Length
      ensures b == Xip(c, Value())[i]
    {
      BlockIndex(i);
      XipAt(c, Value(), i);
      assert c.eraseBlock > 0;
      hide Xip, CrcLive, Legal;
      assert BlockOf(c, i) in Value().dirty <==> blkDirty[BlockOf(c, i)];
      if !CrcLive(c) && blkDirty[BlockOf(c, i)] {
        return stale(i);
      }
      return cell[i];
    }

    method XipReadWord(a: nat) returns (w: bv32)
      requires Valid() && a + 4 <= cell.Length
      ensures w == LeWord(Xip(c, Value())[a..a + 4])
    {
      hide LeWord, Xip;
      var b0 := XipRead(a);
      var b1 := XipRead(a + 1);
      var b2 := XipRead(a + 2);
      var b3 := XipRead(a + 3);
      assert Xip(c, Value())[a..a + 4] == [b0, b1, b2, b3];
      w := LeWord([b0, b1, b2, b3]);
    }

    /** The word loop over the memory-mapped view computes the CRC of the bytes it shows. */
    method XipCrc(addr: nat, len: nat) returns (crc: bv32)
      requires Valid() && Aligned(len, 4) && addr + len <= cell.Length
      ensures crc == Crc(Xip(c, Value())[addr..addr + len])
    {
      hide LeWord, PutWord, Update, Xip, Aligned, Low32;
      ghost var view := Xip(c, Value());
      crc := INIT;
      var a := addr;
      assert view[addr..a] == [];
      UpdateNothing(INIT);
      assert Low32(addr + len) == addr + len;
      while a < Low32(addr + len)
        invariant addr <= a <= addr + len && Aligned(addr + len - a, 4)
        invariant crc == Update(INIT, view[addr..a])
      {
        FourFit(addr + len - a);
        var v := XipReadWord(a);
        PutWordOfLeWord(view[a..a + 4]);
        UpdateConcat(INIT, view[addr..a], view[a..a + 4]);
        assert view[addr..a] + view[a..a + 4] == view[addr..a + 4];
        crc := TableUpdate(crc, PutWord(v));
        a := a + 4;
      }
      crc := Final(crc);
    }

    /** Reset ends the power cycle. */
    method Reset()
      requires Valid()
      modifies Repr()
      ensures Value() == F.Reset(old(Value()))
    {
      forall i | 0 <= i < blkDirty.Length {
        blkDirty[i] := false;
      }
      forall i | 0 <= i < blkErased.Length {
        blkErased[i] := false;
      }
      erased := [];
      assert cell[..] == old(cell[..]) && prog[..] == old(prog[..]);
      assert Marked(blkDirty[..]) == {} && Marked(blkErased[..]) == {};
    }

    /** The environment decides the fate of the coming operations. */
    method Enter(plan: seq<Outcome>, stale: nat -> Byte)
      modifies this`plan, this`stale
      ensures Value() == old(Value()).(plan := plan, stale := stale)
    {
      this.plan, this.stale := plan, stale;
    }
  }

  lemma FourFit(n: nat)
    requires Aligned(n, 4) && n > 0
    ensures 4 <= n && Aligned(n - 4, 4)
  {
  }

  lemma UpdateNothing(s: bv32)
    ensures Update(s, []) == s
  {
  }
}
