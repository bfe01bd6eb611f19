/** The W25Q128 NOR chip behind its driver: program clears bits and never sets
    them, erase works on 4, 32 and 64 KiB blocks.

    `fuse` counts the steps (bytes programmed, erase commands) that are still
    carried out: a run that exhausts it stops where a power cut or a bus error
    would.  If `late`, the last of them is carried out and reported as failed, as
    when waiting for the chip fails afterwards.  `readable` says whether reads
    succeed. */
module Nor {
  import opened Bits
  import opened Bytes

  const CHIP_SIZE: nat := 0x100_0000
  const PAGE_SIZE: nat := 256
  const SECTOR_SIZE: nat := 4096

  type Memory = m: seq<Byte> | |m| == 0x100_0000 witness seq(0x100_0000, i => 0)

  datatype Chip = Chip(mem: Memory, fuse: nat, late: bool, readable: bool)

  /** How many steps are still reported as done. */
  function Good(c: Chip): nat {
    if c.late && c.fuse > 0 then c.fuse - 1 else c.fuse
  }

  /* ---- programming ---- */

  /** Bitwise and. */
  function And(a: nat, b: nat): (r: nat)
    ensures r <= a && r <= b
  {
    if a == 0 || b == 0 then 0
    else 2 * And(a / 2, b / 2) + (if a % 2 == 1 && b % 2 == 1 then 1 else 0)
  }

  lemma {:induction false} AndBit(a: nat, b: nat, i: nat)
    ensures BitAt(And(a, b), i) <==> BitAt(a, i) && BitAt(b, i)
    decreases i
  {
    if a == 0 || b == 0 {
      ZeroBits(i);
    } else if i > 0 {
      assert And(a, b) / 2 == And(a / 2, b / 2);
      AndBit(a / 2, b / 2, i - 1);
    }
  }

  lemma {:induction false} AndOnes(k: nat, b: nat)
    requires b < Pow2(k)
    ensures And(Pow2(k) - 1, b) == b
    decreases k
  {
    if k > 0 && b > 0 {
      assert (Pow2(k) - 1) / 2 == Pow2(k - 1) - 1 && (Pow2(k) - 1) % 2 == 1;
      AndOnes(k - 1, b / 2);
    }
  }

  /** Programming an erased byte stores it. */
  lemma AndErased(b: Byte)
    ensures And(ERASED, b) == b
  {
    assert Pow2(4) == 16 && Pow2(8) == 16 * Pow2(4);
    AndOnes(8, b);
  }

  /** Bytes programmed one after the other from `addr` on. */
  function Programmed(mem: Memory, addr: nat, data: seq<Byte>): Memory
    requires addr + |data| <= |mem|
    decreases |data|
  {
    if data == [] then mem
    else Programmed(mem[addr := And(mem[addr], data[0])], addr + 1, data[1..])
  }

  /** Only the programmed range changes, bit by bit downwards. */
  lemma {:induction false} ProgrammedAt(mem: Memory, addr: nat, data: seq<Byte>, i: nat)
    requires addr + |data| <= |mem| && i < |mem|
    ensures Programmed(mem, addr, data)[i] ==
            if addr <= i < addr + |data| then And(mem[i], data[i - addr]) else mem[i]
    decreases |data|
  {
    if data != [] {
      ProgrammedAt(mem[addr := And(mem[addr], data[0])], addr + 1, data[1..], i);
    }
  }

  /** On erased bytes a program stores exactly its data. */
  lemma ProgramBlank(mem: Memory, addr: nat, data: seq<Byte>)
    requires addr + |data| <= |mem| && Blank(mem, addr, addr + |data|)
    ensures Programmed(mem, addr, data)[addr..addr + |data|] == data
  {
    var r := Programmed(mem, addr, data);
    forall i | 0 <= i < |data| ensures r[addr + i] == data[i] {
      ProgrammedAt(mem, addr, data, addr + i);
      AndErased(data[i]);
    }
  }

  /** A program leaves everything outside its range. */
  lemma ProgramFrame(mem: Memory, addr: nat, data: seq<Byte>)
    requires addr + |data| <= |mem|
    ensures forall i :: 0 <= i < |mem| && !(addr <= i < addr + |data|) ==> Programmed(mem, addr, data)[i] == mem[i]
  {
    forall i | 0 <= i < |mem| && !(addr <= i < addr + |data|)
      ensures Programmed(mem, addr, data)[i] == mem[i]
    {
      ProgrammedAt(mem, addr, data, i);
    }
  }

  /** Programming in two pieces is programming at once. */
  lemma {:induction false} ProgramConcat(mem: Memory, addr: nat, x: seq<Byte>, y: seq<Byte>)
    requires addr + |x| + |y| <= |mem|
    ensures Programmed(Programmed(mem, addr, x), addr + |x|, y) == Programmed(mem, addr, x + y)
    decreases |x|
  {
    if x == [] {
      assert x + y == y;
    } else {
      assert (x + y)[1..] == x[1..] + y;
      ProgramConcat(mem[addr := And(mem[addr], x[0])], addr + 1, x[1..], y);
    }
  }

  /** As much of `data` as the fuse allows, programmed from `addr` on. */
  function Burn(c: Chip, addr: nat, data: seq<Byte>): Chip
    requires addr + |data| <= CHIP_SIZE
  {
    var k := Min(c.fuse, |data|);
    c.(mem := Programmed(c.mem, addr, data[..k]), fuse := c.fuse - k)
  }

  lemma BurnConcat(c: Chip, addr: nat, x: seq<Byte>, y: seq<Byte>)
    requires addr + |x| + |y| <= CHIP_SIZE && |x| <= c.fuse
    ensures Burn(Burn(c, addr, x), addr + |x|, y) == Burn(c, addr, x + y)
  {
    var k := Min(c.fuse - |x|, |y|);
    assert x[..|x|] == x && (x + y)[..|x| + k] == x + y[..k];
    ProgramConcat(c.mem, addr, x, y[..k]);
  }

  lemma BurnShort(c: Chip, addr: nat, x: seq<Byte>, y: seq<Byte>)
    requires addr + |x| + |y| <= CHIP_SIZE && c.fuse <= |x|
    ensures Burn(c, addr, x + y) == Burn(c, addr, x)
  {
    assert (x + y)[..c.fuse] == x[..c.fuse];
  }

  /** The driver's page program: at most up to the end of a page. */
  function WriteTo(c: Chip, addr: nat, buf: seq<Byte>): (Chip, bool) {
    if buf == [] then (c, true)
    else if addr % PAGE_SIZE + |buf| > PAGE_SIZE || addr + |buf| > CHIP_SIZE then (c, false)
    else (Burn(c, addr, buf), |buf| <= Good(c))
  }

  /* ---- erasing ---- */

  function Wiped(mem: Memory, addr: nat, n: nat): (r: Memory)
    requires addr + n <= |mem|
  {
    mem[..addr] + Ones(n) + mem[addr + n..]
  }

  lemma WipedBlank(mem: Memory, addr: nat, n: nat)
    requires addr + n <= |mem|
    ensures Blank(Wiped(mem, addr, n), addr, addr + n)
    ensures forall i :: 0 <= i < |mem| && !(addr <= i < addr + n) ==> Wiped(mem, addr, n)[i] == mem[i]
  {
  }

  lemma WipeConcat(mem: Memory, addr: nat, m: nat, n: nat)
    requires addr + m + n <= |mem|
    ensures Wiped(Wiped(mem, addr, m), addr + m, n) == Wiped(mem, addr, m + n)
  {
  }

  predicate Sectors(addr: nat, len: nat) {
    addr % SECTOR_SIZE == 0 && len % SECTOR_SIZE == 0 && addr + len <= CHIP_SIZE
  }

  /** The largest aligned block the greedy loop picks next. */
  function Block(addr: nat, len: nat): (n: nat)
    requires Sectors(addr, len) && len > 0
    ensures 0 < n <= len && n % SECTOR_SIZE == 0 && Sectors(addr + n, len - n)
  {
    if addr % 0x1_0000 == 0 && len >= 0x1_0000 then 0x1_0000
    else if addr % 0x8000 == 0 && len >= 0x8000 then 0x8000
    else 0x1000
  }

  /** Block after block until done or until one fails. */
  function EraseFrom(c: Chip, addr: nat, len: nat): (Chip, bool)
    requires Sectors(addr, len)
    decreases len
  {
    if len == 0 then (c, true)
    else if c.fuse == 0 then (c, false)
    else if Good(c) == 0 then (EraseBlock(c, addr, Block(addr, len)), false)
    else EraseFrom(EraseBlock(c, addr, Block(addr, len)), addr + Block(addr, len), len - Block(addr, len))
  }

  /** One erase command. */
  function EraseBlock(c: Chip, addr: nat, n: nat): Chip
    requires addr + n <= CHIP_SIZE && c.fuse > 0
  {
    c.(mem := Wiped(c.mem, addr, n), fuse := c.fuse - 1)
  }

  function EraseTo(c: Chip, addr: nat, len: nat): (Chip, bool) {
    if len == 0 || !Sectors(addr, len) then (c, false) else EraseFrom(c, addr, len)
  }

  lemma EraseStep(c: Chip, addr: nat, len: nat, n: nat)
    requires Sectors(addr, len) && len > 0 && Good(c) > 0 && n == Block(addr, len)
    ensures EraseFrom(c, addr, len) == EraseFrom(EraseBlock(c, addr, n), addr + n, len - n)
  {
  }

  /** The greedy decomposition erases a leading part of the range and nothing else:
      all of it exactly when the device carries out all commands, and none of it
      exactly when it carries out none. */
  lemma {:induction false} EraseExact(c: Chip, addr: nat, len: nat) returns (d: nat)
    requires Sectors(addr, len)
    ensures d <= len && d % SECTOR_SIZE == 0
    ensures EraseFrom(c, addr, len).0.mem == Wiped(c.mem, addr, d)
    ensures d == len <==> BlockCount(addr, len) <= c.fuse
    ensures d == 0 <==> len == 0 || c.fuse == 0
    decreases len
  {
    if len == 0 || c.fuse == 0 {
      d := 0;
      assert Wiped(c.mem, addr, 0) == c.mem;
      if len > 0 { CountStep(addr, len, Block(addr, len)); }
    } else {
      var n := Block(addr, len);
      CountStep(addr, len, n);
      if Good(c) == 0 {
        d := n;
        LastBlock(addr + n, len - n);
      } else {
        var rest := EraseExact(EraseBlock(c, addr, n), addr + n, len - n);
        d := n + rest;
        EraseStep(c, addr, len, n);
        WipedMore(c, addr, n, rest);
        SumOfSectors(n, rest);
      }
    }
  }

  lemma LastBlock(addr: nat, len: nat)
    requires Sectors(addr, len)
    ensures BlockCount(addr, len) == 0 <==> len == 0
  {
  }

  lemma WipedMore(c: Chip, addr: nat, n: nat, rest: nat)
    requires addr + n + rest <= CHIP_SIZE && c.fuse > 0
    ensures Wiped(EraseBlock(c, addr, n).mem, addr + n, rest) == Wiped(c.mem, addr, n + rest)
  {
    WipeConcat(c.mem, addr, n, rest);
  }

  lemma SumOfSectors(n: nat, m: nat)
    requires n % SECTOR_SIZE == 0 && m % SECTOR_SIZE == 0
    ensures (n + m) % SECTOR_SIZE == 0
  {
  }

  /** How many erase commands the decomposition takes. */
  function BlockCount(addr: nat, len: nat): nat
    requires Sectors(addr, len)
    decreases len
  {
    if len == 0 then 0 else 1 + BlockCount(addr + Block(addr, len), len - Block(addr, len))
  }

  lemma CountStep(addr: nat, len: nat, n: nat)
    requires Sectors(addr, len) && len > 0 && n == Block(addr, len)
    ensures BlockCount(addr, len) == 1 + BlockCount(addr + n, len - n)
  {
  }

  /** The erase is reported as done exactly when that many commands are. */
  lemma {:induction false} EraseSteps(c: Chip, addr: nat, len: nat)
    requires Sectors(addr, len)
    ensures EraseFrom(c, addr, len).1 <==> BlockCount(addr, len) <= Good(c)
    decreases len
  {
    if len > 0 && Good(c) > 0 {
      var n := Block(addr, len);
      EraseStep(c, addr, len, n);
      CountStep(addr, len, n);
      EraseSteps(EraseBlock(c, addr, n), addr + n, len - n);
    } else if len > 0 {
      CountStep(addr, len, Block(addr, len));
    }
  }

  /** What an erase leaves on a device that may stop: it succeeds exactly when all k
      commands are reported as done.  It wipes a leading part: all of it if the device
      carries out all commands, short of the last sector if not, none of it if the
      device carries out none. */
  lemma EraseCut(c: Chip, addr: nat, len: nat, k: nat) returns (d: nat)
    requires Sectors(addr, len) && len > 0 && k == BlockCount(addr, len)
    ensures EraseTo(c, addr, len).1 <==> Good(c) >= k
    ensures d <= len && (d == 0 <==> c.fuse == 0) && EraseTo(c, addr, len).0.mem == Wiped(c.mem, addr, d)
    ensures if c.fuse < k then d + SECTOR_SIZE <= len else d == len
  {
    EraseSteps(c, addr, len);
    d := EraseExact(c, addr, len);
    ShortOfSector(d, len);
  }

  lemma ShortOfSector(d: nat, len: nat)
    requires d % SECTOR_SIZE == 0 && len % SECTOR_SIZE == 0 && d <= len
    ensures d == len || d + SECTOR_SIZE <= len
  {
  }

  /** A device that works long enough erases it all. */
  lemma {:induction false} EraseSucceeds(c: Chip, addr: nat, len: nat)
    requires Sectors(addr, len) && len <= Good(c)
    ensures var r := EraseFrom(c, addr, len); r.1 && r.0.readable == c.readable && Good(c) <= Good(r.0) + len
    decreases len
  {
    if len > 0 {
      var n := Block(addr, len);
      EraseSucceeds(EraseBlock(c, addr, n), addr + n, len - n);
    }
  }

  /* ---- the driver ---- */

  class W25q {
    var chip: Chip

    constructor (c: Chip)
      ensures chip == c
    {
      chip := c;
    }

    method Read(addr: nat, n: nat) returns (ok: bool, buf: seq<Byte>)
      ensures ok <==> (chip.readable || n == 0) && addr < CHIP_SIZE && n <= CHIP_SIZE - addr
      ensures ok ==> buf == chip.mem[addr..addr + n]
    {
      if addr >= CHIP_SIZE || CHIP_SIZE - addr < n {
        return false, [];
      }
      if !chip.readable && n > 0 {
        return false, [];
      }
      var off, at := 0, addr;
      buf := [];
      while off < n
        invariant off <= n && at == addr + off && buf == chip.mem[addr..at]
      {
        var chunk := Min(n - off, 0xFFFF);
        buf := buf + chip.mem[at..at + chunk];
        at := at + chunk;
        off := off + chunk;
      }
      ok := true;
    }

    method Write(addr: nat, buf: seq<Byte>) returns (ok: bool)
      modifies this
      ensures (chip, ok) == WriteTo(old(chip), addr, buf)
      ensures buf == [] ==> ok && chip == old(chip)
      ensures buf != [] && (addr % 256 + |buf| > 256 || addr + |buf| > 0x100_0000) ==> !ok && chip == old(chip)
    {
      if buf == [] {
        return true;
      }
      if addr % PAGE_SIZE + |buf| > PAGE_SIZE || addr + |buf| > CHIP_SIZE {
        return false;
      }
      ok := |buf| <= Good(chip);
      chip := Burn(chip, addr, buf);
    }

    method EraseOne(addr: nat, n: nat) returns (ok: bool)
      requires addr + n <= CHIP_SIZE
      modifies this
      ensures ok <==> Good(old(chip)) > 0
      ensures chip == if old(chip).fuse > 0 then EraseBlock(old(chip), addr, n) else old(chip)
    {
      if chip.fuse == 0 {
        return false;
      }
      ok := Good(chip) > 0;
      chip := chip.(mem := Wiped(chip.mem, addr, n), fuse := chip.fuse - 1);
    }

    method Erase(addr: nat, len: nat) returns (ok: bool)
      modifies this
      ensures (chip, ok) == EraseTo(old(chip), addr, len)
      ensures len == 0 || addr % 4096 != 0 || len % 4096 != 0 || addr + len > 0x100_0000 ==>
                !ok && chip == old(chip)
    {
      if len == 0 || addr % SECTOR_SIZE != 0 || len % SECTOR_SIZE != 0 || addr + len > CHIP_SIZE {
        return false;
      }
      var at, rest := addr, len;
      while rest > 0
        invariant Sectors(at, rest)
        invariant EraseFrom(chip, at, rest) == EraseFrom(old(chip), addr, len)
      {
        var n := Block(at, rest);
        var done := EraseOne(at, n);
        if !done {
          return false;
        }
        at := at + n;
        rest := rest - n;
      }
      ok := true;
    }

    /** One chunk of a range write: up to the end of the page. */
    method WriteChunk(at: nat, chunk: seq<Byte>, ghost c0: Chip, ghost addr: nat, ghost before: seq<Byte>)
      returns (ok: bool)
      requires at == addr + |before| < CHIP_SIZE && 0 < |chunk| <= PAGE_SIZE - at % PAGE_SIZE
      requires |before| <= Good(c0) && chip == Burn(c0, addr, before)
      modifies this
      ensures at + |chunk| <= CHIP_SIZE && chip == Burn(c0, addr, before + chunk)
      ensures ok <==> |before| + |chunk| <= Good(c0)
    {
      PageInside(at);
      ok := Write(at, chunk);
      BurnConcat(c0, addr, before, chunk);
    }

    /** `LfsNor::write`: any range, cut at page ends.  What lies inside the chip is
        one flat program up to the failing step, no piece breaks the page rule, and
        the first piece beyond the end is refused. */
    method WriteAny(addr: nat, data: seq<Byte>) returns (ok: bool)
      modifies this
      ensures ok <==> data == [] || (addr + |data| <= CHIP_SIZE && |data| <= Good(old(chip)))
      ensures chip == if addr >= CHIP_SIZE then old(chip) else Burn(old(chip), addr, data[..Fitting(addr, |data|)])
    {
      var at, p := addr, 0;
      assert addr < CHIP_SIZE ==> Programmed(chip.mem, addr, []) == chip.mem;
      while p < |data|
        invariant p <= Fitting(addr, |data|) && at == addr + p && p <= Good(old(chip))
        invariant chip == if addr >= CHIP_SIZE then old(chip) else Burn(old(chip), addr, data[..p])
      {
        var chunk := Min(PAGE_SIZE - at % PAGE_SIZE, |data| - p);
        if at >= CHIP_SIZE {
          ok := Write(at, data[p..p + chunk]);
          return;
        }
        ok := WriteChunk(at, data[p..p + chunk], old(chip), addr, data[..p]);
        assert data[..p] + data[p..p + chunk] == data[..p + chunk];
        if !ok {
          ghost var n := Fitting(addr, |data|);
          assert data[..p + chunk] + data[p + chunk..n] == data[..n];
          BurnShort(old(chip), addr, data[..p + chunk], data[p + chunk..n]);
          return;
        }
        at := at + chunk;
        p := p + chunk;
      }
      ok := true;
    }
  }

  /** How much of a range lies inside the chip. */
  function Fitting(addr: nat, n: nat): nat {
    if addr >= CHIP_SIZE then 0 else Min(n, CHIP_SIZE - addr)
  }

  lemma PageInside(at: nat)
    requires at < CHIP_SIZE
    ensures at + (PAGE_SIZE - at % PAGE_SIZE) <= CHIP_SIZE
  {
  }
}
