/** Where byte `pos` of a CTZ skip-list file lives.

    Block 0 of a file is all data; block k > 0 starts with ctz(k)+1 four-byte
    pointers.  `Index` is the closed form littlefs computes with one division
    and a popcount; `Start` sums the capacities block by block. */
module CtzIndex {
  import opened Bits

  const LIMIT32: nat := 0x1_0000_0000

  /** Pointer bytes at the front of block k. */
  function Header(k: nat): nat {
    if k == 0 then 0 else 4 * (Ctz(k) + 1)
  }

  function Capacity(blockSize: nat, k: nat): int {
    blockSize - Header(k)
  }

  /** File offset of the first data byte of block i. */
  function Start(blockSize: nat, i: nat): int {
    if i == 0 then 0 else Start(blockSize, i - 1) + Capacity(blockSize, i - 1)
  }

  lemma Distribute(b: int, i: int)
    ensures b * (i + 1) == b * i + b
  {
  }

  /** The sum of ctz(1..n) is n - popcount(n), so the capacities have a closed form. */
  lemma {:induction false} StartClosed(blockSize: nat, i: nat)
    requires blockSize >= 128 && i > 0
    ensures Start(blockSize, i) == (blockSize - 8) * i + 8 + 4 * Popc(i - 1)
  {
    if i > 1 {
      StartClosed(blockSize, i - 1);
      PopcStep(i - 1);
      Distribute(blockSize - 8, i - 1);
    }
  }

  /** Division by the variable b, as two inequalities. */
  lemma DivBounds(x: nat, b: nat)
    requires b > 0
    ensures b * (x / b) <= x < b * (x / b) + b
  {
  }

  lemma DivUnique(x: int, b: nat, q: int)
    requires b > 0 && b * q <= x < b * q + b
    ensures x / b == q
  {
    var d := x / b;
    Distribute(b, d);
    Distribute(b, q);
    assert d < q ==> b * (d + 1) <= b * q;
    assert d > q ==> b * (q + 1) <= b * d;
  }

  lemma Pow26()
    ensures Pow2(26) == 0x400_0000
  {
    assert Pow2(10) == 1024;
    assert Pow2(20) == 1024 * 1024;
  }

  /** A 32-bit offset has fewer than 2^26 blocks before it. */
  lemma FewBlocks(b: nat, x: nat, i: nat)
    requires b >= 120 && b * i <= x < LIMIT32
    ensures i < 0x400_0000 && Popc(i) <= 26 && (i > 0 ==> Ctz(i) < 26)
    ensures i > 0 ==> Popc(i - 1) <= 26
  {
    assert 120 * i <= b * i;
    Pow26();
    PopcBelow(i, 26);
    if i > 0 {
      CtzBelow(i, 26);
      PopcBelow(i - 1, 26);
    }
  }

  lemma DivNonNegative(x: int, b: int)
    requires x >= 0 && b > 0
    ensures x / b >= 0
  {
  }

  lemma TimesPositive(b: nat, q: nat)
    requires q > 0
    ensures b * q >= b
  {
  }

  /** The unsigned subtraction in the closed form never goes below zero. */
  lemma NoUnderflow(b: nat, size: nat, q: nat)
    requires b >= 120 && size < LIMIT32 && q == size / b && q > 0
    ensures size >= 4 * (Popc(q - 1) + 2)
    ensures (size - 4 * (Popc(q - 1) + 2)) / b >= 0
  {
    assert b * q <= size by { DivBounds(size, b); }
    FewBlocks(b, size, q);
    TimesPositive(b, q);
    DivNonNegative(size - 4 * (Popc(q - 1) + 2), b);
  }

  /** `lfs_ctz_index`: block index and offset inside that block. */
  function Index(blockSize: nat, size: nat): (r: (nat, int))
    requires blockSize >= 128 && size < LIMIT32
  {
    var b := blockSize - 8;
    DivNonNegative(size, b);
    var i := size / b;
    if i == 0 then (0, size) else
      NoUnderflow(b, size, i);
      var j := (size - 4 * (Popc(i - 1) + 2)) / b;
      (j, size - b * j - 4 * Popc(j))
  }

  ghost predicate Holds(blockSize: nat, pos: nat, i: nat) {
    Start(blockSize, i) <= pos < Start(blockSize, i + 1)
  }

  /** The block before the naive quotient, or the quotient itself, holds pos. */
  lemma QuotientHolds(blockSize: nat, pos: nat, q: nat, i: nat)
    requires blockSize >= 128 && pos < LIMIT32
    requires q == pos / (blockSize - 8) && q > 0
    requires i == q || i == q - 1
    requires var b := blockSize - 8; b * i <= pos - 4 * (Popc(q - 1) + 2) < b * i + b
    ensures Holds(blockSize, pos, i)
  {
    var b := blockSize - 8;
    DivBounds(pos, b);
    FewBlocks(b, pos, q);
    Distribute(b, i);
    StartClosed(blockSize, i + 1);
    if i > 0 {
      StartClosed(blockSize, i);
      FewBlocks(b, pos, i);
    }
  }

  /** The popcount term of the offset is the header plus the capacities before. */
  lemma OffsetForm(blockSize: nat, i: nat)
    requires blockSize >= 128
    ensures (blockSize - 8) * i + 4 * Popc(i) == Start(blockSize, i) - Header(i)
  {
    if i > 0 {
      StartClosed(blockSize, i);
      PopcStep(i);
    }
  }

  /** The closed form returns the block that holds `pos`, and the byte's offset
      in it, for every 32-bit position and every block size littlefs accepts. */
  lemma IndexCorrect(blockSize: nat, pos: nat)
    requires blockSize >= 128 && pos < LIMIT32
    ensures var (i, off) := Index(blockSize, pos);
      && 0 <= i < 0x400_0000
      && Holds(blockSize, pos, i)
      && off == Header(i) + pos - Start(blockSize, i)
      && Header(i) <= off < blockSize
  {
    var b := blockSize - 8;
    var q := pos / b;
    DivBounds(pos, b);
    FewBlocks(b, pos, q);
    assert Start(blockSize, 1) == blockSize;
    if q > 0 {
      var x := pos - 4 * (Popc(q - 1) + 2);
      Distribute(b, q - 1);
      var i := if b * q <= x then q else q - 1;
      DivUnique(x, b, i);
      QuotientHolds(blockSize, pos, q, i);
      OffsetForm(blockSize, i);
    }
  }

  lemma {:induction false} StartMonotone(blockSize: nat, i: nat, j: nat)
    requires blockSize >= 128 && i <= j <= 0x400_0000
    ensures Start(blockSize, i) <= Start(blockSize, j)
    decreases j
  {
    if i < j {
      StartMonotone(blockSize, i, j - 1);
      Pow26();
      if j > 1 { CtzBelow(j - 1, 26); }
    }
  }

  /** No other block holds the position. */
  lemma IndexUnique(blockSize: nat, pos: nat, j: nat)
    requires blockSize >= 128 && pos < LIMIT32 && Holds(blockSize, pos, j)
    ensures j == Index(blockSize, pos).0
  {
    IndexCorrect(blockSize, pos);
    var i := Index(blockSize, pos).0;
    if j > 0 {
      StartClosed(blockSize, j);
      FewBlocks(blockSize - 8, pos, j);
    }
    if i < j { StartMonotone(blockSize, i + 1, j); }
    if j < i { StartMonotone(blockSize, j + 1, i); }
  }

  /** Every data slot of every block is the position of exactly one byte. */
  lemma IndexOnto(blockSize: nat, i: nat, off: nat)
    requires blockSize >= 128 && Header(i) <= off < blockSize
    requires 0 <= Start(blockSize, i) + off - Header(i) < LIMIT32
    ensures Index(blockSize, Start(blockSize, i) + off - Header(i)) == (i, off)
  {
    var pos := Start(blockSize, i) + off - Header(i);
    IndexUnique(blockSize, pos, i);
    IndexCorrect(blockSize, pos);
  }

  /* ---- the same, block by block ---- */

  /** Walk the blocks from k on until one is large enough. */
  function Walk(blockSize: nat, pos: nat, k: nat): (r: (nat, int))
    decreases pos
  {
    var c := Capacity(blockSize, k);
    if pos < c || c <= 0 then (k, Header(k) + pos) else Walk(blockSize, pos - c, k + 1)
  }

  /** Block and offset of byte `pos`, counted from the first block. */
  function Slot(blockSize: nat, pos: nat): (nat, int) {
    Walk(blockSize, pos, 0)
  }

  lemma {:induction false} WalkIsIndex(blockSize: nat, pos: nat, k: nat)
    requires blockSize >= 128 && pos < LIMIT32 && k <= 0x400_0000 && 0 <= Start(blockSize, k) <= pos
    ensures Walk(blockSize, pos - Start(blockSize, k), k) == Index(blockSize, pos)
    decreases pos - Start(blockSize, k)
  {
    IndexCorrect(blockSize, pos);
    if k > 0 {
      StartClosed(blockSize, k);
      FewBlocks(blockSize - 8, pos, k);
    }
    if pos < Start(blockSize, k + 1) {
      IndexUnique(blockSize, pos, k);
    } else {
      WalkIsIndex(blockSize, pos, k + 1);
    }
  }

  /** The division and popcount compute what walking the blocks finds. */
  lemma IndexIsSlot(blockSize: nat, pos: nat)
    requires blockSize >= 128 && pos < LIMIT32
    ensures Index(blockSize, pos) == Slot(blockSize, pos)
  {
    WalkIsIndex(blockSize, pos, 0);
  }

  lemma SlotCorrect(blockSize: nat, pos: nat)
    requires blockSize >= 128 && pos < LIMIT32
    ensures var (i, off) := Slot(blockSize, pos);
      && i < 0x400_0000 && Holds(blockSize, pos, i)
      && off == Header(i) + pos - Start(blockSize, i) && Header(i) <= off < blockSize
  {
    IndexIsSlot(blockSize, pos);
    IndexCorrect(blockSize, pos);
  }

  lemma SlotOnto(blockSize: nat, i: nat, off: nat)
    requires blockSize >= 128 && Header(i) <= off < blockSize
    requires 0 <= Start(blockSize, i) + off - Header(i) < LIMIT32
    ensures Slot(blockSize, Start(blockSize, i) + off - Header(i)) == (i, off)
  {
    IndexIsSlot(blockSize, Start(blockSize, i) + off - Header(i));
    IndexOnto(blockSize, i, off);
  }

  /** A block that begins at a 32-bit position has a header that fits. */
  lemma StartInRange(blockSize: nat, n: nat)
    requires blockSize >= 128 && Start(blockSize, n) < LIMIT32
    ensures n < 0x400_0000 && 0 <= Start(blockSize, n) && Header(n) <= 104
  {
    if n > 0 {
      StartClosed(blockSize, n);
      assert (blockSize - 8) * n >= 0;
      FewBlocks(blockSize - 8, Start(blockSize, n), n);
    }
  }
}
