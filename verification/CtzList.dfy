/** littlefs files as backwards CTZ skip lists on an erase-block device.

    Pointer j of block k, stored little-endian at byte 4j, names block k - 2^j
    for every j <= ctz(k).  `Find` and `Traverse` follow the pointers, `Extend`
    builds the pointers of a new block out of those of its predecessors, and
    `WriteAt` is the write path on top of them. */
module CtzList {
  import opened Bits
  import opened Bytes
  import opened CtzIndex

  type Block = b: nat | b < LIMIT32
  type Disk = map<Block, seq<Byte>>

  const MAX_LIST: nat := 0x400_0000

  /* ---- the data structure ---- */

  function Ptr(disk: Disk, block: Block, j: nat): Block
    requires block in disk && 4 * j + 4 <= |disk[block]|
  {
    Num32(disk[block][4 * j..4 * j + 4])
  }

  predicate Placed(disk: Disk, blockSize: nat, blocks: seq<Block>) {
    && blockSize >= 128 && |blocks| <= MAX_LIST
    && (forall k :: 0 <= k < |blocks| ==> blocks[k] in disk && |disk[blocks[k]]| == blockSize)
    && (forall k, m :: 0 <= k < m < |blocks| ==> blocks[k] != blocks[m])
  }

  ghost predicate PointsBack(disk: Disk, blockSize: nat, blocks: seq<Block>, k: nat, j: nat)
    requires Placed(disk, blockSize, blocks) && k < |blocks|
  {
    4 * j + 4 <= blockSize && Pow2(j) <= k && Ptr(disk, blocks[k], j) == blocks[k - Pow2(j)]
  }

  ghost predicate SkipList(disk: Disk, blockSize: nat, blocks: seq<Block>) {
    && Placed(disk, blockSize, blocks)
    && (forall k, j :: 0 < k < |blocks| && 0 <= j <= Ctz(k) ==>
          PointsBack(disk, blockSize, blocks, k, j))
  }

  function BlocksFor(blockSize: nat, size: nat): nat
    requires blockSize >= 128 && size < LIMIT32
  {
    if size == 0 then 0 else Slot(blockSize, size - 1).0 + 1
  }

  ghost predicate IsFile(disk: Disk, blockSize: nat, blocks: seq<Block>, size: nat) {
    && SkipList(disk, blockSize, blocks) && size < LIMIT32
    && |blocks| == BlocksFor(blockSize, size)
  }

  /** The byte at file position p. */
  function ByteAt(disk: Disk, blockSize: nat, blocks: seq<Block>, p: nat): Byte
    requires Placed(disk, blockSize, blocks) && p < LIMIT32
    requires Slot(blockSize, p).0 < |blocks|
  {
    SlotCorrect(blockSize, p);
    disk[blocks[Slot(blockSize, p).0]][Slot(blockSize, p).1]
  }

  /** Positions before the end lie in blocks before the end. */
  lemma SlotMonotone(blockSize: nat, p: nat, q: nat)
    requires blockSize >= 128 && p <= q < LIMIT32
    ensures Slot(blockSize, p).0 <= Slot(blockSize, q).0
  {
    SlotCorrect(blockSize, p);
    SlotCorrect(blockSize, q);
    var i, j := Slot(blockSize, p).0, Slot(blockSize, q).0;
    if j < i { StartMonotone(blockSize, j + 1, i); }
  }

  /** A prefix of a file is a file. */
  lemma PrefixIsFile(disk: Disk, blockSize: nat, blocks: seq<Block>, size: nat, pos: nat)
    requires IsFile(disk, blockSize, blocks, size) && pos <= size
    ensures BlocksFor(blockSize, pos) <= |blocks|
    ensures IsFile(disk, blockSize, blocks[..BlocksFor(blockSize, pos)], pos)
  {
    if 0 < pos { SlotMonotone(blockSize, pos - 1, size - 1); }
    var n := BlocksFor(blockSize, pos);
    forall k, j | 0 < k < n && 0 <= j <= Ctz(k)
      ensures PointsBack(disk, blockSize, blocks[..n], k, j)
    {
      assert PointsBack(disk, blockSize, blocks, k, j);
    }
  }

  /* ---- search ---- */

  /** How many hops remain: climb until ctz reaches the distance's magnitude,
      then descend one binary digit a hop. */
  function HopBound(current: nat, target: nat): nat
    requires target <= current
  {
    if current == target then 0 else
      var l := Log2(current - target);
      if Ctz(current) >= l then l + 1 else 2 * l + 1 - Ctz(current)
  }

  function Skip(current: nat, target: nat): nat
    requires target < current
  {
    var far := Npw2(current - target + 1) - 1;
    if far < Ctz(current) then far else Ctz(current)
  }

  /** Climbing: the next block has strictly more trailing zeros. */
  lemma Climb(current: nat, target: nat)
    requires target < current && Ctz(current) < Log2(current - target)
    ensures Pow2(Ctz(current)) <= current - target
    ensures HopBound(current - Pow2(Ctz(current)), target) < HopBound(current, target)
  {
    var d, c := current - target, Ctz(current);
    Log2Bounds(d);
    PowMonotone(c, Log2(d));
    CtzMinusLowest(current);
    if d > Pow2(c) { Log2Monotone(d - Pow2(c), d); }
  }

  /** Descending: the hop removes the distance's highest binary digit. */
  lemma Descend(current: nat, target: nat)
    requires target < current && Log2(current - target) <= Ctz(current)
    ensures var l := Log2(current - target);
      Pow2(l) <= current - target && HopBound(current - Pow2(l), target) < HopBound(current, target)
  {
    var d := current - target;
    var l := Log2(d);
    Log2Bounds(d);
    if l < Ctz(current) { CtzMinusLower(current, l); } else { CtzMinusLowest(current); }
    if d > Pow2(l) { Log2Below(d - Pow2(l), l); }
  }

  /** A hop never overshoots, uses a pointer the block has, and lowers the bound. */
  lemma HopProgress(current: nat, target: nat)
    requires target < current
    ensures Skip(current, target) <= Ctz(current)
    ensures Pow2(Skip(current, target)) <= current - target
    ensures HopBound(current - Pow2(Skip(current, target)), target) < HopBound(current, target)
  {
    if Ctz(current) < Log2(current - target) {
      Climb(current, target);
    } else {
      Descend(current, target);
    }
  }

  lemma {:induction false} PowMonotone(i: nat, j: nat)
    requires i <= j
    ensures Pow2(i) <= Pow2(j)
    decreases j
  {
    if i < j { PowMonotone(i, j - 1); }
  }

  /** The search loop: from block `current` to block `target` by pointers alone. */
  method Search(disk: Disk, blockSize: nat, head: Block, start: nat, target: nat, ghost blocks: seq<Block>)
    returns (block: Block, hops: nat)
    requires SkipList(disk, blockSize, blocks) && target <= start < |blocks| && head == blocks[start]
    ensures block == blocks[target] && hops <= HopBound(start, target)
  {
    var current := start;
    block, hops := head, 0;
    while current > target
      invariant target <= current <= start && block == blocks[current]
      invariant hops + HopBound(current, target) <= HopBound(start, target)
      decreases current
    {
      HopProgress(current, target);
      var skip := Skip(current, target);
      assert PointsBack(disk, blockSize, blocks, current, skip);
      block := Ptr(disk, block, skip);
      current := current - Pow2(skip);
      hops := hops + 1;
    }
  }

  lemma HopBoundLog(current: nat, target: nat)
    requires target < current
    ensures HopBound(current, target) <= 2 * Log2(current - target) + 1
  {
  }

  /** `lfs_ctz_find`: lands on the block and offset of `pos`, in at most
      2 log2(d) + 1 reads for a file end d blocks away. */
  method Find(disk: Disk, blockSize: nat, head: Block, size: nat, pos: nat, ghost blocks: seq<Block>)
    returns (block: Block, off: nat, hops: nat)
    requires IsFile(disk, blockSize, blocks, size)
    requires size > 0 ==> pos < size && head == blocks[|blocks| - 1]
    ensures size == 0 ==> block == BLOCK_NULL && off == 0 && hops == 0
    ensures size > 0 ==>
      && Slot(blockSize, pos).0 < |blocks|
      && (block, off) == (blocks[Slot(blockSize, pos).0], Slot(blockSize, pos).1)
      && off < blockSize && disk[block][off] == ByteAt(disk, blockSize, blocks, pos)
      && var d := |blocks| - 1 - Slot(blockSize, pos).0;
         hops <= if d == 0 then 0 else 2 * Log2(d) + 1
  {
    if size == 0 {
      return BLOCK_NULL, 0, 0;
    }
    SlotMonotone(blockSize, pos, size - 1);
    SlotCorrect(blockSize, pos);
    IndexIsSlot(blockSize, size - 1);
    IndexIsSlot(blockSize, pos);
    var current := Index(blockSize, size - 1).0;
    var (target, inBlock) := Index(blockSize, pos);
    if target < current { HopBoundLog(current, target); }
    block, hops := Search(disk, blockSize, head, current, target, blocks);
    off := inBlock;
  }

  /** `lfs_ctz_traverse`: reports every block of the file exactly once, last first. */
  method Traverse(disk: Disk, blockSize: nat, head: Block, size: nat, ghost blocks: seq<Block>)
    returns (visited: seq<Block>)
    requires IsFile(disk, blockSize, blocks, size)
    requires size > 0 ==> head == blocks[|blocks| - 1]
    ensures |visited| == |blocks|
    ensures forall m :: 0 <= m < |visited| ==> visited[m] == blocks[|blocks| - 1 - m]
  {
    visited := [];
    if size == 0 {
      return;
    }
    IndexIsSlot(blockSize, size - 1);
    var index, block := Index(blockSize, size - 1).0, head;
    while true
      invariant 0 <= index < |blocks| && block == blocks[index]
      invariant |visited| == |blocks| - 1 - index
      invariant forall m :: 0 <= m < |visited| ==> visited[m] == blocks[|blocks| - 1 - m]
      decreases index
    {
      visited := visited + [block];
      if index == 0 {
        return;
      }
      var count := 2 - index % 2;
      assert PointsBack(disk, blockSize, blocks, index, 0);
      assert count == 2 ==> PointsBack(disk, blockSize, blocks, index, 1);
      if count == 2 {
        visited := visited + [Ptr(disk, block, 0)];
      }
      block := Ptr(disk, block, count - 1);
      index := index - count;
    }
  }

  /* ---- growth ---- */

  predicate Erased(s: seq<Byte>, from: nat) {
    Blank(s, from, |s|)
  }

  /** Only blocks in `changed` may differ. */
  ghost predicate Frame(disk: Disk, disk': Disk, changed: set<Block>) {
    disk.Keys <= disk'.Keys && forall b :: b in disk && b !in changed ==> disk'[b] == disk[b]
  }

  /** The erase-block device; data is only ever programmed onto erased bytes. */
  class Device {
    const blockSize: nat
    var mem: Disk

    constructor (blockSize: nat, mem: Disk)
      ensures this.blockSize == blockSize && this.mem == mem
    {
      this.blockSize := blockSize;
      this.mem := mem;
    }

    method Erase(block: Block)
      modifies this
      ensures Frame(old(mem), mem, {block})
      ensures block in mem && |mem[block]| == blockSize && Erased(mem[block], 0)
    {
      mem := mem[block := seq(blockSize, _ => 0xFF)];
    }

    /** A block that fails to erase or program is left holding anything. */
    method Spoil(block: Block, junk: seq<Byte>)
      modifies this
      ensures Frame(old(mem), mem, {block})
    {
      mem := mem[block := junk];
    }

    /** A program that fails leaves anything behind its offset. */
    method Garble(block: Block, off: nat, junk: seq<Byte>)
      requires block in mem && off <= |mem[block]|
      modifies this
      ensures Frame(old(mem), mem, {block}) && block in mem && |mem[block]| == |old(mem[block])|
      ensures forall o :: 0 <= o < off ==> mem[block][o] == old(mem[block])[o]
    {
      var n := |mem[block]| - off;
      var fill := if |junk| < n then junk + mem[block][off + |junk|..] else junk[..n];
      mem := mem[block := mem[block][..off] + fill];
    }

    method Prog(block: Block, off: nat, data: seq<Byte>)
      requires block in mem && off + |data| <= |mem[block]| && Erased(mem[block], off)
      modifies this
      ensures Frame(old(mem), mem, {block}) && block in mem
      ensures mem[block] == old(mem[block])[..off] + data + old(mem[block])[off + |data|..]
    {
      mem := mem[block := mem[block][..off] + data + mem[block][off + |data|..]];
    }
  }

  /** A candidate from the allocator.  A bad one keeps some junk and fails; one that
      refuses takes pointers and copied bytes but fails to program new data. */
  datatype Attempt = Attempt(block: Block, bad: bool, junk: seq<Byte>, refuses: bool)

  /** Blocks unaffected by writing block b keep their pointers and data. */
  lemma FrameSkipList(disk: Disk, disk': Disk, blockSize: nat, blocks: seq<Block>)
    requires SkipList(disk, blockSize, blocks)
    requires forall k :: 0 <= k < |blocks| ==> blocks[k] in disk' && disk'[blocks[k]] == disk[blocks[k]]
    ensures SkipList(disk', blockSize, blocks)
  {
    forall k, j | 0 < k < |blocks| && 0 <= j <= Ctz(k)
      ensures PointsBack(disk', blockSize, blocks, k, j)
    {
      assert PointsBack(disk, blockSize, blocks, k, j);
    }
  }

  /** Adding block n with the right pointers keeps the skip list. */
  lemma PushBlock(disk: Disk, blockSize: nat, blocks: seq<Block>, b: Block)
    requires SkipList(disk, blockSize, blocks) && |blocks| < MAX_LIST
    requires b !in blocks && b in disk && |disk[b]| == blockSize
    requires |blocks| > 0 ==> Header(|blocks|) <= blockSize && PointersTo(disk, b, blocks, Ctz(|blocks|) + 1)
    ensures SkipList(disk, blockSize, blocks + [b])
  {
    var blocks' := blocks + [b];
    forall k, j | 0 < k < |blocks'| && 0 <= j <= Ctz(k)
      ensures PointsBack(disk, blockSize, blocks', k, j)
    {
      if k < |blocks| {
        OldPoints(disk, blockSize, blocks, b, k, j);
      } else {
        NewPoints(disk, blockSize, blocks, b, j);
      }
    }
  }

  lemma OldPoints(disk: Disk, blockSize: nat, blocks: seq<Block>, b: Block, k: nat, j: nat)
    requires SkipList(disk, blockSize, blocks) && Placed(disk, blockSize, blocks + [b])
    requires 0 < k < |blocks| && j <= Ctz(k)
    ensures PointsBack(disk, blockSize, blocks + [b], k, j)
  {
    assert PointsBack(disk, blockSize, blocks, k, j);
  }

  lemma NewPoints(disk: Disk, blockSize: nat, blocks: seq<Block>, b: Block, j: nat)
    requires Placed(disk, blockSize, blocks + [b]) && 0 < |blocks| && j <= Ctz(|blocks|)
    requires b in disk && |disk[b]| == blockSize
    requires Header(|blocks|) <= blockSize && PointersTo(disk, b, blocks, Ctz(|blocks|) + 1)
    ensures PointsBack(disk, blockSize, blocks + [b], |blocks|, j)
  {
  }

  /** Program pointer i of a block whose earlier pointers are in place. */
  method PutPointer(dev: Device, block: Block, i: nat, target: Block, ghost blocks: seq<Block>)
    requires block in dev.mem && 4 * i + 4 <= |dev.mem[block]| && Erased(dev.mem[block], 4 * i)
    requires PointersTo(dev.mem, block, blocks, i)
    requires Pow2(i) <= |blocks| && target == blocks[|blocks| - Pow2(i)]
    modifies dev
    ensures Frame(old(dev.mem), dev.mem, {block}) && block in dev.mem
    ensures |dev.mem[block]| == |old(dev.mem[block])| && Erased(dev.mem[block], 4 * i + 4)
    ensures PointersTo(dev.mem, block, blocks, i + 1)
  {
    ghost var was := dev.mem[block];
    dev.Prog(block, 4 * i, Le32(target));
    ghost var now := dev.mem[block];
    Num32Le32(target);
    assert now[4 * i..4 * i + 4] == Le32(target);
    forall j | 0 <= j < i
      ensures Pow2(j) <= |blocks| && Ptr(dev.mem, block, j) == blocks[|blocks| - Pow2(j)]
    {
      assert now[4 * j..4 * j + 4] == was[4 * j..4 * j + 4];
      assert Ptr(old(dev.mem), block, j) == blocks[|blocks| - Pow2(j)];
    }
  }

  ghost predicate PointersTo(disk: Disk, block: Block, blocks: seq<Block>, n: nat)
    requires block in disk && 4 * n <= |disk[block]|
  {
    forall j :: 0 <= j < n ==>
      Pow2(j) <= |blocks| && Ptr(disk, block, j) == blocks[|blocks| - Pow2(j)]
  }

  /** The pointer loop of `lfs_ctz_extend`: block n's pointer i is read from
      pointer i-1 of the block that pointer i-1 just named. */
  method WritePointers(dev: Device, block: Block, head: Block, index: nat, ghost blocks: seq<Block>)
    requires SkipList(dev.mem, dev.blockSize, blocks)
    requires 0 < index == |blocks| && head == blocks[index - 1]
    requires block in dev.mem && block !in blocks && Header(index) <= dev.blockSize
    requires |dev.mem[block]| == dev.blockSize && Erased(dev.mem[block], 0)
    modifies dev
    ensures Frame(old(dev.mem), dev.mem, {block}) && block in dev.mem && |dev.mem[block]| == dev.blockSize
    ensures Erased(dev.mem[block], Header(index))
    ensures PointersTo(dev.mem, block, blocks, Ctz(index) + 1)
  {
    var skips := Ctz(index) + 1;
    var nhead := head;
    ghost var disk := dev.mem;
    for i := 0 to skips
      invariant PointersSoFar(disk, dev.mem, dev.blockSize, block, blocks, i)
      invariant i < skips ==> Pow2(i) <= index && nhead == blocks[index - Pow2(i)]
    {
      nhead := PointerTurn(dev, block, i, skips, nhead, disk, blocks);
    }
  }

  /** The first i pointers of the new block are in place, and nothing else changed. */
  ghost predicate PointersSoFar(disk: Disk, disk': Disk, blockSize: nat, block: Block, blocks: seq<Block>, i: nat) {
    && Frame(disk, disk', {block}) && block in disk' && |disk'[block]| == blockSize && 4 * i <= blockSize
    && Erased(disk'[block], 4 * i) && PointersTo(disk', block, blocks, i)
  }

  method PointerTurn(dev: Device, block: Block, i: nat, skips: nat, nhead: Block, ghost disk: Disk,
                     ghost blocks: seq<Block>)
    returns (next: Block)
    requires SkipList(disk, dev.blockSize, blocks) && 0 < |blocks| && block !in blocks
    requires i < skips == Ctz(|blocks|) + 1 && Header(|blocks|) <= dev.blockSize
    requires PointersSoFar(disk, dev.mem, dev.blockSize, block, blocks, i)
    requires Pow2(i) <= |blocks| && nhead == blocks[|blocks| - Pow2(i)]
    modifies dev
    ensures PointersSoFar(disk, dev.mem, dev.blockSize, block, blocks, i + 1)
    ensures i + 1 < skips ==> Pow2(i + 1) <= |blocks| && next == blocks[|blocks| - Pow2(i + 1)]
  {
    next := nhead;
    PutPointer(dev, block, i, nhead, blocks);
    if i != skips - 1 {
      next := Follow(dev, nhead, i, disk, blocks, block);
    }
  }

  /** Read pointer i of block n - 2^i while block n is being written. */
  method Follow(dev: Device, from: Block, i: nat, ghost disk: Disk, ghost blocks: seq<Block>, ghost b: Block)
    returns (to: Block)
    requires SkipList(disk, dev.blockSize, blocks) && 0 < |blocks| && i < Ctz(|blocks|)
    requires Frame(disk, dev.mem, {b}) && b !in blocks
    requires Pow2(i) <= |blocks| && from == blocks[|blocks| - Pow2(i)]
    ensures Pow2(i + 1) <= |blocks| && to == blocks[|blocks| - Pow2(i + 1)]
  {
    NextPointer(disk, dev.mem, dev.blockSize, blocks, b, i);
    to := Ptr(dev.mem, from, i);
  }

  /** Pointer i of block n - 2^i names block n - 2^(i+1), and still does while
      block n is being written. */
  lemma NextPointer(disk: Disk, disk': Disk, blockSize: nat, blocks: seq<Block>, b: Block, i: nat)
    requires SkipList(disk, blockSize, blocks) && 0 < |blocks| && i < Ctz(|blocks|)
    requires Frame(disk, disk', {b}) && b !in blocks
    ensures Pow2(i + 1) <= |blocks| && 4 * i + 4 <= blockSize
    ensures var from := blocks[|blocks| - Pow2(i)];
      && from in disk' && |disk'[from]| == blockSize
      && Ptr(disk', from, i) == blocks[|blocks| - Pow2(i + 1)]
  {
    var n := |blocks|;
    CtzMinusLower(n, i);
    CtzLow(n, i + 1);
    assert PointsBack(disk, blockSize, blocks, n - Pow2(i), i);
  }

  /* ---- one more byte position ---- */

  /** The position after a byte is the next slot of its block ... */
  lemma NextInBlock(blockSize: nat, pos: nat)
    requires blockSize >= 128 && pos + 1 < LIMIT32 && Slot(blockSize, pos).1 + 1 < blockSize
    ensures Slot(blockSize, pos + 1) == (Slot(blockSize, pos).0, Slot(blockSize, pos).1 + 1)
  {
    SlotCorrect(blockSize, pos);
    SlotOnto(blockSize, Slot(blockSize, pos).0, Slot(blockSize, pos).1 + 1);
  }

  /** ... or the first data slot of the next block. */
  lemma NextBlock(blockSize: nat, pos: nat)
    requires blockSize >= 128 && pos + 1 < LIMIT32 && Slot(blockSize, pos).1 + 1 == blockSize
    ensures var n := Slot(blockSize, pos).0 + 1;
      n < MAX_LIST && Header(n) < blockSize && Slot(blockSize, pos + 1) == (n, Header(n))
  {
    SlotCorrect(blockSize, pos);
    var n := Slot(blockSize, pos).0 + 1;
    assert Start(blockSize, n) == pos + 1;
    StartInRange(blockSize, n);
    SlotOnto(blockSize, n, Header(n));
  }

  /** The same bytes at the same positions, and room for the next one at
      `off` of the last block. */
  ghost predicate Extended(disk: Disk, blocks: seq<Block>, disk': Disk, blocks': seq<Block>,
                           blockSize: nat, size: nat, block: Block, off: nat)
    requires IsFile(disk, blockSize, blocks, size)
  {
    && SkipList(disk', blockSize, blocks')
    && |blocks'| == Slot(blockSize, size).0 + 1 && block == blocks'[|blocks'| - 1]
    && off == Slot(blockSize, size).1 && Erased(disk'[block], off)
    && SameBytes(disk, blocks, disk', blocks', blockSize, size)
  }

  ghost predicate SameBytes(disk: Disk, blocks: seq<Block>, disk': Disk, blocks': seq<Block>,
                            blockSize: nat, size: nat)
    requires Placed(disk, blockSize, blocks) && Placed(disk', blockSize, blocks') && size < LIMIT32
  {
    forall p: nat :: p < size && Slot(blockSize, p).0 < |blocks| ==>
      && Slot(blockSize, p).0 < |blocks'|
      && ByteAt(disk', blockSize, blocks', p) == ByteAt(disk, blockSize, blocks, p)
  }

  /** The copy loop for an incomplete last block. */
  method CopyBytes(dev: Device, from: Block, to: Block, n: nat)
    requires from in dev.mem && to in dev.mem && from != to
    requires n <= |dev.mem[from]| && n <= |dev.mem[to]| && Erased(dev.mem[to], 0)
    modifies dev
    ensures Frame(old(dev.mem), dev.mem, {to}) && to in dev.mem && |dev.mem[to]| == |old(dev.mem[to])|
    ensures forall o :: 0 <= o < n ==> dev.mem[to][o] == old(dev.mem[from])[o]
    ensures Erased(dev.mem[to], n)
  {
    for i := 0 to n
      invariant Frame(old(dev.mem), dev.mem, {to}) && to in dev.mem
      invariant |dev.mem[to]| == |old(dev.mem[to])| && Erased(dev.mem[to], i)
      invariant forall o :: 0 <= o < i ==> dev.mem[to][o] == old(dev.mem[from])[o]
    {
      dev.Prog(to, i, [dev.mem[from][i]]);
    }
  }

  /** A copy of the last block's front, header included, can replace it. */
  lemma CopyKeepsList(disk: Disk, disk': Disk, blockSize: nat, blocks: seq<Block>, b: Block, noff: nat)
    requires SkipList(disk, blockSize, blocks) && |blocks| > 0 && b !in blocks
    requires Frame(disk, disk', {b}) && b in disk' && |disk'[b]| == blockSize
    requires Header(|blocks| - 1) <= noff <= blockSize
    requires forall o :: 0 <= o < noff ==> disk'[b][o] == disk[blocks[|blocks| - 1]][o]
    ensures SkipList(disk', blockSize, blocks[..|blocks| - 1] + [b])
  {
    var n := |blocks| - 1;
    var rest, last := blocks[..n], blocks[n];
    assert SkipList(disk', blockSize, rest) by {
      forall k, j | 0 < k < n && 0 <= j <= Ctz(k) ensures PointsBack(disk, blockSize, rest, k, j) {
        assert PointsBack(disk, blockSize, blocks, k, j);
      }
      FrameSkipList(disk, disk', blockSize, rest);
    }
    if n > 0 {
      forall j | 0 <= j < Ctz(n) + 1
        ensures Pow2(j) <= n && Ptr(disk', b, j) == rest[n - Pow2(j)]
      {
        assert PointsBack(disk, blockSize, blocks, n, j);
        assert disk'[b][4 * j..4 * j + 4] == disk[last][4 * j..4 * j + 4];
      }
    }
    PushBlock(disk', blockSize, rest, b);
  }

  /** Replacing the last block by a copy of its used bytes. */
  lemma CopyExtends(disk: Disk, disk': Disk, blockSize: nat, blocks: seq<Block>, size: nat, b: Block, noff: nat)
    requires IsFile(disk, blockSize, blocks, size) && size > 0 && b !in blocks
    requires Frame(disk, disk', {b}) && b in disk' && |disk'[b]| == blockSize
    requires noff == Slot(blockSize, size - 1).1 + 1 < blockSize && Erased(disk'[b], noff)
    requires forall o :: 0 <= o < noff ==> disk'[b][o] == disk[blocks[|blocks| - 1]][o]
    ensures Extended(disk, blocks, disk', blocks[..|blocks| - 1] + [b], blockSize, size, b, noff)
  {
    var n := |blocks| - 1;
    NextInBlock(blockSize, size - 1);
    SlotCorrect(blockSize, size - 1);
    CopyKeepsList(disk, disk', blockSize, blocks, b, noff);
    forall p: nat | p < size
      ensures Slot(blockSize, p).0 <= n
      ensures ByteAt(disk', blockSize, blocks[..n] + [b], p) == ByteAt(disk, blockSize, blocks, p)
    {
      SlotBefore(blockSize, p, size - 1);
      SlotCorrect(blockSize, p);
    }
  }

  /** Earlier positions lie in earlier blocks, or earlier in the same block. */
  lemma SlotBefore(blockSize: nat, p: nat, q: nat)
    requires blockSize >= 128 && p <= q < LIMIT32
    ensures Slot(blockSize, p).0 <= Slot(blockSize, q).0
    ensures Slot(blockSize, p).0 == Slot(blockSize, q).0 ==>
      Slot(blockSize, p).1 <= Slot(blockSize, q).1
  {
    SlotMonotone(blockSize, p, q);
    SlotCorrect(blockSize, p);
    SlotCorrect(blockSize, q);
  }

  /** Appending a block of pointers to a file whose last block is full. */
  lemma PushExtends(disk: Disk, disk': Disk, blockSize: nat, blocks: seq<Block>, size: nat, b: Block)
    requires IsFile(disk, blockSize, blocks, size) && b !in blocks
    requires size > 0 ==> Slot(blockSize, size - 1).1 + 1 == blockSize
    requires Frame(disk, disk', {b}) && b in disk' && |disk'[b]| == blockSize
    requires Header(|blocks|) <= blockSize && Erased(disk'[b], Header(|blocks|))
    requires |blocks| > 0 ==> PointersTo(disk', b, blocks, Ctz(|blocks|) + 1)
    ensures Extended(disk, blocks, disk', blocks + [b], blockSize, size, b, Header(|blocks|))
  {
    if size > 0 { NextBlock(blockSize, size - 1); } else { assert Slot(blockSize, 0) == (0, 0); }
    FrameSkipList(disk, disk', blockSize, blocks);
    PushBlock(disk', blockSize, blocks, b);
    forall p: nat | p < size
      ensures Slot(blockSize, p).0 < |blocks|
      ensures ByteAt(disk', blockSize, blocks + [b], p) == ByteAt(disk, blockSize, blocks, p)
    {
      SlotMonotone(blockSize, p, size - 1);
    }
  }

  /** `lfs_ctz_extend` on a good block. */
  method ExtendInto(dev: Device, nblock: Block, head: Block, size: nat, ghost blocks: seq<Block>)
    returns (off: nat, ghost blocks': seq<Block>)
    requires IsFile(dev.mem, dev.blockSize, blocks, size)
    requires nblock !in blocks && (size > 0 ==> head == blocks[|blocks| - 1])
    modifies dev
    ensures Frame(old(dev.mem), dev.mem, {nblock})
    ensures Extended(old(dev.mem), blocks, dev.mem, blocks', dev.blockSize, size, nblock, off)
    ensures blocks' == blocks + [nblock] || (size > 0 && blocks' == blocks[..|blocks| - 1] + [nblock])
  {
    ghost var disk := dev.mem;
    dev.Erase(nblock);
    if size == 0 {
      PushExtends(disk, dev.mem, dev.blockSize, blocks, size, nblock);
      return 0, [nblock];
    }
    IndexIsSlot(dev.blockSize, size - 1);
    var last := Index(dev.blockSize, size - 1);
    SlotCorrect(dev.blockSize, size - 1);
    var noff := last.1 + 1;
    if noff != dev.blockSize {
      CopyBytes(dev, head, nblock, noff);
      CopyExtends(disk, dev.mem, dev.blockSize, blocks, size, nblock, noff);
      return noff, blocks[..|blocks| - 1] + [nblock];
    }
    NextBlock(dev.blockSize, size - 1);
    FrameSkipList(disk, dev.mem, dev.blockSize, blocks);
    WritePointers(dev, nblock, head, last.0 + 1, blocks);
    PushExtends(disk, dev.mem, dev.blockSize, blocks, size, nblock);
    return Header(last.0 + 1), blocks + [nblock];
  }

  ghost predicate FreshBlocks(attempts: seq<Attempt>, blocks: seq<Block>) {
    && (forall i :: 0 <= i < |attempts| ==> attempts[i].block !in blocks)
    && (forall i, j :: 0 <= i < j < |attempts| ==> attempts[i].block != attempts[j].block)
  }

  function Candidates(attempts: seq<Attempt>): set<Block> {
    set a | a in attempts :: a.block
  }

  /** The first candidate from u on that can be written to at all. */
  function NextGood(attempts: seq<Attempt>, u: nat): (k: nat)
    requires u <= |attempts|
    ensures u <= k <= |attempts| && (k < |attempts| ==> !attempts[k].bad)
    decreases |attempts| - u
  {
    if u == |attempts| || !attempts[u].bad then u else NextGood(attempts, u + 1)
  }

  /** The first from u on that also takes its data. */
  function NextTaker(attempts: seq<Attempt>, u: nat): (k: nat)
    requires u <= |attempts|
    ensures u <= k <= |attempts| && (k < |attempts| ==> !attempts[k].bad && !attempts[k].refuses)
    decreases |attempts| - u
  {
    if u == |attempts| || (!attempts[u].bad && !attempts[u].refuses) then u else NextTaker(attempts, u + 1)
  }

  /** How many from u on take their data. */
  function Takers(attempts: seq<Attempt>, u: nat): nat
    requires u <= |attempts|
    decreases |attempts| - u
  {
    if u == |attempts| then 0
    else (if !attempts[u].bad && !attempts[u].refuses then 1 else 0) + Takers(attempts, u + 1)
  }

  lemma {:induction false} TakersNext(attempts: seq<Attempt>, u: nat)
    requires u <= |attempts|
    ensures var k := NextTaker(attempts, u);
            Takers(attempts, u) == if k == |attempts| then 0 else 1 + Takers(attempts, k + 1)
    decreases |attempts| - u
  {
    if u < |attempts| && (attempts[u].bad || attempts[u].refuses) { TakersNext(attempts, u + 1); }
  }

  // A taker is looked for among the good ones.
  lemma {:induction false} TakerIsGood(attempts: seq<Attempt>, u: nat)
    requires u <= |attempts|
    ensures NextTaker(attempts, NextGood(attempts, u)) == NextTaker(attempts, u)
    decreases |attempts| - u
  {
    if u < |attempts| && attempts[u].bad { TakerIsGood(attempts, u + 1); }
  }

  lemma {:induction false} SkippedTo(attempts: seq<Attempt>, u: nat, n: nat)
    requires u + n <= |attempts| && (forall i :: u <= i < u + n ==> attempts[i].bad)
    requires u + n < |attempts| ==> !attempts[u + n].bad
    ensures NextGood(attempts, u) == u + n
    decreases n
  {
    if n > 0 { SkippedTo(attempts, u + 1, n - 1); }
  }

  /** Candidates that fail are written to and abandoned. */
  method SkipBad(dev: Device, attempts: seq<Attempt>) returns (used: nat)
    modifies dev
    ensures used <= |attempts| && Frame(old(dev.mem), dev.mem, Candidates(attempts[..used]))
    ensures (forall i :: 0 <= i < used ==> attempts[i].bad) && (used < |attempts| ==> !attempts[used].bad)
  {
    used := 0;
    while used < |attempts| && attempts[used].bad
      invariant used <= |attempts| && Frame(old(dev.mem), dev.mem, Candidates(attempts[..used]))
      invariant forall i :: 0 <= i < used ==> attempts[i].bad
    {
      var a := attempts[used];
      OneMore(attempts, used);
      dev.Spoil(a.block, a.junk);
      used := used + 1;
    }
  }

  lemma OneMore(attempts: seq<Attempt>, k: nat)
    requires k < |attempts|
    ensures Candidates(attempts[..k + 1]) == Candidates(attempts[..k]) + {attempts[k].block}
  {
    assert attempts[..k + 1] == attempts[..k] + [attempts[k]];
  }

  /** `lfs_ctz_extend`: bad candidates are abandoned, the first good one is used;
      running out of candidates leaves the file as it was. */
  method Extend(dev: Device, head: Block, size: nat, attempts: seq<Attempt>, ghost blocks: seq<Block>)
    returns (r: Option<(Block, nat)>, used: nat, ghost blocks': seq<Block>)
    requires IsFile(dev.mem, dev.blockSize, blocks, size)
    requires FreshBlocks(attempts, blocks) && (size > 0 ==> head == blocks[|blocks| - 1])
    modifies dev
    ensures used <= |attempts| && Frame(old(dev.mem), dev.mem, Candidates(attempts[..used]))
    ensures r.None? <==> NextGood(attempts, 0) == |attempts|
    ensures r.None? ==> IsFile(dev.mem, dev.blockSize, blocks, size)
    ensures r.Some? ==>
      && 0 < used && r.value.0 == attempts[used - 1].block && used - 1 == NextGood(attempts, 0)
      && Extended(old(dev.mem), blocks, dev.mem, blocks', dev.blockSize, size, r.value.0, r.value.1)
      && forall b :: b in blocks' ==> b in blocks || b == r.value.0
  {
    used := SkipBad(dev, attempts);
    SkippedTo(attempts, 0, used);
    FrameFile(old(dev.mem), dev.mem, dev.blockSize, blocks, size, attempts[..used]);
    if used == |attempts| {
      return None, used, blocks;
    }
    assert attempts[used] in attempts;
    var off;
    off, blocks' := UseCandidate(dev, head, size, attempts, used, blocks, old(dev.mem));
    r := Some((attempts[used].block, off));
    used := used + 1;
  }

  /** The first good candidate becomes the new last block. */
  method UseCandidate(dev: Device, head: Block, size: nat, attempts: seq<Attempt>, k: nat,
                      ghost blocks: seq<Block>, ghost disk0: Disk)
    returns (off: nat, ghost blocks': seq<Block>)
    requires k < |attempts| && Frame(disk0, dev.mem, Candidates(attempts[..k]))
    requires IsFile(disk0, dev.blockSize, blocks, size) && IsFile(dev.mem, dev.blockSize, blocks, size)
    requires forall i :: 0 <= i < |blocks| ==> disk0[blocks[i]] == dev.mem[blocks[i]]
    requires FreshBlocks(attempts, blocks) && (size > 0 ==> head == blocks[|blocks| - 1])
    modifies dev
    ensures Frame(disk0, dev.mem, Candidates(attempts[..k + 1]))
    ensures Extended(disk0, blocks, dev.mem, blocks', dev.blockSize, size, attempts[k].block, off)
    ensures forall b :: b in blocks' ==> b in blocks || b == attempts[k].block
  {
    OneMore(attempts, k);
    ghost var disk := dev.mem;
    off, blocks' := ExtendInto(dev, attempts[k].block, head, size, blocks);
    ExtendedFrame(disk0, disk, blocks, dev.mem, blocks', dev.blockSize, size, attempts[k].block, off);
  }

  /** Writing fresh blocks does not disturb the file. */
  lemma FrameFile(disk: Disk, disk': Disk, blockSize: nat, blocks: seq<Block>, size: nat, attempts: seq<Attempt>)
    requires IsFile(disk, blockSize, blocks, size)
    requires Frame(disk, disk', Candidates(attempts)) && FreshBlocks(attempts, blocks)
    ensures IsFile(disk', blockSize, blocks, size)
    ensures forall k :: 0 <= k < |blocks| ==> blocks[k] in disk' && disk'[blocks[k]] == disk[blocks[k]]
  {
    forall k | 0 <= k < |blocks| ensures blocks[k] !in Candidates(attempts) {}
    FrameSkipList(disk, disk', blockSize, blocks);
  }

  lemma ExtendedFrame(disk0: Disk, disk: Disk, blocks: seq<Block>, disk': Disk, blocks': seq<Block>,
                      blockSize: nat, size: nat, block: Block, off: nat)
    requires IsFile(disk0, blockSize, blocks, size) && IsFile(disk, blockSize, blocks, size)
    requires forall k :: 0 <= k < |blocks| ==> disk[blocks[k]] == disk0[blocks[k]]
    requires Extended(disk, blocks, disk', blocks', blockSize, size, block, off)
    ensures Extended(disk0, blocks, disk', blocks', blockSize, size, block, off)
  {
    forall p: nat | p < size && Slot(blockSize, p).0 < |blocks|
      ensures ByteAt(disk, blockSize, blocks, p) == ByteAt(disk0, blockSize, blocks, p)
    {}
  }

  /* ---- the write path ---- */

  /** The list stores exactly these bytes at positions 0, 1, ... */
  ghost predicate Stores(disk: Disk, blockSize: nat, blocks: seq<Block>, bytes: seq<Byte>)
    requires Placed(disk, blockSize, blocks)
  {
    && |bytes| < LIMIT32
    && forall p :: 0 <= p < |bytes| ==>
         Slot(blockSize, p).0 < |blocks| && ByteAt(disk, blockSize, blocks, p) == bytes[p]
  }

  /** The list stores the bytes, and `off` of the last block is position |bytes|. */
  ghost predicate Held(disk: Disk, blockSize: nat, blocks: seq<Block>, bytes: seq<Byte>, off: nat) {
    && SkipList(disk, blockSize, blocks) && |blocks| > 0
    && Stores(disk, blockSize, blocks, bytes)
    && Header(|blocks| - 1) <= off <= blockSize
    && |bytes| == Start(blockSize, |blocks| - 1) + off - Header(|blocks| - 1)
  }

  /** A file open for writing: there is room behind `off`. */
  ghost predicate Writing(disk: Disk, blockSize: nat, blocks: seq<Block>, bytes: seq<Byte>, off: nat) {
    Held(disk, blockSize, blocks, bytes, off) && Erased(disk[blocks[|blocks| - 1]], off)
  }

  /** Once a byte was written, what is on disk is a file of that size. */
  lemma WritingIsFile(disk: Disk, blockSize: nat, blocks: seq<Block>, bytes: seq<Byte>, off: nat)
    requires Writing(disk, blockSize, blocks, bytes, off) && Header(|blocks| - 1) < off
    ensures IsFile(disk, blockSize, blocks, |bytes|)
  {
    var n := |blocks| - 1;
    StartInRange(blockSize, n);
    SlotOnto(blockSize, n, off - 1);
  }

  lemma ExtendedIsWriting(disk: Disk, blocks: seq<Block>, disk': Disk, blocks': seq<Block>,
                          blockSize: nat, bytes: seq<Byte>, block: Block, off: nat)
    requires IsFile(disk, blockSize, blocks, |bytes|) && Stores(disk, blockSize, blocks, bytes)
    requires Extended(disk, blocks, disk', blocks', blockSize, |bytes|, block, off)
    ensures Writing(disk', blockSize, blocks', bytes, off) && off < blockSize
  {
    SlotCorrect(blockSize, |bytes|);
  }

  /** Programming data at the write offset appends it to the file. */
  method ProgData(dev: Device, block: Block, off: nat, data: seq<Byte>,
                  ghost blocks: seq<Block>, ghost bytes: seq<Byte>)
    requires Writing(dev.mem, dev.blockSize, blocks, bytes, off) && block == blocks[|blocks| - 1]
    requires off + |data| <= dev.blockSize && |bytes| + |data| < LIMIT32
    modifies dev
    ensures Frame(old(dev.mem), dev.mem, {block})
    ensures Writing(dev.mem, dev.blockSize, blocks, bytes + data, off + |data|)
  {
    ghost var disk := dev.mem;
    dev.Prog(block, off, data);
    AppendedBytes(disk, dev.mem, dev.blockSize, blocks, bytes, off, data);
  }

  lemma AppendedBytes(disk: Disk, disk': Disk, blockSize: nat, blocks: seq<Block>, bytes: seq<Byte>,
                      off: nat, data: seq<Byte>)
    requires Writing(disk, blockSize, blocks, bytes, off)
    requires off + |data| <= blockSize && |bytes| + |data| < LIMIT32
    requires var block := blocks[|blocks| - 1];
      && Frame(disk, disk', {block}) && block in disk'
      && disk'[block] == disk[block][..off] + data + disk[block][off + |data|..]
    ensures Writing(disk', blockSize, blocks, bytes + data, off + |data|)
  {
    var n := |blocks| - 1;
    CopyLikeFrame(disk, disk', blockSize, blocks, off);
    StartInRange(blockSize, n);
    forall p | 0 <= p < |bytes + data|
      ensures Slot(blockSize, p).0 <= n
      ensures ByteAt(disk', blockSize, blocks, p) == (bytes + data)[p]
    {
      SlotCorrect(blockSize, p);
      if p < |bytes| {
        assert ByteAt(disk, blockSize, blocks, p) == bytes[p];
      } else {
        SlotOnto(blockSize, n, off + (p - |bytes|));
      }
    }
  }

  /** Changing a last block beyond its header keeps the list. */
  lemma CopyLikeFrame(disk: Disk, disk': Disk, blockSize: nat, blocks: seq<Block>, off: nat)
    requires SkipList(disk, blockSize, blocks) && |blocks| > 0
    requires Header(|blocks| - 1) <= off <= blockSize
    requires var block := blocks[|blocks| - 1];
      && Frame(disk, disk', {block}) && block in disk' && |disk'[block]| == blockSize
      && forall o :: 0 <= o < off ==> disk'[block][o] == disk[block][o]
    ensures SkipList(disk', blockSize, blocks)
  {
    var n := |blocks| - 1;
    forall k, j | 0 < k < |blocks| && 0 <= j <= Ctz(k)
      ensures PointsBack(disk', blockSize, blocks, k, j)
    {
      assert PointsBack(disk, blockSize, blocks, k, j);
      if k == n {
        assert disk'[blocks[n]][4 * j..4 * j + 4] == disk[blocks[n]][4 * j..4 * j + 4];
      }
    }
  }

  /* ---- blocks that refuse their data ---- */

  // Positions in the last block lie in front of `off`.
  lemma HeldPlace(disk: Disk, blockSize: nat, blocks: seq<Block>, bytes: seq<Byte>, off: nat, p: nat)
    requires Held(disk, blockSize, blocks, bytes, off) && p < |bytes|
    ensures Slot(blockSize, p).0 < |blocks|
    ensures Slot(blockSize, p).0 == |blocks| - 1 ==> Slot(blockSize, p).1 < off
  {
    SlotCorrect(blockSize, p);
  }

  /** What is behind the write offset does not matter to the file. */
  lemma GarbledHeld(disk: Disk, disk': Disk, blockSize: nat, blocks: seq<Block>, bytes: seq<Byte>, off: nat)
    requires Held(disk, blockSize, blocks, bytes, off)
    requires var block := blocks[|blocks| - 1];
      && Frame(disk, disk', {block}) && block in disk' && |disk'[block]| == blockSize
      && forall o :: 0 <= o < off ==> disk'[block][o] == disk[block][o]
    ensures Held(disk', blockSize, blocks, bytes, off)
  {
    CopyLikeFrame(disk, disk', blockSize, blocks, off);
    forall p | 0 <= p < |bytes|
      ensures Slot(blockSize, p).0 < |blocks| && ByteAt(disk', blockSize, blocks, p) == bytes[p]
    {
      HeldPlace(disk, blockSize, blocks, bytes, off, p);
      SlotCorrect(blockSize, p);
      assert ByteAt(disk, blockSize, blocks, p) == bytes[p];
    }
  }

  /** A copy of the last block up to the write offset can take its place. */
  lemma RelocatedHeld(disk: Disk, disk': Disk, blockSize: nat, blocks: seq<Block>, bytes: seq<Byte>, off: nat, b: Block)
    requires Held(disk, blockSize, blocks, bytes, off) && b !in blocks
    requires Frame(disk, disk', {b}) && b in disk' && |disk'[b]| == blockSize
    requires forall o :: 0 <= o < off ==> disk'[b][o] == disk[blocks[|blocks| - 1]][o]
    ensures Held(disk', blockSize, blocks[..|blocks| - 1] + [b], bytes, off)
  {
    var n := |blocks| - 1;
    var moved := blocks[..n] + [b];
    CopyKeepsList(disk, disk', blockSize, blocks, b, off);
    forall p | 0 <= p < |bytes|
      ensures Slot(blockSize, p).0 < |moved| && ByteAt(disk', blockSize, moved, p) == bytes[p]
    {
      HeldPlace(disk, blockSize, blocks, bytes, off, p);
      SlotCorrect(blockSize, p);
      assert ByteAt(disk, blockSize, blocks, p) == bytes[p];
    }
  }

  /** The copy of `lfs_file_relocate` onto a block that takes it. */
  method RelocateInto(dev: Device, block: Block, nblock: Block, off: nat, ghost cur: seq<Block>, ghost bytes: seq<Byte>)
    requires Held(dev.mem, dev.blockSize, cur, bytes, off) && block == cur[|cur| - 1] && nblock !in cur
    modifies dev
    ensures Frame(old(dev.mem), dev.mem, {nblock})
    ensures Writing(dev.mem, dev.blockSize, cur[..|cur| - 1] + [nblock], bytes, off)
  {
    ghost var disk := dev.mem;
    dev.Erase(nblock);
    CopyBytes(dev, block, nblock, off);
    RelocatedHeld(disk, dev.mem, dev.blockSize, cur, bytes, off, nblock);
  }

  /** Every block of the list under construction is old or a used candidate. */
  ghost predicate Drawn(cur: seq<Block>, blocks: seq<Block>, attempts: seq<Attempt>, used: nat)
    requires used <= |attempts|
  {
    forall b :: b in cur ==> b in blocks || b in Candidates(attempts[..used])
  }

  lemma DrawnFresh(cur: seq<Block>, blocks: seq<Block>, attempts: seq<Attempt>, used: nat)
    requires used <= |attempts| && FreshBlocks(attempts, blocks) && Drawn(cur, blocks, attempts, used)
    ensures FreshBlocks(attempts[used..], cur)
  {
    forall i | 0 <= i < |attempts[used..]| ensures attempts[used..][i].block !in cur {
      var b := attempts[used + i].block;
      assert forall k :: 0 <= k < used ==> attempts[..used][k].block != b;
    }
  }

  lemma FrameMore(d0: Disk, d1: Disk, d2: Disk, attempts: seq<Attempt>, used: nat, more: nat)
    requires used + more <= |attempts|
    requires Frame(d0, d1, Candidates(attempts[..used]))
    requires Frame(d1, d2, Candidates(attempts[used..][..more]))
    ensures Frame(d0, d2, Candidates(attempts[..used + more]))
  {
    assert attempts[..used + more] == attempts[..used] + attempts[used..][..more];
  }

  /** The block drawn last. */
  ghost predicate Current(attempts: seq<Attempt>, used: nat, block: Block) {
    0 < used <= |attempts| && attempts[used - 1].block == block
  }

  lemma CurrentDrawn(attempts: seq<Attempt>, used: nat, block: Block)
    requires Current(attempts, used, block)
    ensures block in Candidates(attempts[..used])
  {
    assert attempts[used - 1] in attempts[..used];
  }

  lemma {:induction false} GoodFrom(attempts: seq<Attempt>, used: nat, u: nat)
    requires used + u <= |attempts|
    ensures NextGood(attempts[used..], u) + used == NextGood(attempts, used + u)
    decreases |attempts| - used - u
  {
    if used + u < |attempts| && attempts[used + u].bad { GoodFrom(attempts, used, u + 1); }
  }

  lemma LastDrawn(attempts: seq<Attempt>, used: nat, n: nat)
    requires used + n <= |attempts| && 0 < n
    ensures attempts[used..][n - 1] == attempts[used + n - 1]
  {
  }

  lemma DrawnNext(cur: seq<Block>, cur': seq<Block>, blocks: seq<Block>, attempts: seq<Attempt>,
                  used: nat, used': nat, block: Block)
    requires used <= used' && Current(attempts, used', block) && Drawn(cur, blocks, attempts, used)
    requires forall b :: b in cur' ==> b in cur || b == block
    ensures Drawn(cur', blocks, attempts, used')
  {
    CurrentDrawn(attempts, used', block);
    assert attempts[..used'] == attempts[..used] + attempts[used..used'];
    assert Candidates(attempts[..used]) <= Candidates(attempts[..used']);
  }

  /** Take the next block for a file that so far holds `bytes`. */
  method NextWriteBlock(dev: Device, head: Block, size: nat, attempts: seq<Attempt>, used: nat,
                        ghost cur: seq<Block>, ghost bytes: seq<Byte>,
                        ghost blocks: seq<Block>, ghost disk0: Disk)
    returns (ok: bool, block: Block, off: nat, used': nat, ghost cur': seq<Block>)
    requires used <= |attempts| && FreshBlocks(attempts, blocks) && Drawn(cur, blocks, attempts, used)
    requires Frame(disk0, dev.mem, Candidates(attempts[..used]))
    requires IsFile(dev.mem, dev.blockSize, cur, size) && Stores(dev.mem, dev.blockSize, cur, bytes)
    requires |bytes| == size && (size > 0 ==> head == cur[|cur| - 1])
    modifies dev
    ensures used <= used' <= |attempts| && Frame(disk0, dev.mem, Candidates(attempts[..used']))
    ensures ok <==> NextGood(attempts, used) < |attempts|
    ensures ok ==> used' == NextGood(attempts, used) + 1 && |cur'| == Slot(dev.blockSize, size).0 + 1
    ensures ok ==>
      && Drawn(cur', blocks, attempts, used')
      && Writing(dev.mem, dev.blockSize, cur', bytes, off) && off < dev.blockSize
      && block == cur'[|cur'| - 1] && Current(attempts, used', block)
  {
    DrawnFresh(cur, blocks, attempts, used);
    ghost var disk := dev.mem;
    var r, n;
    r, n, cur' := Extend(dev, head, size, attempts[used..], cur);
    GoodFrom(attempts, used, 0);
    used' := used + n;
    FrameMore(disk0, disk, dev.mem, attempts, used, n);
    if r.None? {
      return false, BLOCK_NULL, 0, used', cur';
    }
    block, off := r.value.0, r.value.1;
    LastDrawn(attempts, used, n);
    DrawnNext(cur, cur', blocks, attempts, used, used', block);
    ExtendedIsWriting(disk, cur, dev.mem, cur', dev.blockSize, bytes, block, off);
    ok := true;
  }

  lemma StoresPrefix(disk: Disk, blockSize: nat, blocks: seq<Block>, bytes: seq<Byte>, pos: nat)
    requires IsFile(disk, blockSize, blocks, |bytes|) && Stores(disk, blockSize, blocks, bytes)
    requires pos <= |bytes|
    ensures var n := BlocksFor(blockSize, pos);
      && n <= |blocks| && IsFile(disk, blockSize, blocks[..n], pos)
      && Stores(disk, blockSize, blocks[..n], bytes[..pos])
  {
    PrefixIsFile(disk, blockSize, blocks, |bytes|, pos);
    var n := BlocksFor(blockSize, pos);
    forall p | 0 <= p < pos
      ensures Slot(blockSize, p).0 < n && ByteAt(disk, blockSize, blocks[..n], p) == bytes[p]
    {
      SlotMonotone(blockSize, p, pos - 1);
      assert ByteAt(disk, blockSize, blocks, p) == bytes[p];
    }
  }

  lemma StoresFrame(disk: Disk, disk': Disk, blockSize: nat, blocks: seq<Block>, bytes: seq<Byte>,
                    attempts: seq<Attempt>)
    requires IsFile(disk, blockSize, blocks, |bytes|) && Stores(disk, blockSize, blocks, bytes)
    requires Frame(disk, disk', Candidates(attempts)) && FreshBlocks(attempts, blocks)
    ensures IsFile(disk', blockSize, blocks, |bytes|) && Stores(disk', blockSize, blocks, bytes)
  {
    FrameFile(disk, disk', blockSize, blocks, |bytes|, attempts);
    forall p | 0 <= p < |bytes|
      ensures ByteAt(disk', blockSize, blocks, p) == ByteAt(disk, blockSize, blocks, p)
    {}
  }

  /** Programming one of the used candidates stays inside the frame. */
  lemma FrameWrite(d0: Disk, d1: Disk, d2: Disk, changed: set<Block>, b: Block)
    requires Frame(d0, d1, changed) && b in changed && Frame(d1, d2, {b})
    ensures Frame(d0, d2, changed)
  {
  }

  /** Where `lfs_file_flushedwrite` stands: the list `cur` stores `bytes`, and a
      writing file has room described by `off` (none when it is blockSize). */
  ghost predicate AtWrite(disk0: Disk, disk: Disk, blockSize: nat, blocks: seq<Block>, attempts: seq<Attempt>,
                          used: nat, cur: seq<Block>, bytes: seq<Byte>, block: Block, off: nat, writing: bool)
  {
    && used <= |attempts|
    && Frame(disk0, disk, Candidates(attempts[..used])) && Drawn(cur, blocks, attempts, used)
    && (if writing then
          && Writing(disk, blockSize, cur, bytes, off) && Header(|cur| - 1) < off
          && block == cur[|cur| - 1] && Current(attempts, used, block)
          && !attempts[used - 1].bad && !attempts[used - 1].refuses
        else
          && IsFile(disk, blockSize, cur, |bytes|) && Stores(disk, blockSize, cur, bytes)
          && (|bytes| > 0 ==> block == cur[|cur| - 1]))
  }

  /** There is room behind `off`. */
  ghost predicate Room(disk: Disk, block: Block, off: nat) {
    block in disk && Erased(disk[block], off)
  }

  /** What the retry loop stands on: the file so far, in the block drawn last. */
  ghost predicate AtBlock(disk0: Disk, disk: Disk, blockSize: nat, blocks: seq<Block>, attempts: seq<Attempt>,
                          used: nat, cur: seq<Block>, bytes: seq<Byte>, block: Block, off: nat)
  {
    && Current(attempts, used, block) && FreshBlocks(attempts, blocks)
    && Frame(disk0, disk, Candidates(attempts[..used])) && Drawn(cur, blocks, attempts, used)
    && Held(disk, blockSize, cur, bytes, off) && block == cur[|cur| - 1]
  }

  /** `lfs_file_relocate`: the block so far is copied to the next candidate that
      takes it. */
  method Relocate(dev: Device, block: Block, off: nat, attempts: seq<Attempt>, used: nat,
                  ghost cur: seq<Block>, ghost bytes: seq<Byte>, ghost blocks: seq<Block>, ghost disk0: Disk)
    returns (ok: bool, block': Block, used': nat, ghost cur': seq<Block>)
    requires AtBlock(disk0, dev.mem, dev.blockSize, blocks, attempts, used, cur, bytes, block, off)
    modifies dev
    ensures ok <==> NextGood(attempts, used) < |attempts|
    ensures ok ==> used' == NextGood(attempts, used) + 1
    ensures used' <= |attempts| && Frame(disk0, dev.mem, Candidates(attempts[..used']))
    ensures ok ==> |cur'| == |cur|
    ensures ok ==>
      && AtBlock(disk0, dev.mem, dev.blockSize, blocks, attempts, used', cur', bytes, block', off)
      && Room(dev.mem, block', off)
  {
    DrawnFresh(cur, blocks, attempts, used);
    ghost var disk := dev.mem;
    var n := SkipBad(dev, attempts[used..]);
    FrameMore(disk0, disk, dev.mem, attempts, used, n);
    SkippedFrom(attempts, used, n);
    cur', block', used' := cur, block, used + n;
    if used' == |attempts| {
      return false, block', used', cur';
    }
    SkippedHeld(disk, dev.mem, dev.blockSize, cur, bytes, off, attempts[used..][..n]);
    block' := attempts[used'].block;
    ghost var skipped := dev.mem;
    RelocateInto(dev, block, block', off, cur, bytes);
    OneMore(attempts, used');
    FrameOne(disk0, skipped, dev.mem, attempts, used');
    DrawnMoved(cur, blocks, attempts, used, used');
    cur' := cur[..|cur| - 1] + [block'];
    used' := used' + 1;
    ok := true;
  }

  lemma SkippedFrom(attempts: seq<Attempt>, used: nat, n: nat)
    requires used + n <= |attempts| && forall i :: 0 <= i < n ==> attempts[used..][i].bad
    requires n < |attempts[used..]| ==> !attempts[used..][n].bad
    ensures NextGood(attempts, used) == used + n
  {
    forall i | used <= i < used + n ensures attempts[i].bad { assert attempts[used..][i - used] == attempts[i]; }
    SkippedTo(attempts, used, n);
  }

  lemma SkippedHeld(disk: Disk, disk': Disk, blockSize: nat, cur: seq<Block>, bytes: seq<Byte>, off: nat,
                    attempts: seq<Attempt>)
    requires Held(disk, blockSize, cur, bytes, off)
    requires Frame(disk, disk', Candidates(attempts)) && FreshBlocks(attempts, cur)
    ensures Held(disk', blockSize, cur, bytes, off)
  {
    forall k | 0 <= k < |cur| ensures cur[k] in disk' && disk'[cur[k]] == disk[cur[k]] {
      assert cur[k] !in Candidates(attempts);
    }
    FrameSkipList(disk, disk', blockSize, cur);
    forall p | 0 <= p < |bytes| ensures ByteAt(disk', blockSize, cur, p) == bytes[p] {
      assert ByteAt(disk, blockSize, cur, p) == bytes[p];
    }
  }

  lemma FrameOne(d0: Disk, d1: Disk, d2: Disk, attempts: seq<Attempt>, k: nat)
    requires k < |attempts| && Frame(d0, d1, Candidates(attempts[..k])) && Frame(d1, d2, {attempts[k].block})
    ensures Frame(d0, d2, Candidates(attempts[..k + 1]))
  {
    OneMore(attempts, k);
  }

  lemma DrawnMoved(cur: seq<Block>, blocks: seq<Block>, attempts: seq<Attempt>, used: nat, k: nat)
    requires used <= k < |attempts| && |cur| > 0 && Drawn(cur, blocks, attempts, used)
    ensures Drawn(cur[..|cur| - 1] + [attempts[k].block], blocks, attempts, k + 1)
  {
    OneMore(attempts, k);
    assert attempts[..k] == attempts[..used] + attempts[used..k];
    assert Candidates(attempts[..used]) <= Candidates(attempts[..k]);
  }

  /** The retry loop around the data: a block that refuses it is left for another. */
  method ProgRetrying(dev: Device, block0: Block, off: nat, data: seq<Byte>, attempts: seq<Attempt>, used0: nat,
                      ghost cur0: seq<Block>, ghost bytes: seq<Byte>, ghost blocks: seq<Block>, ghost disk0: Disk)
    returns (ok: bool, block: Block, used: nat, ghost cur: seq<Block>)
    requires AtBlock(disk0, dev.mem, dev.blockSize, blocks, attempts, used0, cur0, bytes, block0, off)
    requires Room(dev.mem, block0, off)
    requires off + |data| <= dev.blockSize && |bytes| + |data| < LIMIT32
    requires !attempts[used0 - 1].bad
    modifies dev
    ensures used <= |attempts| && Frame(disk0, dev.mem, Candidates(attempts[..used]))
    ensures ok <==> NextTaker(attempts, used0 - 1) < |attempts|
    ensures ok ==> used == NextTaker(attempts, used0 - 1) + 1 && |cur| == |cur0|
    ensures ok ==> !attempts[used - 1].bad && !attempts[used - 1].refuses
    ensures ok ==>
      && AtBlock(disk0, dev.mem, dev.blockSize, blocks, attempts, used, cur, bytes + data, block, off + |data|)
      && Room(dev.mem, block, off + |data|)
  {
    block, used, cur, ok := block0, used0, cur0, true;
    while attempts[used - 1].refuses
      invariant ok && |cur| == |cur0| && 0 < used <= |attempts| && !attempts[used - 1].bad
      invariant NextTaker(attempts, used - 1) == NextTaker(attempts, used0 - 1)
      invariant AtBlock(disk0, dev.mem, dev.blockSize, blocks, attempts, used, cur, bytes, block, off)
      invariant Room(dev.mem, block, off)
      decreases |attempts| - used
    {
      ok, block, used, cur := Retry(dev, block, off, attempts, used, cur, bytes, blocks, disk0);
      if !ok {
        return;
      }
    }
    ProgCurrent(dev, block, off, data, attempts, used, cur, bytes, blocks, disk0);
  }

  /** A refused program: the block is moved to the next candidate. */
  method Retry(dev: Device, block0: Block, off: nat, attempts: seq<Attempt>, used0: nat,
               ghost cur0: seq<Block>, ghost bytes: seq<Byte>, ghost blocks: seq<Block>, ghost disk0: Disk)
    returns (ok: bool, block: Block, used: nat, ghost cur: seq<Block>)
    requires AtBlock(disk0, dev.mem, dev.blockSize, blocks, attempts, used0, cur0, bytes, block0, off)
    requires attempts[used0 - 1].refuses
    modifies dev
    ensures used <= |attempts| && Frame(disk0, dev.mem, Candidates(attempts[..used]))
    ensures !ok ==> NextTaker(attempts, used0 - 1) == |attempts|
    ensures ok ==>
      && used0 < used && |cur| == |cur0| && !attempts[used - 1].bad && Room(dev.mem, block, off)
      && NextTaker(attempts, used - 1) == NextTaker(attempts, used0 - 1)
      && AtBlock(disk0, dev.mem, dev.blockSize, blocks, attempts, used, cur, bytes, block, off)
  {
    GarbleCurrent(dev, block0, off, attempts, used0, cur0, bytes, blocks, disk0);
    ok, block, used, cur := Relocate(dev, block0, off, attempts, used0, cur0, bytes, blocks, disk0);
    if ok {
      TurnTaker(attempts, used0, used, true);
    } else {
      NoTaker(attempts, used0);
    }
  }

  /** The program that succeeds. */
  method ProgCurrent(dev: Device, block: Block, off: nat, data: seq<Byte>, attempts: seq<Attempt>, used: nat,
                     ghost cur: seq<Block>, ghost bytes: seq<Byte>, ghost blocks: seq<Block>, ghost disk0: Disk)
    requires AtBlock(disk0, dev.mem, dev.blockSize, blocks, attempts, used, cur, bytes, block, off)
    requires Room(dev.mem, block, off) && off + |data| <= dev.blockSize && |bytes| + |data| < LIMIT32
    modifies dev
    ensures AtBlock(disk0, dev.mem, dev.blockSize, blocks, attempts, used, cur, bytes + data, block, off + |data|)
    ensures Room(dev.mem, block, off + |data|)
  {
    ghost var disk := dev.mem;
    ProgData(dev, block, off, data, cur, bytes);
    CurrentDrawn(attempts, used, block);
    FrameWrite(disk0, disk, dev.mem, Candidates(attempts[..used]), block);
  }

  /** The program that fails. */
  method GarbleCurrent(dev: Device, block: Block, off: nat, attempts: seq<Attempt>, used: nat,
                       ghost cur: seq<Block>, ghost bytes: seq<Byte>, ghost blocks: seq<Block>, ghost disk0: Disk)
    requires AtBlock(disk0, dev.mem, dev.blockSize, blocks, attempts, used, cur, bytes, block, off)
    modifies dev
    ensures AtBlock(disk0, dev.mem, dev.blockSize, blocks, attempts, used, cur, bytes, block, off)
  {
    ghost var disk := dev.mem;
    dev.Garble(block, off, attempts[used - 1].junk);
    GarbledHeld(disk, dev.mem, dev.blockSize, cur, bytes, off);
    CurrentDrawn(attempts, used, block);
    FrameWrite(disk0, disk, dev.mem, Candidates(attempts[..used]), block);
  }

  // A full last block: the file ends with it, and the next byte is in the next.
  lemma FullBlock(disk: Disk, blockSize: nat, blocks: seq<Block>, bytes: seq<Byte>, off: nat)
    requires Writing(disk, blockSize, blocks, bytes, off) && Header(|blocks| - 1) < off == blockSize
    requires |bytes| + 1 < LIMIT32
    ensures IsFile(disk, blockSize, blocks, |bytes|) && Slot(blockSize, |bytes|).0 == |blocks|
  {
    WritingIsFile(disk, blockSize, blocks, bytes, off);
    SlotOnto(blockSize, |blocks| - 1, off - 1);
    NextBlock(blockSize, |bytes| - 1);
  }

  /** The loop needs another block. */
  predicate NeedsBlock(writing: bool, off: nat, blockSize: nat) {
    !writing || off == blockSize
  }

  /** A block with room: the current one, or the next candidate that can be had. */
  method ReadyBlock(dev: Device, block: Block, off: nat, writing: bool, size: nat,
                    attempts: seq<Attempt>, used: nat, ghost cur: seq<Block>, ghost bytes: seq<Byte>,
                    ghost blocks: seq<Block>, ghost disk0: Disk)
    returns (ok: bool, block': Block, off': nat, used': nat, ghost cur': seq<Block>)
    requires AtWrite(disk0, dev.mem, dev.blockSize, blocks, attempts, used, cur, bytes, block, off, writing)
    requires FreshBlocks(attempts, blocks) && |bytes| == size && size + 1 < LIMIT32
    modifies dev
    ensures used' <= |attempts| && Frame(disk0, dev.mem, Candidates(attempts[..used']))
    ensures if NeedsBlock(writing, off, dev.blockSize) then
              && (ok <==> NextGood(attempts, used) < |attempts|)
              && (ok ==> used' == NextGood(attempts, used) + 1 && |cur'| == Slot(dev.blockSize, size).0 + 1)
            else ok && used' == used && |cur'| == |cur|
    ensures ok ==>
      && AtBlock(disk0, dev.mem, dev.blockSize, blocks, attempts, used', cur', bytes, block', off')
      && Room(dev.mem, block', off') && off' < dev.blockSize
    ensures writing && off == dev.blockSize ==> Slot(dev.blockSize, size).0 == |cur|
  {
    if writing && off < dev.blockSize {
      return true, block, off, used, cur;
    }
    if writing { FullBlock(dev.mem, dev.blockSize, cur, bytes, off); }
    ok, block', off', used', cur' :=
      NextWriteBlock(dev, block, size, attempts, used, cur, bytes, blocks, disk0);
  }

  // The candidate that takes the data of a turn, from the one it starts with.
  lemma TurnTaker(attempts: seq<Attempt>, used: nat, first: nat, needs: bool)
    requires used <= |attempts|
    requires needs ==> NextGood(attempts, used) < |attempts| && first == NextGood(attempts, used) + 1
    requires !needs ==> first == used && 0 < used && !attempts[used - 1].bad && !attempts[used - 1].refuses
    ensures 0 < first <= |attempts| && !attempts[first - 1].bad
    ensures NextTaker(attempts, first - 1) == if needs then NextTaker(attempts, used) else used - 1
  {
    if needs { TakerIsGood(attempts, used); }
  }

  lemma NoTaker(attempts: seq<Attempt>, used: nat)
    requires used <= |attempts| && NextGood(attempts, used) == |attempts|
    ensures NextTaker(attempts, used) == |attempts|
  {
    TakerIsGood(attempts, used);
  }

  /** As much data as fits goes into a block with room, or into one that takes it. */
  method FillBlock(dev: Device, block: Block, off: nat, size: nat, data: seq<Byte>, done: nat,
                   attempts: seq<Attempt>, used: nat, ghost cur: seq<Block>, ghost bytes: seq<Byte>,
                   ghost blocks: seq<Block>, ghost disk0: Disk)
    returns (ok: bool, block': Block, off': nat, used': nat, done': nat, ghost cur': seq<Block>)
    requires done < |data| && |bytes| == size && size + |data| < LIMIT32 && off < dev.blockSize
    requires AtBlock(disk0, dev.mem, dev.blockSize, blocks, attempts, used, cur, bytes + data[..done], block, off)
    requires Room(dev.mem, block, off) && !attempts[used - 1].bad
    modifies dev
    ensures used' <= |attempts| && Frame(disk0, dev.mem, Candidates(attempts[..used']))
    ensures ok <==> NextTaker(attempts, used - 1) < |attempts|
    ensures ok ==> used' == NextTaker(attempts, used - 1) + 1 && |cur'| == |cur|
    ensures ok ==> done < done' <= |data| && (done' == |data| || off' == dev.blockSize)
    ensures ok ==> AtWrite(disk0, dev.mem, dev.blockSize, blocks, attempts, used', cur', bytes + data[..done'],
                           block', off', true)
  {
    var rest := data[done..];
    var n := if |rest| < dev.blockSize - off then |rest| else dev.blockSize - off;
    done', off' := done + n, off + n;
    ok, block', used', cur' :=
      ProgRetrying(dev, block, off, rest[..n], attempts, used, cur, bytes + data[..done], blocks, disk0);
    if ok {
      TakeMore(bytes, data, done, n);
      AfterData(disk0, dev.mem, dev.blockSize, blocks, attempts, used', cur', bytes + data[..done'], block', off');
    }
  }

  lemma AfterData(disk0: Disk, disk: Disk, blockSize: nat, blocks: seq<Block>, attempts: seq<Attempt>, used: nat,
                  cur: seq<Block>, bytes: seq<Byte>, block: Block, off: nat)
    requires AtBlock(disk0, disk, blockSize, blocks, attempts, used, cur, bytes, block, off)
    requires Room(disk, block, off) && Header(|cur| - 1) < off
    requires !attempts[used - 1].bad && !attempts[used - 1].refuses
    ensures AtWrite(disk0, disk, blockSize, blocks, attempts, used, cur, bytes, block, off, true)
  {
  }

  lemma TakeMore(bytes: seq<Byte>, data: seq<Byte>, i: nat, n: nat)
    requires i + n <= |data|
    ensures bytes + data[..i] + data[i..][..n] == bytes + data[..i + n]
  {
  }

  /** One turn of the loop: a new block if needed, then as much data as fits.  It
      succeeds exactly when it needs no block or a candidate is left that takes one. */
  method WriteChunk(dev: Device, block: Block, off: nat, writing: bool, size: nat, data: seq<Byte>, done: nat,
                    attempts: seq<Attempt>, used: nat, ghost cur: seq<Block>, ghost bytes: seq<Byte>,
                    ghost blocks: seq<Block>, ghost disk0: Disk)
    returns (ok: bool, block': Block, off': nat, used': nat, done': nat, ghost cur': seq<Block>)
    requires done < |data| && FreshBlocks(attempts, blocks) && |bytes| == size && size + |data| < LIMIT32
    requires AtWrite(disk0, dev.mem, dev.blockSize, blocks, attempts, used, cur, bytes + data[..done],
                     block, off, writing)
    modifies dev
    ensures used' <= |attempts| && Frame(disk0, dev.mem, Candidates(attempts[..used']))
    ensures if NeedsBlock(writing, off, dev.blockSize) then
              && (ok <==> NextTaker(attempts, used) < |attempts|)
              && (ok ==> used' == NextTaker(attempts, used) + 1 && |cur'| == Slot(dev.blockSize, size + done).0 + 1)
            else ok && used' == used && |cur'| == |cur|
    ensures writing && off == dev.blockSize ==> Slot(dev.blockSize, size + done).0 == |cur|
    ensures ok ==> done < done' <= |data| && (done' == |data| || off' == dev.blockSize)
    ensures ok ==> AtWrite(disk0, dev.mem, dev.blockSize, blocks, attempts, used', cur', bytes + data[..done'],
                           block', off', true)
  {
    done' := done;
    ghost var needs := NeedsBlock(writing, off, dev.blockSize);
    var first;
    ok, block', off', first, cur' :=
      ReadyBlock(dev, block, off, writing, size + done, attempts, used, cur, bytes + data[..done], blocks, disk0);
    used' := first;
    if !ok {
      NoTaker(attempts, used);
      return;
    }
    TurnTaker(attempts, used, first, needs);
    ok, block', off', used', done', cur' :=
      FillBlock(dev, block', off', size, data, done, attempts, first, cur', bytes, blocks, disk0);
  }

  lemma Written(disk0: Disk, disk: Disk, blockSize: nat, blocks: seq<Block>, attempts: seq<Attempt>, used: nat,
                cur: seq<Block>, bytes: seq<Byte>, block: Block, off: nat)
    requires AtWrite(disk0, disk, blockSize, blocks, attempts, used, cur, bytes, block, off, true)
    ensures IsFile(disk, blockSize, cur, |bytes|) && block == cur[|cur| - 1] && Stores(disk, blockSize, cur, bytes)
    ensures |bytes| > 0 && |cur| == Slot(blockSize, |bytes| - 1).0 + 1
  {
    WritingIsFile(disk, blockSize, cur, bytes, off);
    SlotOnto(blockSize, |cur| - 1, off - 1);
  }

  /** How many blocks a write of n bytes at `size` goes into. */
  function BlocksNeeded(blockSize: nat, size: nat, n: nat): (k: nat)
    requires blockSize >= 128 && 0 < n && size + n < LIMIT32
    ensures k > 0
  {
    SlotMonotone(blockSize, size, size + n - 1);
    Slot(blockSize, size + n - 1).0 - Slot(blockSize, size).0 + 1
  }

  /** Turns so far, from position `base` to `end`, each with a candidate that took its
      data. */
  ghost predicate Counted(blockSize: nat, base: nat, end: nat, attempts: seq<Attempt>, used: nat, cur: seq<Block>)
    requires blockSize >= 128 && base < LIMIT32 && used <= |attempts|
  {
    Takers(attempts, 0) == Takers(attempts, used) + if end == base then 0 else |cur| - Slot(blockSize, base).0
  }

  lemma CountTurn(blockSize: nat, base: nat, end: nat, attempts: seq<Attempt>, used: nat, cur: seq<Block>,
                  used': nat, cur': seq<Block>, end': nat)
    requires blockSize >= 128 && base <= end < LIMIT32 && used <= |attempts| && base < end'
    requires Counted(blockSize, base, end, attempts, used, cur)
    requires NextTaker(attempts, used) < |attempts| && used' == NextTaker(attempts, used) + 1
    requires |cur'| == Slot(blockSize, end).0 + 1
    requires end > base ==> Slot(blockSize, end).0 == |cur|
    ensures Counted(blockSize, base, end', attempts, used', cur')
  {
    TakersNext(attempts, used);
  }

  // Out of candidates before the end: there were fewer than needed.
  lemma TooFew(blockSize: nat, base: nat, end: nat, n: nat, attempts: seq<Attempt>, used: nat, cur: seq<Block>)
    requires blockSize >= 128 && base <= end < base + n < LIMIT32 && used <= |attempts|
    requires Counted(blockSize, base, end, attempts, used, cur) && NextTaker(attempts, used) == |attempts|
    requires end > base ==> Slot(blockSize, end).0 == |cur|
    ensures Takers(attempts, 0) < BlocksNeeded(blockSize, base, n)
  {
    TakersNext(attempts, used);
    SlotMonotone(blockSize, end, base + n - 1);
  }

  /** In the middle of a write: `front` has been written behind `bytes`, and every
      block for it was taken from a candidate. */
  ghost predicate Midway(disk0: Disk, disk: Disk, blockSize: nat, blocks: seq<Block>, attempts: seq<Attempt>,
                         used: nat, cur: seq<Block>, bytes: seq<Byte>, front: seq<Byte>, block: Block, off: nat)
    requires blockSize >= 128 && |bytes| < LIMIT32
  {
    && AtWrite(disk0, disk, blockSize, blocks, attempts, used, cur, bytes + front, block, off, front != [])
    && Counted(blockSize, |bytes|, |bytes| + |front|, attempts, used, cur)
  }

  /** One turn behind `kept`, counted from position `base` on. */
  method SpanTurn(dev: Device, block: Block, off: nat, writing: bool, size: nat, data: seq<Byte>, done: nat,
                  attempts: seq<Attempt>, used: nat, ghost cur: seq<Block>, ghost base: nat, ghost kept: seq<Byte>,
                  ghost blocks: seq<Block>, ghost disk0: Disk)
    returns (ok: bool, block': Block, off': nat, used': nat, done': nat, ghost cur': seq<Block>)
    requires dev.blockSize >= 128 && done < |data| && FreshBlocks(attempts, blocks)
    requires base <= size == |kept| && size + |data| < LIMIT32 && (writing <==> base < size + done)
    requires AtWrite(disk0, dev.mem, dev.blockSize, blocks, attempts, used, cur, kept + data[..done],
                     block, off, writing)
    requires Counted(dev.blockSize, base, size + done, attempts, used, cur)
    modifies dev
    ensures used' <= |attempts| && Frame(disk0, dev.mem, Candidates(attempts[..used']))
    ensures !ok ==> Takers(attempts, 0) < BlocksNeeded(dev.blockSize, base, size + |data| - base)
    ensures ok ==> done < done' <= |data| && Counted(dev.blockSize, base, size + done', attempts, used', cur')
    ensures ok ==> AtWrite(disk0, dev.mem, dev.blockSize, blocks, attempts, used', cur', kept + data[..done'],
                           block', off', true)
  {
    ok, block', off', used', done', cur' :=
      WriteChunk(dev, block, off, writing, size, data, done, attempts, used, cur, kept, blocks, disk0);
    if !ok {
      TooFew(dev.blockSize, base, size + done, size + |data| - base, attempts, used, cur);
      return;
    }
    if NeedsBlock(writing, off, dev.blockSize) {
      CountTurn(dev.blockSize, base, size + done, attempts, used, cur, used', cur', size + done');
    }
  }

  /** `lfs_file_flushedwrite` behind `kept`. */
  method SpanTurns(dev: Device, block0: Block, off0: nat, writing: bool, size: nat, data: seq<Byte>,
                   attempts: seq<Attempt>, used0: nat, ghost cur0: seq<Block>, ghost base: nat,
                   ghost kept: seq<Byte>, ghost blocks: seq<Block>, ghost disk0: Disk)
    returns (ok: bool, block: Block, off: nat, used: nat, ghost cur: seq<Block>)
    requires dev.blockSize >= 128 && FreshBlocks(attempts, blocks)
    requires base <= size == |kept| && size + |data| < LIMIT32 && (writing <==> base < size)
    requires AtWrite(disk0, dev.mem, dev.blockSize, blocks, attempts, used0, cur0, kept, block0, off0, writing)
    requires Counted(dev.blockSize, base, size, attempts, used0, cur0)
    modifies dev
    ensures used <= |attempts| && Frame(disk0, dev.mem, Candidates(attempts[..used]))
    ensures !ok ==> data != [] && Takers(attempts, 0) < BlocksNeeded(dev.blockSize, base, size + |data| - base)
    ensures ok ==> Counted(dev.blockSize, base, size + |data|, attempts, used, cur)
    ensures ok ==> AtWrite(disk0, dev.mem, dev.blockSize, blocks, attempts, used, cur, kept + data,
                           block, off, writing || data != [])
  {
    var done: nat := 0;
    block, off, used, cur := block0, off0, used0, cur0;
    assert kept + data[..0] == kept;
    while done < |data|
      invariant done <= |data| && used <= |attempts|
      invariant Counted(dev.blockSize, base, size + done, attempts, used, cur)
      invariant AtWrite(disk0, dev.mem, dev.blockSize, blocks, attempts, used, cur, kept + data[..done],
                        block, off, writing || done > 0)
      decreases |data| - done
    {
      ok, block, off, used, done, cur :=
        SpanTurn(dev, block, off, writing || done > 0, size, data, done, attempts, used, cur, base, kept,
                 blocks, disk0);
      if !ok {
        return;
      }
    }
    assert data[..|data|] == data;
    ok := true;
  }

  lemma Regroup(a: seq<Byte>, b: seq<Byte>, c: seq<Byte>)
    ensures a + b + c == a + (b + c)
  {
  }

  /** `lfs_file_flushedwrite` from wherever the file stands: the data goes behind what
      was written so far, or the candidates ran out. */
  method WriteSpan(dev: Device, block0: Block, off0: nat, writing: bool, size: nat, data: seq<Byte>,
                   attempts: seq<Attempt>, used0: nat, ghost cur0: seq<Block>, ghost bytes: seq<Byte>,
                   ghost front: seq<Byte>, ghost blocks: seq<Block>, ghost disk0: Disk)
    returns (ok: bool, block: Block, off: nat, used: nat, ghost cur: seq<Block>)
    requires dev.blockSize >= 128 && FreshBlocks(attempts, blocks)
    requires |bytes| + |front| == size && size + |data| < LIMIT32 && (writing <==> front != [])
    requires Midway(disk0, dev.mem, dev.blockSize, blocks, attempts, used0, cur0, bytes, front, block0, off0)
    modifies dev
    ensures used <= |attempts| && Frame(disk0, dev.mem, Candidates(attempts[..used]))
    ensures !ok ==> data != [] && Takers(attempts, 0) < BlocksNeeded(dev.blockSize, |bytes|, |front| + |data|)
    ensures ok ==> Midway(disk0, dev.mem, dev.blockSize, blocks, attempts, used, cur, bytes, front + data, block, off)
  {
    ok, block, off, used, cur :=
      SpanTurns(dev, block0, off0, writing, size, data, attempts, used0, cur0, |bytes|, bytes + front,
                blocks, disk0);
    Regroup(bytes, front, data);
  }

  /** Enough candidates for what was written. */
  lemma MidwayEnough(disk0: Disk, disk: Disk, blockSize: nat, blocks: seq<Block>, attempts: seq<Attempt>,
                     used: nat, cur: seq<Block>, bytes: seq<Byte>, front: seq<Byte>, block: Block, off: nat)
    requires blockSize >= 128 && |bytes| + |front| < LIMIT32 && front != []
    requires Midway(disk0, disk, blockSize, blocks, attempts, used, cur, bytes, front, block, off)
    ensures Takers(attempts, 0) >= BlocksNeeded(blockSize, |bytes|, |front|)
    ensures IsFile(disk, blockSize, cur, |bytes| + |front|) && block == cur[|cur| - 1]
    ensures Stores(disk, blockSize, cur, bytes + front)
  {
    Written(disk0, disk, blockSize, blocks, attempts, used, cur, bytes + front, block, off);
  }

  /** The loop of `lfs_file_flushedwrite`: it succeeds exactly when enough of the
      candidates take the data. */
  method WriteLoop(dev: Device, head: Block, size: nat, data: seq<Byte>, attempts: seq<Attempt>,
                   ghost cur0: seq<Block>, ghost bytes: seq<Byte>, ghost blocks: seq<Block>)
    returns (ok: bool, block: Block, used: nat, ghost cur: seq<Block>)
    requires AtWrite(dev.mem, dev.mem, dev.blockSize, blocks, attempts, 0, cur0, bytes, head, 0, false)
    requires FreshBlocks(attempts, blocks) && |bytes| == size && 0 < |data| && size + |data| < LIMIT32
    modifies dev
    ensures used <= |attempts| && Frame(old(dev.mem), dev.mem, Candidates(attempts[..used]))
    ensures ok <==> Takers(attempts, 0) >= BlocksNeeded(dev.blockSize, size, |data|)
    ensures ok ==>
      && IsFile(dev.mem, dev.blockSize, cur, size + |data|) && block == cur[|cur| - 1]
      && Stores(dev.mem, dev.blockSize, cur, bytes + data)
  {
    var off;
    ok, block, off, used, cur :=
      SpanTurns(dev, head, 0, false, size, data, attempts, 0, cur0, size, bytes, blocks, dev.mem);
    if ok {
      Written(old(dev.mem), dev.mem, dev.blockSize, blocks, attempts, used, cur, bytes + data, block, off);
    }
  }

  /** Writing at `pos` builds a list that stores the bytes before `pos` followed
      by the data, and never touches the old list, which still stores the old
      bytes until the directory commit switches over. */
  method WriteAt(dev: Device, head: Block, size: nat, pos: nat, data: seq<Byte>, attempts: seq<Attempt>,
                 ghost blocks: seq<Block>, ghost bytes: seq<Byte>)
    returns (ok: bool, block: Block, ghost cur: seq<Block>)
    requires IsFile(dev.mem, dev.blockSize, blocks, size) && |bytes| == size
    requires Stores(dev.mem, dev.blockSize, blocks, bytes)
    requires size > 0 ==> head == blocks[|blocks| - 1]
    requires pos <= size && 0 < |data| && pos + |data| < LIMIT32 && FreshBlocks(attempts, blocks)
    modifies dev
    ensures ok <==> Takers(attempts, 0) >= BlocksNeeded(dev.blockSize, pos, |data|)
    ensures ok ==>
      && IsFile(dev.mem, dev.blockSize, cur, pos + |data|) && block == cur[|cur| - 1]
      && Stores(dev.mem, dev.blockSize, cur, bytes[..pos] + data)
    ensures IsFile(dev.mem, dev.blockSize, blocks, size) && Stores(dev.mem, dev.blockSize, blocks, bytes)
  {
    block := head;
    if pos > 0 {
      var o, h;
      block, o, h := Find(dev.mem, dev.blockSize, head, size, pos - 1, blocks);
    }
    StoresPrefix(dev.mem, dev.blockSize, blocks, bytes, pos);
    cur := blocks[..BlocksFor(dev.blockSize, pos)];
    ghost var disk0 := dev.mem;
    var used;
    ok, block, used, cur := WriteLoop(dev, block, pos, data, attempts, cur, bytes[..pos], blocks);
    StoresFrame(disk0, dev.mem, dev.blockSize, blocks, bytes, attempts[..used]);
  }
}
