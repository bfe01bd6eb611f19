/** Whole file writes over the skip list: seeking beyond the end, the data, and the
    old bytes behind it, which closing or syncing the file copies over. */
module CtzFile {
  import opened Bytes
  import opened CtzIndex
  import opened CtzList

  const FILE_MAX: nat := 0x7FFF_FFFF

  datatype Outcome = Done | TooBig | NoSpace

  function NewSize(size: nat, pos: nat, n: nat): nat {
    if size < pos + n then pos + n else size
  }

  /** What a file holds after `data` was written at `pos`: byte by byte, the data where
      it lies, the old file elsewhere, and zeros in a gap between the two. */
  ghost predicate Overwritten(bytes: seq<Byte>, pos: nat, data: seq<Byte>, r: seq<Byte>) {
    && |r| == NewSize(|bytes|, pos, |data|)
    && forall p :: 0 <= p < |r| ==>
         r[p] == if pos <= p < pos + |data| then data[p - pos] else if p < |bytes| then bytes[p] else 0
  }

  /** Nothing to write and no gap to fill: the file is not touched. */
  predicate Idle(size: nat, pos: nat, n: nat) {
    n == 0 && pos <= size
  }

  /** The blocks a write of n bytes at `pos` of a file goes into, the copied tail
      included. */
  function Needed(blockSize: nat, size: nat, pos: nat, n: nat): (k: nat)
    requires blockSize >= 128 && NewSize(size, pos, n) < LIMIT32
    ensures k == 0 <==> Idle(size, pos, n)
  {
    if Idle(size, pos, n) then 0
    else BlocksNeeded(blockSize, Min(pos, size), NewSize(size, pos, n) - Min(pos, size))
  }

  /** The part of the old file whose blocks are kept. */
  function Kept(bytes: seq<Byte>, pos: nat): seq<Byte> {
    bytes[..Min(pos, |bytes|)]
  }

  function Gap(size: nat, pos: nat): nat {
    if pos > size then pos - size else 0
  }

  /** What lies before the end of the data: the gap and the data. */
  function Front(size: nat, pos: nat, data: seq<Byte>): (f: seq<Byte>)
    ensures Min(pos, size) + |f| == pos + |data|
    ensures f == [] <==> Idle(size, pos, |data|)
  {
    Zeros(Gap(size, pos)) + data
  }

  /** What is written behind the kept part: those, and what lay behind the data. */
  function Payload(bytes: seq<Byte>, pos: nat, data: seq<Byte>): seq<Byte> {
    Front(|bytes|, pos, data) + bytes[Min(pos + |data|, |bytes|)..]
  }

  lemma PayloadRight(bytes: seq<Byte>, pos: nat, data: seq<Byte>)
    ensures Overwritten(bytes, pos, data, Kept(bytes, pos) + Payload(bytes, pos, data))
  {
  }

  /* ---- reading the old file byte by byte ---- */

  /** Where the reader stands: at position p, or about to look it up. */
  ghost predicate Reading(blockSize: nat, blocks: seq<Block>, p: nat, reading: bool, block: Block, off: nat) {
    reading && off < blockSize ==>
      Slot(blockSize, p).0 < |blocks| && (block, off) == (blocks[Slot(blockSize, p).0], Slot(blockSize, p).1)
  }

  /** `lfs_file_flushedread` of one byte: a search at the start and at every new block,
      and the next offset otherwise. */
  method ReadByte(disk: Disk, blockSize: nat, head: Block, size: nat, p: nat, reading: bool, block: Block, off: nat,
                  ghost blocks: seq<Block>, ghost bytes: seq<Byte>)
    returns (b: Byte, block': Block, off': nat)
    requires IsFile(disk, blockSize, blocks, size) && |bytes| == size && Stores(disk, blockSize, blocks, bytes)
    requires p < size && head == blocks[|blocks| - 1] && p + 1 < LIMIT32
    requires Reading(blockSize, blocks, p, reading, block, off)
    ensures b == bytes[p] && Reading(blockSize, blocks, p + 1, true, block', off')
  {
    block', off' := block, off;
    if !reading || off >= blockSize {
      var hops;
      block', off', hops := Find(disk, blockSize, head, size, p, blocks);
    }
    assert ByteAt(disk, blockSize, blocks, p) == bytes[p];
    b := disk[block'][off'];
    off' := off' + 1;
    if off' < blockSize {
      NextInBlock(blockSize, p);
    }
  }

  /* ---- writing behind what was written ---- */

  lemma NeedsMore(blockSize: nat, size: nat, n: nat, m: nat)
    requires blockSize >= 128 && 0 < n <= m && size + m < LIMIT32
    ensures BlocksNeeded(blockSize, size, n) <= BlocksNeeded(blockSize, size, m)
  {
    SlotMonotone(blockSize, size + n - 1, size + m - 1);
  }

  /** A piece of the payload: the next `data` goes in, or the whole payload needed more
      candidates than there are. */
  method Put(dev: Device, block0: Block, off0: nat, writing: bool, size: nat, data: seq<Byte>,
             attempts: seq<Attempt>, used0: nat, ghost cur0: seq<Block>, ghost bytes: seq<Byte>,
             ghost front: seq<Byte>, ghost total: nat, ghost blocks: seq<Block>, ghost disk0: Disk)
    returns (ok: bool, block: Block, off: nat, used: nat, ghost cur: seq<Block>)
    requires dev.blockSize >= 128 && FreshBlocks(attempts, blocks)
    requires |bytes| + |front| == size && |front| + |data| <= total && |bytes| + total < LIMIT32
    requires writing <==> front != []
    requires Midway(disk0, dev.mem, dev.blockSize, blocks, attempts, used0, cur0, bytes, front, block0, off0)
    modifies dev
    ensures used <= |attempts| && Frame(disk0, dev.mem, Candidates(attempts[..used]))
    ensures !ok ==> total > 0 && Takers(attempts, 0) < BlocksNeeded(dev.blockSize, |bytes|, total)
    ensures ok ==> Midway(disk0, dev.mem, dev.blockSize, blocks, attempts, used, cur, bytes, front + data, block, off)
  {
    ok, block, off, used, cur :=
      WriteSpan(dev, block0, off0, writing, size, data, attempts, used0, cur0, bytes, front, blocks, disk0);
    if !ok {
      NeedsMore(dev.blockSize, |bytes|, |front| + |data|, total);
    }
  }

  /** The gap in front of the data, one zero at a time. */
  method FillGap(dev: Device, block0: Block, size: nat, gap: nat, attempts: seq<Attempt>,
                 ghost cur0: seq<Block>, ghost bytes: seq<Byte>, ghost total: nat, ghost blocks: seq<Block>)
    returns (ok: bool, block: Block, off: nat, used: nat, ghost cur: seq<Block>)
    requires dev.blockSize >= 128 && FreshBlocks(attempts, blocks)
    requires |bytes| == size && gap <= total && size + total < LIMIT32
    requires Midway(dev.mem, dev.mem, dev.blockSize, blocks, attempts, 0, cur0, bytes, [], block0, 0)
    modifies dev
    ensures used <= |attempts| && Frame(old(dev.mem), dev.mem, Candidates(attempts[..used]))
    ensures !ok ==> total > 0 && Takers(attempts, 0) < BlocksNeeded(dev.blockSize, size, total)
    ensures ok ==>
      Midway(old(dev.mem), dev.mem, dev.blockSize, blocks, attempts, used, cur, bytes, Zeros(gap), block, off)
  {
    var k: nat := 0;
    ok, block, off, used, cur := true, block0, 0, 0, cur0;
    assert Zeros(0) == [];
    while k < gap
      invariant k <= gap && ok
      invariant
        Midway(old(dev.mem), dev.mem, dev.blockSize, blocks, attempts, used, cur, bytes, Zeros(k), block, off)
    {
      ok, block, off, used, cur :=
        Put(dev, block, off, k > 0, size + k, [0], attempts, used, cur, bytes, Zeros(k), total, blocks, old(dev.mem));
      if !ok {
        return;
      }
      var next := k + 1;
      assert Zeros(k) + [0] == Zeros(next);
      k := next;
    }
    assert k == gap;
  }

  /** Part of the tail is copied: the reader stands at p of the old list, which is
      untouched, and the new list holds the bytes before p. */
  ghost predicate Copying(disk0: Disk, disk: Disk, blockSize: nat, attempts: seq<Attempt>, used: nat,
                          cur: seq<Block>, kept: seq<Byte>, front: seq<Byte>, block: Block, off: nat,
                          blocks: seq<Block>, bytes: seq<Byte>, pos: nat, p: nat)
    requires blockSize >= 128
  {
    && |kept| + |front| == pos <= p <= |bytes| < LIMIT32 && front != [] && used <= |attempts|
    && Midway(disk0, disk, blockSize, blocks, attempts, used, cur, kept, front + bytes[pos..p], block, off)
  }

  /** The old list, and where it is read from. */
  ghost predicate Source(disk0: Disk, blockSize: nat, blocks: seq<Block>, bytes: seq<Byte>, head: Block) {
    && IsFile(disk0, blockSize, blocks, |bytes|) && Stores(disk0, blockSize, blocks, bytes)
    && bytes != [] && head == blocks[|blocks| - 1]
  }

  /** One byte of the old list, which the blocks written since do not touch. */
  method Fetch(disk: Disk, blockSize: nat, head: Block, size: nat, p: nat, reading: bool, block: Block, off: nat,
               ghost next: nat, ghost blocks: seq<Block>, ghost bytes: seq<Byte>, ghost written: seq<Attempt>,
               ghost disk0: Disk)
    returns (b: Byte, block': Block, off': nat)
    requires Source(disk0, blockSize, blocks, bytes, head) && p < size == |bytes| && next == p + 1
    requires Frame(disk0, disk, Candidates(written)) && FreshBlocks(written, blocks)
    requires Reading(blockSize, blocks, p, reading, block, off)
    ensures b == bytes[p] && Reading(blockSize, blocks, next, true, block', off')
  {
    StoresFrame(disk0, disk, blockSize, blocks, bytes, written);
    b, block', off' := ReadByte(disk, blockSize, head, size, p, reading, block, off, blocks, bytes);
  }

  lemma Longer(front: seq<Byte>, bytes: seq<Byte>, pos: nat, p: nat, next: nat)
    requires pos <= p < |bytes| && next == p + 1
    ensures front + bytes[pos..p] + [bytes[p]] == front + bytes[pos..next]
  {
  }

  /** One old byte, read from the old list and written to the new one. */
  method CopyByte(dev: Device, head: Block, size: nat, p: nat, ghost next: nat, reading: bool,
                  rblock: Block, roff: nat, block0: Block, off0: nat, attempts: seq<Attempt>, used0: nat,
                  ghost cur0: seq<Block>, ghost kept: seq<Byte>, ghost front: seq<Byte>, ghost blocks: seq<Block>,
                  ghost bytes: seq<Byte>, ghost pos: nat, ghost disk0: Disk)
    returns (ok: bool, block: Block, off: nat, used: nat, ghost cur: seq<Block>, rblock': Block, roff': nat)
    requires FreshBlocks(attempts, blocks) && p < size == |bytes| && next == p + 1
    requires Source(disk0, dev.blockSize, blocks, bytes, head)
    requires Reading(dev.blockSize, blocks, p, reading, rblock, roff)
    requires Copying(disk0, dev.mem, dev.blockSize, attempts, used0, cur0, kept, front, block0, off0,
                     blocks, bytes, pos, p)
    modifies dev
    ensures used <= |attempts| && Frame(disk0, dev.mem, Candidates(attempts[..used]))
    ensures !ok ==> Takers(attempts, 0) < BlocksNeeded(dev.blockSize, |kept|, size - |kept|)
    ensures ok ==> Copying(disk0, dev.mem, dev.blockSize, attempts, used, cur, kept, front, block, off,
                           blocks, bytes, pos, next)
    ensures Reading(dev.blockSize, blocks, next, true, rblock', roff')
  {
    var b;
    b, rblock', roff' :=
      Fetch(dev.mem, dev.blockSize, head, size, p, reading, rblock, roff, next, blocks, bytes, attempts[..used0],
            disk0);
    ok, block, off, used, cur :=
      Put(dev, block0, off0, true, p, [b], attempts, used0, cur0, kept, front + bytes[pos..p], size - |kept|,
          blocks, disk0);
    Longer(front, bytes, pos, p, next);
  }

  /** The old bytes behind the data, copied when the file is flushed. */
  method CopyTail(dev: Device, head: Block, size: nat, pos: nat, block0: Block, off0: nat,
                  attempts: seq<Attempt>, used0: nat, ghost cur0: seq<Block>, ghost kept: seq<Byte>,
                  ghost front: seq<Byte>, ghost blocks: seq<Block>, ghost bytes: seq<Byte>, ghost disk0: Disk)
    returns (ok: bool, block: Block, off: nat, used: nat, ghost cur: seq<Block>)
    requires FreshBlocks(attempts, blocks) && size == |bytes| && pos < size
    requires Source(disk0, dev.blockSize, blocks, bytes, head)
    requires Copying(disk0, dev.mem, dev.blockSize, attempts, used0, cur0, kept, front, block0, off0,
                     blocks, bytes, pos, pos)
    modifies dev
    ensures used <= |attempts| && Frame(disk0, dev.mem, Candidates(attempts[..used]))
    ensures !ok ==> Takers(attempts, 0) < BlocksNeeded(dev.blockSize, |kept|, size - |kept|)
    ensures ok ==> Copying(disk0, dev.mem, dev.blockSize, attempts, used, cur, kept, front, block, off,
                           blocks, bytes, pos, size)
  {
    var p, reading, rblock, roff := pos, false, head, 0;
    ok, block, off, used, cur := true, block0, off0, used0, cur0;
    while p < size
      invariant p <= size && ok
      invariant Reading(dev.blockSize, blocks, p, reading, rblock, roff)
      invariant Copying(disk0, dev.mem, dev.blockSize, attempts, used, cur, kept, front, block, off,
                        blocks, bytes, pos, p)
    {
      var next := p + 1;
      ok, block, off, used, cur, rblock, roff :=
        CopyByte(dev, head, size, p, next, reading, rblock, roff, block, off, attempts, used, cur, kept, front,
                 blocks, bytes, pos, disk0);
      if !ok {
        return;
      }
      p, reading := next, true;
    }
    assert p == size;
  }

  /* ---- a write and the flush behind it ---- */

  /** The gap and the data, behind the kept part of the old list. */
  method WriteFront(dev: Device, block0: Block, size: nat, gap: nat, data: seq<Byte>, attempts: seq<Attempt>,
                    ghost cur0: seq<Block>, ghost kept: seq<Byte>, ghost total: nat, ghost blocks: seq<Block>)
    returns (ok: bool, block: Block, off: nat, used: nat, ghost cur: seq<Block>)
    requires dev.blockSize >= 128 && FreshBlocks(attempts, blocks)
    requires |kept| == size && gap + |data| <= total && size + total < LIMIT32
    requires Midway(dev.mem, dev.mem, dev.blockSize, blocks, attempts, 0, cur0, kept, [], block0, 0)
    modifies dev
    ensures used <= |attempts| && Frame(old(dev.mem), dev.mem, Candidates(attempts[..used]))
    ensures !ok ==> total > 0 && Takers(attempts, 0) < BlocksNeeded(dev.blockSize, size, total)
    ensures ok ==>
      Midway(old(dev.mem), dev.mem, dev.blockSize, blocks, attempts, used, cur, kept, Zeros(gap) + data, block, off)
  {
    ok, block, off, used, cur := FillGap(dev, block0, size, gap, attempts, cur0, kept, total, blocks);
    if ok {
      ok, block, off, used, cur :=
        Put(dev, block, off, gap > 0, size + gap, data, attempts, used, cur, kept, Zeros(gap), total, blocks,
            old(dev.mem));
    }
  }

  /** The block the write goes behind, and the kept part of the list. */
  method Locate(disk: Disk, blockSize: nat, head: Block, size: nat, pos: nat, attempts: seq<Attempt>,
                ghost blocks: seq<Block>, ghost bytes: seq<Byte>)
    returns (block: Block, ghost cur: seq<Block>)
    requires IsFile(disk, blockSize, blocks, size) && |bytes| == size && Stores(disk, blockSize, blocks, bytes)
    requires (size > 0 ==> head == blocks[|blocks| - 1]) && pos <= size && FreshBlocks(attempts, blocks)
    ensures Midway(disk, disk, blockSize, blocks, attempts, 0, cur, bytes[..pos], [], block, 0)
  {
    block := head;
    if pos > 0 {
      var o, h;
      block, o, h := Find(disk, blockSize, head, size, pos - 1, blocks);
    }
    StoresPrefix(disk, blockSize, blocks, bytes, pos);
    cur := blocks[..BlocksFor(blockSize, pos)];
    assert bytes[..pos] + [] == bytes[..pos];
  }

  /** `lfs_file_write` itself. */
  method WriteStart(dev: Device, head: Block, size: nat, pos: nat, data: seq<Byte>, attempts: seq<Attempt>,
                    ghost blocks: seq<Block>, ghost bytes: seq<Byte>)
    returns (ok: bool, block: Block, off: nat, used: nat, ghost cur: seq<Block>)
    requires IsFile(dev.mem, dev.blockSize, blocks, size) && |bytes| == size
    requires Stores(dev.mem, dev.blockSize, blocks, bytes) && (size > 0 ==> head == blocks[|blocks| - 1])
    requires !Idle(size, pos, |data|) && pos + |data| < LIMIT32 && FreshBlocks(attempts, blocks)
    modifies dev
    ensures used <= |attempts| && Frame(old(dev.mem), dev.mem, Candidates(attempts[..used]))
    ensures !ok ==> Takers(attempts, 0) < Needed(dev.blockSize, size, pos, |data|)
    ensures ok ==>
      Midway(old(dev.mem), dev.mem, dev.blockSize, blocks, attempts, used, cur, Kept(bytes, pos),
             Front(size, pos, data), block, off)
  {
    var at := Min(pos, size);
    block, cur := Locate(dev.mem, dev.blockSize, head, size, at, attempts, blocks, bytes);
    ok, block, off, used, cur :=
      WriteFront(dev, block, at, Gap(size, pos), data, attempts, cur, Kept(bytes, pos),
                 NewSize(size, pos, |data|) - at, blocks);
  }

  /** The tail, if the data ends before the old file does. */
  method WriteTail(dev: Device, head: Block, size: nat, pos: nat, data: seq<Byte>, block0: Block, off0: nat,
                   attempts: seq<Attempt>, used0: nat, ghost cur0: seq<Block>, ghost blocks: seq<Block>,
                   ghost bytes: seq<Byte>, ghost disk0: Disk)
    returns (ok: bool, block: Block, off: nat, used: nat, ghost cur: seq<Block>)
    requires FreshBlocks(attempts, blocks) && size == |bytes| && used0 <= |attempts| && dev.blockSize >= 128
    requires !Idle(size, pos, |data|) && NewSize(size, pos, |data|) < LIMIT32
    requires size > 0 ==> Source(disk0, dev.blockSize, blocks, bytes, head)
    requires Midway(disk0, dev.mem, dev.blockSize, blocks, attempts, used0, cur0, Kept(bytes, pos),
                    Front(size, pos, data), block0, off0)
    modifies dev
    ensures used <= |attempts| && Frame(disk0, dev.mem, Candidates(attempts[..used]))
    ensures !ok ==> Takers(attempts, 0) < Needed(dev.blockSize, size, pos, |data|)
    ensures ok ==>
      Midway(disk0, dev.mem, dev.blockSize, blocks, attempts, used, cur, Kept(bytes, pos),
             Payload(bytes, pos, data), block, off)
  {
    ok, block, off, used, cur := true, block0, off0, used0, cur0;
    var end := pos + |data|;
    ghost var front := Front(size, pos, data);
    PayloadEnds(bytes, pos, data, end, front);
    if end < size {
      ok, block, off, used, cur :=
        CopyTail(dev, head, size, end, block0, off0, attempts, used0, cur0, Kept(bytes, pos), front, blocks,
                 bytes, disk0);
    }
  }

  lemma PayloadEnds(bytes: seq<Byte>, pos: nat, data: seq<Byte>, end: nat, front: seq<Byte>)
    requires end == pos + |data| && front == Front(|bytes|, pos, data)
    ensures end < |bytes| ==>
      front + bytes[end..end] == front && front + bytes[end..|bytes|] == Payload(bytes, pos, data)
    ensures end >= |bytes| ==> front == Payload(bytes, pos, data)
  {
  }

  /** A write and the flush: the gap, the data and the copied tail. */
  method WritePayload(dev: Device, head: Block, size: nat, pos: nat, data: seq<Byte>, attempts: seq<Attempt>,
                      ghost blocks: seq<Block>, ghost bytes: seq<Byte>)
    returns (ok: bool, block: Block, ghost off: nat, ghost used: nat, ghost cur: seq<Block>)
    requires IsFile(dev.mem, dev.blockSize, blocks, size) && |bytes| == size
    requires Stores(dev.mem, dev.blockSize, blocks, bytes) && (size > 0 ==> head == blocks[|blocks| - 1])
    requires !Idle(size, pos, |data|) && pos + |data| < LIMIT32 && FreshBlocks(attempts, blocks)
    modifies dev
    ensures used <= |attempts| && Frame(old(dev.mem), dev.mem, Candidates(attempts[..used]))
    ensures !ok ==> Takers(attempts, 0) < Needed(dev.blockSize, size, pos, |data|)
    ensures ok ==>
      Midway(old(dev.mem), dev.mem, dev.blockSize, blocks, attempts, used, cur, Kept(bytes, pos),
             Payload(bytes, pos, data), block, off)
  {
    var o, u;
    ok, block, o, u, cur := WriteStart(dev, head, size, pos, data, attempts, blocks, bytes);
    if ok {
      ok, block, o, u, cur :=
        WriteTail(dev, head, size, pos, data, block, o, attempts, u, cur, blocks, bytes, old(dev.mem));
    }
    off, used := o, u;
  }

  /** What a finished write leaves: the file the write asked for. */
  lemma PayloadStored(disk0: Disk, disk: Disk, blockSize: nat, blocks: seq<Block>, attempts: seq<Attempt>,
                      used: nat, cur: seq<Block>, bytes: seq<Byte>, pos: nat, data: seq<Byte>, block: Block, off: nat)
    requires blockSize >= 128 && NewSize(|bytes|, pos, |data|) < LIMIT32 && !Idle(|bytes|, pos, |data|)
    requires Midway(disk0, disk, blockSize, blocks, attempts, used, cur, Kept(bytes, pos),
                    Payload(bytes, pos, data), block, off)
    ensures var r := Kept(bytes, pos) + Payload(bytes, pos, data);
      && IsFile(disk, blockSize, cur, |r|) && Stores(disk, blockSize, cur, r)
      && block == cur[|cur| - 1]
    ensures Takers(attempts, 0) >= Needed(blockSize, |bytes|, pos, |data|)
  {
    MidwayEnough(disk0, disk, blockSize, blocks, attempts, used, cur, Kept(bytes, pos),
                 Payload(bytes, pos, data), block, off);
  }

  /** A write that changes something, and the flush: the new list, beside the old. */
  method WriteThrough(dev: Device, head: Block, size: nat, pos: nat, data: seq<Byte>, attempts: seq<Attempt>,
                      ghost blocks: seq<Block>, ghost bytes: seq<Byte>)
    returns (ok: bool, block: Block, ghost cur: seq<Block>, ghost bytes': seq<Byte>)
    requires IsFile(dev.mem, dev.blockSize, blocks, size) && |bytes| == size
    requires Stores(dev.mem, dev.blockSize, blocks, bytes) && (size > 0 ==> head == blocks[|blocks| - 1])
    requires !Idle(size, pos, |data|) && pos + |data| < LIMIT32 && FreshBlocks(attempts, blocks)
    modifies dev
    ensures IsFile(dev.mem, dev.blockSize, blocks, size) && Stores(dev.mem, dev.blockSize, blocks, bytes)
    ensures ok <==> Takers(attempts, 0) >= Needed(dev.blockSize, size, pos, |data|)
    ensures Overwritten(bytes, pos, data, bytes')
    ensures ok ==>
      && IsFile(dev.mem, dev.blockSize, cur, |bytes'|) && Stores(dev.mem, dev.blockSize, cur, bytes')
      && block == cur[|cur| - 1]
  {
    ghost var off, used;
    ok, block, off, used, cur := WritePayload(dev, head, size, pos, data, attempts, blocks, bytes);
    StoresFrame(old(dev.mem), dev.mem, dev.blockSize, blocks, bytes, attempts[..used]);
    bytes' := Kept(bytes, pos) + Payload(bytes, pos, data);
    PayloadRight(bytes, pos, data);
    if ok {
      PayloadStored(old(dev.mem), dev.mem, dev.blockSize, blocks, attempts, used, cur, bytes, pos, data, block, off);
    }
  }

  /** What an overwrite at the position chosen for appending or seeking holds. */
  lemma DataLies(bytes: seq<Byte>, append: bool, seekPos: nat, pos: nat, data: seq<Byte>, r: seq<Byte>)
    requires Overwritten(bytes, pos, data, r)
    requires pos == if append && seekPos < |bytes| then |bytes| else seekPos
    ensures append ==> bytes <= r && (seekPos <= |bytes| ==> r == bytes + data)
    ensures !append ==> seekPos + |data| <= |r| && r[seekPos..seekPos + |data|] == data
  {
  }

  /** The write at a given position: refused, nothing to do, or through to the flush. */
  method WriteFrom(dev: Device, head: Block, size: nat, pos: nat, data: seq<Byte>, fileMax: nat,
                   attempts: seq<Attempt>, ghost blocks: seq<Block>, ghost bytes: seq<Byte>)
    returns (r: Outcome, head': Block, size': nat, ghost cur: seq<Block>, ghost bytes': seq<Byte>)
    requires IsFile(dev.mem, dev.blockSize, blocks, size) && |bytes| == size
    requires Stores(dev.mem, dev.blockSize, blocks, bytes) && (size > 0 ==> head == blocks[|blocks| - 1])
    requires |data| <= FILE_MAX && fileMax <= FILE_MAX && FreshBlocks(attempts, blocks)
    modifies dev
    ensures IsFile(dev.mem, dev.blockSize, blocks, size) && Stores(dev.mem, dev.blockSize, blocks, bytes)
    ensures r.TooBig? <==> pos + |data| > fileMax
    ensures r.TooBig? || Idle(size, pos, |data|) ==> dev.mem == old(dev.mem)
    ensures pos + |data| <= fileMax ==>
      (r.Done? <==> Takers(attempts, 0) >= Needed(dev.blockSize, size, pos, |data|))
    ensures r.Done? ==>
      && Overwritten(bytes, pos, data, bytes')
      && size' == |bytes'| && IsFile(dev.mem, dev.blockSize, cur, size')
      && Stores(dev.mem, dev.blockSize, cur, bytes') && (size' > 0 ==> head' == cur[|cur| - 1])
    ensures !r.Done? ==> head' == head && size' == size
  {
    head', size', cur, bytes' := head, size, blocks, bytes;
    if pos + |data| > fileMax {
      r := TooBig;
    } else if Idle(size, pos, |data|) {
      r := Done;
    } else {
      var ok, block;
      ok, block, cur, bytes' := WriteThrough(dev, head, size, pos, data, attempts, blocks, bytes);
      r := NoSpace;
      if ok {
        r, head', size' := Done, block, NewSize(size, pos, |data|);
      }
    }
  }

  /** `lfs_file_write` to a file that is not being written to, and the flush that
      follows when it is synced or closed.  Positions and lengths are signed 32-bit
      values, so their sum does not wrap. */
  method WriteFile(dev: Device, head: Block, size: nat, append: bool, seekPos: nat, data: seq<Byte>, fileMax: nat,
                   attempts: seq<Attempt>, ghost blocks: seq<Block>, ghost bytes: seq<Byte>)
    returns (r: Outcome, head': Block, size': nat, ghost cur: seq<Block>, ghost bytes': seq<Byte>)
    requires IsFile(dev.mem, dev.blockSize, blocks, size) && |bytes| == size
    requires Stores(dev.mem, dev.blockSize, blocks, bytes) && (size > 0 ==> head == blocks[|blocks| - 1])
    requires seekPos <= FILE_MAX && |data| <= FILE_MAX && fileMax <= FILE_MAX && FreshBlocks(attempts, blocks)
    modifies dev
    ensures IsFile(dev.mem, dev.blockSize, blocks, size) && Stores(dev.mem, dev.blockSize, blocks, bytes)
    ensures var pos := if append && seekPos < size then size else seekPos;
      && (r.TooBig? <==> pos + |data| > fileMax)
      && (r.TooBig? || Idle(size, pos, |data|) ==> dev.mem == old(dev.mem))
      && (pos + |data| <= fileMax ==>
            (r.Done? <==> Takers(attempts, 0) >= Needed(dev.blockSize, size, pos, |data|)))
      && (r.Done? ==> Overwritten(bytes, pos, data, bytes'))
    ensures r.Done? ==>
      && size' == |bytes'| && IsFile(dev.mem, dev.blockSize, cur, size')
      && Stores(dev.mem, dev.blockSize, cur, bytes') && (size' > 0 ==> head' == cur[|cur| - 1])
    // appending never changes what was there, and puts the data right behind it
    ensures append && r.Done? ==> bytes <= bytes' && (seekPos <= size ==> bytes' == bytes + data)
    ensures !append && r.Done? ==>
      seekPos + |data| <= |bytes'| && bytes'[seekPos..seekPos + |data|] == data
    ensures !r.Done? ==> head' == head && size' == size
  {
    var pos := seekPos;
    if append && pos < size {
      pos := size;
    }
    r, head', size', cur, bytes' := WriteFrom(dev, head, size, pos, data, fileMax, attempts, blocks, bytes);
    if r.Done? { DataLies(bytes, append, seekPos, pos, data, bytes'); }
  }
}
