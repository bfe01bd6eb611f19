/** The littlefs block-device layer: a read cache and a program cache over a
    device that may fail reads and may store something else than it was given. */
module BdCache {
  import opened Bytes
  import opened BdRead

  datatype Err = Ok | Corrupt | Io

  class Bd {
    const c: Config
    /** What the device holds after being told to program some bytes. */
    const stored: (nat, nat, seq<Byte>) -> seq<Byte>
    var disk: Disk
    var rcache: Cache
    var pcache: Cache
    /** Device reads and programs that still succeed. */
    var budget: nat
    var progs: nat

    ghost predicate Basic()
      reads this
    {
      && ValidConfig(c) && c.progSize % c.readSize == 0
      && ValidDisk(c, disk) && ValidCache(c, pcache, c.progSize) && |rcache.buffer| == c.cacheSize
    }

    ghost predicate Valid()
      reads this
    {
      Basic() && Coherent(c, disk, rcache)
    }

    /** Caches and disk of the right sizes; the read cache may hold anything. */
    ghost predicate Shaped()
      reads this
    {
      Basic() && ValidCache(c, rcache, c.readSize)
    }

    constructor (c: Config, disk: Disk, stored: (nat, nat, seq<Byte>) -> seq<Byte>, budget: nat, progs: nat)
      requires ValidConfig(c) && c.progSize % c.readSize == 0 && ValidDisk(c, disk)
      ensures Valid() && this.c == c && this.disk == disk && this.stored == stored
      ensures pcache.block == BLOCK_NULL
    {
      this.c, this.disk, this.stored, this.budget, this.progs := c, disk, stored, budget, progs;
      rcache := Cache(BLOCK_NULL, 0, 0, Ones(c.cacheSize));
      pcache := Cache(BLOCK_NULL, 0, 0, Ones(c.cacheSize));
    }

    /** The lower half of a turn: bypass the read cache, or refill it. */
    method ReadFetch(hint: nat, block: nat, o: nat, n: nat, data: seq<Byte>, limit: nat, ghost x: Call)
      returns (err: Err, o': nat, n': nat, data': seq<Byte>)
      requires ShapedCall(c, x) && 0 < limit <= n && !rcache.Covers(block, o)
      requires x == Call(disk, x.pcache, block, hint, x.first, BdRead.Read(o, n, data, rcache))
      modifies this`rcache, this`budget
      ensures err != Corrupt
      ensures err == Ok ==> BdRead.Read(o', n', data', rcache) == Fetch(c, x, limit)
      ensures err == Io ==> rcache == old(rcache) || rcache == Mislabelled(c, disk, block, o, hint, old(rcache))
      ensures if old(budget) == 0 then err == Io && budget == 0 else err == Ok && budget == old(budget) - 1
    {
      o', n', data', err := o, n, data, Ok;
      var diff := limit;
      if block == rcache.block && o < rcache.off + rcache.size {
        diff := Min(diff, rcache.off - o);
      }
      if n >= hint && o % c.readSize == 0 && n >= c.readSize {
        diff := AlignDown(diff, c.readSize);
        if budget == 0 {
          err := Io;
          return;
        }
        budget := budget - 1;
        return Ok, o + diff, n - diff, data + disk[block][o..o + diff];
      }
      if budget == 0 {
        // the window is already recorded, but its bytes never arrived
        rcache := Mislabelled(c, disk, block, o, hint, rcache);
        err := Io;
        return;
      }
      budget := budget - 1;
      rcache := Load(c, disk, block, o, hint, rcache);
    }

    /** One turn of the loop of `lfs_bd_read`. */
    method ReadTurn(p: Cache, hint: nat, block: nat, o: nat, n: nat, data: seq<Byte>, ghost x: Call)
      returns (err: Err, o': nat, n': nat, data': seq<Byte>)
      requires ShapedCall(c, x) && n > 0
      requires x == Call(disk, p, block, hint, x.first, BdRead.Read(o, n, data, rcache))
      modifies this`rcache, this`budget
      ensures err != Corrupt
      ensures err == Ok ==> BdRead.Read(o', n', data', rcache) == Turn(c, x)
      ensures err == Io ==> rcache == old(rcache) || rcache == Mislabelled(c, disk, block, o, hint, old(rcache))
      ensures if p.Covers(block, o) || old(rcache).Covers(block, o) then err == Ok && budget == old(budget)
              else if old(budget) == 0 then err == Io && budget == 0 else err == Ok && budget == old(budget) - 1
    {
      var diff := n;
      if block == p.block && o < p.off + p.size {
        if o >= p.off {
          diff := Min(diff, p.size - (o - p.off));
          return Ok, o + diff, n - diff, data + p.buffer[o - p.off..][..diff];
        }
        diff := Min(diff, p.off - o);
      }
      if block == rcache.block && o < rcache.off + rcache.size && o >= rcache.off {
        diff := Min(diff, rcache.size - (o - rcache.off));
        return Ok, o + diff, n - diff, data + rcache.buffer[o - rcache.off..][..diff];
      }
      err, o', n', data' := ReadFetch(hint, block, o, n, data, diff, x);
    }

    /** `lfs_bd_read`, with the program cache or (`p` holding no block) without.

        From a coherent read cache a success is right.  A failed device read leaves
        the cache as it was or labels the bytes of the window before as another one.
        From then on, reads inside a window and outside the program cache return
        what the cache holds under its label, right or not. */
    method Read(p: Cache, hint: nat, block: nat, off: nat, size: nat) returns (err: Err, data: seq<Byte>)
      requires Shaped() && ValidCache(c, p, c.progSize) && hint > 0
      modifies this`rcache, this`budget
      ensures Shaped()
      ensures err == Corrupt <==> off + size > c.blockSize || block >= c.blockCount
      ensures err == Corrupt ==> rcache == old(rcache)
      ensures old(Valid()) && err == Ok ==> Valid() && data == View(c, disk, p, block)[off..off + size]
      ensures old(Valid()) && err == Io ==> Valid() || LoadFailed(c, disk, rcache, block, off, size, hint)
      ensures err != Corrupt && Inside(old(rcache), p, block, off, size) ==>
                && err == Ok && rcache == old(rcache)
                && data == rcache.buffer[off - rcache.off..off - rcache.off + size]
      // it fails only when the device does, and asks it at most once for a byte
      ensures err == Io ==> budget == 0 && old(budget) < size
      ensures old(budget) <= budget + size
    {
      data := [];
      if off + size > c.blockSize || block >= c.blockCount {
        return Corrupt, data;
      }
      var o: nat, n: nat := off, size;
      ghost var x := Call(disk, p, block, hint, off, BdRead.Read(o, n, data, rcache));
      ghost var sound, k := Valid(), rcache;
      while n > 0
        invariant x == Call(disk, p, block, hint, off, BdRead.Read(o, n, data, rcache))
        invariant OnItsWay(c, x, sound, k, size)
        invariant old(budget) <= budget + size - n + Cached(x)
        decreases Measure(x)
      {
        err, o, n, data, x := ReadStep(p, hint, block, o, n, data, x, sound, k, size);
        if err != Ok {
          return;
        }
      }
      err := Ok;
    }

    /** One turn, and what it does to all that is known of the read. */
    method ReadStep(p: Cache, hint: nat, block: nat, o: nat, n: nat, data: seq<Byte>,
                    ghost x: Call, ghost sound: bool, ghost k: Cache, ghost size: nat)
      returns (err: Err, o': nat, n': nat, data': seq<Byte>, ghost x': Call)
      requires Basic() && hint > 0 && n > 0 && OnItsWay(c, x, sound, k, size)
      requires x == Call(disk, p, block, hint, x.first, BdRead.Read(o, n, data, rcache))
      modifies this`rcache, this`budget
      ensures err != Corrupt && ValidCache(c, rcache, c.readSize)
      ensures err == Ok ==> OnItsWay(c, x', sound, k, size) && Measure(x') < Measure(x) && x'.first == x.first
      ensures err == Ok ==> x' == Call(disk, p, block, hint, x.first, BdRead.Read(o', n', data', rcache))
      ensures err == Io ==> !Inside(k, p, block, x.first, size)
      ensures err == Io && sound ==>
        Coherent(c, disk, rcache) || LoadFailed(c, disk, rcache, block, x.first, size, hint)
      ensures err == Io ==> budget == old(budget) == 0 && Cached(x) == 0
      ensures err == Ok ==> old(budget) + Cached(x) <= budget + n - n' + Cached(x')
    {
      TurnFacts(c, x, sound);
      if Inside(k, p, block, x.first, size) { HitTurn(c, x, k, size); }
      MislabelledFails(c, disk, rcache, block, o, x.first, size, hint);
      err, o', n', data' := ReadTurn(p, hint, block, o, n, data, x);
      x' := x.(s := Turn(c, x));
      TurnSpends(c, x, Turn(c, x));
    }

    /** `lfs_bd_cmp` without the program cache: eight bytes at a time. */
    method Matches(block: nat, off: nat, bytes: seq<Byte>) returns (err: Err, same: bool)
      requires Valid() && block < c.blockCount && off + |bytes| <= c.blockSize
      modifies this`rcache, this`budget
      ensures err == Ok ==> Valid() && same == (disk[block][off..off + |bytes|] == bytes)
      ensures err != Corrupt && (err == Io ==> budget == 0 && old(budget) < |bytes|)
      ensures old(budget) <= budget + |bytes|
    {
      ghost var there := disk[block][off..off + |bytes|];
      var i := 0;
      while i < |bytes|
        invariant Valid() && 0 <= i <= |bytes| && there[..i] == bytes[..i]
        invariant old(budget) <= budget + i
      {
        var diff := Min(|bytes| - i, 8);
        var p := Cache(BLOCK_NULL, 0, 0, pcache.buffer);
        var e, dat := Read(p, |bytes| - i, block, off + i, diff);
        if e != Ok {
          return e, false;
        }
        PlainSlice(c, disk, p, block, off, |bytes|, i, diff);
        Pieces(there, bytes, i, diff);
        if dat != bytes[i..i + diff] {
          return Ok, false;
        }
        i := i + diff;
      }
      return Ok, true;
    }

    /** The bytes the device really ends up holding. */
    function Landed(block: nat, off: nat, bytes: seq<Byte>): (r: seq<Byte>)
      ensures |r| == |bytes|
    {
      var r := stored(block, off, bytes);
      if |r| == |bytes| then r else bytes
    }

    /** `lfs_cache_zero`. */
    method ZeroPcache()
      modifies this`pcache
      ensures pcache == old(pcache).(block := BLOCK_NULL, buffer := Ones(c.cacheSize))
    {
      pcache := pcache.(block := BLOCK_NULL, buffer := Ones(c.cacheSize));
    }

    /** `lfs_bd_flush`: with `validate`, success means the device stored exactly
        what it was given, whatever device it is. */
    method Flush(validate: bool) returns (err: Err)
      requires Basic()
      modifies this`disk, this`rcache, this`pcache, this`budget, this`progs
      ensures old(pcache).block == BLOCK_NULL ==>
        err == Ok && disk == old(disk) && rcache == old(rcache) && pcache == old(pcache)
      ensures err == Ok && old(pcache).block != BLOCK_NULL ==>
        && var p := old(pcache);
           var bytes := Flushed(c, p);
           var landed := Landed(p.block, p.off, bytes);
           && disk == Put(c, old(disk), p.block, p.off, landed)
           && (validate ==> landed == bytes)
           && pcache == p.(block := BLOCK_NULL, buffer := Ones(c.cacheSize))
      ensures err == Ok && !validate ==> rcache == old(rcache)
      ensures err == Ok ==> Basic()
      ensures err == Ok && validate && old(pcache).block != BLOCK_NULL ==> Valid()
      // it fails only when the device does, and then keeps the window
      ensures err != Ok ==> Refused(err, validate, old(pcache), old(progs), old(budget))
      ensures err != Ok ==> pcache == old(pcache)
      ensures old(progs) == 0 && old(pcache).block != BLOCK_NULL ==> err == Io && disk == old(disk)
      ensures old(progs) <= progs + 1 && old(budget) <= budget + if validate then c.cacheSize else 0
    {
      if pcache.block == BLOCK_NULL {
        return Ok;
      }
      var p := pcache;
      var bytes := Flushed(c, p);
      if progs == 0 {
        return Io;
      }
      progs := progs - 1;
      disk := Put(c, disk, p.block, p.off, Landed(p.block, p.off, bytes));
      if validate {
        rcache := rcache.(block := BLOCK_NULL);
        var e, same := Matches(p.block, p.off, bytes);
        if e != Ok {
          return e;
        }
        assert disk[p.block][p.off..p.off + |bytes|] == Landed(p.block, p.off, bytes);
        if !same {
          return Corrupt;
        }
      }
      ZeroPcache();
      err := Ok;
    }

    /** Why a flush of window p may fail: the device took no program, or no read to
        check it, or it stored something else. */
    ghost predicate Refused(err: Err, validate: bool, p: Cache, progs: nat, budget: nat)
      requires ValidConfig(c) && ValidCache(c, p, c.progSize)
    {
      && p.block != BLOCK_NULL
      && match err
         case Ok => false
         case Io => progs == 0 || (validate && budget < |Flushed(c, p)|)
         case Corrupt => validate && Landed(p.block, p.off, Flushed(c, p)) != Flushed(c, p)
    }

    /** `lfs_bd_sync`: dropping the read cache first makes an unchecked flush safe. */
    method Sync(validate: bool) returns (err: Err)
      requires Basic()
      modifies this`disk, this`rcache, this`pcache, this`budget, this`progs
      ensures err == Ok ==> Valid() && pcache.block == BLOCK_NULL
      ensures err == Ok && old(pcache).block != BLOCK_NULL ==>
        && var p := old(pcache);
           var bytes := Flushed(c, p);
           var landed := Landed(p.block, p.off, bytes);
           && disk == Put(c, old(disk), p.block, p.off, landed)
           && (validate ==> landed == bytes)
      ensures err != Ok ==> Refused(err, validate, old(pcache), old(progs), old(budget))
      ensures old(pcache).block == BLOCK_NULL ==> err == Ok && disk == old(disk)
    {
      rcache := rcache.(block := BLOCK_NULL);
      err := Flush(validate);
    }

    /** After programming in sequence, a sync puts the whole view on the disk. */
    method SyncAppended(validate: bool, ghost off: nat) returns (err: Err)
      requires Basic() && pcache.block != BLOCK_NULL && Appending(c, disk, pcache, pcache.block, off)
      requires validate || Honest()
      modifies this`disk, this`rcache, this`pcache, this`budget, this`progs
      ensures err == Ok ==> Valid() && disk[old(pcache).block] == View(c, old(disk), old(pcache), old(pcache).block)
      ensures err != Ok ==> Refused(err, validate, old(pcache), old(progs), old(budget))
    {
      ghost var d, p := disk, pcache;
      err := Sync(validate);
      if err == Ok {
        assert disk[p.block] == View(c, d, p, p.block);
      }
    }

    /** A call that flushes at most n windows, with `bytes` bytes in all: it fails only
        for want of programs, of reads to check them, or of a device that stores what
        it is given. */
    ghost predicate Spent(err: Err, validate: bool, progs0: nat, budget0: nat, progs: nat, budget: nat,
                          n: nat, bytes: int)
    {
      && (err == Io ==> progs0 < n || (validate && budget0 < bytes))
      && (err == Corrupt ==> validate && !Honest())
      && (err == Ok ==> progs0 <= progs + n && (validate ==> budget0 <= budget + bytes))
    }

    /** Flush a window that has just been filled. */
    method FlushFull(validate: bool) returns (err: Err)
      requires Basic() && pcache.block != BLOCK_NULL && pcache.size == c.cacheSize
      requires forall i :: pcache.off <= i < c.blockSize ==> disk[pcache.block][i] == ERASED
      requires validate || Honest()
      modifies this`disk, this`rcache, this`pcache, this`budget, this`progs
      ensures err == Ok ==>
        && Basic() && pcache.block == BLOCK_NULL
        && ReadCacheKept(c, validate, old(disk), old(rcache), disk, rcache)
        && var p := old(pcache);
           && Appending(c, disk, pcache, p.block, p.off + c.cacheSize)
           && Programmed(c, old(disk), p, disk, pcache, p.block, p.off + c.cacheSize, [])
      ensures Spent(err, validate, old(progs), old(budget), progs, budget, 1, c.cacheSize)
      ensures err == Ok ==> WindowStart(c, pcache, old(pcache).off + c.cacheSize) == old(pcache).off + c.cacheSize
    {
      ghost var d, p := disk, pcache;
      err := Flush(validate);
      FullWindow(c, p);
      if err == Ok {
        FlushedView(c, d, p, disk, pcache, p.block, p.off + c.cacheSize);
      }
    }

    /** Flush the window if it is full. */
    method EagerFlush(validate: bool, ghost block: nat, ghost end: nat) returns (err: Err)
      requires Basic() && pcache.block == block < c.blockCount && pcache.off <= end <= c.blockSize
      requires pcache.size == c.cacheSize ==> pcache.off + c.cacheSize == end
      requires forall i :: pcache.off <= i < c.blockSize ==> disk[pcache.block][i] == ERASED
      requires pcache.size < c.cacheSize ==> Appending(c, disk, pcache, block, end)
      requires validate || Honest()
      modifies this`disk, this`rcache, this`pcache, this`budget, this`progs
      ensures err == Ok ==>
        && Basic() && Appending(c, disk, pcache, block, end)
        && Programmed(c, old(disk), old(pcache), disk, pcache, block, end, [])
        && ReadCacheKept(c, validate, old(disk), old(rcache), disk, rcache)
      ensures Spent(err, validate, old(progs), old(budget), progs, budget, 1,
                    (if err == Ok then WindowStart(c, pcache, end) else end) - old(pcache).off)
    {
      err := Ok;
      if pcache.size == c.cacheSize {
        err := FlushFull(validate);
      } else {
        assert Overlay(View(c, disk, pcache, block), end, []) == View(c, disk, pcache, block);
      }
    }

    /** The copy into an open window, flushing it once it is full. */
    method ProgWindow(validate: bool, block: nat, off: nat, data: seq<Byte>) returns (err: Err, n: nat)
      requires Basic() && pcache.block == block
      requires Appending(c, disk, pcache, block, off) && 0 < |data| && off + |data| <= c.blockSize
      requires validate || Honest()
      modifies this`disk, this`rcache, this`pcache, this`budget, this`progs
      ensures err == Ok ==>
        && Basic() && 0 < n <= |data| && Appending(c, disk, pcache, block, off + n)
        && Programmed(c, old(disk), old(pcache), disk, pcache, block, off, data[..n])
        && ReadCacheKept(c, validate, old(disk), old(rcache), disk, rcache)
      ensures Spent(err, validate, old(progs), old(budget), progs, budget, 1,
                    (if err == Ok then WindowStart(c, pcache, off + n) else off + |data|) - old(pcache).off)
    {
      n := Min(|data|, c.cacheSize - (off - pcache.off));
      ghost var d, p := disk, pcache;
      pcache := Copied(c, pcache, off, data[..n]);
      CopiedView(c, disk, p, block, off, data[..n]);
      ghost var q := pcache;
      err := EagerFlush(validate, block, off + n);
      if err == Ok {
        ProgrammedThen(c, d, p, d, q, disk, pcache, block, off, data[..n], []);
        assert data[..n] + [] == data[..n];
      }
    }

    /** One turn of `lfs_bd_prog`: open a window if there is none, then fill it. */
    method ProgTurn(validate: bool, block: nat, off: nat, data: seq<Byte>) returns (err: Err, n: nat)
      requires Basic() && Appending(c, disk, pcache, block, off) && 0 < |data| && off + |data| <= c.blockSize
      requires validate || Honest()
      modifies this`disk, this`rcache, this`pcache, this`budget, this`progs
      ensures err == Ok ==>
        && Basic() && 0 < n <= |data| && Appending(c, disk, pcache, block, off + n)
        && Programmed(c, old(disk), old(pcache), disk, pcache, block, off, data[..n])
        && ReadCacheKept(c, validate, old(disk), old(rcache), disk, rcache)
      ensures Spent(err, validate, old(progs), old(budget), progs, budget, 1,
                    (if err == Ok then WindowStart(c, pcache, off + n) else off + |data|)
                    - WindowStart(c, old(pcache), off))
    {
      ghost var d, p := disk, pcache;
      if pcache.block == BLOCK_NULL {
        OpenedWindow(c, disk, pcache, block, off);
        pcache := pcache.(block := block, off := AlignDown(off, c.progSize), size := 0);
      }
      ghost var q := pcache;
      err, n := ProgWindow(validate, block, off, data);
      if err == Ok && q != p {
        ProgrammedThen(c, d, p, d, q, disk, pcache, block, off, [], data[..n]);
        assert [] + data[..n] == data[..n];
      }
    }

    /** A turn after k bytes, seen from the state before the first of them. */
    method ProgNext(validate: bool, block: nat, off: nat, data: seq<Byte>, k: nat,
                    ghost d0: Disk, ghost p0: Cache, ghost r0: Cache, ghost progs0: nat, ghost budget0: nat,
                    ghost start: nat)
      returns (err: Err, k': nat)
      requires Basic() && ValidDisk(c, d0) && ValidCache(c, p0, c.progSize)
      requires k < |data| && off + |data| <= c.blockSize && Appending(c, disk, pcache, block, off + k)
      requires Programmed(c, d0, p0, disk, pcache, block, off, data[..k])
      requires ReadCacheKept(c, validate, d0, r0, disk, rcache)
      requires validate || Honest()
      requires Spent(Ok, validate, progs0, budget0, progs, budget, k, WindowStart(c, pcache, off + k) - start)
      modifies this`disk, this`rcache, this`pcache, this`budget, this`progs
      ensures err == Ok ==>
        && Basic() && k < k' <= |data| && Appending(c, disk, pcache, block, off + k')
        && Programmed(c, d0, p0, disk, pcache, block, off, data[..k'])
        && ReadCacheKept(c, validate, d0, r0, disk, rcache)
      ensures if err == Ok then
                Spent(err, validate, progs0, budget0, progs, budget, k', WindowStart(c, pcache, off + k') - start)
              else Spent(err, validate, progs0, budget0, progs, budget, |data|, off + |data| - start)
    {
      ghost var d, p := disk, pcache;
      var n;
      err, n := ProgTurn(validate, block, off + k, data[k..]);
      k' := k + n;
      if err == Ok {
        ProgrammedThen(c, d0, p0, d, p, disk, pcache, block, off, data[..k], data[k..][..n]);
        Joined(data, k, n);
      }
    }

    /** `lfs_bd_prog`: the data becomes part of the logical view, through however
        many windows and flushes, on a checked or an honest device. */
    method Prog(validate: bool, block: nat, off: nat, data: seq<Byte>) returns (err: Err)
      requires Basic() && Appending(c, disk, pcache, block, off) && off + |data| <= c.blockSize
      requires validate || Honest()
      modifies this`disk, this`rcache, this`pcache, this`budget, this`progs
      ensures err == Ok ==>
        && Basic() && Appending(c, disk, pcache, block, off + |data|)
        && Programmed(c, old(disk), old(pcache), disk, pcache, block, off, data)
        && ReadCacheKept(c, validate, old(disk), old(rcache), disk, rcache)
      ensures Spent(err, validate, old(progs), old(budget), progs, budget, |data|,
                    off + |data| - WindowStart(c, old(pcache), off))
    {
      var k: nat := 0;
      ghost var start := WindowStart(c, pcache, off);
      err := Ok;
      NothingProgrammed(c, disk, pcache, block, off, data);
      while k < |data|
        invariant err == Ok && Basic() && k <= |data| && Appending(c, disk, pcache, block, off + k)
        invariant Programmed(c, old(disk), old(pcache), disk, pcache, block, off, data[..k])
        invariant ReadCacheKept(c, validate, old(disk), old(rcache), disk, rcache)
        invariant Spent(Ok, validate, old(progs), old(budget), progs, budget, k,
                        WindowStart(c, pcache, off + k) - start)
        decreases |data| - k
      {
        err, k := ProgNext(validate, block, off, data, k, old(disk), old(pcache), old(rcache),
                           old(progs), old(budget), start);
        if err != Ok {
          return;
        }
      }
      assert k == |data|;
      assert data[..|data|] == data;
    }

    ghost predicate Honest() {
      forall b, o, d :: Landed(b, o, d) == d
    }
  }

  /** The whole program units a flush writes. */
  function Flushed(c: Config, p: Cache): (bytes: seq<Byte>)
    requires ValidConfig(c) && ValidCache(c, p, c.progSize) && p.block != BLOCK_NULL
    ensures p.size <= |bytes| && p.off + |bytes| <= c.blockSize && |bytes| % c.progSize == 0
    ensures |bytes| <= c.cacheSize && bytes == p.buffer[..|bytes|]
  {
    FlushFits(c, p);
    p.buffer[..AlignUp(p.size, c.progSize)]
  }

  lemma FlushFits(c: Config, p: Cache)
    requires ValidConfig(c) && ValidCache(c, p, c.progSize) && p.block != BLOCK_NULL
    ensures var n := AlignUp(p.size, c.progSize);
      p.size <= n <= c.cacheSize && p.off + n <= c.blockSize && n % c.progSize == 0
  {
    var n := AlignUp(p.size, c.progSize);
    Aligned(p.size + c.progSize - 1, c.progSize);
    if n > c.cacheSize { MultiplesApart(c.cacheSize, n, c.progSize); }
    MultipleTrans(c.blockSize, c.cacheSize, c.progSize);
    MultiplesAdd(p.off, n, c.progSize);
    if p.off + n > c.blockSize { MultiplesApart(c.blockSize, p.off + n, c.progSize); }
  }

  function Overlay(v: seq<Byte>, off: nat, bytes: seq<Byte>): (r: seq<Byte>)
    requires off + |bytes| <= |v|
    ensures |r| == |v|
    ensures forall i :: 0 <= i < |v| ==>
      r[i] == if off <= i < off + |bytes| then bytes[i - off] else v[i]
  {
    v[..off] + bytes + v[off + |bytes|..]
  }

  function Put(c: Config, disk: Disk, block: nat, off: nat, bytes: seq<Byte>): (d: Disk)
    requires ValidDisk(c, disk) && block < c.blockCount && off + |bytes| <= c.blockSize
    ensures ValidDisk(c, d)
  {
    disk[block := Overlay(disk[block], off, bytes)]
  }

  /** What sequential programming relies on: the rest of the block is erased, and
      so are the unused bytes of the program cache. */
  ghost predicate Appending(c: Config, disk: Disk, p: Cache, block: nat, off: nat)
    requires ValidConfig(c) && ValidDisk(c, disk) && ValidCache(c, p, c.progSize)
  {
    && block < c.blockCount && off <= c.blockSize
    && (p.block != BLOCK_NULL ==>
          p.block == block && p.off <= off < p.off + c.cacheSize && p.size < c.cacheSize)
    && (forall i :: WindowStart(c, p, off) <= i < c.blockSize ==> disk[block][i] == ERASED)
    && (forall i :: (if p.block == BLOCK_NULL then 0 else p.size) <= i < c.cacheSize ==> p.buffer[i] == ERASED)
  }

  function WindowStart(c: Config, p: Cache, off: nat): nat
    requires ValidConfig(c)
  {
    if p.block == BLOCK_NULL then AlignDown(off, c.progSize) else p.off
  }

  // A full window ends on a program boundary.
  lemma FullWindow(c: Config, p: Cache)
    requires ValidConfig(c) && ValidCache(c, p, c.progSize) && p.block != BLOCK_NULL && p.size == c.cacheSize
    ensures AlignDown(p.off + c.cacheSize, c.progSize) == p.off + c.cacheSize && |Flushed(c, p)| == c.cacheSize
  {
    MultiplesAdd(p.off, c.cacheSize, c.progSize);
    Aligned(p.off + c.cacheSize, c.progSize);
  }

  /** The data has become part of the view of its block; no other view changed. */
  ghost predicate Programmed(c: Config, d: Disk, p: Cache, d': Disk, p': Cache, block: nat, off: nat, data: seq<Byte>)
    requires ValidConfig(c) && ValidDisk(c, d) && ValidDisk(c, d')
    requires ValidCache(c, p, c.progSize) && ValidCache(c, p', c.progSize)
    requires block < c.blockCount && off + |data| <= c.blockSize
  {
    && View(c, d', p', block) == Overlay(View(c, d, p, block), off, data)
    && forall b :: 0 <= b < c.blockCount && b != block ==> View(c, d', p', b) == View(c, d, p, b)
  }

  function Copied(c: Config, p: Cache, off: nat, bytes: seq<Byte>): Cache
    requires |p.buffer| == c.cacheSize && p.off <= off && off + |bytes| <= p.off + c.cacheSize
  {
    var end := off + |bytes| - p.off;
    p.(buffer := Overlay(p.buffer, off - p.off, bytes), size := if p.size < end then end else p.size)
  }

  lemma CopiedView(c: Config, disk: Disk, p: Cache, block: nat, off: nat, bytes: seq<Byte>)
    requires ValidConfig(c) && ValidDisk(c, disk) && ValidCache(c, p, c.progSize)
    requires Appending(c, disk, p, block, off) && p.block == block && off + |bytes| <= c.blockSize
    requires off + |bytes| <= p.off + c.cacheSize
    ensures var q := Copied(c, p, off, bytes);
      && ValidCache(c, q, c.progSize)
      && Programmed(c, disk, p, disk, q, block, off, bytes)
      && (q.size < c.cacheSize ==> Appending(c, disk, q, block, off + |bytes|))
  {
    var q := Copied(c, p, off, bytes);
    assert View(c, disk, q, block) == Overlay(View(c, disk, p, block), off, bytes);
    forall b | 0 <= b < c.blockCount && b != block ensures View(c, disk, q, b) == View(c, disk, p, b) {}
  }

  /** Flushing a window over erased bytes moves it to the disk without changing
      any view: its padding is as erased as what it covers. */
  lemma FlushedView(c: Config, d: Disk, p: Cache, d': Disk, q: Cache, block: nat, off: nat)
    requires ValidConfig(c) && ValidDisk(c, d) && ValidCache(c, p, c.progSize)
    requires p.block == block < c.blockCount && off == p.off + |Flushed(c, p)|
    requires forall i :: p.off <= i < c.blockSize ==> d[block][i] == ERASED
    requires forall i :: p.size <= i < c.cacheSize ==> p.buffer[i] == ERASED
    requires d' == Put(c, d, block, p.off, Flushed(c, p))
    requires q == p.(block := BLOCK_NULL, buffer := Ones(c.cacheSize))
    ensures Programmed(c, d, p, d', q, block, off, [])
    ensures Appending(c, d', q, block, off)
  {
    assert View(c, d', q, block) == View(c, d, p, block);
    forall b | 0 <= b < c.blockCount && b != block ensures View(c, d', q, b) == View(c, d, p, b) {}
    MultiplesAdd(p.off, |Flushed(c, p)|, c.progSize);
    Aligned(off, c.progSize);
  }

  lemma ProgrammedThen(c: Config, d0: Disk, p0: Cache, d1: Disk, p1: Cache, d2: Disk, p2: Cache,
                       block: nat, off: nat, a: seq<Byte>, b: seq<Byte>)
    requires ValidConfig(c) && ValidDisk(c, d0) && ValidDisk(c, d1) && ValidDisk(c, d2)
    requires ValidCache(c, p0, c.progSize) && ValidCache(c, p1, c.progSize) && ValidCache(c, p2, c.progSize)
    requires block < c.blockCount && off + |a| <= c.blockSize
    requires off + |a| + |b| <= c.blockSize
    requires Programmed(c, d0, p0, d1, p1, block, off, a) && Programmed(c, d1, p1, d2, p2, block, off + |a|, b)
    ensures Programmed(c, d0, p0, d2, p2, block, off, a + b)
  {
    var v := View(c, d0, p0, block);
    assert Overlay(v, off, a + b) == Overlay(Overlay(v, off, a), off + |a|, b);
  }

  /** Opening an empty window changes no view. */
  lemma OpenedWindow(c: Config, d: Disk, p: Cache, block: nat, off: nat)
    requires ValidConfig(c) && ValidDisk(c, d) && ValidCache(c, p, c.progSize)
    requires p.block == BLOCK_NULL && Appending(c, d, p, block, off) && off < c.blockSize
    ensures var q := p.(block := block, off := AlignDown(off, c.progSize), size := 0);
      && ValidCache(c, q, c.progSize) && Appending(c, d, q, block, off)
      && Programmed(c, d, p, d, q, block, off, [])
  {
    var q := p.(block := block, off := AlignDown(off, c.progSize), size := 0);
    Aligned(off, c.progSize);
    MultiplesApart(0, c.cacheSize, c.progSize);
    forall b | 0 <= b < c.blockCount ensures View(c, d, q, b) == View(c, d, p, b) {}
    assert Overlay(View(c, d, p, block), off, []) == View(c, d, p, block);
  }

  lemma PlainSlice(c: Config, disk: Disk, p: Cache, block: nat, off: nat, n: nat, i: nat, diff: nat)
    requires ValidConfig(c) && ValidDisk(c, disk) && ValidCache(c, p, c.progSize) && p.block == BLOCK_NULL
    requires block < c.blockCount && off + n <= c.blockSize && i + diff <= n
    ensures View(c, disk, p, block)[off + i..off + i + diff] == disk[block][off..off + n][i..i + diff]
  {
    assert View(c, disk, p, block) == disk[block];
  }

  lemma Joined(data: seq<Byte>, k: nat, n: nat)
    requires k + n <= |data|
    ensures data[..k] + data[k..][..n] == data[..k + n]
  {
  }

  lemma NothingProgrammed(c: Config, d: Disk, p: Cache, block: nat, off: nat, data: seq<Byte>)
    requires ValidConfig(c) && ValidDisk(c, d) && ValidCache(c, p, c.progSize)
    requires block < c.blockCount && off <= c.blockSize
    ensures Programmed(c, d, p, d, p, block, off, data[..0])
  {
    assert Overlay(View(c, d, p, block), off, data[..0]) == View(c, d, p, block);
  }

  /** Checked programming keeps a coherent read cache coherent; unchecked
      programming leaves the read cache alone, coherent or not. */
  ghost predicate ReadCacheKept(c: Config, validate: bool, d: Disk, r: Cache, d': Disk, r': Cache)
    requires ValidConfig(c) && ValidDisk(c, d) && ValidDisk(c, d')
  {
    if validate then Coherent(c, d, r) ==> Coherent(c, d', r') else r' == r
  }

  lemma Pieces(a: seq<Byte>, b: seq<Byte>, i: nat, n: nat)
    requires |a| == |b| && i + n <= |a| && a[..i] == b[..i]
    ensures a[i..i + n] == b[i..i + n] <==> a[..i + n] == b[..i + n]
    ensures a == b ==> a[i..i + n] == b[i..i + n]
  {
    assert a[..i + n] == a[..i] + a[i..i + n] && b[..i + n] == b[..i] + b[i..i + n];
    assert a[i..i + n] == a[..i + n][i..] && b[i..i + n] == b[..i + n][i..];
  }

  /* ---- reads that fail, and reads after them ---- */

  /** The read cache after a load whose device read failed: the new label on the
      bytes of before. */
  function Mislabelled(c: Config, disk: Disk, block: nat, o: nat, hint: nat, k: Cache): Cache
    requires ValidConfig(c) && ValidDisk(c, disk) && block < c.blockCount && o < c.blockSize
    requires |k.buffer| == c.cacheSize
  {
    Load(c, disk, block, o, hint, k).(buffer := k.buffer)
  }

  /** k is such a cache, from a coherent one, for some byte of the request. */
  ghost predicate LoadFailed(c: Config, disk: Disk, k: Cache, block: nat, off: nat, size: nat, hint: nat)
    requires ValidConfig(c) && ValidDisk(c, disk) && block < c.blockCount && off + size <= c.blockSize
  {
    exists o: nat, was: Cache ::
      off <= o < off + size && Coherent(c, disk, was) && k == Mislabelled(c, disk, block, o, hint, was)
  }

  /** All of the range lies in the window k claims, and nothing of it in the
      program cache. */
  predicate Inside(k: Cache, p: Cache, block: nat, off: nat, size: nat) {
    && size > 0 && k.block == block && k.off <= off && off + size <= k.off + k.size
    && forall i :: off <= i < off + size ==> !p.Covers(block, i)
  }

  /** What the cache holds after a failed load: byte j of the window before, under the
      new label. */
  lemma StaleByte(c: Config, disk: Disk, was: Cache, k: Cache, block: nat, o: nat, hint: nat, j: nat)
    requires ValidConfig(c) && ValidDisk(c, disk) && block < c.blockCount && o < c.blockSize
    requires Coherent(c, disk, was) && was.block != BLOCK_NULL && j < was.size
    requires k == Mislabelled(c, disk, block, o, hint, was)
    ensures k.buffer[j] == disk[was.block][was.off + j]
  {
    assert was.buffer[..was.size][j] == was.buffer[j];
  }

  /** A read inside the new window, as far as the window before reaches, returns what
      the disk holds at the same distance from the start of that one; so it is right
      if and only if the two places on the disk hold the same bytes. */
  lemma StaleReadIff(c: Config, disk: Disk, was: Cache, k: Cache, p: Cache,
                     block: nat, o: nat, hint: nat, off: nat, size: nat)
    requires ValidConfig(c) && ValidDisk(c, disk) && block < c.blockCount && o < c.blockSize
    requires Coherent(c, disk, was) && was.block != BLOCK_NULL && k == Mislabelled(c, disk, block, o, hint, was)
    requires ValidCache(c, p, c.progSize) && off + size <= c.blockSize && Inside(k, p, block, off, size)
    requires off - k.off + size <= was.size
    ensures var from := was.off + off - k.off; var got := k.buffer[off - k.off..off - k.off + size];
            && got == disk[was.block][from..from + size]
            && (got == View(c, disk, p, block)[off..off + size]
                <==> disk[was.block][from..from + size] == disk[block][off..off + size])
  {
    var from, got := was.off + off - k.off, k.buffer[off - k.off..off - k.off + size];
    forall i | 0 <= i < size ensures got[i] == disk[was.block][from + i] {
      StaleByte(c, disk, was, k, block, o, hint, off - k.off + i);
    }
    assert View(c, disk, p, block)[off..off + size] == disk[block][off..off + size];
  }

  /** Two blocks that differ in their first byte.  The first byte of one is read, the
      load for the other fails, and reading it then gives the byte of the first. */
  lemma WrongRead(c: Config, disk: Disk, p: Cache, fresh_: Cache, x: nat, y: nat, off: nat)
    requires ValidConfig(c) && ValidDisk(c, disk) && ValidCache(c, p, c.progSize) && p.block == BLOCK_NULL
    requires c.readSize > 1 && ValidCache(c, fresh_, c.readSize) && fresh_.block == BLOCK_NULL
    requires x < c.blockCount && y < c.blockCount && off == 0 && disk[x][off] != disk[y][off]
    ensures var was := Load(c, disk, x, off, 1, fresh_); var k := Mislabelled(c, disk, y, off, 1, was);
            && Turn(c, Call(disk, p, x, 1, off, BdRead.Read(off, 1, [], fresh_))).rcache == was
            && Inside(k, p, y, off, 1)
            && k.buffer[off - k.off..off - k.off + 1] == [disk[x][off]] != View(c, disk, p, y)[off..off + 1]
  {
    var was := Load(c, disk, x, off, 1, fresh_);
    var k := Mislabelled(c, disk, y, off, 1, was);
    LoadCoherent(c, disk, x, off, 1, fresh_);
    LoadCoherent(c, disk, y, off, 1, was);
    StaleByte(c, disk, was, k, y, off, 1, 0);
    assert View(c, disk, p, y)[off..off + 1] == [disk[y][off]];
  }

  lemma MislabelledFails(c: Config, disk: Disk, was: Cache, block: nat, o: nat, off: nat, size: nat, hint: nat)
    requires ValidConfig(c) && ValidDisk(c, disk) && block < c.blockCount && off <= o < off + size <= c.blockSize
    requires ValidCache(c, was, c.readSize)
    ensures ValidCache(c, Mislabelled(c, disk, block, o, hint, was), c.readSize)
    ensures Coherent(c, disk, was) ==>
              LoadFailed(c, disk, Mislabelled(c, disk, block, o, hint, was), block, off, size, hint)
  {
    LoadCoherent(c, disk, block, o, hint, was);
  }

  /** Such a read on its way: all bytes so far came from the cache. */
  ghost predicate AtHit(x: Call, k: Cache, off: nat, size: nat) {
    && x.s.rcache == k && k.off <= off <= x.s.off && x.s.off + x.s.size == off + size
    && off + size <= k.off + |k.buffer| && x.s.data == k.buffer[off - k.off..x.s.off - k.off]
  }

  lemma Joins(b: seq<Byte>, i: nat, j: nat, n: nat)
    requires i <= j && j + n <= |b|
    ensures b[i..j] + b[j..][..n] == b[i..j + n]
  {
  }

  lemma HitTurn(c: Config, x: Call, k: Cache, size: nat)
    requires ShapedCall(c, x) && x.s.size > 0 && Inside(k, x.pcache, x.block, x.first, size)
    requires AtHit(x, k, x.first, size)
    ensures AtHit(x.(s := Turn(c, x)), k, x.first, size)
    ensures k.Covers(x.block, x.s.off)
  {
    assert !x.pcache.Covers(x.block, x.s.off);
    ReadTurnIs(c, x);
    Joins(k.buffer, x.first - k.off, x.s.off - k.off, ReadPart(x));
  }

  /** One if the next byte lies in a cache: then it costs no device read. */
  function Cached(x: Call): nat {
    if x.s.size > 0 && (x.pcache.Covers(x.block, x.s.off) || x.s.rcache.Covers(x.block, x.s.off)) then 1 else 0
  }

  // A turn takes a byte, or loads the window of the next one.
  lemma TurnSpends(c: Config, x: Call, s: BdRead.Read)
    requires ShapedCall(c, x) && x.s.size > 0 && x.hint > 0 && c.progSize % c.readSize == 0 && s == Turn(c, x)
    ensures s.size <= x.s.size
    ensures s.size == x.s.size ==> Cached(x) == 0 && Cached(x.(s := s)) == 1
  {
    TurnProgress(c, x);
    TurnTakes(c, x, s);
  }

  lemma TurnTakes(c: Config, x: Call, s: BdRead.Read)
    requires ShapedCall(c, x) && x.s.size > 0 && s == Turn(c, x)
    ensures s.size <= x.s.size
    ensures x.pcache.Covers(x.block, x.s.off) ==> s.size < x.s.size
    ensures s.size == x.s.size ==> s.off == x.s.off
  {
  }

  /** A read in the middle of its loop: right so far if it started from a coherent
      cache, and from the cache alone if it lies inside its window. */
  ghost predicate OnItsWay(c: Config, x: Call, sound: bool, k: Cache, size: nat) {
    && ShapedCall(c, x) && (sound ==> ValidCall(c, x)) && x.s.off + x.s.size == x.first + size
    && (Inside(k, x.pcache, x.block, x.first, size) ==> AtHit(x, k, x.first, size))
  }

  lemma TurnFacts(c: Config, x: Call, sound: bool)
    requires ShapedCall(c, x) && x.s.size > 0 && x.hint > 0 && c.progSize % c.readSize == 0
    requires sound ==> ValidCall(c, x)
    ensures ShapedCall(c, x.(s := Turn(c, x))) && (sound ==> ValidCall(c, x.(s := Turn(c, x))))
    ensures Measure(x.(s := Turn(c, x))) < Measure(x)
    ensures Turn(c, x).off + Turn(c, x).size == x.s.off + x.s.size
  {
    TurnShaped(c, x);
    TurnProgress(c, x);
    TurnLength(c, x);
    if sound { TurnValid(c, x); }
  }

  lemma TurnLength(c: Config, x: Call)
    requires ShapedCall(c, x) && x.s.size > 0
    ensures var t := Turn(c, x); t.off + t.size == x.s.off + x.s.size
  {
  }
}
