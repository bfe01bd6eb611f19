/** `lfs_bd_read`: one turn of its loop, what it returns, and exactly when the
    loop ends. */
module BdRead {
  import opened Bytes

  datatype Config = Config(readSize: nat, progSize: nat, cacheSize: nat, blockSize: nat, blockCount: nat)

  /** What `lfs_init` asserts about the geometry. */
  predicate ValidConfig(c: Config) {
    && 0 < c.readSize && 0 < c.progSize && 0 < c.cacheSize && 0 < c.blockSize && 0 < c.blockCount <= BLOCK_NULL
    && c.cacheSize % c.readSize == 0 && c.cacheSize % c.progSize == 0
    && c.blockSize % c.cacheSize == 0
  }

  /** A cache window: bytes off..off+size of one block, or of no block. */
  datatype Cache = Cache(block: nat, off: nat, size: nat, buffer: seq<Byte>) {
    predicate Covers(b: nat, o: nat) {
      block == b && off <= o < off + size
    }
  }

  type Disk = seq<seq<Byte>>

  predicate ValidDisk(c: Config, disk: Disk) {
    |disk| == c.blockCount && forall b :: 0 <= b < |disk| ==> |disk[b]| == c.blockSize
  }

  predicate ValidCache(c: Config, k: Cache, align: nat)
    requires align > 0
  {
    && |k.buffer| == c.cacheSize
    && (k.block != BLOCK_NULL ==>
          && k.block < c.blockCount && k.off % align == 0
          && k.size <= c.cacheSize && k.off + k.size <= c.blockSize)
  }

  /** The read cache holds what the disk holds. */
  predicate Coherent(c: Config, disk: Disk, k: Cache)
    requires ValidConfig(c) && ValidDisk(c, disk)
  {
    && ValidCache(c, k, c.readSize)
    && (k.block != BLOCK_NULL ==> k.buffer[..k.size] == disk[k.block][k.off..k.off + k.size])
  }

  /** A block as the caller must see it: the program cache lies over the disk. */
  function View(c: Config, disk: Disk, pcache: Cache, block: nat): (v: seq<Byte>)
    requires ValidConfig(c) && ValidDisk(c, disk) && ValidCache(c, pcache, c.progSize)
    requires block < c.blockCount
    ensures |v| == c.blockSize
    ensures forall i :: 0 <= i < c.blockSize ==>
      v[i] == if pcache.Covers(block, i) then pcache.buffer[i - pcache.off] else disk[block][i]
  {
    seq(c.blockSize, i requires 0 <= i < c.blockSize =>
      if pcache.Covers(block, i) then pcache.buffer[i - pcache.off] else disk[block][i])
  }

  function AlignDown(a: nat, n: nat): (r: nat)
    requires n > 0
    ensures r <= a
  {
    a - a % n
  }

  function AlignUp(a: nat, n: nat): nat
    requires n > 0
  {
    AlignDown(a + n - 1, n)
  }

  /* ---- multiples of a variable unit ---- */

  lemma Multiple(a: nat, n: nat)
    requires n > 0
    ensures a == n * (a / n) + a % n && 0 <= a % n < n
  {
  }

  lemma {:induction false} MultipleOf(k: nat, n: nat)
    requires n > 0
    ensures (n * k) % n == 0
  {
    if k > 0 {
      MultipleOf(k - 1, n);
      assert n * k == n * (k - 1) + n;
      ModPlus(n * (k - 1), n);
    }
  }

  lemma ModPlus(a: nat, n: nat)
    requires n > 0
    ensures (a + n) % n == a % n
  {
    Multiple(a, n);
    Multiple(a + n, n);
    var d := (a + n) / n - a / n;
    assert n * ((a + n) / n) == n * (a / n) + n * d;
    assert n * d + (a + n) % n == n + a % n;
    assert d <= 0 ==> n * d <= 0;
    assert d >= 2 ==> n * d >= 2 * n;
  }

  lemma Aligned(a: nat, n: nat)
    requires n > 0
    ensures AlignDown(a, n) % n == 0 && AlignDown(a, n) <= a < AlignDown(a, n) + n
    ensures a % n == 0 ==> AlignDown(a, n) == a
  {
    Multiple(a, n);
    MultipleOf(a / n, n);
  }

  lemma MultiplesApart(a: nat, b: nat, n: nat)
    requires n > 0 && a % n == 0 && b % n == 0 && a < b
    ensures a + n <= b && (b - a) % n == 0
  {
    Multiple(a, n);
    Multiple(b, n);
    var k := b / n - a / n;
    assert b - a == n * k;
    assert k <= 0 ==> n * k <= 0;
    assert k >= 1 ==> n * k >= n;
    MultipleOf(k, n);
  }

  lemma MultiplesAdd(a: nat, b: nat, n: nat)
    requires n > 0 && a % n == 0 && b % n == 0
    ensures (a + b) % n == 0
  {
    Multiple(a, n);
    Multiple(b, n);
    assert a + b == n * (a / n + b / n);
    MultipleOf(a / n + b / n, n);
  }

  lemma MultipleTrans(a: nat, b: nat, n: nat)
    requires n > 0 && b > 0 && a % b == 0 && b % n == 0
    ensures a % n == 0
  {
    Multiple(a, b);
    Multiple(b, n);
    assert a == n * ((b / n) * (a / b));
    MultipleOf((b / n) * (a / b), n);
  }

  /* ---- one turn of the loop ---- */

  datatype Read = Read(off: nat, size: nat, data: seq<Byte>, rcache: Cache)

  /** A read in progress; a null program-cache pointer is one holding no block. */
  datatype Call = Call(disk: Disk, pcache: Cache, block: nat, hint: nat, first: nat, s: Read)

  /** Caches and range as the code keeps them, whatever the read cache holds. */
  predicate ShapedCall(c: Config, x: Call) {
    && ValidConfig(c) && ValidDisk(c, x.disk) && ValidCache(c, x.pcache, c.progSize)
    && x.block < c.blockCount && ValidCache(c, x.s.rcache, c.readSize)
    && x.first <= x.s.off && x.s.off + x.s.size <= c.blockSize
  }

  /** With a coherent read cache, and what was read so far as it should be. */
  predicate ValidCall(c: Config, x: Call) {
    && ShapedCall(c, x) && Coherent(c, x.disk, x.s.rcache)
    && x.s.data == View(c, x.disk, x.pcache, x.block)[x.first..x.s.off]
  }

  function Take(s: Read, bytes: seq<Byte>): Read
    requires |bytes| <= s.size
  {
    s.(off := s.off + |bytes|, size := s.size - |bytes|, data := s.data + bytes)
  }

  /** The window, at or after `off`, that cache k holds of this block. */
  predicate Ahead(k: Cache, block: nat, off: nat) {
    block == k.block && off < k.off + k.size
  }

  function Limit(k: Cache, block: nat, off: nat, n: nat): nat {
    if Ahead(k, block, off) && off < k.off then Min(n, k.off - off) else n
  }

  /** Refill the read cache around `off`. */
  function Load(c: Config, disk: Disk, block: nat, off: nat, hint: nat, k: Cache): Cache
    requires ValidConfig(c) && ValidDisk(c, disk) && block < c.blockCount && off < c.blockSize
    requires |k.buffer| == c.cacheSize
  {
    Aligned(off, c.readSize);
    var o := AlignDown(off, c.readSize);
    Aligned(off + hint + c.readSize - 1, c.readSize);
    var n := Min(Min(AlignUp(off + hint, c.readSize), c.blockSize) - o, c.cacheSize);
    Cache(block, o, n, disk[block][o..o + n] + k.buffer[n..])
  }

  /** A turn where neither cache holds the next byte: read past the caches in
      whole read units, or refill the read cache. */
  function Fetch(c: Config, x: Call, diff: nat): Read
    requires ShapedCall(c, x) && 0 < diff <= x.s.size
  {
    var s, r := x.s, x.s.rcache;
    if s.size >= x.hint && s.off % c.readSize == 0 && s.size >= c.readSize then
      var n := AlignDown(Limit(r, x.block, s.off, diff), c.readSize);
      Take(s, x.disk[x.block][s.off..s.off + n])
    else
      s.(rcache := Load(c, x.disk, x.block, s.off, x.hint, r))
  }

  function Turn(c: Config, x: Call): Read
    requires ShapedCall(c, x) && x.s.size > 0
  {
    var s, p, r := x.s, x.pcache, x.s.rcache;
    if p.Covers(x.block, s.off) then
      Take(s, p.buffer[s.off - p.off..][..Min(s.size, p.size - (s.off - p.off))])
    else
      var diff := Limit(p, x.block, s.off, s.size);
      if r.Covers(x.block, s.off) then
        Take(s, r.buffer[s.off - r.off..][..Min(diff, r.size - (s.off - r.off))])
      else
        Fetch(c, x, diff)
  }

  lemma LoadCoherent(c: Config, disk: Disk, block: nat, off: nat, hint: nat, k: Cache)
    requires ValidConfig(c) && ValidDisk(c, disk) && block < c.blockCount && off < c.blockSize
    requires |k.buffer| == c.cacheSize
    ensures Coherent(c, disk, Load(c, disk, block, off, hint, k))
    ensures hint > 0 ==> Load(c, disk, block, off, hint, k).Covers(block, off)
  {
    Aligned(off, c.readSize);
    Aligned(off + hint + c.readSize - 1, c.readSize);
    MultiplesApart(0, c.cacheSize, c.readSize);
  }

  /** A refill starts in the read unit of the byte wanted, and goes on to the end of the
      hint, of the block or of the cache, in whole read units. */
  lemma LoadReaches(c: Config, disk: Disk, block: nat, off: nat, hint: nat, k: Cache)
    requires ValidConfig(c) && ValidDisk(c, disk) && block < c.blockCount && off < c.blockSize
    requires |k.buffer| == c.cacheSize
    ensures var r := Load(c, disk, block, off, hint, k);
            && r.off <= off < r.off + c.readSize && r.off % c.readSize == 0 && r.size % c.readSize == 0
            && (r.size == c.cacheSize || r.off + r.size >= Min(off + hint, c.blockSize))
            && r.off + r.size < off + hint + c.readSize
  {
    var end := AlignUp(off + hint, c.readSize);
    Aligned(off, c.readSize);
    Aligned(off + hint + c.readSize - 1, c.readSize);
    var o := AlignDown(off, c.readSize);
    MultipleTrans(c.blockSize, c.cacheSize, c.readSize);
    UnitsBetween(o, end, c.readSize);
    UnitsBetween(o, c.blockSize, c.readSize);
  }

  lemma UnitsBetween(a: nat, b: nat, n: nat)
    requires n > 0 && a % n == 0 && b % n == 0 && a <= b
    ensures (b - a) % n == 0
  {
    if a < b { MultiplesApart(a, b, n); }
  }

  /** The bytes a turn takes are the next bytes of the view. */
  lemma TakeView(c: Config, x: Call, bytes: seq<Byte>)
    requires ValidCall(c, x) && |bytes| <= x.s.size
    requires forall i :: 0 <= i < |bytes| ==>
      bytes[i] == View(c, x.disk, x.pcache, x.block)[x.s.off + i]
    ensures ValidCall(c, x.(s := Take(x.s, bytes)))
  {
    var v := View(c, x.disk, x.pcache, x.block);
    assert v[x.first..x.s.off + |bytes|] == v[x.first..x.s.off] + bytes;
  }

  lemma ProgramHit(c: Config, x: Call, n: nat)
    requires ValidCall(c, x) && x.pcache.Covers(x.block, x.s.off)
    requires n <= x.s.size && n <= x.pcache.size - (x.s.off - x.pcache.off)
    ensures ValidCall(c, x.(s := Take(x.s, x.pcache.buffer[x.s.off - x.pcache.off..][..n])))
  {
    TakeView(c, x, x.pcache.buffer[x.s.off - x.pcache.off..][..n]);
  }

  lemma ReadHit(c: Config, x: Call, n: nat)
    requires ValidCall(c, x) && !x.pcache.Covers(x.block, x.s.off) && x.s.rcache.Covers(x.block, x.s.off)
    requires n <= Limit(x.pcache, x.block, x.s.off, x.s.size)
    requires n <= x.s.rcache.size - (x.s.off - x.s.rcache.off)
    ensures ValidCall(c, x.(s := Take(x.s, x.s.rcache.buffer[x.s.off - x.s.rcache.off..][..n])))
  {
    var s, r := x.s, x.s.rcache;
    var bytes := r.buffer[s.off - r.off..][..n];
    forall i | 0 <= i < n ensures bytes[i] == View(c, x.disk, x.pcache, x.block)[s.off + i] {
      assert bytes[i] == r.buffer[..r.size][s.off - r.off + i];
    }
    TakeView(c, x, bytes);
  }

  lemma FetchValid(c: Config, x: Call)
    requires ValidCall(c, x) && x.s.size > 0 && !x.pcache.Covers(x.block, x.s.off)
    ensures ValidCall(c, x.(s := Fetch(c, x, Limit(x.pcache, x.block, x.s.off, x.s.size))))
  {
    var s, diff := x.s, Limit(x.pcache, x.block, x.s.off, x.s.size);
    if s.size >= x.hint && s.off % c.readSize == 0 && s.size >= c.readSize {
      var n := AlignDown(Limit(s.rcache, x.block, s.off, diff), c.readSize);
      TakeView(c, x, x.disk[x.block][s.off..s.off + n]);
    } else {
      LoadCoherent(c, x.disk, x.block, s.off, x.hint, s.rcache);
    }
  }

  lemma SameCall(c: Config, x: Call, s: Read, r: Read)
    requires ValidCall(c, x.(s := s)) && r == s
    ensures ValidCall(c, x.(s := r))
  {
  }

  // How many bytes a turn takes from the program cache, and from the read cache.
  function ProgramPart(x: Call): nat
    requires x.pcache.Covers(x.block, x.s.off)
  {
    Min(x.s.size, x.pcache.size - (x.s.off - x.pcache.off))
  }

  function ReadPart(x: Call): nat
    requires x.s.rcache.Covers(x.block, x.s.off)
  {
    Min(Limit(x.pcache, x.block, x.s.off, x.s.size), x.s.rcache.size - (x.s.off - x.s.rcache.off))
  }

  lemma ProgramTurnIs(c: Config, x: Call)
    requires ShapedCall(c, x) && x.s.size > 0 && x.pcache.Covers(x.block, x.s.off)
    ensures Turn(c, x) == Take(x.s, x.pcache.buffer[x.s.off - x.pcache.off..][..ProgramPart(x)])
  {
  }

  /** A byte the read cache holds, and the program cache does not, comes from the
      read cache, whatever it holds. */
  lemma ReadTurnIs(c: Config, x: Call)
    requires ShapedCall(c, x) && x.s.size > 0
    requires !x.pcache.Covers(x.block, x.s.off) && x.s.rcache.Covers(x.block, x.s.off)
    ensures Turn(c, x) == Take(x.s, x.s.rcache.buffer[x.s.off - x.s.rcache.off..][..ReadPart(x)])
  {
  }

  lemma ProgramTurn(c: Config, x: Call)
    requires ValidCall(c, x) && x.s.size > 0 && x.pcache.Covers(x.block, x.s.off)
    ensures ValidCall(c, x.(s := Turn(c, x)))
  {
    ProgramHit(c, x, ProgramPart(x));
    ProgramTurnIs(c, x);
    SameCall(c, x, Take(x.s, x.pcache.buffer[x.s.off - x.pcache.off..][..ProgramPart(x)]), Turn(c, x));
  }

  lemma ReadTurn(c: Config, x: Call)
    requires ValidCall(c, x) && x.s.size > 0
    requires !x.pcache.Covers(x.block, x.s.off) && x.s.rcache.Covers(x.block, x.s.off)
    ensures ValidCall(c, x.(s := Turn(c, x)))
  {
    ReadHit(c, x, ReadPart(x));
    ReadTurnIs(c, x);
    SameCall(c, x, Take(x.s, x.s.rcache.buffer[x.s.off - x.s.rcache.off..][..ReadPart(x)]), Turn(c, x));
  }

  /** Whatever path a turn takes, it keeps the read correct. */
  lemma TurnValid(c: Config, x: Call)
    requires ValidCall(c, x) && x.s.size > 0
    ensures ValidCall(c, x.(s := Turn(c, x)))
  {
    if x.pcache.Covers(x.block, x.s.off) {
      ProgramTurn(c, x);
    } else if x.s.rcache.Covers(x.block, x.s.off) {
      ReadTurn(c, x);
    } else {
      FetchValid(c, x);
      assert Turn(c, x) == Fetch(c, x, Limit(x.pcache, x.block, x.s.off, x.s.size));
    }
  }

  lemma TurnShaped(c: Config, x: Call)
    requires ShapedCall(c, x) && x.s.size > 0
    ensures ShapedCall(c, x.(s := Turn(c, x)))
  {
    var s, r := x.s, x.s.rcache;
    if !x.pcache.Covers(x.block, s.off) && !r.Covers(x.block, s.off) {
      LoadCoherent(c, x.disk, x.block, s.off, x.hint, r);
    }
  }

  /* ---- termination ---- */

  function Measure(x: Call): nat {
    2 * x.s.size + if x.s.rcache.Covers(x.block, x.s.off) then 0 else 1
  }

  /** With program windows on read boundaries every bypassing read moves on. */
  lemma BypassMoves(c: Config, x: Call)
    requires ShapedCall(c, x) && x.s.size >= c.readSize && x.s.off % c.readSize == 0
    requires c.progSize % c.readSize == 0 && !x.pcache.Covers(x.block, x.s.off)
    requires !x.s.rcache.Covers(x.block, x.s.off)
    ensures AlignDown(Limit(x.s.rcache, x.block, x.s.off, Limit(x.pcache, x.block, x.s.off, x.s.size)), c.readSize) > 0
  {
    var p, r := x.pcache, x.s.rcache;
    if Ahead(p, x.block, x.s.off) {
      MultipleTrans(p.off, c.progSize, c.readSize);
      MultiplesApart(x.s.off, p.off, c.readSize);
    }
    if Ahead(r, x.block, x.s.off) {
      MultiplesApart(x.s.off, r.off, c.readSize);
    }
    Aligned(Limit(r, x.block, x.s.off, Limit(p, x.block, x.s.off, x.s.size)), c.readSize);
  }

  lemma TurnProgress(c: Config, x: Call)
    requires ShapedCall(c, x) && x.s.size > 0 && x.hint > 0
    requires c.progSize % c.readSize == 0
    ensures Measure(x.(s := Turn(c, x))) < Measure(x)
  {
    var s, p, r := x.s, x.pcache, x.s.rcache;
    if !p.Covers(x.block, s.off) && !r.Covers(x.block, s.off) {
      if s.size >= x.hint && s.off % c.readSize == 0 && s.size >= c.readSize {
        BypassMoves(c, x);
      } else {
        LoadCoherent(c, x.disk, x.block, s.off, x.hint, r);
      }
    }
  }

  ghost function Turns(c: Config, x: Call, k: nat): (y: Call)
    requires ValidCall(c, x)
    ensures ValidCall(c, y)
    decreases k
  {
    if k == 0 || x.s.size == 0 then x else
      TurnValid(c, x);
      Turns(c, x.(s := Turn(c, x)), k - 1)
  }

  ghost predicate Ends(c: Config, x: Call)
    requires ValidCall(c, x)
  {
    exists k: nat :: Turns(c, x, k).s.size == 0
  }

  lemma {:induction false} ReadEnds(c: Config, x: Call)
    requires ValidCall(c, x) && x.hint > 0 && c.progSize % c.readSize == 0
    ensures Ends(c, x)
    decreases Measure(x)
  {
    if x.s.size == 0 {
      assert Turns(c, x, 0).s.size == 0;
    } else {
      TurnValid(c, x);
      TurnProgress(c, x);
      var y := x.(s := Turn(c, x));
      ReadEnds(c, y);
      var k: nat :| Turns(c, y, k).s.size == 0;
      assert Turns(c, x, k + 1) == Turns(c, y, k);
    }
  }

  function BlankDisk(c: Config): (d: Disk)
    ensures ValidDisk(c, d)
  {
    seq(c.blockCount, _ => Ones(c.blockSize))
  }

  /** A valid call on which a turn changes nothing: the program cache begins
      inside the read unit at `off`, so the bypassing read has length zero. */
  ghost function StuckCall(c: Config): Call
    requires ValidConfig(c) && c.progSize % c.readSize != 0
  {
    var off := AlignDown(c.progSize, c.readSize);
    Call(BlankDisk(c), Cache(0, c.progSize, 1, Ones(c.cacheSize)), 0, 1, off,
         Read(off, c.readSize, [], Cache(BLOCK_NULL, 0, 0, Ones(c.cacheSize))))
  }

  lemma StuckGeometry(c: Config)
    requires ValidConfig(c) && c.progSize % c.readSize != 0
    ensures var off := AlignDown(c.progSize, c.readSize);
      && off % c.readSize == 0 && off < c.progSize < off + c.readSize <= c.blockSize
      && c.progSize <= c.cacheSize && c.progSize % c.progSize == 0
  {
    var off := AlignDown(c.progSize, c.readSize);
    Aligned(c.progSize, c.readSize);
    MultipleTrans(c.blockSize, c.cacheSize, c.progSize);
    MultipleTrans(c.blockSize, c.cacheSize, c.readSize);
    MultiplesApart(0, c.blockSize, c.progSize);
    MultiplesApart(0, c.cacheSize, c.progSize);
    MultipleOf(1, c.progSize);
    assert c.progSize < c.blockSize;
    MultiplesApart(off, c.blockSize, c.readSize);
  }

  lemma StuckIsStuck(c: Config)
    requires ValidConfig(c) && c.progSize % c.readSize != 0
    ensures ValidCall(c, StuckCall(c)) && Turn(c, StuckCall(c)) == StuckCall(c).s
  {
    StuckGeometry(c);
    var x := StuckCall(c);
    assert ValidCall(c, x);
    var n := c.progSize - x.s.off;
    SmallMod(n, c.readSize);
    assert Limit(x.pcache, x.block, x.s.off, x.s.size) == n;
    assert Limit(x.s.rcache, x.block, x.s.off, n) == n && AlignDown(n, c.readSize) == 0;
    assert x.disk[0][x.s.off..x.s.off + 0] == [];
  }

  lemma SmallMod(a: nat, n: nat)
    requires a < n
    ensures a % n == a
  {
  }

  lemma {:induction false} StuckForever(c: Config, x: Call, k: nat)
    requires ValidCall(c, x) && x.s.size > 0 && Turn(c, x) == x.s
    ensures Turns(c, x, k).s.size > 0
  {
    if k > 0 { StuckForever(c, x, k - 1); }
  }

  /** `lfs_bd_read` ends on every call with a positive hint exactly when program
      units are multiples of read units; `lfs_init` does not check this. */
  lemma ReadAlwaysEndsIff(c: Config)
    requires ValidConfig(c)
    ensures (forall x :: ValidCall(c, x) && x.hint > 0 ==> Ends(c, x)) <==> c.progSize % c.readSize == 0
  {
    if c.progSize % c.readSize == 0 {
      forall x | ValidCall(c, x) && x.hint > 0 ensures Ends(c, x) { ReadEnds(c, x); }
    } else {
      StuckIsStuck(c);
      var x := StuckCall(c);
      forall k: nat ensures Turns(c, x, k).s.size > 0 { StuckForever(c, x, k); }
      assert !Ends(c, x);
    }
  }
}
