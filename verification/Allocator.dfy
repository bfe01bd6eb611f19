/** The littlefs block allocator: a lookahead window over the (cyclic) block
    space plus a checkpoint counter.

    `Lookahead` is the state of `lfs->lookahead`; `Alloc`, `Scan`, ... say what
    one call does to it.  `World` adds what the rest of the filesystem holds,
    and the run lemmas state the safety and progress of every legal run.  The
    class `LookaheadBuffer` is the byte-buffer implementation. */
module Allocator {
  import opened Collections
  import Bytes

  const MAX_BLOCKS: nat := 0x8000_0000

  /** `used[i]` is the bit of the block at offset i of the window; bits at and
      beyond `size` read as false. */
  datatype Lookahead = Lookahead(
    blockCount: nat, start: nat, next: nat, size: nat, ckpoint: nat, used: seq<bool>)

  datatype Outcome = Got(block: nat) | NoSpace | TraversalFailed

  /** The counters never underflow while `size - next <= ckpoint <= blockCount`. */
  predicate Valid(s: Lookahead) {
    && 0 < s.blockCount <= MAX_BLOCKS
    && s.start < s.blockCount
    && 0 < |s.used|
    && s.next <= s.size <= |s.used|
    && s.size - s.next <= s.ckpoint <= s.blockCount
    && s.size <= s.blockCount
  }

  /** x mod n for x < 2n, the only sums the allocator forms. */
  function Wrap(x: nat, n: nat): (r: nat)
    requires x < 2 * n
    ensures r < n
  {
    if x < n then x else x - n
  }

  lemma WrapIsMod(x: nat, n: nat)
    requires x < 2 * n
    ensures x % n == Wrap(x, n)
  {
    if x >= n {
      assert x == n * 1 + (x - n);
      assert x / n == 1;
    }
  }

  function Block(s: Lookahead, off: nat): (b: nat)
    requires Valid(s) && off <= s.blockCount
    ensures b < s.blockCount
  {
    Wrap(s.start + off, s.blockCount)
  }

  /** The block the cursor stands on. */
  function Cursor(s: Lookahead): nat
    requires Valid(s)
  {
    Block(s, s.next)
  }

  /** How many blocks the cursor must pass, going upwards, to stand on b. */
  function Dist(s: Lookahead, b: nat): (d: nat)
    requires Valid(s) && b < s.blockCount
    ensures d < s.blockCount
  {
    if b >= Cursor(s) then b - Cursor(s) else b - Cursor(s) + s.blockCount
  }

  function NoneUsed(capacity: nat): (u: seq<bool>)
    ensures |u| == capacity && forall i :: 0 <= i < capacity ==> !u[i]
  {
    seq(capacity, _ => false)
  }

  /** The bits one traversal that reports `tracked` leaves in a window of `size`
      blocks from `start`. */
  function Report(capacity: nat, size: nat, start: nat, n: nat, tracked: set<nat>): (u: seq<bool>)
    requires size <= capacity && size <= n && start < n
    ensures |u| == capacity
    ensures forall i :: 0 <= i < size ==> u[i] == (Wrap(start + i, n) in tracked)
    ensures forall i :: size <= i < capacity ==> !u[i]
  {
    seq(capacity, i requires 0 <= i < capacity => i < size && Wrap(start + i, n) in tracked)
  }

  function Ckpoint(s: Lookahead): Lookahead {
    s.(ckpoint := s.blockCount)
  }

  function Drop(s: Lookahead): Lookahead {
    Ckpoint(s.(size := 0, next := 0, used := NoneUsed(|s.used|)))
  }

  /** The window moves to the cursor and is filled from one traversal that
      reports exactly the blocks in `tracked`. */
  function Scan(s: Lookahead, tracked: set<nat>): (t: Lookahead)
    requires Valid(s)
    ensures Valid(t) && t.next == 0 && t.ckpoint == s.ckpoint && |t.used| == |s.used|
    ensures s.ckpoint > 0 ==> t.size > 0
  {
    var size := if |s.used| < s.ckpoint then |s.used| else s.ckpoint;
    s.(start := Cursor(s), next := 0, size := size,
       used := Report(|s.used|, size, Cursor(s), s.blockCount, tracked))
  }

  function Advance(s: Lookahead): Lookahead
    requires Valid(s) && s.next < s.size
  {
    s.(next := s.next + 1, ckpoint := s.ckpoint - 1)
  }

  /** Pass over blocks marked used up to a free one or the end of the window. */
  function SkipUsed(s: Lookahead): (t: Lookahead)
    requires Valid(s)
    ensures Valid(t) && t == s.(next := t.next, ckpoint := t.ckpoint)
    ensures t.next - s.next == s.ckpoint - t.ckpoint >= 0
    ensures t.next < t.size ==> !t.used[t.next]
    decreases s.size - s.next
  {
    if s.next < s.size && s.used[s.next] then SkipUsed(Advance(s)) else s
  }

  /** One `lfs_alloc`: scans succeed `okScans` times before one fails. */
  function Alloc(s: Lookahead, tracked: set<nat>, okScans: nat): (r: (Lookahead, Outcome))
    requires Valid(s)
    ensures Valid(r.0) && r.0.blockCount == s.blockCount && |r.0.used| == |s.used|
    decreases TurnsLeft(s)
  {
    var t := SkipUsed(s);
    if t.next < t.size then
      (SkipUsed(Advance(t)), Got(Cursor(t)))
    else if t.ckpoint == 0 then
      (t, NoSpace)
    else if okScans == 0 then
      (Drop(Scan(t, tracked)), TraversalFailed)
    else
      Alloc(Scan(t, tracked), tracked, okScans - 1)
  }

  lemma AllocUnfold(s: Lookahead, tracked: set<nat>, okScans: nat)
    requires Valid(s)
    ensures var t := SkipUsed(s);
      Alloc(s, tracked, okScans) ==
        if t.next < t.size then (SkipUsed(Advance(t)), Got(Cursor(t)))
        else if t.ckpoint == 0 then (t, NoSpace)
        else if okScans == 0 then (Drop(Scan(t, tracked)), TraversalFailed)
        else Alloc(Scan(t, tracked), tracked, okScans - 1)
  {
  }

  /* ---- whole runs ---- */

  /** What the rest of littlefs holds: `tracked` are the blocks a traversal
      reports, `handed` the blocks handed out since the last checkpoint or drop,
      and `stale` those freed since then, or freed earlier while the window
      that survived the checkpoint still marks them. */
  datatype World = World(s: Lookahead, tracked: set<nat>, handed: set<nat>, stale: set<nat>)

  datatype Event =
    | AllocBlock(okScans: nat)
    | Checkpoint
    | DropWindow
    | Update(tracked: set<nat>)

  /** A commit can only track blocks it already held, and may free any. */
  predicate Legal(w: World, e: Event) {
    e.Update? ==> e.tracked <= w.tracked + w.handed
  }

  /** Blocks ahead of the cursor that the window calls free, or used. */
  function Ahead(s: Lookahead, used: bool): set<nat>
    requires Valid(s)
  {
    set off | s.next <= off < s.size && s.used[off] == used :: Block(s, off)
  }

  /** Blocks the cursor has passed since the last checkpoint. */
  function Passed(s: Lookahead): set<nat>
    requires Valid(s)
  {
    set b: nat | b < s.blockCount && Dist(s, b) >= s.ckpoint
  }

  ghost predicate Within(blocks: set<nat>, s: Lookahead) {
    forall b :: b in blocks ==> b < s.blockCount
  }

  ghost predicate AllIn(s: Lookahead, blocks: set<nat>) {
    forall b: nat :: b < s.blockCount ==> b in blocks
  }

  /** A failed traversal drops the window, so its caller gives up what it holds. */
  function Settle(w: World, s: Lookahead, r: Outcome): World {
    match r
    case Got(b) => w.(s := s, handed := w.handed + {b})
    case NoSpace => w.(s := s)
    case TraversalFailed => World(s, w.tracked, {}, {})
  }

  function Step(w: World, e: Event): (v: World)
    requires Valid(w.s)
    ensures Valid(v.s) && v.s.blockCount == w.s.blockCount
  {
    match e
    case AllocBlock(okScans) =>
      var (s, r) := Alloc(w.s, w.tracked, okScans);
      Settle(w, s, r)
    case Checkpoint => World(Ckpoint(w.s), w.tracked, {}, Ahead(w.s, true) - w.tracked)
    case DropWindow => World(Drop(w.s), w.tracked, {}, {})
    case Update(tracked) => w.(tracked := tracked, stale := w.stale + (w.tracked - tracked))
  }

  /** Mounting starts at any block with an empty window. */
  ghost predicate Mounted(w: World) {
    && Valid(w.s) && w.s == Drop(w.s) && w.handed == {} && w.stale == {}
    && Within(w.tracked, w.s)
  }

  ghost predicate Inv(w: World) {
    && Valid(w.s)
    && Within(w.tracked, w.s)
    // a block the window still offers is held by nobody
    && Ahead(w.s, false) !! w.tracked + w.handed
    // blocks handed out lie behind the cursor, out of reach until the next checkpoint
    && w.handed <= Passed(w.s)
    // every block passed since the checkpoint, or still marked, is accounted for
    && Passed(w.s) <= w.tracked + w.handed + w.stale
    && Ahead(w.s, true) <= w.tracked + w.stale
  }

  /** Advancing moves exactly the cursor's block from the window to the passed. */
  lemma AdvancePassed(s: Lookahead)
    requires Valid(s) && s.next < s.size
    ensures Passed(Advance(s)) == Passed(s) + {Cursor(s)}
  {
    var t := Advance(s);
    assert Cursor(t) == Block(s, s.next + 1);
    forall b: nat | b < s.blockCount
      ensures Dist(t, b) == if b == Cursor(s) then s.blockCount - 1 else Dist(s, b) - 1
    {}
  }

  lemma AdvanceAhead(s: Lookahead)
    requires Valid(s) && s.next < s.size
    ensures Ahead(s, s.used[s.next]) == Ahead(Advance(s), s.used[s.next]) + {Cursor(s)}
    ensures Ahead(s, !s.used[s.next]) == Ahead(Advance(s), !s.used[s.next])
    ensures Cursor(s) !in Ahead(Advance(s), s.used[s.next])
  {
    var t := Advance(s);
    forall off | 0 <= off <= s.blockCount ensures Block(t, off) == Block(s, off) {}
    assert Block(s, s.next) in Ahead(s, s.used[s.next]);
  }

  /** A rescan never reaches the blocks passed since the checkpoint, even though
      no traversal need report them: the new window is at most `ckpoint` long. */
  lemma ScanSets(s: Lookahead, tracked: set<nat>)
    requires Valid(s)
    ensures var t := Scan(s, tracked);
      && Passed(t) == Passed(s)
      && Ahead(t, false) !! tracked + Passed(s)
      && Ahead(t, true) <= tracked
  {
    var t := Scan(s, tracked);
    assert Cursor(t) == Cursor(s);
    forall b: nat | b < s.blockCount ensures Dist(t, b) == Dist(s, b) {}
    forall off | 0 <= off < t.size ensures Dist(s, Block(t, off)) == off {}
  }

  lemma EmptySets(s: Lookahead)
    requires Valid(s) && s.ckpoint == s.blockCount
    ensures Passed(s) == {}
    ensures s.next == s.size ==> Ahead(s, true) == Ahead(s, false) == {}
  {
  }

  lemma {:induction false} SkipUsedInv(w: World)
    requires Inv(w)
    ensures Inv(w.(s := SkipUsed(w.s)))
    decreases w.s.size - w.s.next
  {
    if w.s.next < w.s.size && w.s.used[w.s.next] {
      AdvancePassed(w.s);
      AdvanceAhead(w.s);
      SkipUsedInv(w.(s := Advance(w.s)));
    }
  }

  /** What one call promises: the invariant, and a result that is safe. */
  ghost predicate Good(w: World, s: Lookahead, r: Outcome) {
    && Inv(Settle(w, s, r))
    && (r.Got? ==> r.block < w.s.blockCount && r.block !in w.tracked && r.block !in w.handed)
    && (r.NoSpace? ==> AllIn(w.s, w.tracked + w.handed + w.stale))
  }

  lemma HitGood(w: World)
    requires Inv(w) && w.s.next < w.s.size && !w.s.used[w.s.next]
    ensures Good(w, SkipUsed(Advance(w.s)), Got(Cursor(w.s)))
  {
    AdvancePassed(w.s);
    AdvanceAhead(w.s);
    SkipUsedInv(w.(s := Advance(w.s), handed := w.handed + {Cursor(w.s)}));
  }

  /** Safety and progress of one call, whatever the run before it. */
  lemma {:induction false} AllocInv(w: World, okScans: nat)
    requires Inv(w)
    ensures var r := Alloc(w.s, w.tracked, okScans); Good(w, r.0, r.1)
    decreases 2 * w.s.ckpoint + (if w.s.next < w.s.size then 0 else 1)
  {
    SkipUsedInv(w);
    var t := SkipUsed(w.s);
    if t.next < t.size {
      HitGood(w.(s := t));
    } else if t.ckpoint == 0 {
      assert AllIn(t, Passed(t));
    } else {
      ScanSets(t, w.tracked);
      var u := Scan(t, w.tracked);
      if okScans == 0 {
        EmptySets(Drop(u));
      } else {
        AllocInv(w.(s := u), okScans - 1);
      }
    }
  }

  lemma StepInv(w: World, e: Event)
    requires Inv(w) && Legal(w, e)
    ensures Inv(Step(w, e))
  {
    match e
    case AllocBlock(okScans) => AllocInv(w, okScans);
    case Checkpoint =>
      var t := Ckpoint(w.s);
      EmptySets(t);
      forall off | t.next <= off < t.size ensures Block(t, off) == Block(w.s, off) {}
      assert Ahead(t, true) == Ahead(w.s, true) && Ahead(t, false) == Ahead(w.s, false);
    case DropWindow => EmptySets(Drop(w.s));
    case Update(tracked) =>
  }

  ghost predicate LegalRun(w: World, run: seq<Event>)
    requires Valid(w.s)
    decreases |run|
  {
    run == [] || (Legal(w, run[0]) && LegalRun(Step(w, run[0]), run[1..]))
  }

  ghost function After(w: World, run: seq<Event>): (v: World)
    requires Valid(w.s) && LegalRun(w, run)
    ensures Valid(v.s) && v.s.blockCount == w.s.blockCount
    decreases |run|
  {
    if run == [] then w else After(Step(w, run[0]), run[1..])
  }

  lemma {:induction false} RunInv(w: World, run: seq<Event>)
    requires Inv(w) && LegalRun(w, run)
    ensures Inv(After(w, run))
    decreases |run|
  {
    if run != [] {
      StepInv(w, run[0]);
      RunInv(Step(w, run[0]), run[1..]);
    }
  }

  /** After any legal run from a mount, with checkpoints and rescans anywhere,
      an allocation returns a block that is neither in use nor handed out since
      the last checkpoint, and NOSPC is only reported when every block is in use,
      handed out since the checkpoint, or freed too recently for the window to
      know. */
  lemma AllocatorSafety(w: World, run: seq<Event>, okScans: nat)
    requires Mounted(w) && LegalRun(w, run)
    ensures var v := After(w, run);
      var r := Alloc(v.s, v.tracked, okScans).1;
      && (r.Got? ==> r.block < w.s.blockCount && r.block !in v.tracked && r.block !in v.handed)
      && (r.NoSpace? ==> AllIn(w.s, v.tracked + v.handed + v.stale))
  {
    EmptySets(w.s);
    RunInv(w, run);
    AllocInv(After(w, run), okScans);
  }

  // Every scan that finds nothing uses up a block of the checkpoint.
  lemma {:induction false} ScansEnd(s: Lookahead, tracked: set<nat>, okScans: nat)
    requires Valid(s) && var t := SkipUsed(s); t.next < t.size || t.ckpoint <= okScans
    ensures !Alloc(s, tracked, okScans).1.TraversalFailed?
    decreases okScans
  {
    var t := SkipUsed(s);
    if t.next >= t.size && t.ckpoint > 0 {
      var u := Scan(t, tracked);
      var v := SkipUsed(u);
      assert v.next < v.size || v.ckpoint < u.ckpoint;
      ScansEnd(u, tracked, okScans - 1);
    }
  }

  /** Progress: after any legal run from a mount, a call whose traversals succeed never
      reports a failed one, and returns a block whenever there is one that is neither in
      use, nor handed out since the checkpoint, nor freed too recently. */
  lemma FreeIsFound(w: World, run: seq<Event>, okScans: nat, b: nat)
    requires Mounted(w) && LegalRun(w, run) && okScans >= w.s.blockCount
    ensures var v := After(w, run);
      var r := Alloc(v.s, v.tracked, okScans).1;
      && !r.TraversalFailed?
      && (b < w.s.blockCount && b !in v.tracked + v.handed + v.stale ==> r.Got?)
  {
    AllocatorSafety(w, run, okScans);
    ScansEnd(After(w, run).s, After(w, run).tracked, okScans);
  }

  ghost predicate NoCheckpoint(run: seq<Event>) {
    forall e :: e in run ==> e.AllocBlock? || e.Update?
  }

  /** The blocks a run hands out, up to the first failed traversal. */
  ghost function Handouts(w: World, run: seq<Event>): seq<nat>
    requires Valid(w.s) && LegalRun(w, run)
    decreases |run|
  {
    if run == [] then [] else
      var rest := Handouts(Step(w, run[0]), run[1..]);
      if run[0].AllocBlock? then
        var r := Alloc(w.s, w.tracked, run[0].okScans).1;
        if r.Got? then [r.block] + rest else if r.NoSpace? then rest else []
      else rest
  }

  /** Blocks without repetition, and none of `avoid`. */
  ghost predicate AllNew(h: seq<nat>, avoid: set<nat>) {
    Distinct(h) && forall i :: 0 <= i < |h| ==> h[i] !in avoid
  }

  lemma OneNew(b: nat, h: seq<nat>, avoid: set<nat>)
    requires AllNew(h, avoid + {b}) && b !in avoid
    ensures AllNew([b] + h, avoid)
  {
    Consed(b, h);
  }

  /** Between checkpoints (and up to the first failed traversal, which drops the
      window) no block is handed out twice, whatever is committed or freed. */
  lemma {:induction false} NoBlockTwice(w: World, run: seq<Event>)
    requires Inv(w) && LegalRun(w, run) && NoCheckpoint(run)
    ensures AllNew(Handouts(w, run), w.handed)
    decreases |run|
  {
    if run != [] {
      StepInv(w, run[0]);
      assert run[0] in run;
      assert NoCheckpoint(run[1..]);
      var rest := Handouts(Step(w, run[0]), run[1..]);
      NoBlockTwice(Step(w, run[0]), run[1..]);
      if run[0].AllocBlock? {
        AllocInv(w, run[0].okScans);
        var r := Alloc(w.s, w.tracked, run[0].okScans).1;
        if r.Got? { OneNew(r.block, rest, w.handed); }
      }
    }
  }

  /* ---- the implementation over a byte buffer ---- */

  /** Bit i of a byte, counted from the lowest. */
  predicate BitSet(b: bv8, i: nat) {
    if i == 0 then b & 1 != 0 else BitSet(b >> 1, i - 1)
  }

  lemma {:induction false} SetBit(b: bv8, i: nat, j: nat)
    requires i < 8 && j < 8
    ensures BitSet(b | (1 << i), j) <==> i == j || BitSet(b, j)
  {
    if j > 0 {
      if i > 0 {
        assert (b | (1 << i)) >> 1 == (b >> 1) | (1 << (i - 1));
        SetBit(b >> 1, i - 1, j - 1);
      } else {
        assert (b | (1 << i)) >> 1 == b >> 1;
      }
    }
  }

  lemma {:induction false} BitTest(b: bv8, i: nat)
    requires i < 8
    ensures b & (1 << i) == 0 <==> !BitSet(b, i)
  {
    if i > 0 {
      assert (b & (1 << i)) >> 1 == (b >> 1) & (1 << (i - 1));
      assert b & (1 << i) == 0 <==> (b & (1 << i)) >> 1 == 0;
      BitTest(b >> 1, i - 1);
    }
  }

  lemma {:induction false} ZeroBit(i: nat)
    ensures !BitSet(0, i)
  {
    if i > 0 { ZeroBit(i - 1); }
  }

  predicate MapBit(bytes: seq<bv8>, i: nat)
    requires i < 8 * |bytes|
  {
    BitSet(bytes[i / 8], i % 8)
  }

  lemma SetBitAt(bytes: seq<bv8>, off: nat, i: nat)
    requires off < 8 * |bytes| && i < 8 * |bytes|
    ensures MapBit(bytes[off / 8 := bytes[off / 8] | (1 << (off % 8))], i)
       <==> i == off || MapBit(bytes, i)
  {
    if i / 8 == off / 8 { SetBit(bytes[off / 8], off % 8, i % 8); }
  }

  lemma SetBitMap(bytes: seq<bv8>, off: nat)
    requires off < 8 * |bytes|
    ensures var marked := bytes[off / 8 := bytes[off / 8] | (1 << (off % 8))];
      forall i :: 0 <= i < 8 * |bytes| ==> (MapBit(marked, i) <==> i == off || MapBit(bytes, i))
  {
    forall i | 0 <= i < 8 * |bytes| { SetBitAt(bytes, off, i); }
  }

  /** The callback's offset, in 32-bit arithmetic where the difference wraps. */
  lemma SlotOf(block: nat, start: nat, n: nat)
    requires block < n && start < n <= MAX_BLOCKS
    ensures Bytes.Wrap32(Bytes.Wrap32(block - start) + n) % n
         == if block >= start then block - start else block - start + n
  {
    assert Bytes.Wrap32(Bytes.Wrap32(block - start) + n) == block - start + n;
    WrapIsMod(block - start + n, n);
  }

  /** `state` is the abstract value of the fields and the bit buffer. */
  class LookaheadBuffer {
    const blockCount: nat
    const buffer: array<bv8>
    var start: nat
    var next: nat
    var size: nat
    var ckpoint: nat
    ghost var state: Lookahead

    ghost predicate Bit(i: nat)
      requires i < 8 * buffer.Length
      reads buffer
    {
      MapBit(buffer[..], i)
    }

    ghost predicate Shape(s: Lookahead)
      reads this
    {
      && Valid(s)
      && s == Lookahead(blockCount, start, next, size, ckpoint, s.used)
      && |s.used| == 8 * buffer.Length
    }

    ghost predicate Repr()
      reads this, buffer
    {
      && Shape(state)
      && (forall i :: 0 <= i < size ==> state.used[i] == Bit(i))
      && (forall i :: size <= i < |state.used| ==> !state.used[i])
    }

    constructor (blockCount: nat, lookaheadSize: nat, seed: nat)
      requires 0 < blockCount <= MAX_BLOCKS && 0 < lookaheadSize
      ensures Repr() && fresh(buffer) && this.blockCount == blockCount
      ensures Mounted(World(state, {}, {}, {}))
    {
      this.blockCount := blockCount;
      buffer := new bv8[lookaheadSize];
      start := seed % blockCount;
      size, next, ckpoint := 0, 0, blockCount;
      state := Lookahead(blockCount, seed % blockCount, 0, 0, blockCount,
        NoneUsed(8 * lookaheadSize));
    }

    method CkpointNow()
      requires Repr()
      modifies this
      ensures Repr() && state == Ckpoint(old(state))
    {
      ckpoint := blockCount;
      state := Ckpoint(state);
    }

    method DropNow()
      requires Shape(state)
      modifies this
      ensures Repr() && state == Drop(old(state))
    {
      size, next, ckpoint := 0, 0, blockCount;
      state := Drop(state);
    }

    /** The traversal callback. */
    method Mark(block: nat)
      requires Shape(state) && next == 0 && block < blockCount
      modifies buffer
      ensures forall i :: 0 <= i < size ==>
        Bit(i) == (old(Bit(i)) || block == Wrap(start + i, blockCount))
    {
      SlotOf(block, start, blockCount);
      var off := Bytes.Wrap32(Bytes.Wrap32(block - start) + blockCount) % blockCount;
      if off < size {
        ghost var was := buffer[..];
        SetBitMap(was, off);
        buffer[off / 8] := buffer[off / 8] | (1 << (off % 8));
        assert buffer[..] == was[off / 8 := was[off / 8] | (1 << (off % 8))];
      }
    }

    /** The `memset` of a scan. */
    method ClearNow()
      modifies buffer
      ensures forall i :: 0 <= i < 8 * buffer.Length ==> !Bit(i)
    {
      forall i | 0 <= i < buffer.Length { buffer[i] := 0; }
      forall i | 0 <= i < 8 * buffer.Length ensures !Bit(i) { ZeroBit(i % 8); }
    }

    method TraverseNow(traversal: seq<nat>)
      requires Shape(state) && next == 0 && forall b :: b in traversal ==> b < blockCount
      requires forall i :: 0 <= i < size ==> !Bit(i)
      modifies buffer
      ensures forall i :: 0 <= i < size ==>
        Bit(i) == (Wrap(start + i, blockCount) in Elements(traversal))
    {
      for k := 0 to |traversal|
        invariant forall i :: 0 <= i < size ==>
          Bit(i) == (Wrap(start + i, blockCount) in traversal[..k])
      {
        assert traversal[k] in traversal;
        assert traversal[..k + 1] == traversal[..k] + [traversal[k]];
        Mark(traversal[k]);
      }
      assert traversal[..|traversal|] == traversal;
    }

    /** The window moves to the cursor, with its bits still to be set. */
    method MoveWindow(ghost tracked: set<nat>)
      requires Repr()
      modifies this
      ensures Shape(state) && next == 0 && state == Scan(old(state), tracked)
    {
      WrapIsMod(start + next, blockCount);
      start := (start + next) % blockCount;
      next := 0;
      size := if 8 * buffer.Length < ckpoint then 8 * buffer.Length else ckpoint;
      state := Scan(state, tracked);
    }

    /** The window moves on and is marked from scratch. */
    method Refill(traversal: seq<nat>)
      requires Repr() && forall b :: b in traversal ==> b < blockCount
      modifies this, buffer
      ensures Repr() && state == Scan(old(state), Elements(traversal))
    {
      MoveWindow(Elements(traversal));
      ClearNow();
      TraverseNow(traversal);
    }

    /** One window refill; a failing traversal reports some blocks, then drops. */
    method ScanNow(traversal: seq<nat>, err: bool) returns (ok: bool)
      requires Repr() && forall b :: b in traversal ==> b < blockCount
      modifies this, buffer
      ensures Repr() && ok == !err
      ensures state == var t := Scan(old(state), Elements(traversal)); if ok then t else Drop(t)
    {
      Refill(traversal);
      if err { DropNow(); }
      ok := !err;
    }

    method AdvanceNow()
      requires Repr() && next < size
      modifies this
      ensures Repr() && state == Advance(old(state))
    {
      next, ckpoint := next + 1, ckpoint - 1;
      state := Advance(state);
    }

    /** The test of both skipping loops: a used block is under the cursor. */
    method CursorUsed() returns (used: bool)
      requires Repr()
      ensures used <==> next < size && state.used[next]
    {
      if next >= size {
        return false;
      }
      BitTest(buffer[next / 8], next % 8);
      used := buffer[next / 8] & (1 << (next % 8)) != 0;
      assert used == Bit(next);
    }

    /** Pass over used blocks: the loop before a hit and the eager one after it. */
    method SkipUsedNow()
      requires Repr()
      modifies this
      ensures Repr() && state == SkipUsed(old(state))
    {
      var used := CursorUsed();
      while used
        invariant Repr() && SkipUsed(state) == SkipUsed(old(state))
        invariant used <==> next < size && state.used[next]
        decreases size - next
      {
        AdvanceNow();
        used := CursorUsed();
      }
    }

    /** Take the free block under the cursor. */
    method HitNow() returns (block: nat)
      requires Repr() && next < size
      modifies this
      ensures Repr() && state == SkipUsed(Advance(old(state))) && block == Cursor(old(state))
    {
      WrapIsMod(start + next, blockCount);
      block := (start + next) % blockCount;
      AdvanceNow();
      SkipUsedNow();
    }

    /** One turn of `lfs_alloc`: an outcome, or a new window to look in. */
    method AllocTurn(traversal: seq<nat>, left: nat, ghost tracked: set<nat>, ghost goal: (Lookahead, Outcome))
      returns (r: Outcome, again: bool, left': nat)
      requires Repr() && tracked == Elements(traversal) && forall b :: b in traversal ==> b < blockCount
      requires goal == Alloc(state, tracked, left)
      modifies this, buffer
      ensures Repr()
      ensures if again then goal == Alloc(state, tracked, left') else goal == (state, r)
      ensures again ==> TurnsLeft(state) < TurnsLeft(old(state))
    {
      AllocUnfold(state, tracked, left);
      ScanLater(state, tracked);
      SkipUsedNow();
      if next < size {
        var block := HitNow();
        return Got(block), false, left;
      }
      if ckpoint <= 0 {
        return NoSpace, false, left;
      }
      var ok := ScanNow(traversal, left == 0);
      return TraversalFailed, ok, if ok then left - 1 else left;
    }

    /** `lfs_alloc`. */
    method AllocNow(traversal: seq<nat>, okScans: nat) returns (r: Outcome)
      requires Repr() && forall b :: b in traversal ==> b < blockCount
      modifies this, buffer
      ensures Repr() && (state, r) == Alloc(old(state), Elements(traversal), okScans)
    {
      var left := okScans;
      ghost var tracked := Elements(traversal);
      ghost var goal := Alloc(state, tracked, okScans);
      while true
        invariant Repr() && goal == Alloc(state, tracked, left)
        decreases TurnsLeft(state)
      {
        var again;
        r, again, left := AllocTurn(traversal, left, tracked, goal);
        if !again {
          return;
        }
      }
    }
  }

  /** The measure of `lfs_alloc`. */
  function TurnsLeft(s: Lookahead): nat {
    2 * s.ckpoint + (if s.next < s.size then 0 else 1)
  }

  lemma ScanLater(s: Lookahead, tracked: set<nat>)
    requires Valid(s)
    ensures var t := SkipUsed(s);
            t.next >= t.size && t.ckpoint > 0 ==> TurnsLeft(Scan(t, tracked)) < TurnsLeft(s)
  {
  }
}
