/** littlefs global state: a pending move and orphan flag, stored as the XOR of
    one MOVESTATE delta per metadata pair on the tail list.

    A `Fs` is the filesystem as far as global state goes.  `linked` are the pairs
    a mount would visit now.  `waiting` are the pairs written but not linked yet,
    moved or new, each with the linked pairs it is to replace, and `stolen` the
    linked pairs whose delta was taken over into RAM because they are dropped.
    `lost` is what commits have written to pairs already due to be replaced or
    dropped, as a nested relocation can make happen. */
module GlobalState {
  import opened Bits
  import opened Bytes
  import opened Collections
  import opened Words

  /** The bits of `lfs_gstate_t` that reach the disk, by position: tag bits 10 to
      31, then the two block numbers of the pair.  XOR is symmetric difference. */
  type Delta = Word

  const ORPHAN_BIT: nat := 31

  lemma Algebra(a: Delta, b: Delta, c: Delta)
    ensures Xor(a, b) == Xor(b, a) && Xor(a, a) == {} && Xor(a, {}) == a
    ensures Xor(Xor(a, b), b) == a
    ensures Xor(a, Xor(b, c)) == Xor(b, Xor(a, c)) && Xor(Xor(a, c), b) == Xor(Xor(a, b), c)
  {
  }

  lemma Cancel(a: Delta, b: Delta, c: Delta)
    ensures Xor(Xor(a, b), Xor(c, b)) == Xor(a, c)
    ensures Xor(Xor(a, b), Xor(b, c)) == Xor(a, c)
  {
  }

  /** Writing out what is pending turns the committed state into the current one. */
  lemma CommitBalances(t: Delta, gdisk: Delta, gstate: Delta, gdelta: Delta, lost: Delta)
    requires Xor(t, gdelta) == Xor(gdisk, lost)
    ensures Xor(t, Xor(Xor(gdisk, gstate), gdelta)) == Xor(gstate, lost)
    ensures t == Xor(gstate, Xor(lost, Xor(Xor(gdisk, gstate), gdelta)))
  {
    forall x: nat ensures x in t <==> ((x in gdisk) != (x in lost)) != (x in gdelta) {
      assert x in Xor(t, gdelta) <==> x in Xor(gdisk, lost);
    }
  }

  /* ---- the XOR of a set of pairs ---- */

  type Pair = nat

  ghost function Total(delta: map<Pair, Delta>, s: set<Pair>): Delta
    requires s <= delta.Keys
  {
    if s == {} then {} else
      var d :| d in s;
      Xor(delta[d], Total(delta, s - {d}))
  }

  /** The order in which pairs are taken does not matter. */
  lemma {:induction false} TotalTake(delta: map<Pair, Delta>, s: set<Pair>, d: Pair)
    requires s <= delta.Keys && d in s
    ensures Total(delta, s) == Xor(delta[d], Total(delta, s - {d}))
    decreases s
  {
    var e :| e in s && Total(delta, s) == Xor(delta[e], Total(delta, s - {e}));
    if e != d {
      TotalTake(delta, s - {e}, d);
      TotalTake(delta, s - {d}, e);
      assert s - {e} - {d} == s - {d} - {e};
      Algebra(delta[e], delta[d], Total(delta, s - {e} - {d}));
    }
  }

  lemma {:induction false} TotalSame(delta: map<Pair, Delta>, delta': map<Pair, Delta>, s: set<Pair>)
    requires s <= delta.Keys && s <= delta'.Keys && forall d :: d in s ==> delta'[d] == delta[d]
    ensures Total(delta', s) == Total(delta, s)
    decreases s
  {
    if s != {} {
      var d :| d in s;
      TotalTake(delta, s, d);
      TotalTake(delta', s, d);
      TotalSame(delta, delta', s - {d});
    }
  }

  /** Changing one delta of the set by x changes the total by x. */
  lemma TotalUpdate(delta: map<Pair, Delta>, s: set<Pair>, d: Pair, x: Delta)
    requires s <= delta.Keys && d in s
    ensures Total(delta[d := Xor(delta[d], x)], s) == Xor(Total(delta, s), x)
  {
    var delta' := delta[d := Xor(delta[d], x)];
    TotalTake(delta, s, d);
    TotalTake(delta', s, d);
    TotalSame(delta, delta', s - {d});
    Algebra(delta[d], Total(delta, s - {d}), x);
  }

  /** Adding a pair to the set adds its delta. */
  lemma TotalAdd(delta: map<Pair, Delta>, s: set<Pair>, d: Pair, x: Delta)
    requires s <= delta.Keys && d !in s
    ensures Total(delta[d := x], s + {d}) == Xor(Total(delta, s), x)
  {
    var delta' := delta[d := x];
    TotalTake(delta', s + {d}, d);
    assert s + {d} - {d} == s;
    TotalSame(delta, delta', s);
    Algebra(x, Total(delta, s), {});
  }

  lemma TotalDrop(delta: map<Pair, Delta>, s: set<Pair>, d: Pair)
    requires s <= delta.Keys && d in s
    ensures Total(delta, s - {d}) == Xor(Total(delta, s), delta[d])
  {
    TotalTake(delta, s, d);
    Algebra(Total(delta, s - {d}), delta[d], {});
  }

  /** Sets that do not meet add up. */
  lemma {:induction false} TotalUnion(delta: map<Pair, Delta>, s: set<Pair>, r: set<Pair>)
    requires s <= delta.Keys && r <= delta.Keys && s !! r
    ensures Total(delta, s + r) == Xor(Total(delta, s), Total(delta, r))
    decreases r
  {
    if r == {} {
      assert s + r == s;
    } else {
      var d :| d in r;
      TotalUnion(delta, s, r - {d});
      TotalTake(delta, s + r, d);
      TotalTake(delta, r, d);
      assert s + r - {d} == s + (r - {d});
      Algebra(delta[d], Total(delta, s), Total(delta, r - {d}));
    }
  }

  /* ---- the move that is pending ---- */

  const NO_ID: nat := 0x3FF
  const TYPE_DELETE: nat := 0x4FF

  /** The entry to be deleted, by its id in a metadata pair, or none. */
  datatype Move = NoMove | Move(id: nat, first: nat, second: nat)

  predicate ValidMove(m: Move) {
    m.Move? ==> m.id < NO_ID && m.first < 0x1_0000_0000 && m.second < 0x1_0000_0000
  }

  /** A number of k bits, from position `at` on. */
  function Placed(n: nat, k: nat, at: nat): Delta {
    set i | 0 <= i < k && BitAt(n, i) :: at + i
  }

  /** The bits `lfs_fs_prepmove` sets: the type and id fields of the tag, and the two
      block numbers. */
  function MoveBits(m: Move): Delta {
    match m
    case NoMove => {}
    case Move(id, first, second) =>
      Placed(TYPE_DELETE, 11, 20) + Placed(id, 10, 10) + Placed(first, 32, 32) + Placed(second, 32, 64)
  }

  /** The number in a field of k bits, as the mask-and-shift accessors read it. */
  function Field(g: Delta, at: nat, k: nat): nat
    decreases k
  {
    if k == 0 then 0 else (if at in g then 1 else 0) + 2 * Field(g, at + 1, k - 1)
  }

  /** What `lfs_fs_demove` takes from the state: a nonzero upper type means a move. */
  function MoveFound(g: Delta): Move {
    if Field(g, 28, 3) == 0 then NoMove else Move(Field(g, 10, 10), Field(g, 32, 32), Field(g, 64, 32))
  }

  lemma {:induction false} FieldOf(g: Delta, n: nat, at: nat, k: nat)
    requires n < Pow2(k) && forall i :: 0 <= i < k ==> (at + i in g <==> BitAt(n, i))
    ensures Field(g, at, k) == n
    decreases k
  {
    if k > 0 {
      forall i | 0 <= i < k - 1 ensures at + 1 + i in g <==> BitAt(n / 2, i) {
        assert at + (i + 1) in g <==> BitAt(n, i + 1);
      }
      FieldOf(g, n / 2, at + 1, k - 1);
      assert at + 0 in g <==> BitAt(n, 0);
    }
  }

  lemma PlacedBit(n: nat, k: nat, at: nat, x: nat)
    ensures x in Placed(n, k, at) <==> at <= x < at + k && BitAt(n, x - at)
  {
    if at <= x < at + k && BitAt(n, x - at) { assert at + (x - at) == x; }
  }

  lemma MovePlaces(m: Move, x: nat)
    requires m.Move?
    ensures x in MoveBits(m) <==>
      if 20 <= x < 31 then BitAt(TYPE_DELETE, x - 20) else if 10 <= x < 20 then BitAt(m.id, x - 10)
      else if 32 <= x < 64 then BitAt(m.first, x - 32) else 64 <= x < 96 && BitAt(m.second, x - 64)
  {
    PlacedBit(TYPE_DELETE, 11, 20, x);
    PlacedBit(m.id, 10, 10, x);
    PlacedBit(m.first, 32, 32, x);
    PlacedBit(m.second, 32, 64, x);
  }

  lemma TagPowers()
    ensures Pow2(3) == 8 && Pow2(10) == 0x400 && Pow2(32) == 0x1_0000_0000
  {
    Pow2Sixteen();
    assert Pow2(10) == 4 * Pow2(8);
    assert Pow2(20) == 16 * Pow2(16) && Pow2(24) == 16 * Pow2(20);
    assert Pow2(28) == 16 * Pow2(24) && Pow2(32) == 16 * Pow2(28);
  }

  // Neither the orphan flag nor the count below bit 10.
  lemma MoveApart(m: Move)
    ensures ORPHAN_BIT !in MoveBits(m) && forall x :: x in MoveBits(m) ==> x >= 10
  {
    if m.Move? {
      forall x: nat ensures x in MoveBits(m) ==> x >= 10 && x != ORPHAN_BIT { MovePlaces(m, x); }
    }
  }

  /** A prepared move is what the repair after a mount reads. */
  lemma MoveReadsBack(m: Move, g: Delta)
    requires ValidMove(m) && g - {ORPHAN_BIT} == MoveBits(m)
    ensures MoveFound(g) == m
  {
    TagPowers();
    match m
    case NoMove =>
      assert g <= {ORPHAN_BIT};
    case Move(id, first, second) =>
      forall x: nat ensures x in g && x != ORPHAN_BIT <==> x in MoveBits(m) {
        assert x in g - {ORPHAN_BIT} <==> x in MoveBits(m);
      }
      forall i | 0 <= i < 10 ensures 10 + i in g <==> BitAt(id, i) { MovePlaces(m, 10 + i); }
      FieldOf(g, id, 10, 10);
      forall i | 0 <= i < 32 ensures 32 + i in g <==> BitAt(first, i) { MovePlaces(m, 32 + i); }
      FieldOf(g, first, 32, 32);
      forall i | 0 <= i < 32 ensures 64 + i in g <==> BitAt(second, i) { MovePlaces(m, 64 + i); }
      FieldOf(g, second, 64, 32);
      MovePlaces(m, 30);
      assert BitAt(TYPE_DELETE, 10);
      assert 30 in g;
      assert Field(g, 30, 1) == 1 && Field(g, 28, 3) >= 4;
  }

  /* ---- what each littlefs step does ---- */

  /** A global state in RAM: the bits that can be committed, and the size field
      of the tag, which counts orphans and flags an old superblock. */
  datatype GState = GState(bits: Delta, orphans: nat, needsSuperblock: bool) {
    predicate HasOrphans() {
      orphans != 0 || needsSuperblock
    }
  }

  datatype Fs = Fs(delta: map<Pair, Delta>, linked: set<Pair>, waiting: map<Pair, set<Pair>>, stolen: set<Pair>,
                   gstate: GState, gdisk: GState, gdelta: Delta, lost: Delta)

  /** The linked pairs that will be replaced. */
  function Replaced(waiting: map<Pair, set<Pair>>): set<Pair> {
    set u, p | u in waiting && p in waiting[u] :: p
  }

  function Only(waiting: map<Pair, set<Pair>>, links: set<Pair>): map<Pair, set<Pair>>
    requires links <= waiting.Keys
  {
    map u | u in links :: waiting[u]
  }

  /** The pairs a mount will visit once all tail pointers are rewritten. */
  function Target(s: Fs): set<Pair> {
    s.linked - Replaced(s.waiting) - s.stolen + s.waiting.Keys
  }

  datatype Step =
    | PrepMove(move: Move)
    | PrepOrphans(orphans: int)
    | PrepSuperblock(needs: bool)
    | Steal(dropped: Pair)                       // lfs_dir_drop and its flattened forms
    | Commit(dir: Pair, links: set<Pair>)        // in place; its tail pointer links these
    | Relocate(dir: Pair, moved: Pair)           // compaction that had to move the pair
    | Stage(staged: Pair, relocated: bool)       // first compaction of a pair not linked yet

  predicate Legal(s: Fs, e: Step) {
    match e
    case PrepMove(move) => ValidMove(move)
    case PrepOrphans(orphans) => s.gstate.orphans + orphans >= 0
    case PrepSuperblock(_) => true
    case Steal(dropped) => dropped in s.linked && dropped in Target(s)
    case Commit(dir, links) => dir in s.linked && links <= s.waiting.Keys
    case Relocate(dir, moved) => dir in Target(s) && moved !in s.delta
    case Stage(staged, _) => staged !in s.delta
  }

  function Flagged(g: GState): GState {
    g.(bits := if g.HasOrphans() then g.bits + {ORPHAN_BIT} else g.bits - {ORPHAN_BIT})
  }

  /** What is pending in RAM, as far as it may reach the disk. */
  function Pending(s: Fs): Delta {
    Xor(Xor(s.gdisk.bits, s.gstate.bits), s.gdelta)
  }

  /** What a commit to this pair loses: all it writes, if the pair will not stay. */
  function LostBy(s: Fs, dir: Pair): Delta {
    if dir in Target(s) then {} else Pending(s)
  }

  /** What a pair that is written elsewhere will replace. */
  function Heir(s: Fs, dir: Pair): set<Pair> {
    if dir in s.waiting then s.waiting[dir] else {dir}
  }

  /** The tail pointer of a commit links some waiting pairs, and takes what they
      replace and what was stolen from off the list. */
  function Committed(s: Fs, dir: Pair, links: set<Pair>): Fs
    requires dir in s.delta && links <= s.waiting.Keys
  {
    s.(delta := s.delta[dir := Xor(s.delta[dir], Pending(s))],
       gdisk := s.gstate, gdelta := {}, stolen := {}, lost := Xor(s.lost, LostBy(s, dir)),
       linked := s.linked - Replaced(Only(s.waiting, links)) - s.stolen + links,
       waiting := s.waiting - links)
  }

  function Next(s: Fs, e: Step): Fs
    requires Legal(s, e) && s.linked <= s.delta.Keys && s.waiting.Keys <= s.delta.Keys
  {
    match e
    case PrepMove(move) => s.(gstate := s.gstate.(bits := s.gstate.bits * {ORPHAN_BIT} + MoveBits(move)))
    case PrepOrphans(n) => s.(gstate := Flagged(s.gstate.(orphans := s.gstate.orphans + n)))
    case PrepSuperblock(needs) => s.(gstate := s.gstate.(needsSuperblock := needs))
    case Steal(dropped) =>
      s.(gdelta := Xor(s.gdelta, s.delta[dropped]), stolen := s.stolen + {dropped})
    case Commit(dir, links) => Committed(s, dir, links)
    case Relocate(dir, moved) =>
      s.(delta := s.delta[moved := Xor(s.delta[dir], s.gdelta)], gdelta := {}, stolen := {},
         waiting := (s.waiting - {dir})[moved := Heir(s, dir) + s.stolen])
    case Stage(staged, relocated) =>
      s.(delta := s.delta[staged := if relocated then s.gdelta else Pending(s)], gdelta := {}, stolen := {},
         gdisk := if relocated then s.gdisk else s.gstate,
         waiting := s.waiting[staged := s.stolen])
  }

  /** Pairs that wait are not linked, those they replace and those stolen from are,
      and no two waiting pairs replace the same. */
  predicate Shape(s: Fs) {
    && s.linked <= s.delta.Keys && s.waiting.Keys <= s.delta.Keys && s.waiting.Keys !! s.linked
    && s.stolen <= s.linked && Replaced(s.waiting) <= s.linked - s.stolen
    && forall u, v :: u in s.waiting && v in s.waiting && u != v ==> s.waiting[u] !! s.waiting[v]
  }

  ghost predicate Inv(s: Fs) {
    && Shape(s)
    && s.gdelta == Total(s.delta, s.stolen)
    // conservation: what the coming tail list stores, and what was taken from
    // dropped pairs, is the committed state but for what was lost
    && Xor(Total(s.delta, Target(s)), s.gdelta) == Xor(s.gdisk.bits, s.lost)
  }

  /* ---- one step ---- */

  lemma ReplacedSplit(waiting: map<Pair, set<Pair>>, links: set<Pair>)
    requires links <= waiting.Keys
    ensures Replaced(waiting) == Replaced(Only(waiting, links)) + Replaced(waiting - links)
  {
    forall p | p in Replaced(waiting)
      ensures p in Replaced(Only(waiting, links)) + Replaced(waiting - links)
    {
      var u :| u in waiting && p in waiting[u];
      if u in links {
        assert u in Only(waiting, links) && p in Only(waiting, links)[u];
      } else {
        assert u in waiting - links && p in (waiting - links)[u];
      }
    }
  }

  lemma ReplacedApart(waiting: map<Pair, set<Pair>>, links: set<Pair>)
    requires links <= waiting.Keys
    requires forall u, v :: u in waiting && v in waiting && u != v ==> waiting[u] !! waiting[v]
    ensures Replaced(Only(waiting, links)) !! Replaced(waiting - links)
  {
  }

  lemma ReplacedAdd(waiting: map<Pair, set<Pair>>, u: Pair, x: set<Pair>)
    requires u !in waiting
    ensures Replaced(waiting[u := x]) == Replaced(waiting) + x
  {
    forall p | p in Replaced(waiting) + x ensures p in Replaced(waiting[u := x]) {
      if p in x {
        assert u in waiting[u := x] && p in waiting[u := x][u];
      } else {
        var v :| v in waiting && p in waiting[v];
        assert v in waiting[u := x] && p in waiting[u := x][v];
      }
    }
  }

  lemma ReplacedDrop(waiting: map<Pair, set<Pair>>, u: Pair)
    requires u in waiting
    requires forall v, w :: v in waiting && w in waiting && v != w ==> waiting[v] !! waiting[w]
    ensures Replaced(waiting - {u}) == Replaced(waiting) - waiting[u]
  {
    forall p | p in Replaced(waiting) - waiting[u] ensures p in Replaced(waiting - {u}) {
      var v :| v in waiting && p in waiting[v];
      assert v in waiting - {u} && p in (waiting - {u})[v];
    }
  }

  lemma CommitShape(s: Fs, dir: Pair, links: set<Pair>)
    requires Shape(s) && Legal(s, Commit(dir, links))
    ensures Shape(Committed(s, dir, links)) && Target(Committed(s, dir, links)) == Target(s)
  {
    var t := Committed(s, dir, links);
    ReplacedSplit(s.waiting, links);
    ReplacedApart(s.waiting, links);
    assert t.waiting.Keys == s.waiting.Keys - links;
  }

  // Moving a pair, whether it is linked or waits itself.
  lemma RelocateShape(s: Fs, dir: Pair, moved: Pair)
    requires Shape(s) && Legal(s, Relocate(dir, moved))
    ensures Shape(Next(s, Relocate(dir, moved)))
    ensures Target(Next(s, Relocate(dir, moved))) == Target(s) - {dir} + {moved}
  {
    var rest := s.waiting - {dir};
    ReplacedAdd(rest, moved, Heir(s, dir) + s.stolen);
    if dir in s.waiting {
      ReplacedDrop(s.waiting, dir);
      HeirReplaced(s, dir);
    } else {
      assert rest == s.waiting;
    }
  }

  lemma HeirReplaced(s: Fs, dir: Pair)
    requires dir in s.waiting
    ensures s.waiting[dir] <= Replaced(s.waiting)
  {
    forall p | p in s.waiting[dir] ensures p in Replaced(s.waiting) { assert dir in s.waiting; }
  }

  lemma StageShape(s: Fs, staged: Pair, relocated: bool)
    requires Shape(s) && Legal(s, Stage(staged, relocated))
    ensures Shape(Next(s, Stage(staged, relocated)))
    ensures Target(Next(s, Stage(staged, relocated))) == Target(s) + {staged}
  {
    ReplacedAdd(s.waiting, staged, s.stolen);
    forall u | u in s.waiting ensures s.waiting[u] !! s.stolen { HeirReplaced(s, u); }
  }

  lemma StepInv(s: Fs, e: Step)
    requires Inv(s) && Legal(s, e)
    ensures Inv(Next(s, e))
  {
    match e
    case PrepMove(_) =>
    case PrepOrphans(_) =>
    case PrepSuperblock(_) =>
    case Steal(dropped) => StealInv(s, dropped);
    case Commit(dir, links) => CommitInv(s, dir, links);
    case Relocate(dir, moved) => RelocateInv(s, dir, moved);
    case Stage(staged, relocated) => StageInv(s, staged, relocated);
  }

  lemma StealInv(s: Fs, dropped: Pair)
    requires Inv(s) && Legal(s, Steal(dropped))
    ensures Inv(Next(s, Steal(dropped)))
  {
    var t := Next(s, Steal(dropped));
    assert Target(t) == Target(s) - {dropped};
    TotalDrop(s.delta, Target(s), dropped);
    Cancel(Total(s.delta, Target(s)), s.delta[dropped], s.gdelta);
    TotalTake(s.delta, s.stolen + {dropped}, dropped);
    assert s.stolen + {dropped} - {dropped} == s.stolen;
    Algebra(s.gdelta, s.delta[dropped], {});
  }

  lemma CommitInv(s: Fs, dir: Pair, links: set<Pair>)
    requires Inv(s) && Legal(s, Commit(dir, links))
    ensures Inv(Committed(s, dir, links))
  {
    var t := Committed(s, dir, links);
    CommitShape(s, dir, links);
    CommitBalances(Total(s.delta, Target(s)), s.gdisk.bits, s.gstate.bits, s.gdelta, s.lost);
    Algebra(s.lost, {}, {});
    if dir in Target(s) {
      TotalUpdate(s.delta, Target(s), dir, Pending(s));
    } else {
      TotalSame(s.delta, t.delta, Target(s));
    }
    Algebra(Total(t.delta, Target(s)), {}, {});
  }

  lemma RelocateInv(s: Fs, dir: Pair, moved: Pair)
    requires Inv(s) && Legal(s, Relocate(dir, moved))
    ensures Inv(Next(s, Relocate(dir, moved)))
  {
    RelocateShape(s, dir, moved);
    TotalDrop(s.delta, Target(s), dir);
    TotalAdd(s.delta, Target(s) - {dir}, moved, Xor(s.delta[dir], s.gdelta));
    Cancel(Total(s.delta, Target(s)), s.delta[dir], s.gdelta);
    Algebra(Xor(s.gdisk.bits, s.lost), {}, {});
  }

  lemma StageInv(s: Fs, staged: Pair, relocated: bool)
    requires Inv(s) && Legal(s, Stage(staged, relocated))
    ensures Inv(Next(s, Stage(staged, relocated)))
  {
    StageShape(s, staged, relocated);
    TotalAdd(s.delta, Target(s), staged, if relocated then s.gdelta else Pending(s));
    CommitBalances(Total(s.delta, Target(s)), s.gdisk.bits, s.gstate.bits, s.gdelta, s.lost);
    Algebra(Xor(s.gdisk.bits, s.lost), {}, {});
    Algebra(Xor(s.gstate.bits, s.lost), {}, {});
  }

  /** A commit to a pair that is itself waiting to be replaced, or dropped, is lost:
      what is lost stays the same if and only if the pair stays or nothing was pending. */
  lemma CommitKeepsIff(s: Fs, dir: Pair, links: set<Pair>)
    requires Inv(s) && Legal(s, Commit(dir, links))
    ensures Inv(Committed(s, dir, links))
    ensures Committed(s, dir, links).lost == s.lost <==> dir in Target(s) || Pending(s) == {}
  {
    CommitInv(s, dir, links);
    Algebra(s.lost, {}, {});
    if Xor(s.lost, LostBy(s, dir)) == s.lost {
      Algebra(s.lost, LostBy(s, dir), {});
      assert Xor(Xor(s.lost, LostBy(s, dir)), s.lost) == LostBy(s, dir);
    }
  }

  /* ---- what a mount finds ---- */

  /** The XOR over the pairs that are linked now. */
  ghost function Shown(s: Fs): Delta
    requires s.linked <= s.delta.Keys
  {
    Total(s.delta, s.linked)
  }

  /** What a waiting pair holds beyond the pairs it will replace. */
  ghost function Withheld(delta: map<Pair, Delta>, waiting: map<Pair, set<Pair>>, u: Pair): Delta
    requires u in waiting && u in delta && waiting[u] <= delta.Keys
  {
    Xor(delta[u], Total(delta, waiting[u]))
  }

  ghost function Owed(s: Fs): Delta
    requires Shape(s)
  {
    Xor(Total(s.delta, s.waiting.Keys), Total(s.delta, Replaced(s.waiting)))
  }

  lemma ShownAlgebra(rest: Delta, replaced: Delta, stolen: Delta, waiting: Delta, gdisk: Delta)
    requires Xor(Xor(rest, waiting), stolen) == gdisk
    ensures Xor(Xor(rest, replaced), stolen) == Xor(gdisk, Xor(waiting, replaced))
  {
    assert forall x :: x in gdisk <==> ((x in rest) != (x in waiting)) != (x in stolen);
  }

  /** In every state of every run, the deltas of the pairs that are linked now add up
      to the committed state, but for exactly what was lost and what the waiting pairs
      hold beyond the pairs they will replace. */
  lemma ShownIs(s: Fs)
    requires Inv(s)
    ensures Shown(s) == Xor(Xor(s.gdisk.bits, s.lost), Owed(s))
  {
    var rest := s.linked - Replaced(s.waiting) - s.stolen;
    TotalUnion(s.delta, rest, s.waiting.Keys);
    TotalUnion(s.delta, rest, Replaced(s.waiting));
    TotalUnion(s.delta, rest + Replaced(s.waiting), s.stolen);
    assert rest + Replaced(s.waiting) + s.stolen == s.linked;
    ShownAlgebra(Total(s.delta, rest), Total(s.delta, Replaced(s.waiting)), s.gdelta,
                 Total(s.delta, s.waiting.Keys), Xor(s.gdisk.bits, s.lost));
  }

  /** Nothing is withheld. */
  ghost predicate Paid(s: Fs)
    requires Shape(s)
  {
    forall u :: u in s.waiting ==> s.waiting[u] <= s.delta.Keys && Withheld(s.delta, s.waiting, u) == {}
  }

  lemma WaitingKnown(s: Fs, u: Pair)
    requires Shape(s) && u in s.waiting
    ensures s.waiting[u] <= s.linked - s.stolen
  {
    HeirReplaced(s, u);
  }

  // One waiting pair that withholds nothing adds as much as it replaces.
  lemma OwedOne(delta: map<Pair, Delta>, waiting: map<Pair, set<Pair>>, u: Pair)
    requires waiting.Keys <= delta.Keys && Replaced(waiting) <= delta.Keys && u in waiting
    requires forall v, w :: v in waiting && w in waiting && v != w ==> waiting[v] !! waiting[w]
    requires waiting[u] <= delta.Keys && Withheld(delta, waiting, u) == {}
    ensures Replaced(waiting - {u}) <= delta.Keys && (waiting - {u}).Keys <= delta.Keys
    ensures Total(delta, waiting.Keys) == Xor(delta[u], Total(delta, (waiting - {u}).Keys))
    ensures Total(delta, Replaced(waiting)) == Xor(delta[u], Total(delta, Replaced(waiting - {u})))
  {
    var rest := waiting - {u};
    ReplacedDrop(waiting, u);
    TotalTake(delta, waiting.Keys, u);
    assert rest.Keys == waiting.Keys - {u};
    OneReplaced(waiting, u);
    TotalUnion(delta, Replaced(rest), waiting[u]);
    assert Replaced(rest) + waiting[u] == Replaced(waiting);
    SameDelta(delta[u], Total(delta, waiting[u]));
    Algebra(delta[u], Total(delta, Replaced(rest)), {});
  }

  lemma {:induction false} OwedNothing(delta: map<Pair, Delta>, waiting: map<Pair, set<Pair>>)
    requires waiting.Keys <= delta.Keys && Replaced(waiting) <= delta.Keys
    requires forall u, v :: u in waiting && v in waiting && u != v ==> waiting[u] !! waiting[v]
    requires forall u :: u in waiting ==> waiting[u] <= delta.Keys && Withheld(delta, waiting, u) == {}
    ensures Total(delta, waiting.Keys) == Total(delta, Replaced(waiting))
    decreases |waiting|
  {
    if waiting.Keys == {} {
      assert Replaced(waiting) == {};
    } else {
      var u :| u in waiting;
      OwedOne(delta, waiting, u);
      LessWaiting(delta, waiting, u);
      OwedNothing(delta, waiting - {u});
    }
  }

  lemma LessWaiting(delta: map<Pair, Delta>, waiting: map<Pair, set<Pair>>, u: Pair)
    requires waiting.Keys <= delta.Keys && u in waiting
    requires forall v :: v in waiting ==> waiting[v] <= delta.Keys && Withheld(delta, waiting, v) == {}
    ensures |waiting - {u}| < |waiting|
    ensures forall v :: v in waiting - {u} ==>
              (waiting - {u})[v] <= delta.Keys && Withheld(delta, waiting - {u}, v) == {}
  {
    var rest := waiting - {u};
    assert waiting.Keys == rest.Keys + {u};
    SubsetCount(rest.Keys, waiting.Keys);
    forall v | v in rest ensures rest[v] <= delta.Keys && Withheld(delta, rest, v) == {} {
      assert Withheld(delta, waiting, v) == {};
    }
  }

  lemma OneReplaced(waiting: map<Pair, set<Pair>>, u: Pair)
    requires u in waiting
    ensures waiting[u] <= Replaced(waiting)
  {
    forall p | p in waiting[u] ensures p in Replaced(waiting) { assert u in waiting; }
  }

  lemma SameDelta(a: Delta, b: Delta)
    requires Xor(a, b) == {}
    ensures a == b
  {
    forall x: nat ensures x in a <==> x in b { assert x !in Xor(a, b); }
  }

  /** With nothing withheld a mount finds the committed state but for what was lost. */
  lemma PaidShown(s: Fs)
    requires Inv(s) && Paid(s)
    ensures Shown(s) == Xor(s.gdisk.bits, s.lost)
    ensures Shown(s) == s.gdisk.bits <==> s.lost == {}
  {
    ShownIs(s);
    OwedNothing(s.delta, s.waiting);
    Algebra(Total(s.delta, s.waiting.Keys), {}, {});
    Algebra(Xor(s.gdisk.bits, s.lost), {}, {});
    NothingLost(s.gdisk.bits, s.lost);
  }

  lemma NothingLost(g: Delta, lost: Delta)
    ensures Xor(g, lost) == g <==> lost == {}
  {
    Algebra(g, {}, {});
    if Xor(g, lost) == g {
      Algebra(lost, g, {});
      assert Xor(Xor(lost, g), g) == lost;
    }
  }

  /** What a waiting pair withholds does not change while it waits, but for commits to
      a pair it will replace. */
  lemma WithheldKept(s: Fs, e: Step, u: Pair)
    requires Inv(s) && Legal(s, e) && u in s.waiting && u in Next(s, e).waiting
    ensures Inv(Next(s, e)) && s.waiting[u] <= s.delta.Keys
    ensures Next(s, e).waiting[u] == s.waiting[u] <= Next(s, e).delta.Keys
    ensures Withheld(Next(s, e).delta, Next(s, e).waiting, u)
         == if e.Commit? && e.dir in s.waiting[u] then Xor(Withheld(s.delta, s.waiting, u), Pending(s))
            else Withheld(s.delta, s.waiting, u)
  {
    StepInv(s, e);
    WaitingKnown(s, u);
    if e.Commit? && e.dir in s.waiting[u] {
      TotalUpdate(s.delta, s.waiting[u], e.dir, Pending(s));
      Algebra(s.delta[u], Total(s.delta, s.waiting[u]), Pending(s));
      Associates(s.delta[u], Total(s.delta, s.waiting[u]), Pending(s));
    } else {
      TotalSame(s.delta, Next(s, e).delta, s.waiting[u]);
    }
  }

  lemma Associates(a: Delta, b: Delta, c: Delta)
    ensures Xor(a, Xor(b, c)) == Xor(Xor(a, b), c)
  {
  }

  /** A pair that is moved passes on what it withholds, and one on the list nothing. */
  lemma MovedWithholds(s: Fs, dir: Pair, moved: Pair)
    requires Inv(s) && Legal(s, Relocate(dir, moved))
    ensures var t := Next(s, Relocate(dir, moved));
            && Inv(t) && moved in t.waiting && t.waiting[moved] <= t.delta.Keys
            && (dir in s.waiting ==> s.waiting[dir] <= s.delta.Keys)
            && Withheld(t.delta, t.waiting, moved)
               == if dir in s.waiting then Withheld(s.delta, s.waiting, dir) else {}
  {
    var t := Next(s, Relocate(dir, moved));
    StepInv(s, Relocate(dir, moved));
    if dir in s.waiting { WaitingKnown(s, dir); }
    var old_ := Heir(s, dir);
    TotalUnion(s.delta, old_, s.stolen);
    TotalSame(s.delta, t.delta, old_ + s.stolen);
    Cancel(s.delta[dir], s.gdelta, Total(s.delta, old_));
    if dir !in s.waiting {
      TotalTake(s.delta, {dir}, dir);
      assert {dir} - {dir} == {};
      Algebra(s.delta[dir], {}, {});
    }
  }

  /** A staged pair withholds exactly what it was the first to hold: the change from
      the committed state to the current one. */
  lemma StagedWithholds(s: Fs, staged: Pair, relocated: bool)
    requires Inv(s) && Legal(s, Stage(staged, relocated))
    ensures var t := Next(s, Stage(staged, relocated));
            && Inv(t) && staged in t.waiting && t.waiting[staged] <= t.delta.Keys
            && Withheld(t.delta, t.waiting, staged) == if relocated then {} else Xor(s.gdisk.bits, s.gstate.bits)
  {
    var t := Next(s, Stage(staged, relocated));
    StepInv(s, Stage(staged, relocated));
    TotalSame(s.delta, t.delta, s.stolen);
    Algebra(Xor(s.gdisk.bits, s.gstate.bits), s.gdelta, {});
    Algebra(s.gdelta, {}, {});
  }

  /* ---- whole runs and the next mount ---- */

  ghost predicate LegalRun(s: Fs, run: seq<Step>)
    requires Inv(s)
    decreases |run|
  {
    run != [] ==> Legal(s, run[0]) && (StepInv(s, run[0]); LegalRun(Next(s, run[0]), run[1..]))
  }

  ghost function After(s: Fs, run: seq<Step>): (t: Fs)
    requires Inv(s) && LegalRun(s, run)
    ensures Inv(t)
    decreases |run|
  {
    if run == [] then s else
      StepInv(s, run[0]);
      After(Next(s, run[0]), run[1..])
  }

  /** After any run of commits, compactions, relocations, splits and drops, cut at
      any step: what a mount finds is the committed state but for what was lost and
      what waits. */
  lemma ShownAfter(s: Fs, run: seq<Step>)
    requires Inv(s) && LegalRun(s, run)
    ensures var t := After(s, run); Shown(t) == Xor(Xor(t.gdisk.bits, t.lost), Owed(t))
  {
    ShownIs(After(s, run));
  }

  /** Once everything is linked, a mount finds the committed state if and only if what
      the run's commits wrote to pairs due to go cancels out. */
  lemma SettledIff(s: Fs, run: seq<Step>)
    requires Inv(s) && LegalRun(s, run) && After(s, run).waiting == map[]
    ensures Shown(After(s, run)) == After(s, run).gdisk.bits <==> After(s, run).lost == {}
  {
    PaidShown(After(s, run));
  }

  /** A pair is staged with a change of state only it will hold. */
  predicate Stages(s: Fs, e: Step) {
    e.Stage? && !e.relocated && s.gdisk.bits != s.gstate.bits
  }

  /** A commit whose pair will not stay writes something. */
  predicate Loses(s: Fs, e: Step) {
    e.Commit? && LostBy(s, e.dir) != {}
  }

  lemma StepPaid(s: Fs, e: Step)
    requires Inv(s) && Legal(s, e) && Paid(s) && !Stages(s, e) && !Loses(s, e)
    ensures Inv(Next(s, e)) && Paid(Next(s, e)) && Next(s, e).lost == s.lost
  {
    StepInv(s, e);
    Algebra(s.lost, {}, {});
    var t := Next(s, e);
    forall u | u in t.waiting ensures t.waiting[u] <= t.delta.Keys && Withheld(t.delta, t.waiting, u) == {} {
      if u in s.waiting {
        WithheldKept(s, e, u);
        if e.Commit? && e.dir in s.waiting[u] { NotStaying(s, u, e.dir); }
      } else if e.Relocate? {
        MovedWithholds(s, e.dir, e.moved);
      } else {
        StagedWithholds(s, e.staged, e.relocated);
        Algebra(s.gdisk.bits, {}, {});
      }
    }
  }

  lemma NotStaying(s: Fs, u: Pair, dir: Pair)
    requires Shape(s) && u in s.waiting && dir in s.waiting[u]
    ensures dir !in Target(s)
  {
    HeirReplaced(s, u);
  }

  // Pairs that withhold nothing are worth the pairs they replace.
  lemma SomePaid(s: Fs, links: set<Pair>)
    requires Shape(s) && Paid(s) && links <= s.waiting.Keys
    ensures Replaced(Only(s.waiting, links)) <= s.linked - s.stolen
    ensures Total(s.delta, links) == Total(s.delta, Replaced(Only(s.waiting, links)))
  {
    var some := Only(s.waiting, links);
    ReplacedSplit(s.waiting, links);
    assert some.Keys == links;
    forall u | u in some ensures some[u] <= s.delta.Keys && Withheld(s.delta, some, u) == {} {
      assert Withheld(s.delta, s.waiting, u) == {};
    }
    OwedNothing(s.delta, some);
  }

  lemma SwapTotal(delta: map<Pair, Delta>, linked: set<Pair>, gone: set<Pair>, stolen: set<Pair>, links: set<Pair>)
    requires linked <= delta.Keys && links <= delta.Keys && links !! linked
    requires stolen <= linked && gone <= linked - stolen && Total(delta, links) == Total(delta, gone)
    ensures linked - gone - stolen + links <= delta.Keys
    ensures Total(delta, linked - gone - stolen + links) == Xor(Total(delta, linked), Total(delta, stolen))
  {
    var rest := linked - gone - stolen;
    TotalUnion(delta, rest, links);
    TotalUnion(delta, rest, gone);
    TotalUnion(delta, rest + gone, stolen);
    assert rest + gone + stolen == linked;
    Algebra(Total(delta, rest + gone), Total(delta, stolen), {});
  }

  // What a commit links is worth what it takes off the list.
  lemma RelinkedTotal(s: Fs, dir: Pair, links: set<Pair>)
    requires Inv(s) && Legal(s, Commit(dir, links)) && Paid(s)
    ensures var l := Committed(s, dir, links).linked;
            l <= s.delta.Keys && Total(s.delta, l) == Xor(Shown(s), s.gdelta)
  {
    SomePaid(s, links);
    SwapTotal(s.delta, s.linked, Replaced(Only(s.waiting, links)), s.stolen, links);
  }

  lemma CommitShown(s: Fs, dir: Pair, links: set<Pair>)
    requires Inv(s) && Legal(s, Commit(dir, links)) && Paid(s) && s.lost == {}
    ensures var t := Committed(s, dir, links);
            t.linked <= t.delta.Keys
            && (Shown(t) == t.gdisk.bits <==> dir in t.linked || Pending(s) == {})
  {
    var t := Committed(s, dir, links);
    RelinkedTotal(s, dir, links);
    PaidShown(s);
    PendingZero(s.gdisk.bits, s.gstate.bits, s.gdelta);
    if dir in t.linked {
      TotalUpdate(s.delta, t.linked, dir, Pending(s));
    } else {
      TotalSame(s.delta, t.delta, t.linked);
    }
  }

  lemma PendingZero(gdisk: Delta, gstate: Delta, gdelta: Delta)
    ensures Xor(Xor(gdisk, gdelta), Xor(Xor(gdisk, gstate), gdelta)) == gstate
    ensures Xor(gdisk, gdelta) == gstate <==> Xor(Xor(gdisk, gstate), gdelta) == {}
  {
    if Xor(Xor(gdisk, gstate), gdelta) == {} {
      forall x: nat ensures x in Xor(gdisk, gdelta) <==> x in gstate {
        assert x !in Xor(Xor(gdisk, gstate), gdelta);
      }
    }
  }

  /** A commit writes something to a pair that it takes off the list itself. */
  predicate Buries(s: Fs, e: Step)
    requires Shape(s) && Legal(s, e)
  {
    e.Commit? && e.dir !in Committed(s, e.dir, e.links).linked && Pending(s) != {}
  }

  /** Exactly then: from a state with nothing withheld or lost, a mount finds the
      committed state after a step if and only if the step neither stages a pair with
      a change of state nor commits one to a pair it takes off the list. */
  lemma StepShownIff(s: Fs, e: Step)
    requires Inv(s) && Legal(s, e) && Paid(s) && s.lost == {}
    ensures Inv(Next(s, e)) && (Shown(Next(s, e)) == Next(s, e).gdisk.bits <==> !Stages(s, e) && !Buries(s, e))
  {
    StepInv(s, e);
    PaidShown(s);
    if e.Commit? {
      CommitShown(s, e.dir, e.links);
    } else if Stages(s, e) {
      TotalSame(s.delta, Next(s, e).delta, s.linked);
    } else {
      StepPaid(s, e);
      PaidShown(Next(s, e));
    }
  }

  ghost predicate Quiet(s: Fs, run: seq<Step>)
    requires Inv(s) && LegalRun(s, run)
    decreases |run|
  {
    run != [] ==>
      && !Stages(s, run[0]) && !Loses(s, run[0])
      && (StepInv(s, run[0]); Quiet(Next(s, run[0]), run[1..]))
  }

  /** Conservation: after every commit, compaction, nested relocation and drop, and
      every new pair staged with nothing pending, wherever the run is cut, as long as
      no change of state was committed to a pair due to go, the deltas over the linked
      pairs are the committed state, so that a mount recovers it. */
  lemma {:induction false} Conservation(s: Fs, run: seq<Step>)
    requires Inv(s) && LegalRun(s, run) && Paid(s) && s.lost == {} && Quiet(s, run)
    ensures Shown(After(s, run)) == After(s, run).gdisk.bits && Paid(After(s, run)) && After(s, run).lost == {}
    decreases |run|
  {
    if run == [] {
      PaidShown(s);
    } else {
      StepPaid(s, run[0]);
      Conservation(Next(s, run[0]), run[1..]);
    }
  }

  predicate NoCommit(run: seq<Step>) {
    forall i :: 0 <= i < |run| ==> !run[i].Commit?
  }

  lemma {:induction false} NoCommitShown(s: Fs, run: seq<Step>)
    requires Inv(s) && LegalRun(s, run) && NoCommit(run)
    ensures Shown(After(s, run)) == Shown(s)
    decreases |run|
  {
    if run != [] {
      assert !run[0].Commit?;
      var next := Next(s, run[0]);
      StepInv(s, run[0]);
      TotalSame(s.delta, next.delta, s.linked);
      NoCommitShown(next, run[1..]);
    }
  }

  /** A split, also one whose own compaction moves the pair: until the next commit a
      mount finds the state it found before, and a commit that links all that waits
      makes it find the state it commits, but for what was lost. */
  lemma SplitShown(s: Fs, run: seq<Step>, dir: Pair)
    requires Inv(s) && LegalRun(s, run) && NoCommit(run)
    requires Legal(After(s, run), Commit(dir, After(s, run).waiting.Keys))
    ensures Shown(After(s, run)) == Shown(s)
    ensures var t := After(s, run); var u := Next(t, Commit(dir, t.waiting.Keys));
            Inv(u) && u.gdisk.bits == t.gstate.bits && Shown(u) == Xor(u.gdisk.bits, u.lost)
  {
    NoCommitShown(s, run);
    var t := After(s, run);
    StepInv(t, Commit(dir, t.waiting.Keys));
    PaidShown(Next(t, Commit(dir, t.waiting.Keys)));
  }

  lemma PreppedMove(m: Move, g: Delta)
    requires ValidMove(m)
    ensures var r := g * {ORPHAN_BIT} + MoveBits(m);
            && r - {ORPHAN_BIT} == MoveBits(m) && MoveFound(r) == m
            && (ORPHAN_BIT in r <==> ORPHAN_BIT in g)
  {
    MoveApart(m);
    MoveReadsBack(m, g * {ORPHAN_BIT} + MoveBits(m));
  }

  lemma {:induction false} SameField(g: Delta, h: Delta, at: nat, k: nat)
    requires forall i :: at <= i < at + k ==> (i in g <==> i in h)
    ensures Field(g, at, k) == Field(h, at, k)
    decreases k
  {
    if k > 0 { SameField(g, h, at + 1, k - 1); }
  }

  lemma SameMove(g: Delta, h: Delta)
    requires g - {ORPHAN_BIT} == h - {ORPHAN_BIT}
    ensures MoveFound(g) == MoveFound(h)
  {
    forall i: nat | i != ORPHAN_BIT ensures i in g <==> i in h {
      assert i in g - {ORPHAN_BIT} <==> i in h - {ORPHAN_BIT};
    }
    SameField(g, h, 28, 3);
    SameField(g, h, 10, 10);
    SameField(g, h, 32, 32);
    SameField(g, h, 64, 32);
  }

  /** The MOVESTATE attribute of a pair, if it has one. */
  function Value(attr: Option<Delta>): Delta {
    match attr
    case None => {}
    case Some(d) => d
  }

  function OnDisk(mdirs: map<Pair, Option<Delta>>): (delta: map<Pair, Delta>)
    ensures delta.Keys == mdirs.Keys
    ensures forall d :: d in mdirs ==> delta[d] == Value(mdirs[d])
  {
    map d | d in mdirs :: Value(mdirs[d])
  }

  lemma ChainTake(delta: map<Pair, Delta>, chain: seq<Pair>, i: nat)
    requires Distinct(chain) && Elements(chain) <= delta.Keys && i < |chain|
    ensures chain[i] in delta
    ensures Elements(chain[..i]) <= delta.Keys && Elements(chain[..i + 1]) <= delta.Keys
    ensures Total(delta, Elements(chain[..i + 1]))
         == Xor(Total(delta, Elements(chain[..i])), delta[chain[i]])
  {
    var d, s := chain[i], Elements(chain[..i]);
    assert d in Elements(chain) && d !in s;
    assert chain[..i + 1] == chain[..i] + [d];
    assert Elements(chain[..i + 1]) == s + {d};
    TotalTake(delta, s + {d}, d);
    assert s + {d} - {d} == s;
    Algebra(delta[d], Total(delta, s), {});
  }

  /** What the last superblock on the list says. */
  function LastSuperblock(chain: seq<Pair>, superblock: map<Pair, bool>): bool {
    if chain == [] then false
    else
      var n := |chain| - 1;
      if chain[n] in superblock then superblock[chain[n]] else LastSuperblock(chain[..n], superblock)
  }

  /** None of the pairs from the i-th on holds a superblock. */
  ghost predicate Bare(chain: seq<Pair>, superblock: map<Pair, bool>, i: nat) {
    forall j :: i <= j < |chain| ==> chain[j] !in superblock
  }

  lemma {:induction false} NoSuperblock(chain: seq<Pair>, superblock: map<Pair, bool>)
    requires Bare(chain, superblock, 0)
    ensures !LastSuperblock(chain, superblock)
    decreases |chain|
  {
    if chain != [] { NoSuperblock(chain[..|chain| - 1], superblock); }
  }

  lemma {:induction false} SuperblockIs(chain: seq<Pair>, superblock: map<Pair, bool>, i: nat)
    requires i < |chain| && chain[i] in superblock && Bare(chain, superblock, i + 1)
    ensures LastSuperblock(chain, superblock) == superblock[chain[i]]
    decreases |chain|
  {
    var n := |chain| - 1;
    if i < n {
      assert chain[n] !in superblock;
      SuperblockIs(chain[..n], superblock, i);
    }
  }

  /** The gstate part of `lfs_mount_`: fold the deltas along the tail list; a pair
      holding a superblock also says whether that superblock must be rewritten. */
  method Mount(mdirs: map<Pair, Option<Delta>>, chain: seq<Pair>, superblock: map<Pair, bool>)
    returns (g: GState)
    requires Distinct(chain) && Elements(chain) <= mdirs.Keys
    ensures g.bits == Total(OnDisk(mdirs), Elements(chain))
    ensures g.orphans == (if ORPHAN_BIT in g.bits then 1 else 0)
    ensures g.needsSuperblock == LastSuperblock(chain, superblock)
    ensures Bare(chain, superblock, 0) ==> !g.needsSuperblock
    ensures forall i :: 0 <= i < |chain| && chain[i] in superblock && Bare(chain, superblock, i + 1)
                        ==> g.needsSuperblock == superblock[chain[i]]
  {
    g := GState({}, 0, false);
    for i := 0 to |chain|
      invariant Elements(chain[..i]) <= mdirs.Keys
      invariant g.bits == Total(OnDisk(mdirs), Elements(chain[..i])) && g.orphans == 0
      invariant g.needsSuperblock == LastSuperblock(chain[..i], superblock)
    {
      var d := chain[i];
      ChainTake(OnDisk(mdirs), chain, i);
      assert chain[..i + 1][..i] == chain[..i];
      if d in superblock {
        g := g.(needsSuperblock := superblock[d]);
      }
      if mdirs[d].Some? {
        g := g.(bits := Xor(g.bits, mdirs[d].value));
      }
    }
    assert chain[..|chain|] == chain;
    if Bare(chain, superblock, 0) { NoSuperblock(chain, superblock); }
    forall i | 0 <= i < |chain| && chain[i] in superblock && Bare(chain, superblock, i + 1)
      ensures LastSuperblock(chain, superblock) == superblock[chain[i]]
    {
      SuperblockIs(chain, superblock, i);
    }
    if ORPHAN_BIT in g.bits {
      g := g.(orphans := g.orphans + 1);
    }
  }

  /* ---- the code that keeps it so ---- */

  class Lfs {
    var mdirs: map<Pair, Option<Delta>>
    var gstate: GState
    var gdisk: GState
    var gdelta: Delta
    ghost var linked: set<Pair>
    ghost var waiting: map<Pair, set<Pair>>
    ghost var stolen: set<Pair>
    ghost var lost: Delta

    ghost function View(): Fs
      reads this
    {
      Fs(OnDisk(mdirs), linked, waiting, stolen, gstate, gdisk, gdelta, lost)
    }

    constructor (mdirs: map<Pair, Option<Delta>>, chain: seq<Pair>, superblock: map<Pair, bool>)
      requires Distinct(chain) && Elements(chain) <= mdirs.Keys
      ensures Inv(View()) && Paid(View()) && lost == {} && linked == Elements(chain) && this.mdirs == mdirs
    {
      this.mdirs := mdirs;
      var g := Mount(mdirs, chain, superblock);
      gstate, gdisk, gdelta := g, g, {};
      linked, waiting, stolen, lost := Elements(chain), map[], {}, {};
      new;
      Algebra(g.bits, {}, {});
      assert Target(View()) == linked;
    }

    /** `lfs_dir_getgstate`. */
    function GetGstate(dir: Pair, g: Delta): Delta
      reads this
    {
      if dir in mdirs && mdirs[dir].Some? then Xor(g, mdirs[dir].value) else g
    }

    lemma GetGstateIsXor(dir: Pair, g: Delta)
      ensures GetGstate(dir, g)
           == if dir in mdirs && Value(mdirs[dir]) != {} then Xor(g, Value(mdirs[dir])) else g
    {
      Algebra(g, {}, {});
    }

    /** The steal in `lfs_dir_drop`, dropping commits and deorphaning. */
    method StealState(dropped: Pair)
      requires Inv(View()) && Legal(View(), Steal(dropped))
      modifies this
      ensures View() == Next(old(View()), Steal(dropped)) && Inv(View())
    {
      StepInv(View(), Steal(dropped));
      Algebra(gdelta, {}, {});
      gdelta := GetGstate(dropped, gdelta);
      stolen := stolen + {dropped};
    }

    /** `lfs_fs_prepmove`: the id 0x3ff clears the move. */
    method PrepMoveState(id: nat, first: nat, second: nat)
      requires Inv(View()) && id <= NO_ID && first < 0x1_0000_0000 && second < 0x1_0000_0000
      modifies this`gstate
      ensures var m := if id == NO_ID then NoMove else Move(id, first, second);
              View() == Next(old(View()), PrepMove(m)) && Inv(View()) && MoveFound(gstate.bits) == m
      ensures ORPHAN_BIT in gstate.bits <==> ORPHAN_BIT in old(gstate.bits)
    {
      ghost var m := if id == NO_ID then NoMove else Move(id, first, second);
      StepInv(View(), PrepMove(m));
      var bits := gstate.bits * {ORPHAN_BIT};
      if id != NO_ID {
        bits := bits + Placed(TYPE_DELETE, 11, 20) + Placed(id, 10, 10);
        bits := bits + Placed(first, 32, 32) + Placed(second, 32, 64);
      }
      assert bits == gstate.bits * {ORPHAN_BIT} + MoveBits(m);
      PreppedMove(m, gstate.bits);
      gstate := gstate.(bits := bits);
    }

    /** `lfs_fs_preporphans`. */
    method PrepOrphansState(n: int)
      requires Inv(View()) && gstate.orphans + n >= 0
      modifies this`gstate
      ensures View() == Next(old(View()), PrepOrphans(n)) && Inv(View())
      ensures ORPHAN_BIT in gstate.bits <==> old(gstate.orphans) + n != 0 || old(gstate.needsSuperblock)
      ensures MoveFound(gstate.bits) == MoveFound(old(gstate.bits))
    {
      StepInv(View(), PrepOrphans(n));
      ghost var was := gstate.bits;
      gstate := gstate.(orphans := gstate.orphans + n);
      if gstate.orphans != 0 || gstate.needsSuperblock {
        gstate := gstate.(bits := gstate.bits + {ORPHAN_BIT});
      } else {
        gstate := gstate.(bits := gstate.bits - {ORPHAN_BIT});
      }
      SameMove(was, gstate.bits);
    }

    /** `lfs_fs_prepsuperblock`: nothing that reaches the disk. */
    method PrepSuperblockState(needs: bool)
      requires Inv(View())
      modifies this`gstate
      ensures View() == Next(old(View()), PrepSuperblock(needs)) && Inv(View())
      ensures gstate.needsSuperblock == needs && gstate.bits == old(gstate.bits)
    {
      StepInv(View(), PrepSuperblock(needs));
      gstate := gstate.(needsSuperblock := needs);
    }

    /** The MOVESTATE of an appended commit: none when nothing is pending. */
    method WriteState(dir: Pair)
      requires dir in mdirs
      modifies this`mdirs
      ensures OnDisk(mdirs) == old(OnDisk(mdirs))[dir := Xor(old(OnDisk(mdirs))[dir], old(Pending(View())))]
      ensures old(Pending(View())) == {} ==> mdirs == old(mdirs)
    {
      var delta := Xor(Xor(Xor({}, gstate.bits), gdisk.bits), gdelta);
      assert delta == Pending(View());
      Algebra(delta, Value(mdirs[dir]), {});
      Algebra(Value(mdirs[dir]), {}, {});
      if delta != {} {
        delta := GetGstate(dir, delta);
        mdirs := mdirs[dir := Some(delta)];
      }
    }

    /** An appended commit. */
    method CommitState(dir: Pair, ghost links: set<Pair>)
      requires Inv(View()) && Legal(View(), Commit(dir, links))
      modifies this
      ensures View() == Next(old(View()), Commit(dir, links)) && Inv(View())
      ensures old(Pending(View())) == {} ==> mdirs == old(mdirs)
    {
      ghost var t := Next(View(), Commit(dir, links));
      StepInv(View(), Commit(dir, links));
      WriteState(dir);
      gdisk, gdelta := gstate, {};
      linked, waiting, stolen, lost := t.linked, t.waiting, t.stolen, t.lost;
    }

    /** The MOVESTATE a compaction writes: nothing of RAM if the pair moved. */
    method CompactedBits(dir: Pair, relocated: bool) returns (delta: Delta)
      ensures delta == GetGstate(dir, Unwritten(View(), relocated))
    {
      delta := {};
      if !relocated {
        delta := Xor(delta, gdisk.bits);
        delta := Xor(delta, gstate.bits);
      }
      delta := Xor(delta, gdelta);
      assert delta == Unwritten(View(), relocated);
      delta := GetGstate(dir, delta);
    }

    /** The rewritten pair of a compaction carries the old delta on; a relocated
        one leaves the state in RAM pending for the commits that follow. */
    method CompactState(dir: Pair, dst: Pair, relocated: bool, ghost e: Step)
      requires Inv(View()) && Legal(View(), e) && Compacts(e, dir, dst, relocated)
      modifies this
      ensures View() == Next(old(View()), e) && Inv(View())
    {
      ghost var s := View();
      StepInv(s, e);
      ghost var t := Next(s, e);
      WriteCompacted(dir, dst, relocated);
      CompactedNext(s, e, dir, dst, relocated, Compacted(s, dir, relocated));
      gdelta := {};
      if !relocated {
        gdisk := gstate;
      }
      linked, waiting, stolen, lost := t.linked, t.waiting, t.stolen, t.lost;
    }

    method WriteCompacted(dir: Pair, dst: Pair, relocated: bool)
      modifies this`mdirs
      ensures OnDisk(mdirs) == old(OnDisk(mdirs))[dst := Compacted(old(View()), dir, relocated)]
    {
      ghost var s := View();
      var delta := CompactedBits(dir, relocated);
      GetGstateIsXor(dir, Unwritten(s, relocated));
      mdirs := mdirs[dst := if delta != {} then Some(delta) else None];
    }
  }

  function Compacted(s: Fs, dir: Pair, relocated: bool): Delta {
    if dir in s.delta && s.delta[dir] != {} then Xor(Unwritten(s, relocated), s.delta[dir])
    else Unwritten(s, relocated)
  }

  ghost predicate Compacts(e: Step, dir: Pair, dst: Pair, relocated: bool) {
    || (e.Commit? && e.dir == dir == dst && !relocated)
    || (e.Relocate? && e.dir == dir && e.moved == dst && relocated)
    || (e.Stage? && dir == dst == e.staged && e.relocated == relocated)
  }

  function Unwritten(s: Fs, relocated: bool): Delta {
    if relocated then s.gdelta else Pending(s)
  }

  lemma CompactedNext(s: Fs, e: Step, dir: Pair, dst: Pair, relocated: bool, delta: Delta)
    requires Inv(s) && Legal(s, e) && Compacts(e, dir, dst, relocated)
    requires delta == Compacted(s, dir, relocated)
    ensures var t := Next(s, e);
            t == Fs(s.delta[dst := delta], t.linked, t.waiting, t.stolen, s.gstate,
                    if relocated then s.gdisk else s.gstate, {}, t.lost)
  {
    if dir in s.delta { Algebra(s.delta[dir], Unwritten(s, relocated), {}); }
    Algebra(Unwritten(s, relocated), {}, {});
  }
}
