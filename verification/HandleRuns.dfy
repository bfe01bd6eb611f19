/** The storage task's file handles: three FTP slots and one download, each with
    one allocation cell whose node goes on littlefs's open list. */
module HandleRuns {
  import opened Bytes
  import opened Collections
  import opened Handles

  const SLOTS: nat := 3
  const DOWNLOAD: nat := 4

  /** The node of a slot's cell. */
  function Cell(i: nat): nat {
    i + 1
  }

  /** `links` are littlefs's pointers and `list` the nodes put on the list and not
      taken off it; `dl`, `wr` and `down` are the handles held, `open` and
      `downOpen` the transfer flags, `bad` the fence (`FS_BAD`), and `clash`
      records that a node was opened while it was linked. */
  datatype Store = Store(links: Links, list: seq<nat>, dl: seq<bool>, wr: seq<bool>, open: seq<bool>,
                         down: bool, downOpen: bool, bad: bool, clash: bool)

  /** How a close ends.  By lfs.c the node is unlinked even when the sync fails;
      the storage task guards against it staying linked, so both are allowed. */
  datatype Close = Closed | FailedUnlinked | FailedLinked

  /** The pointers are rewritten whether or not the node is there. */
  function Unlink(s: Store, n: nat): Store {
    s.(links := Unlinked(s.links, n), list := Without(s.list, n))
  }

  function Link(s: Store, n: nat): Store {
    s.(links := Linked(s.links, n), list := [n] + s.list, clash := s.clash || n in s.list)
  }

  /** `close_or_poison`. */
  function CloseNode(s: Store, n: nat, c: Close): (t: Store)
    ensures t.dl == s.dl && t.wr == s.wr && t.open == s.open
  {
    match c
    case Closed => Unlink(s, n)
    case FailedUnlinked => Unlink(s, n).(bad := true)
    case FailedLinked => s.(bad := true)
  }

  /** littlefs open: the node is linked first and unlinked again on an error. */
  function OpenNode(s: Store, n: nat, ok: bool): (t: Store)
    ensures t.dl == s.dl && t.wr == s.wr && t.open == s.open
  {
    if ok then Link(s, n) else Unlink(Link(s, n), n)
  }

  predicate Shape(s: Store) {
    |s.dl| == SLOTS && |s.wr| == SLOTS && |s.open| == SLOTS
  }

  function TakeDl(s: Store, i: nat, c: Close): (r: Store)
    requires Shape(s) && i < SLOTS
    ensures Shape(r)
  {
    if s.dl[i] then CloseNode(s.(dl := s.dl[i := false]), Cell(i), c) else s
  }

  function TakeWr(s: Store, i: nat, c: Close): (r: Store)
    requires Shape(s) && i < SLOTS
    ensures Shape(r)
  {
    if s.wr[i] then CloseNode(s.(wr := s.wr[i := false]), Cell(i), c) else s
  }

  /** `slot_close_all`. */
  function CloseSlot(s: Store, i: nat, c: Close, d: Close): (r: Store)
    requires Shape(s) && i < SLOTS
    ensures Shape(r)
  {
    var t := TakeWr(TakeDl(s, i, c), i, d);
    t.(open := t.open[i := false])
  }

  /** What the environment decides during an open: the path, littlefs's answer,
      the seek, and the close after a failed seek. */
  datatype Opening = Opening(pathOk: bool, openOk: bool, seekOk: bool, undo: Close)

  /** The open behind a slot's closes: into the read handle or the write handle. */
  function OpenSlot(t: Store, i: nat, reading: bool, o: Opening): (r: Store)
    requires Shape(t) && i < SLOTS
    ensures Shape(r)
  {
    if t.bad || !o.pathOk then t
    else
      var u := OpenNode(t, Cell(i), o.openOk);
      if !o.openOk then u
      else if !o.seekOk then CloseNode(u, Cell(i), o.undo)
      else if reading then u.(dl := u.dl[i := true], open := u.open[i := true])
      else u.(wr := u.wr[i := true])
  }

  /** `ends`: the file is exhausted or the read failed. */
  function ReadChunk(s: Store, i: nat, ends: bool, c: Close): Store
    requires Shape(s) && i < SLOTS
  {
    if s.open[i] && ends then TakeDl(s, i, c) else s
  }

  function TakeDown(s: Store, c: Close): (t: Store)
    ensures t.dl == s.dl && t.wr == s.wr && t.open == s.open
  {
    if s.down then CloseNode(s.(down := false), DOWNLOAD, c) else s
  }

  function OpenDown(t: Store, o: Opening): Store {
    if t.bad || !o.pathOk then t
    else
      var u := OpenNode(t, DOWNLOAD, o.openOk);
      if o.openOk then u.(down := true, downOpen := true) else u
  }

  function FileChunk(s: Store, ends: bool, c: Close): Store {
    if s.downOpen && ends then TakeDown(s, c) else s
  }

  datatype Command =
    | FtpOpenRead(slot: Byte, c: Close, d: Close, o: Opening)
    | FtpOpenWrite(slot: Byte, c: Close, d: Close, o: Opening)
    | FtpWriteChunk(slot: Byte)
    | FtpCloseWrite(slot: Byte, c: Close)
    | FtpReadChunk(slot: Byte, ends: bool, c: Close)
    | WebOpen(c: Close, o: Opening)
    | WebChunk(ends: bool, c: Close)

  function Step(s: Store, e: Command): Store
    requires Shape(s)
  {
    match e
    case FtpOpenRead(slot, c, d, o) => OpenSlot(CloseSlot(s, Min(slot, 2), c, d), Min(slot, 2), true, o)
    case FtpOpenWrite(slot, c, d, o) => OpenSlot(CloseSlot(s, Min(slot, 2), c, d), Min(slot, 2), false, o)
    case FtpWriteChunk(slot) => s
    case FtpCloseWrite(slot, c) => TakeWr(s, Min(slot, 2), c)
    case FtpReadChunk(slot, ends, c) => ReadChunk(s, Min(slot, 2), ends, c)
    case WebOpen(c, o) => OpenDown(TakeDown(s, c).(downOpen := false), o)
    case WebChunk(ends, c) => FileChunk(s, ends, c)
  }

  /* ---- what every command keeps ---- */

  /** A held handle's node is linked; until the fence goes up, only those are. */
  predicate CellOk(s: Store, n: nat, held: bool) {
    (held ==> n in s.list) && (!s.bad && !held ==> n !in s.list)
  }

  predicate Inv(s: Store) {
    && Shape(s) && Spells(s.links, s.list) && !s.clash
    && (forall i :: 0 <= i < SLOTS ==> !(s.dl[i] && s.wr[i]) && CellOk(s, Cell(i), s.dl[i] || s.wr[i]))
    && CellOk(s, DOWNLOAD, s.down)
  }

  lemma {:induction false} WithoutIn<T>(s: seq<T>, n: T, x: T)
    requires Distinct(s)
    ensures x in Without(s, n) <==> x in s && x != n
    decreases |s|
  {
    if s != [] {
      assert Distinct(s[1..]);
      WithoutIn(s[1..], n, x);
      assert s == [s[0]] + s[1..];
    }
  }

  lemma UnlinkGood(s: Store, n: nat)
    requires Spells(s.links, s.list) && n > 0
    ensures Spells(Unlink(s, n).links, Unlink(s, n).list)
    ensures forall x :: x in Unlink(s, n).list <==> x in s.list && x != n
  {
    UnlinkedSpells(s.links, s.list, n);
    forall x: nat ensures x in Without(s.list, n) <==> x in s.list && x != n { WithoutIn(s.list, n, x); }
  }

  lemma LinkGood(s: Store, n: nat)
    requires Spells(s.links, s.list) && n > 0 && n !in s.list
    ensures Spells(Link(s, n).links, Link(s, n).list)
    ensures forall x :: x in Link(s, n).list <==> x == n || x in s.list
    ensures Link(s, n).clash == s.clash
  {
    AppendSpells(s.links, s.list, n);
  }

  lemma TakeDlInv(s: Store, i: nat, c: Close)
    requires Inv(s) && i < SLOTS
    ensures Inv(TakeDl(s, i, c)) && !TakeDl(s, i, c).dl[i] && TakeDl(s, i, c).wr == s.wr
  {
    UnlinkGood(s, Cell(i));
  }

  lemma TakeWrInv(s: Store, i: nat, c: Close)
    requires Inv(s) && i < SLOTS
    ensures Inv(TakeWr(s, i, c)) && !TakeWr(s, i, c).wr[i] && TakeWr(s, i, c).dl == s.dl
  {
    UnlinkGood(s, Cell(i));
  }

  lemma TakeDownInv(s: Store, c: Close)
    requires Inv(s)
    ensures Inv(TakeDown(s, c)) && !TakeDown(s, c).down
  {
    UnlinkGood(s, DOWNLOAD);
  }

  lemma CloseSlotInv(s: Store, i: nat, c: Close, d: Close)
    requires Inv(s) && i < SLOTS
    ensures var t := CloseSlot(s, i, c, d); Inv(t) && !t.dl[i] && !t.wr[i]
  {
    TakeDlInv(s, i, c);
    TakeWrInv(TakeDl(s, i, c), i, d);
  }

  lemma FailedOpen(t: Store, n: nat)
    requires Inv(t) && n !in t.list && n > 0
    ensures Inv(OpenNode(t, n, false)) && OpenNode(t, n, false).list == t.list
  {
    LinkGood(t, n);
    UnlinkGood(Link(t, n), n);
    assert ([n] + t.list)[1..] == t.list;
  }

  lemma UndoneOpen(t: Store, n: nat, undo: Close)
    requires Inv(t) && n !in t.list && n > 0
    ensures Inv(CloseNode(OpenNode(t, n, true), n, undo))
  {
    LinkGood(t, n);
    UnlinkGood(Link(t, n), n);
  }

  lemma ReadOpen(t: Store, i: nat)
    requires Inv(t) && i < SLOTS && Cell(i) !in t.list && !t.dl[i] && !t.wr[i]
    ensures var u := OpenNode(t, Cell(i), true);
            Inv(u.(dl := u.dl[i := true], open := u.open[i := true]))
  {
    LinkGood(t, Cell(i));
  }

  lemma WriteOpen(t: Store, i: nat)
    requires Inv(t) && i < SLOTS && Cell(i) !in t.list && !t.dl[i] && !t.wr[i]
    ensures var u := OpenNode(t, Cell(i), true);
            Inv(u.(wr := u.wr[i := true]))
  {
    LinkGood(t, Cell(i));
  }

  /** An open that finds its node unlinked, whatever becomes of it. */
  lemma OpenSlotInv(t: Store, i: nat, reading: bool, o: Opening)
    requires Inv(t) && i < SLOTS && !t.dl[i] && !t.wr[i]
    ensures Inv(OpenSlot(t, i, reading, o))
  {
    if !t.bad && o.pathOk {
      assert Cell(i) !in t.list;
      if !o.openOk {
        FailedOpen(t, Cell(i));
      } else if !o.seekOk {
        UndoneOpen(t, Cell(i), o.undo);
      } else if reading {
        ReadOpen(t, i);
      } else {
        WriteOpen(t, i);
      }
    }
  }

  lemma DownloadInv(t: Store, o: Opening)
    requires Inv(t) && !t.down
    ensures Inv(OpenDown(t, o)) && (!t.bad ==> DOWNLOAD !in t.list)
  {
    if !t.bad && o.pathOk {
      if o.openOk {
        LinkGood(t, DOWNLOAD);
      } else {
        FailedOpen(t, DOWNLOAD);
      }
    }
  }

  lemma StepInv(s: Store, e: Command)
    requires Inv(s)
    ensures Inv(Step(s, e))
  {
    match e
    case FtpOpenRead(slot, c, d, o) =>
      CloseSlotInv(s, Min(slot, 2), c, d);
      OpenSlotInv(CloseSlot(s, Min(slot, 2), c, d), Min(slot, 2), true, o);
    case FtpOpenWrite(slot, c, d, o) =>
      CloseSlotInv(s, Min(slot, 2), c, d);
      OpenSlotInv(CloseSlot(s, Min(slot, 2), c, d), Min(slot, 2), false, o);
    case FtpWriteChunk(_) =>
    case FtpCloseWrite(slot, c) => TakeWrInv(s, Min(slot, 2), c);
    case FtpReadChunk(slot, _, c) => TakeDlInv(s, Min(slot, 2), c);
    case WebOpen(c, o) =>
      TakeDownInv(s, c);
      DownloadInv(TakeDown(s, c).(downOpen := false), o);
    case WebChunk(_, c) => TakeDownInv(s, c);
  }

  /** The slot a command is for; 3 for the download. */
  function SlotOf(e: Command): nat {
    if e.WebOpen? || e.WebChunk? then 3 else Min(e.slot, 2)
  }

  /** Cell j, its handles and its place on the list, is as before. */
  predicate Untouched(s: Store, t: Store, j: nat)
    requires Shape(s) && Shape(t) && j <= SLOTS
  {
    && (Cell(j) in t.list <==> Cell(j) in s.list)
    && if j < SLOTS then s.dl[j] == t.dl[j] && s.wr[j] == t.wr[j] && s.open[j] == t.open[j]
       else s.down == t.down && s.downOpen == t.downOpen
  }

  // Closing one node leaves the others where they are.
  lemma CloseElsewhere(s: Store, n: nat, c: Close, m: nat)
    requires Distinct(s.list) && m != n
    ensures m in CloseNode(s, n, c).list <==> m in s.list
  {
    WithoutIn(s.list, n, m);
  }

  lemma TakeElsewhere(s: Store, i: nat, c: Close, j: nat)
    requires Shape(s) && Distinct(s.list) && i < SLOTS && j <= SLOTS && j != i
    ensures Untouched(s, TakeDl(s, i, c), j) && Untouched(s, TakeWr(s, i, c), j)
  {
    CloseElsewhere(s.(dl := s.dl[i := false]), Cell(i), c, Cell(j));
    CloseElsewhere(s.(wr := s.wr[i := false]), Cell(i), c, Cell(j));
  }

  lemma OpenElsewhere(s: Store, n: nat, o: Opening, j: nat)
    requires Shape(s) && Distinct(s.list) && j <= SLOTS && n != Cell(j) && n !in s.list
    ensures Untouched(s, OpenNode(s, n, o.openOk), j)
    ensures Untouched(s, CloseNode(OpenNode(s, n, true), n, o.undo), j)
  {
    Consed(n, s.list);
    CloseElsewhere(Link(s, n), n, Closed, Cell(j));
    CloseElsewhere(Link(s, n), n, o.undo, Cell(j));
  }

  lemma SlotElsewhere(s: Store, i: nat, c: Close, d: Close, reading: bool, o: Opening, j: nat)
    requires Inv(s) && i < SLOTS && j <= SLOTS && j != i
    ensures Untouched(s, OpenSlot(CloseSlot(s, i, c, d), i, reading, o), j)
  {
    TakeElsewhere(s, i, c, j);
    TakeDlInv(s, i, c);
    TakeElsewhere(TakeDl(s, i, c), i, d, j);
    CloseSlotInv(s, i, c, d);
    var t := CloseSlot(s, i, c, d);
    if !t.bad {
      OpenElsewhere(t, Cell(i), o, j);
    }
  }

  /** A command for one slot leaves the handles, flags and nodes of the others. */
  lemma SlotsIndependent(s: Store, e: Command, j: nat)
    requires Inv(s) && j <= SLOTS && j != SlotOf(e)
    ensures Untouched(s, Step(s, e), j)
  {
    match e
    case FtpOpenRead(slot, c, d, o) => SlotElsewhere(s, Min(slot, 2), c, d, true, o, j);
    case FtpOpenWrite(slot, c, d, o) => SlotElsewhere(s, Min(slot, 2), c, d, false, o, j);
    case FtpWriteChunk(_) =>
    case FtpCloseWrite(slot, c) => TakeElsewhere(s, Min(slot, 2), c, j);
    case FtpReadChunk(slot, _, c) => TakeElsewhere(s, Min(slot, 2), c, j);
    case WebOpen(c, o) => WebElsewhere(s, c, o, j);
    case WebChunk(_, c) => DownElsewhere(s, c, j);
  }

  lemma WebElsewhere(s: Store, c: Close, o: Opening, j: nat)
    requires Inv(s) && j < SLOTS
    ensures Untouched(s, OpenDown(TakeDown(s, c).(downOpen := false), o), j)
  {
    DownElsewhere(s, c, j);
    TakeDownInv(s, c);
    var t := TakeDown(s, c).(downOpen := false);
    if !t.bad {
      OpenElsewhere(t, DOWNLOAD, o, j);
    }
  }

  lemma DownElsewhere(s: Store, c: Close, j: nat)
    requires Shape(s) && Distinct(s.list) && j < SLOTS
    ensures Untouched(s, TakeDown(s, c), j)
  {
    CloseElsewhere(s.(down := false), DOWNLOAD, c, Cell(j));
  }

  /* ---- what each command does ---- */

  /** The storage is good and the handles of slot i, if any, close without a failure. */
  predicate Frees(s: Store, i: nat, c: Close, d: Close)
    requires Shape(s) && i < SLOTS
  {
    !s.bad && (s.dl[i] ==> c == Closed) && (s.wr[i] ==> d == Closed)
  }

  lemma CloseSlotIff(s: Store, i: nat, c: Close, d: Close)
    requires Inv(s) && i < SLOTS
    ensures var t := CloseSlot(s, i, c, d);
            && !t.dl[i] && !t.wr[i] && !t.open[i] && (!t.bad <==> Frees(s, i, c, d))
  {
    CloseSlotInv(s, i, c, d);
    TakeDlInv(s, i, c);
  }

  /** An open closes what the slot held and holds the new handle, for reading or for
      writing, if and only if nothing failed on the way: the fence was down, both closes
      went well, and path, open and seek did.  The fence goes up if and only if it was
      up or a close failed. */
  lemma OpenIff(s: Store, slot: Byte, reading: bool, c: Close, d: Close, o: Opening)
    requires Inv(s)
    ensures var i := if slot < 2 then slot else 2;
            var t := Step(s, if reading then FtpOpenRead(slot, c, d, o) else FtpOpenWrite(slot, c, d, o));
            var free := Frees(s, i, c, d);
            && Inv(t)
            && (t.dl[i] <==> reading && free && o.pathOk && o.openOk && o.seekOk)
            && (t.wr[i] <==> !reading && free && o.pathOk && o.openOk && o.seekOk)
            && (t.open[i] <==> t.dl[i])
            && (t.bad <==> !free || (o.pathOk && o.openOk && !o.seekOk && o.undo != Closed))
  {
    var e := if reading then FtpOpenRead(slot, c, d, o) else FtpOpenWrite(slot, c, d, o);
    StepInv(s, e);
    CloseSlotIff(s, Min(slot, 2), c, d);
  }

  /** Closing an upload gives its handle up, and unlinks its node unless littlefs failed
      and kept it; a failed close raises the fence. */
  lemma CloseWriteIff(s: Store, slot: Byte, c: Close)
    requires Inv(s)
    ensures var i := if slot < 2 then slot else 2; var t := Step(s, FtpCloseWrite(slot, c));
            && t.dl == s.dl && t.open == s.open && t.wr == s.wr[i := false]
            && (t.bad <==> s.bad || (s.wr[i] && c != Closed))
            && (Cell(i) in t.list <==> Cell(i) in s.list && !(s.wr[i] && c != FailedLinked))
  {
    var i := Min(slot, 2);
    WithoutIn(s.list, Cell(i), Cell(i));
    if !s.wr[i] { assert s.wr[i := false] == s.wr; }
  }

  /** Reading on keeps the handle until the file ends or a read fails; then it is closed
      as above, and the transfer stays marked as begun. */
  lemma ReadChunkIff(s: Store, slot: Byte, ends: bool, c: Close)
    requires Inv(s)
    ensures var i := if slot < 2 then slot else 2; var t := Step(s, FtpReadChunk(slot, ends, c));
            var last := s.open[i] && ends && s.dl[i];
            && t.wr == s.wr && t.open == s.open && (t.dl[i] <==> s.dl[i] && !last)
            && (t.bad <==> s.bad || (last && c != Closed))
            && (Cell(i) in t.list <==> Cell(i) in s.list && !(last && c != FailedLinked))
  {
    WithoutIn(s.list, Cell(Min(slot, 2)), Cell(Min(slot, 2)));
  }

  /** The download: the same, with one handle and no seek. */
  lemma DownloadIff(s: Store, c: Close, o: Opening, ends: bool)
    requires Inv(s)
    ensures var t := Step(s, WebOpen(c, o)); var free := !s.bad && (s.down ==> c == Closed);
            && (t.down <==> free && o.pathOk && o.openOk) && (t.downOpen <==> t.down) && (t.bad <==> !free)
    ensures var t := Step(s, WebChunk(ends, c)); var last := s.downOpen && ends && s.down;
            && (t.down <==> s.down && !last) && t.downOpen == s.downOpen
            && (t.bad <==> s.bad || (last && c != Closed))
            && (DOWNLOAD in t.list <==> DOWNLOAD in s.list && !(last && c != FailedLinked))
  {
    TakeDownInv(s, c);
    WithoutIn(s.list, DOWNLOAD, DOWNLOAD);
  }

  /* ---- whole runs ---- */

  const FRESH := Store(Links(0, map[]), [], [false, false, false], [false, false, false], [false, false, false],
                       false, false, false, false)

  function Run(s: Store, es: seq<Command>): (r: Store)
    requires Inv(s)
    ensures Inv(r)
    decreases |es|
  {
    if es == [] then s else StepInv(s, es[0]); Run(Step(s, es[0]), es[1..])
  }

  /** Over every sequence of commands and every outcome of littlefs: no node is
      opened while it is linked, no slot holds a read and a write handle, every
      held handle is on the list, and the list of open nodes has no repetition. */
  lemma HandleDiscipline(es: seq<Command>)
    ensures var s := Run(FRESH, es);
            && !s.clash && Distinct(s.list)
            && (forall i :: 0 <= i < SLOTS ==> !(s.dl[i] && s.wr[i]))
            && (forall i :: 0 <= i < SLOTS ==> (s.dl[i] || s.wr[i] ==> Cell(i) in s.list))
            && (s.down ==> DOWNLOAD in s.list)
  {
  }

  /** After every command sequence the pointers, which no open or close checks,
      spell exactly the nodes opened and not closed, so that a walk over the open
      list visits each of them once and comes to its end. */
  lemma WalkEnds(es: seq<Command>)
    ensures var s := Run(FRESH, es);
            && Ends(s.links) && Nth(s.links, |s.list|) == 0
            && forall k :: 0 <= k < |s.list| ==> Nth(s.links, k) == s.list[k]
  {
    var s := Run(FRESH, es);
    WalkOf(s.links, s.list, |s.list|);
    forall k | 0 <= k < |s.list| ensures Nth(s.links, k) == s.list[k] {
      WalkOf(s.links, s.list, k);
    }
  }

  lemma {:induction false} WithoutShrinks<T>(s: seq<T>, n: T)
    ensures |Without(s, n)| <= |s| && forall x :: x in Without(s, n) ==> x in s
    decreases |s|
  {
    if s != [] {
      WithoutShrinks(s[1..], n);
      assert s == [s[0]] + s[1..];
    }
  }

  /** t is s with some nodes and handles taken off and the fence still up. */
  predicate Shrunk(s: Store, t: Store) {
    && t.bad && |t.list| <= |s.list| && (forall n :: n in t.list ==> n in s.list)
    && Held(t) <= Held(s)
  }

  /** Handles held: the FTP slots for reading and for writing, and the download. */
  function Held(s: Store): set<nat> {
    (set i | 0 <= i < |s.dl| && s.dl[i] :: i) + (set i | 0 <= i < |s.wr| && s.wr[i] :: SLOTS + i)
    + (if s.down then {2 * SLOTS} else {})
  }

  lemma TakeShrinks(s: Store, i: nat, c: Close)
    requires Shape(s) && i < SLOTS && s.bad
    ensures Shrunk(s, TakeDl(s, i, c)) && Shrunk(s, TakeWr(s, i, c))
  {
    WithoutShrinks(s.list, Cell(i));
  }

  lemma TakeDownShrinks(s: Store, c: Close)
    requires s.bad
    ensures Shrunk(s, TakeDown(s, c))
  {
    WithoutShrinks(s.list, DOWNLOAD);
  }

  lemma CloseShrinks(s: Store, i: nat, c: Close, d: Close)
    requires Shape(s) && i < SLOTS && s.bad
    ensures Shrunk(s, CloseSlot(s, i, c, d))
  {
    TakeShrinks(s, i, c);
    TakeShrinks(TakeDl(s, i, c), i, d);
  }

  /** Once the fence is up nothing is opened any more: nodes on the list and handles
      held are among those before, and the fence stays. */
  lemma FenceHolds(s: Store, e: Command)
    requires Inv(s) && s.bad
    ensures Shrunk(s, Step(s, e))
  {
    match e
    case FtpOpenRead(slot, c, d, o) => CloseShrinks(s, Min(slot, 2), c, d);
    case FtpOpenWrite(slot, c, d, o) => CloseShrinks(s, Min(slot, 2), c, d);
    case FtpWriteChunk(_) =>
    case FtpCloseWrite(slot, c) => TakeShrinks(s, Min(slot, 2), c);
    case FtpReadChunk(slot, _, c) => TakeShrinks(s, Min(slot, 2), c);
    case WebOpen(c, o) => TakeDownShrinks(s, c);
    case WebChunk(_, c) => TakeDownShrinks(s, c);
  }

  /** And so over every run behind it. */
  lemma {:induction false} FenceForever(s: Store, es: seq<Command>)
    requires Inv(s) && s.bad
    ensures Shrunk(s, Run(s, es))
    decreases |es|
  {
    if es != [] {
      FenceHolds(s, es[0]);
      StepInv(s, es[0]);
      FenceForever(Step(s, es[0]), es[1..]);
    }
  }
}
