/** The storage task's commands on the real list: nodes in fixed cells, linked
    and unlinked in place.  Each command is the step of `HandleRuns` of the same
    name, so the theorems over runs hold of this code. */
module StorageTask {
  import opened Bytes
  import opened Collections
  import opened Handles
  import opened HandleRuns

  const CELLS: nat := 4

  function NodesOf(cells: seq<Node>): set<Node> {
    set n | n in cells
  }

  /** The nodes on the list are those whose numbers `l` holds, in order. */
  predicate Names(cells: seq<Node>, nodes: seq<Node>, l: seq<nat>)
    requires |cells| == CELLS
    decreases |l|
  {
    if l == [] || nodes == [] then l == [] && nodes == []
    else 1 <= l[0] <= CELLS && nodes[0] == cells[l[0] - 1] && Names(cells, nodes[1..], l[1..])
  }

  lemma WithNames(cells: seq<Node>, nodes: seq<Node>, l: seq<nat>, n: nat)
    requires |cells| == CELLS && Names(cells, nodes, l) && 1 <= n <= CELLS
    ensures Names(cells, [cells[n - 1]] + nodes, [n] + l)
  {
    assert ([cells[n - 1]] + nodes)[1..] == nodes && ([n] + l)[1..] == l;
  }

  /** The four cells are four nodes. */
  predicate Apart(cells: seq<Node>)
    requires |cells| == CELLS
  {
    && cells[0] != cells[1] && cells[0] != cells[2] && cells[0] != cells[3]
    && cells[1] != cells[2] && cells[1] != cells[3] && cells[2] != cells[3]
  }

  lemma SameCell(cells: seq<Node>, i: nat, j: nat)
    requires |cells| == CELLS && Apart(cells) && 1 <= i <= CELLS && 1 <= j <= CELLS
    ensures cells[i - 1] == cells[j - 1] <==> i == j
  {
  }

  lemma {:induction false} WithoutNames(cells: seq<Node>, nodes: seq<Node>, l: seq<nat>, n: nat)
    requires |cells| == CELLS && Apart(cells) && Names(cells, nodes, l) && 1 <= n <= CELLS
    ensures Names(cells, Without(nodes, cells[n - 1]), Without(l, n))
    decreases |l|
  {
    if l != [] {
      SameCell(cells, l[0], n);
    }
    if l != [] && l[0] != n {
      WithoutNames(cells, nodes[1..], l[1..], n);
      WithNames(cells, Without(nodes[1..], cells[n - 1]), Without(l[1..], n), l[0]);
    }
  }

  lemma {:induction false} NamesAbsent(cells: seq<Node>, nodes: seq<Node>, l: seq<nat>, n: nat)
    requires |cells| == CELLS && Apart(cells) && Names(cells, nodes, l) && 1 <= n <= CELLS && n !in l
    ensures cells[n - 1] !in nodes
    decreases |l|
  {
    if l != [] {
      SameCell(cells, l[0], n);
      NamesAbsent(cells, nodes[1..], l[1..], n);
    }
  }

  lemma {:induction false} NamesWithin(cells: seq<Node>, nodes: seq<Node>, l: seq<nat>)
    requires |cells| == CELLS && Names(cells, nodes, l)
    ensures forall n :: n in nodes ==> n in NodesOf(cells)
    decreases |l|
  {
    if l != [] {
      NamesWithin(cells, nodes[1..], l[1..]);
    }
  }

  class Task {
    const list: OpenList
    /** The allocation cells: FTP slots 0 to 2, then the download. */
    const cells: seq<Node>
    var dl: seq<bool>
    var wr: seq<bool>
    var open: seq<bool>
    var down: bool
    var downOpen: bool
    var bad: bool
    /** The state the run theorems speak of. */
    ghost var store: Store

    /** Memory and fields are those of `store`. */
    ghost predicate Tied()
      reads this, list, list.nodes
    {
      && list.Valid() && |cells| == CELLS && Apart(cells) && Shape(store)
      && Names(cells, list.nodes, store.list)
      && dl == store.dl && wr == store.wr && open == store.open
      && down == store.down && downOpen == store.downOpen && bad == store.bad
    }

    ghost predicate Valid()
      reads this, list, list.nodes
    {
      Tied() && Inv(store)
    }

    constructor (l: OpenList, c: seq<Node>)
      requires l.Valid() && l.nodes == [] && |c| == CELLS && Apart(c)
      ensures Valid() && list == l && cells == c && store == FRESH
    {
      list, cells := l, c;
      dl, wr, open := [false, false, false], [false, false, false], [false, false, false];
      down, downOpen, bad := false, false, false;
      store := FRESH;
    }

    method UnlinkNode(n: nat)
      requires Tied() && 1 <= n <= CELLS
      modifies this`store, list, NodesOf(cells)
      ensures Tied() && store == Unlink(old(store), n)
    {
      NamesWithin(cells, list.nodes, store.list);
      WithoutNames(cells, list.nodes, store.list, n);
      list.Remove(cells[n - 1]);
      store := Unlink(store, n);
    }

    /** `close_or_poison` of a handle already taken out: its node leaves the list
        unless littlefs failed and kept it; on any failure the fence goes up. */
    method CloseOrPoison(n: nat, c: Close)
      requires Tied() && 1 <= n <= CELLS
      modifies this`store, this`bad, list, NodesOf(cells)
      ensures Tied() && store == CloseNode(old(store), n, c)
    {
      if c != FailedLinked {
        UnlinkNode(n);
      }
      if c != Closed {
        bad := true;
        store := store.(bad := true);
      }
    }

    /** Take a slot's read handle, if it has one, and close it. */
    method CloseRead(i: nat, c: Close)
      requires Tied() && i < SLOTS
      modifies this, list, NodesOf(cells)
      ensures Tied() && store == TakeDl(old(store), i, c)
    {
      if dl[i] {
        dl := dl[i := false];
        store := store.(dl := dl);
        CloseOrPoison(Cell(i), c);
      }
    }

    method CloseWrite(i: nat, c: Close)
      requires Tied() && i < SLOTS
      modifies this, list, NodesOf(cells)
      ensures Tied() && store == TakeWr(old(store), i, c)
    {
      if wr[i] {
        wr := wr[i := false];
        store := store.(wr := wr);
        CloseOrPoison(Cell(i), c);
      }
    }

    /** `slot_close_all`. */
    method SlotCloseAll(slot: Byte, c: Close, d: Close)
      requires Valid()
      modifies this, list, NodesOf(cells)
      ensures Valid() && store == CloseSlot(old(store), Min(slot, 2), c, d)
      ensures !dl[Min(slot, 2)] && !wr[Min(slot, 2)]
    {
      var i := Min(slot, 2);
      CloseSlotInv(store, i, c, d);
      CloseRead(i, c);
      CloseWrite(i, d);
      open := open[i := false];
      store := store.(open := open);
    }

    method LinkNode(n: nat)
      requires Tied() && 1 <= n <= CELLS && n !in store.list
      modifies this`store, list, NodesOf(cells)
      ensures Tied() && store == Link(old(store), n)
    {
      NamesAbsent(cells, list.nodes, store.list, n);
      WithNames(cells, list.nodes, store.list, n);
      list.Append(cells[n - 1]);
      store := Link(store, n);
    }

    /** littlefs open: append the node, and unlink it again on an error. */
    method LfsOpen(n: nat, ok: bool)
      requires Tied() && 1 <= n <= CELLS && n !in store.list
      modifies this`store, list, NodesOf(cells)
      ensures Tied() && store == OpenNode(old(store), n, ok)
    {
      LinkNode(n);
      if !ok {
        UnlinkNode(n);
      }
    }

    /** Open a free cell and seek; on success the handle is the caller's to store. */
    method OpenAndSeek(n: nat, o: Opening) returns (ok: bool)
      requires Tied() && 1 <= n <= CELLS && n !in store.list
      modifies this`store, this`bad, list, NodesOf(cells)
      ensures Tied() && (ok <==> o.openOk && o.seekOk)
      ensures store == if o.openOk && !o.seekOk then CloseNode(OpenNode(old(store), n, true), n, o.undo)
                       else OpenNode(old(store), n, o.openOk)
    {
      LfsOpen(n, o.openOk);
      if !o.openOk {
        return false;
      }
      if !o.seekOk {
        CloseOrPoison(n, o.undo);
        return false;
      }
      ok := true;
    }

    /** Open a slot's cell for one of its handles. */
    method OpenCell(i: nat, reading: bool, o: Opening) returns (ok: bool)
      requires Tied() && i < SLOTS && (!bad ==> Cell(i) !in store.list)
      modifies this, list, NodesOf(cells)
      ensures Tied() && store == OpenSlot(old(store), i, reading, o)
      ensures ok <==> !old(bad) && o.pathOk && o.openOk && o.seekOk
    {
      if bad || !o.pathOk {
        return false;
      }
      ok := OpenAndSeek(Cell(i), o);
      if ok {
        if reading {
          open := open[i := true];
          dl := dl[i := true];
        } else {
          wr := wr[i := true];
        }
        store := store.(dl := dl, open := open, wr := wr);
      }
    }

    /** `ftp_open_read`; `o` is what the path, littlefs and the seek answer. */
    method FtpOpenRead(slot: Byte, c: Close, d: Close, o: Opening) returns (ok: bool)
      requires Valid()
      modifies this, list, NodesOf(cells)
      ensures Valid() && store == Step(old(store), Command.FtpOpenRead(slot, c, d, o))
      ensures ok <==> dl[Min(slot, 2)]
    {
      SlotCloseAll(slot, c, d);
      FreeCell(store, Min(slot, 2));
      OpenSlotInv(store, Min(slot, 2), true, o);
      ok := OpenCell(Min(slot, 2), true, o);
    }

    /** `ftp_open_write`. */
    method FtpOpenWrite(slot: Byte, c: Close, d: Close, o: Opening) returns (ok: bool)
      requires Valid()
      modifies this, list, NodesOf(cells)
      ensures Valid() && store == Step(old(store), Command.FtpOpenWrite(slot, c, d, o))
      ensures ok <==> wr[Min(slot, 2)]
    {
      SlotCloseAll(slot, c, d);
      FreeCell(store, Min(slot, 2));
      OpenSlotInv(store, Min(slot, 2), false, o);
      ok := OpenCell(Min(slot, 2), false, o);
    }

    /** `ftp_close_write`. */
    method FtpCloseWrite(slot: Byte, c: Close)
      requires Valid()
      modifies this, list, NodesOf(cells)
      ensures Valid() && store == Step(old(store), Command.FtpCloseWrite(slot, c))
    {
      StepInv(store, Command.FtpCloseWrite(slot, c));
      CloseWrite(Min(slot, 2), c);
    }

    /** `ftp_read_chunk`: at the end of the file, or when a read fails, the
        handle is closed. */
    method FtpReadChunk(slot: Byte, ends: bool, c: Close)
      requires Valid()
      modifies this, list, NodesOf(cells)
      ensures Valid() && store == Step(old(store), Command.FtpReadChunk(slot, ends, c))
    {
      StepInv(store, Command.FtpReadChunk(slot, ends, c));
      var i := Min(slot, 2);
      if open[i] && ends {
        CloseRead(i, c);
      }
    }

    method CloseDownload(c: Close)
      requires Tied()
      modifies this, list, NodesOf(cells)
      ensures Tied() && store == TakeDown(old(store), c)
    {
      if down {
        down := false;
        store := store.(down := false);
        CloseOrPoison(DOWNLOAD, c);
      }
    }

    method OpenDownload(o: Opening) returns (ok: bool)
      requires Tied() && (!bad ==> DOWNLOAD !in store.list) && o.seekOk
      modifies this, list, NodesOf(cells)
      ensures Tied() && store == OpenDown(old(store), o)
      ensures ok <==> !old(bad) && o.pathOk && o.openOk
    {
      if bad || !o.pathOk {
        return false;
      }
      ok := OpenAndSeek(DOWNLOAD, o);
      if ok {
        downOpen, down := true, true;
        store := store.(down := true, downOpen := true);
      }
    }

    /** A stale download is closed and its flag cleared. */
    method ResetDownload(c: Close)
      requires Valid()
      modifies this, list, NodesOf(cells)
      ensures Valid() && store == TakeDown(old(store), c).(downOpen := false) && !down
    {
      TakeDownInv(store, c);
      CloseDownload(c);
      downOpen := false;
      store := store.(downOpen := false);
    }

    /** `file_open`; it does not seek. */
    method FileOpen(c: Close, pathOk: bool, openOk: bool) returns (ok: bool)
      requires Valid()
      modifies this, list, NodesOf(cells)
      ensures Valid() && store == Step(old(store), WebOpen(c, Opening(pathOk, openOk, true, Closed)))
      ensures ok <==> down
    {
      var o := Opening(pathOk, openOk, true, Closed);
      ResetDownload(c);
      ok := OpenFresh(o);
    }

    /** The open behind a reset. */
    method OpenFresh(o: Opening) returns (ok: bool)
      requires Valid() && !down && o.seekOk
      modifies this, list, NodesOf(cells)
      ensures Valid() && store == OpenDown(old(store), o) && (ok <==> down)
    {
      DownloadInv(store, o);
      ok := OpenDownload(o);
    }

    /** `file_chunk`. */
    method FileChunk(ends: bool, c: Close)
      requires Valid()
      modifies this, list, NodesOf(cells)
      ensures Valid() && store == Step(old(store), WebChunk(ends, c))
    {
      StepInv(store, WebChunk(ends, c));
      if downOpen && ends {
        CloseDownload(c);
      }
    }
  }

  lemma FreeCell(s: Store, i: nat)
    requires Inv(s) && i < SLOTS && !s.dl[i] && !s.wr[i]
    ensures !s.bad ==> Cell(i) !in s.list
  {
  }
}
