/** The firmware-upgrade session over slot 1 of the NOR: a page buffer in front
    of the flash.  Slot 1 starts at address 0. */
module FwUpgrade {
  import opened Bytes
  import opened Nor
  import opened Tlv
  import Crc
  import Words

  const PAGE: nat := 256
  const SLOT1_SIZE: nat := 0x7_0000

  /** The session and its chip; `page` are the bytes buffered so far. */
  datatype Session = Session(chip: Chip, active: bool, failed: bool, total: nat, written: nat, page: seq<Byte>)

  /** What `received()` counts: the flashed bytes and the buffered ones. */
  function Accepted(s: Session): seq<Byte>
    requires s.written <= CHIP_SIZE
  {
    s.chip.mem[..s.written] + s.page
  }

  /* ---- the operations ---- */

  function Flush(s: Session): (Session, bool) {
    if s.page == [] then (s, true)
    else
      var r := WriteTo(s.chip, s.written, s.page);
      (s.(chip := r.0, page := []), r.1)
  }

  /** The loop of `write`: fill the page, flush it when full. */
  function Put(s: Session, data: seq<Byte>): (r: (Session, bool))
    requires |s.page| < PAGE
    ensures |r.0.page| < PAGE
    decreases |data|
  {
    if data == [] then (s, true)
    else
      var n := Min(PAGE - |s.page|, |data|);
      var p := s.page + data[..n];
      if |p| < PAGE then (s.(page := p), true)
      else
        var r := Flush(s.(page := p));
        if r.1 then Put(r.0.(written := s.written + PAGE), data[n..]) else (r.0.(failed := true), false)
  }

  function Write(s: Session, data: seq<Byte>): (r: (Session, bool))
    requires |s.page| < PAGE
    ensures |r.0.page| < PAGE
  {
    if !s.active || s.failed then (s, false)
    else if s.written + |s.page| + |data| > s.total then (s.(failed := true), false)
    else Put(s, data)
  }

  /* ---- what a running session keeps ---- */

  /** Whole pages flashed, the rest buffered, everything behind still erased. */
  predicate Live(s: Session) {
    && s.active && !s.failed
    && |s.page| < PAGE && s.written % PAGE == 0
    && s.written + |s.page| <= s.total <= SLOT1_SIZE
    && Blank(s.chip.mem, s.written, SLOT1_SIZE)
  }

  lemma FlashPage(mem: Memory, at: nat, page: seq<Byte>)
    requires at + |page| <= SLOT1_SIZE && Blank(mem, at, SLOT1_SIZE)
    ensures var m := Programmed(mem, at, page);
            && m[..at + |page|] == mem[..at] + page
            && Blank(m, at + |page|, SLOT1_SIZE)
            && m[..at] == mem[..at]
  {
    var m := Programmed(mem, at, page);
    ProgramBlank(mem, at, page);
    ProgramFrame(mem, at, page);
    assert m[..at + |page|] == m[..at] + m[at..at + |page|];
  }

  /** A page that fits is written whole or the device gave up. */
  lemma FlushLive(s: Session)
    requires s.written % PAGE == 0 && 0 < |s.page| <= PAGE && s.written + |s.page| <= SLOT1_SIZE
    requires Blank(s.chip.mem, s.written, SLOT1_SIZE)
    ensures var r := Flush(s);
            && (r.1 <==> |s.page| <= Good(s.chip))
            && r.0.chip.mem[..s.written] == s.chip.mem[..s.written]
            && r.0.page == [] && r.0 == s.(chip := r.0.chip, page := [])
            && Blank(r.0.chip.mem, s.written + |s.page|, SLOT1_SIZE)
            && (r.1 ==> r.0.chip.mem[..s.written + |s.page|] == Accepted(s))
  {
    var k := Min(s.chip.fuse, |s.page|);
    FlashPage(s.chip.mem, s.written, s.page[..k]);
    if k == |s.page| {
      assert s.page[..k] == s.page;
    }
  }

  /** What a failed device step leaves: nothing buffered, a prefix on flash. */
  predicate Broken(s: Session, all: seq<Byte>) {
    && s.active && s.failed && s.page == []
    && s.written <= s.total <= SLOT1_SIZE
    && Accepted(s) <= all
    && Blank(s.chip.mem, s.total, SLOT1_SIZE)
  }

  /** One full page on its way to the flash. */
  lemma FullPage(s: Session, n: nat, data: seq<Byte>)
    requires Live(s) && 0 < n <= |data| && |s.page| + n == PAGE && s.written + PAGE <= s.total
    ensures var r := Flush(s.(page := s.page + data[..n]));
            var next := r.0.(written := s.written + PAGE);
            if r.1 then Live(next) && Accepted(next) == Accepted(s) + data[..n] && next.total == s.total
            else Broken(r.0.(failed := true), Accepted(s) + data) && r.0.total == s.total
  {
    FlushLive(s.(page := s.page + data[..n]));
    assert s.chip.mem[..s.written] + (s.page + data[..n]) == Accepted(s) + data[..n];
  }

  /** The outcome of a write after which `all` should have been accepted. */
  predicate Outcome(r: (Session, bool), total: nat, all: seq<Byte>) {
    r.0.total == total && if r.1 then Live(r.0) && Accepted(r.0) == all else Broken(r.0, all)
  }

  lemma Buffered(s: Session, data: seq<Byte>)
    requires Live(s) && |s.page| + |data| < PAGE && s.written + |s.page| + |data| <= s.total
    ensures Put(s, data) == (s.(page := s.page + data), true)
    ensures Outcome(Put(s, data), s.total, Accepted(s) + data)
  {
    assert data[..|data|] == data && s.page + [] == s.page;
    assert Accepted(s.(page := s.page + data)) == Accepted(s) + data;
  }

  /** `write` on a live session takes all the data in order, or the device
      failed and a prefix is on the flash. */
  lemma {:induction false} PutLive(s: Session, data: seq<Byte>)
    requires Live(s) && s.written + |s.page| + |data| <= s.total
    ensures Outcome(Put(s, data), s.total, Accepted(s) + data)
    decreases |data|
  {
    if |s.page| + |data| < PAGE {
      Buffered(s, data);
    } else {
      var n := PAGE - |s.page|;
      FullPage(s, n, data);
      var r := Flush(s.(page := s.page + data[..n]));
      if r.1 {
        var next := r.0.(written := s.written + PAGE);
        PutLive(next, data[n..]);
        assert Put(s, data) == Put(next, data[n..]);
        assert Accepted(s) + data == Accepted(next) + data[n..] by {
          assert data == data[..n] + data[n..];
        }
      } else {
        assert Put(s, data) == (r.0.(failed := true), false);
      }
    }
  }

  /** Every page program fits its page, so only the device can refuse one. */
  lemma {:induction false} PutSucceeds(s: Session, data: seq<Byte>)
    requires Live(s) && s.written + |s.page| + |data| <= s.total && |s.page| + |data| <= Good(s.chip)
    ensures Put(s, data).1
    ensures Good(Put(s, data).0.chip) + |s.page| + |data| == Good(s.chip) + |Put(s, data).0.page|
    decreases |data|
  {
    if |s.page| + |data| < PAGE {
      Buffered(s, data);
    } else {
      var n := PAGE - |s.page|;
      FullPage(s, n, data);
      FlushLive(s.(page := s.page + data[..n]));
      var next := Flush(s.(page := s.page + data[..n])).0.(written := s.written + PAGE);
      PutSucceeds(next, data[n..]);
      assert Put(s, data) == Put(next, data[n..]);
    }
  }

  lemma FlushKeeps(s: Session)
    ensures var r := Flush(s).0;
            && r.total == s.total && r.written == s.written && r.chip.readable == s.chip.readable
            && (r.page == [] || r.page == s.page)
  {
  }

  /** Whatever becomes of a write, the total stays, no more is counted than was given,
      and the chip can be read as before. */
  lemma {:induction false} PutKeeps(s: Session, data: seq<Byte>)
    requires |s.page| < PAGE
    ensures var r := Put(s, data).0;
            && r.total == s.total && r.chip.readable == s.chip.readable
            && r.written + |r.page| <= s.written + |s.page| + |data|
    decreases |data|
  {
    if data != [] && |s.page| + |data| >= PAGE {
      var n := PAGE - |s.page|;
      var r := Flush(s.(page := s.page + data[..n]));
      FlushKeeps(s.(page := s.page + data[..n]));
      if r.1 {
        PutKeeps(r.0.(written := s.written + PAGE), data[n..]);
      }
    }
  }

  /** A write never reaches beyond the announced size, whatever fails. */
  lemma PutBehind(s: Session, data: seq<Byte>)
    requires Live(s) && s.written + |s.page| + |data| <= s.total
    ensures Blank(Put(s, data).0.chip.mem, s.total, SLOT1_SIZE)
  {
    PutLive(s, data);
  }

  /* ---- starting and giving up ---- */

  /** `start`: 0, -1 (size or device), -2 (key hash) or -3 (busy). */
  function Start(s: Session, total: nat, keyhash: Option<seq<Byte>>): (Session, int) {
    if s.active then (s, -3)
    else if total < 64 || total > SLOT1_SIZE then (s, -1)
    else if keyhash.Some? && keyhash.value != FW_KEYHASH then (s, -2)
    else
      var r := EraseTo(s.chip, 0, SLOT1_SIZE);
      if r.1 then (Session(r.0, true, false, total, 0, []), 0) else (s.(chip := r.0), -1)
  }

  function Abort(s: Session): Session {
    s.(active := false, failed := false, page := [], written := 0)
  }

  /** A started session has a clean slot and has accepted nothing. */
  lemma StartLive(s: Session, total: nat, keyhash: Option<seq<Byte>>)
    requires Start(s, total, keyhash).1 == 0
    ensures Live(Start(s, total, keyhash).0) && Accepted(Start(s, total, keyhash).0) == []
    ensures Start(s, total, keyhash).0.chip.mem[SLOT1_SIZE..] == s.chip.mem[SLOT1_SIZE..]
  {
    SlotCleared(s.chip, SLOT1_SIZE);
    WipedBlank(s.chip.mem, 0, SLOT1_SIZE);
  }

  /** The checks `start` makes before it erases. */
  predicate Admits(s: Session, total: nat, keyhash: Option<seq<Byte>>) {
    !s.active && 64 <= total <= SLOT1_SIZE && (keyhash.None? || keyhash.value == FW_KEYHASH)
  }

  const SLOT1_BLOCKS: nat := 7

  lemma LargeBlock(addr: nat, len: nat)
    requires Sectors(addr, len) && addr % 0x1_0000 == 0 && len >= 0x1_0000
    ensures Sectors(addr + 0x1_0000, len - 0x1_0000)
    ensures BlockCount(addr, len) == 1 + BlockCount(addr + 0x1_0000, len - 0x1_0000)
  {
    assert Block(addr, len) == 0x1_0000;
    CountStep(addr, len, 0x1_0000);
  }

  /** The slot is erased by seven commands from its start. */
  lemma SlotBlocks(len: nat)
    requires len == SLOT1_SIZE
    ensures Sectors(0, len) && BlockCount(0, len) == SLOT1_BLOCKS
  {
    LargeBlock(0, len);
    LargeBlock(0x1_0000, len - 0x1_0000);
    LargeBlock(0x2_0000, len - 0x2_0000);
    LargeBlock(0x3_0000, len - 0x3_0000);
    LargeBlock(0x4_0000, len - 0x4_0000);
    LargeBlock(0x5_0000, len - 0x5_0000);
    LargeBlock(0x6_0000, len - 0x6_0000);
  }

  lemma SlotCleared(c: Chip, len: nat)
    requires len == SLOT1_SIZE && EraseTo(c, 0, len).1
    ensures EraseTo(c, 0, len).0.mem == Wiped(c.mem, 0, len)
  {
    SlotBlocks(len);
    var d := EraseCut(c, 0, len, SLOT1_BLOCKS);
  }

  // What `start` makes of its erase.
  lemma StartAdmitted(s: Session, total: nat, keyhash: Option<seq<Byte>>, len: nat)
    requires Admits(s, total, keyhash) && len == SLOT1_SIZE
    ensures var e := EraseTo(s.chip, 0, len); var r := Start(s, total, keyhash);
            (r.1 == 0 <==> e.1) && (!e.1 ==> r.0 == s.(chip := e.0))
  {
  }

  /** An admitted start succeeds exactly when all of them are reported as done.
      Otherwise a leading part of the slot is wiped: all of it if the device carried
      out all of them, none of it if it carried out none. */
  lemma StartErases(s: Session, total: nat, keyhash: Option<seq<Byte>>, len: nat) returns (d: nat)
    requires Admits(s, total, keyhash) && len == SLOT1_SIZE
    ensures Start(s, total, keyhash).1 == 0 <==> Good(s.chip) >= SLOT1_BLOCKS
    ensures d <= len && (d == 0 <==> s.chip.fuse == 0)
    ensures if s.chip.fuse < SLOT1_BLOCKS then d + SECTOR_SIZE <= len else d == len
    ensures Good(s.chip) < SLOT1_BLOCKS ==>
              var r := Start(s, total, keyhash).0;
              r == s.(chip := r.chip) && r.chip.mem == Wiped(s.chip.mem, 0, d)
  {
    SlotBlocks(len);
    d := EraseCut(s.chip, 0, len, SLOT1_BLOCKS);
    StartAdmitted(s, total, keyhash, len);
  }

  /** The answers of `start`: it begins a session if and only if none is running, the size
      is 64 bytes to the whole slot, the key hash is left out or the device's, and all
      erase commands are reported as done.  A running session is never disturbed, and a
      refused start changes nothing. */
  lemma StartIff(s: Session, total: nat, keyhash: Option<seq<Byte>>)
    ensures var r := Start(s, total, keyhash);
            var sized := 64 <= total <= 0x7_0000; var ours := keyhash.None? || keyhash.value == FW_KEYHASH;
            && (r.1 == 0 <==> !s.active && sized && ours && Good(s.chip) >= 7)
            && (r.1 == -3 <==> s.active)
            && (r.1 == -2 <==> !s.active && sized && !ours)
            && (r.1 == -1 <==> !s.active && (!sized || (ours && Good(s.chip) < 7)))
            && (!(!s.active && sized && ours) ==> r.0 == s)
            && (r.1 != 0 ==> r.0 == s.(chip := r.0.chip))
            && (r.1 == 0 ==> ReportedTotal(r.0) == total && Received(r.0) == 0)
  {
    if Admits(s, total, keyhash) {
      var d := StartErases(s, total, keyhash, SLOT1_SIZE);
    }
  }

  /** Data past the announced size is refused and fails the session. */
  lemma WriteIff(s: Session, data: seq<Byte>)
    requires Live(s)
    ensures var r := Write(s, data); var fits := |Accepted(s)| + |data| <= s.total;
            && (r.1 ==> fits && Live(r.0) && Accepted(r.0) == Accepted(s) + data)
            && (!fits ==> r == (s.(failed := true), false))
            && (fits && |s.page| + |data| <= Good(s.chip) ==> r.1)
  {
    if |Accepted(s)| + |data| <= s.total {
      PutLive(s, data);
      if |s.page| + |data| <= Good(s.chip) { PutSucceeds(s, data); }
    }
  }

  /** A failed session takes nothing more and cannot be finished; neither can one that
      was never started or was given up. */
  lemma FailedStays(s: Session, data: seq<Byte>, crc: Option<Words.Word>)
    requires |s.page| < PAGE && s.total <= SLOT1_SIZE && (s.failed || !s.active)
    ensures Write(s, data) == (s, false) && !Finish(s, crc).1 && Finish(s, crc).0 == s.(active := false)
  {
  }

  /** Giving up forgets what was received, leaves the flash, and clears the way for the
      next start. */
  lemma AbortClears(s: Session, total: nat)
    requires 64 <= total <= SLOT1_SIZE && Good(s.chip) >= 7
    ensures var a := Abort(s);
            && !a.active && a.written + |a.page| == 0 && a.chip == s.chip && a.total == s.total
            && Start(a, total, None).1 == 0 && Live(Start(a, total, None).0)
  {
    StartIff(Abort(s), total, None);
    StartLive(Abort(s), total, None);
  }

  /* ---- finishing ---- */

  const HDR_SIZE: nat := 0x200
  const IMAGE_MAGIC: nat := 0x96F3_B83D
  const TLV_READ: nat := 512

  type Slot1 = m: seq<Byte> | |m| == 0x7_0000 witness Ones(0x7_0000)

  /** `image_tlv_pos`: where the header says the TLV block starts. */
  function TlvOffset(hdr: seq<Byte>): Option<U32> {
    if |hdr| < 16 then None
    else if Num32(hdr[..4]) != IMAGE_MAGIC then None
    else if Num16(hdr[8..10]) != HDR_SIZE then None
    else
      var off := Wrap32(HDR_SIZE + Num32(hdr[12..16]));
      if off % 4 != 0 then None else Some(off)
  }

  /** The slot's TLV block carries this device's key hash. */
  predicate TlvOk(slot: Slot1) {
    var off := TlvOffset(slot[..32]);
    && off.Some? && off.value + 4 <= SLOT1_SIZE
    && KeyhashInTlv(slot[off.value..off.value + Min(TLV_READ, SLOT1_SIZE - off.value)]) == Some(FW_KEYHASH)
  }

  /** The upgrade protocol's CRC-16 of an image. */
  function ImageCrc(image: seq<Byte>): Words.Word {
    Crc.Crc(Crc.CCITT, {}, Crc.ToWords(image))
  }

  function SlotOf(mem: Memory): Slot1 {
    mem[..SLOT1_SIZE]
  }

  lemma LowByte(b: seq<Byte>)
    requires |b| == 4
    ensures Num32(b) % 256 == b[0]
  {
  }

  /** A slot with a TLV block starts with the header magic. */
  lemma HeaderByte(slot: Slot1)
    requires TlvOk(slot)
    ensures slot[0] == 0x3D
  {
    LowByte(slot[..32][..4]);
  }

  /** What `finish` demands of the flash. */
  predicate Verified(c: Chip, total: nat, crc: Option<Words.Word>)
    requires total <= SLOT1_SIZE
  {
    && c.readable
    && (crc.None? || crc.value == ImageCrc(c.mem[..total]))
    && TlvOk(SlotOf(c.mem))
  }

  function Finish(s: Session, crc: Option<Words.Word>): (Session, bool)
    requires s.total <= SLOT1_SIZE
  {
    if !s.active then (s, false)
    else
      var s1 := s.(active := false);
      if s.failed then (s1, false)
      else
        var f := Flush(s1);
        if !f.1 then (f.0, false)
        else
          var s2 := f.0.(written := s.written + |s.page|);
          (s2, s2.written == s2.total && Verified(s2.chip, s2.total, crc))
  }

  // The last flush puts everything accepted on the flash.
  lemma LastFlush(s: Session)
    requires Live(s)
    ensures var f := Flush(s.(active := false));
            && (f.1 <==> |s.page| <= Good(s.chip))
            && Blank(f.0.chip.mem, s.written + |s.page|, SLOT1_SIZE)
            && f.0 == s.(active := false, chip := f.0.chip, page := [])
            && (f.1 ==> f.0.chip.mem[..s.written + |s.page|] == Accepted(s)
                        && f.0.chip.readable == s.chip.readable)
  {
    if s.page != [] {
      FlushLive(s.(active := false));
    } else {
      assert Accepted(s) == s.chip.mem[..s.written];
    }
  }

  /** The slot as a complete image leaves it. */
  function Padded1(image: seq<Byte>): Slot1
    requires |image| <= SLOT1_SIZE
  {
    image + Ones(SLOT1_SIZE - |image|)
  }

  lemma SlotFilled(mem: Memory, image: seq<Byte>)
    requires |image| <= SLOT1_SIZE && mem[..|image|] == image && Blank(mem, |image|, SLOT1_SIZE)
    ensures SlotOf(mem) == Padded1(image)
  {
    var a, b := SlotOf(mem), Padded1(image);
    forall i | 0 <= i < SLOT1_SIZE ensures a[i] == b[i] {
      if i < |image| {
        assert mem[..|image|][i] == image[i];
      }
    }
  }

  /** `finish` succeeds exactly when the whole announced image was accepted, its
      tail could be flushed, the flash can be read back, the CRC (when given) is
      that of the accepted bytes and the image carries the key hash; then the
      flash holds exactly the accepted bytes and is erased behind them. */
  lemma FinishIff(s: Session, crc: Option<Words.Word>)
    requires Live(s)
    ensures var r := Finish(s, crc);
            && (r.1 <==> && |Accepted(s)| == s.total && |s.page| <= Good(s.chip) && s.chip.readable
                         && (crc.None? || crc.value == ImageCrc(Accepted(s)))
                         && TlvOk(Padded1(Accepted(s))))
            && (r.1 ==> r.0.chip.mem[..s.total] == Accepted(s) && Blank(r.0.chip.mem, s.total, SLOT1_SIZE)
                        && !r.0.active)
  {
    LastFlush(s);
    var f := Flush(s.(active := false));
    if f.1 && |Accepted(s)| == s.total {
      SlotFilled(f.0.chip.mem, Accepted(s));
    }
  }

  /** What `received()` and `total()` report. */
  function Received(s: Session): nat {
    s.written + |s.page|
  }

  function ReportedTotal(s: Session): nat {
    if s.active then s.total else 0
  }

  /** After `finish` the total always reads zero.  The count does if and only if
      nothing was flashed and nothing is buffered, or the buffered page, all there
      is, was lost because the device stopped while it was flushed.  Every session
      a run can reach is live, failed or idle. */
  lemma CountAfterFinishIff(s: Session, crc: Option<Words.Word>)
    requires s.total <= SLOT1_SIZE && (s.active && !s.failed ==> Live(s))
    ensures ReportedTotal(Finish(s, crc).0) == 0
    ensures Received(Finish(s, crc).0) == 0 <==>
              s.written == 0 && (s.page == [] || (s.active && !s.failed && Good(s.chip) < |s.page|))
  {
    if s.active && !s.failed {
      LastFlush(s);
    }
  }

  /** A start, 64 bytes and a finish, whatever it answers: the count still reads 64. */
  lemma CountSurvives(s: Session, data: seq<Byte>, crc: Option<Words.Word>)
    requires |data| == 64 && Start(s, 64, None).1 == 0 && Good(Start(s, 64, None).0.chip) >= 64
    ensures Received(Finish(Write(Start(s, 64, None).0, data).0, crc).0) == 64
  {
    var s1 := Start(s, 64, None).0;
    StartLive(s, 64, None);
    Buffered(s1, data);
    LastFlush(Write(s1, data).0);
  }
}
