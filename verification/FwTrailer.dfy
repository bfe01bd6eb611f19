/** The MCUboot trailer at the end of slot 1, written by `boot_set_pending`. */
module FwTrailer {
  import opened Bytes
  import opened Nor
  import opened FwUpgrade
  import opened Tlv
  import Words

  const BOOT_MAGIC: seq<Byte> := [
    0x77, 0xc2, 0x95, 0xf3, 0x60, 0xd2, 0xef, 0x7f, 0x35, 0x52, 0x50, 0x0f, 0x2c, 0xb6, 0x79, 0x80]

  const FLAG_SET: Byte := 1
  const SWAP_TEST: Byte := 2
  const SWAP_PERM: Byte := 3

  const MAGIC_OFF: nat := SLOT1_SIZE - 16
  const IMAGE_OK_OFF: nat := (SLOT1_SIZE - 16 - 8) / 8 * 8
  const COPY_DONE_OFF: nat := IMAGE_OK_OFF - 8
  const SWAP_INFO_OFF: nat := COPY_DONE_OFF - 8

  function Flag(f: Byte): (r: seq<Byte>)
    ensures |r| == 8
  {
    [f, 0xFF, 0xFF, 0xFF, 0xFF, 0xFF, 0xFF, 0xFF]
  }

  function SwapType(permanent: bool): Byte {
    if permanent then SWAP_PERM else SWAP_TEST
  }

  /** Magic, then image_ok when permanent, then swap_info; stops at a failure. */
  function SetPending(c: Chip, permanent: bool): (Chip, bool) {
    var m := WriteTo(c, MAGIC_OFF, BOOT_MAGIC);
    if !m.1 then m
    else
      var k := if permanent then WriteTo(m.0, IMAGE_OK_OFF, Flag(FLAG_SET)) else m;
      if !k.1 then k else WriteTo(k.0, SWAP_INFO_OFF, Flag(SwapType(permanent)))
  }

  /** What the boot loader reads as a pending upgrade of this kind: the last 16 bytes of
      the slot are the magic, and before it stand the image-ok flag, 1 or erased, the
      copy-done flag, which is erased, and the swap type, 3 for good or 2 for a test. */
  predicate ReadsBack(mem: Memory, permanent: bool) {
    && mem[0x6_FFF0..0x7_0000] == BOOT_MAGIC
    && mem[0x6_FFE8] == (if permanent then 1 else ERASED) && Blank(mem, 0x6_FFE9, 0x6_FFF0)
    && Blank(mem, 0x6_FFE0, 0x6_FFE8)
    && mem[0x6_FFD8] == (if permanent then 3 else 2) && Blank(mem, 0x6_FFD9, 0x6_FFE0)
  }

  /* ---- one write ---- */

  lemma WriteBlank(c: Chip, at: nat, data: seq<Byte>)
    requires 0 < |data| && at % PAGE_SIZE + |data| <= PAGE_SIZE && at + |data| <= SLOT1_SIZE
    requires Blank(c.mem, at, at + |data|) && |data| <= Good(c)
    ensures var r := WriteTo(c, at, data);
            && r.1 && Good(r.0) == Good(c) - |data|
            && r.0.mem[at..at + |data|] == data
            && (forall i :: 0 <= i < CHIP_SIZE && !(at <= i < at + |data|) ==> r.0.mem[i] == c.mem[i])
  {
    assert data[..|data|] == data;
    ProgramBlank(c.mem, at, data);
    ProgramFrame(c.mem, at, data);
  }

  lemma WriteFrame(c: Chip, at: nat, data: seq<Byte>)
    requires at + |data| <= SLOT1_SIZE
    ensures forall i :: 0 <= i < CHIP_SIZE && !(at <= i < at + |data|) ==> WriteTo(c, at, data).0.mem[i] == c.mem[i]
  {
    if data != [] {
      ProgramFrame(c.mem, at, data[..Min(c.fuse, |data|)]);
    }
  }

  /** Nothing below the trailer moves, even when a write fails. */
  lemma TrailerFrame(c: Chip, permanent: bool)
    ensures SetPending(c, permanent).0.mem[..SWAP_INFO_OFF] == c.mem[..SWAP_INFO_OFF]
  {
    var m := WriteTo(c, MAGIC_OFF, BOOT_MAGIC);
    var k := if permanent then WriteTo(m.0, IMAGE_OK_OFF, Flag(FLAG_SET)) else m;
    WriteFrame(c, MAGIC_OFF, BOOT_MAGIC);
    WriteFrame(m.0, IMAGE_OK_OFF, Flag(FLAG_SET));
    WriteFrame(k.0, SWAP_INFO_OFF, Flag(SwapType(permanent)));
  }

  lemma MagicFirst(c: Chip)
    requires Blank(c.mem, SWAP_INFO_OFF, SLOT1_SIZE) && 16 <= Good(c)
    ensures var m := WriteTo(c, MAGIC_OFF, BOOT_MAGIC).0;
            && m.mem[MAGIC_OFF..MAGIC_OFF + 16] == BOOT_MAGIC && Blank(m.mem, SWAP_INFO_OFF, MAGIC_OFF)
            && Good(m) == Good(c) - 16
  {
    WriteBlank(c, MAGIC_OFF, BOOT_MAGIC);
  }

  lemma FlagsAfter(m: Chip, ok: bool, ty: Byte)
    requires m.mem[MAGIC_OFF..MAGIC_OFF + 16] == BOOT_MAGIC && Blank(m.mem, SWAP_INFO_OFF, MAGIC_OFF)
    requires Good(m) >= if ok then 16 else 8
    ensures var k := if ok then WriteTo(m, IMAGE_OK_OFF, Flag(FLAG_SET)).0 else m;
            var e := WriteTo(k, SWAP_INFO_OFF, Flag(ty)).0.mem;
            && e[MAGIC_OFF..MAGIC_OFF + 16] == BOOT_MAGIC
            && e[IMAGE_OK_OFF..IMAGE_OK_OFF + 8] == (if ok then Flag(FLAG_SET) else Ones(8))
            && e[SWAP_INFO_OFF..SWAP_INFO_OFF + 8] == Flag(ty) && Blank(e, COPY_DONE_OFF, IMAGE_OK_OFF)
  {
    if ok {
      WriteBlank(m, IMAGE_OK_OFF, Flag(FLAG_SET));
    }
    var k := if ok then WriteTo(m, IMAGE_OK_OFF, Flag(FLAG_SET)).0 else m;
    WriteBlank(k, SWAP_INFO_OFF, Flag(ty));
    var e := WriteTo(k, SWAP_INFO_OFF, Flag(ty)).0.mem;
    assert e[MAGIC_OFF..MAGIC_OFF + 16] == m.mem[MAGIC_OFF..MAGIC_OFF + 16];
    assert e[IMAGE_OK_OFF..IMAGE_OK_OFF + 8] == k.mem[IMAGE_OK_OFF..IMAGE_OK_OFF + 8];
  }

  /** On an erased trailer area a successful call reads back as written. */
  lemma TrailerReadsBack(c: Chip, permanent: bool)
    requires Blank(c.mem, SWAP_INFO_OFF, SLOT1_SIZE) && SetPending(c, permanent).1
    ensures ReadsBack(SetPending(c, permanent).0.mem, permanent)
  {
    MagicFirst(c);
    FlagsAfter(WriteTo(c, MAGIC_OFF, BOOT_MAGIC).0, permanent, SwapType(permanent));
    TrailerBytes(SetPending(c, permanent).0.mem, permanent);
  }

  lemma TrailerBytes(e: Memory, permanent: bool)
    requires e[MAGIC_OFF..MAGIC_OFF + 16] == BOOT_MAGIC && Blank(e, COPY_DONE_OFF, IMAGE_OK_OFF)
    requires e[IMAGE_OK_OFF..IMAGE_OK_OFF + 8] == (if permanent then Flag(FLAG_SET) else Ones(8))
    requires e[SWAP_INFO_OFF..SWAP_INFO_OFF + 8] == Flag(SwapType(permanent))
    ensures ReadsBack(e, permanent)
  {
    var ok, ty := e[IMAGE_OK_OFF..IMAGE_OK_OFF + 8], e[SWAP_INFO_OFF..SWAP_INFO_OFF + 8];
    assert ok[0] == e[0x6_FFE8] && ty[0] == e[0x6_FFD8];
    forall i | 0x6_FFE9 <= i < 0x6_FFF0 ensures e[i] == ERASED { assert e[i] == ok[i - 0x6_FFE8]; }
    forall i | 0x6_FFD9 <= i < 0x6_FFE0 ensures e[i] == ERASED { assert e[i] == ty[i - 0x6_FFD8]; }
  }

  lemma ShorterPrefix(a: seq<Byte>, b: seq<Byte>, k: nat, n: nat)
    requires n <= k <= |a| && k <= |b| && a[..k] == b[..k]
    ensures a[..n] == b[..n]
  {
    assert a[..n] == a[..k][..n] && b[..n] == b[..k][..n];
  }

  /** After a verified `finish` of an image that stays below the trailer, a
      successful call leaves image and trailer intact. */
  lemma TrailerIntact(s: Session, crc: Option<Words.Word>, permanent: bool)
    requires Live(s) && s.total <= SWAP_INFO_OFF && Finish(s, crc).1
    requires SetPending(Finish(s, crc).0.chip, permanent).1
    ensures ReadsBack(SetPending(Finish(s, crc).0.chip, permanent).0.mem, permanent)
    ensures SetPending(Finish(s, crc).0.chip, permanent).0.mem[..s.total] == Accepted(s)
  {
    FinishIff(s, crc);
    var c := Finish(s, crc).0.chip;
    TrailerReadsBack(c, permanent);
    TrailerFrame(c, permanent);
    ShorterPrefix(SetPending(c, permanent).0.mem, c.mem, SWAP_INFO_OFF, s.total);
  }

  /* ---- images that reach into the trailer ---- */

  const HEADER: seq<Byte> := [0x3D, 0xB8, 0xF3, 0x96, 0, 0, 0, 0, 0, 2, 0, 0, 0, 0, 0, 0]

  /** A minimal image: header, TLV block with the key hash, zeros to the end. */
  function ZeroImage(total: nat): (r: seq<Byte>)
    requires total >= 0x228
    ensures |r| == total
  {
    HEADER + Zeros(0x200 - 16) + KeyBlock() + Zeros(total - 0x228)
  }

  function KeyBlock(): (r: seq<Byte>)
    ensures |r| == 40
  {
    EncodeBlock([Entry(1, FW_KEYHASH, [])])
  }

  lemma HeaderParts(h: seq<Byte>)
    requires |h| >= 16 && h[..16] == HEADER
    ensures TlvOffset(h) == Some(0x200)
  {
    assert h[..4] == h[..16][..4] && h[8..10] == h[..16][8..10] && h[12..16] == h[..16][12..16];
    assert Num16(HEADER[..4][..2]) == 0xB83D && Num16(HEADER[..4][2..]) == 0x96F3;
    assert Num16(HEADER[12..16][..2]) == 0 && Num16(HEADER[12..16][2..]) == 0;
  }

  lemma MiddlePart(a: seq<Byte>, k: seq<Byte>, b: seq<Byte>, t: seq<Byte>)
    requires |t| <= |k| + |b| && |k| <= |t| && t == (a + k + b)[|a|..|a| + |t|]
    ensures t == k + t[|k|..]
  {
  }

  lemma ZeroImageOk(total: nat)
    requires 0x228 <= total <= SLOT1_SIZE
    ensures TlvOk(Padded1(ZeroImage(total)))
    ensures total > SWAP_INFO_OFF ==> ZeroImage(total)[SWAP_INFO_OFF] == 0
  {
    var slot := Padded1(ZeroImage(total));
    assert slot[..32][..16] == HEADER;
    HeaderParts(slot[..32]);
    var t := slot[0x200..0x400];
    var front, back := HEADER + Zeros(0x200 - 16), Zeros(total - 0x228) + Ones(SLOT1_SIZE - total);
    assert slot == front + KeyBlock() + back;
    MiddlePart(front, KeyBlock(), back, t);
    WalkFindsKeyhash([Entry(1, FW_KEYHASH, [])], t[40..]);
  }

  /** The same with an end that is erased bytes where the trailer will be. */
  function LongImage(total: nat): (r: seq<Byte>)
    requires SWAP_INFO_OFF < total <= SLOT1_SIZE
    ensures |r| == total && r[SWAP_INFO_OFF] == ERASED
  {
    ZeroImage(SWAP_INFO_OFF) + Ones(total - SWAP_INFO_OFF)
  }

  lemma LongImageOk(total: nat)
    requires SWAP_INFO_OFF < total <= SLOT1_SIZE
    ensures TlvOk(Padded1(LongImage(total)))
  {
    ZeroImageOk(SWAP_INFO_OFF);
    SamePadding(ZeroImage(SWAP_INFO_OFF), total - SWAP_INFO_OFF);
  }

  lemma SamePadding(image: seq<Byte>, n: nat)
    requires |image| + n <= SLOT1_SIZE
    ensures Padded1(image + Ones(n)) == Padded1(image)
  {
    assert Ones(n) + Ones(SLOT1_SIZE - |image| - n) == Ones(SLOT1_SIZE - |image|);
  }

  /** A device that is given enough steps takes every image. */
  const PLENTY: nat := 3 * SLOT1_SIZE

  function Loaded(s0: Session, image: seq<Byte>): Session
    requires |s0.page| < PAGE
  {
    Write(Start(s0, |image|, None).0, image).0
  }

  /** From an idle session: start, write the image, and all of it is accepted. */
  lemma ImageReceived(s0: Session, image: seq<Byte>)
    requires !s0.active && |s0.page| < PAGE && s0.chip.readable && Good(s0.chip) >= PLENTY
    requires 64 <= |image| <= SLOT1_SIZE
    ensures Start(s0, |image|, None).1 == 0 && Write(Start(s0, |image|, None).0, image).1
    ensures var s := Loaded(s0, image);
            Live(s) && Accepted(s) == image && s.total == |image| && s.chip.readable && Good(s.chip) >= SLOT1_SIZE
  {
    EraseSucceeds(s0.chip, 0, SLOT1_SIZE);
    var s1 := Start(s0, |image|, None).0;
    StartLive(s0, |image|, None);
    PutLive(s1, image);
    PutSucceeds(s1, image);
    PutKeeps(s1, image);
    assert [] + image == image;
  }

  // A cleared byte stays cleared.
  lemma StaysZero(c: Chip, at: nat, data: seq<Byte>, i: nat)
    requires at + |data| <= SLOT1_SIZE && i < CHIP_SIZE && c.mem[i] == 0
    ensures WriteTo(c, at, data).0.mem[i] == 0
  {
    if data != [] {
      ProgrammedAt(c.mem, at, data[..Min(c.fuse, |data|)], i);
    }
  }

  lemma SpoiledTrailer(c: Chip, permanent: bool)
    requires c.mem[SWAP_INFO_OFF] == 0
    ensures !ReadsBack(SetPending(c, permanent).0.mem, permanent)
  {
    var m := WriteTo(c, MAGIC_OFF, BOOT_MAGIC);
    var k := if permanent then WriteTo(m.0, IMAGE_OK_OFF, Flag(FLAG_SET)) else m;
    StaysZero(c, MAGIC_OFF, BOOT_MAGIC, SWAP_INFO_OFF);
    StaysZero(m.0, IMAGE_OK_OFF, Flag(FLAG_SET), SWAP_INFO_OFF);
    StaysZero(k.0, SWAP_INFO_OFF, Flag(SwapType(permanent)), SWAP_INFO_OFF);
    var e := SetPending(c, permanent).0.mem;
    assert e[SWAP_INFO_OFF..SWAP_INFO_OFF + 8][0] == 0;
  }

  lemma PendingReports(c: Chip, permanent: bool)
    requires Good(c) >= 32
    ensures SetPending(c, permanent).1
  {
  }

  lemma FinishFuse(s: Session, crc: Option<Words.Word>)
    requires Live(s) && Finish(s, crc).1
    ensures Good(Finish(s, crc).0.chip) == Good(s.chip) - |s.page|
  {
  }

  /** For every size beyond the swap-info word there is an image which any idle
      session on a working device starts, takes, verifies and marks, and whose
      trailer is then not there. */
  lemma TrailerSpoiled(s0: Session, total: nat, permanent: bool)
    requires SWAP_INFO_OFF < total <= SLOT1_SIZE
    requires !s0.active && |s0.page| < PAGE && s0.chip.readable && Good(s0.chip) >= PLENTY
    ensures Start(s0, total, None).1 == 0 && Write(Start(s0, total, None).0, ZeroImage(total)).1
    ensures var s := Loaded(s0, ZeroImage(total));
            && Live(s) && s.total == total && Finish(s, None).1
            && SetPending(Finish(s, None).0.chip, permanent).1
            && !ReadsBack(SetPending(Finish(s, None).0.chip, permanent).0.mem, permanent)
  {
    var image := ZeroImage(total);
    ImageReceived(s0, image);
    var s := Loaded(s0, image);
    ZeroImageOk(total);
    FinishIff(s, None);
    FinishFuse(s, None);
    var c := Finish(s, None).0.chip;
    assert c.mem[..total][SWAP_INFO_OFF] == 0;
    SpoiledTrailer(c, permanent);
    PendingReports(c, permanent);
  }

  predicate KeepsTrailer(s: Session, crc: Option<Words.Word>, permanent: bool)
    requires s.total <= SLOT1_SIZE
  {
    var c := Finish(s, crc);
    Live(s) && c.1 && SetPending(c.0.chip, permanent).1 ==> ReadsBack(SetPending(c.0.chip, permanent).0.mem, permanent)
  }

  /** The trailer survives for every image of a size if and only if that size
      ends at or before the swap-info word, although `start` admits the whole slot. */
  lemma TrailerIff(total: nat)
    requires 64 <= total <= SLOT1_SIZE
    ensures (forall s: Session, crc, permanent :: s.total == total ==> KeepsTrailer(s, crc, permanent))
            <==> total <= SWAP_INFO_OFF
  {
    if total <= SWAP_INFO_OFF {
      forall s: Session, crc, permanent | s.total == total ensures KeepsTrailer(s, crc, permanent) {
        if Live(s) && Finish(s, crc).1 && SetPending(Finish(s, crc).0.chip, permanent).1 {
          TrailerIntact(s, crc, permanent);
        }
      }
    } else {
      var s0 := Session(Chip(Ones(CHIP_SIZE), PLENTY, false, true), false, false, 0, 0, []);
      TrailerSpoiled(s0, total, true);
      assert !KeepsTrailer(Loaded(s0, ZeroImage(total)), None, true);
    }
  }
}
