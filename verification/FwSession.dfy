/** The upgrade session as the firmware runs it: shared fields, a page buffer
    and the flash, with the UDP command handler on top. */
module FwSession {
  import opened Bytes
  import opened Nor
  import opened FwUpgrade
  import opened FwTrailer
  import opened FwRuns
  import opened Tlv
  import Crc
  import Words

  // One turn of the page loop, unrolled.
  lemma PutFull(s: Session, data: seq<Byte>, n: nat)
    requires |s.page| < PAGE && n == PAGE - |s.page| && n <= |data|
    ensures var r := Flush(s.(page := s.page + data[..n]));
            Put(s, data) == if r.1 then Put(r.0.(written := s.written + PAGE), data[n..])
                            else (r.0.(failed := true), false)
  {
  }

  lemma PutShort(s: Session, data: seq<Byte>)
    requires data != [] && |s.page| + |data| < PAGE
    ensures Put(s, data) == (s.(page := s.page + data), true)
  {
    assert data[..|data|] == data;
  }

  lemma CrcChunk(a: seq<Byte>, b: seq<Byte>)
    ensures ImageCrc(a + b) == Crc.Crc(Crc.CCITT, ImageCrc(a), Crc.ToWords(b))
  {
    Crc.ToWordsConcat(a, b);
    Crc.CrcConcat(Crc.CCITT, {}, Crc.ToWords(a), Crc.ToWords(b));
  }

  lemma CrcWidth(a: seq<Byte>)
    ensures Words.Fits(ImageCrc(a), 16)
  {
    Crc.CrcFits(Crc.CCITT, 16, {}, Crc.ToWords(a));
  }

  // A wrapped sum can only pass the size test for an offset the chip refuses.
  lemma TlvBounds(off: U32)
    ensures Wrap32(off + 4) > SLOT1_SIZE ==> off + 4 > SLOT1_SIZE
    ensures off + 4 > SLOT1_SIZE >= Wrap32(off + 4) ==> off >= CHIP_SIZE
    ensures off + 4 <= SLOT1_SIZE ==> Wrap32(SLOT1_SIZE - off) == SLOT1_SIZE - off
  {
  }

  /** An upgrade command with a payload of acceptable length. */
  predicate WellFormed(cmd: Byte, payload: seq<Byte>) {
    || (cmd == 0x01 && |payload| >= 4)
    || (cmd == 0x02 && |payload| <= 511)
    || (cmd == 0x06 && |payload| >= 5)
    || (cmd == 0x03 && |payload| >= 3)
  }

  class Fw {
    const nor: W25q
    var active: bool
    var failed: bool
    var total: nat
    var written: nat
    var page: seq<Byte>
    var pageLen: nat

    ghost predicate Valid()
      reads this
    {
      |page| == PAGE && pageLen < PAGE && total <= SLOT1_SIZE && written + pageLen <= SLOT1_SIZE
    }

    ghost function State(): Session
      requires |page| == PAGE && pageLen <= PAGE
      reads this, nor
    {
      Session(nor.chip, active, failed, total, written, page[..pageLen])
    }

    constructor (n: W25q)
      ensures Valid() && nor == n && State() == Session(n.chip, false, false, 0, 0, [])
    {
      nor, active, failed, total, written, page, pageLen := n, false, false, 0, 0, Zeros(PAGE), 0;
    }

    method PageFlush() returns (ok: bool)
      requires |page| == PAGE && pageLen <= PAGE
      modifies this`pageLen, nor
      ensures |page| == PAGE && pageLen == 0
      ensures (State(), ok) == FwUpgrade.Flush(old(State()))
    {
      ok := true;
      if pageLen > 0 {
        ok := nor.Write(written, page[..pageLen]);
        pageLen := 0;
      }
    }

    method Start(size: nat, keyhash: Option<seq<Byte>>) returns (rc: int)
      requires Valid()
      modifies this, nor
      ensures Valid() && (State(), rc) == FwUpgrade.Start(old(State()), size, keyhash)
    {
      if active {
        return -3;
      }
      if size < 64 || size > SLOT1_SIZE {
        return -1;
      }
      if keyhash.Some? && keyhash.value != FW_KEYHASH {
        return -2;
      }
      var erased := nor.Erase(0, SLOT1_SIZE);
      if !erased {
        return -1;
      }
      active, failed, total, written, pageLen := true, false, size, 0, 0;
      rc := 0;
    }

    method Write(data: seq<Byte>) returns (ok: bool)
      requires Valid()
      modifies this, nor
      ensures Valid() && (State(), ok) == FwUpgrade.Write(old(State()), data)
    {
      if !active || failed {
        return false;
      }
      if written + pageLen + |data| > total {
        failed := true;
        return false;
      }
      PutKeeps(State(), data);
      ok := Fill(data);
    }

    /** One turn of the loop of `write`: top up the page, flush it when full. */
    method FillPage(data: seq<Byte>) returns (chunk: nat, ok: bool)
      requires Valid() && data != [] && written + pageLen + |data| <= total
      modifies this, nor
      ensures Valid() && total == old(total) && 0 < chunk <= |data|
      ensures written + pageLen + |data| - chunk <= total
      ensures if ok then Put(State(), data[chunk..]) == Put(old(State()), data)
              else (State(), false) == Put(old(State()), data)
    {
      ghost var before := State();
      var plen := pageLen;
      chunk := Min(PAGE - plen, |data|);
      page := page[..plen] + data[..chunk] + page[plen + chunk..];
      pageLen := plen + chunk;
      assert page[..pageLen] == before.page + data[..chunk];
      ok := true;
      if pageLen == PAGE {
        PutFull(before, data, chunk);
        ok := PageFlush();
        if ok {
          written := written + PAGE;
        } else {
          failed := true;
        }
      } else {
        assert data[..chunk] == data && data[chunk..] == [];
        PutShort(before, data);
      }
    }

    /** The chunk loop of `write`. */
    method Fill(data: seq<Byte>) returns (ok: bool)
      requires Valid() && written + pageLen + |data| <= total
      modifies this, nor
      ensures Valid() && (State(), ok) == Put(old(State()), data)
    {
      var rest := data;
      while rest != []
        invariant Valid() && written + pageLen + |rest| <= total
        invariant Put(State(), rest) == Put(old(State()), data)
        decreases |rest|
      {
        var chunk;
        chunk, ok := FillPage(rest);
        if !ok {
          return;
        }
        rest := rest[chunk..];
      }
      ok := true;
    }

    method Abort()
      requires Valid()
      modifies this
      ensures Valid() && State() == FwUpgrade.Abort(old(State()))
    {
      active, failed, pageLen, written := false, false, 0, 0;
    }

    /** The readback loop of `finish`: 64 bytes at a time. */
    method ReadBack(size: nat) returns (ok: bool, crc: Words.Word)
      requires size <= SLOT1_SIZE
      ensures ok <==> nor.chip.readable || size == 0
      ensures ok ==> crc == ImageCrc(nor.chip.mem[..size])
    {
      crc := {};
      var off := 0;
      while off < size
        invariant off <= size && crc == ImageCrc(nor.chip.mem[..off])
        invariant off > 0 ==> nor.chip.readable
      {
        var n := Min(size - off, 64);
        var got, buf := nor.Read(off, n);
        if !got {
          return false, crc;
        }
        CrcWidth(nor.chip.mem[..off]);
        CrcChunk(nor.chip.mem[..off], buf);
        assert nor.chip.mem[..off] + buf == nor.chip.mem[..off + n];
        crc := Crc.ParallelCrc16(crc, Crc.ToWords(buf));
        off := off + n;
      }
      ok := true;
    }

    /** `tlv_keyhash_ok`; the sums are the source's 32-bit ones. */
    method TlvKeyhashOk() returns (ok: bool)
      ensures ok <==> nor.chip.readable && TlvOk(SlotOf(nor.chip.mem))
    {
      var got, hdr := nor.Read(0, 32);
      if !got {
        return false;
      }
      assert hdr == SlotOf(nor.chip.mem)[..32];
      var pos := TlvOffset(hdr);
      if pos.None? {
        return false;
      }
      TlvBounds(pos.value);
      if Wrap32(pos.value + 4) > SLOT1_SIZE {
        return false;
      }
      ok := KeyhashAt(pos.value);
    }

    method KeyhashAt(off: U32) returns (ok: bool)
      requires Wrap32(off + 4) <= SLOT1_SIZE
      ensures ok <==>
        && nor.chip.readable && off + 4 <= SLOT1_SIZE
        && KeyhashInTlv(SlotOf(nor.chip.mem)[off..off + Min(TLV_READ, SLOT1_SIZE - off)]) == Some(FW_KEYHASH)
    {
      TlvBounds(off);
      var size := Min(TLV_READ, Wrap32(SLOT1_SIZE - off));
      var got, tlv := nor.Read(off, size);
      if !got {
        return false;
      }
      if off + 4 <= SLOT1_SIZE {
        assert tlv == SlotOf(nor.chip.mem)[off..off + size];
      }
      var kh := WalkTlv(tlv);
      ok := kh == Some(FW_KEYHASH);
    }

    method Finish(crc: Option<Words.Word>) returns (ok: bool)
      requires Valid()
      modifies this, nor
      ensures Valid() && (State(), ok) == FwUpgrade.Finish(old(State()), crc)
    {
      if !active {
        return false;
      }
      active := false;
      var tail := pageLen;
      if failed {
        return false;
      }
      var flushed := PageFlush();
      if !flushed {
        return false;
      }
      written := written + tail;
      if written != total {
        return false;
      }
      var verified, crcV := ReadBack(total);
      if !verified {
        return false;
      }
      var tlvOk := TlvKeyhashOk();
      ok := tlvOk && (crc.None? || crcV == crc.value);
    }

    method BootSetPending(permanent: bool) returns (ok: bool)
      requires Valid()
      modifies nor
      ensures (nor.chip, ok) == SetPending(old(nor.chip), permanent)
    {
      ok := nor.Write(MAGIC_OFF, BOOT_MAGIC);
      if ok && permanent {
        ok := nor.Write(IMAGE_OK_OFF, Flag(FLAG_SET));
      }
      if ok {
        ok := nor.Write(SWAP_INFO_OFF, Flag(SwapType(permanent)));
      }
    }

    function Received(): U32
      requires Valid()
      reads this
    {
      written + pageLen
    }

    /** The chunk loop of DATA_V2. */
    method WriteChunks(data: seq<Byte>)
      requires Valid()
      modifies this, nor
      ensures Valid() && State() == PutChunks(old(State()), data)
    {
      var rest := data;
      while rest != []
        invariant Valid() && PutChunks(State(), rest) == PutChunks(old(State()), data)
        decreases |rest|
      {
        var n := Min(|rest|, PAGE);
        var _ := Write(rest[..n]);
        rest := rest[n..];
      }
    }

    /** `fw_udp_cmd`: nothing when the command is not ours, an empty reply when
        it is malformed. */
    method FwUdpCmd(cmd: Byte, payload: seq<Byte>) returns (reply: Option<seq<Byte>>)
      requires Valid()
      modifies this, nor
      ensures Valid()
      ensures cmd == 0x01 && |payload| >= 4 ==>
                var r := FwUpgrade.Start(old(State()), Num32(payload[..4]),
                                         if |payload| >= 36 then Some(payload[4..36]) else None);
                State() == r.0 && reply == Some([0x01, if r.1 == 0 then 1 else if r.1 == -2 then 2 else 0, 0x78, 0x05])
      ensures cmd == 0x02 && |payload| <= 511 ==>
                State() == FwUpgrade.Write(old(State()), payload).0 && reply == Some([0x02] + Le32(Received()))
      ensures cmd == 0x06 && |payload| >= 5 ==>
                State() == Packet(old(State()), Num32(payload[..4]), payload[4..])
                && reply == Some([0x06] + Le32(Received()))
      ensures cmd == 0x03 && |payload| >= 3 ==>
                var r := End(old(State()), payload[0] == 0, Some(Crc.LeWord(Crc.ToWords(payload[1..3]))));
                State() == r.0 && reply == Some([0x03, if r.1 then 1 else 0])
      ensures reply == None <==> cmd !in {0x01, 0x02, 0x03, 0x06}
      ensures !WellFormed(cmd, payload) ==> State() == old(State()) && (reply == None || reply == Some([]))
    {
      if cmd == 0x01 {
        if |payload| < 4 {
          return Some([]);
        }
        var kh := if |payload| >= 36 then Some(payload[4..36]) else None;
        var rc := Start(Num32(payload[..4]), kh);
        return Some([0x01, if rc == 0 then 1 else if rc == -2 then 2 else 0, 0x78, 0x05]);
      } else if cmd == 0x02 {
        if |payload| > 511 {
          return Some([]);
        }
        var _ := Write(payload);
        return Some([0x02] + Le32(Received()));
      } else if cmd == 0x06 {
        if |payload| < 5 {
          return Some([]);
        }
        if Num32(payload[..4]) == Received() {
          WriteChunks(payload[4..]);
        }
        return Some([0x06] + Le32(Received()));
      } else if cmd == 0x03 {
        if |payload| < 3 {
          return Some([]);
        }
        var crc := Crc.LeWord(Crc.ToWords(payload[1..3]));
        var ok := Finish(Some(crc));
        if ok {
          ok := BootSetPending(payload[0] == 0);
        }
        return Some([0x03, if ok then 1 else 0]);
      }
      reply := None;
    }
  }
}
