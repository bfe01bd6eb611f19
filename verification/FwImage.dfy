/** Signed images as the build tool lays them out, and which of them `finish` accepts. */
module FwImage {
  import opened Bytes
  import opened FwUpgrade
  import opened Nor
  import opened Tlv
  import Words

  /** The front of an MCUboot header: magic, load address, size of the header, size of
      the protected TLVs and size of the body. */
  datatype Header = Header(magic: U32, load: U32, hdrSize: U16, protect: U16, imgSize: U32)

  function EncodeHeader(h: Header): (r: seq<Byte>)
    ensures |r| == 16
  {
    Le32(h.magic) + Le32(h.load) + Le16(h.hdrSize) + Le16(h.protect) + Le32(h.imgSize)
  }

  /** Header, the rest of its 512 bytes, body, TLV block. */
  function Image(h: Header, pad: seq<Byte>, body: seq<Byte>, es: seq<Entry>): seq<Byte>
    requires AllSized(es) && 4 + |EncodeAll(es)| < 0x1_0000
  {
    EncodeHeader(h) + pad + body + EncodeBlock(es)
  }

  lemma HeaderFields(h: Header, hdr: seq<Byte>)
    requires |hdr| >= 16 && hdr[..16] == EncodeHeader(h)
    ensures Num32(hdr[..4]) == h.magic && Num16(hdr[8..10]) == h.hdrSize && Num32(hdr[12..16]) == h.imgSize
  {
    var e := EncodeHeader(h);
    assert hdr[..4] == hdr[..16][..4] && e[..4] == Le32(h.magic);
    assert hdr[8..10] == hdr[..16][8..10] && e[8..10] == Le16(h.hdrSize);
    assert hdr[12..16] == hdr[..16][12..16] && e[12..16] == Le32(h.imgSize);
    Num32Le32(h.magic);
    Num16Le16(h.hdrSize);
    Num32Le32(h.imgSize);
  }

  lemma AlignedBody(n: U32)
    ensures Wrap32(512 + n) % 4 == n % 4
  {
    var q, r := n / 4, n % 4;
    assert n == 4 * q + r;
    if 512 + n >= 0x1_0000_0000 {
      Remainder32(1, 512 + n - 0x1_0000_0000);
      assert Wrap32(512 + n) == 4 * (q + 128 - 0x4000_0000) + r;
    } else {
      assert Wrap32(512 + n) == 4 * (q + 128) + r;
    }
  }

  predicate Expected(h: Header) {
    h.magic == 0x96F3_B83D && h.hdrSize == 512 && h.imgSize % 4 == 0
  }

  /** A header leads to the TLV block behind the body if and only if magic and header
      size are the expected ones and the block is aligned; any other is refused. */
  lemma HeaderIff(h: Header, hdr: seq<Byte>)
    requires |hdr| >= 16 && hdr[..16] == EncodeHeader(h)
    ensures TlvOffset(hdr) == if Expected(h) then Some(Wrap32(512 + h.imgSize)) else None
  {
    HeaderFields(h, hdr);
    AlignedBody(h.imgSize);
  }

  lemma HeaderAt(h: Header, hdr: seq<Byte>, off: nat)
    requires |hdr| >= 16 && hdr[..16] == EncodeHeader(h) && off == 512 + h.imgSize < 0x1_0000_0000
    ensures TlvOffset(hdr) == if Expected(h) then Some(off) else None
  {
    HeaderIff(h, hdr);
  }

  lemma Le16Num16(b: seq<Byte>)
    requires |b| == 2
    ensures Le16(Num16(b)) == b
  {
  }

  lemma Le32Num32(b: seq<Byte>)
    requires |b| == 4
    ensures Le32(Num32(b)) == b
  {
    Le16Num16(b[..2]);
    Le16Num16(b[2..]);
    var lo: int, hi: int := Num16(b[..2]), Num16(b[2..]);
    assert (lo + 0x1_0000 * hi) % 0x1_0000 == lo && (lo + 0x1_0000 * hi) / 0x1_0000 == hi;
  }

  /** Every sixteen bytes are some header. */
  lemma SomeHeader(hdr: seq<Byte>) returns (h: Header)
    requires |hdr| >= 16
    ensures hdr[..16] == EncodeHeader(h)
  {
    h := Header(Num32(hdr[..4]), Num32(hdr[4..8]), Num16(hdr[8..10]), Num16(hdr[10..12]), Num32(hdr[12..16]));
    Le32Num32(hdr[..4]);
    Le32Num32(hdr[4..8]);
    Le16Num16(hdr[8..10]);
    Le16Num16(hdr[10..12]);
    Le32Num32(hdr[12..16]);
  }

  /** The headers that are refused: too short ones, and those that are not expected. */
  lemma RefusedIff(hdr: seq<Byte>)
    ensures TlvOffset(hdr) == None <==>
            |hdr| < 16 || exists h :: hdr[..16] == EncodeHeader(h) && !Expected(h)
  {
    if |hdr| >= 16 {
      var h := SomeHeader(hdr);
      HeaderIff(h, hdr);
      forall g | hdr[..16] == EncodeHeader(g) ensures Expected(g) == Expected(h) { HeaderIff(g, hdr); }
    }
  }

  // The bytes read at the offset: the block, as far as the buffer goes.
  lemma BlockRead(front: seq<Byte>, block: seq<Byte>, back: seq<Byte>, n: nat)
    requires n <= |block| + |back|
    ensures (front + block + back)[|front|..|front| + n] ==
            if n <= |block| then block[..n] else block + back[..n - |block|]
  {
  }

  lemma BlockSize(es: seq<Entry>)
    requires AllSized(es) && 4 + |EncodeAll(es)| < 0x1_0000
    ensures |EncodeBlock(es)| == 4 + |EncodeAll(es)| && Num16(EncodeBlock(es)[2..4]) == |EncodeBlock(es)|
  {
    var n := 4 + |EncodeAll(es)|;
    assert EncodeBlock(es)[2..4] == Le16(n);
    Num16Le16(n);
  }

  lemma CutBlock(es: seq<Entry>, tlv: seq<Byte>)
    requires AllSized(es) && 4 + |EncodeAll(es)| < 0x1_0000
    requires 4 <= |tlv| < |EncodeBlock(es)| && tlv == EncodeBlock(es)[..|tlv|]
    ensures KeyhashInTlv(tlv) == None
  {
    BlockSize(es);
    assert tlv[2..4] == EncodeBlock(es)[2..4];
  }

  /** What the walk finds at the place of the block, reading at most n bytes there. */
  lemma BlockFound(front: seq<Byte>, es: seq<Entry>, back: seq<Byte>, n: nat, slot: seq<Byte>)
    requires AllSized(es) && 4 + |EncodeAll(es)| < 0x1_0000 && 4 <= n <= |EncodeBlock(es)| + |back|
    requires slot == front + EncodeBlock(es) + back
    ensures KeyhashInTlv(slot[|front|..|front| + n]) == if |EncodeBlock(es)| <= n then FirstKeyhash(es) else None
  {
    var block := EncodeBlock(es);
    BlockRead(front, block, back, n);
    if n < |block| {
      CutBlock(es, slot[|front|..|front| + n]);
    } else {
      assert n == |block| ==> block[..n] == block + back[..n - |block|];
      WalkFindsKeyhash(es, back[..n - |block|]);
    }
  }

  lemma SlotParts(head: seq<Byte>, block: seq<Byte>, slot: Slot1, h: Header, rest: seq<Byte>)
    requires head == EncodeHeader(h) + rest && |head| >= 512 && |head| + |block| <= SLOT1_SIZE
    requires slot == Padded1(head + block)
    ensures slot == head + block + Ones(SLOT1_SIZE - |head| - |block|) && slot[..32][..16] == EncodeHeader(h)
  {
  }

  lemma TlvOkAt(slot: Slot1, off: nat, n: nat)
    requires off + 4 <= SLOT1_SIZE && n == Min(TLV_READ, SLOT1_SIZE - off)
    ensures TlvOffset(slot[..32]) == Some(off) ==>
              (TlvOk(slot) <==> KeyhashInTlv(slot[off..off + n]) == Some(FW_KEYHASH))
    ensures TlvOffset(slot[..32]) == None ==> !TlvOk(slot)
  {
  }

  lemma ImageSlot(h: Header, rest: seq<Byte>, es: seq<Entry>, head: seq<Byte>, slot: Slot1, off: nat, n: nat)
    requires AllSized(es) && 4 + |EncodeAll(es)| < 0x1_0000 && off == 512 + h.imgSize
    requires head == EncodeHeader(h) + rest && |head| == off && off + |EncodeBlock(es)| <= SLOT1_SIZE
    requires slot == Padded1(head + EncodeBlock(es)) && n == Min(TLV_READ, SLOT1_SIZE - off)
    ensures TlvOk(slot) <==> Expected(h) && |EncodeBlock(es)| <= n && FirstKeyhash(es) == Some(FW_KEYHASH)
  {
    SlotParts(head, EncodeBlock(es), slot, h, rest);
    HeaderAt(h, slot[..32], off);
    BlockFound(head, es, Ones(SLOT1_SIZE - |head| - |EncodeBlock(es)|), n, slot);
    TlvOkAt(slot, off, n);
  }

  /** An image that fits the slot carries the key hash, as the test sees it, if and only
      if its header is the expected one, its body ends aligned, its TLV block fits the
      read buffer and the first key hash in it is the device's. */
  lemma ImageIff(h: Header, pad: seq<Byte>, body: seq<Byte>, es: seq<Entry>)
    requires |pad| == 496 && |body| == h.imgSize && AllSized(es) && 4 + |EncodeAll(es)| < 0x1_0000
    requires 512 + |body| + |EncodeBlock(es)| <= SLOT1_SIZE
    ensures |Image(h, pad, body, es)| <= SLOT1_SIZE
    ensures TlvOk(Padded1(Image(h, pad, body, es))) <==>
            Expected(h) && |EncodeBlock(es)| <= 512 && FirstKeyhash(es) == Some(FW_KEYHASH)
  {
    var head, off := EncodeHeader(h) + pad + body, 512 + |body|;
    assert head == EncodeHeader(h) + (pad + body);
    ImageSlot(h, pad + body, es, head, Padded1(Image(h, pad, body, es)), off, Min(TLV_READ, SLOT1_SIZE - off));
  }

  /** `finish` on an image of the build tool: accepted if and only if all of it arrived,
      could be flushed and read back, has the announced CRC, and is signed for this
      device with a TLV block the check can read. */
  lemma ImageAcceptedIff(s: Session, crc: Option<Words.Word>,
                         h: Header, pad: seq<Byte>, body: seq<Byte>, es: seq<Entry>)
    requires Live(s) && |pad| == 496 && |body| == h.imgSize && AllSized(es) && 4 + |EncodeAll(es)| < 0x1_0000
    requires 512 + |body| + |EncodeBlock(es)| <= SLOT1_SIZE && Accepted(s) == Image(h, pad, body, es)
    ensures Finish(s, crc).1 <==>
            && s.total == 512 + |body| + |EncodeBlock(es)| && |s.page| <= Good(s.chip) && s.chip.readable
            && (crc.None? || crc.value == ImageCrc(Image(h, pad, body, es)))
            && Expected(h) && |EncodeBlock(es)| <= 512 && FirstKeyhash(es) == Some(FW_KEYHASH)
  {
    FinishIff(s, crc);
    ImageIff(h, pad, body, es);
  }
}
