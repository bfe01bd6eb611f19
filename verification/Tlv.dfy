/** The TLV block behind an MCUboot image: finding the key hash. */
module Tlv {
  import opened Bytes

  const KEYHASH_LEN: nat := 32
  const TLV_MAGIC: nat := 0x6907
  const KEYHASH_TAG: nat := 1

  const FW_KEYHASH: seq<Byte> := [
    0xfb, 0x73, 0x8f, 0x7d, 0xcf, 0x8c, 0x1a, 0x3a, 0x89, 0x88, 0xae, 0x60, 0x85, 0xd5, 0x2f, 0x06,
    0xaf, 0x2a, 0x25, 0x61, 0x33, 0xee, 0x1c, 0x06, 0x84, 0xf7, 0x14, 0x25, 0xaa, 0x15, 0x7f, 0xac]

  /** Length rounded up to a multiple of four. */
  function Padded(n: nat): (r: nat)
    ensures n <= r < n + 4 && r % 4 == 0
  {
    (n + 3) / 4 * 4
  }

  /** The walk from `off` on. */
  function Find(tlv: seq<Byte>, off: nat, end: nat): Option<seq<Byte>>
    requires end <= |tlv|
    decreases end - off
  {
    if off + 4 > end then None
    else
      var tag, len := Num16(tlv[off..off + 2]), Num16(tlv[off + 2..off + 4]);
      if tag == KEYHASH_TAG && len == KEYHASH_LEN then
        if off + 4 + len <= end then Some(tlv[off + 4..off + 4 + len]) else None
      else Find(tlv, off + 4 + Padded(len), end)
  }

  function KeyhashInTlv(tlv: seq<Byte>): Option<seq<Byte>> {
    if |tlv| < 4 then None
    else
      var magic, size := Num16(tlv[..2]), Num16(tlv[2..4]);
      if magic != TLV_MAGIC || size == 0 || size > |tlv| then None else Find(tlv, 4, size)
  }

  /** `keyhash_in_tlv`. */
  method WalkTlv(tlv: seq<Byte>) returns (r: Option<seq<Byte>>)
    ensures r == KeyhashInTlv(tlv)
  {
    if |tlv| < 4 {
      return None;
    }
    var magic, size := Num16(tlv[..2]), Num16(tlv[2..4]);
    if magic != TLV_MAGIC || size == 0 || size > |tlv| {
      return None;
    }
    var end, off := Min(size, |tlv|), 4;
    while off + 4 <= end
      invariant end == size && Find(tlv, off, end) == Find(tlv, 4, end)
    {
      var tag, len := Num16(tlv[off..off + 2]), Num16(tlv[off + 2..off + 4]);
      if tag == KEYHASH_TAG && len == KEYHASH_LEN {
        var s := off + 4;
        if s + len <= end {
          return Some(tlv[s..s + len]);
        }
        return None;
      }
      off := off + 4 + Padded(len);
    }
    r := None;
  }

  /* ---- the block an image tool writes ---- */

  /** `pad` fills the data up to a multiple of four, with whatever bytes. */
  datatype Entry = Entry(tag: U16, data: seq<Byte>, pad: seq<Byte>)

  predicate Sized(e: Entry) {
    |e.data| < 0x1_0000 && |e.pad| < 4 && (|e.data| + |e.pad|) % 4 == 0
  }

  /** Tag, length, data, padding. */
  function EncodeEntry(e: Entry): (r: seq<Byte>)
    requires Sized(e)
    ensures |r| == 4 + Padded(|e.data|)
  {
    Le16(e.tag) + Le16(|e.data|) + e.data + e.pad
  }

  predicate AllSized(es: seq<Entry>) {
    forall k :: 0 <= k < |es| ==> Sized(es[k])
  }

  function EncodeAll(es: seq<Entry>): seq<Byte>
    requires AllSized(es)
  {
    if es == [] then [] else EncodeEntry(es[0]) + EncodeAll(es[1..])
  }

  function EncodeBlock(es: seq<Entry>): seq<Byte>
    requires AllSized(es) && 4 + |EncodeAll(es)| < 0x1_0000
  {
    [0x07, 0x69] + Le16(4 + |EncodeAll(es)|) + EncodeAll(es)
  }

  predicate IsKeyhash(e: Entry) {
    e.tag == 1 && |e.data| == 32
  }

  function FirstKeyhash(es: seq<Entry>): Option<seq<Byte>> {
    if es == [] then None else if IsKeyhash(es[0]) then Some(es[0].data) else FirstKeyhash(es[1..])
  }

  lemma SubSlice(s: seq<Byte>, off: nat, n: nat, i: nat, j: nat)
    requires off + n <= |s| && i <= j <= n
    ensures s[off..off + n][i..j] == s[off + i..off + j]
  {
    var x, y := s[off..off + n][i..j], s[off + i..off + j];
    forall k | 0 <= k < j - i ensures x[k] == y[k] { assert x[k] == s[off..off + n][i + k]; }
  }

  lemma EntryParts(e: Entry)
    requires Sized(e)
    ensures var x := EncodeEntry(e);
            x[0..2] == Le16(e.tag) && x[2..4] == Le16(|e.data|) && x[4..4 + |e.data|] == e.data
  {
  }

  lemma EntryAt(tlv: seq<Byte>, off: nat, e: Entry)
    requires Sized(e) && off + |EncodeEntry(e)| <= |tlv|
    requires tlv[off..off + |EncodeEntry(e)|] == EncodeEntry(e)
    ensures Num16(tlv[off..off + 2]) == e.tag && Num16(tlv[off + 2..off + 4]) == |e.data|
    ensures tlv[off + 4..off + 4 + |e.data|] == e.data
  {
    var n := |EncodeEntry(e)|;
    EntryParts(e);
    SubSlice(tlv, off, n, 0, 2);
    SubSlice(tlv, off, n, 2, 4);
    SubSlice(tlv, off, n, 4, 4 + |e.data|);
    Num16Le16(e.tag);
    Num16Le16(|e.data|);
  }

  lemma {:induction false} FindEncoded(tlv: seq<Byte>, off: nat, es: seq<Entry>)
    requires AllSized(es) && off + |EncodeAll(es)| <= |tlv|
    requires tlv[off..off + |EncodeAll(es)|] == EncodeAll(es)
    ensures Find(tlv, off, off + |EncodeAll(es)|) == FirstKeyhash(es)
    decreases |es|
  {
    if es != [] {
      var x, rest := EncodeEntry(es[0]), EncodeAll(es[1..]);
      TwoParts(tlv, off, x, rest, off + |x|);
      EntryAt(tlv, off, es[0]);
      FindEncoded(tlv, off + |x|, es[1..]);
    }
  }

  lemma TwoParts(tlv: seq<Byte>, off: nat, x: seq<Byte>, rest: seq<Byte>, next: nat)
    requires off + |x + rest| <= |tlv| && tlv[off..off + |x + rest|] == x + rest && next == off + |x|
    ensures tlv[off..next] == x && tlv[next..next + |rest|] == rest
  {
    var all := x + rest;
    SubSlice(tlv, off, |all|, 0, |x|);
    SubSlice(tlv, off, |all|, |x|, |all|);
    assert all[0..|x|] == x && all[|x|..|all|] == rest;
  }

  /** The walk over an encoded block finds the first key-hash entry, whatever
      the other entries are and whatever follows the block. */
  lemma WalkFindsKeyhash(es: seq<Entry>, after: seq<Byte>)
    requires AllSized(es) && 4 + |EncodeAll(es)| < 0x1_0000
    ensures KeyhashInTlv(EncodeBlock(es) + after) == FirstKeyhash(es)
  {
    var all := EncodeAll(es);
    var tlv := EncodeBlock(es) + after;
    assert tlv[..2] == [0x07, 0x69];
    assert tlv[2..4] == Le16(4 + |all|);
    assert tlv[4..4 + |all|] == all;
    Num16Le16(4 + |all|);
    FindEncoded(tlv, 4, es);
  }
}
