/** Streaming SHA-1 (FIPS 180-4): the buffering around the block function. */
module Sha1 {
  import opened Bytes
  import opened Streams

  const BLOCK: nat := 64

  /* ---- the block function (section 6.1.2) ---- */

  datatype Hash = Hash(a: bv32, b: bv32, c: bv32, d: bv32, e: bv32)

  const INIT := Hash(0x67452301, 0xEFCDAB89, 0x98BADCFE, 0x10325476, 0xC3D2E1F0)

  function Rotl(x: bv32, n: nat): bv32
    requires 0 < n < 32
  {
    (x << n) | (x >> (32 - n))
  }

  /** The functions of section 4.1.1. */
  function Ch(x: bv32, y: bv32, z: bv32): bv32 {
    (x & y) ^ (!x & z)
  }

  function Parity(x: bv32, y: bv32, z: bv32): bv32 {
    x ^ y ^ z
  }

  function Maj(x: bv32, y: bv32, z: bv32): bv32 {
    (x & y) ^ (x & z) ^ (y & z)
  }

  function Logical(t: nat, x: bv32, y: bv32, z: bv32): bv32 {
    if t < 20 then Ch(x, y, z) else if 40 <= t < 60 then Maj(x, y, z) else Parity(x, y, z)
  }

  /** The forms the code uses. */
  function Mix(t: nat, b: bv32, c: bv32, d: bv32): bv32 {
    if t < 20 then (b & c) | (!b & d)
    else if 40 <= t < 60 then (b & c) | (b & d) | (c & d)
    else b ^ c ^ d
  }

  lemma ChoiceForms(b: bv32, c: bv32, d: bv32)
    ensures (b & c) | (!b & d) == (b & c) ^ (!b & d)
  {
  }

  lemma MajorityForms(b: bv32, c: bv32, d: bv32)
    ensures (b & c) | (b & d) | (c & d) == (b & c) ^ (b & d) ^ (c & d)
  {
  }

  /** They are the standard's. */
  lemma MixIsLogical(t: nat, b: bv32, c: bv32, d: bv32)
    ensures Mix(t, b, c, d) == Logical(t, b, c, d)
  {
    if t < 20 {
      ChoiceForms(b, c, d);
    } else if 40 <= t < 60 {
      MajorityForms(b, c, d);
    }
  }

  function Constant(t: nat): bv32 {
    if t < 20 then 0x5A827999 else if t < 40 then 0x6ED9EBA1 else if t < 60 then 0x8F1BBCDC else 0xCA62C1D6
  }

  function Turn(s: Hash, f: bv32, k: bv32, w: bv32): Hash {
    Hash(Rotl(s.a, 5) + f + s.e + k + w, s.a, Rotl(s.b, 30), s.c, s.d)
  }

  function Round(s: Hash, t: nat, w: bv32): Hash {
    Turn(s, Logical(t, s.b, s.c, s.d), Constant(t), w)
  }

  function Rounds(w: seq<bv32>, s: Hash, t: nat): Hash
    decreases |w| - t
  {
    if t >= |w| then s else Rounds(w, Round(s, t, w[t]), t + 1)
  }

  function NextWord(w: seq<bv32>): bv32
    requires |w| >= 16
  {
    var t := |w|;
    Rotl(w[t - 3] ^ w[t - 8] ^ w[t - 14] ^ w[t - 16], 1)
  }

  /** The message schedule up to n words. */
  function Schedule(w: seq<bv32>, n: nat): (r: seq<bv32>)
    requires |w| >= 16
    decreases n - |w|
  {
    if |w| >= n then w else Schedule(w + [NextWord(w)], n)
  }

  function Be32(b: seq<Byte>, i: nat): bv32
    requires i + 4 <= |b|
  {
    (b[i] as bv32 << 24) | (b[i + 1] as bv32 << 16) | (b[i + 2] as bv32 << 8) | b[i + 3] as bv32
  }

  /** The first n words of a block. */
  function Words16(p: seq<Byte>, n: nat): (r: seq<bv32>)
    requires 4 * n <= |p|
    ensures |r| == n
  {
    if n == 0 then [] else Words16(p, n - 1) + [Be32(p, 4 * (n - 1))]
  }

  function Plus(h: Hash, s: Hash): Hash {
    Hash(h.a + s.a, h.b + s.b, h.c + s.c, h.d + s.d, h.e + s.e)
  }

  function Compress(h: Hash, p: seq<Byte>): Hash
    requires |p| == BLOCK
  {
    Plus(h, Rounds(Schedule(Words16(p, 16), 80), h, 0))
  }

  method FirstWords(p: seq<Byte>, n: nat) returns (w: seq<bv32>)
    requires 4 * n <= |p|
    ensures w == Words16(p, n)
  {
    w := [];
    for i := 0 to n
      invariant w == Words16(p, i)
    {
      w := w + [Be32(p, 4 * i)];
    }
  }

  method ExtendWords(first: seq<bv32>, n: nat) returns (w: seq<bv32>)
    requires 16 <= |first| <= n
    ensures w == Schedule(first, n)
  {
    w := first;
    while |w| < n
      invariant 16 <= |w| <= n && Schedule(w, n) == Schedule(first, n)
      decreases n - |w|
    {
      w := w + [NextWord(w)];
    }
  }

  method MixNow(t: nat, b: bv32, c: bv32, d: bv32) returns (f: bv32)
    ensures f == Logical(t, b, c, d)
  {
    f := Mix(t, b, c, d);
    MixIsLogical(t, b, c, d);
  }

  /** One turn of the round loop. */
  method RoundNow(s: Hash, t: nat, w: bv32) returns (r: Hash)
    ensures r == Round(s, t, w)
  {
    var f := MixNow(t, s.b, s.c, s.d);
    r := Turn(s, f, Constant(t), w);
  }

  method RunRounds(w: seq<bv32>, h: Hash) returns (s: Hash)
    ensures s == Rounds(w, h, 0)
  {
    s := h;
    for i := 0 to |w|
      invariant Rounds(w, s, i) == Rounds(w, h, 0)
    {
      s := RoundNow(s, i, w[i]);
    }
  }

  /** `block`. */
  method CompressNow(h: Hash, p: seq<Byte>) returns (r: Hash)
    requires |p| == BLOCK
    ensures r == Compress(h, p)
  {
    var first := FirstWords(p, 16);
    var w := ExtendWords(first, 80);
    var s := RunRounds(w, h);
    r := Plus(h, s);
  }

  /* ---- whole blocks and what is left over ---- */

  function Blocks(h: Hash, s: seq<Byte>): Hash
    decreases |s|
  {
    if |s| < BLOCK then h else Blocks(Compress(h, s[..BLOCK]), s[BLOCK..])
  }

  function Tail(s: seq<Byte>): (r: seq<Byte>)
    ensures |r| < BLOCK && |r| == |s| % BLOCK
    decreases |s|
  {
    if |s| < BLOCK then s else Tail(s[BLOCK..])
  }

  /** More data only meets the blocks so far and the left-over bytes. */
  lemma {:induction false} Absorb(h: Hash, s: seq<Byte>, d: seq<Byte>)
    ensures Blocks(h, s + d) == Blocks(Blocks(h, s), Tail(s) + d)
    ensures Tail(s + d) == Tail(Tail(s) + d)
    decreases |s|
  {
    if |s| >= BLOCK {
      assert (s + d)[..BLOCK] == s[..BLOCK] && (s + d)[BLOCK..] == s[BLOCK..] + d;
      Absorb(Compress(h, s[..BLOCK]), s[BLOCK..], d);
    }
  }

  /* ---- the running state ---- */

  datatype State = State(h: Hash, buf: seq<Byte>)

  /** The state a message leaves, however it was fed. */
  function After(msg: seq<Byte>): State {
    State(Blocks(INIT, msg), Tail(msg))
  }

  function Updated(st: State, d: seq<Byte>): State {
    State(Blocks(st.h, st.buf + d), Tail(st.buf + d))
  }

  /** Any split of the updates gives the state of the whole message. */
  lemma UpdateConcat(msg: seq<Byte>, d: seq<Byte>)
    ensures Updated(After(msg), d) == After(msg + d)
  {
    Absorb(INIT, msg, d);
  }

  function Wrap64(n: nat): nat {
    n % 0x1_0000_0000_0000_0000
  }

  lemma Remainder64(n: int, s: nat)
    requires s < 0x1_0000_0000_0000_0000
    ensures (0x1_0000_0000_0000_0000 * n + s) % 0x1_0000_0000_0000_0000 == s
  {
  }

  lemma WrapAdds64(q: int, z: nat)
    requires 0x1_0000_0000_0000_0000 * q + z >= 0
    ensures Wrap64(0x1_0000_0000_0000_0000 * q + z) == Wrap64(z)
  {
    var k, s := z / 0x1_0000_0000_0000_0000, z % 0x1_0000_0000_0000_0000;
    Remainder64(q + k, s);
    assert 0x1_0000_0000_0000_0000 * q + z == 0x1_0000_0000_0000_0000 * (q + k) + s;
  }

  /* ---- padding (section 5.1.1) ---- */

  /** Zero bytes until 56 modulo 64. */
  function ZeroCount(n: nat): (k: nat)
    ensures k < 64 && (n + 1 + k) % 64 == 56
  {
    (55 - n) % 64
  }

  /** One bit, zeros, and the length in bits; 64 bits of it, as the source keeps. */
  function Pad(msg: seq<Byte>): seq<Byte> {
    msg + [0x80] + Zeros(ZeroCount(|msg|)) + BeBytes(Wrap64(8 * |msg|), 8)
  }

  /** The digest as section 6.1.2 computes it: blocks of the padded message. */
  function Digest(msg: seq<Byte>): Hash {
    Blocks(INIT, Pad(msg))
  }

  lemma PadFillsBlocks(msg: seq<Byte>)
    ensures |Pad(msg)| % BLOCK == 0
  {
    FullBlock(|msg| + 1 + ZeroCount(|msg|));
  }

  lemma FullBlock(n: nat)
    requires n % 64 == 56
    ensures (n + 8) % 64 == 0
  {
  }

  /* ---- the streaming object ---- */

  class Stream {
    var h: Hash
    var total: nat
    var buf: seq<Byte>
    var bufLen: nat

    ghost predicate Valid()
      reads this
    {
      |buf| == BLOCK && bufLen < BLOCK
    }

    ghost function Now(): State
      requires Valid()
      reads this
    {
      State(h, buf[..bufLen])
    }

    constructor ()
      ensures Valid() && Now() == After([]) && total == 0
    {
      h, total, buf, bufLen := INIT, 0, Zeros(BLOCK), 0;
    }

    /** The first part of `update`: top up a block that was begun. */
    method TopUp(data: seq<Byte>) returns (rest: seq<Byte>)
      requires Valid() && bufLen > 0
      modifies this
      ensures Valid() && total == old(total) && (bufLen == 0 || rest == [])
      ensures Updated(Now(), rest) == Updated(old(Now()), data)
    {
      var take := Min(BLOCK - bufLen, |data|);
      ghost var all := buf[..bufLen] + data;
      buf := buf[..bufLen] + data[..take] + buf[bufLen + take..];
      bufLen := bufLen + take;
      rest := data[take..];
      assert buf[..bufLen] + rest == all;
      if bufLen == BLOCK {
        h := CompressNow(h, buf);
        bufLen := 0;
        assert all[..BLOCK] == buf && all[BLOCK..] == rest;
        assert buf[..0] + rest == rest;
      }
    }

    /** `update`. */
    method Update(data: seq<Byte>)
      requires Valid()
      modifies this
      ensures Valid() && Now() == Updated(old(Now()), data) && total == Wrap64(old(total) + |data|)
    {
      total := Wrap64(total + |data|);
      var d := data;
      if bufLen > 0 {
        d := TopUp(data);
      }
      if bufLen > 0 {
        assert buf[..bufLen] + d == buf[..bufLen];
        return;
      }
      assert buf[..bufLen] + d == d;
      h, d := AbsorbBlocks(h, d);
      buf := d + buf[|d|..];
      bufLen := |d|;
      assert buf[..bufLen] == d;
    }

    /** One more update, behind the message so far. */
    method Feed(chunk: seq<Byte>, ghost msg: seq<Byte>)
      requires Valid() && Now() == After(msg) && total == Wrap64(|msg|)
      modifies this
      ensures Valid() && Now() == After(msg + chunk) && total == Wrap64(|msg + chunk|)
    {
      UpdateConcat(msg, chunk);
      WrapSum(|msg|, |chunk|);
      Update(chunk);
    }

    /** One turn of the padding loop, which is not the last. */
    method PadOne(ghost msg: seq<Byte>, ghost k: nat, ghost next: nat)
      requires Valid() && Now() == After(msg + Zeros(k)) && next == k + 1
      modifies this
      ensures Valid() && Now() == After(msg + Zeros(next))
    {
      Update([0]);
      OneMoreZero(msg, k);
    }

    /** The padding loop of `finalize`: a byte at a time. */
    method PadZeros(ghost msg: seq<Byte>, ghost marked: seq<Byte>, ghost zeros: nat)
      requires Valid() && Now() == After(marked) && |marked| == |msg| + 1 && zeros == ZeroCount(|msg|)
      modifies this
      ensures Valid() && bufLen == 56 && Now() == After(marked + Zeros(zeros))
    {
      ghost var k := 0;
      assert marked + Zeros(0) == marked;
      while bufLen != 56
        invariant Valid() && k <= zeros && Now() == After(marked + Zeros(k))
        decreases zeros - k
      {
        FirstPad(|msg|, k);
        ghost var next := k + 1;
        PadOne(marked, k, next);
        k := next;
      }
      LastPad(|msg|, k);
    }

    /** `finalize`: the digest of everything fed, as the standard pads it. */
    method Finalize(ghost msg: seq<Byte>) returns (digest: Hash)
      requires Valid() && Now() == After(msg) && total == Wrap64(|msg|)
      modifies this
      ensures digest == Digest(msg)
    {
      var bits := Wrap64(8 * total);
      BitLength(|msg|);
      Update([0x80]);
      UpdateConcat(msg, [0x80]);
      PadZeros(msg, msg + [0x80], ZeroCount(|msg|));
      var block := buf[..56] + BeBytes(bits, 8);
      digest := CompressNow(h, block);
      LastBlock(msg, h, buf[..56], block);
    }
  }

  /** The block loop of `update`. */
  method AbsorbBlocks(h0: Hash, data: seq<Byte>) returns (h: Hash, rest: seq<Byte>)
    ensures h == Blocks(h0, data) && rest == Tail(data)
  {
    h, rest := h0, data;
    while |rest| >= BLOCK
      invariant Blocks(h, rest) == Blocks(h0, data) && Tail(rest) == Tail(data)
      decreases |rest|
    {
      h := CompressNow(h, rest[..BLOCK]);
      rest := rest[BLOCK..];
    }
  }

  lemma OneMoreZero(m: seq<Byte>, k: nat)
    ensures Updated(After(m + Zeros(k)), [0]) == After(m + Zeros(k + 1))
  {
    UpdateConcat(m + Zeros(k), [0]);
    assert m + Zeros(k) + [0] == m + Zeros(k + 1);
  }

  // Before the last zero the buffer does not stand at 56, after it it does.
  lemma FirstPad(n: nat, k: nat)
    requires k <= ZeroCount(n) && (n + 1 + k) % 64 != 56
    ensures k < ZeroCount(n)
  {
  }

  lemma LastPad(n: nat, k: nat)
    requires k <= ZeroCount(n) && (n + 1 + k) % 64 == 56
    ensures k == ZeroCount(n)
  {
  }

  lemma BitLength(n: nat)
    ensures Wrap64(8 * Wrap64(n)) == Wrap64(8 * n)
  {
    var q, r := n / 0x1_0000_0000_0000_0000, n % 0x1_0000_0000_0000_0000;
    assert 8 * n == 0x1_0000_0000_0000_0000 * (8 * q) + 8 * r;
    WrapAdds64(8 * q, 8 * r);
  }

  lemma LastBlock(msg: seq<Byte>, h: Hash, tail: seq<Byte>, block: seq<Byte>)
    requires State(h, tail) == After(msg + [0x80] + Zeros(ZeroCount(|msg|)))
    requires |tail| == 56 && block == tail + BeBytes(Wrap64(8 * |msg|), 8)
    ensures Compress(h, block) == Digest(msg)
  {
    var m := msg + [0x80] + Zeros(ZeroCount(|msg|));
    Absorb(INIT, m, BeBytes(Wrap64(8 * |msg|), 8));
    assert block[..BLOCK] == block && block[BLOCK..] == [];
  }

  lemma WrapSum(a: nat, b: nat)
    ensures Wrap64(Wrap64(a) + b) == Wrap64(a + b)
  {
    var q, r := a / 0x1_0000_0000_0000_0000, a % 0x1_0000_0000_0000_0000;
    assert a + b == 0x1_0000_0000_0000_0000 * q + (r + b);
    WrapAdds64(q, r + b);
  }

  /** However a message is cut into updates, the digest is the standard's digest of
      the whole. */
  method HashChunks(chunks: seq<seq<Byte>>) returns (digest: Hash)
    ensures digest == Digest(Flatten(chunks))
  {
    var s := new Stream();
    assert chunks[..0] == [];
    for i := 0 to |chunks|
      invariant s.Valid() && s.Now() == After(Flatten(chunks[..i])) && s.total == Wrap64(|Flatten(chunks[..i])|)
      invariant fresh(s)
    {
      FlattenNext(chunks, i);
      s.Feed(chunks[i], Flatten(chunks[..i]));
    }
    assert chunks[..|chunks|] == chunks;
    digest := s.Finalize(Flatten(chunks));
  }
}
