/** Four bytes of one's own choosing take a CRC register anywhere, so torn
    configuration records that pass for records exist: the failing side of
    `ConfigStore.TornIff` is not empty, at any generation. */
module Collision {
  import opened Bits
  import opened Bytes
  import opened Streams
  import opened Words
  import opened Crc
  import opened ConfigStore

  /* ---- running a register backwards ---- */

  /** The register before a shift; n is the polynomial's top bit. */
  function Unshift(p: Word, n: nat, c: Word): Word {
    if n in c then Shl(Xor(c, p), 1) + {0} else Shl(c, 1)
  }

  lemma UnshiftShift(p: Word, n: nat, c: Word)
    requires n in p && Fits(p, n + 1) && Fits(c, n + 1)
    ensures Shift(p, Unshift(p, n, c)) == c && Fits(Unshift(p, n, c), n + 1)
  {
    var u := Unshift(p, n, c);
    forall i: nat ensures i in Shift(p, u) <==> i in c {
      ShiftBit(p, u, i);
      ShlBit(Xor(c, p), 1, i + 1);
      ShlBit(c, 1, i + 1);
      ShlBit(c, 1, 0);
    }
    forall i: nat | i in u ensures i < n + 1 {
      ShlBit(Xor(c, p), 1, i);
      ShlBit(c, 1, i);
    }
  }

  /** Some register leads to c in k shifts. */
  lemma {:induction false} Origin(p: Word, n: nat, c: Word, k: nat) returns (u: Word)
    requires n in p && Fits(p, n + 1) && Fits(c, n + 1)
    ensures Fits(u, n + 1) && Shifts(p, u, k) == c
    decreases k
  {
    if k == 0 {
      u := c;
    } else {
      UnshiftShift(p, n, c);
      u := Origin(p, n, Unshift(p, n, c), k - 1);
    }
  }

  /** Some register leads to c over these bytes. */
  lemma {:induction false} OriginOver(p: Word, n: nat, c: Word, data: seq<Word>) returns (u: Word)
    requires n in p && Fits(p, n + 1) && Fits(c, n + 1) && n >= 7 && IsBytes(data)
    ensures Fits(u, n + 1) && Crc.Crc(p, u, data) == c
    decreases |data|
  {
    if data == [] {
      u := c;
    } else {
      var rest := OriginOver(p, n, c, data[1..]);
      var before := Origin(p, n, rest, 8);
      u := Xor(before, data[0]);
      XorAlgebra(before, data[0]);
    }
  }

  /* ---- feeding a word ---- */

  lemma ShiftXor(p: Word, a: Word, b: Word)
    ensures Shift(p, Xor(a, b)) == Xor(Shift(p, a), Shift(p, b))
  {
    forall i: nat ensures i in Shift(p, Xor(a, b)) <==> i in Xor(Shift(p, a), Shift(p, b)) {
      ShiftBit(p, Xor(a, b), i);
      ShiftBit(p, a, i);
      ShiftBit(p, b, i);
    }
  }

  /** Shifting is linear. */
  lemma {:induction false} ShiftsXor(p: Word, a: Word, b: Word, k: nat)
    ensures Shifts(p, Xor(a, b), k) == Xor(Shifts(p, a, k), Shifts(p, b, k))
    decreases k
  {
    if k > 0 {
      ShiftsXor(p, a, b, k - 1);
      ShiftXor(p, Shifts(p, a, k - 1), Shifts(p, b, k - 1));
    }
  }

  lemma LowAndRest(c: Word, w: Word)
    ensures Xor(Xor(c, Low(w, 8)), Shl(Shr(w, 8), 8)) == Xor(c, w)
  {
    forall i: nat ensures i in Xor(Xor(c, Low(w, 8)), Shl(Shr(w, 8), 8)) <==> i in Xor(c, w) {
      ShlBit(Shr(w, 8), 8, i);
      if i >= 8 { ShrBit(w, 8, i - 8); }
    }
  }

  lemma FeedLow(p: Word, c: Word, w: Word)
    ensures Xor(Feed(p, c, Low(w, 8)), Shr(w, 8)) == Shifts(p, Xor(c, w), 8)
  {
    ShiftsDown(p, Shr(w, 8), 8);
    ShiftsXor(p, Xor(c, Low(w, 8)), Shl(Shr(w, 8), 8), 8);
    LowAndRest(c, w);
  }

  lemma ShrFits(w: Word, k: nat)
    requires Fits(w, 8 * (k + 1))
    ensures Fits(Shr(w, 8), 8 * k)
  {
    forall i: nat | i in Shr(w, 8) ensures i < 8 * k { ShrBit(w, 8, i); }
  }

  function Iterate(g: Word -> Word, y: Word, k: nat): Word
    decreases k
  {
    if k == 0 then y else Iterate(g, g(y), k - 1)
  }

  // A fold over the bytes of a word, when one byte is one round of g.
  lemma {:induction false} FoldWord(f: (Word, Word) -> Word, g: Word -> Word, c: Word, w: Word, k: nat)
    requires forall x, y :: Xor(f(x, Low(y, 8)), Shr(y, 8)) == g(Xor(x, y))
    requires Fits(w, 8 * k)
    ensures Fold(f, c, LeBytes(w, k)) == Iterate(g, Xor(c, w), k)
    decreases k
  {
    if k == 0 {
      assert w == {};
    } else {
      ShrFits(w, k - 1);
      var rest := LeBytes(Shr(w, 8), k - 1);
      assert ([Low(w, 8)] + rest)[1..] == rest;
      FoldWord(f, g, f(c, Low(w, 8)), Shr(w, 8), k - 1);
    }
  }

  lemma {:induction false} CrcIsFold(p: Word, c: Word, data: seq<Word>, f: (Word, Word) -> Word)
    requires forall x, y :: f(x, y) == Feed(p, x, y)
    ensures Crc.Crc(p, c, data) == Fold(f, c, data)
    decreases |data|
  {
    if data != [] {
      assert f(c, data[0]) == Feed(p, c, data[0]);
      CrcIsFold(p, f(c, data[0]), data[1..], f);
    }
  }

  lemma {:induction false} ShiftsAreRounds(p: Word, y: Word, k: nat, bits: nat, e: nat, g: Word -> Word)
    requires bits == e * k && forall x :: g(x) == Shifts(p, x, e)
    ensures Iterate(g, y, k) == Shifts(p, y, bits)
    decreases k
  {
    if k > 0 {
      assert bits - e == e * (k - 1);
      ShiftsAreRounds(p, g(y), k - 1, bits - e, e, g);
      ShiftsAdd(p, y, e, bits - e);
    }
  }

  /** Feeding the bytes of a word is adding it and shifting it through. */
  lemma FeedWord(p: Word, c: Word, w: Word, k: nat, bits: nat)
    requires Fits(w, bits) && bits == 8 * k
    ensures Crc.Crc(p, c, LeBytes(w, k)) == Shifts(p, Xor(c, w), bits)
  {
    var f, g := (x, y) => Feed(p, x, y), x => Shifts(p, x, 8);
    forall x, y ensures Xor(f(x, Low(y, 8)), Shr(y, 8)) == g(Xor(x, y)) { FeedLow(p, x, y); }
    CrcIsFold(p, c, LeBytes(w, k), f);
    FoldWord(f, g, c, w, k);
    ShiftsAreRounds(p, Xor(c, w), k, bits, 8, g);
  }

  /** Between any bytes in front and behind, the bytes of some word, as wide as the
      register, bring it to zero. */
  lemma Steer(p: Word, n: nat, seed: Word, front: seq<Word>, back: seq<Word>, k: nat) returns (w: Word)
    requires n in p && Fits(p, n + 1) && Fits(seed, n + 1) && n >= 7 && 8 * k == n + 1
    requires IsBytes(front) && IsBytes(back)
    ensures Fits(w, 8 * k) && Crc.Crc(p, seed, front + LeBytes(w, k) + back) == {}
  {
    var r := Crc.Crc(p, seed, front);
    CrcFits(p, n + 1, seed, front);
    var t := OriginOver(p, n, {}, back);
    var u := Origin(p, n, t, 8 * k);
    w := Xor(r, u);
    assert Xor(r, w) == u;
    FeedWord(p, r, w, k, 8 * k);
    CrcConcat(p, seed, front, LeBytes(w, k));
    CrcConcat(p, seed, front + LeBytes(w, k), back);
  }

  /* ---- as numbers ---- */

  function NumBytes(w: Word, k: nat): (r: seq<Byte>)
    ensures |r| == k
    decreases k
  {
    if k == 0 then [] else [ByteOf(w)] + NumBytes(Shr(w, 8), k - 1)
  }

  lemma {:induction false} NumBytesWords(w: Word, k: nat)
    ensures ToWords(NumBytes(w, k)) == LeBytes(w, k)
    decreases k
  {
    if k > 0 {
      NumBytesWords(Shr(w, 8), k - 1);
      ByteBits(w);
      ToWordsConcat([ByteOf(w)], NumBytes(Shr(w, 8), k - 1));
      assert ToWords([ByteOf(w)]) == [BitsOf(ByteOf(w))];
    }
  }

  lemma {:induction false} OnesValue(w: Word, k: nat)
    requires forall i: nat :: i < k ==> i in w
    ensures Value(w, k) == Pow2(k) - 1
    decreases k
  {
    if k > 0 {
      forall i: nat | i < k - 1 ensures i in Shr(w, 1) { ShrBit(w, 1, i); }
      OnesValue(Shr(w, 1), k - 1);
    }
  }

  lemma OnesByte(k: nat)
    requires k <= 24
    ensures ByteOf(Shr(ONES32, k)) == 0xFF
  {
    forall i: nat | i < 8 ensures i in Shr(ONES32, k) { ShrBit(ONES32, k, i); }
    OnesValue(Shr(ONES32, k), 8);
  }

  /** A message that brings the register to zero has the checksum of erased flash. */
  lemma ZeroChecksum(data: seq<Byte>)
    requires Crc.Crc(POLY32, ONES32, ToWords(data)) == {}
    ensures Checksum(data) == Ones(4)
  {
    var w := Ieee(ToWords(data));
    assert w == ONES32 && Shr(w, 0) == w;
    OnesByte(0);
    OnesByte(8);
    OnesByte(16);
    OnesByte(24);
  }

  /** Four bytes between `front` and `back` give the whole that checksum. */
  lemma SteerBytes(front: seq<Byte>, back: seq<Byte>) returns (x: seq<Byte>)
    ensures |x| == 4 && Checksum(front + x + back) == Ones(4)
  {
    var w := Steer(POLY32, 31, ONES32, ToWords(front), ToWords(back), 4);
    x := NumBytes(w, 4);
    NumBytesWords(w, 4);
    ToWordsConcat(front, x);
    ToWordsConcat(front + x, back);
    ZeroChecksum(front + x + back);
  }

  /* ---- the records ---- */

  lemma PackedBack(b: seq<Byte>)
    requires |b| == 26
    ensures ToBytes(Fields(FromBytes(b))) == b
  {
    FromToBytes(FromBytes(b));
    FromBytesInjective(ToBytes(Fields(FromBytes(b))), b);
  }

  /** Header bytes of every record of a generation. */
  function Header(gen: U32): (r: seq<Byte>)
    ensures |r| == 10
  {
    MAGIC + Le32(gen) + Le16(26)
  }

  lemma TornPrefix(r: Rec, body: seq<Byte>, k: nat)
    requires 10 <= k < 36 && r[..36] == body
    ensures Torn(r, k)[..36] == body[..k] + Ones(36 - k)
  {
    assert r[..k] == body[..k];
  }

  lemma BodyOf(gen: U32, b: seq<Byte>)
    requires |b| == 26
    ensures Body(FromBytes(b), gen) == Header(gen) + b
    ensures Record(FromBytes(b), gen)[..36] == Header(gen) + b
  {
    PackedBack(b);
    RecordParts(FromBytes(b), gen);
  }

  lemma TornOf(gen: U32, b: seq<Byte>, k: nat)
    requires |b| == 26 && 10 <= k < 36
    ensures Torn(Record(FromBytes(b), gen), k)[..36] == Header(gen) + b[..k - 10] + Ones(36 - k)
  {
    BodyOf(gen, b);
    TornPrefix(Record(FromBytes(b), gen), Header(gen) + b, k);
    assert (Header(gen) + b)[..k] == Header(gen) + b[..k - 10];
  }

  // With such a checksum the torn record is valid, and wrong if it lost a byte.
  lemma CollidingBytes(gen: U32, b: seq<Byte>, k: nat) returns (other: IoCfg)
    requires |b| == 26 && 10 <= k < 36 && b[k - 10] != 0xFF
    requires Checksum(Header(gen) + b[..k - 10] + Ones(36 - k)) == Ones(4)
    ensures !NoCollision(FromBytes(b), gen, k) && other != FromBytes(b)
    ensures Decode(Torn(Record(FromBytes(b), gen), k)) == Some((other, gen))
  {
    var c := FromBytes(b);
    var t := Torn(Record(c, gen), k);
    TornOf(gen, b, k);
    BodyOf(gen, b);
    TornBody(c, gen, k);
    TornBodySame(c, gen, k);
    assert t[..36][k] == 0xFF && Body(c, gen)[k] == b[k - 10];
    other := FromBytes(t[10..36]);
  }

  lemma Chosen(h: seq<Byte>, z: seq<Byte>, x: seq<Byte>, back: seq<Byte>, n: nat)
    requires n == |z| + |x|
    ensures (z + x + back)[..n] == z + x && h + (z + x) == h + z + x
  {
  }

  /** At every generation and every cut with four field bytes in front of it, there
      is a configuration whose torn record is valid and says something else. */
  lemma TornCollides(gen: U32, k: nat) returns (c: IoCfg, other: IoCfg)
    requires 14 <= k < 36
    ensures !NoCollision(c, gen, k) && other != c
    ensures Decode(Torn(Record(c, gen), k)) == Some((other, gen))
  {
    var h, z, back := Header(gen), Zeros(k - 14), Zeros(36 - k);
    var x := SteerBytes(h + z, Ones(36 - k));
    Chosen(h, z, x, back, k - 10);
    assert (z + x + back)[k - 10] == back[0] == 0;
    c := FromBytes(z + x + back);
    other := CollidingBytes(gen, z + x + back, k);
  }
}
