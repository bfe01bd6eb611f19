/** The checksums: bit-serial CRC-16/CRC-32, the byte-parallel CRC-16 of the
    upgrade protocol and the nibble-table CRC-32 of littlefs. The polynomials
    are reflected, so a register shifts to the right. */
module Crc {
  import opened Bits
  import opened Bytes
  import opened Words

  /* ---- one register, any polynomial ---- */

  function Shift(p: Word, c: Word): Word {
    if 0 in c then Xor(Shr(c, 1), p) else Shr(c, 1)
  }

  function Shifts(p: Word, c: Word, n: nat): Word
    decreases n
  {
    if n == 0 then c else Shift(p, Shifts(p, c, n - 1))
  }

  /** The register after one byte, and after a message. */
  function Feed(p: Word, c: Word, b: Word): Word {
    Shifts(p, Xor(c, b), 8)
  }

  function Crc(p: Word, c: Word, data: seq<Word>): Word
    decreases |data|
  {
    if data == [] then c else Crc(p, Feed(p, c, data[0]), data[1..])
  }

  predicate IsBytes(data: seq<Word>) {
    forall k :: 0 <= k < |data| ==> Fits(data[k], 8)
  }

  /** Continuing a CRC over more data is the CRC of the whole. */
  lemma {:induction false} CrcConcat(p: Word, c: Word, a: seq<Word>, b: seq<Word>)
    ensures Crc(p, c, a + b) == Crc(p, Crc(p, c, a), b)
    decreases |a|
  {
    if a == [] {
      assert a + b == b;
    } else {
      assert (a + b)[1..] == a[1..] + b;
      CrcConcat(p, Feed(p, c, a[0]), a[1..], b);
    }
  }

  lemma CrcNext(p: Word, c: Word, data: seq<Word>, i: nat)
    requires i < |data|
    ensures Crc(p, c, data[..i + 1]) == Feed(p, Crc(p, c, data[..i]), data[i])
  {
    assert data[..i + 1] == data[..i] + [data[i]];
    CrcConcat(p, c, data[..i], [data[i]]);
  }

  /** The bit loop for one byte. */
  method BitLoop(p: Word, crc: Word, b: Word) returns (r: Word)
    ensures r == Feed(p, crc, b)
  {
    r := Xor(crc, b);
    for k := 0 to 8
      invariant r == Shifts(p, Xor(crc, b), k)
    {
      r := if 0 in r then Xor(Shr(r, 1), p) else Shr(r, 1);
    }
  }

  /** The bit-serial loops: `crc16_modbus`, `crc16_ccitt_seed` and, before its
      final inversion, `crc32_ieee`. */
  method SerialCrc(p: Word, seed: Word, data: seq<Word>) returns (crc: Word)
    ensures crc == Crc(p, seed, data)
  {
    crc := seed;
    for i := 0 to |data|
      invariant crc == Crc(p, seed, data[..i])
    {
      crc := BitLoop(p, crc, data[i]);
      CrcNext(p, seed, data, i);
    }
    assert data[..|data|] == data;
  }

  lemma {:induction false} ShiftsAdd(p: Word, c: Word, m: nat, n: nat)
    ensures Shifts(p, c, m + n) == Shifts(p, Shifts(p, c, m), n)
    decreases n
  {
    if n > 0 {
      ShiftsAdd(p, c, m, n - 1);
      assert Shifts(p, c, m + n) == Shift(p, Shifts(p, c, m + n - 1));
    }
  }

  /* ---- four shifts at once ---- */

  /** What the lowest four bits of a word add to the register. */
  predicate RowBit(p: Word, l: Word, i: nat) {
    ((0 in l && i + 3 in p) != (1 in l && i + 2 in p)) != ((2 in l && i + 1 in p) != (3 in l && i in p))
  }

  lemma ShiftBit(p: Word, c: Word, i: nat)
    ensures i in Shift(p, c) <==> (i + 1 in c) != (0 in c && i in p)
  {
    ShrBit(c, 1, i);
  }

  // Two shifts, when the polynomial's lowest bit is clear.
  lemma TwoShifts(p: Word, x: Word, i: nat)
    requires 0 !in p
    ensures i in Shift(p, Shift(p, x)) <==>
            (i + 2 in x) != ((0 in x && i + 1 in p) != (1 in x && i in p))
  {
    ShiftBit(p, Shift(p, x), i);
    ShiftBit(p, x, i + 1);
    ShiftBit(p, x, 0);
  }

  /** A polynomial without the bits 0 to 2 does not feed back within four shifts. */
  lemma FourShifts(p: Word, x: Word, i: nat)
    requires 0 !in p && 1 !in p && 2 !in p
    ensures i in Shifts(p, x, 4) <==> (i + 4 in x) != RowBit(p, x, i)
  {
    assert Shifts(p, x, 4) == Shift(p, Shift(p, Shift(p, Shift(p, x))));
    var s := Shift(p, Shift(p, x));
    TwoShifts(p, s, i);
    TwoShifts(p, x, i + 2);
    TwoShifts(p, x, 0);
    TwoShifts(p, x, 1);
  }

  /* ---- CRC-32 through the nibble table ---- */

  // 0xedb88320
  const POLY32: Word := {5, 8, 9, 15, 19, 20, 21, 23, 24, 26, 27, 29, 30, 31}

  const RTABLE: seq<Word> := [
      /* 0x00000000 */ {},
      /* 0x1db71064 */ {2, 5, 6, 12, 16, 17, 18, 20, 21, 23, 24, 26, 27, 28},
      /* 0x3b6e20c8 */ {3, 6, 7, 13, 17, 18, 19, 21, 22, 24, 25, 27, 28, 29},
      /* 0x26d930ac */ {2, 3, 5, 7, 12, 13, 16, 19, 20, 22, 23, 25, 26, 29},
      /* 0x76dc4190 */ {4, 7, 8, 14, 18, 19, 20, 22, 23, 25, 26, 28, 29, 30},
      /* 0x6b6b51f4 */ {2, 4, 5, 6, 7, 8, 12, 14, 16, 17, 19, 21, 22, 24, 25, 27, 29, 30},
      /* 0x4db26158 */ {3, 4, 6, 8, 13, 14, 17, 20, 21, 23, 24, 26, 27, 30},
      /* 0x5005713c */ {2, 3, 4, 5, 8, 12, 13, 14, 16, 18, 28, 30},
      /* 0xedb88320 */ {5, 8, 9, 15, 19, 20, 21, 23, 24, 26, 27, 29, 30, 31},
      /* 0xf00f9344 */ {2, 6, 8, 9, 12, 15, 16, 17, 18, 19, 28, 29, 30, 31},
      /* 0xd6d6a3e8 */ {3, 5, 6, 7, 8, 9, 13, 15, 17, 18, 20, 22, 23, 25, 26, 28, 30, 31},
      /* 0xcb61b38c */ {2, 3, 7, 8, 9, 12, 13, 15, 16, 21, 22, 24, 25, 27, 30, 31},
      /* 0x9b64c2b0 */ {4, 5, 7, 9, 14, 15, 18, 21, 22, 24, 25, 27, 28, 31},
      /* 0x86d3d2d4 */ {2, 4, 6, 7, 9, 12, 14, 15, 16, 17, 20, 22, 23, 25, 26, 31},
      /* 0xa00ae278 */ {3, 4, 5, 6, 9, 13, 14, 15, 17, 19, 29, 31},
      /* 0xbdbdf21c */ {2, 3, 4, 9, 12, 13, 14, 15, 16, 18, 19, 20, 21, 23, 24, 26, 27, 28, 29, 31}]

  /** The number a word's lowest four bits spell. */
  function Nibble(x: Word): (r: nat)
    ensures r < 16
  {
    (if 0 in x then 1 else 0) + (if 1 in x then 2 else 0) + (if 2 in x then 4 else 0) + (if 3 in x then 8 else 0)
  }

  lemma RowLowEven(x: Word, i: nat)
    requires 3 !in x && 0 !in x
    ensures i in RTABLE[Nibble(x)] <==> RowBit(POLY32, x, i)
  {
  }

  lemma RowLowOdd(x: Word, i: nat)
    requires 3 !in x && 0 in x
    ensures i in RTABLE[Nibble(x)] <==> RowBit(POLY32, x, i)
  {
  }

  lemma RowHighEven(x: Word, i: nat)
    requires 3 in x && 0 !in x
    ensures i in RTABLE[Nibble(x)] <==> RowBit(POLY32, x, i)
  {
  }

  lemma RowHighOdd(x: Word, i: nat)
    requires 3 in x && 0 in x
    ensures i in RTABLE[Nibble(x)] <==> RowBit(POLY32, x, i)
  {
  }

  /** Every row of the table holds what its four bits add. */
  lemma RowCorrect(x: Word, i: nat)
    ensures i in RTABLE[Nibble(x)] <==> RowBit(POLY32, x, i)
  {
    if 3 in x {
      if 0 in x { RowHighOdd(x, i); } else { RowHighEven(x, i); }
    } else {
      if 0 in x { RowLowOdd(x, i); } else { RowLowEven(x, i); }
    }
  }

  /** One table look-up stands for four shifts. */
  method Lookup(x: Word) returns (row: Word)
    ensures Shifts(POLY32, x, 4) == Xor(Shr(x, 4), row)
  {
    row := RTABLE[Nibble(x)];
    TableRow(x, row);
  }

  lemma TableBit(x: Word, i: nat)
    ensures i in Shifts(POLY32, x, 4) <==> (i in Shr(x, 4)) != (i in RTABLE[Nibble(x)])
  {
    assert 0 !in POLY32 && 1 !in POLY32 && 2 !in POLY32;
    FourShifts(POLY32, x, i);
    ShrBit(x, 4, i);
    RowCorrect(x, i);
  }

  lemma TableRow(x: Word, row: Word)
    requires row == RTABLE[Nibble(x)]
    ensures Shifts(POLY32, x, 4) == Xor(Shr(x, 4), row)
  {
    forall i: nat ensures i in Shifts(POLY32, x, 4) <==> (i in Shr(x, 4)) != (i in row) {
      TableBit(x, i);
    }
  }

  lemma FirstRow(c: Word, b: Word, row: Word)
    ensures Xor(Xor(Shr(c, 4), row), Shr(b, 4)) == Xor(Shr(Xor(c, b), 4), row)
  {
    forall i: nat
      ensures i in Shr(Xor(c, b), 4) <==> (i in Shr(c, 4)) != (i in Shr(b, 4))
    {
      ShrBit(c, 4, i);
      ShrBit(b, 4, i);
      ShrBit(Xor(c, b), 4, i);
    }
  }

  lemma SecondRow(c: Word, b: Word)
    requires Fits(b, 8)
    ensures Shr(Xor(c, Shr(b, 4)), 4) == Shr(c, 4)
  {
    forall i: nat
      ensures i in Shr(Xor(c, Shr(b, 4)), 4) <==> i in Shr(c, 4)
    {
      ShrBit(c, 4, i);
      ShrBit(b, 4, i + 4);
      ShrBit(Xor(c, Shr(b, 4)), 4, i);
    }
  }

  /** One byte through the table: two rows do what eight shifts do. */
  method TableByte(c: Word, b: Word) returns (crc: Word)
    requires Fits(b, 8)
    ensures crc == Feed(POLY32, c, b)
  {
    ghost var s := Shifts(POLY32, Xor(c, b), 4);
    var row := Lookup(Xor(c, b));
    crc := Xor(Shr(c, 4), row);
    FirstRow(c, b, row);
    assert Xor(crc, Shr(b, 4)) == s;
    SecondRow(crc, b);
    row := Lookup(Xor(crc, Shr(b, 4)));
    crc := Xor(Shr(crc, 4), row);
    ShiftsAdd(POLY32, Xor(c, b), 4, 4);
  }

  const ONES32: Word := set i | 0 <= i < 32

  /** The value `crc32_ieee` returns. */
  function Ieee(data: seq<Word>): Word {
    Xor(Crc(POLY32, ONES32, data), ONES32)
  }

  function BitsOf(b: Byte): Word {
    set i | 0 <= i < 8 && BitAt(b, i)
  }

  /** The number the lowest k bits of a word spell. */
  function Value(w: Word, k: nat): (r: nat)
    ensures r < Pow2(k)
    decreases k
  {
    if k == 0 then 0 else (if 0 in w then 1 else 0) + 2 * Value(Shr(w, 1), k - 1)
  }

  function ByteOf(w: Word): Byte {
    Pow2Sixteen();
    Value(w, 8)
  }

  lemma {:induction false} ValueBit(w: Word, k: nat, i: nat)
    ensures BitAt(Value(w, k), i) <==> i < k && i in w
    decreases k
  {
    if k == 0 {
      ZeroBits(i);
    } else if i > 0 {
      assert Value(w, k) / 2 == Value(Shr(w, 1), k - 1);
      ValueBit(Shr(w, 1), k - 1, i - 1);
      ShrBit(w, 1, i - 1);
    }
  }

  /** Bits 0 to 7 of a word are read back from the byte they spell. */
  lemma ByteBits(w: Word)
    ensures BitsOf(ByteOf(w)) == Low(w, 8)
  {
    forall i: nat ensures i in BitsOf(ByteOf(w)) <==> i in Low(w, 8) {
      ValueBit(w, 8, i);
    }
  }

  function ToWords(data: seq<Byte>): (r: seq<Word>)
    ensures |r| == |data| && IsBytes(r)
  {
    seq(|data|, i requires 0 <= i < |data| => BitsOf(data[i]))
  }

  lemma ToWordsConcat(a: seq<Byte>, b: seq<Byte>)
    ensures ToWords(a + b) == ToWords(a) + ToWords(b)
  {
  }

  /** `crc32_ieee` over numeric bytes, little-endian. */
  function Crc32Bytes(data: seq<Byte>): (r: seq<Byte>)
    ensures |r| == 4
  {
    var w := Ieee(ToWords(data));
    [ByteOf(w), ByteOf(Shr(w, 8)), ByteOf(Shr(w, 16)), ByteOf(Shr(w, 24))]
  }

  /** `crc32_ieee`: bit by bit, from all ones, inverted. */
  method Crc32Ieee(data: seq<Word>) returns (crc: Word)
    ensures crc == Ieee(data)
  {
    crc := SerialCrc(POLY32, ONES32, data);
    crc := Xor(crc, ONES32);
  }

  /** `lfs_crc`: two table rows a byte, from any register. */
  method LfsCrc(seed: Word, data: seq<Word>) returns (crc: Word)
    requires IsBytes(data)
    ensures crc == Crc(POLY32, seed, data)
  {
    crc := seed;
    for i := 0 to |data|
      invariant crc == Crc(POLY32, seed, data[..i])
    {
      crc := TableByte(crc, data[i]);
      CrcNext(POLY32, seed, data, i);
    }
    assert data[..|data|] == data;
  }

  /** `lfs_crc` from all ones, inverted, is `crc32_ieee`. */
  method LfsIeee(data: seq<Word>) returns (crc: Word)
    requires IsBytes(data)
    ensures crc == Ieee(data)
  {
    crc := LfsCrc(ONES32, data);
    crc := Xor(crc, ONES32);
  }

  /* ---- a stored CRC checks to zero, and only the right one does ---- */

  lemma ShiftDown(p: Word, w: Word, n: nat)
    requires n > 0
    ensures Shift(p, Shl(w, n)) == Shl(w, n - 1)
  {
    ShlBit(w, n, 0);
    forall i: nat ensures i in Shift(p, Shl(w, n)) <==> i in Shl(w, n - 1) {
      ShiftBit(p, Shl(w, n), i);
      ShlBit(w, n, i + 1);
      ShlBit(w, n - 1, i);
    }
  }

  /** Zeros shifted in below a word leave as they came. */
  lemma {:induction false} ShiftsDown(p: Word, w: Word, n: nat)
    ensures Shifts(p, Shl(w, n), n) == w
    decreases n
  {
    if n == 0 {
      forall i: nat ensures i in Shl(w, 0) <==> i in w { ShlBit(w, 0, i); }
    } else {
      ShiftsAdd(p, Shl(w, n), 1, n - 1);
      assert Shifts(p, Shl(w, n), 1) == Shift(p, Shifts(p, Shl(w, n), 0));
      ShiftDown(p, w, n);
      ShiftsDown(p, w, n - 1);
    }
  }

  /** With its top bit in the polynomial, a register never forgets the bit it
      shifted out. */
  lemma ShiftInjective(p: Word, n: nat, a: Word, b: Word)
    requires n in p && Fits(a, n + 1) && Fits(b, n + 1) && Shift(p, a) == Shift(p, b)
    ensures a == b
  {
    ShiftBit(p, a, n);
    ShiftBit(p, b, n);
    forall i: nat ensures i in a <==> i in b {
      if i > 0 {
        ShiftBit(p, a, i - 1);
        ShiftBit(p, b, i - 1);
      }
    }
  }

  lemma {:induction false} ShiftsFit(p: Word, n: nat, c: Word, k: nat)
    requires Fits(p, n) && Fits(c, n)
    ensures Fits(Shifts(p, c, k), n)
    decreases k
  {
    if k > 0 {
      ShiftsFit(p, n, c, k - 1);
      var s := Shifts(p, c, k - 1);
      forall i: nat | i in Shift(p, s) ensures i < n { ShiftBit(p, s, i); }
    }
  }

  lemma {:induction false} ShiftsInjective(p: Word, n: nat, a: Word, b: Word, k: nat)
    requires n in p && Fits(p, n + 1) && Fits(a, n + 1) && Fits(b, n + 1)
    requires Shifts(p, a, k) == Shifts(p, b, k)
    ensures a == b
    decreases k
  {
    if k > 0 {
      ShiftsFit(p, n + 1, a, k - 1);
      ShiftsFit(p, n + 1, b, k - 1);
      ShiftInjective(p, n, Shifts(p, a, k - 1), Shifts(p, b, k - 1));
      ShiftsInjective(p, n, a, b, k - 1);
    }
  }

  /** The word a little-endian byte string spells. */
  function LeWord(bytes: seq<Word>): Word
    decreases |bytes|
  {
    if bytes == [] then {} else Xor(bytes[0], Shl(LeWord(bytes[1..]), 8))
  }

  lemma {:induction false} LeWordFits(bytes: seq<Word>)
    requires IsBytes(bytes)
    ensures Fits(LeWord(bytes), 8 * |bytes|)
    decreases |bytes|
  {
    if bytes != [] {
      var w := LeWord(bytes[1..]);
      LeWordFits(bytes[1..]);
      forall i: nat | i in Shl(w, 8) ensures i < 8 * |bytes| { ShlBit(w, 8, i); }
    }
  }

  /** One byte leaves `w` exactly when the register was that byte below `w`. */
  lemma Peel(p: Word, n: nat, c: Word, b: Word, w: Word)
    requires n in p && Fits(p, n + 1) && Fits(c, n + 1) && Fits(b, 8) && n >= 7 && Fits(Shl(w, 8), n + 1)
    ensures Feed(p, c, b) == w <==> c == Xor(b, Shl(w, 8))
  {
    ShiftsDown(p, w, 8);
    XorAlgebra(c, b);
    XorAlgebra(Shl(w, 8), b);
    if Feed(p, c, b) == w {
      ShiftsInjective(p, n, Xor(c, b), Shl(w, 8), 8);
    }
  }

  lemma FeedFits(p: Word, n: nat, c: Word, b: Word)
    requires Fits(p, n) && Fits(c, n) && Fits(b, n)
    ensures Fits(Feed(p, c, b), n)
  {
    ShiftsFit(p, n, Xor(c, b), 8);
  }

  lemma {:induction false} CrcFits(p: Word, n: nat, c: Word, data: seq<Word>)
    requires Fits(p, n) && Fits(c, n) && IsBytes(data) && n >= 8
    ensures Fits(Crc(p, c, data), n)
    decreases |data|
  {
    if data != [] {
      FeedFits(p, n, c, data[0]);
      CrcFits(p, n, Feed(p, c, data[0]), data[1..]);
    }
  }

  /** Trailing bytes that fit the register take it to zero exactly when they spell it. */
  lemma {:induction false} Annihilates(p: Word, n: nat, c: Word, bytes: seq<Word>)
    requires n in p && Fits(p, n + 1) && Fits(c, n + 1) && n >= 7
    requires IsBytes(bytes) && 8 * |bytes| <= n + 1
    ensures Crc(p, c, bytes) == {} <==> c == LeWord(bytes)
    decreases |bytes|
  {
    if bytes != [] {
      var w := LeWord(bytes[1..]);
      FeedFits(p, n + 1, c, bytes[0]);
      Annihilates(p, n, Feed(p, c, bytes[0]), bytes[1..]);
      LeWordFits(bytes[1..]);
      forall i: nat | i in Shl(w, 8) ensures i < n + 1 { ShlBit(w, 8, i); }
      Peel(p, n, c, bytes[0], w);
    }
  }

  /** A message followed by bytes that fill the register checks to zero exactly
      when those bytes spell the register of the message. */
  lemma TrailingCrc(p: Word, n: nat, seed: Word, a: seq<Word>, b: seq<Word>)
    requires n in p && Fits(p, n + 1) && n >= 7 && Fits(seed, n + 1)
    requires IsBytes(a) && IsBytes(b) && 8 * |b| <= n + 1
    ensures Crc(p, seed, a + b) == {} <==> Crc(p, seed, a) == LeWord(b)
  {
    CrcFits(p, n + 1, seed, a);
    CrcConcat(p, seed, a, b);
    Annihilates(p, n, Crc(p, seed, a), b);
  }

  function LeBytes(w: Word, k: nat): seq<Word>
    decreases k
  {
    if k == 0 then [] else [Low(w, 8)] + LeBytes(Shr(w, 8), k - 1)
  }

  lemma {:induction false} LeRoundTrip(w: Word, k: nat)
    requires Fits(w, 8 * k)
    ensures IsBytes(LeBytes(w, k)) && |LeBytes(w, k)| == k && LeWord(LeBytes(w, k)) == w
    decreases k
  {
    if k > 0 {
      var v := Shr(w, 8);
      forall i: nat | i in v ensures i < 8 * (k - 1) { ShrBit(w, 8, i); }
      LeRoundTrip(v, k - 1);
      assert LeBytes(w, k)[1..] == LeBytes(v, k - 1);
      forall i: nat ensures i in Xor(Low(w, 8), Shl(v, 8)) <==> i in w {
        ShlBit(v, 8, i);
        if i >= 8 { ShrBit(w, 8, i - 8); }
      }
    } else {
      assert w == {};
    }
  }

  /** A message followed by a stored CRC word checks to zero exactly when the
      word is the CRC register of the message. */
  lemma StoredCrc(p: Word, n: nat, seed: Word, data: seq<Word>, w: Word, k: nat)
    requires n in p && Fits(p, n + 1) && n >= 7 && 8 * k == n + 1
    requires Fits(seed, n + 1) && Fits(w, n + 1) && IsBytes(data)
    ensures Crc(p, seed, data + LeBytes(w, k)) == {} <==> w == Crc(p, seed, data)
  {
    LeRoundTrip(w, k);
    TrailingCrc(p, n, seed, data, LeBytes(w, k));
  }

  /* ---- CRC-16/CCITT without a bit loop ---- */

  // 0x8408
  const CCITT: Word := {3, 10, 15}

  // The row of a nibble is the nibble itself in three places.
  lemma RowPlaces(x: Word, i: nat)
    ensures RowBit(CCITT, x, i) <==>
            (i < 4 && i in x) || (7 <= i < 11 && i - 7 in x) || (12 <= i < 16 && i - 12 in x)
  {
  }

  lemma NibbleBit(x: Word, i: nat)
    ensures i in Shifts(CCITT, x, 4) <==>
            (i + 4 in x) !=
            ((i < 4 && i in x) || (7 <= i < 11 && i - 7 in x) || (12 <= i < 16 && i - 12 in x))
  {
    FourShifts(CCITT, x, i);
    RowPlaces(x, i);
  }

  // The folded byte: the low byte added to itself four places up.
  predicate FoldedBit(x: Word, i: int) {
    0 <= i < 8 && ((i in x) != (i >= 4 && i - 4 in x))
  }

  // Bit j < 4 of the first four shifts is bit j + 4 of the folded byte.
  lemma LowBits(x: Word, j: nat)
    requires j < 4
    ensures j in Shifts(CCITT, x, 4) <==> FoldedBit(x, j + 4)
  {
    NibbleBit(x, j);
  }

  lemma SecondRound(x: Word, s: Word, i: nat)
    requires s == Shifts(CCITT, x, 4)
    ensures i in Shifts(CCITT, x, 8) <==>
            (i + 4 in s) !=
            ((i < 4 && i in s) || (7 <= i < 11 && i - 7 in s) || (12 <= i < 16 && i - 12 in s))
  {
    ShiftsAdd(CCITT, x, 4, 4);
    NibbleBit(s, i);
  }

  lemma FirstRound(x: Word, s: Word, i: nat)
    requires s == Shifts(CCITT, x, 4)
    ensures i + 4 in s <==> (i + 8 in x) != ((3 <= i < 7 && i - 3 in x) || (8 <= i < 12 && i - 8 in x))
  {
    NibbleBit(x, i + 4);
  }

  // The two rounds together; `t` and `s` stand for eight and four shifts of x.
  predicate Rounds(x: Word, s: Word, t: Word, i: nat) {
    && (i in t <==> (i + 4 in s) !=
                    ((i < 4 && i in s) || (7 <= i < 11 && i - 7 in s) || (12 <= i < 16 && i - 12 in s)))
    && (i + 4 in s <==> (i + 8 in x) != ((3 <= i < 7 && i - 3 in x) || (8 <= i < 12 && i - 8 in x)))
    && (0 in s <==> FoldedBit(x, 4)) && (1 in s <==> FoldedBit(x, 5))
    && (2 in s <==> FoldedBit(x, 6)) && (3 in s <==> FoldedBit(x, 7))
  }

  predicate ParallelForm(x: Word, t: Word, i: nat) {
    i in t <==> (i + 8 in x) != (FoldedBit(x, i - 8) != (FoldedBit(x, i - 3) != FoldedBit(x, i + 4)))
  }

  lemma OctetLow(x: Word, s: Word, t: Word, i: nat)
    requires i < 7 && Rounds(x, s, t, i)
    ensures ParallelForm(x, t, i)
  {
  }

  lemma OctetMiddle(x: Word, s: Word, t: Word, i: nat)
    requires 7 <= i < 12 && Rounds(x, s, t, i)
    ensures ParallelForm(x, t, i)
  {
  }

  lemma OctetHigh(x: Word, s: Word, t: Word, i: nat)
    requires i >= 12 && Rounds(x, s, t, i)
    ensures ParallelForm(x, t, i)
  {
  }

  /** Eight shifts in closed form, bit by bit. */
  lemma OctetBit(x: Word, i: nat)
    ensures ParallelForm(x, Shifts(CCITT, x, 8), i)
  {
    var s, t := Shifts(CCITT, x, 4), Shifts(CCITT, x, 8);
    SecondRound(x, s, i);
    FirstRound(x, s, i);
    LowBits(x, 0);
    LowBits(x, 1);
    LowBits(x, 2);
    LowBits(x, 3);
    if i < 7 { OctetLow(x, s, t, i); } else if i < 12 { OctetMiddle(x, s, t, i); } else { OctetHigh(x, s, t, i); }
  }

  // The byte-parallel right-hand side, bit by bit.
  lemma ParallelBit(seed: Word, b: Word, e: Word, f: Word, i: nat)
    requires Fits(seed, 16) && Fits(b, 8)
    requires e == Low(Xor(seed, b), 8) && f == Xor(e, Low(Shl(e, 4), 8))
    ensures i in f <==> FoldedBit(Xor(seed, b), i)
  {
    ShlBit(e, 4, i);
  }

  /** One byte without a bit loop. */
  method ParallelByte(seed: Word, b: Word) returns (crc: Word)
    requires Fits(seed, 16) && Fits(b, 8)
    ensures crc == Feed(CCITT, seed, b)
    ensures Fits(crc, 16)
  {
    var e := Low(Xor(seed, b), 8);
    var f := Xor(e, Low(Shl(e, 4), 8));
    crc := Xor(Xor(Xor(Shr(seed, 8), Low(Shl(f, 8), 16)), Low(Shl(f, 3), 16)), Shr(f, 4));
    ParallelEight(seed, b, e, f, crc);
    FeedFits(CCITT, 16, seed, b);
  }

  lemma ParallelEight(seed: Word, b: Word, e: Word, f: Word, crc: Word)
    requires Fits(seed, 16) && Fits(b, 8)
    requires e == Low(Xor(seed, b), 8) && f == Xor(e, Low(Shl(e, 4), 8))
    requires crc == Xor(Xor(Xor(Shr(seed, 8), Low(Shl(f, 8), 16)), Low(Shl(f, 3), 16)), Shr(f, 4))
    ensures crc == Feed(CCITT, seed, b)
  {
    var x := Xor(seed, b);
    forall i: nat ensures i in f <==> FoldedBit(x, i) { ParallelBit(seed, b, e, f, i); }
    forall i: nat ensures i in crc <==> i in Shifts(CCITT, x, 8) {
      ShrBit(seed, 8, i);
      ShlBit(f, 8, i);
      ShlBit(f, 3, i);
      ShrBit(f, 4, i);
      OctetBit(x, i);
    }
  }

  /** The upgrade protocol's `crc16_ccitt`: no bit loop, any seed. */
  method ParallelCrc16(seed: Word, src: seq<Word>) returns (crc: Word)
    requires Fits(seed, 16) && IsBytes(src)
    ensures crc == Crc(CCITT, seed, src)
  {
    crc := seed;
    for i := 0 to |src|
      invariant crc == Crc(CCITT, seed, src[..i]) && Fits(crc, 16)
    {
      crc := ParallelByte(crc, src[i]);
      CrcNext(CCITT, seed, src, i);
    }
    assert src[..|src|] == src;
  }
}
