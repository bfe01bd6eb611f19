/** Base64 (section 4 of RFC 4648): the handshake's encoder and the upgrade
    protocol's decoder with its 32-bit accumulator. */
module Base64 {
  import opened Bytes

  const PAD: Byte := 0x3D

  /** The alphabet. */
  function Char(k: nat): Byte
    requires k < 64
  {
    if k < 26 then 65 + k else if k < 52 then 97 + (k - 26) else if k < 62 then 48 + (k - 52)
    else if k == 62 then 43 else 47
  }

  function Val(c: Byte): Option<nat> {
    if 65 <= c <= 90 then Some(c - 65)
    else if 97 <= c <= 122 then Some(c - 97 + 26)
    else if 48 <= c <= 57 then Some(c - 48 + 52)
    else if c == 43 then Some(62)
    else if c == 47 then Some(63)
    else None
  }

  lemma ValChar(k: nat)
    requires k < 64
    ensures Val(Char(k)) == Some(k) && Char(k) != PAD
  {
  }

  const COLUMN0: string := "ABCDEFGHIJKLMNOP"
  const COLUMN1: string := "QRSTUVWXYZabcdef"
  const COLUMN2: string := "ghijklmnopqrstuv"
  const COLUMN3: string := "wxyz0123456789+/"

  lemma Column0(i: nat)
    requires i < 16
    ensures |COLUMN0| == 16 && Char(i) == COLUMN0[i] as int
  {
    assert COLUMN0[0] == 'A' && COLUMN0[1] == 'B' && COLUMN0[2] == 'C' && COLUMN0[3] == 'D';
    assert COLUMN0[4] == 'E' && COLUMN0[5] == 'F' && COLUMN0[6] == 'G' && COLUMN0[7] == 'H';
    assert COLUMN0[8] == 'I' && COLUMN0[9] == 'J' && COLUMN0[10] == 'K' && COLUMN0[11] == 'L';
    assert COLUMN0[12] == 'M' && COLUMN0[13] == 'N' && COLUMN0[14] == 'O' && COLUMN0[15] == 'P';
  }

  lemma Column1(i: nat)
    requires i < 16
    ensures |COLUMN1| == 16 && Char(16 + i) == COLUMN1[i] as int
  {
    assert COLUMN1[0] == 'Q' && COLUMN1[1] == 'R' && COLUMN1[2] == 'S' && COLUMN1[3] == 'T';
    assert COLUMN1[4] == 'U' && COLUMN1[5] == 'V' && COLUMN1[6] == 'W' && COLUMN1[7] == 'X';
    assert COLUMN1[8] == 'Y' && COLUMN1[9] == 'Z' && COLUMN1[10] == 'a' && COLUMN1[11] == 'b';
    assert COLUMN1[12] == 'c' && COLUMN1[13] == 'd' && COLUMN1[14] == 'e' && COLUMN1[15] == 'f';
  }

  lemma Column2(i: nat)
    requires i < 16
    ensures |COLUMN2| == 16 && Char(32 + i) == COLUMN2[i] as int
  {
    assert COLUMN2[0] == 'g' && COLUMN2[1] == 'h' && COLUMN2[2] == 'i' && COLUMN2[3] == 'j';
    assert COLUMN2[4] == 'k' && COLUMN2[5] == 'l' && COLUMN2[6] == 'm' && COLUMN2[7] == 'n';
    assert COLUMN2[8] == 'o' && COLUMN2[9] == 'p' && COLUMN2[10] == 'q' && COLUMN2[11] == 'r';
    assert COLUMN2[12] == 's' && COLUMN2[13] == 't' && COLUMN2[14] == 'u' && COLUMN2[15] == 'v';
  }

  lemma Column3(i: nat)
    requires i < 16
    ensures |COLUMN3| == 16 && Char(48 + i) == COLUMN3[i] as int
  {
    assert COLUMN3[0] == 'w' && COLUMN3[1] == 'x' && COLUMN3[2] == 'y' && COLUMN3[3] == 'z';
    assert COLUMN3[4] == '0' && COLUMN3[5] == '1' && COLUMN3[6] == '2' && COLUMN3[7] == '3';
    assert COLUMN3[8] == '4' && COLUMN3[9] == '5' && COLUMN3[10] == '6' && COLUMN3[11] == '7';
    assert COLUMN3[12] == '8' && COLUMN3[13] == '9' && COLUMN3[14] == '+' && COLUMN3[15] == '/';
  }

  function FourColumns(a: string, b: string, c: string, d: string, k: nat): char
    requires |a| == 16 && |b| == 16 && |c| == 16 && |d| == 16 && k < 64
  {
    (a + b + c + d)[k]
  }

  lemma ColumnOf(a: string, b: string, c: string, d: string, k: nat)
    requires |a| == 16 && |b| == 16 && |c| == 16 && |d| == 16 && k < 64
    ensures FourColumns(a, b, c, d, k) == if k < 16 then a[k] else if k < 32 then b[k - 16]
                                          else if k < 48 then c[k - 32] else d[k - 48]
  {
  }

  /** It is the standard one (table 1 of RFC 4648), column by column. */
  lemma AlphabetIs(k: nat)
    requires k < 64
    ensures |COLUMN0| == 16 && |COLUMN1| == 16 && |COLUMN2| == 16 && |COLUMN3| == 16
    ensures Char(k) == FourColumns(COLUMN0, COLUMN1, COLUMN2, COLUMN3, k) as int
  {
    ColumnOf(COLUMN0, COLUMN1, COLUMN2, COLUMN3, k);
    if k < 16 {
      Column0(k);
    } else if k < 32 {
      Column1(k - 16);
    } else if k < 48 {
      Column2(k - 32);
    } else {
      Column3(k - 48);
    }
  }

  /** In both directions: a character has a value if and only if it stands for it. */
  lemma ValIff(k: nat, c: Byte)
    ensures Val(c) == Some(k) <==> k < 64 && Char(k) == c
  {
  }

  /* ---- encoding ---- */

  /** The characters that carry data, without padding. */
  function DataChars(src: seq<Byte>): seq<Byte>
    decreases |src|
  {
    if src == [] then []
    else if |src| == 1 then Two(src[0])
    else if |src| == 2 then Three(src[0], src[1])
    else Four(src[0], src[1], src[2]) + DataChars(src[3..])
  }

  function Two(a: Byte): seq<Byte> {
    [Char(a / 4), Char(a % 4 * 16)]
  }

  function Three(a: Byte, b: Byte): seq<Byte> {
    [Char(a / 4), Char(a % 4 * 16 + b / 16), Char(b % 16 * 4)]
  }

  function Four(a: Byte, b: Byte, c: Byte): seq<Byte> {
    [Char(a / 4), Char(a % 4 * 16 + b / 16), Char(b % 16 * 4 + c / 64), Char(c % 64)]
  }

  function Padding(n: nat): seq<Byte> {
    if n % 3 == 1 then [PAD, PAD] else if n % 3 == 2 then [PAD] else []
  }

  function Encode(src: seq<Byte>): seq<Byte> {
    DataChars(src) + Padding(|src|)
  }

  /* ---- decoding ---- */

  datatype Acc = Acc(acc: U32, nbits: nat, out: seq<Byte>)

  function Power2(n: nat): nat {
    if n == 0 then 1 else if n == 2 then 4 else if n == 4 then 16 else 64
  }

  /** One character; the accumulator keeps 32 bits, a byte leaves when there
      are eight. */
  function Step(a: Acc, c: Byte, cap: nat): Option<Acc> {
    if Val(c).None? then None
    else
      var acc := Wrap32(a.acc * 64 + Val(c).value);
      var n := a.nbits + 6;
      if n < 8 then Some(Acc(acc, n, a.out))
      else if |a.out| >= cap then None
      else Some(Acc(acc, n - 8, a.out + [acc / Power2(n - 8) % 256]))
  }

  function Steps(a: Acc, cs: seq<Byte>, cap: nat): Option<Acc>
    decreases |cs|
  {
    if cs == [] then Some(a)
    else
      var s := Step(a, cs[0], cap);
      if s.None? then None else Steps(s.value, cs[1..], cap)
  }

  /** Length of the part before the first padding character. */
  function DataLen(inp: seq<Byte>): (n: nat)
    ensures n <= |inp|
  {
    if inp == [] || inp[0] == PAD then 0 else 1 + DataLen(inp[1..])
  }

  /** `b64_decode` into a buffer of `cap` bytes. */
  function Decode(inp: seq<Byte>, cap: nat): Option<seq<Byte>> {
    var n := DataLen(inp);
    if |inp| - n > 2 || |inp| % 4 != 0 then None
    else
      var r := Steps(Acc(0, 0, []), inp[..n], cap);
      if r.None? then None else Some(r.value.out)
  }

  /* ---- the accumulator ---- */

  lemma Rest256(q: int, r: nat)
    ensures (256 * q + r) % 256 == r % 256
  {
  }

  lemma Quotient16(k: nat, r: nat)
    ensures (16 * k + r) / 16 == k + r / 16
  {
  }

  lemma Quotient4(k: nat, r: nat)
    ensures (4 * k + r) / 4 == k + r / 4
  {
  }

  // Dropped high bits do not reach the byte that leaves.
  lemma Dropped16(x: nat)
    ensures Wrap32(x) / 16 % 256 == x / 16 % 256
  {
    var q, r := x / 0x1_0000_0000, x % 0x1_0000_0000;
    assert x == 16 * (256 * (0x10_0000 * q)) + r;
    Quotient16(256 * (0x10_0000 * q), r);
    Rest256(0x10_0000 * q, r / 16);
  }

  lemma Dropped4(x: nat)
    ensures Wrap32(x) / 4 % 256 == x / 4 % 256
  {
    var q, r := x / 0x1_0000_0000, x % 0x1_0000_0000;
    assert x == 4 * (256 * (0x40_0000 * q)) + r;
    Quotient4(256 * (0x40_0000 * q), r);
    Rest256(0x40_0000 * q, r / 4);
  }

  lemma Dropped1(x: nat)
    ensures Wrap32(x) % 256 == x % 256
  {
    var q, r := x / 0x1_0000_0000, x % 0x1_0000_0000;
    assert x == 256 * (0x100_0000 * q) + r;
    Rest256(0x100_0000 * q, r);
  }

  lemma WrapTwice(x: nat, y: nat)
    ensures Wrap32(Wrap32(x) * 64 + y) == Wrap32(x * 64 + y)
  {
    var q, r := x / 0x1_0000_0000, x % 0x1_0000_0000;
    assert x * 64 + y == 0x1_0000_0000 * (64 * q) + (r * 64 + y);
    WrapAdds(64 * q, r * 64 + y);
  }

  /* ---- groups ---- */

  lemma StepsCons(a: Acc, c: nat, rest: seq<Byte>, cap: nat)
    requires c < 64
    ensures var acc := Wrap32(a.acc * 64 + c);
            Steps(a, [Char(c)] + rest, cap) ==
            if a.nbits + 6 < 8 then Steps(Acc(acc, a.nbits + 6, a.out), rest, cap)
            else if |a.out| >= cap then None
            else Steps(Acc(acc, a.nbits - 2, a.out + [acc / Power2(a.nbits - 2) % 256]), rest, cap)
  {
    ValChar(c);
    assert ([Char(c)] + rest)[1..] == rest;
  }

  // What the accumulator gives after two, three and four characters.
  lemma FirstByte(x: nat, a: Byte, b: nat, y: nat)
    requires b < 16 && y == (x * 64 + a / 4) * 64 + (a % 4 * 16 + b)
    ensures y == 16 * (256 * x + a) + b && Wrap32(y) / 16 % 256 == a
  {
    assert y == 16 * (256 * x + a) + b;
    Quotient16(256 * x + a, b);
    Rest256(x, a);
    Dropped16(y);
  }

  lemma SecondByte(x: nat, b: Byte, c: nat, y: nat)
    requires c < 4 && y == (16 * x + b / 16) * 64 + (b % 16 * 4 + c)
    ensures y == 4 * (256 * x + b) + c && Wrap32(y) / 4 % 256 == b
  {
    assert b == 16 * (b / 16) + b % 16;
    assert y == 4 * (256 * x + b) + c;
    Quotient4(256 * x + b, c);
    Rest256(x, b);
    Dropped4(y);
  }

  lemma ThirdByte(x: nat, c: Byte, y: nat)
    requires y == (4 * x + c / 64) * 64 + c % 64
    ensures Wrap32(y) % 256 == c
  {
    assert y == 256 * x + c;
    Rest256(x, c);
    Dropped1(y);
  }

  /** Two characters give one byte. */
  lemma TwoSteps(a: Acc, x: Byte, low: nat, rest: seq<Byte>, cap: nat) returns (acc: U32)
    requires a.nbits == 0 && low < 16
    ensures acc == Wrap32(16 * (256 * a.acc + x) + low)
    ensures Steps(a, [Char(x / 4)] + ([Char(x % 4 * 16 + low)] + rest), cap) ==
            if |a.out| >= cap then None else Steps(Acc(acc, 4, a.out + [x]), rest, cap)
  {
    var c1, c2 := x / 4, x % 4 * 16 + low;
    var y := (a.acc * 64 + c1) * 64 + c2;
    StepsCons(a, c1, [Char(c2)] + rest, cap);
    StepsCons(Acc(Wrap32(a.acc * 64 + c1), 6, a.out), c2, rest, cap);
    WrapTwice(a.acc * 64 + c1, c2);
    FirstByte(a.acc, x, low, y);
    acc := Wrap32(y);
  }

  lemma ThirdStep(a: Acc, x: nat, b: Byte, low: nat, rest: seq<Byte>, cap: nat) returns (acc: U32)
    requires a.nbits == 4 && a.acc == Wrap32(16 * x + b / 16) && low < 4
    ensures acc == Wrap32(4 * (256 * x + b) + low)
    ensures Steps(a, [Char(b % 16 * 4 + low)] + rest, cap) ==
            if |a.out| >= cap then None else Steps(Acc(acc, 2, a.out + [b]), rest, cap)
  {
    var c := b % 16 * 4 + low;
    var y := (16 * x + b / 16) * 64 + c;
    StepsCons(a, c, rest, cap);
    WrapTwice(16 * x + b / 16, c);
    SecondByte(x, b, low, y);
    acc := Wrap32(y);
  }

  lemma FourthStep(a: Acc, x: nat, c: Byte, rest: seq<Byte>, cap: nat) returns (acc: U32)
    requires a.nbits == 2 && a.acc == Wrap32(4 * x + c / 64)
    ensures Steps(a, [Char(c % 64)] + rest, cap) ==
            if |a.out| >= cap then None else Steps(Acc(acc, 0, a.out + [c]), rest, cap)
  {
    var y := (4 * x + c / 64) * 64 + c % 64;
    StepsCons(a, c % 64, rest, cap);
    WrapTwice(4 * x + c / 64, c % 64);
    ThirdByte(x, c, y);
    acc := Wrap32(y);
  }

  /** A group of four characters gives its three bytes back. */
  lemma FourSteps(a: Acc, x: Byte, y: Byte, z: Byte, rest: seq<Byte>, cap: nat) returns (acc: U32)
    requires a.nbits == 0
    ensures Steps(a, Four(x, y, z) + rest, cap) ==
            if |a.out| + 3 > cap then None else Steps(Acc(acc, 0, a.out + [x, y, z]), rest, cap)
  {
    var c1, c2, c3, c4 := Char(x / 4), Char(x % 4 * 16 + y / 16), Char(y % 16 * 4 + z / 64), Char(z % 64);
    var r3 := [c4] + rest;
    var r2 := [c3] + r3;
    assert Four(x, y, z) + rest == [c1] + ([c2] + r2);
    var a2 := TwoSteps(a, x, y / 16, r2, cap);
    var s2 := Acc(a2, 4, a.out + [x]);
    var a3 := ThirdStep(s2, 256 * a.acc + x, y, z / 64, r3, cap);
    var s3 := Acc(a3, 2, s2.out + [y]);
    acc := FourthStep(s3, 256 * (256 * a.acc + x) + y, z, rest, cap);
    assert s3.out + [z] == a.out + [x, y, z];
  }

  /* ---- whole strings ---- */

  /** The result of decoding `src` onto `a` with room for `cap` bytes. */
  predicate Decoded(r: Option<Acc>, a: Acc, src: seq<Byte>, cap: nat) {
    if |a.out| + |src| <= cap || src == [] then r.Some? && r.value.out == a.out + src else r == None
  }

  lemma LastOne(a: Acc, x: Byte, cap: nat)
    requires a.nbits == 0
    ensures Decoded(Steps(a, Two(x), cap), a, [x], cap)
  {
    assert Two(x) == [Char(x / 4)] + ([Char(x % 4 * 16 + 0)] + []);
    var acc := TwoSteps(a, x, 0, [], cap);
  }

  lemma LastTwo(a: Acc, x: Byte, y: Byte, cap: nat)
    requires a.nbits == 0
    ensures Decoded(Steps(a, Three(x, y), cap), a, [x, y], cap)
  {
    var last := [Char(y % 16 * 4 + 0)] + [];
    assert Three(x, y) == [Char(x / 4)] + ([Char(x % 4 * 16 + y / 16)] + last);
    var a2 := TwoSteps(a, x, y / 16, last, cap);
    var a3 := ThirdStep(Acc(a2, 4, a.out + [x]), 256 * a.acc + x, y, 0, [], cap);
    assert a.out + [x] + [y] == a.out + [x, y];
  }

  lemma GroupThenRest(r: Option<Acc>, a: Acc, next: Acc, src: seq<Byte>, cap: nat)
    requires |src| >= 3 && |a.out| + 3 <= cap && next.out == a.out + [src[0], src[1], src[2]]
    requires Decoded(r, next, src[3..], cap)
    ensures Decoded(r, a, src, cap)
  {
    assert src == [src[0], src[1], src[2]] + src[3..];
    assert next.out + src[3..] == a.out + src;
  }

  /** The decoder's loop over encoded data returns the data, as far as there
      is room. */
  lemma {:induction false} DataSteps(a: Acc, src: seq<Byte>, cap: nat)
    requires a.nbits == 0
    ensures Decoded(Steps(a, DataChars(src), cap), a, src, cap)
    decreases |src|
  {
    if src == [] {
      assert a.out + src == a.out;
    } else if |src| == 1 {
      assert src == [src[0]];
      LastOne(a, src[0], cap);
    } else if |src| == 2 {
      assert src == [src[0], src[1]];
      LastTwo(a, src[0], src[1], cap);
    } else {
      var acc := FourSteps(a, src[0], src[1], src[2], DataChars(src[3..]), cap);
      if |a.out| + 3 <= cap {
        var next := Acc(acc, 0, a.out + [src[0], src[1], src[2]]);
        DataSteps(next, src[3..], cap);
        GroupThenRest(Steps(next, DataChars(src[3..]), cap), a, next, src, cap);
      }
    }
  }

  predicate NoPad(s: seq<Byte>) {
    forall i :: 0 <= i < |s| ==> s[i] != PAD
  }

  lemma {:induction false} DataCharsNoPad(src: seq<Byte>)
    ensures NoPad(DataChars(src))
    decreases |src|
  {
    if |src| >= 3 {
      DataCharsNoPad(src[3..]);
      assert NoPad(Four(src[0], src[1], src[2]));
    }
  }

  lemma {:induction false} DataCharsLen(src: seq<Byte>)
    ensures (|DataChars(src)| + |Padding(|src|)|) % 4 == 0
    decreases |src|
  {
    if |src| >= 3 {
      DataCharsLen(src[3..]);
      assert |src[3..]| % 3 == |src| % 3;
    }
  }

  lemma {:induction false} DataLenOf(cs: seq<Byte>, tail: seq<Byte>)
    requires NoPad(cs) && (tail != [] ==> tail[0] == PAD)
    ensures DataLen(cs + tail) == |cs|
    decreases |cs|
  {
    if cs == [] {
      assert cs + tail == tail;
    } else {
      assert (cs + tail)[1..] == cs[1..] + tail;
      DataLenOf(cs[1..], tail);
    }
  }

  /** Decoding an encoded string returns it, for every string, if and only if
      the buffer has room for it. */
  lemma RoundTripIff(src: seq<Byte>, cap: nat)
    ensures Decode(Encode(src), cap) == Some(src) <==> |src| <= cap
  {
    var cs, pad := DataChars(src), Padding(|src|);
    DataCharsNoPad(src);
    DataCharsLen(src);
    DataLenOf(cs, pad);
    assert (cs + pad)[..|cs|] == cs;
    DataSteps(Acc(0, 0, []), src, cap);
    assert [] + src == src;
  }

  /* ---- which inputs are accepted ---- */

  predicate AllData(cs: seq<Byte>) {
    forall i :: 0 <= i < |cs| ==> Val(cs[i]).Some?
  }

  lemma {:induction false} StepsIff(a: Acc, cs: seq<Byte>, cap: nat)
    requires a.nbits < 8 && |a.out| <= cap
    ensures var r := Steps(a, cs, cap); var n := (a.nbits + 6 * |cs|) / 8;
            && (r.Some? <==> AllData(cs) && |a.out| + n <= cap)
            && (r.Some? ==> |r.value.out| == |a.out| + n)
    decreases |cs|
  {
    if cs != [] {
      var s := Step(a, cs[0], cap);
      assert AllData(cs) <==> Val(cs[0]).Some? && AllData(cs[1..]) by {
        assert cs == [cs[0]] + cs[1..];
      }
      if s.Some? { StepsIff(s.value, cs[1..], cap); }
    }
  }

  /** An input is accepted if and only if its length is a multiple of four, at most two
      characters stand from the first padding on, those before it are of the alphabet,
      and the bytes they hold fit; what stands behind the first padding is not looked at. */
  lemma AcceptedIff(inp: seq<Byte>, cap: nat)
    ensures var n := DataLen(inp); var r := Decode(inp, cap);
            && (r.Some? <==> |inp| % 4 == 0 && |inp| <= n + 2 && AllData(inp[..n]) && 6 * n / 8 <= cap)
            && (r.Some? ==> |r.value| == 6 * n / 8)
            && (forall i :: 0 <= i < n ==> inp[i] != PAD) && (n < |inp| ==> inp[n] == PAD)
  {
    StepsIff(Acc(0, 0, []), inp[..DataLen(inp)], cap);
    DataLenIs(inp);
  }

  lemma {:induction false} DataLenIs(inp: seq<Byte>)
    ensures var n := DataLen(inp);
            (forall i :: 0 <= i < n ==> inp[i] != PAD) && (n < |inp| ==> inp[n] == PAD)
    decreases |inp|
  {
    if inp != [] && inp[0] != PAD {
      DataLenIs(inp[1..]);
      assert inp == [inp[0]] + inp[1..];
    }
  }

  /** So an invalid character passes there, whichever it is. */
  lemma JunkPasses(c: Byte, cap: nat)
    requires cap > 0
    ensures Decode([65, 65, PAD, c], cap).Some?
  {
    var inp := [65, 65, PAD, c];
    assert inp[1..] == [65, PAD, c] && [65, PAD, c][1..] == [PAD, c];
    assert DataLen([PAD, c]) == 0;
    assert DataLen([65, PAD, c]) == 1 + DataLen([PAD, c]);
    assert DataLen(inp) == 1 + DataLen([65, PAD, c]);
    assert inp[..2] == [65, 65];
    AcceptedIff(inp, cap);
  }

  /* ---- the loops ---- */

  method B64Decode(inp: seq<Byte>, cap: nat) returns (r: Option<seq<Byte>>)
    ensures r == Decode(inp, cap)
  {
    var n := DataLen(inp);
    if |inp| - n > 2 || |inp| % 4 != 0 {
      return None;
    }
    var a := Acc(0, 0, []);
    var i := 0;
    while i < n
      invariant i <= n && Steps(a, inp[i..n], cap) == Steps(Acc(0, 0, []), inp[..n], cap)
    {
      assert inp[i..n][1..] == inp[i + 1..n];
      var s := Step(a, inp[i], cap);
      if s.None? {
        return None;
      }
      a := s.value;
      i := i + 1;
    }
    r := Some(a.out);
  }

  lemma SplitTop(a: Byte, b: Byte, c: Byte, v: nat)
    requires v == a * 0x1_0000 + b * 0x100 + c
    ensures v / 0x4_0000 % 64 == a / 4
  {
    assert v == 0x4_0000 * (a / 4) + (a % 4 * 0x1_0000 + b * 0x100 + c);
  }

  lemma Parts4096(q: nat, r: nat)
    requires r < 0x1000
    ensures (0x1000 * q + r) / 0x1000 == q
  {
  }

  lemma Parts64(q: nat, r: nat)
    requires r < 64
    ensures (64 * q + r) % 64 == r && (64 * q + r) / 64 == q
  {
  }

  lemma SplitSecond(a: Byte, b: Byte, c: Byte, v: nat)
    requires v == a * 0x1_0000 + b * 0x100 + c
    ensures v / 0x1000 % 64 == a % 4 * 16 + b / 16
  {
    var q := a * 16 + b / 16;
    assert v == 0x1000 * q + (b % 16 * 0x100 + c);
    Parts4096(q, b % 16 * 0x100 + c);
    assert q == 64 * (a / 4) + (a % 4 * 16 + b / 16);
    Parts64(a / 4, a % 4 * 16 + b / 16);
  }

  lemma SplitThird(a: Byte, b: Byte, c: Byte, v: nat)
    requires v == a * 0x1_0000 + b * 0x100 + c
    ensures v / 64 % 64 == b % 16 * 4 + c / 64 && v % 64 == c % 64
  {
    var q := a * 0x400 + b * 4 + c / 64;
    Parts64(q, c % 64);
    assert v == 64 * q + c % 64;
    Parts64(a * 16 + b / 16, b % 16 * 4 + c / 64);
    assert q == 64 * (a * 16 + b / 16) + (b % 16 * 4 + c / 64);
  }

  /** One chunk of up to three bytes as four characters. */
  function Group(chunk: seq<Byte>): (r: seq<Byte>)
    requires 1 <= |chunk| <= 3
    ensures |r| == 4
  {
    if |chunk| == 1 then Two(chunk[0]) + [PAD, PAD]
    else if |chunk| == 2 then Three(chunk[0], chunk[1]) + [PAD]
    else Four(chunk[0], chunk[1], chunk[2])
  }

  method EncodeChunk(chunk: seq<Byte>) returns (chars: seq<Byte>)
    requires 1 <= |chunk| <= 3
    ensures chars == Group(chunk)
  {
    var a: int := chunk[0];
    var b: int := if |chunk| > 1 then chunk[1] else 0;
    var c: int := if |chunk| > 2 then chunk[2] else 0;
    var v := a * 0x1_0000 + b * 0x100 + c;
    SplitTop(a, b, c, v);
    SplitSecond(a, b, c, v);
    SplitThird(a, b, c, v);
    var keep := |chunk| + 1;
    chars := [Char(v / 0x4_0000 % 64), Char(v / 0x1000 % 64),
              if keep > 2 then Char(v / 64 % 64) else PAD, if keep > 3 then Char(v % 64) else PAD];
  }

  lemma EncodeGroup(src: seq<Byte>, n: nat)
    requires src != [] && n == Min(3, |src|)
    ensures Encode(src) == Group(src[..n]) + Encode(src[n..])
  {
    if |src| < 3 {
      assert src[..n] == src && src[n..] == [];
    } else {
      assert |src[3..]| % 3 == |src| % 3;
      assert src[..3][0] == src[0] && src[..3][1] == src[1] && src[..3][2] == src[2];
    }
  }

  function Groups(src: seq<Byte>): seq<Byte>
    decreases |src|
  {
    if src == [] then [] else Group(src[..Min(3, |src|)]) + Groups(src[Min(3, |src|)..])
  }

  lemma {:induction false} EncodeIsGroups(src: seq<Byte>)
    ensures Encode(src) == Groups(src)
    decreases |src|
  {
    if src != [] {
      EncodeGroup(src, Min(3, |src|));
      EncodeIsGroups(src[Min(3, |src|)..]);
    }
  }

  function Cut(s: seq<Byte>, cap: nat): seq<Byte> {
    s[..Min(|s|, cap)]
  }

  method Emit(before: seq<Byte>, chars: seq<Byte>, cap: nat, ghost done: seq<Byte>) returns (dst: seq<Byte>)
    requires before == Cut(done, cap)
    ensures dst == Cut(done + chars, cap)
  {
    dst := before;
    assert done + chars[..0] == done;
    for i := 0 to |chars|
      invariant dst == Cut(done + chars[..i], cap)
    {
      if |dst| < cap {
        dst := dst + [chars[i]];
      }
      assert done + chars[..i + 1] == done + chars[..i] + [chars[i]];
    }
    assert chars[..|chars|] == chars;
  }

  method EncodeChunks(src: seq<Byte>, cap: nat) returns (dst: seq<Byte>)
    ensures dst == Cut(Groups(src), cap)
  {
    dst := [];
    var rest := src;
    ghost var done := [];
    while rest != []
      invariant done + Groups(rest) == Groups(src) && dst == Cut(done, cap)
      decreases |rest|
    {
      var n := Min(3, |rest|);
      var chars := EncodeChunk(rest[..n]);
      dst := Emit(dst, chars, cap, done);
      Regroup(done, chars, Groups(rest[n..]));
      done := done + chars;
      rest := rest[n..];
    }
    assert done + Groups([]) == done;
  }

  lemma Regroup(a: seq<Byte>, b: seq<Byte>, c: seq<Byte>)
    ensures a + b + c == a + (b + c)
  {
  }

  /** `b64_encode`: characters beyond the buffer are dropped. */
  method B64Encode(src: seq<Byte>, cap: nat) returns (dst: seq<Byte>)
    ensures dst == Cut(Encode(src), cap)
  {
    dst := EncodeChunks(src, cap);
    EncodeIsGroups(src);
  }
}
