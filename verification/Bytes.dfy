/** Bytes and little-endian scalars as numbers, for the parts that never look
    at single bits. */
module Bytes {
  type Byte = b: int | 0 <= b < 256
  type U16 = n: int | 0 <= n < 0x1_0000
  type U32 = n: int | 0 <= n < 0x1_0000_0000

  const ERASED: Byte := 0xFF

  /** No block: littlefs's largest 32-bit number. */
  const BLOCK_NULL: U32 := 0xFFFF_FFFF

  datatype Option<T> = None | Some(value: T)

  function Min(a: nat, b: nat): nat {
    if a < b then a else b
  }

  function Zeros(n: nat): (r: seq<Byte>)
    ensures |r| == n
  {
    seq(n, i => 0)
  }

  /** Erased from `from` up to `to`. */
  predicate Blank(mem: seq<Byte>, from: nat, to: nat) {
    forall i :: from <= i < to && i < |mem| ==> mem[i] == ERASED
  }

  function Ones(n: nat): (r: seq<Byte>)
    ensures |r| == n && Blank(r, 0, n)
  {
    seq(n, i => ERASED)
  }

  /** 32-bit unsigned arithmetic. */
  function Wrap32(n: int): U32 {
    n % 0x1_0000_0000
  }

  lemma Remainder32(n: int, s: nat)
    requires s < 0x1_0000_0000
    ensures (0x1_0000_0000 * n + s) % 0x1_0000_0000 == s
  {
  }

  /** Multiples of the word size do not show. */
  lemma WrapAdds(q: int, z: nat)
    ensures Wrap32(0x1_0000_0000 * q + z) == Wrap32(z)
  {
    var k, s := z / 0x1_0000_0000, z % 0x1_0000_0000;
    Remainder32(q + k, s);
    assert 0x1_0000_0000 * q + z == 0x1_0000_0000 * (q + k) + s;
  }

  function Le16(n: U16): seq<Byte> {
    [n % 256, n / 256]
  }

  function Num16(b: seq<Byte>): U16
    requires |b| == 2
  {
    var lo: int, hi: int := b[0], b[1];
    lo + 256 * hi
  }

  function Le32(n: U32): seq<Byte> {
    var q := n / 0x1_0000;
    Le16(n % 0x1_0000) + Le16(q)
  }

  function Num32(b: seq<Byte>): U32
    requires |b| == 4
  {
    var lo: int, hi: int := Num16(b[..2]), Num16(b[2..]);
    lo + 0x1_0000 * hi
  }

  /** The last k bytes of a number, highest first. */
  function BeBytes(n: nat, k: nat): (r: seq<Byte>)
    ensures |r| == k
    decreases k
  {
    if k == 0 then [] else BeBytes(n / 256, k - 1) + [n % 256]
  }

  lemma Num16Le16(n: U16)
    ensures Num16(Le16(n)) == n
  {
  }

  lemma Num32Le32(n: U32)
    ensures Num32(Le32(n)) == n
  {
    assert Le32(n)[..2] == Le16(n % 0x1_0000) && Le32(n)[2..] == Le16(n / 0x1_0000);
  }

  lemma Num16Injective(b: seq<Byte>, d: seq<Byte>)
    requires |b| == 2 && |d| == 2 && Num16(b) == Num16(d)
    ensures b == d
  {
  }
}
