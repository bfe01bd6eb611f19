/** Bit counting on unbounded naturals: the reference forms behind the
    littlefs helpers `lfs_ctz`, `lfs_popc` and `lfs_npw2`. */
module Bits {

  function Pow2(k: nat): (r: nat)
    ensures r >= 1
  {
    if k == 0 then 1 else 2 * Pow2(k - 1)
  }

  /** Number of trailing zero bits (`lfs_ctz`); zero has none here. */
  function Ctz(n: nat): nat {
    if n == 0 || n % 2 == 1 then 0 else 1 + Ctz(n / 2)
  }

  /** Number of one bits (`lfs_popc`). */
  function Popc(n: nat): nat {
    if n == 0 then 0 else n % 2 + Popc(n / 2)
  }

  /** Position of the highest one bit. */
  function Log2(n: nat): nat
    requires n > 0
  {
    if n == 1 then 0 else 1 + Log2(n / 2)
  }

  /** `lfs_npw2(a) == 32 - clz(a - 1)`, defined for a >= 2. */
  function Npw2(a: nat): nat
    requires a >= 2
  {
    Log2(a - 1) + 1
  }

  lemma {:induction false} Log2Bounds(n: nat)
    requires n > 0
    ensures Pow2(Log2(n)) <= n < Pow2(Log2(n) + 1)
  {
    if n > 1 { Log2Bounds(n / 2); }
  }

  lemma {:induction false} Log2Monotone(m: nat, n: nat)
    requires 0 < m <= n
    ensures Log2(m) <= Log2(n)
  {
    if m > 1 { Log2Monotone(m / 2, n / 2); }
  }

  lemma {:induction false} Log2Below(n: nat, k: nat)
    requires 0 < n < Pow2(k)
    ensures Log2(n) < k
  {
    if n > 1 { Log2Below(n / 2, k - 1); }
  }

  lemma {:induction false} PopcBelow(n: nat, k: nat)
    requires n < Pow2(k)
    ensures Popc(n) <= k
  {
    if n > 0 { PopcBelow(n / 2, k - 1); }
  }

  lemma {:induction false} CtzBelow(n: nat, k: nat)
    requires 0 < n < Pow2(k)
    ensures Ctz(n) < k
  {
    if n % 2 == 0 { CtzBelow(n / 2, k - 1); }
  }

  /** Adding one clears the trailing ones and sets one bit, so the number of
      ones changes by 1 - ctz of the successor. */
  lemma {:induction false} PopcStep(n: nat)
    requires n > 0
    ensures Popc(n) + Ctz(n) == Popc(n - 1) + 1
  {
    if n % 2 == 1 {
      assert (n - 1) / 2 == n / 2 && (n - 1) % 2 == 0;
    } else {
      PopcStep(n / 2);
      assert (n - 1) / 2 == n / 2 - 1 && (n - 1) % 2 == 1;
    }
  }

  /** Pow2(j) divides n for every j <= ctz(n). */
  lemma {:induction false} CtzLow(n: nat, j: nat)
    requires n > 0 && j <= Ctz(n)
    ensures Pow2(j) <= n
  {
    if j > 0 { CtzLow(n / 2, j - 1); }
  }

  /** Clearing a bit below the lowest one borrows through: the result ends in
      exactly j zeros. */
  lemma {:induction false} CtzMinusLower(n: nat, j: nat)
    requires n > 0 && j < Ctz(n)
    ensures Pow2(j) < n && Ctz(n - Pow2(j)) == j
  {
    var h := n / 2;
    assert n == 2 * h;
    if j > 0 {
      CtzMinusLower(h, j - 1);
      var m := h - Pow2(j - 1);
      assert n - Pow2(j) == 2 * m;
      assert Ctz(2 * m) == 1 + Ctz(m);
    } else {
      assert (n - 1) % 2 == 1;
    }
  }

  /** Clearing the lowest one bit strictly raises the number of trailing zeros. */
  lemma {:induction false} CtzMinusLowest(n: nat)
    requires n > 0
    ensures Pow2(Ctz(n)) <= n
    ensures n == Pow2(Ctz(n)) || Ctz(n - Pow2(Ctz(n))) > Ctz(n)
  {
    if n % 2 == 0 {
      var h := n / 2;
      assert n == 2 * h && Ctz(n) == 1 + Ctz(h);
      CtzMinusLowest(h);
      var m := h - Pow2(Ctz(h));
      assert n - Pow2(Ctz(n)) == 2 * m;
      assert m > 0 ==> Ctz(2 * m) == 1 + Ctz(m);
    }
  }

  /** Bit number `bit` of a word. */
  predicate BitAt(v: nat, bit: nat)
    decreases bit
  {
    if bit == 0 then v % 2 == 1 else BitAt(v / 2, bit - 1)
  }

  lemma {:induction false} ZeroBits(j: nat)
    ensures !BitAt(0, j)
    decreases j
  {
    if j > 0 { ZeroBits(j - 1); }
  }

  lemma Pow2Sixteen()
    ensures Pow2(8) == 0x100 && Pow2(16) == 0x1_0000
  {
    assert Pow2(4) == 16 && Pow2(8) == 16 * Pow2(4);
    assert Pow2(12) == 16 * Pow2(8) && Pow2(16) == 16 * Pow2(12);
  }
}
