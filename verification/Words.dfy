/** Machine words as the sets of positions of their one bits. */
module Words {
  type Word = set<nat>

  function Xor(a: Word, b: Word): Word {
    (a - b) + (b - a)
  }

  function Shr(a: Word, k: nat): Word {
    set i | i in a && i >= k :: i - k
  }

  function Shl(a: Word, k: nat): Word {
    set i | i in a :: i + k
  }

  /** The lowest k bits: a cast to a narrower type. */
  function Low(a: Word, k: nat): Word {
    set i | i in a && i < k
  }

  /** The word fits k bits. */
  predicate Fits(a: Word, k: nat) {
    forall i :: i in a ==> i < k
  }

  lemma ShrBit(a: Word, k: nat, i: nat)
    ensures i in Shr(a, k) <==> i + k in a
  {
    if i + k in a {
      assert i + k - k == i;
    }
  }

  lemma ShlBit(a: Word, k: nat, i: nat)
    ensures i in Shl(a, k) <==> i >= k && i - k in a
  {
  }

  lemma XorAlgebra(a: Word, b: Word)
    ensures Xor(a, b) == Xor(b, a) && Xor(Xor(a, b), b) == a
    ensures Xor(a, {}) == a && Xor(a, a) == {}
  {
  }
}
