/** Powers of two and binary sizes. */
module Power {

  function Pow2(n: nat): (p: nat)
    ensures p >= 1
  {
    if n == 0 then 1 else 2 * Pow2(n - 1)
  }

  /** Number of times `n` can be halved before it is 0. */
  function Bits(n: nat): nat {
    if n == 0 then 0 else 1 + Bits(n / 2)
  }

  lemma {:induction false} BitsBracket(n: nat)
    ensures n < Pow2(Bits(n)) && (n > 0 ==> Pow2(Bits(n)) <= 2 * n)
  {
    if n > 1 {
      BitsBracket(n / 2);
    } else if n == 1 {
      assert Bits(1) == 1 + Bits(0) && Pow2(1) == 2 * Pow2(0);
    }
  }

  lemma {:induction false} BitsOfPow2(k: nat)
    ensures Bits(Pow2(k)) == k + 1
  {
    if k > 0 {
      BitsOfPow2(k - 1);
      assert Pow2(k) / 2 == Pow2(k - 1);
    }
  }
}
