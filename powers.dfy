/** Powers of two, shared by the axis flags and the dithering matrix. */
module Powers {
  function Pow2(k: nat): (r: nat)
    ensures r >= 1
  {
    if k == 0 then 1 else 2 * Pow2(k - 1)
  }

  /** A larger exponent gives a strictly larger power. */
  lemma {:induction false} Pow2StrictlyIncreasing(a: nat, b: nat)
    requires a < b
    ensures Pow2(a) < Pow2(b)
  {
    if b > a + 1 {
      Pow2StrictlyIncreasing(a, b - 1);
    }
  }
}
