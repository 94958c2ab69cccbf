/** Powers of natural numbers, for the widths of numbers in text, in bytes and in bits. */
module Powers {

  function Pow(b: nat, e: nat): nat {
    if e == 0 then 1 else b * Pow(b, e - 1)
  }

  lemma {:induction false} PowPositive(b: nat, e: nat)
    requires b > 0
    ensures Pow(b, e) > 0
  {
    if e > 0 { PowPositive(b, e - 1); }
  }

  lemma {:induction false} PowAdd(b: nat, n: nat, m: nat)
    ensures Pow(b, n + m) == Pow(b, n) * Pow(b, m)
  {
    if n > 0 {
      PowAdd(b, n - 1, m);
      assert b * (Pow(b, n - 1) * Pow(b, m)) == (b * Pow(b, n - 1)) * Pow(b, m);
    }
  }
}
