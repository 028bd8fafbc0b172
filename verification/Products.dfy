/** Facts about products of unknowns, one at a time. */
module Products {

  lemma ProductMonotone(k: nat, a: nat, b: nat)
    requires a <= b
    ensures k * a <= k * b
    ensures k > 0 && a < b ==> k * a < k * b
    ensures k > 0 ==> a <= k * a
  {
  }

  lemma Distribute(a: nat, b: nat, c: nat)
    ensures a * (b + c) == a * b + a * c
  {
  }

  /** The product, by repeated addition. Where it is used no arithmetic of products is needed. */
  function Times(a: nat, b: nat): nat {
    if b == 0 then 0 else Times(a, b - 1) + a
  }

  lemma {:induction false} TimesIs(a: nat, b: nat)
    ensures Times(a, b) == a * b
  {
    if b > 0 {
      TimesIs(a, b - 1);
      Distribute(a, b - 1, 1);
    }
  }

  lemma {:induction false} TimesAdds(a: nat, b: nat, c: nat)
    ensures Times(a, b + c) == Times(a, b) + Times(a, c)
  {
    if c > 0 { TimesAdds(a, b, c - 1); }
  }

  lemma {:induction false} TimesMonotone(a: nat, b: nat, c: nat)
    requires a <= b
    ensures Times(a, c) <= Times(b, c)
  {
    if c > 0 { TimesMonotone(a, b, c - 1); }
  }

  lemma Associate(a: nat, b: nat, c: nat)
    ensures a * b * c == a * (b * c)
  {
  }
}
