/** Powers of natural numbers, and how far the powers of five stay away from the powers of two. */
module Powers {
  import opened Products

  function Pow(b: nat, n: nat): nat { if n == 0 then 1 else b * Pow(b, n - 1) }

  lemma {:induction false} PowPositive(b: nat, n: nat)
    requires b > 0
    ensures Pow(b, n) > 0
  {
    if n > 0 {
      PowPositive(b, n - 1);
      ProductMonotone(b, 1, Pow(b, n - 1));
    }
  }

  lemma {:induction false} PowAdd(b: nat, m: nat, n: nat)
    ensures Pow(b, m + n) == Pow(b, m) * Pow(b, n)
  {
    if m > 0 {
      PowAdd(b, m - 1, n);
      Associate(b, Pow(b, m - 1), Pow(b, n));
    }
  }

  lemma {:induction false} PowMonotone(b: nat, m: nat, n: nat)
    requires b > 0 && m <= n
    ensures Pow(b, m) <= Pow(b, n)
  {
    if m < n {
      PowMonotone(b, m, n - 1);
      ProductMonotone(b, Pow(b, n - 1), Pow(b, n - 1));
    }
  }

  lemma {:induction false} PowTimes(a: nat, b: nat, n: nat)
    ensures Pow(a * b, n) == Pow(a, n) * Pow(b, n)
  {
    if n > 0 {
      PowTimes(a, b, n - 1);
      SwapFactors(a, b, Pow(a, n - 1), Pow(b, n - 1));
    }
  }

  lemma SwapFactors(a: nat, b: nat, p: nat, q: nat)
    ensures a * b * (p * q) == a * p * (b * q)
  {
    Associate(a, b, p * q);
    Associate(b, p, q);
    Associate(p, b, q);
    Associate(a, p, b * q);
  }

  // ---- Powers of five and powers of two ----

  /** `5^e` is at least `q / p` times `2^a`. */
  ghost predicate AtLeast(p: nat, q: nat, e: nat, a: nat) { p * Pow(5, e) >= q * Pow(2, a) }

  /** `5^e` is at most `q / p` times `2^a`. */
  ghost predicate AtMost(p: nat, q: nat, e: nat, a: nat) { p * Pow(5, e) <= q * Pow(2, a) }

  lemma ProductsInOrder(a: nat, b: nat, c: nat, d: nat)
    requires a <= b && c <= d
    ensures a * c <= b * d
  {
    ProductMonotone(a, c, d);
    ProductMonotone(d, a, b);
  }

  lemma Cancel(a: nat, b: nat, c: nat)
    requires a * c <= b * c && c > 0
    ensures a <= b
  {
    if a > b { ProductMonotone(c, b, a); }
  }

  lemma Factors(e: nat, f: nat, a: nat, b: nat, p: nat, q: nat)
    ensures p * Pow(5, e + f) == p * Pow(5, e) * Pow(5, f)
    ensures q * Pow(2, a + b) == q * Pow(2, a) * Pow(2, b)
    ensures Pow(5, f) > 0 && Pow(2, b) > 0
  {
    PowAdd(5, e, f);
    PowAdd(2, a, b);
    Associate(p, Pow(5, e), Pow(5, f));
    Associate(q, Pow(2, a), Pow(2, b));
    PowPositive(5, f);
    PowPositive(2, b);
  }

  lemma AtLeastAdds(p: nat, q: nat, e: nat, a: nat, f: nat, b: nat)
    requires AtLeast(p, q, e, a) && AtLeast(1, 1, f, b)
    ensures AtLeast(p, q, e + f, a + b)
  {
    Factors(e, f, a, b, p, q);
    ProductsInOrder(q * Pow(2, a), p * Pow(5, e), Pow(2, b), Pow(5, f));
  }

  lemma AtMostAdds(p: nat, q: nat, e: nat, a: nat, f: nat, b: nat)
    requires AtMost(p, q, e, a) && AtMost(1, 1, f, b)
    ensures AtMost(p, q, e + f, a + b)
  {
    Factors(e, f, a, b, p, q);
    ProductsInOrder(p * Pow(5, e), q * Pow(2, a), Pow(5, f), Pow(2, b));
  }

  lemma AtLeastCancels(p: nat, q: nat, e: nat, a: nat, f: nat, b: nat)
    requires AtLeast(p, q, e + f, a + b) && AtMost(1, 1, f, b)
    ensures AtLeast(p, q, e, a)
  {
    Factors(e, f, a, b, p, q);
    ProductMonotone(q * Pow(2, a), Pow(5, f), Pow(2, b));
    Cancel(q * Pow(2, a), p * Pow(5, e), Pow(5, f));
  }

  lemma AtMostCancels(p: nat, q: nat, e: nat, a: nat, f: nat, b: nat)
    requires AtMost(p, q, e + f, a + b) && AtLeast(1, 1, f, b)
    ensures AtMost(p, q, e, a)
  {
    Factors(e, f, a, b, p, q);
    ProductMonotone(p * Pow(5, e), Pow(2, b), Pow(5, f));
    Cancel(p * Pow(5, e), q * Pow(2, a), Pow(2, b));
  }

  lemma {:induction false} MultiplesAtLeast(p: nat, q: nat, e: nat, a: nat, n: nat)
    requires AtLeast(p, q, e, a) && AtLeast(1, 1, e, a) && n > 0
    ensures AtLeast(p, q, e * n, a * n)
  {
    if n > 1 {
      MultiplesAtLeast(p, q, e, a, n - 1);
      AtLeastAdds(p, q, e * (n - 1), a * (n - 1), e, a);
      Distribute(e, n - 1, 1);
      Distribute(a, n - 1, 1);
    }
  }

  lemma {:induction false} MultiplesAtMost(p: nat, q: nat, e: nat, a: nat, n: nat)
    requires AtMost(p, q, e, a) && AtMost(1, 1, e, a) && n > 0
    ensures AtMost(p, q, e * n, a * n)
  {
    if n > 1 {
      MultiplesAtMost(p, q, e, a, n - 1);
      AtMostAdds(p, q, e * (n - 1), a * (n - 1), e, a);
      Distribute(e, n - 1, 1);
      Distribute(a, n - 1, 1);
    }
  }

  // The good approximations of log2(5) that decide the matter: 65 / 28 and 339 / 146 from below,
  // 137 / 59 and 476 / 205 from above.

  lemma SumOfExponents(b: nat, m: nat, n: nat, x: nat, y: nat)
    requires Pow(b, m) == x && Pow(b, n) == y
    ensures Pow(b, m + n) == x * y
  {
    PowAdd(b, m, n);
  }

  lemma SmallPowersOfFive()
    ensures Pow(5, 28) == 37252902984619140625
    ensures Pow(5, 59) == 173472347597680709441192448139190673828125
  {
    SumOfExponents(5, 14, 14, 6103515625, 6103515625);
    SumOfExponents(5, 28, 3, 37252902984619140625, 125);
    SumOfExponents(5, 31, 28, 4656612873077392578125, 37252902984619140625);
  }

  lemma SmallPowersOfTwo()
    ensures Pow(2, 64) == 0x1_0000_0000_0000_0000 && Pow(2, 65) == 0x2_0000_0000_0000_0000
    ensures Pow(2, 137) == 0x200_0000_0000_0000_0000_0000_0000_0000_0000
  {
    SumOfExponents(2, 8, 8, 0x100, 0x100);
    SumOfExponents(2, 16, 16, 0x1_0000, 0x1_0000);
    SumOfExponents(2, 32, 32, 0x1_0000_0000, 0x1_0000_0000);
    SumOfExponents(2, 64, 1, 0x1_0000_0000_0000_0000, 2);
    SumOfExponents(2, 65, 65, 0x2_0000_0000_0000_0000, 0x2_0000_0000_0000_0000);
    SumOfExponents(2, 130, 7, 0x4_0000_0000_0000_0000_0000_0000_0000_0000, 128);
  }

  lemma LargePowers()
    ensures Pow(5, 146) == Pow(5, 28) * Pow(5, 59) * Pow(5, 59)
    ensures Pow(2, 339) == Pow(2, 65) * Pow(2, 137) * Pow(2, 137)
    ensures Pow(5, 205) == Pow(5, 146) * Pow(5, 59)
    ensures Pow(2, 476) == Pow(2, 339) * Pow(2, 137)
  {
    PowAdd(5, 28, 59);
    PowAdd(5, 87, 59);
    PowAdd(2, 65, 137);
    PowAdd(2, 202, 137);
    PowAdd(5, 146, 59);
    PowAdd(2, 339, 137);
  }

  lemma Approximations()
    ensures AtLeast(1000, 1001, 28, 65) && AtLeast(1, 1, 28, 65)
    ensures AtLeast(1000, 1001, 146, 339) && AtLeast(1, 1, 146, 339)
    ensures AtMost(1000, 999, 59, 137) && AtMost(1, 1, 59, 137)
    ensures AtMost(1000, 999, 205, 476)
  {
    SmallPowersOfFive();
    SmallPowersOfTwo();
    LargePowers();
  }

  lemma MultiplesOf28(n: nat)
    ensures AtLeast(1, 1, 28 * n, 65 * n)
    ensures n > 0 ==> AtLeast(1000, 1001, 28 * n, 65 * n)
  {
    if n > 0 {
      Approximations();
      MultiplesAtLeast(1, 1, 28, 65, n);
      MultiplesAtLeast(1000, 1001, 28, 65, n);
    }
  }

  lemma MultiplesOf146(n: nat)
    requires n > 0
    ensures AtLeast(1000, 1001, 146 * n, 339 * n)
  {
    Approximations();
    MultiplesAtLeast(1000, 1001, 146, 339, n);
  }

  lemma MultiplesOf59(n: nat)
    ensures AtMost(1, 1, 59 * n, 137 * n)
    ensures n > 0 ==> AtMost(1000, 999, 59 * n, 137 * n)
  {
    if n > 0 {
      Approximations();
      MultiplesAtMost(1, 1, 59, 137, n);
      MultiplesAtMost(1000, 999, 59, 137, n);
    }
  }

  lemma MultiplesFrom205(n: nat)
    ensures AtMost(1000, 999, 205 + 59 * n, 476 + 137 * n)
  {
    Approximations();
    MultiplesOf59(n);
    AtMostAdds(1000, 999, 205, 476, 59 * n, 137 * n);
  }

  /** Above: `(e, a)` is `x` times `(28, 65)` and `y` times `(59, 137)`, with `y <= 2 * x`. */
  lemma ApartAbove(e: nat, a: nat, x: nat, y: int)
    requires x >= 1 && y <= 2 * x && e == 28 * x + 59 * y && a == 65 * x + 137 * y
    ensures AtLeast(1000, 1001, e, a)
  {
    var w: nat := if y <= 0 then 0 else (y + 1) / 2;
    var d: nat := 2 * w - y;
    MultiplesOf28(x - w);
    if w > 0 {
      MultiplesOf146(w);
      AtLeastAdds(1000, 1001, 146 * w, 339 * w, 28 * (x - w), 65 * (x - w));
    }
    MultiplesOf59(d);
    assert e + 59 * d == 146 * w + 28 * (x - w) && a + 137 * d == 339 * w + 65 * (x - w);
    AtLeastCancels(1000, 1001, e, a, 59 * d, 137 * d);
  }

  /** Below, with `x` negative or zero. */
  lemma ApartBelow(e: nat, a: nat, x: nat, y: nat)
    requires y >= 1 && e == 59 * y - 28 * x && a == 137 * y - 65 * x
    ensures AtMost(1000, 999, e, a)
  {
    MultiplesOf59(y);
    MultiplesOf28(x);
    AtMostCancels(1000, 999, e, a, 28 * x, 65 * x);
  }

  /** No power of five up to the 305th, but the 0th, comes within a thousandth of a power of two. */
  lemma PowersApart(e: nat, a: nat)
    requires e <= 305
    ensures e == 0 || AtLeast(1000, 1001, e, a) || AtMost(1000, 999, e, a)
  {
    var x, y := 137 * e - 59 * a, 28 * a - 65 * e;
    assert e == 28 * x + 59 * y && a == 65 * x + 137 * y;
    if e == 0 {
    } else if x <= 0 {
      ApartBelow(e, a, -x, y);
    } else if y <= 2 * x {
      ApartAbove(e, a, x, y);
    } else {
      assert x == 1 && 3 <= y <= 4;
      MultiplesFrom205(y - 3);
    }
  }
}
