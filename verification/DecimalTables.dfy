/** `algorithm_m` of the script that generates the tables of powers of ten for decimal to float
    conversion: the decimal number `f * 10^e` is scaled by powers of two until its whole part fits
    a 64-bit significand, and then rounded. */
module DecimalTables {
  import opened Products
  import opened Powers

  const MIN_SIG: nat := 0x8000_0000_0000_0000
  const MAX_SIG: nat := 0xFFFF_FFFF_FFFF_FFFF

  datatype Fp = Fp(sig: nat, exp: int)

  // ---- Which inputs it stops on ----

  /** The loop's variables; `u / v * 2^k` stays the number to convert. */
  datatype State = State(u: nat, v: nat, k: int) {
    ghost predicate Valid() { u > 0 && v > 0 }
  }

  function Start(f: nat, e: int): (s: State)
    requires f > 0
    ensures s.Valid()
  {
    PowPositive(10, if e < 0 then -e else e);
    if e < 0 then State(f, Pow(10, -e), 0) else State(f * Pow(10, e), 1, 0)
  }

  predicate Finished(s: State)
    requires s.Valid()
  {
    MIN_SIG <= s.u / s.v < MAX_SIG
  }

  /** One round of the loop that does not end it. */
  function Step(s: State): (t: State)
    requires s.Valid()
    ensures t.Valid()
  {
    if s.u / s.v < MIN_SIG then State(2 * s.u, s.v, s.k - 1) else State(s.u, 2 * s.v, s.k + 1)
  }

  ghost function After(s: State, n: nat): (t: State)
    requires s.Valid()
    ensures t.Valid()
    decreases n
  {
    if n == 0 || Finished(s) then s else After(Step(s), n - 1)
  }

  /** The loop, started in `s`, ends. */
  ghost predicate Halts(s: State)
    requires s.Valid()
  {
    exists n: nat :: Finished(After(s, n))
  }

  /** Some power of two scales `u / v` to a number whose whole part is 2^64 - 1. */
  ghost predicate ScalesToAllOnes(u: nat, v: nat)
    requires v > 0
  {
    exists j: nat :: ScalesUp(u, v, j) || ScalesDown(u, v, j)
  }

  ghost predicate ScalesUp(u: nat, v: nat, j: nat)
    requires v > 0
  {
    u * Pow(2, j) / v == MAX_SIG
  }

  ghost predicate ScalesDown(u: nat, v: nat, j: nat)
    requires v > 0
  {
    PowPositive(2, j);
    u / (v * Pow(2, j)) == MAX_SIG
  }

  // ---- Facts about quotients ----

  lemma QuotientBounds(u: nat, v: nat)
    requires v > 0
    ensures v * (u / v) <= u < v * (u / v) + v
  {
  }

  lemma QuotientIs(u: nat, v: nat, q: nat)
    requires v > 0 && v * q <= u < v * q + v
    ensures u / v == q
  {
    QuotientBounds(u, v);
    var d := u / v - q;
    MultipleOutside(v, d);
    assert v * d == v * (u / v) - v * q;
  }

  lemma MultipleOutside(v: int, d: int)
    requires v > 0
    ensures d >= 1 ==> v * d >= v
    ensures d <= -1 ==> v * d <= -v
  {
  }

  lemma QuotientDoubleTop(u: nat, v: nat)
    requires v > 0
    ensures 2 * u / v == 2 * (u / v) || 2 * u / v == 2 * (u / v) + 1
  {
    QuotientBounds(u, v);
    var q := u / v;
    if 2 * u < v * (2 * q) + v {
      QuotientIs(2 * u, v, 2 * q);
    } else {
      QuotientIs(2 * u, v, 2 * q + 1);
    }
  }

  lemma QuotientDoubleBottom(u: nat, v: nat)
    requires v > 0
    ensures u / (2 * v) == u / v / 2
  {
    QuotientBounds(u, v);
    var q := u / v;
    var h := q / 2;
    assert q == 2 * h || q == 2 * h + 1;
    assert 2 * v * h == v * (2 * h);
    QuotientIs(u, 2 * v, h);
  }

  lemma QuotientDoubleBoth(u: nat, v: nat)
    requires v > 0
    ensures 2 * u / (2 * v) == u / v
  {
    QuotientBounds(u, v);
    QuotientIs(2 * u, 2 * v, u / v);
  }

  /** Doubling on either side steps through the same scalings. */
  lemma ScalesUpNext(u: nat, v: nat, j: nat)
    requires v > 0
    ensures ScalesUp(2 * u, v, j) <==> ScalesUp(u, v, j + 1)
  {
    assert 2 * u * Pow(2, j) == u * (2 * Pow(2, j)) == u * Pow(2, j + 1);
  }

  lemma ScalesDownNext(u: nat, v: nat, j: nat)
    requires v > 0
    ensures ScalesDown(u, 2 * v, j) <==> ScalesDown(u, v, j + 1)
  {
    PowPositive(2, j);
    assert 2 * v * Pow(2, j) == v * (2 * Pow(2, j)) == v * Pow(2, j + 1);
  }

  lemma {:induction false} ScaledUpAtLeast(u: nat, v: nat, j: nat)
    requires v > 0
    ensures u * Pow(2, j) / v >= u / v
    ensures j > 0 ==> u * Pow(2, j) / v >= 2 * (u / v)
  {
    if j == 0 {
      assert u * Pow(2, 0) == u;
    } else {
      ScaledUpAtLeast(u, v, j - 1);
      var w := u * Pow(2, j - 1);
      assert u * Pow(2, j) == 2 * w;
      QuotientDoubleTop(w, v);
    }
  }

  lemma {:induction false} ScaledDownAtMost(u: nat, v: nat, j: nat)
    requires v > 0
    ensures Pow(2, j) > 0 && u / (v * Pow(2, j)) <= u / v
    ensures j > 0 ==> u / (v * Pow(2, j)) <= u / v / 2
  {
    PowPositive(2, j);
    if j == 0 {
      assert v * Pow(2, 0) == v;
    } else {
      ScaledDownAtMost(u, v, j - 1);
      var w := v * Pow(2, j - 1);
      PowPositive(2, j - 1);
      assert v * Pow(2, j) == 2 * w;
      QuotientDoubleBottom(u, w);
    }
  }

  // ---- Both halves of the termination theorem ----

  /** A round changes neither the scalings of the number nor, if all ones can be reached, the fact
      that the loop is not finished. */
  lemma StepKeepsScaling(s: State)
    requires s.Valid() && !Finished(s) && ScalesToAllOnes(s.u, s.v)
    ensures ScalesToAllOnes(Step(s).u, Step(s).v)
  {
    var u, v := s.u, s.v;
    var j: nat :| ScalesUp(u, v, j) || ScalesDown(u, v, j);
    ScaledUpAtLeast(u, v, j);
    ScaledDownAtMost(u, v, j);
    if u / v < MIN_SIG {
      assert ScalesUp(u, v, j) && j > 0 by { assert u * Pow(2, 0) == u; }
      ScalesUpNext(u, v, j - 1);
      assert ScalesUp(2 * u, v, j - 1);
    } else if j == 0 {
      assert u * Pow(2, 0) == u && v * Pow(2, 0) == v;
      assert u * Pow(2, 1) == 2 * u;
      QuotientDoubleBoth(u, v);
      assert ScalesUp(u, 2 * v, 1);
    } else {
      assert ScalesDown(u, v, j);
      ScalesDownNext(u, v, j - 1);
      assert ScalesDown(u, 2 * v, j - 1);
    }
  }

  lemma DoubledTopReflects(u: nat, v: nat, j: nat)
    requires v > 0 && u / v < MIN_SIG && (ScalesUp(2 * u, v, j) || ScalesDown(2 * u, v, j))
    ensures ScalesToAllOnes(u, v)
  {
    QuotientDoubleTop(u, v);
    ScaledDownAtMost(2 * u, v, j);
    assert 2 * u * Pow(2, 0) == 2 * u && v * Pow(2, 0) == v;
    assert ScalesUp(2 * u, v, j);
    ScalesUpNext(u, v, j);
    assert ScalesUp(u, v, j + 1);
  }

  lemma DoubledBottomReflects(u: nat, v: nat, j: nat)
    requires v > 0 && (ScalesUp(u, 2 * v, j) || ScalesDown(u, 2 * v, j))
    ensures ScalesToAllOnes(u, v)
  {
    if j == 0 {
      assert u * Pow(2, 0) == u && 2 * v * Pow(2, 0) == 2 * v && v * Pow(2, 1) == 2 * v;
      assert ScalesDown(u, v, 1);
    } else if ScalesDown(u, 2 * v, j) {
      ScalesDownNext(u, v, j);
      assert ScalesDown(u, v, j + 1);
    } else {
      assert u * Pow(2, j) == 2 * (u * Pow(2, j - 1));
      QuotientDoubleBoth(u * Pow(2, j - 1), v);
      assert ScalesUp(u, v, j - 1);
    }
  }

  lemma StepReflectsScaling(s: State)
    requires s.Valid() && !Finished(s) && ScalesToAllOnes(Step(s).u, Step(s).v)
    ensures ScalesToAllOnes(s.u, s.v)
  {
    var t := Step(s);
    var j: nat :| ScalesUp(t.u, t.v, j) || ScalesDown(t.u, t.v, j);
    if s.u / s.v < MIN_SIG {
      DoubledTopReflects(s.u, s.v, j);
    } else {
      DoubledBottomReflects(s.u, s.v, j);
    }
  }

  /** If all ones can be reached, the loop is not finished after any number of rounds. */
  lemma {:induction false} NeverFinishes(s: State, n: nat)
    requires s.Valid() && ScalesToAllOnes(s.u, s.v)
    ensures !Finished(After(s, n))
    decreases n
  {
    var j: nat :| ScalesUp(s.u, s.v, j) || ScalesDown(s.u, s.v, j);
    ScaledUpAtLeast(s.u, s.v, j);
    ScaledDownAtMost(s.u, s.v, j);
    assert s.u * Pow(2, 0) == s.u && s.v * Pow(2, 0) == s.v;
    assert !Finished(s);
    if n > 0 {
      StepKeepsScaling(s);
      NeverFinishes(Step(s), n - 1);
    }
  }

  /** How far the loop is from its end, when it cannot meet all ones. */
  ghost function Distance(s: State): nat
    requires s.Valid()
  {
    if Finished(s) then 0
    else if s.u / s.v < MIN_SIG then
      (QuotientBounds(s.u, s.v); QuotientGap(s.u, s.v); MIN_SIG * s.v - s.u)
    else s.u / s.v
  }

  lemma QuotientGap(u: nat, v: nat)
    requires v > 0 && u / v < MIN_SIG
    ensures u < MIN_SIG * v
  {
    QuotientBounds(u, v);
    assert v * (u / v + 1) <= v * MIN_SIG;
  }

  lemma StepComesCloser(s: State)
    requires s.Valid() && !Finished(s) && !ScalesToAllOnes(s.u, s.v)
    ensures !ScalesToAllOnes(Step(s).u, Step(s).v) && Distance(Step(s)) < Distance(s)
  {
    var u, v := s.u, s.v;
    if ScalesToAllOnes(Step(s).u, Step(s).v) { StepReflectsScaling(s); }
    if u / v < MIN_SIG {
      QuotientGap(u, v);
      QuotientDoubleTop(u, v);
      assert !ScalesUp(u, v, 1);
      assert u * Pow(2, 1) == 2 * u;
    } else {
      QuotientDoubleBottom(u, v);
      assert !ScalesUp(u, v, 0);
      assert u * Pow(2, 0) == u;
    }
  }

  lemma {:induction false} FinishesWithin(s: State) returns (n: nat)
    requires s.Valid() && !ScalesToAllOnes(s.u, s.v)
    ensures Finished(After(s, n))
    decreases Distance(s)
  {
    if Finished(s) {
      n := 0;
    } else {
      StepComesCloser(s);
      n := FinishesWithin(Step(s));
      n := n + 1;
    }
  }

  /** How far `u / v` is from having 64 bits. */
  ghost function Gap(u: nat, v: nat): nat
    requires v > 0
  {
    if u / v < MIN_SIG then (QuotientGap(u, v); MIN_SIG * v - u)
    else if u / v > MAX_SIG then u / v
    else 0
  }

  lemma GapCloses(u: nat, v: nat)
    requires u > 0 && v > 0
    ensures u / v < MIN_SIG ==> Gap(2 * u, v) < Gap(u, v)
    ensures u / v > MAX_SIG ==> Gap(u, 2 * v) < Gap(u, v)
  {
    if u / v < MIN_SIG {
      QuotientGap(u, v);
      QuotientDoubleTop(u, v);
    } else if u / v > MAX_SIG {
      QuotientDoubleBottom(u, v);
    }
  }

  /** The leading 64 bits of `u / v`: its whole part, once it is scaled into [2^63, 2^64). */
  function LeadingBits(u: nat, v: nat): (q: nat)
    requires u > 0 && v > 0
    ensures MIN_SIG <= q <= MAX_SIG
    decreases Gap(u, v)
  {
    GapCloses(u, v);
    if u / v < MIN_SIG then LeadingBits(2 * u, v)
    else if u / v > MAX_SIG then LeadingBits(u, 2 * v)
    else u / v
  }

  lemma {:induction false} LeadingBitsAllOnes(s: State)
    requires s.Valid()
    ensures ScalesToAllOnes(s.u, s.v) <==> LeadingBits(s.u, s.v) == MAX_SIG
    decreases Gap(s.u, s.v)
  {
    if MIN_SIG <= s.u / s.v <= MAX_SIG {
      assert s.u * Pow(2, 0) == s.u;
      if s.u / s.v == MAX_SIG {
        assert ScalesUp(s.u, s.v, 0);
      } else if ScalesToAllOnes(s.u, s.v) {
        NeverFinishes(s, 0);
      }
    } else {
      GapCloses(s.u, s.v);
      LeadingBitsAllOnes(Step(s));
      if ScalesToAllOnes(s.u, s.v) { StepKeepsScaling(s); }
      if ScalesToAllOnes(Step(s).u, Step(s).v) { StepReflectsScaling(s); }
    }
  }

  /** The loop ends exactly for the numbers whose leading 64 bits are not all ones. */
  lemma HaltsIff(f: nat, e: int)
    requires f > 0
    ensures Halts(Start(f, e)) <==> LeadingBits(Start(f, e).u, Start(f, e).v) != MAX_SIG
  {
    var s := Start(f, e);
    LeadingBitsAllOnes(s);
    if ScalesToAllOnes(s.u, s.v) {
      forall n: nat ensures !Finished(After(s, n)) { NeverFinishes(s, n); }
    } else {
      var n := FinishesWithin(s);
      assert Finished(After(s, n));
    }
  }

  /** The number 2^64 - 1 itself is never converted. */
  lemma AllOnesNeverHalts()
    ensures !Halts(Start(MAX_SIG, 0))
  {
    assert Pow(10, 0) == 1;
    assert MAX_SIG / 1 == MAX_SIG;
    HaltsIff(MAX_SIG, 0);
  }

  // ---- Rounding ----

  function RPow(b: real, k: int): real
    requires b > 0.0
    decreases if k < 0 then -k else k
  {
    if k == 0 then 1.0 else if k > 0 then b * RPow(b, k - 1) else RPow(b, k + 1) / b
  }

  lemma {:induction false} RPowPositive(b: real, k: int)
    requires b > 0.0
    ensures RPow(b, k) > 0.0
    decreases if k < 0 then -k else k
  {
    if k > 0 { RPowPositive(b, k - 1); } else if k < 0 { RPowPositive(b, k + 1); }
  }

  lemma RPowNext(b: real, k: int)
    requires b > 0.0
    ensures RPow(b, k + 1) == b * RPow(b, k)
  {
  }

  lemma {:induction false} RPowOfPow(b: nat, n: nat)
    requires b > 0
    ensures Pow(b, n) as real == RPow(b as real, n)
  {
    if n > 0 { RPowOfPow(b, n - 1); }
  }

  lemma {:induction false} RPowInverse(b: real, n: nat)
    requires b > 0.0
    ensures RPow(b, n) * RPow(b, 0 - n) == 1.0
  {
    if n > 0 {
      RPowInverse(b, n - 1);
      var p, q := RPow(b, n - 1), RPow(b, 1 - n);
      assert b * p * (q / b) == p * q;
    }
  }

  /** The decimal number to convert. */
  function Decimal(f: nat, e: int): real { f as real * RPow(10.0, e) }

  /** `u / v * 2^k`. */
  ghost function Value(s: State): real
    requires s.Valid()
  {
    s.u as real / s.v as real * RPow(2.0, s.k)
  }

  lemma InverseDivides(x: real, p: real, q: real)
    requires p * q == 1.0
    ensures p != 0.0 && x / p == x * q
  {
    assert x / p * p == x;
    assert x * q * p == x * (p * q);
  }

  lemma StartValue(f: nat, e: int)
    requires f > 0
    ensures Value(Start(f, e)) == Decimal(f, e)
  {
    if e < 0 {
      var n: nat := -e;
      RPowOfPow(10, n);
      RPowInverse(10.0, n);
      InverseDivides(f as real, RPow(10.0, n), RPow(10.0, e));
    } else {
      RPowOfPow(10, e);
    }
  }

  lemma DoubledTop(u: real, v: real, h: real)
    requires v != 0.0
    ensures (2.0 * u) / v * h == u / v * (2.0 * h)
  {
    var q := u / v;
    assert q * v == u;
    assert (2.0 * q) * v == 2.0 * u;
    assert (2.0 * u) / v == 2.0 * q;
  }

  lemma DoubledBottom(u: real, v: real, p: real)
    requires v != 0.0
    ensures u / (2.0 * v) * (2.0 * p) == u / v * p
  {
    var q := u / (2.0 * v);
    assert q * (2.0 * v) == u;
    assert (2.0 * q) * v == u;
    assert u / v == 2.0 * q;
  }

  lemma StepValue(s: State)
    requires s.Valid()
    ensures Value(Step(s)) == Value(s)
  {
    if s.u / s.v < MIN_SIG {
      RPowNext(2.0, s.k - 1);
      DoubledTop(s.u as real, s.v as real, RPow(2.0, s.k - 1));
    } else {
      RPowNext(2.0, s.k);
      DoubledBottom(s.u as real, s.v as real, RPow(2.0, s.k));
    }
  }

  function NextFloat(z: Fp): Fp {
    if z.sig == MAX_SIG then Fp(MIN_SIG, z.exp + 1) else Fp(z.sig + 1, z.exp)
  }

  function RatioToFloat(u: nat, v: nat, k: int): Fp
    requires v > 0
  {
    var q, r := u / v, u % v;
    var z := Fp(q, k);
    if r < v - r then z
    else if r > v - r then NextFloat(z)
    else if q % 2 == 0 then z
    else NextFloat(z)
  }

  function Abs(x: real): real { if x < 0.0 then -x else x }

  function DistanceInUnits(x: real, g: real, ulp: real): real
    requires ulp > 0.0
  {
    Abs(x - g * ulp) / ulp
  }

  /** `error`: how far off `z` is, in units of its last place. */
  function Error(f: nat, e: int, z: Fp): real {
    RPowPositive(2.0, z.exp);
    DistanceInUnits(Decimal(f, e), z.sig as real, RPow(2.0, z.exp))
  }

  /** `x` in units of the last place of `z`. */
  ghost function Scaled(x: real, z: Fp): real {
    RPowPositive(2.0, z.exp);
    x / RPow(2.0, z.exp)
  }

  /** `z` is `x` rounded to a 64-bit significand: `x` lies in the binade of `z`, and `z` is the
      nearest number there, the even one of two that are equally near (roundTiesToEven, section 4.3.1
      of IEEE 754-2008). */
  ghost predicate Rounds(x: real, z: Fp) {
    && MIN_SIG <= z.sig <= MAX_SIG
    && MIN_SIG as real <= Scaled(x, z) < 2.0 * MIN_SIG as real
    && Abs(Scaled(x, z) - z.sig as real) <= 0.5
    && (Abs(Scaled(x, z) - z.sig as real) == 0.5 ==> z.sig % 2 == 0)
  }

  lemma SignOfProduct(a: real, w: real)
    requires w > 0.0
    ensures a * w < 0.0 <==> a < 0.0
    ensures a * w > 0.0 <==> a > 0.0
  {
  }

  lemma CompareRatio(r: real, w: real, c: real)
    requires w > 0.0
    ensures r / w < c <==> r < c * w
    ensures r / w > c <==> r > c * w
  {
    var t := r / w;
    assert t * w == r;
    assert (t - c) * w == r - c * w;
    SignOfProduct(t - c, w);
  }

  /** How a proper fraction compares with one half. */
  lemma Fraction(r: nat, v: nat)
    requires r < v
    ensures 0.0 <= r as real / v as real < 1.0
    ensures r < v - r <==> r as real / v as real < 0.5
    ensures r > v - r <==> r as real / v as real > 0.5
  {
    CompareRatio(r as real, v as real, 0.0);
    CompareRatio(r as real, v as real, 1.0);
    CompareRatio(r as real, v as real, 0.5);
  }

  lemma WholeAndFraction(q: nat, r: nat, v: nat)
    requires v > 0
    ensures (q * v + r) as real / v as real == q as real + r as real / v as real
  {
    var a, b, w := q as real, r as real, v as real;
    assert (q * v + r) as real == a * w + b;
    assert (a * w + b) / w == a + b / w;
  }

  lemma RatioParts(u: nat, v: nat) returns (t: real)
    requires v > 0
    ensures u as real / v as real == (u / v) as real + t
    ensures 0.0 <= t < 1.0
    ensures u % v < v - u % v <==> t < 0.5
    ensures u % v > v - u % v <==> t > 0.5
  {
    var q, r := u / v, u % v;
    t := r as real / v as real;
    Fraction(r, v);
    WholeAndFraction(q, r, v);
    assert u == q * v + r;
  }

  lemma ScaledValue(s: State, z: Fp)
    requires s.Valid() && z.exp == s.k
    ensures Scaled(Value(s), z) == s.u as real / s.v as real
  {
    RPowPositive(2.0, s.k);
    var x, p := s.u as real / s.v as real, RPow(2.0, s.k);
    assert x * p / p == x;
  }

  /** The rounding step: it ends in the binade it started in, so no carry is ever needed. */
  lemma RatioRounds(s: State)
    requires s.Valid() && Finished(s)
    ensures Rounds(Value(s), RatioToFloat(s.u, s.v, s.k))
    ensures RatioToFloat(s.u, s.v, s.k).exp == s.k
  {
    var z := RatioToFloat(s.u, s.v, s.k);
    ScaledValue(s, z);
    var t := RatioParts(s.u, s.v);
    var q := s.u / s.v;
    assert z.sig == q || z.sig == q + 1;
    assert Scaled(Value(s), z) - z.sig as real == t - (z.sig - q) as real;
  }

  lemma DistanceOver(x: real, g: real, p: real)
    requires p > 0.0
    ensures DistanceInUnits(x, g, p) == Abs(x / p - g)
  {
    var y := x / p - g;
    assert y * p == x - g * p;
    SignOfProduct(y, p);
    QuotientOfProduct(y, p);
    QuotientOfProduct(-y, p);
  }

  lemma QuotientOfProduct(y: real, p: real)
    requires p > 0.0
    ensures y * p / p == y
  {
  }

  /** `error` is the distance in units of the last place. */
  lemma ErrorIsDistance(f: nat, e: int, z: Fp)
    ensures Error(f, e, z) == Abs(Scaled(Decimal(f, e), z) - z.sig as real)
  {
    RPowPositive(2.0, z.exp);
    DistanceOver(Decimal(f, e), z.sig as real, RPow(2.0, z.exp));
  }

  /** A number has only one rounding. */
  lemma RoundingUnique(x: real, y: Fp, z: Fp)
    requires Rounds(x, y) && Rounds(x, z)
    ensures y == z
  {
    if y.exp < z.exp {
      BinadesApart(x, y, z);
    } else if z.exp < y.exp {
      BinadesApart(x, z, y);
    }
  }

  lemma BinadesApart(x: real, y: Fp, z: Fp)
    requires y.exp < z.exp && Scaled(x, z) >= MIN_SIG as real
    ensures Scaled(x, y) >= 2.0 * MIN_SIG as real
  {
    RPowPositive(2.0, y.exp);
    RPowPositive(2.0, z.exp);
    RPowAtLeast(y.exp, z.exp);
    var p, q := RPow(2.0, y.exp), RPow(2.0, z.exp);
    var a, b := Scaled(x, y), Scaled(x, z);
    assert a * p == x && b * q == x;
    assert b * (q - 2.0 * p) >= 0.0;
    assert (a - 2.0 * b) * p == b * (q - 2.0 * p);
    SignOfProduct(a - 2.0 * b, p);
  }

  lemma {:induction false} RPowAtLeast(a: int, b: int)
    requires a < b
    ensures RPow(2.0, b) >= 2.0 * RPow(2.0, a)
    decreases b - a
  {
    RPowNext(2.0, b - 1);
    if a < b - 1 {
      RPowAtLeast(a, b - 1);
      RPowPositive(2.0, b - 1);
    }
  }

  /** The script's function. It is called only where it ends; see `HaltsIff`. */
  method AlgorithmM(f: nat, e: int) returns (z: Fp)
    requires f > 0 && LeadingBits(Start(f, e).u, Start(f, e).v) != MAX_SIG
    ensures Rounds(Decimal(f, e), z)
    ensures Error(f, e, z) <= 0.5 && (Error(f, e, z) == 0.5 ==> z.sig % 2 == 0)
    ensures f == 1 ==> Error(f, e, z) < 0.5
  {
    var s := Start(f, e);
    StartValue(f, e);
    LeadingBitsAllOnes(s);
    ghost var i: nat, j: nat := 0, 0;
    var x := s.u / s.v;
    while x < MIN_SIG || x >= MAX_SIG
      invariant s.Valid() && x == s.u / s.v && !ScalesToAllOnes(s.u, s.v)
      invariant Value(s) == Decimal(f, e) && ScaledFrom(Start(f, e), s, i, j)
      decreases Distance(s)
    {
      StepComesCloser(s);
      StepValue(s);
      if x < MIN_SIG {
        i := i + 1;
        TimesPowerOfTwo(Start(f, e).u, i);
        s := State(2 * s.u, s.v, s.k - 1);
      } else {
        j := j + 1;
        TimesPowerOfTwo(Start(f, e).v, j);
        s := State(s.u, 2 * s.v, s.k + 1);
      }
      x := s.u / s.v;
    }
    z := RatioToFloat(s.u, s.v, s.k);
    RatioRounds(s);
    ErrorIsDistance(f, e, z);
    if f == 1 {
      PowersOfTenNeverTie(e, s, i, j);
      NoTieNoHalf(s);
    }
  }

  /** Only a tie is off by exactly one half. */
  lemma NoTieNoHalf(s: State)
    requires s.Valid() && Finished(s) && s.u % s.v != s.v - s.u % s.v
    ensures Abs(Scaled(Value(s), RatioToFloat(s.u, s.v, s.k)) - RatioToFloat(s.u, s.v, s.k).sig as real) < 0.5
  {
    var z := RatioToFloat(s.u, s.v, s.k);
    ScaledValue(s, z);
    var t := RatioParts(s.u, s.v);
    assert Scaled(Value(s), z) - z.sig as real == t - (z.sig - s.u / s.v) as real;
  }

  // ---- The table of powers of ten ----

  predicate Odd(n: nat) { n % 2 == 1 }

  lemma TimesPowerOfTwo(a: nat, i: nat)
    ensures a * Pow(2, 0) == a
    ensures i > 0 ==> a * Pow(2, i) == 2 * (a * Pow(2, i - 1))
  {
  }

  lemma {:induction false} OddPart(a: nat, b: nat, i: nat, j: nat)
    requires Odd(a) && Odd(b) && a * Pow(2, i) == b * Pow(2, j)
    ensures a == b
    decreases i + j
  {
    TimesPowerOfTwo(a, i);
    TimesPowerOfTwo(b, j);
    if i > 0 && j > 0 {
      OddPart(a, b, i - 1, j - 1);
    }
  }

  lemma {:induction false} PowerOfFiveOdd(n: nat)
    ensures Odd(Pow(5, n))
  {
    if n > 0 {
      PowerOfFiveOdd(n - 1);
      OddTimes(5, Pow(5, n - 1));
    }
  }

  lemma OddTimes(a: nat, b: nat)
    requires Odd(a) && Odd(b)
    ensures Odd(a * b)
  {
    var x, y := a / 2, b / 2;
    assert a == 2 * x + 1 && b == 2 * y + 1;
    assert a * b == 2 * (2 * x * y + x + y) + 1;
  }

  /** No power of five lies between 2^64 and 2^65. */
  lemma {:induction false} PowersOfFiveSkip(n: nat)
    ensures Pow(5, n) < 2 * MIN_SIG || Pow(5, n) > 4 * MIN_SIG
  {
    assert Pow(5, 14) == 6103515625;
    assert Pow(5, 27) == 7450580596923828125 by { PowAdd(5, 14, 13); assert Pow(5, 13) == 1220703125; }
    if n <= 27 {
      PowMonotone(5, n, 27);
    } else {
      assert Pow(5, 28) == 5 * Pow(5, 27);
      PowMonotone(5, 28, n);
    }
  }

  /** The loop only multiplies by powers of two. */
  ghost predicate ScaledFrom(s0: State, s: State, i: nat, j: nat) {
    s.u == s0.u * Pow(2, i) && s.v == s0.v * Pow(2, j)
  }

  lemma TieProduct(u: nat, v: nat) returns (m: nat)
    requires v > 0 && u % v == v - u % v
    ensures Odd(m) && m == 2 * (u / v) + 1 && 2 * u == m * v
  {
    var q := u / v;
    assert u == v * q + u % v;
    m := 2 * q + 1;
    assert m * v == 2 * (v * q) + v;
  }

  lemma StartsAtPowerOfTen(e: int)
    ensures e < 0 ==> Start(1, e).u == 1 && Start(1, e).v == Pow(10, -e)
    ensures e >= 0 ==> Start(1, e).u == Pow(10, e) && Start(1, e).v == 1
  {
  }

  /** A power of ten never lies halfway between two floats. */
  lemma PowersOfTenNeverTie(e: int, s: State, i: nat, j: nat)
    requires ScaledFrom(Start(1, e), s, i, j) && s.Valid() && Finished(s)
    ensures s.u % s.v != s.v - s.u % s.v
  {
    if s.u % s.v == s.v - s.u % s.v {
      var m := TieProduct(s.u, s.v);
      StartsAtPowerOfTen(e);
      if e < 0 {
        TieBelowOne(m, -e, i, j, s.u, s.v);
      } else {
        TieAboveOne(m, e, i, j, s.u, s.v);
        PowersOfFiveSkip(e);
      }
    }
  }

  /** `10^n * 2^i` as an odd number times a power of two. */
  lemma TenAndTwo(n: nat, i: nat)
    ensures Pow(10, n) * Pow(2, i) == Pow(5, n) * Pow(2, n + i)
    ensures Odd(Pow(5, n))
  {
    PowTimes(5, 2, n);
    PowAdd(2, n, i);
    PowerOfFiveOdd(n);
    Associate(Pow(5, n), Pow(2, n), Pow(2, i));
  }

  lemma Substitute(x: nat, m: nat, t: nat, p: nat, w: nat)
    requires x == m * t && t == p * w
    ensures x == m * p * w
  {
  }

  lemma TieAboveOne(m: nat, n: nat, i: nat, j: nat, u: nat, v: nat)
    requires Odd(m) && u == Pow(10, n) * Pow(2, i) && v == Pow(2, j) && 2 * u == m * v
    ensures m == Pow(5, n)
  {
    TenAndTwo(n, i);
    TimesPowerOfTwo(Pow(5, n), n + i + 1);
    OddPart(Pow(5, n), m, n + i + 1, j);
  }

  lemma TieBelowOne(m: nat, n: nat, i: nat, j: nat, u: nat, v: nat)
    requires Odd(m) && u == Pow(2, i) && v == Pow(10, n) * Pow(2, j) && 2 * u == m * v
    ensures m == 1
  {
    TenAndTwo(n, j);
    Substitute(Pow(2, i + 1), m, v, Pow(5, n), Pow(2, n + j));
    OddTimes(m, Pow(5, n));
    OddPower(m * Pow(5, n), i + 1, n + j);
    FactorOfOne(m, Pow(5, n));
  }

  lemma OddPower(a: nat, i: nat, j: nat)
    requires Odd(a) && Pow(2, i) == a * Pow(2, j)
    ensures a == 1
  {
    OddPart(1, a, i, j);
  }

  lemma FactorOfOne(m: nat, p: nat)
    requires m * p == 1
    ensures m == 1
  {
  }

  // ---- The exponents of the table ----

  const MIN_E := -305
  const MAX_E := 305

  lemma SumWith64(c: nat)
    ensures Pow(2, 64 + c) == (MAX_SIG + 1) * Pow(2, c)
  {
    SmallPowersOfTwo();
    PowAdd(2, 64, c);
  }

  /** A number `f` that has all ones above `a / 2` is just below `a`. */
  lemma JustBelow(f: nat, a: nat, c: nat, d: nat)
    requires d > 0 && a * d == (MAX_SIG + 1) * c && MAX_SIG * c <= f * d < (MAX_SIG + 1) * c
    ensures 1 < f < a && 1000 * f > 999 * a
  {
    if f >= a { ProductMonotone(d, a, f); }
    assert MAX_SIG * a * d == MAX_SIG * (a * d);
    assert (MAX_SIG + 1) * f * d == (MAX_SIG + 1) * (f * d);
    Cancel(MAX_SIG * a, (MAX_SIG + 1) * f, d);
  }

  /** A power of five never has, in binary, 64 leading ones. */
  lemma FiveNotAllOnes(e: nat, c: nat, d: nat)
    requires e <= MAX_E
    ensures !(MAX_SIG * Pow(2, c) <= Pow(5, e) * Pow(2, d) < (MAX_SIG + 1) * Pow(2, c))
  {
    PowPositive(5, e);
    PowPositive(2, d);
    SumWith64(c);
    if d >= 64 + c {
      PowMonotone(2, 64 + c, d);
      ProductMonotone(Pow(2, d), 1, Pow(5, e));
    } else if MAX_SIG * Pow(2, c) <= Pow(5, e) * Pow(2, d) < (MAX_SIG + 1) * Pow(2, c) {
      var a := 64 + c - d;
      PowAdd(2, a, d);
      JustBelow(Pow(5, e), Pow(2, a), Pow(2, c), Pow(2, d));
      PowersApart(e, a);
    }
  }

  /** A number `f` whose inverse has all ones below `1 / a` is just above `a`. */
  lemma JustAbove(f: nat, a: nat, d: nat)
    requires d > 0 && MAX_SIG * (f * d) <= a * ((MAX_SIG + 1) * d) < (MAX_SIG + 1) * (f * d)
    ensures a < f && 1000 * f < 1001 * a
  {
    assert a * ((MAX_SIG + 1) * d) == (MAX_SIG + 1) * (a * d);
    if a >= f { ProductMonotone(d, f, a); }
    assert MAX_SIG * f * d == MAX_SIG * (f * d);
    assert (MAX_SIG + 1) * a * d == (MAX_SIG + 1) * (a * d);
    Cancel(MAX_SIG * f, (MAX_SIG + 1) * a, d);
  }

  lemma HalfAtMost(j: nat, n: nat)
    requires j < n
    ensures 2 * Pow(2, j) <= Pow(2, n)
  {
    PowMonotone(2, j + 1, n);
  }

  lemma TooSmall(f: nat, d: nat, p: nat)
    requires f > 0 && d > 0 && 2 * p <= (MAX_SIG + 1) * d
    ensures p < MAX_SIG * (f * d)
  {
    ProductMonotone(d, 1, f);
  }

  /** Nor has the inverse of one. */
  lemma OneFifthNotAllOnes(m: nat, j: nat)
    requires 0 < m <= -MIN_E
    ensures !(MAX_SIG * (Pow(5, m) * Pow(2, m)) <= Pow(2, j) < (MAX_SIG + 1) * (Pow(5, m) * Pow(2, m)))
  {
    PowPositive(5, m);
    PowPositive(2, m);
    SumWith64(m);
    if j < 64 + m {
      HalfAtMost(j, 64 + m);
      TooSmall(Pow(5, m), Pow(2, m), Pow(2, j));
    } else if MAX_SIG * (Pow(5, m) * Pow(2, m)) <= Pow(2, j) < (MAX_SIG + 1) * (Pow(5, m) * Pow(2, m)) {
      var a := j - (64 + m);
      PowAdd(2, a, 64 + m);
      JustAbove(Pow(5, m), Pow(2, a), Pow(2, m));
      PowersApart(m, a);
    }
  }

  /** The loop ends for every power of ten of the table. */
  lemma TableHalts(e: int)
    requires MIN_E <= e <= MAX_E
    ensures LeadingBits(Start(1, e).u, Start(1, e).v) != MAX_SIG
  {
    var u, v := Start(1, e).u, Start(1, e).v;
    LeadingBitsAllOnes(Start(1, e));
    StartsAtPowerOfTen(e);
    if ScalesToAllOnes(u, v) {
      var j: nat :| ScalesUp(u, v, j) || ScalesDown(u, v, j);
      if e >= 0 {
        PositiveNotAllOnes(e, j);
      } else {
        NegativeNotAllOnes(-e, j);
      }
    }
  }

  lemma PositiveNotAllOnes(e: nat, j: nat)
    requires e <= MAX_E
    ensures !ScalesUp(Pow(10, e), 1, j) && !ScalesDown(Pow(10, e), 1, j)
  {
    PowTimes(5, 2, e);
    PowAdd(2, e, j);
    Associate(Pow(5, e), Pow(2, e), Pow(2, j));
    PowPositive(2, j);
    QuotientBounds(Pow(10, e), Pow(2, j));
    FiveNotAllOnes(e, 0, e + j);
    FiveNotAllOnes(e, j, e);
  }

  lemma NegativeNotAllOnes(m: nat, j: nat)
    requires 0 < m <= -MIN_E
    ensures Pow(10, m) > 0 && !ScalesUp(1, Pow(10, m), j) && !ScalesDown(1, Pow(10, m), j)
  {
    PowTimes(5, 2, m);
    PowPositive(10, m);
    QuotientBounds(Pow(2, j), Pow(10, m));
    OneFifthNotAllOnes(m, j);
    ScaledDownAtMost(1, Pow(10, m), j);
    QuotientBounds(1, Pow(10, m));
  }

  /** The table of powers of ten: the script gets through all of it, and its entries are right. */
  method ProperPowers() returns (powers: seq<Fp>)
    ensures |powers| == MAX_E + 1 - MIN_E
    ensures forall i :: 0 <= i < |powers| ==>
              Rounds(Decimal(1, MIN_E + i), powers[i]) && Error(1, MIN_E + i, powers[i]) < 0.5
  {
    powers := [];
    for e := MIN_E to MAX_E + 1
      invariant |powers| == e - MIN_E
      invariant forall i :: 0 <= i < |powers| ==>
                  Rounds(Decimal(1, MIN_E + i), powers[i]) && Error(1, MIN_E + i, powers[i]) < 0.5
    {
      TableHalts(e);
      var z := AlgorithmM(1, e);
      powers := powers + [z];
    }
  }
}
