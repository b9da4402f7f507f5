/** float64_rem: the exact IEEE remainder. */
module Remainder {
  import opened Words
  import opened MultiWord
  import opened Ieee
  import opened IeeeRounding
  import opened FloatRounding
  import opened SoftFloat
  import opened Float64
  import opened NaNs
  import opened ExactResults

  /** `n` is the integer nearest `a / b`, ties to even (section 5.3.1). */
  ghost predicate NearestQuotient(a: int, b: int, n: int) {
    && -b <= 2 * (a - n * b) <= b
    && (2 * (a - n * b) == b || 2 * (a - n * b) == -1 * b ==> n % 2 == 0)
  }

  /** The estimate lowered by two, so that it never exceeds the quotient. */
  function LowEstimate(estimate: u64): u64 {
    if 2 < estimate then estimate - 2 else 0
  }

  lemma LowEstimateBounds(estimate: u64, a: nat, b: nat)
    requires 0 < b && WithinTwo(estimate, a, b)
    ensures Product(LowEstimate(estimate), b) <= a < Product(LowEstimate(estimate), b) + 3 * b
  {
    Distribute(estimate, -2, b);
    if estimate <= 2 { MulMono(estimate, 2, b); }
  }

  /** One pass of the reduction loop: 62 quotient bits are taken off, modulo 2^64. */
  lemma ReductionStep(aSig: u64, bSig: u64, estimate: u64)
    requires aSig % 0x200 == 0 && bSig % 0x800 == 0 && 0 < bSig
    requires WithinTwo(estimate, aSig * TWO64, bSig)
    ensures var q := LowEstimate(estimate);
      var rest := Wrap64(0 - Product(bSig / 4, q));
      rest < bSig && rest % 0x200 == 0 && aSig * TWO64 == Product(q, bSig) + 4 * rest
  {
    var q := LowEstimate(estimate);
    LowEstimateBounds(estimate, aSig * TWO64, bSig);
    QuarterProduct(q, bSig);
    WrapNegative(aSig, bSig, Product(bSig / 4, q));
  }

  lemma QuarterProduct(q: nat, bSig: nat)
    requires bSig % 0x800 == 0
    ensures Product(q, bSig) == 4 * Product(bSig / 4, q)
    ensures Product(bSig / 4, q) % 0x200 == 0
  {
    var k := bSig / 0x800;
    assert bSig == k * 0x800 && bSig / 4 == k * 0x200;
    MulAssoc(q, k, 0x800);
    MulAssoc(k, 0x200, q);
    MulAssoc(k, q, 0x200);
  }

  lemma WrapNegative(aSig: u64, bSig: u64, p: nat)
    requires aSig % 0x200 == 0 && p % 0x200 == 0
    requires 4 * p <= aSig * TWO64 < 4 * p + 3 * bSig
    ensures Wrap64(0 - p) == aSig * 0x4000_0000_0000_0000 - p
    ensures Wrap64(0 - p) % 0x200 == 0 && Wrap64(0 - p) < bSig
  {
    var t, r := aSig / 0x200, aSig * 0x4000_0000_0000_0000 - p;
    Wrap64Is(0 - p, -1 * (aSig / 4), r);
    assert r == 0x200 * (t * 0x4000_0000_0000_0000 - p / 0x200);
  }

  lemma ReductionKeepsValue(v: nat, n: nat, aSig: nat, bSig: nat, d: nat, q: nat, rest: nat)
    requires 64 < d && v == Product(n, bSig) + Scaled(aSig, d) && n % 2 == 0
    requires aSig * TWO64 == Product(q, bSig) + 4 * rest
    ensures var n' := n + Scaled(q, d - 64);
      v == Product(n', bSig) + Scaled(rest, d - 62) && n' % 2 == 0
  {
    hide Scaled, Product;
    TailValue(aSig, bSig, d, q, rest);
    ProductSum(n, Scaled(q, d - 64), bSig);
    EvenScaled(q, d - 64);
  }

  lemma TailValue(aSig: nat, bSig: nat, d: nat, q: nat, rest: nat)
    requires 64 < d && aSig * TWO64 == Product(q, bSig) + 4 * rest
    ensures Scaled(aSig, d) == Product(Scaled(q, d - 64), bSig) + Scaled(rest, d - 62)
  {
    assert Scaled(aSig, 64) == Product(q, bSig) + Scaled(rest, 2) by { PowersOfTwo(); }
    ScaledTwice(aSig, 64, d - 64);
    ScaledSum(Product(q, bSig), Scaled(rest, 2), d - 64);
    ScaledTwice(rest, 2, d - 64);
    ScaledProduct(q, bSig, d - 64);
  }

  lemma ProductSum(x: nat, y: nat, z: nat)
    ensures Product(x + y, z) == Product(x, z) + Product(y, z)
  {
    Distribute(x, y, z);
  }

  lemma ScaledSum(x: nat, y: nat, e: nat)
    ensures Scaled(x + y, e) == Scaled(x, e) + Scaled(y, e)
  {
    Distribute(x, y, Pow2(e));
  }

  lemma ScaledProduct(x: nat, y: nat, e: nat)
    ensures Scaled(Product(x, y), e) == Product(Scaled(x, e), y)
  {
    MulAssoc(x, y, Pow2(e));
    MulAssoc(x, Pow2(e), y);
  }

  lemma EvenScaled(x: nat, e: nat)
    requires 1 <= e
    ensures Scaled(x, e) % 2 == 0
  {
    EvenMultiple(x, Pow2(e));
  }

  /** The reduction loop. `v` is the dividend significand at the divisor's scale: what has been
      taken off it is an even multiple of the divisor. */
  method ReduceDividend(aSig0: u64, bSig: u64, d0: nat, ghost v: nat, ghost n0: nat)
    returns (aSig: u64, d: nat, ghost n: nat)
    requires 0x8000_0000_0000_0000 <= bSig && bSig % 0x800 == 0
    requires aSig0 < bSig && aSig0 % 0x200 == 0
    requires v == Product(n0, bSig) + Scaled(aSig0, d0) && (0 < d0 ==> n0 % 2 == 0)
    ensures d <= 64 && aSig < bSig && aSig % 0x200 == 0
    ensures v == Product(n, bSig) + Scaled(aSig, d) && (0 < d ==> n % 2 == 0)
    ensures d0 <= 64 ==> d == d0 && aSig == aSig0 && n == n0
    ensures 64 < d0 ==> 0 < d
  {
    aSig, d, n := aSig0, d0, n0;
    while 64 < d
      invariant aSig < bSig && aSig % 0x200 == 0
      invariant v == Product(n, bSig) + Scaled(aSig, d) && (0 < d ==> n % 2 == 0)
      invariant d0 <= 64 ==> d == d0 && aSig == aSig0 && n == n0
      invariant 64 < d0 ==> 0 < d
    {
      var estimate := EstimateDiv128To64(aSig, 0, bSig);
      var q := LowEstimate(estimate);
      ReductionStep(aSig, bSig, estimate);
      var rest := Wrap64(0 - Product(bSig / 4, q));
      ReductionKeepsValue(v, n, aSig, bSig, d, q, rest);
      n := n + Scaled(q, d - 64);
      aSig, d := rest, d - 62;
    }
  }

  /** The last quotient digits, shifted down to the `d` bits that are left. */
  lemma ShiftedEstimate(aSig: nat, bSig: nat, d: nat, qe: nat)
    requires 1 <= d <= 64 && 0 < bSig
    requires Product(qe, bSig) <= aSig * TWO64 < Product(qe, bSig) + 3 * bSig
    ensures var q := qe / Pow2(64 - d);
      0 <= q && Product(q, bSig) <= Scaled(aSig, d) < Product(q, bSig) + 3 * bSig
  {
    var p := Pow2(64 - d);
    DivMod(qe, p);
    var q := qe / p;
    assert aSig * TWO64 == Product(Scaled(aSig, d), p) by { PowersOfTwo(); ScaledTwice(aSig, d, 64 - d); }
    ShiftedEstimateBounds(Scaled(aSig, d), bSig, p, qe, q, qe % p);
  }

  lemma ShiftedEstimateBounds(x: nat, b: nat, p: nat, qe: nat, q: nat, s: nat)
    requires 0 < p && 0 < b && qe == q * p + s && s < p
    requires Product(qe, b) <= Product(x, p) < Product(qe, b) + 3 * b
    ensures Product(q, b) <= x < Product(q, b) + 3 * b
  {
    assert Product(qe, b) == Product(Product(q, b), p) + Product(s, b) by {
      Distribute(q * p, s, b);
      MulAssoc(q, p, b);
      MulAssoc(q, b, p);
    }
    MulMono(s, p - 1, b);
    Distribute(p, -1, b);
    MulAtLeast(p, b);
    if x < Product(q, b) { MulStrict(x, Product(q, b), p); }
    if Product(q, b) + 3 * b <= x {
      MulMono(Product(q, b) + 3 * b, x, p);
      Distribute(Product(q, b), 3 * b, p);
      MulAssoc(3, b, p);
    }
  }

  /** The partial remainder after the last quotient digits, a quarter of it held modulo 2^64. */
  lemma LastStep(aSig: u64, bSig: u64, d: nat, q: nat)
    requires 1 <= d <= 64 && aSig % 0x200 == 0 && bSig % 0x800 == 0
    requires Product(q, bSig) <= Scaled(aSig, d) < Product(q, bSig) + 3 * bSig
    ensures var rest := Wrap64(Scaled(aSig / 2, d - 1) - Product(bSig / 4, q));
      Scaled(aSig, d) == Product(q, bSig) + 4 * rest && rest < 3 * (bSig / 4) && rest % 0x100 == 0
  {
    hide Scaled;
    hide Product;
    hide Wrap64;
    QuarterProduct(q, bSig);
    HalvedDividend(aSig, d);
    CoarserGrain(Product(bSig / 4, q), bSig);
    QuarterWord(Scaled(aSig / 2, d - 1), Product(bSig / 4, q), Scaled(aSig, d), Product(q, bSig), bSig);
  }

  lemma CoarserGrain(p: nat, b: nat)
    requires p % 0x200 == 0 && b % 0x800 == 0
    ensures p % 0x100 == 0 && b % 4 == 0
  {
    DivMod(p, 0x200);
    DivMod(b, 0x800);
    DivModIs(p, 0x100, 2 * (p / 0x200), 0);
    DivModIs(b, 4, 0x200 * (b / 0x800), 0);
  }

  lemma QuarterWord(x: nat, p: nat, x4: nat, p4: nat, b: u64)
    requires x4 == 4 * x && p4 == 4 * p && p4 <= x4 < p4 + 3 * b && b % 4 == 0
    requires x % 0x100 == 0 && p % 0x100 == 0
    ensures x4 == p4 + 4 * Wrap64(x - p) && Wrap64(x - p) < 3 * (b / 4) && Wrap64(x - p) % 0x100 == 0
  {
    QuarterBounds(x, p, x4, p4, b);
    WrapDifference(x, p, b / 4);
  }

  lemma QuarterBounds(x: int, p: int, x4: int, p4: int, b: int)
    requires x4 == 4 * x && p4 == 4 * p && p4 <= x4 < p4 + 3 * b && b % 4 == 0
    ensures p <= x < p + 3 * (b / 4)
  {
  }

  lemma WrapDifference(x: nat, p: nat, b4: u64)
    requires p <= x < p + 3 * b4 && b4 < 0x4000_0000_0000_0000 && x % 0x100 == 0 && p % 0x100 == 0
    ensures Wrap64(x - p) == x - p && Wrap64(x - p) % 0x100 == 0
  {
  }

  lemma HalvedDividend(aSig: nat, d: nat)
    requires 1 <= d && aSig % 0x200 == 0
    ensures Scaled(aSig, d) == 4 * Scaled(aSig / 2, d - 1)
    ensures Scaled(aSig / 2, d - 1) % 0x100 == 0
  {
    var t := aSig / 0x200;
    assert Pow2(d) == 2 * Pow2(d - 1);
    DivModIs(aSig, 2, t * 0x100, 0);
    DivModIs(Scaled(aSig / 2, d - 1), 0x100, t * Pow2(d - 1), 0);
    MulAssoc(0x200, t, Pow2(d));
    MulAssoc(0x100, t, Pow2(d - 1));
    MulAssoc(t, 2, Pow2(d - 1));
  }

  /** `k * b` for the few multiples the subtraction loop passes through. */
  function Multiple(k: int, b: int): int
    requires 0 <= k <= 3
  {
    if k == 0 then 0 else if k == 1 then b else if k == 2 then 2 * b else 3 * b
  }

  /** Of the two remainders around zero, the one nearer to it; on a tie the one whose quotient
      `q + k` is even. */
  method NearestResidue(aSig0: u64, bSig: u64, q0: u64)
    returns (negative: bool, magnitude: u64, ghost k: int)
    requires 0x2000_0000_0000_0000 <= bSig < 0x4000_0000_0000_0000 && aSig0 < 3 * bSig
    ensures 0 <= k <= 3
    ensures aSig0 == if negative then Multiple(k, bSig) - magnitude else Multiple(k, bSig) + magnitude
    ensures 2 * magnitude <= bSig && (2 * magnitude == bSig ==> (q0 + k) % 2 == 0)
    ensures negative ==> 0 < magnitude
  {
    var aSig, q := aSig0, q0;
    k := 0;
    var alternateASig := aSig;
    q := Add64(q, 1);
    aSig := Sub64(aSig, bSig);
    while !Negative64(aSig)
      invariant 0 <= k <= 2 && q % 2 == (q0 + k + 1) % 2
      invariant alternateASig == aSig0 - Multiple(k, bSig)
      invariant aSig == Sub64(alternateASig, bSig)
      decreases 2 - k
    {
      alternateASig := aSig;
      q := Add64(q, 1);
      aSig := Sub64(aSig, bSig);
      k := k + 1;
    }
    var sigMean := Add64(aSig, alternateASig);
    if Negative64(sigMean) || (sigMean == 0 && q % 2 == 1) {
      aSig := alternateASig;
    } else {
      k := k + 1;
    }
    negative := Negative64(aSig);
    magnitude := if negative then Sub64(0, aSig) else aSig;
  }

  lemma MultipleIsProduct(k: int, b: nat)
    requires 0 <= k <= 3
    ensures Multiple(k, b) == Product(k, b)
  {
  }

  /** Collects the quotient: `v` is `n` quarters-of-divisor plus or minus the magnitude. */
  lemma CollectQuotient(v: nat, n: nat, b: nat, rest: nat, k: nat, negative: bool, magnitude: nat)
    requires k <= 3 && b % 0x800 == 0
    requires v == Product(n, b) + 4 * rest
    requires rest == if negative then Multiple(k, b / 4) - magnitude else Multiple(k, b / 4) + magnitude
    ensures v == 4 * Product(n + k, b / 4) + (if negative then -4 * magnitude else 4 * magnitude)
  {
    QuarterProduct(n, b);
    assert Product(b / 4, n) == Product(n, b / 4);
    ProductSum(n, k, b / 4);
    MultipleIsProduct(k, b / 4);
  }

  lemma MagnitudeGrain(rest: nat, k: nat, b4: nat, negative: bool, magnitude: nat)
    requires k <= 3 && b4 % 0x100 == 0 && rest % 0x100 == 0
    requires rest == if negative then Multiple(k, b4) - magnitude else Multiple(k, b4) + magnitude
    ensures magnitude % 0x100 == 0
  {
    var q := Multiple(k, b4 / 0x100) - rest / 0x100;
    assert Multiple(k, b4) - rest == q * 0x100;
    DivModIs(magnitude, 0x100, if negative then q else -1 * q, 0);
  }

  /** The last quotient digits, possibly a little too small, and a quarter of what they leave. */
  method LastDigits(aSig: u64, bSig: u64, d: nat) returns (rest: u64, q: u64)
    requires 0x8000_0000_0000_0000 <= bSig && bSig % 0x800 == 0 && aSig < bSig && aSig % 0x200 == 0
    requires 1 <= d <= 64
    ensures Scaled(aSig, d) == Product(q, bSig) + 4 * rest
    ensures rest < 3 * (bSig / 4) && rest % 0x100 == 0
  {
    var estimate := EstimateDiv128To64(aSig, 0, bSig);
    q := LowEstimate(estimate);
    LowEstimateBounds(estimate, aSig * TWO64, bSig);
    ShiftedEstimate(aSig, bSig, d, q);
    ShiftedFits(q, 64 - d);
    q := q / Pow2(64 - d);
    LastStep(aSig, bSig, d, q);
    rest := Wrap64(Scaled(aSig / 2, d - 1) - Product(bSig / 4, q));
  }

  /** All quotient digits but the last few units: the rest, a quarter of it, is below three
      quarter-divisors, and `q` has the parity of the whole quotient. */
  method QuotientDigits(aSig0: u64, bSig: u64, e: nat)
    returns (rest: u64, q: u64, ghost n: nat)
    requires 0x8000_0000_0000_0000 <= bSig && bSig % 0x800 == 0 && aSig0 % 0x400 == 0
    ensures Scaled(aSig0, e) == Product(n, bSig) + 4 * rest
    ensures SameParity(n, q) && rest < 3 * (bSig / 4) && rest % 0x100 == 0
  {
    q := if bSig <= aSig0 then 1 else 0;
    var aSig := if q == 1 then aSig0 - bSig else aSig0;
    FirstDigitWord(aSig0, bSig, q, aSig);
    FirstDigit(aSig0, bSig, e, q, aSig);
    var d;
    aSig, d, n := ReduceDividend(aSig, bSig, e, Scaled(aSig0, e), Scaled(q, e));
    if 0 < d {
      rest, q := LastDigits(aSig, bSig, d);
      ProductSum(n, q, bSig);
      ParityOfSum(n, q);
      n := n + q;
    } else {
      assert Scaled(aSig, 0) == aSig;
      Quarter(aSig, bSig);
      rest := aSig / 4;
    }
  }

  lemma Quarter(aSig: nat, bSig: nat)
    requires aSig < bSig && aSig % 0x400 == 0 && bSig % 0x800 == 0
    ensures aSig == 4 * (aSig / 4) && aSig / 4 < 3 * (bSig / 4) && (aSig / 4) % 0x100 == 0
  {
  }

  ghost predicate SameParity(x: int, y: int) {
    x % 2 == y % 2
  }

  lemma ParityOfSum(n: int, k: int)
    ensures n % 2 == 0 ==> SameParity(n + k, k)
  {
  }

  lemma ParityShift(n: int, q: int, k: int)
    requires SameParity(n, q)
    ensures (q + k) % 2 == 0 ==> (n + k) % 2 == 0
  {
  }

  lemma ShiftedFits(x: u64, e: nat)
    ensures 0 <= x / Pow2(e) <= x
  {
    DivMod(x, Pow2(e));
    MulMono(1, Pow2(e), x / Pow2(e));
  }

  lemma QuarterDivisor(bSig: u64)
    requires 0x8000_0000_0000_0000 <= bSig && bSig % 0x800 == 0
    ensures 0x2000_0000_0000_0000 <= bSig / 4 < 0x4000_0000_0000_0000 && (bSig / 4) % 0x100 == 0
  {
    var k := bSig / 0x800;
    DivModIs(bSig, 4, k * 0x200, 0);
    DivModIs(bSig / 4, 0x100, 2 * k, 0);
  }

  /** The significand part of the remainder: of `aSig0 * 2^e` by `bSig`. */
  method SignificandRemainder(aSig0: u64, bSig: u64, e: nat)
    returns (negative: bool, magnitude: u64, ghost n: nat)
    requires 0x8000_0000_0000_0000 <= bSig && bSig % 0x800 == 0 && aSig0 % 0x400 == 0
    ensures Scaled(aSig0, e) == 4 * Product(n, bSig / 4) + (if negative then -4 * magnitude else 4 * magnitude)
    ensures 2 * magnitude <= bSig / 4 && (2 * magnitude == bSig / 4 ==> n % 2 == 0)
    ensures magnitude % 0x100 == 0 && (negative ==> 0 < magnitude)
  {
    var rest, q;
    rest, q, n := QuotientDigits(aSig0, bSig, e);
    ghost var k;
    QuarterDivisor(bSig);
    negative, magnitude, k := NearestResidue(rest, bSig / 4, q);
    ParityShift(n, q, k);
    CollectQuotient(Scaled(aSig0, e), n, bSig, rest, k, negative, magnitude);
    MagnitudeGrain(rest, k, bSig / 4, negative, magnitude);
    n := n + k;
  }

  lemma FirstDigitWord(aSig0: u64, bSig: u64, q: int, aSig: int)
    requires 0x8000_0000_0000_0000 <= bSig && bSig % 0x800 == 0 && aSig0 % 0x400 == 0
    requires q == (if bSig <= aSig0 then 1 else 0) && aSig == (if q == 1 then aSig0 - bSig else aSig0)
    ensures aSig0 == Product(q, bSig) + aSig
    ensures 0 <= aSig < bSig && aSig % 0x400 == 0 && aSig % 0x200 == 0
  {
    assert aSig0 == 0x400 * (aSig0 / 0x400) && bSig == 0x400 * (2 * (bSig / 0x800));
    if q == 1 { assert aSig == 0x400 * (aSig0 / 0x400 - 2 * (bSig / 0x800)); }
    assert aSig == 0x200 * (2 * (aSig / 0x400));
  }

  lemma FirstDigit(aSig0: nat, bSig: nat, e: nat, q: nat, aSig: nat)
    requires aSig0 == Product(q, bSig) + aSig
    ensures Scaled(aSig0, e) == Product(Scaled(q, e), bSig) + Scaled(aSig, e)
    ensures 0 < e ==> Scaled(q, e) % 2 == 0
    ensures e == 0 ==> Scaled(q, e) == q && Scaled(aSig, e) == aSig
  {
    ScaledSum(Product(q, bSig), aSig, e);
    ScaledProduct(q, bSig, e);
    if 0 < e { EvenScaled(q, e); }
  }

  /** The significand remainder and the remainder of the operands are in the same ratio as the
      significand divisor and the divisor. */
  lemma RemainderInUnits(ua: nat, ub: nat, n: nat, b4: nat, negative: bool, magnitude: nat)
    requires 0 < b4 && 0 < ub
    requires Product(ua, b4)
      == Product(n, Product(b4, ub)) + (if negative then -1 * Product(magnitude, ub) else Product(magnitude, ub))
    requires 2 * magnitude <= b4 && (2 * magnitude == b4 ==> n % 2 == 0) && (negative ==> 0 < magnitude)
    ensures NearestQuotient(ua, ub, n)
    ensures var r := ua - n * ub;
      (r < 0 <==> negative) && Product(if r < 0 then -r else r, b4) == Product(magnitude, ub)
  {
    var r := ua - n * ub;
    assert r * b4 == if negative then -1 * Product(magnitude, ub) else Product(magnitude, ub) by {
      Distribute(ua, -1 * (n * ub), b4);
      MulAssoc(n, ub, b4);
    }
    SignOfRatio(r, b4, magnitude, ub, negative);
    MulCompare(2 * magnitude, b4, ub);
    MulAssoc(2, magnitude, ub);
    RatioBound(if r < 0 then -r else r, b4, magnitude, ub);
  }

  lemma SignOfRatio(r: int, b4: nat, magnitude: nat, ub: nat, negative: bool)
    requires 0 < b4 && 0 < ub && (negative ==> 0 < magnitude)
    requires r * b4 == if negative then -1 * Product(magnitude, ub) else Product(magnitude, ub)
    ensures r < 0 <==> negative
    ensures Product(if r < 0 then -r else r, b4) == Product(magnitude, ub)
  {
    if negative { MulStrict(0, magnitude, ub); }
    if r < 0 { MulStrict(r, 0, b4); } else { MulMono(0, r, b4); }
  }

  lemma RatioBound(r: nat, b4: nat, magnitude: nat, ub: nat)
    requires 0 < b4 && 0 < ub && Product(r, b4) == Product(magnitude, ub)
    ensures 2 * magnitude <= b4 ==> 2 * r <= ub
    ensures 2 * r == ub ==> 2 * magnitude == b4
  {
    MulAssoc(2, r, b4);
    MulAssoc(2, magnitude, ub);
    if 2 * magnitude <= b4 {
      MulMono(2 * magnitude, b4, ub);
      if ub < 2 * r { MulStrict(ub, 2 * r, b4); }
    }
    if 2 * r == ub { MulCompare(2 * magnitude, b4, ub); }
  }

  /** The significands as the reduction sees them, against the operands. */
  lemma ReductionInUnits(ua: nat, aExp: int, ma: nat, ub: nat, bExp: int, mb: nat, y: nat)
    requires Normalised(ua, aExp, ma) && Normalised(ub, bExp, mb)
    requires bExp <= aExp + 1 && y == Scaled(ma, 11 + aExp - bExp)
    ensures Product(y, ub) == Product(ua, mb * 0x800)
  {
    var g := aExp - bExp + 1;
    CrossSignificands(ua, aExp, ma, ub, bExp, mb);
    Balance(Product(ma, ub), Product(ua, mb), aExp + 51, bExp + 51, g, 1);
    ScaledTwice(ma, g, 10);
    ProductOfScaled(ma, g + 10, ub, 0);
    ScaledTwice(Product(ma, ub), g, 10);
    ScaledTwice(Product(ua, mb), 1, 10);
    ProductOfScaled(ua, 0, mb, 11);
    assert Pow2(11) == 0x800;
  }

  /** The remainder word against the remainder in units. */
  lemma MagnitudeInUnits(r: nat, magnitude: nat, ub: nat, bExp: int, mb: nat)
    requires Normalised(ub, bExp, mb) && Product(r, mb * 0x200) == Product(magnitude, ub)
    ensures Scaled(magnitude, bExp + 51) == Scaled(r, 61)
  {
    PositiveOperand(ub, bExp, mb);
    assert Pow2(9) == 0x200;
    ProductOfScaled(r, 0, mb, 9);
    ScaledTwice(Product(r, mb), 9, bExp + 51);
    ProductOfScaled(r, 9, mb, bExp + 51);
    ProductOfScaled(r, 9, ub, 52);
    ProductOfScaled(magnitude, bExp + 51, ub, 0);
    ProductOfScaled(r, 61, ub, 0);
    assert Product(Scaled(magnitude, bExp + 51), ub) == Product(Scaled(r, 61), ub);
    MulCompare(Scaled(magnitude, bExp + 51), Scaled(r, 61), ub);
  }

  lemma RemainderStandsFor(r: nat, magnitude: u64, bExp: int, s: nat)
    requires -51 <= bExp && Scaled(magnitude, bExp + 51) == Scaled(r, 61)
    ensures StandsFor(bExp - s, Scaled(magnitude, s) / 0x200, Scaled(magnitude, s) % 0x200 == 0, r, 1)
  {
    var zExp := bExp - s;
    ExactWordCell(Scaled(magnitude, s));
    assert Scaled(1, 9) == 0x200;
    Balance(magnitude, r, bExp + 51, 61, s + UpShift(zExp), 10 + DownShift(zExp));
    ScaledTwice(r, 1, DownShift(zExp) + 9);
    StandsForByPowers(zExp, Scaled(magnitude, s) / 0x200, Scaled(magnitude, s) % 0x200 == 0, magnitude, s, 1, 9, r, 1);
  }

  /** A remainder is at most half the divisor, and no finer than the finer operand, so it is
      representable. */
  lemma RemainderIsRepresentable(r: nat, magnitude: u64, ub: nat, bExp: int, mb: nat) returns (p: nat)
    requires Normalised(ub, bExp, mb) && 2 * r <= ub
    requires Scaled(magnitude, bExp + 51) == Scaled(r, 61)
    requires magnitude < 0x2000_0000_0000_0000 && magnitude % 0x100 == 0
    ensures p < BINARY64.infinity && BINARY64.Units(p) == r
  {
    StandardFormats();
    if bExp <= 1 {
      SmallDivisor(ub, bExp, mb);
      p := Representable(BINARY64, r, 0);
    } else {
      var m := magnitude / 0x100;
      assert Scaled(m, 8) == magnitude by { assert Pow2(8) == 0x100; }
      ScaledTwice(m, 8, bExp + 51);
      Balance(m, r, bExp + 59, 61, bExp - 2, 0);
      p := Representable(BINARY64, m, bExp - 2);
    }
  }

  lemma SmallDivisor(ub: nat, bExp: int, mb: nat)
    requires Normalised(ub, bExp, mb) && bExp <= 1
    ensures ub < 0x20_0000_0000_0000
  {
    Pow2Mono(bExp + 51, 52);
    if mb <= ub - 1 {
      MulMono(Pow2(bExp + 51), Pow2(52), mb);
      MulStrict(mb, ub, Pow2(52));
    }
  }

  /** A dividend more than two binades below the divisor is its own remainder. */
  lemma SmallDividend(ua: nat, aExp: int, ma: nat, ub: nat, bExp: int, mb: nat)
    requires Normalised(ua, aExp, ma) && Normalised(ub, bExp, mb) && aExp < bExp - 1
    ensures NearestQuotient(ua, ub, 0) && 0 < ua
  {
    CrossSignificands(ua, aExp, ma, ub, bExp, mb);
    Balance(Product(ma, ub), Product(ua, mb), aExp + 51, bExp + 51, 0, bExp - aExp);
    Pow2Mono(2, bExp - aExp);
    HalfCompare(ua, ub, ma, mb, Pow2(bExp - aExp));
  }

  lemma HalfCompare(ua: nat, ub: nat, ma: nat, mb: nat, p: nat)
    requires 0 < ub && 0 < mb && ma < 2 * mb && 4 <= p
    requires Product(ma, ub) == Product(ua, mb) * p
    ensures 2 * ua < ub
  {
    MulMono(4, p, Product(ua, mb));
    MulStrict(ma, 2 * mb, ub);
    MulAssoc(2, mb, ub);
    if ub <= 2 * ua {
      MulMono(ub, 2 * ua, mb);
      MulAssoc(2, ua, mb);
    }
  }

  /** `z` is exactly `a - n * b` in magnitude and sign, for operands of the same sign as `a`. */
  ghost predicate IsRemainder(a: u64, b: u64, n: nat, z: u64) {
    var r := Units64(a) - n * Units64(b);
    && NearestQuotient(Units64(a), Units64(b), n)
    && IsFinite64(z)
    && Units64(z) == (if r < 0 then -r else r)
    && Sign64(z) == (if r < 0 then !Sign64(a) else Sign64(a))
  }

  lemma NearestIsUnique(a: int, b: int, n: int, m: int)
    requires 0 < b && NearestQuotient(a, b, n) && NearestQuotient(a, b, m)
    ensures n == m
  {
    Distribute(n, -m, b);
    if n < m { MulMono(1, m - n, b); Distribute(m, -n, b); OneApart(n, m, b); }
    if m < n { MulMono(1, n - m, b); OneApart(m, n, b); }
  }

  lemma OneApart(n: int, m: int, b: int)
    requires 0 < b && n < m
    ensures m * b - n * b >= b && (m * b - n * b == b ==> m == n + 1)
  {
    Distribute(m, -n, b);
    MulMono(1, m - n, b);
    if 2 <= m - n { MulMono(2, m - n, b); }
  }

  /** There is only one remainder: the quotient, and the word that holds a - n * b. */
  lemma RemainderIsUnique(a: u64, b: u64, n: nat, m: nat, y: u64, z: u64)
    requires Magnitude64(b) != 0 && IsRemainder(a, b, n, y) && IsRemainder(a, b, m, z)
    ensures n == m && y == z
  {
    StandardFormats();
    UnitsMonotone(BINARY64, 1, Magnitude64(b));
    hide Format.Units;
    NearestIsUnique(Units64(a), Units64(b), n, m);
    UnitsMonotone(BINARY64, Magnitude64(if Magnitude64(y) < Magnitude64(z) then y else z),
      Magnitude64(if Magnitude64(y) < Magnitude64(z) then z else y));
  }

  /** float64_rem. */
  method Float64Rem(status: FloatStatus, a: u64, b: u64) returns (z: u64, ghost n: nat)
    modifies status`exceptionFlags
    ensures if IsNaN64(a) || IsNaN64(b) then
        z == NaNResult64(status.defaultNaN, a, b)
          && status.exceptionFlags == old(status.exceptionFlags) + NaNExceptions64(a, b)
      else if IsInfinite64(a) || Magnitude64(b) == 0 then
        z == DEFAULT_NAN && status.exceptionFlags == old(status.exceptionFlags) + {Invalid}
      else if IsInfinite64(b) then
        z == a && status.exceptionFlags == old(status.exceptionFlags)
      else
        IsRemainder(a, b, n, z) && status.exceptionFlags == old(status.exceptionFlags)
  {
    n := 0;
    FieldsOfMagnitude(a);
    FieldsOfMagnitude(b);
    if Exp64(a) == 0x7FF {
      if Frac64(a) != 0 || (Exp64(b) == 0x7FF && Frac64(b) != 0) {
        z := PropagateFloat64NaN(status, a, b);
        return;
      }
      status.Raise({Invalid});
      return DEFAULT_NAN, 0;
    }
    if Exp64(b) == 0x7FF {
      if Frac64(b) != 0 {
        z := PropagateFloat64NaN(status, a, b);
        return;
      }
      return a, 0;
    }
    if Exp64(b) == 0 && Frac64(b) == 0 {
      status.Raise({Invalid});
      return DEFAULT_NAN, 0;
    }
    var bExp, bSig := Unpack(b);
    if Exp64(a) == 0 && Frac64(a) == 0 {
      PositiveOperand(Units64(b), bExp, bSig);
      return a, 0;
    }
    var aExp, aSig := Unpack(a);
    if aExp - bExp < -1 {
      SmallDividend(Units64(a), aExp, aSig, Units64(b), bExp, bSig);
      return a, 0;
    }
    z, n := RemainderUnpacked(status, a, b, aExp, aSig, bExp, bSig);
  }

  method RemainderUnpacked(status: FloatStatus, a: u64, b: u64, aExp: int, aSig0: u64, bExp: int, bSig0: u64)
    returns (z: u64, ghost n: nat)
    requires Normalised(Units64(a), aExp, aSig0) && Normalised(Units64(b), bExp, bSig0)
    requires -1 <= aExp - bExp
    modifies status`exceptionFlags
    ensures IsRemainder(a, b, n, z) && status.exceptionFlags == old(status.exceptionFlags)
  {
    var expDiff := aExp - bExp;
    var aSig, bSig: u64 := aSig0 * 0x800, bSig0 * 0x800;
    if expDiff < 0 { aSig := aSig / 2; }
    var negative, magnitude;
    AlignedOperands(aSig0, bSig0, expDiff);
    negative, magnitude, n := SignificandRemainder(aSig, bSig, if expDiff < 0 then 0 else expDiff);
    ghost var ua, ub := Units64(a), Units64(b);
    ghost var r := if ua - n * ub < 0 then n * ub - ua else ua - n * ub;
    ResidueInUnits(ua, aExp, aSig0, ub, bExp, bSig0, n, negative, magnitude);
    var zSign := Sign64(a) != negative;
    NormalisingShift(magnitude);
    RemainderStandsFor(r, magnitude, bExp, CountLeadingZeros64(magnitude) - 1);
    z := NormalizeRoundAndPackFloat64(status, zSign, bExp, magnitude, r, 1);
    ghost var p := RemainderIsRepresentable(r, magnitude, ub, bExp, bSig0);
    StandardFormats();
    RepresentableIsExact(BINARY64, status.tininessBeforeRounding, Towards(status.roundingMode, zSign), r,
      Magnitude64(z), p);
    FieldsOfMagnitude(z);
  }

  lemma AlignedOperands(ma: nat, mb: nat, expDiff: int)
    requires 0x10_0000_0000_0000 <= mb && -1 <= expDiff
    ensures var aSig := if expDiff < 0 then ma * 0x800 / 2 else ma * 0x800;
      aSig % 0x400 == 0 && Scaled(aSig, if expDiff < 0 then 0 else expDiff) == Scaled(ma, 11 + expDiff)
    ensures (mb * 0x800) % 0x800 == 0 && (mb * 0x800) / 4 == mb * 0x200
  {
    assert Pow2(11) == 0x800 && Pow2(10) == 0x400;
    if expDiff < 0 {
      assert ma * 0x800 / 2 == ma * 0x400;
    } else {
      ScaledTwice(ma, 11, expDiff);
    }
  }

  lemma ResidueInUnits(ua: nat, aExp: int, ma: nat, ub: nat, bExp: int, mb: nat,
                       n: nat, negative: bool, magnitude: nat)
    requires Normalised(ua, aExp, ma) && Normalised(ub, bExp, mb) && bExp <= aExp + 1
    requires Scaled(ma, 11 + aExp - bExp)
      == 4 * Product(n, mb * 0x200) + (if negative then -4 * magnitude else 4 * magnitude)
    requires 2 * magnitude <= mb * 0x200 && (2 * magnitude == mb * 0x200 ==> n % 2 == 0) && (negative ==> 0 < magnitude)
    ensures NearestQuotient(ua, ub, n)
    ensures var r := ua - n * ub; var m := if r < 0 then -r else r;
      (r < 0 <==> negative) && 2 * m <= ub && Scaled(magnitude, bExp + 51) == Scaled(m, 61)
  {
    var y, b4 := Scaled(ma, 11 + aExp - bExp), mb * 0x200;
    PositiveOperand(ub, bExp, mb);
    ReductionInUnits(ua, aExp, ma, ub, bExp, mb, y);
    QuarterEquation(ua, ub, n, b4, negative, magnitude, y);
    RemainderInUnits(ua, ub, n, b4, negative, magnitude);
    var r := ua - n * ub;
    MagnitudeInUnits(if r < 0 then -r else r, magnitude, ub, bExp, mb);
  }

  lemma QuarterEquation(ua: nat, ub: nat, n: nat, b4: nat, negative: bool, magnitude: nat, y: int)
    requires y == 4 * Product(n, b4) + (if negative then -4 * magnitude else 4 * magnitude)
    requires y * ub == Product(ua, 4 * b4)
    ensures Product(ua, b4)
      == Product(n, Product(b4, ub)) + (if negative then -1 * Product(magnitude, ub) else Product(magnitude, ub))
  {
    var sm := if negative then -1 * magnitude else magnitude;
    Distribute(4 * Product(n, b4), 4 * sm, ub);
    MulAssoc(4, Product(n, b4), ub);
    MulAssoc(n, b4, ub);
    MulAssoc(4, sm, ub);
    MulAssoc(ua, 4, b4);
    MulAssoc(4, ua, b4);
    MulAssoc(-1, magnitude, ub);
  }
}
