/** Operands of the double-precision operations: fields, exact values, and the normalised form
    `significand * 2^exponent` every operation starts from. */
module Float64 {
  import opened Words
  import opened Ieee
  import opened FloatRounding
  import opened SoftFloat

  const HIDDEN: int := 0x10_0000_0000_0000

  /** float64_default_nan of the x86 target. */
  const DEFAULT_NAN: u64 := 0xFFF8_0000_0000_0000

  function Frac64(a: u64): u64 {
    a % 0x10_0000_0000_0000
  }

  function Exp64(a: u64): int {
    (a / 0x10_0000_0000_0000) % 0x800
  }

  predicate IsNaN64(a: u64) {
    Exp64(a) == 0x7FF && Frac64(a) != 0
  }

  predicate IsInfinite64(a: u64) {
    Exp64(a) == 0x7FF && Frac64(a) == 0
  }

  predicate IsFinite64(a: u64) {
    Exp64(a) != 0x7FF
  }

  /** The magnitude of a finite number, in units of the smallest subnormal. */
  ghost function Units64(a: u64): nat {
    BINARY64.Units(Magnitude64(a))
  }

  lemma FieldsOfMagnitude(a: u64)
    ensures Magnitude64(a) == Exp64(a) * 0x10_0000_0000_0000 + Frac64(a)
    ensures 0 <= Exp64(a) <= 0x7FF && Frac64(a) < 0x10_0000_0000_0000
    ensures Sign64(a) <==> 0x8000_0000_0000_0000 <= a
  {
  }

  /** `units == m * 2^(exp - 1)` with a full-width significand, scaled so that no exponent is
      negative. */
  ghost predicate Normalised(units: nat, exp: int, m: nat) {
    && 0x10_0000_0000_0000 <= m < 0x20_0000_0000_0000
    && -51 <= exp <= 0x7FE
    && Scaled(m, exp + 51) == Scaled(units, 52)
  }

  lemma NormalOperand(a: u64)
    requires 1 <= Exp64(a) <= 0x7FE
    ensures Normalised(Units64(a), Exp64(a), Frac64(a) + 0x10_0000_0000_0000)
  {
    FieldsOfMagnitude(a);
    var e, m := Exp64(a), Frac64(a) + HIDDEN;
    StandardFormats();
    UnitsOfNormal(BINARY64, e, Frac64(a));
    Pow2Add(e - 1, 52);
    MulAssoc(m, Pow2(e - 1), Pow2(52));
  }

  lemma SubnormalOperand(a: u64, exp: int, m: nat)
    requires Exp64(a) == 0 && -51 <= exp <= 0 && m == Frac64(a) * Pow2(1 - exp)
    requires 0x10_0000_0000_0000 <= m < 0x20_0000_0000_0000
    ensures Normalised(Units64(a), exp, m)
  {
    FieldsOfMagnitude(a);
    Pow2Add(1 - exp, exp + 51);
    MulAssoc(Frac64(a), Pow2(1 - exp), Pow2(exp + 51));
  }

  function CountLeadingZeros64(a: u64): (n: nat)
    ensures n <= 64
    ensures a == 0 <==> n == 64
    ensures a != 0 ==> 0x8000_0000_0000_0000 <= a * Pow2(n) < 0x1_0000_0000_0000_0000
    decreases 0x1_0000_0000_0000_0000 - a
  {
    if a == 0 then 64
    else if 0x8000_0000_0000_0000 <= a then 0
    else
      var n := CountLeadingZeros64(2 * a);
      LeadingZerosStep(a, n);
      n + 1
  }

  lemma LeadingZerosStep(a: u64, n: nat)
    requires 0 < a && 2 * a * Pow2(n) < 0x1_0000_0000_0000_0000
    ensures a * Pow2(n + 1) == 2 * a * Pow2(n)
    ensures n < 63
  {
    MulAssoc(a, 2, Pow2(n));
    if 63 <= n {
      PowersOfTwo();
      Pow2Mono(63, n);
      MulAtLeast(2 * a, Pow2(n));
      assert Pow2(64) == 2 * Pow2(63);
      MulMono(2, 2 * a, Pow2(n));
    }
  }

  method NormalizeFloat64Subnormal(aSig: u64) returns (zExp: int, zSig: u64)
    requires 0 < aSig < 0x10_0000_0000_0000
    ensures 0x10_0000_0000_0000 <= zSig < 0x20_0000_0000_0000
    ensures -51 <= zExp <= 0 && zSig == aSig * Pow2(1 - zExp)
  {
    ShiftToHidden(aSig);
    var shiftCount := CountLeadingZeros64(aSig) - 11;
    zSig := aSig * Pow2(shiftCount);
    zExp := 1 - shiftCount;
  }

  lemma ShiftToHidden(aSig: u64)
    requires 0 < aSig < 0x10_0000_0000_0000
    ensures 12 <= CountLeadingZeros64(aSig) <= 63
    ensures 0x10_0000_0000_0000 <= aSig * Pow2(CountLeadingZeros64(aSig) - 11) < 0x20_0000_0000_0000
  {
    var n := CountLeadingZeros64(aSig);
    assert Pow2(11) == 0x800;
    if n <= 11 {
      Pow2Mono(n, 11);
      MulMono(Pow2(n), 0x800, aSig);
    } else {
      Pow2Add(n - 11, 11);
      MulAssoc(aSig, Pow2(n - 11), 0x800);
    }
  }

  /** The operand as the arithmetic routines hold it once zeros and infinities are handled. */
  method Unpack(a: u64) returns (aExp: int, aSig: u64)
    requires IsFinite64(a) && Magnitude64(a) != 0
    ensures Normalised(Units64(a), aExp, aSig)
  {
    FieldsOfMagnitude(a);
    aExp, aSig := Exp64(a), Frac64(a);
    if aExp == 0 {
      aExp, aSig := NormalizeFloat64Subnormal(aSig);
      SubnormalOperand(a, aExp, aSig);
    } else {
      NormalOperand(a);
      aSig := aSig + 0x10_0000_0000_0000;
    }
  }

  /** Two normalised operands compared with their exact values. */
  lemma CrossSignificands(ua: nat, aExp: int, ma: nat, ub: nat, bExp: int, mb: nat)
    requires Normalised(ua, aExp, ma) && Normalised(ub, bExp, mb)
    ensures Scaled(Product(ma, ub), aExp + 51) == Scaled(Product(ua, mb), bExp + 51)
    ensures 0 < ua && 0 < ub
  {
    PositiveOperand(ua, aExp, ma);
    PositiveOperand(ub, bExp, mb);
    ProductOfScaled(ma, aExp + 51, ub, 52);
    ProductOfScaled(ua, 52, mb, bExp + 51);
    ScaledTwice(Product(ma, ub), aExp + 51, 52);
    ScaledTwice(Product(ua, mb), bExp + 51, 52);
    CancelScale(Scaled(Product(ma, ub), aExp + 51), Scaled(Product(ua, mb), bExp + 51), 52);
  }

  lemma PositiveOperand(u: nat, exp: int, m: nat)
    requires Normalised(u, exp, m)
    ensures 0 < u
  {
    ScaledPositive(m, exp + 51);
    assert Scaled(0, 52) == 0;
  }

  lemma ZeroIsRounded(beforeRounding: bool, direction: Direction, den: nat)
    requires 0 < den
    ensures BINARY64.CorrectlyRounded(direction, 0, den, 0)
    ensures BINARY64.Raised(beforeRounding, direction, 0, den, 0) == {}
  {
    StandardFormats();
    PackingIsIeee(BINARY64, beforeRounding, direction, 0, 0, true, 0, den);
  }
}
