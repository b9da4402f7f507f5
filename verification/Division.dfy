/** float64_div: the exact quotient, rounded once. */
module Division {
  import opened Words
  import opened MultiWord
  import opened Ieee
  import opened IeeeRounding
  import opened FloatRounding
  import opened SoftFloat
  import opened Float64
  import opened NaNs

  /** The significand quotient `ma * 2^k / (mb * 2^20)` of the division, counted in half units in
      the last place, has the cell of the exact quotient. */
  lemma QuotientStandsFor(ua: nat, aExp: int, ma: nat, ub: nat, bExp: int, mb: nat,
                          zExp: int, k: nat, c: nat, onStep: bool)
    requires Normalised(ua, aExp, ma) && Normalised(ub, bExp, mb)
    requires zExp == aExp - bExp + 0x447 - k && k <= 100
    requires InCell(c, onStep, Scaled(ma, k), Scaled(mb, 20))
    ensures StandsFor(zExp, c, onStep, Scaled(ua, 1074), ub)
  {
    CrossSignificands(ua, aExp, ma, ub, bExp, mb);
    Balance(Product(ma, ub), Product(ua, mb), aExp + 51, bExp + 51, k + UpShift(zExp), 1095 + DownShift(zExp));
    ProductOfScaled(ua, 1075, mb, 0);
    ScaledTwice(Product(ua, mb), 1075, DownShift(zExp) + 20);
    assert Scaled(ua, 1075) == 2 * Scaled(ua, 1074) by { ScaledTwice(ua, 1074, 1); }
    StandsForByPowers(zExp, c, onStep, ma, k, mb, 20, Scaled(ua, 1074), ub);
  }

  /** A truncated quotient and the exactness of the division give the cell of the exact quotient. */
  lemma QuotientCell(q: nat, a: nat, b: nat)
    requires 0 < b && q * b <= a < q * b + b
    ensures var z := StickyBit(q, a != q * b); InCell(z / 0x200, z % 0x200 == 0, a, 0x200 * b)
  {
    CellWiden(q, a == q * b, a, b, 0x200);
    StickyBitKeepsCell(q, a != q * b, 0x200);
  }

  /** Skipping the correction is safe: an estimate whose low nine bits exceed two lies in the cell
      of the exact quotient. */
  lemma EstimateCell(z: nat, a: nat, b: nat)
    requires 0 < b && WithinTwo(z, a, b) && 2 < z % 0x200
    ensures InCell(z / 0x200, false, a, 0x200 * b)
  {
    var c := z / 0x200;
    MulAssoc(c, 0x200, b);
    MulStrict(c * 0x200, z - 2, b);
    Distribute(z, -2, b);
    MulMono(z + 1, c * 0x200 + 0x200, b);
    Distribute(z, 1, b);
    Distribute(c * 0x200, 0x200, b);
  }

  lemma QuotientRange(z: nat, a: nat, b: nat)
    requires 0 < b && 0x4000_0000_0000_0000 * b <= a < 0x8000_0000_0000_0000 * b
    ensures a < z * b + b ==> 0x4000_0000_0000_0000 <= z
    ensures z * b <= a ==> z < 0x8000_0000_0000_0000
    ensures InCell(z / 0x200, z % 0x200 == 0, a, 0x200 * b) ==> z < 0x8000_0000_0000_0000
  {
    if z < 0x4000_0000_0000_0000 { MulMono(z + 1, 0x4000_0000_0000_0000, b); Distribute(z, 1, b); }
    if 0x8000_0000_0000_0000 <= z {
      MulMono(0x8000_0000_0000_0000, z, b);
      MulAssoc(z / 0x200, 0x200, b);
      MulMono(0x8000_0000_0000_0000, (z / 0x200) * 0x200, b);
    }
  }

  /** The quotient word: estimate, and exact correction when the estimate is too close to a
      rounding boundary. */
  method QuotientWord(aSig: u64, bSig: u64) returns (zSig: u64)
    requires 0x8000_0000_0000_0000 <= bSig
    requires 2 * aSig < bSig <= 4 * aSig
    ensures 0x4000_0000_0000_0000 <= zSig < 0x8000_0000_0000_0000
    ensures InCell(zSig / 0x200, zSig % 0x200 == 0, aSig * TWO64, 0x200 * bSig)
  {
    ghost var a := aSig * TWO64;
    zSig := EstimateDiv128To64(aSig, 0, bSig);
    QuotientRange(zSig, a, bSig);
    if zSig % 0x200 <= 2 {
      var q, exact := CorrectQuotient(aSig, bSig, zSig);
      QuotientCell(q, a, bSig);
      QuotientRange(q, a, bSig);
      zSig := StickyBit(q, !exact);
    } else {
      EstimateCell(zSig, a, bSig);
    }
  }

  /** The correction loop: steps the estimate down until the remainder is not negative. */
  method CorrectQuotient(aSig: u64, bSig: u64, estimate: u64) returns (q: u64, exact: bool)
    requires 0x8000_0000_0000_0000 <= bSig && WithinTwo(estimate, aSig * TWO64, bSig)
    ensures q * bSig <= aSig * TWO64 < q * bSig + bSig
    ensures exact <==> aSig * TWO64 == q * bSig
  {
    ghost var a := aSig * TWO64;
    var zSig: int := estimate;
    ghost var p0: int := estimate * bSig;
    ghost var p := p0;
    var term0, term1 := Mul64To128(bSig, estimate);
    var rem0, rem1 := Sub128(aSig, 0, term0, term1);
    assert -2 * bSig <= a - p0 < bSig;
    ghost var corrections := 0;
    while Negative64(rem0)
      invariant 0 <= corrections <= 2 && zSig == estimate - corrections
      invariant p == p0 - (if corrections == 0 then 0 else if corrections == 1 then bSig else 2 * bSig)
      invariant (if corrections == 0 then -2 * bSig else if corrections == 1 then -1 * bSig else 0) <= a - p < bSig
      invariant rem0 * TWO64 + rem1 == if a < p then a - p + TWO128 else a - p
      decreases 2 - corrections
    {
      zSig := zSig - 1;
      rem0, rem1 := Add128(rem0, rem1, 0, bSig);
      p, corrections := p - bSig, corrections + 1;
    }
    SteppedDown(estimate, corrections, bSig, p, a);
    q := zSig;
    exact := rem1 == 0;
  }

  lemma SteppedDown(estimate: nat, corrections: nat, b: nat, p: int, a: nat)
    requires corrections <= 2 && 0 <= a - p < b
    requires p == estimate * b - (if corrections == 0 then 0 else if corrections == 1 then b else 2 * b)
    ensures p == (estimate - corrections) * b && corrections <= estimate
  {
    Distribute(estimate - corrections, corrections, b);
    NonNegativeFactor(estimate - corrections, b, a);
  }

  lemma ShiftedSignificand(m: nat)
    ensures m * 0x400 * TWO64 == Scaled(m, 74)
    ensures m * 0x200 * TWO64 == Scaled(m, 73)
    ensures 0x200 * (m * 0x800) == Scaled(m, 20)
  {
    PowersOfTwo();
    assert Pow2(9) == 0x200 && Pow2(10) == 0x400 && Pow2(20) == 0x10_0000;
    Pow2Add(9, 64);
    Pow2Add(10, 64);
  }

  /** float64_div. */
  method Float64Div(status: FloatStatus, a: u64, b: u64) returns (z: u64)
    modifies status`exceptionFlags
    ensures var zSign := Sign64(a) != Sign64(b);
      if IsNaN64(a) || IsNaN64(b) then
        z == NaNResult64(status.defaultNaN, a, b)
          && status.exceptionFlags == old(status.exceptionFlags) + NaNExceptions64(a, b)
      else if IsInfinite64(a) then
        if IsInfinite64(b) then z == DEFAULT_NAN && status.exceptionFlags == old(status.exceptionFlags) + {Invalid}
        else z == PackFloat64(zSign, 0x7FF, 0) && status.exceptionFlags == old(status.exceptionFlags)
      else if IsInfinite64(b) then
        z == PackFloat64(zSign, 0, 0) && status.exceptionFlags == old(status.exceptionFlags)
      else if Magnitude64(b) == 0 then
        if Magnitude64(a) == 0 then z == DEFAULT_NAN && status.exceptionFlags == old(status.exceptionFlags) + {Invalid}
        else z == PackFloat64(zSign, 0x7FF, 0) && status.exceptionFlags == old(status.exceptionFlags) + {DivByZero}
      else
        IsRounded64(status.roundingMode, zSign, Scaled(Units64(a), 1074), Units64(b), z) &&
        status.exceptionFlags
          == old(status.exceptionFlags) + Raised64(status, zSign, Scaled(Units64(a), 1074), Units64(b), z)
  {
    FieldsOfMagnitude(a);
    FieldsOfMagnitude(b);
    var zSign := Sign64(a) != Sign64(b);
    if Exp64(a) == 0x7FF {
      if Frac64(a) != 0 || (Exp64(b) == 0x7FF && Frac64(b) != 0) {
        z := PropagateFloat64NaN(status, a, b);
        return;
      }
      if Exp64(b) == 0x7FF {
        status.Raise({Invalid});
        return DEFAULT_NAN;
      }
      return PackFloat64(zSign, 0x7FF, 0);
    }
    if Exp64(b) == 0x7FF {
      if Frac64(b) != 0 {
        z := PropagateFloat64NaN(status, a, b);
        return;
      }
      return PackFloat64(zSign, 0, 0);
    }
    if Exp64(b) == 0 && Frac64(b) == 0 {
      if Exp64(a) == 0 && Frac64(a) == 0 {
        status.Raise({Invalid});
        return DEFAULT_NAN;
      }
      status.Raise({DivByZero});
      return PackFloat64(zSign, 0x7FF, 0);
    }
    var bExp, bSig := Unpack(b);
    if Exp64(a) == 0 && Frac64(a) == 0 {
      z := PackFloat64(zSign, 0, 0);
      ZeroQuotient(status, zSign, a, b, z);
      return;
    }
    var aExp, aSig := Unpack(a);
    z := DivideUnpacked(status, zSign, aExp, aSig, bExp, bSig, Units64(a), Units64(b));
  }

  method DivideUnpacked(status: FloatStatus, zSign: bool, aExp: int, aSig0: u64, bExp: int, bSig0: u64,
                        ghost ua: nat, ghost ub: nat)
    returns (z: u64)
    requires Normalised(ua, aExp, aSig0) && Normalised(ub, bExp, bSig0)
    modifies status`exceptionFlags
    ensures IsRounded64(status.roundingMode, zSign, Scaled(ua, 1074), ub, z)
    ensures status.exceptionFlags == old(status.exceptionFlags) + Raised64(status, zSign, Scaled(ua, 1074), ub, z)
  {
    var zExp := aExp - bExp + 0x3FD;
    var aSig, bSig: u64 := aSig0 * 0x400, bSig0 * 0x800;
    ghost var k := 74;
    AlignedDividend(aSig0, bSig0);
    if bSig <= aSig + aSig {
      aSig := aSig / 2;
      zExp := zExp + 1;
      k := 73;
    }
    ShiftedSignificand(aSig0);
    ShiftedSignificand(bSig0);
    var zSig := QuotientWord(aSig, bSig);
    QuotientStandsFor(ua, aExp, aSig0, ub, bExp, bSig0, zExp, k, zSig / 0x200, zSig % 0x200 == 0);
    z := RoundAndPackFloat64(status, zSign, zExp, zSig, Scaled(ua, 1074), ub);
  }

  lemma ZeroQuotient(status: FloatStatus, zSign: bool, a: u64, b: u64, z: u64)
    requires Magnitude64(a) == 0 && Magnitude64(b) != 0 && z == PackFloat64(zSign, 0, 0)
    ensures IsRounded64(status.roundingMode, zSign, Scaled(Units64(a), 1074), Units64(b), z)
    ensures Raised64(status, zSign, Scaled(Units64(a), 1074), Units64(b), z) == {}
  {
    UnitsMonotone(BINARY64, 1, Magnitude64(b));
    PackedFields64(zSign, 0, 0);
    assert Scaled(0, 1074) == 0;
    ZeroIsRounded(status.tininessBeforeRounding, Towards(status.roundingMode, zSign), Units64(b));
  }

  /** Scaling the dividend by at most one bit puts the quotient in [2^62, 2^63). */
  lemma AlignedDividend(ma: nat, mb: nat)
    requires 0x10_0000_0000_0000 <= ma < 0x20_0000_0000_0000
    requires 0x10_0000_0000_0000 <= mb < 0x20_0000_0000_0000
    ensures var aSig, bSig := ma * 0x400, mb * 0x800;
      if bSig <= aSig + aSig then 2 * (aSig / 2) < bSig <= 4 * (aSig / 2) && aSig / 2 == ma * 0x200
      else 2 * aSig < bSig <= 4 * aSig
  {
    DivModIs(ma * 0x400, 2, ma * 0x200, 0);
    AlignedHalves(ma * 0x200, ma * 0x400, mb * 0x800);
  }

  lemma AlignedHalves(half: nat, aSig: nat, bSig: nat)
    requires aSig == 2 * half
    requires 0x4000_0000_0000_0000 <= aSig < 0x8000_0000_0000_0000
    requires 0x8000_0000_0000_0000 <= bSig < 0x1_0000_0000_0000_0000
    ensures if bSig <= aSig + aSig then 2 * half < bSig <= 4 * half else 2 * aSig < bSig <= 4 * aSig
  {
  }
}
