/** float64_mul: the exact product, rounded once. */
module Multiplication {
  import opened Words
  import opened MultiWord
  import opened Ieee
  import opened IeeeRounding
  import opened FloatRounding
  import opened SoftFloat
  import opened Float64
  import opened NaNs

  /** The 128-bit significand product against `2^(52 + k)`, counted in half units in the last place,
      has the cell of the exact product. */
  lemma ProductStandsFor(ua: nat, aExp: int, ma: nat, ub: nat, bExp: int, mb: nat,
                         zExp: int, k: nat, c: nat, onStep: bool)
    requires Normalised(ua, aExp, ma) && Normalised(ub, bExp, mb)
    requires zExp == aExp + bExp - 0x433 + k && k <= 52
    requires InCell(c, onStep, Product(ma, mb), Scaled(1, k))
    ensures StandsFor(zExp, c, onStep, Product(ua, ub), Scaled(1, 1074))
  {
    var x, y := Product(ma, mb), Product(ua, ub);
    CrossProducts(ua, aExp, ma, ub, bExp, mb);
    Balance(x, y, aExp + bExp + 102, 104, 1074 + UpShift(zExp), 1 + DownShift(zExp) + k);
    ProductOfScaled(x, 0, 1, 1074);
    ScaledTwice(x, 1074, UpShift(zExp));
    ScaledTwice(y, 1, DownShift(zExp) + k);
    StandsForByPowers(zExp, c, onStep, x, 0, 1, k, y, Scaled(1, 1074));
  }

  lemma CrossProducts(ua: nat, aExp: int, ma: nat, ub: nat, bExp: int, mb: nat)
    requires Normalised(ua, aExp, ma) && Normalised(ub, bExp, mb)
    ensures Scaled(Product(ma, mb), aExp + bExp + 102) == Scaled(Product(ua, ub), 104)
  {
    ProductOfScaled(ma, aExp + 51, mb, bExp + 51);
    ProductOfScaled(ua, 52, ub, 52);
    assert aExp + 51 + (bExp + 51) == aExp + bExp + 102;
  }

  /** The upper product word with its sticky bit holds the cell of the whole product. */
  method ProductWord(aSig: u64, bSig: u64) returns (zSig: u64)
    requires 0x4000_0000_0000_0000 <= aSig < 0x8000_0000_0000_0000 <= bSig
    ensures 0x2000_0000_0000_0000 <= zSig < 0x8000_0000_0000_0000
    ensures InCell(zSig / 0x200, zSig % 0x200 == 0, aSig * bSig, 0x200 * TWO64)
    ensures InCell(zSig / 0x100, zSig % 0x100 == 0, aSig * bSig, 0x100 * TWO64)
  {
    var zSig0, zSig1 := Mul64To128(aSig, bSig);
    MulMono(0x4000_0000_0000_0000, aSig, bSig);
    MulStrict(aSig, 0x8000_0000_0000_0000, bSig);
    CellWiden(zSig0, zSig1 == 0, aSig * bSig, TWO64, 0x200);
    StickyBitKeepsCell(zSig0, zSig1 != 0, 0x200);
    CellWiden(zSig0, zSig1 == 0, aSig * bSig, TWO64, 0x100);
    StickyBitKeepsCell(zSig0, zSig1 != 0, 0x100);
    zSig := StickyBit(zSig0, zSig1 != 0);
  }

  /** The shifts that align the operands do not move the cell. */
  lemma UnshiftedCell(c: nat, onStep: bool, ma: nat, mb: nat)
    ensures InCell(c, onStep, (ma * 0x400) * (mb * 0x800), 0x200 * TWO64) ==>
      InCell(c, onStep, Product(ma, mb), Scaled(1, 52))
    ensures InCell(c, onStep, (ma * 0x400) * (mb * 0x800), 0x100 * TWO64) ==>
      InCell(c, onStep, Product(ma, mb), Scaled(1, 51))
  {
    PowersOfTwo();
    assert Pow2(20) == 0x10_0000 && Pow2(19) == 0x8_0000;
    Pow2Add(32, 20);
    Pow2Add(32, 19);
    assert (ma * 0x400) * (mb * 0x800) == Product(ma, mb) * 0x20_0000 by {
      MulAssoc(ma, 0x400, mb * 0x800);
      MulAssoc(ma, mb, 0x20_0000);
    }
    CellScale(c, onStep, Product(ma, mb), Scaled(1, 52), 0x20_0000);
    CellScale(c, onStep, Product(ma, mb), Scaled(1, 51), 0x20_0000);
  }

  lemma AlignedProductCell(zSig: nat, ma: nat, mb: nat)
    requires InCell(zSig / 0x200, zSig % 0x200 == 0, (ma * 0x400) * (mb * 0x800), 0x200 * TWO64)
    requires InCell(zSig / 0x100, zSig % 0x100 == 0, (ma * 0x400) * (mb * 0x800), 0x100 * TWO64)
    ensures InCell(zSig / 0x200, zSig % 0x200 == 0, Product(ma, mb), Scaled(1, 52))
    ensures InCell((2 * zSig) / 0x200, (2 * zSig) % 0x200 == 0, Product(ma, mb), Scaled(1, 51))
  {
    assert (2 * zSig) / 0x200 == zSig / 0x100;
    UnshiftedCell(zSig / 0x200, zSig % 0x200 == 0, ma, mb);
    UnshiftedCell(zSig / 0x100, zSig % 0x100 == 0, ma, mb);
  }

  method MultiplyUnpacked(status: FloatStatus, zSign: bool, aExp: int, aSig0: u64, bExp: int, bSig0: u64,
                          ghost ua: nat, ghost ub: nat)
    returns (z: u64)
    requires Normalised(ua, aExp, aSig0) && Normalised(ub, bExp, bSig0)
    modifies status`exceptionFlags
    ensures IsRounded64(status.roundingMode, zSign, Product(ua, ub), Scaled(1, 1074), z)
    ensures status.exceptionFlags
      == old(status.exceptionFlags) + Raised64(status, zSign, Product(ua, ub), Scaled(1, 1074), z)
  {
    var zExp := aExp + bExp - 0x3FF;
    var aSig, bSig: u64 := aSig0 * 0x400, bSig0 * 0x800;
    var zSig0 := ProductWord(aSig, bSig);
    ghost var k := 52;
    AlignedProductCell(zSig0, aSig0, bSig0);
    if zSig0 < 0x4000_0000_0000_0000 {
      zSig0 := 2 * zSig0;
      zExp := zExp - 1;
      k := 51;
    }
    ProductStandsFor(ua, aExp, aSig0, ub, bExp, bSig0, zExp, k, zSig0 / 0x200, zSig0 % 0x200 == 0);
    z := RoundAndPackFloat64(status, zSign, zExp, zSig0, Product(ua, ub), Scaled(1, 1074));
  }

  /** float64_mul. */
  method Float64Mul(status: FloatStatus, a: u64, b: u64) returns (z: u64)
    modifies status`exceptionFlags
    ensures var zSign := Sign64(a) != Sign64(b);
      if IsNaN64(a) || IsNaN64(b) then
        z == NaNResult64(status.defaultNaN, a, b)
          && status.exceptionFlags == old(status.exceptionFlags) + NaNExceptions64(a, b)
      else if IsInfinite64(a) || IsInfinite64(b) then
        if Magnitude64(a) == 0 || Magnitude64(b) == 0 then
          z == DEFAULT_NAN && status.exceptionFlags == old(status.exceptionFlags) + {Invalid}
        else z == PackFloat64(zSign, 0x7FF, 0) && status.exceptionFlags == old(status.exceptionFlags)
      else
        var num := Product(Units64(a), Units64(b));
        IsRounded64(status.roundingMode, zSign, num, Scaled(1, 1074), z) &&
        status.exceptionFlags == old(status.exceptionFlags) + Raised64(status, zSign, num, Scaled(1, 1074), z)
  {
    FieldsOfMagnitude(a);
    FieldsOfMagnitude(b);
    var zSign := Sign64(a) != Sign64(b);
    if Exp64(a) == 0x7FF {
      if Frac64(a) != 0 || (Exp64(b) == 0x7FF && Frac64(b) != 0) {
        z := PropagateFloat64NaN(status, a, b);
        return;
      }
      if Exp64(b) == 0 && Frac64(b) == 0 {
        status.Raise({Invalid});
        return DEFAULT_NAN;
      }
      return PackFloat64(zSign, 0x7FF, 0);
    }
    if Exp64(b) == 0x7FF {
      if Frac64(b) != 0 {
        z := PropagateFloat64NaN(status, a, b);
        return;
      }
      if Exp64(a) == 0 && Frac64(a) == 0 {
        status.Raise({Invalid});
        return DEFAULT_NAN;
      }
      return PackFloat64(zSign, 0x7FF, 0);
    }
    if (Exp64(a) == 0 && Frac64(a) == 0) || (Exp64(b) == 0 && Frac64(b) == 0) {
      z := PackFloat64(zSign, 0, 0);
      ZeroProduct(status, zSign, a, b, z);
      return;
    }
    var aExp, aSig := Unpack(a);
    var bExp, bSig := Unpack(b);
    z := MultiplyUnpacked(status, zSign, aExp, aSig, bExp, bSig, Units64(a), Units64(b));
  }

  lemma ZeroProduct(status: FloatStatus, zSign: bool, a: u64, b: u64, z: u64)
    requires (Magnitude64(a) == 0 || Magnitude64(b) == 0) && z == PackFloat64(zSign, 0, 0)
    ensures IsRounded64(status.roundingMode, zSign, Product(Units64(a), Units64(b)), Scaled(1, 1074), z)
    ensures Raised64(status, zSign, Product(Units64(a), Units64(b)), Scaled(1, 1074), z) == {}
  {
    assert Product(Units64(a), Units64(b)) == 0;
    PackedFields64(zSign, 0, 0);
    ZeroIsRounded(status.tininessBeforeRounding, Towards(status.roundingMode, zSign), Scaled(1, 1074));
  }
}
