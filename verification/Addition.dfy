/** float64_add and float64_sub: the exact sum, rounded once. */
module Addition {
  import opened Words
  import opened Ieee
  import opened IeeeRounding
  import opened FloatRounding
  import opened SoftFloat
  import opened Float64
  import opened NaNs
  import opened ExactResults

  /** Moving value and cell by whole steps. */
  lemma CellTranslate(c: nat, onStep: bool, n: nat, x: nat, k: nat)
    requires InCell(c, onStep, n, x)
    ensures InCell(k + c, onStep, k * x + n, x)
  {
    Distribute(k, c, x);
  }

  /** Reflecting a cell: the value `k * x - n`. */
  lemma CellReflect(c: nat, onStep: bool, n: nat, x: nat, k: nat)
    requires 0 < x && InCell(c, onStep, n, x) && n <= k * x
    ensures onStep ==> c <= k && InCell(k - c, true, k * x - n, x)
    ensures !onStep ==> c < k && InCell(k - c - 1, false, k * x - n, x)
  {
    CellOrder(c, onStep, n, x, k);
    Distribute(k, -1 * c, x);
    Distribute(k, -1 * c - 1, x);
    MulAssoc(-1, c, x);
    Distribute(-1 * c, -1, x);
  }

  /** How many whole half-units a word holds, and whether nothing is left over. */
  function Steps(sig: nat, half: nat): (c: nat)
    requires 0 < half
  {
    DivMod(sig, half);
    sig / half
  }

  ghost predicate WordCell(sig: nat, half: nat, n: nat, x: nat)
    requires 0 < half
  {
    InCell(Steps(sig, half), sig % half == 0, n, x)
  }

  lemma JammedCell(sig: nat, p: nat, half: nat)
    requires 0 < p && 0 < half && half % 2 == 0
    ensures WordCell(Jam(sig, p), half, sig, Product(half, p))
  {
    CellWiden(sig, true, sig, 1, half);
    CellWiden(Steps(sig, half), sig % half == 0, sig, half, p);
    JamKeepsCell(sig, p, half);
  }

  /** Adding whole half-units to a word adds them to its steps. */
  lemma AlignedSteps(k: nat, sig: nat, half: nat)
    requires 0 < half
    ensures Steps(k * half + sig, half) == k + Steps(sig, half)
    ensures (k * half + sig) % half == sig % half
  {
    DivMod(sig, half);
    Distribute(k, sig / half, half);
    DivModIs(k * half + sig, half, k + sig / half, sig % half);
  }

  /** The sum of an aligned word and a jammed word has the cell of the exact sum. */
  lemma SumCell(k: nat, bSig: nat, p: nat, half: nat)
    requires 0 < p && 0 < half && half % 2 == 0
    ensures WordCell(k * half + Jam(bSig, p), half, k * Product(half, p) + bSig, Product(half, p))
  {
    JammedCell(bSig, p, half);
    CellTranslate(Steps(Jam(bSig, p), half), Jam(bSig, p) % half == 0, bSig, Product(half, p), k);
    AlignedSteps(k, Jam(bSig, p), half);
  }

  /** The difference of an aligned word and a jammed word has the cell of the exact difference. */
  lemma DifferenceCell(k: nat, bSig: nat, p: nat, half: nat)
    requires 0 < p && 0 < half && half % 2 == 0
    requires bSig <= k * Product(half, p)
    ensures Jam(bSig, p) <= k * half
    ensures WordCell(k * half - Jam(bSig, p), half, k * Product(half, p) - bSig, Product(half, p))
  {
    var j := Jam(bSig, p);
    var c, r := Steps(j, half), j % half;
    JammedCell(bSig, p, half);
    MulStrict(0, half, p);
    CellReflect(c, r == 0, bSig, Product(half, p), k);
    DivMod(j, half);
    Distribute(k, -1 * (c as int), half);
    MulAssoc(-1, c, half);
    if r == 0 {
      MulMono(0, k - c, half);
      AlignedSteps(k - c, 0, half);
    } else {
      MulMono(0, k - c - 1, half);
      Distribute(k - c, -1, half);
      AlignedSteps(k - c - 1, half - r, half);
      DivModIs(half - r, half, 0, half - r);
    }
  }

  /** The operands as addition sees them: `ua == ma * 2^(e + d)` and `ub == mb * 2^e`. Words carry
      `g` guard bits below the significand. */
  ghost predicate AlignedBy(ua: nat, ma: nat, ub: nat, mb: nat, e: nat, d: nat) {
    ua == Scaled(ma, e + d) && ub == Scaled(mb, e)
  }

  lemma SumInUnits(ua: nat, ma: nat, ub: nat, mb: nat, e: nat, d: nat, g: nat)
    requires AlignedBy(ua, ma, ub, mb, e, d)
    ensures Scaled(Product(Scaled(ma, g), Pow2(d)) + Scaled(mb, g), e) == Scaled(ua + ub, g)
    ensures ub <= ua ==>
      Scaled(mb, g) <= Product(Scaled(ma, g), Pow2(d)) &&
      Scaled(Product(Scaled(ma, g), Pow2(d)) - Scaled(mb, g), e) == Scaled(ua - ub, g)
  {
    var x, y := Product(Scaled(ma, g), Pow2(d)), Scaled(mb, g);
    ScaledTwice(ma, g, d);
    ScaledTwice(ma, g + d, e);
    ScaledTwice(ma, e + d, g);
    ScaledTwice(mb, g, e);
    ScaledTwice(mb, e, g);
    assert Scaled(x, e) == Scaled(ua, g) && Scaled(y, e) == Scaled(ub, g);
    DifferenceOfScaled(x, y, e, ua, ub, g);
  }

  lemma DifferenceOfScaled(x: nat, y: nat, e: nat, u: nat, v: nat, g: nat)
    requires Scaled(x, e) == Scaled(u, g) && Scaled(y, e) == Scaled(v, g)
    ensures Scaled(x + y, e) == Scaled(u + v, g)
    ensures v <= u ==> y <= x && Scaled(x - y, e) == Scaled(u - v, g)
  {
    Distribute(x, y, Pow2(e));
    Distribute(u, v, Pow2(g));
    if v <= u {
      MulMono(v, u, Pow2(g));
      if x < y { MulStrict(x, y, Pow2(e)); }
      Distribute(x - y, y, Pow2(e));
      Distribute(u - v, v, Pow2(g));
    }
  }

  /** A cell found at `2^j` steps to the word stands for the sum or difference in units. */
  lemma TotalStandsFor(zExp: int, c: nat, onStep: bool, x: nat, j: nat, e: nat, total: nat, g: nat)
    requires InCell(c, onStep, x, Pow2(j)) && Scaled(x, e) == Scaled(total, g)
    requires zExp == e + j + 1 - g
    ensures StandsFor(zExp, c, onStep, total, 1)
  {
    hide StandsFor;
    hide InCell;
    Balance(x, total, e, g, UpShift(zExp), 1 + DownShift(zExp) + j);
    ScaledTwice(total, 1, DownShift(zExp) + j);
    StandsForByPowers(zExp, c, onStep, x, 0, 1, j, total, 1);
  }

  lemma SmallPowers()
    ensures Pow2(8) == 0x100 && Pow2(9) == 0x200 && Pow2(10) == 0x400
  {
  }

  /** The significand and the effective exponent of a finite operand. */
  lemma FiniteOperand(a: u64)
    requires IsFinite64(a)
    ensures var m := Frac64(a) + if Exp64(a) == 0 then 0 else 0x10_0000_0000_0000;
      var e := if Exp64(a) == 0 then 0 else Exp64(a) - 1;
      0 <= e && Units64(a) == Scaled(m, e)
  {
    FieldsOfMagnitude(a);
    StandardFormats();
    if Exp64(a) != 0 {
      UnitsOfPacked(BINARY64, Exp64(a) - 1, Frac64(a) + 0x10_0000_0000_0000);
    }
  }

  lemma SumStandsFor(ua: nat, ma: nat, ub: nat, mb: nat, e: nat, d: nat, half: nat, log: nat, k: nat)
    requires AlignedBy(ua, ma, ub, mb, e, d)
    requires half == Pow2(log) && half % 2 == 0 && k * half == 0x200
    ensures var zSig := ma * 0x200 + Jam(mb * 0x200, Pow2(d));
      StandsFor(e + d + log - 8, Steps(zSig, half), zSig % half == 0, ua + ub, 1)
  {
    hide StandsFor;
    hide InCell;
    hide Scaled;
    hide Product;
    var zSig := ma * 0x200 + Jam(mb * 0x200, Pow2(d));
    SumInUnits(ua, ma, ub, mb, e, d, 9);
    WordSum(ma, mb, d, half, log, k);
    TotalStandsFor(e + d + log - 8, Steps(zSig, half), zSig % half == 0,
      Product(Scaled(ma, 9), Pow2(d)) + Scaled(mb, 9), log + d, e, ua + ub, 9);
  }

  lemma WordSum(ma: nat, mb: nat, d: nat, half: nat, log: nat, k: nat)
    requires half == Pow2(log) && half % 2 == 0 && 0 < half && k * half == 0x200
    ensures WordCell(ma * 0x200 + Jam(mb * 0x200, Pow2(d)), half, Product(Scaled(ma, 9), Pow2(d)) + Scaled(mb, 9),
      Pow2(log + d))
  {
    SmallPowers();
    SumCell(ma * k, mb * 0x200, Pow2(d), half);
    MulAssoc(ma, k, half);
    Pow2Add(log, d);
    MulAssoc(ma * k, half, Pow2(d));
  }

  /** The part of addFloat64Sigs common to operands with different exponents: `ma` belongs to the
      larger, `mb` is `d` binades below. */
  method AddAligned(status: FloatStatus, zSign: bool, zExp0: int, ma: u64, mb: u64, d: nat, ghost ua: nat,
                    ghost ub: nat)
    returns (z: u64)
    requires 0x10_0000_0000_0000 <= ma < 0x20_0000_0000_0000 && mb < 0x20_0000_0000_0000
    requires 1 + d <= zExp0 <= 0x7FE && AlignedBy(ua, ma, ub, mb, zExp0 - 1 - d, d)
    modifies status`exceptionFlags
    ensures IsRounded64(status.roundingMode, zSign, ua + ub, 1, z)
    ensures status.exceptionFlags == old(status.exceptionFlags) + Raised64(status, zSign, ua + ub, 1, z)
  {
    var aSig, bSig: u64 := ma * 0x200, mb * 0x200;
    bSig := Shift64RightJamming(bSig, d);
    JamBounds(mb * 0x200, Pow2(d));
    SmallPowers();
    SumStandsFor(ua, ma, ub, mb, zExp0 - 1 - d, d, 0x200, 9, 1);
    SumStandsFor(ua, ma, ub, mb, zExp0 - 1 - d, d, 0x100, 8, 2);
    DoubledSteps(aSig + bSig);
    StandardFormats();
    var zExp := zExp0 - 1;
    var zSig := (aSig + bSig) * 2;
    if 0x8000_0000_0000_0000 <= zSig {
      zSig := aSig + bSig;
      zExp := zExp + 1;
    }
    z := RoundAndPackFloat64(status, zSign, zExp, zSig, ua + ub, 1);
  }

  lemma DoubledSteps(zSig: nat)
    ensures Steps(zSig, 0x200) == zSig / 0x200 && Steps(zSig, 0x100) == (zSig * 2) / 0x200
    ensures zSig % 0x100 == 0 <==> (zSig * 2) % 0x200 == 0
  {
  }

  lemma JamBounds(sig: nat, p: nat)
    requires 0 < p
    ensures Jam(sig, p) <= sig
  {
    DivMod(sig, p);
    if p == 1 { DivModIs(sig, 1, sig, 0); } else { JamShrinks(sig, p); }
  }

  lemma WordDifference(ma: nat, mb: nat, d: nat, half: nat, log: nat, k: nat)
    requires half == Pow2(log) && half % 2 == 0 && 0 < half && k * half == 0x400
    requires Scaled(mb, 10) <= Product(Scaled(ma, 10), Pow2(d))
    ensures Jam(mb * 0x400, Pow2(d)) <= ma * 0x400
    ensures WordCell(ma * 0x400 - Jam(mb * 0x400, Pow2(d)), half,
              Product(Scaled(ma, 10), Pow2(d)) - Scaled(mb, 10), Pow2(log + d))
  {
    SmallPowers();
    MulAssoc(ma, k, half);
    Pow2Add(log, d);
    MulAssoc(ma * k, half, Pow2(d));
    DifferenceCell(ma * k, mb * 0x400, Pow2(d), half);
  }

  /** A difference that lost no bits is exact whatever cancels. */
  lemma ExactDifferenceStandsFor(zSig: nat, x: nat, e: nat, d: nat, s: nat, total: nat)
    requires x == Scaled(zSig, d) && Scaled(x, e) == Scaled(total, 10)
    ensures StandsFor(e + d - s, Scaled(zSig, s) / 0x200, Scaled(zSig, s) % 0x200 == 0, total, 1)
  {
    hide StandsFor;
    hide InCell;
    var zExp := e + d - s;
    SmallPowers();
    ScaledTwice(zSig, d, e);
    ExactWordCell(Scaled(zSig, s));
    assert Scaled(1, 9) == 0x200;
    Balance(zSig, total, d + e, 10, s + UpShift(zExp), 10 + DownShift(zExp));
    ScaledTwice(total, 1, DownShift(zExp) + 9);
    StandsForByPowers(zExp, Scaled(zSig, s) / 0x200, Scaled(zSig, s) % 0x200 == 0, zSig, s, 1, 9, total, 1);
  }

  lemma InexactDifferenceStandsFor(ua: nat, ma: nat, ub: nat, mb: nat, e: nat, d: nat, half: nat, log: nat, k: nat)
    requires AlignedBy(ua, ma, ub, mb, e, d) && ub <= ua
    requires half == Pow2(log) && half % 2 == 0 && 0 < half && k * half == 0x400
    ensures Jam(mb * 0x400, Pow2(d)) <= ma * 0x400
    ensures var zSig := ma * 0x400 - Jam(mb * 0x400, Pow2(d));
      StandsFor(e + d + log - 9, Steps(zSig, half), zSig % half == 0, ua - ub, 1)
  {
    hide StandsFor;
    hide InCell;
    hide Scaled;
    hide Product;
    SumInUnits(ua, ma, ub, mb, e, d, 10);
    WordDifference(ma, mb, d, half, log, k);
    var zSig := ma * 0x400 - Jam(mb * 0x400, Pow2(d));
    TotalStandsFor(e + d + log - 9, Steps(zSig, half), zSig % half == 0,
      Product(Scaled(ma, 10), Pow2(d)) - Scaled(mb, 10), log + d, e, ua - ub, 10);
  }

  /** Bits are lost only when the exponents differ by more than the guard bits, and then at most
      one leading bit cancels. */
  lemma LostBits(ma: nat, mb: nat, d: nat)
    requires 0x10_0000_0000_0000 <= ma < 0x20_0000_0000_0000 && mb < 0x20_0000_0000_0000
    requires (mb * 0x400) % Pow2(d) != 0
    ensures 11 <= d
    ensures 0x2000_0000_0000_0000 <= ma * 0x400 - Jam(mb * 0x400, Pow2(d)) < 0x8000_0000_0000_0000
  {
    if d <= 10 {
      NothingLost(mb, d);
      assert false;
    }
    FarBelow(mb, d);
  }

  /** Ten guard bits hold everything shifted out by up to ten places. */
  lemma NothingLost(mb: nat, d: nat)
    requires d <= 10
    ensures (mb * 0x400) % Pow2(d) == 0
  {
    var p := Pow2(d);
    assert Pow2(10) == 0x400 by { SmallPowers(); }
    Pow2Add(d, 10 - d);
    MulAssoc(mb, Pow2(10 - d), p);
    DivModIs(mb * 0x400, p, mb * Pow2(10 - d), 0);
  }

  /** What is left of a word shifted by more than ten places. */
  lemma FarBelow(mb: nat, d: nat)
    requires 11 <= d && mb < 0x20_0000_0000_0000
    ensures Jam(mb * 0x400, Pow2(d)) <= 0x10_0000_0000_0000
  {
    var p := Pow2(d);
    Pow2Mono(11, d);
    assert Pow2(11) == 0x800 by { SmallPowers(); }
    hide Pow2;
    DivMod(mb * 0x400, p);
    var q := mb * 0x400 / p;
    MulMono(0x800, p, q);
  }

  /** Whatever bits were lost or cancelled, the normalised difference stands for the exact one. */
  lemma DifferenceStandsFor(ua: nat, ma: nat, ub: nat, mb: nat, e: nat, d: nat, zSig: u64)
    requires AlignedBy(ua, ma, ub, mb, e, d) && ub <= ua
    requires ma < 0x20_0000_0000_0000 && mb < 0x20_0000_0000_0000 && (0 < d ==> 0x10_0000_0000_0000 <= ma)
    requires Jam(mb * 0x400, Pow2(d)) <= ma * 0x400
    requires zSig == ma * 0x400 - Jam(mb * 0x400, Pow2(d))
    ensures zSig < 0x8000_0000_0000_0000
    ensures var s := CountLeadingZeros64(zSig) - 1;
      0 <= s && StandsFor(e + d - s, Scaled(zSig, s) / 0x200, Scaled(zSig, s) % 0x200 == 0, ua - ub, 1)
  {
    hide StandsFor;
    hide Scaled;
    hide Jam;
    var p := Pow2(d);
    NormalisingShift(zSig);
    DivMod(mb * 0x400, p);
    if (mb * 0x400) % p == 0 {
      LosslessDifference(ua, ma, ub, mb, e, d, zSig, CountLeadingZeros64(zSig) - 1);
    } else {
      ZeroShift(mb * 0x400, d);
      LostBits(ma, mb, d);
      OneBitShift(zSig);
      SmallPowers();
      DoubledSteps(zSig);
      if CountLeadingZeros64(zSig) == 1 {
        InexactDifferenceStandsFor(ua, ma, ub, mb, e, d, 0x200, 9, 2);
      } else {
        InexactDifferenceStandsFor(ua, ma, ub, mb, e, d, 0x100, 8, 4);
      }
    }
  }

  lemma LosslessDifference(ua: nat, ma: nat, ub: nat, mb: nat, e: nat, d: nat, zSig: nat, s: nat)
    requires AlignedBy(ua, ma, ub, mb, e, d) && ub <= ua && (mb * 0x400) % Pow2(d) == 0
    requires zSig == ma * 0x400 - Jam(mb * 0x400, Pow2(d))
    ensures StandsFor(e + d - s, Scaled(zSig, s) / 0x200, Scaled(zSig, s) % 0x200 == 0, ua - ub, 1)
  {
    hide StandsFor;
    hide Scaled;
    hide Product;
    hide Jam;
    SumInUnits(ua, ma, ub, mb, e, d, 10);
    WithoutLoss(ma, mb, d, zSig);
    ExactDifferenceStandsFor(zSig, Scaled(zSig, d), e, d, s, ua - ub);
  }

  lemma ZeroShift(sig: nat, d: nat)
    requires sig % Pow2(d) != 0
    ensures 0 < d
  {
    if d == 0 { DivModIs(sig, 1, sig, 0); }
  }

  lemma WithoutLoss(ma: nat, mb: nat, d: nat, zSig: nat)
    requires (mb * 0x400) % Pow2(d) == 0 && zSig == ma * 0x400 - Jam(mb * 0x400, Pow2(d))
    ensures Product(Scaled(ma, 10), Pow2(d)) - Scaled(mb, 10) == Scaled(zSig, d)
  {
    SmallPowers();
    DivMod(mb * 0x400, Pow2(d));
    Distribute(zSig, (mb * 0x400) / Pow2(d), Pow2(d));
  }

  lemma OneBitShift(zSig: u64)
    requires 0x2000_0000_0000_0000 <= zSig < 0x8000_0000_0000_0000
    ensures var s := CountLeadingZeros64(zSig) - 1;
      (s == 0 && Scaled(zSig, s) == zSig && 0x4000_0000_0000_0000 <= zSig) || (s == 1 && Scaled(zSig, s) == zSig * 2)
  {
    var n := CountLeadingZeros64(zSig);
    assert Pow2(0) == 1 && Pow2(1) == 2 && Pow2(2) == 4 && Pow2(3) == 8;
    if 3 <= n {
      Pow2Mono(3, n);
      MulMono(8, Pow2(n), zSig);
    }
  }

  /** The end of subFloat64Sigs, where `zExp0` is the exponent of the larger operand. */
  method PackDifference(status: FloatStatus, zSign: bool, zExp0: int, zSig: u64,
                        ghost ua: nat, ghost ma: nat, ghost ub: nat, ghost mb: nat, ghost d: nat)
    returns (z: u64)
    requires 1 + d <= zExp0 <= 0x7FE && AlignedBy(ua, ma, ub, mb, zExp0 - 1 - d, d) && ub <= ua
    requires ma < 0x20_0000_0000_0000 && mb < 0x20_0000_0000_0000 && (0 < d ==> 0x10_0000_0000_0000 <= ma)
    requires Jam(mb * 0x400, Pow2(d)) <= ma * 0x400
    requires zSig == ma * 0x400 - Jam(mb * 0x400, Pow2(d))
    modifies status`exceptionFlags
    ensures IsRounded64(status.roundingMode, zSign, ua - ub, 1, z)
    ensures status.exceptionFlags == old(status.exceptionFlags) + Raised64(status, zSign, ua - ub, 1, z)
  {
    DifferenceStandsFor(ua, ma, ub, mb, zExp0 - 1 - d, d, zSig);
    var zExp := zExp0 - 1;
    z := NormalizeRoundAndPackFloat64(status, zSign, zExp, zSig, ua - ub, 1);
  }

  /** The exact signed sum in sign and magnitude. A zero sum of opposite signs takes the sign the
      rounding mode asks for (section 6.3). */
  ghost predicate IsRoundedSum(mode: RoundingMode, aSign: bool, ua: nat, bSign: bool, ub: nat, z: u64) {
    if aSign == bSign then IsRounded64(mode, aSign, ua + ub, 1, z)
    else if ub < ua then IsRounded64(mode, aSign, ua - ub, 1, z)
    else if ua < ub then IsRounded64(mode, bSign, ub - ua, 1, z)
    else z == PackFloat64(mode == Down, 0, 0)
  }

  ghost function SumExceptions(status: FloatStatus, aSign: bool, ua: nat, bSign: bool, ub: nat, z: u64): set<Exception>
    reads status
  {
    if aSign == bSign then Raised64(status, aSign, ua + ub, 1, z)
    else if ub < ua then Raised64(status, aSign, ua - ub, 1, z)
    else if ua < ub then Raised64(status, bSign, ub - ua, 1, z)
    else {}
  }

  /** The sum of infinities and NaNs, as addFloat64Sigs and subFloat64Sigs give it: `opposite` says that the
      operands enter with opposite signs. */
  ghost predicate IsSpecialSum(defaultNaN: bool, a: u64, b: u64, zSign: bool, opposite: bool, z: u64) {
    if IsNaN64(a) || IsNaN64(b) then z == NaNResult64(defaultNaN, a, b)
    else if IsInfinite64(a) then z == if opposite && IsInfinite64(b) then DEFAULT_NAN else a
    else z == PackFloat64(zSign != opposite, 0x7FF, 0)
  }

  function SpecialExceptions(a: u64, b: u64, opposite: bool): set<Exception> {
    if IsNaN64(a) || IsNaN64(b) then NaNExceptions64(a, b)
    else if opposite && IsInfinite64(a) && IsInfinite64(b) then {Invalid}
    else {}
  }

  /** The branches of addFloat64Sigs and subFloat64Sigs for infinities and NaNs. */
  method SpecialSum(status: FloatStatus, a: u64, b: u64, zSign: bool, opposite: bool) returns (z: u64)
    requires !IsFinite64(a) || !IsFinite64(b)
    modifies status`exceptionFlags
    ensures IsSpecialSum(status.defaultNaN, a, b, zSign, opposite, z)
    ensures status.exceptionFlags == old(status.exceptionFlags) + SpecialExceptions(a, b, opposite)
  {
    if (Exp64(a) == 0x7FF && Frac64(a) != 0) || (Exp64(b) == 0x7FF && Frac64(b) != 0) {
      z := PropagateFloat64NaN(status, a, b);
    } else if Exp64(a) == 0x7FF {
      if opposite && Exp64(b) == 0x7FF {
        status.Raise({Invalid});
        return DEFAULT_NAN;
      }
      return a;
    } else {
      return PackFloat64(zSign != opposite, 0x7FF, 0);
    }
  }

  /** addFloat64Sigs. */
  method AddFloat64Sigs(status: FloatStatus, a: u64, b: u64, zSign: bool) returns (z: u64)
    modifies status`exceptionFlags
    ensures if IsFinite64(a) && IsFinite64(b) then
        IsRounded64(status.roundingMode, zSign, Units64(a) + Units64(b), 1, z) &&
        status.exceptionFlags == old(status.exceptionFlags) + Raised64(status, zSign, Units64(a) + Units64(b), 1, z)
      else
        IsSpecialSum(status.defaultNaN, a, b, zSign, false, z) &&
        status.exceptionFlags == old(status.exceptionFlags) + SpecialExceptions(a, b, false)
  {
    hide IsRounded64, Raised64, Units64, IsSpecialSum;
    if Exp64(a) == 0x7FF || Exp64(b) == 0x7FF {
      z := SpecialSum(status, a, b, zSign, false);
    } else {
      z := AddFiniteSigs(status, a, b, zSign);
    }
  }

  /** The rest of addFloat64Sigs. */
  method AddFiniteSigs(status: FloatStatus, a: u64, b: u64, zSign: bool) returns (z: u64)
    requires IsFinite64(a) && IsFinite64(b)
    modifies status`exceptionFlags
    ensures IsRounded64(status.roundingMode, zSign, Units64(a) + Units64(b), 1, z)
    ensures status.exceptionFlags == old(status.exceptionFlags) + Raised64(status, zSign, Units64(a) + Units64(b), 1, z)
  {
    hide IsRounded64;
    hide Raised64;
    hide Scaled;
    hide Jam;
    hide Units64;
    FiniteOperand(a);
    FiniteOperand(b);
    FieldsOfMagnitude(a);
    FieldsOfMagnitude(b);
    var aExp, aSig, bExp, bSig := Exp64(a), Frac64(a), Exp64(b), Frac64(b);
    var expDiff := aExp - bExp;
    if 0 < expDiff {
      if bExp == 0 { expDiff := expDiff - 1; } else { bSig := bSig + 0x10_0000_0000_0000; }
      z := AddAligned(status, zSign, aExp, aSig + 0x10_0000_0000_0000, bSig, expDiff, Units64(a), Units64(b));
    } else if expDiff < 0 {
      if aExp == 0 { expDiff := expDiff + 1; } else { aSig := aSig + 0x10_0000_0000_0000; }
      z := AddAligned(status, zSign, bExp, bSig + 0x10_0000_0000_0000, aSig, -expDiff, Units64(b), Units64(a));
    } else if aExp == 0 {
      z := PackFloat64(zSign, 0, aSig + bSig);
      SubnormalSum(status, zSign, a, b, z);
    } else {
      z := AddAligned(status, zSign, aExp, aSig + 0x10_0000_0000_0000, bSig + 0x10_0000_0000_0000, 0,
        Units64(a), Units64(b));
    }
  }

  lemma SubnormalSum(status: FloatStatus, zSign: bool, a: u64, b: u64, z: u64)
    requires Exp64(a) == 0 && Exp64(b) == 0 && z == PackFloat64(zSign, 0, Frac64(a) + Frac64(b))
    ensures IsRounded64(status.roundingMode, zSign, Units64(a) + Units64(b), 1, z)
    ensures Raised64(status, zSign, Units64(a) + Units64(b), 1, z) == {}
  {
    FieldsOfMagnitude(a);
    FieldsOfMagnitude(b);
    StandardFormats();
    var sum := Frac64(a) + Frac64(b);
    PackedFields64(zSign, 0, sum);
    UnitsOfPacked(BINARY64, 0, sum);
    WholeNumberIsRounded(status.tininessBeforeRounding, Towards(status.roundingMode, zSign), sum);
  }

  lemma WholeNumberIsRounded(beforeRounding: bool, direction: Direction, n: nat)
    requires n < 0x20_0000_0000_0000
    ensures BINARY64.CorrectlyRounded(direction, n, 1, n)
    ensures BINARY64.Raised(beforeRounding, direction, n, 1, n) == {}
  {
    StandardFormats();
    UnitsOfPacked(BINARY64, 0, n);
    WholeUnits(BINARY64, direction, 0, 2 * n, true, n, 1);
    RepresentableIsExact(BINARY64, beforeRounding, direction, n,
      0 * BINARY64.hidden + RoundCell(direction, 2 * n, true), n);
  }

  /** subFloat64Sigs. */
  method SubFloat64Sigs(status: FloatStatus, a: u64, b: u64, zSign: bool) returns (z: u64)
    modifies status`exceptionFlags
    ensures if IsFinite64(a) && IsFinite64(b) then
        IsRoundedSum(status.roundingMode, zSign, Units64(a), !zSign, Units64(b), z) &&
        status.exceptionFlags
          == old(status.exceptionFlags) + SumExceptions(status, zSign, Units64(a), !zSign, Units64(b), z)
      else
        IsSpecialSum(status.defaultNaN, a, b, zSign, true, z) &&
        status.exceptionFlags == old(status.exceptionFlags) + SpecialExceptions(a, b, true)
  {
    hide IsRoundedSum, SumExceptions, Units64, IsSpecialSum;
    if Exp64(a) == 0x7FF || Exp64(b) == 0x7FF {
      z := SpecialSum(status, a, b, zSign, true);
    } else {
      z := SubFiniteSigs(status, a, b, zSign);
    }
  }

  /** The rest of subFloat64Sigs. */
  method SubFiniteSigs(status: FloatStatus, a: u64, b: u64, zSign: bool) returns (z: u64)
    requires IsFinite64(a) && IsFinite64(b)
    modifies status`exceptionFlags
    ensures IsRoundedSum(status.roundingMode, zSign, Units64(a), !zSign, Units64(b), z)
    ensures status.exceptionFlags
      == old(status.exceptionFlags) + SumExceptions(status, zSign, Units64(a), !zSign, Units64(b), z)
  {
    hide IsRounded64;
    hide Raised64;
    hide Scaled;
    hide Jam;
    hide Units64;
    FiniteOperand(a);
    FiniteOperand(b);
    FieldsOfMagnitude(a);
    FieldsOfMagnitude(b);
    var aExp, aSig, bExp, bSig := Exp64(a), Frac64(a) * 0x400, Exp64(b), Frac64(b) * 0x400;
    ghost var ua, ub := Units64(a), Units64(b);
    ghost var ma := Frac64(a) + if aExp == 0 then 0 else 0x10_0000_0000_0000;
    ghost var mb := Frac64(b) + if bExp == 0 then 0 else 0x10_0000_0000_0000;
    var expDiff := aExp - bExp;
    if expDiff == 0 {
      if aExp == 0 { aExp, bExp := 1, 1; }
      NoShift(mb * 0x400);
      NoShift(ma * 0x400);
      ScaleOrder(ma, mb, aExp - 1);
      if bSig < aSig {
        z := PackDifference(status, zSign, aExp, aSig - bSig, ua, ma, ub, mb, 0);
      } else if aSig < bSig {
        z := PackDifference(status, !zSign, bExp, bSig - aSig, ub, mb, ua, ma, 0);
      } else {
        z := PackFloat64(status.roundingMode == Down, 0, 0);
      }
    } else if expDiff < 0 {
      if aExp == 0 { expDiff := expDiff + 1; } else { aSig := aSig + 0x4000_0000_0000_0000; }
      LargerExponent(ub, mb, ua, ma, bExp - 1 + expDiff, -expDiff);
      aSig := Shift64RightJamming(aSig, -expDiff);
      bSig := bSig + 0x4000_0000_0000_0000;
      z := PackDifference(status, !zSign, bExp, bSig - aSig, ub, mb, ua, ma, -expDiff);
    } else {
      if bExp == 0 { expDiff := expDiff - 1; } else { bSig := bSig + 0x4000_0000_0000_0000; }
      LargerExponent(ua, ma, ub, mb, aExp - 1 - expDiff, expDiff);
      bSig := Shift64RightJamming(bSig, expDiff);
      aSig := aSig + 0x4000_0000_0000_0000;
      z := PackDifference(status, zSign, aExp, aSig - bSig, ua, ma, ub, mb, expDiff);
    }
  }

  lemma NoShift(sig: nat)
    ensures Jam(sig, Pow2(0)) == sig
  {
    DivModIs(sig, 1, sig, 0);
  }

  lemma ScaleOrder(x: nat, y: nat, e: nat)
    ensures x < y <==> Scaled(x, e) < Scaled(y, e)
    ensures x == y <==> Scaled(x, e) == Scaled(y, e)
  {
    MulCompare(x, y, Pow2(e));
  }

  lemma LargerExponent(ua: nat, ma: nat, ub: nat, mb: nat, e: nat, d: nat)
    requires AlignedBy(ua, ma, ub, mb, e, d)
    requires 0x10_0000_0000_0000 <= ma < 0x20_0000_0000_0000 && mb < 0x20_0000_0000_0000
    requires d == 0 ==> mb < 0x10_0000_0000_0000
    ensures ub < ua && Jam(mb * 0x400, Pow2(d)) <= ma * 0x400
  {
    hide Scaled;
    hide Jam;
    ScaledByZero(ma);
    ScaledTwice(ma, d, e);
    ScaleOrder(mb, Scaled(ma, d), e);
    if d == 0 {
      NoShift(mb * 0x400);
    } else {
      TwiceScaled(ma, d);
      HalvedByJam(mb * 0x400, Pow2(d));
    }
  }

  lemma ScaledByZero(m: nat)
    ensures Scaled(m, 0) == m
  {
  }

  lemma TwiceScaled(m: nat, d: nat)
    requires 1 <= d
    ensures 2 * m <= Scaled(m, d)
    ensures 2 <= Pow2(d)
  {
    Pow2Mono(1, d);
    MulMono(2, Pow2(d), m);
  }

  lemma HalvedByJam(sig: nat, p: nat)
    requires 2 <= p
    ensures Jam(sig, p) <= sig / 2 + 1
  {
    DivMod(sig, p);
    MulMono(2, p, sig / p);
  }

  /** What float64_add and float64_sub owe; `bSign` is the sign the second operand enters the sum with. */
  ghost predicate IsSum(mode: RoundingMode, defaultNaN: bool, a: u64, bSign: bool, b: u64, z: u64) {
    if IsNaN64(a) || IsNaN64(b) then z == NaNResult64(defaultNaN, a, b)
    else if IsInfinite64(a) then
      if IsInfinite64(b) && Sign64(a) != bSign then z == DEFAULT_NAN else z == PackFloat64(Sign64(a), 0x7FF, 0)
    else if IsInfinite64(b) then z == PackFloat64(bSign, 0x7FF, 0)
    else IsRoundedSum(mode, Sign64(a), Units64(a), bSign, Units64(b), z)
  }

  ghost function ExceptionsOfSum(status: FloatStatus, a: u64, bSign: bool, b: u64, z: u64): set<Exception>
    reads status
  {
    if IsNaN64(a) || IsNaN64(b) then NaNExceptions64(a, b)
    else if IsInfinite64(a) || IsInfinite64(b) then
      if IsInfinite64(a) && IsInfinite64(b) && Sign64(a) != bSign then {Invalid} else {}
    else SumExceptions(status, Sign64(a), Units64(a), bSign, Units64(b), z)
  }

  lemma InfiniteWord(a: u64)
    requires IsInfinite64(a)
    ensures a == PackFloat64(Sign64(a), 0x7FF, 0)
  {
    FieldsOfMagnitude(a);
  }

  method Float64Add(status: FloatStatus, a: u64, b: u64) returns (z: u64)
    modifies status`exceptionFlags
    ensures IsSum(status.roundingMode, status.defaultNaN, a, Sign64(b), b, z)
    ensures status.exceptionFlags == old(status.exceptionFlags) + ExceptionsOfSum(status, a, Sign64(b), b, z)
  {
    z := SumOfSigs(status, a, Sign64(b), b);
  }

  method Float64Sub(status: FloatStatus, a: u64, b: u64) returns (z: u64)
    modifies status`exceptionFlags
    ensures IsSum(status.roundingMode, status.defaultNaN, a, !Sign64(b), b, z)
    ensures status.exceptionFlags == old(status.exceptionFlags) + ExceptionsOfSum(status, a, !Sign64(b), b, z)
  {
    z := SumOfSigs(status, a, !Sign64(b), b);
  }

  method SumOfSigs(status: FloatStatus, a: u64, bSign: bool, b: u64) returns (z: u64)
    modifies status`exceptionFlags
    ensures IsSum(status.roundingMode, status.defaultNaN, a, bSign, b, z)
    ensures status.exceptionFlags == old(status.exceptionFlags) + ExceptionsOfSum(status, a, bSign, b, z)
  {
    hide IsRounded64;
    hide Raised64;
    hide Units64;
    if IsInfinite64(a) { InfiniteWord(a); }
    if Sign64(a) == bSign {
      z := AddFloat64Sigs(status, a, b, Sign64(a));
    } else {
      z := SubFloat64Sigs(status, a, b, Sign64(a));
    }
  }
}
