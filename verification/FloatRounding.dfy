/** What roundAndPackFloat32 and roundAndPackFloat64 compute, for any format, and the proof that
    it is IEEE rounding with the right exceptions. The significand word enters only through its
    cell: its count `c` of half units in the last place and whether it lies `onStep`. */
module FloatRounding {
  import opened Words
  import opened Ieee
  import opened IeeeRounding

  /** The exponent argument at which only rounding up can still overflow (0xFD or 0x7FD). */
  function TopExponent(f: Format): int
    requires 0 < f.hidden
  {
    f.infinity / f.hidden - 2
  }

  /** How far a negative exponent argument shifts the significand down. */
  function DownShift(zExp: int): nat {
    if zExp < 0 then -zExp else 0
  }

  function UpShift(zExp: int): nat {
    if 0 < zExp then zExp else 0
  }

  /** A word with `c` half units, scaled by exponent argument `zExp`, has the same cell as the
      exact value `num / den`. */
  ghost predicate StandsFor(zExp: int, c: nat, onStep: bool, num: nat, den: nat) {
    0 < den && InCell(c, onStep, Scaled(2 * num, DownShift(zExp)), Scaled(den, UpShift(zExp)))
  }

  /** A cell known at one scale is known at any scale with the same ratio. */
  lemma StandsForByPowers(zExp: int, c: nat, onStep: bool, x: nat, i: nat, y: nat, j: nat, num: nat, den: nat)
    requires 0 < y && 0 < den && InCell(c, onStep, Scaled(x, i), Scaled(y, j))
    requires Scaled(Product(x, den), i + UpShift(zExp)) == Scaled(Product(2 * num, y), DownShift(zExp) + j)
    ensures StandsFor(zExp, c, onStep, num, den)
  {
    ProductOfScaled(x, i, den, UpShift(zExp));
    ProductOfScaled(2 * num, DownShift(zExp), y, j);
    ScaledPositive(y, j);
    ScaledPositive(den, UpShift(zExp));
    CellRatio(c, onStep, Scaled(x, i), Scaled(y, j), Scaled(2 * num, DownShift(zExp)), Scaled(den, UpShift(zExp)));
  }

  /** What the callers owe: a normalised significand, a zero, or an exact subnormal. */
  predicate Acceptable(f: Format, zExp: int, c: nat, onStep: bool)
    requires 0 < f.hidden
  {
    || 2 * f.hidden <= c < 4 * f.hidden
    || (c == 0 && onStep && zExp <= TopExponent(f))
    || (zExp == 0 && c < 2 * f.hidden && onStep && c % 2 == 0)
  }

  predicate OverflowBranch(f: Format, direction: Direction, zExp: int, c: nat, onStep: bool)
    requires 0 < f.hidden
  {
    TopExponent(f) < zExp || (zExp == TopExponent(f) && 2 * f.hidden <= RoundCell(direction, c, onStep))
  }

  /** The encoding delivered, without its sign. */
  function PackedEncoding(f: Format, direction: Direction, zExp: int, c: nat, onStep: bool): nat
    requires 0 < f.hidden <= f.infinity
  {
    if OverflowBranch(f, direction, zExp, c, onStep) then
      if direction == TowardZero then f.infinity - 1 else f.infinity
    else
      var p := Pow2(DownShift(zExp));
      DivMod(c, p);
      var m := RoundCell(direction, c / p, onStep && c % p == 0);
      if m == 0 || zExp <= 0 then m
      else
        MulStrict(0, zExp, f.hidden);
        zExp * f.hidden + m
  }

  /** The exceptions raised. */
  function PackedExceptions(f: Format, beforeRounding: bool, direction: Direction,
                            zExp: int, c: nat, onStep: bool): set<Exception>
    requires 0 < f.hidden
  {
    if OverflowBranch(f, direction, zExp, c, onStep) then {Overflow, Inexact}
    else
      var p := Pow2(DownShift(zExp));
      if onStep && c % p == 0 && (c / p) % 2 == 0 then {}
      else if zExp < 0 && (beforeRounding || zExp < -1 || RoundCell(direction, c, onStep) < 2 * f.hidden)
      then {Underflow, Inexact}
      else {Inexact}
  }

  ghost predicate StandardFormat(f: Format) {
    f.Valid() && 1 <= TopExponent(f) && f.infinity == (TopExponent(f) + 2) * f.hidden
  }

  lemma StandardFormats()
    ensures StandardFormat(BINARY32) && StandardFormat(BINARY64)
    ensures TopExponent(BINARY32) == 0xFD && TopExponent(BINARY64) == 0x7FD
  {
  }

  lemma GridHalve(direction: Direction, n: nat, x: nat, m: nat)
    requires 0 < x && GridRounded(direction, 2 * n, 2 * x, m)
    ensures GridRounded(direction, n, x, m)
    ensures m * (2 * x) == 2 * (m * x)
  {
    MulAssoc(m, 2, x);
    MulAssoc(2, m, x);
  }

  /** The finite, non-overflowing packing of a significand rounded to whole units. */
  lemma WholeUnits(f: Format, direction: Direction, e: nat, c: nat, onStep: bool, num: nat, den: nat)
    requires StandardFormat(f) && e <= TopExponent(f) && 0 < den
    requires InCell(c, onStep, 2 * num, Scaled(den, e))
    requires c < 4 * f.hidden && (e == 0 || 2 * f.hidden <= c)
    requires e == TopExponent(f) ==> RoundCell(direction, c, onStep) < 2 * f.hidden
    ensures var m := RoundCell(direction, c, onStep); var o := e * f.hidden + m;
      m <= 2 * f.hidden && (e == 0 || f.hidden <= m) && o < f.infinity &&
      f.CorrectlyRounded(direction, num, den, o) &&
      (f.Units(o) * den == num <==> onStep && c % 2 == 0)
  {
    var m, x := RoundCell(direction, c, onStep), Scaled(den, e);
    MulStrict(0, den, Pow2(e));
    RoundCellIsGridRounded(direction, c, onStep, 2 * num, x);
    GridHalve(direction, num, x, m);
    if e != 0 {
      CellOrder(c, onStep, 2 * num, x, 2 * f.hidden);
      MulAssoc(2, f.hidden, x);
    }
    if e < TopExponent(f) {
      MulMono(e + 3, TopExponent(f) + 2, f.hidden);
    }
    EncodingFits(f, e, m);
    PackedIsCorrectlyRounded(f, direction, num, den, e, m);
    ScaledNeighbours(f, direction, num, den, e, m, Scaled(den, e));
  }

  lemma EncodingFits(f: Format, e: nat, m: nat)
    requires StandardFormat(f) && e <= TopExponent(f) && m <= 2 * f.hidden
    requires e == TopExponent(f) ==> m < 2 * f.hidden
    ensures e * f.hidden + m < f.infinity
  {
    if e < TopExponent(f) {
      MulMono(e + 3, TopExponent(f) + 2, f.hidden);
      Distribute(e, 3, f.hidden);
    } else {
      Distribute(e, 2, f.hidden);
    }
  }

  lemma UnitsAtInfinity(f: Format)
    requires StandardFormat(f)
    ensures f.Units(f.infinity) == 2 * f.hidden * Pow2(TopExponent(f))
    ensures f.Units(f.infinity - 1) == (2 * f.hidden - 1) * Pow2(TopExponent(f))
  {
    var top, h := TopExponent(f), f.hidden;
    Distribute(top, 2, h);
    UnitsOfPacked(f, top, 2 * h);
    UnitsOfPacked(f, top, 2 * h - 1);
  }

  /** Values below half the largest finite number overflow in no direction. */
  lemma SmallDoesNotOverflow(f: Format, direction: Direction, num: nat, den: nat, e: nat)
    requires StandardFormat(f) && 0 < den && e < TopExponent(f)
    requires num < 2 * f.hidden * Scaled(den, e)
    ensures !f.Overflows(direction, num, den)
  {
    var top, h := TopExponent(f), f.hidden;
    UnitsAtInfinity(f);
    PowerStep(e, top);
    assert num < f.Units(f.infinity - 1) * den by {
      calc {
        2 * h * Scaled(den, e);
        { MulAssoc(h, 2, Scaled(den, e)); MulAssoc(2, den, Pow2(e)); MulAssoc(den, 2, Pow2(e)); }
        h * (den * (2 * Pow2(e)));
      <= { MulMono(2 * Pow2(e), Pow2(top), den); MulMono(den * (2 * Pow2(e)), Scaled(den, top), h); }
        h * Scaled(den, top);
      <= { MulMono(h, 2 * h - 1, Scaled(den, top)); }
        (2 * h - 1) * Scaled(den, top);
        { MulAssoc(2 * h - 1, Pow2(top), den); }
        f.Units(f.infinity - 1) * den;
      }
    }
    assert f.Units(f.infinity - 1) <= f.Units(f.infinity) by { UnitsMonotone(f, f.infinity - 1, f.infinity); }
    MulMono(f.Units(f.infinity - 1), f.Units(f.infinity), den);
    Distribute(f.Units(f.infinity - 1), f.Units(f.infinity), den);
  }

  lemma {:induction false} PowerStep(e: nat, top: nat)
    requires e < top
    ensures 2 * Pow2(e) <= Pow2(top)
    decreases top - e
  {
    if e + 1 < top { PowerStep(e + 1, top); }
  }

  lemma ZeroPacks(f: Format, beforeRounding: bool, direction: Direction, zExp: int, num: nat, den: nat)
    requires StandardFormat(f) && zExp <= TopExponent(f) && StandsFor(zExp, 0, true, num, den)
    ensures var o := PackedEncoding(f, direction, zExp, 0, true);
      f.CorrectlyRounded(direction, num, den, o) &&
      PackedExceptions(f, beforeRounding, direction, zExp, 0, true)
        == f.Raised(beforeRounding, direction, num, den, o)
  {
    assert num == 0 by { if 0 < num { MulStrict(0, 2 * num, Pow2(DownShift(zExp))); } }
    DivModIs(0, Pow2(DownShift(zExp)), 0, 0);
    assert PackedEncoding(f, direction, zExp, 0, true) == 0;
    WholeUnits(f, direction, 0, 0, true, 0, den);
    MulStrict(0, 2 * f.hidden, Scaled(den, 0));
    SmallDoesNotOverflow(f, direction, 0, den, 0);
  }

  lemma OverflowRounds(f: Format, direction: Direction, num: nat, den: nat)
    requires StandardFormat(f) && 0 < den && f.Overflows(direction, num, den)
    ensures f.CorrectlyRounded(direction, num, den, if direction == TowardZero then f.infinity - 1 else f.infinity)
  {
    var inf := f.infinity;
    Distribute(f.Units(inf - 1), f.Units(inf), den);
    UnitsMonotone(f, inf - 1, inf);
    MulStrict(f.Units(inf - 1), f.Units(inf), den);
    EvenInfinity(f);
    forall p: nat | p < inf
      ensures f.Units(p) * den <= f.Units(inf - 1) * den
    {
      UnitsMonotone(f, p, inf - 1);
      MulMono(f.Units(p), f.Units(inf - 1), den);
    }
  }

  lemma EvenInfinity(f: Format)
    requires StandardFormat(f)
    ensures f.infinity % 2 == 0
  {
    EvenMultiple(TopExponent(f) + 2, f.hidden);
  }

  lemma ThresholdsScaled(f: Format, den: nat)
    requires StandardFormat(f)
    ensures f.Units(f.infinity) * den == 2 * f.hidden * Scaled(den, TopExponent(f))
    ensures f.Units(f.infinity - 1) * den == (2 * f.hidden - 1) * Scaled(den, TopExponent(f))
    ensures (f.Units(f.infinity - 1) + f.Units(f.infinity)) * den == (4 * f.hidden - 1) * Scaled(den, TopExponent(f))
  {
    var top, h := TopExponent(f), f.hidden;
    UnitsAtInfinity(f);
    MulAssoc(2 * h - 1, Pow2(top), den);
    MulAssoc(2 * h, Pow2(top), den);
    Distribute(f.Units(f.infinity - 1), f.Units(f.infinity), den);
    Distribute(2 * h - 1, 2 * h, Scaled(den, top));
  }

  /** At the top exponent the result overflows exactly when rounding carries out. */
  lemma TopExponentOverflow(f: Format, direction: Direction, c: nat, onStep: bool, num: nat, den: nat)
    requires StandardFormat(f) && 2 * f.hidden <= c < 4 * f.hidden
    requires StandsFor(TopExponent(f), c, onStep, num, den)
    ensures 0 < den
    ensures f.Overflows(direction, num, den) <==> 2 * f.hidden <= RoundCell(direction, c, onStep)
  {
    MulStrict(0, den, Pow2(TopExponent(f)));
    ThresholdsScaled(f, den);
    CarryAtTop(f.hidden, direction, c, onStep, num, Scaled(den, TopExponent(f)));
  }

  lemma CarryAtTop(h: nat, direction: Direction, c: nat, onStep: bool, num: nat, x: nat)
    requires 1 <= h && 0 < x && c < 4 * h && InCell(c, onStep, 2 * num, x)
    ensures (4 * h - 1) * x <= 2 * num <==> 2 * h <= RoundCell(Nearest, c, onStep)
    ensures 2 * h * x <= num <==> 2 * h <= RoundCell(TowardZero, c, onStep)
    ensures (2 * h - 1) * x < num <==> 2 * h <= RoundCell(AwayFromZero, c, onStep)
  {
    CellOrder(c, onStep, 2 * num, x, 4 * h - 1);
    CellOrder(c, onStep, 2 * num, x, 4 * h - 2);
    CellOrder(c, onStep, 2 * num, x, 4 * h);
    Distribute(2 * h, 2 * h, x);
    Distribute(2 * h - 1, 2 * h - 1, x);
  }

  lemma OverflowPacks(f: Format, beforeRounding: bool, direction: Direction,
                      zExp: int, c: nat, onStep: bool, num: nat, den: nat)
    requires StandardFormat(f) && 2 * f.hidden <= c < 4 * f.hidden
    requires StandsFor(zExp, c, onStep, num, den) && OverflowBranch(f, direction, zExp, c, onStep)
    ensures var o := PackedEncoding(f, direction, zExp, c, onStep);
      f.CorrectlyRounded(direction, num, den, o) &&
      PackedExceptions(f, beforeRounding, direction, zExp, c, onStep)
        == f.Raised(beforeRounding, direction, num, den, o)
  {
    hide StandsFor;
    hide Format.CorrectlyRounded;
    hide Format.Overflows;
    if zExp == TopExponent(f) {
      TopExponentOverflow(f, direction, c, onStep, num, den);
    } else {
      HugeOverflows(f, direction, zExp, c, onStep, num, den);
    }
    OverflowRounds(f, direction, num, den);
  }

  lemma HugeOverflows(f: Format, direction: Direction, zExp: int, c: nat, onStep: bool, num: nat, den: nat)
    requires StandardFormat(f) && 2 * f.hidden <= c && TopExponent(f) < zExp
    requires StandsFor(zExp, c, onStep, num, den)
    ensures 0 < den && f.Overflows(direction, num, den)
  {
    var top, h := TopExponent(f), f.hidden;
    var x := Scaled(den, zExp);
    MulStrict(0, den, Pow2(zExp));
    CellOrder(c, onStep, 2 * num, x, 2 * h);
    UnitsAtInfinity(f);
    PowerStep(top, zExp);
    ThresholdsScaled(f, den);
    MulMono(2 * Pow2(top), Pow2(zExp), den);
    DoubledBelow(h, den, Pow2(top), Pow2(zExp), num);
    UnitsMonotone(f, f.infinity - 1, f.infinity);
    MulStrict(f.Units(f.infinity - 1), f.Units(f.infinity), den);
    Distribute(f.Units(f.infinity - 1), f.Units(f.infinity), den);
  }

  lemma DoubledBelow(h: nat, den: nat, p: nat, q: nat, num: nat)
    requires (2 * p) * den <= q * den && 2 * h * (den * q) <= 2 * num
    ensures 2 * h * (den * p) <= num
  {
    MulAssoc(2, p, den);
    MulMono(2 * (den * p), den * q, h);
    MulAssoc(h, 2, den * p);
  }

  lemma NormalPacks(f: Format, beforeRounding: bool, direction: Direction,
                    zExp: int, c: nat, onStep: bool, num: nat, den: nat)
    requires StandardFormat(f) && 0 <= zExp && !(c == 0 && onStep)
    requires Acceptable(f, zExp, c, onStep) && StandsFor(zExp, c, onStep, num, den)
    requires !OverflowBranch(f, direction, zExp, c, onStep)
    ensures var o := PackedEncoding(f, direction, zExp, c, onStep);
      f.CorrectlyRounded(direction, num, den, o) &&
      PackedExceptions(f, beforeRounding, direction, zExp, c, onStep)
        == f.Raised(beforeRounding, direction, num, den, o)
  {
    var x := Scaled(den, zExp);
    WholeUnits(f, direction, zExp, c, onStep, num, den);
    assert c / 1 == c && c % 1 == 0;
    MulStrict(0, den, Pow2(zExp));
    assert !f.Overflows(direction, num, den) by {
      if zExp == TopExponent(f) {
        TopExponentOverflow(f, direction, c, onStep, num, den);
      } else {
        BelowTwice(f, c, onStep, num, x);
        SmallDoesNotOverflow(f, direction, num, den, zExp);
      }
    }
    if 2 * f.hidden <= c {
      NormalIsNotTiny(f, c, onStep, num, den, zExp);
    }
  }

  lemma BelowTwice(f: Format, c: nat, onStep: bool, num: nat, x: nat)
    requires 0 < x && c < 4 * f.hidden && InCell(c, onStep, 2 * num, x)
    ensures num < 2 * f.hidden * x
  {
    CellOrder(c, onStep, 2 * num, x, 4 * f.hidden);
    Distribute(2 * f.hidden, 2 * f.hidden, x);
  }

  lemma NormalIsNotTiny(f: Format, c: nat, onStep: bool, num: nat, den: nat, e: nat)
    requires 0 < den && 2 * f.hidden <= c && InCell(c, onStep, 2 * num, Scaled(den, e))
    ensures f.hidden * den <= num
  {
    var x := Scaled(den, e);
    MulStrict(0, den, Pow2(e));
    CellOrder(c, onStep, 2 * num, x, 2 * f.hidden);
    Distribute(f.hidden, f.hidden, x);
    MulAtLeast(Pow2(e), den);
    MulMono(den, x, f.hidden);
  }

  lemma PackedBelowNormal(f: Format, beforeRounding: bool, direction: Direction, zExp: int, c: nat, onStep: bool)
    requires 0 < f.hidden <= f.infinity && zExp < 0 <= TopExponent(f)
    ensures var p := Pow2(-zExp);
      0 <= c / p &&
      PackedEncoding(f, direction, zExp, c, onStep) == RoundCell(direction, c / p, onStep && c % p == 0) &&
      PackedExceptions(f, beforeRounding, direction, zExp, c, onStep)
        == if onStep && c % p == 0 && (c / p) % 2 == 0 then {}
           else if beforeRounding || zExp < -1
             || RoundCell(direction, c, onStep) < 2 * f.hidden then {Underflow, Inexact}
           else {Inexact}
  {
    DivMod(c, Pow2(-zExp));
  }

  lemma SubnormalPacks(f: Format, beforeRounding: bool, direction: Direction,
                       zExp: int, c: nat, onStep: bool, num: nat, den: nat)
    requires StandardFormat(f) && zExp < 0 && 2 * f.hidden <= c < 4 * f.hidden
    requires StandsFor(zExp, c, onStep, num, den)
    ensures var o := PackedEncoding(f, direction, zExp, c, onStep);
      f.CorrectlyRounded(direction, num, den, o) &&
      PackedExceptions(f, beforeRounding, direction, zExp, c, onStep)
        == f.Raised(beforeRounding, direction, num, den, o)
  {
    var p := Pow2(-zExp);
    DivMod(c, p);
    hide StandsFor;
    hide InCell;
    hide Format.CorrectlyRounded;
    hide Format.Overflows;
    hide Format.Tiny;
    PackedBelowNormal(f, beforeRounding, direction, zExp, c, onStep);
    hide PackedEncoding;
    hide PackedExceptions;
    var c', onStep' := c / p, onStep && c % p == 0;
    DenormalisedCell(f.hidden, p, zExp, c, onStep, num, den);
    assert Scaled(den, 0) == den;
    WholeUnits(f, direction, 0, c', onStep', num, den);
    assert !f.Overflows(direction, num, den) by {
      BelowTwice(f, c', onStep', num, den);
      SmallDoesNotOverflow(f, direction, num, den, 0);
    }
    TinyBranch(f, beforeRounding, direction, zExp, c, onStep, num, den);
  }

  lemma DenormalisedCell(h: nat, p: nat, zExp: int, c: nat, onStep: bool, num: nat, den: nat)
    requires 0 < h && zExp < 0 && p == Pow2(-zExp) && c < 4 * h && StandsFor(zExp, c, onStep, num, den)
    ensures 0 < den && InCell(c / p, onStep && c % p == 0, 2 * num, den)
    ensures 0 <= c / p < 2 * h
  {
    PowerStep(0, -zExp);
    DivMod(c, p);
    if 2 * h <= c / p { MulMono(2 * h, c / p, p); MulMono(2, p, 2 * h); }
    CellWiden(c, onStep, 2 * num * p, den, p);
    CellScale(c / p, onStep && c % p == 0, 2 * num, den, p);
  }

  /** The tininess test of the subnormal branch, after rounding, reads the unshifted word. */
  lemma TinyBranch(f: Format, beforeRounding: bool, direction: Direction,
                   zExp: int, c: nat, onStep: bool, num: nat, den: nat)
    requires f.Valid() && zExp < 0 && 2 * f.hidden <= c < 4 * f.hidden
    requires StandsFor(zExp, c, onStep, num, den)
    ensures f.Tiny(beforeRounding, direction, num, den)
      <==> beforeRounding || zExp < -1 || RoundCell(direction, c, onStep) < 2 * f.hidden
  {
    var h, n := f.hidden, Scaled(2 * num, -zExp);
    assert Scaled(den, 0) == den;
    hide InCell;
    hide RoundCell;
    CellOrder(c, onStep, n, den, 4 * h);
    CellOrder(c, onStep, n, den, 2 * h);
    MulStrict(0, 2 * h, den);
    PowerStep(0, -zExp);
    TinyBeforeRounding(h, den, num, Pow2(-zExp));
    if zExp < -1 {
      PowerStep(1, -zExp);
      TinyBounds(h, den, num, Pow2(-zExp));
    } else {
      assert Scaled(2 * num, 1) == 4 * num;
      TinyAtBoundary(h, direction, c, onStep, num, den);
    }
  }

  lemma TinyBeforeRounding(h: nat, den: nat, num: nat, p: nat)
    requires 2 <= p && 0 < 2 * num * p < 4 * h * den
    ensures 0 < num < h * den
  {
    MulMono(2, p, 2 * num);
    MulAssoc(4, h, den);
  }

  lemma TinyAtBoundary(h: nat, direction: Direction, c: nat, onStep: bool, num: nat, den: nat)
    requires 1 <= h && 0 < den && c < 4 * h && InCell(c, onStep, 4 * num, den)
    ensures 4 * num < (4 * h - 1) * den <==> RoundCell(Nearest, c, onStep) < 2 * h
    ensures 2 * num <= (2 * h - 1) * den <==> RoundCell(AwayFromZero, c, onStep) < 2 * h
  {
    CellOrder(c, onStep, 4 * num, den, 4 * h - 1);
    CellOrder(c, onStep, 4 * num, den, 4 * h - 2);
    Distribute(2 * h - 1, 2 * h - 1, den);
  }

  lemma TinyBounds(h: nat, den: nat, num: nat, p: nat)
    requires 1 <= h && 4 <= p && 2 * num * p < 4 * h * den
    ensures 4 * num < (4 * h - 1) * den && 2 * num <= (2 * h - 1) * den
  {
    MulMono(4, p, 2 * num);
    MulMono(1, h, den);
    Distribute(4 * h, -1, den);
    Distribute(2 * h, -1, den);
    MulAssoc(4, h, den);
    MulAssoc(2, h, den);
  }

  /** Rounding and packing deliver the correctly rounded value and exactly the exceptions
      IEEE 754-2008 prescribes. */
  lemma PackingIsIeee(f: Format, beforeRounding: bool, direction: Direction,
                      zExp: int, c: nat, onStep: bool, num: nat, den: nat)
    requires StandardFormat(f)
    requires Acceptable(f, zExp, c, onStep) && StandsFor(zExp, c, onStep, num, den)
    ensures var o := PackedEncoding(f, direction, zExp, c, onStep);
      f.CorrectlyRounded(direction, num, den, o) &&
      PackedExceptions(f, beforeRounding, direction, zExp, c, onStep)
        == f.Raised(beforeRounding, direction, num, den, o)
  {
    if c == 0 && onStep {
      ZeroPacks(f, beforeRounding, direction, zExp, num, den);
    } else if OverflowBranch(f, direction, zExp, c, onStep) {
      OverflowPacks(f, beforeRounding, direction, zExp, c, onStep, num, den);
    } else if zExp < 0 {
      SubnormalPacks(f, beforeRounding, direction, zExp, c, onStep, num, den);
    } else {
      NormalPacks(f, beforeRounding, direction, zExp, c, onStep, num, den);
    }
  }
}
