/** What IEEE 754-2008 asks of a rounded result, stated without reference to any algorithm.

    A finite magnitude is counted in units of the smallest subnormal number of its format, so
    every finite number is a natural number of units. An exact real result is a fraction
    `num / den` of units. */
module Ieee {
  import opened Words

  datatype RoundingMode = NearestEven | Down | Up | ToZero

  /** A rounding mode seen from the magnitude of the operand. */
  datatype Direction = Nearest | TowardZero | AwayFromZero

  datatype Exception = Invalid | DivByZero | Overflow | Underflow | Inexact

  function Towards(mode: RoundingMode, negative: bool): Direction {
    match mode
    case NearestEven => Nearest
    case ToZero => TowardZero
    case Down => if negative then AwayFromZero else TowardZero
    case Up => if negative then TowardZero else AwayFromZero
  }

  /** A binary interchange format. `hidden` is the weight of the implicit bit in the significand
      field, `infinity` the encoding of positive infinity. Encodings below `infinity` are the
      non-negative finite numbers, in increasing order. */
  datatype Format = Format(hidden: nat, infinity: nat) {
    ghost predicate Valid() {
      2 <= hidden && hidden % 2 == 0 && 2 * hidden <= infinity && infinity % hidden == 0
    }

    /** The magnitude an encoding stands for (section 3.4). At `infinity` it is the first
        power of two beyond the finite numbers, where the unbounded exponent range continues. */
    ghost function Units(o: nat): nat
      requires Valid()
    {
      if o < hidden then o else (hidden + o % hidden) * Pow2(o / hidden - 1)
    }

    ghost function Distance(num: nat, den: nat, o: nat): nat
      requires Valid()
    {
      if num <= Units(o) * den then Units(o) * den - num else num - Units(o) * den
    }

    /** Section 4.3: `o` is the encoding of `num / den` rounded once. */
    ghost predicate CorrectlyRounded(direction: Direction, num: nat, den: nat, o: nat)
      requires Valid()
    {
      && o <= infinity
      && match direction
         case Nearest =>
           forall p: nat | p <= infinity && p != o ::
             Distance(num, den, o) < Distance(num, den, p)
             || (Distance(num, den, o) == Distance(num, den, p) && o % 2 == 0)
         case TowardZero =>
           o < infinity && Units(o) * den <= num
           && forall p: nat | o < p < infinity :: num < Units(p) * den
         case AwayFromZero =>
           (o == infinity || num <= Units(o) * den)
           && forall p: nat | p < o :: Units(p) * den < num
    }

    /** Section 7.4: with an unbounded exponent range the rounded result would exceed the largest
        finite number. */
    ghost predicate Overflows(direction: Direction, num: nat, den: nat)
      requires Valid()
    {
      match direction
      case Nearest => (Units(infinity - 1) + Units(infinity)) * den <= 2 * num
      case TowardZero => Units(infinity) * den <= num
      case AwayFromZero => Units(infinity - 1) * den < num
    }

    /** Section 7.5: a non-zero result below the smallest normal number, either before rounding or
        after rounding to full precision with an unbounded exponent range. In the binade below
        the smallest normal number that full precision is half a unit. */
    ghost predicate Tiny(beforeRounding: bool, direction: Direction, num: nat, den: nat)
      requires Valid()
    {
      && 0 < num < hidden * den
      && (beforeRounding ||
          match direction
          case Nearest => 4 * num < (4 * hidden - 1) * den
          case TowardZero => true
          case AwayFromZero => 2 * num <= (2 * hidden - 1) * den)
    }

    /** The exceptions sections 7.4 to 7.6 ask for when `num / den` is delivered as `o`. */
    ghost function Raised(beforeRounding: bool, direction: Direction, num: nat, den: nat, o: nat)
      : (flags: set<Exception>)
      requires Valid()
    {
      if Overflows(direction, num, den) then {Overflow, Inexact}
      else if Units(o) * den == num then {}
      else if Tiny(beforeRounding, direction, num, den) then {Underflow, Inexact}
      else {Inexact}
    }
  }

  const BINARY32 := Format(0x80_0000, 0x7F80_0000)
  const BINARY64 := Format(0x10_0000_0000_0000, 0x7FF0_0000_0000_0000)

  lemma UnitsOfNormal(f: Format, k: nat, r: nat)
    requires f.Valid() && 1 <= k && r < f.hidden
    ensures f.Units(k * f.hidden + r) == (f.hidden + r) * Pow2(k - 1)
  {
    MulAtLeast(k, f.hidden);
    DivModIs(k * f.hidden + r, f.hidden, k, r);
  }

  /** The encoding made of an exponent field and a significand, which may carry into the
      exponent: packFloat adds its fields instead of or-ing them. */
  lemma UnitsOfPacked(f: Format, e: nat, m: nat)
    requires f.Valid() && m <= 2 * f.hidden && (e == 0 || f.hidden <= m)
    ensures f.Units(e * f.hidden + m) == m * Pow2(e)
  {
    var h := f.hidden;
    if m < h {
      assert e * h + m == m;
    } else if m < 2 * h {
      UnitsOfNormal(f, e + 1, m - h);
      assert (e + 1) * h == e * h + h;
    } else {
      UnitsOfNormal(f, e + 2, 0);
      assert (e + 2) * h + 0 == e * h + m;
      DoubledPower(h, e);
    }
  }

  lemma DoubledPower(h: nat, e: nat)
    ensures h * Pow2(e + 1) == (2 * h) * Pow2(e)
  {
  }

  /** The weight of the last place at an encoding. */
  ghost function Ulp(f: Format, o: nat): (r: nat)
    requires f.Valid()
    ensures 0 < r
  {
    if o < f.hidden then 1
    else
      DivMod(o, f.hidden);
      assert 1 <= o / f.hidden by { if o / f.hidden < 1 { assert false; } }
      Pow2(o / f.hidden - 1)
  }

  /** Consecutive encodings are one unit in the last place apart. */
  lemma UnitsStep(f: Format, o: nat)
    requires f.Valid()
    ensures f.Units(o + 1) == f.Units(o) + Ulp(f, o)
  {
    var h := f.hidden;
    if h <= o {
      DivMod(o, h);
      assert 1 <= o / h;
      var e, r := o / h - 1, o % h;
      assert e * h + (h + r) == o;
      UnitsOfPacked(f, e, h + r);
      UnitsOfPacked(f, e, h + r + 1);
      assert (h + r + 1) * Pow2(e) == (h + r) * Pow2(e) + Pow2(e);
    } else {
      UnitsOfPacked(f, 0, o);
      UnitsOfPacked(f, 0, o + 1);
    }
  }

  lemma {:induction false} UnitsMonotone(f: Format, o: nat, p: nat)
    requires f.Valid() && o <= p
    ensures f.Units(o) + (p - o) <= f.Units(p)
    decreases p - o
  {
    if o < p {
      UnitsStep(f, o);
      UnitsMonotone(f, o + 1, p);
    }
  }

  /** IEEE rounding determines the result: at most one encoding is correctly rounded. */
  lemma RoundingIsUnique(f: Format, direction: Direction, num: nat, den: nat, o: nat, o': nat)
    requires f.Valid() && 0 < den
    requires f.CorrectlyRounded(direction, num, den, o) && f.CorrectlyRounded(direction, num, den, o')
    ensures o == o'
  {
    if o != o' {
      match direction
      case Nearest =>
        assert f.Distance(num, den, o) == f.Distance(num, den, o');
        var lo, hi := if o < o' then o else o', if o < o' then o' else o;
        UnitsMonotone(f, lo, hi);
        assert lo + 1 < hi;
        NearestIsStrict(f, num, den, lo, hi);
      case TowardZero =>
      case AwayFromZero =>
    }
  }

  /** No encoding lies strictly between two equally near ones. */
  lemma NearestIsStrict(f: Format, num: nat, den: nat, lo: nat, hi: nat)
    requires f.Valid() && 0 < den && lo + 1 < hi
    requires f.Distance(num, den, lo) == f.Distance(num, den, hi)
    ensures f.Distance(num, den, lo + 1) < f.Distance(num, den, lo)
  {
    UnitsMonotone(f, lo, lo + 1);
    UnitsMonotone(f, lo + 1, hi);
    MulStrict(f.Units(lo), f.Units(lo + 1), den);
    MulStrict(f.Units(lo + 1), f.Units(hi), den);
  }

}
