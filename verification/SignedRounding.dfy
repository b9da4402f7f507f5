/** What the rounding modes mean for signed numbers, stated on the values of the words: down is towards
    minus infinity, up towards plus infinity, whatever the sign. */
module SignedRounding {
  import opened Words
  import opened Ieee
  import opened SoftFloat
  import opened Float32

  // Signed numbers of a format: a sign and an encoding, up to and including infinity.

  ghost function Value(f: Format, negative: bool, o: nat): int
    requires f.Valid()
  {
    if negative then -1 * f.Units(o) else f.Units(o)
  }

  function Exact(negative: bool, num: nat): int {
    if negative then -1 * num else num
  }

  /** The number is at most `x / den`; minus infinity always is, and plus infinity never. */
  ghost predicate AtMost(f: Format, negative: bool, o: nat, x: int, den: nat)
    requires f.Valid()
  {
    if o == f.infinity then negative else Value(f, negative, o) * den <= x
  }

  /** The number is at least `x / den`. */
  ghost predicate AtLeast(f: Format, negative: bool, o: nat, x: int, den: nat)
    requires f.Valid()
  {
    if o == f.infinity then !negative else x <= Value(f, negative, o) * den
  }

  /** The order of the numbers; the units at infinity are above those of every finite number. */
  ghost predicate NotAbove(f: Format, negative: bool, o: nat, negative': bool, o': nat)
    requires f.Valid()
  {
    Value(f, negative, o) <= Value(f, negative', o')
  }

  lemma Ordered(f: Format, o: nat, p: nat)
    requires f.Valid() && o < p
    ensures f.Units(o) < f.Units(p)
  {
    UnitsMonotone(f, o, p);
  }

  lemma UnitsZero(f: Format, o: nat)
    requires f.Valid()
    ensures 0 <= f.Units(o) && (o == 0 ==> f.Units(o) == 0) && (0 < o ==> 0 < f.Units(o))
  {
    if 0 < o { UnitsMonotone(f, 0, o); }
  }

  lemma Negated(u: int, den: nat)
    ensures (-1 * u) * den == -1 * (u * den)
  {
  }

  /** Rounding down gives the largest number that is at most the exact value. */
  lemma DownIsBelow(f: Format, negative: bool, num: nat, den: nat, o: nat)
    requires f.Valid() && 0 < den && f.CorrectlyRounded(Towards(Down, negative), num, den, o)
    ensures AtMost(f, negative, o, Exact(negative, num), den)
    ensures forall n: bool, p: nat :: p <= f.infinity && AtMost(f, n, p, Exact(negative, num), den) ==>
      NotAbove(f, n, p, negative, o)
  {
    var x := Exact(negative, num);
    Negated(f.Units(o), den);
    forall n: bool, p: nat | p <= f.infinity && AtMost(f, n, p, x, den) ensures NotAbove(f, n, p, negative, o) {
      Negated(f.Units(p), den);
      UnitsZero(f, o);
      UnitsZero(f, p);
      if p < o { Ordered(f, p, o); } else if o < p { Ordered(f, o, p); }
      assert negative && !n ==> 0 <= f.Units(p) * den;
    }
  }

  /** The mirror image: negation exchanges down and up. */
  lemma UpIsDownNegated(f: Format, negative: bool, num: nat, den: nat, o: nat)
    requires f.Valid()
    ensures f.CorrectlyRounded(Towards(Up, negative), num, den, o)
      <==> f.CorrectlyRounded(Towards(Down, !negative), num, den, o)
  {
  }

  lemma UpIsAbove(f: Format, negative: bool, num: nat, den: nat, o: nat)
    requires f.Valid() && 0 < den && f.CorrectlyRounded(Towards(Up, negative), num, den, o)
    ensures AtLeast(f, negative, o, Exact(negative, num), den)
    ensures forall n: bool, p: nat :: p <= f.infinity && AtLeast(f, n, p, Exact(negative, num), den) ==>
      NotAbove(f, negative, o, n, p)
  {
    UpIsDownNegated(f, negative, num, den, o);
    DownIsBelow(f, !negative, num, den, o);
    var x := Exact(negative, num);
    Negated(f.Units(o), den);
    forall n: bool, p: nat | p <= f.infinity && AtLeast(f, n, p, x, den) ensures NotAbove(f, negative, o, n, p) {
      Negated(f.Units(p), den);
      assert AtMost(f, !n, p, Exact(!negative, num), den);
      assert NotAbove(f, !n, p, !negative, o);
    }
  }

  /** Towards zero, the largest finite magnitude that is at most the exact one. */
  lemma ToZeroIsWithin(f: Format, negative: bool, num: nat, den: nat, o: nat)
    requires f.Valid() && 0 < den && f.CorrectlyRounded(Towards(ToZero, negative), num, den, o)
    ensures o < f.infinity && f.Units(o) * den <= num
    ensures forall p: nat :: p < f.infinity && f.Units(p) * den <= num ==> f.Units(p) <= f.Units(o)
  {
    forall p: nat | p < f.infinity && f.Units(p) * den <= num ensures f.Units(p) <= f.Units(o) {
      if p < o { Ordered(f, p, o); }
    }
  }

  function Gap(x: int, y: int): nat {
    if x <= y then y - x else x - y
  }

  lemma DistanceIsGap(f: Format, negative: bool, num: nat, den: nat, p: nat)
    requires f.Valid()
    ensures f.Distance(num, den, p) == Gap(Value(f, negative, p) * den, Exact(negative, num))
    ensures Gap(Value(f, negative, p) * den, Exact(negative, num))
      <= Gap(Value(f, !negative, p) * den, Exact(negative, num))
    ensures f.Units(p) != 0 && 0 < num && 0 < den ==>
      Gap(Value(f, negative, p) * den, Exact(negative, num)) < Gap(Value(f, !negative, p) * den, Exact(negative, num))
  {
    Negated(f.Units(p), den);
    UnitsZero(f, p);
    if 0 < f.Units(p) && 0 < den { MulStrict(0, f.Units(p), den); }
    assert 0 <= f.Units(p) * den;
  }

  /** A finite number is at least as near to `x / den` as another; if not nearer, it is even. */
  ghost predicate NoFarther(f: Format, negative: bool, o: nat, negative': bool, o': nat, x: int, den: nat)
    requires f.Valid()
  {
    var mine, other := Gap(Value(f, negative, o) * den, x), Gap(Value(f, negative', o') * den, x);
    mine <= other && (mine == other && o' != o ==> o % 2 == 0)
  }

  /** To nearest, no finite number of either sign is nearer, and of two equally near the even one is taken; the
      result is infinite exactly from half a unit beyond the largest finite number on. */
  lemma NearestIsClosest(f: Format, negative: bool, num: nat, den: nat, o: nat)
    requires f.Valid() && 0 < den && f.CorrectlyRounded(Towards(NearestEven, negative), num, den, o)
    ensures o == f.infinity <==> (f.Units(f.infinity - 1) + f.Units(f.infinity)) * den <= 2 * num
    ensures forall n: bool, p: nat :: p < f.infinity && o < f.infinity ==>
      NoFarther(f, negative, o, n, p, Exact(negative, num), den)
  {
    NearestAtInfinity(f, num, den, o);
    DistanceIsGap(f, negative, num, den, o);
    forall n: bool, p: nat | p < f.infinity && o < f.infinity
      ensures NoFarther(f, negative, o, n, p, Exact(negative, num), den)
    {
      DistanceIsGap(f, negative, num, den, p);
      if p != o { assert f.Distance(num, den, o) <= f.Distance(num, den, p); }
    }
  }

  lemma NearestAtInfinity(f: Format, num: nat, den: nat, o: nat)
    requires f.Valid() && 0 < den && f.CorrectlyRounded(Nearest, num, den, o)
    ensures o == f.infinity <==> (f.Units(f.infinity - 1) + f.Units(f.infinity)) * den <= 2 * num
  {
    NearestBound(f, f, num, den, o, f.infinity);
  }

  /** Rounding to nearest reaches an even encoding exactly from half way to the one before it. */
  lemma NearestBound(f: Format, g: Format, num: nat, den: nat, o: nat, bound: nat)
    requires f.Valid() && g.Valid() && g.hidden == f.hidden && 0 < den && 1 <= bound <= g.infinity
    requires bound % f.hidden == 0 && g.CorrectlyRounded(Nearest, num, den, o)
    ensures bound <= o <==> (f.Units(bound - 1) + f.Units(bound)) * den <= 2 * num
  {
    hide Format.Units, Format.CorrectlyRounded, Multiple, Gap;
    EvenBound(bound, f.hidden);
    if o != bound - 1 { NearestChoice(f, g, num, den, o, bound - 1); }
    if o != bound { NearestChoice(f, g, num, den, o, bound); }
    MultiplesOrdered(f, bound - 1, bound, den);
    if bound < o { MultiplesOrdered(f, bound, o, den); }
    if o < bound - 1 { MultiplesOrdered(f, o, bound - 1, den); }
    SumOfMultiples(f, bound - 1, bound, den);
    HalfWay(num, Multiple(f, bound - 1, den), Multiple(f, o, den), Multiple(f, bound, den), bound <= o, o == bound - 1,
      o == bound);
  }

  ghost function Multiple(f: Format, o: nat, den: nat): nat
    requires f.Valid()
  {
    UnitsZero(f, o);
    f.Units(o) * den
  }

  lemma SumOfMultiples(f: Format, o: nat, p: nat, den: nat)
    requires f.Valid()
    ensures (f.Units(o) + f.Units(p)) * den == Multiple(f, o, den) + Multiple(f, p, den)
  {
    Distribute(f.Units(o), f.Units(p), den);
  }

  lemma MultiplesOrdered(f: Format, o: nat, p: nat, den: nat)
    requires f.Valid() && o < p && 0 < den
    ensures Multiple(f, o, den) < Multiple(f, p, den)
  {
    Ordered(f, o, p);
    MulStrict(f.Units(o), f.Units(p), den);
  }

  lemma NearestChoice(f: Format, g: Format, num: nat, den: nat, o: nat, p: nat)
    requires f.Valid() && g.Valid() && g.hidden == f.hidden && g.CorrectlyRounded(Nearest, num, den, o)
    requires p <= g.infinity && p != o
    ensures var mine, other := Gap(num, Multiple(f, o, den)), Gap(num, Multiple(f, p, den));
      mine <= other && (mine == other ==> o % 2 == 0)
  {
    SameUnits(f, g, o);
    SameUnits(f, g, p);
    hide Format.Units;
    assert g.Distance(num, den, o) <= g.Distance(num, den, p);
  }

  /** The reasoning on multiples alone: `mid` is at least as near to `num` as its neighbours are. */
  lemma HalfWay(num: nat, low: nat, mid: nat, high: nat, above: bool, atLow: bool, atHigh: bool)
    requires low < high && (atLow ==> mid == low) && (atHigh ==> mid == high)
    requires above <==> high <= mid
    requires !above ==> mid <= low
    requires atLow || Gap(num, mid) <= Gap(num, low)
    requires atHigh || Gap(num, mid) <= Gap(num, high)
    requires atLow ==> !atHigh && Gap(num, mid) != Gap(num, high)
    requires !above && !atLow ==> mid < low
    ensures above <==> low + high <= 2 * num
  {
  }

  lemma EvenBound(bound: nat, hidden: nat)
    requires 0 < hidden && hidden % 2 == 0 && bound % hidden == 0
    ensures bound % 2 == 0
  {
    DivMod(bound, hidden);
    var q := bound / hidden;
    MulAssoc(q, hidden / 2, 2);
    DivModIs(bound, 2, q * (hidden / 2), 0);
  }

  lemma SameUnits(f: Format, g: Format, o: nat)
    requires f.Valid() && g.Valid() && g.hidden == f.hidden
    ensures f.Units(o) == g.Units(o)
  {
  }

  lemma HugeMagnitude(f: Format, direction: Direction, num: nat, den: nat, o: nat)
    requires f.Valid() && 0 < den && f.CorrectlyRounded(direction, num, den, o) && f.Units(f.infinity) * den <= num
    ensures o == if direction == TowardZero then f.infinity - 1 else f.infinity
  {
    var top := f.infinity - 1;
    Ordered(f, top, f.infinity);
    MulStrict(f.Units(top), f.Units(f.infinity), den);
    match direction
    case Nearest =>
      Distribute(f.Units(top), f.Units(f.infinity), den);
      NearestAtInfinity(f, num, den, o);
    case TowardZero =>
    case AwayFromZero =>
      if o < f.infinity { UnitsMonotone(f, o, top); MulMono(f.Units(o), f.Units(top), den); }
  }

  /** Beyond the finite numbers the result is infinite, or the largest finite number where the mode turns back. */
  lemma HugeResults(f: Format, mode: RoundingMode, negative: bool, num: nat, den: nat, o: nat)
    requires f.Valid() && 0 < den && f.CorrectlyRounded(Towards(mode, negative), num, den, o)
    requires f.Units(f.infinity) * den <= num
    ensures o == if mode == ToZero || (mode == Down && !negative) || (mode == Up && negative)
      then f.infinity - 1 else f.infinity
  {
    hide Format.CorrectlyRounded, Format.Units;
    HugeMagnitude(f, Towards(mode, negative), num, den, o);
  }

  // The conditions of the exceptions, by way of rounding in formats that do not overflow or underflow.

  /** A result overflows exactly when, rounded with more room for exponents, it is beyond the finite numbers. */
  lemma OverflowIsBeyond(f: Format, wide: Format, direction: Direction, num: nat, den: nat, o: nat)
    requires f.Valid() && wide.Valid() && wide.hidden == f.hidden && f.infinity < wide.infinity && 0 < den
    requires wide.CorrectlyRounded(direction, num, den, o) && o < wide.infinity
    ensures f.Overflows(direction, num, den) <==> f.infinity <= o
  {
    SameUnits(f, wide, o);
    SameUnits(f, wide, f.infinity);
    SameUnits(f, wide, f.infinity - 1);
    match direction
    case Nearest =>
      NearestBound(f, wide, num, den, o, f.infinity);
    case TowardZero =>
      if f.infinity <= o { UnitsMonotone(f, f.infinity, o); MulMono(f.Units(f.infinity), f.Units(o), den); }
    case AwayFromZero =>
      if o < f.infinity { UnitsMonotone(f, o, f.infinity - 1); MulMono(f.Units(o), f.Units(f.infinity - 1), den); }
  }

  /** Before rounding, tiny means below the smallest normal number. */
  lemma TinyBefore(f: Format, direction: Direction, num: nat, den: nat)
    requires f.Valid()
    ensures f.Tiny(true, direction, num, den) <==> 0 < num < f.Units(f.hidden) * den
  {
    DivModIs(f.hidden, f.hidden, 1, 0);
    assert Pow2(0) == 1;
  }

  lemma SmallUnits(f: Format)
    requires f.Valid()
    ensures var h := f.hidden; f.Units(h) == h && f.Units(2 * h - 1) == 2 * h - 1 && f.Units(2 * h) == 2 * h
  {
    var h := f.hidden;
    UnitsOfPacked(f, 0, h);
    UnitsOfPacked(f, 0, 2 * h - 1);
    UnitsOfPacked(f, 0, 2 * h);
    assert Pow2(0) == 1;
  }

  lemma BelowTwiceHidden(f: Format, o: nat)
    requires f.Valid()
    ensures f.Units(o) < 2 * f.hidden <==> o < 2 * f.hidden
    ensures o < 2 * f.hidden ==> f.Units(o) <= 2 * f.hidden - 1
  {
    var h := f.hidden;
    SmallUnits(f);
    if 2 * h <= o { UnitsMonotone(f, 2 * h, o); } else { UnitsMonotone(f, o, 2 * h - 1); }
  }

  /** Rounding gives at least the encoding of `2 * hidden` exactly from the bound of the direction on. */
  lemma ReachesTwiceHidden(f: Format, direction: Direction, num: nat, den: nat, o: nat)
    requires f.Valid() && 2 * f.hidden < f.infinity && 0 < den && f.CorrectlyRounded(direction, num, den, o)
    ensures 2 * f.hidden <= o <==>
      match direction
      case Nearest => (4 * f.hidden - 1) * den <= 2 * num
      case TowardZero => 2 * f.hidden * den <= num
      case AwayFromZero => (2 * f.hidden - 1) * den < num
  {
    var h := f.hidden;
    SmallUnits(f);
    match direction
    case Nearest =>
      DivModIs(2 * h, h, 2, 0);
      NearestBound(f, f, num, den, o, 2 * h);
      assert f.Units(2 * h - 1) + f.Units(2 * h) == 4 * h - 1;
    case TowardZero =>
      if 2 * h <= o { UnitsMonotone(f, 2 * h, o); MulMono(2 * h, f.Units(o), den); }
      else { assert num < f.Units(2 * h) * den; }
    case AwayFromZero =>
      if o < 2 * h { UnitsMonotone(f, o, 2 * h - 1); MulMono(f.Units(o), 2 * h - 1, den); }
      else { assert f.Units(2 * h - 1) * den < num; }
  }

  /** After rounding, it means that the result, rounded to full precision as if exponents were unbounded, is. Twice
      the value is rounded here, so that the binade below the normal numbers has its full precision. */
  lemma TinyAfter(f: Format, direction: Direction, num: nat, den: nat, o: nat)
    requires f.Valid() && 2 * f.hidden < f.infinity && 0 < num && 0 < den
    requires f.CorrectlyRounded(direction, 2 * num, den, o)
    ensures f.Tiny(false, direction, num, den) <==> f.Units(o) < 2 * f.Units(f.hidden)
  {
    hide Format.CorrectlyRounded, Format.Units;
    SmallUnits(f);
    BelowTwiceHidden(f, o);
    ReachesTwiceHidden(f, direction, 2 * num, den, o);
    var h := f.hidden;
    assert 2 * h * den == 2 * (h * den) && (4 * h - 1) * den == 4 * (h * den) - den
      && (2 * h - 1) * den == 2 * (h * den) - den by {
      MulAssoc(2, h, den);
      MulAssoc(4, h, den);
      Distribute(4 * h, -1, den);
      Distribute(2 * h, -1, den);
    }
  }

  /** Which exceptions are raised, said of the delivered result `o` and of `o2`, the result for twice the value. */
  lemma RaisedExactly(f: Format, before: bool, direction: Direction, num: nat, den: nat, o: nat, o2: nat)
    requires f.Valid() && 2 * f.hidden < f.infinity && 0 < den
    requires f.CorrectlyRounded(direction, num, den, o) && f.CorrectlyRounded(direction, 2 * num, den, o2)
    ensures var flags := f.Raised(before, direction, num, den, o);
      var tiny := if before then num < f.Units(f.hidden) * den else f.Units(o2) < 2 * f.Units(f.hidden);
      && (Overflow in flags <==> o == f.infinity || f.Units(f.infinity) * den <= num)
      && (Inexact in flags <==> o == f.infinity || f.Units(o) * den != num)
      && (Underflow in flags <==> f.Units(o) * den != num && 0 < num && tiny)
      && Invalid !in flags && DivByZero !in flags
  {
    OverflowIsInfinite(f, direction, num, den, o);
    TinyBefore(f, direction, num, den);
    if 0 < num { TinyAfter(f, direction, num, den, o2); }
    BigIsNotTiny(f, before, direction, num, den, o, o2);
    hide Format.CorrectlyRounded, Format.Units, Format.Tiny, Format.Overflows;
  }

  lemma OverflowIsInfinite(f: Format, direction: Direction, num: nat, den: nat, o: nat)
    requires f.Valid() && 0 < den && f.CorrectlyRounded(direction, num, den, o)
    ensures f.Overflows(direction, num, den) <==> o == f.infinity || f.Units(f.infinity) * den <= num
    ensures f.Overflows(direction, num, den) && o < f.infinity ==> f.Units(o) * den != num
  {
    var top := f.infinity - 1;
    Ordered(f, top, f.infinity);
    MulStrict(f.Units(top), f.Units(f.infinity), den);
    if f.Units(f.infinity) * den <= num { HugeMagnitude(f, direction, num, den, o); }
    match direction
    case Nearest =>
      NearestAtInfinity(f, num, den, o);
    case TowardZero =>
    case AwayFromZero =>
      if o < f.infinity { UnitsMonotone(f, o, top); MulMono(f.Units(o), f.Units(top), den); }
  }

  lemma BigIsNotTiny(f: Format, before: bool, direction: Direction, num: nat, den: nat, o: nat, o2: nat)
    requires f.Valid() && 2 * f.hidden < f.infinity && 0 < den
    requires f.CorrectlyRounded(direction, num, den, o)
    ensures f.Tiny(before, direction, num, den) ==> !f.Overflows(direction, num, den) && o < f.infinity
  {
    var top := f.infinity - 1;
    OverflowIsInfinite(f, direction, num, den, o);
    SmallUnits(f);
    UnitsMonotone(f, f.hidden, top);
    UnitsMonotone(f, top, f.infinity);
    MulMono(f.hidden, f.Units(top), den);
    MulMono(f.Units(top), f.Units(f.infinity), den);
    Distribute(f.Units(top), f.Units(f.infinity), den);
    if direction == Nearest { NearestAtInfinity(f, num, den, o); }
  }

  // The same on words.

  ghost function Value64(z: u64): int {
    Value(BINARY64, Sign64(z), Magnitude64(z))
  }

  ghost predicate AtMost64(z: u64, x: int, den: nat) {
    AtMost(BINARY64, Sign64(z), Magnitude64(z), x, den)
  }

  ghost predicate AtLeast64(z: u64, x: int, den: nat) {
    AtLeast(BINARY64, Sign64(z), Magnitude64(z), x, den)
  }

  /** Finite or infinite. */
  predicate IsNumber64(z: u64) { Magnitude64(z) <= BINARY64.infinity }

  lemma RoundedDown64(sign: bool, num: nat, den: nat, z: u64)
    requires 0 < den && IsRounded64(Down, sign, num, den, z)
    ensures AtMost64(z, Exact(sign, num), den)
    ensures forall w: u64 :: IsNumber64(w) && AtMost64(w, Exact(sign, num), den) ==> Value64(w) <= Value64(z)
  {
    DownIsBelow(BINARY64, sign, num, den, Magnitude64(z));
  }

  lemma RoundedUp64(sign: bool, num: nat, den: nat, z: u64)
    requires 0 < den && IsRounded64(Up, sign, num, den, z)
    ensures AtLeast64(z, Exact(sign, num), den)
    ensures forall w: u64 :: IsNumber64(w) && AtLeast64(w, Exact(sign, num), den) ==> Value64(z) <= Value64(w)
  {
    UpIsAbove(BINARY64, sign, num, den, Magnitude64(z));
  }

  lemma RoundedToZero64(sign: bool, num: nat, den: nat, z: u64)
    requires 0 < den && IsRounded64(ToZero, sign, num, den, z)
    ensures Sign64(z) == sign && Magnitude64(z) < BINARY64.infinity && BINARY64.Units(Magnitude64(z)) * den <= num
    ensures forall w: u64 :: Magnitude64(w) < BINARY64.infinity && BINARY64.Units(Magnitude64(w)) * den <= num ==>
      BINARY64.Units(Magnitude64(w)) <= BINARY64.Units(Magnitude64(z))
  {
    ToZeroIsWithin(BINARY64, sign, num, den, Magnitude64(z));
  }

  lemma RoundedNearest64(sign: bool, num: nat, den: nat, z: u64)
    requires 0 < den && IsRounded64(NearestEven, sign, num, den, z)
    ensures Magnitude64(z) == BINARY64.infinity
      <==> (BINARY64.Units(BINARY64.infinity - 1) + BINARY64.Units(BINARY64.infinity)) * den <= 2 * num
    ensures forall w: u64 :: Magnitude64(w) < BINARY64.infinity && Magnitude64(z) < BINARY64.infinity ==>
      NoFarther(BINARY64, Sign64(z), Magnitude64(z), Sign64(w), Magnitude64(w), Exact(sign, num), den)
  {
    hide Format.CorrectlyRounded, Format.Units, NoFarther;
    NearestIsClosest(BINARY64, sign, num, den, Magnitude64(z));
  }

  function Opposite64(z: u64): u64 {
    if Sign64(z) then z - 0x8000_0000_0000_0000 else z + 0x8000_0000_0000_0000
  }

  /** Rounding up is rounding down of the negated value, negated. */
  lemma UpMirrorsDown64(sign: bool, num: nat, den: nat, z: u64)
    ensures Value64(Opposite64(z)) == -1 * Value64(z)
    ensures IsRounded64(Up, sign, num, den, z) <==> IsRounded64(Down, !sign, num, den, Opposite64(z))
  {
    UpIsDownNegated(BINARY64, sign, num, den, Magnitude64(z));
  }

  /** Overflow, by mode and sign: the words for the infinities and for the largest finite numbers. */
  lemma OverflowResults64(mode: RoundingMode, sign: bool, num: nat, den: nat, z: u64)
    requires 0 < den && IsRounded64(mode, sign, num, den, z) && BINARY64.Units(BINARY64.infinity) * den <= num
    ensures z ==
      match mode
      case NearestEven => if sign then 0xFFF0_0000_0000_0000 else 0x7FF0_0000_0000_0000
      case Down => if sign then 0xFFF0_0000_0000_0000 else 0x7FEF_FFFF_FFFF_FFFF
      case Up => if sign then 0xFFEF_FFFF_FFFF_FFFF else 0x7FF0_0000_0000_0000
      case ToZero => if sign then 0xFFEF_FFFF_FFFF_FFFF else 0x7FEF_FFFF_FFFF_FFFF
  {
    HugeResults(BINARY64, mode, sign, num, den, Magnitude64(z));
  }

  /** The exceptions of an operation; `twice` is the word for twice the exact value. */
  lemma ExceptionsExactly64(status: FloatStatus, sign: bool, num: nat, den: nat, z: u64, twice: u64)
    requires 0 < den && IsRounded64(status.roundingMode, sign, num, den, z)
    requires IsRounded64(status.roundingMode, sign, 2 * num, den, twice)
    ensures var flags, f, o := Raised64(status, sign, num, den, z), BINARY64, Magnitude64(z);
      var tiny := if status.tininessBeforeRounding then num < f.Units(f.hidden) * den
        else f.Units(Magnitude64(twice)) < 2 * f.Units(f.hidden);
      && (Overflow in flags <==> o == f.infinity || f.Units(f.infinity) * den <= num)
      && (Inexact in flags <==> o == f.infinity || f.Units(o) * den != num)
      && (Underflow in flags <==> f.Units(o) * den != num && 0 < num && tiny)
      && Invalid !in flags && DivByZero !in flags
  {
    hide Format.CorrectlyRounded, Format.Units, Format.Raised;
    RaisedExactly(BINARY64, status.tininessBeforeRounding, Towards(status.roundingMode, sign), num, den,
      Magnitude64(z), Magnitude64(twice));
  }

  ghost function Value32(z: u32): int {
    Value(BINARY32, Sign32(z), Magnitude32(z))
  }

  ghost predicate AtMost32(z: u32, x: int, den: nat) {
    AtMost(BINARY32, Sign32(z), Magnitude32(z), x, den)
  }

  ghost predicate AtLeast32(z: u32, x: int, den: nat) {
    AtLeast(BINARY32, Sign32(z), Magnitude32(z), x, den)
  }

  /** Finite or infinite. */
  predicate IsNumber32(z: u32) { Magnitude32(z) <= BINARY32.infinity }

  lemma RoundedDown32(sign: bool, num: nat, den: nat, z: u32)
    requires 0 < den && IsRounded32(Down, sign, num, den, z)
    ensures AtMost32(z, Exact(sign, num), den)
    ensures forall w: u32 :: IsNumber32(w) && AtMost32(w, Exact(sign, num), den) ==> Value32(w) <= Value32(z)
  {
    DownIsBelow(BINARY32, sign, num, den, Magnitude32(z));
  }

  lemma RoundedUp32(sign: bool, num: nat, den: nat, z: u32)
    requires 0 < den && IsRounded32(Up, sign, num, den, z)
    ensures AtLeast32(z, Exact(sign, num), den)
    ensures forall w: u32 :: IsNumber32(w) && AtLeast32(w, Exact(sign, num), den) ==> Value32(z) <= Value32(w)
  {
    UpIsAbove(BINARY32, sign, num, den, Magnitude32(z));
  }

  lemma RoundedToZero32(sign: bool, num: nat, den: nat, z: u32)
    requires 0 < den && IsRounded32(ToZero, sign, num, den, z)
    ensures Sign32(z) == sign && Magnitude32(z) < BINARY32.infinity && BINARY32.Units(Magnitude32(z)) * den <= num
    ensures forall w: u32 :: Magnitude32(w) < BINARY32.infinity && BINARY32.Units(Magnitude32(w)) * den <= num ==>
      BINARY32.Units(Magnitude32(w)) <= BINARY32.Units(Magnitude32(z))
  {
    ToZeroIsWithin(BINARY32, sign, num, den, Magnitude32(z));
  }

  lemma RoundedNearest32(sign: bool, num: nat, den: nat, z: u32)
    requires 0 < den && IsRounded32(NearestEven, sign, num, den, z)
    ensures Magnitude32(z) == BINARY32.infinity
      <==> (BINARY32.Units(BINARY32.infinity - 1) + BINARY32.Units(BINARY32.infinity)) * den <= 2 * num
    ensures forall w: u32 :: Magnitude32(w) < BINARY32.infinity && Magnitude32(z) < BINARY32.infinity ==>
      NoFarther(BINARY32, Sign32(z), Magnitude32(z), Sign32(w), Magnitude32(w), Exact(sign, num), den)
  {
    hide Format.CorrectlyRounded, Format.Units, NoFarther;
    NearestIsClosest(BINARY32, sign, num, den, Magnitude32(z));
  }

  function Opposite32(z: u32): u32 {
    if Sign32(z) then z - 0x8000_0000 else z + 0x8000_0000
  }

  /** Rounding up is rounding down of the negated value, negated. */
  lemma UpMirrorsDown32(sign: bool, num: nat, den: nat, z: u32)
    ensures Value32(Opposite32(z)) == -1 * Value32(z)
    ensures IsRounded32(Up, sign, num, den, z) <==> IsRounded32(Down, !sign, num, den, Opposite32(z))
  {
    UpIsDownNegated(BINARY32, sign, num, den, Magnitude32(z));
  }

  /** Overflow, by mode and sign: the words for the infinities and for the largest finite numbers. */
  lemma OverflowResults32(mode: RoundingMode, sign: bool, num: nat, den: nat, z: u32)
    requires 0 < den && IsRounded32(mode, sign, num, den, z) && BINARY32.Units(BINARY32.infinity) * den <= num
    ensures z ==
      match mode
      case NearestEven => if sign then 0xFF80_0000 else 0x7F80_0000
      case Down => if sign then 0xFF80_0000 else 0x7F7F_FFFF
      case Up => if sign then 0xFF7F_FFFF else 0x7F80_0000
      case ToZero => if sign then 0xFF7F_FFFF else 0x7F7F_FFFF
  {
    HugeResults(BINARY32, mode, sign, num, den, Magnitude32(z));
  }

  /** The exceptions of an operation; `twice` is the word for twice the exact value. */
  lemma ExceptionsExactly32(status: FloatStatus, sign: bool, num: nat, den: nat, z: u32, twice: u32)
    requires 0 < den && IsRounded32(status.roundingMode, sign, num, den, z)
    requires IsRounded32(status.roundingMode, sign, 2 * num, den, twice)
    ensures var flags, f, o := Raised32(status, sign, num, den, z), BINARY32, Magnitude32(z);
      var tiny := if status.tininessBeforeRounding then num < f.Units(f.hidden) * den
        else f.Units(Magnitude32(twice)) < 2 * f.Units(f.hidden);
      && (Overflow in flags <==> o == f.infinity || f.Units(f.infinity) * den <= num)
      && (Inexact in flags <==> o == f.infinity || f.Units(o) * den != num)
      && (Underflow in flags <==> f.Units(o) * den != num && 0 < num && tiny)
      && Invalid !in flags && DivByZero !in flags
  {
    hide Format.CorrectlyRounded, Format.Units, Format.Raised;
    RaisedExactly(BINARY32, status.tininessBeforeRounding, Towards(status.roundingMode, sign), num, den,
      Magnitude32(z), Magnitude32(twice));
  }
}
