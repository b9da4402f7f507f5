/** Rounding on an evenly spaced grid, and why packing a grid-rounded significand gives the
    correctly rounded encoding. */
module IeeeRounding {
  import opened Words
  import opened Ieee

  /** `m * g` is `n` rounded to a multiple of `g`. */
  ghost predicate GridRounded(direction: Direction, n: nat, g: nat, m: nat) {
    match direction
    case Nearest => 2 * (m * g) - g <= 2 * n <= 2 * (m * g) + g &&
      (2 * n == 2 * (m * g) - g || 2 * n == 2 * (m * g) + g ==> m % 2 == 0)
    case TowardZero => m * g <= n < m * g + g
    case AwayFromZero => n <= m * g < n + g
  }

  /** The encodings next to a packed one are at least one grid step away above, and exactly one
      below unless the significand is the least of its binade. */
  lemma PackedNeighbours(f: Format, e: nat, m: nat)
    requires f.Valid() && m <= 2 * f.hidden && (e == 0 || f.hidden <= m)
    ensures (m + 1) * Pow2(e) <= f.Units(e * f.hidden + m + 1)
    ensures 1 <= m && (e == 0 || f.hidden < m) ==>
      0 <= e * f.hidden + m - 1 && f.Units(e * f.hidden + m - 1) == (m - 1) * Pow2(e)
  {
    var h := f.hidden;
    if m < 2 * h {
      UnitsOfPacked(f, e, m + 1);
    } else {
      UnitsOfNormal(f, e + 2, 1);
      assert (e + 2) * h + 1 == e * h + m + 1;
      DoubledPower(h + 1, e);
      MulMono(2 * h + 1, 2 * (h + 1), Pow2(e));
    }
    if 1 <= m && (e == 0 || h < m) {
      UnitsOfPacked(f, e, m - 1);
    }
  }

  /** The exact value, the grid and the packed encoding on a common scale. */
  ghost predicate PackedOnGrid(f: Format, direction: Direction, num: nat, den: nat, e: nat, m: nat, g: nat)
    requires f.Valid()
  {
    && 0 < den && g == Scaled(den, e)
    && m <= 2 * f.hidden && (e == 0 || (f.hidden <= m && f.hidden * g <= num))
    && GridRounded(direction, num, g, m)
  }

  lemma ScaledNeighbours(f: Format, direction: Direction, num: nat, den: nat, e: nat, m: nat, g: nat)
    requires f.Valid() && PackedOnGrid(f, direction, num, den, e, m, g)
    ensures f.Units(e * f.hidden + m) * den == m * g
    ensures m * g + g <= f.Units(e * f.hidden + m + 1) * den
    ensures m * g <= num || (1 <= e * f.hidden + m && f.Units(e * f.hidden + m - 1) * den == m * g - g)
  {
    var o := e * f.hidden + m;
    assert g == Pow2(e) * den;
    hide Format.Units;
    hide Pow2;
    hide Scaled;
    UnitsOfPacked(f, e, m);
    PackedNeighbours(f, e, m);
    MulAssoc(m, Pow2(e), den);
    MulAssoc(m + 1, Pow2(e), den);
    MulAssoc(m - 1, Pow2(e), den);
    MulMono((m + 1) * Pow2(e), f.Units(o + 1), den);
    assert (m + 1) * g == m * g + g;
    assert (m - 1) * g == m * g - g;
    if num < m * g && m == 0 {
      assert false;
    }
  }

  lemma PackedIsCorrectlyRounded(f: Format, direction: Direction, num: nat, den: nat, e: nat, m: nat)
    requires f.Valid() && 0 < den && PackedOnGrid(f, direction, num, den, e, m, Scaled(den, e))
    requires e * f.hidden + m <= f.infinity
    requires direction == TowardZero ==> e * f.hidden + m < f.infinity
    ensures f.CorrectlyRounded(direction, num, den, e * f.hidden + m)
  {
    var o, g := e * f.hidden + m, Scaled(den, e);
    ScaledNeighbours(f, direction, num, den, e, m, g);
    forall p: nat | p < o
      ensures f.Units(p) * den <= f.Units(o - 1) * den < f.Units(o) * den
    {
      UnitsMonotone(f, p, o - 1);
      UnitsMonotone(f, o - 1, o);
      MulMono(f.Units(p), f.Units(o - 1), den);
      MulStrict(f.Units(o - 1), f.Units(o), den);
    }
    forall p: nat | o < p
      ensures m * g + g <= f.Units(p) * den
    {
      UnitsMonotone(f, o + 1, p);
      MulMono(f.Units(o + 1), f.Units(p), den);
    }
    if direction == Nearest {
      ParityOfPacked(f.hidden, e, m);
    }
  }

  lemma ParityOfPacked(h: nat, e: nat, m: nat)
    requires h % 2 == 0
    ensures (e * h + m) % 2 == m % 2
  {
    assert e * h == 2 * (e * (h / 2));
  }

  /** An exact value `n`, in steps of `x`: on step `c` when `onStep`, else strictly between
      steps `c` and `c + 1`. */
  ghost predicate InCell(c: nat, onStep: bool, n: nat, x: nat) {
    if onStep then n == c * x else c * x < n < c * x + x
  }

  /** Rounding to every second step needs only the cell, not the value. */
  function RoundCell(direction: Direction, c: nat, onStep: bool): nat {
    match direction
    case Nearest => if c % 2 == 0 || (onStep && (c / 2) % 2 == 0) then c / 2 else c / 2 + 1
    case TowardZero => c / 2
    case AwayFromZero => if c % 2 == 0 && onStep then c / 2 else c / 2 + 1
  }

  lemma RoundCellIsGridRounded(direction: Direction, c: nat, onStep: bool, n: nat, x: nat)
    requires 0 < x && InCell(c, onStep, n, x)
    ensures GridRounded(direction, n, 2 * x, RoundCell(direction, c, onStep))
    ensures RoundCell(direction, c, onStep) * (2 * x) == n <==> onStep && c % 2 == 0
  {
    var s := c / 2;
    HalveSteps(c, x);
    RoundCellCases(direction, c, onStep, n, x, s * (2 * x));
    var m := RoundCell(direction, c, onStep);
    assert m == s || m == s + 1;
  }

  lemma HalveSteps(c: nat, x: nat)
    ensures c * x == (c / 2) * (2 * x) + (if c % 2 == 0 then 0 else x)
    ensures (c / 2 + 1) * (2 * x) == (c / 2) * (2 * x) + 2 * x
  {
    var s := c / 2;
    Distribute(2 * s, c % 2, x);
    MulAssoc(s, 2, x);
    Distribute(s, 1, 2 * x);
  }

  /** The same with the products named, so that only linear facts are left. */
  lemma RoundCellCases(direction: Direction, c: nat, onStep: bool, n: nat, x: nat, p: int)
    requires 0 < x
    requires var cx := p + (if c % 2 == 0 then 0 else x); if onStep then n == cx else cx < n < cx + x
    ensures var m := RoundCell(direction, c, onStep);
      var mg := if m == c / 2 then p else p + 2 * x;
      (mg == n <==> onStep && c % 2 == 0) &&
      match direction
      case Nearest => 2 * mg - 2 * x <= 2 * n <= 2 * mg + 2 * x &&
        (2 * n == 2 * mg - 2 * x || 2 * n == 2 * mg + 2 * x ==> m % 2 == 0)
      case TowardZero => mg <= n < mg + 2 * x
      case AwayFromZero => n <= mg < n + 2 * x
  {
  }

  /** Comparing with a step needs only the cell. */
  lemma CellOrder(c: nat, onStep: bool, n: nat, x: nat, k: nat)
    requires 0 < x && InCell(c, onStep, n, x)
    ensures k * x <= n <==> k <= c
    ensures k * x < n <==> k < c || (k == c && !onStep)
  {
    if k < c {
      MulMono(k + 1, c, x);
      assert (k + 1) * x == k * x + x;
    } else if c < k {
      MulMono(c + 1, k, x);
      assert (c + 1) * x == c * x + x;
    }
  }

  /** Scaling value and step together keeps the cell. */
  lemma CellScale(c: nat, onStep: bool, n: nat, x: nat, k: nat)
    requires 0 < k
    ensures InCell(c, onStep, n, x) <==> InCell(c, onStep, n * k, x * k)
  {
    MulAssoc(c, x, k);
    assert (c * x + x) * k == c * (x * k) + x * k;
    MulCompare(c * x, n, k);
    MulCompare(n, c * x + x, k);
  }

  /** Widening the step by a factor `p`: the cell becomes `c / p`. */
  lemma CellWiden(c: nat, onStep: bool, n: nat, x: nat, p: nat)
    requires 0 < p && 0 < x && InCell(c, onStep, n, x)
    ensures InCell(c / p, onStep && c % p == 0, n, p * x)
  {
    var c', t := c / p, c % p;
    DivMod(c, p);
    assert c * x == c' * (p * x) + t * x by {
      assert c == c' * p + t;
      MulAssoc(c', p, x);
      assert (c' * p + t) * x == (c' * p) * x + t * x;
    }
    if t != 0 { MulAtLeast(t, x); }
    MulMono(t + 1, p, x);
    assert (t + 1) * x == t * x + x;
  }

  /** Sets the lowest bit of `q` if `sticky`. */
  function StickyBit(q: nat, sticky: bool): nat {
    if sticky && q % 2 == 0 then q + 1 else q
  }

  /** A right shift by which any non-zero bit shifted out sets the lowest bit of the result. */
  function Jam(sig: nat, p: nat): nat
    requires 0 < p
  {
    DivMod(sig, p);
    StickyBit(sig / p, sig % p != 0)
  }

  /** Splitting by `half` and then by `p` is splitting by `p` and then by `half`. */
  lemma DivideTwice(x: nat, half: nat, p: nat)
    requires 0 < p && 0 < half
    ensures (x / half) / p == (x / p) / half
    ensures x % half == 0 && (x / half) % p == 0 <==> x % p == 0 && (x / p) % half == 0
  {
    DivideByProduct(x, half, p);
    DivideByProduct(x, p, half);
  }

  lemma DivideByProduct(x: nat, half: nat, p: nat)
    requires 0 < p && 0 < half
    ensures 0 < half * p && (x / half) / p == x / (half * p)
    ensures x % (half * p) == ((x / half) % p) * half + x % half
    ensures x % (half * p) == 0 <==> x % half == 0 && (x / half) % p == 0
  {
    var c, r := x / half, x % half;
    var c', t := c / p, c % p;
    DivMod(x, half);
    DivMod(c, p);
    MulStrict(0, half, p);
    Distribute(c' * p, t, half);
    MulAssoc(c', p, half);
    MulMono(t + 1, p, half);
    Distribute(t, 1, half);
    DivModIs(x, half * p, c', t * half + r);
    if t != 0 { MulAtLeast(t, half); }
  }

  /** Jamming keeps the cell: it can be told from the jammed word alone. */
  lemma JamKeepsCell(sig: nat, p: nat, half: nat)
    requires 0 < p && 0 < half && half % 2 == 0
    ensures Jam(sig, p) / half == (sig / half) / p
    ensures Jam(sig, p) % half == 0 <==> sig % half == 0 && (sig / half) % p == 0
  {
    DivideTwice(sig, half, p);
    DivMod(sig, p);
    StickyBitKeepsCell(sig / p, sig % p != 0, half);
  }

  lemma StickyBitKeepsCell(q: nat, sticky: bool, half: nat)
    requires 0 < half && half % 2 == 0
    ensures StickyBit(q, sticky) / half == q / half
    ensures StickyBit(q, sticky) % half == 0 <==> q % half == 0 && !sticky
  {
    DivMod(q, half);
    EvenMultiple(q / half, half);
    StickyBitBetween(q, sticky, (q / half) * half, half);
    DivModIs(StickyBit(q, sticky), half, q / half, StickyBit(q, sticky) - (q / half) * half);
  }

  lemma StickyBitBetween(q: nat, sticky: bool, bottom: nat, half: nat)
    requires half % 2 == 0 && bottom % 2 == 0 && bottom <= q < bottom + half
    ensures bottom <= StickyBit(q, sticky) < bottom + half
    ensures StickyBit(q, sticky) == bottom <==> q == bottom && !sticky
  {
  }

  lemma EvenMultiple(n: nat, half: nat)
    requires half % 2 == 0
    ensures (n * half) % 2 == 0
  {
    MulAssoc(n, half / 2, 2);
  }

  /** A cell depends only on the ratio of value and step. */
  lemma CellRatio(c: nat, onStep: bool, n: nat, x: nat, n': nat, x': nat)
    requires 0 < x && 0 < x' && InCell(c, onStep, n, x) && n * x' == n' * x
    ensures InCell(c, onStep, n', x')
  {
    CellScale(c, onStep, n, x, x');
    CellScale(c, onStep, n', x', x);
  }
}
