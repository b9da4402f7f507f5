/** Machine words of the emulator's C code, as integers with explicit wrap-around.
    Bit operations are written as the arithmetic they denote: a shift is a multiplication or a
    division by a power of two, a mask is a remainder. */
module Words {
  const TWO32: int := 0x1_0000_0000
  const TWO63: int := 0x8000_0000_0000_0000
  const TWO64: int := 0x1_0000_0000_0000_0000

  type u32 = x: int | 0 <= x < 0x1_0000_0000
  type u64 = x: int | 0 <= x < 0x1_0000_0000_0000_0000

  /** Unsigned 64-bit addition, which drops a carry out of the top bit. */
  function Add64(a: u64, b: u64): u64 {
    if a + b < TWO64 then a + b else a + b - TWO64
  }

  /** Unsigned 64-bit subtraction, which drops a borrow out of the top bit. */
  function Sub64(a: u64, b: u64): u64 {
    if b <= a then a - b else a - b + TWO64
  }

  /** The value a 64-bit register holds after an operation whose exact result is `x`. */
  function Wrap64(x: int): u64 {
    x % 0x1_0000_0000_0000_0000
  }

  lemma Wrap64Is(x: int, k: int, r: int)
    requires x == k * 0x1_0000_0000_0000_0000 + r && 0 <= r < 0x1_0000_0000_0000_0000
    ensures Wrap64(x) == r
  {
  }

  /** The sign test `(int64_t) x < 0`. */
  predicate Negative64(x: u64) {
    0x8000_0000_0000_0000 <= x
  }

  function Pow2(n: nat): (r: nat)
    ensures 0 < r
  {
    if n == 0 then 1 else 2 * Pow2(n - 1)
  }

  /** `n * 2^e`. */
  function Scaled(n: nat, e: nat): (r: nat) {
    n * Pow2(e)
  }

  function Product(x: nat, y: nat): (r: nat) {
    x * y
  }

  lemma {:induction false} Pow2Add(m: nat, n: nat)
    ensures Pow2(m + n) == Pow2(m) * Pow2(n)
  {
    if m != 0 {
      Pow2Add(m - 1, n);
      calc {
        Pow2(m + n);
        2 * Pow2(m - 1 + n);
        2 * (Pow2(m - 1) * Pow2(n));
        (2 * Pow2(m - 1)) * Pow2(n);
      }
    }
  }

  lemma MulAssoc(x: int, y: int, z: int)
    ensures (x * y) * z == x * (y * z)
  {
  }

  lemma Distribute(x: int, y: int, z: int)
    ensures (x + y) * z == x * z + y * z
  {
  }

  lemma MulMono(x: int, y: int, n: int)
    requires x <= y && 0 <= n
    ensures x * n <= y * n
  {
  }

  lemma MulStrict(x: int, y: int, n: int)
    requires x < y && 0 < n
    ensures x * n < y * n
  {
  }

  lemma MulCompare(x: int, y: int, k: int)
    requires 0 < k
    ensures x < y <==> x * k < y * k
    ensures x == y <==> x * k == y * k
  {
    if x < y { MulStrict(x, y, k); } else if y < x { MulStrict(y, x, k); }
  }

  lemma MulAtLeast(n: int, d: int)
    requires 1 <= n && 0 <= d
    ensures d <= n * d
  {
  }

  lemma DivMod(x: nat, d: nat)
    requires 0 < d
    ensures x == (x / d) * d + x % d
    ensures 0 <= x / d && 0 <= x % d < d
  {
  }

  lemma DivModIs(x: int, d: int, q: int, r: int)
    requires 0 < d && x == q * d + r && 0 <= r < d
    ensures x / d == q && x % d == r
  {
    var q', r' := x / d, x % d;
    assert (q - q') * d == r' - r;
    if q < q' { MulAtLeast(q' - q, d); } else if q' < q { MulAtLeast(q - q', d); }
  }

  /** Powers may be moved across an equation as long as the exponents balance. */
  lemma Balance(x: nat, y: nat, i: nat, j: nat, k: nat, l: nat)
    requires Scaled(x, i) == Scaled(y, j) && i + l == j + k
    ensures Scaled(x, k) == Scaled(y, l)
  {
    EqualPowers(i, l, j, k);
    BalanceFactors(x, y, Pow2(i), Pow2(j), Pow2(k), Pow2(l));
  }

  lemma EqualPowers(i: nat, l: nat, j: nat, k: nat)
    requires i + l == j + k
    ensures Pow2(i) * Pow2(l) == Pow2(j) * Pow2(k)
  {
    calc {
      Pow2(i) * Pow2(l);
      { Pow2Add(i, l); }
      Pow2(i + l);
      Pow2(j + k);
      { Pow2Add(j, k); }
      Pow2(j) * Pow2(k);
    }
  }

  lemma BalanceFactors(x: int, y: int, i: int, j: int, k: int, l: int)
    requires 0 < i && x * i == y * j && i * l == j * k
    ensures x * k == y * l
  {
    calc {
      (x * k) * i;
      { MulAssoc(x, k, i); MulAssoc(x, i, k); }
      (y * j) * k;
      { MulAssoc(y, j, k); }
      y * (i * l);
      { MulAssoc(y, l, i); }
      (y * l) * i;
    }
    MulCompare(x * k, y * l, i);
  }

  lemma Regroup(x: int, y: int, a: int, c: int)
    ensures (x * a) * (y * c) == (x * y) * (a * c)
  {
    MulAssoc(x, a, y * c);
    MulAssoc(x, y, a * c);
    MulAssoc(y, a, c);
    MulAssoc(a, y, c);
  }

  lemma ScaledPositive(n: nat, e: nat)
    requires 0 < n
    ensures 0 < Scaled(n, e)
  {
    MulStrict(0, n, Pow2(e));
  }

  lemma ScaledTwice(n: nat, i: nat, j: nat)
    ensures Scaled(Scaled(n, i), j) == Scaled(n, i + j)
  {
    Pow2Add(i, j);
    MulAssoc(n, Pow2(i), Pow2(j));
  }

  lemma ProductOfScaled(x: nat, i: nat, y: nat, j: nat)
    ensures Product(Scaled(x, i), Scaled(y, j)) == Scaled(Product(x, y), i + j)
  {
    Pow2Add(i, j);
    Regroup(x, y, Pow2(i), Pow2(j));
  }

  lemma CancelScale(x: nat, y: nat, e: nat)
    requires Scaled(x, e) == Scaled(y, e)
    ensures x == y
  {
    MulCompare(x, y, Pow2(e));
  }
}
