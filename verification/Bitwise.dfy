/** Bitwise conjunction of numbers, and the masks made from powers of two. */
module Bitwise {
  import opened Words

  /** `x & y`. */
  function And(x: nat, y: nat): (r: nat)
    decreases x
  {
    if x == 0 || y == 0 then 0 else (if x % 2 == 1 && y % 2 == 1 then 1 else 0) + 2 * And(x / 2, y / 2)
  }

  predicate IsPowerOfTwo(n: nat)
    ensures IsPowerOfTwo(n) ==> 0 < n
  {
    n == 1 || (0 < n && n % 2 == 0 && IsPowerOfTwo(n / 2))
  }

  lemma {:induction false} AndItself(x: nat)
    ensures And(x, x) == x
    decreases x
  {
    if x != 0 { AndItself(x / 2); }
  }

  /** `n & (n - 1)` is zero exactly for the powers of two, of the numbers that are not zero. */
  lemma {:induction false} PowerTest(n: nat)
    requires 0 < n
    ensures And(n, n - 1) == 0 <==> IsPowerOfTwo(n)
    decreases n
  {
    if n % 2 == 0 {
      PowerTest(n / 2);
      assert (n - 1) / 2 == n / 2 - 1;
    } else if n != 1 {
      AndItself(n / 2);
      assert (n - 1) / 2 == n / 2;
    }
  }

  lemma HalfRemainder(a: nat, h: nat)
    requires 0 < h
    ensures a % (2 * h) == 2 * (a / 2 % h) + a % 2
  {
    var q, r := a / 2 / h, a / 2 % h;
    DivMod(a / 2, h);
    MulAssoc(q, 2, h);
    assert a == 2 * (a / 2) + a % 2;
    assert a == q * (2 * h) + (2 * r + a % 2);
    DivModIs(a, 2 * h, q, 2 * r + a % 2);
  }

  lemma AndOdd(a: nat, m: nat)
    ensures And(a, 2 * m + 1) == a % 2 + 2 * And(a / 2, m)
  {
    assert (2 * m + 1) / 2 == m && (2 * m + 1) % 2 == 1;
  }

  /** Below a power of two, `a & (n - 1)` is the remainder. */
  lemma {:induction false} MaskIsRemainder(a: nat, n: nat)
    requires IsPowerOfTwo(n)
    ensures And(a, n - 1) == a % n
    decreases n
  {
    if n != 1 {
      var h := n / 2;
      MaskIsRemainder(a / 2, h);
      HalfRemainder(a, h);
      AndOdd(a, h - 1);
      assert n == 2 * h && n - 1 == 2 * (h - 1) + 1;
    }
  }
}
