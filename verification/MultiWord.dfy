/** The multi-word arithmetic of softfloat-macros.h. */
module MultiWord {
  import opened Words

  const TWO128: int := 0x1_0000_0000_0000_0000_0000_0000_0000_0000

  /** A 128-bit sum or difference of two 128-bit values, with the carry or borrow out dropped. */
  function Wrap128(x: int): (r: int)
    requires -TWO128 <= x < 2 * TWO128
    ensures 0 <= r < TWO128
  {
    if x < 0 then x + TWO128 else if x < TWO128 then x else x - TWO128
  }

  lemma Wrap128IsModulo(x: int)
    requires -TWO128 <= x < 2 * TWO128
    ensures Wrap128(x) == x % TWO128
  {
  }

  method Add128(a0: u64, a1: u64, b0: u64, b1: u64) returns (z0: u64, z1: u64)
    ensures z0 * TWO64 + z1 == Wrap128(a0 * TWO64 + a1 + (b0 * TWO64 + b1))
  {
    z1 := Add64(a1, b1);
    z0 := Add64(Add64(a0, b0), if z1 < a1 then 1 else 0);
  }

  method Sub128(a0: u64, a1: u64, b0: u64, b1: u64) returns (z0: u64, z1: u64)
    ensures z0 * TWO64 + z1 == Wrap128(a0 * TWO64 + a1 - (b0 * TWO64 + b1))
  {
    z1 := Sub64(a1, b1);
    z0 := Sub64(Sub64(a0, b0), if a1 < b1 then 1 else 0);
  }

  lemma HalvesProduct(ah: u32, al: u32, bh: u32, bl: u32)
    ensures (ah * TWO32 + al) * (bh * TWO32 + bl) == (ah * bh) * TWO64 + (al * bh + ah * bl) * TWO32 + al * bl
  {
    var a := ah * TWO32 + al;
    calc {
      a * (bh * TWO32 + bl);
      a * (bh * TWO32) + a * bl;
      { assert a * (bh * TWO32) == (a * bh) * TWO32; }
      (a * bh) * TWO32 + a * bl;
      { assert a * bh == (ah * bh) * TWO32 + al * bh; assert a * bl == (ah * bl) * TWO32 + al * bl; }
      ((ah * bh) * TWO32 + al * bh) * TWO32 + (ah * bl) * TWO32 + al * bl;
    }
  }

  lemma HalfProductBound(x: u32, y: u32)
    ensures 0 <= x * y <= 0xFFFF_FFFE_0000_0001
  {
    MulMono(0, x, y);
    MulMono(x, 0xFFFF_FFFF, y);
  }

  lemma ProductFromHalves(a: u64, b: u64, hi: int, midA: int, midB: int, lo: int)
    requires var aLow, aHigh := a % 0x1_0000_0000, a / 0x1_0000_0000;
      var bLow, bHigh := b % 0x1_0000_0000, b / 0x1_0000_0000;
      hi == aHigh * bHigh && midA == aLow * bHigh && midB == aHigh * bLow && lo == aLow * bLow
    ensures a * b == hi * TWO64 + (midA + midB) * TWO32 + lo
    ensures 0 <= hi <= 0xFFFF_FFFE_0000_0001 && 0 <= lo <= 0xFFFF_FFFE_0000_0001
    ensures 0 <= midA <= 0xFFFF_FFFE_0000_0001 && 0 <= midB <= 0xFFFF_FFFE_0000_0001
    ensures a * b < TWO128
  {
    var aLow, aHigh := a % 0x1_0000_0000, a / 0x1_0000_0000;
    var bLow, bHigh := b % 0x1_0000_0000, b / 0x1_0000_0000;
    HalvesProduct(aHigh, aLow, bHigh, bLow);
    HalfProductBound(aLow, bLow); HalfProductBound(aLow, bHigh);
    HalfProductBound(aHigh, bLow); HalfProductBound(aHigh, bHigh);
  }

  method Mul64To128(a: u64, b: u64) returns (z0: u64, z1: u64)
    ensures z0 * TWO64 + z1 == a * b
  {
    var aLow, aHigh := a % 0x1_0000_0000, a / 0x1_0000_0000;
    var bLow, bHigh := b % 0x1_0000_0000, b / 0x1_0000_0000;
    ProductFromHalves(a, b, aHigh * bHigh, aLow * bHigh, aHigh * bLow, aLow * bLow);
    z0, z1 := AddPartialProducts(aHigh * bHigh, aLow * bHigh, aHigh * bLow, aLow * bLow);
  }

  /** The carry propagation in the second half of mul64To128. */
  method AddPartialProducts(hi: u64, midA: u64, midB: u64, lo: u64) returns (z0: u64, z1: u64)
    requires hi * TWO64 + (midA + midB) * TWO32 + lo < TWO128
    ensures z0 * TWO64 + z1 == hi * TWO64 + (midA + midB) * TWO32 + lo
  {
    z0, z1 := hi, lo;
    var zMiddleA, zMiddleB := Add64(midA, midB), midB;
    z0 := Add64(z0, (if zMiddleA < zMiddleB then 0x1_0000_0000 else 0) + zMiddleA / 0x1_0000_0000);
    zMiddleA := (zMiddleA % 0x1_0000_0000) * 0x1_0000_0000;
    z1 := Add64(z1, zMiddleA);
    z0 := Add64(z0, if z1 < zMiddleA then 1 else 0);
  }

  /** Dividing by the leading half `b / 2^32` of a normalised divisor gives a 32-bit quotient digit
      that is never too small and at most two too large. */
  function QuotientDigit(a0: u64, b: u64): (z: u32)
    requires TWO63 <= b
  {
    var b0 := b / 0x1_0000_0000;
    if b0 * 0x1_0000_0000 <= a0 then 0xFFFF_FFFF
    else
      DivMod(a0, b0);
      QuotientFits(a0, b0, a0 / b0);
      a0 / b0
  }

  lemma QuotientFits(x: int, d: int, q: int)
    requires 0 < d && q * d <= x < d * 0x1_0000_0000
    ensures q < 0x1_0000_0000
  {
    if 0x1_0000_0000 <= q {
      MulMono(0x1_0000_0000, q, d);
    }
  }

  lemma DigitIsClose(a0: u64, a1: u64, b: u64, d: int)
    requires TWO63 <= b && a0 < b && d == b * TWO32
    ensures a0 * TWO64 + a1 < QuotientDigit(a0, b) * d + d
    ensures QuotientDigit(a0, b) * d <= a0 * TWO64 + a1 + 2 * d
  {
    var b0, bLow := b / 0x1_0000_0000, b % 0x1_0000_0000;
    var z := QuotientDigit(a0, b);
    if a0 < b0 * 0x1_0000_0000 {
      DivMod(a0, b0);
      HalfProductBound(z, bLow);
      ProductBySplitting(z, b0, bLow, d);
    }
  }

  lemma ProductBySplitting(z: int, b0: int, bLow: int, d: int)
    requires d == (b0 * TWO32 + bLow) * TWO32
    ensures z * d == (z * b0) * TWO64 + (z * bLow) * TWO32
  {
    Distribute(b0 * TWO64, bLow * TWO32, z);
    MulAssoc(z, b0, TWO64);
    MulAssoc(z, bLow, TWO32);
  }

  /** `z` is at least the truncated quotient of `a` by `b`, and at most two above it. */
  ghost predicate WithinTwo(z: int, a: int, b: int) {
    z * b - 2 * b <= a < z * b + b
  }

  lemma WithinTwoOfQuotient(z: int, a: int, b: int)
    requires 0 < b && 0 <= a
    ensures WithinTwo(z, a, b) <==> a / b <= z <= a / b + 2
  {
    DivMod(a, b);
    var q := a / b;
    assert (q + 1) * b == q * b + b;
    if z <= q - 1 {
      MulMono(z, q - 1, b);
      assert (q - 1) * b == q * b - b;
    } else if q + 3 <= z {
      MulMono(q + 3, z, b);
      assert (q + 3) * b == q * b + 3 * b;
    } else {
      MulMono(q, z, b);
      MulMono(z, q + 2, b);
      assert (q + 2) * b == q * b + 2 * b;
    }
  }

  lemma ShiftedProduct(b: int, n: int)
    ensures b * (n * TWO32) == n * (b * TWO32)
  {
  }

  /** The two digits of the estimate, the first exact and the second at most two too large. */
  lemma CombineDigits(high: int, low: int, a: int, b: int, p: int)
    requires p == high * (b * TWO32)
    requires 0 <= a - p && low * (b * TWO32) <= (a - p) * TWO32 + 2 * (b * TWO32)
    requires (a - p) * TWO32 < low * (b * TWO32) + b * TWO32
    ensures WithinTwo(high * TWO32 + low, a, b)
  {
    ShiftedProduct(b, high);
    ShiftedProduct(b, low);
    assert (high * TWO32 + low) * b == p + low * b;
  }

  /** Bits 32 to 95 of a value below 2^96 held in two words. */
  lemma MiddleWord(t: int, rem0: u64, rem1: u64)
    requires rem0 * TWO64 + rem1 == t && 0 <= t < 0x1_0000_0000_0000_0000_0000_0000
    ensures ((rem0 % 0x1_0000_0000) * 0x1_0000_0000 + rem1 / 0x1_0000_0000) * TWO32 + rem1 % 0x1_0000_0000 == t
  {
  }

  method EstimateDiv128To64(a0: u64, a1: u64, b: u64) returns (z: u64)
    requires TWO63 <= b
    ensures b <= a0 ==> z == 0xFFFF_FFFF_FFFF_FFFF
    ensures a0 < b ==> WithinTwo(z, a0 * TWO64 + a1, b)
  {
    if b <= a0 { return 0xFFFF_FFFF_FFFF_FFFF; }
    ghost var a, d := a0 * TWO64 + a1, b * TWO32;
    var high := QuotientDigit(a0, b);
    DigitIsClose(a0, a1, b, d);
    z := high * 0x1_0000_0000;
    ghost var p := high * d;
    ShiftedProduct(b, high);
    var term0, term1 := Mul64To128(b, z);
    var rem0, rem1 := Sub128(a0, a1, term0, term1);
    high, p, rem0, rem1 := CorrectHighDigit(high, rem0, rem1, b, a, p);
    z := high * 0x1_0000_0000;
    MiddleWord(a - p, rem0, rem1);
    rem0 := (rem0 % 0x1_0000_0000) * 0x1_0000_0000 + rem1 / 0x1_0000_0000;
    DigitIsClose(rem0, (rem1 % 0x1_0000_0000) * TWO32, b, d);
    var low := QuotientDigit(rem0, b);
    CombineDigits(high, low, a, b, p);
    z := z + low;
  }

  lemma NonNegativeFactor(n: int, d: int, a: int)
    requires 0 <= a && 0 < d && a - n * d < d
    ensures 0 <= n
  {
    if n < 0 { MulMono(n, -1, d); }
  }

  /** The correction loop of estimateDiv128To64, which takes at most two turns. The digit
      `high` is the upper half of the word `z` of the original. */
  method CorrectHighDigit(high0: u32, r0: u64, r1: u64, b: u64, ghost a: int, ghost p0: int)
    returns (high: u32, ghost p: int, rem0: u64, rem1: u64)
    requires TWO63 <= b && 0 <= a && p0 == high0 * (b * TWO32)
    requires -2 * (b * TWO32) <= a - p0 < b * TWO32
    requires r0 * TWO64 + r1 == Wrap128(a - p0)
    ensures high0 - 2 <= high <= high0 && p == high * (b * TWO32)
    ensures rem0 * TWO64 + rem1 == a - p && 0 <= a - p < b * TWO32
  {
    ghost var d := b * TWO32;
    rem0, rem1 := r0, r1;
    p := p0;
    var z := high0 * 0x1_0000_0000;
    ghost var corrections := 0;
    while Negative64(rem0)
      invariant 0 <= corrections <= 2
      invariant z == (high0 - corrections) * 0x1_0000_0000
      invariant p == p0 - (if corrections == 0 then 0 else if corrections == 1 then d else 2 * d)
      invariant (if corrections == 0 then -2 * d else if corrections == 1 then -d else 0) <= a - p < d
      invariant rem0 * TWO64 + rem1 == if a < p then a - p + TWO128 else a - p
      decreases 2 - corrections
    {
      z := z - 0x1_0000_0000;
      var b1 := (b % 0x1_0000_0000) * 0x1_0000_0000;
      rem0, rem1 := Add128(rem0, rem1, b / 0x1_0000_0000, b1);
      p, corrections := p - d, corrections + 1;
    }
    ghost var h := high0 - corrections;
    Distribute(h, corrections, d);
    NonNegativeFactor(h, d, a);
    high := z / 0x1_0000_0000;
  }
}
