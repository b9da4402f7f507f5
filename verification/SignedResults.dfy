/** Sums and remainders as results on signed numbers. */
module SignedResults {
  import opened Words
  import opened Ieee
  import opened SoftFloat
  import opened Float64
  import opened SignedRounding
  import opened Addition
  import opened Remainder

  /** A finite number with a given sign. */
  ghost function WithSign(negative: bool, a: u64): int {
    Exact(negative, Units64(a))
  }

  lemma ValueIsUnits(a: u64)
    ensures Value64(a) == WithSign(Sign64(a), a)
  {
    hide Format.Units;
  }

  /** What the two addition routines owe is the exact signed sum, rounded once; an exact zero from operands of
      opposite signs is positive, except when rounding down, and from operands of one sign it keeps that sign. */
  lemma SumIsSigned(mode: RoundingMode, defaultNaN: bool, a: u64, bSign: bool, b: u64, z: u64)
    requires IsFinite64(a) && IsFinite64(b) && IsSum(mode, defaultNaN, a, bSign, b, z)
    ensures var x := Value64(a) + WithSign(bSign, b);
      && (x < 0 ==> IsRounded64(mode, true, -1 * x, 1, z))
      && (0 < x ==> IsRounded64(mode, false, x, 1, z))
      && (x == 0 && Sign64(a) != bSign ==> z == if mode == Down then 0x8000_0000_0000_0000 else 0)
      && (x == 0 && Sign64(a) == bSign ==> IsRounded64(mode, bSign, 0, 1, z))
  {
    hide IsRounded64, Units64;
    ValueIsUnits(a);
    ZeroWords();
  }

  lemma ZeroWords()
    ensures PackFloat64(true, 0, 0) == 0x8000_0000_0000_0000 && PackFloat64(false, 0, 0) == 0
  {
  }

  /** The remainder is the dividend less an integer multiple of the divisor, as signed numbers; the integer is the
      nearest to the quotient, even on a tie; and a zero takes the sign of the dividend. */
  lemma RemainderIsSigned(a: u64, b: u64, n: nat, z: u64) returns (k: int)
    requires IsFinite64(a) && IsFinite64(b) && Magnitude64(b) != 0 && IsRemainder(a, b, n, z)
    ensures Value64(z) == Value64(a) - k * Value64(b)
    ensures 2 * Gap(Value64(z), 0) <= Gap(Value64(b), 0)
    ensures 2 * Gap(Value64(z), 0) == Gap(Value64(b), 0) ==> k % 2 == 0
    ensures Value64(z) == 0 ==> Sign64(z) == Sign64(a)
  {
    k := if Sign64(a) == Sign64(b) then n else -1 * n;
    ValueIsUnits(a);
    ValueIsUnits(b);
    ValueIsUnits(z);
    hide Units64, Value64;
    Signs(Units64(a), Units64(b), n, Sign64(a), Sign64(b));
  }

  lemma Signs(a: nat, b: nat, n: nat, aSign: bool, bSign: bool)
    ensures Exact(aSign, a) - (if aSign == bSign then n else -1 * n) * Exact(bSign, b)
      == if aSign then -1 * (a - n * b) else a - n * b
  {
    Negated(n, b);
    Negated(b, n);
  }
}
