/** Results that are representable come out exactly, with no exception, whatever the rounding
    mode; and the normalising front end of rounding and packing. */
module ExactResults {
  import opened Words
  import opened Ieee
  import opened IeeeRounding
  import opened FloatRounding
  import opened SoftFloat
  import opened Float64

  /** A full-width significand at any exponent in range is a finite number. */
  lemma {:induction false} Representable(f: Format, m: nat, e: nat) returns (p: nat)
    requires StandardFormat(f) && m < 2 * f.hidden && e <= TopExponent(f)
    ensures p < f.infinity && f.Units(p) == Scaled(m, e)
    decreases e
  {
    if f.hidden <= m || e == 0 {
      p := e * f.hidden + m;
      EncodingFits(f, e, m);
      UnitsOfPacked(f, e, m);
    } else {
      p := Representable(f, 2 * m, e - 1);
      MulAssoc(m, 2, Pow2(e - 1));
    }
  }

  /** Rounding leaves a representable value alone. */
  lemma RepresentableIsExact(f: Format, beforeRounding: bool, direction: Direction, num: nat, o: nat, p: nat)
    requires StandardFormat(f) && p < f.infinity && f.Units(p) == num
    requires f.CorrectlyRounded(direction, num, 1, o)
    ensures o == p
    ensures f.Raised(beforeRounding, direction, num, 1, o) == {}
  {
    UnitsMonotone(f, p, f.infinity - 1);
    UnitsMonotone(f, f.infinity - 1, f.infinity);
    if o < p { UnitsMonotone(f, o, p); } else if p < o { UnitsMonotone(f, p, o); }
    assert f.Distance(num, 1, p) == 0;
  }

  lemma ExactWordCell(w: nat)
    ensures InCell(w / 0x200, w % 0x200 == 0, w, 0x200)
  {
    CellWiden(w, true, w, 1, 0x200);
  }

  lemma NormalisingShift(zSig: u64)
    requires zSig < 0x8000_0000_0000_0000
    ensures var s := CountLeadingZeros64(zSig) - 1;
      0 <= s <= 63 && (if zSig == 0 then Scaled(zSig, s) == 0
                       else 0x4000_0000_0000_0000 <= Scaled(zSig, s) < 0x8000_0000_0000_0000)
  {
    var n := CountLeadingZeros64(zSig);
    if zSig != 0 {
      if n != 0 { MulAssoc(zSig, 2, Pow2(n - 1)); MulAssoc(2, zSig, Pow2(n - 1)); }
    }
  }

  /** normalizeRoundAndPackFloat64. */
  method NormalizeRoundAndPackFloat64(status: FloatStatus, zSign: bool, zExp: int, zSig: u64,
                                      ghost num: nat, ghost den: nat)
    returns (z: u64)
    requires -0x1000 <= zExp <= 0x800 && zSig < 0x8000_0000_0000_0000
    requires var s := CountLeadingZeros64(zSig) - 1;
      0 <= s && StandsFor(zExp - s, Scaled(zSig, s) / 0x200, Scaled(zSig, s) % 0x200 == 0, num, den)
    modifies status`exceptionFlags
    ensures IsRounded64(status.roundingMode, zSign, num, den, z)
    ensures status.exceptionFlags == old(status.exceptionFlags) + Raised64(status, zSign, num, den, z)
  {
    NormalisingShift(zSig);
    StandardFormats();
    var shiftCount := CountLeadingZeros64(zSig) - 1;
    z := RoundAndPackFloat64(status, zSign, zExp - shiftCount, Scaled(zSig, shiftCount), num, den);
  }
}
