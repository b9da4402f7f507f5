/** roundAndPackFloat32 and float32_div: the same rounding law at the narrower format. */
module Float32 {
  import opened Words
  import opened Ieee
  import opened IeeeRounding
  import opened FloatRounding
  import opened SoftFloat
  import opened NaNs

  predicate Sign32(a: u32) { 0x8000_0000 <= a }

  function Magnitude32(a: u32): (o: nat) {
    if Sign32(a) then a - 0x8000_0000 else a
  }

  /** packFloat32: its fields are added, so a significand may carry into the exponent. */
  function PackFloat32(zSign: bool, zExp: int, zSig: int): u32 {
    ((if zSign then 0x8000_0000 else 0) + zExp * 0x80_0000 + zSig) % 0x1_0000_0000
  }

  lemma PackedFields32(zSign: bool, zExp: int, zSig: int)
    requires 0 <= zExp * 0x80_0000 + zSig < 0x8000_0000
    ensures Sign32(PackFloat32(zSign, zExp, zSig)) == zSign
    ensures Magnitude32(PackFloat32(zSign, zExp, zSig)) == zExp * 0x80_0000 + zSig
  {
  }

  /** `z` encodes the exact result `(-1)^sign * num / den`, rounded once in the current mode. */
  ghost predicate IsRounded32(mode: RoundingMode, sign: bool, num: nat, den: nat, z: u32) {
    Sign32(z) == sign && BINARY32.CorrectlyRounded(Towards(mode, sign), num, den, Magnitude32(z))
  }

  ghost function Raised32(status: FloatStatus, sign: bool, num: nat, den: nat, z: u32): set<Exception>
    reads status
  {
    BINARY32.Raised(status.tininessBeforeRounding, Towards(status.roundingMode, sign), num, den, Magnitude32(z))
  }

  method Shift32RightJamming(a: u32, count: nat) returns (z: u32)
    ensures z == Jam(a, Pow2(count))
  {
    DivMod(a, Pow2(count));
    if count == 0 {
      z := a;
    } else if count < 32 {
      PowersOfTwo();
      BitsShiftedOut(a, count, 32);
      JamFits(a, Pow2(count));
      z := StickyBit(a / Pow2(count), (a * Pow2(32 - count)) % 0x1_0000_0000 != 0);
    } else {
      PowersOfTwo();
      Pow2Mono(32, count);
      ShiftedAway(a, Pow2(count));
      z := if a != 0 then 1 else 0;
    }
  }

  /** The rounded word: add, drop the low bits, clear the lowest bit on a tie. */
  function RoundWord32(mode: RoundingMode, zSign: bool, zSig: nat): nat {
    var m := (zSig + RoundIncrement(mode, zSign, 0x40)) / 0x80;
    if zSig % 0x80 == 0x40 && mode == NearestEven then m - m % 2 else m
  }

  lemma WordRounding32(mode: RoundingMode, zSign: bool, zSig: nat)
    ensures RoundWord32(mode, zSign, zSig) == RoundCell(Towards(mode, zSign), zSig / 0x40, zSig % 0x40 == 0)
    ensures zSig < 0x8000_0000 ==>
      (0x8000_0000 <= zSig + RoundIncrement(mode, zSign, 0x40)
       <==> 0x100_0000 <= RoundCell(Towards(mode, zSign), zSig / 0x40, zSig % 0x40 == 0))
  {
    hide RoundCell, RoundIncrement, RoundWord32;
    RoundedWord32(mode, zSign, zSig);
    if zSig < 0x8000_0000 { CarrySeen32(mode, zSign, zSig); }
  }

  lemma RoundedWord32(mode: RoundingMode, zSign: bool, zSig: nat)
    ensures RoundWord32(mode, zSign, zSig) == RoundCell(Towards(mode, zSign), zSig / 0x40, zSig % 0x40 == 0)
  {
    hide RoundCell, RoundIncrement;
    var q, r, inc := zSig / 0x80, zSig % 0x80, RoundIncrement(mode, zSign, 0x40);
    RoundByRemainder32(mode, zSign, q, r);
    HalfSteps32(zSig);
    IncrementSmall32(mode, zSign);
    Incremented32(zSig, inc);
  }

  lemma CarrySeen32(mode: RoundingMode, zSign: bool, zSig: nat)
    requires zSig < 0x8000_0000
    ensures 0x8000_0000 <= zSig + RoundIncrement(mode, zSign, 0x40)
      <==> 0x100_0000 <= RoundCell(Towards(mode, zSign), zSig / 0x40, zSig % 0x40 == 0)
  {
    hide RoundCell, RoundIncrement;
    var q, r, inc := zSig / 0x80, zSig % 0x80, RoundIncrement(mode, zSign, 0x40);
    RoundByRemainder32(mode, zSign, q, r);
    HalfSteps32(zSig);
    IncrementSmall32(mode, zSign);
    DivMod(zSig, 0x80);
    CarryOut32(zSig, inc, q, r);
    EvenBelow(q, 0x100_0000);
  }

  /** A word in steps of half a unit. */
  lemma HalfSteps32(zSig: nat)
    ensures zSig / 0x40 == (if zSig % 0x80 < 0x40 then 2 * (zSig / 0x80) else 2 * (zSig / 0x80) + 1)
    ensures zSig % 0x40 == 0 <==> zSig % 0x80 == 0 || zSig % 0x80 == 0x40
  {
    var q, r := zSig / 0x80, zSig % 0x80;
    DivMod(zSig, 0x80);
    if r < 0x40 { DivModIs(zSig, 0x40, 2 * q, r); } else { DivModIs(zSig, 0x40, 2 * q + 1, r - 0x40); }
  }

  lemma Incremented32(zSig: nat, inc: nat)
    requires inc < 0x80
    ensures (zSig + inc) / 0x80 == zSig / 0x80 + if zSig % 0x80 + inc < 0x80 then 0 else 1
  {
    var q, r := zSig / 0x80, zSig % 0x80;
    DivMod(zSig, 0x80);
    if r + inc < 0x80 { DivModIs(zSig + inc, 0x80, q, r + inc); }
    else { DivModIs(zSig + inc, 0x80, q + 1, r + inc - 0x80); }
  }

  lemma IncrementSmall32(mode: RoundingMode, zSign: bool)
    ensures 0 <= RoundIncrement(mode, zSign, 0x40) < 0x80
  {
  }

  lemma RoundByRemainder32(mode: RoundingMode, zSign: bool, q: nat, r: nat)
    requires r < 0x80
    ensures var m := if r + RoundIncrement(mode, zSign, 0x40) < 0x80 then q else q + 1;
      RoundCell(Towards(mode, zSign), if r < 0x40 then 2 * q else 2 * q + 1, r == 0 || r == 0x40)
        == if r == 0x40 && mode == NearestEven then m - m % 2 else m
  {
    DivModIs(2 * q, 2, q, 0);
    DivModIs(2 * q + 1, 2, q, 1);
  }

  lemma CarryOut32(zSig: nat, inc: nat, q: nat, r: nat)
    requires zSig == 0x80 * q + r && r < 0x80 && zSig < 0x8000_0000 && inc < 0x80
    ensures 0x8000_0000 <= zSig + inc <==> 0x100_0000 <= (if r + inc < 0x80 then q else q + 1)
  {
  }

  /** roundAndPackFloat32: the representable value the current mode prescribes, and exactly the
      exceptions IEEE 754-2008 asks for. */
  method RoundAndPackFloat32(status: FloatStatus, zSign: bool, zExp: int, zSig: u32, ghost num: nat, ghost den: nat)
    returns (z: u32)
    requires -0x8000 <= zExp < 0x8000 && zSig < 0x8000_0000
    requires Acceptable(BINARY32, zExp, zSig / 0x40, zSig % 0x40 == 0)
    requires StandsFor(zExp, zSig / 0x40, zSig % 0x40 == 0, num, den)
    modifies status`exceptionFlags
    ensures IsRounded32(status.roundingMode, zSign, num, den, z)
    ensures status.exceptionFlags == old(status.exceptionFlags) + Raised32(status, zSign, num, den, z)
  {
    z := RoundWordAndPack32(status, zSign, zExp, zSig);
    StandardFormats();
    PackingIsIeee(BINARY32, status.tininessBeforeRounding, Towards(status.roundingMode, zSign),
      zExp, zSig / 0x40, zSig % 0x40 == 0, num, den);
  }

  /** The part common to all results that do not overflow. */
  method PackRoundedWord32(status: FloatStatus, zSign: bool, zExp0: int, zSig0: u32)
    returns (z: u32)
    requires 0 <= zExp0 <= 0xFD && zSig0 < 0x8000_0000
    requires zExp0 == 0xFD ==> RoundWord32(status.roundingMode, zSign, zSig0) < 0x100_0000
    modifies status`exceptionFlags
    ensures Sign32(z) == zSign
    ensures var m := RoundWord32(status.roundingMode, zSign, zSig0);
      Magnitude32(z) == if m == 0 then 0 else zExp0 * 0x80_0000 + m
    ensures status.exceptionFlags == old(status.exceptionFlags) + (if zSig0 % 0x80 != 0 then {Inexact} else {})
  {
    var zExp, zSig, roundBits := zExp0, zSig0, zSig0 % 0x80;
    var roundNearestEven := status.roundingMode == NearestEven;
    if roundBits != 0 { status.Raise({Inexact}); }
    zSig := (zSig + RoundIncrement(status.roundingMode, zSign, 0x40)) / 0x80;
    if roundBits == 0x40 && roundNearestEven { zSig := zSig - zSig % 2; }
    if zSig == 0 { zExp := 0; }
    PackedFields32(zSign, zExp, zSig);
    z := PackFloat32(zSign, zExp, zSig);
  }

  lemma SubnormalOutcome32(beforeRounding: bool, direction: Direction, zExp: int, sig0: u32, sig: nat)
    requires zExp < 0 && sig == Jam(sig0, Pow2(-zExp))
    ensures PackedEncoding(BINARY32, direction, zExp, sig0 / 0x40, sig0 % 0x40 == 0)
      == RoundCell(direction, sig / 0x40, sig % 0x40 == 0)
    ensures PackedExceptions(BINARY32, beforeRounding, direction, zExp, sig0 / 0x40, sig0 % 0x40 == 0)
      == if sig % 0x80 == 0 then {}
         else if beforeRounding || zExp < -1 || RoundCell(direction, sig0 / 0x40, sig0 % 0x40 == 0) < 0x100_0000
         then {Underflow, Inexact} else {Inexact}
  {
    StandardFormats();
    JamKeepsCell(sig0, Pow2(-zExp), 0x40);
    assert sig % 0x80 == 0 <==> sig % 0x40 == 0 && (sig / 0x40) % 2 == 0;
  }

  lemma OverflowOutcome32(beforeRounding: bool, direction: Direction, zExp: int, sig: u32)
    requires OverflowBranch(BINARY32, direction, zExp, sig / 0x40, sig % 0x40 == 0)
    ensures PackedEncoding(BINARY32, direction, zExp, sig / 0x40, sig % 0x40 == 0)
      == if direction == TowardZero then 0x7F7F_FFFF else 0x7F80_0000
    ensures PackedExceptions(BINARY32, beforeRounding, direction, zExp, sig / 0x40, sig % 0x40 == 0)
      == {Overflow, Inexact}
  {
  }

  lemma NormalOutcome32(beforeRounding: bool, direction: Direction, zExp: int, sig: u32)
    requires 0 <= zExp && !OverflowBranch(BINARY32, direction, zExp, sig / 0x40, sig % 0x40 == 0)
    ensures var m := RoundCell(direction, sig / 0x40, sig % 0x40 == 0);
      PackedEncoding(BINARY32, direction, zExp, sig / 0x40, sig % 0x40 == 0)
        == if m == 0 then 0 else zExp * 0x80_0000 + m
    ensures PackedExceptions(BINARY32, beforeRounding, direction, zExp, sig / 0x40, sig % 0x40 == 0)
      == if sig % 0x80 == 0 then {} else {Inexact}
  {
    var c := sig / 0x40;
    assert c / 1 == c && c % 1 == 0;
  }

  method RoundWordAndPack32(status: FloatStatus, zSign: bool, zExp: int, zSig0: u32)
    returns (z: u32)
    requires -0x8000 <= zExp < 0x8000 && zSig0 < 0x8000_0000
    modifies status`exceptionFlags
    ensures Sign32(z) == zSign
    ensures Magnitude32(z)
      == PackedEncoding(BINARY32, Towards(status.roundingMode, zSign), zExp, zSig0 / 0x40, zSig0 % 0x40 == 0)
    ensures status.exceptionFlags == old(status.exceptionFlags)
      + PackedExceptions(BINARY32, status.tininessBeforeRounding, Towards(status.roundingMode, zSign),
          zExp, zSig0 / 0x40, zSig0 % 0x40 == 0)
  {
    hide PackedEncoding;
    hide PackedExceptions;
    hide Jam;
    var roundIncrement := RoundIncrement(status.roundingMode, zSign, 0x40);
    StandardFormats();
    WordRounding32(status.roundingMode, zSign, zSig0);
    if 0xFD < zExp || (zExp == 0xFD && 0x8000_0000 <= zSig0 + roundIncrement) {
      OverflowOutcome32(status.tininessBeforeRounding, Towards(status.roundingMode, zSign), zExp, zSig0);
      status.Raise({Overflow, Inexact});
      z := PackFloat32(zSign, 0xFF, if roundIncrement == 0 then -1 else 0);
      PackedFields32(zSign, 0xFF, if roundIncrement == 0 then -1 else 0);
    } else if zExp < 0 {
      var isTiny := status.tininessBeforeRounding || zExp < -1 || zSig0 + roundIncrement < 0x8000_0000;
      JamShrinks(zSig0, Pow2(-zExp));
      var zSig := Shift32RightJamming(zSig0, -zExp);
      WordRounding32(status.roundingMode, zSign, zSig);
      if isTiny && zSig % 0x80 != 0 { status.Raise({Underflow}); }
      z := PackRoundedWord32(status, zSign, 0, zSig);
      SubnormalOutcome32(status.tininessBeforeRounding, Towards(status.roundingMode, zSign), zExp, zSig0, zSig);
    } else {
      z := PackRoundedWord32(status, zSign, zExp, zSig0);
      NormalOutcome32(status.tininessBeforeRounding, Towards(status.roundingMode, zSign), zExp, zSig0);
    }
  }

  // Operands

  const DEFAULT_NAN32: u32 := 0xFFC0_0000

  function Frac32(a: u32): u32 {
    a % 0x80_0000
  }

  function Exp32(a: u32): int {
    (a / 0x80_0000) % 0x100
  }

  predicate IsNaN32(a: u32) {
    Exp32(a) == 0xFF && Frac32(a) != 0
  }

  predicate IsInfinite32(a: u32) {
    Exp32(a) == 0xFF && Frac32(a) == 0
  }

  // NaN operands.

  const QUIET_BIT32: u32 := 0x40_0000

  function Wrap32(x: int): u32 {
    x % 0x1_0000_0000
  }

  /** float32_is_quiet_nan. */
  predicate IsQuietNaN32(a: u32) {
    0xFF80_0000 <= Wrap32(2 * a)
  }

  /** float32_is_signaling_nan. */
  predicate IsSignalingNaN32(a: u32) {
    (a / 0x40_0000) % 0x200 == 0x1FE && a % 0x40_0000 != 0
  }

  lemma Doubled32(a: u32)
    ensures Wrap32(2 * a) == 2 * Magnitude32(a)
  {
  }

  lemma SignalingByMagnitude32(a: u32)
    ensures IsSignalingNaN32(a) <==> 0x7F80_0000 < Magnitude32(a) < 0x7FC0_0000
  {
    var m := Magnitude32(a);
    assert a / 0x40_0000 == m / 0x40_0000 + (if Sign32(a) then 0x200 else 0);
    assert a % 0x40_0000 == m % 0x40_0000;
    assert m / 0x40_0000 < 0x200;
  }

  lemma NaNKinds32(a: u32)
    ensures IsQuietNaN32(a) <==> 0x7FC0_0000 <= Magnitude32(a)
    ensures IsSignalingNaN32(a) <==> 0x7F80_0000 < Magnitude32(a) < 0x7FC0_0000
    ensures IsNaN32(a) <==> 0x7F80_0000 < Magnitude32(a)
    ensures Wrap32(2 * a) == 2 * Magnitude32(a)
  {
    Doubled32(a);
    SignalingByMagnitude32(a);
    FieldsOfMagnitude32(a);
    hide Wrap32, IsSignalingNaN32;
  }

  /** float32_maybe_silence_nan. */
  function Silenced32(a: u32): (r: u32)
    ensures IsNaN32(a) ==> IsQuietNaN32(r) && Sign32(r) == Sign32(a)
  {
    NaNKinds32(a);
    if IsSignalingNaN32(a) then
      NaNKinds32(a + QUIET_BIT32);
      a + QUIET_BIT32
    else a
  }

  function Larger32(a: u32, b: u32): u32 {
    if Magnitude32(b) < Magnitude32(a) || (Magnitude32(a) == Magnitude32(b) && !Sign32(a)) then a else b
  }

  /** The NaN of larger magnitude, made quiet. */
  function NaNResult32(defaultNaN: bool, a: u32, b: u32): (z: u32)
    ensures IsNaN32(a) || IsNaN32(b) ==> IsQuietNaN32(z)
  {
    NaNKinds32(a);
    NaNKinds32(b);
    NaNKinds32(DEFAULT_NAN32);
    if defaultNaN then DEFAULT_NAN32 else Silenced32(Larger32(a, b))
  }

  /** Of two operands with a NaN among them a NaN of no smaller magnitude comes back, a negative one only over
      another negative one if they are alike; sign and payload are kept. The default NaN has neither. */
  lemma LargerNaNWins32(a: u32, b: u32) returns (n: u32)
    requires IsNaN32(a) || IsNaN32(b)
    ensures NaNResult32(true, a, b) == 0xFFC0_0000
    ensures (n == a || n == b) && IsNaN32(n)
    ensures Magnitude32(a) <= Magnitude32(n) && Magnitude32(b) <= Magnitude32(n)
    ensures Magnitude32(a) == Magnitude32(b) && Sign32(n) ==> Sign32(a) && Sign32(b)
    ensures Sign32(NaNResult32(false, a, b)) == Sign32(n)
    ensures Frac32(NaNResult32(false, a, b)) % QUIET_BIT32 == Frac32(n) % QUIET_BIT32
  {
    n := Larger32(a, b);
    FieldsOfMagnitude32(a);
    FieldsOfMagnitude32(b);
    assert IsNaN32(n);
    hide IsNaN32, Magnitude32, Sign32;
  }

  function NaNExceptions32(a: u32, b: u32): (flags: set<Exception>)
    ensures flags <= {Invalid}
    ensures Invalid in flags
      <==> (IsNaN32(a) && Frac32(a) < QUIET_BIT32) || (IsNaN32(b) && Frac32(b) < QUIET_BIT32)
  {
    NaNKinds32(a);
    NaNKinds32(b);
    FieldsOfMagnitude32(a);
    FieldsOfMagnitude32(b);
    if IsSignalingNaN32(a) || IsSignalingNaN32(b) then {Invalid} else {}
  }

  /** propagateFloat32NaN. */
  method PropagateFloat32NaN(status: FloatStatus, a: u32, b: u32) returns (z: u32)
    requires IsNaN32(a) || IsNaN32(b)
    modifies status`exceptionFlags
    ensures z == NaNResult32(status.defaultNaN, a, b)
    ensures status.exceptionFlags == old(status.exceptionFlags) + NaNExceptions32(a, b)
  {
    var aQuiet, aSignaling := IsQuietNaN32(a), IsSignalingNaN32(a);
    var bQuiet, bSignaling := IsQuietNaN32(b), IsSignalingNaN32(b);
    if aSignaling || bSignaling {
      status.Raise({Invalid});
    }
    if status.defaultNaN {
      return DEFAULT_NAN32;
    }
    var aLarger := if Wrap32(2 * a) < Wrap32(2 * b) then false
      else if Wrap32(2 * b) < Wrap32(2 * a) then true else a < b;
    NaNKinds32(a);
    NaNKinds32(b);
    hide IsQuietNaN32, IsSignalingNaN32, IsNaN32, Wrap32, Silenced32;
    return if PickNaN(aQuiet, aSignaling, bQuiet, bSignaling, aLarger) == 1 then Silenced32(b) else Silenced32(a);
  }

  /** The magnitude of a finite number, in units of the smallest subnormal. */
  ghost function Units32(a: u32): nat {
    BINARY32.Units(Magnitude32(a))
  }

  lemma FieldsOfMagnitude32(a: u32)
    ensures Magnitude32(a) == Exp32(a) * 0x80_0000 + Frac32(a)
    ensures 0 <= Exp32(a) <= 0xFF && Frac32(a) < 0x80_0000
  {
  }

  /** `units == m * 2^(exp - 1)` with a full-width significand. */
  ghost predicate Normalised32(units: nat, exp: int, m: nat) {
    && 0x80_0000 <= m < 0x100_0000
    && -22 <= exp <= 0xFE
    && Scaled(m, exp + 22) == Scaled(units, 23)
  }

  lemma NormalOperand32(a: u32)
    requires 1 <= Exp32(a) <= 0xFE
    ensures Normalised32(Units32(a), Exp32(a), Frac32(a) + 0x80_0000)
  {
    FieldsOfMagnitude32(a);
    var e, m := Exp32(a), Frac32(a) + 0x80_0000;
    StandardFormats();
    UnitsOfNormal(BINARY32, e, Frac32(a));
    Pow2Add(e - 1, 23);
    MulAssoc(m, Pow2(e - 1), Pow2(23));
  }

  lemma SubnormalOperand32(a: u32, exp: int, m: nat)
    requires Exp32(a) == 0 && -22 <= exp <= 0 && m == Frac32(a) * Pow2(1 - exp)
    requires 0x80_0000 <= m < 0x100_0000
    ensures Normalised32(Units32(a), exp, m)
  {
    FieldsOfMagnitude32(a);
    Pow2Add(1 - exp, exp + 22);
    MulAssoc(Frac32(a), Pow2(1 - exp), Pow2(exp + 22));
  }

  function CountLeadingZeros32(a: u32): (n: nat)
    ensures n <= 32
    ensures a == 0 <==> n == 32
    ensures a != 0 ==> 0x8000_0000 <= a * Pow2(n) < 0x1_0000_0000
    decreases 0x1_0000_0000 - a
  {
    if a == 0 then 32
    else if 0x8000_0000 <= a then 0
    else
      var n := CountLeadingZeros32(2 * a);
      LeadingZerosStep32(a, n);
      n + 1
  }

  lemma LeadingZerosStep32(a: u32, n: nat)
    requires 0 < a && 2 * a * Pow2(n) < 0x1_0000_0000
    ensures a * Pow2(n + 1) == 2 * a * Pow2(n)
    ensures n < 31
  {
    MulAssoc(a, 2, Pow2(n));
    if 31 <= n {
      PowersOfTwo();
      Pow2Mono(31, n);
      assert Pow2(32) == 2 * Pow2(31);
      MulMono(2, 2 * a, Pow2(n));
    }
  }

  method NormalizeFloat32Subnormal(aSig: u32) returns (zExp: int, zSig: u32)
    requires 0 < aSig < 0x80_0000
    ensures 0x80_0000 <= zSig < 0x100_0000
    ensures -22 <= zExp <= 0 && zSig == aSig * Pow2(1 - zExp)
  {
    ShiftToHidden32(aSig);
    var shiftCount := CountLeadingZeros32(aSig) - 8;
    zSig := aSig * Pow2(shiftCount);
    zExp := 1 - shiftCount;
  }

  lemma ShiftToHidden32(aSig: u32)
    requires 0 < aSig < 0x80_0000
    ensures 9 <= CountLeadingZeros32(aSig) <= 31
    ensures 0x80_0000 <= aSig * Pow2(CountLeadingZeros32(aSig) - 8) < 0x100_0000
  {
    var n := CountLeadingZeros32(aSig);
    assert Pow2(8) == 0x100;
    if n <= 8 {
      Pow2Mono(n, 8);
      MulMono(Pow2(n), 0x100, aSig);
    } else {
      Pow2Add(n - 8, 8);
      MulAssoc(aSig, Pow2(n - 8), 0x100);
    }
  }

  method Unpack32(a: u32) returns (aExp: int, aSig: u32)
    requires Exp32(a) != 0xFF && Magnitude32(a) != 0
    ensures Normalised32(Units32(a), aExp, aSig)
  {
    FieldsOfMagnitude32(a);
    aExp, aSig := Exp32(a), Frac32(a);
    if aExp == 0 {
      aExp, aSig := NormalizeFloat32Subnormal(aSig);
      SubnormalOperand32(a, aExp, aSig);
    } else {
      NormalOperand32(a);
      aSig := aSig + 0x80_0000;
    }
  }

  // Division

  lemma CrossSignificands32(ua: nat, aExp: int, ma: nat, ub: nat, bExp: int, mb: nat)
    requires Normalised32(ua, aExp, ma) && Normalised32(ub, bExp, mb)
    ensures Scaled(Product(ma, ub), aExp + 22) == Scaled(Product(ua, mb), bExp + 22)
    ensures 0 < ua && 0 < ub
  {
    PositiveOperand32(ua, aExp, ma);
    PositiveOperand32(ub, bExp, mb);
    ProductOfScaled(ma, aExp + 22, ub, 23);
    ProductOfScaled(ua, 23, mb, bExp + 22);
    ScaledTwice(Product(ma, ub), aExp + 22, 23);
    ScaledTwice(Product(ua, mb), bExp + 22, 23);
    CancelScale(Scaled(Product(ma, ub), aExp + 22), Scaled(Product(ua, mb), bExp + 22), 23);
  }

  lemma PositiveOperand32(u: nat, exp: int, m: nat)
    requires Normalised32(u, exp, m)
    ensures 0 < u
  {
    ScaledPositive(m, exp + 22);
    assert Scaled(0, 23) == 0;
  }

  lemma QuotientStandsFor32(ua: nat, aExp: int, ma: nat, ub: nat, bExp: int, mb: nat,
                            zExp: int, k: nat, c: nat, onStep: bool)
    requires Normalised32(ua, aExp, ma) && Normalised32(ub, bExp, mb)
    requires zExp == aExp - bExp + 164 - k && k <= 100
    requires InCell(c, onStep, Scaled(ma, k), Scaled(mb, 14))
    ensures StandsFor(zExp, c, onStep, Scaled(ua, 149), ub)
  {
    hide Pow2, InCell, StandsFor;
    CrossSignificands32(ua, aExp, ma, ub, bExp, mb);
    Balance(Product(ma, ub), Product(ua, mb), aExp + 22, bExp + 22, k + UpShift(zExp), 164 + DownShift(zExp));
    ProductOfScaled(ua, 150, mb, 0);
    ScaledTwice(Product(ua, mb), 150, DownShift(zExp) + 14);
    TwiceScaled32(ua);
    StandsForByPowers(zExp, c, onStep, ma, k, mb, 14, Scaled(ua, 149), ub);
  }

  lemma TwiceScaled32(u: nat)
    ensures Scaled(u, 150) == 2 * Scaled(u, 149) && Pow2(0) == 1
  {
    ScaledTwice(u, 149, 1);
  }

  /** The sticky bit is only needed where the low bits are clear. */
  lemma QuotientCell32(q: nat, a: nat, b: nat)
    requires 0 < b && q * b <= a < q * b + b
    ensures var z := if q % 0x40 == 0 then StickyBit(q, a != q * b) else q;
      InCell(z / 0x40, z % 0x40 == 0, a, 0x40 * b)
  {
    CellWiden(q, a == q * b, a, b, 0x40);
    StickyBitKeepsCell(q, a != q * b, 0x40);
  }

  lemma AlignedDividend32(ma: nat, mb: nat)
    requires 0x80_0000 <= ma < 0x100_0000
    requires 0x80_0000 <= mb < 0x100_0000
    ensures var aSig, bSig := ma * 0x80, mb * 0x100;
      if bSig <= aSig + aSig then 2 * (aSig / 2) < bSig <= 4 * (aSig / 2) && aSig / 2 == ma * 0x40
      else 2 * aSig < bSig <= 4 * aSig
  {
    DivModIs(ma * 0x80, 2, ma * 0x40, 0);
    AlignedHalves32(ma * 0x40, ma * 0x80, mb * 0x100);
  }

  lemma AlignedHalves32(half: nat, aSig: nat, bSig: nat)
    requires aSig == 2 * half && 0x4000_0000 <= aSig < 0x8000_0000 <= bSig < 0x1_0000_0000
    ensures if bSig <= aSig + aSig then 2 * half < bSig <= 4 * half else 2 * aSig < bSig <= 4 * aSig
  {
  }

  lemma ShiftedSignificand32(m: nat)
    ensures m * 0x80 * TWO32 == Scaled(m, 39)
    ensures m * 0x40 * TWO32 == Scaled(m, 38)
    ensures 0x40 * (m * 0x100) == Scaled(m, 14)
  {
    PowersOfTwo();
    assert Pow2(6) == 0x40 && Pow2(7) == 0x80 && Pow2(14) == 0x4000;
    Pow2Add(6, 32);
    Pow2Add(7, 32);
  }

  /** The 32-bit quotient word, jammed. */
  method QuotientWord32(aSig: u32, bSig: u32) returns (zSig: u32)
    requires 0x8000_0000 <= bSig && 2 * aSig < bSig <= 4 * aSig
    ensures 0x4000_0000 <= zSig < 0x8000_0000
    ensures InCell(zSig / 0x40, zSig % 0x40 == 0, aSig * TWO32, 0x40 * bSig)
  {
    ghost var a := aSig * TWO32;
    DivMod(a, bSig);
    var q: nat := (aSig * TWO32) / bSig;
    QuotientRange32(q, a, bSig);
    QuotientCell32(q, a, bSig);
    zSig := q;
    if q % 0x40 == 0 {
      zSig := StickyBit(q, bSig * q != aSig * TWO32);
    }
  }

  lemma QuotientRange32(q: nat, a: nat, b: nat)
    requires 0 < b && 0x4000_0000 * b <= a && 2 * a < 0x1_0000_0000 * b && q * b <= a < q * b + b
    ensures 0x4000_0000 <= q < 0x8000_0000
  {
    if q < 0x4000_0000 { MulMono(q + 1, 0x4000_0000, b); Distribute(q, 1, b); }
    if 0x8000_0000 <= q { MulMono(0x8000_0000, q, b); }
  }

  /** float32_div. */
  method Float32Div(status: FloatStatus, a: u32, b: u32) returns (z: u32)
    modifies status`exceptionFlags
    ensures var zSign := Sign32(a) != Sign32(b);
      if IsNaN32(a) || IsNaN32(b) then
        z == NaNResult32(status.defaultNaN, a, b)
          && status.exceptionFlags == old(status.exceptionFlags) + NaNExceptions32(a, b)
      else if IsInfinite32(a) then
        if IsInfinite32(b) then z == DEFAULT_NAN32 && status.exceptionFlags == old(status.exceptionFlags) + {Invalid}
        else z == PackFloat32(zSign, 0xFF, 0) && status.exceptionFlags == old(status.exceptionFlags)
      else if IsInfinite32(b) then
        z == PackFloat32(zSign, 0, 0) && status.exceptionFlags == old(status.exceptionFlags)
      else if Magnitude32(b) == 0 then
        if Magnitude32(a) == 0 then z == DEFAULT_NAN32
          && status.exceptionFlags == old(status.exceptionFlags) + {Invalid}
        else z == PackFloat32(zSign, 0xFF, 0) && status.exceptionFlags == old(status.exceptionFlags) + {DivByZero}
      else
        IsRounded32(status.roundingMode, zSign, Scaled(Units32(a), 149), Units32(b), z) &&
        status.exceptionFlags
          == old(status.exceptionFlags) + Raised32(status, zSign, Scaled(Units32(a), 149), Units32(b), z)
  {
    FieldsOfMagnitude32(a);
    FieldsOfMagnitude32(b);
    var zSign := Sign32(a) != Sign32(b);
    if Exp32(a) == 0xFF {
      if Frac32(a) != 0 || (Exp32(b) == 0xFF && Frac32(b) != 0) {
        z := PropagateFloat32NaN(status, a, b);
        return;
      }
      if Exp32(b) == 0xFF {
        status.Raise({Invalid});
        return DEFAULT_NAN32;
      }
      return PackFloat32(zSign, 0xFF, 0);
    }
    if Exp32(b) == 0xFF {
      if Frac32(b) != 0 {
        z := PropagateFloat32NaN(status, a, b);
        return;
      }
      return PackFloat32(zSign, 0, 0);
    }
    if Exp32(b) == 0 && Frac32(b) == 0 {
      if Exp32(a) == 0 && Frac32(a) == 0 {
        status.Raise({Invalid});
        return DEFAULT_NAN32;
      }
      status.Raise({DivByZero});
      return PackFloat32(zSign, 0xFF, 0);
    }
    var bExp, bSig := Unpack32(b);
    if Exp32(a) == 0 && Frac32(a) == 0 {
      z := PackFloat32(zSign, 0, 0);
      ZeroQuotient32(status, zSign, a, b, z);
      return;
    }
    var aExp, aSig := Unpack32(a);
    z := DivideUnpacked32(status, zSign, aExp, aSig, bExp, bSig, Units32(a), Units32(b));
  }

  method DivideUnpacked32(status: FloatStatus, zSign: bool, aExp: int, aSig0: u32, bExp: int, bSig0: u32,
                          ghost ua: nat, ghost ub: nat)
    returns (z: u32)
    requires Normalised32(ua, aExp, aSig0) && Normalised32(ub, bExp, bSig0)
    modifies status`exceptionFlags
    ensures IsRounded32(status.roundingMode, zSign, Scaled(ua, 149), ub, z)
    ensures status.exceptionFlags == old(status.exceptionFlags) + Raised32(status, zSign, Scaled(ua, 149), ub, z)
  {
    var zExp := aExp - bExp + 0x7D;
    var aSig, bSig: u32 := aSig0 * 0x80, bSig0 * 0x100;
    ghost var k := 39;
    AlignedDividend32(aSig0, bSig0);
    if bSig <= aSig + aSig {
      aSig := aSig / 2;
      zExp := zExp + 1;
      k := 38;
    }
    ShiftedSignificand32(aSig0);
    ShiftedSignificand32(bSig0);
    var zSig := QuotientWord32(aSig, bSig);
    QuotientStandsFor32(ua, aExp, aSig0, ub, bExp, bSig0, zExp, k, zSig / 0x40, zSig % 0x40 == 0);
    z := RoundAndPackFloat32(status, zSign, zExp, zSig, Scaled(ua, 149), ub);
  }

  lemma ZeroQuotient32(status: FloatStatus, zSign: bool, a: u32, b: u32, z: u32)
    requires Magnitude32(a) == 0 && Magnitude32(b) != 0 && z == PackFloat32(zSign, 0, 0)
    ensures IsRounded32(status.roundingMode, zSign, Scaled(Units32(a), 149), Units32(b), z)
    ensures Raised32(status, zSign, Scaled(Units32(a), 149), Units32(b), z) == {}
  {
    UnitsMonotone(BINARY32, 1, Magnitude32(b));
    PackedFields32(zSign, 0, 0);
    assert Scaled(0, 149) == 0;
    StandardFormats();
    PackingIsIeee(BINARY32, status.tininessBeforeRounding, Towards(status.roundingMode, zSign), 0, 0, true, 0,
      Units32(b));
  }
}
