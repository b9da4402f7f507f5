/** Double-precision NaN operands: which NaN an operation returns, and when it is invalid. */
module NaNs {
  import opened Words
  import opened Ieee
  import opened SoftFloat
  import opened Float64

  const QUIET_BIT: u64 := 0x8_0000_0000_0000

  /** float64_is_quiet_nan. */
  predicate IsQuietNaN64(a: u64) {
    0xFFF0_0000_0000_0000 <= Wrap64(2 * a)
  }

  /** float64_is_signaling_nan. */
  predicate IsSignalingNaN64(a: u64) {
    (a / 0x8_0000_0000_0000) % 0x1000 == 0xFFE && a % 0x8_0000_0000_0000 != 0
  }

  /** The two tests divide the NaNs by the leading bit of the fraction. */
  lemma NaNKinds(a: u64)
    ensures IsQuietNaN64(a) <==> IsNaN64(a) && QUIET_BIT <= Frac64(a)
    ensures IsSignalingNaN64(a) <==> IsNaN64(a) && Frac64(a) < QUIET_BIT
  {
    FieldsOfMagnitude(a);
    QuietByMagnitude(a);
    SignalingByMagnitude(a);
  }

  lemma QuietByMagnitude(a: u64)
    ensures IsQuietNaN64(a) <==> 0x7FF8_0000_0000_0000 <= Magnitude64(a)
  {
    if Sign64(a) { Wrap64Is(2 * a, 1, 2 * Magnitude64(a)); } else { Wrap64Is(2 * a, 0, 2 * a); }
  }

  lemma SignalingByMagnitude(a: u64)
    ensures IsSignalingNaN64(a) <==> 0x7FF0_0000_0000_0000 < Magnitude64(a) < 0x7FF8_0000_0000_0000
  {
    var m := Magnitude64(a);
    assert a / 0x8_0000_0000_0000 == m / 0x8_0000_0000_0000 + (if Sign64(a) then 0x1000 else 0);
    assert a % 0x8_0000_0000_0000 == m % 0x8_0000_0000_0000;
    assert m / 0x8_0000_0000_0000 < 0x1000;
  }

  lemma NaNByMagnitude(a: u64)
    ensures IsNaN64(a) <==> 0x7FF0_0000_0000_0000 < Magnitude64(a)
  {
    FieldsOfMagnitude(a);
  }

  /** float64_maybe_silence_nan. */
  function Silenced64(a: u64): (r: u64)
    ensures IsNaN64(a) ==> IsQuietNaN64(r) && Sign64(r) == Sign64(a) && Frac64(r) % QUIET_BIT == Frac64(a) % QUIET_BIT
  {
    NaNByMagnitude(a);
    QuietByMagnitude(a);
    SignalingByMagnitude(a);
    if IsSignalingNaN64(a) then
      QuietByMagnitude(a + QUIET_BIT);
      a + QUIET_BIT
    else a
  }

  /** pickNaN for the x87, which returns 1 for the second operand. */
  function PickNaN(aQuiet: bool, aSignaling: bool, bQuiet: bool, bSignaling: bool, aLarger: bool): nat {
    if aSignaling then
      if bSignaling then (if aLarger then 0 else 1) else if bQuiet then 1 else 0
    else if aQuiet then
      if bSignaling || !bQuiet then 0 else if aLarger then 0 else 1
    else 1
  }

  /** The operand of larger magnitude, and of two alike the positive one. */
  function Larger64(a: u64, b: u64): u64 {
    if Magnitude64(b) < Magnitude64(a) || (Magnitude64(a) == Magnitude64(b) && !Sign64(a)) then a else b
  }

  /** What an operation with a NaN operand returns. The rules of the x87 come to this: of the operands, the one
      of larger magnitude, made quiet. */
  function NaNResult64(defaultNaN: bool, a: u64, b: u64): (z: u64)
    ensures IsNaN64(a) || IsNaN64(b) ==> IsQuietNaN64(z)
  {
    NaNByMagnitude(a);
    NaNByMagnitude(b);
    QuietByMagnitude(DEFAULT_NAN);
    if defaultNaN then DEFAULT_NAN else Silenced64(Larger64(a, b))
  }

  /** Section 7.2: only signaling NaNs are invalid. */
  function NaNExceptions64(a: u64, b: u64): (flags: set<Exception>)
    ensures flags <= {Invalid}
    ensures Invalid in flags
      <==> (IsNaN64(a) && Frac64(a) < QUIET_BIT) || (IsNaN64(b) && Frac64(b) < QUIET_BIT)
  {
    NaNKinds(a);
    NaNKinds(b);
    if IsSignalingNaN64(a) || IsSignalingNaN64(b) then {Invalid} else {}
  }

  /** Of two operands with a NaN among them a NaN of no smaller magnitude comes back, a negative one only over
      another negative one if they are alike; sign and payload are kept. The default NaN has neither. */
  lemma LargerNaNWins64(a: u64, b: u64) returns (n: u64)
    requires IsNaN64(a) || IsNaN64(b)
    ensures NaNResult64(true, a, b) == 0xFFF8_0000_0000_0000
    ensures (n == a || n == b) && IsNaN64(n)
    ensures Magnitude64(a) <= Magnitude64(n) && Magnitude64(b) <= Magnitude64(n)
    ensures Magnitude64(a) == Magnitude64(b) && Sign64(n) ==> Sign64(a) && Sign64(b)
    ensures Sign64(NaNResult64(false, a, b)) == Sign64(n)
    ensures Frac64(NaNResult64(false, a, b)) % QUIET_BIT == Frac64(n) % QUIET_BIT
  {
    n := Larger64(a, b);
    NaNByMagnitude(a);
    NaNByMagnitude(b);
  }

  /** The order of the operands matters only for which of two equal NaNs is returned, so not at all. */
  lemma NaNResultCommutes(defaultNaN: bool, a: u64, b: u64)
    ensures NaNResult64(defaultNaN, a, b) == NaNResult64(defaultNaN, b, a)
  {
  }

  /** propagateFloat64NaN. */
  method PropagateFloat64NaN(status: FloatStatus, a: u64, b: u64) returns (z: u64)
    requires IsNaN64(a) || IsNaN64(b)
    modifies status`exceptionFlags
    ensures z == NaNResult64(status.defaultNaN, a, b)
    ensures status.exceptionFlags == old(status.exceptionFlags) + NaNExceptions64(a, b)
  {
    var aQuiet, aSignaling := IsQuietNaN64(a), IsSignalingNaN64(a);
    var bQuiet, bSignaling := IsQuietNaN64(b), IsSignalingNaN64(b);
    if aSignaling || bSignaling {
      status.Raise({Invalid});
    }
    if status.defaultNaN {
      return DEFAULT_NAN;
    }
    var aLarger := if Wrap64(2 * a) < Wrap64(2 * b) then false
      else if Wrap64(2 * b) < Wrap64(2 * a) then true else a < b;
    PickIsLarger(a, b);
    return if PickNaN(aQuiet, aSignaling, bQuiet, bSignaling, aLarger) == 1 then Silenced64(b) else Silenced64(a);
  }

  lemma Doubled(a: u64)
    ensures Wrap64(2 * a) == 2 * Magnitude64(a)
  {
    if Sign64(a) { Wrap64Is(2 * a, 1, 2 * Magnitude64(a)); } else { Wrap64Is(2 * a, 0, 2 * a); }
  }

  lemma PickIsLarger(a: u64, b: u64)
    requires IsNaN64(a) || IsNaN64(b)
    ensures var aLarger := if Wrap64(2 * a) < Wrap64(2 * b) then false
      else if Wrap64(2 * b) < Wrap64(2 * a) then true else a < b;
      var picked := PickNaN(IsQuietNaN64(a), IsSignalingNaN64(a), IsQuietNaN64(b), IsSignalingNaN64(b), aLarger);
      Larger64(a, b) == if picked == 1
        then b else a
  {
    Doubled(a);
    Doubled(b);
    NaNByMagnitude(a);
    NaNByMagnitude(b);
    QuietByMagnitude(a);
    QuietByMagnitude(b);
    SignalingByMagnitude(a);
    SignalingByMagnitude(b);
    hide IsQuietNaN64, IsSignalingNaN64, IsNaN64, Wrap64;
  }
}
