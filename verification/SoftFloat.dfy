/** Rounding and packing of double-precision results in softfloat.c: roundAndPackFloat64 and the parts it
    shares with the single-precision routine. The flush-to-zero modes are off. */
module SoftFloat {
  import opened Words
  import opened Ieee
  import opened IeeeRounding
  import opened FloatRounding

  /** The float_status fields the operations read and write. */
  class FloatStatus {
    var roundingMode: RoundingMode
    var tininessBeforeRounding: bool
    var defaultNaN: bool
    var exceptionFlags: set<Exception>

    constructor (mode: RoundingMode, beforeRounding: bool, defaultNaN: bool)
      ensures roundingMode == mode && tininessBeforeRounding == beforeRounding && this.defaultNaN == defaultNaN
      ensures exceptionFlags == {}
    {
      roundingMode, tininessBeforeRounding, this.defaultNaN, exceptionFlags := mode, beforeRounding, defaultNaN, {};
    }

    method Raise(flags: set<Exception>)
      modifies this`exceptionFlags
      ensures exceptionFlags == old(exceptionFlags) + flags
    {
      exceptionFlags := exceptionFlags + flags;
    }
  }

  function PackFloat64(zSign: bool, zExp: int, zSig: int): u64 {
    Wrap64((if zSign then 0x8000_0000_0000_0000 else 0) + zExp * 0x10_0000_0000_0000 + zSig)
  }

  predicate Sign64(a: u64) { 0x8000_0000_0000_0000 <= a }

  /** The encoding without its sign bit. */
  function Magnitude64(a: u64): (o: nat) {
    if Sign64(a) then a - 0x8000_0000_0000_0000 else a
  }

  /** `z` encodes the exact result `(-1)^sign * num / den`, rounded once in the current mode. */
  ghost predicate IsRounded64(mode: RoundingMode, sign: bool, num: nat, den: nat, z: u64) {
    Sign64(z) == sign && BINARY64.CorrectlyRounded(Towards(mode, sign), num, den, Magnitude64(z))
  }

  ghost function Raised64(status: FloatStatus, sign: bool, num: nat, den: nat, z: u64): set<Exception>
    reads status
  {
    BINARY64.Raised(status.tininessBeforeRounding, Towards(status.roundingMode, sign), num, den, Magnitude64(z))
  }

  lemma PowersOfTwo()
    ensures Pow2(32) == 0x1_0000_0000
    ensures Pow2(64) == 0x1_0000_0000_0000_0000
  {
    assert Pow2(8) == 0x100;
    Pow2Add(8, 8);
    Pow2Add(16, 16);
    Pow2Add(32, 32);
  }

  lemma BitsShiftedOut(a: nat, count: nat, width: nat)
    requires count <= width
    ensures (a * Pow2(width - count)) % Pow2(width) == 0 <==> a % Pow2(count) == 0
  {
    var x, y := Pow2(count), Pow2(width - count);
    Pow2Add(count, width - count);
    DivMod(a, x);
    Distribute((a / x) * x, a % x, y);
    MulAssoc(a / x, x, y);
    MulStrict(a % x, x, y);
    DivModIs(a * y, Pow2(width), a / x, (a % x) * y);
    if a % x != 0 { MulAtLeast(a % x, y); }
  }

  lemma JamFits(sig: nat, p: nat)
    requires 0 < p
    ensures StickyBit(sig / p, sig % p != 0) <= sig
  {
    DivMod(sig, p);
    if p == 1 { DivModIs(sig, 1, sig, 0); } else { MulMono(2, p, sig / p); }
  }

  lemma ShiftedAway(a: nat, p: nat)
    requires a < p
    ensures Jam(a, p) == if a == 0 then 0 else 1
  {
    DivModIs(a, p, 0, a);
  }

  lemma {:induction false} Pow2Mono(m: nat, n: nat)
    requires m <= n
    ensures Pow2(m) <= Pow2(n)
    decreases n - m
  {
    if m < n { Pow2Mono(m + 1, n); }
  }

  method Shift64RightJamming(a: u64, count: nat) returns (z: u64)
    ensures z == Jam(a, Pow2(count))
  {
    DivMod(a, Pow2(count));
    if count == 0 {
      z := a;
    } else if count < 64 {
      PowersOfTwo();
      BitsShiftedOut(a, count, 64);
      JamFits(a, Pow2(count));
      z := StickyBit(a / Pow2(count), Wrap64(a * Pow2(64 - count)) != 0);
    } else {
      PowersOfTwo();
      Pow2Mono(64, count);
      ShiftedAway(a, Pow2(count));
      z := if a != 0 then 1 else 0;
    }
  }

  /** What is added to the significand word before its low bits are dropped; `half` is half a
      unit in the last place. */
  function RoundIncrement(mode: RoundingMode, zSign: bool, half: nat): nat
    requires 1 <= half
  {
    if mode == NearestEven then half
    else if mode == ToZero then 0
    else if zSign then (if mode == Up then 0 else 2 * half - 1)
    else (if mode == Down then 0 else 2 * half - 1)
  }

  /** The rounded word: add, drop the low bits, clear the lowest bit on a tie. */
  function RoundWord64(mode: RoundingMode, zSign: bool, zSig: nat): nat {
    var m := (zSig + RoundIncrement(mode, zSign, 0x200)) / 0x400;
    if zSig % 0x400 == 0x200 && mode == NearestEven then m - m % 2 else m
  }

  lemma WordRounding64(mode: RoundingMode, zSign: bool, zSig: nat)
    ensures RoundWord64(mode, zSign, zSig)
      == RoundCell(Towards(mode, zSign), zSig / 0x200, zSig % 0x200 == 0)
    ensures zSig < 0x8000_0000_0000_0000 ==>
      (0x8000_0000_0000_0000 <= zSig + RoundIncrement(mode, zSign, 0x200)
       <==> 0x20_0000_0000_0000 <= RoundCell(Towards(mode, zSign), zSig / 0x200, zSig % 0x200 == 0))
  {
    hide RoundCell, RoundIncrement, RoundWord64;
    RoundedWord64(mode, zSign, zSig);
    if zSig < 0x8000_0000_0000_0000 { CarrySeen64(mode, zSign, zSig); }
  }

  lemma RoundedWord64(mode: RoundingMode, zSign: bool, zSig: nat)
    ensures RoundWord64(mode, zSign, zSig)
      == RoundCell(Towards(mode, zSign), zSig / 0x200, zSig % 0x200 == 0)
  {
    hide RoundCell, RoundIncrement;
    var q, r, inc := zSig / 0x400, zSig % 0x400, RoundIncrement(mode, zSign, 0x200);
    RoundByRemainder(mode, zSign, q, r);
    HalfSteps64(zSig);
    IncrementSmall(mode, zSign);
    Incremented(zSig, inc);
  }

  lemma CarrySeen64(mode: RoundingMode, zSign: bool, zSig: nat)
    requires zSig < 0x8000_0000_0000_0000
    ensures 0x8000_0000_0000_0000 <= zSig + RoundIncrement(mode, zSign, 0x200)
      <==> 0x20_0000_0000_0000 <= RoundCell(Towards(mode, zSign), zSig / 0x200, zSig % 0x200 == 0)
  {
    hide RoundCell, RoundIncrement;
    var q, r, inc := zSig / 0x400, zSig % 0x400, RoundIncrement(mode, zSign, 0x200);
    RoundByRemainder(mode, zSign, q, r);
    HalfSteps64(zSig);
    IncrementSmall(mode, zSign);
    DivMod(zSig, 0x400);
    CarryOut(zSig, inc, q, r);
    EvenBelow(q, 0x20_0000_0000_0000);
  }

  /** Clearing the lowest bit does not cross an even bound. */
  lemma EvenBelow(q: nat, bound: nat)
    ensures bound % 2 == 0 ==> (bound <= q <==> bound <= q - q % 2)
    ensures bound % 2 == 0 ==> (bound <= q + 1 <==> bound <= (q + 1) - (q + 1) % 2)
  {
  }

  /** A word in steps of half a unit. */
  lemma HalfSteps64(zSig: nat)
    ensures zSig / 0x200 == (if zSig % 0x400 < 0x200 then 2 * (zSig / 0x400) else 2 * (zSig / 0x400) + 1)
    ensures zSig % 0x200 == 0 <==> zSig % 0x400 == 0 || zSig % 0x400 == 0x200
  {
    var q, r := zSig / 0x400, zSig % 0x400;
    DivMod(zSig, 0x400);
    if r < 0x200 { DivModIs(zSig, 0x200, 2 * q, r); } else { DivModIs(zSig, 0x200, 2 * q + 1, r - 0x200); }
  }

  lemma Incremented(zSig: nat, inc: nat)
    requires inc < 0x400
    ensures (zSig + inc) / 0x400 == zSig / 0x400 + if zSig % 0x400 + inc < 0x400 then 0 else 1
  {
    var q, r := zSig / 0x400, zSig % 0x400;
    DivMod(zSig, 0x400);
    if r + inc < 0x400 { DivModIs(zSig + inc, 0x400, q, r + inc); }
    else { DivModIs(zSig + inc, 0x400, q + 1, r + inc - 0x400); }
  }

  lemma IncrementSmall(mode: RoundingMode, zSign: bool)
    ensures 0 <= RoundIncrement(mode, zSign, 0x200) < 0x400
  {
  }

  lemma RoundByRemainder(mode: RoundingMode, zSign: bool, q: nat, r: nat)
    requires r < 0x400
    ensures var m := if r + RoundIncrement(mode, zSign, 0x200) < 0x400 then q else q + 1;
      RoundCell(Towards(mode, zSign), if r < 0x200 then 2 * q else 2 * q + 1, r == 0 || r == 0x200)
        == if r == 0x200 && mode == NearestEven then m - m % 2 else m
  {
    DivModIs(2 * q, 2, q, 0);
    DivModIs(2 * q + 1, 2, q, 1);
  }

  lemma CarryOut(zSig: nat, inc: nat, q: nat, r: nat)
    requires zSig == 0x400 * q + r && r < 0x400 && zSig < 0x8000_0000_0000_0000 && inc < 0x400
    ensures 0x8000_0000_0000_0000 <= zSig + inc <==> 0x20_0000_0000_0000 <= (if r + inc < 0x400 then q else q + 1)
  {
  }

  lemma PackedFields64(zSign: bool, zExp: int, zSig: int)
    requires 0 <= zExp * 0x10_0000_0000_0000 + zSig < 0x8000_0000_0000_0000
    ensures Sign64(PackFloat64(zSign, zExp, zSig)) == zSign
    ensures Magnitude64(PackFloat64(zSign, zExp, zSig)) == zExp * 0x10_0000_0000_0000 + zSig
  {
  }

  method RoundAndPackFloat64(status: FloatStatus, zSign: bool, zExp0: int, zSig0: u64, ghost num: nat, ghost den: nat)
    returns (z: u64)
    requires -0x8000 <= zExp0 < 0x8000 && zSig0 < 0x8000_0000_0000_0000
    requires Acceptable(BINARY64, zExp0, zSig0 / 0x200, zSig0 % 0x200 == 0)
    requires StandsFor(zExp0, zSig0 / 0x200, zSig0 % 0x200 == 0, num, den)
    modifies status`exceptionFlags
    ensures IsRounded64(status.roundingMode, zSign, num, den, z)
    ensures status.exceptionFlags == old(status.exceptionFlags) + Raised64(status, zSign, num, den, z)
  {
    z := RoundWordAndPack64(status, zSign, zExp0, zSig0);
    StandardFormats();
    PackingIsIeee(BINARY64, status.tininessBeforeRounding, Towards(status.roundingMode, zSign),
      zExp0, zSig0 / 0x200, zSig0 % 0x200 == 0, num, den);
  }

  /** The part common to all results that do not overflow. */
  method PackRoundedWord64(status: FloatStatus, zSign: bool, zExp0: int, zSig0: u64)
    returns (z: u64)
    requires 0 <= zExp0 <= 0x7FD && zSig0 < 0x8000_0000_0000_0000
    requires zExp0 == 0x7FD ==> RoundWord64(status.roundingMode, zSign, zSig0) < 0x20_0000_0000_0000
    modifies status`exceptionFlags
    ensures Sign64(z) == zSign
    ensures var m := RoundWord64(status.roundingMode, zSign, zSig0);
      Magnitude64(z) == if m == 0 then 0 else zExp0 * 0x10_0000_0000_0000 + m
    ensures status.exceptionFlags == old(status.exceptionFlags) + (if zSig0 % 0x400 != 0 then {Inexact} else {})
  {
    var zExp, zSig, roundBits := zExp0, zSig0, zSig0 % 0x400;
    var roundNearestEven := status.roundingMode == NearestEven;
    if roundBits != 0 { status.Raise({Inexact}); }
    zSig := (zSig + RoundIncrement(status.roundingMode, zSign, 0x200)) / 0x400;
    if roundBits == 0x200 && roundNearestEven { zSig := zSig - zSig % 2; }
    if zSig == 0 { zExp := 0; }
    PackedFields64(zSign, zExp, zSig);
    z := PackFloat64(zSign, zExp, zSig);
  }

  /** The outcome of the subnormal branch, read off the shifted word `sig`. */
  lemma SubnormalOutcome64(beforeRounding: bool, direction: Direction, zExp: int, sig0: u64, sig: nat)
    requires zExp < 0 && sig == Jam(sig0, Pow2(-zExp))
    ensures PackedEncoding(BINARY64, direction, zExp, sig0 / 0x200, sig0 % 0x200 == 0)
      == RoundCell(direction, sig / 0x200, sig % 0x200 == 0)
    ensures PackedExceptions(BINARY64, beforeRounding, direction, zExp, sig0 / 0x200, sig0 % 0x200 == 0)
      == if sig % 0x400 == 0 then {}
         else if beforeRounding || zExp < -1
           || RoundCell(direction, sig0 / 0x200, sig0 % 0x200 == 0) < 0x20_0000_0000_0000
         then {Underflow, Inexact} else {Inexact}
  {
    StandardFormats();
    JamKeepsCell(sig0, Pow2(-zExp), 0x200);
    assert sig % 0x400 == 0 <==> sig % 0x200 == 0 && (sig / 0x200) % 2 == 0;
  }

  lemma OverflowOutcome64(beforeRounding: bool, direction: Direction, zExp: int, sig: u64)
    requires OverflowBranch(BINARY64, direction, zExp, sig / 0x200, sig % 0x200 == 0)
    ensures PackedEncoding(BINARY64, direction, zExp, sig / 0x200, sig % 0x200 == 0)
      == if direction == TowardZero then 0x7FEF_FFFF_FFFF_FFFF else 0x7FF0_0000_0000_0000
    ensures PackedExceptions(BINARY64, beforeRounding, direction, zExp, sig / 0x200, sig % 0x200 == 0)
      == {Overflow, Inexact}
  {
  }

  lemma NormalOutcome64(beforeRounding: bool, direction: Direction, zExp: int, sig: u64)
    requires 0 <= zExp && !OverflowBranch(BINARY64, direction, zExp, sig / 0x200, sig % 0x200 == 0)
    ensures var m := RoundCell(direction, sig / 0x200, sig % 0x200 == 0);
      PackedEncoding(BINARY64, direction, zExp, sig / 0x200, sig % 0x200 == 0)
        == if m == 0 then 0 else zExp * 0x10_0000_0000_0000 + m
    ensures PackedExceptions(BINARY64, beforeRounding, direction, zExp, sig / 0x200, sig % 0x200 == 0)
      == if sig % 0x400 == 0 then {} else {Inexact}
  {
    var c := sig / 0x200;
    assert c / 1 == c && c % 1 == 0;
  }

  method RoundWordAndPack64(status: FloatStatus, zSign: bool, zExp: int, zSig0: u64)
    returns (z: u64)
    requires -0x8000 <= zExp < 0x8000 && zSig0 < 0x8000_0000_0000_0000
    modifies status`exceptionFlags
    ensures Sign64(z) == zSign
    ensures Magnitude64(z) == PackedEncoding(BINARY64, Towards(status.roundingMode, zSign),
                                zExp, zSig0 / 0x200, zSig0 % 0x200 == 0)
    ensures status.exceptionFlags == old(status.exceptionFlags)
      + PackedExceptions(BINARY64, status.tininessBeforeRounding, Towards(status.roundingMode, zSign),
          zExp, zSig0 / 0x200, zSig0 % 0x200 == 0)
  {
    hide PackedEncoding;
    hide PackedExceptions;
    hide Jam;
    var roundIncrement := RoundIncrement(status.roundingMode, zSign, 0x200);
    StandardFormats();
    WordRounding64(status.roundingMode, zSign, zSig0);
    if 0x7FD < zExp || (zExp == 0x7FD && Negative64(zSig0 + roundIncrement)) {
      OverflowOutcome64(status.tininessBeforeRounding, Towards(status.roundingMode, zSign), zExp, zSig0);
      status.Raise({Overflow, Inexact});
      z := PackFloat64(zSign, 0x7FF, if roundIncrement == 0 then -1 else 0);
      PackedFields64(zSign, 0x7FF, if roundIncrement == 0 then -1 else 0);
    } else if zExp < 0 {
      var isTiny := status.tininessBeforeRounding || zExp < -1 || zSig0 + roundIncrement < 0x8000_0000_0000_0000;
      JamShrinks(zSig0, Pow2(-zExp));
      var zSig := Shift64RightJamming(zSig0, -zExp);
      WordRounding64(status.roundingMode, zSign, zSig);
      if isTiny && zSig % 0x400 != 0 { status.Raise({Underflow}); }
      z := PackRoundedWord64(status, zSign, 0, zSig);
      SubnormalOutcome64(status.tininessBeforeRounding, Towards(status.roundingMode, zSign), zExp, zSig0, zSig);
    } else {
      z := PackRoundedWord64(status, zSign, zExp, zSig0);
      NormalOutcome64(status.tininessBeforeRounding, Towards(status.roundingMode, zSign), zExp, zSig0);
    }
  }

  lemma JamShrinks(sig: nat, p: nat)
    requires 2 <= p
    ensures Jam(sig, p) <= sig
  {
    DivMod(sig, p);
    MulMono(2, p, sig / p);
  }
}
