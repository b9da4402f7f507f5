/** Which values survive being written and read. */
module ValueSurvival {
  import opened Values
  import opened ValueReader
  import opened ValueRoundTrip
  import opened ValueLimits
  import opened ValueAlignment

  /** The value comes back from what was written for it, with exactly those bytes consumed, whatever
      follows them. */
  ghost predicate RoundTrips(v: Value, maxKey: nat) {
    && Encode(v).Some?
    && forall rest: Bytes :: Decode(Encode(v).get + rest, 0, maxKey) == Got(v, |Encode(v).get|)
  }

  lemma AdmissibleSurvives(v: Value, maxKey: nat)
    requires WellFormed(v, maxKey) && Admissible(v)
    ensures RoundTrips(v, maxKey)
  {
    hide Encode, Decode, WellFormed, Admissible;
    AdmissibleIs(v);
    forall rest: Bytes ensures Decode(Encode(v).get + rest, 0, maxKey) == Got(v, |Encode(v).get|) {
      StandsFirst(Encode(v).get, rest);
      ValueBack(v, Encode(v).get + rest, 0, maxKey);
    }
  }

  /** Among the values without nulls, and among those without strings, exactly the admissible ones survive. A
      null together with a string can survive by accident: see SurvivingNulls. */
  lemma RoundTripExactly(v: Value, maxKey: nat)
    requires WellFormed(v, maxKey) && (NullFree(v) || Stringless(v))
    ensures RoundTrips(v, maxKey) <==> Admissible(v)
  {
    hide Encode, Decode, WellFormed, Admissible, Readable, Lean, Cost, NullFree, Stringless;
    if Admissible(v) { AdmissibleSurvives(v, maxKey); }
    if RoundTrips(v, maxKey) {
      AdmissibleIs(v);
      var s := Encode(v).get;
      assert Decode(s + [], 0, maxKey) == Got(v, |s|);
      DecodePaid(s + [], 0, maxKey);
      if NullFree(v) {
        StandsFirst(s, []);
        ReadIsAdmissible(v, s + [], 0, maxKey);
      } else {
        Spent(v);
      }
    }
  }

  lemma StandsFirst(s: Bytes, rest: Bytes)
    ensures Stands(s + rest, 0, s)
  {
    assert (s + rest)[0..0 + |s|] == s;
  }

  /** A 16-bit number comes back as zero, whatever it was. */
  lemma SixteenBitsLost(x: int, rest: Bytes, maxKey: nat)
    ensures Encode(Int(W16, x)).Some? && Decode(Encode(Int(W16, x)).get + rest, 0, maxKey) == Got(Int(W16, 0), 3)
  {
    hide Power, LittleEndian, Stands, ReadNumber, Fits, Signed;
    var y := x % Power(Size(W16));
    SignedBack(x, W16);
    var s := Header(KInt, W16, y);
    assert Encode(Int(W16, x)) == Some(s);
    StandsFirst(s, rest);
    HeaderBack(s + rest, 0, KInt, W16, y);
  }

  /** A UTF-8 string comes back as a local one, and nothing is written for a null. */
  lemma NotAllSurvive(maxKey: nat)
    ensures !RoundTrips(Utf8Str([65]), maxKey) && !RoundTrips(Null, maxKey) && Encode(Null) == Some([])
  {
    RoundTripExactly(Utf8Str([65]), maxKey);
    RoundTripExactly(Null, maxKey);
  }

  /** A string with a zero count is the C string at the cursor, and its characters are read again. */
  lemma ZeroCountTakesNothing(s: Bytes, rest: Bytes, maxKey: nat)
    requires 0 !in s
    ensures Decode(Header(KLocalStr, W8, 0) + s + [0] + rest, 0, maxKey) == Got(LocalStr(s), 2)
  {
    hide Power;
    var h := Header(KLocalStr, W8, 0);
    var b := h + s + [0] + rest;
    assert b == h + (s + [0] + rest);
    StandsFirst(h, s + [0] + rest);
    PowerIs(W8);
    HeaderBack(b, 0, KLocalStr, W8, 0);
    assert h == [3] + [0] by { assert LittleEndian(0, 1) == [0]; }
    assert b[1] == 0;
    assert b[2..] == s + [0] + rest;
    assert (s + [0] + rest)[|s|] == 0;
    CStringBack(s, 0, rest);
  }
}
