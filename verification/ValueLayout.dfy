/** Where the digits of a number stand in the bytes written for it. */
module ValueLayout {
  import opened Words
  import opened Values
  import opened ValueRoundTrip

  /** Dividing by a product, one factor at a time. */
  lemma DivideInSteps(x: nat, d: nat, p: nat)
    requires 0 < d && 0 < p
    ensures 0 < Product(p, d) && x / Product(p, d) == x / d / p
  {
    MulStrict(0, p, d);
    var y := x / d;
    var q, r := y / p, y % p;
    DivMod(x, d);
    DivMod(y, p);
    Distribute(Product(q, p), r, d);
    MulAssoc(q, p, d);
    MulMono(r + 1, p, d);
    Distribute(r, 1, d);
    DivModIs(x, Product(p, d), q, Product(r, d) + x % d);
  }

  /** Seven bits each, the lowest first. */
  lemma {:induction false} Leb128Digits(x: nat, i: nat)
    requires i < |Leb128(x)|
    ensures Leb128(x)[i] % 128 == x / Sevens(i) % 128
    decreases i
  {
    if 0 < i {
      Leb128Digits(x / 128, i - 1);
      DivideInSteps(x, 128, Sevens(i - 1));
    }
  }

  /** The top bit is set on the last byte alone, which is not empty unless it is the only one. */
  lemma {:induction false} Leb128Ends(x: nat, i: nat)
    requires i < |Leb128(x)|
    ensures 128 <= Leb128(x)[i] <==> i == |Leb128(x)| - 1
    ensures 128 <= x ==> Leb128(x)[|Leb128(x)| - 1] != 128
    decreases x
  {
    if 128 <= x {
      var rest := Leb128(x / 128);
      assert Leb128(x) == [x % 128] + rest;
      Leb128Ends(x / 128, if 0 < i then i - 1 else 0);
    }
  }

  /** The bytes of a number of fixed size, the lowest first. */
  lemma {:induction false} LittleEndianDigits(x: nat, n: nat, i: nat)
    requires i < n
    ensures LittleEndian(x, n)[i] == x / Power(i) % 256
    decreases i
  {
    if 0 < i {
      LittleEndianDigits(x / 256, n - 1, i - 1);
      DivideInSteps(x, 256, Power(i - 1));
    }
  }

  /** The count takes the narrowest of the three widths the writer has. */
  lemma NarrowestWidth(count: nat)
    ensures CountWidth(count) == W8 <==> count < Power(1)
    ensures CountWidth(count) == W16 <==> Power(1) <= count < Power(2)
    ensures CountWidth(count) == W32 <==> Power(2) <= count
  {
    PowerIs(W8);
    PowerIs(W16);
  }
}
