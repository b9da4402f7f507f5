/** Reading back what was written. */
module ValueRoundTrip {
  import opened Values
  import opened ValueReader

  // Numbers and strings.

  lemma {:induction false} NumberBack(x: nat, n: nat)
    requires x < Power(n)
    ensures FromLittleEndian(LittleEndian(x, n)) == x
  {
    if n != 0 {
      NumberBack(x / 256, n - 1);
      assert LittleEndian(x, n)[1..] == LittleEndian(x / 256, n - 1);
    }
  }

  lemma PowerIs(w: Width)
    ensures Power(Size(w)) ==
      match w case W8 => 0x100 case W16 => 0x1_0000 case W32 => 0x1_0000_0000 case W64 => 0x1_0000_0000_0000_0000
  {
    assert Power(1) == 0x100 && Power(2) == 0x1_0000;
    assert Power(4) == 256 * (256 * Power(2));
    assert Power(6) == 256 * (256 * Power(4));
    assert Power(8) == 256 * (256 * Power(6));
  }

  /** The signed reading of the low bytes gives the number back exactly when it fits. */
  lemma SignedBack(x: int, w: Width)
    ensures 0 <= x % Power(Size(w)) < Power(Size(w))
    ensures Signed(x % Power(Size(w)), w) == x <==> Fits(x, w)
  {
    PowerIs(w);
  }

  lemma TypeByteBack(k: Kind, w: Width)
    ensures KindOf(TypeByte(k, w)) == Some(k) && WidthOf(TypeByte(k, w)) == Some(w)
  {
  }

  /** `s` stands in `b` at position `p`. */
  ghost predicate Stands(b: Bytes, p: nat, s: Bytes) {
    p + |s| <= |b| && b[p..p + |s|] == s
  }

  lemma StandsParts(b: Bytes, p: nat, s: Bytes, t: Bytes)
    ensures Stands(b, p, s + t) <==> Stands(b, p, s) && Stands(b, p + |s|, t)
  {
    if Stands(b, p, s + t) {
      assert s == (s + t)[..|s|] && t == (s + t)[|s|..];
      assert b[p..p + |s|] == b[p..p + |s + t|][..|s|];
      assert b[p + |s|..p + |s| + |t|] == b[p..p + |s + t|][|s|..];
    }
  }

  lemma HeaderBack(b: Bytes, p: nat, k: Kind, w: Width, count: nat)
    requires Stands(b, p, Header(k, w, count)) && count < Power(Size(w))
    ensures p < |b| && KindOf(b[p]) == Some(k) && WidthOf(b[p]) == Some(w)
    ensures ReadNumber(b, p + 1, Size(w)) == Got(count, p + |Header(k, w, count)|)
  {
    StandsParts(b, p, [TypeByte(k, w)], LittleEndian(count, Size(w)));
    TypeByteBack(k, w);
    NumberBack(count, Size(w));
    assert b[p..p + 1][0] == b[p];
  }

  lemma CountFits(count: nat)
    requires count < 0x1_0000_0000
    ensures count < Power(Size(CountWidth(count)))
  {
    PowerIs(CountWidth(count));
  }

  lemma {:induction false} Leb128Back(b: Bytes, p: nat, x: nat, left: nat)
    requires Stands(b, p, Leb128(x)) && |Leb128(x)| <= left
    ensures ReadLeb128(b, p, left) == Got(x, p + |Leb128(x)|)
    decreases left
  {
    if x < 128 {
      assert b[p..p + 1][0] == b[p];
    } else {
      StandsParts(b, p, [x % 128], Leb128(x / 128));
      assert b[p..p + 1][0] == b[p];
      Leb128Back(b, p + 1, x / 128, left - 1);
    }
  }

  function Sevens(n: nat): (r: nat)
    ensures 0 < r
  {
    if n == 0 then 1 else 128 * Sevens(n - 1)
  }

  lemma {:induction false} Leb128Digits(x: nat, n: nat)
    requires 0 < n
    ensures |Leb128(x)| <= n <==> x < Sevens(n)
    decreases n
  {
    if 128 <= x {
      if n == 1 {
        assert Sevens(1) == 128;
      } else {
        Leb128Digits(x / 128, n - 1);
      }
    }
  }

  /** Five bytes hold 35 bits. */
  lemma Leb128Length(x: nat)
    ensures |Leb128(x)| <= LEB128_MAX <==> x < 0x8_0000_0000
  {
    Leb128Digits(x, 5);
    assert Sevens(2) == 0x4000;
    assert Sevens(4) == 128 * (128 * Sevens(2));
  }

  lemma {:induction false} CStringBack<T>(s: seq<T>, zero: T, rest: seq<T>)
    requires zero !in s
    ensures CString(s + [zero] + rest, zero) == s
  {
    if s != [] {
      assert (s + [zero] + rest)[1..] == s[1..] + [zero] + rest;
      CStringBack(s[1..], zero, rest);
    }
  }

  lemma WideStep(b: Bytes, x: u16)
    requires 2 <= |b| && var low: nat, high: nat := b[0], b[1]; x == low + 256 * high
    ensures Wide(b) == [x] + Wide(b[2..])
  {
  }

  lemma CharStep(x: u16, s: seq<u16>)
    ensures WideBytes([x] + s) == LittleEndian(x, 2) + WideBytes(s)
  {
    assert ([x] + s)[1..] == s;
  }

  lemma TwoBytes(x: u16, low: nat, high: nat)
    requires low < 256 && high < 256 && x == low + 256 * high
    ensures LittleEndian(x, 2) == [low, high]
  {
    assert LittleEndian(x, 2) == [x % 256, x / 256 % 256];
  }

  lemma {:induction false} WideBack(s: seq<u16>, rest: Bytes)
    ensures |WideBytes(s)| == 2 * |s| && Wide(WideBytes(s) + rest) == s + Wide(rest)
  {
    hide Wide, WideBytes;
    if s == [] {
      NoChars();
      assert [] + rest == rest && [] + Wide(rest) == Wide(rest);
    } else {
      WideBack(s[1..], rest);
      var x, below := s[0], WideBytes(s[1..]);
      assert s == [x] + s[1..];
      CharStep(x, s[1..]);
      TwoBytes(x, x % 256, x / 256);
      var b: Bytes := [x % 256, x / 256] + below + rest;
      WideStep(b, x);
      assert b[2..] == below + rest;
      assert [x] + (s[1..] + Wide(rest)) == s + Wide(rest);
    }
  }

  lemma NoChars()
    ensures WideBytes([]) == []
  {
  }

  /** What follows the bytes that stand at `p`. */
  lemma StandsAhead(b: Bytes, p: nat, s: Bytes)
    requires Stands(b, p, s)
    ensures p + |s| <= |b| && b[p..] == s + b[p + |s|..]
  {
  }

  // Values

  /** What the setters of the source let into a value. */
  ghost predicate WellFormed(v: Value, maxKey: nat)
    decreases v
  {
    match v
    case Int(_, x) => -0x8000_0000_0000_0000 <= x < 0x8000_0000_0000_0000
    case Real(bits) => bits < 0x1_0000_0000_0000_0000
    case LocalStr(s) => 0 !in s
    case Utf8Str(s) => 0 !in s
    case WideStr(s) => 0 !in s
    case Array(es) => Ordered(es) && forall i :: 0 <= i < |es| ==> es[i].key.Index? && WellFormed(es[i].value, maxKey)
    case Object(es) => Ordered(es) && forall i :: 0 <= i < |es| ==>
      es[i].key.Name? && 0 !in es[i].key.chars && 0 < |es[i].key.chars| <= maxKey && WellFormed(es[i].value, maxKey)
    case _ => true
  }

  /** The values that survive being written and read. */
  ghost predicate Admissible(v: Value)
    decreases v
  {
    match v
    case Null => false
    case Int(w, x) => if w == W16 then x == 0 else Fits(x, w)
    case Real(_) => true
    case LocalStr(s) => |s| < 0xFFFF
    case Utf8Str(_) => false
    case WideStr(s) => |s| < 0xFFFF
    case Buffer(d) => |d| < 0x1_0000_0000
    case Array(es) => |es| < 0x1_0000 && forall i :: 0 <= i < |es| ==> AdmissibleEntry(es[i])
    case Object(es) => |es| < 0x1_0000 && forall i :: 0 <= i < |es| ==> AdmissibleEntry(es[i])
  }

  /** Indices of 35 bits, names of at most 254 characters. */
  ghost predicate AdmissibleEntry(e: Entry)
    decreases e
  {
    (match e.key case Index(i) => i < 0x8_0000_0000 case Name(s) => |s| <= 254) && Admissible(e.value)
  }

  ghost predicate WellFormedEntry(e: Entry, named: bool, maxKey: nat) {
    && (if named then e.key.Name? && 0 !in e.key.chars && 0 < |e.key.chars| <= maxKey else e.key.Index?)
    && WellFormed(e.value, maxKey)
  }

  ghost predicate WellFormedEntries(es: seq<Entry>, named: bool, maxKey: nat) {
    Ordered(es) && forall i :: 0 <= i < |es| ==> WellFormedEntry(es[i], named, maxKey)
  }

  lemma KeyBack(b: Bytes, p: nat, k: Key, maxKey: nat)
    requires match k case Index(i) => i < 0x8_0000_0000 case Name(s) => |s| <= 254 && 0 !in s && 0 < |s| <= maxKey
    requires EncodeKey(k).Some? && Stands(b, p, EncodeKey(k).get)
    ensures ReadKey(b, p, k.Name?, maxKey) == Got(k, p + |EncodeKey(k).get|)
  {
    match k
    case Index(i) =>
      Leb128Length(i);
      Leb128Back(b, p, i, LEB128_MAX);
    case Name(s) =>
      StandsParts(b, p, [|s| + 1], s + [0]);
      assert EncodeKey(k).get == [|s| + 1] + (s + [0]);
      assert b[p..p + 1][0] == b[p];
      var data := b[p + 1..p + 1 + |s + [0]|];
      assert data[|s|] == 0 && data == s + [0] + [];
      CStringBack(s, 0, []);
  }

  /** A key that is not below the others goes to the end. */
  lemma InsertLast(es: seq<Entry>, n: nat)
    requires n < |es| && Ordered(es)
    ensures Insert(es[..n], es[n]) == es[..n + 1]
  {
    if n != 0 {
      assert KeyLess(es[n - 1].key, es[n].key);
      KeyLessStrict(es[n].key);
    }
  }

  lemma {:induction false} NameLessOrder(a: Bytes, b: Bytes, c: Bytes)
    ensures a == b || NameLess(a, b) || NameLess(b, a)
    ensures NameLess(a, b) && NameLess(b, c) ==> NameLess(a, c)
  {
    if a != [] && b != [] {
      NameLessOrder(a[1..], b[1..], if c == [] then [] else c[1..]);
      if a[0] == b[0] && a[1..] == b[1..] { assert a == [a[0]] + a[1..] == b; }
    }
  }

  lemma KeyLessOrder(a: Key, b: Key, c: Key)
    requires a.Index? == b.Index? == c.Index?
    ensures a == b || KeyLess(a, b) || KeyLess(b, a)
    ensures KeyLess(a, b) && KeyLess(b, c) ==> KeyLess(a, c)
    ensures !KeyLess(a, a)
  {
    KeyLessStrict(a);
    if a.Name? { NameLessOrder(a.chars, b.chars, c.chars); }
  }

  /** All keys are of the kind of the table. */
  ghost predicate OfKind(es: seq<Entry>, index: bool) {
    forall i :: 0 <= i < |es| ==> es[i].key.Index? == index
  }

  lemma OrderedEnds(es: seq<Entry>, e: Entry)
    requires es != [] && Ordered(es[..|es| - 1]) && OfKind(es, e.key.Index?)
    requires forall y :: y in es[..|es| - 1] ==> KeyLess(y.key, es[|es| - 1].key)
    ensures Ordered(es)
  {
    var n := |es| - 1;
    forall i, j | 0 <= i < j < |es| ensures KeyLess(es[i].key, es[j].key) {
      assert es[..n][i] == es[i];
      if j < n { assert es[..n][j] == es[j]; }
    }
  }

  /** Entering a key into a map gives it the value, keeps all other entries, and keeps the order. */
  lemma {:induction false} InsertIsUpdate(es: seq<Entry>, e: Entry)
    requires Ordered(es) && OfKind(es, e.key.Index?)
    ensures Ordered(Insert(es, e)) && OfKind(Insert(es, e), e.key.Index?)
    ensures forall x :: x in Insert(es, e) <==> x == e || (x in es && x.key != e.key)
    decreases |es|
  {
    hide KeyLess;
    if es != [] {
      var n := |es| - 1;
      var last := es[n];
      assert es == es[..n] + [last];
      forall y | y in es[..n] ensures KeyLess(y.key, last.key) && y.key.Index? == last.key.Index? {
        var i :| 0 <= i < n && es[..n][i] == y;
      }
      if last.key == e.key {
        UpdateLast(es, e);
      } else if KeyLess(last.key, e.key) {
        AppendLast(es, e);
      } else {
        KeyLessOrder(last.key, e.key, e.key);
        InsertIsUpdate(es[..n], e);
        var front := Insert(es[..n], e);
        assert (front + [last])[..|front|] == front;
        OrderedEnds(front + [last], e);
        KeyLessOrder(last.key, last.key, last.key);
      }
    }
  }

  lemma UpdateLast(es: seq<Entry>, e: Entry)
    requires es != [] && Ordered(es) && OfKind(es, e.key.Index?) && es[|es| - 1].key == e.key
    ensures Insert(es, e) == es[..|es| - 1] + [e]
    ensures Ordered(Insert(es, e)) && OfKind(Insert(es, e), e.key.Index?)
    ensures forall x :: x in Insert(es, e) <==> x == e || (x in es && x.key != e.key)
  {
    var n := |es| - 1;
    KeyLessStrict(e.key);
    hide KeyLess;
    var t := es[..n] + [e];
    assert forall i :: 0 <= i < |es| ==> t[i].key == es[i].key;
    assert es == es[..n] + [es[n]];
    forall x | x in es[..n] ensures x.key != e.key {
      var i :| 0 <= i < n && es[..n][i] == x;
      assert KeyLess(es[i].key, es[n].key);
    }
  }

  lemma AppendLast(es: seq<Entry>, e: Entry)
    requires es != [] && Ordered(es) && OfKind(es, e.key.Index?) && KeyLess(es[|es| - 1].key, e.key)
    requires es[|es| - 1].key != e.key
    ensures Insert(es, e) == es + [e]
    ensures Ordered(Insert(es, e)) && OfKind(Insert(es, e), e.key.Index?)
    ensures forall x :: x in Insert(es, e) <==> x == e || (x in es && x.key != e.key)
  {
    var last := es[|es| - 1];
    hide KeyLess;
    forall x | x in es ensures KeyLess(x.key, e.key) && x.key != e.key {
      var i :| 0 <= i < |es| && es[i] == x;
      KeyLessOrder(x.key, last.key, e.key);
      KeyLessOrder(e.key, e.key, e.key);
    }
    assert (es + [e])[..|es|] == es;
    OrderedEnds(es + [e], e);
  }

  lemma {:induction false} NameLessStrict(a: Bytes)
    ensures !NameLess(a, a)
  {
    if a != [] { NameLessStrict(a[1..]); }
  }

  lemma KeyLessStrict(k: Key)
    ensures !KeyLess(k, k)
  {
    if k.Name? { NameLessStrict(k.chars); }
  }

  lemma StringDecoded(b: Bytes, p: nat, k: Kind, s: Bytes, maxKey: nat)
    requires |s| < 0xFFFF && 0 !in s && (k == KLocalStr || k == KUtf8Str)
    requires Stands(b, p, Header(k, CountWidth(|s| + 1), |s| + 1) + s + [0])
    ensures Decode(b, p, maxKey) == Got(LocalStr(s), p + |Header(k, CountWidth(|s| + 1), |s| + 1) + s + [0]|)
  {
    StringBack(b, p, k, s);
  }

  lemma WideStringDecoded(b: Bytes, p: nat, s: seq<u16>, maxKey: nat)
    requires |s| < 0xFFFF && 0 !in s
    requires Stands(b, p, Header(KWideStr, CountWidth(|s| + 1), |s| + 1) + WideBytes(s + [0]))
    ensures Decode(b, p, maxKey)
      == Got(WideStr(s), p + |Header(KWideStr, CountWidth(|s| + 1), |s| + 1) + WideBytes(s + [0])|)
  {
    hide ReadWide, ReadNumber, Stands, LittleEndian, WideBytes;
    WideStringBack(b, p, s);
  }

  lemma BufferDecoded(b: Bytes, p: nat, d: Bytes, maxKey: nat)
    requires |d| < 0x1_0000_0000 && Stands(b, p, Header(KBuffer, CountWidth(|d|), |d|) + d)
    ensures Decode(b, p, maxKey) == Got(Buffer(d), p + |Header(KBuffer, CountWidth(|d|), |d|) + d|)
  {
    BufferBack(b, p, d);
  }

  lemma IntDecoded(b: Bytes, p: nat, w: Width, x: int, maxKey: nat)
    requires if w == W16 then x == 0 else Fits(x, w)
    requires Stands(b, p, [TypeByte(KInt, w)] + LittleEndian(x % Power(Size(w)), Size(w)))
    ensures Decode(b, p, maxKey)
      == Got(Int(w, x), p + |[TypeByte(KInt, w)] + LittleEndian(x % Power(Size(w)), Size(w))|)
  {
    IntBack(b, p, w, x);
  }

  lemma RealDecoded(b: Bytes, p: nat, bits: nat, maxKey: nat)
    requires bits < 0x1_0000_0000_0000_0000 && Stands(b, p, [TypeByte(KReal, W8)] + LittleEndian(bits, 8))
    ensures Decode(b, p, maxKey) == Got(Real(bits), p + |[TypeByte(KReal, W8)] + LittleEndian(bits, 8)|)
  {
    RealBack(b, p, bits);
  }

  lemma StringBack(b: Bytes, p: nat, k: Kind, s: Bytes)
    requires |s| < 0xFFFF && 0 !in s
    requires Stands(b, p, Header(k, CountWidth(|s| + 1), |s| + 1) + s + [0])
    ensures p < |b| && KindOf(b[p]) == Some(k) && WidthOf(b[p]) == Some(CountWidth(|s| + 1))
    ensures var h := p + |Header(k, CountWidth(|s| + 1), |s| + 1)|;
      && ReadNumber(b, p + 1, Size(CountWidth(|s| + 1))) == Got(|s| + 1, h)
      && ReadString(b, h, |s| + 1) == Got(LocalStr(s), h + |s| + 1)
  {
    var w := CountWidth(|s| + 1);
    var h := Header(k, w, |s| + 1);
    assert h + s + [0] == h + (s + [0]);
    StandsParts(b, p, h, s + [0]);
    CountFits(|s| + 1);
    HeaderBack(b, p, k, w, |s| + 1);
    var q := p + |h|;
    StandsAhead(b, q, s + [0]);
    CStringBack(s, 0, b[q + |s| + 1..]);
    assert b[q + |s|] == b[q..][|s|] == 0;
  }

  lemma WideStringBack(b: Bytes, p: nat, s: seq<u16>)
    requires |s| < 0xFFFF && 0 !in s
    requires Stands(b, p, Header(KWideStr, CountWidth(|s| + 1), |s| + 1) + WideBytes(s + [0]))
    ensures p < |b| && KindOf(b[p]) == Some(KWideStr) && WidthOf(b[p]) == Some(CountWidth(|s| + 1))
    ensures |WideBytes(s + [0])| == 2 * (|s| + 1)
    ensures var h := p + |Header(KWideStr, CountWidth(|s| + 1), |s| + 1)|;
      && ReadNumber(b, p + 1, Size(CountWidth(|s| + 1))) == Got(|s| + 1, h)
      && ReadWide(b, h, |s| + 1) == Got(WideStr(s), h + 2 * (|s| + 1))
  {
    hide Header, WideBytes, ReadNumber, ReadWide, Power, Stands, CountWidth;
    var w := CountWidth(|s| + 1);
    var h := Header(KWideStr, w, |s| + 1);
    StandsParts(b, p, h, WideBytes(s + [0]));
    CountFits(|s| + 1);
    HeaderBack(b, p, KWideStr, w, |s| + 1);
    WideRead(b, p + |h|, s);
  }

  lemma WideRead(b: Bytes, p: nat, s: seq<u16>)
    requires |s| < 0xFFFF && 0 !in s && Stands(b, p, WideBytes(s + [0]))
    ensures |WideBytes(s + [0])| == 2 * (|s| + 1)
    ensures ReadWide(b, p, |s| + 1) == Got(WideStr(s), p + 2 * (|s| + 1))
  {
    hide WideBytes, CString, Wide, Stands;
    var t := WideBytes(s + [0]);
    StandsAhead(b, p, t);
    var rest := b[p + |t|..];
    WideBack(s + [0], rest);
    CStringBack(s, 0, Wide(rest));
    WideEnds(s);
    var q := p + |t|;
    assert b[q - 1] == b[p..][|t| - 1] && b[q - 2] == b[p..][|t| - 2];
    assert (s + [0] + Wide(rest))[|s|] == 0;
  }

  lemma {:induction false} WideEnds(s: seq<u16>)
    ensures var t := WideBytes(s + [0]); 2 <= |t| && t[|t| - 1] == 0 && t[|t| - 2] == 0
  {
    if s != [] {
      WideEnds(s[1..]);
      assert (s + [0])[1..] == s[1..] + [0];
    }
  }

  lemma BufferBack(b: Bytes, p: nat, d: Bytes)
    requires |d| < 0x1_0000_0000 && Stands(b, p, Header(KBuffer, CountWidth(|d|), |d|) + d)
    ensures p < |b| && KindOf(b[p]) == Some(KBuffer) && WidthOf(b[p]) == Some(CountWidth(|d|))
    ensures var h := p + |Header(KBuffer, CountWidth(|d|), |d|)|;
      ReadNumber(b, p + 1, Size(CountWidth(|d|))) == Got(|d|, h) && ReadBuffer(b, h, |d|) == Got(Buffer(d), h + |d|)
  {
    StandsParts(b, p, Header(KBuffer, CountWidth(|d|), |d|), d);
    CountFits(|d|);
    HeaderBack(b, p, KBuffer, CountWidth(|d|), |d|);
  }

  lemma IntBack(b: Bytes, p: nat, w: Width, x: int)
    requires if w == W16 then x == 0 else Fits(x, w)
    requires Stands(b, p, [TypeByte(KInt, w)] + LittleEndian(x % Power(Size(w)), Size(w)))
    ensures p < |b| && KindOf(b[p]) == Some(KInt) && WidthOf(b[p]) == Some(w)
    ensures ReadInt(b, p + 1, w) == Got(Int(w, x), p + 1 + Size(w))
  {
    hide Power, LittleEndian, Fits, Signed, Stands, FromLittleEndian;
    var y := x % Power(Size(w));
    SignedBack(x, w);
    assert [TypeByte(KInt, w)] + LittleEndian(y, Size(w)) == Header(KInt, w, y);
    HeaderBack(b, p, KInt, w, y);
    assert y % Power(Size(w)) == y;
  }

  lemma RealBack(b: Bytes, p: nat, bits: nat)
    requires bits < 0x1_0000_0000_0000_0000 && Stands(b, p, [TypeByte(KReal, W8)] + LittleEndian(bits, 8))
    ensures p < |b| && KindOf(b[p]) == Some(KReal) && ReadNumber(b, p + 1, 8) == Got(bits, p + 9)
  {
    PowerIs(W64);
    StandsParts(b, p, [TypeByte(KReal, W8)], LittleEndian(bits, 8));
    TypeByteBack(KReal, W8);
    NumberBack(bits, 8);
    assert b[p..p + 1][0] == b[p];
  }

  /** The encoding of the first entries begins that of all. */
  lemma {:induction false} EntriesBegin(es: seq<Entry>, k: nat)
    requires k <= |es| && EncodeEntries(es).Some?
    ensures EncodeEntries(es[..k]).Some? && EncodeEntries(es[..k]).get <= EncodeEntries(es).get
    decreases |es|
  {
    if k == |es| {
      assert es[..k] == es;
    } else {
      var n := |es| - 1;
      EntriesBegin(es[..n], k);
      assert es[..n][..k] == es[..k];
    }
  }

  lemma EntriesNext(es: seq<Entry>, k: nat)
    requires k < |es| && EncodeEntries(es).Some?
    ensures EncodeEntries(es[..k]).Some? && EncodeEntry(es[k]).Some? && EncodeEntries(es[..k + 1]).Some?
    ensures EncodeEntries(es[..k + 1]).get == EncodeEntries(es[..k]).get + EncodeEntry(es[k]).get
    ensures EncodeEntries(es[..k + 1]).get <= EncodeEntries(es).get
  {
    EntriesBegin(es, k + 1);
    assert es[..k + 1][..k] == es[..k];
  }

  lemma StandsPrefix(b: Bytes, p: nat, s: Bytes, t: Bytes)
    requires Stands(b, p, t) && s <= t
    ensures Stands(b, p, s)
  {
    StandsParts(b, p, s, t[|s|..]);
    assert t == s + t[|s|..];
  }

  /** An admissible value stands for itself: reading what was written gives it back, and ends where the
      writer did, whatever follows. */
  lemma {:induction false} ValueBack(v: Value, b: Bytes, p: nat, maxKey: nat)
    requires WellFormed(v, maxKey) && Admissible(v) && Encode(v).Some? && Stands(b, p, Encode(v).get)
    ensures Decode(b, p, maxKey) == Got(v, p + |Encode(v).get|)
    decreases v, 2
  {
    hide Decode, EncodeTable, Stands, Power, LittleEndian, Header, WideBytes;
    match v
    case Int(w, x) => IntDecoded(b, p, w, x, maxKey);
    case Real(bits) => RealDecoded(b, p, bits, maxKey);
    case LocalStr(s) => StringDecoded(b, p, KLocalStr, s, maxKey);
    case WideStr(s) => WideStringDecoded(b, p, s, maxKey);
    case Buffer(d) => BufferDecoded(b, p, d, maxKey);
    case Array(es) => TableBack(es, b, p, false, maxKey);
    case Object(es) => TableBack(es, b, p, true, maxKey);
  }

  lemma {:induction false} TableBack(es: seq<Entry>, b: Bytes, p: nat, named: bool, maxKey: nat)
    requires WellFormedEntries(es, named, maxKey) && |es| < 0x1_0000
    requires forall i :: 0 <= i < |es| ==> AdmissibleEntry(es[i])
    requires var k := if named then KObject else KArray;
      EncodeTable(k, es).Some? && Stands(b, p, EncodeTable(k, es).get)
    ensures var k := if named then KObject else KArray;
      Decode(b, p, maxKey) == Got(if named then Object(es) else Array(es), p + |EncodeTable(k, es).get|)
    decreases es, 1
  {
    hide Decode, DecodeEntries, EncodeEntries, Encode, Stands, AdmissibleEntry, WellFormedEntries, ReadNumber;
    hide CountWidth, Header;
    var k := if named then KObject else KArray;
    var h := Header(k, CountWidth(|es|), |es|);
    var body := EncodeEntries(es).get;
    StandsParts(b, p, h, body);
    CountFits(|es|);
    HeaderBack(b, p, k, CountWidth(|es|), |es|);
    assert es[..0] == [];
    EntriesBack(es, 0, b, p + |h|, named, maxKey);
    NoEntries();
    TableDecoded(b, p, k, CountWidth(|es|), es, p + |h|, maxKey);
  }

  lemma NoEntries()
    ensures EncodeEntries([]) == Some([])
  {
  }

  lemma TableDecoded(b: Bytes, p: nat, k: Kind, w: Width, es: seq<Entry>, q: nat, maxKey: nat)
    requires (k == KObject || k == KArray) && p < |b| && KindOf(b[p]) == Some(k) && WidthOf(b[p]) == Some(w)
    requires ReadNumber(b, p + 1, Size(w)) == Got(|es|, q) && q <= |b|
    requires DecodeEntries(b, q, k == KObject, |es|, [], maxKey).Got?
    requires DecodeEntries(b, q, k == KObject, |es|, [], maxKey).value == es
    ensures Decode(b, p, maxKey) == Got(if k == KObject then Object(es) else Array(es),
                                        DecodeEntries(b, q, k == KObject, |es|, [], maxKey).next)
  {
    hide DecodeEntries, ReadNumber;
  }

  lemma {:induction false} EntriesBack(es: seq<Entry>, k: nat, b: Bytes, p: nat, named: bool, maxKey: nat)
    requires WellFormedEntries(es, named, maxKey) && k <= |es| && forall i :: 0 <= i < |es| ==> AdmissibleEntry(es[i])
    requires EncodeEntries(es).Some? && Stands(b, p, EncodeEntries(es).get)
    ensures EncodeEntries(es[..k]).Some? && p + |EncodeEntries(es[..k]).get| <= |b|
    ensures DecodeEntries(b, p + |EncodeEntries(es[..k]).get|, named, |es| - k, es[..k], maxKey)
      == Got(es, p + |EncodeEntries(es).get|)
    decreases es, 0, |es| - k
  {
    hide Decode, DecodeEntry, Encode, EncodeEntry, EncodeEntries, Stands, Insert, WellFormedEntry, AdmissibleEntry;
    hide DecodeEntries;
    EntriesBegin(es, k);
    if k == |es| {
      assert es[..k] == es;
      StandsInside(b, p, EncodeEntries(es).get);
      NoMoreEntries(b, p + |EncodeEntries(es).get|, named, es, maxKey);
    } else {
      EntriesNext(es, k);
      var before, e := EncodeEntries(es[..k]).get, EncodeEntry(es[k]).get;
      StandsPrefix(b, p, before + e, EncodeEntries(es).get);
      StandsParts(b, p, before, e);
      EntryBack(es[k], b, p + |before|, named, maxKey);
      InsertLast(es, k);
      StandsInside(b, p + |before|, e);
      OneMoreEntry(b, p + |before|, named, |es| - k, es[..k], maxKey);
      EntriesBack(es, k + 1, b, p, named, maxKey);
    }
  }

  lemma StandsInside(b: Bytes, p: nat, s: Bytes)
    requires Stands(b, p, s)
    ensures p + |s| <= |b|
  {
  }

  lemma NoMoreEntries(b: Bytes, p: nat, named: bool, es: seq<Entry>, maxKey: nat)
    requires p <= |b|
    ensures DecodeEntries(b, p, named, 0, es, maxKey) == Got(es, p)
  {
  }

  lemma OneMoreEntry(b: Bytes, p: nat, named: bool, count: nat, es: seq<Entry>, maxKey: nat)
    requires p <= |b| && 0 < count && DecodeEntry(b, p, named, maxKey).Got?
    ensures var e := DecodeEntry(b, p, named, maxKey);
      DecodeEntries(b, p, named, count, es, maxKey)
        == DecodeEntries(b, e.next, named, count - 1, Insert(es, e.value), maxKey)
  {
  }

  lemma {:induction false} EntryBack(e: Entry, b: Bytes, p: nat, named: bool, maxKey: nat)
    requires WellFormedEntry(e, named, maxKey) && AdmissibleEntry(e) && EncodeEntry(e).Some?
    requires Stands(b, p, EncodeEntry(e).get)
    ensures DecodeEntry(b, p, named, maxKey) == Got(e, p + |EncodeEntry(e).get|)
    decreases e
  {
    hide Decode, Encode, Stands, EncodeKey, ReadKey, Admissible, WellFormed;
    StandsParts(b, p, EncodeKey(e.key).get, Encode(e.value).get);
    KeyBack(b, p, e.key, maxKey);
    ValueBack(e.value, b, p + |EncodeKey(e.key).get|, maxKey);
  }
}