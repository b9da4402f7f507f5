/** What the reader can produce, and how many bytes it must read for it, against what the writer spends. */
module ValueLimits {
  import opened Values
  import opened ValueReader
  import opened ValueRoundTrip

  /** Bytes a count needs, among the widths there are. */
  function CountSize(n: nat): nat {
    if n < 0x100 then 1 else if n < 0x1_0000 then 2 else if n < 0x1_0000_0000 then 4 else 8
  }

  function KeyCost(k: Key): nat {
    match k case Index(i) => |Leb128(i)| case Name(s) => |s| + 2
  }

  /** A number of bytes the reader needs at least to make a value. A string can be had for its count: when
      that is zero, the characters are not consumed. */
  function Cost(v: Value): nat
    decreases v
  {
    match v
    case Null => 1
    case Int(w, _) => 1 + Size(w)
    case Real(_) => 9
    case LocalStr(_) => 2
    case Utf8Str(_) => 2
    case WideStr(_) => 2
    case Buffer(d) => 1 + CountSize(|d|) + |d|
    case Array(es) => 1 + CountSize(|es|) + EntriesCost(es)
    case Object(es) => 1 + CountSize(|es|) + EntriesCost(es)
  }

  function EntryCost(e: Entry): nat
    decreases e
  {
    KeyCost(e.key) + Cost(e.value)
  }

  function EntriesCost(es: seq<Entry>): nat
    decreases es
  {
    if es == [] then 0 else EntriesCost(es[..|es| - 1]) + EntryCost(es[|es| - 1])
  }

  /** What the reader can produce at all. */
  ghost predicate Readable(v: Value)
    decreases v
  {
    match v
    case Int(w, x) => if w == W16 then x == 0 else Fits(x, w)
    case Utf8Str(_) => false
    case Array(es) => forall i :: 0 <= i < |es| ==> ReadableEntry(es[i])
    case Object(es) => forall i :: 0 <= i < |es| ==> ReadableEntry(es[i])
    case _ => true
  }

  ghost predicate ReadableEntry(e: Entry)
    decreases e
  {
    (e.key.Index? ==> e.key.i < 0x8_0000_0000) && Readable(e.value)
  }

  ghost predicate ReadableEntries(es: seq<Entry>) {
    forall i :: 0 <= i < |es| ==> ReadableEntry(es[i])
  }

  // What was read has been paid for.

  lemma {:induction false} NumberBound(b: Bytes)
    ensures FromLittleEndian(b) < Power(|b|)
  {
    if b != [] { NumberBound(b[1..]); }
  }

  lemma CountPaid(b: Bytes, p: nat, w: Width, n: nat)
    requires ReadNumber(b, p, Size(w)).Got? && n <= ReadNumber(b, p, Size(w)).value
    ensures CountSize(n) <= Size(w)
  {
    NumberBound(b[p..p + Size(w)]);
    PowerIs(w);
  }

  lemma {:induction false} Leb128Paid(b: Bytes, p: nat, left: nat)
    requires ReadLeb128(b, p, left).Got?
    ensures var r := ReadLeb128(b, p, left);
      r.value < Sevens(left) && (0 < left ==> p + |Leb128(r.value)| <= r.next)
    decreases left
  {
    if 0 < left && p < |b| && b[p] < 128 {
      Leb128Paid(b, p + 1, left - 1);
      var rest := ReadLeb128(b, p + 1, left - 1);
      var low: nat := b[p];
      assert (low + 128 * rest.value) / 128 == rest.value;
    }
  }

  lemma KeyPaid(b: Bytes, p: nat, named: bool, maxKey: nat)
    requires ReadKey(b, p, named, maxKey).Got?
    ensures var r := ReadKey(b, p, named, maxKey);
      p + KeyCost(r.value) <= r.next && (r.value.Index? ==> r.value.i < 0x8_0000_0000)
  {
    if !named {
      Leb128Paid(b, p, LEB128_MAX);
      assert Sevens(2) == 0x4000;
      assert Sevens(4) == 128 * (128 * Sevens(2));
    }
  }

  lemma IntReadable(b: Bytes, p: nat, w: Width)
    requires ReadInt(b, p, w).Got?
    ensures Readable(ReadInt(b, p, w).value) && p + Size(w) == ReadInt(b, p, w).next
    ensures Cost(ReadInt(b, p, w).value) == 1 + Size(w)
  {
    PowerIs(w);
  }

  lemma {:induction false} InsertPaid(es: seq<Entry>, e: Entry)
    ensures EntriesCost(Insert(es, e)) <= EntriesCost(es) + EntryCost(e) && |Insert(es, e)| <= |es| + 1
    ensures ReadableEntries(es) && ReadableEntry(e) ==> ReadableEntries(Insert(es, e))
    decreases |es|
  {
    hide EntryCost, ReadableEntry;
    if es == [] {
      assert [e][..0] == [];
    } else {
      var n := |es| - 1;
      if es[n].key == e.key {
        assert (es[..n] + [e])[..n] == es[..n];
      } else if KeyLess(es[n].key, e.key) {
        assert (es + [e])[..|es|] == es;
      } else {
        InsertPaid(es[..n], e);
        var front := Insert(es[..n], e);
        assert (front + [es[n]])[..|front|] == front;
      }
    }
  }

  // The values with a count, whose field starts at `p`.

  lemma StringPaid(b: Bytes, p: nat, count: nat)
    ensures var r := ReadString(b, p, count); r.Got? ==> Readable(r.value) && Cost(r.value) == 2 && p <= r.next
    ensures var r := ReadWide(b, p, count); r.Got? ==> Readable(r.value) && Cost(r.value) == 2 && p <= r.next
  {
  }

  lemma BufferPaid(b: Bytes, p: nat, w: Width)
    requires var c := ReadNumber(b, p, Size(w)); c.Got? && ReadBuffer(b, c.next, c.value).Got?
    ensures var c := ReadNumber(b, p, Size(w)); var r := ReadBuffer(b, c.next, c.value);
      Readable(r.value) && p + Cost(r.value) <= r.next + 1
  {
    var c := ReadNumber(b, p, Size(w));
    CountPaid(b, p, w, |ReadBuffer(b, c.next, c.value).value.data|);
  }

  lemma {:induction false} DecodePaid(b: Bytes, p: nat, maxKey: nat)
    requires Decode(b, p, maxKey).Got?
    ensures var r := Decode(b, p, maxKey); Readable(r.value) && p + Cost(r.value) <= r.next
    decreases |b| - p, 0
  {
    hide ReadString, ReadWide, ReadBuffer, ReadInt, DecodeTable, ReadNumber, Fits, EntriesCost, CountSize;
    var k, w := KindOf(b[p]), WidthOf(b[p]);
    if k.get == KNull || k.get == KReal {
    } else if k.get == KInt {
      IntReadable(b, p + 1, w.get);
    } else {
      var c := ReadNumber(b, p + 1, Size(w.get));
      if k.get == KArray || k.get == KObject {
        TablePaid(b, p + 1, w.get, k.get == KObject, maxKey);
      } else if k.get == KBuffer {
        BufferPaid(b, p + 1, w.get);
      } else {
        StringPaid(b, c.next, c.value);
      }
    }
  }

  lemma {:induction false} TablePaid(b: Bytes, p: nat, w: Width, named: bool, maxKey: nat)
    requires var c := ReadNumber(b, p, Size(w)); c.Got? && DecodeTable(b, c.next, named, c.value, maxKey).Got?
    ensures var c := ReadNumber(b, p, Size(w)); var r := DecodeTable(b, c.next, named, c.value, maxKey);
      Readable(r.value) && p + Cost(r.value) <= r.next + 1
    decreases |b| - p, 1
  {
    hide Decode;
    var c := ReadNumber(b, p, Size(w));
    EntriesPaid(b, c.next, named, c.value, [], maxKey);
    var r := DecodeEntries(b, c.next, named, c.value, [], maxKey);
    CountPaid(b, p, w, |r.value|);
  }

  lemma {:induction false} EntriesPaid(b: Bytes, p: nat, named: bool, count: nat, es: seq<Entry>, maxKey: nat)
    requires p <= |b| && DecodeEntries(b, p, named, count, es, maxKey).Got? && ReadableEntries(es)
    ensures var r := DecodeEntries(b, p, named, count, es, maxKey);
      && ReadableEntries(r.value) && |r.value| <= |es| + count
      && p + EntriesCost(r.value) <= r.next + EntriesCost(es)
    decreases |b| - p, count
  {
    if count != 0 {
      EntryPaid(b, p, named, maxKey);
      var e := DecodeEntry(b, p, named, maxKey);
      InsertPaid(es, e.value);
      hide ReadableEntries, EntriesCost, Insert;
      EntriesPaid(b, e.next, named, count - 1, Insert(es, e.value), maxKey);
    }
  }

  lemma {:induction false} EntryPaid(b: Bytes, p: nat, named: bool, maxKey: nat)
    requires p <= |b| && DecodeEntry(b, p, named, maxKey).Got?
    ensures var r := DecodeEntry(b, p, named, maxKey); ReadableEntry(r.value) && p + EntryCost(r.value) <= r.next
    decreases |b| - p, 0
  {
    KeyPaid(b, p, named, maxKey);
    DecodePaid(b, ReadKey(b, p, named, maxKey).next, maxKey);
  }

  // What the writer spends.

  /** Nothing in the value costs more to read than to write: no null, and no buffer whose length the
      32-bit count cuts off. */
  ghost predicate Lean(v: Value)
    decreases v
  {
    match v
    case Null => false
    case Buffer(d) => |d| < 0x1_0000_0000
    case Array(es) => forall i :: 0 <= i < |es| ==> LeanEntry(es[i])
    case Object(es) => forall i :: 0 <= i < |es| ==> LeanEntry(es[i])
    case _ => true
  }

  ghost predicate LeanEntry(e: Entry)
    decreases e
  {
    Lean(e.value)
  }

  ghost predicate LeanEntries(es: seq<Entry>) {
    forall i :: 0 <= i < |es| ==> LeanEntry(es[i])
  }

  /** No strings in the value. */
  ghost predicate Stringless(v: Value)
    decreases v
  {
    match v
    case LocalStr(_) => false
    case Utf8Str(_) => false
    case WideStr(_) => false
    case Array(es) => forall i :: 0 <= i < |es| ==> StringlessEntry(es[i])
    case Object(es) => forall i :: 0 <= i < |es| ==> StringlessEntry(es[i])
    case _ => true
  }

  ghost predicate StringlessEntry(e: Entry)
    decreases e
  {
    Stringless(e.value)
  }

  ghost predicate StringlessEntries(es: seq<Entry>) {
    forall i :: 0 <= i < |es| ==> StringlessEntry(es[i])
  }

  lemma HeaderLength(k: Kind, count: nat)
    ensures |Header(k, CountWidth(count), count)| <= 1 + CountSize(count)
    ensures count < 0x1_0000_0000 ==> |Header(k, CountWidth(count), count)| == 1 + CountSize(count)
    ensures 0x1_0000_0000 <= count ==> |Header(k, CountWidth(count), count)| < 1 + CountSize(count)
  {
  }

  lemma {:induction false} Spent(v: Value)
    requires Encode(v).Some? && Stringless(v)
    ensures |Encode(v).get| <= Cost(v)
    ensures |Encode(v).get| == Cost(v) ==> Lean(v)
    decreases v, 2
  {
    hide Header, CountSize, EncodeTable, EntriesCost;
    match v
    case Buffer(d) => HeaderLength(KBuffer, |d|);
    case Array(es) => TableSpent(KArray, es);
    case Object(es) => TableSpent(KObject, es);
    case _ =>
  }

  lemma {:induction false} TableSpent(k: Kind, es: seq<Entry>)
    requires EncodeTable(k, es).Some? && StringlessEntries(es)
    ensures |EncodeTable(k, es).get| <= 1 + CountSize(|es|) + EntriesCost(es)
    ensures |EncodeTable(k, es).get| == 1 + CountSize(|es|) + EntriesCost(es) ==> LeanEntries(es)
    decreases es, 1
  {
    hide Header, CountSize, EntriesCost, LeanEntries;
    HeaderLength(k, |es|);
    EntriesSpent(es);
  }

  lemma {:induction false} EntriesSpent(es: seq<Entry>)
    requires EncodeEntries(es).Some? && StringlessEntries(es)
    ensures |EncodeEntries(es).get| <= EntriesCost(es)
    ensures |EncodeEntries(es).get| == EntriesCost(es) ==> LeanEntries(es)
    decreases es, 0
  {
    hide EncodeEntry, EntryCost, LeanEntry, StringlessEntry;
    if es != [] {
      var n := |es| - 1;
      EntriesSpent(es[..n]);
      EntrySpent(es[n]);
      assert es == es[..n] + [es[n]];
    }
  }

  lemma {:induction false} EntrySpent(e: Entry)
    requires EncodeEntry(e).Some? && StringlessEntry(e)
    ensures |EncodeEntry(e).get| <= EntryCost(e)
    ensures |EncodeEntry(e).get| == EntryCost(e) ==> LeanEntry(e)
    decreases e
  {
    hide Encode, Cost, Lean, Leb128;
    Spent(e.value);
  }

  // Admissible values are those the writer can write, at what they cost, and the reader can produce.

  lemma {:induction false} AdmissibleIs(v: Value)
    ensures Admissible(v) <==> Encode(v).Some? && Readable(v) && Lean(v)
    decreases v, 2
  {
    hide Header, Fits, EncodeTable;
    match v
    case Array(es) => TableAdmissible(KArray, es);
    case Object(es) => TableAdmissible(KObject, es);
    case _ =>
  }

  ghost predicate AdmissibleEntries(es: seq<Entry>) {
    forall i :: 0 <= i < |es| ==> AdmissibleEntry(es[i])
  }

  lemma {:induction false} TableAdmissible(k: Kind, es: seq<Entry>)
    ensures |es| < 0x1_0000 && AdmissibleEntries(es)
      <==> EncodeTable(k, es).Some? && ReadableEntries(es) && LeanEntries(es)
    decreases es, 1
  {
    hide Header;
    EntriesAdmissible(es);
  }

  lemma {:induction false} EntriesAdmissible(es: seq<Entry>)
    ensures AdmissibleEntries(es) <==> EncodeEntries(es).Some? && ReadableEntries(es) && LeanEntries(es)
    decreases es, 0
  {
    hide EncodeEntry, AdmissibleEntry, ReadableEntry, LeanEntry;
    if es != [] {
      var n := |es| - 1;
      EntriesAdmissible(es[..n]);
      EntryAdmissible(es[n]);
      assert es == es[..n] + [es[n]];
    }
  }

  lemma {:induction false} EntryAdmissible(e: Entry)
    ensures AdmissibleEntry(e) <==> EncodeEntry(e).Some? && ReadableEntry(e) && LeanEntry(e)
    decreases e
  {
    hide Encode, Admissible, Readable, Lean, Leb128;
    AdmissibleIs(e.value);
  }
}
