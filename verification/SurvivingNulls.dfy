/** A value with nulls that comes back all the same. Nothing is written for a null, so the reader takes a byte
    of what follows for it, and is ahead of the writer from then on. Here it falls back with a string that it
    reads with a zero count: its characters are read a second time. */
module SurvivingNulls {
  import opened Values
  import opened ValueReader
  import opened ValueRoundTrip
  import opened ValueSurvival

  // The bytes after the headers of the nested tables.

  const LENGTH: nat := 153
  const STRING: nat := 53
  const AGAIN: nat := 103

  function ByteAt(i: nat): u8 {
    if LENGTH - 2 <= i then 0
    else if AGAIN <= i then ByteAt(i - (AGAIN - STRING))
    else if i == 32 || i == 49 || i == 65 || i == 98 || i == 101 || i == 102 then 0
    else if i == 16 then 0x10
    else if i == 33 || i == 67 then 0x20
    else if i == 51 then 0x05
    else if i == 52 then 0x19
    else if i == 53 then 0x91
    else if i == 54 then 0x06
    else if i == 55 then 0x2F
    else if 56 <= i <= 64 then 0x41
    else if i == 100 then 0x15
    else 0x90
  }

  function Tail(i: nat, j: nat): (r: Bytes)
    requires i <= j
    ensures |r| == j - i && forall k :: 0 <= k < |r| ==> r[k] == ByteAt(i + k)
  {
    seq<u8>(j - i, (k: nat) => ByteAt(i + k))
  }

  lemma TailParts(i: nat, j: nat, k: nat)
    requires i <= j <= k
    ensures Tail(i, k) == Tail(i, j) + Tail(j, k)
  {
  }

  // The value.

  /** An array of two entries. */
  function Pair(first: Value, key: nat, second: Value): Value {
    Array([Entry(Index(0), first), Entry(Index(key), second)])
  }

  function Nest(v: Value, n: nat): Value {
    if n == 0 then v else Pair(Nest(v, n - 1), 16, Null)
  }

  function LongName(): Bytes { seq(15, _ => 0x90) }

  function Named(v: Value): Value {
    Object([Entry(Name([1]), v), Entry(Name(LongName()), Null)])
  }

  function Text(): seq<u16> { Wide(Tail(STRING, STRING + 48)) }

  function Innermost(): Value { Nest(Array([Entry(Index(0), Null)]), 16) }

  function Middle(): Value { Nest(Pair(Named(Innermost()), 2080, Null), 14) }

  function Survivor(): Value {
    Pair(Pair(Middle(), 2048, WideStr(Text())), 17, Buffer(Tail(106, LENGTH)))
  }

  // What is written for it.

  /** The encoding is that of `heads` tables begun, and the first `n` bytes of the tail. */
  ghost predicate WrittenTo(v: Value, heads: Bytes, n: nat) {
    Encode(v) == Some(heads + Tail(0, n))
  }

  lemma EntriesTwo(e: Entry, f: Entry)
    requires EncodeEntry(e).Some? && EncodeEntry(f).Some?
    ensures EncodeEntries([e, f]) == Some(EncodeEntry(e).get + EncodeEntry(f).get)
  {
    hide EncodeEntry;
    assert [e, f][..1] == [e] && [e][..0] == [];
    NoEntries();
    assert EncodeEntries([e]) == Some([] + EncodeEntry(e).get);
    assert [] + EncodeEntry(e).get == EncodeEntry(e).get;
  }

  lemma TableTwo(k: Kind, e: Entry, f: Entry)
    requires EncodeEntry(e).Some? && EncodeEntry(f).Some?
    ensures EncodeTable(k, [e, f]) == Some([TypeByte(k, W8), 2] + (EncodeEntry(e).get + EncodeEntry(f).get))
  {
    hide EncodeEntry, EncodeEntries;
    EntriesTwo(e, f);
    assert LittleEndian(2, 1) == [2] + LittleEndian(0, 0);
    assert Header(k, W8, 2) == [TypeByte(k, W8), 2];
  }

  lemma PairEncoded(v: Value, key: nat, second: Value)
    requires Encode(v).Some? && Encode(second).Some?
    ensures Encode(Pair(v, key, second)) == Some([7, 2] + ([0x80] + Encode(v).get + (Leb128(key) + Encode(second).get)))
  {
    hide EncodeTable, Encode;
    var e, f := Entry(Index(0), v), Entry(Index(key), second);
    assert Leb128(0) == [0x80];
    hide Leb128;
    assert EncodeEntry(e) == Some([0x80] + Encode(v).get);
    assert EncodeEntry(f) == Some(Leb128(key) + Encode(second).get);
    hide EncodeEntry;
    TableTwo(KArray, e, f);
    ArrayEncoded([e, f]);
  }

  lemma ArrayEncoded(es: seq<Entry>)
    ensures Encode(Array(es)) == EncodeTable(KArray, es) && Encode(Object(es)) == EncodeTable(KObject, es)
  {
  }

  lemma PairWritten(v: Value, heads: Bytes, n: nat, key: nat, second: Value, m: nat)
    requires WrittenTo(v, heads, n) && n <= m && Encode(second).Some? && Leb128(key) + Encode(second).get == Tail(n, m)
    ensures WrittenTo(Pair(v, key, second), [7, 2, 0x80] + heads, m)
  {
    hide Encode, Leb128;
    PairEncoded(v, key, second);
    TailParts(0, n, m);
    var t := Tail(0, n);
    assert [7, 2] + ([0x80] + (heads + t) + Tail(n, m)) == ([7, 2, 0x80] + heads) + (t + Tail(n, m));
  }

  function Heads(n: nat): (r: Bytes)
    ensures |r| == 3 * n
  {
    if n == 0 then [] else [7, 2, 0x80] + Heads(n - 1)
  }

  lemma {:induction false} NestWritten(v: Value, heads: Bytes, n: nat, count: nat)
    requires WrittenTo(v, heads, n) && forall i :: n <= i < n + count ==> ByteAt(i) == 0x90
    ensures WrittenTo(Nest(v, count), Heads(count) + heads, n + count)
  {
    if count == 0 {
      assert [] + heads == heads;
    } else {
      NestWritten(v, heads, n, count - 1);
      assert Leb128(16) + [] == [0x90];
      assert Tail(n + count - 1, n + count) == [0x90];
      hide Leb128, Encode;
      NullWritten();
      PairWritten(Nest(v, count - 1), Heads(count - 1) + heads, n + count - 1, 16, Null, n + count);
      assert [7, 2, 0x80] + (Heads(count - 1) + heads) == Heads(count) + heads;
    }
  }

  lemma NullWritten()
    ensures Encode(Null) == Some([])
  {
  }

  lemma NamedWritten(v: Value, heads: Bytes)
    requires WrittenTo(v, heads, 16)
    ensures WrittenTo(Named(v), [8, 2, 2, 1, 0] + heads, 33)
  {
    hide EncodeTable, Encode;
    NullWritten();
    var e, f := Entry(Name([1]), v), Entry(Name(LongName()), Null);
    var key: Bytes := [16] + LongName() + [0];
    assert EncodeKey(e.key) == Some([2] + [1] + [0]);
    assert [2] + [1] + [0] == [2, 1, 0];
    assert EncodeKey(f.key) == Some(key);
    assert EncodeEntry(e) == Some([2, 1, 0] + Encode(v).get);
    assert EncodeEntry(f) == Some(key + []) by { hide LongName; }
    hide EncodeEntry;
    TableTwo(KObject, e, f);
    ArrayEncoded([e, f]);
    assert key + [] == Tail(16, 33);
    TailParts(0, 16, 33);
    var t := Tail(0, 16);
    assert [8, 2] + ([2, 1, 0] + (heads + t) + Tail(16, 33)) == ([8, 2, 2, 1, 0] + heads) + (t + Tail(16, 33));
  }

  lemma FirstWritten()
    ensures WrittenTo(Array([Entry(Index(0), Null)]), [7, 1, 0x80], 0)
  {
    var e := Entry(Index(0), Null);
    NullWritten();
    NoEntries();
    assert Leb128(0) + [] == [0x80];
    assert EncodeEntry(e) == Some([0x80]);
    assert [e][..0] == [];
    assert EncodeEntries([e]) == Some([] + [0x80]);
    assert LittleEndian(1, 1) == [1] + LittleEndian(0, 0);
    ArrayEncoded([e]);
    assert Header(KArray, W8, 1) == [7, 1];
    hide Header, EncodeEntries, Encode, EncodeEntry, LittleEndian, Leb128;
    assert [] + [0x80] == [0x80];
    assert EncodeTable(KArray, [e]) == Some([7, 1] + [0x80]);
    assert [7, 1] + [0x80] == [7, 1, 0x80] + Tail(0, 0);
  }

  lemma InnermostWritten()
    ensures WrittenTo(Innermost(), Heads(16) + [7, 1, 0x80], 16)
  {
    FirstWritten();
    NestWritten(Array([Entry(Index(0), Null)]), [7, 1, 0x80], 0, 16);
  }

  /** The wide characters of `b` have its bytes. */
  lemma {:induction false} BytesOfWide(b: Bytes)
    requires |b| % 2 == 0
    ensures WideBytes(Wide(b) + [0]) == b + [0, 0]
  {
    hide Wide, WideBytes;
    if b == [] {
      NoWide();
      assert [] + [0] == [0];
    } else {
      BytesOfWide(b[2..]);
      var low: nat, high: nat := b[0], b[1];
      var x: u16 := low + 256 * high;
      WideStep(b, x);
      assert [x] + Wide(b[2..]) + [0] == [x] + (Wide(b[2..]) + [0]);
      CharStep(x, Wide(b[2..]) + [0]);
      TwoBytes(x, low, high);
      assert [b[0], b[1]] + (b[2..] + [0, 0]) == b + [0, 0];
    }
  }

  lemma NoWide()
    ensures Wide([]) == [] && WideBytes([0]) == [0, 0]
  {
    assert LittleEndian(0, 2) == [0] + LittleEndian(0, 1);
  }

  lemma {:induction false} WideAt(b: Bytes, i: nat)
    requires 2 * i + 1 < |b|
    ensures var low: nat, high: nat := b[2 * i], b[2 * i + 1]; Wide(b)[i] == low + 256 * high
    decreases i
  {
    if i != 0 { WideAt(b[2..], i - 1); }
  }

  lemma TextIsWide()
    ensures |Text()| == 24 && 0 !in Text() && WideBytes(Text() + [0]) == Tail(STRING, AGAIN)
  {
    var t := Tail(STRING, STRING + 48);
    BytesOfWide(t);
    forall i | 0 <= i < 24 ensures Text()[i] != 0 {
      WideAt(t, i);
      assert t[2 * i] == ByteAt(STRING + 2 * i) && t[2 * i + 1] == ByteAt(STRING + 2 * i + 1);
      assert ByteAt(STRING + 2 * i) != 0 || ByteAt(STRING + 2 * i + 1) != 0;
    }
    assert t + [0, 0] == Tail(STRING, AGAIN);
  }

  lemma TextWritten()
    ensures Encode(WideStr(Text())) == Some(Tail(51, AGAIN))
  {
    TextIsWide();
    hide Text;
    assert LittleEndian(25, 1) == [25] + LittleEndian(0, 0);
    assert Header(KWideStr, W8, 25) == [5, 25] == Tail(51, 53);
    TailParts(51, 53, AGAIN);
  }

  lemma BufferWritten()
    ensures Encode(Buffer(Tail(106, LENGTH))) == Some(Tail(104, LENGTH))
  {
    assert LittleEndian(47, 1) == [47] + LittleEndian(0, 0);
    assert ByteAt(104) == ByteAt(54) && ByteAt(105) == ByteAt(55);
    assert Header(KBuffer, W8, 47) == [6, 47] == Tail(104, 106);
    TailParts(104, 106, LENGTH);
  }

  function MiddleHeads(): Bytes { Heads(14) + ([7, 2, 0x80] + ([8, 2, 2, 1, 0] + (Heads(16) + [7, 1, 0x80]))) }

  function AllHeads(): Bytes { [7, 2, 0x80] + ([7, 2, 0x80] + MiddleHeads()) }

  lemma Keys()
    ensures Leb128(2080) == [0x20, 0x90] && Leb128(2048) == [0, 0x90] && Leb128(17) == [0x91]
  {
  }

  lemma MiddleWritten()
    ensures WrittenTo(Middle(), MiddleHeads(), 49)
  {
    hide Leb128, Encode;
    InnermostWritten();
    NamedWritten(Innermost(), Heads(16) + [7, 1, 0x80]);
    Keys();
    NullWritten();
    assert [0x20, 0x90] == Tail(33, 35);
    assert Leb128(2080) + [] == Leb128(2080);
    PairWritten(Named(Innermost()), [8, 2, 2, 1, 0] + (Heads(16) + [7, 1, 0x80]), 33, 2080, Null, 35);
    NestWritten(Pair(Named(Innermost()), 2080, Null),
      [7, 2, 0x80] + ([8, 2, 2, 1, 0] + (Heads(16) + [7, 1, 0x80])), 35, 14);
  }

  lemma SurvivorWritten()
    ensures Encode(Survivor()) == Some(AllHeads() + Tail(0, LENGTH))
  {
    hide Leb128, Encode, Text, Middle, MiddleHeads;
    MiddleWritten();
    Keys();
    TextWritten();
    BufferWritten();
    TailParts(49, 51, AGAIN);
    assert [0, 0x90] == Tail(49, 51);
    PairWritten(Middle(), MiddleHeads(), 49, 2048, WideStr(Text()), AGAIN);
    TailParts(AGAIN, 104, LENGTH);
    assert [0x91] == Tail(AGAIN, 104);
    PairWritten(Pair(Middle(), 2048, WideStr(Text())), [7, 2, 0x80] + MiddleHeads(), AGAIN, 17,
                Buffer(Tail(106, LENGTH)), LENGTH);
  }

  // What is read from it.

  /** The tail stands in `b` from `h` on. */
  ghost predicate TailStands(b: Bytes, h: nat) {
    h + LENGTH <= |b| && forall i :: 0 <= i < LENGTH ==> b[h + i] == ByteAt(i)
  }

  lemma TailByte(b: Bytes, h: nat, i: nat)
    requires TailStands(b, h) && i < LENGTH
    ensures h + i < |b| && b[h + i] == ByteAt(i)
  {
  }

  /** A key of one byte, which is 16, and a byte that can be read as a null. */
  predicate KeyThenNull(i: nat) {
    ByteAt(i) == 0x90 && ByteAt(i + 1) % 16 == 0
  }

  lemma Alternating(i: nat)
    requires (i % 2 == 1 && i < 32) || (i % 2 == 0 && 70 <= i < 98)
    ensures KeyThenNull(i)
  {
  }

  lemma KeysAndNulls(b: Bytes, h: nat, n: nat, count: nat)
    requires TailStands(b, h) && (n, count) in [(1, 16), (70, 14)]
    ensures h + n + 2 * count <= |b|
    ensures forall i :: 0 <= i < count ==> b[h + n + 2 * i] == 0x90 && b[h + n + 2 * i + 1] % 16 == 0
  {
    hide TailStands, ByteAt;
    TailByte(b, h, LENGTH - 1);
    forall i | 0 <= i < count ensures b[h + n + 2 * i] == 0x90 && b[h + n + 2 * i + 1] % 16 == 0 {
      TailByte(b, h, n + 2 * i);
      TailByte(b, h, n + 2 * i + 1);
      Alternating(n + 2 * i);
    }
  }

  lemma TwoEntries(b: Bytes, p: nat, named: bool, e: Entry, q: nat, f: Entry, r: nat, maxKey: nat)
    requires p <= |b| && KeyLess(e.key, f.key)
    requires DecodeEntry(b, p, named, maxKey) == Got(e, q) && DecodeEntry(b, q, named, maxKey) == Got(f, r)
    ensures DecodeEntries(b, p, named, 2, [], maxKey) == Got([e, f], r)
  {
    hide DecodeEntry;
    if e.key == f.key { KeyLessStrict(e.key); }
    assert Insert([], e) == [e] && Insert([e], f) == [e, f];
    NoMoreEntries(b, r, named, [e, f], maxKey);
    OneMoreEntry(b, q, named, 1, [e], maxKey);
    OneMoreEntry(b, p, named, 2, [], maxKey);
  }

  lemma CountRead(b: Bytes, p: nat, k: Kind, count: u8)
    requires Stands(b, p, [TypeByte(k, W8), count])
    ensures p + 2 <= |b| && KindOf(b[p]) == Some(k) && WidthOf(b[p]) == Some(W8)
    ensures ReadNumber(b, p + 1, Size(W8)) == Got(count as nat, p + 2)
  {
    TypeByteBack(k, W8);
    assert b[p..p + 2][0] == b[p] && b[p..p + 2][1] == b[p + 1];
    assert b[p + 1..p + 2] == [count];
    assert FromLittleEndian([count]) == count + 256 * FromLittleEndian([]);
  }

  lemma PairBegun(b: Bytes, p: nat, maxKey: nat)
    requires Stands(b, p, [7, 2, 0x80])
    ensures p + 3 <= |b| && KindOf(b[p]) == Some(KArray) && WidthOf(b[p]) == Some(W8)
    ensures ReadNumber(b, p + 1, 1) == Got(2, p + 2) && ReadKey(b, p + 2, false, maxKey) == Got(Index(0), p + 3)
  {
    StandsParts(b, p, [7, 2], [0x80]);
    assert [7, 2] + [0x80] == [7, 2, 0x80];
    CountRead(b, p, KArray, 2);
    assert b[p + 2..p + 3][0] == b[p + 2];
  }

  lemma PairRead(b: Bytes, p: nat, v: Value, q: nat, key: nat, r: nat, second: Value, next: nat, maxKey: nat)
    requires Stands(b, p, [7, 2, 0x80]) && Decode(b, p + 3, maxKey) == Got(v, q)
    requires 0 < key && ReadLeb128(b, q, LEB128_MAX) == Got(key, r) && Decode(b, r, maxKey) == Got(second, next)
    ensures Decode(b, p, maxKey) == Got(Pair(v, key, second), next)
  {
    PairBegun(b, p, maxKey);
    hide Decode, Stands, ReadLeb128, ReadNumber;
    var e, f := Entry(Index(0), v), Entry(Index(key), second);
    assert DecodeEntry(b, p + 2, false, maxKey) == Got(e, q);
    assert DecodeEntry(b, q, false, maxKey) == Got(f, next);
    hide DecodeEntry;
    TwoEntries(b, p + 2, false, e, q, f, next, maxKey);
    TableDecoded(b, p, KArray, W8, [e, f], p + 2, maxKey);
  }

  lemma NullRead(b: Bytes, p: nat, maxKey: nat)
    requires p < |b| && b[p] % 16 == 0
    ensures Decode(b, p, maxKey) == Got(Null, p + 1)
  {
  }

  /** Keys and nulls alternate. */
  lemma {:induction false} NestRead(b: Bytes, p: nat, v: Value, q: nat, count: nat, maxKey: nat)
    requires Stands(b, p, Heads(count)) && Decode(b, p + 3 * count, maxKey) == Got(v, q) && q + 2 * count <= |b|
    requires forall i :: 0 <= i < count ==> b[q + 2 * i] == 0x90 && b[q + 2 * i + 1] % 16 == 0
    ensures Decode(b, p, maxKey) == Got(Nest(v, count), q + 2 * count)
    decreases count
  {
    hide Decode;
    if count != 0 {
      var r := q + 2 * (count - 1);
      StandsParts(b, p, [7, 2, 0x80], Heads(count - 1));
      NestRead(b, p + 3, v, q, count - 1, maxKey);
      assert b[r] == 0x90;
      NullRead(b, r + 1, maxKey);
      PairRead(b, p, Nest(v, count - 1), r, 16, r + 1, Null, r + 2, maxKey);
    }
  }

  lemma FirstRead(b: Bytes, p: nat, maxKey: nat)
    requires Stands(b, p, [7, 1, 0x80]) && p + 3 < |b| && b[p + 3] % 16 == 0
    ensures Decode(b, p, maxKey) == Got(Array([Entry(Index(0), Null)]), p + 4)
  {
    StandsParts(b, p, [7, 1], [0x80]);
    assert [7, 1] + [0x80] == [7, 1, 0x80];
    CountRead(b, p, KArray, 1);
    assert b[p + 2..p + 3][0] == b[p + 2];
    NullRead(b, p + 3, maxKey);
    hide Decode;
    var e := Entry(Index(0), Null);
    assert DecodeEntry(b, p + 2, false, maxKey) == Got(e, p + 4);
    hide DecodeEntry;
    assert Insert([], e) == [e];
    OneMoreEntry(b, p + 2, false, 1, [], maxKey);
    NoMoreEntries(b, p + 4, false, [e], maxKey);
    TableDecoded(b, p, KArray, W8, [e], p + 2, maxKey);
  }

  lemma InnermostRead(b: Bytes, p: nat, h: nat, maxKey: nat)
    requires Stands(b, p, Heads(16) + [7, 1, 0x80]) && h == p + 51 && TailStands(b, h)
    ensures Decode(b, p, maxKey) == Got(Innermost(), h + 33)
  {
    hide Decode, Stands, TailStands, Nest;
    StandsParts(b, p, Heads(16), [7, 1, 0x80]);
    TailByte(b, h, 0);
    FirstRead(b, p + 48, maxKey);
    TailByte(b, h, 32);
    hide ByteAt;
    KeysAndNulls(b, h, 1, 16);
    NestRead(b, p, Array([Entry(Index(0), Null)]), h + 1, 16, maxKey);
  }

  /** The name is followed by more bytes that its count takes in. */
  lemma NameRead(b: Bytes, h: nat, maxKey: nat)
    requires TailStands(b, h) && 15 <= maxKey
    ensures ReadName(b, h + 33, maxKey) == Got(Name(LongName()), h + 66)
  {
    var text := b[h + 34..h + 66];
    forall i | 0 <= i < 32 ensures text[i] == ByteAt(34 + i) {
      assert b[h + (34 + i)] == ByteAt(34 + i);
    }
    assert b[h + 33] == ByteAt(33) && b[h + 65] == ByteAt(65);
    assert text == LongName() + [0] + text[16..];
    CStringBack(LongName(), 0, text[16..]);
  }

  lemma ShortNameRead(b: Bytes, p: nat, maxKey: nat)
    requires Stands(b, p, [2, 1, 0]) && 0 < maxKey
    ensures p + 3 <= |b| && ReadName(b, p, maxKey) == Got(Name([1]), p + 3)
  {
    var t := b[p..p + 3];
    assert t[0] == b[p] && t[1] == b[p + 1] && t[2] == b[p + 2];
    assert b[p + 1..p + 3] == [1] + [0] + [];
    CStringBack([1], 0, []);
  }

  lemma NamedRead(b: Bytes, p: nat, v: Value, h: nat, maxKey: nat)
    requires Stands(b, p, [8, 2, 2, 1, 0]) && Decode(b, p + 5, maxKey) == Got(v, h + 33) && TailStands(b, h)
    requires 15 <= maxKey
    ensures Decode(b, p, maxKey) == Got(Named(v), h + 67)
  {
    hide Decode, ReadName, LongName, TailStands, Stands;
    StandsParts(b, p, [8, 2], [2, 1, 0]);
    assert [8, 2] + [2, 1, 0] == [8, 2, 2, 1, 0];
    CountRead(b, p, KObject, 2);
    ShortNameRead(b, p + 2, maxKey);
    NameRead(b, h, maxKey);
    TailByte(b, h, 66);
    NullRead(b, h + 66, maxKey);
    var e, f := Entry(Name([1]), v), Entry(Name(LongName()), Null);
    assert DecodeEntry(b, p + 2, true, maxKey) == Got(e, h + 33);
    assert DecodeEntry(b, h + 33, true, maxKey) == Got(f, h + 67);
    hide DecodeEntry, ReadNumber;
    NamesInOrder();
    TwoEntries(b, p + 2, true, e, h + 33, f, h + 67, maxKey);
    TableDecoded(b, p, KObject, W8, [e, f], p + 2, maxKey);
  }

  lemma NamesInOrder()
    ensures KeyLess(Name([1]), Name(LongName()))
  {
    assert LongName()[0] == 0x90;
  }

  lemma LongKeyRead(b: Bytes, h: nat, i: nat, low: nat)
    requires TailStands(b, h) && i + 1 < LENGTH && ByteAt(i) == low < 128 && ByteAt(i + 1) == 0x90
    ensures ReadLeb128(b, h + i, LEB128_MAX) == Got(low + 2048, h + i + 2)
  {
    assert b[h + i] == low && b[h + (i + 1)] == 0x90;
    assert ReadLeb128(b, h + i + 1, 4) == Got(16, h + i + 2);
  }

  lemma OuterNamedRead(b: Bytes, p: nat, h: nat, maxKey: nat)
    requires Stands(b, p, [7, 2, 0x80]) && Stands(b, p + 3, [8, 2, 2, 1, 0])
    requires Stands(b, p + 8, Heads(16) + [7, 1, 0x80])
    requires h == p + 59 && TailStands(b, h) && 15 <= maxKey
    ensures Decode(b, p, maxKey) == Got(Pair(Named(Innermost()), 2080, Null), h + 70)
  {
    hide Decode, Stands, TailStands, ReadLeb128, Innermost, Named, Heads;
    InnermostRead(b, p + 8, h, maxKey);
    NamedRead(b, p + 3, Innermost(), h, maxKey);
    LongKeyRead(b, h, 67, 32);
    TailByte(b, h, 69);
    NullRead(b, h + 69, maxKey);
    PairRead(b, p, Named(Innermost()), h + 67, 2080, h + 69, Null, h + 70, maxKey);
  }

  lemma MiddleStands(b: Bytes, p: nat)
    requires Stands(b, p, MiddleHeads())
    ensures Stands(b, p, Heads(14)) && Stands(b, p + 42, [7, 2, 0x80]) && Stands(b, p + 45, [8, 2, 2, 1, 0])
    ensures Stands(b, p + 50, Heads(16) + [7, 1, 0x80])
  {
    hide Stands, Heads;
    var inner: Bytes := Heads(16) + [7, 1, 0x80];
    StandsParts(b, p, Heads(14), [7, 2, 0x80] + ([8, 2, 2, 1, 0] + inner));
    StandsParts(b, p + 42, [7, 2, 0x80], [8, 2, 2, 1, 0] + inner);
    StandsParts(b, p + 45, [8, 2, 2, 1, 0], inner);
  }

  lemma MiddleRead(b: Bytes, p: nat, h: nat, maxKey: nat)
    requires Stands(b, p, MiddleHeads()) && h == p + 101 && TailStands(b, h) && 15 <= maxKey
    ensures Decode(b, p, maxKey) == Got(Middle(), h + 98)
  {
    hide Decode, Stands, TailStands, Nest, Innermost, Named;
    MiddleStands(b, p);
    hide Heads;
    OuterNamedRead(b, p + 42, h, maxKey);
    TailByte(b, h, 97);
    hide ByteAt;
    KeysAndNulls(b, h, 70, 14);
    NestRead(b, p, Pair(Named(Innermost()), 2080, Null), h + 70, 14, maxKey);
  }

  /** The bytes of the text follow once more, with two zeros. */
  lemma TextAgain(b: Bytes, h: nat)
    requires TailStands(b, h)
    ensures h + LENGTH <= |b| && b[h + AGAIN..] == WideBytes(Text() + [0]) + b[h + LENGTH..]
  {
    TextIsWide();
    hide Text, TailStands, WideBytes;
    var t := WideBytes(Text() + [0]);
    TailByte(b, h, LENGTH - 1);
    forall i | 0 <= i < 50 ensures b[h + AGAIN + i] == t[i] {
      TailByte(b, h, AGAIN + i);
      assert t[i] == ByteAt(STRING + i);
      assert i < 48 ==> ByteAt(AGAIN + i) == ByteAt(STRING + i);
    }
    assert b[h + AGAIN..h + LENGTH] == t;
    assert b[h + AGAIN..] == b[h + AGAIN..h + LENGTH] + b[h + LENGTH..];
  }

  lemma ZeroCount(b: Bytes, p: nat)
    requires p + 2 <= |b| && b[p] == 0 && b[p + 1] == 0
    ensures ReadNumber(b, p, 2) == Got(0, p + 2)
  {
    var count := b[p..p + 2];
    assert FromLittleEndian(count) == 0 + 256 * FromLittleEndian(count[1..]);
    assert count[1..] == [0] && FromLittleEndian([0]) == 0 + 256 * FromLittleEndian([0][1..]);
  }

  lemma TextRead(b: Bytes, h: nat, maxKey: nat)
    requires TailStands(b, h)
    ensures Decode(b, h + 100, maxKey) == Got(WideStr(Text()), h + AGAIN)
  {
    TextIsWide();
    TextAgain(b, h);
    hide Text, TailStands, WideBytes, Wide, CString;
    TailByte(b, h, 100);
    TailByte(b, h, 101);
    TailByte(b, h, 102);
    ZeroCount(b, h + 101);
    var rest := b[h + LENGTH..];
    WideBack(Text() + [0], rest);
    CStringBack(Text(), 0, Wide(rest));
    assert (Text() + [0] + Wide(rest))[24] == 0;
    assert ReadWide(b, h + AGAIN, 0) == Got(WideStr(Text()), h + AGAIN);
    WideDecoded(b, h + 100, maxKey);
  }

  lemma WideDecoded(b: Bytes, p: nat, maxKey: nat)
    requires p < |b| && b[p] == 0x15 && ReadNumber(b, p + 1, 2).Got?
    ensures Decode(b, p, maxKey) == ReadWide(b, p + 3, ReadNumber(b, p + 1, 2).value)
  {
    hide ReadWide;
    assert KindOf(b[p]) == Some(KWideStr) && WidthOf(b[p]) == Some(W16);
  }

  lemma BufferRead(b: Bytes, h: nat, maxKey: nat)
    requires TailStands(b, h)
    ensures Decode(b, h + 104, maxKey) == Got(Buffer(Tail(106, LENGTH)), h + LENGTH)
  {
    assert ByteAt(104) == ByteAt(54) && ByteAt(105) == ByteAt(55);
    assert b[h + 104] == ByteAt(104) && b[h + 105] == ByteAt(105);
    assert b[h + 104..h + 106] == [6, 47];
    CountRead(b, h + 104, KBuffer, 47);
    forall i | 106 <= i < LENGTH ensures b[h + i] == ByteAt(i) {
    }
    assert b[h + 106..h + LENGTH] == Tail(106, LENGTH);
  }

  lemma LastKeyRead(b: Bytes, h: nat)
    requires TailStands(b, h)
    ensures ReadLeb128(b, h + AGAIN, LEB128_MAX) == Got(17, h + 104)
  {
    TailByte(b, h, AGAIN);
    assert ByteAt(AGAIN) == ByteAt(STRING);
  }

  lemma SurvivorStands(b: Bytes)
    requires Stands(b, 0, AllHeads() + Tail(0, LENGTH))
    ensures Stands(b, 0, [7, 2, 0x80]) && Stands(b, 3, [7, 2, 0x80]) && Stands(b, 6, MiddleHeads())
    ensures TailStands(b, 107)
  {
    StandsParts(b, 0, AllHeads(), Tail(0, LENGTH));
    forall i | 0 <= i < LENGTH ensures b[107 + i] == ByteAt(i) {
      assert b[107 + i] == b[107..107 + LENGTH][i];
    }
    hide Stands, MiddleHeads, Tail;
    StandsParts(b, 0, [7, 2, 0x80], [7, 2, 0x80] + MiddleHeads());
    StandsParts(b, 3, [7, 2, 0x80], MiddleHeads());
  }

  lemma SurvivorRead(b: Bytes, maxKey: nat)
    requires Stands(b, 0, AllHeads() + Tail(0, LENGTH)) && 15 <= maxKey
    ensures Decode(b, 0, maxKey) == Got(Survivor(), 107 + LENGTH)
  {
    hide Decode, Stands, TailStands, Tail, MiddleHeads, AllHeads, Middle, Text, ReadLeb128;
    SurvivorStands(b);
    var h := 107;
    MiddleRead(b, 6, h, maxKey);
    LongKeyRead(b, h, 98, 0);
    TextRead(b, h, maxKey);
    PairRead(b, 3, Middle(), h + 98, 2048, h + 100, WideStr(Text()), h + AGAIN, maxKey);
    LastKeyRead(b, h);
    BufferRead(b, h, maxKey);
    PairRead(b, 0, Pair(Middle(), 2048, WideStr(Text())), h + AGAIN, 17, h + 104, Buffer(Tail(106, LENGTH)),
             h + LENGTH, maxKey);
  }

  lemma {:induction false} NestFormed(v: Value, count: nat, maxKey: nat)
    requires WellFormed(v, maxKey)
    ensures WellFormed(Nest(v, count), maxKey)
  {
    if count != 0 { NestFormed(v, count - 1, maxKey); }
  }

  lemma PairFormed(v: Value, key: nat, second: Value, maxKey: nat)
    requires WellFormed(v, maxKey) && WellFormed(second, maxKey) && 0 < key
    ensures WellFormed(Pair(v, key, second), maxKey)
  {
  }

  lemma NamedFormed(v: Value, maxKey: nat)
    requires WellFormed(v, maxKey) && 15 <= maxKey
    ensures WellFormed(Named(v), maxKey)
  {
    NamesInOrder();
    hide NameLess;
  }

  lemma FirstFormed(maxKey: nat)
    ensures WellFormed(Array([Entry(Index(0), Null)]), maxKey)
  {
  }

  lemma LeavesFormed(s: seq<u16>, d: Bytes, maxKey: nat)
    requires 0 !in s
    ensures WellFormed(WideStr(s), maxKey) && WellFormed(Buffer(d), maxKey) && WellFormed(Null, maxKey)
  {
  }

  lemma SurvivorFormed(maxKey: nat)
    requires 15 <= maxKey
    ensures WellFormed(Survivor(), maxKey)
  {
    FirstFormed(maxKey);
    NestFormed(Array([Entry(Index(0), Null)]), 16, maxKey);
    TextIsWide();
    hide Nest, Text, Named, Tail, Pair;
    LeavesFormed(Text(), Tail(106, LENGTH), maxKey);
    hide WellFormed;
    NamedFormed(Innermost(), maxKey);
    PairFormed(Named(Innermost()), 2080, Null, maxKey);
    NestFormed(Pair(Named(Innermost()), 2080, Null), 14, maxKey);
    PairFormed(Middle(), 2048, WideStr(Text()), maxKey);
    PairFormed(Pair(Middle(), 2048, WideStr(Text())), 17, Buffer(Tail(106, LENGTH)), maxKey);
  }

  /** So a value need not be admissible to survive. */
  lemma NullsCanSurvive(maxKey: nat)
    requires 15 <= maxKey
    ensures WellFormed(Survivor(), maxKey) && RoundTrips(Survivor(), maxKey) && !Admissible(Survivor())
  {
    SurvivorFormed(maxKey);
    SurvivorWritten();
    var s := AllHeads() + Tail(0, LENGTH);
    forall rest: Bytes ensures Decode(s + rest, 0, maxKey) == Got(Survivor(), |s|) {
      StandsFirst(s, rest);
      SurvivorRead(s + rest, maxKey);
    }
    NotAdmissible();
  }

  lemma {:induction false} NestNotAdmissible(v: Value, count: nat)
    requires 0 < count
    ensures !Admissible(Nest(v, count))
  {
    var f := Entry(Index(16), Null);
    assert Nest(v, count).entries[1] == f && !AdmissibleEntry(f);
  }

  lemma NotAdmissible()
    ensures !Admissible(Survivor())
  {
    NestNotAdmissible(Pair(Named(Innermost()), 2080, Null), 14);
    hide Middle, Text;
    var inner := Pair(Middle(), 2048, WideStr(Text()));
    assert inner.entries[0] == Entry(Index(0), Middle()) && !AdmissibleEntry(inner.entries[0]);
    assert Survivor().entries[0] == Entry(Index(0), inner) && !AdmissibleEntry(Survivor().entries[0]);
  }
}
