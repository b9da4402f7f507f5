/** The reader of the tagged binary format: what `fetch` makes of the bytes from a position on. */
module ValueReader {
  import opened Values

  /** A result and the position after it. */
  datatype Read<T> = Fail | Got(value: T, next: nat)

  function ReadNumber(b: Bytes, p: nat, n: nat): (r: Read<nat>)
    ensures r.Got? ==> r.next == p + n <= |b|
  {
    if p + n <= |b| then Got(FromLittleEndian(b[p..p + n]), p + n) else Fail
  }

  /** fetch_leb128 with `left` bytes allowed: it also stops, without complaint, when they are used up. */
  function ReadLeb128(b: Bytes, p: nat, left: nat): (r: Read<nat>)
    ensures r.Got? ==> p <= r.next <= |b| + p && (0 < left ==> p < r.next <= |b|)
    decreases left
  {
    if left == 0 then Got(0, p)
    else if |b| <= p then Fail
    else if 128 <= b[p] then Got(b[p] - 128, p + 1)
    else
      var rest := ReadLeb128(b, p + 1, left - 1);
      var low: nat := b[p];
      if rest.Fail? then Fail else Got(low + 128 * rest.value, rest.next)
  }

  /** What a C string holds: the characters before the first zero. */
  function CString<T(==)>(s: seq<T>, zero: T): (r: seq<T>)
    ensures |r| <= |s| && zero !in r
    ensures s != [] && s[|s| - 1] == zero ==> |r| < |s|
  {
    if s == [] || s[0] == zero then [] else [s[0]] + CString(s[1..], zero)
  }

  function Wide(b: Bytes): (r: seq<u16>)
    ensures |r| == |b| / 2
  {
    if |b| < 2 then []
    else
      var low: nat, high: nat := b[0], b[1];
      [low + 256 * high] + Wide(b[2..])
  }

  /** fetch_key and the check made by `set`. */
  function ReadName(b: Bytes, p: nat, maxKey: nat): (r: Read<Key>)
    ensures r.Got? ==> p < r.next <= |b|
  {
    if |b| <= p || b[p] == 0 || |b| < p + 1 + b[p] || b[p + b[p]] != 0 then Fail
    else
      var name := CString(b[p + 1..p + 1 + b[p]], 0);
      if name == [] || maxKey < |name| then Fail else Got(Name(name), p + 1 + b[p])
  }

  const LEB128_MAX: nat := 5

  function ReadKey(b: Bytes, p: nat, named: bool, maxKey: nat): (r: Read<Key>)
    ensures r.Got? ==> p < r.next <= |b|
  {
    if named then ReadName(b, p, maxKey)
    else
      var i := ReadLeb128(b, p, LEB128_MAX);
      if i.Fail? then Fail else Got(Index(i.value), i.next)
  }

  /** The map after `map[e.key] = e.value`. */
  function Insert(es: seq<Entry>, e: Entry): seq<Entry> {
    if es == [] then [e]
    else
      var n := |es| - 1;
      if es[n].key == e.key then es[..n] + [e]
      else if KeyLess(es[n].key, e.key) then es + [e]
      else Insert(es[..n], e) + [es[n]]
  }

  /** The last of `count` characters must be zero; the value is the C string at the cursor. A count of zero
      passes when the byte before the cursor is zero, as the last byte of the count is. A C string that
      does not end within the data is treated as failure. */
  function ReadString(b: Bytes, p: nat, count: nat): (r: Read<Value>)
    ensures r.Got? ==> r.next == p + count <= |b|
  {
    if |b| < p + count || p + count == 0 || b[p + count - 1] != 0 || 0 !in b[p..] then Fail
    else Got(LocalStr(CString(b[p..], 0)), p + count)
  }

  /** The bytes of `count` wide characters, with the wrap-around of the 64-bit product. */
  function WideSize(count: nat): (r: nat)
    ensures count < 0x8000_0000_0000_0000 ==> r == 2 * count
  {
    2 * count % 0x1_0000_0000_0000_0000
  }

  /** The same for wide characters. */
  function ReadWide(b: Bytes, p: nat, count: nat): (r: Read<Value>)
    ensures r.Got? ==> r.next == p + WideSize(count) <= |b|
  {
    var q := p + WideSize(count);
    if |b| < q || q < 2 || b[q - 1] != 0 || b[q - 2] != 0 || 0 !in Wide(b[p..]) then Fail
    else Got(WideStr(CString(Wide(b[p..]), 0)), q)
  }

  function ReadBuffer(b: Bytes, p: nat, count: nat): (r: Read<Value>)
    ensures r.Got? ==> r.next == p + count <= |b|
  {
    if |b| < p + count then Fail else Got(Buffer(b[p..p + count]), p + count)
  }

  /** fetch_number: the setter for 16-bit numbers leaves a fresh value at zero. */
  function ReadInt(b: Bytes, p: nat, w: Width): (r: Read<Value>)
    ensures r.Got? ==> r.next == p + Size(w) <= |b|
  {
    var x := ReadNumber(b, p, Size(w));
    if x.Fail? then Fail
    else Got(Int(w, if w == W16 then 0 else SignedOf(x.value, w)), x.next)
  }

  /** Signed, for any number. */
  function SignedOf(x: nat, w: Width): int {
    Signed(x % Power(Size(w)), w)
  }

  function Decode(b: Bytes, p: nat, maxKey: nat): (r: Read<Value>)
    ensures r.Got? ==> p < r.next <= |b|
    decreases |b| - p, 0
  {
    if |b| <= p then Fail
    else
      var k, w := KindOf(b[p]), WidthOf(b[p]);
      if k.None? then Fail
      else if k.get == KNull then Got(Null, p + 1)
      else if k.get == KReal then
        var x := ReadNumber(b, p + 1, 8);
        if x.Fail? then Fail else Got(Real(x.value), x.next)
      else if w.None? then Fail
      else if k.get == KInt then ReadInt(b, p + 1, w.get)
      else
        var count := ReadNumber(b, p + 1, Size(w.get));
        if count.Fail? then Fail
        else if k.get == KLocalStr || k.get == KUtf8Str then ReadString(b, count.next, count.value)
        else if k.get == KWideStr then ReadWide(b, count.next, count.value)
        else if k.get == KBuffer then ReadBuffer(b, count.next, count.value)
        else DecodeTable(b, count.next, k.get == KObject, count.value, maxKey)
  }

  function DecodeTable(b: Bytes, p: nat, named: bool, count: nat, maxKey: nat): (r: Read<Value>)
    requires p <= |b|
    ensures r.Got? ==> p <= r.next <= |b|
    decreases |b| - p, count + 1
  {
    var es := DecodeEntries(b, p, named, count, [], maxKey);
    if es.Fail? then Fail else Got(if named then Object(es.value) else Array(es.value), es.next)
  }

  /** `count` more entries, entered into the map `es`. */
  function DecodeEntries(b: Bytes, p: nat, named: bool, count: nat, es: seq<Entry>, maxKey: nat): (r: Read<seq<Entry>>)
    requires p <= |b|
    ensures r.Got? ==> p <= r.next <= |b|
    decreases |b| - p, count
  {
    if count == 0 then Got(es, p)
    else
      var e := DecodeEntry(b, p, named, maxKey);
      if e.Fail? then Fail else DecodeEntries(b, e.next, named, count - 1, Insert(es, e.value), maxKey)
  }

  function DecodeEntry(b: Bytes, p: nat, named: bool, maxKey: nat): (r: Read<Entry>)
    requires p <= |b|
    ensures r.Got? ==> p < r.next <= |b|
    decreases |b| - p, 0
  {
    var key := ReadKey(b, p, named, maxKey);
    if key.Fail? then Fail
    else
      var v := Decode(b, key.next, maxKey);
      if v.Fail? then Fail else Got(Entry(key.value, v.value), v.next)
  }
}
