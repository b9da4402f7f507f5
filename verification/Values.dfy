/** The values of the tagged binary format, and what the writer makes of them. */
module Values {
  type u8 = x: int | 0 <= x < 0x100
  type u16 = x: int | 0 <= x < 0x1_0000
  type Bytes = seq<u8>

  /** The size field of a type byte. */
  datatype Width = W8 | W16 | W32 | W64

  /** An array index or a field name. */
  datatype Key = Index(i: nat) | Name(chars: Bytes)

  datatype Entry = Entry(key: Key, value: Value)

  /** Arrays and objects are ordered maps, here in the order in which they are enumerated. The bits of a
      real number stand for it; wide characters have two bytes. */
  datatype Value =
    | Null
    | Int(width: Width, value: int)
    | Real(bits: nat)
    | LocalStr(chars: Bytes)
    | Utf8Str(chars: Bytes)
    | WideStr(wide: seq<u16>)
    | Buffer(data: Bytes)
    | Array(entries: seq<Entry>)
    | Object(entries: seq<Entry>)

  datatype Kind = KNull | KInt | KReal | KLocalStr | KUtf8Str | KWideStr | KBuffer | KArray | KObject

  datatype Option<T> = None | Some(get: T)

  function Size(w: Width): (n: nat)
    ensures n == 1 || n == 2 || n == 4 || n == 8
  {
    match w case W8 => 1 case W16 => 2 case W32 => 4 case W64 => 8
  }

  /** 256^n. */
  function Power(n: nat): (r: nat)
    ensures 0 < r
  {
    if n == 0 then 1 else 256 * Power(n - 1)
  }

  // Numbers

  /** The `n` low bytes of `x`, lowest first. */
  function LittleEndian(x: nat, n: nat): (r: Bytes)
    ensures |r| == n
  {
    if n == 0 then [] else [x % 256] + LittleEndian(x / 256, n - 1)
  }

  function FromLittleEndian(b: Bytes): nat {
    if b == [] then 0 else b[0] + 256 * FromLittleEndian(b[1..])
  }

  /** Two's complement, as a cast to the signed type reads it. */
  function Signed(x: nat, w: Width): int
    requires x < Power(Size(w))
  {
    if x < Power(Size(w)) / 2 then x else x - Power(Size(w))
  }

  predicate Fits(x: int, w: Width) {
    -(Power(Size(w)) as int) / 2 <= x < Power(Size(w)) / 2
  }

  // Type bytes: their layout is declared in xvalue.h, which this model does not cover. Here the kind has four bits.

  function KindCode(k: Kind): nat {
    match k
    case KNull => 0 case KInt => 1 case KReal => 2 case KLocalStr => 3 case KUtf8Str => 4
    case KWideStr => 5 case KBuffer => 6 case KArray => 7 case KObject => 8
  }

  function WidthCode(w: Width): nat {
    match w case W8 => 0 case W16 => 1 case W32 => 2 case W64 => 3
  }

  function TypeByte(k: Kind, w: Width): u8 {
    KindCode(k) + 16 * WidthCode(w)
  }

  function KindOf(b: u8): Option<Kind> {
    match b % 16
    case 0 => Some(KNull) case 1 => Some(KInt) case 2 => Some(KReal) case 3 => Some(KLocalStr) case 4 => Some(KUtf8Str)
    case 5 => Some(KWideStr) case 6 => Some(KBuffer) case 7 => Some(KArray) case 8 => Some(KObject)
    case _ => None
  }

  function WidthOf(b: u8): Option<Width> {
    match b / 16
    case 0 => Some(W8) case 1 => Some(W16) case 2 => Some(W32) case 3 => Some(W64)
    case _ => None
  }

  /** The type byte and the element count. */
  function Header(k: Kind, w: Width, count: nat): Bytes {
    [TypeByte(k, w)] + LittleEndian(count, Size(w))
  }

  function CountWidth(count: nat): Width {
    if count < 0x100 then W8 else if count < 0x1_0000 then W16 else W32
  }

  /** write_leb128: seven bits a byte, and the top bit on the last. */
  function Leb128(x: nat): (r: Bytes)
    ensures r != []
  {
    if x < 128 then [x + 128] else [x % 128] + Leb128(x / 128)
  }

  function WideBytes(s: seq<u16>): Bytes {
    if s == [] then [] else LittleEndian(s[0], 2) + WideBytes(s[1..])
  }

  function EncodeKey(k: Key): Option<Bytes> {
    match k
    case Index(i) => Some(Leb128(i))
    case Name(s) => if |s| + 1 > 255 then None else Some([|s| + 1] + s + [0])
  }

  /** What `write` appends to its output, or None where it reports failure. */
  function Encode(v: Value): Option<Bytes>
    decreases v
  {
    match v
    case Null => Some([])
    case Int(w, x) => Some([TypeByte(KInt, w)] + LittleEndian(x % Power(Size(w)), Size(w)))
    case Real(bits) => Some([TypeByte(KReal, W8)] + LittleEndian(bits, 8))
    case LocalStr(s) =>
      if |s| + 1 < 0x1_0000 then Some(Header(KLocalStr, CountWidth(|s| + 1), |s| + 1) + s + [0]) else None
    case Utf8Str(s) =>
      if |s| + 1 < 0x1_0000 then Some(Header(KUtf8Str, CountWidth(|s| + 1), |s| + 1) + s + [0]) else None
    case WideStr(s) =>
      if |s| + 1 < 0x1_0000 then Some(Header(KWideStr, CountWidth(|s| + 1), |s| + 1) + WideBytes(s + [0])) else None
    case Buffer(d) => Some(Header(KBuffer, CountWidth(|d|), |d|) + d)
    case Array(es) => EncodeTable(KArray, es)
    case Object(es) => EncodeTable(KObject, es)
  }

  function EncodeTable(k: Kind, es: seq<Entry>): Option<Bytes>
    decreases es, 1
  {
    if |es| < 0x1_0000 then
      var body := EncodeEntries(es);
      if body.Some? then Some(Header(k, CountWidth(|es|), |es|) + body.get) else None
    else None
  }

  function EncodeEntries(es: seq<Entry>): Option<Bytes>
    decreases es, 0
  {
    if es == [] then Some([])
    else
      var n := |es| - 1;
      var front := EncodeEntries(es[..n]);
      var last := EncodeEntry(es[n]);
      if front.Some? && last.Some? then Some(front.get + last.get) else None
  }

  function EncodeEntry(e: Entry): Option<Bytes>
    decreases e
  {
    var key := EncodeKey(e.key);
    var value := Encode(e.value);
    if key.Some? && value.Some? then Some(key.get + value.get) else None
  }

  // What values can be.

  predicate NameLess(a: Bytes, b: Bytes) {
    if b == [] then false
    else if a == [] then true
    else if a[0] != b[0] then a[0] < b[0]
    else NameLess(a[1..], b[1..])
  }

  /** The order of the keys of a map. */
  predicate KeyLess(a: Key, b: Key) {
    if a.Index? && b.Index? then a.i < b.i
    else if a.Name? && b.Name? then NameLess(a.chars, b.chars)
    else false
  }

  ghost predicate Ordered(es: seq<Entry>) {
    forall i, j :: 0 <= i < j < |es| ==> KeyLess(es[i].key, es[j].key)
  }
}
