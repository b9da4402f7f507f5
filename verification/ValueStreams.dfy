/** The writer appending to its output, and the reader moving its cursor. */
module ValueStreams {
  import opened Values
  import opened ValueReader
  import opened ValueRoundTrip
  import opened ValueLimits
  import opened ValueSurvival

  class Output {
    var bytes: Bytes

    constructor ()
      ensures bytes == []
    {
      bytes := [];
    }

    method Append(data: Bytes)
      modifies this
      ensures bytes == old(bytes) + data
    {
      bytes := bytes + data;
    }

    /** write_leb128. */
    method WriteLeb128(v: nat) returns (count: nat)
      modifies this
      ensures bytes == old(bytes) + Leb128(v) && count == |Leb128(v)|
    {
      hide Leb128;
      var x, more := v, true;
      ghost var todo := Leb128(v);
      count := 0;
      while more
        invariant bytes + todo == old(bytes) + Leb128(v)
        invariant todo == if more then Leb128(x) else []
        invariant count + |todo| == |Leb128(v)|
        decreases if more then x + 1 else 0
      {
        Leb128Step(x);
        var b: u8 := x % 128;
        x := x / 128;
        more := x != 0;
        if !more {
          b := b + 128;
        }
        ghost var rest := if more then Leb128(x) else [];
        assert bytes + ([b] + rest) == (bytes + [b]) + rest;
        Append([b]);
        count, todo := count + 1, rest;
      }
      assert bytes + [] == bytes;
    }

    method WriteKey(k: Key) returns (ok: bool)
      modifies this
      ensures ok <==> EncodeKey(k).Some?
      ensures ok ==> bytes == old(bytes) + EncodeKey(k).get
    {
      match k
      case Index(i) =>
        var count := WriteLeb128(i);
        return count != 0;
      case Name(s) =>
        var l := |s| + 1;
        if l > 255 {
          return false;
        }
        Append([l]);
        Append(s + [0]);
        assert EncodeKey(k).get == [l] + (s + [0]);
        return true;
    }

    /** The type byte and the count, in the narrowest of three widths. */
    method WriteHeader(k: Kind, count: nat)
      modifies this
      ensures bytes == old(bytes) + Header(k, CountWidth(count), count)
    {
      if count < 0x100 {
        Append([TypeByte(k, W8)]);
        Append(LittleEndian(count, 1));
      } else if count < 0x1_0000 {
        Append([TypeByte(k, W16)]);
        Append(LittleEndian(count, 2));
      } else {
        Append([TypeByte(k, W32)]);
        Append(LittleEndian(count, 4));
      }
    }

    /** write_lstr and write_utf8: the characters and the zero after them are counted. */
    method WriteString(k: Kind, s: Bytes) returns (ok: bool)
      modifies this
      ensures ok <==> |s| + 1 < 0x1_0000
      ensures ok ==> bytes == old(bytes) + (Header(k, CountWidth(|s| + 1), |s| + 1) + s + [0])
    {
      var cch := |s| + 1;
      if 0x1_0000 <= cch {
        return false;
      }
      WriteHeader(k, cch);
      Append(s + [0]);
      return true;
    }

    /** write: true exactly for the values that have an encoding, which is then what has been appended. */
    method Write(v: Value) returns (ok: bool)
      modifies this
      ensures ok <==> Encode(v).Some?
      ensures ok ==> bytes == old(bytes) + Encode(v).get
      decreases v, 2
    {
      match v
      case Null =>
        return true;
      case Int(w, x) =>
        Append([TypeByte(KInt, w)]);
        Append(LittleEndian(x % Power(Size(w)), Size(w)));
        return true;
      case Real(bits) =>
        Append([TypeByte(KReal, W8)]);
        Append(LittleEndian(bits, 8));
        return true;
      case LocalStr(s) =>
        ok := WriteString(KLocalStr, s);
      case Utf8Str(s) =>
        ok := WriteString(KUtf8Str, s);
      case WideStr(s) =>
        if 0x1_0000 <= |s| + 1 {
          return false;
        }
        WriteHeader(KWideStr, |s| + 1);
        Append(WideBytes(s + [0]));
        return true;
      case Buffer(d) =>
        WriteHeader(KBuffer, |d|);
        Append(d);
        return true;
      case Array(es) =>
        ok := WriteTable(KArray, es);
      case Object(es) =>
        ok := WriteTable(KObject, es);
    }

    /** write_array and write_dict: the entries in the order of the map. */
    method WriteTable(k: Kind, es: seq<Entry>) returns (ok: bool)
      modifies this
      ensures ok <==> EncodeTable(k, es).Some?
      ensures ok ==> bytes == old(bytes) + EncodeTable(k, es).get
      decreases es, 1
    {
      hide Encode, EncodeEntry, EncodeEntries;
      if 0x1_0000 <= |es| {
        return false;
      }
      WriteHeader(k, |es|);
      ghost var h := bytes;
      NoEntries();
      assert es[..0] == [];
      for i := 0 to |es|
        invariant EncodeEntries(es[..i]).Some? && bytes == h + EncodeEntries(es[..i]).get
      {
        EntryFollows(es, i);
        var done := WriteEntry(es[i]);
        if !done {
          return false;
        }
      }
      assert es[..|es|] == es;
      return true;
    }

    method WriteEntry(e: Entry) returns (ok: bool)
      modifies this
      ensures ok <==> EncodeEntry(e).Some?
      ensures ok ==> bytes == old(bytes) + EncodeEntry(e).get
      decreases e
    {
      ok := WriteKey(e.key);
      if ok {
        ok := Write(e.value);
      }
    }
  }

  lemma Leb128Step(x: nat)
    ensures x / 128 == 0 ==> Leb128(x) == [x % 128 + 128] + []
    ensures x / 128 != 0 ==> Leb128(x) == [x % 128] + Leb128(x / 128)
  {
  }

  /** One more entry written; one that cannot be written spoils the whole. */
  lemma EntryFollows(es: seq<Entry>, i: nat)
    requires i < |es| && EncodeEntries(es[..i]).Some?
    ensures EncodeEntry(es[i]).Some? ==>
      EncodeEntries(es[..i + 1]) == Some(EncodeEntries(es[..i]).get + EncodeEntry(es[i]).get)
    ensures EncodeEntry(es[i]).None? ==> EncodeEntries(es).None?
  {
    assert es[..i + 1][..i] == es[..i];
    if EncodeEntries(es).Some? { EntriesNext(es, i); }
  }

  /** bytestream and reader: a cursor in fixed data. */
  class Reader {
    const data: Bytes
    const maxKey: nat
    var cursor: nat

    constructor (data: Bytes, maxKey: nat)
      ensures this.data == data && this.maxKey == maxKey && cursor == 0
    {
      this.data, this.maxKey, cursor := data, maxKey, 0;
    }

    method FetchByte() returns (ok: bool, b: u8)
      modifies this
      ensures ok <==> old(cursor) < |data|
      ensures ok ==> b == data[old(cursor)] && cursor == old(cursor) + 1
      ensures !ok ==> cursor == old(cursor)
    {
      if |data| <= cursor {
        return false, 0;
      }
      b := data[cursor];
      cursor := cursor + 1;
      ok := true;
    }

    /** fetch of a number of `n` bytes, the highest last. */
    method FetchNumber(n: nat) returns (r: Read<nat>)
      modifies this
      ensures r == ReadNumber(data, old(cursor), n)
      ensures cursor == if r.Got? then r.next else old(cursor)
    {
      var rtail := cursor + n;
      if |data| < rtail {
        return Fail;
      }
      var x: nat, i := 0, rtail;
      assert data[rtail..rtail] == [];
      while i > cursor
        invariant cursor <= i <= rtail && cursor == old(cursor)
        invariant x == FromLittleEndian(data[i..rtail])
      {
        i := i - 1;
        assert data[i..rtail][1..] == data[i + 1..rtail];
        var low: nat := data[i];
        x := low + 256 * x;
      }
      cursor := rtail;
      return Got(x, cursor);
    }

    /** The place of the first zero from `p` on, or the end of the data. */
    method TextEnd(p: nat) returns (n: nat)
      requires p <= |data|
      ensures p <= n <= |data| && NoZero(data, p, n) && (n < |data| ==> data[n] == 0)
    {
      n := p;
      while n < |data| && data[n] != 0
        invariant p <= n <= |data| && NoZero(data, p, n)
      {
        n := n + 1;
      }
    }

    /** fetch_str of narrow characters, after the count. */
    method FetchString(count: nat) returns (r: Read<Value>)
      requires cursor <= |data|
      modifies this
      ensures r == ReadString(data, old(cursor), count)
      ensures r.Got? ==> cursor == r.next
    {
      var start := cursor;
      if |data| - cursor < count {
        return Fail;
      }
      cursor := cursor + count;
      if cursor == 0 || data[cursor - 1] != 0 {
        return Fail;
      }
      var n := TextEnd(start);
      TextIs(data, start, n);
      return if n == |data| then Fail else Got(LocalStr(data[start..n]), cursor);
    }

    /** fetch_str of wide characters, after the count. */
    method FetchWide(count: nat) returns (r: Read<Value>)
      requires cursor <= |data|
      modifies this
      ensures r == ReadWide(data, old(cursor), count)
      ensures r.Got? ==> cursor == r.next
    {
      hide Wide;
      var start := cursor;
      if |data| - cursor < WideSize(count) {
        return Fail;
      }
      cursor := cursor + WideSize(count);
      if cursor < 2 || data[cursor - 1] != 0 || data[cursor - 2] != 0 {
        return Fail;
      }
      var s, found := WideText(start);
      return if found then Got(WideStr(s), cursor) else Fail;
    }

    /** The wide C string at `p`, if it ends within the data. */
    method WideText(p: nat) returns (s: seq<u16>, found: bool)
      requires p <= |data|
      ensures found <==> 0 in Wide(data[p..])
      ensures found ==> s == CString(Wide(data[p..]), 0)
    {
      hide Wide, CString;
      ghost var text := Wide(data[p..]);
      var n := p;
      s := [];
      WideNext(data, p);
      while n + 1 < |data| && (data[n] != 0 || data[n + 1] != 0)
        invariant p <= n <= |data| && 0 !in s
        invariant text == s + Wide(data[n..])
      {
        WideNext(data, n);
        var low: nat, high: nat := data[n], data[n + 1];
        s, n := s + [low + 256 * high], n + 2;
      }
      WideNext(data, n);
      found := n + 1 < |data|;
      if found {
        ghost var rest := Wide(data[n + 2..]);
        CStringBack(s, 0, rest);
        assert text == s + [0] + rest;
        assert text[|s|] == 0;
      }
    }

    /** fetch_buf, after the count. */
    method FetchBuffer(count: nat) returns (r: Read<Value>)
      requires cursor <= |data|
      modifies this
      ensures r == ReadBuffer(data, old(cursor), count)
      ensures r.Got? ==> cursor == r.next
    {
      var start := cursor;
      if |data| - cursor < count {
        return Fail;
      }
      cursor := cursor + count;
      return Got(Buffer(data[start..cursor]), cursor);
    }

    /** fetch_leb128: at most `rmax` bytes, `k` collecting seven bits from each. */
    method FetchLeb128(rmax: nat) returns (ok: bool, k: nat)
      modifies this
      ensures ok <==> ReadLeb128(data, old(cursor), rmax).Got?
      ensures ok ==> ReadLeb128(data, old(cursor), rmax) == Got(k, cursor)
    {
      hide ReadLeb128;
      var i, b: u8 := 0, 0;
      k := 0;
      ghost var start, scale := cursor, 1;
      FirstByte(data, start, rmax);
      while i < rmax && b < 128
        invariant i <= rmax && scale == Sevens(i)
        invariant Continues(data, start, rmax, cursor, if b < 128 then rmax - i else 0, k, scale)
        decreases rmax - i
      {
        ghost var was := cursor;
        var got, byte := FetchByte();
        MoreBytes(data, start, rmax, was, rmax - i, k, scale);
        if !got {
          return false, k;
        }
        b := byte;
        k := k + (b % 128) * Sevens(i);
        scale := scale * 128;
        i := i + 1;
      }
      NoMoreBytes(data, start, rmax, cursor, if b < 128 then rmax - i else 0, k, scale);
      ok := true;
    }

    /** fetch_key, or the index of an array entry. */
    method FetchKey(named: bool) returns (r: Read<Key>)
      requires cursor <= |data|
      modifies this
      ensures r == ReadKey(data, old(cursor), named, maxKey)
      ensures r.Got? ==> cursor == r.next
    {
      if !named {
        var ok, k := FetchLeb128(LEB128_MAX);
        return if ok then Got(Index(k), cursor) else Fail;
      }
      var ok, cch := FetchByte();
      if !ok || cch == 0 || |data| - cursor < cch || data[cursor + cch - 1] != 0 {
        return Fail;
      }
      var n := TextEnd(cursor);
      KeyTextIs(data, cursor, n, cch);
      var name := data[cursor..n];
      if name == [] || maxKey < |name| {
        return Fail;
      }
      cursor := cursor + cch;
      return Got(Name(name), cursor);
    }

    /** fetch: the value at the cursor, which then stands after it. */
    method Fetch() returns (r: Read<Value>)
      requires cursor <= |data|
      modifies this
      ensures r == Decode(data, old(cursor), maxKey)
      ensures r.Got? ==> cursor == r.next
      decreases |data| - cursor, 0
    {
      hide DecodeEntries, ReadString, ReadWide, ReadBuffer, ReadInt, ReadNumber;
      var ok, b := FetchByte();
      if !ok {
        return Fail;
      }
      var k, w := KindOf(b), WidthOf(b);
      if k.None? {
        return Fail;
      }
      if k.get == KNull {
        return Got(Null, cursor);
      }
      if k.get == KReal {
        var x := FetchNumber(8);
        return if x.Got? then Got(Real(x.value), cursor) else Fail;
      }
      if w.None? {
        return Fail;
      }
      if k.get == KInt {
        var x := FetchNumber(Size(w.get));
        NumberRead(data, old(cursor) + 1, w.get);
        return if x.Got? then Got(Int(w.get, if w.get == W16 then 0 else SignedOf(x.value, w.get)), cursor) else Fail;
      } else {
        var count := FetchNumber(Size(w.get));
        if count.Fail? {
          return Fail;
        }
        if k.get == KArray || k.get == KObject {
          r := FetchTable(k.get == KObject, count.value);
        } else if k.get == KWideStr {
          r := FetchWide(count.value);
        } else if k.get == KBuffer {
          r := FetchBuffer(count.value);
        } else {
          r := FetchString(count.value);
        }
      }
    }

    /** fetch_array and fetch_dict, after the count. */
    method FetchTable(named: bool, count: nat) returns (r: Read<Value>)
      requires cursor <= |data|
      modifies this
      ensures r == DecodeTable(data, old(cursor), named, count, maxKey)
      ensures r.Got? ==> cursor == r.next
      decreases |data| - cursor, count + 1
    {
      hide Decode, DecodeEntries, ReadKey, Insert;
      ghost var start := cursor;
      var es: seq<Entry> := [];
      for i := 0 to count
        invariant start <= cursor <= |data|
        invariant DecodeEntries(data, start, named, count, [], maxKey)
          == DecodeEntries(data, cursor, named, count - i, es, maxKey)
      {
        ghost var p := cursor;
        EntriesUnfold(data, p, named, count - i, es, maxKey);
        var key := FetchKey(named);
        if key.Fail? {
          return Fail;
        }
        var v := Fetch();
        if v.Fail? {
          return Fail;
        }
        es := Insert(es, Entry(key.value, v.value));
      }
      EntriesDone(data, cursor, named, es, maxKey);
      return Got(if named then Object(es) else Array(es), cursor);
    }
  }

  predicate NoZero(b: Bytes, p: nat, n: nat)
    requires p <= n <= |b|
  {
    forall i :: p <= i < n ==> b[i] != 0
  }

  /** The C string that ends at the first zero. */
  lemma TextIs(b: Bytes, p: nat, n: nat)
    requires p <= n <= |b| && NoZero(b, p, n) && (n < |b| ==> b[n] == 0)
    ensures n == |b| <==> 0 !in b[p..]
    ensures n < |b| ==> CString(b[p..], 0) == b[p..n]
  {
    if n == |b| {
      assert b[p..n] == b[p..];
    } else {
      CStringBack(b[p..n], 0, b[n + 1..]);
      assert b[p..] == b[p..n] + [0] + b[n + 1..];
      assert b[p..][n - p] == 0;
    }
  }

  /** A key ends within its bytes. */
  lemma KeyTextIs(b: Bytes, p: nat, n: nat, cch: nat)
    requires p <= n <= |b| && NoZero(b, p, n) && (n < |b| ==> b[n] == 0)
    requires 0 < cch && p + cch <= |b| && b[p + cch - 1] == 0
    ensures n < p + cch && CString(b[p..p + cch], 0) == b[p..n]
  {
    CStringBack(b[p..n], 0, b[n + 1..p + cch]);
    assert b[p..p + cch] == b[p..n] + [0] + b[n + 1..p + cch];
  }

  lemma WideNext(b: Bytes, p: nat)
    requires p <= |b|
    ensures p + 2 <= |b| ==>
      var low: nat, high: nat := b[p], b[p + 1];
      Wide(b[p..]) == [low + 256 * high] + Wide(b[p + 2..])
    ensures |b| < p + 2 ==> Wide(b[p..]) == []
  {
    if p + 2 <= |b| { assert b[p..][2..] == b[p + 2..]; }
  }

  lemma NumberRead(b: Bytes, p: nat, w: Width)
    ensures ReadInt(b, p, w) == match ReadNumber(b, p, Size(w))
      case Fail => Fail
      case Got(x, n) => Got(Int(w, if w == W16 then 0 else SignedOf(x, w)), n)
  {
  }

  lemma EntriesUnfold(b: Bytes, p: nat, named: bool, count: nat, es: seq<Entry>, maxKey: nat)
    requires p <= |b| && 0 < count
    ensures var e := DecodeEntry(b, p, named, maxKey);
      DecodeEntries(b, p, named, count, es, maxKey)
        == if e.Fail? then Fail else DecodeEntries(b, e.next, named, count - 1, Insert(es, e.value), maxKey)
  {
  }

  lemma EntriesDone(b: Bytes, p: nat, named: bool, es: seq<Entry>, maxKey: nat)
    requires p <= |b|
    ensures DecodeEntries(b, p, named, 0, es, maxKey) == Got(es, p)
  {
  }

  /** Reading `rmax` bytes from the start comes to reading `left` from `p`, scaled and added to `k`. */
  ghost predicate Continues(b: Bytes, start: nat, rmax: nat, p: nat, left: nat, k: nat, scale: nat) {
    var whole, rest := ReadLeb128(b, start, rmax), ReadLeb128(b, p, left);
    && (whole.Got? <==> rest.Got?)
    && (rest.Got? ==> whole.value == k + scale * rest.value && whole.next == rest.next)
  }

  lemma FirstByte(b: Bytes, start: nat, rmax: nat)
    ensures Continues(b, start, rmax, start, rmax, 0, 1)
  {
  }

  lemma MoreBytes(b: Bytes, start: nat, rmax: nat, p: nat, left: nat, k: nat, scale: nat)
    requires Continues(b, start, rmax, p, left, k, scale) && 0 < left
    ensures |b| <= p ==> ReadLeb128(b, start, rmax).Fail?
    ensures p < |b| ==> var low: nat := b[p] % 128;
      Continues(b, start, rmax, p + 1, if b[p] < 128 then left - 1 else 0, k + low * scale, scale * 128)
  {
    if p < |b| {
      var low: nat := b[p] % 128;
      var rest := ReadLeb128(b, p + 1, if b[p] < 128 then left - 1 else 0);
      if rest.Got? { ScaledByte(low, scale, rest.value); }
    }
  }

  lemma ScaledByte(low: nat, scale: nat, rest: nat)
    ensures scale * (low + 128 * rest) == low * scale + (scale * 128) * rest
  {
  }

  lemma NoMoreBytes(b: Bytes, start: nat, rmax: nat, p: nat, left: nat, k: nat, scale: nat)
    requires Continues(b, start, rmax, p, left, k, scale) && left == 0
    ensures ReadLeb128(b, start, rmax) == Got(k, p)
  {
  }

  /** Saving a value and loading it from what was saved, with anything after it. */
  method SaveAndLoad(v: Value, maxKey: nat, after: Bytes) returns (back: Read<Value>, saved: nat)
    requires WellFormed(v, maxKey)
    ensures Admissible(v) ==> back == Got(v, saved)
  {
    var output := new Output();
    var ok := output.Write(v);
    saved := |output.bytes|;
    if !ok {
      AdmissibleIs(v);
      return Fail, saved;
    }
    var reader := new Reader(output.bytes + after, maxKey);
    back := reader.Fetch();
    if Admissible(v) { AdmissibleSurvives(v, maxKey); }
    assert [] + Encode(v).get == Encode(v).get;
  }
}
