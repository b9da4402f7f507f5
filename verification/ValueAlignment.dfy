/** Values without nulls: the reader stays where the writer was. */
module ValueAlignment {
  import opened Values
  import opened ValueReader
  import opened ValueRoundTrip
  import opened ValueLimits

  /** No nulls in the value. */
  ghost predicate NullFree(v: Value)
    decreases v
  {
    match v
    case Null => false
    case Array(es) => forall i :: 0 <= i < |es| ==> NullFreeEntry(es[i])
    case Object(es) => forall i :: 0 <= i < |es| ==> NullFreeEntry(es[i])
    case _ => true
  }

  ghost predicate NullFreeEntry(e: Entry)
    decreases e
  {
    NullFree(e.value)
  }

  ghost predicate NullFreeEntries(es: seq<Entry>) {
    forall i :: 0 <= i < |es| ==> NullFreeEntry(es[i])
  }

  // Maps that grow with every entry.

  lemma {:induction false} InsertGrows(es: seq<Entry>, e: Entry)
    ensures |Insert(es, e)| <= |es| + 1
    ensures |Insert(es, e)| == |es| + 1 ==> forall x :: x in es || x == e ==> x in Insert(es, e)
    decreases |es|
  {
    if es != [] {
      var n := |es| - 1;
      assert es == es[..n] + [es[n]];
      InsertGrows(es[..n], e);
    }
  }

  /** When `count` entries make the map larger by `count`, none has replaced another. */
  lemma {:induction false} NoneReplaced(b: Bytes, p: nat, named: bool, count: nat, es: seq<Entry>, maxKey: nat)
    requires p <= |b| && DecodeEntries(b, p, named, count, es, maxKey).Got?
    ensures var r := DecodeEntries(b, p, named, count, es, maxKey).value;
      |r| <= |es| + count && (|r| == |es| + count ==> forall x :: x in es ==> x in r)
    decreases count
  {
    if count != 0 {
      var e := DecodeEntry(b, p, named, maxKey);
      InsertGrows(es, e.value);
      NoneReplaced(b, e.next, named, count - 1, Insert(es, e.value), maxKey);
    }
  }

  lemma EntriesOfKey(es: seq<Entry>, k: nat, e: Entry)
    requires k < |es| && Ordered(es) && e in es && e.key == es[k].key
    ensures e == es[k]
  {
    var i :| 0 <= i < |es| && es[i] == e;
    KeyLessStrict(e.key);
  }

  /** An entry with the next key goes to the end. */
  lemma InsertNext(es: seq<Entry>, k: nat, e: Entry)
    requires k < |es| && Ordered(es) && e.key == es[k].key
    ensures Insert(es[..k], e) == es[..k] + [e]
  {
    var t := es[k := e];
    InsertLast(t, k);
    assert t[..k] == es[..k] && t[..k + 1] == es[..k] + [e];
  }

  // Values

  /** A buffer is read with the length its count gives, which has 32 bits. */
  lemma BufferCut(b: Bytes, p: nat, d: Bytes, maxKey: nat)
    requires Stands(b, p, Header(KBuffer, CountWidth(|d|), |d|) + d)
    requires Decode(b, p, maxKey).Got? && Decode(b, p, maxKey).value == Buffer(d)
    ensures |d| < 0x1_0000_0000
  {
    var w := CountWidth(|d|);
    StandsParts(b, p, Header(KBuffer, w, |d|), d);
    StandsParts(b, p, [TypeByte(KBuffer, w)], LittleEndian(|d|, Size(w)));
    TypeByteBack(KBuffer, w);
    assert b[p..p + 1][0] == b[p];
    NumberBound(b[p + 1..p + 1 + Size(w)]);
    PowerIs(w);
  }

  /** A value without nulls that was read where it had been written is admissible. */
  lemma {:induction false} ReadIsAdmissible(v: Value, b: Bytes, p: nat, maxKey: nat)
    requires WellFormed(v, maxKey) && NullFree(v) && Readable(v) && Encode(v).Some? && Stands(b, p, Encode(v).get)
    requires Decode(b, p, maxKey).Got? && Decode(b, p, maxKey).value == v
    ensures Admissible(v)
    decreases v, 2
  {
    hide Decode, EncodeTable, Stands, Power, LittleEndian, Header, WideBytes, Fits;
    match v
    case Buffer(d) => BufferCut(b, p, d, maxKey);
    case Array(es) => TableIsAdmissible(es, b, p, false, maxKey);
    case Object(es) => TableIsAdmissible(es, b, p, true, maxKey);
    case _ =>
  }

  lemma {:induction false} TableIsAdmissible(es: seq<Entry>, b: Bytes, p: nat, named: bool, maxKey: nat)
    requires WellFormedEntries(es, named, maxKey) && NullFreeEntries(es) && ReadableEntries(es)
    requires var k := if named then KObject else KArray;
      EncodeTable(k, es).Some? && Stands(b, p, EncodeTable(k, es).get)
    requires Decode(b, p, maxKey).Got? && Decode(b, p, maxKey).value == if named then Object(es) else Array(es)
    ensures |es| < 0x1_0000 && forall i :: 0 <= i < |es| ==> AdmissibleEntry(es[i])
    decreases es, 1
  {
    hide DecodeEntries, EncodeEntries, Encode, Stands, AdmissibleEntry, WellFormedEntries, ReadNumber, CountWidth;
    hide Header;
    hide NullFreeEntries, ReadableEntries, ReadString, ReadWide, ReadBuffer, ReadInt;
    var k := if named then KObject else KArray;
    var h := Header(k, CountWidth(|es|), |es|);
    StandsParts(b, p, h, EncodeEntries(es).get);
    CountFits(|es|);
    HeaderBack(b, p, k, CountWidth(|es|), |es|);
    assert es[..0] == [];
    NoEntries();
    EntriesAreAdmissible(es, 0, b, p + |h|, named, maxKey);
  }

  lemma {:induction false} EntriesAreAdmissible(es: seq<Entry>, k: nat, b: Bytes, p: nat, named: bool, maxKey: nat)
    requires WellFormedEntries(es, named, maxKey) && NullFreeEntries(es) && ReadableEntries(es) && k <= |es|
    requires EncodeEntries(es).Some? && Stands(b, p, EncodeEntries(es).get)
    requires EncodeEntries(es[..k]).Some? && p + |EncodeEntries(es[..k]).get| <= |b|
    requires var r := DecodeEntries(b, p + |EncodeEntries(es[..k]).get|, named, |es| - k, es[..k], maxKey);
      r.Got? && r.value == es
    ensures forall i :: k <= i < |es| ==> AdmissibleEntry(es[i])
    decreases es, 0, |es| - k
  {
    hide Decode, Encode, EncodeEntry, EncodeEntries, Stands, Insert, AdmissibleEntry, DecodeEntries;
    hide NullFreeEntry, ReadableEntry, DecodeEntry, WellFormedEntry;
    if k < |es| {
      EntriesNext(es, k);
      var before, e := EncodeEntries(es[..k]).get, EncodeEntry(es[k]).get;
      StandsPrefix(b, p, before + e, EncodeEntries(es).get);
      StandsParts(b, p, before, e);
      FirstEntry(es, k, b, p + |before|, named, maxKey);
      EntryIsAdmissible(es[k], b, p + |before|, named, maxKey);
      EntryBack(es[k], b, p + |before|, named, maxKey);
      InsertLast(es, k);
      StandsInside(b, p + |before|, e);
      OneMoreEntry(b, p + |before|, named, |es| - k, es[..k], maxKey);
      EntriesAreAdmissible(es, k + 1, b, p, named, maxKey);
    }
  }

  /** The entry read where `es[k]` was written is that entry. */
  lemma FirstEntry(es: seq<Entry>, k: nat, b: Bytes, p: nat, named: bool, maxKey: nat)
    requires WellFormedEntries(es, named, maxKey) && k < |es| && ReadableEntry(es[k])
    requires EncodeEntry(es[k]).Some? && Stands(b, p, EncodeEntry(es[k]).get) && p <= |b|
    requires var r := DecodeEntries(b, p, named, |es| - k, es[..k], maxKey); r.Got? && r.value == es
    ensures DecodeEntry(b, p, named, maxKey).Got? && DecodeEntry(b, p, named, maxKey).value == es[k]
  {
    hide Decode, Encode, EncodeKey, ReadKey, Stands, Insert, Readable, WellFormed;
    StandsParts(b, p, EncodeKey(es[k].key).get, Encode(es[k].value).get);
    KeyFits(es[k].key);
    KeyBack(b, p, es[k].key, maxKey);
    var e := DecodeEntry(b, p, named, maxKey);
    InsertNext(es, k, e.value);
    NoneReplaced(b, e.next, named, |es| - k - 1, es[..k] + [e.value], maxKey);
    assert e.value in es[..k] + [e.value];
    EntriesOfKey(es, k, e.value);
  }

  lemma {:induction false} EntryIsAdmissible(e: Entry, b: Bytes, p: nat, named: bool, maxKey: nat)
    requires WellFormedEntry(e, named, maxKey) && NullFreeEntry(e) && ReadableEntry(e) && p <= |b|
    requires EncodeEntry(e).Some? && Stands(b, p, EncodeEntry(e).get)
    requires DecodeEntry(b, p, named, maxKey).Got? && DecodeEntry(b, p, named, maxKey).value == e
    ensures AdmissibleEntry(e)
    decreases e
  {
    hide Decode, Encode, EncodeKey, ReadKey, Stands, Admissible, Readable, NullFree, WellFormed;
    var key := EncodeKey(e.key).get;
    StandsParts(b, p, key, Encode(e.value).get);
    KeyFits(e.key);
    KeyBack(b, p, e.key, maxKey);
    ReadIsAdmissible(e.value, b, p + |key|, maxKey);
  }

  lemma KeyFits(k: Key)
    ensures k.Name? && EncodeKey(k).Some? ==> |k.chars| <= 254
  {
  }
}
