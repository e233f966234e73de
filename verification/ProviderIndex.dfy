/** The provider index (`OPRV`) of `crates/onelf-format/src/provider_index.rs`. Its body is one
    identity record and then one record per exported name, and only the header says how many.
 */
module ProviderIndex {
  import opened Bytes
  import opened Codec
  import opened Ordering
  import opened Rules
  import opened RuntimeMetadata
  import RuntimeStreams
  import opened Streams
  import opened Transport

  datatype Index = Index(set_: seq<byte>, exports: seq<seq<byte>>)

  function NameCodec(): Codec<seq<byte>> { Text(MAX_ID_BYTES, Utf8) }

  function IdentityCodec(): Codec<seq<byte>> { Record(1, NameCodec()) }

  function ExportCodec(): Codec<seq<byte>> { Record(2, NameCodec()) }

  predicate ExportName(s: seq<byte>) { 0 < |s| <= MAX_ID_BYTES && 0 !in s && SLASH !in s }

  predicate ValidIndex(v: Index) {
    && SetName(v.set_)
    && |v.exports| + 1 <= MAX_RECORDS
    && (forall s :: s in v.exports ==> ExportName(s))
    && Neighbours(Before, v.exports)
  }

  /** What the types of the original guarantee: all names are text. */
  predicate TypedIndex(v: Index) { Utf8(v.set_) && forall s :: s in v.exports ==> Utf8(s) }

  /** The index of a set and its exports in any order. */
  function New(name: seq<byte>, exports: seq<seq<byte>>): Option<Index> {
    var v := Index(name, Sort(Before, exports));
    if ValidIndex(v) then Some(v) else None
  }

  function PutIndex(v: Index): seq<byte> { IdentityCodec().put(v.set_) + PutAll(ExportCodec(), v.exports) }

  function EncodeIndex(v: Index): Option<seq<byte>> {
    if !ValidIndex(v) then None else Wrap(Ascii("OPRV"), PutIndex(v), |v.exports| + 1)
  }

  function GetIndex(body: seq<byte>, records: nat): Option<Index> {
    if records == 0 then None
    else
      match IdentityCodec().get(body, 0)
      case Bad => None
      case Got(name, rest, _) =>
        match GetAll(ExportCodec(), records - 1, rest, 0)
        case Bad => None
        case Got(exports, tail, _) => if tail == [] then Some(Index(name, exports)) else None
  }

  function DecodeIndex(b: seq<byte>): Option<Index> {
    match Unwrap(Ascii("OPRV"), b)
    case None => None
    case Some((body, records)) =>
      match GetIndex(body, records)
      case None => None
      case Some(v) => if ValidIndex(v) then Some(v) else None
  }

  lemma NamesLawful()
    ensures Lawful(IdentityCodec()) && Lawful(ExportCodec())
  {
    TextLawful(MAX_ID_BYTES, Utf8);
    RecordLawful(1, NameCodec(), 5);
    RecordLawful(2, NameCodec(), 5);
  }

  lemma GetOfPut(v: Index)
    requires TypedIndex(v) && ValidIndex(v) && |PutIndex(v)| < U32_LIMIT
    ensures GetIndex(PutIndex(v), |v.exports| + 1) == Some(v)
  {
    NamesLawful();
    hide IdentityCodec, ExportCodec;
    var tail := PutAll(ExportCodec(), v.exports);
    assert IdentityCodec().get(PutIndex(v), 0) == Got(v.set_, tail, 0) by {
      IdentityIsValid(v.set_);
      assert Reads(IdentityCodec());
    }
    ExportsAreValid(v.exports);
    GetAllReads(ExportCodec(), v.exports, [], 0);
    assert tail + [] == tail;
  }

  lemma IdentityIsValid(name: seq<byte>)
    requires SetName(name)
    ensures IdentityCodec().valid(name) && IdentityCodec().count(name) == 0
  {
    IdentitiesAreUtf8(name);
  }

  lemma ExportsAreValid(names: seq<seq<byte>>)
    requires forall s :: s in names ==> Utf8(s) && ExportName(s)
    ensures ValidAll(ExportCodec(), names) && CountAll(ExportCodec(), names) == 0
  {
    CountAllZero(ExportCodec(), names);
  }

  /** An encoded index decodes to itself. */
  lemma DecodeOfEncodeIndex(v: Index)
    requires TypedIndex(v) && EncodeIndex(v).Some?
    ensures DecodeIndex(EncodeIndex(v).value) == Some(v)
  {
    hide PutIndex, GetIndex, TypedIndex, ValidIndex, EncodeIndex, DecodeIndex, Wrap, Unwrap;
    var body, records := PutIndex(v), |v.exports| + 1;
    EncodedFits(v);
    UnwrapWrap(Ascii("OPRV"), body, records);
    GetOfPut(v);
    DecodedFrom(EncodeIndex(v).value, body, records, v);
  }

  lemma EncodedFits(v: Index)
    requires EncodeIndex(v).Some?
    ensures ValidIndex(v) && |v.exports| + 1 <= MAX_RECORDS && |PutIndex(v)| < U32_LIMIT
    ensures EncodeIndex(v) == Wrap(Ascii("OPRV"), PutIndex(v), |v.exports| + 1)
  {
  }

  lemma DecodedFrom(b: seq<byte>, body: seq<byte>, records: nat, v: Index)
    requires Unwrap(Ascii("OPRV"), b) == Some((body, records)) && GetIndex(body, records) == Some(v) && ValidIndex(v)
    ensures DecodeIndex(b) == Some(v)
  {
  }

  lemma ReadIndex(body: seq<byte>, records: nat)
    requires GetIndex(body, records).Some?
    ensures var v := GetIndex(body, records).value;
      TypedIndex(v) && records == |v.exports| + 1 && PutIndex(v) == body
  {
    NamesLawful();
    hide IdentityCodec, ExportCodec, TypedIndex;
    var g := IdentityCodec().get(body, 0);
    assert Undone(IdentityCodec(), body, 0, g);
    IdentityBudget(body);
    var all := GetAll(ExportCodec(), records - 1, g.rest, 0);
    GetAllWrites(ExportCodec(), records - 1, g.rest, 0);
    assert PutAll(ExportCodec(), all.value) + [] == PutAll(ExportCodec(), all.value);
    TypedNames(Index(g.value, all.value));
  }

  lemma IdentityBudget(body: seq<byte>)
    ensures var g := IdentityCodec().get(body, 0); g.Got? ==> g.budget == 0
  {
  }

  lemma TypedNames(v: Index)
    requires IdentityCodec().valid(v.set_) && ValidAll(ExportCodec(), v.exports)
    ensures TypedIndex(v)
  {
    forall i | 0 <= i < |v.exports| ensures Utf8(v.exports[i]) { assert ExportCodec().valid(v.exports[i]); }
  }

  /** An accepted file is exactly what encoding its index writes. */
  lemma EncodeOfDecodeIndex(b: seq<byte>)
    requires DecodeIndex(b).Some?
    ensures TypedIndex(DecodeIndex(b).value) && EncodeIndex(DecodeIndex(b).value) == Some(b)
  {
    WrapUnwrap(Ascii("OPRV"), b);
    var (body, records) := Unwrap(Ascii("OPRV"), b).value;
    ReadIndex(body, records);
  }

  /** Exports in any order make an index exactly when no name is doubled, and every index encodes what it was given. */
  lemma NewIndex(name: seq<byte>, exports: seq<seq<byte>>)
    ensures New(name, exports).Some? <==>
      && SetName(name) && |exports| + 1 <= MAX_RECORDS
      && (forall s :: s in exports ==> ExportName(s))
      && Unique(exports)
    ensures New(name, exports).Some? ==> multiset(New(name, exports).value.exports) == multiset(exports)
  {
    var sorted := Sort(Before, exports);
    SortKeeps(Before, exports);
    SameElements(sorted, exports);
    BytesStrict();
    if Unique(exports) {
      NamesAreDistinct(exports);
      SortAscends(Before, exports);
      assert Neighbours(Before, sorted);
    }
    if Neighbours(Before, sorted) {
      NeighboursAscend(Before, sorted);
      UniqueOfSorted(exports, sorted);
    }
  }

  lemma NamesAreDistinct(names: seq<seq<byte>>)
    requires Unique(names)
    ensures Distinct(Before, names)
  {
    forall i, j | 0 <= i < j < |names| ensures Before(names[i], names[j]) || Before(names[j], names[i]) {
      BeforeIsTotal(names[i], names[j]);
    }
  }

  lemma UniqueOfSorted(names: seq<seq<byte>>, sorted: seq<seq<byte>>)
    requires multiset(names) == multiset(sorted) && Ascending(Before, sorted) && Strict(Before)
    ensures Unique(names)
  {
    assert Unique(sorted) by {
      forall i, j | 0 <= i < j < |sorted| ensures sorted[i] != sorted[j] {
        assert Before(sorted[i], sorted[j]) && !Before(sorted[i], sorted[i]);
      }
    }
    forall i, j | 0 <= i < j < |names| ensures names[i] != names[j] {
      Twice(names, i, j);
      Once(sorted, names[i]);
    }
  }

  lemma Twice<T>(s: seq<T>, i: nat, j: nat)
    requires i < j < |s|
    ensures s[i] == s[j] ==> multiset(s)[s[i]] >= 2
  {
    assert s == s[..j] + [s[j]] + s[j + 1..];
    assert s[i] in multiset(s[..j]) by { assert s[..j][i] == s[i]; }
  }

  lemma {:induction false} Once<T>(s: seq<T>, x: T)
    requires Unique(s)
    ensures multiset(s)[x] <= 1
  {
    if s != [] {
      Once(s[1..], x);
      assert s == [s[0]] + s[1..];
      if x == s[0] {
        assert x !in multiset(s[1..]) by {
          assert forall i :: 0 <= i < |s[1..]| ==> s[1..][i] == s[i + 1];
        }
      }
    }
  }

  // ---- as the original runs it -------------------------------------------------------------

  predicate Boxed(b: seq<byte>) { |b| >= 4 && 0 < FromLe(b[..4]) <= |b| - 4 }

  /** A record of whatever tag it has. */
  method ReadRecord(reader: Reader) returns (record: Option<(byte, Reader)>)
    requires reader.Valid()
    modifies reader
    ensures reader.Valid()
    ensures record.Some? <==> Boxed(old(reader.Rest()))
    ensures record.Some? ==>
      && record.value.0 == old(reader.Rest())[4]
      && fresh(record.value.1) && record.value.1.Valid()
      && record.value.1.Rest() == Body(old(reader.Rest())) && reader.Rest() == After(old(reader.Rest()))
  {
    var count :- reader.Number();
    if count == 0 { return None; }
    var b :- reader.Take(count);
    var r := new Reader(b);
    var t := r.Byte();
    return Some((t.value, r));
  }

  lemma NameRecord(tag: byte, b: seq<byte>, text: Option<seq<byte>>, rest: seq<byte>)
    requires Framed(tag, b)
    requires text.Some? <==> GetText(MAX_ID_BYTES, Utf8, Body(b), 0).Got?
    requires text.Some? ==> GetText(MAX_ID_BYTES, Utf8, Body(b), 0) == Got(text.value, rest, 0)
    ensures Record(tag, NameCodec()).get(b, 0)
      == if text.Some? && rest == [] then Got(text.value, After(b), 0) else Bad
  {
    RecordRead(tag, NameCodec(), b, 0);
  }

  /** What is left to read decides the index, given what has been read. */
  function Ahead(name: seq<byte>, done: seq<seq<byte>>, left: nat, rest: seq<byte>): Option<Index> {
    match Then(done, GetAll(ExportCodec(), left, rest, 0))
    case Bad => None
    case Got(exports, tail, _) => if tail == [] then Some(Index(name, exports)) else None
  }

  lemma Identified(body: seq<byte>, records: nat)
    requires records > 0
    ensures match IdentityCodec().get(body, 0)
      case Bad => GetIndex(body, records).None?
      case Got(name, rest, _) => GetIndex(body, records) == Ahead(name, [], records - 1, rest)
  {
    match IdentityCodec().get(body, 0)
    case Bad =>
    case Got(name, rest, _) => Begin(GetAll(ExportCodec(), records - 1, rest, 0));
  }

  lemma Exported(name: seq<byte>, done: seq<seq<byte>>, left: nat, rest: seq<byte>)
    requires left > 0
    ensures match ExportCodec().get(rest, 0)
      case Bad => Ahead(name, done, left, rest).None?
      case Got(x, tail, _) => Ahead(name, done, left, rest) == Ahead(name, done + [x], left - 1, tail)
  {
    ExportBudget(rest);
    hide ExportCodec;
    Turn(ExportCodec(), left, done, rest, 0);
  }

  lemma ExportBudget(body: seq<byte>)
    ensures var g := ExportCodec().get(body, 0); g.Got? ==> g.budget == 0
  {
  }

  lemma WrongTag(tag: byte, b: seq<byte>)
    requires !Framed(tag, b)
    ensures Record(tag, NameCodec()).get(b, 0) == Bad
  {
  }

  method ReadBody(body: seq<byte>, records: nat) returns (index: Option<Index>)
    ensures index == GetIndex(body, records)
  {
    hide GetIndex, Ahead, GetText, Record, FromLe, Utf8;
    var reader := new Reader(body);
    var name: Option<seq<byte>> := None;
    var exports := [];
    for i := 0 to records
      invariant reader.Valid()
      invariant i == 0 ==> name == None && reader.Rest() == body && exports == []
      invariant i > 0 ==>
        name.Some? && GetIndex(body, records) == Ahead(name.value, exports, records - i, reader.Rest())
    {
      ghost var rest := reader.Rest();
      if i == 0 { Identified(body, records); } else { Exported(name.value, exports, records - i, rest); }
      if !Framed(1, rest) { WrongTag(1, rest); }
      if !Framed(2, rest) { WrongTag(2, rest); }
      var tagged := ReadRecord(reader);
      if tagged.None? { return None; }
      var (tag, record) := tagged.value;
      if tag == 1 {
        if name.Some? { return None; }
        var text := record.Text(MAX_ID_BYTES);
        NameRecord(1, rest, text, record.Rest());
        if text.None? || !record.Finished() { return None; }
        name := text;
      } else if tag == 2 {
        if name.None? { return None; }
        var text := record.Text(MAX_ID_BYTES);
        NameRecord(2, rest, text, record.Rest());
        if text.None? || !record.Finished() { return None; }
        exports := exports + [text.value];
      } else {
        return None;
      }
    }
    if records > 0 { Nothing(name.value, exports, reader.Rest()); }
    NoRecords(body);
    if !reader.Finished() || name.None? { return None; }
    return Some(Index(name.value, exports));
  }

  lemma Nothing(name: seq<byte>, done: seq<seq<byte>>, rest: seq<byte>)
    ensures Ahead(name, done, 0, rest) == if rest == [] then Some(Index(name, done)) else None
  {
    Stop(ExportCodec(), done, rest, 0);
  }

  lemma NoRecords(body: seq<byte>)
    ensures GetIndex(body, 0) == None
  {
  }

  method Decode(b: seq<byte>) returns (index: Option<Index>)
    ensures index == DecodeIndex(b)
  {
    var header := RuntimeStreams.ReadHeader(Ascii("OPRV"), b);
    if header.None? { return None; }
    var v :- ReadBody(header.value.0, header.value.1);
    if !ValidIndex(v) { return None; }
    return Some(v);
  }

  method WriteName(writer: Writer, tag: byte, name: seq<byte>) returns (o: Outcome)
    modifies writer
    ensures Wrote(o, old(writer.bytes), writer.bytes, Record(tag, NameCodec()).put(name))
  {
    hide Wrote, Record;
    ghost var before := writer.bytes;
    var start;
    o, start := writer.StartRecord(tag);
    if o.Fail? {
      RecordNotOpened(tag, NameCodec(), name, before, writer.bytes);
      return Fail;
    }
    ghost var framed := writer.bytes;
    o := writer.Text(name);
    RecordFilled(tag, NameCodec(), name, o, before, framed, writer.bytes);
    if o.Fail? { return Fail; }
    writer.EndRecord(start);
    return Pass;
  }

  lemma Appended<T(!new)>(c: Codec<T>, vs: seq<T>, o: Outcome, before: seq<byte>, now: seq<byte>, next: seq<byte>,
                   i: nat)
    requires i < |vs| && Wrote(Pass, before, now, PutAll(c, vs[..i])) && Wrote(o, now, next, c.put(vs[i]))
    ensures o.Pass? ==> Wrote(Pass, before, next, PutAll(c, vs[..i + 1]))
    ensures o.Fail? ==> Wrote(Fail, before, next, PutAll(c, vs))
  {
    PutNext(c, vs, i);
    WroteBoth(o, before, now, next, PutAll(c, vs[..i]), c.put(vs[i]));
  }

  method WriteExports(writer: Writer, exports: seq<seq<byte>>) returns (o: Outcome)
    requires |writer.bytes| <= MAX_BYTES
    modifies writer
    ensures Wrote(o, old(writer.bytes), writer.bytes, PutAll(ExportCodec(), exports))
  {
    ghost var before := writer.bytes;
    assert exports[..0] == [];
    for i := 0 to |exports|
      invariant Wrote(Pass, before, writer.bytes, PutAll(ExportCodec(), exports[..i]))
    {
      hide Wrote, Record, PutAll;
      ghost var now := writer.bytes;
      o := WriteName(writer, 2, exports[i]);
      Appended(ExportCodec(), exports, o, before, now, writer.bytes, i);
      if o.Fail? { return Fail; }
    }
    assert exports[..|exports|] == exports;
    return Pass;
  }

  /** A finished file is the wrapped body, and a body that could not be written is too long to wrap. */
  lemma FinishedIsWrapped(magic: seq<byte>, records: nat, body: seq<byte>, o: Outcome, written: seq<byte>)
    requires |magic| == 4 && Wrote(o, Header(magic, 0, records), written, body)
    ensures o.Fail? ==> Wrap(magic, body, records) == None
    ensures o.Pass? ==> |written| >= HEADER_BYTES
    ensures o.Pass? ==> Wrap(magic, body, records) == Some(written[..8] + U32(|written| - HEADER_BYTES) + written[12..])
  {
    if o.Pass? { Finished(magic, records, body, written); }
  }

  method Encode(v: Index) returns (file: Option<seq<byte>>)
    ensures file == EncodeIndex(v)
  {
    hide ValidIndex, IdentityCodec, ExportCodec, PutAll, Header, Wrap, Le;
    if !ValidIndex(v) { return None; }
    CountOfValid(v);
    var magic, records := Ascii("OPRV"), |v.exports| + 1;
    var writer := new Writer(magic, records);
    ghost var h := writer.bytes;
    var o := WriteIdentity(writer, v.set_);
    if o.Pass? {
      ghost var mid := writer.bytes;
      o := WriteExports(writer, v.exports);
      WroteBoth(o, h, mid, writer.bytes, IdentityCodec().put(v.set_), PutAll(ExportCodec(), v.exports));
    }
    FinishedIsWrapped(magic, records, PutIndex(v), o, writer.bytes);
    if o.Fail? { return None; }
    var f := writer.Finish();
    return Some(f);
  }

  method WriteIdentity(writer: Writer, name: seq<byte>) returns (o: Outcome)
    modifies writer
    ensures Wrote(o, old(writer.bytes), writer.bytes, IdentityCodec().put(name))
  {
    hide Wrote;
    o := WriteName(writer, 1, name);
  }

  lemma CountOfValid(v: Index)
    requires ValidIndex(v)
    ensures |v.exports| + 1 <= MAX_RECORDS
  {
  }
}
