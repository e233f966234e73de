/** The entrypoint-set table (`OSET`) of `crates/onelf-format/src/runtime_metadata.rs`. */
module EntrypointSets {
  import opened Bytes
  import opened Codec
  import opened Ordering
  import opened Rules
  import opened RuntimeMetadata
  import opened Transport

  predicate Known(pins: seq<Pin>, name: seq<byte>) { exists i :: 0 <= i < |pins| && pins[i].name == name }

  predicate ValidEntryName(name: seq<byte>) { 0 < |name| <= MAX_ID_BYTES && 0 !in name }

  predicate ValidEntry(pins: seq<Pin>, e: Entry) {
    && ValidEntryName(e.name)
    && Unique(e.sets)
    && forall s :: s in e.sets ==> Known(pins, s)
  }

  function EntryRecords(entries: seq<Entry>): nat {
    if entries == [] then 0 else |entries[0].sets| + EntryRecords(entries[1..])
  }

  /** Pins, entrypoints and set references. */
  function SetRecords(v: Sets): nat { |v.pins| + |v.entrypoints| + EntryRecords(v.entrypoints) }

  predicate DistinctPins(pins: seq<Pin>) { forall i, j :: 0 <= i < j < |pins| ==> pins[i].name != pins[j].name }

  predicate DistinctEntries(entries: seq<Entry>) {
    forall i, j :: 0 <= i < j < |entries| ==> entries[i].name != entries[j].name
  }

  predicate ValidSets(v: Sets) {
    && SetRecords(v) <= MAX_RECORDS
    && DistinctPins(v.pins)
    && (forall p :: p in v.pins ==> SetName(p.name))
    && DistinctEntries(v.entrypoints)
    && (forall e :: e in v.entrypoints ==> ValidEntry(v.pins, e))
  }

  predicate PinNameBefore(a: Pin, b: Pin) { Before(a.name, b.name) }

  predicate EntryBefore(a: Entry, b: Entry) { Before(a.name, b.name) }

  /** The references of every entry in order of name. */
  function SortedReferences(entries: seq<Entry>): (r: seq<Entry>)
    ensures |r| == |entries|
    ensures forall i :: 0 <= i < |r| ==> r[i] == Entry(entries[i].name, Sort(Before, entries[i].sets))
  {
    if entries == [] then []
    else [Entry(entries[0].name, Sort(Before, entries[0].sets))] + SortedReferences(entries[1..])
  }

  function Canonical(v: Sets): Sets {
    Sets(Sort(PinNameBefore, v.pins), SortedReferences(Sort(EntryBefore, v.entrypoints)))
  }

  /** What the types of the original guarantee of a value before any validation. */
  predicate TypedEntry(e: Entry) { Utf8(e.name) && ValidAll(IdCodec(), e.sets) }

  predicate TypedSets(v: Sets) {
    ValidAll(PinCodec(1), v.pins) && forall e :: e in v.entrypoints ==> TypedEntry(e)
  }

  function EncodeSets(v: Sets): Option<seq<byte>> {
    if !ValidSets(v) then None
    else Wrap(Ascii("OSET"), SetsCodec().put(Canonical(v)), SetRecords(v))
  }

  predicate InOrder(v: Sets) {
    && Neighbours(PinNameBefore, v.pins)
    && Neighbours(EntryBefore, v.entrypoints)
    && forall e :: e in v.entrypoints ==> Neighbours(Before, e.sets)
  }

  function DecodeSets(b: seq<byte>): Option<Sets> {
    match Decoded(Ascii("OSET"), SetsCodec(), b)
    case None => None
    case Some(v) => if ValidSets(v) && InOrder(v) then Some(v) else None
  }

  // ---- orders ----------------------------------------------------------------------------

  lemma NamesStrict()
    ensures Strict(PinNameBefore) && Strict(EntryBefore)
  {
    BytesStrict();
    assert forall x: Pin :: !Before(x.name, x.name);
    assert forall x: Entry :: !Before(x.name, x.name);
  }

  lemma PinsAreDistinct(pins: seq<Pin>)
    ensures DistinctPins(pins) <==> Distinct(PinNameBefore, pins)
  {
    forall i, j | 0 <= i < j < |pins|
      ensures PinNameBefore(pins[i], pins[j]) || PinNameBefore(pins[j], pins[i]) <==> pins[i].name != pins[j].name
    {
      BeforeIsTotal(pins[i].name, pins[j].name);
    }
  }

  lemma EntriesAreDistinct(entries: seq<Entry>)
    ensures DistinctEntries(entries) <==> Distinct(EntryBefore, entries)
  {
    forall i, j | 0 <= i < j < |entries|
      ensures EntryBefore(entries[i], entries[j]) || EntryBefore(entries[j], entries[i]) <==>
        entries[i].name != entries[j].name
    {
      BeforeIsTotal(entries[i].name, entries[j].name);
    }
  }

  lemma NamesAreDistinct(names: seq<seq<byte>>)
    ensures Unique(names) <==> Distinct(Before, names)
  {
    forall i, j | 0 <= i < j < |names|
      ensures Before(names[i], names[j]) || Before(names[j], names[i]) <==> names[i] != names[j]
    {
      BeforeIsTotal(names[i], names[j]);
    }
  }

  lemma AscendingIsDistinct<T>(less: (T, T) -> bool, vs: seq<T>)
    requires Ascending(less, vs)
    ensures Distinct(less, vs) && Neighbours(less, vs)
  {
  }

  // ---- records -----------------------------------------------------------------------------

  lemma {:induction false} EntriesCount(entries: seq<Entry>)
    ensures CountAll(EntryCodec(), entries) == EntryRecords(entries)
  {
    if entries != [] {
      var e := entries[0];
      RecordCount(2, Pair(EntryNameCodec(), List(5, IdCodec())), MakeEntry, TakeEntry, e);
      PairCount(EntryNameCodec(), List(5, IdCodec()), e.name, e.sets);
      CountAllZero(IdCodec(), e.sets);
      EntriesCount(entries[1..]);
    }
  }

  lemma SetsCount(v: Sets)
    ensures SetsCodec().count(v) == SetRecords(v)
  {
    IsoCount(Pair(List(42, PinCodec(1)), List(14, EntryCodec())), MakeSets, TakeSets, v);
    PairCount(List(42, PinCodec(1)), List(14, EntryCodec()), v.pins, v.entrypoints);
    CountAllZero(PinCodec(1), v.pins);
    EntriesCount(v.entrypoints);
  }

  lemma {:induction false} ReferencesAreCounted(entries: seq<Entry>)
    ensures EntryRecords(SortedReferences(entries)) == EntryRecords(entries)
  {
    if entries != [] {
      ReferencesAreCounted(entries[1..]);
      SortKeeps(Before, entries[0].sets);
      SameElements(Sort(Before, entries[0].sets), entries[0].sets);
    }
  }

  lemma SetRecordsAreCounted(v: Sets)
    ensures SetsCodec().count(Canonical(v)) == SetRecords(v) == SetRecords(Canonical(v))
  {
    SetsCount(Canonical(v));
    SortKeeps(PinNameBefore, v.pins);
    SameElements(Sort(PinNameBefore, v.pins), v.pins);
    SortKeeps(EntryBefore, v.entrypoints);
    SameElements(Sort(EntryBefore, v.entrypoints), v.entrypoints);
    ReferencesAreCounted(Sort(EntryBefore, v.entrypoints));
    CountAllSort(EntryCodec(), EntryBefore, v.entrypoints);
    EntriesCount(v.entrypoints);
    EntriesCount(Sort(EntryBefore, v.entrypoints));
  }

  // ---- the canonical table -----------------------------------------------------------------

  lemma CanonicalPins(pins: seq<Pin>)
    requires DistinctPins(pins)
    ensures var sorted := Sort(PinNameBefore, pins);
      && Ascending(PinNameBefore, sorted) && DistinctPins(sorted)
      && (forall p :: p in sorted <==> p in pins)
  {
    var sorted := Sort(PinNameBefore, pins);
    NamesStrict();
    PinsAreDistinct(pins);
    SortAscends(PinNameBefore, pins);
    AscendingIsDistinct(PinNameBefore, sorted);
    PinsAreDistinct(sorted);
    SortKeeps(PinNameBefore, pins);
    SameElements(sorted, pins);
  }

  lemma SortedEntries(entries: seq<Entry>)
    requires DistinctEntries(entries)
    ensures var sorted := Sort(EntryBefore, entries);
      && Ascending(EntryBefore, sorted)
      && (forall e :: e in sorted <==> e in entries)
  {
    NamesStrict();
    EntriesAreDistinct(entries);
    SortAscends(EntryBefore, entries);
    SortKeeps(EntryBefore, entries);
    SameElements(Sort(EntryBefore, entries), entries);
  }

  lemma CanonicalReferences(e: Entry)
    requires Unique(e.sets)
    ensures var sorted := Sort(Before, e.sets);
      && Ascending(Before, sorted) && Unique(sorted)
      && (forall s :: s in sorted <==> s in e.sets)
  {
    var sorted := Sort(Before, e.sets);
    BytesStrict();
    NamesAreDistinct(e.sets);
    SortAscends(Before, e.sets);
    AscendingIsDistinct(Before, sorted);
    NamesAreDistinct(sorted);
    SortKeeps(Before, e.sets);
    SameElements(sorted, e.sets);
  }

  lemma SamePinsKnown(a: seq<Pin>, b: seq<Pin>, name: seq<byte>)
    requires (forall p :: p in a ==> p in b) && Known(a, name)
    ensures Known(b, name)
  {
    var i :| 0 <= i < |a| && a[i].name == name;
    assert a[i] in b;
  }

  lemma CanonicalEntry(pins: seq<Pin>, sorted: seq<Pin>, e: Entry)
    requires ValidEntry(pins, e) && forall p :: p in pins ==> p in sorted
    ensures ValidEntry(sorted, Entry(e.name, Sort(Before, e.sets))) && Neighbours(Before, Sort(Before, e.sets))
  {
    CanonicalReferences(e);
    forall s | s in Sort(Before, e.sets) ensures Known(sorted, s) {
      SamePinsKnown(pins, sorted, s);
    }
  }

  lemma ReferencesKeepOrder(entries: seq<Entry>)
    requires Ascending(EntryBefore, entries)
    ensures Ascending(EntryBefore, SortedReferences(entries))
  {
    var r := SortedReferences(entries);
    forall i, j | 0 <= i < j < |r| ensures EntryBefore(r[i], r[j]) { assert EntryBefore(entries[i], entries[j]); }
  }

  lemma CanonicalEntries(pins: seq<Pin>, sorted: seq<Pin>, entries: seq<Entry>)
    requires (forall e :: e in entries ==> ValidEntry(pins, e)) && forall p :: p in pins ==> p in sorted
    ensures forall e :: e in SortedReferences(entries) ==> ValidEntry(sorted, e) && Neighbours(Before, e.sets)
  {
    var r := SortedReferences(entries);
    forall i | 0 <= i < |r| ensures ValidEntry(sorted, r[i]) && Neighbours(Before, r[i].sets) {
      assert entries[i] in entries;
      CanonicalEntry(pins, sorted, entries[i]);
    }
  }

  lemma CanonicalIsValid(v: Sets)
    requires ValidSets(v)
    ensures ValidSets(Canonical(v)) && InOrder(Canonical(v))
  {
    var c := Canonical(v);
    SetRecordsAreCounted(v);
    CanonicalPins(v.pins);
    AscendingIsDistinct(PinNameBefore, c.pins);
    var entries := Sort(EntryBefore, v.entrypoints);
    SortedEntries(v.entrypoints);
    ReferencesKeepOrder(entries);
    AscendingIsDistinct(EntryBefore, c.entrypoints);
    EntriesAreDistinct(c.entrypoints);
    CanonicalEntries(v.pins, c.pins, entries);
  }

  lemma EntryIsValid(e: Entry)
    ensures EntryCodec().valid(e) <==> TypedEntry(e) && ValidEntryName(e.name)
  {
    RecordValid(2, Pair(EntryNameCodec(), List(5, IdCodec())), MakeEntry, TakeEntry, e);
    PairValid(EntryNameCodec(), List(5, IdCodec()), e.name, e.sets);
    assert EntryNameCodec().valid(e.name) == (0 < |e.name| <= MAX_ID_BYTES && EntryName(e.name));
    assert List(5, IdCodec()).valid(e.sets) == ValidAll(IdCodec(), e.sets);
  }

  lemma SetsAreValid(v: Sets)
    ensures SetsCodec().valid(v) <==> ValidAll(PinCodec(1), v.pins) && ValidAll(EntryCodec(), v.entrypoints)
  {
    IsoCount(Pair(List(42, PinCodec(1)), List(14, EntryCodec())), MakeSets, TakeSets, v);
    PairValid(List(42, PinCodec(1)), List(14, EntryCodec()), v.pins, v.entrypoints);
  }

  lemma TypedReferences(e: Entry)
    requires TypedEntry(e) && ValidEntryName(e.name)
    ensures EntryCodec().valid(Entry(e.name, Sort(Before, e.sets)))
  {
    var sorted := Sort(Before, e.sets);
    SortKeeps(Before, e.sets);
    SameElements(sorted, e.sets);
    forall i | 0 <= i < |sorted| ensures IdCodec().valid(sorted[i]) { assert sorted[i] in e.sets; }
    EntryIsValid(Entry(e.name, sorted));
  }

  lemma TypedEntries(pins: seq<Pin>, entries: seq<Entry>)
    requires DistinctEntries(entries) && forall e :: e in entries ==> TypedEntry(e) && ValidEntry(pins, e)
    ensures ValidAll(EntryCodec(), SortedReferences(Sort(EntryBefore, entries)))
  {
    var sorted := Sort(EntryBefore, entries);
    SortedEntries(entries);
    forall i | 0 <= i < |sorted| ensures EntryCodec().valid(SortedReferences(sorted)[i]) {
      assert sorted[i] in entries;
      TypedReferences(sorted[i]);
    }
  }

  lemma CanonicalIsTyped(v: Sets)
    requires TypedSets(v) && ValidSets(v)
    ensures SetsCodec().valid(Canonical(v))
  {
    var c := Canonical(v);
    CanonicalPins(v.pins);
    assert ValidAll(PinCodec(1), c.pins) by {
      forall i | 0 <= i < |c.pins| ensures PinCodec(1).valid(c.pins[i]) { assert c.pins[i] in v.pins; }
    }
    TypedEntries(v.pins, v.entrypoints);
    SetsAreValid(c);
  }

  lemma {:induction false} OrderedStays(entries: seq<Entry>)
    requires forall e :: e in entries ==> Neighbours(Before, e.sets)
    ensures SortedReferences(entries) == entries
  {
    BytesStrict();
    forall i | 0 <= i < |entries| ensures SortedReferences(entries)[i] == entries[i] {
      assert entries[i] in entries;
      NeighboursAscend(Before, entries[i].sets);
      SortedStays(Before, entries[i].sets);
    }
  }

  lemma CanonicalStays(v: Sets)
    requires InOrder(v)
    ensures Canonical(v) == v
  {
    NamesStrict();
    NeighboursAscend(PinNameBefore, v.pins);
    SortedStays(PinNameBefore, v.pins);
    NeighboursAscend(EntryBefore, v.entrypoints);
    SortedStays(EntryBefore, v.entrypoints);
    OrderedStays(v.entrypoints);
  }

  // ---- the two directions ------------------------------------------------------------------

  /** An encoded table decodes to itself with its pins, entries and references in order of name. */
  lemma DecodeOfEncodeSets(v: Sets)
    requires TypedSets(v) && EncodeSets(v).Some?
    ensures DecodeSets(EncodeSets(v).value) == Some(Canonical(v))
  {
    SetsLawful();
    CanonicalIsValid(v);
    CanonicalIsTyped(v);
    SetRecordsAreCounted(v);
    DecodedEncoded(Ascii("OSET"), SetsCodec(), Canonical(v));
  }

  lemma ReadEntriesAreTyped(v: Sets)
    requires SetsCodec().valid(v)
    ensures TypedSets(v)
  {
    SetsAreValid(v);
    forall e | e in v.entrypoints ensures TypedEntry(e) {
      var i :| 0 <= i < |v.entrypoints| && v.entrypoints[i] == e;
      EntryIsValid(v.entrypoints[i]);
    }
  }

  /** An accepted file is exactly what encoding its value writes. */
  lemma EncodeOfDecodeSets(b: seq<byte>)
    requires DecodeSets(b).Some?
    ensures var v := DecodeSets(b).value; TypedSets(v) && Canonical(v) == v && EncodeSets(v) == Some(b)
  {
    var v := DecodeSets(b).value;
    SetsLawful();
    EncodedDecoded(Ascii("OSET"), SetsCodec(), b);
    ReadEntriesAreTyped(v);
    CanonicalStays(v);
    SetRecordsAreCounted(v);
  }
}
