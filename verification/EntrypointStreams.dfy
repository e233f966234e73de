/** The encoder and decoder of the entrypoint-set table as the original runs them. */
module EntrypointStreams {
  import opened Bytes
  import opened Codec
  import opened EntrypointSets
  import opened Ordering
  import opened Rules
  import opened RuntimeMetadata
  import RuntimeStreams
  import opened Streams

  // ---- reading -----------------------------------------------------------------------

  method ReadPins(reader: Reader, budget: Budget) returns (pins: Option<seq<Pin>>)
    requires reader.Valid()
    modifies reader, budget
    ensures reader.Valid()
    ensures Agrees(pins, reader.Rest(), budget.used, List(42, PinCodec(1)).get(old(reader.Rest()), old(budget.used)))
  {
    hide PinCodec, List;
    ListRead(42, PinCodec(1), reader.Rest(), budget.used);
    var count :- reader.Count(42, budget);
    ghost var all := GetAll(PinCodec(1), count, reader.Rest(), budget.used);
    var done := [];
    Begin(all);
    for i := 0 to count
      invariant reader.Valid()
      invariant all == Then(done, GetAll(PinCodec(1), count - i, reader.Rest(), budget.used))
    {
      Turn(PinCodec(1), count - i, done, reader.Rest(), budget.used);
      var next :- RuntimeStreams.ReadPin(reader, 1, budget.used);
      done := done + [next];
    }
    Stop(PinCodec(1), done, reader.Rest(), budget.used);
    return Some(done);
  }

  method ReadEntryName(reader: Reader, ghost n: nat) returns (name: Option<seq<byte>>)
    requires reader.Valid()
    modifies reader
    ensures reader.Valid() && Agrees(name, reader.Rest(), n, EntryNameCodec().get(old(reader.Rest()), n))
  {
    TextGet(MAX_ID_BYTES, EntryName, reader.Rest(), n);
    var text :- reader.Text(MAX_ID_BYTES);
    if !ValidEntryName(text) { return None; }
    return Some(text);
  }

  method ReadReferences(reader: Reader, budget: Budget) returns (sets: Option<seq<seq<byte>>>)
    requires reader.Valid()
    modifies reader, budget
    ensures reader.Valid()
    ensures Agrees(sets, reader.Rest(), budget.used, List(5, IdCodec()).get(old(reader.Rest()), old(budget.used)))
  {
    hide IdCodec, List;
    ListRead(5, IdCodec(), reader.Rest(), budget.used);
    var count :- reader.Count(5, budget);
    ghost var all := GetAll(IdCodec(), count, reader.Rest(), budget.used);
    var done := [];
    Begin(all);
    for i := 0 to count
      invariant reader.Valid()
      invariant all == Then(done, GetAll(IdCodec(), count - i, reader.Rest(), budget.used))
    {
      Turn(IdCodec(), count - i, done, reader.Rest(), budget.used);
      var next :- RuntimeStreams.ReadId(reader, budget.used);
      done := done + [next];
    }
    Stop(IdCodec(), done, reader.Rest(), budget.used);
    return Some(done);
  }

  method ReadEntry(reader: Reader, budget: Budget) returns (entry: Option<Entry>)
    requires reader.Valid()
    modifies reader, budget
    ensures reader.Valid()
    ensures Agrees(entry, reader.Rest(), budget.used, EntryCodec().get(old(reader.Rest()), old(budget.used)))
  {
    hide EntryNameCodec, IdCodec, List;
    ghost var n := budget.used;
    ghost var fields := Pair(EntryNameCodec(), List(5, IdCodec()));
    RecordRead(2, Iso(fields, MakeEntry, TakeEntry), reader.Rest(), n);
    var record :- reader.Record(2);
    IsoGet(fields, MakeEntry, TakeEntry, record.Rest(), n);
    PairGet(EntryNameCodec(), List(5, IdCodec()), record.Rest(), n);
    var name :- ReadEntryName(record, n);
    var sets :- ReadReferences(record, budget);
    if !record.Finished() { return None; }
    return Some(Entry(name, sets));
  }

  /** Reads on past an entry whose references are out of order, as no order of checks shows in the result. */
  method ReadEntries(reader: Reader, budget: Budget) returns (entries: Option<seq<Entry>>)
    requires reader.Valid()
    modifies reader, budget
    ensures reader.Valid()
    ensures match List(14, EntryCodec()).get(old(reader.Rest()), old(budget.used))
      case Bad => entries.None?
      case Got(es, rest, m) =>
        if forall e :: e in es ==> Neighbours(Before, e.sets)
        then entries == Some(es) && reader.Rest() == rest && budget.used == m
        else entries.None?
  {
    hide EntryCodec, List, GetAll, FromLe;
    ListRead(14, EntryCodec(), reader.Rest(), budget.used);
    var count :- reader.Count(14, budget);
    ghost var all := GetAll(EntryCodec(), count, reader.Rest(), budget.used);
    var done := [];
    Begin(all);
    for i := 0 to count
      invariant reader.Valid()
      invariant all == Then(done, GetAll(EntryCodec(), count - i, reader.Rest(), budget.used))
      invariant forall e :: e in done ==> Neighbours(Before, e.sets)
    {
      Turn(EntryCodec(), count - i, done, reader.Rest(), budget.used);
      var next :- ReadEntry(reader, budget);
      if !Neighbours(Before, next.sets) {
        ghost var later := GetAll(EntryCodec(), count - i - 1, reader.Rest(), budget.used);
        if all.Got? { assert all.value[|done|] == next; }
        return None;
      }
      done := done + [next];
    }
    Stop(EntryCodec(), done, reader.Rest(), budget.used);
    return Some(done);
  }

  method Decode(b: seq<byte>) returns (sets: Option<Sets>)
    ensures sets == DecodeSets(b)
  {
    hide PinCodec, EntryCodec, ValidSets, List;
    var header := RuntimeStreams.ReadHeader(Ascii("OSET"), b);
    if header.None? { return None; }
    var (body, expected) := header.value;
    SetsGet(body);
    var reader := new Reader(body);
    var budget := new Budget();
    var pins :- ReadPins(reader, budget);
    var entries :- ReadEntries(reader, budget);
    var v := Sets(pins, entries);
    if !reader.Finished() || budget.used != expected || !ValidSets(v) { return None; }
    if !Neighbours(PinNameBefore, pins) || !Neighbours(EntryBefore, entries) { return None; }
    return Some(v);
  }

  lemma SetsGet(body: seq<byte>)
    ensures SetsCodec().get(body, 0) ==
      match List(42, PinCodec(1)).get(body, 0)
      case Bad => Bad
      case Got(pins, rest, m) =>
        match List(14, EntryCodec()).get(rest, m)
        case Bad => Bad
        case Got(entries, tail, k) => Got(Sets(pins, entries), tail, k)
  {
    hide PinCodec, EntryCodec, List;
    IsoGet(Pair(List(42, PinCodec(1)), List(14, EntryCodec())), MakeSets, TakeSets, body, 0);
    PairGet(List(42, PinCodec(1)), List(14, EntryCodec()), body, 0);
  }

  // ---- writing -----------------------------------------------------------------------

  method WritePins(writer: Writer, pins: seq<Pin>) returns (o: Outcome)
    requires |pins| < U32_LIMIT
    modifies writer
    ensures Wrote(o, old(writer.bytes), writer.bytes, List(42, PinCodec(1)).put(pins))
  {
    hide PinCodec, List, Wrote, Writing;
    ghost var before, c := writer.bytes, PinCodec(1);
    o := writer.Count(|pins|);
    WritingBegins(42, c, pins, o, before, writer.bytes);
    if o.Fail? { return Fail; }
    for i := 0 to |pins|
      invariant Writing(c, pins, before, writer.bytes, i)
    {
      ghost var now := writer.bytes;
      o := RuntimeStreams.WritePin(writer, pins[i], 1);
      WritingGoesOn(42, c, pins, o, before, now, writer.bytes, i);
      if o.Fail? { return Fail; }
    }
    WritingEnds(42, c, pins, before, writer.bytes);
    return Pass;
  }

  lemma IdPut(name: seq<byte>)
    ensures IdCodec().put(name) == EntryNameCodec().put(name) == U32(|name|) + name
  {
  }

  method WriteReferences(writer: Writer, sets: seq<seq<byte>>) returns (o: Outcome)
    requires |sets| < U32_LIMIT
    modifies writer
    ensures Wrote(o, old(writer.bytes), writer.bytes, List(5, IdCodec()).put(sets))
  {
    hide IdCodec, List, Wrote, Writing;
    ghost var before, c := writer.bytes, IdCodec();
    o := writer.Count(|sets|);
    WritingBegins(5, c, sets, o, before, writer.bytes);
    if o.Fail? { return Fail; }
    for i := 0 to |sets|
      invariant Writing(c, sets, before, writer.bytes, i)
    {
      ghost var now := writer.bytes;
      IdPut(sets[i]);
      o := writer.Text(sets[i]);
      WritingGoesOn(5, c, sets, o, before, now, writer.bytes, i);
      if o.Fail? { return Fail; }
    }
    WritingEnds(5, c, sets, before, writer.bytes);
    return Pass;
  }

  lemma EntryPut(e: Entry)
    ensures Iso(Pair(EntryNameCodec(), List(5, IdCodec())), MakeEntry, TakeEntry).put(e)
      == U32(|e.name|) + e.name + List(5, IdCodec()).put(e.sets)
  {
    hide IdCodec, EntryNameCodec, List;
    IsoPut(Pair(EntryNameCodec(), List(5, IdCodec())), MakeEntry, TakeEntry, e);
    PairPut(EntryNameCodec(), List(5, IdCodec()), e.name, e.sets);
    IdPut(e.name);
  }

  method WriteEntryFields(writer: Writer, entry: Entry) returns (o: Outcome)
    requires |entry.sets| < U32_LIMIT
    modifies writer
    ensures Wrote(o, old(writer.bytes), writer.bytes,
                  Iso(Pair(EntryNameCodec(), List(5, IdCodec())), MakeEntry, TakeEntry).put(entry))
  {
    hide IdCodec, EntryNameCodec, List, Iso, Pair, Le;
    EntryPut(entry);
    o := writer.Text(entry.name);
    if o.Fail? { return Fail; }
    :- WriteReferences(writer, entry.sets);
    return Pass;
  }

  /** Sorts the references while it writes them. */
  method WriteEntry(writer: Writer, entry: Entry) returns (o: Outcome)
    requires |entry.sets| < U32_LIMIT
    modifies writer
    ensures Wrote(o, old(writer.bytes), writer.bytes, EntryCodec().put(Entry(entry.name, Sort(Before, entry.sets))))
  {
    hide IdCodec, EntryNameCodec, List, Iso, Pair, Le, Wrote, Sort, Before;
    ghost var before := writer.bytes;
    ghost var c := Iso(Pair(EntryNameCodec(), List(5, IdCodec())), MakeEntry, TakeEntry);
    var sets := Sort(Before, entry.sets);
    SortKeeps(Before, entry.sets);
    SameElements(sets, entry.sets);
    var sorted := Entry(entry.name, sets);
    var start;
    o, start := writer.StartRecord(2);
    if o.Fail? {
      RecordNotOpened(2, c, sorted, before, writer.bytes);
      return Fail;
    }
    ghost var framed := writer.bytes;
    o := WriteEntryFields(writer, sorted);
    RecordFilled(2, c, sorted, o, before, framed, writer.bytes);
    if o.Fail? { return Fail; }
    writer.EndRecord(start);
    return Pass;
  }

  method WriteEntries(writer: Writer, entries: seq<Entry>) returns (o: Outcome)
    requires |entries| < U32_LIMIT && forall e :: e in entries ==> |e.sets| < U32_LIMIT
    modifies writer
    ensures Wrote(o, old(writer.bytes), writer.bytes, List(14, EntryCodec()).put(SortedReferences(entries)))
  {
    hide EntryCodec, List, Wrote, Writing;
    ghost var before, c, sorted := writer.bytes, EntryCodec(), SortedReferences(entries);
    o := writer.Count(|entries|);
    WritingBegins(14, c, sorted, o, before, writer.bytes);
    if o.Fail? { return Fail; }
    for i := 0 to |entries|
      invariant Writing(c, sorted, before, writer.bytes, i)
    {
      ghost var now := writer.bytes;
      o := WriteEntry(writer, entries[i]);
      WritingGoesOn(14, c, sorted, o, before, now, writer.bytes, i);
      if o.Fail? { return Fail; }
    }
    WritingEnds(14, c, sorted, before, writer.bytes);
    return Pass;
  }

  lemma {:induction false} EntriesAreCountable(entries: seq<Entry>)
    ensures forall e :: e in entries ==> |e.sets| <= EntryRecords(entries)
  {
    if entries != [] {
      EntriesAreCountable(entries[1..]);
      assert forall e :: e in entries ==> e == entries[0] || e in entries[1..];
    }
  }

  lemma ValidIsCountable(v: Sets)
    requires ValidSets(v)
    ensures SetRecords(v) <= MAX_RECORDS && |Sort(PinNameBefore, v.pins)| < U32_LIMIT
    ensures |Sort(EntryBefore, v.entrypoints)| < U32_LIMIT
    ensures forall e :: e in Sort(EntryBefore, v.entrypoints) ==> |e.sets| < U32_LIMIT
  {
    SortKeeps(PinNameBefore, v.pins);
    SameElements(Sort(PinNameBefore, v.pins), v.pins);
    SortKeeps(EntryBefore, v.entrypoints);
    SameElements(Sort(EntryBefore, v.entrypoints), v.entrypoints);
    EntriesAreCountable(v.entrypoints);
  }

  lemma SetsPut(v: Sets)
    ensures SetsCodec().put(v) == List(42, PinCodec(1)).put(v.pins) + List(14, EntryCodec()).put(v.entrypoints)
  {
    hide PinCodec, EntryCodec, List;
    IsoPut(Pair(List(42, PinCodec(1)), List(14, EntryCodec())), MakeSets, TakeSets, v);
    PairPut(List(42, PinCodec(1)), List(14, EntryCodec()), v.pins, v.entrypoints);
  }

  method Encode(v: Sets) returns (file: Option<seq<byte>>)
    ensures file == EncodeSets(v)
  {
    hide ValidSets, SetRecords, PinCodec, EntryCodec, SetsCodec, List, Sort, Le;
    if !ValidSets(v) { return None; }
    ValidIsCountable(v);
    var pins, entries := Sort(PinNameBefore, v.pins), Sort(EntryBefore, v.entrypoints);
    var writer := new Writer(Ascii("OSET"), SetRecords(v));
    SetsPut(Canonical(v));
    ghost var body := SetsCodec().put(Canonical(v));
    var o := WritePins(writer, pins);
    if o.Fail? { return None; }
    o := WriteEntries(writer, entries);
    if o.Fail? { return None; }
    Finished(Ascii("OSET"), SetRecords(v), body, writer.bytes);
    var f := writer.Finish();
    return Some(f);
  }
}
