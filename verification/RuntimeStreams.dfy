/** The encoder and decoder of runtime rules as the original runs them: a writer that
    is appended to and patched, and readers that advance under one shared budget.
 */
module RuntimeStreams {
  import opened Bytes
  import opened Codec
  import opened Ordering
  import opened Rules
  import opened RuntimeMetadata
  import opened Streams
  import opened Transport

  // ---- the numbers in the bytes ----------------------------------------------------------------

  /** A path group's record has, after its identifier, one byte each for what kind of file it names, which
      candidates are taken and what becomes of an inherited value. */
  predicate GroupTagged(b: seq<byte>, g: Group) {
    && |b| > 11 + |g.id| && b[4] == 3
    && b[9 + |g.id|] == (match g.kind case File => 1 case Directory => 2)
    && b[10 + |g.id|] == (match g.selection case First => 1 case All => 2 case FirstPerLibraryRoot => 3)
    && b[11 + |g.id|] == (match g.inheritance case Preserve => 1 case Replace => 2)
  }

  predicate CandidateTagged(b: seq<byte>, c: Candidate) {
    |b| > 5 && b[4] == 4 && b[5] == match c.base case PackageRoot => 1 case LibraryRoot => 2
  }

  predicate HookTagged(b: seq<byte>, h: Hook) {
    && |b| > 5 && b[4] == 5
    && b[5] == match h
       case AlsaNaturalSort => 1
       case GdkCacheAbsolutise => 2
       case FontconfigGenerate => 3
       case GioModulePaths => 4
       case TclTkLibraries => 5
  }

  lemma PathTailPut(g: Group)
    ensures GroupTagsCodec().put((g.selection, (g.inheritance, (g.candidates, g.variables))))
      == [SelectionTag(g.selection)] + ([InheritanceTag(g.inheritance)]
         + (List(11, CandidateCodec()).put(g.candidates) + List(5, VariableCodec()).put(g.variables)))
  {
    hide CandidateCodec, VariableCodec, List;
    var inner := Pair(Enum(InheritanceTag, InheritanceOf), GroupListsCodec());
    PairPut(Enum(SelectionTag, SelectionOf), inner, g.selection, (g.inheritance, (g.candidates, g.variables)));
    PairPut(Enum(InheritanceTag, InheritanceOf), GroupListsCodec(), g.inheritance, (g.candidates, g.variables));
    PairPut(List(11, CandidateCodec()), List(5, VariableCodec()), g.candidates, g.variables);
  }

  lemma GroupPut(g: Group)
    ensures
      Iso(Pair(IdCodec(), Pair(Enum(KindTag, KindOf), GroupTagsCodec())), MakeGroup, TakeGroup).put(g)
        == U32(|g.id|) + g.id + ([KindTag(g.kind)]
           + GroupTagsCodec().put((g.selection, (g.inheritance, (g.candidates, g.variables)))))
  {
    hide GroupTagsCodec;
    var tags := Pair(Enum(KindTag, KindOf), GroupTagsCodec());
    var t := TakeGroup(g);
    IsoPut(Pair(IdCodec(), tags), MakeGroup, TakeGroup, g);
    PairPut(IdCodec(), tags, t.0, t.1);
    PairPut(Enum(KindTag, KindOf), GroupTagsCodec(), t.1.0, t.1.1);
  }

  lemma TaggedFields(length: seq<byte>, id: seq<byte>, n: seq<byte>, a: byte, b: byte, c: byte, rest: seq<byte>)
    requires |length| == |n| == 4
    ensures var s := length + [3] + (n + id + ([a] + ([b] + ([c] + rest))));
      |s| > 11 + |id| && s[4] == 3 && s[9 + |id|] == a && s[10 + |id|] == b && s[11 + |id|] == c
  {
    var s := length + [3] + (n + id + ([a] + ([b] + ([c] + rest))));
    assert s == (length + [3] + n + id) + [a, b, c] + rest;
  }

  lemma GroupIsTagged(g: Group)
    ensures GroupTagged(GroupCodec().put(g), g)
  {
    var c := Iso(Pair(IdCodec(), Pair(Enum(KindTag, KindOf), GroupTagsCodec())), MakeGroup, TakeGroup);
    hide Iso, Pair, GroupTagsCodec, CandidateCodec, VariableCodec, List, Record, Enum, IdCodec;
    GroupPut(g);
    PathTailPut(g);
    var lists := List(11, CandidateCodec()).put(g.candidates) + List(5, VariableCodec()).put(g.variables);
    RecordIs(3, c, g);
    TaggedFields(U32(|c.put(g)| + 1), g.id, U32(|g.id|), KindTag(g.kind), SelectionTag(g.selection),
                 InheritanceTag(g.inheritance), lists);
  }

  lemma RecordIs<T(!new)>(tag: byte, a: Codec<T>, v: T)
    ensures Record(tag, a).put(v) == U32(|a.put(v)| + 1) + [tag] + a.put(v)
  {
  }

  lemma CandidateIsTagged(c: Candidate)
    ensures CandidateTagged(CandidateCodec().put(c), c)
  {
    var fields := Pair(Enum(BaseTag, BaseOf), PathTextCodec());
    IsoPut(fields, MakeCandidate, TakeCandidate, c);
    PairPut(Enum(BaseTag, BaseOf), PathTextCodec(), c.base, c.path);
    RecordIs(4, Iso(fields, MakeCandidate, TakeCandidate), c);
    hide PathTextCodec, Iso, Pair, Record;
  }

  lemma HookIsTagged(h: Hook)
    ensures HookTagged(HookCodec().put(h), h)
  {
    RecordIs(5, Enum(HookTag, HookOf), h);
    assert Enum(HookTag, HookOf).put(h) == [HookTag(h)];
    var head := U32(|[HookTag(h)]| + 1);
    assert head + [5] + [HookTag(h)] == head + [5, HookTag(h)];
    hide Enum, Record, U32;
  }

  /** What a reader accepts has the same bytes. */
  lemma GroupReadIsTagged(b: seq<byte>, n: nat)
    requires n <= MAX_RECORDS && GroupCodec().get(b, n).Got?
    ensures GroupTagged(b, GroupCodec().get(b, n).value)
  {
    GroupLawful();
    assert Undone(GroupCodec(), b, n, GroupCodec().get(b, n));
    GroupIsTagged(GroupCodec().get(b, n).value);
    hide GroupCodec;
  }

  lemma CandidateReadIsTagged(b: seq<byte>, n: nat)
    requires n <= MAX_RECORDS && CandidateCodec().get(b, n).Got?
    ensures CandidateTagged(b, CandidateCodec().get(b, n).value)
  {
    CandidateLawful();
    assert Undone(CandidateCodec(), b, n, CandidateCodec().get(b, n));
    CandidateIsTagged(CandidateCodec().get(b, n).value);
    hide CandidateCodec;
  }

  lemma HookReadIsTagged(b: seq<byte>, n: nat)
    requires n <= MAX_RECORDS && HookCodec().get(b, n).Got?
    ensures HookTagged(b, HookCodec().get(b, n).value)
  {
    HookLawful();
    hide HookCodec;
    assert Undone(HookCodec(), b, n, HookCodec().get(b, n));
    HookIsTagged(HookCodec().get(b, n).value);
  }

  // ---- reading ---------------------------------------------------------------------------------

  method ReadId(reader: Reader, ghost n: nat) returns (id: Option<seq<byte>>)
    requires reader.Valid()
    modifies reader
    ensures reader.Valid() && Agrees(id, reader.Rest(), n, IdCodec().get(old(reader.Rest()), n))
  {
    assert forall s: seq<byte> :: RuleId(s) ==> Utf8(s) by {
      forall s: seq<byte> | RuleId(s) ensures Utf8(s) { IdentitiesAreUtf8(s); }
    }
    TextGet(MAX_ID_BYTES, RuleId, reader.Rest(), n);
    var text :- reader.Text(MAX_ID_BYTES);
    if !RuleId(text) { return None; }
    return Some(text);
  }

  method ReadVariable(reader: Reader, ghost n: nat) returns (name: Option<seq<byte>>)
    requires reader.Valid()
    modifies reader
    ensures reader.Valid() && Agrees(name, reader.Rest(), n, VariableCodec().get(old(reader.Rest()), n))
  {
    assert forall s: seq<byte> :: EnvironmentName(s) ==> Utf8(s) by {
      forall s: seq<byte> | EnvironmentName(s) ensures Utf8(s) { IdentitiesAreUtf8(s); }
    }
    TextGet(MAX_ID_BYTES, EnvironmentName, reader.Rest(), n);
    var text :- reader.Text(MAX_ID_BYTES);
    if !EnvironmentName(text) { return None; }
    return Some(text);
  }

  method ReadPin(reader: Reader, tag: byte, ghost n: nat) returns (pin: Option<Pin>)
    requires reader.Valid()
    modifies reader
    ensures reader.Valid() && Agrees(pin, reader.Rest(), n, PinCodec(tag).get(old(reader.Rest()), n))
  {
    RecordRead(tag, Iso(Pair(IdCodec(), Fixed(32)), MakePin, TakePin), reader.Rest(), n);
    var record :- reader.Record(tag);
    IsoGet(Pair(IdCodec(), Fixed(32)), MakePin, TakePin, record.Rest(), n);
    PairGet(IdCodec(), Fixed(32), record.Rest(), n);
    var name :- ReadId(record, n);
    var hash :- record.Take(32);
    if !record.Finished() { return None; }
    return Some(Pin(name, hash));
  }

  method ReadCandidate(reader: Reader, ghost n: nat) returns (candidate: Option<Candidate>)
    requires reader.Valid()
    modifies reader
    ensures reader.Valid() && Agrees(candidate, reader.Rest(), n, CandidateCodec().get(old(reader.Rest()), n))
    ensures candidate.Some? && n <= MAX_RECORDS ==> CandidateTagged(old(reader.Rest()), candidate.value)
  {
    if n <= MAX_RECORDS && CandidateCodec().get(reader.Rest(), n).Got? { CandidateReadIsTagged(reader.Rest(), n); }
    hide CandidateTagged;
    ghost var fields := Pair(Enum(BaseTag, BaseOf), PathTextCodec());
    RecordRead(4, Iso(fields, MakeCandidate, TakeCandidate), reader.Rest(), n);
    var record :- reader.Record(4);
    IsoGet(fields, MakeCandidate, TakeCandidate, record.Rest(), n);
    PairGet(Enum(BaseTag, BaseOf), PathTextCodec(), record.Rest(), n);
    var tag :- record.Byte();
    var base :- BaseOf(tag);
    TextGet(MAX_PATH_BYTES, NormalPath, record.Rest(), n);
    var encoded :- record.Text(MAX_PATH_BYTES);
    var path :- RelativePath(encoded);
    if path != encoded || !record.Finished() { return None; }
    return Some(Candidate(base, path));
  }

  method ReadCandidates(reader: Reader, budget: Budget) returns (candidates: Option<seq<Candidate>>)
    requires reader.Valid()
    modifies reader, budget
    ensures reader.Valid()
    ensures Agrees(candidates, reader.Rest(), budget.used,
                   List(11, CandidateCodec()).get(old(reader.Rest()), old(budget.used)))
  {
    hide CandidateCodec, List;
    ListRead(11, CandidateCodec(), reader.Rest(), budget.used);
    var count :- reader.Count(11, budget);
    ghost var all := GetAll(CandidateCodec(), count, reader.Rest(), budget.used);
    var done := [];
    Begin(all);
    for i := 0 to count
      invariant reader.Valid()
      invariant all == Then(done, GetAll(CandidateCodec(), count - i, reader.Rest(), budget.used))
    {
      Turn(CandidateCodec(), count - i, done, reader.Rest(), budget.used);
      var next :- ReadCandidate(reader, budget.used);
      done := done + [next];
    }
    Stop(CandidateCodec(), done, reader.Rest(), budget.used);
    return Some(done);
  }

  method ReadVariables(reader: Reader, budget: Budget) returns (variables: Option<seq<seq<byte>>>)
    requires reader.Valid()
    modifies reader, budget
    ensures reader.Valid()
    ensures Agrees(variables, reader.Rest(), budget.used,
                   List(5, VariableCodec()).get(old(reader.Rest()), old(budget.used)))
  {
    hide VariableCodec, List;
    ListRead(5, VariableCodec(), reader.Rest(), budget.used);
    var count :- reader.Count(5, budget);
    ghost var all := GetAll(VariableCodec(), count, reader.Rest(), budget.used);
    var done := [];
    Begin(all);
    for i := 0 to count
      invariant reader.Valid()
      invariant all == Then(done, GetAll(VariableCodec(), count - i, reader.Rest(), budget.used))
    {
      Turn(VariableCodec(), count - i, done, reader.Rest(), budget.used);
      var next :- ReadVariable(reader, budget.used);
      done := done + [next];
    }
    Stop(VariableCodec(), done, reader.Rest(), budget.used);
    return Some(done);
  }

  method ReadPath(reader: Reader, budget: Budget) returns (path: Option<Group>)
    requires reader.Valid()
    modifies reader, budget
    ensures reader.Valid()
    ensures Agrees(path, reader.Rest(), budget.used, GroupCodec().get(old(reader.Rest()), old(budget.used)))
    ensures path.Some? && old(budget.used) <= MAX_RECORDS ==> GroupTagged(old(reader.Rest()), path.value)
  {
    hide GroupTagsCodec, IdCodec, GroupTagged;
    ghost var n := budget.used;
    if n <= MAX_RECORDS && GroupCodec().get(reader.Rest(), n).Got? { GroupReadIsTagged(reader.Rest(), n); }
    ghost var fields := Pair(Enum(KindTag, KindOf), GroupTagsCodec());
    RecordRead(3, Iso(Pair(IdCodec(), fields), MakeGroup, TakeGroup), reader.Rest(), n);
    var record :- reader.Record(3);
    IsoGet(Pair(IdCodec(), fields), MakeGroup, TakeGroup, record.Rest(), n);
    PairGet(IdCodec(), fields, record.Rest(), n);
    var id :- ReadId(record, n);
    PairGet(Enum(KindTag, KindOf), GroupTagsCodec(), record.Rest(), n);
    var tag :- record.Byte();
    var kind :- KindOf(tag);
    var lists :- ReadPathTail(record, budget);
    if !record.Finished() { return None; }
    return Some(Group(id, kind, lists.1.1.0, lists.1.1.1, lists.0, lists.1.0));
  }

  method ReadPathTail(record: Reader, budget: Budget)
    returns (tail: Option<(Selection, (Inheritance, (seq<Candidate>, seq<seq<byte>>)))>)
    requires record.Valid()
    modifies record, budget
    ensures record.Valid()
    ensures Agrees(tail, record.Rest(), budget.used, GroupTagsCodec().get(old(record.Rest()), old(budget.used)))
  {
    ghost var n := budget.used;
    PairGet(Enum(SelectionTag, SelectionOf), Pair(Enum(InheritanceTag, InheritanceOf), GroupListsCodec()),
      record.Rest(), n);
    var tag :- record.Byte();
    var selection :- SelectionOf(tag);
    PairGet(Enum(InheritanceTag, InheritanceOf), GroupListsCodec(), record.Rest(), n);
    tag :- record.Byte();
    var inheritance :- InheritanceOf(tag);
    PairGet(List(11, CandidateCodec()), List(5, VariableCodec()), record.Rest(), n);
    var candidates :- ReadCandidates(record, budget);
    var variables :- ReadVariables(record, budget);
    return Some((selection, (inheritance, (candidates, variables))));
  }

  method ReadPaths(reader: Reader, budget: Budget) returns (paths: Option<seq<Group>>)
    requires reader.Valid()
    modifies reader, budget
    ensures reader.Valid()
    ensures Agrees(paths, reader.Rest(), budget.used, List(5, GroupCodec()).get(old(reader.Rest()), old(budget.used)))
  {
    hide GroupCodec, List;
    ListRead(5, GroupCodec(), reader.Rest(), budget.used);
    var count :- reader.Count(5, budget);
    ghost var all := GetAll(GroupCodec(), count, reader.Rest(), budget.used);
    var done := [];
    Begin(all);
    for i := 0 to count
      invariant reader.Valid()
      invariant all == Then(done, GetAll(GroupCodec(), count - i, reader.Rest(), budget.used))
    {
      Turn(GroupCodec(), count - i, done, reader.Rest(), budget.used);
      var next :- ReadPath(reader, budget);
      done := done + [next];
    }
    Stop(GroupCodec(), done, reader.Rest(), budget.used);
    return Some(done);
  }

  method ReadHook(reader: Reader, ghost n: nat) returns (hook: Option<Hook>)
    requires reader.Valid()
    modifies reader
    ensures reader.Valid() && Agrees(hook, reader.Rest(), n, HookCodec().get(old(reader.Rest()), n))
    ensures hook.Some? && n <= MAX_RECORDS ==> HookTagged(old(reader.Rest()), hook.value)
  {
    if n <= MAX_RECORDS && HookCodec().get(reader.Rest(), n).Got? { HookReadIsTagged(reader.Rest(), n); }
    hide HookTagged;
    RecordRead(5, Enum(HookTag, HookOf), reader.Rest(), n);
    var record :- reader.Record(5);
    var tag :- record.Byte();
    var h :- HookOf(tag);
    if !record.Finished() { return None; }
    return Some(h);
  }

  method ReadHooks(reader: Reader, budget: Budget) returns (hooks: Option<seq<Hook>>)
    requires reader.Valid()
    modifies reader, budget
    ensures reader.Valid()
    ensures Agrees(hooks, reader.Rest(), budget.used, List(6, HookCodec()).get(old(reader.Rest()), old(budget.used)))
  {
    hide HookCodec, List;
    ListRead(6, HookCodec(), reader.Rest(), budget.used);
    var count :- reader.Count(6, budget);
    ghost var all := GetAll(HookCodec(), count, reader.Rest(), budget.used);
    var done := [];
    Begin(all);
    for i := 0 to count
      invariant reader.Valid()
      invariant all == Then(done, GetAll(HookCodec(), count - i, reader.Rest(), budget.used))
    {
      Turn(HookCodec(), count - i, done, reader.Rest(), budget.used);
      var next :- ReadHook(reader, budget.used);
      done := done + [next];
    }
    Stop(HookCodec(), done, reader.Rest(), budget.used);
    return Some(done);
  }

  method ReadBinding(record: Reader, budget: Budget) returns (binding: Option<Option<Pin>>)
    requires record.Valid()
    modifies record, budget
    ensures record.Valid()
    ensures Agrees(binding, record.Rest(), budget.used, Maybe(PinCodec(2)).get(old(record.Rest()), old(budget.used)))
  {
    hide PinCodec, GetRecord;
    var flag :- record.Byte();
    if flag == 0 { return Some(None); }
    if flag != 1 { return None; }
    var o := budget.Add(1);
    if o.Fail? { return None; }
    var pin :- ReadPin(record, 2, budget.used);
    return Some(Some(pin));
  }

  method ReadRule(reader: Reader, budget: Budget) returns (rule: Option<Rule>)
    requires reader.Valid()
    modifies reader, budget
    ensures reader.Valid()
    ensures Agrees(rule, reader.Rest(), budget.used, RuleCodec().get(old(reader.Rest()), old(budget.used)))
  {
    hide GroupCodec, HookCodec, PinCodec, IdCodec, List, Maybe;
    ghost var n := budget.used;
    ghost var fields := Pair(Maybe(PinCodec(2)), RuleListsCodec());
    RecordRead(1, Iso(Pair(IdCodec(), fields), MakeRule, TakeRule), reader.Rest(), n);
    var record :- reader.Record(1);
    IsoGet(Pair(IdCodec(), fields), MakeRule, TakeRule, record.Rest(), n);
    PairGet(IdCodec(), fields, record.Rest(), n);
    var id :- ReadId(record, n);
    PairGet(Maybe(PinCodec(2)), RuleListsCodec(), record.Rest(), n);
    var binding :- ReadBinding(record, budget);
    PairGet(List(5, GroupCodec()), List(6, HookCodec()), record.Rest(), budget.used);
    var paths :- ReadPaths(record, budget);
    var hooks :- ReadHooks(record, budget);
    if !record.Finished() { return None; }
    return Some(Rule(id, binding, paths, hooks));
  }

  method ReadRules(reader: Reader, budget: Budget) returns (rules: Option<seq<Rule>>)
    requires reader.Valid()
    modifies reader, budget
    ensures reader.Valid()
    ensures Agrees(rules, reader.Rest(), budget.used, RulesCodec().get(old(reader.Rest()), old(budget.used)))
  {
    hide RuleCodec, List, GetAll, FromLe;
    ListRead(5, RuleCodec(), reader.Rest(), budget.used);
    var count :- reader.Count(5, budget);
    ghost var all := GetAll(RuleCodec(), count, reader.Rest(), budget.used);
    var done := [];
    Begin(all);
    for i := 0 to count
      invariant reader.Valid()
      invariant all == Then(done, GetAll(RuleCodec(), count - i, reader.Rest(), budget.used))
    {
      Turn(RuleCodec(), count - i, done, reader.Rest(), budget.used);
      var next :- ReadRule(reader, budget);
      done := done + [next];
    }
    Stop(RuleCodec(), done, reader.Rest(), budget.used);
    return Some(done);
  }

  method Decode(b: seq<byte>) returns (rules: Option<seq<Rule>>)
    ensures rules == DecodeRules(b)
  {
    hide RulesCodec, ValidRules, RuleBefore;
    var header := ReadHeader(Ascii("ORUL"), b);
    if header.None? { return None; }
    var (body, expected) := header.value;
    var reader := new Reader(body);
    var budget := new Budget();
    var read :- ReadRules(reader, budget);
    if !reader.Finished() || budget.used != expected || !ValidRules(read) || !Neighbours(RuleBefore, read) {
      return None;
    }
    return Some(read);
  }

  lemma VersionOne(version: seq<byte>)
    requires |version| == 2
    ensures FromLe(version) == 1 <==> version == [1, 0]
  {
    assert Le(1, 2) == [1, 0] by { assert Le(0, 1) == [0]; }
    LeOfFromLe(version);
    assert FromLe([1, 0]) == 1 by { assert [1, 0][1..] == [0] && FromLe([0]) == 0; }
  }

  method ReadHeader(magic: seq<byte>, b: seq<byte>) returns (header: Option<(seq<byte>, nat)>)
    requires |magic| == 4
    ensures header == Unwrap(magic, b)
  {
    if |b| > MAX_BYTES { return None; }
    var reader := new Reader(b);
    var m :- reader.Take(4);
    if m != magic { return None; }
    var version :- reader.Take(2);
    assert version == b[4..6];
    VersionOne(version);
    if FromLe(version) != 1 { return None; }
    var flags :- reader.Take(2);
    assert flags == b[6..8];
    if flags != [0, 0] { return None; }
    var payload :- reader.Number();
    assert b[8..][..4] == b[8..12];
    var records :- reader.Number();
    assert b[12..][..4] == b[12..16];
    if records > MAX_RECORDS || payload != |b| - HEADER_BYTES { return None; }
    return Some((b[HEADER_BYTES..], records));
  }

  // ---- writing ---------------------------------------------------------------------------

  lemma PinPut(pin: Pin)
    ensures Iso(Pair(IdCodec(), Fixed(32)), MakePin, TakePin).put(pin) == U32(|pin.name|) + pin.name + pin.hash
  {
    IsoPut(Pair(IdCodec(), Fixed(32)), MakePin, TakePin, pin);
    PairPut(IdCodec(), Fixed(32), pin.name, pin.hash);
  }

  method WritePin(writer: Writer, pin: Pin, tag: byte) returns (o: Outcome)
    modifies writer
    ensures Wrote(o, old(writer.bytes), writer.bytes, PinCodec(tag).put(pin))
  {
    ghost var before := writer.bytes;
    ghost var c := Iso(Pair(IdCodec(), Fixed(32)), MakePin, TakePin);
    PinPut(pin);
    RecordPut(tag, c, pin);
    var start :- writer.StartRecord(tag);
    :- writer.Text(pin.name);
    :- writer.Append(pin.hash);
    Closed(tag, c, pin, before, writer.bytes, start);
    writer.EndRecord(start);
    return Pass;
  }

  method WriteCandidate(writer: Writer, candidate: Candidate) returns (o: Outcome)
    modifies writer
    ensures Wrote(o, old(writer.bytes), writer.bytes, CandidateCodec().put(candidate))
    ensures o.Pass? ==> CandidateTagged(writer.bytes[|old(writer.bytes)|..], candidate)
  {
    CandidateIsTagged(candidate);
    hide CandidateTagged;
    ghost var before := writer.bytes;
    ghost var fields := Pair(Enum(BaseTag, BaseOf), PathTextCodec());
    ghost var c := Iso(fields, MakeCandidate, TakeCandidate);
    IsoPut(fields, MakeCandidate, TakeCandidate, candidate);
    PairPut(Enum(BaseTag, BaseOf), PathTextCodec(), candidate.base, candidate.path);
    assert c.put(candidate) == [BaseTag(candidate.base)] + (U32(|candidate.path|) + candidate.path);
    RecordPut(4, c, candidate);
    var start :- writer.StartRecord(4);
    :- writer.Byte(BaseTag(candidate.base));
    :- writer.Text(candidate.path);
    Closed(4, c, candidate, before, writer.bytes, start);
    writer.EndRecord(start);
    return Pass;
  }

  method WriteCandidates(writer: Writer, candidates: seq<Candidate>) returns (o: Outcome)
    requires |candidates| < U32_LIMIT
    modifies writer
    ensures Wrote(o, old(writer.bytes), writer.bytes, List(11, CandidateCodec()).put(candidates))
  {
    hide CandidateCodec, List, Wrote, Writing;
    ghost var before, c := writer.bytes, CandidateCodec();
    o := writer.Count(|candidates|);
    WritingBegins(11, c, candidates, o, before, writer.bytes);
    if o.Fail? { return Fail; }
    for i := 0 to |candidates|
      invariant Writing(c, candidates, before, writer.bytes, i)
    {
      ghost var now := writer.bytes;
      o := WriteCandidate(writer, candidates[i]);
      WritingGoesOn(11, c, candidates, o, before, now, writer.bytes, i);
      if o.Fail? { return Fail; }
    }
    WritingEnds(11, c, candidates, before, writer.bytes);
    return Pass;
  }

  lemma VariablePut(name: seq<byte>)
    ensures VariableCodec().put(name) == U32(|name|) + name
  {
  }

  method WriteVariables(writer: Writer, variables: seq<seq<byte>>) returns (o: Outcome)
    requires |variables| < U32_LIMIT
    modifies writer
    ensures Wrote(o, old(writer.bytes), writer.bytes, List(5, VariableCodec()).put(variables))
  {
    hide VariableCodec, List, Wrote, Writing;
    ghost var before, c := writer.bytes, VariableCodec();
    o := writer.Count(|variables|);
    WritingBegins(5, c, variables, o, before, writer.bytes);
    if o.Fail? { return Fail; }
    for i := 0 to |variables|
      invariant Writing(c, variables, before, writer.bytes, i)
    {
      ghost var now := writer.bytes;
      VariablePut(variables[i]);
      o := writer.Text(variables[i]);
      WritingGoesOn(5, c, variables, o, before, now, writer.bytes, i);
      if o.Fail? { return Fail; }
    }
    WritingEnds(5, c, variables, before, writer.bytes);
    return Pass;
  }

  method WritePathTail(writer: Writer, path: Group) returns (o: Outcome)
    requires |path.candidates| < U32_LIMIT && |path.variables| < U32_LIMIT
    modifies writer
    ensures Wrote(o, old(writer.bytes), writer.bytes,
                  GroupTagsCodec().put((path.selection, (path.inheritance, (path.candidates, path.variables)))))
  {
    hide CandidateCodec, VariableCodec, GroupTagsCodec, List;
    PathTailPut(path);
    o := writer.Byte(SelectionTag(path.selection));
    if o.Fail? { return Fail; }
    :- writer.Byte(InheritanceTag(path.inheritance));
    :- WriteCandidates(writer, path.candidates);
    :- WriteVariables(writer, path.variables);
    return Pass;
  }

  method WritePath(writer: Writer, path: Group) returns (o: Outcome)
    requires |path.candidates| < U32_LIMIT && |path.variables| < U32_LIMIT
    modifies writer
    ensures Wrote(o, old(writer.bytes), writer.bytes, GroupCodec().put(path))
    ensures o.Pass? ==> GroupTagged(writer.bytes[|old(writer.bytes)|..], path)
  {
    GroupIsTagged(path);
    hide GroupTagsCodec, IdCodec, Iso, Pair, GroupTagged;
    ghost var before := writer.bytes;
    ghost var c := Iso(Pair(IdCodec(), Pair(Enum(KindTag, KindOf), GroupTagsCodec())), MakeGroup, TakeGroup);
    GroupPut(path);
    RecordPut(3, c, path);
    var start :- writer.StartRecord(3);
    :- writer.Text(path.id);
    :- writer.Byte(KindTag(path.kind));
    :- WritePathTail(writer, path);
    Closed(3, c, path, before, writer.bytes, start);
    writer.EndRecord(start);
    return Pass;
  }

  method WritePaths(writer: Writer, paths: seq<Group>) returns (o: Outcome)
    requires |paths| < U32_LIMIT
    requires forall g :: g in paths ==> |g.candidates| < U32_LIMIT && |g.variables| < U32_LIMIT
    modifies writer
    ensures Wrote(o, old(writer.bytes), writer.bytes, List(5, GroupCodec()).put(paths))
  {
    hide GroupCodec, List, Wrote, Writing;
    ghost var before, c := writer.bytes, GroupCodec();
    o := writer.Count(|paths|);
    WritingBegins(5, c, paths, o, before, writer.bytes);
    if o.Fail? { return Fail; }
    for i := 0 to |paths|
      invariant Writing(c, paths, before, writer.bytes, i)
    {
      ghost var now := writer.bytes;
      o := WritePath(writer, paths[i]);
      WritingGoesOn(5, c, paths, o, before, now, writer.bytes, i);
      if o.Fail? { return Fail; }
    }
    WritingEnds(5, c, paths, before, writer.bytes);
    return Pass;
  }

  method WriteHooks(writer: Writer, hooks: seq<Hook>) returns (o: Outcome)
    requires |hooks| < U32_LIMIT
    modifies writer
    ensures Wrote(o, old(writer.bytes), writer.bytes, List(6, HookCodec()).put(hooks))
  {
    hide HookCodec, List, Wrote, Writing;
    ghost var before, c := writer.bytes, HookCodec();
    o := writer.Count(|hooks|);
    WritingBegins(6, c, hooks, o, before, writer.bytes);
    if o.Fail? { return Fail; }
    for i := 0 to |hooks|
      invariant Writing(c, hooks, before, writer.bytes, i)
    {
      ghost var now := writer.bytes;
      o := WriteHook(writer, hooks[i]);
      WritingGoesOn(6, c, hooks, o, before, now, writer.bytes, i);
      if o.Fail? { return Fail; }
    }
    WritingEnds(6, c, hooks, before, writer.bytes);
    return Pass;
  }

  method WriteHook(writer: Writer, hook: Hook) returns (o: Outcome)
    modifies writer
    ensures Wrote(o, old(writer.bytes), writer.bytes, HookCodec().put(hook))
    ensures o.Pass? ==> HookTagged(writer.bytes[|old(writer.bytes)|..], hook)
  {
    HookIsTagged(hook);
    hide HookTagged;
    ghost var before := writer.bytes;
    RecordPut(5, Enum(HookTag, HookOf), hook);
    var start :- writer.StartRecord(5);
    :- writer.Byte(HookTag(hook));
    Closed(5, Enum(HookTag, HookOf), hook, before, writer.bytes, start);
    writer.EndRecord(start);
    return Pass;
  }

  lemma RulePut(r: Rule)
    ensures
      Iso(Pair(IdCodec(), Pair(Maybe(PinCodec(2)), RuleListsCodec())), MakeRule, TakeRule).put(r)
        == U32(|r.id|) + r.id + (Maybe(PinCodec(2)).put(r.binding) + RuleListsCodec().put((r.paths, r.hooks)))
  {
    hide RuleListsCodec, PinCodec, Maybe;
    var fields := Pair(Maybe(PinCodec(2)), RuleListsCodec());
    IsoPut(Pair(IdCodec(), fields), MakeRule, TakeRule, r);
    PairPut(IdCodec(), fields, r.id, (r.binding, (r.paths, r.hooks)));
    PairPut(Maybe(PinCodec(2)), RuleListsCodec(), r.binding, (r.paths, r.hooks));
  }

  method WriteBinding(writer: Writer, binding: Option<Pin>) returns (o: Outcome)
    modifies writer
    ensures Wrote(o, old(writer.bytes), writer.bytes, Maybe(PinCodec(2)).put(binding))
  {
    hide PinCodec;
    o := writer.Byte(if binding.Some? then 1 else 0);
    if o.Fail? { return Fail; }
    if binding.Some? {
      :- WritePin(writer, binding.value, 2);
    }
    return Pass;
  }

  method WriteRuleLists(writer: Writer, rule: Rule) returns (o: Outcome)
    requires Countable(rule)
    modifies writer
    ensures Wrote(o, old(writer.bytes), writer.bytes, RuleListsCodec().put((rule.paths, rule.hooks)))
  {
    hide GroupCodec, HookCodec, List;
    PairPut(List(5, GroupCodec()), List(6, HookCodec()), rule.paths, rule.hooks);
    o := WritePaths(writer, rule.paths);
    if o.Fail? { return Fail; }
    :- WriteHooks(writer, rule.hooks);
    return Pass;
  }

  /** No list of a rule is longer than its records, so every count fits its field. */
  predicate Countable(r: Rule) {
    && |r.paths| < U32_LIMIT && |r.hooks| < U32_LIMIT
    && forall g :: g in r.paths ==> |g.candidates| < U32_LIMIT && |g.variables| < U32_LIMIT
  }

  method WriteRule(writer: Writer, rule: Rule) returns (o: Outcome)
    requires Countable(rule)
    modifies writer
    ensures Wrote(o, old(writer.bytes), writer.bytes, RuleCodec().put(rule))
  {
    hide PinCodec, IdCodec, RuleListsCodec, Maybe, Iso, Pair, Countable;
    ghost var before := writer.bytes;
    ghost var c := Iso(Pair(IdCodec(), Pair(Maybe(PinCodec(2)), RuleListsCodec())), MakeRule, TakeRule);
    RulePut(rule);
    RecordPut(1, c, rule);
    var start :- writer.StartRecord(1);
    :- writer.Text(rule.id);
    :- WriteBinding(writer, rule.binding);
    :- WriteRuleLists(writer, rule);
    Closed(1, c, rule, before, writer.bytes, start);
    writer.EndRecord(start);
    return Pass;
  }

  method WriteRules(writer: Writer, rules: seq<Rule>) returns (o: Outcome)
    requires |rules| < U32_LIMIT && forall r :: r in rules ==> Countable(r)
    modifies writer
    ensures Wrote(o, old(writer.bytes), writer.bytes, RulesCodec().put(rules))
  {
    hide RuleCodec, Countable, List, Wrote, Writing;
    ghost var before, c := writer.bytes, RuleCodec();
    o := writer.Count(|rules|);
    WritingBegins(5, c, rules, o, before, writer.bytes);
    if o.Fail? { return Fail; }
    for i := 0 to |rules|
      invariant Writing(c, rules, before, writer.bytes, i)
    {
      ghost var now := writer.bytes;
      o := WriteRule(writer, rules[i]);
      WritingGoesOn(5, c, rules, o, before, now, writer.bytes, i);
      if o.Fail? { return Fail; }
    }
    WritingEnds(5, c, rules, before, writer.bytes);
    return Pass;
  }

  lemma {:induction false} GroupsAreCountable(paths: seq<Group>)
    ensures forall g :: g in paths ==> |g.candidates| + |g.variables| <= GroupRecords(paths)
  {
    if paths != [] {
      GroupsAreCountable(paths[1..]);
      assert forall g :: g in paths ==> g == paths[0] || g in paths[1..];
    }
  }

  lemma {:induction false} RulesAreCountable(rules: seq<Rule>)
    requires AllRuleRecords(rules) <= MAX_RECORDS
    ensures forall r :: r in rules ==> Countable(r)
  {
    if rules != [] {
      RulesAreCountable(rules[1..]);
      GroupsAreCountable(rules[0].paths);
      assert forall r :: r in rules ==> r == rules[0] || r in rules[1..];
    }
  }

  lemma ValidIsCountable(rules: seq<Rule>)
    requires ValidRules(rules)
    ensures Records(rules) <= MAX_RECORDS && |Sort(RuleBefore, rules)| < U32_LIMIT
    ensures forall r :: r in Sort(RuleBefore, rules) ==> Countable(r)
  {
    SortKeeps(RuleBefore, rules);
    SameElements(Sort(RuleBefore, rules), rules);
    RulesAreCountable(rules);
  }

  method Encode(rules: seq<Rule>) returns (file: Option<seq<byte>>)
    ensures file == EncodeRules(rules)
  {
    hide ValidRules, RulesCodec, RuleBefore, Countable, Records, Sort, Le;
    if !ValidRules(rules) { return None; }
    ValidIsCountable(rules);
    var sorted := Sort(RuleBefore, rules);
    var writer := new Writer(Ascii("ORUL"), Records(rules));
    ghost var body := RulesCodec().put(sorted);
    var o := WriteRules(writer, sorted);
    if o.Fail? { return None; }
    Finished(Ascii("ORUL"), Records(rules), body, writer.bytes);
    var f := writer.Finish();
    return Some(f);
  }
}
