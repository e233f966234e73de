/** The bytes of the bounded transports of `crates/onelf-format/src/runtime_metadata.rs`, written out: the
    magic, the numbers that tags and records stand for, the order of fields and of bytes in a length.
    The formats put together from codecs are these.
 */
module RuntimeLayout {
  import opened Bytes
  import opened Codec
  import opened EntrypointSets
  import opened LittleEndian
  import opened Ordering
  import opened ProviderIndex
  import opened Rules
  import opened RuntimeMetadata
  import RuntimeStreams
  import opened Streams
  import opened Transport

  function Str(s: seq<byte>): seq<byte> { Four(|s|) + s }

  /** A record: the length of what follows, its number, its fields. */
  function Framed(number: byte, fields: seq<byte>): seq<byte> { Four(|fields| + 1) + [number] + fields }

  /** A file: magic, version 1, two reserved bytes, the length of the body, the number of records, the body. */
  function File(magic: seq<byte>, body: seq<byte>, records: nat): seq<byte> {
    magic + [1, 0, 0, 0] + Four(|body|) + Four(records) + body
  }

  lemma FileIs(magic: seq<byte>, body: seq<byte>, records: nat)
    ensures Header(magic, |body|, records) + body == File(magic, body, records)
  {
    FourIs(|body|);
    FourIs(records);
    assert magic + [1, 0] + [0, 0] == magic + [1, 0, 0, 0];
  }

  // ---- records ------------------------------------------------------------------------------

  function PinBytes(number: byte, p: Pin): seq<byte> { Framed(number, Str(p.name) + p.hash) }

  function CandidateBytes(c: Candidate): seq<byte> {
    Framed(4, [if c.base.PackageRoot? then 1 else 2] + Str(c.path))
  }

  function Candidates(cs: seq<Candidate>): seq<byte> {
    if cs == [] then [] else CandidateBytes(cs[0]) + Candidates(cs[1..])
  }

  function Strs(ss: seq<seq<byte>>): seq<byte> { if ss == [] then [] else Str(ss[0]) + Strs(ss[1..]) }

  function KindByte(k: Kind): byte { if k == Kind.File then 1 else 2 }

  function SelectionByte(s: Selection): byte { if s == First then 1 else if s == All then 2 else 3 }

  function InheritanceByte(i: Inheritance): byte { if i == Preserve then 1 else 2 }

  function HookByte(h: Hook): byte {
    if h == AlsaNaturalSort then 1
    else if h == GdkCacheAbsolutise then 2
    else if h == FontconfigGenerate then 3
    else if h == GioModulePaths then 4
    else 5
  }

  function GroupBytes(g: Group): seq<byte> {
    Framed(3, Str(g.id) + [KindByte(g.kind), SelectionByte(g.selection), InheritanceByte(g.inheritance)]
              + Four(|g.candidates|) + Candidates(g.candidates) + Four(|g.variables|) + Strs(g.variables))
  }

  function Groups(gs: seq<Group>): seq<byte> { if gs == [] then [] else GroupBytes(gs[0]) + Groups(gs[1..]) }

  function Hooks(hs: seq<Hook>): seq<byte> { if hs == [] then [] else Framed(5, [HookByte(hs[0])]) + Hooks(hs[1..]) }

  function RuleBytes(r: Rule): seq<byte> {
    Framed(1, Str(r.id) + (if r.binding.Some? then [1] + PinBytes(2, r.binding.value) else [0])
              + Four(|r.paths|) + Groups(r.paths) + Four(|r.hooks|) + Hooks(r.hooks))
  }

  function RulesBytes(rs: seq<Rule>): seq<byte> { if rs == [] then [] else RuleBytes(rs[0]) + RulesBytes(rs[1..]) }

  function EntryBytes(e: Entry): seq<byte> { Framed(2, Str(e.name) + Four(|e.sets|) + Strs(e.sets)) }

  function Pins(ps: seq<Pin>): seq<byte> { if ps == [] then [] else PinBytes(1, ps[0]) + Pins(ps[1..]) }

  function Entries(es: seq<Entry>): seq<byte> { if es == [] then [] else EntryBytes(es[0]) + Entries(es[1..]) }

  // ---- they are what the codecs put --------------------------------------------------------------

  lemma FramedIs<T(!new)>(number: byte, c: Codec<T>, v: T, fields: seq<byte>)
    requires c.put(v) == fields
    ensures Record(number, c).put(v) == Framed(number, fields)
  {
    FourIs(|fields| + 1);
  }

  lemma PinIs(number: byte, p: Pin)
    ensures PinCodec(number).put(p) == PinBytes(number, p)
  {
    FourIs(|p.name|);
    RuntimeStreams.PinPut(p);
    hide Framed;
    FramedIs(number, Iso(Pair(IdCodec(), Fixed(32)), MakePin, TakePin), p, Str(p.name) + p.hash);
  }

  lemma CandidateIs(c: Candidate)
    ensures CandidateCodec().put(c) == CandidateBytes(c)
  {
    var fields := Pair(Enum(BaseTag, BaseOf), PathTextCodec());
    var base: byte := if c.base.PackageRoot? then 1 else 2;
    FourIs(|c.path|);
    IsoPut(fields, MakeCandidate, TakeCandidate, c);
    PairPut(Enum(BaseTag, BaseOf), PathTextCodec(), c.base, c.path);
    EnumPut(BaseTag, BaseOf, c.base);
    assert BaseTag(c.base) == base;
    hide Framed, Pair, Enum, Iso, Record;
    FramedIs(4, Iso(fields, MakeCandidate, TakeCandidate), c, [base] + Str(c.path));
  }

  lemma EnumPut<T(!new)>(tag: T -> byte, untag: byte -> Option<T>, v: T)
    ensures Enum(tag, untag).put(v) == [tag(v)]
  {
  }

  lemma {:induction false} CandidatesAre(cs: seq<Candidate>)
    ensures PutAll(CandidateCodec(), cs) == Candidates(cs)
  {
    if cs != [] {
      CandidateIs(cs[0]);
      hide CandidateCodec, CandidateBytes;
      CandidatesAre(cs[1..]);
    }
  }

  lemma {:induction false} StrsAre(max: nat, ok: seq<byte> -> bool, ss: seq<seq<byte>>)
    ensures PutAll(Text(max, ok), ss) == Strs(ss)
  {
    if ss != [] {
      FourIs(|ss[0]|);
      StrsAre(max, ok, ss[1..]);
    }
  }

  lemma GroupListsAre(g: Group)
    ensures GroupListsCodec().put((g.candidates, g.variables))
      == Four(|g.candidates|) + Candidates(g.candidates) + (Four(|g.variables|) + Strs(g.variables))
  {
    CandidatesAre(g.candidates);
    StrsAre(MAX_ID_BYTES, EnvironmentName, g.variables);
    FourIs(|g.candidates|);
    FourIs(|g.variables|);
    hide CandidateCodec, PutAll, Candidates, Strs;
  }

  lemma GroupTagsAre(g: Group)
    ensures GroupTagsCodec().put((g.selection, (g.inheritance, (g.candidates, g.variables))))
      == [SelectionByte(g.selection)] + ([InheritanceByte(g.inheritance)]
         + (Four(|g.candidates|) + Candidates(g.candidates) + (Four(|g.variables|) + Strs(g.variables))))
  {
    RuntimeStreams.PathTailPut(g);
    GroupListsAre(g);
    PairPut(List(11, CandidateCodec()), List(5, VariableCodec()), g.candidates, g.variables);
    assert SelectionTag(g.selection) == SelectionByte(g.selection);
    assert InheritanceTag(g.inheritance) == InheritanceByte(g.inheritance);
    hide GroupTagsCodec, List, CandidateCodec, VariableCodec, Candidates, Strs, Four, Pair;
    hide SelectionTag, SelectionByte, InheritanceTag, InheritanceByte;
  }

  lemma GroupFieldsAre(g: Group)
    ensures Iso(Pair(IdCodec(), Pair(Enum(KindTag, KindOf), GroupTagsCodec())), MakeGroup, TakeGroup).put(g)
      == Str(g.id) + ([KindByte(g.kind)] + ([SelectionByte(g.selection)] + ([InheritanceByte(g.inheritance)]
         + (Four(|g.candidates|) + Candidates(g.candidates) + (Four(|g.variables|) + Strs(g.variables))))))
  {
    RuntimeStreams.GroupPut(g);
    GroupTagsAre(g);
    FourIs(|g.id|);
    hide GroupTagsCodec, Candidates, Strs, Four, U32, Iso, Pair, Enum;
  }

  lemma Flattened(id: seq<byte>, a: byte, b: byte, c: byte, n: seq<byte>, cs: seq<byte>, m: seq<byte>, vs: seq<byte>)
    ensures id + ([a] + ([b] + ([c] + (n + cs + (m + vs))))) == id + [a, b, c] + n + cs + m + vs
  {
    assert [a] + ([b] + ([c] + (n + cs + (m + vs)))) == [a, b, c] + (n + cs + (m + vs));
  }

  lemma GroupIs(g: Group)
    ensures GroupCodec().put(g) == GroupBytes(g)
  {
    var c := Iso(Pair(IdCodec(), Pair(Enum(KindTag, KindOf), GroupTagsCodec())), MakeGroup, TakeGroup);
    GroupFieldsAre(g);
    hide Iso, Pair, Enum, GroupTagsCodec, Str, Four, Candidates, Strs, KindByte, SelectionByte, InheritanceByte, Framed;
    Flattened(Str(g.id), KindByte(g.kind), SelectionByte(g.selection), InheritanceByte(g.inheritance),
              Four(|g.candidates|), Candidates(g.candidates), Four(|g.variables|), Strs(g.variables));
    FramedIs(3, c, g, c.put(g));
  }

  lemma {:induction false} GroupsAre(gs: seq<Group>)
    ensures PutAll(GroupCodec(), gs) == Groups(gs)
  {
    if gs != [] {
      GroupIs(gs[0]);
      hide GroupCodec, GroupBytes;
      GroupsAre(gs[1..]);
    }
  }

  lemma HookIs(h: Hook)
    ensures HookCodec().put(h) == Framed(5, [HookByte(h)])
  {
    EnumPut(HookTag, HookOf, h);
    assert HookTag(h) == HookByte(h);
    hide Framed, Enum;
    FramedIs(5, Enum(HookTag, HookOf), h, [HookByte(h)]);
  }

  lemma {:induction false} HooksAre(hs: seq<Hook>)
    ensures PutAll(HookCodec(), hs) == Hooks(hs)
  {
    if hs != [] {
      HookIs(hs[0]);
      hide Framed, HookByte, HookCodec;
      HooksAre(hs[1..]);
    }
  }

  lemma RuleListsAre(r: Rule)
    ensures RuleListsCodec().put((r.paths, r.hooks))
      == Four(|r.paths|) + Groups(r.paths) + (Four(|r.hooks|) + Hooks(r.hooks))
  {
    GroupsAre(r.paths);
    HooksAre(r.hooks);
    FourIs(|r.paths|);
    FourIs(|r.hooks|);
    hide GroupCodec, HookCodec, PutAll, Groups, Hooks;
  }

  lemma BindingIs(binding: Option<Pin>)
    ensures Maybe(PinCodec(2)).put(binding) == if binding.Some? then [1] + PinBytes(2, binding.value) else [0]
  {
    if binding.Some? { PinIs(2, binding.value); }
    hide PinCodec, PinBytes;
  }

  lemma RuleFieldsAre(r: Rule)
    ensures Iso(Pair(IdCodec(), Pair(Maybe(PinCodec(2)), RuleListsCodec())), MakeRule, TakeRule).put(r)
      == Str(r.id) + ((if r.binding.Some? then [1] + PinBytes(2, r.binding.value) else [0])
         + (Four(|r.paths|) + Groups(r.paths) + (Four(|r.hooks|) + Hooks(r.hooks))))
  {
    RuntimeStreams.RulePut(r);
    RuleListsAre(r);
    FourIs(|r.id|);
    BindingIs(r.binding);
    hide PinCodec, RuleListsCodec, Groups, Hooks, PinBytes, Four, U32, Maybe, Iso, Pair;
  }

  lemma RuleIs(r: Rule)
    ensures RuleCodec().put(r) == RuleBytes(r)
  {
    var c := Iso(Pair(IdCodec(), Pair(Maybe(PinCodec(2)), RuleListsCodec())), MakeRule, TakeRule);
    RuleFieldsAre(r);
    hide Iso, Pair, Maybe, RuleListsCodec, Str, Four, Groups, Hooks, PinBytes, Framed;
    var id, b := Str(r.id), if r.binding.Some? then [1] + PinBytes(2, r.binding.value) else [0];
    FlatLists(id, b, Four(|r.paths|), Groups(r.paths), Four(|r.hooks|), Hooks(r.hooks));
    FramedIs(1, c, r, c.put(r));
  }

  lemma FlatLists(id: seq<byte>, b: seq<byte>, n: seq<byte>, gs: seq<byte>, m: seq<byte>, hs: seq<byte>)
    ensures id + (b + (n + gs + (m + hs))) == id + b + n + gs + m + hs
  {
  }

  lemma {:induction false} RulesAre(rs: seq<Rule>)
    ensures PutAll(RuleCodec(), rs) == RulesBytes(rs)
  {
    if rs != [] {
      RuleIs(rs[0]);
      hide RuleCodec, RuleBytes;
      RulesAre(rs[1..]);
    }
  }

  lemma RulesBodyIs(rs: seq<Rule>)
    ensures RulesCodec().put(rs) == Four(|rs|) + RulesBytes(rs)
  {
    RulesAre(rs);
    FourIs(|rs|);
    hide RuleCodec, RulesBytes, Four, PutAll;
  }

  lemma SortLength<T>(less: (T, T) -> bool, vs: seq<T>)
    ensures |Sort(less, vs)| == |vs|
  {
    SortKeeps(less, vs);
    assert |multiset(Sort(less, vs))| == |multiset(vs)|;
  }

  /** An ORUL file, byte for byte: the rules in canonical order, and every record in the count. */
  lemma RulesFileIs(rules: seq<Rule>)
    ensures EncodeRules(rules).Some? ==>
      var body := Four(|rules|) + RulesBytes(Sort(RuleBefore, rules));
      EncodeRules(rules) == Some(File([0x4F, 0x52, 0x55, 0x4C], body, Records(rules)))
  {
    RulesBodyIs(Sort(RuleBefore, rules));
    SortLength(RuleBefore, rules);
    OrulIs();
    hide RulesCodec, RulesBytes, Sort, Records, ValidRules, Four, File, Ascii;
    FileIs(Ascii("ORUL"), Four(|rules|) + RulesBytes(Sort(RuleBefore, rules)), Records(rules));
  }

  lemma OrulIs()
    ensures Ascii("ORUL") == [0x4F, 0x52, 0x55, 0x4C] && Ascii("OSET") == [0x4F, 0x53, 0x45, 0x54]
  {
  }

  /** And every accepted file is one. */
  lemma AcceptedRulesAre(b: seq<byte>)
    requires DecodeRules(b).Some?
    ensures var rules := DecodeRules(b).value;
      b == File([0x4F, 0x52, 0x55, 0x4C], Four(|rules|) + RulesBytes(rules), Records(rules))
  {
    var rules := DecodeRules(b).value;
    EncodeOfDecodeRules(b);
    hide EncodeRules, DecodeRules, RulesBytes, Sort, Records, Four, File;
    RulesFileIs(rules);
    RuleStrict();
    SortedStays(RuleBefore, rules);
  }

  // ---- entrypoint sets ------------------------------------------------------------------------

  lemma {:induction false} PinsAre(ps: seq<Pin>)
    ensures PutAll(PinCodec(1), ps) == Pins(ps)
  {
    if ps != [] {
      PinIs(1, ps[0]);
      hide PinCodec, PinBytes;
      PinsAre(ps[1..]);
    }
  }

  lemma EntryIs(e: Entry)
    ensures EntryCodec().put(e) == EntryBytes(e)
  {
    var fields := Pair(EntryNameCodec(), List(5, IdCodec()));
    IsoPut(fields, MakeEntry, TakeEntry, e);
    PairPut(EntryNameCodec(), List(5, IdCodec()), e.name, e.sets);
    StrsAre(MAX_ID_BYTES, RuleId, e.sets);
    FourIs(|e.name|);
    FourIs(|e.sets|);
    hide Pair, Iso, Framed, Strs, Record;
    assert fields.put((e.name, e.sets)) == Str(e.name) + (Four(|e.sets|) + Strs(e.sets));
    hide PutAll, Four;
    FramedIs(2, Iso(fields, MakeEntry, TakeEntry), e, Str(e.name) + Four(|e.sets|) + Strs(e.sets));
  }

  lemma {:induction false} EntriesAre(es: seq<Entry>)
    ensures PutAll(EntryCodec(), es) == Entries(es)
  {
    if es != [] {
      EntryIs(es[0]);
      hide EntryCodec, EntryBytes;
      EntriesAre(es[1..]);
    }
  }

  function SetsBody(v: Sets): seq<byte> {
    Four(|v.pins|) + Pins(v.pins) + (Four(|v.entrypoints|) + Entries(v.entrypoints))
  }

  lemma SetsBodyIs(v: Sets)
    ensures SetsCodec().put(v) == SetsBody(v)
  {
    var fields := Pair(List(42, PinCodec(1)), List(14, EntryCodec()));
    IsoPut(fields, MakeSets, TakeSets, v);
    PairPut(List(42, PinCodec(1)), List(14, EntryCodec()), v.pins, v.entrypoints);
    PinsAre(v.pins);
    EntriesAre(v.entrypoints);
    FourIs(|v.pins|);
    FourIs(|v.entrypoints|);
    hide Pair, Iso, PinCodec, EntryCodec, Pins, Entries, Four, PutAll;
  }

  /** An OSET file, byte for byte: pins, entries and references in order of name. */
  lemma SetsFileIs(v: Sets)
    ensures EncodeSets(v).Some? ==>
      EncodeSets(v) == Some(File([0x4F, 0x53, 0x45, 0x54], SetsBody(Canonical(v)), SetRecords(v)))
  {
    SetsBodyIs(Canonical(v));
    OrulIs();
    hide SetsCodec, SetsBody, Canonical, SetRecords, ValidSets, File, Ascii;
    FileIs(Ascii("OSET"), SetsBody(Canonical(v)), SetRecords(v));
  }

  lemma AcceptedSetsAre(b: seq<byte>)
    requires DecodeSets(b).Some?
    ensures var v := DecodeSets(b).value; b == File([0x4F, 0x53, 0x45, 0x54], SetsBody(v), SetRecords(v))
  {
    EncodeOfDecodeSets(b);
    hide EncodeSets, DecodeSets, SetsBody, SetRecords, File, Canonical;
    SetsFileIs(DecodeSets(b).value);
  }

  // ---- the provider index -----------------------------------------------------------------------

  function ExportBytes(names: seq<seq<byte>>): seq<byte> {
    if names == [] then [] else Framed(2, Str(names[0])) + ExportBytes(names[1..])
  }

  function IndexBody(v: Index): seq<byte> { Framed(1, Str(v.set_)) + ExportBytes(v.exports) }

  lemma NameIs(number: byte, name: seq<byte>)
    ensures Record(number, NameCodec()).put(name) == Framed(number, Str(name))
  {
    FourIs(|name|);
    hide Framed;
    FramedIs(number, NameCodec(), name, Str(name));
  }

  lemma {:induction false} ExportsAre(names: seq<seq<byte>>)
    ensures PutAll(ExportCodec(), names) == ExportBytes(names)
  {
    if names != [] {
      NameIs(2, names[0]);
      hide Framed, Str, Record;
      ExportsAre(names[1..]);
    }
  }

  /** An OPRV file, byte for byte: the set's own name, and the exports in order. */
  lemma IndexFileIs(v: Index)
    ensures EncodeIndex(v).Some? ==>
      EncodeIndex(v) == Some(File([0x4F, 0x50, 0x52, 0x56], IndexBody(v), |v.exports| + 1))
  {
    NameIs(1, v.set_);
    ExportsAre(v.exports);
    OprvIs();
    hide Framed, Str, ExportBytes, PutAll, ExportCodec, NameCodec, ValidIndex, File, Ascii;
    FileIs(Ascii("OPRV"), IndexBody(v), |v.exports| + 1);
  }

  lemma OprvIs()
    ensures Ascii("OPRV") == [0x4F, 0x50, 0x52, 0x56]
  {
  }

  lemma AcceptedIndexIs(b: seq<byte>)
    requires DecodeIndex(b).Some?
    ensures var v := DecodeIndex(b).value; b == File([0x4F, 0x50, 0x52, 0x56], IndexBody(v), |v.exports| + 1)
  {
    EncodeOfDecodeIndex(b);
    hide EncodeIndex, DecodeIndex, IndexBody, File;
    IndexFileIs(DecodeIndex(b).value);
  }
}
