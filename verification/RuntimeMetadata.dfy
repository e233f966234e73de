/** The runtime-rule (`ORUL`) and entrypoint-set (`OSET`) transports of
    `crates/onelf-format/src/runtime_metadata.rs`: encoding and decoding are
    inverse on canonical values, and the header's record count is the budget
    that decoding sums. Error messages are not modelled.
 */
module RuntimeMetadata {
  import opened Bytes
  import opened Codec
  import opened Ordering
  import opened Rules
  import opened Transport

  datatype Pin = Pin(name: seq<byte>, hash: seq<byte>)
  datatype Kind = File | Directory
  datatype Selection = First | All | FirstPerLibraryRoot
  datatype Inheritance = Preserve | Replace
  datatype Base = PackageRoot | LibraryRoot
  datatype Hook = AlsaNaturalSort | GdkCacheAbsolutise | FontconfigGenerate | GioModulePaths | TclTkLibraries
  datatype Candidate = Candidate(base: Base, path: seq<byte>)
  datatype Group = Group(
    id: seq<byte>,
    kind: Kind,
    candidates: seq<Candidate>,
    variables: seq<seq<byte>>,
    selection: Selection,
    inheritance: Inheritance)
  datatype Rule = Rule(id: seq<byte>, binding: Option<Pin>, paths: seq<Group>, hooks: seq<Hook>)
  datatype Entry = Entry(name: seq<byte>, sets: seq<seq<byte>>)
  datatype Sets = Sets(pins: seq<Pin>, entrypoints: seq<Entry>)

  // ---- tags -------------------------------------------------------------------------

  function KindTag(k: Kind): byte { match k case File => 1 case Directory => 2 }

  function KindOf(b: byte): Option<Kind> { if b == 1 then Some(File) else if b == 2 then Some(Directory) else None }

  function SelectionTag(s: Selection): byte { match s case First => 1 case All => 2 case FirstPerLibraryRoot => 3 }

  function SelectionOf(b: byte): Option<Selection> {
    if b == 1 then Some(First) else if b == 2 then Some(All) else if b == 3 then Some(FirstPerLibraryRoot) else None
  }

  function InheritanceTag(i: Inheritance): byte { match i case Preserve => 1 case Replace => 2 }

  function InheritanceOf(b: byte): Option<Inheritance> {
    if b == 1 then Some(Preserve) else if b == 2 then Some(Replace) else None
  }

  function BaseTag(b: Base): byte { match b case PackageRoot => 1 case LibraryRoot => 2 }

  function BaseOf(b: byte): Option<Base> {
    if b == 1 then Some(PackageRoot) else if b == 2 then Some(LibraryRoot) else None
  }

  function HookTag(h: Hook): byte {
    match h
    case AlsaNaturalSort => 1
    case GdkCacheAbsolutise => 2
    case FontconfigGenerate => 3
    case GioModulePaths => 4
    case TclTkLibraries => 5
  }

  function HookOf(b: byte): Option<Hook> {
    if b == 1 then Some(AlsaNaturalSort)
    else if b == 2 then Some(GdkCacheAbsolutise)
    else if b == 3 then Some(FontconfigGenerate)
    else if b == 4 then Some(GioModulePaths)
    else if b == 5 then Some(TclTkLibraries)
    else None
  }

  // ---- the grammar --------------------------------------------------------------------

  predicate NormalPath(s: seq<byte>) { Utf8(s) && RelativePath(s) == Some(s) }

  predicate EntryName(s: seq<byte>) { Utf8(s) && 0 !in s }

  function IdCodec(): Codec<seq<byte>> { Text(MAX_ID_BYTES, RuleId) }

  function VariableCodec(): Codec<seq<byte>> { Text(MAX_ID_BYTES, EnvironmentName) }

  function EntryNameCodec(): Codec<seq<byte>> { Text(MAX_ID_BYTES, EntryName) }

  function PathTextCodec(): Codec<seq<byte>> { Text(MAX_PATH_BYTES, NormalPath) }

  function MakePin(t: (seq<byte>, seq<byte>)): Pin { Pin(t.0, t.1) }

  function TakePin(p: Pin): (seq<byte>, seq<byte>) { (p.name, p.hash) }

  function PinCodec(tag: byte): Codec<Pin> { Record(tag, Iso(Pair(IdCodec(), Fixed(32)), MakePin, TakePin)) }

  function MakeCandidate(t: (Base, seq<byte>)): Candidate { Candidate(t.0, t.1) }

  function TakeCandidate(c: Candidate): (Base, seq<byte>) { (c.base, c.path) }

  function CandidateCodec(): Codec<Candidate> {
    Record(4, Iso(Pair(Enum(BaseTag, BaseOf), PathTextCodec()), MakeCandidate, TakeCandidate))
  }

  type GroupFields = (seq<byte>, (Kind, (Selection, (Inheritance, (seq<Candidate>, seq<seq<byte>>)))))

  function MakeGroup(t: GroupFields): Group { Group(t.0, t.1.0, t.1.1.1.1.0, t.1.1.1.1.1, t.1.1.0, t.1.1.1.0) }

  function TakeGroup(g: Group): GroupFields {
    (g.id, (g.kind, (g.selection, (g.inheritance, (g.candidates, g.variables)))))
  }

  function GroupListsCodec(): Codec<(seq<Candidate>, seq<seq<byte>>)> {
    Pair(List(11, CandidateCodec()), List(5, VariableCodec()))
  }

  function GroupTagsCodec(): Codec<(Selection, (Inheritance, (seq<Candidate>, seq<seq<byte>>)))> {
    Pair(Enum(SelectionTag, SelectionOf), Pair(Enum(InheritanceTag, InheritanceOf), GroupListsCodec()))
  }

  function GroupCodec(): Codec<Group> {
    Record(3, Iso(Pair(IdCodec(), Pair(Enum(KindTag, KindOf), GroupTagsCodec())), MakeGroup, TakeGroup))
  }

  function HookCodec(): Codec<Hook> { Record(5, Enum(HookTag, HookOf)) }

  type RuleFields = (seq<byte>, (Option<Pin>, (seq<Group>, seq<Hook>)))

  function MakeRule(t: RuleFields): Rule { Rule(t.0, t.1.0, t.1.1.0, t.1.1.1) }

  function TakeRule(r: Rule): RuleFields { (r.id, (r.binding, (r.paths, r.hooks))) }

  function RuleListsCodec(): Codec<(seq<Group>, seq<Hook>)> { Pair(List(5, GroupCodec()), List(6, HookCodec())) }

  function RuleCodec(): Codec<Rule> {
    Record(1, Iso(Pair(IdCodec(), Pair(Maybe(PinCodec(2)), RuleListsCodec())), MakeRule, TakeRule))
  }

  function RulesCodec(): Codec<seq<Rule>> { List(5, RuleCodec()) }

  function MakeEntry(t: (seq<byte>, seq<seq<byte>>)): Entry { Entry(t.0, t.1) }

  function TakeEntry(e: Entry): (seq<byte>, seq<seq<byte>>) { (e.name, e.sets) }

  function EntryCodec(): Codec<Entry> {
    Record(2, Iso(Pair(EntryNameCodec(), List(5, IdCodec())), MakeEntry, TakeEntry))
  }

  function MakeSets(t: (seq<Pin>, seq<Entry>)): Sets { Sets(t.0, t.1) }

  function TakeSets(s: Sets): (seq<Pin>, seq<Entry>) { (s.pins, s.entrypoints) }

  function SetsCodec(): Codec<Sets> {
    Iso(Pair(List(42, PinCodec(1)), List(14, EntryCodec())), MakeSets, TakeSets)
  }

  // ---- every level is lawful -----------------------------------------------------------

  lemma PinLawful(tag: byte)
    ensures Lawful(PinCodec(tag)) && AtLeast(PinCodec(tag), 42)
  {
    TextLawful(MAX_ID_BYTES, RuleId);
    FixedLawful(32);
    PairLawful(IdCodec(), Fixed(32), 5, 32);
    IsoLawful(Pair(IdCodec(), Fixed(32)), MakePin, TakePin, 37);
    RecordLawful(tag, Iso(Pair(IdCodec(), Fixed(32)), MakePin, TakePin), 37);
  }

  lemma CandidateLawful()
    ensures Lawful(CandidateCodec()) && AtLeast(CandidateCodec(), 11)
  {
    EnumLawful(BaseTag, BaseOf);
    TextLawful(MAX_PATH_BYTES, NormalPath);
    var fields := Pair(Enum(BaseTag, BaseOf), PathTextCodec());
    PairLawful(Enum(BaseTag, BaseOf), PathTextCodec(), 1, 5);
    IsoLawful(fields, MakeCandidate, TakeCandidate, 6);
    RecordLawful(4, Iso(fields, MakeCandidate, TakeCandidate), 6);
  }

  lemma GroupListsLawful()
    ensures Lawful(GroupListsCodec()) && AtLeast(GroupListsCodec(), 8)
  {
    CandidateLawful();
    ListLawful(11, CandidateCodec());
    TextLawful(MAX_ID_BYTES, EnvironmentName);
    ListLawful(5, VariableCodec());
    PairLawful(List(11, CandidateCodec()), List(5, VariableCodec()), 4, 4);
  }

  lemma GroupTagsLawful()
    ensures Lawful(GroupTagsCodec()) && AtLeast(GroupTagsCodec(), 10)
  {
    GroupListsLawful();
    EnumLawful(InheritanceTag, InheritanceOf);
    EnumLawful(SelectionTag, SelectionOf);
    PairLawful(Enum(InheritanceTag, InheritanceOf), GroupListsCodec(), 1, 8);
    PairLawful(Enum(SelectionTag, SelectionOf), Pair(Enum(InheritanceTag, InheritanceOf), GroupListsCodec()), 1, 9);
  }

  lemma GroupLawful()
    ensures Lawful(GroupCodec()) && AtLeast(GroupCodec(), 21)
  {
    GroupTagsLawful();
    EnumLawful(KindTag, KindOf);
    TextLawful(MAX_ID_BYTES, RuleId);
    var tags := Pair(Enum(KindTag, KindOf), GroupTagsCodec());
    PairLawful(Enum(KindTag, KindOf), GroupTagsCodec(), 1, 10);
    PairLawful(IdCodec(), tags, 5, 11);
    IsoLawful(Pair(IdCodec(), tags), MakeGroup, TakeGroup, 16);
    RecordLawful(3, Iso(Pair(IdCodec(), tags), MakeGroup, TakeGroup), 16);
  }

  lemma HookLawful()
    ensures Lawful(HookCodec()) && AtLeast(HookCodec(), 4)
  {
    EnumLawful(HookTag, HookOf);
    RecordLawful(5, Enum(HookTag, HookOf), 1);
  }

  lemma HooksLawful()
    ensures Lawful(List(6, HookCodec())) && AtLeast(List(6, HookCodec()), 4)
  {
    HookLawful();
    ListLawful(6, HookCodec());
  }

  lemma GroupsLawful()
    ensures Lawful(List(5, GroupCodec())) && AtLeast(List(5, GroupCodec()), 4)
  {
    GroupLawful();
    ListLawful(5, GroupCodec());
  }

  lemma RuleListsLawful()
    ensures Lawful(RuleListsCodec()) && AtLeast(RuleListsCodec(), 8)
  {
    GroupsLawful();
    HooksLawful();
    PairLawful(List(5, GroupCodec()), List(6, HookCodec()), 4, 4);
  }

  lemma RuleLawful()
    ensures Lawful(RuleCodec()) && AtLeast(RuleCodec(), 19)
  {
    RuleListsLawful();
    PinLawful(2);
    MaybeLawful(PinCodec(2));
    TextLawful(MAX_ID_BYTES, RuleId);
    var fields := Pair(Maybe(PinCodec(2)), RuleListsCodec());
    PairLawful(Maybe(PinCodec(2)), RuleListsCodec(), 1, 8);
    PairLawful(IdCodec(), fields, 5, 9);
    IsoLawful(Pair(IdCodec(), fields), MakeRule, TakeRule, 14);
    RecordLawful(1, Iso(Pair(IdCodec(), fields), MakeRule, TakeRule), 14);
  }

  lemma RulesLawful()
    ensures Lawful(RulesCodec())
  {
    RuleLawful();
    ListLawful(5, RuleCodec());
  }

  lemma EntryLawful()
    ensures Lawful(EntryCodec()) && AtLeast(EntryCodec(), 14)
  {
    TextLawful(MAX_ID_BYTES, EntryName);
    TextLawful(MAX_ID_BYTES, RuleId);
    ListLawful(5, IdCodec());
    PairLawful(EntryNameCodec(), List(5, IdCodec()), 5, 4);
    IsoLawful(Pair(EntryNameCodec(), List(5, IdCodec())), MakeEntry, TakeEntry, 9);
    RecordLawful(2, Iso(Pair(EntryNameCodec(), List(5, IdCodec())), MakeEntry, TakeEntry), 9);
  }

  lemma SetsLawful()
    ensures Lawful(SetsCodec())
  {
    PinLawful(1);
    EntryLawful();
    ListLawful(42, PinCodec(1));
    ListLawful(14, EntryCodec());
    PairLawful(List(42, PinCodec(1)), List(14, EntryCodec()), 4, 4);
    IsoLawful(Pair(List(42, PinCodec(1)), List(14, EntryCodec())), MakeSets, TakeSets, 8);
  }

  // ---- validation ------------------------------------------------------------------------

  /** Assigned by a runtime hook or by the launch's own procedures. */
  predicate RuntimeOwned(name: seq<byte>) {
    name in [
      Ascii("ALSA_CONFIG_PATH"), Ascii("GDK_PIXBUF_MODULE_FILE"), Ascii("GTK_IM_MODULE_FILE"), Ascii("FONTCONFIG_FILE"),
      Ascii("GIO_MODULE_DIR"), Ascii("GIO_EXTRA_MODULES"), Ascii("TCL_LIBRARY"), Ascii("TK_LIBRARY"),
      Ascii("GCONV_PATH"), Ascii("LIBDECOR_PLUGIN_DIR"), Ascii("LIBGL_DRIVERS_PATH"),
      Ascii("LIBVA_DRIVERS_PATH"), Ascii("GBM_BACKENDS_PATH"), Ascii("__EGL_VENDOR_LIBRARY_DIRS"),
      Ascii("VK_DRIVER_FILES"), Ascii("VK_ADD_DRIVER_FILES"), Ascii("DRIRC_CONFIGDIR"),
      Ascii("LIBDRM_IDS_PATH"), Ascii("TERMINFO_DIRS"), Ascii("SSL_CERT_FILE"), Ascii("CURL_CA_BUNDLE"),
      Ascii("LOCPATH")]
  }

  predicate Unique<T(==)>(s: seq<T>) { forall i, j :: 0 <= i < j < |s| ==> s[i] != s[j] }

  predicate ValidGroup(g: Group) {
    && g.candidates != [] && g.variables != []
    && Unique(g.variables)
    && (forall v :: v in g.variables ==> !RuntimeOwned(v))
    && (g.selection.FirstPerLibraryRoot? ==> forall c :: c in g.candidates ==> c.base.LibraryRoot?)
  }

  predicate ValidRule(r: Rule) {
    && (r.binding.Some? ==> SetName(r.binding.value.name))
    && (forall i, j :: 0 <= i < j < |r.paths| ==> r.paths[i].id != r.paths[j].id)
    && (forall g :: g in r.paths ==> ValidGroup(g))
    && Unique(r.hooks)
  }

  function GroupRecords(paths: seq<Group>): nat {
    if paths == [] then 0 else |paths[0].candidates| + |paths[0].variables| + GroupRecords(paths[1..])
  }

  function RuleRecords(r: Rule): nat {
    (if r.binding.Some? then 1 else 0) + |r.paths| + |r.hooks| + GroupRecords(r.paths)
  }

  function AllRuleRecords(rules: seq<Rule>): nat {
    if rules == [] then 0 else RuleRecords(rules[0]) + AllRuleRecords(rules[1..])
  }

  /** Rules, bindings, paths, candidates, aliases and hooks. */
  function Records(rules: seq<Rule>): nat { |rules| + AllRuleRecords(rules) }

  predicate DistinctIdentities(rules: seq<Rule>) {
    forall i, j :: 0 <= i < j < |rules| ==> rules[i].id != rules[j].id || rules[i].binding != rules[j].binding
  }

  predicate ValidRules(rules: seq<Rule>) {
    && Records(rules) <= MAX_RECORDS
    && DistinctIdentities(rules)
    && forall r :: r in rules ==> ValidRule(r)
  }

  // ---- the order of scoped identities --------------------------------------------------------

  predicate PinBefore(a: Pin, b: Pin) { Before(a.name, b.name) || (a.name == b.name && Before(a.hash, b.hash)) }

  predicate BindingBefore(a: Option<Pin>, b: Option<Pin>) { b.Some? && (a.None? || PinBefore(a.value, b.value)) }

  predicate RuleBefore(a: Rule, b: Rule) { Before(a.id, b.id) || (a.id == b.id && BindingBefore(a.binding, b.binding)) }

  lemma BytesStrict()
    ensures Strict(Before)
  {
    forall x: seq<byte> ensures !Before(x, x) { BeforeIsTotal(x, x); }
    forall x: seq<byte>, y: seq<byte>, z: seq<byte> | Before(x, y) && Before(y, z) ensures Before(x, z) {
      BeforeIsTransitive(x, y, z);
    }
  }

  lemma PinStrict()
    ensures Strict(PinBefore)
  {
    BytesStrict();
  }

  lemma BindingStrict()
    ensures Strict(BindingBefore)
  {
    PinStrict();
    forall x: Option<Pin> ensures !BindingBefore(x, x) {
      if x.Some? { assert !PinBefore(x.value, x.value); }
    }
    forall x: Option<Pin>, y: Option<Pin>, z: Option<Pin> | BindingBefore(x, y) && BindingBefore(y, z)
      ensures BindingBefore(x, z)
    {
      if x.Some? { assert PinBefore(x.value, y.value) && PinBefore(y.value, z.value); }
    }
  }

  lemma RuleStrict()
    ensures Strict(RuleBefore)
  {
    BytesStrict();
    BindingStrict();
  }

  lemma RuleOrderIsTotal(a: Rule, b: Rule)
    ensures RuleBefore(a, b) || RuleBefore(b, a) <==> a.id != b.id || a.binding != b.binding
  {
    BeforeIsTotal(a.id, b.id);
    if a.binding.Some? && b.binding.Some? {
      BeforeIsTotal(a.binding.value.name, b.binding.value.name);
      BeforeIsTotal(a.binding.value.hash, b.binding.value.hash);
    }
  }

  lemma RulesAreDistinct(rules: seq<Rule>)
    ensures DistinctIdentities(rules) ==> Distinct(RuleBefore, rules)
    ensures Ascending(RuleBefore, rules) ==> DistinctIdentities(rules)
  {
    forall i, j | 0 <= i < j < |rules|
      ensures RuleBefore(rules[i], rules[j]) || RuleBefore(rules[j], rules[i])
        <==> rules[i].id != rules[j].id || rules[i].binding != rules[j].binding
    {
      RuleOrderIsTotal(rules[i], rules[j]);
    }
  }

  // ---- ORUL ------------------------------------------------------------------------------

  /** What the types of the original guarantee of a value before any validation. */
  predicate TypedRules(rules: seq<Rule>) { ValidAll(RuleCodec(), rules) }

  function EncodeRules(rules: seq<Rule>): Option<seq<byte>> {
    if !ValidRules(rules) then None
    else Wrap(Ascii("ORUL"), RulesCodec().put(Sort(RuleBefore, rules)), Records(rules))
  }

  function DecodeRules(b: seq<byte>): Option<seq<Rule>> {
    match Decoded(Ascii("ORUL"), RulesCodec(), b)
    case None => None
    case Some(rules) => if ValidRules(rules) && Neighbours(RuleBefore, rules) then Some(rules) else None
  }

  lemma GroupListsCount(g: Group)
    ensures GroupListsCodec().count((g.candidates, g.variables)) == |g.candidates| + |g.variables|
  {
    PairCount(List(11, CandidateCodec()), List(5, VariableCodec()), g.candidates, g.variables);
    CountAllZero(CandidateCodec(), g.candidates);
    CountAllZero(VariableCodec(), g.variables);
  }

  lemma OneGroupCount(g: Group)
    ensures GroupCodec().count(g) == |g.candidates| + |g.variables|
  {
    var t := TakeGroup(g);
    var tags := Pair(Enum(KindTag, KindOf), GroupTagsCodec());
    RecordCount(3, Pair(IdCodec(), tags), MakeGroup, TakeGroup, g);
    PairCount(IdCodec(), tags, t.0, t.1);
    PairCount(Enum(KindTag, KindOf), GroupTagsCodec(), t.1.0, t.1.1);
    PairCount(Enum(SelectionTag, SelectionOf), Pair(Enum(InheritanceTag, InheritanceOf), GroupListsCodec()), t.1.1.0,
      t.1.1.1);
    PairCount(Enum(InheritanceTag, InheritanceOf), GroupListsCodec(), t.1.1.1.0, t.1.1.1.1);
    GroupListsCount(g);
  }

  lemma {:induction false} GroupCount(paths: seq<Group>)
    ensures CountAll(GroupCodec(), paths) == GroupRecords(paths)
  {
    if paths != [] {
      OneGroupCount(paths[0]);
      GroupCount(paths[1..]);
    }
  }

  lemma RuleListsCount(r: Rule)
    ensures RuleListsCodec().count((r.paths, r.hooks)) == |r.paths| + GroupRecords(r.paths) + |r.hooks|
  {
    PairCount(List(5, GroupCodec()), List(6, HookCodec()), r.paths, r.hooks);
    GroupCount(r.paths);
    CountAllZero(HookCodec(), r.hooks);
  }

  lemma RuleCount(r: Rule)
    ensures RuleCodec().count(r) == RuleRecords(r)
  {
    var fields := Pair(Maybe(PinCodec(2)), RuleListsCodec());
    RecordCount(1, Pair(IdCodec(), fields), MakeRule, TakeRule, r);
    PairCount(IdCodec(), fields, r.id, (r.binding, (r.paths, r.hooks)));
    PairCount(Maybe(PinCodec(2)), RuleListsCodec(), r.binding, (r.paths, r.hooks));
    RuleListsCount(r);
  }

  lemma {:induction false} RulesCount(rules: seq<Rule>)
    ensures CountAll(RuleCodec(), rules) == AllRuleRecords(rules)
  {
    if rules != [] {
      RuleCount(rules[0]);
      RulesCount(rules[1..]);
    }
  }

  /** The count the writer puts into the header is the one the reader's budget reaches. */
  lemma RecordsAreCounted(rules: seq<Rule>)
    ensures RulesCodec().count(Sort(RuleBefore, rules)) == Records(rules) == Records(Sort(RuleBefore, rules))
  {
    var sorted := Sort(RuleBefore, rules);
    SortKeeps(RuleBefore, rules);
    SameElements(sorted, rules);
    CountAllSort(RuleCodec(), RuleBefore, rules);
    RulesCount(rules);
    RulesCount(sorted);
  }

  lemma SortedRulesAreValid(rules: seq<Rule>)
    requires ValidRules(rules)
    ensures ValidRules(Sort(RuleBefore, rules)) && Ascending(RuleBefore, Sort(RuleBefore, rules))
  {
    var sorted := Sort(RuleBefore, rules);
    SortKeeps(RuleBefore, rules);
    SameElements(sorted, rules);
    RuleStrict();
    RulesAreDistinct(rules);
    SortAscends(RuleBefore, rules);
    RulesAreDistinct(sorted);
    RecordsAreCounted(rules);
  }

  lemma SortedRulesAreTyped(rules: seq<Rule>)
    requires TypedRules(rules)
    ensures TypedRules(Sort(RuleBefore, rules))
  {
    var sorted := Sort(RuleBefore, rules);
    SortKeeps(RuleBefore, rules);
    SameElements(sorted, rules);
    forall i | 0 <= i < |sorted| ensures RuleCodec().valid(sorted[i]) {
      assert sorted[i] in rules;
    }
  }

  /** An encoded table decodes to itself in canonical order. */
  lemma DecodeOfEncodeRules(rules: seq<Rule>)
    requires TypedRules(rules) && EncodeRules(rules).Some?
    ensures DecodeRules(EncodeRules(rules).value) == Some(Sort(RuleBefore, rules))
  {
    var sorted := Sort(RuleBefore, rules);
    RulesLawful();
    SortedRulesAreValid(rules);
    SortedRulesAreTyped(rules);
    RecordsAreCounted(rules);
    DecodedEncoded(Ascii("ORUL"), RulesCodec(), sorted);
    assert Neighbours(RuleBefore, sorted);
  }

  /** An accepted file is exactly what encoding its value writes. */
  lemma EncodeOfDecodeRules(b: seq<byte>)
    requires DecodeRules(b).Some?
    ensures var rules := DecodeRules(b).value;
      TypedRules(rules) && Ascending(RuleBefore, rules) && EncodeRules(rules) == Some(b)
  {
    var rules := DecodeRules(b).value;
    RulesLawful();
    EncodedDecoded(Ascii("ORUL"), RulesCodec(), b);
    RuleStrict();
    NeighboursAscend(RuleBefore, rules);
    SortedStays(RuleBefore, rules);
    RecordsAreCounted(rules);
  }

  /** Two tables encode to the same bytes exactly when they hold the same rules. */
  lemma EncodingIsCanonical(a: seq<Rule>, b: seq<Rule>)
    requires TypedRules(a) && TypedRules(b) && EncodeRules(a).Some? && EncodeRules(b).Some?
    ensures EncodeRules(a) == EncodeRules(b) <==> multiset(a) == multiset(b)
  {
    var x, y := Sort(RuleBefore, a), Sort(RuleBefore, b);
    DecodeOfEncodeRules(a);
    DecodeOfEncodeRules(b);
    SortKeeps(RuleBefore, a);
    SortKeeps(RuleBefore, b);
    if multiset(a) == multiset(b) {
      RuleStrict();
      SortedRulesAreValid(a);
      SortedRulesAreValid(b);
      OneAscendingOrder(RuleBefore, x, y);
      RecordsAreCounted(a);
      RecordsAreCounted(b);
    }
  }
}
