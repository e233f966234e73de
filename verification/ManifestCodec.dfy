/** The manifest format of `crates/onelf-format/src/manifest.rs` and
    `crates/onelf-format/src/entry.rs`, with the widths that older versions had. Nothing
    after the string table is read, and every accepted input starts with what writing its
    manifest at the current version gives, if that is its version.
 */
module ManifestCodec {
  import opened Bytes
  import opened Codec
  import Rules

  const MANIFEST_VERSION := 3

  datatype Kind = Dir | File | Symlink

  datatype WorkingDir = Inherit | PackageRoot | EntrypointParent

  datatype Block = Block(offset: nat, compressed: nat, original: nat, hash: seq<byte>)

  datatype EntryPoint = EntryPoint(name: nat, target: nat, args: nat, workingDir: WorkingDir, flags: byte)

  datatype Entry = Entry(
    kind: Kind,
    parent: nat,
    name: nat,
    mode: nat,
    mtimeSecs: nat,
    mtimeNsec: nat,
    hash: seq<byte>,
    blocks: seq<Block>,
    symlink: nat)

  datatype Header = Header(
    version: nat,
    entries: nat,
    strings: nat,
    entrypoints: nat,
    defaultEntrypoint: nat,
    libDirs: nat,
    name: nat,
    id: seq<byte>,
    prefixHash: seq<byte>,
    footerHash: seq<byte>)

  datatype Manifest = Manifest(
    header: Header,
    entrypoints: seq<EntryPoint>,
    entries: seq<Entry>,
    libDirs: seq<nat>,
    strings: seq<byte>)

  function Zeros(n: nat): (r: seq<byte>)
    ensures |r| == n
  {
    seq(n, i => 0)
  }

  // ---- blocks ------------------------------------------------------------------------------

  type Numbers3 = (nat, (nat, nat))

  function MakeBlock(t: (Numbers3, seq<byte>)): Block { Block(t.0.0, t.0.1.0, t.0.1.1, t.1) }

  function TakeBlock(b: Block): (Numbers3, seq<byte>) { ((b.offset, (b.compressed, b.original)), b.hash) }

  function SizesCodec(): Codec<Numbers3> { Pair(Number(8), Pair(Number(8), Number(8))) }

  /** Fixed bytes that older versions leave out and that read as zeros. */
  function Absent(width: nat): Codec<seq<byte>> {
    Codec(s => [], (b: seq<byte>, n: nat) => Got(Zeros(width), b, n), s => s == Zeros(width), s => 0)
  }

  lemma AbsentExact(width: nat)
    ensures Exact(Absent(width))
  {
    var c := Absent(width);
    forall s: seq<byte>, rest: seq<byte>, n: nat | c.valid(s) ensures c.get(c.put(s) + rest, n) == Got(s, rest, n) {
      assert [] + rest == rest;
    }
    forall b: seq<byte>, n: nat | n <= MAX_RECORDS && c.get(b, n).Got? ensures Undone(c, b, n, c.get(b, n)) {
      assert b == [] + b;
    }
  }

  /** A field that a manifest has from the version `since` on. */
  function Since(version: nat, since: nat, width: nat): Codec<seq<byte>> {
    if version >= since then Fixed(width) else Absent(width)
  }

  lemma SinceExact(version: nat, since: nat, width: nat)
    ensures Exact(Since(version, since, width))
  {
    FixedExact(width);
    AbsentExact(width);
  }

  /** Version 1 had no hash for each block. */
  function BlockCodec(version: nat): Codec<Block> {
    Iso(Pair(SizesCodec(), Since(version, 2, 32)), MakeBlock, TakeBlock)
  }

  lemma BlockExact(version: nat)
    ensures Exact(BlockCodec(version))
  {
    hide Number, Since;
    NumberExact(8);
    PairExact(Number(8), Number(8));
    PairExact(Number(8), Pair(Number(8), Number(8)));
    SinceExact(version, 2, 32);
    PairExact(SizesCodec(), Since(version, 2, 32));
    IsoExact(Pair(SizesCodec(), Since(version, 2, 32)), MakeBlock, TakeBlock);
  }

  // ---- entrypoints ---------------------------------------------------------------------------

  function DirTag(w: WorkingDir): byte { match w case Inherit => 0 case PackageRoot => 1 case EntrypointParent => 2 }

  function DirOf(b: byte): Option<WorkingDir> {
    if b == 0 then Some(Inherit) else if b == 1 then Some(PackageRoot) else if b == 2 then Some(EntrypointParent)
      else None
  }

  function KindTag(k: Kind): byte { match k case Dir => 0 case File => 1 case Symlink => 2 }

  function KindOf(b: byte): Option<Kind> {
    if b == 0 then Some(Dir) else if b == 1 then Some(File) else if b == 2 then Some(Symlink) else None
  }

  /** Unknown flag bits are kept. */
  function FlagsTag(b: byte): byte { b }

  function FlagsOf(b: byte): Option<byte> { Some(b) }

  function MakePoint(t: (Numbers3, (WorkingDir, byte))): EntryPoint {
    EntryPoint(t.0.0, t.0.1.0, t.0.1.1, t.1.0, t.1.1)
  }

  function TakePoint(p: EntryPoint): (Numbers3, (WorkingDir, byte)) {
    ((p.name, (p.target, p.args)), (p.workingDir, p.flags))
  }

  function WordsCodec(): Codec<Numbers3> { Pair(Number(4), Pair(Number(4), Number(4))) }

  function PointCodec(): Codec<EntryPoint> {
    Iso(Pair(WordsCodec(), Pair(Enum(DirTag, DirOf), Enum(FlagsTag, FlagsOf))), MakePoint, TakePoint)
  }

  lemma WordsExact()
    ensures Exact(WordsCodec())
  {
    NumberExact(4);
    PairExact(Number(4), Number(4));
    PairExact(Number(4), Pair(Number(4), Number(4)));
  }

  lemma PointExact()
    ensures Exact(PointCodec())
  {
    WordsExact();
    EnumExact(DirTag, DirOf);
    EnumExact(FlagsTag, FlagsOf);
    hide WordsCodec, Enum, Exact;
    PairExact(Enum(DirTag, DirOf), Enum(FlagsTag, FlagsOf));
    PairExact(WordsCodec(), Pair(Enum(DirTag, DirOf), Enum(FlagsTag, FlagsOf)));
    IsoExact(Pair(WordsCodec(), Pair(Enum(DirTag, DirOf), Enum(FlagsTag, FlagsOf))), MakePoint, TakePoint);
  }

  // ---- entries -------------------------------------------------------------------------------

  /** The fixed fields of an entry, the number of its blocks among them. */
  datatype Head = Head(
    kind: Kind,
    parent: nat,
    name: nat,
    mode: nat,
    mtimeSecs: nat,
    mtimeNsec: nat,
    hash: seq<byte>,
    count: nat,
    symlink: nat)

  type HeadFields = (Kind, (Numbers3, ((nat, nat), (seq<byte>, (nat, nat)))))

  function MakeHead(t: HeadFields): Head {
    Head(t.0, t.1.0.0, t.1.0.1.0, t.1.0.1.1, t.1.1.0.0, t.1.1.0.1, t.1.1.1.0, t.1.1.1.1.0, t.1.1.1.1.1)
  }

  function TakeHead(h: Head): HeadFields {
    (h.kind, ((h.parent, (h.name, h.mode)), ((h.mtimeSecs, h.mtimeNsec), (h.hash, (h.count, h.symlink)))))
  }

  function TimesCodec(): Codec<(nat, nat)> { Pair(Number(8), Number(4)) }

  function TailCodec(): Codec<(seq<byte>, (nat, nat))> { Pair(Fixed(32), Pair(Number(4), Number(4))) }

  function HeadCodec(): Codec<Head> {
    Iso(Pair(Enum(KindTag, KindOf), Pair(WordsCodec(), Pair(TimesCodec(), TailCodec()))), MakeHead, TakeHead)
  }

  lemma HeadExact()
    ensures Exact(HeadCodec())
  {
    NumberExact(4);
    NumberExact(8);
    FixedExact(32);
    WordsExact();
    EnumExact(KindTag, KindOf);
    hide WordsCodec, Enum, Exact, Number, Fixed;
    PairExact(Number(8), Number(4));
    PairExact(Number(4), Number(4));
    PairExact(Fixed(32), Pair(Number(4), Number(4)));
    PairExact(TimesCodec(), TailCodec());
    PairExact(WordsCodec(), Pair(TimesCodec(), TailCodec()));
    PairExact(Enum(KindTag, KindOf), Pair(WordsCodec(), Pair(TimesCodec(), TailCodec())));
    IsoExact(Pair(Enum(KindTag, KindOf), Pair(WordsCodec(), Pair(TimesCodec(), TailCodec()))), MakeHead, TakeHead);
  }

  /** A head and as many values as it says. */
  function Counted<H(!new), T(!new), E(!new)>(head: Codec<H>, item: Codec<T>, many: H -> nat,
                                              make: (H, seq<T>) -> E, headOf: E -> H, itemsOf: E -> seq<T>): Codec<E> {
    Codec(
      (e: E) => head.put(headOf(e)) + PutAll(item, itemsOf(e)),
      (b: seq<byte>, n: nat) =>
        (match head.get(b, n)
         case Bad => Bad
         case Got(h, rest, m) =>
           match GetAll(item, many(h), rest, m)
           case Bad => Bad
           case Got(vs, tail, k) => Got(make(h, vs), tail, k)),
      (e: E) => head.valid(headOf(e)) && ValidAll(item, itemsOf(e)) && many(headOf(e)) == |itemsOf(e)|,
      (e: E) => 0 as nat)
  }

  lemma CountedReads<H(!new), T(!new), E(!new)>(head: Codec<H>, item: Codec<T>, many: H -> nat,
                                               make: (H, seq<T>) -> E, headOf: E -> H, itemsOf: E -> seq<T>,
                                               e: E, rest: seq<byte>, n: nat)
    requires Exact(head) && Exact(item) && make(headOf(e), itemsOf(e)) == e
    requires Counted(head, item, many, make, headOf, itemsOf).valid(e)
    ensures var c := Counted(head, item, many, make, headOf, itemsOf); c.get(c.put(e) + rest, n) == Got(e, rest, n)
  {
    var h, vs := headOf(e), itemsOf(e);
    var tail := PutAll(item, vs) + rest;
    assert head.put(h) + PutAll(item, vs) + rest == head.put(h) + tail;
    assert head.get(head.put(h) + tail, n) == Got(h, tail, n);
    GetAllExact(item, vs, rest, n);
  }

  lemma CountedWrites<H(!new), T(!new), E(!new)>(head: Codec<H>, item: Codec<T>, many: H -> nat,
                                                make: (H, seq<T>) -> E, headOf: E -> H, itemsOf: E -> seq<T>,
                                                b: seq<byte>, n: nat)
    requires Exact(head) && Exact(item) && n <= MAX_RECORDS
    requires forall h: H, vs: seq<T> :: |vs| == many(h) ==> headOf(make(h, vs)) == h && itemsOf(make(h, vs)) == vs
    requires Counted(head, item, many, make, headOf, itemsOf).get(b, n).Got?
    ensures var c := Counted(head, item, many, make, headOf, itemsOf); Undone(c, b, n, c.get(b, n))
  {
    var g := head.get(b, n);
    assert Undone(head, b, n, g);
    var k := many(g.value);
    GetAllWrites(item, k, g.rest, g.budget);
    CountAllZero(item, GetAll(item, k, g.rest, g.budget).value);
    var vs := GetAll(item, k, g.rest, g.budget);
    assert head.put(g.value) + (PutAll(item, vs.value) + vs.rest)
      == head.put(g.value) + PutAll(item, vs.value) + vs.rest;
  }

  lemma CountedExact<H(!new), T(!new), E(!new)>(head: Codec<H>, item: Codec<T>, many: H -> nat,
                                               make: (H, seq<T>) -> E, headOf: E -> H, itemsOf: E -> seq<T>)
    requires Exact(head) && Exact(item)
    requires forall e: E :: make(headOf(e), itemsOf(e)) == e
    requires forall h: H, vs: seq<T> :: |vs| == many(h) ==> headOf(make(h, vs)) == h && itemsOf(make(h, vs)) == vs
    ensures Exact(Counted(head, item, many, make, headOf, itemsOf))
  {
    var c := Counted(head, item, many, make, headOf, itemsOf);
    assert ReadsAll(c) by {
      forall e: E, rest: seq<byte>, n: nat | c.valid(e) ensures c.get(c.put(e) + rest, n) == Got(e, rest, n) {
        CountedReads(head, item, many, make, headOf, itemsOf, e, rest, n);
      }
    }
    assert Writes(c) by {
      forall b: seq<byte>, n: nat | n <= MAX_RECORDS && c.get(b, n).Got? ensures Undone(c, b, n, c.get(b, n)) {
        CountedWrites(head, item, many, make, headOf, itemsOf, b, n);
      }
    }
    assert Uncounted(c);
  }

  function HeadOf(e: Entry): Head {
    Head(e.kind, e.parent, e.name, e.mode, e.mtimeSecs, e.mtimeNsec, e.hash, |e.blocks|, e.symlink)
  }

  function BlocksOf(e: Entry): seq<Block> { e.blocks }

  function CountOf(h: Head): nat { h.count }

  function MakeEntry(h: Head, blocks: seq<Block>): Entry {
    Entry(h.kind, h.parent, h.name, h.mode, h.mtimeSecs, h.mtimeNsec, h.hash, blocks, h.symlink)
  }

  function EntryCodec(version: nat): Codec<Entry> {
    Counted(HeadCodec(), BlockCodec(version), CountOf, MakeEntry, HeadOf, BlocksOf)
  }

  lemma EntryExact(version: nat)
    ensures Exact(EntryCodec(version))
  {
    HeadExact();
    BlockExact(version);
    hide HeadCodec, BlockCodec, Exact;
    CountedExact(HeadCodec(), BlockCodec(version), CountOf, MakeEntry, HeadOf, BlocksOf);
  }

  // ---- the header ------------------------------------------------------------------------------

  /** The first 50 bytes, which every version has. */
  datatype Front = Front(
    version: nat,
    entries: nat,
    strings: nat,
    entrypoints: nat,
    defaultEntrypoint: nat,
    libDirs: nat,
    name: nat,
    id: seq<byte>)

  type FrontFields = ((nat, (nat, nat)), ((nat, nat), ((nat, nat), seq<byte>)))

  function MakeFront(t: FrontFields): Front {
    Front(t.0.0, t.0.1.0, t.0.1.1, t.1.0.0, t.1.0.1, t.1.1.0.0, t.1.1.0.1, t.1.1.1)
  }

  function TakeFront(f: Front): FrontFields {
    ((f.version, (f.entries, f.strings)), ((f.entrypoints, f.defaultEntrypoint), ((f.libDirs, f.name), f.id)))
  }

  function CountsCodec(): Codec<(nat, (nat, nat))> { Pair(Number(2), Pair(Number(4), Number(4))) }

  function HalvesCodec(): Codec<(nat, nat)> { Pair(Number(2), Number(2)) }

  function FrontCodec(): Codec<Front> {
    Iso(Pair(CountsCodec(), Pair(HalvesCodec(), Pair(HalvesCodec(), Fixed(32)))), MakeFront, TakeFront)
  }

  lemma FrontExact()
    ensures Exact(FrontCodec())
  {
    NumberExact(2);
    NumberExact(4);
    FixedExact(32);
    hide Exact, Number, Fixed;
    PairExact(Number(4), Number(4));
    PairExact(Number(2), Pair(Number(4), Number(4)));
    PairExact(Number(2), Number(2));
    PairExact(HalvesCodec(), Fixed(32));
    PairExact(HalvesCodec(), Pair(HalvesCodec(), Fixed(32)));
    PairExact(CountsCodec(), Pair(HalvesCodec(), Pair(HalvesCodec(), Fixed(32))));
    IsoExact(Pair(CountsCodec(), Pair(HalvesCodec(), Pair(HalvesCodec(), Fixed(32)))), MakeFront, TakeFront);
  }

  /** The structure hashes came with version 3. */
  function HashesCodec(version: nat): Codec<(seq<byte>, seq<byte>)> {
    Pair(Since(version, 3, 32), Since(version, 3, 32))
  }

  lemma HashesExact(version: nat)
    ensures Exact(HashesCodec(version))
  {
    SinceExact(version, 3, 32);
    hide Exact, Since;
    PairExact(Since(version, 3, 32), Since(version, 3, 32));
  }

  function FrontOf(h: Header): Front {
    Front(h.version, h.entries, h.strings, h.entrypoints, h.defaultEntrypoint, h.libDirs, h.name, h.id)
  }

  function HashesOf(h: Header): (seq<byte>, seq<byte>) { (h.prefixHash, h.footerHash) }

  function MakeHeader(f: Front, hashes: (seq<byte>, seq<byte>)): Header {
    Header(f.version, f.entries, f.strings, f.entrypoints, f.defaultEntrypoint, f.libDirs, f.name, f.id, hashes.0,
      hashes.1)
  }

  function PutHeader(h: Header): seq<byte> { FrontCodec().put(FrontOf(h)) + HashesCodec(h.version).put(HashesOf(h)) }

  function GetHeader(b: seq<byte>): Got<Header> {
    match FrontCodec().get(b, 0)
    case Bad => Bad
    case Got(front, rest, _) =>
      match HashesCodec(front.version).get(rest, 0)
      case Bad => Bad
      case Got(hashes, tail, _) => Got(MakeHeader(front, hashes), tail, 0)
  }

  predicate ValidHeader(h: Header) { FrontCodec().valid(FrontOf(h)) && HashesCodec(h.version).valid(HashesOf(h)) }

  lemma HeaderReads(h: Header, rest: seq<byte>)
    requires ValidHeader(h)
    ensures GetHeader(PutHeader(h) + rest) == Got(h, rest, 0)
  {
    FrontExact();
    HashesExact(h.version);
    hide FrontCodec, HashesCodec;
    var tail := HashesCodec(h.version).put(HashesOf(h)) + rest;
    assert PutHeader(h) + rest == FrontCodec().put(FrontOf(h)) + tail;
    assert FrontCodec().get(FrontCodec().put(FrontOf(h)) + tail, 0) == Got(FrontOf(h), tail, 0);
    assert HashesCodec(h.version).get(tail, 0) == Got(HashesOf(h), rest, 0);
  }

  lemma HeaderWrites(b: seq<byte>)
    requires GetHeader(b).Got?
    ensures var g := GetHeader(b); ValidHeader(g.value) && b == PutHeader(g.value) + g.rest
  {
    FrontExact();
    hide FrontCodec, HashesCodec;
    var f := FrontCodec().get(b, 0);
    assert Undone(FrontCodec(), b, 0, f);
    HashesExact(f.value.version);
    var g := HashesCodec(f.value.version).get(f.rest, 0);
    assert Undone(HashesCodec(f.value.version), f.rest, 0, g);
    var h := GetHeader(b).value;
    assert FrontOf(h) == f.value && HashesOf(h) == g.value;
    assert FrontCodec().put(f.value) + (HashesCodec(f.value.version).put(g.value) + g.rest)
        == FrontCodec().put(f.value) + HashesCodec(f.value.version).put(g.value) + g.rest;
  }

  // ---- validation --------------------------------------------------------------------------------

  const TOP: nat := U32_LIMIT - 1

  function TerminatorAt(s: seq<byte>): (n: nat)
    ensures n <= |s| && (n < |s| ==> s[n] == 0) && forall i :: 0 <= i < n ==> s[i] != 0
  {
    if s == [] || s[0] == 0 then 0 else 1 + TerminatorAt(s[1..])
  }

  /** The string at an offset of the string table: empty outside it, and where it is not text. */
  function GetString(strings: seq<byte>, offset: nat): seq<byte> {
    if offset > |strings| then []
    else
      var tail := strings[offset..];
      var s := tail[..TerminatorAt(tail)];
      if Utf8(s) then s else []
  }

  /** Relative, and with nothing but plain components. Repeated slashes and inner dots count for nothing. */
  predicate SafeDir(dir: seq<byte>) {
    && dir != [] && dir[0] != Rules.SLASH && 0 !in dir
    && Rules.Split(dir)[0] != [0x2E]
    && [0x2E, 0x2E] !in Rules.Split(dir)
  }

  predicate ValidEntry(m: Manifest, i: nat)
    requires i < |m.entries|
  {
    var e := m.entries[i];
    && (e.parent != TOP ==> e.parent < i && m.entries[e.parent].kind.Dir?)
    && e.name <= |m.strings| && e.symlink <= |m.strings|
  }

  predicate Valid(m: Manifest) {
    && (forall i :: 0 <= i < |m.entries| ==> ValidEntry(m, i))
    && (forall p :: p in m.entrypoints ==> p.target < |m.entries| && p.name <= |m.strings| && p.args <= |m.strings|)
    && (m.entrypoints != [] ==> m.header.defaultEntrypoint < |m.entrypoints|)
    && (forall off :: off in m.libDirs ==> off <= |m.strings| && SafeDir(GetString(m.strings, off)))
    && m.header.name <= |m.strings|
  }

  // ---- the whole manifest ------------------------------------------------------------------------

  function PutBody(m: Manifest, version: nat): seq<byte> {
    PutAll(PointCodec(), m.entrypoints) + (PutAll(EntryCodec(version), m.entries) + PutTail(m))
  }

  /** `serialize`, which always writes the current version. */
  function Serialize(m: Manifest): seq<byte> {
    PutHeader(m.header.(version := MANIFEST_VERSION)) + PutBody(m, MANIFEST_VERSION)
  }

  /** The library directories and the string table. */
  function GetTail(h: Header, points: seq<EntryPoint>, entries: seq<Entry>, b: seq<byte>): Option<Manifest> {
    match GetAll(Number(4), h.libDirs, b, 0)
    case Bad => None
    case Got(dirs, rest, _) =>
      if h.strings > |rest| then None else Some(Manifest(h, points, entries, dirs, rest[..h.strings]))
  }

  function GetBody(h: Header, b: seq<byte>): Option<Manifest> {
    match GetAll(PointCodec(), h.entrypoints, b, 0)
    case Bad => None
    case Got(points, b1, _) =>
      match GetAll(EntryCodec(h.version), h.entries, b1, 0)
      case Bad => None
      case Got(entries, b2, _) => GetTail(h, points, entries, b2)
  }

  /** `deserialize`: what follows the string table is not looked at. */
  function Deserialize(b: seq<byte>): Option<Manifest> {
    match GetHeader(b)
    case Bad => None
    case Got(h, rest, _) =>
      if h.version == 0 || h.version > MANIFEST_VERSION then None
      else
        match GetBody(h, rest)
        case None => None
        case Some(m) => if Valid(m) then Some(m) else None
  }

  /** Every number fits its field, the lists are as long as the header says, and nothing is there that its
      version lacks. */
  predicate Representable(m: Manifest, version: nat) {
    && ValidHeader(m.header) && m.header.version == version
    && ValidAll(PointCodec(), m.entrypoints) && ValidAll(EntryCodec(version), m.entries) &&
        ValidAll(Number(4), m.libDirs)
    && |m.entrypoints| == m.header.entrypoints && |m.entries| == m.header.entries
    && |m.libDirs| == m.header.libDirs && |m.strings| == m.header.strings
  }

  function PutTail(m: Manifest): seq<byte> { PutAll(Number(4), m.libDirs) + m.strings }

  lemma TailReads(m: Manifest, rest: seq<byte>)
    requires ValidAll(Number(4), m.libDirs) && |m.libDirs| == m.header.libDirs && |m.strings| == m.header.strings
    ensures GetTail(m.header, m.entrypoints, m.entries, PutTail(m) + rest) == Some(m)
  {
    NumberExact(4);
    hide Number, ValidAll, PutAll, GetAll;
    var b := m.strings + rest;
    assert PutTail(m) + rest == PutAll(Number(4), m.libDirs) + b;
    GetAllExact(Number(4), m.libDirs, b, 0);
    assert b[..|m.strings|] == m.strings;
  }

  lemma BodyReads(m: Manifest, version: nat, rest: seq<byte>)
    requires Representable(m, version)
    ensures GetBody(m.header, PutBody(m, version) + rest) == Some(m)
  {
    PointExact();
    EntryExact(version);
    hide PointCodec, EntryCodec, Number, ValidHeader, ValidAll, PutAll, GetAll, GetTail, Exact;
    var b2 := PutTail(m) + rest;
    var b1 := PutAll(EntryCodec(version), m.entries) + b2;
    assert PutBody(m, version) + rest == PutAll(PointCodec(), m.entrypoints) + b1;
    ListIsWritten(PointCodec(), m.entrypoints, b1);
    ListIsWritten(EntryCodec(version), m.entries, b2);
    TailReads(m, rest);
  }

  lemma ListIsWritten<T(!new)>(a: Codec<T>, vs: seq<T>, rest: seq<byte>)
    requires Exact(a) && ValidAll(a, vs)
    ensures GetAll(a, |vs|, PutAll(a, vs) + rest, 0) == Got(vs, rest, 0)
  {
    GetAllExact(a, vs, rest, 0);
  }

  lemma TailWrites(h: Header, points: seq<EntryPoint>, entries: seq<Entry>, b: seq<byte>) returns (rest: seq<byte>)
    requires GetTail(h, points, entries, b).Some?
    ensures var m := GetTail(h, points, entries, b).value;
      && m.header == h && m.entrypoints == points && m.entries == entries
      && ValidAll(Number(4), m.libDirs) && |m.libDirs| == h.libDirs && |m.strings| == h.strings
      && b == PutTail(m) + rest
  {
    NumberExact(4);
    hide Number, ValidAll, PutAll, GetAll;
    var g := GetAll(Number(4), h.libDirs, b, 0);
    ListIsRead(Number(4), h.libDirs, b);
    rest := g.rest[h.strings..];
    var strings := g.rest[..h.strings];
    assert g.rest == strings + rest;
    assert PutAll(Number(4), g.value) + (strings + rest) == PutAll(Number(4), g.value) + strings + rest;
  }

  lemma BodyWrites(h: Header, b: seq<byte>) returns (rest: seq<byte>)
    requires ValidHeader(h) && GetBody(h, b).Some?
    ensures var m := GetBody(h, b).value;
      m.header == h && Representable(m, h.version) && b == PutBody(m, h.version) + rest
  {
    PointExact();
    EntryExact(h.version);
    hide PointCodec, EntryCodec, Number, ValidHeader, ValidAll, PutAll, GetAll, GetTail, Exact, PutTail;
    var g1 := GetAll(PointCodec(), h.entrypoints, b, 0);
    ListIsRead(PointCodec(), h.entrypoints, b);
    var g2 := GetAll(EntryCodec(h.version), h.entries, g1.rest, 0);
    ListIsRead(EntryCodec(h.version), h.entries, g1.rest);
    rest := TailWrites(h, g1.value, g2.value, g2.rest);
    Regroup(PutAll(PointCodec(), g1.value), PutAll(EntryCodec(h.version), g2.value), PutTail(GetBody(h, b).value),
      rest);
  }

  lemma Regroup(a: seq<byte>, b: seq<byte>, c: seq<byte>, d: seq<byte>)
    ensures a + (b + (c + d)) == a + (b + c) + d
  {
  }

  lemma ListIsRead<T(!new)>(a: Codec<T>, k: nat, b: seq<byte>)
    requires Exact(a) && GetAll(a, k, b, 0).Got?
    ensures var g := GetAll(a, k, b, 0);
      |g.value| == k && ValidAll(a, g.value) && b == PutAll(a, g.value) + g.rest && g.budget == 0
  {
    GetAllWrites(a, k, b, 0);
    CountAllZero(a, GetAll(a, k, b, 0).value);
  }

  /** A manifest that can be written at version 3 is read back, whatever follows it. */
  lemma DeserializeOfSerialize(m: Manifest, rest: seq<byte>)
    requires Representable(m, MANIFEST_VERSION) && Valid(m)
    ensures Deserialize(Serialize(m) + rest) == Some(m)
  {
    hide PutHeader, PutBody, GetHeader, GetBody, Valid, ValidHeader;
    HeaderReads(m.header, PutBody(m, MANIFEST_VERSION) + rest);
    assert PutHeader(m.header) + PutBody(m, MANIFEST_VERSION) + rest
      == PutHeader(m.header) + (PutBody(m, MANIFEST_VERSION) + rest);
    BodyReads(m, MANIFEST_VERSION, rest);
  }

  /** An accepted input of version 3 starts with what writing its manifest gives. */
  lemma SerializeOfDeserialize(b: seq<byte>)
    requires Deserialize(b).Some? && Deserialize(b).value.header.version == MANIFEST_VERSION
    ensures Serialize(Deserialize(b).value) <= b && Representable(Deserialize(b).value, MANIFEST_VERSION)
  {
    hide PutHeader, PutBody, GetHeader, GetBody, Valid, ValidHeader, Representable;
    HeaderWrites(b);
    var g := GetHeader(b);
    var rest := BodyWrites(g.value, g.rest);
    var m := Deserialize(b).value;
    assert b == PutHeader(m.header) + PutBody(m, MANIFEST_VERSION) + rest;
  }

  lemma {:induction false} BlocksUpgrade(version: nat, blocks: seq<Block>)
    requires version <= MANIFEST_VERSION && ValidAll(BlockCodec(version), blocks)
    ensures ValidAll(BlockCodec(MANIFEST_VERSION), blocks)
  {
    forall i | 0 <= i < |blocks| ensures BlockCodec(MANIFEST_VERSION).valid(blocks[i]) {
      assert BlockCodec(version).valid(blocks[i]);
      BlockIs(version, blocks[i]);
      BlockIs(MANIFEST_VERSION, blocks[i]);
    }
  }

  lemma BlockIs(version: nat, block: Block)
    ensures BlockCodec(version).valid(block)
      <==>
      SizesCodec().valid((block.offset, (block.compressed, block.original))) && Since(version, 2, 32).valid(block.hash)
  {
    hide SizesCodec, Since;
    IsoCount(Pair(SizesCodec(), Since(version, 2, 32)), MakeBlock, TakeBlock, block);
    PairValid(SizesCodec(), Since(version, 2, 32), (block.offset, (block.compressed, block.original)), block.hash);
  }

  lemma EntryIs(version: nat, e: Entry)
    ensures EntryCodec(version).valid(e) <==> HeadCodec().valid(HeadOf(e)) && ValidAll(BlockCodec(version), e.blocks)
  {
    hide HeadCodec, BlockCodec;
  }

  lemma HashesUpgrade(version: nat, h: Header)
    requires version <= MANIFEST_VERSION && HashesCodec(version).valid(HashesOf(h))
    ensures HashesCodec(MANIFEST_VERSION).valid(HashesOf(h))
  {
    PairValid(Since(version, 3, 32), Since(version, 3, 32), h.prefixHash, h.footerHash);
    PairValid(Since(3, 3, 32), Since(3, 3, 32), h.prefixHash, h.footerHash);
  }

  lemma FrontIs(f: Front)
    ensures FrontCodec().valid(f) <==>
      && f.version < Limit(2) && f.entries < Limit(4) && f.strings < Limit(4)
      && f.entrypoints < Limit(2) && f.defaultEntrypoint < Limit(2) && f.libDirs < Limit(2) && f.name < Limit(2)
      && |f.id| == 32
  {
    var t := TakeFront(f);
    var d := Pair(HalvesCodec(), Fixed(32));
    var c := Pair(HalvesCodec(), d);
    IsoCount(Pair(CountsCodec(), c), MakeFront, TakeFront, f);
    PairValid(CountsCodec(), c, t.0, t.1);
    PairValid(HalvesCodec(), d, t.1.0, t.1.1);
    PairValid(HalvesCodec(), Fixed(32), t.1.1.0, t.1.1.1);
    PairValid(Number(2), Number(2), f.entrypoints, f.defaultEntrypoint);
    PairValid(Number(2), Number(2), f.libDirs, f.name);
    PairValid(Number(2), Pair(Number(4), Number(4)), f.version, (f.entries, f.strings));
    PairValid(Number(4), Number(4), f.entries, f.strings);
  }

  function Upgraded(m: Manifest): Manifest { m.(header := m.header.(version := MANIFEST_VERSION)) }

  lemma UpgradeIsRepresentable(m: Manifest)
    requires m.header.version <= MANIFEST_VERSION && Representable(m, m.header.version)
    ensures Representable(Upgraded(m), MANIFEST_VERSION)
  {
    var version := m.header.version;
    FrontIs(FrontOf(m.header));
    FrontIs(FrontOf(Upgraded(m).header));
    HashesUpgrade(version, m.header);
    forall i | 0 <= i < |m.entries| ensures EntryCodec(MANIFEST_VERSION).valid(m.entries[i]) {
      hide HeadCodec, BlockCodec;
      assert EntryCodec(version).valid(m.entries[i]);
      EntryIs(version, m.entries[i]);
      BlocksUpgrade(version, m.entries[i].blocks);
      EntryIs(MANIFEST_VERSION, m.entries[i]);
    }
    hide EntryCodec, FrontCodec, HashesCodec, PointCodec, Number;
  }

  lemma UpgradeIsValid(m: Manifest)
    requires Valid(m)
    ensures Valid(Upgraded(m))
  {
    hide GetString, SafeDir;
    forall i | 0 <= i < |m.entries| ensures ValidEntry(Upgraded(m), i) { assert ValidEntry(m, i); }
  }

  lemma AcceptedIsRepresentable(b: seq<byte>)
    requires Deserialize(b).Some?
    ensures var m := Deserialize(b).value;
      1 <= m.header.version <= MANIFEST_VERSION && Representable(m, m.header.version) && Valid(m)
  {
    hide PutHeader, PutBody, GetHeader, GetBody, Valid, ValidHeader, Representable, Exact;
    HeaderWrites(b);
    var g := GetHeader(b);
    var rest := BodyWrites(g.value, g.rest);
  }

  /** A manifest of any readable version, written again, is the same manifest at the current version. */
  lemma OldVersionsUpgrade(b: seq<byte>)
    requires Deserialize(b).Some?
    ensures Deserialize(Serialize(Deserialize(b).value)) == Some(Upgraded(Deserialize(b).value))
  {
    var m := Deserialize(b).value;
    hide Serialize, Deserialize, Valid, Upgraded, Representable;
    AcceptedIsRepresentable(b);
    UpgradeIsRead(m);
  }

  lemma UpgradeIsRead(m: Manifest)
    requires m.header.version <= MANIFEST_VERSION && Representable(m, m.header.version) && Valid(m)
    ensures Deserialize(Serialize(m)) == Some(Upgraded(m))
  {
    hide Serialize, Deserialize, Valid, Upgraded, Representable;
    UpgradeIsRepresentable(m);
    UpgradeIsValid(m);
    SameText(m);
    DeserializeOfSerialize(Upgraded(m), []);
    assert Serialize(m) + [] == Serialize(m);
  }

  lemma SameText(m: Manifest)
    ensures Serialize(Upgraded(m)) == Serialize(m)
  {
    hide EntryCodec, PointCodec, Number, PutHeader;
    assert PutTail(Upgraded(m)) == PutTail(m);
    assert PutBody(Upgraded(m), MANIFEST_VERSION) == PutBody(m, MANIFEST_VERSION);
  }
}
