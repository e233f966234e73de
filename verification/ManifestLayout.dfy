/** The bytes of a manifest, `crates/onelf-format/src/manifest.rs` and `crates/onelf-format/src/entry.rs`, written
    out field by field for every version. The format put together from codecs is this one.
 */
module ManifestLayout {
  import opened Bytes
  import opened Codec
  import opened LittleEndian
  import opened ManifestCodec

  function HeaderBytes(h: Header): seq<byte> {
    Two(h.version) + Four(h.entries) + Four(h.strings) + Two(h.entrypoints) + Two(h.defaultEntrypoint) + Two(h.libDirs)
    + Two(h.name) + h.id + if h.version >= 3 then h.prefixHash + h.footerHash else []
  }

  function PointBytes(p: EntryPoint): seq<byte> {
    Four(p.name) + Four(p.target) + Four(p.args)
    + [match p.workingDir case Inherit => 0 case PackageRoot => 1 case EntrypointParent => 2, p.flags]
  }

  function BlockBytes(version: nat, b: Block): seq<byte> {
    Eight(b.offset) + Eight(b.compressed) + Eight(b.original) + if version >= 2 then b.hash else []
  }

  function EntryBytes(version: nat, e: Entry): seq<byte> {
    [match e.kind case Dir => 0 case File => 1 case Symlink => 2]
    + Four(e.parent) + Four(e.name) + Four(e.mode) + Eight(e.mtimeSecs) + Four(e.mtimeNsec) + e.hash
    + Four(|e.blocks|) + Four(e.symlink) + Blocks(version, e.blocks)
  }

  function Blocks(version: nat, bs: seq<Block>): seq<byte> {
    if bs == [] then [] else BlockBytes(version, bs[0]) + Blocks(version, bs[1..])
  }

  function Points(ps: seq<EntryPoint>): seq<byte> { if ps == [] then [] else PointBytes(ps[0]) + Points(ps[1..]) }

  function Entries(version: nat, es: seq<Entry>): seq<byte> {
    if es == [] then [] else EntryBytes(version, es[0]) + Entries(version, es[1..])
  }

  function Offsets(ns: seq<nat>): seq<byte> { if ns == [] then [] else Four(ns[0]) + Offsets(ns[1..]) }

  /** Header, entrypoints, entries, offsets of the library directories, and the string table. */
  function ManifestBytes(m: Manifest, version: nat): seq<byte> {
    HeaderBytes(m.header.(version := version)) + Points(m.entrypoints) + Entries(version, m.entries)
    + Offsets(m.libDirs) + m.strings
  }

  // ---- they are what the codecs put --------------------------------------------------------------

  lemma SinceIs(version: nat, since: nat, s: seq<byte>)
    ensures Since(version, since, 32).put(s) == if version >= since then s else []
  {
  }

  lemma NumberIs(n: nat)
    ensures Number(2).put(n) == Two(n) && Number(4).put(n) == Four(n) && Number(8).put(n) == Eight(n)
  {
    TwoIs(n);
    FourIs(n);
    EightIs(n);
    hide Le, Two, Four, Eight;
  }

  lemma EnumIs<T(!new)>(tag: T -> byte, untag: byte -> Option<T>, v: T)
    ensures Enum(tag, untag).put(v) == [tag(v)]
  {
  }

  lemma FixedIs(s: seq<byte>)
    ensures Fixed(32).put(s) == s
  {
  }

  lemma BlockIs(version: nat, b: Block)
    ensures BlockCodec(version).put(b) == BlockBytes(version, b)
  {
    NumberIs(b.offset);
    NumberIs(b.compressed);
    NumberIs(b.original);
    SinceIs(version, 2, b.hash);
    IsoPut(Pair(SizesCodec(), Since(version, 2, 32)), MakeBlock, TakeBlock, b);
    hide Number, Since, Pair, Eight, Two, Four, Iso;
    PairPut(Number(8), Number(8), b.compressed, b.original);
    PairPut(Number(8), Pair(Number(8), Number(8)), b.offset, (b.compressed, b.original));
    PairPut(SizesCodec(), Since(version, 2, 32), (b.offset, (b.compressed, b.original)), b.hash);
  }

  lemma {:induction false} BlocksAre(version: nat, bs: seq<Block>)
    ensures PutAll(BlockCodec(version), bs) == Blocks(version, bs)
  {
    if bs != [] {
      BlockIs(version, bs[0]);
      hide BlockCodec, BlockBytes;
      BlocksAre(version, bs[1..]);
    }
  }

  lemma WordsAre(a: nat, b: nat, c: nat)
    ensures WordsCodec().put((a, (b, c))) == Four(a) + Four(b) + Four(c)
  {
    NumberIs(a);
    NumberIs(b);
    NumberIs(c);
    hide Number, Four, Pair;
    PairPut(Number(4), Number(4), b, c);
    PairPut(Number(4), Pair(Number(4), Number(4)), a, (b, c));
  }

  lemma PointIs(p: EntryPoint)
    ensures PointCodec().put(p) == PointBytes(p)
  {
    WordsAre(p.name, p.target, p.args);
    EnumIs(DirTag, DirOf, p.workingDir);
    EnumIs(FlagsTag, FlagsOf, p.flags);
    var tail := Pair(Enum(DirTag, DirOf), Enum(FlagsTag, FlagsOf));
    IsoPut(Pair(WordsCodec(), tail), MakePoint, TakePoint, p);
    hide WordsCodec, Enum, Pair, Four, Iso;
    PairPut(Enum(DirTag, DirOf), Enum(FlagsTag, FlagsOf), p.workingDir, p.flags);
    PairPut(WordsCodec(), tail, (p.name, (p.target, p.args)), (p.workingDir, p.flags));
  }

  lemma {:induction false} PointsAre(ps: seq<EntryPoint>)
    ensures PutAll(PointCodec(), ps) == Points(ps)
  {
    if ps != [] {
      PointIs(ps[0]);
      hide PointCodec, PointBytes;
      PointsAre(ps[1..]);
    }
  }

  lemma TimesAre(secs: nat, nsec: nat)
    ensures TimesCodec().put((secs, nsec)) == Eight(secs) + Four(nsec)
  {
    NumberIs(secs);
    NumberIs(nsec);
    hide Number, Four, Eight, Pair;
    PairPut(Number(8), Number(4), secs, nsec);
  }

  lemma TailIs(hash: seq<byte>, count: nat, symlink: nat)
    ensures TailCodec().put((hash, (count, symlink))) == hash + (Four(count) + Four(symlink))
  {
    NumberIs(count);
    NumberIs(symlink);
    FixedIs(hash);
    hide Number, Four, Pair, Fixed;
    PairPut(Number(4), Number(4), count, symlink);
    PairPut(Fixed(32), Pair(Number(4), Number(4)), hash, (count, symlink));
  }

  lemma HeadIs(h: Head)
    ensures HeadCodec().put(h) ==
      [KindTag(h.kind)] + (Four(h.parent) + Four(h.name) + Four(h.mode)
        + (Eight(h.mtimeSecs) + Four(h.mtimeNsec) + (h.hash + (Four(h.count) + Four(h.symlink)))))
  {
    WordsAre(h.parent, h.name, h.mode);
    TimesAre(h.mtimeSecs, h.mtimeNsec);
    TailIs(h.hash, h.count, h.symlink);
    EnumIs(KindTag, KindOf, h.kind);
    var t := TakeHead(h);
    var rest := Pair(TimesCodec(), TailCodec());
    IsoPut(Pair(Enum(KindTag, KindOf), Pair(WordsCodec(), rest)), MakeHead, TakeHead, h);
    hide WordsCodec, TimesCodec, TailCodec, Pair, Enum, Four, Eight, Iso;
    PairPut(TimesCodec(), TailCodec(), t.1.1.0, t.1.1.1);
    PairPut(WordsCodec(), rest, t.1.0, t.1.1);
    PairPut(Enum(KindTag, KindOf), Pair(WordsCodec(), rest), t.0, t.1);
  }

  lemma EntryHeadIs(e: Entry)
    ensures HeadCodec().put(HeadOf(e)) ==
      [match e.kind case Dir => 0 case File => 1 case Symlink => 2]
      + Four(e.parent) + Four(e.name) + Four(e.mode) + Eight(e.mtimeSecs) + Four(e.mtimeNsec) + e.hash
      + Four(|e.blocks|) + Four(e.symlink)
  {
    HeadIs(HeadOf(e));
    assert KindTag(e.kind) == match e.kind case Dir => 0 case File => 1 case Symlink => 2;
    hide HeadCodec, Four, Eight, KindTag;
    Flattened([KindTag(e.kind)], Four(e.parent), Four(e.name), Four(e.mode), Eight(e.mtimeSecs), Four(e.mtimeNsec),
      e.hash, Four(|e.blocks|), Four(e.symlink));
  }

  lemma EntryIs(version: nat, e: Entry)
    ensures EntryCodec(version).put(e) == EntryBytes(version, e)
  {
    BlocksAre(version, e.blocks);
    EntryHeadIs(e);
    CountedIs(HeadCodec(), BlockCodec(version), CountOf, MakeEntry, HeadOf, BlocksOf, e);
    hide HeadCodec, BlockCodec, Blocks, Four, Eight, Counted, PutAll, HeadOf;
  }

  lemma CountedIs<H(!new), T(!new), E(!new)>(head: Codec<H>, item: Codec<T>, many: H -> nat,
                                            make: (H, seq<T>) -> E, headOf: E -> H, itemsOf: E -> seq<T>, e: E)
    ensures Counted(head, item, many, make, headOf, itemsOf).put(e) == head.put(headOf(e)) + PutAll(item, itemsOf(e))
  {
  }

  lemma Flattened(k: seq<byte>, a: seq<byte>, b: seq<byte>, c: seq<byte>, s: seq<byte>, n: seq<byte>, h: seq<byte>,
                  x: seq<byte>, y: seq<byte>)
    ensures k + (a + b + c + (s + n + (h + (x + y)))) == k + a + b + c + s + n + h + x + y
  {
    var tail := s + n + (h + (x + y));
    assert k + (a + b + c + tail) == k + a + b + c + tail;
    Regrouped(k + a + b + c, s, n, h, x + y);
    assert k + a + b + c + s + n + h + (x + y) == k + a + b + c + s + n + h + x + y;
  }

  lemma Regrouped(k: seq<byte>, s: seq<byte>, n: seq<byte>, h: seq<byte>, t: seq<byte>)
    ensures k + (s + n + (h + t)) == k + s + n + h + t
  {
  }

  lemma {:induction false} EntriesAre(version: nat, es: seq<Entry>)
    ensures PutAll(EntryCodec(version), es) == Entries(version, es)
  {
    if es != [] {
      EntryIs(version, es[0]);
      hide EntryCodec, EntryBytes;
      EntriesAre(version, es[1..]);
    }
  }

  lemma {:induction false} OffsetsAre(ns: seq<nat>)
    ensures PutAll(Number(4), ns) == Offsets(ns)
  {
    if ns != [] {
      NumberIs(ns[0]);
      hide Number, Four;
      OffsetsAre(ns[1..]);
    }
  }

  lemma FrontIs(f: Front)
    ensures FrontCodec().put(f) ==
      Two(f.version) + (Four(f.entries) + Four(f.strings))
      + (Two(f.entrypoints) + Two(f.defaultEntrypoint) + (Two(f.libDirs) + Two(f.name) + f.id))
  {
    NumberIs(f.version);
    NumberIs(f.entries);
    NumberIs(f.strings);
    HalvesAre(f.entrypoints, f.defaultEntrypoint);
    HalvesAre(f.libDirs, f.name);
    FixedIs(f.id);
    var t := TakeFront(f);
    var rest := Pair(HalvesCodec(), Fixed(32));
    IsoPut(Pair(CountsCodec(), Pair(HalvesCodec(), rest)), MakeFront, TakeFront, f);
    hide Number, Two, Four, Pair, Fixed, HalvesCodec, Iso;
    PairPut(Number(4), Number(4), f.entries, f.strings);
    PairPut(Number(2), Pair(Number(4), Number(4)), f.version, (f.entries, f.strings));
    PairPut(HalvesCodec(), Fixed(32), t.1.1.0, t.1.1.1);
    PairPut(HalvesCodec(), rest, t.1.0, t.1.1);
    PairPut(CountsCodec(), Pair(HalvesCodec(), rest), t.0, t.1);
  }

  lemma HalvesAre(a: nat, b: nat)
    ensures HalvesCodec().put((a, b)) == Two(a) + Two(b)
  {
    NumberIs(a);
    NumberIs(b);
    hide Number, Two;
  }

  lemma HeaderIs(h: Header)
    ensures PutHeader(h) == HeaderBytes(h)
  {
    FrontIs(FrontOf(h));
    SinceIs(h.version, 3, h.prefixHash);
    SinceIs(h.version, 3, h.footerHash);
    hide FrontCodec, Since, Pair, Two, Four;
    PairPut(Since(h.version, 3, 32), Since(h.version, 3, 32), h.prefixHash, h.footerHash);
    FlatFront(Two(h.version), Four(h.entries), Four(h.strings), Two(h.entrypoints), Two(h.defaultEntrypoint),
      Two(h.libDirs), Two(h.name), h.id);
  }

  lemma FlatFront(a: seq<byte>, b: seq<byte>, c: seq<byte>, d: seq<byte>, e: seq<byte>, f: seq<byte>, g: seq<byte>,
                  i: seq<byte>)
    ensures a + (b + c) + (d + e + (f + g + i)) == a + b + c + d + e + f + g + i
  {
  }

  lemma BodyIs(m: Manifest, version: nat)
    ensures PutBody(m, version) == Points(m.entrypoints) + Entries(version, m.entries) + Offsets(m.libDirs) + m.strings
  {
    PointsAre(m.entrypoints);
    EntriesAre(version, m.entries);
    OffsetsAre(m.libDirs);
    hide Points, Entries, Offsets, PutAll, PointCodec, EntryCodec, Number;
  }

  /** What is written is these bytes, at version 3. */
  lemma SerializedIs(m: Manifest)
    ensures Serialize(m) == ManifestBytes(m, 3)
  {
    HeaderIs(m.header.(version := 3));
    BodyIs(m, 3);
    hide PutHeader, PutBody, HeaderBytes, Points, Entries, Offsets;
    Whole(HeaderBytes(m.header.(version := 3)), Points(m.entrypoints), Entries(3, m.entries), Offsets(m.libDirs),
      m.strings);
  }

  lemma Whole(h: seq<byte>, a: seq<byte>, b: seq<byte>, c: seq<byte>, d: seq<byte>)
    ensures h + (a + b + c + d) == h + a + b + c + d
  {
  }

  /** What is accepted starts with the bytes of its manifest at its own version, and only versions 1 to 3 are. */
  lemma AcceptedIs(b: seq<byte>)
    requires Deserialize(b).Some?
    ensures var m := Deserialize(b).value; 1 <= m.header.version <= 3 && ManifestBytes(m, m.header.version) <= b
  {
    hide PutHeader, PutBody, GetHeader, GetBody, Valid, ValidHeader, Representable, HeaderBytes, Points, Entries,
      Offsets;
    HeaderWrites(b);
    var g := GetHeader(b);
    var rest := BodyWrites(g.value, g.rest);
    var m := Deserialize(b).value;
    HeaderIs(m.header);
    BodyIs(m, m.header.version);
    assert b == PutHeader(m.header) + (PutBody(m, m.header.version) + rest);
    assert m.header.(version := m.header.version) == m.header;
    Whole(HeaderBytes(m.header), Points(m.entrypoints), Entries(m.header.version, m.entries), Offsets(m.libDirs),
      m.strings);
    assert b == ManifestBytes(m, m.header.version) + rest;
  }
}
