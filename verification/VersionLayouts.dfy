/** The two layouts of version sections that `crates/onelf-format/src/verdef.rs` has to accept: each
    header followed by its auxiliary entry, and all headers first. Sections of two definitions, and of
    two requirements, are written both ways here, for any names.
 */
module VersionLayouts {
  import opened Bytes
  import opened VersionChains
  import opened VersionSets

  // ---- fields at a place ------------------------------------------------------------------

  predicate HalfIs(b: seq<byte>, at: nat, v: nat) { at + 2 <= |b| && HalfAt(b, at) == v }

  predicate WordIs(b: seq<byte>, at: nat, v: nat) { at + 4 <= |b| && WordAt(b, at) == v }

  lemma HalfReads(front: seq<byte>, v: nat, rest: seq<byte>)
    requires v < 0x1_0000
    ensures HalfIs(front + Le(v, 2) + rest, |front|, v)
  {
    var b := front + Le(v, 2) + rest;
    assert b[|front|..|front| + 2] == Le(v, 2);
    assert Limit(2) == 0x1_0000;
    FromLeOfLe(v, 2);
  }

  lemma WordReads(front: seq<byte>, v: nat, rest: seq<byte>)
    requires v < U32_LIMIT
    ensures WordIs(front + Le(v, 4) + rest, |front|, v)
  {
    var b := front + Le(v, 4) + rest;
    assert b[|front|..|front| + 4] == Le(v, 4);
    U32Limit();
    FromLeOfLe(v, 4);
  }

  lemma HalfInside(front: seq<byte>, record: seq<byte>, rest: seq<byte>, at: nat, v: nat)
    requires HalfIs(record, at, v)
    ensures HalfIs(front + record + rest, |front| + at, v)
  {
    var b := front + record + rest;
    assert b[|front| + at..|front| + at + 2] == record[at..at + 2];
  }

  lemma WordInside(front: seq<byte>, record: seq<byte>, rest: seq<byte>, at: nat, v: nat)
    requires WordIs(record, at, v)
    ensures WordIs(front + record + rest, |front| + at, v)
  {
    var b := front + record + rest;
    assert b[|front| + at..|front| + at + 4] == record[at..at + 4];
  }

  // ---- definitions --------------------------------------------------------------------------

  /** A definition with one name. */
  function DefHeader(flags: nat, aux: nat, next: nat): (r: seq<byte>)
    ensures |r| == 20
  {
    Le(1, 2) + Le(flags, 2) + Le(0, 2) + Le(1, 2) + Le(0, 4) + Le(aux, 4) + Le(next, 4)
  }

  function DefAux(name: nat): (r: seq<byte>)
    ensures |r| == 8
  {
    Le(name, 4) + Le(0, 4)
  }

  predicate IsDefHeader(b: seq<byte>, at: nat, flags: nat, aux: nat, next: nat) {
    && HalfIs(b, at, 1) && HalfIs(b, at + 2, flags) && HalfIs(b, at + 6, 1)
    && WordIs(b, at + 12, aux) && WordIs(b, at + 16, next)
  }

  predicate IsDefAux(b: seq<byte>, at: nat, name: nat) { WordIs(b, at, name) && WordIs(b, at + 4, 0) }

  lemma DefHeaderReads(front: seq<byte>, flags: nat, aux: nat, next: nat, rest: seq<byte>)
    requires flags < 0x1_0000 && aux < U32_LIMIT && next < U32_LIMIT
    ensures IsDefHeader(front + DefHeader(flags, aux, next) + rest, |front|, flags, aux, next)
  {
    var r := DefHeader(flags, aux, next);
    hide HalfIs, WordIs, Le;
    HalfReads([], 1, r[2..]);
    HalfReads(r[..2], flags, r[4..]);
    HalfReads(r[..6], 1, r[8..]);
    WordReads(r[..12], aux, r[16..]);
    WordReads(r[..16], next, []);
    assert [] + Le(1, 2) + r[2..] == r && r[..2] + Le(flags, 2) + r[4..] == r && r[..6] + Le(1, 2) + r[8..] == r;
    assert r[..12] + Le(aux, 4) + r[16..] == r && r[..16] + Le(next, 4) + [] == r;
    HalfInside(front, r, rest, 0, 1);
    HalfInside(front, r, rest, 2, flags);
    HalfInside(front, r, rest, 6, 1);
    WordInside(front, r, rest, 12, aux);
    WordInside(front, r, rest, 16, next);
  }

  lemma DefAuxReads(front: seq<byte>, name: nat, rest: seq<byte>)
    requires name < U32_LIMIT
    ensures IsDefAux(front + DefAux(name) + rest, |front|, name)
  {
    var r := DefAux(name);
    hide WordIs, Le;
    WordReads([], name, r[4..]);
    WordReads(r[..4], 0, []);
    assert [] + Le(name, 4) + r[4..] == r && r[..4] + Le(0, 4) + [] == r;
    WordInside(front, r, rest, 0, name);
    WordInside(front, r, rest, 4, 0);
  }

  lemma FourParts(a: seq<byte>, b: seq<byte>, c: seq<byte>, d: seq<byte>)
    ensures var s := a + b + c + d;
      s == [] + a + (b + c + d) == a + b + (c + d) == (a + b) + c + d == (a + b + c) + d + []
  {
  }

  /** Each header followed by its auxiliary entry. */
  function Interleaved(f: nat, m: nat, g: nat, n: nat): seq<byte> {
    DefHeader(f, 20, 28) + DefAux(m) + DefHeader(g, 20, 0) + DefAux(n)
  }

  /** All headers, and then the auxiliary entries. */
  function HeadersFirst(f: nat, m: nat, g: nat, n: nat): seq<byte> {
    DefHeader(f, 40, 20) + DefHeader(g, 28, 0) + DefAux(m) + DefAux(n)
  }

  /** Two definitions at the places of two nodes. */
  predicate TwoDefinitions(b: seq<byte>, x: nat, i: nat, y: nat, f: nat, m: nat, g: nat, n: nat) {
    && x >= 20 && i >= 20 && i + y >= x
    && IsDefHeader(b, 0, f, x, i) && IsDefAux(b, x, m)
    && IsDefHeader(b, i, g, y, 0) && IsDefAux(b, i + y, n)
    && x + 8 <= |b| && i + y + 8 <= |b| && i + 20 <= |b| && y >= 20
    && (x + 8 <= i || i + 20 <= x) && (i + y >= i + 20)
  }

  lemma InterleavedReads(f: nat, m: nat, g: nat, n: nat)
    requires f < 0x1_0000 && g < 0x1_0000 && m < U32_LIMIT && n < U32_LIMIT
    ensures TwoDefinitions(Interleaved(f, m, g, n), 20, 28, 20, f, m, g, n)
  {
    var a, b, c, d := DefHeader(f, 20, 28), DefAux(m), DefHeader(g, 20, 0), DefAux(n);
    DefHeaderReads([], f, 20, 28, b + c + d);
    DefAuxReads(a, m, c + d);
    DefHeaderReads(a + b, g, 20, 0, d);
    DefAuxReads(a + b + c, n, []);
    hide DefHeader, DefAux, IsDefHeader, IsDefAux;
    FourParts(a, b, c, d);
  }

  lemma HeadersFirstReads(f: nat, m: nat, g: nat, n: nat)
    requires f < 0x1_0000 && g < 0x1_0000 && m < U32_LIMIT && n < U32_LIMIT
    ensures TwoDefinitions(HeadersFirst(f, m, g, n), 40, 20, 28, f, m, g, n)
  {
    var a, b, c, d := DefHeader(f, 40, 20), DefHeader(g, 28, 0), DefAux(m), DefAux(n);
    DefHeaderReads([], f, 40, 20, b + c + d);
    DefHeaderReads(a, g, 28, 0, c + d);
    DefAuxReads(a + b, m, d);
    DefAuxReads(a + b + c, n, []);
    hide DefHeader, DefAux, IsDefHeader, IsDefAux;
    FourParts(a, b, c, d);
  }

  /** A header of one auxiliary entry `aux` further on. */
  predicate HeaderIs(sh: Shape, b: seq<byte>, at: nat, aux: nat, next: nat) {
    && at + sh.header <= |b| && HalfIs(b, at, 1) && HalfIs(b, at + sh.countAt, 1)
    && WordIs(b, at + sh.auxAt, aux) && WordIs(b, at + sh.nextAt, next)
  }

  /** An auxiliary entry that none follows. */
  predicate AuxIs(sh: Shape, b: seq<byte>, at: nat) { at + sh.aux <= |b| && WordIs(b, at + sh.auxNextAt, 0) }

  lemma TwoNodes(sh: Shape, b: seq<byte>, x: nat, i: nat, y: nat)
    requires Sized(sh) && 0 < sh.header <= i && x >= sh.header && y >= sh.header
    requires x + sh.aux <= i || i + sh.header <= x
    requires HeaderIs(sh, b, 0, x, i) && HeaderIs(sh, b, i, y, 0) && AuxIs(sh, b, x) && AuxIs(sh, b, i + y)
    ensures Laid(sh, b, [Node(0, [x]), Node(i, [i + y])])
  {
    hide HeaderIs, AuxIs, IsNode, Linked, Last, Sized, IsChain, IsPlaced;
    OneNode(sh, b, 0, x, i, x);
    OneNode(sh, b, i, y, 0, i + y);
    TwoLinked(sh, b, x, i, y);
    BothNodes(sh, b, x, i, i + y);
  }

  lemma BothNodes(sh: Shape, b: seq<byte>, x: nat, i: nat, z: nat)
    requires Sized(sh) && 0 < sh.header <= i && x >= sh.header && z >= i + sh.header
    requires x + sh.aux <= i || i + sh.header <= x
    requires IsNode(sh, b, Node(0, [x])) && IsNode(sh, b, Node(i, [z]))
    requires Linked(sh, b, Node(0, [x]), Node(i, [z])) && Last(sh, b, Node(i, [z]))
    ensures Laid(sh, b, [Node(0, [x]), Node(i, [z])])
  {
    hide IsNode, Linked, Last, Sized, IsChain, IsPlaced;
    TwoChained(sh, b, Node(0, [x]), Node(i, [z]));
    TwoPlaced(sh, x, i, z);
  }

  lemma OneNode(sh: Shape, b: seq<byte>, at: nat, delta: nat, next: nat, x: nat)
    requires Sized(sh) && HeaderIs(sh, b, at, delta, next) && delta >= sh.header && x == at + delta && AuxIs(sh, b, x)
    ensures IsNode(sh, b, Node(at, [x]))
  {
    assert IsAuxChain(sh, b, x, [x]) by { hide HeaderIs; }
    hide IsAuxChain;
  }

  lemma TwoLinked(sh: Shape, b: seq<byte>, x: nat, i: nat, y: nat)
    requires Sized(sh) && sh.header <= i && HeaderIs(sh, b, 0, x, i) && HeaderIs(sh, b, i, y, 0)
    ensures Linked(sh, b, Node(0, [x]), Node(i, [i + y])) && Last(sh, b, Node(i, [i + y]))
  {
    hide HalfIs;
  }

  lemma TwoChained(sh: Shape, b: seq<byte>, p: Node, q: Node)
    requires Sized(sh) && p.at == 0 && |p.auxes| == |q.auxes| == 1
    requires IsNode(sh, b, p) && IsNode(sh, b, q) && Linked(sh, b, p, q) && Last(sh, b, q)
    ensures IsChain(sh, b, 0, 0, MAX_RECORDS, [p, q])
  {
    TwoOf(p, q);
    hide IsNode, Linked, Last, Sized, Total;
  }

  lemma TwoPlaced(sh: Shape, x: nat, i: nat, z: nat)
    requires sh.header <= i && x >= sh.header && z >= i + sh.header && (x + sh.aux <= i || i + sh.header <= x)
    ensures IsPlaced(sh, [Node(0, [x]), Node(i, [z])])
  {
    TwoOf(Node(0, [x]), Node(i, [z]));
    hide Offsets, AllAuxes, Total;
    forall h, a | h in [0, i] && a in [x, z] ensures !Overlap(h, sh.header, a, sh.aux) {}
  }

  lemma TwoOf(p: Node, q: Node)
    requires |p.auxes| == |q.auxes| == 1
    ensures Total([p, q]) == 2 && Offsets([p, q]) == [p.at, q.at] && AllAuxes([p, q]) == [p.auxes[0], q.auxes[0]]
  {
    assert [p, q][1..] == [q] && [q][1..] == [];
    assert Total([]) == 0 && Total([q]) == 1;
    assert AllAuxes([]) == [] && AllAuxes([q]) == q.auxes + [] == q.auxes;
  }

  lemma OneName(sh: Shape, b: seq<byte>, strings: seq<byte>, at: nat, word: nat, name: Name)
    requires Sized(sh) && at + sh.aux <= |b| && WordIs(b, at + sh.nameAt, word) && NameAt(strings, word) == Some(name)
    ensures Within(sh, b, [at]) && NamesOf(sh, b, strings, [at]) == Some([name])
  {
    hide NameAt, WordAt;
    assert [at][1..] == [] && NamesOf(sh, b, strings, []) == Some([]);
    assert [name] + [] == [name];
  }

  /** A definition with the lowest bit of its flags set is the object's own. */
  function Def(flags: nat, name: Name): Definition { Definition(flags % 2 == 1, [name]) }

  lemma TwoDefinitionsSay(b: seq<byte>, strings: seq<byte>, x: nat, i: nat, y: nat, f: nat, m: nat, g: nat, n: nat,
                          v: Name, w: Name)
    requires TwoDefinitions(b, x, i, y, f, m, g, n)
    requires NameAt(strings, m) == Some(v) && NameAt(strings, n) == Some(w)
    ensures SaysDefinitions(b, strings, [Node(0, [x]), Node(i, [i + y])], [Def(f, v), Def(g, w)])
  {
    var ns := [Node(0, [x]), Node(i, [i + y])];
    assert HeaderIs(VERDEF, b, 0, x, i) && HeaderIs(VERDEF, b, i, y, 0);
    assert AuxIs(VERDEF, b, x) && AuxIs(VERDEF, b, i + y);
    TwoNodes(VERDEF, b, x, i, y);
    OneName(VERDEF, b, strings, x, m, v);
    OneName(VERDEF, b, strings, i + y, n, w);
    assert (IsBase(b, 0) <==> f % 2 == 1) && (IsBase(b, i) <==> g % 2 == 1);
    hide HalfAt, WordAt, NameAt, Laid, NamesOf, IsDefHeader, IsDefAux, IsBase;
    assert InSection(VERDEF, b, ns[0]) && InSection(VERDEF, b, ns[1]);
    DefinitionsOfTwo(b, strings, ns[0], ns[1], Def(f, v), Def(g, w));
  }

  lemma DefinitionsOfTwo(b: seq<byte>, strings: seq<byte>, p: Node, q: Node, d: Definition, e: Definition)
    requires InSection(VERDEF, b, p) && InSection(VERDEF, b, q)
    requires DefinitionAt(b, strings, p) == Some(d) && DefinitionAt(b, strings, q) == Some(e)
    ensures AllInSection(VERDEF, b, [p, q]) && DefinitionsAt(b, strings, [p, q]) == Some([d, e])
  {
    hide InSection, DefinitionAt;
    assert [p, q][1..] == [q] && [q][1..] == [];
    assert DefinitionsAt(b, strings, []) == Some([]);
    assert DefinitionsAt(b, strings, [q]) == Some([e] + []) && [e] + [] == [e];
    assert [d] + [e] == [d, e];
  }

  /** Any two definitions have a section in either layout, and the two sections differ. */
  lemma BothLayouts(strings: seq<byte>, f: nat, m: nat, g: nat, n: nat, v: Name, w: Name)
    requires f < 0x1_0000 && g < 0x1_0000 && m < U32_LIMIT && n < U32_LIMIT
    requires NameAt(strings, m) == Some(v) && NameAt(strings, n) == Some(w)
    ensures var ds := [Def(f, v), Def(g, w)];
      && SaysDefinitions(Interleaved(f, m, g, n), strings, [Node(0, [20]), Node(28, [48])], ds)
      && SaysDefinitions(HeadersFirst(f, m, g, n), strings, [Node(0, [40]), Node(20, [48])], ds)
    ensures Interleaved(f, m, g, n) != HeadersFirst(f, m, g, n)
  {
    var b, c := Interleaved(f, m, g, n), HeadersFirst(f, m, g, n);
    InterleavedReads(f, m, g, n);
    HeadersFirstReads(f, m, g, n);
    hide SaysDefinitions, HalfIs, DefHeader, DefAux, Interleaved, HeadersFirst, NameAt;
    Different(b, c, 12, 20, 40);
    hide WordIs, TwoDefinitions;
    TwoDefinitionsSay(b, strings, 20, 28, 20, f, m, g, n, v, w);
    TwoDefinitionsSay(c, strings, 40, 20, 28, f, m, g, n, v, w);
  }

  lemma Different(b: seq<byte>, c: seq<byte>, at: nat, v: nat, w: nat)
    requires WordIs(b, at, v) && WordIs(c, at, w) && v != w
    ensures b != c
  {
  }

  // ---- requirements -------------------------------------------------------------------------

  /** A dependency with one version required. */
  function NeedHeader(file: nat, aux: nat, next: nat): (r: seq<byte>)
    ensures |r| == 16
  {
    Le(1, 2) + Le(1, 2) + Le(file, 4) + Le(aux, 4) + Le(next, 4)
  }

  function NeedAux(flags: nat, name: nat): (r: seq<byte>)
    ensures |r| == 16
  {
    Le(0, 4) + Le(flags, 2) + Le(0, 2) + Le(name, 4) + Le(0, 4)
  }

  predicate IsNeedHeader(b: seq<byte>, at: nat, file: nat, aux: nat, next: nat) {
    HalfIs(b, at, 1) && HalfIs(b, at + 2, 1) && WordIs(b, at + 4, file) && WordIs(b, at + 8, aux) &&
      WordIs(b, at + 12, next)
  }

  predicate IsNeedAux(b: seq<byte>, at: nat, flags: nat, name: nat) {
    HalfIs(b, at + 4, flags) && WordIs(b, at + 8, name) && WordIs(b, at + 12, 0)
  }

  lemma NeedHeaderReads(front: seq<byte>, file: nat, aux: nat, next: nat, rest: seq<byte>)
    requires file < U32_LIMIT && aux < U32_LIMIT && next < U32_LIMIT
    ensures IsNeedHeader(front + NeedHeader(file, aux, next) + rest, |front|, file, aux, next)
  {
    var r := NeedHeader(file, aux, next);
    hide HalfIs, WordIs, Le;
    HalfReads([], 1, r[2..]);
    HalfReads(r[..2], 1, r[4..]);
    WordReads(r[..4], file, r[8..]);
    WordReads(r[..8], aux, r[12..]);
    WordReads(r[..12], next, []);
    assert [] + Le(1, 2) + r[2..] == r && r[..2] + Le(1, 2) + r[4..] == r && r[..4] + Le(file, 4) + r[8..] == r;
    assert r[..8] + Le(aux, 4) + r[12..] == r && r[..12] + Le(next, 4) + [] == r;
    HalfInside(front, r, rest, 0, 1);
    HalfInside(front, r, rest, 2, 1);
    WordInside(front, r, rest, 4, file);
    WordInside(front, r, rest, 8, aux);
    WordInside(front, r, rest, 12, next);
  }

  lemma NeedAuxReads(front: seq<byte>, flags: nat, name: nat, rest: seq<byte>)
    requires flags < 0x1_0000 && name < U32_LIMIT
    ensures IsNeedAux(front + NeedAux(flags, name) + rest, |front|, flags, name)
  {
    var r := NeedAux(flags, name);
    hide HalfIs, WordIs, Le;
    HalfReads(r[..4], flags, r[6..]);
    WordReads(r[..8], name, r[12..]);
    WordReads(r[..12], 0, []);
    assert r[..4] + Le(flags, 2) + r[6..] == r && r[..8] + Le(name, 4) + r[12..] == r && r[..12] + Le(0, 4) + [] == r;
    HalfInside(front, r, rest, 4, flags);
    WordInside(front, r, rest, 8, name);
    WordInside(front, r, rest, 12, 0);
  }

  function NeedsInterleaved(f: nat, k: nat, m: nat, g: nat, l: nat, n: nat): seq<byte> {
    NeedHeader(f, 16, 32) + NeedAux(k, m) + NeedHeader(g, 16, 0) + NeedAux(l, n)
  }

  function NeedsHeadersFirst(f: nat, k: nat, m: nat, g: nat, l: nat, n: nat): seq<byte> {
    NeedHeader(f, 32, 16) + NeedHeader(g, 32, 0) + NeedAux(k, m) + NeedAux(l, n)
  }

  predicate TwoNeeds(b: seq<byte>, x: nat, i: nat, y: nat, f: nat, k: nat, m: nat, g: nat, l: nat, n: nat) {
    && x >= 16 && i >= 16 && y >= 16
    && IsNeedHeader(b, 0, f, x, i) && IsNeedAux(b, x, k, m)
    && IsNeedHeader(b, i, g, y, 0) && IsNeedAux(b, i + y, l, n)
    && x + 16 <= |b| && i + y + 16 <= |b| && i + 16 <= |b| && (x + 16 <= i || i + 16 <= x)
  }

  lemma NeedsInterleavedReads(f: nat, k: nat, m: nat, g: nat, l: nat, n: nat)
    requires k < 0x1_0000 && l < 0x1_0000 && f < U32_LIMIT && m < U32_LIMIT && g < U32_LIMIT && n < U32_LIMIT
    ensures TwoNeeds(NeedsInterleaved(f, k, m, g, l, n), 16, 32, 16, f, k, m, g, l, n)
  {
    var a, b, c, d := NeedHeader(f, 16, 32), NeedAux(k, m), NeedHeader(g, 16, 0), NeedAux(l, n);
    NeedHeaderReads([], f, 16, 32, b + c + d);
    NeedAuxReads(a, k, m, c + d);
    NeedHeaderReads(a + b, g, 16, 0, d);
    NeedAuxReads(a + b + c, l, n, []);
    hide NeedHeader, NeedAux, IsNeedHeader, IsNeedAux;
    FourParts(a, b, c, d);
  }

  lemma NeedsHeadersFirstReads(f: nat, k: nat, m: nat, g: nat, l: nat, n: nat)
    requires k < 0x1_0000 && l < 0x1_0000 && f < U32_LIMIT && m < U32_LIMIT && g < U32_LIMIT && n < U32_LIMIT
    ensures TwoNeeds(NeedsHeadersFirst(f, k, m, g, l, n), 32, 16, 32, f, k, m, g, l, n)
  {
    var a, b, c, d := NeedHeader(f, 32, 16), NeedHeader(g, 32, 0), NeedAux(k, m), NeedAux(l, n);
    NeedHeaderReads([], f, 32, 16, b + c + d);
    NeedHeaderReads(a, g, 32, 0, c + d);
    NeedAuxReads(a + b, k, m, d);
    NeedAuxReads(a + b + c, l, n, []);
    hide NeedHeader, NeedAux, IsNeedHeader, IsNeedAux;
    FourParts(a, b, c, d);
  }

  lemma NeedShapes(b: seq<byte>, x: nat, i: nat, y: nat, f: nat, k: nat, m: nat, g: nat, l: nat, n: nat)
    requires TwoNeeds(b, x, i, y, f, k, m, g, l, n)
    ensures HeaderIs(VERNEED, b, 0, x, i) && HeaderIs(VERNEED, b, i, y, 0) && AuxIs(VERNEED, b, x) &&
      AuxIs(VERNEED, b, i + y)
  {
    hide HalfIs, WordIs;
  }

  lemma SingleNeed(b: seq<byte>, strings: seq<byte>, needed: seq<Name>, at: nat, x: nat, f: nat, k: nat,
                   m: nat, file: Name, name: Name)
    requires at + 16 <= |b| && x + 16 <= |b| && WordIs(b, at + 4, f) && IsNeedAux(b, x, k, m)
    requires NameAt(strings, m) == Some(name) && NameAt(strings, f) == Some(file) && file in needed && name != []
    ensures InSection(VERNEED, b, Node(at, [x]))
    ensures NeedAt(b, strings, needed, Node(at, [x])) == Some(Need(file, [Requirement(name, k)]))
  {
    assert WordAt(b, at + 4) == f && WordIs(b, x + VERNEED.nameAt, m) && HalfIs(b, x + 4, k);
    hide NameAt, NamesOf, Requirements, HalfAt, WordAt, HalfIs, WordIs, IsNeedAux, NeedAt;
    OneName(VERNEED, b, strings, x, m, name);
    OneRequirement(b, x, k, name);
    NeedOf(b, strings, needed, Node(at, [x]), file, [name]);
  }

  lemma NeedOf(b: seq<byte>, strings: seq<byte>, needed: seq<Name>, n: Node, file: Name, names: seq<Name>)
    requires InSection(VERNEED, b, n) && NameAt(strings, WordAt(b, n.at + 4)) == Some(file) && file in needed
    requires NamesOf(VERNEED, b, strings, n.auxes) == Some(names) && [] !in names
    ensures NeedAt(b, strings, needed, n) == Some(Need(file, Requirements(b, n.auxes, names)))
  {
    hide NameAt, WordAt, NamesOf, Requirements;
  }

  lemma OneRequirement(b: seq<byte>, x: nat, k: nat, name: Name)
    requires x + 16 <= |b| && HalfIs(b, x + 4, k)
    ensures Requirements(b, [x], [name]) == [Requirement(name, k)]
  {
    assert [x][1..] == [] && [name][1..] == [] && Requirements(b, [], []) == [];
    assert [Requirement(name, k)] + [] == [Requirement(name, k)];
  }

  lemma NeedsOfTwo(b: seq<byte>, strings: seq<byte>, needed: seq<Name>, p: Node, q: Node, d: Need, e: Need)
    requires InSection(VERNEED, b, p) && InSection(VERNEED, b, q)
    requires NeedAt(b, strings, needed, p) == Some(d) && NeedAt(b, strings, needed, q) == Some(e)
    ensures AllInSection(VERNEED, b, [p, q]) && NeedsAt(b, strings, needed, [p, q]) == Some([d, e])
  {
    hide InSection, NeedAt;
    assert [p, q][1..] == [q] && [q][1..] == [];
    assert NeedsAt(b, strings, needed, []) == Some([]);
    assert NeedsAt(b, strings, needed, [q]) == Some([e] + []) && [e] + [] == [e];
    assert [d] + [e] == [d, e];
  }

  lemma TwoNeedsSay(b: seq<byte>, strings: seq<byte>, needed: seq<Name>, x: nat, i: nat, y: nat,
                    f: nat, k: nat, m: nat, g: nat, l: nat, n: nat, file: Name, v: Name, other: Name, w: Name)
    requires TwoNeeds(b, x, i, y, f, k, m, g, l, n) && file in needed && other in needed && v != [] && w != []
    requires NameAt(strings, f) == Some(file) && NameAt(strings, m) == Some(v)
    requires NameAt(strings, g) == Some(other) && NameAt(strings, n) == Some(w)
    ensures SaysNeeds(b, strings, needed, [Node(0, [x]), Node(i, [i + y])],
                      [Need(file, [Requirement(v, k)]), Need(other, [Requirement(w, l)])])
  {
    hide NameAt, HalfIs, WordIs, HalfAt, WordAt, Laid, InSection, NeedAt, AllInSection, NeedsAt;
    NeedShapes(b, x, i, y, f, k, m, g, l, n);
    TwoNodes(VERNEED, b, x, i, y);
    SingleNeed(b, strings, needed, 0, x, f, k, m, file, v);
    SingleNeed(b, strings, needed, i, i + y, g, l, n, other, w);
    NeedsOfTwo(b, strings, needed, Node(0, [x]), Node(i, [i + y]),
               Need(file, [Requirement(v, k)]), Need(other, [Requirement(w, l)]));
  }

  /** Any two requirements have a section in either layout, and the two sections differ. */
  lemma BothLayoutsOfNeeds(strings: seq<byte>, needed: seq<Name>, f: nat, k: nat, m: nat, g: nat, l: nat, n: nat,
                           file: Name, v: Name, other: Name, w: Name)
    requires k < 0x1_0000 && l < 0x1_0000 && f < U32_LIMIT && m < U32_LIMIT && g < U32_LIMIT && n < U32_LIMIT
    requires file in needed && other in needed && v != [] && w != []
    requires NameAt(strings, f) == Some(file) && NameAt(strings, m) == Some(v)
    requires NameAt(strings, g) == Some(other) && NameAt(strings, n) == Some(w)
    ensures var ds := [Need(file, [Requirement(v, k)]), Need(other, [Requirement(w, l)])];
      && SaysNeeds(NeedsInterleaved(f, k, m, g, l, n), strings, needed, [Node(0, [16]), Node(32, [48])], ds)
      && SaysNeeds(NeedsHeadersFirst(f, k, m, g, l, n), strings, needed, [Node(0, [32]), Node(16, [48])], ds)
    ensures NeedsInterleaved(f, k, m, g, l, n) != NeedsHeadersFirst(f, k, m, g, l, n)
  {
    NeedsInterleavedReads(f, k, m, g, l, n);
    NeedsHeadersFirstReads(f, k, m, g, l, n);
    var b, c := NeedsInterleaved(f, k, m, g, l, n), NeedsHeadersFirst(f, k, m, g, l, n);
    Different(b, c, 8, 16, 32);
    hide SaysNeeds, HalfIs, WordIs, NameAt, NeedsInterleaved, NeedsHeadersFirst, TwoNeeds;
    TwoNeedsSay(b, strings, needed, 16, 32, 16, f, k, m, g, l, n, file, v, other, w);
    TwoNeedsSay(c, strings, needed, 32, 16, 32, f, k, m, g, l, n, file, v, other, w);
  }
}
