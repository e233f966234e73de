/** What `parse_verdef` and `parse_verneed` of `crates/onelf-format/src/verdef.rs` return, read off the
    bytes of the section at the offsets that the ELF gABI and the GNU extensions to it give the fields.
 */
module VersionBytes {
  import opened Bytes
  import opened VersionChains
  import opened VersionSets

  /** The string at the offset that the word at `at` holds. */
  predicate NameIs(b: seq<byte>, strings: seq<byte>, at: nat, name: Name) {
    at + 4 <= |b| && NameAt(strings, WordAt(b, at)) == Some(name)
  }

  predicate Readable(b: seq<byte>, strings: seq<byte>, at: nat) {
    at + 4 <= |b| && NameAt(strings, WordAt(b, at)).Some?
  }

  /** A string of the table ends at its first NUL, which is not more than 4096 bytes away. */
  lemma NameMeans(strings: seq<byte>, at: nat, name: Name)
    ensures NameAt(strings, at) == Some(name) <==>
      && at + |name| < |strings| && strings[at..at + |name|] == name && strings[at + |name|] == 0
      && 0 !in name && |name| <= 4096 && Utf8(name)
  {
    if at <= |strings| {
      var rest := strings[at..];
      var end := TerminatorAt(rest);
      if at + |name| < |strings| && strings[at..at + |name|] == name && strings[at + |name|] == 0 && 0 !in name {
        assert rest[..|name|] == name && rest[|name|] == 0;
        assert forall i :: 0 <= i < |name| ==> rest[i] == name[i];
        assert end == |name|;
      }
      if NameAt(strings, at) == Some(name) {
        assert rest[..end] == strings[at..at + end];
        assert forall i :: 0 <= i < |name| ==> name[i] == rest[i];
      }
    }
  }

  // ---- the chain --------------------------------------------------------------------------

  /** Auxiliary entries that lead from one to the next by the word at `nextAt`. */
  predicate AuxesLink(b: seq<byte>, xs: seq<nat>, nextAt: nat) {
    && (forall j :: 0 <= j < |xs| ==> xs[j] + nextAt + 4 <= |b|)
    && (forall j :: 0 <= j < |xs| - 1 ==> xs[j + 1] == xs[j] + WordAt(b, xs[j] + nextAt))
    && (xs != [] ==> WordAt(b, xs[|xs| - 1] + nextAt) == 0)
  }

  lemma {:induction false} ChainLinks(sh: Shape, b: seq<byte>, at: nat, xs: seq<nat>)
    requires Sized(sh) && IsAuxChain(sh, b, at, xs)
    ensures xs != [] && xs[0] == at && AuxesLink(b, xs, sh.auxNextAt)
    decreases |xs|
  {
    if |xs| > 1 {
      AuxTail(sh, b, at, xs);
      ChainLinks(sh, b, xs[1], xs[1..]);
      hide IsAuxChain;
      var rest := xs[1..];
      assert xs[|xs| - 1] == rest[|rest| - 1];
      forall j | 0 <= j < |xs| ensures xs[j] + sh.auxNextAt + 4 <= |b| { if j > 0 { assert xs[j] == rest[j - 1]; } }
      forall j | 0 <= j < |xs| - 1 ensures xs[j + 1] == xs[j] + WordAt(b, xs[j] + sh.auxNextAt) {
        if j > 0 { assert xs[j] == rest[j - 1] && xs[j + 1] == rest[j]; }
      }
    }
  }

  /** A header of version 1, with its count and the offset of its first auxiliary entry. */
  predicate HeaderRead(b: seq<byte>, n: Node, countAt: nat, auxAt: nat) {
    && n.at + 2 <= |b| && HalfAt(b, n.at) == 1
    && n.at + countAt + 2 <= |b| && HalfAt(b, n.at + countAt) == |n.auxes| > 0
    && n.at + auxAt + 4 <= |b| && n.auxes[0] == n.at + WordAt(b, n.at + auxAt)
  }

  /** The word at `nextAt` of a header leads to the next one, and is zero in the last. */
  predicate NextRead(b: seq<byte>, ns: seq<Node>, i: nat, nextAt: nat)
    requires i < |ns|
  {
    && ns[i].at + nextAt + 4 <= |b|
    && WordAt(b, ns[i].at + nextAt) == if i + 1 < |ns| then ns[i + 1].at - ns[i].at else 0
  }

  predicate HeadersLink(b: seq<byte>, ns: seq<Node>, countAt: nat, auxAt: nat, nextAt: nat) {
    && ns != [] && ns[0].at == 0
    && forall i :: 0 <= i < |ns| ==> HeaderRead(b, ns[i], countAt, auxAt) && NextRead(b, ns, i, nextAt)
  }

  lemma NodeRead(sh: Shape, b: seq<byte>, n: Node)
    requires Sized(sh) && IsNode(sh, b, n)
    ensures HeaderRead(b, n, sh.countAt, sh.auxAt) && AuxesLink(b, n.auxes, sh.auxNextAt)
  {
    hide HalfAt, AuxesLink, IsAuxChain;
    ChainLinks(sh, b, n.at + WordAt(b, n.at + sh.auxAt), n.auxes);
    hide WordAt;
  }

  lemma LinkRead(sh: Shape, b: seq<byte>, ns: seq<Node>, i: nat)
    requires Sized(sh) && IsChain(sh, b, 0, 0, MAX_RECORDS, ns) && i < |ns|
    ensures IsNode(sh, b, ns[i]) && NextRead(b, ns, i, sh.nextAt)
  {
    hide IsNode, WordAt;
    assert i < |ns| - 1 ==> Linked(sh, b, ns[i], ns[i + 1]);
  }

  lemma Links(sh: Shape, b: seq<byte>, ns: seq<Node>)
    requires Sized(sh) && Laid(sh, b, ns)
    ensures HeadersLink(b, ns, sh.countAt, sh.auxAt, sh.nextAt)
    ensures forall i :: 0 <= i < |ns| ==> AuxesLink(b, ns[i].auxes, sh.auxNextAt)
  {
    assert IsChain(sh, b, 0, 0, MAX_RECORDS, ns) && ns != [] && ns[0].at == 0;
    hide Laid, IsChain, IsNode, AuxesLink, HeaderRead, NextRead, Sized;
    forall i | 0 <= i < |ns|
      ensures HeaderRead(b, ns[i], sh.countAt, sh.auxAt) && NextRead(b, ns, i, sh.nextAt)
      ensures AuxesLink(b, ns[i].auxes, sh.auxNextAt)
    {
      LinkRead(sh, b, ns, i);
      NodeRead(sh, b, ns[i]);
    }
  }

  /** The fields of a chain of definitions are where the source reads them. */
  lemma DefinitionsLink(b: seq<byte>, ns: seq<Node>)
    requires Laid(VERDEF, b, ns)
    ensures HeadersLink(b, ns, 6, 12, 16) && forall i :: 0 <= i < |ns| ==> AuxesLink(b, ns[i].auxes, 4)
  {
    Links(VERDEF, b, ns);
  }

  /** And those of a chain of requirements. */
  lemma NeedsLink(b: seq<byte>, ns: seq<Node>)
    requires Laid(VERNEED, b, ns)
    ensures HeadersLink(b, ns, 2, 8, 12) && forall i :: 0 <= i < |ns| ==> AuxesLink(b, ns[i].auxes, 12)
  {
    Links(VERNEED, b, ns);
  }

  // ---- definitions ------------------------------------------------------------------------

  /** The definition has the lowest bit of its flags clear, and `v` as its first name. */
  predicate Carries(b: seq<byte>, strings: seq<byte>, n: Node, v: Name) {
    n.at + 4 <= |b| && HalfAt(b, n.at + 2) % 2 == 0 && n.auxes != [] && NameIs(b, strings, n.auxes[0], v)
  }

  predicate AllReadable(b: seq<byte>, strings: seq<byte>, xs: seq<nat>, nameAt: nat) {
    forall j :: 0 <= j < |xs| ==> Readable(b, strings, xs[j] + nameAt)
  }

  lemma AllReadableParts(b: seq<byte>, strings: seq<byte>, xs: seq<nat>, nameAt: nat)
    requires xs != []
    ensures AllReadable(b, strings, xs, nameAt) <==>
      Readable(b, strings, xs[0] + nameAt) && AllReadable(b, strings, xs[1..], nameAt)
  {
    hide Readable;
    var rest := xs[1..];
    assert forall j :: 0 < j < |xs| ==> xs[j] == rest[j - 1];
    assert forall j :: 0 <= j < |rest| ==> rest[j] == xs[j + 1];
  }

  /** The names are those at the entries. */
  predicate NamesAre(b: seq<byte>, strings: seq<byte>, xs: seq<nat>, nameAt: nat, names: seq<Name>) {
    |names| == |xs| && forall j :: 0 <= j < |xs| ==> NameIs(b, strings, xs[j] + nameAt, names[j])
  }

  lemma NamesAreParts(b: seq<byte>, strings: seq<byte>, xs: seq<nat>, nameAt: nat, name: Name, names: seq<Name>)
    requires xs != [] && NameIs(b, strings, xs[0] + nameAt, name) && NamesAre(b, strings, xs[1..], nameAt, names)
    ensures NamesAre(b, strings, xs, nameAt, [name] + names)
  {
    hide NameIs;
    var all := [name] + names;
    forall j | 0 <= j < |xs| ensures NameIs(b, strings, xs[j] + nameAt, all[j]) {
      if j > 0 { assert xs[j] == xs[1..][j - 1] && all[j] == names[j - 1]; }
    }
  }

  lemma OneName(sh: Shape, b: seq<byte>, strings: seq<byte>, xs: seq<nat>)
    requires Sized(sh) && Within(sh, b, xs) && xs != []
    ensures Within(sh, b, xs[1..])
    ensures NamesOf(sh, b, strings, xs).Some? <==>
      Readable(b, strings, xs[0] + sh.nameAt) && NamesOf(sh, b, strings, xs[1..]).Some?
    ensures NamesOf(sh, b, strings, xs).Some? ==>
      && NamesOf(sh, b, strings, xs).value
          == [NamesOf(sh, b, strings, xs).value[0]] + NamesOf(sh, b, strings, xs[1..]).value
      && NameIs(b, strings, xs[0] + sh.nameAt, NamesOf(sh, b, strings, xs).value[0])
  {
    assert xs[0] + sh.aux <= |b|;
    hide NameAt, WordAt;
  }

  lemma {:induction false} NamesMean(sh: Shape, b: seq<byte>, strings: seq<byte>, xs: seq<nat>)
    requires Sized(sh) && Within(sh, b, xs)
    ensures NamesOf(sh, b, strings, xs).Some? <==> AllReadable(b, strings, xs, sh.nameAt)
    ensures NamesOf(sh, b, strings, xs).Some? ==>
      NamesAre(b, strings, xs, sh.nameAt, NamesOf(sh, b, strings, xs).value)
  {
    if xs != [] {
      OneName(sh, b, strings, xs);
      hide NamesOf, Readable, NameIs, AllReadable, NamesAre, Sized, Within;
      NamesMean(sh, b, strings, xs[1..]);
      AllReadableParts(b, strings, xs, sh.nameAt);
      if NamesOf(sh, b, strings, xs).Some? {
        NamesAreParts(b, strings, xs, sh.nameAt, NamesOf(sh, b, strings, xs).value[0],
                      NamesOf(sh, b, strings, xs[1..]).value);
      }
    }
  }

  lemma OneDefinitionMeans(b: seq<byte>, strings: seq<byte>, n: Node)
    requires InSection(VERDEF, b, n)
    ensures DefinitionAt(b, strings, n).Some? <==> AllReadable(b, strings, n.auxes, 0)
    ensures DefinitionAt(b, strings, n).Some? ==> var d := DefinitionAt(b, strings, n).value;
      d.names != [] && forall v :: !d.base && v == d.names[0] <==> Carries(b, strings, n, v)
  {
    NamesMean(VERDEF, b, strings, n.auxes);
    hide NamesOf, HalfAt, WordAt, NameAt;
  }

  lemma {:induction false} DefinitionsMean(b: seq<byte>, strings: seq<byte>, ns: seq<Node>)
    requires AllInSection(VERDEF, b, ns)
    ensures DefinitionsAt(b, strings, ns).Some? <==>
      forall i :: 0 <= i < |ns| ==> AllReadable(b, strings, ns[i].auxes, 0)
    ensures DefinitionsAt(b, strings, ns).Some? ==>
      forall v :: v in Versions(DefinitionsAt(b, strings, ns).value) <==>
        exists i :: 0 <= i < |ns| && Carries(b, strings, ns[i], v)
  {
    hide DefinitionAt, Carries, AllReadable, InSection;
    if ns != [] {
      var rest := ns[1..];
      assert forall i :: 0 < i < |ns| ==> ns[i] == rest[i - 1];
      assert forall i :: 0 <= i < |rest| ==> rest[i] == ns[i + 1];
      OneDefinitionMeans(b, strings, ns[0]);
      DefinitionsMean(b, strings, rest);
    }
  }

  /** The versions of a section, from its bytes: the first names of the definitions without the base flag,
      and there is a result exactly if every name can be read. */
  lemma VersionsMean(b: seq<byte>, strings: seq<byte>, ns: seq<Node>, r: Option<set<Name>>)
    requires b != [] && Laid(VERDEF, b, ns) && VerdefResult(b, strings, r)
    ensures r.Some? <==> forall i :: 0 <= i < |ns| ==> AllReadable(b, strings, ns[i].auxes, 0)
    ensures r.Some? ==>
      forall v :: v in r.value <==> exists i :: 0 <= i < |ns| && Carries(b, strings, ns[i], v)
  {
    ChainInSection(VERDEF, b, 0, 0, MAX_RECORDS, ns);
    DefinitionsMean(b, strings, ns);
    hide Laid, AllInSection, DefinitionsAt, Versions, Carries, AllReadable;
    if DefinitionsAt(b, strings, ns).Some? {
      Accepted(b, strings, ns, DefinitionsAt(b, strings, ns).value, r);
    } else if r.Some? {
      var ms, ds :| SaysDefinitions(b, strings, ms, ds) && r.value == Versions(ds);
      OneLayout(VERDEF, b, ns, ms);
    }
  }

  // ---- requirements -----------------------------------------------------------------------

  predicate NamesNeeded(b: seq<byte>, strings: seq<byte>, needed: seq<Name>, at: nat) {
    exists file :: file in needed && NameIs(b, strings, at, file)
  }

  predicate SomeEmpty(b: seq<byte>, strings: seq<byte>, xs: seq<nat>) {
    exists j :: 0 <= j < |xs| && NameIs(b, strings, xs[j] + 8, [])
  }

  /** The dependency can be read and is needed, and every version required of it has a name. */
  predicate Asks(b: seq<byte>, strings: seq<byte>, needed: seq<Name>, n: Node) {
    && NamesNeeded(b, strings, needed, n.at + 4)
    && AllReadable(b, strings, n.auxes, 8) && !SomeEmpty(b, strings, n.auxes)
  }

  /** The name and the flags of one auxiliary entry. */
  function Entry(b: seq<byte>, strings: seq<byte>, x: nat): seq<Requirement> {
    if Readable(b, strings, x + 8) && x + 6 <= |b| then
      [Requirement(NameAt(strings, WordAt(b, x + 8)).value, HalfAt(b, x + 4))]
    else []
  }

  function Listed(b: seq<byte>, strings: seq<byte>, xs: seq<nat>): seq<Requirement> {
    if xs == [] then [] else Entry(b, strings, xs[0]) + Listed(b, strings, xs[1..])
  }

  /** Every entry of every header that names the dependency, in the order of the chain. */
  function AskedOf(b: seq<byte>, strings: seq<byte>, ns: seq<Node>, file: Name): seq<Requirement> {
    if ns == [] then []
    else
      AskedOf(b, strings, ns[..|ns| - 1], file)
      + if NameIs(b, strings, ns[|ns| - 1].at + 4, file) then Listed(b, strings, ns[|ns| - 1].auxes) else []
  }

  lemma {:induction false} RequirementsMean(b: seq<byte>, strings: seq<byte>, xs: seq<nat>, names: seq<Name>)
    requires Within(VERNEED, b, xs) && NamesOf(VERNEED, b, strings, xs) == Some(names)
    ensures Requirements(b, xs, names) == Listed(b, strings, xs)
  {
    if xs != [] {
      hide NameAt, WordAt, HalfAt;
      assert names[0] == NameAt(strings, WordAt(b, xs[0] + 8)).value;
      assert NamesOf(VERNEED, b, strings, xs[1..]) == Some(names[1..]);
      RequirementsMean(b, strings, xs[1..], names[1..]);
    }
  }

  lemma NoEmptyName(b: seq<byte>, strings: seq<byte>, xs: seq<nat>, names: seq<Name>)
    requires NamesAre(b, strings, xs, 8, names)
    ensures [] in names <==> SomeEmpty(b, strings, xs)
  {
    hide NameAt, WordAt;
    forall j | 0 <= j < |xs| ensures NameIs(b, strings, xs[j] + 8, []) <==> names[j] == [] {
      assert NameIs(b, strings, xs[j] + 8, names[j]);
    }
  }

  lemma NeedAtIs(b: seq<byte>, strings: seq<byte>, needed: seq<Name>, n: Node)
    requires InSection(VERNEED, b, n)
    ensures NeedAt(b, strings, needed, n).Some? <==>
      && NamesNeeded(b, strings, needed, n.at + 4)
      && NamesOf(VERNEED, b, strings, n.auxes).Some? && [] !in NamesOf(VERNEED, b, strings, n.auxes).value
    ensures NeedAt(b, strings, needed, n).Some? ==> var d := NeedAt(b, strings, needed, n).value;
      && NameIs(b, strings, n.at + 4, d.file)
      && d.versions == Requirements(b, n.auxes, NamesOf(VERNEED, b, strings, n.auxes).value)
  {
    hide NamesOf, WordAt, HalfAt, NameAt, Requirements;
    var file := NameAt(strings, WordAt(b, n.at + 4));
    if file.Some? && file.value in needed { assert NameIs(b, strings, n.at + 4, file.value); }
  }

  lemma OneNeedMeans(b: seq<byte>, strings: seq<byte>, needed: seq<Name>, n: Node)
    requires InSection(VERNEED, b, n)
    ensures NeedAt(b, strings, needed, n).Some? <==> Asks(b, strings, needed, n)
    ensures NeedAt(b, strings, needed, n).Some? ==> var d := NeedAt(b, strings, needed, n).value;
      NameIs(b, strings, n.at + 4, d.file) && d.versions == Listed(b, strings, n.auxes)
  {
    NamesMean(VERNEED, b, strings, n.auxes);
    NeedAtIs(b, strings, needed, n);
    hide NamesOf, NameIs, AllReadable, Listed, Requirements, NeedAt, NamesAre, InSection, NamesNeeded, SomeEmpty;
    var names := NamesOf(VERNEED, b, strings, n.auxes);
    if names.Some? {
      RequirementsMean(b, strings, n.auxes, names.value);
      NoEmptyName(b, strings, n.auxes, names.value);
    }
  }

  lemma {:induction false} NeedsSplit(b: seq<byte>, strings: seq<byte>, needed: seq<Name>, ns: seq<Node>)
    requires AllInSection(VERNEED, b, ns) && ns != []
    ensures var front, last := ns[..|ns| - 1], ns[|ns| - 1];
      && AllInSection(VERNEED, b, front)
      && NeedsAt(b, strings, needed, ns) ==
         if NeedsAt(b, strings, needed, front).Some? && NeedAt(b, strings, needed, last).Some?
         then Some(NeedsAt(b, strings, needed, front).value + [NeedAt(b, strings, needed, last).value])
         else None
  {
    hide NeedAt, InSection;
    var front := ns[..|ns| - 1];
    if |ns| == 1 {
      assert ns[1..] == [] && front == [];
      assert NeedsAt(b, strings, needed, ns[1..]) == Some([]) == NeedsAt(b, strings, needed, front);
      if NeedAt(b, strings, needed, ns[0]).Some? {
        var d := NeedAt(b, strings, needed, ns[0]).value;
        assert [d] + [] == [] + [d];
      }
    } else {
      NeedsSplit(b, strings, needed, ns[1..]);
      assert front[1..] == ns[1..][..|ns| - 2] && front[0] == ns[0];
      Regrouped(b, strings, needed, ns);
    }
  }

  lemma Regrouped(b: seq<byte>, strings: seq<byte>, needed: seq<Name>, ns: seq<Node>)
    requires AllInSection(VERNEED, b, ns) && |ns| > 1
    requires AllInSection(VERNEED, b, ns[1..][..|ns| - 2])
    requires var front, last := ns[1..][..|ns| - 2], ns[|ns| - 1];
      NeedsAt(b, strings, needed, ns[1..]) ==
        if NeedsAt(b, strings, needed, front).Some? && NeedAt(b, strings, needed, last).Some?
        then Some(NeedsAt(b, strings, needed, front).value + [NeedAt(b, strings, needed, last).value])
        else None
    ensures AllInSection(VERNEED, b, ns[..|ns| - 1])
    ensures var front, last := ns[..|ns| - 1], ns[|ns| - 1];
      NeedsAt(b, strings, needed, ns) ==
        if NeedsAt(b, strings, needed, front).Some? && NeedAt(b, strings, needed, last).Some?
        then Some(NeedsAt(b, strings, needed, front).value + [NeedAt(b, strings, needed, last).value])
        else None
  {
    hide NeedAt, InSection;
    var front, last := ns[..|ns| - 1], ns[|ns| - 1];
    assert front[1..] == ns[1..][..|ns| - 2] && front[0] == ns[0];
    if NeedAt(b, strings, needed, ns[0]).Some? && NeedsAt(b, strings, needed, front[1..]).Some?
      && NeedAt(b, strings, needed, last).Some?
    {
      var d, ds, e := NeedAt(b, strings, needed, ns[0]).value, NeedsAt(b, strings, needed, front[1..]).value,
        NeedAt(b, strings, needed, last).value;
      assert [d] + (ds + [e]) == [d] + ds + [e];
    }
  }

  /** Some header names the dependency. */
  predicate Named(b: seq<byte>, strings: seq<byte>, ns: seq<Node>, file: Name) {
    exists i :: 0 <= i < |ns| && NameIs(b, strings, ns[i].at + 4, file)
  }

  /** What a list of requirements comes to, dependency by dependency. */
  ghost predicate IsAsked(b: seq<byte>, strings: seq<byte>, ns: seq<Node>, m: map<Name, seq<Requirement>>) {
    && (forall file :: file in m <==> Named(b, strings, ns, file))
    && (forall file :: file in m ==> m[file] == AskedOf(b, strings, ns, file))
    && (forall file :: file !in m ==> AskedOf(b, strings, ns, file) == [])
  }

  lemma SomeHeader(b: seq<byte>, strings: seq<byte>, ns: seq<Node>, file: Name)
    requires ns != []
    ensures Named(b, strings, ns, file) <==>
      Named(b, strings, ns[..|ns| - 1], file) || NameIs(b, strings, ns[|ns| - 1].at + 4, file)
  {
    hide NameIs;
    var front := ns[..|ns| - 1];
    assert forall i :: 0 <= i < |front| ==> front[i] == ns[i];
    if i :| 0 <= i < |ns| && NameIs(b, strings, ns[i].at + 4, file) {
      if i < |front| { assert NameIs(b, strings, front[i].at + 4, file); }
    }
    if i :| 0 <= i < |front| && NameIs(b, strings, front[i].at + 4, file) {
      assert NameIs(b, strings, ns[i].at + 4, file);
    }
  }

  lemma OneFile(b: seq<byte>, strings: seq<byte>, at: nat, name: Name, other: Name)
    requires NameIs(b, strings, at, name)
    ensures NameIs(b, strings, at, other) <==> other == name
  {
  }

  lemma AddMeans(b: seq<byte>, strings: seq<byte>, ns: seq<Node>, m: map<Name, seq<Requirement>>, d: Need)
    requires ns != [] && IsAsked(b, strings, ns[..|ns| - 1], m)
    requires NameIs(b, strings, ns[|ns| - 1].at + 4, d.file) && d.versions == Listed(b, strings, ns[|ns| - 1].auxes)
    ensures IsAsked(b, strings, ns, Add(m, d))
  {
    hide NameIs, Listed;
    var front, last, now := ns[..|ns| - 1], ns[|ns| - 1], Add(m, d);
    forall file
      ensures file in now <==> Named(b, strings, ns, file)
      ensures file in now ==> now[file] == AskedOf(b, strings, ns, file)
      ensures file !in now ==> AskedOf(b, strings, ns, file) == []
    {
      SomeHeader(b, strings, ns, file);
      OneFile(b, strings, last.at + 4, d.file, file);
      OneFileMore(b, strings, ns, file);
      assert (if file in m then m[file] else []) == AskedOf(b, strings, front, file);
      hide AskedOf, Named;
    }
  }

  lemma OneFileMore(b: seq<byte>, strings: seq<byte>, ns: seq<Node>, file: Name)
    requires ns != []
    ensures AskedOf(b, strings, ns, file) == AskedOf(b, strings, ns[..|ns| - 1], file)
      + if NameIs(b, strings, ns[|ns| - 1].at + 4, file) then Listed(b, strings, ns[|ns| - 1].auxes) else []
  {
  }

  lemma {:induction false} NeedsMean(b: seq<byte>, strings: seq<byte>, needed: seq<Name>, ns: seq<Node>)
    requires AllInSection(VERNEED, b, ns)
    ensures NeedsAt(b, strings, needed, ns).Some? <==> forall i :: 0 <= i < |ns| ==> Asks(b, strings, needed, ns[i])
    ensures NeedsAt(b, strings, needed, ns).Some? ==>
      IsAsked(b, strings, ns, Required(NeedsAt(b, strings, needed, ns).value))
  {
    hide NeedAt, Asks, InSection, NameIs, Listed, Add;
    if ns == [] {
      assert NeedsAt(b, strings, needed, ns) == Some([]);
    } else {
      var front, last := ns[..|ns| - 1], ns[|ns| - 1];
      NeedsSplit(b, strings, needed, ns);
      NeedsMean(b, strings, needed, front);
      OneNeedMeans(b, strings, needed, last);
      hide IsAsked;
      assert forall i :: 0 <= i < |front| ==> front[i] == ns[i];
      if NeedsAt(b, strings, needed, ns).Some? {
        var ds := NeedsAt(b, strings, needed, ns).value;
        assert ds[..|ds| - 1] == NeedsAt(b, strings, needed, front).value;
        AddMeans(b, strings, ns, Required(ds[..|ds| - 1]), ds[|ds| - 1]);
      }
    }
  }

  /** The requirements of a section, from its bytes: every header's dependency has the names and flags of
      its entries, in order, and there is a result exactly if every header names a needed dependency
      and every entry has a name. */
  lemma RequiredMeans(b: seq<byte>, strings: seq<byte>, needed: seq<Name>, ns: seq<Node>,
                      r: Option<(map<Name, seq<Requirement>>, nat)>)
    requires b != [] && Laid(VERNEED, b, ns) && VerneedResult(b, strings, needed, r)
    ensures r.Some? <==> forall i :: 0 <= i < |ns| ==> Asks(b, strings, needed, ns[i])
    ensures r.Some? ==> r.value.1 == |ns| && IsAsked(b, strings, ns, r.value.0)
  {
    ChainInSection(VERNEED, b, 0, 0, MAX_RECORDS, ns);
    NeedsMean(b, strings, needed, ns);
    hide Laid, AllInSection, NeedsAt, Required, IsAsked, Asks;
    if NeedsAt(b, strings, needed, ns).Some? {
      AcceptedNeeds(b, strings, needed, ns, NeedsAt(b, strings, needed, ns).value, r);
      NeedForEach(b, strings, needed, ns);
    } else if r.Some? {
      var ms, ds :| SaysNeeds(b, strings, needed, ms, ds) && r.value.0 == Required(ds) && r.value.1 == |ms|;
      OneLayout(VERNEED, b, ns, ms);
    }
  }
}
