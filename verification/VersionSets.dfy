/** Version definitions and requirements read off their chains, `parse_verdef` and
    `parse_verneed` of `crates/onelf-format/src/verdef.rs`: every layout of one list of
    definitions gives one result.
 */
module VersionSets {
  import opened Bytes
  import opened VersionChains

  type Name = seq<byte>

  datatype Requirement = Requirement(name: Name, flags: nat)

  /** One version definition: whether it is the object's own name, and its names. */
  datatype Definition = Definition(base: bool, names: seq<Name>)

  /** One dependency and the versions required of it. */
  datatype Need = Need(file: Name, versions: seq<Requirement>)

  // ---- what a chain says -----------------------------------------------------------------

  /** The offsets lie in the section, as those of a chain do. */
  predicate Within(sh: Shape, b: seq<byte>, xs: seq<nat>) { forall j :: 0 <= j < |xs| ==> xs[j] + sh.aux <= |b| }

  function NamesOf(sh: Shape, b: seq<byte>, strings: seq<byte>, xs: seq<nat>): (r: Option<seq<Name>>)
    requires Sized(sh) && Within(sh, b, xs)
    ensures r.Some? ==> |r.value| == |xs|
  {
    if xs == [] then Some([])
    else
      match (NameAt(strings, WordAt(b, xs[0] + sh.nameAt)), NamesOf(sh, b, strings, xs[1..]))
      case (Some(name), Some(rest)) => Some([name] + rest)
      case _ => None
  }

  /** `VER_FLG_BASE` is the lowest bit of the flags. */
  predicate IsBase(b: seq<byte>, at: nat)
    requires at + 4 <= |b|
  {
    HalfAt(b, at + 2) % 2 == 1
  }

  /** The node is one of a chain. */
  predicate InSection(sh: Shape, b: seq<byte>, n: Node) {
    n.at + sh.header <= |b| && n.auxes != [] && Within(sh, b, n.auxes)
  }

  function DefinitionAt(b: seq<byte>, strings: seq<byte>, n: Node): Option<Definition>
    requires InSection(VERDEF, b, n)
  {
    match NamesOf(VERDEF, b, strings, n.auxes)
    case None => None
    case Some(names) => Some(Definition(IsBase(b, n.at), names))
  }

  function Requirements(b: seq<byte>, xs: seq<nat>, names: seq<Name>): seq<Requirement>
    requires |xs| == |names| && Within(VERNEED, b, xs)
  {
    if xs == [] then [] else [Requirement(names[0], HalfAt(b, xs[0] + 4))] + Requirements(b, xs[1..], names[1..])
  }

  function NeedAt(b: seq<byte>, strings: seq<byte>, needed: seq<Name>, n: Node): Option<Need>
    requires InSection(VERNEED, b, n)
  {
    match (NameAt(strings, WordAt(b, n.at + 4)), NamesOf(VERNEED, b, strings, n.auxes))
    case (Some(file), Some(names)) =>
      if file !in needed || [] in names then None else Some(Need(file, Requirements(b, n.auxes, names)))
    case _ => None
  }

  predicate AllInSection(sh: Shape, b: seq<byte>, ns: seq<Node>) {
    forall i :: 0 <= i < |ns| ==> InSection(sh, b, ns[i])
  }

  function DefinitionsAt(b: seq<byte>, strings: seq<byte>, ns: seq<Node>): Option<seq<Definition>>
    requires AllInSection(VERDEF, b, ns)
  {
    if ns == [] then Some([])
    else
      match (DefinitionAt(b, strings, ns[0]), DefinitionsAt(b, strings, ns[1..]))
      case (Some(d), Some(rest)) => Some([d] + rest)
      case _ => None
  }

  function NeedsAt(b: seq<byte>, strings: seq<byte>, needed: seq<Name>, ns: seq<Node>): Option<seq<Need>>
    requires AllInSection(VERNEED, b, ns)
  {
    if ns == [] then Some([])
    else
      match (NeedAt(b, strings, needed, ns[0]), NeedsAt(b, strings, needed, ns[1..]))
      case (Some(d), Some(rest)) => Some([d] + rest)
      case _ => None
  }

  /** The first name of every definition but the object's own. */
  function Versions(ds: seq<Definition>): set<Name> {
    if ds == [] then {}
    else (if !ds[0].base && ds[0].names != [] then {ds[0].names[0]} else {}) + Versions(ds[1..])
  }

  function Add(out: map<Name, seq<Requirement>>, n: Need): map<Name, seq<Requirement>> {
    out[n.file := (if n.file in out then out[n.file] else []) + n.versions]
  }

  /** The versions required of each dependency, in the order of the chain. */
  function Required(ns: seq<Need>): map<Name, seq<Requirement>> {
    if ns == [] then map[] else Add(Required(ns[..|ns| - 1]), ns[|ns| - 1])
  }

  // ---- a section --------------------------------------------------------------------------

  ghost predicate IsPlaced(sh: Shape, ns: seq<Node>) { Placed(Offsets(ns), sh.header, AllAuxes(ns), sh.aux) }

  /** The section lays out a chain from its start, with no auxiliary entry over a header. */
  ghost predicate Laid(sh: Shape, b: seq<byte>, ns: seq<Node>)
    requires Sized(sh)
  {
    IsChain(sh, b, 0, 0, MAX_RECORDS, ns) && IsPlaced(sh, ns)
  }

  lemma ChainInSection(sh: Shape, b: seq<byte>, pos: nat, total: nat, left: nat, ns: seq<Node>)
    requires Sized(sh) && IsChain(sh, b, pos, total, left, ns)
    ensures AllInSection(sh, b, ns)
  {
    forall i | 0 <= i < |ns| ensures InSection(sh, b, ns[i]) {
      assert IsNode(sh, b, ns[i]);
      AuxesInSection(sh, b, ns[i].at + WordAt(b, ns[i].at + sh.auxAt), ns[i].auxes);
    }
  }

  /** What a section of definitions says, if it is one. */
  ghost predicate SaysDefinitions(b: seq<byte>, strings: seq<byte>, ns: seq<Node>, ds: seq<Definition>) {
    && Laid(VERDEF, b, ns)
    && AllInSection(VERDEF, b, ns)
    && DefinitionsAt(b, strings, ns) == Some(ds)
  }

  ghost predicate SaysNeeds(b: seq<byte>, strings: seq<byte>, needed: seq<Name>, ns: seq<Node>, ds: seq<Need>) {
    && Laid(VERNEED, b, ns)
    && AllInSection(VERNEED, b, ns)
    && NeedsAt(b, strings, needed, ns) == Some(ds)
  }

  /** A section lays out only one chain. */
  lemma OneLayout(sh: Shape, b: seq<byte>, ns: seq<Node>, ms: seq<Node>)
    requires Sized(sh) && Laid(sh, b, ns) && Laid(sh, b, ms)
    ensures ns == ms
  {
    ChainWalks(sh, b, 0, 0, MAX_RECORDS, ns);
    ChainWalks(sh, b, 0, 0, MAX_RECORDS, ms);
  }

  // ---- auxiliary entries, as the loops read them ---------------------------------------------

  /** Reads the names of a chain of auxiliary entries. */
  method ReadAuxes(sh: Shape, b: seq<byte>, strings: seq<byte>, start: nat, count: nat)
    returns (r: Option<(seq<nat>, seq<Name>)>)
    requires Sized(sh) && count > 0
    ensures match WalkAuxes(sh, b, start, count)
      case None => r.None?
      case Some(xs) =>
        Within(sh, b, xs) && r == if NamesOf(sh, b, strings, xs).None? then None
          else Some((xs, NamesOf(sh, b, strings, xs).value))
  {
    hide FromLe, NameAt, Utf8;
    WalkedWithin(sh, b, start, count);
    var at: nat, xs: seq<nat>, names: seq<Name> := start, [], [];
    ghost var whole := WalkAuxes(sh, b, start, count);
    if whole.Some? { assert [] + whole.value == whole.value; }
    for i := 0 to count
      invariant |xs| == i == |names|
      invariant Within(sh, b, xs)
      invariant NamesOf(sh, b, strings, xs) == Some(names)
      invariant i < count ==> whole == Prepend(xs, WalkAuxes(sh, b, at, count - i))
      invariant i == count ==> whole == Some(xs)
    {
      if at + sh.aux > |b| { return None; }
      var name := NameAt(strings, WordAt(b, at + sh.nameAt));
      AuxStep(sh, b, xs, at, count - i);
      NextName(sh, b, strings, xs, names, at);
      if name.None? { return None; }
      xs, names := xs + [at], names + [name.value];
      var next := WordAt(b, at + sh.auxNextAt);
      if i + 1 == count {
        if next != 0 { return None; }
      } else {
        if next < sh.aux { return None; }
        at := at + next;
      }
    }
    return Some((xs, names));
  }

  function Prepend<T>(xs: seq<T>, rest: Option<seq<T>>): Option<seq<T>> {
    match rest case None => None case Some(ys) => Some(xs + ys)
  }

  lemma {:induction false} WalkedWithin(sh: Shape, b: seq<byte>, at: nat, count: nat)
    requires Sized(sh) && count > 0
    ensures WalkAuxes(sh, b, at, count).Some? ==> Within(sh, b, WalkAuxes(sh, b, at, count).value)
  {
    if WalkAuxes(sh, b, at, count).Some? {
      WalkedAuxes(sh, b, at, count);
      AuxesInSection(sh, b, at, WalkAuxes(sh, b, at, count).value);
    }
  }

  lemma AuxStep(sh: Shape, b: seq<byte>, xs: seq<nat>, at: nat, left: nat)
    requires Sized(sh) && left > 0 && at + sh.aux <= |b|
    ensures var next := WordAt(b, at + sh.auxNextAt); var whole := Prepend(xs, WalkAuxes(sh, b, at, left));
      && (whole.Some? ==> xs + [at] <= whole.value)
      && (left == 1 ==> whole == if next != 0 then None else Some(xs + [at]))
      && (left > 1 ==> whole == if next < sh.aux then None
          else Prepend(xs + [at], WalkAuxes(sh, b, at + next, left - 1)))
  {
    var next := WordAt(b, at + sh.auxNextAt);
    if left > 1 && next >= sh.aux && WalkAuxes(sh, b, at + next, left - 1).Some? {
      var rest := WalkAuxes(sh, b, at + next, left - 1).value;
      assert xs + ([at] + rest) == xs + [at] + rest;
    }
  }

  lemma {:induction false} NamesLast(sh: Shape, b: seq<byte>, strings: seq<byte>, xs: seq<nat>, at: nat)
    requires Sized(sh) && Within(sh, b, xs) && at + sh.aux <= |b| && Within(sh, b, xs + [at])
    ensures NamesOf(sh, b, strings, xs + [at]) ==
      match (NamesOf(sh, b, strings, xs), NameAt(strings, WordAt(b, at + sh.nameAt)))
      case (Some(names), Some(name)) => Some(names + [name])
      case _ => None
  {
    hide NameAt, WordAt;
    if xs == [] {
      assert xs + [at] == [at] && [at][1..] == [];
      if NameAt(strings, WordAt(b, at + sh.nameAt)).Some? {
        var name := NameAt(strings, WordAt(b, at + sh.nameAt)).value;
        assert [name] + [] == [] + [name];
      }
    } else {
      NamesLast(sh, b, strings, xs[1..], at);
      assert (xs + [at])[1..] == xs[1..] + [at] && (xs + [at])[0] == xs[0];
      match (NamesOf(sh, b, strings, xs[1..]), NameAt(strings, WordAt(b, xs[0] + sh.nameAt)),
        NameAt(strings, WordAt(b, at + sh.nameAt)))
      case (Some(names), Some(first), Some(name)) => assert [first] + (names + [name]) == [first] + names + [name];
      case _ =>
    }
  }

  lemma {:induction false} NamesSpoiled(sh: Shape, b: seq<byte>, strings: seq<byte>, xs: seq<nat>, j: nat)
    requires Sized(sh) && Within(sh, b, xs) && j < |xs| && NameAt(strings, WordAt(b, xs[j] + sh.nameAt)).None?
    ensures NamesOf(sh, b, strings, xs).None?
  {
    hide NameAt, WordAt;
    if j > 0 { NamesSpoiled(sh, b, strings, xs[1..], j - 1); }
  }

  lemma NextName(sh: Shape, b: seq<byte>, strings: seq<byte>, xs: seq<nat>, names: seq<Name>, at: nat)
    requires Sized(sh) && Within(sh, b, xs) && at + sh.aux <= |b| && NamesOf(sh, b, strings, xs) == Some(names)
    ensures var name := NameAt(strings, WordAt(b, at + sh.nameAt));
      && Within(sh, b, xs + [at])
      && (name.Some? ==> NamesOf(sh, b, strings, xs + [at]) == Some(names + [name.value]))
      && (name.None? ==> forall ys :: xs + [at] <= ys && Within(sh, b, ys) ==> NamesOf(sh, b, strings, ys).None?)
  {
    hide NameAt, WordAt, NamesOf;
    NamesLast(sh, b, strings, xs, at);
    if NameAt(strings, WordAt(b, at + sh.nameAt)).None? {
      forall ys | xs + [at] <= ys && Within(sh, b, ys) ensures NamesOf(sh, b, strings, ys).None? {
        assert ys[|xs|] == (xs + [at])[|xs|] == at;
        NamesSpoiled(sh, b, strings, ys, |xs|);
      }
    }
  }

  // ---- the loop over headers ------------------------------------------------------------------

  /** What the loop has read so far, and what it still has to read. */
  ghost predicate Reading(sh: Shape, b: seq<byte>, done: seq<Node>, pos: nat, total: nat, left: nat,
                          headers: seq<nat>, auxes: seq<nat>)
    requires Sized(sh)
  {
    && AllInSection(sh, b, done)
    && headers == Offsets(done) && auxes == AllAuxes(done)
    && Walk(sh, b, 0, 0, MAX_RECORDS) == Prepend(done, Walk(sh, b, pos, total, left))
  }

  /** The header at `pos` as the loop reads it: how many auxiliary entries it has, and where. */
  function HeaderAt(sh: Shape, b: seq<byte>, pos: nat, total: nat): (r: Option<(nat, nat)>)
    requires Sized(sh)
    ensures r.Some? ==> r.value.0 > 0
  {
    if pos + sh.header > |b| || HalfAt(b, pos) != 1 then None
    else
      var count, delta := HalfAt(b, pos + sh.countAt), WordAt(b, pos + sh.auxAt);
      if count == 0 || total + count > MAX_RECORDS || delta < sh.header then None else Some((count, pos + delta))
  }

  /** The header with its auxiliary entries: `None` when one of them is refused. */
  function NodeAt(sh: Shape, b: seq<byte>, pos: nat, total: nat): Option<Node>
    requires Sized(sh)
  {
    match HeaderAt(sh, b, pos, total)
    case None => None
    case Some((count, start)) =>
      match WalkAuxes(sh, b, start, count)
      case None => None
      case Some(xs) => Some(Node(pos, xs))
  }

  lemma NodeIsInSection(sh: Shape, b: seq<byte>, pos: nat, total: nat)
    requires Sized(sh) && NodeAt(sh, b, pos, total).Some?
    ensures var n := NodeAt(sh, b, pos, total).value;
      n.at == pos && InSection(sh, b, n) && |n.auxes| == HalfAt(b, pos + sh.countAt)
  {
    hide FromLe;
    var count, delta := HalfAt(b, pos + sh.countAt), WordAt(b, pos + sh.auxAt);
    WalkedAuxes(sh, b, pos + delta, count);
    WalkedWithin(sh, b, pos + delta, count);
  }

  /** The walk, one header at a time. */
  lemma WalkStep(sh: Shape, b: seq<byte>, pos: nat, total: nat, left: nat)
    requires Sized(sh) && left > 0
    ensures match NodeAt(sh, b, pos, total)
      case None => Walk(sh, b, pos, total, left).None?
      case Some(n) =>
        && pos + sh.header <= |b|
        && var next := WordAt(b, pos + sh.nextAt);
          Walk(sh, b, pos, total, left) ==
            if next == 0 then Some([n])
            else if next < sh.header then None
            else Prepend([n], Walk(sh, b, pos + next, total + |n.auxes|, left - 1))
  {
    hide FromLe, WalkAuxes;
    if NodeAt(sh, b, pos, total).Some? { NodeIsInSection(sh, b, pos, total); }
  }

  lemma NoWalkNoLayout(sh: Shape, b: seq<byte>)
    requires Sized(sh) && Walk(sh, b, 0, 0, MAX_RECORDS).None?
    ensures forall ns :: !Laid(sh, b, ns)
  {
    forall ns ensures !Laid(sh, b, ns) {
      if IsChain(sh, b, 0, 0, MAX_RECORDS, ns) { ChainWalks(sh, b, 0, 0, MAX_RECORDS, ns); }
    }
  }

  lemma {:induction false} OffsetsLast(ns: seq<Node>, n: Node)
    ensures Offsets(ns + [n]) == Offsets(ns) + [n.at] && AllAuxes(ns + [n]) == AllAuxes(ns) + n.auxes
  {
    if ns == [] {
      assert ns + [n] == [n] && [n][1..] == [];
      assert n.auxes + [] == n.auxes && [] + n.auxes == n.auxes;
      assert AllAuxes([n]) == n.auxes + AllAuxes([n][1..]);
    } else {
      OffsetsLast(ns[1..], n);
      assert (ns + [n])[1..] == ns[1..] + [n];
      assert ns[0].auxes + (AllAuxes(ns[1..]) + n.auxes) == ns[0].auxes + AllAuxes(ns[1..]) + n.auxes;
    }
  }

  /** A header that is accepted, with its auxiliary entries, and what follows it. */
  lemma GoodHeader(sh: Shape, b: seq<byte>, done: seq<Node>, pos: nat, total: nat, left: nat, headers: seq<nat>,
                   auxes: seq<nat>)
    requires Sized(sh) && Reading(sh, b, done, pos, total, left, headers, auxes) && left > 0
    requires NodeAt(sh, b, pos, total).Some?
    ensures var n := NodeAt(sh, b, pos, total).value;
      && InSection(sh, b, n) && AllInSection(sh, b, done + [n])
      && headers + [pos] == Offsets(done + [n]) && auxes + n.auxes == AllAuxes(done + [n])
  {
    hide FromLe, WalkAuxes, Walk, InSection;
    NodeIsInSection(sh, b, pos, total);
    OffsetsLast(done, NodeAt(sh, b, pos, total).value);
  }

  lemma PrependTwice<T>(a: seq<T>, x: T, rest: Option<seq<T>>)
    ensures Prepend(a, Prepend([x], rest)) == Prepend(a + [x], rest)
  {
    if rest.Some? { assert a + ([x] + rest.value) == a + [x] + rest.value; }
  }

  lemma GoodWalk(sh: Shape, b: seq<byte>, done: seq<Node>, pos: nat, total: nat, left: nat, headers: seq<nat>,
                 auxes: seq<nat>)
    requires Sized(sh) && Reading(sh, b, done, pos, total, left, headers, auxes) && left > 0
    requires NodeAt(sh, b, pos, total).Some?
    ensures var n := NodeAt(sh, b, pos, total).value; var W := Walk(sh, b, 0, 0, MAX_RECORDS);
      && pos + sh.header <= |b|
      && var next := WordAt(b, pos + sh.nextAt);
      && (W.Some? ==> done + [n] <= W.value)
      && (next == 0 ==> W == Some(done + [n]))
      && (0 < next < sh.header ==> W.None?)
      && (next >= sh.header ==> W == Prepend(done + [n], Walk(sh, b, pos + next, total + |n.auxes|, left - 1)))
  {
    hide WordAt, HalfAt, WalkAuxes, Walk, InSection, NodeAt, Prepend, AllInSection, AllAuxes, Offsets;
    WalkStep(sh, b, pos, total, left);
    var n, next := NodeAt(sh, b, pos, total).value, WordAt(b, pos + sh.nextAt);
    Combined(Walk(sh, b, 0, 0, MAX_RECORDS), done, n, Walk(sh, b, pos + next, total + |n.auxes|, left - 1), next,
      sh.header);
  }

  lemma Combined<T>(whole: Option<seq<T>>, done: seq<T>, x: T, rest: Option<seq<T>>, next: nat, header: nat)
    requires whole == Prepend(done, if next == 0 then Some([x]) else if next < header then None else Prepend([x], rest))
    requires header > 0
    ensures whole.Some? ==> done + [x] <= whole.value
    ensures next == 0 ==> whole == Some(done + [x])
    ensures 0 < next < header ==> whole.None?
    ensures next >= header ==> whole == Prepend(done + [x], rest)
  {
    PrependTwice(done, x, rest);
  }

  lemma BadHeader(sh: Shape, b: seq<byte>, done: seq<Node>, pos: nat, total: nat, left: nat, headers: seq<nat>,
                  auxes: seq<nat>)
    requires Sized(sh) && Reading(sh, b, done, pos, total, left, headers, auxes) && NodeAt(sh, b, pos, total).None?
    ensures forall ns :: !Laid(sh, b, ns)
  {
    assert Walk(sh, b, pos, total, left).None? by {
      if left > 0 { WalkStep(sh, b, pos, total, left); }
    }
    hide Walk;
    NoWalkNoLayout(sh, b);
  }

  /** The loop has read a whole chain: it is the one layout there is, or there is none. */
  lemma Finished(sh: Shape, b: seq<byte>, ns: seq<Node>)
    requires Sized(sh) && Walk(sh, b, 0, 0, MAX_RECORDS) == Some(ns)
    ensures Ascending(Offsets(ns)) && AllInSection(sh, b, ns)
    ensures forall ms :: Laid(sh, b, ms) <==> ms == ns && IsPlaced(sh, ns)
  {
    hide IsChain, IsPlaced, Sized;
    WalkedChain(sh, b, 0, 0, MAX_RECORDS);
    ChainAscends(sh, b, 0, 0, MAX_RECORDS, ns);
    ChainInSection(sh, b, 0, 0, MAX_RECORDS, ns);
    forall ms ensures Laid(sh, b, ms) <==> ms == ns && IsPlaced(sh, ns) {
      if Laid(sh, b, ms) { ChainWalks(sh, b, 0, 0, MAX_RECORDS, ms); }
    }
  }

  // ---- definitions ------------------------------------------------------------------------------

  lemma {:induction false} DefinitionsLast(b: seq<byte>, strings: seq<byte>, ns: seq<Node>, n: Node)
    requires AllInSection(VERDEF, b, ns + [n]) && AllInSection(VERDEF, b, ns) && InSection(VERDEF, b, n)
    ensures DefinitionsAt(b, strings, ns + [n]) ==
      match (DefinitionsAt(b, strings, ns), DefinitionAt(b, strings, n))
      case (Some(ds), Some(d)) => Some(ds + [d])
      case _ => None
  {
    hide DefinitionAt, InSection;
    if ns == [] {
      assert ns + [n] == [n] && [n][1..] == [];
      if DefinitionAt(b, strings, n).Some? {
        var d := DefinitionAt(b, strings, n).value;
        assert [d] + [] == [] + [d];
      }
    } else {
      DefinitionsLast(b, strings, ns[1..], n);
      assert (ns + [n])[1..] == ns[1..] + [n] && (ns + [n])[0] == ns[0];
      match (DefinitionAt(b, strings, ns[0]), DefinitionsAt(b, strings, ns[1..]), DefinitionAt(b, strings, n))
      case (Some(d), Some(ds), Some(e)) => assert [d] + (ds + [e]) == [d] + ds + [e];
      case _ =>
    }
  }

  lemma {:induction false} VersionsLast(ds: seq<Definition>, d: Definition)
    ensures Versions(ds + [d]) == Versions(ds) + if !d.base && d.names != [] then {d.names[0]} else {}
  {
    if ds == [] {
      assert ds + [d] == [d] && [d][1..] == [];
    } else {
      VersionsLast(ds[1..], d);
      assert (ds + [d])[1..] == ds[1..] + [d];
      assert (ds + [d])[0] == ds[0];
    }
  }

  /** A definition that cannot be read spoils every chain it is part of. */
  lemma {:induction false} SpoiledDefinitions(b: seq<byte>, strings: seq<byte>, ns: seq<Node>, i: nat)
    requires AllInSection(VERDEF, b, ns) && i < |ns| && DefinitionAt(b, strings, ns[i]).None?
    ensures DefinitionsAt(b, strings, ns).None?
  {
    hide DefinitionAt, InSection;
    if i > 0 { SpoiledDefinitions(b, strings, ns[1..], i - 1); }
  }

  /** The section is not one of definitions, whatever it is read as. */
  ghost predicate NoDefinitions(b: seq<byte>, strings: seq<byte>) {
    forall ns, ds :: !SaysDefinitions(b, strings, ns, ds)
  }

  lemma Starting(sh: Shape, b: seq<byte>)
    requires Sized(sh)
    ensures Reading(sh, b, [], 0, 0, MAX_RECORDS, [], [])
  {
    hide Walk;
    var w := Walk(sh, b, 0, 0, MAX_RECORDS);
    if w.Some? { assert [] + w.value == w.value; }
  }

  lemma NoneLeft(sh: Shape, b: seq<byte>, done: seq<Node>, pos: nat, total: nat, headers: seq<nat>, auxes: seq<nat>)
    requires Sized(sh) && Reading(sh, b, done, pos, total, 0, headers, auxes)
    ensures forall ns :: !Laid(sh, b, ns)
  {
    NoWalkNoLayout(sh, b);
  }

  /** A name that cannot be read spoils the definition and with it the section. */
  lemma UnreadableDefinition(b: seq<byte>, strings: seq<byte>, done: seq<Node>, n: Node)
    requires InSection(VERDEF, b, n) && DefinitionAt(b, strings, n).None?
    requires var w := Walk(VERDEF, b, 0, 0, MAX_RECORDS); w.Some? ==> done + [n] <= w.value
    ensures NoDefinitions(b, strings)
  {
    hide DefinitionAt, InSection, Walk, Laid, DefinitionsAt;
    var w := Walk(VERDEF, b, 0, 0, MAX_RECORDS);
    forall ns, ds ensures !SaysDefinitions(b, strings, ns, ds) {
      if Laid(VERDEF, b, ns) && AllInSection(VERDEF, b, ns) {
        LayoutWalks(VERDEF, b, ns);
        assert ns[|done|] == (done + [n])[|done|] == n;
        SpoiledDefinitions(b, strings, ns, |done|);
      }
    }
  }

  lemma LayoutWalks(sh: Shape, b: seq<byte>, ns: seq<Node>)
    requires Sized(sh) && Laid(sh, b, ns)
    ensures Walk(sh, b, 0, 0, MAX_RECORDS) == Some(ns)
  {
    ChainWalks(sh, b, 0, 0, MAX_RECORDS, ns);
  }

  /** The node just read ends the chain: the section says what has been read, if it is placed. */
  lemma DefinitionsEnd(b: seq<byte>, strings: seq<byte>, ns: seq<Node>, ds: seq<Definition>)
    requires Walk(VERDEF, b, 0, 0, MAX_RECORDS) == Some(ns) && AllInSection(VERDEF, b, ns)
    requires DefinitionsAt(b, strings, ns) == Some(ds)
    ensures Ascending(Offsets(ns))
    ensures IsPlaced(VERDEF, ns) ==> SaysDefinitions(b, strings, ns, ds)
    ensures !IsPlaced(VERDEF, ns) ==> NoDefinitions(b, strings)
  {
    hide Walk, Laid, IsPlaced, DefinitionsAt;
    Finished(VERDEF, b, ns);
  }

  lemma NamesMakeDefinition(b: seq<byte>, strings: seq<byte>, n: Node)
    requires InSection(VERDEF, b, n)
    ensures match NamesOf(VERDEF, b, strings, n.auxes)
      case None => DefinitionAt(b, strings, n) == None
      case Some(names) => names != [] && DefinitionAt(b, strings, n) == Some(Definition(IsBase(b, n.at), names))
  {
  }

  /** One header with its names, as long as the record count allows it. */
  method ReadNode(sh: Shape, b: seq<byte>, strings: seq<byte>, pos: nat, total: nat)
    returns (r: Option<(seq<nat>, seq<Name>)>)
    requires Sized(sh)
    ensures match NodeAt(sh, b, pos, total)
      case None => r.None?
      case Some(n) =>
        && InSection(sh, b, n) && n.at == pos
        && r == if NamesOf(sh, b, strings, n.auxes).None? then None
            else Some((n.auxes, NamesOf(sh, b, strings, n.auxes).value))
  {
    hide HeaderAt, NamesOf, WalkAuxes, Sized;
    var header := HeaderAt(sh, b, pos, total);
    if header.None? { return None; }
    if NodeAt(sh, b, pos, total).Some? { NodeIsInSection(sh, b, pos, total); }
    r := ReadAuxes(sh, b, strings, header.value.1, header.value.0);
  }

  lemma RefusedDefinition(b: seq<byte>, strings: seq<byte>, done: seq<Node>, pos: nat, total: nat, left: nat,
                          headers: seq<nat>, auxes: seq<nat>)
    requires Reading(VERDEF, b, done, pos, total, left, headers, auxes) && left > 0
    requires match NodeAt(VERDEF, b, pos, total)
      case None => true
      case Some(n) => InSection(VERDEF, b, n) && NamesOf(VERDEF, b, strings, n.auxes).None?
    ensures NoDefinitions(b, strings)
  {
    hide NodeAt, NamesOf, Reading, InSection, Walk, Laid;
    if NodeAt(VERDEF, b, pos, total).None? {
      BadHeader(VERDEF, b, done, pos, total, left, headers, auxes);
    } else {
      var n := NodeAt(VERDEF, b, pos, total).value;
      GoodWalk(VERDEF, b, done, pos, total, left, headers, auxes);
      NamesMakeDefinition(b, strings, n);
      UnreadableDefinition(b, strings, done, n);
    }
  }

  lemma AcceptedDefinition(b: seq<byte>, strings: seq<byte>, done: seq<Node>, ds: seq<Definition>, n: Node,
                           names: seq<Name>)
    requires AllInSection(VERDEF, b, done) && AllInSection(VERDEF, b, done + [n]) && InSection(VERDEF, b, n)
    requires DefinitionsAt(b, strings, done) == Some(ds) && NamesOf(VERDEF, b, strings, n.auxes) == Some(names)
    ensures names != []
    ensures var d := Definition(IsBase(b, n.at), names);
      && DefinitionsAt(b, strings, done + [n]) == Some(ds + [d])
      && Versions(ds + [d]) == Versions(ds) + if d.base then {} else {names[0]}
  {
    hide NamesOf, DefinitionAt, DefinitionsAt, Versions;
    NamesMakeDefinition(b, strings, n);
    DefinitionsLast(b, strings, done, n);
    VersionsLast(ds, Definition(IsBase(b, n.at), names));
  }

  /** What the loop over definitions has read so far. */
  ghost predicate ReadingDefinitions(b: seq<byte>, strings: seq<byte>, done: seq<Node>, ds: seq<Definition>, pos: nat,
                                     total: nat, left: nat, headers: seq<nat>, auxes: seq<nat>, out: set<Name>)
  {
    && Reading(VERDEF, b, done, pos, total, left, headers, auxes)
    && AllInSection(VERDEF, b, done)
    && DefinitionsAt(b, strings, done) == Some(ds) && out == Versions(ds)
  }

  /** The same after one more definition. */
  lemma GoingOn(b: seq<byte>, strings: seq<byte>, done: seq<Node>, ds: seq<Definition>, pos: nat, total: nat, left: nat,
                headers: seq<nat>, auxes: seq<nat>, out: set<Name>, n: Node, names: seq<Name>, next: nat,
                  newOut: set<Name>)
    requires ReadingDefinitions(b, strings, done, ds, pos, total, left, headers, auxes, out) && left > 0
    requires NodeAt(VERDEF, b, pos, total) == Some(n) && InSection(VERDEF, b, n) && n.at == pos
    requires NamesOf(VERDEF, b, strings, n.auxes) == Some(names) && names != []
    requires next == WordAt(b, pos + VERDEF.nextAt) && newOut == if IsBase(b, pos) then out else out + {names[0]}
    ensures var newDone, newDs := done + [n], ds + [Definition(IsBase(b, pos), names)];
      && (next == 0 ==> EndOfDefinitions(b, strings, newDone, newDs, headers + [pos], auxes + n.auxes, newOut))
      && (0 < next < VERDEF.header ==> NoDefinitions(b, strings))
      && (next >= VERDEF.header ==>
            ReadingDefinitions(b, strings, newDone, newDs, pos + next, total + |n.auxes|, left - 1,
                               headers + [pos], auxes + n.auxes, newOut))
  {
    hide ReadingDefinitions, NodeAt, InSection, NamesOf, WordAt, EndOfDefinitions, NoDefinitions, IsBase;
    NextDefinition(b, strings, done, ds, pos, total, left, headers, auxes, out, n, names);
  }

  /** One more definition: it may be the last, lead on, or lead nowhere. */
  lemma NextDefinition(b: seq<byte>, strings: seq<byte>, done: seq<Node>, ds: seq<Definition>, pos: nat, total: nat,
                       left: nat, headers: seq<nat>, auxes: seq<nat>, out: set<Name>, n: Node, names: seq<Name>)
    requires ReadingDefinitions(b, strings, done, ds, pos, total, left, headers, auxes, out) && left > 0
    requires NodeAt(VERDEF, b, pos, total) == Some(n) && InSection(VERDEF, b, n) && n.at == pos
    requires NamesOf(VERDEF, b, strings, n.auxes) == Some(names)
    ensures names != []
    ensures var next := WordAt(b, pos + VERDEF.nextAt); var base := IsBase(b, pos);
      var newOut := if base then out else out + {names[0]};
      var newDone, newDs := done + [n], ds + [Definition(base, names)];
      && (next == 0 ==> EndOfDefinitions(b, strings, newDone, newDs, headers + [pos], auxes + n.auxes, newOut))
      && (0 < next < VERDEF.header ==> NoDefinitions(b, strings))
      && (next >= VERDEF.header ==>
            ReadingDefinitions(b, strings, newDone, newDs, pos + next, total + |n.auxes|, left - 1,
                               headers + [pos], auxes + n.auxes, newOut))
  {
    hide Reading, Laid, NamesOf, NodeAt, Walk, WordAt, Within, Offsets, AllAuxes, Versions, DefinitionAt, DefinitionsAt;
    hide AllInSection, Prepend, NoDefinitions, SaysDefinitions, IsPlaced, HalfAt;
    GoodHeader(VERDEF, b, done, pos, total, left, headers, auxes);
    GoodWalk(VERDEF, b, done, pos, total, left, headers, auxes);
    AcceptedDefinition(b, strings, done, ds, n, names);
    var next := WordAt(b, pos + VERDEF.nextAt);
    if 0 < next < VERDEF.header {
      NoWalkNoLayout(VERDEF, b);
      NoLayoutNoDefinitions(b, strings);
    } else if next >= VERDEF.header {
      StillReading(VERDEF, b, done + [n], pos + next, total + |n.auxes|, left - 1, headers + [pos], auxes + n.auxes);
    }
  }

  ghost predicate EndOfDefinitions(b: seq<byte>, strings: seq<byte>, ns: seq<Node>, ds: seq<Definition>,
                                   headers: seq<nat>, auxes: seq<nat>, out: set<Name>)
  {
    && Walk(VERDEF, b, 0, 0, MAX_RECORDS) == Some(ns) && AllInSection(VERDEF, b, ns)
    && DefinitionsAt(b, strings, ns) == Some(ds) && out == Versions(ds)
    && headers == Offsets(ns) && auxes == AllAuxes(ns)
  }

  /** The section says definitions whose versions are `out`. */
  ghost predicate Defines(b: seq<byte>, strings: seq<byte>, out: set<Name>) {
    exists ns, ds :: SaysDefinitions(b, strings, ns, ds) && out == Versions(ds)
  }

  /** The chain has ended: what it says stands unless an auxiliary entry lies over a header. */
  method FinishDefinitions(ghost b: seq<byte>, ghost strings: seq<byte>, ghost ns: seq<Node>, ghost ds: seq<Definition>,
                           headers: seq<nat>, auxes: seq<nat>, out: set<Name>) returns (r: Option<set<Name>>)
    requires EndOfDefinitions(b, strings, ns, ds, headers, auxes, out)
    ensures r.Some? ==> Defines(b, strings, r.value)
    ensures r.None? ==> NoDefinitions(b, strings)
  {
    hide Walk, AllInSection, DefinitionsAt, Versions, NoDefinitions, SaysDefinitions, Placed, Ascending;
    DefinitionsEnd(b, strings, ns, ds);
    var placed := CheckPlacement(headers, VERDEF.header, auxes, VERDEF.aux);
    if placed { return Some(out); } else { return None; }
  }

  datatype Verdict = Refused | Ended | GoesOn

  /** One turn of the loop over definitions. */
  method OneDefinition(defs: seq<byte>, strings: seq<byte>, pos: nat, total: nat, headers: seq<nat>, auxes: seq<nat>,
                       out: set<Name>, ghost left: nat, ghost done: seq<Node>, ghost ds: seq<Definition>)
    returns (verdict: Verdict, newPos: nat, newTotal: nat, newHeaders: seq<nat>, newAuxes: seq<nat>, newOut: set<Name>,
             ghost newDone: seq<Node>, ghost newDs: seq<Definition>)
    requires ReadingDefinitions(defs, strings, done, ds, pos, total, left, headers, auxes, out) && left > 0
    ensures verdict.Refused? ==> NoDefinitions(defs, strings)
    ensures verdict.Ended? ==> EndOfDefinitions(defs, strings, newDone, newDs, newHeaders, newAuxes, newOut)
    ensures verdict.GoesOn? ==>
      ReadingDefinitions(defs, strings, newDone, newDs, newPos, newTotal, left - 1, newHeaders, newAuxes, newOut)
  {
    hide IsBase, NodeAt, ReadingDefinitions, NamesOf, HalfAt, WordAt, NoDefinitions, EndOfDefinitions, InSection;
    newPos, newTotal, newHeaders, newAuxes, newOut := pos, total, headers, auxes, out;
    newDone, newDs := done, ds;
    var read := ReadNode(VERDEF, defs, strings, pos, total);
    if read.None? {
      StoppedDefinitions(defs, strings, done, ds, pos, total, left, headers, auxes, out);
      verdict := Refused;
      return;
    }
    ghost var n := NodeAt(VERDEF, defs, pos, total).value;
    var (xs, names) := read.value;
    FirstName(defs, strings, n, names);
    var base, next := IsBase(defs, pos), WordAt(defs, pos + VERDEF.nextAt);
    newOut := if base then out else out + {names[0]};
    GoingOn(defs, strings, done, ds, pos, total, left, headers, auxes, out, n, names, next, newOut);
    newDone, newDs := done + [n], ds + [Definition(base, names)];
    newPos, newTotal, newHeaders, newAuxes := pos + next, total + |xs|, headers + [pos], auxes + xs;
    verdict := if next == 0 then Ended else if next < VERDEF.header then Refused else GoesOn;
  }

  /** `parse_verdef`: the versions of the definitions that the section lays out, however it does. */
  method ParseVerdef(defs: seq<byte>, strings: seq<byte>) returns (r: Option<set<Name>>)
    ensures defs == [] ==> r == Some({})
    ensures defs != [] && r.Some? ==> Defines(defs, strings, r.value)
    ensures defs != [] && r.None? ==> NoDefinitions(defs, strings)
  {
    if defs == [] { return Some({}); }
    hide Defines, ReadingDefinitions, SaysDefinitions, NoDefinitions, EndOfDefinitions, NodeAt, InSection, NamesOf;
    var pos: nat, total: nat, headers: seq<nat>, auxes: seq<nat>, out: set<Name> := 0, 0, [], [], {};
    ghost var done: seq<Node>, ds: seq<Definition>, left: nat := [], [], MAX_RECORDS;
    StartingDefinitions(defs, strings, done, ds, headers, auxes, out);
    for i := 0 to MAX_RECORDS
      invariant ReadingDefinitions(defs, strings, done, ds, pos, total, left, headers, auxes, out)
      invariant left == MAX_RECORDS - i
    {
      var verdict;
      verdict, pos, total, headers, auxes, out, done, ds :=
        OneDefinition(defs, strings, pos, total, headers, auxes, out, left, done, ds);
      left := left - 1;
      if verdict.Refused? { return None; }
      if verdict.Ended? {
        r := FinishDefinitions(defs, strings, done, ds, headers, auxes, out);
        return;
      }
    }
    StoppedDefinitions(defs, strings, done, ds, pos, total, left, headers, auxes, out);
    return None;
  }

  lemma FirstName(b: seq<byte>, strings: seq<byte>, n: Node, names: seq<Name>)
    requires InSection(VERDEF, b, n) && NamesOf(VERDEF, b, strings, n.auxes) == Some(names)
    ensures names != [] && n.at + VERDEF.header <= |b|
  {
    NamesMakeDefinition(b, strings, n);
  }

  lemma StartingDefinitions(b: seq<byte>, strings: seq<byte>, done: seq<Node>, ds: seq<Definition>, headers: seq<nat>,
                            auxes: seq<nat>, out: set<Name>)
    requires done == [] && ds == [] && headers == [] && auxes == [] && out == {}
    ensures ReadingDefinitions(b, strings, done, ds, 0, 0, MAX_RECORDS, headers, auxes, out)
  {
    Starting(VERDEF, b);
    NothingDefined(b, strings);
  }

  /** No header is left that the record count allows, or the next one is refused. */
  lemma StoppedDefinitions(b: seq<byte>, strings: seq<byte>, done: seq<Node>, ds: seq<Definition>, pos: nat, total: nat,
                           left: nat, headers: seq<nat>, auxes: seq<nat>, out: set<Name>)
    requires ReadingDefinitions(b, strings, done, ds, pos, total, left, headers, auxes, out)
    requires left > 0 ==>
      match NodeAt(VERDEF, b, pos, total)
      case None => true
      case Some(n) => InSection(VERDEF, b, n) && NamesOf(VERDEF, b, strings, n.auxes).None?
    ensures NoDefinitions(b, strings)
  {
    hide NodeAt, InSection, NamesOf, Walk, Laid;
    if left > 0 {
      RefusedDefinition(b, strings, done, pos, total, left, headers, auxes);
    } else {
      NoneLeft(VERDEF, b, done, pos, total, headers, auxes);
      NoLayoutNoDefinitions(b, strings);
    }
  }

  lemma NoLayoutNoDefinitions(b: seq<byte>, strings: seq<byte>)
    requires forall ns :: !Laid(VERDEF, b, ns)
    ensures NoDefinitions(b, strings)
  {
  }

  lemma NothingDefined(b: seq<byte>, strings: seq<byte>)
    ensures AllInSection(VERDEF, b, []) && DefinitionsAt(b, strings, []) == Some([]) && Versions([]) == {}
  {
  }

  lemma StillReading(sh: Shape, b: seq<byte>, done: seq<Node>, pos: nat, total: nat, left: nat, headers: seq<nat>,
                     auxes: seq<nat>)
    requires Sized(sh) && AllInSection(sh, b, done) && headers == Offsets(done) && auxes == AllAuxes(done)
    requires Walk(sh, b, 0, 0, MAX_RECORDS) == Prepend(done, Walk(sh, b, pos, total, left))
    ensures Reading(sh, b, done, pos, total, left, headers, auxes)
  {
  }

  // ---- requirements --------------------------------------------------------------------------------

  lemma {:induction false} NeedsLast(b: seq<byte>, strings: seq<byte>, needed: seq<Name>, ns: seq<Node>, n: Node)
    requires AllInSection(VERNEED, b, ns + [n]) && AllInSection(VERNEED, b, ns) && InSection(VERNEED, b, n)
    ensures NeedsAt(b, strings, needed, ns + [n]) ==
      match (NeedsAt(b, strings, needed, ns), NeedAt(b, strings, needed, n))
      case (Some(ds), Some(d)) => Some(ds + [d])
      case _ => None
  {
    hide NeedAt, InSection;
    if ns == [] {
      assert ns + [n] == [n] && [n][1..] == [];
      if NeedAt(b, strings, needed, n).Some? {
        var d := NeedAt(b, strings, needed, n).value;
        assert [d] + [] == [] + [d];
      }
    } else {
      NeedsLast(b, strings, needed, ns[1..], n);
      assert (ns + [n])[1..] == ns[1..] + [n] && (ns + [n])[0] == ns[0];
      match (NeedAt(b, strings, needed, ns[0]), NeedsAt(b, strings, needed, ns[1..]), NeedAt(b, strings, needed, n))
      case (Some(d), Some(ds), Some(e)) => assert [d] + (ds + [e]) == [d] + ds + [e];
      case _ =>
    }
  }

  lemma RequiredLast(ds: seq<Need>, d: Need)
    ensures Required(ds + [d]) == Add(Required(ds), d)
  {
    assert (ds + [d])[..|ds|] == ds;
  }

  lemma {:induction false} SpoiledNeeds(b: seq<byte>, strings: seq<byte>, needed: seq<Name>, ns: seq<Node>, i: nat)
    requires AllInSection(VERNEED, b, ns) && i < |ns| && NeedAt(b, strings, needed, ns[i]).None?
    ensures NeedsAt(b, strings, needed, ns).None?
  {
    hide NeedAt, InSection;
    if i > 0 { SpoiledNeeds(b, strings, needed, ns[1..], i - 1); }
  }

  /** The section is not one of requirements on the dependencies in `needed`. */
  ghost predicate NoNeeds(b: seq<byte>, strings: seq<byte>, needed: seq<Name>) {
    forall ns, ds :: !SaysNeeds(b, strings, needed, ns, ds)
  }

  lemma UnreadableNeed(b: seq<byte>, strings: seq<byte>, needed: seq<Name>, done: seq<Node>, n: Node)
    requires InSection(VERNEED, b, n) && NeedAt(b, strings, needed, n).None?
    requires var w := Walk(VERNEED, b, 0, 0, MAX_RECORDS); w.Some? ==> done + [n] <= w.value
    ensures NoNeeds(b, strings, needed)
  {
    hide NeedAt, InSection, Walk, Laid, NeedsAt;
    var w := Walk(VERNEED, b, 0, 0, MAX_RECORDS);
    forall ns, ds ensures !SaysNeeds(b, strings, needed, ns, ds) {
      if Laid(VERNEED, b, ns) && AllInSection(VERNEED, b, ns) {
        LayoutWalks(VERNEED, b, ns);
        assert ns[|done|] == (done + [n])[|done|] == n;
        SpoiledNeeds(b, strings, needed, ns, |done|);
      }
    }
  }

  lemma NeedsEnd(b: seq<byte>, strings: seq<byte>, needed: seq<Name>, ns: seq<Node>, ds: seq<Need>)
    requires Walk(VERNEED, b, 0, 0, MAX_RECORDS) == Some(ns) && AllInSection(VERNEED, b, ns)
    requires NeedsAt(b, strings, needed, ns) == Some(ds)
    ensures Ascending(Offsets(ns))
    ensures IsPlaced(VERNEED, ns) ==> SaysNeeds(b, strings, needed, ns, ds)
    ensures !IsPlaced(VERNEED, ns) ==> NoNeeds(b, strings, needed)
  {
    hide Walk, Laid, IsPlaced, NeedsAt;
    Finished(VERNEED, b, ns);
  }

  lemma NoLayoutNoNeeds(b: seq<byte>, strings: seq<byte>, needed: seq<Name>)
    requires forall ns :: !Laid(VERNEED, b, ns)
    ensures NoNeeds(b, strings, needed)
  {
  }

  /** What the loop over requirements has read so far. */
  ghost predicate ReadingNeeds(b: seq<byte>, strings: seq<byte>, needed: seq<Name>, done: seq<Node>, ds: seq<Need>,
                               pos: nat, total: nat, left: nat, headers: seq<nat>, auxes: seq<nat>, out: map<Name,
                                 seq<Requirement>>)
  {
    && Reading(VERNEED, b, done, pos, total, left, headers, auxes)
    && AllInSection(VERNEED, b, done)
    && NeedsAt(b, strings, needed, done) == Some(ds) && out == Required(ds)
  }

  ghost predicate EndOfNeeds(b: seq<byte>, strings: seq<byte>, needed: seq<Name>, ns: seq<Node>, ds: seq<Need>,
                             headers: seq<nat>, auxes: seq<nat>, out: map<Name, seq<Requirement>>)
  {
    && Walk(VERNEED, b, 0, 0, MAX_RECORDS) == Some(ns) && AllInSection(VERNEED, b, ns)
    && NeedsAt(b, strings, needed, ns) == Some(ds) && out == Required(ds)
    && headers == Offsets(ns) && auxes == AllAuxes(ns)
  }

  lemma StartingNeeds(b: seq<byte>, strings: seq<byte>, needed: seq<Name>, done: seq<Node>, ds: seq<Need>,
                      headers: seq<nat>, auxes: seq<nat>, out: map<Name, seq<Requirement>>)
    requires done == [] && ds == [] && headers == [] && auxes == [] && out == map[]
    ensures ReadingNeeds(b, strings, needed, done, ds, 0, 0, MAX_RECORDS, headers, auxes, out)
  {
    Starting(VERNEED, b);
  }

  lemma StoppedNeeds(b: seq<byte>, strings: seq<byte>, needed: seq<Name>, done: seq<Node>, ds: seq<Need>, pos: nat,
                     total: nat, left: nat, headers: seq<nat>, auxes: seq<nat>, out: map<Name, seq<Requirement>>)
    requires ReadingNeeds(b, strings, needed, done, ds, pos, total, left, headers, auxes, out)
    requires left > 0 ==>
      match NodeAt(VERNEED, b, pos, total)
      case None => true
      case Some(n) => InSection(VERNEED, b, n) && NeedAt(b, strings, needed, n).None?
    ensures NoNeeds(b, strings, needed)
  {
    hide NodeAt, InSection, NeedAt, Walk, Laid, Reading, NeedsAt, Required, AllInSection;
    if left == 0 {
      NoneLeft(VERNEED, b, done, pos, total, headers, auxes);
      NoLayoutNoNeeds(b, strings, needed);
    } else if NodeAt(VERNEED, b, pos, total).None? {
      BadHeader(VERNEED, b, done, pos, total, left, headers, auxes);
      NoLayoutNoNeeds(b, strings, needed);
    } else {
      GoodWalk(VERNEED, b, done, pos, total, left, headers, auxes);
      UnreadableNeed(b, strings, needed, done, NodeAt(VERNEED, b, pos, total).value);
    }
  }

  /** One more header with its requirements. */
  lemma NextNeed(b: seq<byte>, strings: seq<byte>, needed: seq<Name>, done: seq<Node>, ds: seq<Need>, pos: nat,
                 total: nat, left: nat, headers: seq<nat>, auxes: seq<nat>, out: map<Name, seq<Requirement>>, n: Node,
                   d: Need)
    requires ReadingNeeds(b, strings, needed, done, ds, pos, total, left, headers, auxes, out) && left > 0
    requires NodeAt(VERNEED, b, pos, total) == Some(n) && InSection(VERNEED, b, n) && n.at == pos
    requires NeedAt(b, strings, needed, n) == Some(d)
    ensures var next := WordAt(b, pos + VERNEED.nextAt); var newDone, newDs, newOut := done + [n], ds + [d],
      Add(out, d);
      && (next == 0 ==> EndOfNeeds(b, strings, needed, newDone, newDs, headers + [pos], auxes + n.auxes, newOut))
      && (0 < next < VERNEED.header ==> NoNeeds(b, strings, needed))
      && (next >= VERNEED.header ==>
            ReadingNeeds(b, strings, needed, newDone, newDs, pos + next, total + |n.auxes|, left - 1,
                         headers + [pos], auxes + n.auxes, newOut))
  {
    hide Reading, Laid, NodeAt, Walk, WordAt, Within, Offsets, AllAuxes, Required, NeedAt, NeedsAt;
    hide AllInSection, Prepend, NoNeeds, SaysNeeds, IsPlaced, HalfAt, Add;
    GoodHeader(VERNEED, b, done, pos, total, left, headers, auxes);
    GoodWalk(VERNEED, b, done, pos, total, left, headers, auxes);
    NeedsLast(b, strings, needed, done, n);
    RequiredLast(ds, d);
    var next := WordAt(b, pos + VERNEED.nextAt);
    if 0 < next < VERNEED.header {
      NoWalkNoLayout(VERNEED, b);
      NoLayoutNoNeeds(b, strings, needed);
    } else if next >= VERNEED.header {
      StillReading(VERNEED, b, done + [n], pos + next, total + |n.auxes|, left - 1, headers + [pos], auxes + n.auxes);
    }
  }

  /** One header with its requirements: the dependency must be needed and no version unnamed. */
  method ReadNeed(b: seq<byte>, strings: seq<byte>, needed: seq<Name>, pos: nat, total: nat)
    returns (r: Option<(seq<nat>, Need)>)
    ensures match NodeAt(VERNEED, b, pos, total)
      case None => r.None?
      case Some(n) =>
        && InSection(VERNEED, b, n) && n.at == pos
        && r == match NeedAt(b, strings, needed, n) case None => None case Some(d) => Some((n.auxes, d))
  {
    hide NodeAt, NamesOf, Within, HalfAt, WordAt, NameAt;
    var read := ReadNode(VERNEED, b, strings, pos, total);
    if read.None? { return None; }
    var (xs, names) := read.value;
    var file := NameAt(strings, WordAt(b, pos + 4));
    if file.None? || file.value !in needed || [] in names { return None; }
    return Some((xs, Need(file.value, Requirements(b, xs, names))));
  }

  /** One turn of the loop over requirements. */
  method OneNeed(b: seq<byte>, strings: seq<byte>, needed: seq<Name>, pos: nat, total: nat, headers: seq<nat>,
                 auxes: seq<nat>, out: map<Name, seq<Requirement>>, ghost left: nat, ghost done: seq<Node>,
                   ghost ds: seq<Need>)
    returns (verdict: Verdict, newPos: nat, newTotal: nat, newHeaders: seq<nat>, newAuxes: seq<nat>,
             newOut: map<Name, seq<Requirement>>, ghost newDone: seq<Node>, ghost newDs: seq<Need>)
    requires ReadingNeeds(b, strings, needed, done, ds, pos, total, left, headers, auxes, out) && left > 0
    ensures verdict.Refused? ==> NoNeeds(b, strings, needed)
    ensures verdict.Ended? ==>
      EndOfNeeds(b, strings, needed, newDone, newDs, newHeaders, newAuxes, newOut)
    ensures verdict.GoesOn? ==>
      ReadingNeeds(b, strings, needed, newDone, newDs, newPos, newTotal, left - 1, newHeaders, newAuxes, newOut)
  {
    hide NodeAt, ReadingNeeds, HalfAt, WordAt, NoNeeds, EndOfNeeds, InSection, NeedAt, Add;
    newPos, newTotal, newHeaders, newAuxes, newOut := pos, total, headers, auxes, out;
    newDone, newDs := done, ds;
    var read := ReadNeed(b, strings, needed, pos, total);
    if read.None? {
      StoppedNeeds(b, strings, needed, done, ds, pos, total, left, headers, auxes, out);
      verdict := Refused;
      return;
    }
    ghost var n := NodeAt(VERNEED, b, pos, total).value;
    var (xs, d) := read.value;
    NextNeed(b, strings, needed, done, ds, pos, total, left, headers, auxes, out, n, d);
    HeaderFits(b, n);
    var next := WordAt(b, pos + VERNEED.nextAt);
    newOut := Add(out, d);
    newDone, newDs := done + [n], ds + [d];
    newPos, newTotal, newHeaders, newAuxes := pos + next, total + |xs|, headers + [pos], auxes + xs;
    verdict := if next == 0 then Ended else if next < VERNEED.header then Refused else GoesOn;
  }

  lemma HeaderFits(b: seq<byte>, n: Node)
    requires InSection(VERNEED, b, n)
    ensures n.at + VERNEED.header <= |b|
  {
  }

  method FinishNeeds(ghost b: seq<byte>, ghost strings: seq<byte>, ghost needed: seq<Name>, ghost ns: seq<Node>,
                     ghost ds: seq<Need>, headers: seq<nat>, auxes: seq<nat>, out: map<Name, seq<Requirement>>)
    returns (r: Option<(map<Name, seq<Requirement>>, nat)>)
    requires EndOfNeeds(b, strings, needed, ns, ds, headers, auxes, out)
    ensures r.Some? ==> Answers(b, strings, needed, r.value.0, r.value.1)
    ensures r.None? ==> NoNeeds(b, strings, needed)
  {
    hide Walk, AllInSection, NeedsAt, Required, NoNeeds, SaysNeeds, Placed, Ascending;
    NeedsEnd(b, strings, needed, ns, ds);
    var placed := CheckPlacement(headers, VERNEED.header, auxes, VERNEED.aux);
    if placed { return Some((out, |headers|)); } else { return None; }
  }

  /** The section says requirements that come to `out`, in `count` headers. */
  ghost predicate Answers(b: seq<byte>, strings: seq<byte>, needed: seq<Name>, out: map<Name, seq<Requirement>>,
                          count: nat) {
    exists ns, ds :: SaysNeeds(b, strings, needed, ns, ds) && out == Required(ds) && count == |ns|
  }

  /** `parse_verneed`: the versions required of each needed dependency, and the number of headers, however
      they are laid out. */
  method ParseVerneed(b: seq<byte>, strings: seq<byte>, needed: seq<Name>)
    returns (r: Option<(map<Name, seq<Requirement>>, nat)>)
    ensures b == [] ==> r == Some((map[], 0))
    ensures b != [] && r.Some? ==> Answers(b, strings, needed, r.value.0, r.value.1)
    ensures b != [] && r.None? ==> NoNeeds(b, strings, needed)
  {
    if b == [] { return Some((map[], 0)); }
    hide ReadingNeeds, Answers, NoNeeds, EndOfNeeds, NodeAt, InSection, NeedAt;
    var pos: nat, total: nat, headers: seq<nat>, auxes: seq<nat>, out: map<Name, seq<Requirement>> := 0, 0, [], [],
      map[];
    ghost var done: seq<Node>, ds: seq<Need>, left: nat := [], [], MAX_RECORDS;
    StartingNeeds(b, strings, needed, done, ds, headers, auxes, out);
    for i := 0 to MAX_RECORDS
      invariant ReadingNeeds(b, strings, needed, done, ds, pos, total, left, headers, auxes, out)
      invariant left == MAX_RECORDS - i
    {
      var verdict;
      verdict, pos, total, headers, auxes, out, done, ds :=
        OneNeed(b, strings, needed, pos, total, headers, auxes, out, left, done, ds);
      left := left - 1;
      if verdict.Refused? { return None; }
      if verdict.Ended? {
        r := FinishNeeds(b, strings, needed, done, ds, headers, auxes, out);
        return;
      }
    }
    StoppedNeeds(b, strings, needed, done, ds, pos, total, left, headers, auxes, out);
    return None;
  }

  // ---- layouts do not matter ----------------------------------------------------------------------

  /** A section is read in one way only. */
  lemma OneReading(b: seq<byte>, strings: seq<byte>, ns: seq<Node>, ds: seq<Definition>, ms: seq<Node>,
                   es: seq<Definition>)
    requires SaysDefinitions(b, strings, ns, ds) && SaysDefinitions(b, strings, ms, es)
    ensures ns == ms && ds == es
  {
    OneLayout(VERDEF, b, ns, ms);
  }

  /** What `ParseVerdef` promises of its result. */
  ghost predicate VerdefResult(b: seq<byte>, strings: seq<byte>, r: Option<set<Name>>) {
    if b == [] then r == Some({}) else if r.None? then NoDefinitions(b, strings) else Defines(b, strings, r.value)
  }

  /** Two sections that lay out the same definitions, each in its own way, give the same versions. */
  lemma LayoutDoesNotMatter(b: seq<byte>, c: seq<byte>, bNames: seq<byte>, cNames: seq<byte>, ns: seq<Node>,
                            ms: seq<Node>, ds: seq<Definition>, r: Option<set<Name>>, q: Option<set<Name>>)
    requires SaysDefinitions(b, bNames, ns, ds) && SaysDefinitions(c, cNames, ms, ds)
    requires VerdefResult(b, bNames, r) && VerdefResult(c, cNames, q)
    ensures r == q == Some(Versions(ds))
  {
    hide SaysDefinitions;
    Accepted(b, bNames, ns, ds, r);
    Accepted(c, cNames, ms, ds, q);
  }

  lemma Accepted(b: seq<byte>, strings: seq<byte>, ns: seq<Node>, ds: seq<Definition>, r: Option<set<Name>>)
    requires SaysDefinitions(b, strings, ns, ds) && VerdefResult(b, strings, r)
    ensures r == Some(Versions(ds))
  {
    SaysSomething(b, strings, ns, ds);
    hide SaysDefinitions;
    if r.Some? {
      var ms, es :| SaysDefinitions(b, strings, ms, es) && r.value == Versions(es);
      OneReading(b, strings, ns, ds, ms, es);
    }
  }

  lemma SaysSomething(b: seq<byte>, strings: seq<byte>, ns: seq<Node>, ds: seq<Definition>)
    requires SaysDefinitions(b, strings, ns, ds)
    ensures b != []
  {
    assert IsNode(VERDEF, b, ns[0]);
  }

  /** What `ParseVerneed` promises of its result. */
  ghost predicate VerneedResult(b: seq<byte>, strings: seq<byte>, needed: seq<Name>,
                                r: Option<(map<Name, seq<Requirement>>, nat)>) {
    if b == [] then r == Some((map[], 0))
    else if r.None? then NoNeeds(b, strings, needed)
    else Answers(b, strings, needed, r.value.0, r.value.1)
  }

  /** Nor are requirements read in more than one way. */
  lemma OneReadingOfNeeds(b: seq<byte>, strings: seq<byte>, needed: seq<Name>,
                          ns: seq<Node>, ds: seq<Need>, ms: seq<Node>, es: seq<Need>)
    requires SaysNeeds(b, strings, needed, ns, ds) && SaysNeeds(b, strings, needed, ms, es)
    ensures ns == ms && ds == es
  {
    OneLayout(VERNEED, b, ns, ms);
  }

  /** Two sections that lay out the same requirements, each in its own way, give the same map and count. */
  lemma LayoutOfNeedsDoesNotMatter(b: seq<byte>, c: seq<byte>, bNames: seq<byte>, cNames: seq<byte>, needed: seq<Name>,
                                   ns: seq<Node>, ms: seq<Node>, ds: seq<Need>,
                                   r: Option<(map<Name, seq<Requirement>>, nat)>,
                                   q: Option<(map<Name, seq<Requirement>>, nat)>)
    requires SaysNeeds(b, bNames, needed, ns, ds) && SaysNeeds(c, cNames, needed, ms, ds)
    requires VerneedResult(b, bNames, needed, r) && VerneedResult(c, cNames, needed, q)
    ensures r == q == Some((Required(ds), |ds|))
  {
    hide SaysNeeds;
    AcceptedNeeds(b, bNames, needed, ns, ds, r);
    AcceptedNeeds(c, cNames, needed, ms, ds, q);
  }

  lemma AcceptedNeeds(b: seq<byte>, strings: seq<byte>, needed: seq<Name>, ns: seq<Node>, ds: seq<Need>,
                      r: Option<(map<Name, seq<Requirement>>, nat)>)
    requires SaysNeeds(b, strings, needed, ns, ds) && VerneedResult(b, strings, needed, r)
    ensures r == Some((Required(ds), |ds|))
  {
    assert IsNode(VERNEED, b, ns[0]);
    NeedForEach(b, strings, needed, ns);
    hide SaysNeeds;
    if r.Some? {
      var ms, es :| SaysNeeds(b, strings, needed, ms, es) && r.value.0 == Required(es) && r.value.1 == |ms|;
      OneReadingOfNeeds(b, strings, needed, ns, ds, ms, es);
    }
  }

  lemma {:induction false} NeedForEach(b: seq<byte>, strings: seq<byte>, needed: seq<Name>, ns: seq<Node>)
    requires AllInSection(VERNEED, b, ns) && NeedsAt(b, strings, needed, ns).Some?
    ensures |NeedsAt(b, strings, needed, ns).value| == |ns|
  {
    hide InSection, NeedAt;
    if ns != [] { NeedForEach(b, strings, needed, ns[1..]); }
  }
}
