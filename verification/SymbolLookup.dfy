/** Finding a function in a loaded object, `Table` of `crates/onelf-payloads/src/exec.rs`:
    both hash tables answer as a scan of all hashed symbols would. The two hash functions
    are any functions of the name.
 */
module SymbolLookup {
  import opened Bytes

  type Name = seq<byte>
  type Hash = Name -> nat

  type u16 = x: int | 0 <= x < 0x1_0000

  /** A dynamic symbol. `info` has its binding in the upper half and its kind in the lower, `version` is its
      index in the table of versions. */
  datatype Symbol = Symbol(name: Name, section: nat, value: nat, info: byte, version: u16)

  datatype Object = Object(base: nat, symbols: seq<Symbol>, versioned: bool)

  const LIMIT: nat := 0x1_0000_0000_0000_0000

  /** Every address of the object fits a word. */
  predicate Placed(o: Object) {
    forall i :: 0 <= i < |o.symbols| ==> o.base + o.symbols[i].value < LIMIT
  }

  const STT_FUNC := 2
  const STB_GLOBAL := 1
  const STB_WEAK := 2

  /** `matches`: the address symbol `i` defines as the default version of the global function `name`, or 0. */
  function Matches(o: Object, i: nat, name: Name): nat
    requires i < |o.symbols|
  {
    var s := o.symbols[i];
    var bind, kind := s.info / 16, s.info % 16;
    if s.section == 0 || s.value == 0 || kind != STT_FUNC || (bind != STB_GLOBAL && bind != STB_WEAK) then 0
    else if o.versioned && (s.version == 0 || s.version / 0x8000 % 2 == 1) then 0
    else if s.name != name then 0
    else (o.base + s.value) % LIMIT
  }

  /** The object itself defines the function `name` there, for all to use, and a reference without a version
      means this one. */
  predicate Defines(o: Object, i: nat, name: Name)
    requires i < |o.symbols|
  {
    var s := o.symbols[i];
    && s.name == name
    && s.section > 0 && s.value > 0
    && s.info in {0x12, 0x22}
    && (o.versioned ==> 1 <= s.version <= 0x7FFF)
  }

  /** Exactly such a symbol matches, and its address is not mistaken for none. */
  lemma MatchMeans(o: Object, i: nat, name: Name)
    requires i < |o.symbols| && Placed(o)
    ensures Matches(o, i, name) == if Defines(o, i, name) then o.base + o.symbols[i].value else 0
    ensures Matches(o, i, name) != 0 <==> Defines(o, i, name)
  {
  }

  /** A lookup of its own name can find the symbol. Linkers hash no others, such as local ones. */
  predicate CouldMatch(o: Object, i: nat)
    requires i < |o.symbols|
  {
    Matches(o, i, o.symbols[i].name) != 0
  }

  /** The first match from `i` on, by scanning. */
  function Scan(o: Object, i: nat, name: Name): nat
    decreases |o.symbols| - i
  {
    if i >= |o.symbols| then 0
    else if Matches(o, i, name) != 0 then Matches(o, i, name)
    else Scan(o, i + 1, name)
  }

  lemma {:induction false} ScanMeans(o: Object, i: nat, name: Name)
    ensures Scan(o, i, name) == 0 <==> forall j :: i <= j < |o.symbols| ==> Matches(o, j, name) == 0
    ensures Scan(o, i, name) != 0 ==> exists j :: i <= j < |o.symbols| && Matches(o, j, name) == Scan(o, i, name)
    decreases |o.symbols| - i
  {
    hide Matches;
    if i < |o.symbols| && Matches(o, i, name) == 0 { ScanMeans(o, i + 1, name); }
  }

  ghost predicate FirstDefinition(o: Object, from: nat, name: Name, i: nat) {
    from <= i < |o.symbols| && Defines(o, i, name) && forall j :: from <= j < i ==> !Defines(o, j, name)
  }

  /** The address found is that of the first symbol that defines the name, and 0 exactly if none does. */
  lemma {:induction false} ScanFindsTheFirst(o: Object, from: nat, name: Name)
    requires Placed(o)
    ensures Scan(o, from, name) == 0 <==> forall i :: from <= i < |o.symbols| ==> !Defines(o, i, name)
    ensures forall i: nat :: FirstDefinition(o, from, name, i) ==> Scan(o, from, name) == o.base + o.symbols[i].value
    decreases |o.symbols| - from
  {
    if from < |o.symbols| {
      MatchMeans(o, from, name);
      hide Matches, Defines, Placed;
      ScanFindsTheFirst(o, from + 1, name);
      forall i: nat | FirstDefinition(o, from, name, i) ensures Scan(o, from, name) == o.base + o.symbols[i].value {
        if i > from { assert FirstDefinition(o, from + 1, name, i); }
      }
    }
  }

  lemma {:induction false} ScanSkips(o: Object, i: nat, j: nat, name: Name)
    requires i <= j <= |o.symbols| && forall k :: i <= k < j ==> Matches(o, k, name) == 0
    ensures Scan(o, i, name) == Scan(o, j, name)
    decreases j - i
  {
    hide Matches;
    if i < j { ScanSkips(o, i + 1, j, name); }
  }

  // ---- DT_GNU_HASH --------------------------------------------------------------------------

  datatype GnuTable = GnuTable(offset: nat, buckets: seq<nat>, chain: seq<nat>)

  function LinkOf(t: GnuTable, i: nat): nat
    requires t.offset <= i < t.offset + |t.chain|
  {
    t.chain[i - t.offset]
  }

  /** `link | 1 == h | 1`. */
  predicate Link(link: nat, h: nat) { link / 2 == h / 2 }

  predicate Ends(link: nat) { link % 2 == 1 }

  /** The hash of the symbol that has a place in the chain. */
  function HashOf(o: Object, t: GnuTable, hash: Hash, i: nat): nat
    requires t.offset + |t.chain| == |o.symbols| && i < |t.chain|
  {
    hash(o.symbols[t.offset + i].name)
  }

  /** The symbols of bucket `b` are the run from its start to the first end. */
  ghost predicate Bucket(o: Object, t: GnuTable, hash: Hash, b: nat, end: nat)
    requires |t.buckets| > 0 && t.offset + |t.chain| == |o.symbols| && b < |t.buckets|
  {
    var start := t.buckets[b];
    if start < t.offset then
      forall i :: t.offset <= i < |o.symbols| ==> hash(o.symbols[i].name) % |t.buckets| != b
    else
      && start <= end < |o.symbols|
      && t.chain[end - t.offset] % 2 == 1
      && (forall i :: start - t.offset <= i < end - t.offset ==> t.chain[i] % 2 == 0)
      && (forall i :: t.offset <= i < |o.symbols| ==>
          (hash(o.symbols[i].name) % |t.buckets| == b <==> start <= i <= end))
  }

  /** The table hashes the symbols from its offset on. `ends` says where each bucket ends. A link of the chain is
      the hash of its symbol but for the lowest bit, which is set on the last of a bucket. */
  ghost predicate GnuValid(o: Object, t: GnuTable, hash: Hash, ends: seq<nat>) {
    && t.offset + |t.chain| == |o.symbols|
    && |ends| == |t.buckets| > 0
    && (forall i :: 0 <= i < |t.chain| ==>
        t.chain[i] - t.chain[i] % 2 == HashOf(o, t, hash, i) - HashOf(o, t, hash, i) % 2)
    && (forall b :: 0 <= b < |t.buckets| ==> Bucket(o, t, hash, b, ends[b]))
  }

  /** Only symbols of the name's own bucket can match. */
  lemma MatchIsInBucket(o: Object, t: GnuTable, hash: Hash, ends: seq<nat>, name: Name, i: nat)
    requires GnuValid(o, t, hash, ends) && Placed(o) && t.offset <= i < |o.symbols| && Matches(o, i, name) != 0
    ensures var b := hash(name) % |t.buckets|;
      t.buckets[b] >= t.offset && t.buckets[b] <= i <= ends[b] && Link(LinkOf(t, i), hash(name))
  {
    MatchMeans(o, i, name);
    var b := hash(name) % |t.buckets|;
    assert Bucket(o, t, hash, b, ends[b]);
  }

  lemma NoMatchOutside(o: Object, t: GnuTable, hash: Hash, ends: seq<nat>, name: Name)
    requires GnuValid(o, t, hash, ends) && Placed(o)
    ensures var b := hash(name) % |t.buckets|;
      forall i :: t.offset <= i < |o.symbols| && Matches(o, i, name) != 0 ==>
        t.offset <= t.buckets[b] <= i <= ends[b] && Link(LinkOf(t, i), hash(name))
  {
    var b := hash(name) % |t.buckets|;
    forall i | t.offset <= i < |o.symbols| && Matches(o, i, name) != 0
      ensures t.offset <= t.buckets[b] <= i <= ends[b] && Link(LinkOf(t, i), hash(name))
    {
      hide GnuValid, Matches;
      MatchIsInBucket(o, t, hash, ends, name, i);
    }
  }

  /** The run of a bucket: it starts among the hashed symbols, and the first end is its own. */
  lemma BucketRun(o: Object, t: GnuTable, hash: Hash, ends: seq<nat>, b: nat)
    requires GnuValid(o, t, hash, ends) && b < |t.buckets| && t.buckets[b] >= t.offset
    ensures t.buckets[b] <= ends[b] < |o.symbols| == t.offset + |t.chain|
    ensures forall i :: t.buckets[b] <= i <= ends[b] ==> (Ends(LinkOf(t, i)) <==> i == ends[b])
  {
    assert Bucket(o, t, hash, b, ends[b]);
  }

  /** The walk of a bucket's run, from its start to its end. */
  method SearchRun(o: Object, t: GnuTable, h: nat, name: Name, start: nat, ghost end: nat) returns (addr: nat)
    requires t.offset <= start <= end < |o.symbols| == t.offset + |t.chain|
    requires forall i :: start <= i <= end ==> (Ends(LinkOf(t, i)) <==> i == end)
    requires forall i :: t.offset <= i < |o.symbols| && Matches(o, i, name) != 0 ==>
      start <= i <= end && Link(LinkOf(t, i), h)
    ensures addr == Scan(o, t.offset, name)
  {
    hide Matches, Link, Ends, LinkOf;
    ScanMeans(o, t.offset, name);
    var i := start;
    while true
      invariant start <= i <= end
      invariant forall k :: t.offset <= k < i ==> Matches(o, k, name) == 0
      decreases end - i
    {
      var link := LinkOf(t, i);
      if Link(link, h) {
        var found := Matches(o, i, name);
        if found != 0 {
          ScanSkips(o, t.offset, i, name);
          return found;
        }
      }
      if Ends(link) { return 0; }
      i := i + 1;
    }
  }

  /** `gnu_lookup`: what a scan of the hashed symbols finds first. */
  method GnuLookup(o: Object, t: GnuTable, hash: Hash, name: Name, ghost ends: seq<nat>) returns (addr: nat)
    requires Placed(o) && (t.buckets != [] ==> GnuValid(o, t, hash, ends))
    ensures addr == if t.buckets == [] then 0 else Scan(o, t.offset, name)
  {
    if t.buckets == [] { return 0; }
    var h := hash(name);
    var b := h % |t.buckets|;
    NoMatchOutside(o, t, hash, ends, name);
    ScanMeans(o, t.offset, name);
    if t.buckets[b] < t.offset { return 0; }
    BucketRun(o, t, hash, ends, b);
    hide GnuValid, Matches, Placed, Scan, Link, Ends, LinkOf;
    addr := SearchRun(o, t, h, name, t.buckets[b], ends[b]);
  }

  // ---- DT_HASH ----------------------------------------------------------------------------------

  datatype SysvTable = SysvTable(buckets: seq<nat>, chain: seq<nat>)

  /** The chain from `i` through the indices in `xs`, which ends at 0. */
  predicate Chains(t: SysvTable, i: nat, xs: seq<nat>)
    decreases |xs|
  {
    if xs == [] then i == 0 else i != 0 && i < |t.chain| && xs[0] == i && Chains(t, t.chain[i], xs[1..])
  }

  /** Every bucket is a chain, in any order, and every symbol that could match is in the bucket of its hash. */
  ghost predicate SysvValid(o: Object, t: SysvTable, hash: Hash, lists: seq<seq<nat>>) {
    && |t.chain| == |o.symbols| && |lists| == |t.buckets| > 0
    && (forall b :: 0 <= b < |lists| ==> Chains(t, t.buckets[b], lists[b]))
    && (forall i :: 1 <= i < |o.symbols| && CouldMatch(o, i) ==> i in lists[hash(o.symbols[i].name) % |t.buckets|])
  }

  /** The chain that is searched for a name. */
  function ListOf(t: SysvTable, hash: Hash, lists: seq<seq<nat>>, name: Name): seq<nat>
    requires |lists| == |t.buckets| > 0
  {
    lists[hash(name) % |t.buckets|]
  }

  /** The first match among some symbols. */
  function FirstIn(o: Object, xs: seq<nat>, name: Name): nat {
    if xs == [] then 0
    else if xs[0] < |o.symbols| && Matches(o, xs[0], name) != 0 then Matches(o, xs[0], name)
    else FirstIn(o, xs[1..], name)
  }

  lemma {:induction false} ChainIndices(t: SysvTable, i: nat, xs: seq<nat>)
    requires Chains(t, i, xs)
    ensures forall x :: x in xs ==> 1 <= x < |t.chain|
    decreases |xs|
  {
    if xs != [] {
      ChainIndices(t, t.chain[i], xs[1..]);
      assert xs == [xs[0]] + xs[1..];
    }
  }

  lemma {:induction false} FirstInMeans(o: Object, xs: seq<nat>, name: Name)
    ensures FirstIn(o, xs, name) == 0 <==> forall x :: x in xs && x < |o.symbols| ==> Matches(o, x, name) == 0
    ensures FirstIn(o, xs, name) != 0 ==>
      exists x :: x in xs && x < |o.symbols| && Matches(o, x, name) == FirstIn(o, xs, name)
  {
    hide Matches;
    if xs != [] {
      FirstInMeans(o, xs[1..], name);
      assert xs == [xs[0]] + xs[1..];
    }
  }

  /** `sysv_lookup`: the first match of the chain, which is 0 exactly if no symbol matches. */
  method SysvLookup(o: Object, t: SysvTable, hash: Hash, name: Name, ghost lists: seq<seq<nat>>) returns (addr: nat)
    requires Placed(o) && (t.buckets != [] ==> SysvValid(o, t, hash, lists))
    ensures t.buckets == [] ==> addr == 0
    ensures t.buckets != [] ==> addr == FirstIn(o, ListOf(t, hash, lists, name), name) && SysvAnswer(o, name, addr)
  {
    if t.buckets == [] { return 0; }
    var i := t.buckets[hash(name) % |t.buckets|];
    ghost var xs := lists[hash(name) % |t.buckets|];
    ListAnswers(o, t, hash, lists, name);
    ChainIndices(t, i, xs);
    hide SysvValid, Matches, Placed, SysvAnswer;
    while i != 0
      invariant Chains(t, i, xs)
      invariant FirstIn(o, xs, name) == FirstIn(o, ListOf(t, hash, lists, name), name)
      invariant |t.chain| == |o.symbols|
      decreases |xs|
    {
      var found := Matches(o, i, name);
      if found != 0 { return found; }
      i, xs := t.chain[i], xs[1..];
    }
    return 0;
  }

  lemma MatchIsListed(o: Object, t: SysvTable, hash: Hash, lists: seq<seq<nat>>, name: Name)
    requires SysvValid(o, t, hash, lists) && Placed(o)
    ensures forall k :: 1 <= k < |o.symbols| && Matches(o, k, name) != 0 ==> k in ListOf(t, hash, lists, name)
    ensures forall k :: k in ListOf(t, hash, lists, name) ==> 1 <= k < |o.symbols|
  {
    var b := hash(name) % |t.buckets|;
    ChainIndices(t, t.buckets[b], lists[b]);
    forall k | 1 <= k < |o.symbols| && Matches(o, k, name) != 0 ensures k in ListOf(t, hash, lists, name) {
      MatchMeans(o, k, name);
    }
  }

  // ---- both tables --------------------------------------------------------------------------------

  /** What the two lookups promise of their results on the tables of one object. */
  predicate GnuAnswer(o: Object, offset: nat, name: Name, addr: nat) { addr == Scan(o, offset, name) }

  ghost predicate SysvAnswer(o: Object, name: Name, addr: nat) {
    && (addr == 0 <==> Scan(o, 1, name) == 0)
    && (addr != 0 ==> exists j :: 1 <= j < |o.symbols| && Matches(o, j, name) == addr)
  }

  lemma ListAnswers(o: Object, t: SysvTable, hash: Hash, lists: seq<seq<nat>>, name: Name)
    requires SysvValid(o, t, hash, lists) && Placed(o)
    ensures SysvAnswer(o, name, FirstIn(o, ListOf(t, hash, lists, name), name))
  {
    MatchIsListed(o, t, hash, lists, name);
    FirstInMeans(o, ListOf(t, hash, lists, name), name);
    ScanMeans(o, 1, name);
    hide SysvValid, Matches, Placed, Scan, FirstIn, ListOf;
  }

  /** All symbols that match define one address, as aliases do. */
  predicate OneAddress(o: Object, name: Name) {
    forall i, j ::
      1 <= i < |o.symbols| && 1 <= j < |o.symbols| && Matches(o, i, name) != 0 && Matches(o, j, name) != 0 ==>
        Matches(o, i, name) == Matches(o, j, name)
  }

  /** The symbols that only the other table may leave out cannot match: those below the offset, and the
      reserved first one. */
  predicate SameHashed(o: Object, offset: nat) {
    && offset <= |o.symbols|
    && forall i :: 0 <= i < |o.symbols| && (i == 0 || i < offset) ==> !CouldMatch(o, i)
  }

  lemma NotHashedNoMatch(o: Object, i: nat, name: Name)
    requires i < |o.symbols| && !CouldMatch(o, i)
    ensures Matches(o, i, name) == 0
  {
  }

  lemma ScansAgree(o: Object, offset: nat, name: Name)
    requires SameHashed(o, offset)
    ensures Scan(o, offset, name) == Scan(o, 1, name)
  {
    forall i | 0 <= i < |o.symbols| && (i == 0 || i < offset)
      ensures Matches(o, i, name) == 0
    {
      NotHashedNoMatch(o, i, name);
    }
    hide Matches, CouldMatch;
    if offset == 0 {
      if |o.symbols| > 0 { ScanSkips(o, 0, 1, name); }
    } else {
      ScanSkips(o, 1, offset, name);
    }
  }

  /** The tables agree on whether a name is found, and on its address where all that match define one. */
  lemma LookupsAgree(o: Object, offset: nat, name: Name, gnu: nat, sysv: nat)
    requires SameHashed(o, offset) && GnuAnswer(o, offset, name, gnu) && SysvAnswer(o, name, sysv)
    ensures gnu == 0 <==> sysv == 0
    ensures OneAddress(o, name) ==> gnu == sysv
  {
    ScansAgree(o, offset, name);
    ScanMeans(o, 1, name);
    hide Matches, Scan, SameHashed;
    if gnu != 0 && OneAddress(o, name) {
      var i :| 1 <= i < |o.symbols| && Matches(o, i, name) == gnu;
      var j :| 1 <= j < |o.symbols| && Matches(o, j, name) == sysv;
    }
  }

  // ---- a chain in another order ---------------------------------------------------------------------

  /** The first index from `x` on that is not `k`, or 0 where there is none below `n`. */
  function Skip(n: nat, k: nat, x: nat): nat {
    var y := if x == k then x + 1 else x;
    if y >= n then 0 else y
  }

  function From(n: nat, k: nat, x: nat): seq<nat>
    requires x >= 1
    decreases n - x
  {
    if x >= n || Skip(n, k, x) == 0 then [] else [Skip(n, k, x)] + From(n, k, Skip(n, k, x) + 1)
  }

  /** One bucket that starts with `k` and goes on with all other symbols. */
  function StartingWith(n: nat, k: nat): SysvTable {
    SysvTable([k], seq(n, x requires 0 <= x < n => if x == k then Skip(n, k, 1) else Skip(n, k, x + 1)))
  }

  lemma SkipIs(n: nat, k: nat, x: nat)
    requires 1 <= k < n && x >= 1
    ensures var y := Skip(n, k, x);
      if y == 0 then x >= n || (x == k && x + 1 == n) else y < n && y != k && (y == x || (x == k && y == x + 1))
  {
  }

  lemma ChainGrows(t: SysvTable, y: nat, xs: seq<nat>)
    requires 0 < y < |t.chain| && Chains(t, t.chain[y], xs)
    ensures Chains(t, y, [y] + xs)
  {
    assert ([y] + xs)[1..] == xs;
  }

  lemma {:induction false} FromHasAll(n: nat, k: nat, x: nat, i: nat)
    requires 1 <= k < n && 1 <= x <= i < n && i != k
    ensures i in From(n, k, x)
    decreases n - x
  {
    var y := Skip(n, k, x);
    SkipIs(n, k, x);
    hide Skip;
    if i > y { FromHasAll(n, k, y + 1, i); }
  }

  lemma {:induction false} FromChains(n: nat, k: nat, x: nat)
    requires 1 <= k < n && x >= 1
    ensures Chains(StartingWith(n, k), Skip(n, k, x), From(n, k, x))
    decreases n - x
  {
    var y := Skip(n, k, x);
    SkipIs(n, k, x);
    if x < n && y != 0 {
      assert |StartingWith(n, k).chain| == n && StartingWith(n, k).chain[y] == Skip(n, k, y + 1);
      hide Skip, StartingWith, Chains;
      FromChains(n, k, y + 1);
      ChainGrows(StartingWith(n, k), y, From(n, k, y + 1));
    }
  }

  lemma StartingWithIsValid(o: Object, hash: Hash, k: nat)
    requires 1 <= k < |o.symbols|
    ensures SysvValid(o, StartingWith(|o.symbols|, k), hash, [[k] + From(|o.symbols|, k, 1)])
  {
    var n := |o.symbols|;
    FromChains(n, k, 1);
    forall i | 1 <= i < n && i != k ensures i in From(n, k, 1) { FromHasAll(n, k, 1, i); }
    var xs := [k] + From(n, k, 1);
    assert xs[1..] == From(n, k, 1);
    hide From, CouldMatch;
    assert Chains(StartingWith(n, k), k, xs);
  }

  /** Whatever the hash, every valid DT_HASH table gives the address that a scan finds first, exactly if all
      symbols that match define one address. */
  lemma SysvAgreesExactly(o: Object, hash: Hash, name: Name)
    requires Placed(o)
    ensures (forall t, lists :: SysvValid(o, t, hash, lists) ==>
      FirstIn(o, ListOf(t, hash, lists, name), name) == Scan(o, 1, name))
      <==> OneAddress(o, name)
  {
    ScanMeans(o, 1, name);
    hide Matches, Scan, SysvValid, Placed;
    if OneAddress(o, name) {
      forall t, lists | SysvValid(o, t, hash, lists)
        ensures FirstIn(o, ListOf(t, hash, lists, name), name) == Scan(o, 1, name)
      {
        AnswersAlike(o, t, hash, lists, name);
      }
    } else {
      var i, j :| 1 <= i < |o.symbols| && 1 <= j < |o.symbols| && Matches(o, i, name) != 0 && Matches(o, j, name) != 0
        && Matches(o, i, name) != Matches(o, j, name);
      var k := if Matches(o, i, name) != Scan(o, 1, name) then i else j;
      StartingWithIsValid(o, hash, k);
      StartsWithIt(o, hash, k, name);
    }
  }

  lemma AnswersAlike(o: Object, t: SysvTable, hash: Hash, lists: seq<seq<nat>>, name: Name)
    requires SysvValid(o, t, hash, lists) && Placed(o) && OneAddress(o, name)
    ensures FirstIn(o, ListOf(t, hash, lists, name), name) == Scan(o, 1, name)
  {
    ListAnswers(o, t, hash, lists, name);
    ScanMeans(o, 1, name);
    hide Matches, Scan, SysvValid, FirstIn, ListOf;
  }

  lemma StartsWithIt(o: Object, hash: Hash, k: nat, name: Name)
    requires 1 <= k < |o.symbols| && Matches(o, k, name) != 0
    ensures var t := StartingWith(|o.symbols|, k);
      FirstIn(o, ListOf(t, hash, [[k] + From(|o.symbols|, k, 1)], name), name) == Matches(o, k, name)
  {
    hide From, Matches;
  }

  /** An object whose two tables give different addresses: its two symbols of one name, in the other order in
      the chain. */
  lemma LookupsMayDiffer(hash: Hash)
    ensures var name := Ascii("f");
      var o := Object(0x1000, [Symbol([], 0, 0, 0, 0), Symbol(name, 1, 1, 0x12, 0),
                               Symbol(name, 1, 2, 0x12, 0)], false);
      var even := hash(name) / 2 * 2;
      var gnu, sysv := GnuTable(1, [1], [even, even + 1]), SysvTable([2], [0, 0, 1]);
      && Placed(o) && SameHashed(o, 1)
      && GnuValid(o, gnu, hash, [2]) && Scan(o, 1, name) == 0x1001
      && SysvValid(o, sysv, hash, [[2, 1]]) && FirstIn(o, ListOf(sysv, hash, [[2, 1]], name), name) == 0x1002
  {
    var name := Ascii("f");
    var o := Object(0x1000, [Symbol([], 0, 0, 0, 0), Symbol(name, 1, 1, 0x12, 0),
                             Symbol(name, 1, 2, 0x12, 0)], false);
    var t := SysvTable([2], [0, 0, 1]);
    assert [2, 1][1..] == [1] && [1][1..] == [];
    assert Chains(t, 0, []) && Chains(t, 1, [1]) && Chains(t, 2, [2, 1]);
    GnuOfTwo(o, hash, name);
  }

  lemma GnuOfTwo(o: Object, hash: Hash, name: Name)
    requires |o.symbols| == 3 && o.symbols[1].name == o.symbols[2].name == name
    ensures var even := hash(name) / 2 * 2; GnuValid(o, GnuTable(1, [1], [even, even + 1]), hash, [2])
  {
    var even := hash(name) / 2 * 2;
    var t := GnuTable(1, [1], [even, even + 1]);
    assert LinkOf(t, 1) == even && LinkOf(t, 2) == even + 1;
    assert Bucket(o, t, hash, 0, 2);
  }
}
