/** What `_onelf_bootstrap` of `crates/onelf-payloads/src/bootstrap.rs` changes before the
    interpreter runs: the auxiliary vector in place, and a grown copy of the program headers
    that names the interpreter next to the binary. Addresses are 64 bits wide.
 */
module Bootstrap {
  import opened Bytes

  const WRAP: nat := 0x1_0000_0000_0000_0000

  const AT_NULL := 0
  const AT_PHDR := 3
  const AT_PHNUM := 5
  const AT_BASE := 7
  const AT_ENTRY := 9
  const AT_SECURE := 23
  const AT_EXECFN := 31

  const PT_INTERP := 3
  const PT_PHDR := 6
  const PF_R := 4
  const HEADER_BYTES := 56

  datatype Header = Header(kind: nat, flags: nat, offset: nat, vaddr: nat, paddr: nat, filesz: nat, memsz: nat,
                           align: nat)

  const ZERO := Header(0, 0, 0, 0, 0, 0, 0, 0)

  // ---- the auxiliary vector ---------------------------------------------------------------

  function TagAt(a: seq<nat>, k: nat): nat
    requires 2 * k + 1 < |a|
  {
    a[2 * k]
  }

  function ValueAt(a: seq<nat>, k: nat): nat
    requires 2 * k + 1 < |a|
  {
    a[2 * k + 1]
  }

  /** The pair `n` ends the vector, and the kernel gives no tag twice. */
  predicate Vector(a: seq<nat>, n: nat) {
    && 2 * n + 1 < |a| && TagAt(a, n) == AT_NULL
    && (forall k :: 0 <= k < n ==> TagAt(a, k) != AT_NULL)
    && (forall j, k :: 0 <= j < k < n ==> TagAt(a, j) != TagAt(a, k))
  }

  /** The pair of a tag, if there is one. */
  predicate IsSlot(a: seq<nat>, n: nat, tag: nat, slot: Option<nat>)
    requires 2 * n + 1 < |a|
  {
    match slot
    case Some(k) => k <= n && TagAt(a, k) == tag
    case None => forall k :: 0 <= k <= n ==> TagAt(a, k) != tag
  }

  predicate AreSlots(a: seq<nat>, n: nat, slots: seq<Option<nat>>)
    requires 2 * n + 1 < |a|
  {
    |slots| == 32 && forall t :: 0 <= t < 32 ==> IsSlot(a, n, t, slots[t])
  }

  method IndexVector(aux: array<nat>, ghost n: nat) returns (slots: seq<Option<nat>>)
    requires Vector(aux[..], n)
    ensures AreSlots(aux[..], n, slots)
  {
    slots := seq(32, _ => None);
    ghost var a := aux[..];
    var k := 0;
    while true
      invariant k <= n && |slots| == 32
      invariant forall t :: 0 <= t < 32 ==> match slots[t]
        case Some(j) => j < k && TagAt(a, j) == t
        case None => forall j :: 0 <= j < k ==> TagAt(a, j) != t
      decreases n - k
    {
      var tag := aux[2 * k];
      assert tag == TagAt(a, k);
      if tag < 32 { slots := slots[tag := Some(k)]; }
      if tag == AT_NULL { break; }
      k := k + 1;
    }
    assert k == n;
  }

  /** The value of a tag among the first `k` pairs. */
  function ValueOf(a: seq<nat>, k: nat, tag: nat): Option<nat>
    requires 2 * k <= |a|
  {
    if k == 0 then None else if TagAt(a, k - 1) == tag then Some(ValueAt(a, k - 1)) else ValueOf(a, k - 1, tag)
  }

  /** `getauxval`. */
  function Lookup(a: seq<nat>, n: nat, tag: nat): Option<nat>
    requires 2 * n + 1 < |a|
  {
    ValueOf(a, n + 1, tag)
  }

  lemma {:induction false} OnlyValue(a: seq<nat>, n: nat, k: nat, tag: nat, i: nat)
    requires Vector(a, n) && i < k <= n + 1 && TagAt(a, i) == tag
    ensures ValueOf(a, k, tag) == Some(ValueAt(a, i))
  {
    if i < k - 1 {
      assert TagAt(a, i) != TagAt(a, k - 1);
      OnlyValue(a, n, k - 1, tag, i);
    }
  }

  lemma {:induction false} NoValue(a: seq<nat>, k: nat, tag: nat)
    requires 2 * k <= |a| && forall i :: 0 <= i < k ==> TagAt(a, i) != tag
    ensures ValueOf(a, k, tag) == None
  {
    if k > 0 { NoValue(a, k - 1, tag); }
  }

  lemma SlotHolds(a: seq<nat>, n: nat, slots: seq<Option<nat>>, tag: nat)
    requires Vector(a, n) && AreSlots(a, n, slots) && tag < 32
    ensures slots[tag].Some? ==> slots[tag].value <= n && Lookup(a, n, tag) == Some(ValueAt(a, slots[tag].value))
    ensures slots[tag].None? ==> Lookup(a, n, tag) == None
  {
    assert IsSlot(a, n, tag, slots[tag]);
    match slots[tag]
    case Some(k) => OnlyValue(a, n, n + 1, tag, k);
    case None => NoValue(a, n + 1, tag);
  }

  // ---- the program headers --------------------------------------------------------------------

  function Minus(a: nat, b: nat): (d: nat)
    ensures d < WRAP
  {
    (a - b) % WRAP
  }

  /** The header that describes the table itself describes the new one; every other is kept. */
  function Patched(h: Header, at: nat, buf: nat, count: nat): Header {
    if h.kind != PT_PHDR then h
    else
      var vaddr := Minus(buf, Minus(at, h.vaddr));
      h.(vaddr := vaddr, paddr := vaddr, filesz := (count + 1) * HEADER_BYTES, memsz := (count + 1) * HEADER_BYTES)
  }

  /** Where the table's own header says that the image is loaded: the last one counts. */
  function Bias(hs: seq<Header>, at: nat): nat {
    if hs == [] then 0
    else if hs[|hs| - 1].kind == PT_PHDR then Minus(at, hs[|hs| - 1].vaddr)
    else Bias(hs[..|hs| - 1], at)
  }

  function Interp(buf: nat, count: nat, bias: nat, plen: nat): Header {
    Header(PT_INTERP, PF_R, 0, Minus(buf + (count + 1) * HEADER_BYTES, bias), 0, plen + 1, plen + 1, 0)
  }

  /** Copies the headers, patching on the way. Fresh pages hold zeros. */
  method CopyHeaders(table: array<Header>, hs: seq<Header>, at: nat, buf: nat) returns (bias: nat)
    requires table.Length == |hs| + 1
    modifies table
    ensures bias == Bias(hs, at)
    ensures forall j :: 0 <= j < |hs| ==> table[j] == Patched(hs[j], at, buf, |hs|)
  {
    bias := 0;
    for j := 0 to |hs|
      invariant forall i :: 0 <= i < j ==> table[i] == hs[i]
    {
      table[j] := hs[j];
    }
    for j := 0 to |hs|
      invariant bias == Bias(hs[..j], at)
      invariant forall i :: 0 <= i < j ==> table[i] == Patched(hs[i], at, buf, |hs|)
      invariant forall i :: j <= i < |hs| ==> table[i] == hs[i]
    {
      assert hs[..j + 1][..j] == hs[..j];
      if table[j].kind == PT_PHDR {
        bias := Minus(at, table[j].vaddr);
        var vaddr := Minus(buf, bias);
        table[j] := table[j].(vaddr := vaddr, paddr := vaddr, filesz := (|hs| + 1) * HEADER_BYTES);
        table[j] := table[j].(memsz := table[j].filesz);
      }
    }
    assert hs[..|hs|] == hs;
  }

  lemma MinusTwice(a: nat, b: nat)
    requires b < WRAP
    ensures Minus(a, Minus(a, b)) == b
  {
    var d := a - b;
    var q := d / WRAP;
    assert d == q * WRAP + d % WRAP;
    assert a - d % WRAP == b + q * WRAP;
    Multiple(b, q);
  }

  lemma Multiple(b: nat, q: int)
    requires b < WRAP
    ensures (b + q * WRAP) % WRAP == b
  {
  }

  /** Whoever derives the load address from the table finds the same one as before, although the table has moved. */
  lemma LoadAddressIsKept(h: Header, at: nat, buf: nat, count: nat)
    requires h.kind == PT_PHDR
    ensures Minus(buf, Patched(h, at, buf, count).vaddr) == Minus(at, h.vaddr)
  {
    MinusTwice(buf, Minus(at, h.vaddr));
  }

  lemma PlusMinus(a: nat, b: nat)
    requires a < WRAP
    ensures (b + Minus(a, b)) % WRAP == a
  {
    var d := a - b;
    var q := d / WRAP;
    assert b + d % WRAP == a + (-q) * WRAP;
    Multiple(a, -q);
  }

  // ---- the interpreter's path --------------------------------------------------------------------

  const SLASH: byte := 0x2F

  function InterpKey(): seq<byte> { Ascii("ONELF_INTERP=") }

  function ProcPrefix(): seq<byte> { Ascii("/proc/") }

  /** The absolute path that a variable gives, if it is the override. */
  predicate Overrides(v: seq<byte>) {
    StartsWith(v, InterpKey()) && |v| > |InterpKey()| && v[|InterpKey()|] == SLASH
  }

  function Override(envp: seq<seq<byte>>): Option<seq<byte>> {
    if envp == [] then None else if Overrides(envp[0]) then Some(envp[0][|InterpKey()|..]) else Override(envp[1..])
  }

  method FindOverride(envp: seq<seq<byte>>) returns (r: Option<seq<byte>>)
    ensures r == Override(envp)
  {
    assert envp[0..] == envp;
    for i := 0 to |envp|
      invariant Override(envp[i..]) == Override(envp)
    {
      assert envp[i..][1..] == envp[i + 1..];
      if Overrides(envp[i]) { return Some(envp[i][|InterpKey()|..]); }
    }
    r := None;
  }

  /** Up to and with the last slash. */
  predicate IsDirectory(s: seq<byte>, n: nat) {
    n <= |s| && (n > 0 ==> s[n - 1] == SLASH) && forall i :: n <= i < |s| ==> s[i] != SLASH
  }

  method DirectoryLength(s: seq<byte>) returns (n: nat)
    ensures IsDirectory(s, n)
  {
    n := 0;
    for i := 0 to |s|
      invariant n <= i && (n > 0 ==> s[n - 1] == SLASH) && forall k :: n <= k < i ==> s[k] != SLASH
    {
      if s[i] == SLASH { n := i + 1; }
    }
  }

  const LINK_BYTES := 4095

  /** The binary's own path: what a name below /proc links to, unless that is cut short. */
  function Binary(execfn: seq<byte>, link: Option<seq<byte>>): seq<byte> {
    if StartsWith(execfn, ProcPrefix()) && link.Some? && 0 < |link.value| < LINK_BYTES then link.value else execfn
  }

  /** The path that is opened as the interpreter. */
  ghost predicate IsInterpPath(path: seq<byte>, binary: seq<byte>, rel: seq<byte>, chosen: Option<seq<byte>>) {
    match chosen
    case Some(p) => path == p
    case None => exists n: nat :: IsDirectory(binary, n) && path == binary[..n] + rel
  }

  method InterpPath(execfn: seq<byte>, link: Option<seq<byte>>, rel: seq<byte>, chosen: Option<seq<byte>>)
    returns (path: seq<byte>)
    ensures IsInterpPath(path, Binary(execfn, link), rel, chosen)
  {
    hide ProcPrefix, StartsWith;
    var binary := Binary(execfn, link);
    var n := DirectoryLength(binary);
    if chosen.Some? { return chosen.value; }
    path := binary[..n] + rel;
  }

  // ---- all of it ----------------------------------------------------------------------------------

  /** What the value of a tag becomes. */
  function NewValue(tag: nat, value: nat, count: nat, buf: nat, delta: int, base: nat): nat {
    if tag == AT_PHDR then buf
    else if tag == AT_PHNUM then count + 1
    else if tag == AT_ENTRY then (value + delta) % WRAP
    else if tag == AT_BASE then base
    else value
  }

  /** The environment may name another interpreter, but not to a process that was given privileges. */
  function Chosen(secure: Option<nat>, envp: seq<seq<byte>>): Option<seq<byte>> {
    if secure.Some? && secure.value != 0 then None else Override(envp)
  }

  method Store(aux: array<nat>, ghost n: nat, slots: seq<Option<nat>>, tag: nat, value: nat)
    requires Vector(aux[..], n) && AreSlots(aux[..], n, slots) && 0 < tag < 32
    modifies aux
    ensures Vector(aux[..], n) && AreSlots(aux[..], n, slots)
    ensures forall k :: 0 <= k <= n ==> TagAt(aux[..], k) == TagAt(old(aux[..]), k)
    ensures forall k :: 0 <= k <= n ==>
      ValueAt(aux[..], k) == if TagAt(old(aux[..]), k) == tag then value else ValueAt(old(aux[..]), k)
    ensures aux[2 * n + 2..] == old(aux[2 * n + 2..])
  {
    ghost var a := aux[..];
    if slots[tag].Some? {
      var k := slots[tag].value;
      aux[2 * k + 1] := value;
      SameTags(a, aux[..], n, slots, k, value);
    }
  }

  lemma SameTags(a: seq<nat>, b: seq<nat>, n: nat, slots: seq<Option<nat>>, j: nat, value: nat)
    requires Vector(a, n) && AreSlots(a, n, slots) && j < n && b == a[2 * j + 1 := value]
    ensures Vector(b, n) && AreSlots(b, n, slots)
    ensures forall k :: 0 <= k <= n ==> TagAt(b, k) == TagAt(a, k)
    ensures forall k :: 0 <= k <= n ==> ValueAt(b, k) == if k == j then value else ValueAt(a, k)
  {
    forall k | 0 <= k <= n ensures TagAt(b, k) == TagAt(a, k) {}
    forall t | 0 <= t < 32 ensures IsSlot(b, n, t, slots[t]) { assert IsSlot(a, n, t, slots[t]); }
  }

  /** The vector once everything has been rewritten: `b` from `a`. */
  predicate Rewritten(a: seq<nat>, b: seq<nat>, n: nat, count: nat, buf: nat, delta: int, base: nat)
    requires 2 * n + 1 < |a| && 2 * n + 1 < |b|
  {
    && (forall k :: 0 <= k <= n ==> TagAt(b, k) == TagAt(a, k))
    && (forall k :: 0 <= k <= n ==> ValueAt(b, k) == NewValue(TagAt(a, k), ValueAt(a, k), count, buf, delta, base))
    && b[2 * n + 2..] == a[2 * n + 2..]
  }

  /** The grown table: the patched headers, if there was a table, and the interpreter's. */
  predicate Grown(table: seq<Header>, hs: seq<Header>, at: Option<nat>, buf: nat, plen: nat) {
    && |table| == |hs| + 1
    && (forall j :: 0 <= j < |hs| ==> table[j] == if at.Some? then Patched(hs[j], at.value, buf, |hs|) else ZERO)
    && table[|hs|] == Interp(buf, |hs|, if at.Some? then Bias(hs, at.value) else 0, plen)
  }

  /** The load address that the patched headers give is the one that the headers gave. */
  lemma {:induction false} BiasOfPatched(table: seq<Header>, hs: seq<Header>, at: nat, buf: nat, count: nat)
    requires |table| == |hs| && forall j :: 0 <= j < |hs| ==> table[j] == Patched(hs[j], at, buf, count)
    ensures Bias(table, buf) == Bias(hs, at)
  {
    if hs != [] {
      var last := |hs| - 1;
      if hs[last].kind == PT_PHDR { LoadAddressIsKept(hs[last], at, buf, count); }
      hide Minus;
      BiasOfPatched(table[..last], hs[..last], at, buf, count);
    }
  }

  lemma {:induction false} BiasOfZeros(table: seq<Header>, buf: nat)
    requires forall j :: 0 <= j < |table| ==> table[j] == ZERO
    ensures Bias(table, buf) == 0
  {
    if table != [] { BiasOfZeros(table[..|table| - 1], buf); }
  }

  lemma BiasOfGrown(table: seq<Header>, hs: seq<Header>, at: Option<nat>, buf: nat, plen: nat)
    requires Grown(table, hs, at, buf, plen)
    ensures Bias(table, buf) == if at.Some? then Bias(hs, at.value) else 0
  {
    var front := table[..|hs|];
    assert Bias(table, buf) == Bias(front, buf);
    hide Patched, Minus, Bias;
    if at.Some? { BiasOfPatched(front, hs, at.value, buf, |hs|); } else { BiasOfZeros(front, buf); }
  }

  /** Whoever derives the load address from the grown table finds the one that the vector's table gave,
      whatever headers it has, and at that address the interpreter's header leads to what is behind the table. */
  lemma InterpIsFound(table: seq<Header>, hs: seq<Header>, at: Option<nat>, buf: nat, plen: nat)
    requires Grown(table, hs, at, buf, plen) && buf + |table| * 56 < WRAP
    ensures Bias(table, buf) == if at.Some? then Bias(hs, at.value) else 0
    ensures (Bias(table, buf) + table[|hs|].vaddr) % WRAP == buf + |table| * 56
    ensures var h := table[|hs|]; h.kind == 3 && h.flags == 4 && h.filesz == h.memsz == plen + 1
  {
    BiasOfGrown(table, hs, at, buf, plen);
    PlusMinus(buf + (|hs| + 1) * HEADER_BYTES, Bias(table, buf));
    hide Bias, Minus, Patched;
  }

  /** A header of the binary is kept, unless it describes the table. Then it describes the grown table, where
      that is and how many bytes it has, seen from the load address that it gave. */
  lemma HeadersAreKept(table: seq<Header>, hs: seq<Header>, at: nat, buf: nat, plen: nat, j: nat)
    requires Grown(table, hs, Some(at), buf, plen) && j < |hs| && buf < WRAP
    ensures hs[j].kind != 6 ==> table[j] == hs[j]
    ensures hs[j].kind == 6 ==>
      var bias := Minus(at, hs[j].vaddr);
      && table[j] == hs[j].(vaddr := table[j].vaddr, paddr := table[j].vaddr,
                            filesz := |table| * 56, memsz := |table| * 56)
      && (bias + table[j].vaddr) % WRAP == buf
  {
    PlusMinus(buf, Minus(at, hs[j].vaddr));
    hide Minus;
  }

  /** What `getauxval` finds afterwards: the grown table and its length, the interpreter's place, the moved
      entry, and everything else as it was. */
  lemma VectorTells(a: seq<nat>, b: seq<nat>, n: nat, count: nat, buf: nat, delta: int, base: nat, tag: nat)
    requires Vector(a, n) && 2 * n + 1 < |b| && Rewritten(a, b, n, count, buf, delta, base)
    ensures Lookup(b, n, tag).Some? <==> Lookup(a, n, tag).Some?
    ensures Lookup(a, n, tag).Some? ==>
      Lookup(b, n, tag).value ==
        if tag == 3 then buf
        else if tag == 5 then count + 1
        else if tag == 7 then base
        else if tag == 9 then (Lookup(a, n, tag).value + delta) % WRAP
        else Lookup(a, n, tag).value
  {
    LookedUp(a, b, n, n + 1, count, buf, delta, base, tag);
  }

  lemma {:induction false} LookedUp(a: seq<nat>, b: seq<nat>, n: nat, k: nat, count: nat, buf: nat, delta: int,
                                    base: nat, tag: nat)
    requires 2 * n + 1 < |a| && 2 * n + 1 < |b| && Rewritten(a, b, n, count, buf, delta, base) && k <= n + 1
    ensures ValueOf(b, k, tag) ==
      match ValueOf(a, k, tag) case None => None case Some(v) => Some(NewValue(tag, v, count, buf, delta, base))
  {
    if k > 0 {
      LookedUp(a, b, n, k - 1, count, buf, delta, base, tag);
      hide NewValue;
    }
  }

  /** The first string of the environment that gives an absolute path for the interpreter. */
  ghost predicate Names(envp: seq<seq<byte>>, i: nat, path: seq<byte>)
    requires i < |envp|
  {
    envp[i] == Ascii("ONELF_INTERP=") + path && path != [] && path[0] == 0x2F
  }

  ghost predicate NamesFirst(envp: seq<seq<byte>>, i: nat, path: seq<byte>)
    requires i < |envp|
  {
    Names(envp, i, path) && forall j, other :: 0 <= j < i ==> !Names(envp, j, other)
  }

  lemma OverrideIs(v: seq<byte>, path: seq<byte>)
    ensures v == Ascii("ONELF_INTERP=") + path && path != [] && path[0] == 0x2F
      <==> Overrides(v) && v[|InterpKey()|..] == path
  {
    if Overrides(v) && v[|InterpKey()|..] == path {
      assert v == InterpKey() + path;
    }
    if v == Ascii("ONELF_INTERP=") + path && path != [] && path[0] == 0x2F {
      assert v[..|InterpKey()|] == InterpKey() && v[|InterpKey()|..] == path;
    }
  }

  lemma {:induction false} OverrideMeans(envp: seq<seq<byte>>)
    ensures Override(envp).None? ==> forall i, path :: 0 <= i < |envp| ==> !Names(envp, i, path)
    ensures Override(envp).Some? ==> exists i :: 0 <= i < |envp| && NamesFirst(envp, i, Override(envp).value)
  {
    if envp != [] {
      forall path: seq<byte> ensures Names(envp, 0, path) <==> Overrides(envp[0]) && envp[0][|InterpKey()|..] == path {
        OverrideIs(envp[0], path);
      }
      hide Overrides, InterpKey;
      OverrideMeans(envp[1..]);
      if Overrides(envp[0]) {
        assert NamesFirst(envp, 0, Override(envp).value);
      } else {
        forall i, path | 0 <= i < |envp| && Override(envp).None? ensures !Names(envp, i, path) {
          if i > 0 { assert Names(envp, i, path) ==> Names(envp[1..], i - 1, path); }
        }
        if Override(envp).Some? {
          var i :| 0 <= i < |envp[1..]| && NamesFirst(envp[1..], i, Override(envp).value);
          NamedLater(envp, i, Override(envp).value);
        }
      }
    }
  }

  lemma NamedLater(envp: seq<seq<byte>>, i: nat, path: seq<byte>)
    requires envp != [] && i < |envp[1..]| && NamesFirst(envp[1..], i, path)
    requires forall other :: !Names(envp, 0, other)
    ensures NamesFirst(envp, i + 1, path)
  {
    forall j, other | 0 <= j < i + 1 ensures !Names(envp, j, other) {
      if j > 0 { assert !Names(envp[1..], j - 1, other); }
    }
  }

  /** An interpreter of the environment is taken exactly if the process was given no privileges. */
  lemma ChosenMeans(secure: Option<nat>, envp: seq<seq<byte>>)
    ensures Chosen(secure, envp).Some? ==>
      (secure == None || secure == Some(0)) && exists i ::
        0 <= i < |envp| && NamesFirst(envp, i, Chosen(secure, envp).value)
    ensures Chosen(secure, envp).None? ==>
      (secure.Some? && secure.value > 0) || forall i, path :: 0 <= i < |envp| ==> !Names(envp, i, path)
  {
    OverrideMeans(envp);
    hide Override, NamesFirst, Names;
  }

  method GrowTable(hs: seq<Header>, at: Option<nat>, buf: nat, plen: nat) returns (table: array<Header>)
    ensures fresh(table) && Grown(table[..], hs, at, buf, plen)
  {
    hide Patched, Bias;
    table := new Header[|hs| + 1](_ => ZERO);
    var bias := 0;
    if at.Some? {
      bias := CopyHeaders(table, hs, at.value, buf);
    }
    table[|hs|] := Header(PT_INTERP, PF_R, 0, Minus(buf + (|hs| + 1) * HEADER_BYTES, bias), 0, plen + 1, plen + 1, 0);
  }

  method RewriteVector(aux: array<nat>, ghost n: nat, slots: seq<Option<nat>>, count: nat, buf: nat, delta: int,
                       base: nat)
    requires Vector(aux[..], n) && AreSlots(aux[..], n, slots)
    modifies aux
    ensures Vector(aux[..], n) && Rewritten(old(aux[..]), aux[..], n, count, buf, delta, base)
  {
    ghost var a := aux[..];
    OnlySlot(a, n, slots, AT_ENTRY);
    hide Vector, AreSlots;
    Store(aux, n, slots, AT_PHDR, buf);
    Store(aux, n, slots, AT_PHNUM, count + 1);
    if slots[AT_ENTRY].Some? {
      var k := slots[AT_ENTRY].value;
      assert aux[2 * k + 1] == ValueAt(aux[..], k) == ValueAt(a, k);
      Store(aux, n, slots, AT_ENTRY, (aux[2 * k + 1] + delta) % WRAP);
    }
    Store(aux, n, slots, AT_BASE, base);
  }

  lemma OnlySlot(a: seq<nat>, n: nat, slots: seq<Option<nat>>, tag: nat)
    requires Vector(a, n) && AreSlots(a, n, slots) && tag < 32
    ensures slots[tag].Some? ==> slots[tag].value <= n && TagAt(a, slots[tag].value) == tag
    ensures forall k :: 0 <= k <= n && TagAt(a, k) == tag ==> slots[tag] == Some(k)
  {
    assert IsSlot(a, n, tag, slots[tag]);
    forall k | 0 <= k <= n && TagAt(a, k) == tag ensures slots[tag] == Some(k) {
      SameTag(a, n, slots[tag].value, k);
    }
  }

  lemma SameTag(a: seq<nat>, n: nat, j: nat, k: nat)
    requires Vector(a, n) && j <= n && k <= n && TagAt(a, j) == TagAt(a, k)
    ensures j == k
  {
  }

  /** `_onelf_bootstrap`, but for mapping the interpreter at `base`. `hs` is the table that the vector
      points at. Without a name of the binary the original gives up. */
  method Bootstrap(aux: array<nat>, ghost n: nat, envp: seq<seq<byte>>, execfn: seq<byte>, link: Option<seq<byte>>,
                   rel: seq<byte>, hs: seq<Header>, buf: nat, delta: int, base: nat)
    returns (ok: bool, table: array<Header>, path: seq<byte>)
    requires Vector(aux[..], n)
    requires |hs| == match Lookup(aux[..], n, AT_PHNUM) case Some(count) => count case None => 0
    modifies aux
    ensures ok <==> Lookup(old(aux[..]), n, AT_EXECFN).Some?
    ensures ok ==> Vector(aux[..], n) && Rewritten(old(aux[..]), aux[..], n, |hs|, buf, delta, base)
    ensures ok ==> IsInterpPath(path, Binary(execfn, link), rel, Chosen(Lookup(old(aux[..]), n, AT_SECURE), envp))
    ensures ok ==> Grown(table[..], hs, Lookup(old(aux[..]), n, AT_PHDR), buf, |path|)
  {
    hide Grown, IsInterpPath, Binary, Override, Rewritten, Lookup;
    table := new Header[0];
    path := [];
    ghost var a := aux[..];
    var slots := IndexVector(aux, n);
    SlotHolds(a, n, slots, AT_EXECFN);
    SlotHolds(a, n, slots, AT_SECURE);
    SlotHolds(a, n, slots, AT_PHDR);
    hide Vector, AreSlots;
    ok := slots[AT_EXECFN].Some?;
    if !ok { return; }
    var secure := false;
    if slots[AT_SECURE].Some? {
      assert aux[2 * slots[AT_SECURE].value + 1] == ValueAt(a, slots[AT_SECURE].value);
      secure := aux[2 * slots[AT_SECURE].value + 1] != 0;
    }
    var chosen := None;
    if !secure { chosen := FindOverride(envp); }
    path := InterpPath(execfn, link, rel, chosen);
    var at: Option<nat> := None;
    if slots[AT_PHDR].Some? {
      assert aux[2 * slots[AT_PHDR].value + 1] == ValueAt(a, slots[AT_PHDR].value);
      at := Some(aux[2 * slots[AT_PHDR].value + 1]);
    }
    table := GrowTable(hs, at, buf, |path|);
    RewriteVector(aux, n, slots, |hs|, buf, delta, base);
  }
}
