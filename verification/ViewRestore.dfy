/** What the per-view environment record does: `encode_view_env` of `crates/onelf-rt/src/env.rs`
    chooses what goes into it, `apply` of `crates/onelf-payloads/src/rtenv.rs` what comes back.
 */
module ViewRestore {
  import opened Bytes
  import opened ViewRecord
  import opened ViewReader
  import opened Environment
  import EnvRecord

  function RootsName(): seq<byte> { Ascii("ONELF_ROOTS") }

  function HostName(): seq<byte> { Ascii("ONELF_HOST_ENV") }

  // ---- applying --------------------------------------------------------------------------

  /** A preserve mapping that the launch left unset makes no claim. */
  predicate Claims(e: Entry) { e.policy.Replace? || e.leftSet }

  function ApplyEntry(env: Env, e: Entry): Env {
    if e.name in env || !Claims(e) then env else env[e.name := e.value]
  }

  function ApplyEntries(env: Env, es: seq<Entry>): Env
    decreases |es|
  {
    if es == [] then env else ApplyEntries(ApplyEntry(env, es[0]), es[1..])
  }

  function PutMissing(env: Env, name: seq<byte>, value: Option<seq<byte>>): Env {
    if value.None? || name in env || |value.value| > MAX_VALUE_BYTES then env else env[name := value.value]
  }

  function ApplyRecord(env: Env, r: Record): Env {
    PutMissing(PutMissing(ApplyEntries(env, r.entries), RootsName(), r.roots), HostName(), r.host)
  }

  /** What an input makes of an environment: nothing, unless it is accepted whole. */
  function ApplyInput(env: Env, input: seq<byte>): Env {
    match Parse(input)
    case Refused(_) => env
    case Got(r, _) => ApplyRecord(env, r)
  }

  method Restore(process: Process, name: seq<byte>, value: Option<seq<byte>>)
    modifies process
    ensures process.env == PutMissing(old(process.env), name, value)
  {
    if value.None? { return; }
    var live := process.GetEnv(name);
    if live.Some? || |value.value| > MAX_VALUE_BYTES { return; }
    process.SetEnv(name, value.value);
  }

  /** `apply`. */
  method Apply(process: Process, input: seq<byte>) returns (ok: bool)
    modifies process
    ensures ok <==> Parse(input).Got?
    ensures process.env == ApplyInput(old(process.env), input)
  {
    hide Parse, RootsName, HostName;
    var decoded := ParseRecord(input);
    if decoded.Err? { return false; }
    ghost var r := Parse(input).value;
    var entries := Entries(decoded.value, r);
    assert entries[0..] == entries;
    for i := 0 to |entries|
      invariant ApplyEntries(process.env, entries[i..]) == ApplyEntries(old(process.env), entries)
    {
      assert entries[i..][1..] == entries[i + 1..];
      var entry := entries[i];
      var live := process.GetEnv(entry.name);
      if live.Some? { continue; }
      if entry.policy.Preserve? && !entry.leftSet { continue; }
      process.SetEnv(entry.name, entry.value);
    }
    Restore(process, RootsName(), decoded.value.roots);
    Restore(process, HostName(), decoded.value.host);
    ok := true;
  }

  // ---- what applying does ------------------------------------------------------------------

  /** The first entry of a name that makes a claim. */
  function FirstClaim(es: seq<Entry>, name: seq<byte>): Option<seq<byte>> {
    if es == [] then None
    else if es[0].name == name && Claims(es[0]) then Some(es[0].value)
    else FirstClaim(es[1..], name)
  }

  function Either(a: Option<seq<byte>>, b: Option<seq<byte>>): Option<seq<byte>> { if a.Some? then a else b }

  /** What a record offers for a name. */
  function Offer(r: Record, name: seq<byte>): Option<seq<byte>> {
    Either(FirstClaim(r.entries, name),
           if name == RootsName() then r.roots else if name == HostName() then r.host else None)
  }

  lemma {:induction false} EntriesOffer(env: Env, es: seq<Entry>, name: seq<byte>)
    ensures Get(ApplyEntries(env, es), name) == Either(Get(env, name), FirstClaim(es, name))
    decreases |es|
  {
    if es != [] { EntriesOffer(ApplyEntry(env, es[0]), es[1..], name); }
  }

  lemma NamesDiffer()
    ensures RootsName() != HostName()
  {
    assert |RootsName()| != |HostName()|;
  }

  /** A variable that is present stays as it is, and a missing one becomes what the record offers. */
  lemma MissingAreFilled(env: Env, r: Record, name: seq<byte>)
    requires Valid(r)
    ensures Get(ApplyRecord(env, r), name) == Either(Get(env, name), Offer(r, name))
  {
    NamesDiffer();
    EntriesOffer(env, r.entries, name);
    hide RootsName, HostName, ApplyEntries, FirstClaim, ValidEntries;
  }

  lemma PresentIsKept(env: Env, input: seq<byte>)
    ensures forall n :: n in env ==> n in ApplyInput(env, input) && ApplyInput(env, input)[n] == env[n]
  {
    if Parse(input).Got? {
      hide Parse, ApplyRecord, Valid, Offer;
      forall n | n in env ensures n in ApplyInput(env, input) && ApplyInput(env, input)[n] == env[n] {
        MissingAreFilled(env, Parse(input).value, n);
      }
    }
  }

  lemma SameEverywhere(a: Env, b: Env)
    requires forall n :: Get(a, n) == Get(b, n)
    ensures a == b
  {
    forall n ensures n in a <==> n in b { assert Get(a, n) == Get(b, n); }
    forall n | n in a ensures a[n] == b[n] { assert Get(a, n) == Get(b, n); }
  }

  /** Applying an input again changes nothing, so every exec of the entrypoint may do it. */
  lemma ApplyingTwice(env: Env, input: seq<byte>)
    ensures ApplyInput(ApplyInput(env, input), input) == ApplyInput(env, input)
  {
    if Parse(input).Got? {
      var r := Parse(input).value;
      hide Parse, ApplyRecord, Valid, Offer;
      var once := ApplyRecord(env, r);
      forall n ensures Get(ApplyRecord(once, r), n) == Get(once, n) {
        MissingAreFilled(env, r, n);
        MissingAreFilled(once, r, n);
      }
      SameEverywhere(ApplyRecord(once, r), once);
    }
  }

  // ---- what the runtime writes -----------------------------------------------------------------

  /** One alias of a path mapping, with the value of its mapping. */
  datatype Mapped = Mapped(name: seq<byte>, value: seq<byte>, policy: Policy)

  predicate Fits(name: seq<byte>, value: seq<byte>) { ValidName(name) && ValidValue(value) }

  /** The entries of the aliases whose names come up for the first time. */
  function MappedEntries(maps: seq<Mapped>, seen: set<seq<byte>>, now: Env): seq<Entry> {
    if maps == [] then []
    else
      var m := maps[0];
      (if m.name !in seen && Fits(m.name, m.value) then [Entry(m.name, m.value, m.policy, m.name in now)] else [])
      + MappedEntries(maps[1..], seen + {m.name}, now)
  }

  function MappedNames(maps: seq<Mapped>): (names: set<seq<byte>>)
    ensures forall n :: n in names <==> exists i :: 0 <= i < |maps| && maps[i].name == n
  {
    set i | 0 <= i < |maps| :: maps[i].name
  }

  /** A variable that the launch changed and that no mapping has. */
  predicate Changed(base: Env, now: Env, mapped: set<seq<byte>>, name: seq<byte>)
    requires name in now
  {
    Get(base, name) != Some(now[name]) && name != HostName() && name != RootsName() && name !in mapped
  }

  function ChangedEntries(base: Env, now: Env, mapped: set<seq<byte>>, names: seq<seq<byte>>): seq<Entry>
    requires forall i :: 0 <= i < |names| ==> names[i] in now
  {
    if names == [] then []
    else
      var n := names[0];
      (if Changed(base, now, mapped, n) && Fits(n, now[n]) then [Entry(n, now[n], Replace, true)] else [])
      + ChangedEntries(base, now, mapped, names[1..])
  }

  function Scalar(now: Env, name: seq<byte>): Option<seq<byte>> {
    if name in now && ValidValue(now[name]) then Some(now[name]) else None
  }

  /** The names of an environment, in order. */
  ghost predicate InOrder(now: Env, names: seq<seq<byte>>) {
    && (forall n :: n in names <==> n in now)
    && (forall i, j :: 0 <= i < j < |names| ==> Before(names[i], names[j]))
  }

  function RecordFor(base: Env, now: Env, maps: seq<Mapped>, names: seq<seq<byte>>): Record
    requires forall i :: 0 <= i < |names| ==> names[i] in now
  {
    Record(
      MappedEntries(maps, {}, now) + ChangedEntries(base, now, MappedNames(maps), names),
      Scalar(now, RootsName()),
      Scalar(now, HostName()))
  }

  lemma {:induction false} MappedAreValid(maps: seq<Mapped>, seen: set<seq<byte>>, now: Env)
    ensures ValidEntries(MappedEntries(maps, seen, now))
  {
    if maps != [] {
      hide ValidName, ValidValue;
      MappedAreValid(maps[1..], seen + {maps[0].name}, now);
    }
  }

  lemma {:induction false} ChangedAreValid(base: Env, now: Env, mapped: set<seq<byte>>, names: seq<seq<byte>>)
    requires forall i :: 0 <= i < |names| ==> names[i] in now
    ensures ValidEntries(ChangedEntries(base, now, mapped, names))
  {
    if names != [] {
      hide ValidName, ValidValue, Changed;
      assert forall i :: 0 <= i < |names| - 1 ==> names[1..][i] == names[i + 1];
      ChangedAreValid(base, now, mapped, names[1..]);
    }
  }

  lemma RecordIsValid(base: Env, now: Env, maps: seq<Mapped>, names: seq<seq<byte>>)
    requires forall i :: 0 <= i < |names| ==> names[i] in now
    requires |RecordFor(base, now, maps, names).entries| <= MAX_ENTRIES
    ensures Valid(RecordFor(base, now, maps, names))
  {
    MappedAreValid(maps, {}, now);
    ChangedAreValid(base, now, MappedNames(maps), names);
    hide MappedEntries, ChangedEntries, ValidEntry, ValidValue, RootsName, HostName, MappedNames;
  }

  // ---- writing ---------------------------------------------------------------------------------

  /** `put`: the first bytes past the bound refuse the whole. */
  method Put(out: seq<byte>, bytes: seq<byte>) returns (longer: Option<seq<byte>>)
    ensures longer == if |out| + |bytes| > MAX_RECORD_BYTES then None else Some(out + bytes)
  {
    longer := if |out| + |bytes| > MAX_RECORD_BYTES then None else Some(out + bytes);
  }

  method PutValue(out: seq<byte>, value: seq<byte>) returns (longer: Option<seq<byte>>)
    ensures longer == if |out| + |ValueText(value)| > MAX_RECORD_BYTES then None else Some(out + ValueText(value))
  {
    hide EnvRecord.Decimal;
    longer := Put(out, EnvRecord.Decimal(|value|));
    if longer.None? { return; }
    longer := Put(longer.value, [COLON]);
    if longer.None? { return; }
    longer := Put(longer.value, value);
    assert out + ValueText(value) == out + EnvRecord.Decimal(|value|) + [COLON] + value;
  }

  method PutEntry(out: seq<byte>, e: Entry) returns (longer: Option<seq<byte>>)
    ensures longer == if |out| + |EntryText(e)| > MAX_RECORD_BYTES then None else Some(out + EntryText(e))
  {
    hide ValueText, PolicyByte, AppliedByte;
    longer := Put(out, e.name);
    if longer.None? { return; }
    longer := Put(longer.value, [EQUALS]);
    if longer.None? { return; }
    longer := Put(longer.value, [PolicyByte(e.policy)]);
    if longer.None? { return; }
    longer := PutValue(longer.value, e.value);
    if longer.None? { return; }
    longer := Put(longer.value, [AppliedByte(e.leftSet)]);
    if longer.None? { return; }
    longer := Put(longer.value, [SEMICOLON, NEWLINE]);
    assert out + EntryText(e)
      == out + e.name + [EQUALS] + [PolicyByte(e.policy)] + ValueText(e.value) + [AppliedByte(e.leftSet)]
        + [SEMICOLON, NEWLINE];
  }

  method PutScalar(out: seq<byte>, tag: byte, now: Env, name: seq<byte>) returns (longer: Option<seq<byte>>)
    requires |out| <= MAX_RECORD_BYTES
    ensures var text := ScalarText(tag, Scalar(now, name));
      longer == if |out| + |text| > MAX_RECORD_BYTES then None else Some(out + text)
  {
    hide ValueText;
    assert out + [] == out;
    if name !in now { return Some(out); }
    var bytes := now[name];
    if |bytes| > MAX_VALUE_BYTES || 0 in bytes { return Some(out); }
    longer := Put(out, [tag]);
    if longer.None? { return; }
    longer := PutValue(longer.value, bytes);
    if longer.None? { return; }
    longer := Put(longer.value, [SEMICOLON, NEWLINE]);
    assert out + ([tag] + ValueText(bytes) + [SEMICOLON, NEWLINE])
      == out + [tag] + ValueText(bytes) + [SEMICOLON, NEWLINE];
  }

  lemma {:induction false} EntriesTextAdds(a: seq<Entry>, b: seq<Entry>)
    ensures EntriesText(a + b) == EntriesText(a) + EntriesText(b)
  {
    hide EntryText;
    if a == [] {
      assert a + b == b;
    } else {
      assert (a + b)[1..] == a[1..] + b;
      EntriesTextAdds(a[1..], b);
    }
  }

  lemma EntriesTextStep(es: seq<Entry>, i: nat)
    requires i < |es|
    ensures EntriesText(es[..i + 1]) == EntriesText(es[..i]) + EntryText(es[i])
    ensures |EntriesText(es[..i])| + |EntryText(es[i])| <= |EntriesText(es)|
  {
    hide EntryText;
    assert es[..i + 1] == es[..i] + [es[i]] && es == es[..i + 1] + es[i + 1..];
    EntriesTextAdds(es[..i], [es[i]]);
    EntriesTextAdds(es[..i + 1], es[i + 1..]);
    assert [es[i]][1..] == [];
  }

  lemma PutStep(out: seq<byte>, es: seq<Entry>, i: nat)
    requires i < |es|
    ensures out + EntriesText(es[..i + 1]) == out + EntriesText(es[..i]) + EntryText(es[i])
    ensures |out + EntriesText(es[..i])| + |EntryText(es[i])| <= |out| + |EntriesText(es)|
  {
    hide EntriesText, EntryText;
    EntriesTextStep(es, i);
  }

  method PutEntries(out: seq<byte>, es: seq<Entry>) returns (longer: Option<seq<byte>>)
    requires |out| <= MAX_RECORD_BYTES
    ensures longer == if |out| + |EntriesText(es)| > MAX_RECORD_BYTES then None else Some(out + EntriesText(es))
  {
    assert EntriesText(es[..0]) == [] && out + [] == out;
    hide EntriesText, EntryText;
    var text := out;
    for i := 0 to |es|
      invariant text == out + EntriesText(es[..i]) && |text| <= MAX_RECORD_BYTES
    {
      PutStep(out, es, i);
      longer := PutEntry(text, es[i]);
      if longer.None? { return; }
      text := longer.value;
    }
    assert es[..|es|] == es;
    longer := Some(text);
  }

  lemma MappedStep(entries: seq<Entry>, maps: seq<Mapped>, i: nat, seen: set<seq<byte>>, now: Env)
    requires i < |maps|
    ensures var m := maps[i]; var rest := maps[i + 1..];
      entries + MappedEntries(maps[i..], seen, now) ==
        if m.name in seen then entries + MappedEntries(rest, seen, now)
        else if !Fits(m.name, m.value) then entries + MappedEntries(rest, seen + {m.name}, now)
        else entries + [Entry(m.name, m.value, m.policy, m.name in now)] + MappedEntries(rest, seen + {m.name}, now)
  {
    hide Fits;
    var m := maps[i];
    assert maps[i..][0] == m && maps[i..][1..] == maps[i + 1..];
    var later := MappedEntries(maps[i + 1..], seen + {m.name}, now);
    if m.name in seen { assert seen + {m.name} == seen; }
    assert [] + later == later;
    var e := Entry(m.name, m.value, m.policy, m.name in now);
    assert entries + ([e] + later) == entries + [e] + later;
  }

  method CollectMapped(maps: seq<Mapped>, now: Env) returns (entries: seq<Entry>, mapped: set<seq<byte>>)
    ensures entries == MappedEntries(maps, {}, now) && mapped == MappedNames(maps)
  {
    entries, mapped := [], {};
    assert maps[..0] == [] && maps[0..] == maps && MappedNames([]) == {};
    assert [] + MappedEntries(maps, {}, now) == MappedEntries(maps, {}, now);
    hide Fits, MappedNames;
    for i := 0 to |maps|
      invariant mapped == MappedNames(maps[..i])
      invariant entries + MappedEntries(maps[i..], mapped, now) == MappedEntries(maps, {}, now)
    {
      hide MappedEntries;
      var m := maps[i];
      OneNameMore(maps, i);
      MappedStep(entries, maps, i, mapped, now);
      if m.name in mapped {
        assert mapped + {m.name} == mapped;
        continue;
      }
      mapped := mapped + {m.name};
      if !Fits(m.name, m.value) { continue; }
      entries := entries + [Entry(m.name, m.value, m.policy, m.name in now)];
    }
    assert maps[..|maps|] == maps && maps[|maps|..] == [];
  }

  lemma OneNameMore(maps: seq<Mapped>, i: nat)
    requires i < |maps|
    ensures MappedNames(maps[..i + 1]) == MappedNames(maps[..i]) + {maps[i].name}
  {
    assert maps[..i + 1] == maps[..i] + [maps[i]];
    assert maps[..i + 1][i] == maps[i];
    forall n | n in MappedNames(maps[..i]) ensures n in MappedNames(maps[..i + 1]) {
      var k :| 0 <= k < i && maps[..i][k].name == n;
      assert maps[..i + 1][k].name == n;
    }
  }

  lemma {:induction false} OneChangeMore(base: Env, now: Env, mapped: set<seq<byte>>, names: seq<seq<byte>>,
                                         name: seq<byte>)
    requires name in now && forall i :: 0 <= i < |names| ==> names[i] in now
    ensures ChangedEntries(base, now, mapped, names + [name]) == ChangedEntries(base, now, mapped, names)
      + (if Changed(base, now, mapped, name) &&
        Fits(name, now[name]) then [Entry(name, now[name], Replace, true)] else [])
  {
    hide Changed, Fits;
    if names == [] {
      assert names + [name] == [name] && [name][1..] == [];
    } else {
      assert (names + [name])[1..] == names[1..] + [name];
      OneChangeMore(base, now, mapped, names[1..], name);
    }
  }

  method CollectChanged(base: Env, now: Env, mapped: set<seq<byte>>)
    returns (entries: seq<Entry>, ghost names: seq<seq<byte>>)
    ensures InOrder(now, names) && entries == ChangedEntries(base, now, mapped, names)
  {
    hide Before, IsLeast, Changed, Fits;
    var left := now.Keys;
    entries, names := [], [];
    while left != {}
      invariant left <= now.Keys
      invariant forall n :: n in names <==> n in now && n !in left
      invariant forall i, j :: 0 <= i < j < |names| ==> Before(names[i], names[j])
      invariant forall n, m :: n in names && m in left ==> Before(n, m)
      invariant entries == ChangedEntries(base, now, mapped, names)
      decreases left
    {
      LeastExists(left);
      var name :| name in left && IsLeast(name, left);
      LeastIsBefore(name, left);
      left := left - {name};
      OneChangeMore(base, now, mapped, names, name);
      names := names + [name];
      if !Changed(base, now, mapped, name) { continue; }
      if !Fits(name, now[name]) { continue; }
      entries := entries + [Entry(name, now[name], Replace, true)];
    }
  }

  /** `encode_view_env`: the whole record, or nothing if the constructor would refuse to read it. */
  method EncodeViewEnv(base: Env, now: Env, maps: seq<Mapped>)
    returns (out: Option<seq<byte>>, ghost names: seq<seq<byte>>)
    ensures InOrder(now, names)
    ensures var r := RecordFor(base, now, maps, names);
      out == if |r.entries| > MAX_ENTRIES || |RecordText(r)| > MAX_RECORD_BYTES then None else Some(RecordText(r))
  {
    hide MappedEntries, ChangedEntries, EntriesText, ScalarText, Scalar, EnvRecord.Decimal, HeaderText, MappedNames,
      RootsName, HostName;
    var mappedEntries, mapped := CollectMapped(maps, now);
    var changed;
    changed, names := CollectChanged(base, now, mapped);
    var entries := mappedEntries + changed;
    if |entries| > MAX_ENTRIES { return None, names; }
    ghost var r := RecordFor(base, now, maps, names);
    RecordTextIs(r);
    out := Put([], HeaderText());
    if out.None? { return; }
    out := Put(out.value, EnvRecord.Decimal(|entries|));
    if out.None? { return; }
    out := Put(out.value, [NEWLINE]);
    if out.None? { return; }
    assert out.value == HeaderText() + EnvRecord.Decimal(|r.entries|) + [NEWLINE];
    out := PutEntries(out.value, entries);
    if out.None? { return; }
    out := PutScalar(out.value, ROOTS_TAG, now, RootsName());
    if out.None? { return; }
    out := PutScalar(out.value, HOST_TAG, now, HostName());
  }

  lemma RecordTextIs(r: Record)
    ensures RecordText(r) == HeaderText() + EnvRecord.Decimal(|r.entries|) + [NEWLINE] + EntriesText(r.entries)
      + ScalarText(ROOTS_TAG, r.roots) + ScalarText(HOST_TAG, r.host)
  {
    hide EntriesText, ScalarText, EnvRecord.Decimal, HeaderText;
  }

  // ---- what comes back ---------------------------------------------------------------------------

  function FirstMapped(maps: seq<Mapped>, name: seq<byte>): Option<Mapped> {
    if maps == [] then None else if maps[0].name == name then Some(maps[0]) else FirstMapped(maps[1..], name)
  }

  /** What a mapping requires of a view: its value, unless it keeps to what the launch left unset. */
  function MappedOffer(m: Option<Mapped>, now: Env): Option<seq<byte>> {
    if m.Some? && Fits(m.value.name, m.value.value) &&
      (m.value.policy.Replace? || m.value.name in now) then Some(m.value.value)
    else None
  }

  lemma {:induction false} FirstClaimOfTwo(a: seq<Entry>, b: seq<Entry>, name: seq<byte>)
    ensures FirstClaim(a + b, name) == Either(FirstClaim(a, name), FirstClaim(b, name))
  {
    if a == [] {
      assert a + b == b;
    } else {
      assert (a + b)[1..] == a[1..] + b;
      FirstClaimOfTwo(a[1..], b, name);
    }
  }

  lemma OneClaim(e: Entry, name: seq<byte>)
    ensures FirstClaim([e], name) == if e.name == name && Claims(e) then Some(e.value) else None
  {
    assert [e][1..] == [] && FirstClaim([], name) == None;
  }

  lemma {:induction false} MappedClaims(maps: seq<Mapped>, seen: set<seq<byte>>, now: Env, name: seq<byte>)
    ensures FirstClaim(MappedEntries(maps, seen, now), name)
      == if name in seen then None else MappedOffer(FirstMapped(maps, name), now)
  {
    if maps != [] {
      hide Fits, FirstClaim;
      var m := maps[0];
      var e := Entry(m.name, m.value, m.policy, m.name in now);
      var rest := MappedEntries(maps[1..], seen + {m.name}, now);
      MappedClaims(maps[1..], seen + {m.name}, now, name);
      OneClaim(e, name);
      FirstClaimOfTwo([e], rest, name);
      assert [] + rest == rest;
    }
  }

  lemma {:induction false} ChangedClaims(base: Env, now: Env, mapped: set<seq<byte>>, names: seq<seq<byte>>,
                                         name: seq<byte>)
    requires forall i :: 0 <= i < |names| ==> names[i] in now
    ensures FirstClaim(ChangedEntries(base, now, mapped, names), name)
      == if name in names && Changed(base, now, mapped, name) && Fits(name, now[name]) then Some(now[name]) else None
  {
    if names != [] {
      hide Fits, Changed, FirstClaim;
      var n := names[0];
      var e := Entry(n, now[n], Replace, true);
      assert forall i :: 0 <= i < |names| - 1 ==> names[1..][i] == names[i + 1];
      var rest := ChangedEntries(base, now, mapped, names[1..]);
      ChangedClaims(base, now, mapped, names[1..], name);
      OneClaim(e, name);
      FirstClaimOfTwo([e], rest, name);
      assert [] + rest == rest;
    } else {
      assert FirstClaim([], name) == None;
    }
  }

  lemma {:induction false} MappedOrNot(maps: seq<Mapped>, name: seq<byte>)
    ensures FirstMapped(maps, name).Some? <==> name in MappedNames(maps)
    ensures FirstMapped(maps, name).Some? ==> FirstMapped(maps, name).value.name == name
  {
    if maps != [] {
      MappedOrNot(maps[1..], name);
      assert forall i :: 0 <= i < |maps| - 1 ==> maps[1..][i] == maps[i + 1];
      if name in MappedNames(maps) && maps[0].name != name {
        var i :| 0 <= i < |maps| && maps[i].name == name;
        assert maps[1..][i - 1].name == name;
      }
    }
  }

  /** What a launch leaves to be found: the value its mapping gives a name, otherwise the value it
      left a name that it changed, and its own two records. */
  function Left(base: Env, now: Env, maps: seq<Mapped>, name: seq<byte>): Option<seq<byte>> {
    if name in {Ascii("ONELF_ROOTS"), Ascii("ONELF_HOST_ENV")} then
      Either(MappedOffer(FirstMapped(maps, name), now), Scalar(now, name))
    else if FirstMapped(maps, name).Some? then MappedOffer(FirstMapped(maps, name), now)
    else if name in now && Get(base, name) != Get(now, name) && Fits(name, now[name]) then Get(now, name)
    else None
  }

  lemma RecordOffers(base: Env, now: Env, maps: seq<Mapped>, names: seq<seq<byte>>, name: seq<byte>)
    requires InOrder(now, names)
    ensures Offer(RecordFor(base, now, maps, names), name) == Left(base, now, maps, name)
  {
    var mapped := MappedNames(maps);
    MappedClaims(maps, {}, now, name);
    ChangedClaims(base, now, mapped, names, name);
    FirstClaimOfTwo(MappedEntries(maps, {}, now), ChangedEntries(base, now, mapped, names), name);
    MappedOrNot(maps, name);
    NamesDiffer();
    hide FirstClaim, MappedEntries, ChangedEntries, Fits, RootsName, HostName, MappedNames, Scalar, FirstMapped,
      Before, MappedOffer;
  }

  /** Whatever the application did to its environment since, running the constructor on the
      written record leaves every variable that is present alone, and fills every missing one
      with what the launch left for it. */
  lemma ViewIsRestored(base: Env, now: Env, maps: seq<Mapped>, names: seq<seq<byte>>, later: Env, name: seq<byte>)
    requires InOrder(now, names) && |RecordFor(base, now, maps, names).entries| <= MAX_ENTRIES
    ensures Get(ApplyInput(later, RecordText(RecordFor(base, now, maps, names))), name)
      == Either(Get(later, name), Left(base, now, maps, name))
  {
    hide Valid, Parse, RecordText, ApplyRecord, Left, Offer, Before;
    RecordIsValid(base, now, maps, names);
    hide RecordFor;
    var r := RecordFor(base, now, maps, names);
    ParseOfText(r);
    MissingAreFilled(later, r, name);
    RecordOffers(base, now, maps, names, name);
  }

  /** An exec that cleared the environment gets back every value that the launch changed, if no
      mapping has its name and it can be recorded. */
  lemma ClearedValuesComeBack(base: Env, now: Env, maps: seq<Mapped>, names: seq<seq<byte>>, name: seq<byte>)
    requires InOrder(now, names) && |RecordFor(base, now, maps, names).entries| <= MAX_ENTRIES
    requires name in now && Get(base, name) != Get(now, name) && Fits(name, now[name]) && name !in MappedNames(maps)
    ensures Get(ApplyInput(map[], RecordText(RecordFor(base, now, maps, names))), name) == Some(now[name])
  {
    hide RecordText, RecordFor, ApplyInput, RootsName, HostName, Before, ValidName;
    ViewIsRestored(base, now, maps, names, map[], name);
    MappedOrNot(maps, name);
  }
}
