/** What the record of a launch does to an environment: `build_record` and
    `capture_starting_env` of `crates/onelf-rt/src/hostenv.rs`, and `restored` of
    `crates/onelf-payloads/src/exec.rs`, which has to undo the launch without
    knowing what the application did in between. The hash is any function.
 */
module Restoration {
  import opened Bytes
  import opened EnvRecord
  import opened Environment

  type Hash = seq<byte> -> u64

  const RECORD_NAME: seq<byte> := Ascii("ONELF_HOST_ENV")

  /** Set on the exec command after the record is made, so restored whatever they hold. */
  predicate SetAtExec(name: seq<byte>) { name == Ascii("ONELF_INTERP") || name == Ascii("LD_LIBRARY_PATH") }

  predicate NoNul(s: seq<byte>) { 0 !in s }

  predicate ValidName(name: seq<byte>) { name != [] && EQUALS !in name && NoNul(name) }

  /** What a process environment can hold. */
  predicate ValidEnv(env: Env) {
    forall n :: n in env ==> ValidName(n) && NoNul(env[n]) && |env[n]| < U64_LIMIT
  }

  // ---- the record ------------------------------------------------------------------------

  /** The names of both environments, without the record's own, in order. */
  ghost predicate Names(start: Env, now: Env, names: seq<seq<byte>>) {
    && (forall n :: n in names <==> n != RECORD_NAME && (n in start || n in now || SetAtExec(n)))
    && (forall i, j :: 0 <= i < j < |names| ==> Before(names[i], names[j]))
  }

  /** The entry of a name, if what it held changed or may change at exec. */
  function EntryFor(start: Env, now: Env, hash: Hash, name: seq<byte>): Option<Entry> {
    var before, after := Get(start, name), Get(now, name);
    if SetAtExec(name) then Some(Entry(name, Any, before))
    else if before == after then None
    else Some(Entry(name, if after.None? then Removed else Value(hash(after.value)), before))
  }

  function EntriesFor(start: Env, now: Env, hash: Hash, names: seq<seq<byte>>): seq<Entry> {
    if names == [] then []
    else
      var rest := EntriesFor(start, now, hash, names[1..]);
      match EntryFor(start, now, hash, names[0])
      case None => rest
      case Some(e) => [e] + rest
  }

  /** `build_record`: one entry for every variable that differs and one for each set at exec. */
  method BuildRecord(start: Env, now: Env, hash: Hash) returns (record: seq<byte>, ghost names: seq<seq<byte>>)
    ensures Names(start, now, names) && record == RecordText(EntriesFor(start, now, hash, names))
  {
    hide Before, EntriesFor, RecordText, EntryText, EntryFor, IsLeast;
    var left := start.Keys + now.Keys + {Ascii("ONELF_INTERP"), Ascii("LD_LIBRARY_PATH")} - {RECORD_NAME};
    ghost var all := left;
    record, names := [], [];
    NothingToRecord(start, now, hash);
    while left != {}
      invariant left <= all
      invariant forall n :: n in names <==> n in all && n !in left
      invariant forall i, j :: 0 <= i < j < |names| ==> Before(names[i], names[j])
      invariant forall n, m :: n in names && m in left ==> Before(n, m)
      invariant record == RecordText(EntriesFor(start, now, hash, names))
      decreases left
    {
      LeastExists(left);
      var name :| name in left && IsLeast(name, left);
      LeastIsBefore(name, left);
      left := left - {name};
      EntriesAppend(start, now, hash, names, name);
      names := names + [name];
      match EntryFor(start, now, hash, name)
      case None =>
      case Some(e) =>
        record := record + EntryText(e);
    }
  }

  lemma NothingToRecord(start: Env, now: Env, hash: Hash)
    ensures RecordText(EntriesFor(start, now, hash, [])) == []
  {
  }

  lemma {:induction false} RecordTextAppend(es: seq<Entry>, e: Entry)
    ensures RecordText(es + [e]) == RecordText(es) + EntryText(e)
  {
    hide EntryText;
    if es == [] {
      assert es + [e] == [e] && [e][1..] == [];
      assert EntryText(e) + [] == EntryText(e);
    } else {
      RecordTextAppend(es[1..], e);
      assert (es + [e])[1..] == es[1..] + [e];
    }
  }

  function OptionalEntry(o: Option<Entry>): seq<Entry> { if o.None? then [] else [o.value] }

  lemma {:induction false} EntriesConcat(start: Env, now: Env, hash: Hash, names: seq<seq<byte>>, name: seq<byte>)
    ensures EntriesFor(start, now, hash, names + [name])
      == EntriesFor(start, now, hash, names) + OptionalEntry(EntryFor(start, now, hash, name))
  {
    hide EntryFor;
    if names == [] {
      assert names + [name] == [name] && [name][1..] == [];
    } else {
      EntriesConcat(start, now, hash, names[1..], name);
      assert (names + [name])[1..] == names[1..] + [name];
    }
  }

  lemma EntriesAppend(start: Env, now: Env, hash: Hash, names: seq<seq<byte>>, name: seq<byte>)
    ensures RecordText(EntriesFor(start, now, hash, names + [name]))
      == RecordText(EntriesFor(start, now, hash, names))
         + match EntryFor(start, now, hash, name) case None => [] case Some(e) => EntryText(e)
  {
    hide EntryFor, EntryText;
    var es := EntriesFor(start, now, hash, names);
    EntriesConcat(start, now, hash, names, name);
    match EntryFor(start, now, hash, name)
    case None => assert es + [] == es;
    case Some(e) => RecordTextAppend(es, e);
  }

  // ---- restoring -------------------------------------------------------------------------

  /** Whether a variable now holding `current` still holds what was applied. */
  predicate Restores(e: Entry, current: Option<seq<byte>>, hash: Hash) {
    match e.applied
    case Any => true
    case Removed => current.None?
    case Value(h) => current.Some? && hash(current.value) == h
  }

  /** The first entry of a name. */
  function Find(es: seq<Entry>, name: seq<byte>): Option<Entry> {
    if es == [] then None else if es[0].name == name then Some(es[0]) else Find(es[1..], name)
  }

  predicate Named(v: seq<byte>) { EQUALS in v }

  function NameOf(v: seq<byte>): seq<byte> { v[..IndexOf(v, EQUALS)] }

  function ValueOf(v: seq<byte>): seq<byte>
    requires Named(v)
  {
    v[IndexOf(v, EQUALS) + 1..]
  }

  function Assignment(name: seq<byte>, value: seq<byte>): seq<byte> { name + [EQUALS] + value }

  /** What one variable becomes: kept, put back, or left out. */
  function RestoreOne(es: seq<Entry>, v: seq<byte>, hash: Hash): Option<seq<byte>> {
    if !Named(v) then Some(v)
    else if NameOf(v) == RECORD_NAME then None
    else
      match Find(es, NameOf(v))
      case None => Some(v)
      case Some(e) =>
        if !Restores(e, Some(ValueOf(v)), hash) then Some(v)
        else if e.original.None? then None
        else Some(Assignment(NameOf(v), e.original.value))
  }

  function RestoreAll(es: seq<Entry>, envp: seq<seq<byte>>, hash: Hash): seq<seq<byte>> {
    if envp == [] then []
    else
      var rest := RestoreAll(es, envp[1..], hash);
      match RestoreOne(es, envp[0], hash)
      case None => rest
      case Some(v) => [v] + rest
  }

  predicate Present(envp: seq<seq<byte>>, name: seq<byte>) {
    exists i :: 0 <= i < |envp| && Named(envp[i]) && NameOf(envp[i]) == name
  }

  /** A removed variable that is still absent comes back. */
  predicate ComesBack(e: Entry, envp: seq<seq<byte>>, hash: Hash) {
    e.original.Some? && !Present(envp, e.name) && Restores(e, None, hash)
  }

  function BringBack(es: seq<Entry>, envp: seq<seq<byte>>, hash: Hash): seq<seq<byte>> {
    if es == [] then []
    else
      (if ComesBack(es[0], envp, hash) then [Assignment(es[0].name, es[0].original.value)] else [])
      + BringBack(es[1..], envp, hash)
  }

  /** `restored`: the environment a host program starts with. */
  function Restored(es: seq<Entry>, envp: seq<seq<byte>>, hash: Hash): seq<seq<byte>> {
    RestoreAll(es, envp, hash) + BringBack(es, envp, hash)
  }

  // ---- looking variables up ---------------------------------------------------------------

  /** The value of the first variable of a name, as `getenv` finds it. */
  function Lookup(envp: seq<seq<byte>>, name: seq<byte>): Option<seq<byte>> {
    if envp == [] then None
    else if Named(envp[0]) && NameOf(envp[0]) == name then Some(ValueOf(envp[0]))
    else Lookup(envp[1..], name)
  }

  predicate DistinctNames(envp: seq<seq<byte>>) {
    forall i, j :: 0 <= i < j < |envp| && Named(envp[i]) && Named(envp[j]) ==> NameOf(envp[i]) != NameOf(envp[j])
  }

  /** The array of strings holds the variables of `env`, each once. */
  ghost predicate Holds(envp: seq<seq<byte>>, env: Env) {
    DistinctNames(envp) && forall n: seq<byte> :: Lookup(envp, n) == Get(env, n)
  }

  predicate DistinctEntries(es: seq<Entry>) {
    forall i, j :: 0 <= i < j < |es| ==> es[i].name != es[j].name
  }

  /** No entry is for the record itself, and no name holds an equals sign. */
  predicate Sane(es: seq<Entry>) {
    forall e :: e in es ==> e.name != [] && EQUALS !in e.name && e.name != RECORD_NAME
  }

  lemma AssignmentParts(name: seq<byte>, value: seq<byte>)
    requires EQUALS !in name
    ensures var v := Assignment(name, value); Named(v) && NameOf(v) == name && ValueOf(v) == value
  {
    IndexOfFirst(name, EQUALS, value);
  }

  lemma NameHasNoEquals(v: seq<byte>)
    ensures EQUALS !in NameOf(v)
  {
  }

  /** What becomes of the value of one variable of the name `n`. */
  function RestoreValue(es: seq<Entry>, n: seq<byte>, value: seq<byte>, hash: Hash): Option<seq<byte>> {
    if n == RECORD_NAME then None
    else
      match Find(es, n)
      case None => Some(value)
      case Some(e) => if Restores(e, Some(value), hash) then e.original else Some(value)
  }

  lemma RestoreOneIsNamed(es: seq<Entry>, v: seq<byte>, hash: Hash)
    ensures !Named(v) ==> RestoreOne(es, v, hash) == Some(v)
    ensures Named(v) ==>
      match RestoreOne(es, v, hash)
      case None => RestoreValue(es, NameOf(v), ValueOf(v), hash).None?
      case Some(w) =>
        Named(w) && NameOf(w) == NameOf(v) && RestoreValue(es, NameOf(v), ValueOf(v), hash) == Some(ValueOf(w))
  {
    if Named(v) && Find(es, NameOf(v)).Some? {
      var e := Find(es, NameOf(v)).value;
      NameHasNoEquals(v);
      if e.original.Some? { AssignmentParts(NameOf(v), e.original.value); }
    }
  }

  lemma {:induction false} PresentIsLookup(envp: seq<seq<byte>>, name: seq<byte>)
    ensures Present(envp, name) <==> Lookup(envp, name).Some?
  {
    if envp != [] {
      PresentIsLookup(envp[1..], name);
      if Present(envp, name) && !(Named(envp[0]) && NameOf(envp[0]) == name) {
        var i :| 0 <= i < |envp| && Named(envp[i]) && NameOf(envp[i]) == name;
        assert Named(envp[1..][i - 1]) && NameOf(envp[1..][i - 1]) == name;
      }
      if Present(envp[1..], name) {
        var i :| 0 <= i < |envp[1..]| && Named(envp[1..][i]) && NameOf(envp[1..][i]) == name;
        assert Named(envp[i + 1]) && NameOf(envp[i + 1]) == name;
      }
    }
  }

  lemma {:induction false} LookupRestoreAll(es: seq<Entry>, envp: seq<seq<byte>>, hash: Hash, n: seq<byte>)
    requires DistinctNames(envp)
    ensures Lookup(RestoreAll(es, envp, hash), n) ==
      match Lookup(envp, n)
      case None => None
      case Some(value) => RestoreValue(es, n, value, hash)
  {
    hide RestoreOne, RestoreValue, NameOf, ValueOf, Named;
    if envp != [] {
      var v, rest := envp[0], RestoreAll(es, envp[1..], hash);
      RestoreOneIsNamed(es, v, hash);
      LookupRestoreAll(es, envp[1..], hash, n);
      if Named(v) && NameOf(v) == n {
        FirstIsOnly(envp);
      }
    }
  }

  lemma FirstIsOnly(envp: seq<seq<byte>>)
    requires DistinctNames(envp) && envp != [] && Named(envp[0])
    ensures Lookup(envp[1..], NameOf(envp[0])) == None
  {
    hide NameOf, Named;
    PresentIsLookup(envp[1..], NameOf(envp[0]));
  }

  lemma {:induction false} LookupBringBack(es: seq<Entry>, envp: seq<seq<byte>>, hash: Hash, n: seq<byte>)
    requires DistinctEntries(es) && Sane(es)
    ensures Lookup(BringBack(es, envp, hash), n) ==
      match Find(es, n)
      case None => None
      case Some(e) => if ComesBack(e, envp, hash) then e.original else None
  {
    hide ComesBack, Assignment, NameOf, ValueOf, Named;
    if es != [] {
      var e := es[0];
      LookupBringBack(es[1..], envp, hash, n);
      assert e in es;
      if ComesBack(e, envp, hash) {
        BroughtHasOriginal(e, envp, hash);
        AssignmentParts(e.name, e.original.value);
        assert BringBack(es, envp, hash)[1..] == BringBack(es[1..], envp, hash);
      } else {
        assert BringBack(es, envp, hash) == BringBack(es[1..], envp, hash);
      }
      if e.name == n { FirstEntryIsOnly(es); }
    }
  }

  lemma BroughtHasOriginal(e: Entry, envp: seq<seq<byte>>, hash: Hash)
    requires ComesBack(e, envp, hash)
    ensures e.original.Some?
  {
  }

  lemma {:induction false} FindsName(es: seq<Entry>, n: seq<byte>)
    ensures Find(es, n).Some? ==> Find(es, n).value in es && Find(es, n).value.name == n
    ensures Find(es, n).None? ==> forall e :: e in es ==> e.name != n
  {
    if es != [] { FindsName(es[1..], n); }
  }

  lemma FirstEntryIsOnly(es: seq<Entry>)
    requires DistinctEntries(es) && es != []
    ensures Find(es[1..], es[0].name) == None
  {
    FindsName(es[1..], es[0].name);
  }

  lemma {:induction false} LookupConcat(a: seq<seq<byte>>, b: seq<seq<byte>>, n: seq<byte>)
    ensures Lookup(a + b, n) == if Lookup(a, n).Some? then Lookup(a, n) else Lookup(b, n)
  {
    hide Named, NameOf, ValueOf;
    if a == [] {
      assert a + b == b;
    } else {
      LookupConcat(a[1..], b, n);
      assert (a + b)[1..] == a[1..] + b;
    }
  }

  /** What any record makes of the variable `n` that now holds `current`. */
  function Becomes(es: seq<Entry>, n: seq<byte>, current: Option<seq<byte>>, hash: Hash): Option<seq<byte>> {
    if n == RECORD_NAME then None
    else
      match Find(es, n)
      case None => current
      case Some(e) => if Restores(e, current, hash) then e.original else current
  }

  /** The restored environment, variable by variable. */
  lemma LookupRestored(es: seq<Entry>, envp: seq<seq<byte>>, hash: Hash, n: seq<byte>)
    requires DistinctNames(envp) && DistinctEntries(es) && Sane(es)
    ensures Lookup(Restored(es, envp, hash), n) == Becomes(es, n, Lookup(envp, n), hash)
  {
    LookupConcat(RestoreAll(es, envp, hash), BringBack(es, envp, hash), n);
    LookupRestoreAll(es, envp, hash, n);
    LookupBringBack(es, envp, hash, n);
    PresentIsLookup(envp, n);
    FindsName(es, n);
  }

  // ---- no name twice ------------------------------------------------------------------------

  function NamesIn(envp: seq<seq<byte>>): (names: set<seq<byte>>)
    ensures forall n :: n in names <==> Present(envp, n)
  {
    var all := set i | 0 <= i < |envp| && Named(envp[i]) :: NameOf(envp[i]);
    assert forall i :: 0 <= i < |envp| && Named(envp[i]) ==> NameOf(envp[i]) in all;
    all
  }

  lemma {:induction false} RestoreAllDistinct(es: seq<Entry>, envp: seq<seq<byte>>, hash: Hash)
    requires DistinctNames(envp)
    ensures var r := RestoreAll(es, envp, hash);
      DistinctNames(r) && forall v :: v in r && Named(v) ==> Present(envp, NameOf(v))
  {
    hide RestoreOne, NameOf, Named, RestoreValue, ValueOf;
    if envp != [] {
      var rest := RestoreAll(es, envp[1..], hash);
      RestoreAllDistinct(es, envp[1..], hash);
      RestoreOneIsNamed(es, envp[0], hash);
      PresentTail(envp);
      if Named(envp[0]) {
        PresentIsLookup(envp[1..], NameOf(envp[0]));
        FirstIsOnly(envp);
      }
    }
  }

  lemma PresentTail(envp: seq<seq<byte>>)
    requires envp != []
    ensures forall n: seq<byte> :: Present(envp[1..], n) ==> Present(envp, n)
    ensures Named(envp[0]) ==> Present(envp, NameOf(envp[0]))
  {
    hide NameOf, Named;
    forall n: seq<byte> | Present(envp[1..], n) ensures Present(envp, n) {
      var i :| 0 <= i < |envp[1..]| && Named(envp[1..][i]) && NameOf(envp[1..][i]) == n;
      assert Named(envp[i + 1]) && NameOf(envp[i + 1]) == n;
    }
  }

  lemma {:induction false} BringBackDistinct(es: seq<Entry>, envp: seq<seq<byte>>, hash: Hash)
    requires DistinctEntries(es) && Sane(es)
    ensures var r := BringBack(es, envp, hash);
      && DistinctNames(r)
      && forall v :: v in r && Named(v) ==> !Present(envp, NameOf(v)) && Find(es, NameOf(v)).Some?
  {
    hide Assignment, NameOf, Named, ValueOf, Present;
    if es != [] {
      BringBackDistinct(es[1..], envp, hash);
      assert es[0] in es;
      FirstEntryIsOnly(es);
      if ComesBack(es[0], envp, hash) {
        AssignmentParts(es[0].name, es[0].original.value);
      }
    }
  }

  lemma RestoredIsDistinct(es: seq<Entry>, envp: seq<seq<byte>>, hash: Hash)
    requires DistinctNames(envp) && DistinctEntries(es) && Sane(es)
    ensures DistinctNames(Restored(es, envp, hash))
  {
    hide RestoreAll, BringBack, Find, Named, NameOf;
    RestoreAllDistinct(es, envp, hash);
    BringBackDistinct(es, envp, hash);
  }

  // ---- the entries of a launch -----------------------------------------------------------------

  lemma {:induction false} EntriesAre(start: Env, now: Env, hash: Hash, names: seq<seq<byte>>, n: seq<byte>)
    ensures var es := EntriesFor(start, now, hash, names);
      && Find(es, n) == (if n in names then EntryFor(start, now, hash, n) else None)
      && (forall e :: e in es ==> e.name in names && EntryFor(start, now, hash, e.name) == Some(e))
  {
    hide SetAtExec;
    if names != [] { EntriesAre(start, now, hash, names[1..], n); }
  }

  lemma {:induction false} EntriesDistinct(start: Env, now: Env, hash: Hash, names: seq<seq<byte>>)
    requires forall i, j :: 0 <= i < j < |names| ==> Before(names[i], names[j])
    ensures DistinctEntries(EntriesFor(start, now, hash, names))
  {
    hide Before, EntryFor;
    if names != [] {
      var rest := EntriesFor(start, now, hash, names[1..]);
      EntriesDistinct(start, now, hash, names[1..]);
      EntryNamed(start, now, hash, names[0]);
      EntriesAre(start, now, hash, names[1..], names[0]);
      forall e | e in rest ensures e.name != names[0] {
        var j :| 0 <= j < |names[1..]| && names[1..][j] == e.name;
        assert Before(names[0], names[j + 1]);
        BeforeIsTotal(names[0], names[0]);
      }
    }
  }

  lemma EntryNamed(start: Env, now: Env, hash: Hash, name: seq<byte>)
    ensures EntryFor(start, now, hash, name).Some? ==> EntryFor(start, now, hash, name).value.name == name
  {
  }

  lemma SetAtExecIsValid(name: seq<byte>)
    requires SetAtExec(name)
    ensures ValidName(name) && name != RECORD_NAME
  {
    assert |Ascii("ONELF_INTERP")| == 12 && |Ascii("LD_LIBRARY_PATH")| == 15 && |RECORD_NAME| == 14;
  }

  /** The record of a launch is well formed, names nothing twice and leaves itself out. */
  lemma LaunchEntries(start: Env, now: Env, hash: Hash, names: seq<seq<byte>>)
    requires ValidEnv(start) && ValidEnv(now) && Names(start, now, names)
    ensures var es := EntriesFor(start, now, hash, names);
      && DistinctEntries(es) && Sane(es) && (forall e :: e in es ==> WellFormed(e))
      && forall n: seq<byte> :: Find(es, n) == if n == RECORD_NAME then None else EntryFor(start, now, hash, n)
  {
    var es := EntriesFor(start, now, hash, names);
    EntriesDistinct(start, now, hash, names);
    forall n: seq<byte> ensures Find(es, n) == if n == RECORD_NAME then None else EntryFor(start, now, hash, n) {
      EntriesAre(start, now, hash, names, n);
    }
    EntriesAre(start, now, hash, names, []);
    forall e | e in es ensures WellFormed(e) && e.name != RECORD_NAME {
      if SetAtExec(e.name) { SetAtExecIsValid(e.name); }
    }
  }

  // ---- what the launch and its host children see --------------------------------------------------

  /** The launch changed the variable and it still holds what was applied, or it is one set at exec. */
  predicate PutBack(start: Env, now: Env, hash: Hash, n: seq<byte>, current: Option<seq<byte>>) {
    || n in {Ascii("ONELF_INTERP"), Ascii("LD_LIBRARY_PATH")}
    || (&& Get(start, n) != Get(now, n)
        && match Get(now, n)
           case None => current.None?
           case Some(applied) => current.Some? && hash(current.value) == hash(applied))
  }

  /** A host child's variable: its original where it is put back, and otherwise what the application gave it. */
  function Passed(start: Env, now: Env, hash: Hash, n: seq<byte>, current: Option<seq<byte>>): Option<seq<byte>> {
    if n == RECORD_NAME then None
    else if PutBack(start, now, hash, n, current) then Get(start, n)
    else current
  }

  lemma BecomesPassed(start: Env, now: Env, hash: Hash, names: seq<seq<byte>>, n: seq<byte>, current: Option<seq<byte>>)
    requires ValidEnv(start) && ValidEnv(now) && Names(start, now, names)
    ensures Becomes(EntriesFor(start, now, hash, names), n, current, hash) == Passed(start, now, hash, n, current)
  {
    hide EntriesFor, Names;
    LaunchEntries(start, now, hash, names);
  }

  /** `restored` after `build_record`: for any later environment, exactly the variables that still
      hold what the launch applied, are still removed, or are set at exec are put back. */
  lemma HostChildEnvironment(start: Env, now: Env, hash: Hash, names: seq<seq<byte>>, envp: seq<seq<byte>>,
                             n: seq<byte>)
    requires ValidEnv(start) && ValidEnv(now) && Names(start, now, names) && DistinctNames(envp)
    ensures var r := Restored(ParseRecord(Hook, RecordText(EntriesFor(start, now, hash, names))), envp, hash);
      && DistinctNames(r)
      && Lookup(r, n) == Passed(start, now, hash, n, Lookup(envp, n))
  {
    var es := EntriesFor(start, now, hash, names);
    hide EntriesFor, Names, Restored, Passed, Becomes, DistinctNames;
    LaunchEntries(start, now, hash, names);
    ParseRecordOfText(Hook, es);
    LookupRestored(es, envp, hash, n);
    RestoredIsDistinct(es, envp, hash);
    BecomesPassed(start, now, hash, names, n, Lookup(envp, n));
  }

  /** What the exec command of a launch adds to the environment: the record, and, as they are chosen only then,
      the interpreter to load and the library path of a foreign loader, each set, removed or left. */
  function AtExec(now: Env, record: seq<byte>, interp: Change, libraries: Change): Env {
    Changed(Changed(now[Ascii("ONELF_HOST_ENV") := record], Ascii("ONELF_INTERP"), interp),
      Ascii("LD_LIBRARY_PATH"), libraries)
  }

  datatype Change = Leave | Unset | Set(value: seq<byte>)

  function Changed(env: Env, name: seq<byte>, change: Change): Env {
    match change
    case Leave => env
    case Unset => env - {name}
    case Set(value) => env[name := value]
  }

  lemma AtExecIs(now: Env, record: seq<byte>, interp: Change, libraries: Change, n: seq<byte>)
    ensures n == RECORD_NAME ==> Get(AtExec(now, record, interp, libraries), n) == Some(record)
    ensures n != RECORD_NAME && !SetAtExec(n) ==> Get(AtExec(now, record, interp, libraries), n) == Get(now, n)
  {
    assert |Ascii("ONELF_INTERP")| == 12 && |Ascii("LD_LIBRARY_PATH")| == 15 && |RECORD_NAME| == 14;
  }

  /** A host child started at once gets the environment the launch was started with, less an outer record. */
  lemma RestoringUndoesTheLaunch(start: Env, now: Env, hash: Hash, names: seq<seq<byte>>, envp: seq<seq<byte>>,
                                 interp: Change, libraries: Change)
    requires ValidEnv(start) && ValidEnv(now) && Names(start, now, names)
    requires Holds(envp, AtExec(now, RecordText(EntriesFor(start, now, hash, names)), interp, libraries))
    ensures Holds(Restored(ParseRecord(Hook, RecordText(EntriesFor(start, now, hash, names))), envp, hash),
                  start - {Ascii("ONELF_HOST_ENV")})
  {
    var record := RecordText(EntriesFor(start, now, hash, names));
    var r := Restored(ParseRecord(Hook, record), envp, hash);
    hide EntriesFor, Names, Restored, DistinctNames, Lookup, RecordText, ParseRecord, ValidEnv, AtExec, SetAtExec;
    forall n: seq<byte> ensures Lookup(r, n) == Get(start - {RECORD_NAME}, n) {
      HostChildEnvironment(start, now, hash, names, envp, n);
      assert Lookup(envp, n) == Get(AtExec(now, record, interp, libraries), n);
      AtExecIs(now, record, interp, libraries, n);
      UnchangedIsPassed(start, now, hash, n, Lookup(envp, n));
    }
    HostChildEnvironment(start, now, hash, names, envp, []);
  }

  lemma UnchangedIsPassed(start: Env, now: Env, hash: Hash, n: seq<byte>, current: Option<seq<byte>>)
    requires n == RECORD_NAME || SetAtExec(n) || current == Get(now, n)
    ensures Passed(start, now, hash, n, current) == Get(start - {RECORD_NAME}, n)
  {
  }

  // ---- a nested launch ------------------------------------------------------------------------------

  function ApplyEntry(env: Env, e: Entry, hash: Hash): Env {
    if !Restores(e, Get(env, e.name), hash) || e.name == [] then env
    else if e.original.None? then env - {e.name}
    else env[e.name := e.original.value]
  }

  function ApplyAll(env: Env, es: seq<Entry>, hash: Hash): Env
    decreases |es|
  {
    if es == [] then env else ApplyAll(ApplyEntry(env, es[0], hash), es[1..], hash)
  }

  /** `capture_starting_env`: a launch that was itself given a record applies it first. */
  function Capture(env: Env, hash: Hash): Env {
    if RECORD_NAME in env then ApplyAll(env, ParseRecord(Host, env[RECORD_NAME]), hash) - {RECORD_NAME} else env
  }

  lemma {:induction false} AppliedAll(env: Env, es: seq<Entry>, hash: Hash, n: seq<byte>)
    requires DistinctEntries(es) && Sane(es)
    ensures n != RECORD_NAME ==> Get(ApplyAll(env, es, hash), n) == Becomes(es, n, Get(env, n), hash)
    decreases |es|
  {
    if es != [] {
      var next := ApplyEntry(env, es[0], hash);
      assert es[0] in es;
      AppliedAll(next, es[1..], hash, n);
      FirstEntryIsOnly(es);
      assert n != es[0].name ==> Get(next, n) == Get(env, n);
    }
  }

  /** The two halves of the format agree: a nested launch captures the environment a host child is given. */
  lemma CaptureAgreesWithTheHooks(start: Env, now: Env, hash: Hash, names: seq<seq<byte>>, later: Env,
                                  envp: seq<seq<byte>>)
    requires ValidEnv(start) && ValidEnv(now) && Names(start, now, names)
    requires RECORD_NAME in later && later[RECORD_NAME] == RecordText(EntriesFor(start, now, hash, names))
    requires Holds(envp, later)
    ensures Holds(Restored(ParseRecord(Hook, later[RECORD_NAME]), envp, hash), Capture(later, hash))
  {
    var es := EntriesFor(start, now, hash, names);
    hide EntriesFor, Names, Restored, Becomes, DistinctNames, Lookup, RecordText, ParseRecord, ValidEnv, ApplyAll;
    LaunchEntries(start, now, hash, names);
    ParseRecordOfText(Hook, es);
    ParseRecordOfText(Host, es);
    var r, captured := Restored(es, envp, hash), Capture(later, hash);
    RestoredIsDistinct(es, envp, hash);
    forall n: seq<byte> ensures Lookup(r, n) == Get(captured, n) {
      LookupRestored(es, envp, hash, n);
      AppliedAll(later, es, hash, n);
      RecordIsLeftOut(es, Lookup(envp, RECORD_NAME), hash);
    }
  }

  lemma RecordIsLeftOut(es: seq<Entry>, current: Option<seq<byte>>, hash: Hash)
    ensures Becomes(es, RECORD_NAME, current, hash) == None
  {
  }

  // ---- strings that name no variable ------------------------------------------------------------------

  function Unnamed(envp: seq<seq<byte>>): seq<seq<byte>> {
    if envp == [] then []
    else if Named(envp[0]) then Unnamed(envp[1..])
    else [envp[0]] + Unnamed(envp[1..])
  }

  lemma {:induction false} UnnamedConcat(a: seq<seq<byte>>, b: seq<seq<byte>>)
    ensures Unnamed(a + b) == Unnamed(a) + Unnamed(b)
  {
    hide Named;
    if a == [] {
      assert a + b == b;
    } else {
      UnnamedConcat(a[1..], b);
      assert (a + b)[1..] == a[1..] + b;
    }
  }

  lemma {:induction false} RestoreAllKeepsUnnamed(es: seq<Entry>, envp: seq<seq<byte>>, hash: Hash)
    ensures Unnamed(RestoreAll(es, envp, hash)) == Unnamed(envp)
  {
    hide RestoreOne, Named, NameOf, RestoreValue, ValueOf;
    if envp != [] {
      var rest := RestoreAll(es, envp[1..], hash);
      RestoreAllKeepsUnnamed(es, envp[1..], hash);
      RestoreOneIsNamed(es, envp[0], hash);
      if RestoreOne(es, envp[0], hash).Some? {
        assert ([RestoreOne(es, envp[0], hash).value] + rest)[1..] == rest;
      }
    }
  }

  lemma {:induction false} BringBackIsNamed(es: seq<Entry>, envp: seq<seq<byte>>, hash: Hash)
    ensures Unnamed(BringBack(es, envp, hash)) == []
  {
    if es != [] {
      BringBackIsNamed(es[1..], envp, hash);
      if ComesBack(es[0], envp, hash) {
        var v := Assignment(es[0].name, es[0].original.value);
        assert v[|es[0].name|] == EQUALS && Named(v);
        assert BringBack(es, envp, hash) == [v] + BringBack(es[1..], envp, hash);
        assert ([v] + BringBack(es[1..], envp, hash))[1..] == BringBack(es[1..], envp, hash);
      } else {
        assert BringBack(es, envp, hash) == BringBack(es[1..], envp, hash);
      }
    }
  }

  /** Strings without an equals sign pass through, in their order, whatever the record says. */
  lemma UnnamedPassThrough(es: seq<Entry>, envp: seq<seq<byte>>, hash: Hash)
    ensures Unnamed(Restored(es, envp, hash)) == Unnamed(envp)
  {
    UnnamedConcat(RestoreAll(es, envp, hash), BringBack(es, envp, hash));
    RestoreAllKeepsUnnamed(es, envp, hash);
    BringBackIsNamed(es, envp, hash);
    assert Unnamed(envp) + [] == Unnamed(envp);
  }
}
