/** The buffer that `restored` of `crates/onelf-payloads/src/exec.rs` asks for: the record's length
    bounds the strings it writes, whatever the record, exactly as long as no name that can be put
    back is given twice.
 */
module HookBounds {
  import opened Bytes
  import opened EnvRecord
  import opened Restoration

  /** The bytes of `name=value` and its terminator, when an entry is put back. */
  function Room(e: Entry): nat {
    match e.original case None => 0 case Some(value) => |e.name| + |value| + 2
  }

  function TotalRoom(es: seq<Entry>): nat { if es == [] then 0 else Room(es[0]) + TotalRoom(es[1..]) }

  /** The entry that the variable `v` is put back by. */
  function UsedFor(es: seq<Entry>, v: seq<byte>, hash: Hash): Option<Entry> {
    if !Named(v) || NameOf(v) == RECORD_NAME then None
    else
      match Find(es, NameOf(v))
      case None => None
      case Some(e) => if Restores(e, Some(ValueOf(v)), hash) && e.original.Some? then Some(e) else None
  }

  function PutLength(es: seq<Entry>, v: seq<byte>, hash: Hash): nat {
    match UsedFor(es, v, hash) case None => 0 case Some(e) => Room(e)
  }

  function RestoredBytes(es: seq<Entry>, envp: seq<seq<byte>>, hash: Hash): nat {
    if envp == [] then 0 else RestoredBytes(es, envp[..|envp| - 1], hash) + PutLength(es, envp[|envp| - 1], hash)
  }

  function BroughtBytes(es: seq<Entry>, envp: seq<seq<byte>>, hash: Hash): nat {
    if es == [] then 0
    else
      BroughtBytes(es[..|es| - 1], envp, hash)
      + if ComesBack(es[|es| - 1], envp, hash) then Room(es[|es| - 1]) else 0
  }

  /** The room of the entries whose names are in `names`. */
  function RoomOf(es: seq<Entry>, names: set<seq<byte>>): nat {
    if es == [] then 0 else (if es[0].name in names then Room(es[0]) else 0) + RoomOf(es[1..], names)
  }

  lemma {:induction false} RoomOfMore(es: seq<Entry>, names: set<seq<byte>>, n: seq<byte>)
    requires n !in names
    ensures RoomOf(es, names + {n}) >= RoomOf(es, names) + match Find(es, n) case None => 0 case Some(e) => Room(e)
  {
    hide Room;
    if es != [] {
      RoomOfMore(es[1..], names, n);
      RoomOfGrows(es[1..], names, names + {n});
    }
  }

  lemma {:induction false} RoomOfGrows(es: seq<Entry>, a: set<seq<byte>>, b: set<seq<byte>>)
    requires a <= b
    ensures RoomOf(es, a) <= RoomOf(es, b)
  {
    hide Room;
    if es != [] { RoomOfGrows(es[1..], a, b); }
  }

  /** A name that no record puts back: the record's own, and the empty one, which the hooks' parser refuses. */
  predicate NeverPut(name: seq<byte>) { name == [] || name == RECORD_NAME }

  /** No name that can be put back is given twice. */
  predicate NoRepeats(envp: seq<seq<byte>>) {
    forall i, j :: 0 <= i < j < |envp| && Named(envp[i]) && Named(envp[j]) && NameOf(envp[i]) == NameOf(envp[j]) ==>
      NeverPut(NameOf(envp[i]))
  }

  predicate NoEmptyNames(es: seq<Entry>) { forall i :: 0 <= i < |es| ==> es[i].name != [] }

  lemma {:induction false} ParsedNames(s: seq<byte>)
    ensures NoEmptyNames(ParseRecord(Hook, s))
    decreases |s|
  {
    match ParseEntry(Hook, s)
    case None =>
    case Some((e, rest)) =>
      ParsedNames(rest);
      assert e.name == s[..IndexOf(s, EQUALS)];
      hide ParseEntry;
      assert forall i :: 0 < i < |ParseRecord(Hook, s)| ==> ParseRecord(Hook, s)[i] == ParseRecord(Hook, rest)[i - 1];
  }

  lemma {:induction false} FindsNoEmpty(es: seq<Entry>)
    requires NoEmptyNames(es)
    ensures Find(es, []) == None
  {
    if es != [] {
      assert es[0].name != [];
      assert forall i :: 0 <= i < |es| - 1 ==> es[1..][i] == es[i + 1];
      FindsNoEmpty(es[1..]);
    }
  }

  lemma NeverPutTakesNothing(es: seq<Entry>, v: seq<byte>, hash: Hash)
    requires NoEmptyNames(es) && NeverPut(NameOf(v))
    ensures PutLength(es, v, hash) == 0
  {
    FindsNoEmpty(es);
    hide Named, NameOf, Find;
  }

  /** Variables with different names are put back by different entries. */
  lemma {:induction false} RestoredBytesBound(es: seq<Entry>, envp: seq<seq<byte>>, hash: Hash)
    requires NoRepeats(envp) && NoEmptyNames(es)
    ensures RestoredBytes(es, envp, hash) <= RoomOf(es, NamesIn(envp))
  {
    hide Named, NameOf, ValueOf, Room, Find, NeverPut, NoEmptyNames, PutLength;
    if envp != [] {
      var rest, v := envp[..|envp| - 1], envp[|envp| - 1];
      RestoredBytesBound(es, rest, hash);
      LastName(envp);
      RoomOfGrows(es, NamesIn(rest), NamesIn(envp));
      PutLengthAtMost(es, v, hash);
      if NeverPut(NameOf(v)) {
        NeverPutTakesNothing(es, v, hash);
      } else if Named(v) {
        RoomOfMore(es, NamesIn(rest), NameOf(v));
      }
    }
  }

  lemma PutLengthAtMost(es: seq<Entry>, v: seq<byte>, hash: Hash)
    ensures PutLength(es, v, hash) <= match Find(es, NameOf(v)) case None => 0 case Some(e) => Room(e)
    ensures !Named(v) ==> PutLength(es, v, hash) == 0
  {
  }

  lemma LastName(envp: seq<seq<byte>>)
    requires envp != [] && NoRepeats(envp)
    ensures var rest, v := envp[..|envp| - 1], envp[|envp| - 1];
      && NoRepeats(rest)
      && (Named(v) ==> NamesIn(envp) == NamesIn(rest) + {NameOf(v)})
      && (Named(v) && !NeverPut(NameOf(v)) ==> NameOf(v) !in NamesIn(rest))
      && (!Named(v) ==> NamesIn(envp) == NamesIn(rest))
  {
    hide Named, NameOf, NeverPut;
    var rest, v := envp[..|envp| - 1], envp[|envp| - 1];
    forall n: seq<byte> ensures n in NamesIn(envp) <==> n in NamesIn(rest) || (Named(v) && NameOf(v) == n) {
      if Present(rest, n) {
        var i :| 0 <= i < |rest| && Named(rest[i]) && NameOf(rest[i]) == n;
        assert Named(envp[i]) && NameOf(envp[i]) == n;
      }
      if Present(envp, n) && !(Named(v) && NameOf(v) == n) {
        var i :| 0 <= i < |envp| && Named(envp[i]) && NameOf(envp[i]) == n;
        assert Named(rest[i]) && NameOf(rest[i]) == n;
      }
    }
  }

  /** What comes back is what no given variable names. */
  lemma {:induction false} BroughtBytesBound(es: seq<Entry>, envp: seq<seq<byte>>, hash: Hash)
    ensures BroughtBytes(es, envp, hash) + RoomOf(es, NamesIn(envp)) <= TotalRoom(es)
  {
    hide Room;
    if es != [] {
      var rest, e := es[..|es| - 1], es[|es| - 1];
      BroughtBytesBound(rest, envp, hash);
      RoomOfLast(es, NamesIn(envp));
      TotalRoomLast(es);
    }
  }

  lemma {:induction false} RoomOfLast(es: seq<Entry>, names: set<seq<byte>>)
    requires es != []
    ensures RoomOf(es, names)
      == RoomOf(es[..|es| - 1], names) + if es[|es| - 1].name in names then Room(es[|es| - 1]) else 0
  {
    hide Room;
    if |es| == 1 {
      assert es[1..] == [];
    } else {
      RoomOfLast(es[1..], names);
      assert es[..|es| - 1][1..] == es[1..][..|es| - 2];
    }
  }

  lemma {:induction false} TotalRoomLast(es: seq<Entry>)
    requires es != []
    ensures TotalRoom(es) == TotalRoom(es[..|es| - 1]) + Room(es[|es| - 1])
  {
    hide Room;
    if |es| == 1 {
      assert es[1..] == [];
    } else {
      TotalRoomLast(es[1..]);
      assert es[..|es| - 1][1..] == es[1..][..|es| - 2];
    }
  }

  /** An entry is longer than the string it can be put back as. */
  lemma EntryIsLonger(s: seq<byte>)
    requires ParseEntry(Hook, s).Some?
    ensures var (e, rest) := ParseEntry(Hook, s).value; Room(e) + |rest| < |s|
  {
    var eq := IndexOf(s, EQUALS);
    var t := s[eq + 1..];
    var u := ReadApplied(t).value.1;
    AppliedIsLonger(t);
    OriginalIsLonger(u);
  }

  lemma AppliedIsLonger(t: seq<byte>)
    requires ReadApplied(t).Some?
    ensures |ReadApplied(t).value.1| < |t|
  {
  }

  lemma OriginalIsLonger(u: seq<byte>)
    requires HookOriginal(u).Some?
    ensures var (original, rest) := HookOriginal(u).value;
      |rest| + (if original.Some? then |original.value| + 2 else 1) <= |u|
  {
  }

  lemma {:induction false} RecordIsLonger(s: seq<byte>)
    ensures TotalRoom(ParseRecord(Hook, s)) <= |s|
    decreases |s|
  {
    hide Room;
    match ParseEntry(Hook, s)
    case None =>
    case Some((e, rest)) =>
      RecordIsLonger(rest);
      EntryIsLonger(s);
  }

  /** All that is written for a record. */
  function StringBytes(record: seq<byte>, envp: seq<seq<byte>>, hash: Hash): nat {
    RestoredBytes(ParseRecord(Hook, record), envp, hash) + BroughtBytes(ParseRecord(Hook, record), envp, hash)
  }

  /** The strings put back into an environment without such repetitions fit into the record's length. */
  lemma StringsFit(record: seq<byte>, envp: seq<seq<byte>>, hash: Hash)
    requires NoRepeats(envp)
    ensures StringBytes(record, envp, hash) <= |record|
  {
    var es := ParseRecord(Hook, record);
    ParsedNames(record);
    RestoredBytesBound(es, envp, hash);
    BroughtBytesBound(es, envp, hash);
    RecordIsLonger(record);
  }

  /** The entry that shows that a repeated name takes too much room. */
  function Overflowing(name: seq<byte>): Entry { Entry(name, Any, Some([0x78, 0x78])) }

  lemma OneEntryRecord(e: Entry)
    requires WellFormed(e)
    ensures ParseRecord(Hook, RecordText([e])) == [e] && RecordText([e]) == EntryText(e)
  {
    ParseRecordOfText(Hook, [e]);
    hide ParseRecord, EntryText, WellFormed;
    assert [e][1..] == [] && EntryText(e) + [] == EntryText(e);
  }

  lemma OverflowingLength(name: seq<byte>)
    ensures |EntryText(Overflowing(name))| == |name| + 7
    ensures NoNul(name) ==> NoNul(EntryText(Overflowing(name)))
  {
    assert Decimal(2) == [0x32];
  }

  lemma OverflowingPut(name: seq<byte>, v: seq<byte>, hash: Hash)
    requires Named(v) && NameOf(v) == name && !NeverPut(name)
    ensures PutLength([Overflowing(name)], v, hash) == |name| + 4
  {
    hide Named, NameOf, ValueOf;
    assert Find([Overflowing(name)], name) == Some(Overflowing(name));
  }

  lemma {:induction false} TwoPutsCount(es: seq<Entry>, envp: seq<seq<byte>>, hash: Hash, i: nat, j: nat)
    requires i < j < |envp|
    ensures RestoredBytes(es, envp, hash) >= PutLength(es, envp[i], hash) + PutLength(es, envp[j], hash)
    decreases |envp|
  {
    hide PutLength;
    var rest := envp[..|envp| - 1];
    if j < |envp| - 1 {
      TwoPutsCount(es, rest, hash, i, j);
    } else {
      RestoredBytesGrow(es, rest, hash, i + 1);
      assert rest[..i + 1][..i] == rest[..i];
    }
  }

  /** A name that can be put back and is given twice is put back twice, by one entry of a record too short for both. */
  lemma RepeatedNamesOverflow(envp: seq<seq<byte>>, hash: Hash, i: nat, j: nat) returns (record: seq<byte>)
    requires i < j < |envp| && Named(envp[i]) && Named(envp[j]) && NameOf(envp[i]) == NameOf(envp[j])
    requires !NeverPut(NameOf(envp[i]))
    ensures StringBytes(record, envp, hash) > |record| + 1
    ensures NoNul(NameOf(envp[i])) ==> NoNul(record)
  {
    var name := NameOf(envp[i]);
    var e := Overflowing(name);
    NameHasNoEquals(envp[i]);
    assert WellFormed(e);
    hide Named, NameOf, PutLength, RestoredBytes, BroughtBytes, ParseRecord, EntryText, RecordText, WellFormed,
      Overflowing;
    record := RecordText([e]);
    OneEntryRecord(e);
    OverflowingLength(name);
    OverflowingPut(name, envp[i], hash);
    OverflowingPut(name, envp[j], hash);
    TwoPutsCount([e], envp, hash, i, j);
  }

  /** The strings fit for every record exactly if no name that can be put back is given twice. */
  lemma StringsFitExactly(envp: seq<seq<byte>>, hash: Hash)
    requires forall i :: 0 <= i < |envp| ==> NoNul(envp[i])
    ensures (forall record :: NoNul(record) ==> StringBytes(record, envp, hash) <= |record| + 1) <==> NoRepeats(envp)
  {
    hide StringBytes, Named, NeverPut;
    if NoRepeats(envp) {
      forall record ensures StringBytes(record, envp, hash) <= |record| + 1 { StringsFit(record, envp, hash); }
    } else {
      var i, j :| 0 <= i < j < |envp| && Named(envp[i]) && Named(envp[j]) && NameOf(envp[i]) == NameOf(envp[j])
        && !NeverPut(NameOf(envp[i]));
      var record := RepeatedNamesOverflow(envp, hash, i, j);
      assert NoNul(NameOf(envp[i])) by { assert NoNul(envp[i]); }
    }
  }

  lemma {:induction false} RestoredBytesGrow(es: seq<Entry>, envp: seq<seq<byte>>, hash: Hash, i: nat)
    requires i <= |envp|
    ensures RestoredBytes(es, envp[..i], hash) <= RestoredBytes(es, envp, hash)
    decreases |envp|
  {
    hide PutLength;
    if i == |envp| {
      assert envp[..i] == envp;
    } else {
      var rest := envp[..|envp| - 1];
      RestoredBytesGrow(es, rest, hash, i);
      assert rest[..i] == envp[..i];
    }
  }

  lemma {:induction false} BroughtBytesGrow(es: seq<Entry>, envp: seq<seq<byte>>, hash: Hash, i: nat)
    requires i <= |es|
    ensures BroughtBytes(es[..i], envp, hash) <= BroughtBytes(es, envp, hash)
    decreases |es|
  {
    hide ComesBack, Room;
    if i == |es| {
      assert es[..i] == es;
    } else {
      var rest := es[..|es| - 1];
      BroughtBytesGrow(rest, envp, hash, i);
      assert rest[..i] == es[..i];
    }
  }

  lemma {:induction false} NoMoreThanGiven(es: seq<Entry>, envp: seq<seq<byte>>, hash: Hash)
    ensures |RestoreAll(es, envp, hash)| <= |envp|
  {
    if envp != [] { NoMoreThanGiven(es, envp[1..], hash); }
  }

  lemma {:induction false} NoMoreThanRecorded(es: seq<Entry>, envp: seq<seq<byte>>, hash: Hash)
    ensures |BringBack(es, envp, hash)| <= |es|
  {
    if es != [] { NoMoreThanRecorded(es[1..], envp, hash); }
  }

  /** One pointer for each string given, one for each entry and the null fit, whatever is given. */
  lemma PointersFit(es: seq<Entry>, envp: seq<seq<byte>>, hash: Hash)
    ensures |Restored(es, envp, hash)| + 1 <= |envp| + |es| + 1
  {
    NoMoreThanGiven(es, envp, hash);
    NoMoreThanRecorded(es, envp, hash);
  }
}
