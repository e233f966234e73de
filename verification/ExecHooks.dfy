/** The heap-free code of `crates/onelf-payloads/src/exec.rs` that rebuilds an
    environment: index loops over NUL-terminated strings, a buffer of strings and
    an array of pointers into it. Every read and write is within bounds.
 */
module ExecHooks {
  import opened Bytes
  import opened EnvRecord
  import opened HookBounds
  import opened Restoration

  /** NUL-terminated, and the only NUL is the last byte. */
  predicate CString(s: seq<byte>) { s != [] && s[|s| - 1] == 0 && NoNul(s[..|s| - 1]) }

  function Text(s: seq<byte>): seq<byte>
    requires s != []
  {
    s[..|s| - 1]
  }

  // ---- parsing in place ----------------------------------------------------------------------

  lemma AtText(s: seq<byte>, p: nat)
    requires CString(s) && p < |s|
    ensures s[p] == 0 <==> p == |s| - 1
    ensures p < |s| - 1 ==> s[p] == Text(s)[p] && s[p] == Text(s)[p..][0]
  {
    if p < |s| - 1 { assert Text(s)[p] != 0; }
  }

  /** The end of the name that starts at `start`: an equals sign, or `None` at the terminator. */
  method NameEnd(record: seq<byte>, start: nat) returns (end: Option<nat>)
    requires CString(record) && start < |record|
    ensures var eq := IndexOf(Text(record)[start..], EQUALS);
      end == if start + eq == |record| - 1 then None else Some(start + eq)
  {
    ghost var s := Text(record)[start..];
    var p := start;
    while record[p] != EQUALS
      invariant start <= p < |record|
      invariant forall j :: start <= j < p ==> record[j] != EQUALS && record[j] != 0
      decreases |record| - p
    {
      AtText(record, p);
      if record[p] == 0 {
        assert forall j :: 0 <= j < |s| ==> s[j] == record[start + j];
        return None;
      }
      p := p + 1;
    }
    assert p < |record| - 1;
    assert s[p - start] == EQUALS && forall j :: 0 <= j < p - start ==> s[j] == record[start + j];
    return Some(p);
  }

  /** The value of a hexadecimal digit. */
  method HexDigitOf(c: byte) returns (v: Option<nat>)
    ensures v == if HexDigit(c) then Some(HexValue(c)) else None
  {
    if 0x30 <= c <= 0x39 { return Some(c - 0x30); }
    if 0x61 <= c <= 0x66 { return Some(c - 0x61 + 10); }
    return None;
  }

  lemma HexNext(s: seq<byte>, c: byte)
    requires HexDigits(s) && HexDigit(c)
    ensures HexDigits(s + [c]) && FromHex(s + [c]) == FromHex(s) * 16 + HexValue(c)
  {
    assert (s + [c])[..|s|] == s;
  }

  method ParseApplied(record: seq<byte>, start: nat) returns (r: Option<(Applied, nat)>)
    requires CString(record) && start < |record|
    ensures match ReadApplied(Text(record)[start..])
      case None => r.None?
      case Some((applied, rest)) =>
        r.Some? && r.value.0 == applied && start < r.value.1 < |record| && Text(record)[r.value.1..] == rest
  {
    ghost var text := Text(record);
    AtText(record, start);
    if record[start] == MINUS { return Some((Removed, start + 1)); }
    if record[start] == STAR { return Some((Any, start + 1)); }
    var p, hash := start, 0;
    for i := 0 to 16
      invariant p == start + i < |record|
      invariant HexDigits(text[start..p]) && hash == FromHex(text[start..p])
    {
      AtText(record, p);
      assert HexDigit(record[p]) ==> p < |record| - 1;
      if !HexDigit(record[p]) { NotHex(text[start..], i); }
      var d :- HexDigitOf(record[p]);
      assert text[start..p + 1] == text[start..p] + [record[p]];
      HexNext(text[start..p], record[p]);
      hash := hash * 16 + d;
      p := p + 1;
    }
    SixteenDigits();
    FromHexBelow(text[start..p]);
    assert text[start..][..16] == text[start..p];
    return Some((Value(hash), p));
  }

  lemma NotHex(s: seq<byte>, i: nat)
    requires i < 16 && (i >= |s| || !HexDigit(s[i])) && (s == [] || (s[0] != MINUS && s[0] != STAR))
    ensures ReadApplied(s) == None
  {
    if |s| >= 16 { assert !HexDigit(s[..16][i]); }
  }

  lemma {:induction false} FromDecimalGrows(s: seq<byte>, i: nat)
    requires Digits(s) && i <= |s|
    ensures FromDecimal(s[..i]) <= FromDecimal(s)
    decreases |s|
  {
    if i == |s| {
      assert s[..i] == s;
    } else {
      var rest := s[..|s| - 1];
      FromDecimalGrows(rest, i);
      assert rest[..i] == s[..i];
    }
  }

  lemma TooLong(s: seq<byte>, i: nat)
    requires i <= DigitRun(s) && FromDecimal(s[..i]) >= U64_LIMIT && (s == [] || s[0] != MINUS)
    ensures HookOriginal(s) == None
  {
    var d := DigitRun(s);
    FromDecimalGrows(s[..d], i);
    assert s[..d][..i] == s[..i];
  }

  lemma RunIsAtLeast(s: seq<byte>, i: nat)
    requires i <= |s| && Digits(s[..i])
    ensures i <= DigitRun(s)
    ensures i == |s| || !Digit(s[i]) ==> DigitRun(s) == i
  {
    var d := DigitRun(s);
    forall k | 0 <= k < i ensures Digit(s[k]) { assert s[..i][k] == s[k]; }
    forall k | 0 <= k < d ensures Digit(s[k]) { assert s[..d][k] == s[k]; }
  }

  /** The digits of a length, which must fit a word. */
  method ParseLength(record: seq<byte>, start: nat) returns (r: Option<(nat, nat)>)
    requires CString(record) && start < |record| && record[start] != MINUS
    ensures r.None? ==> HookOriginal(Text(record)[start..]) == None
    ensures r.Some? ==>
      var (len, p) := r.value; var s := Text(record)[start..];
      && start <= p < |record| && p - start == DigitRun(s) && len == FromDecimal(s[..p - start]) < U64_LIMIT
  {
    ghost var s := Text(record)[start..];
    var len, p := 0, start;
    AtText(record, start);
    while Digit(record[p])
      invariant start <= p < |record|
      invariant Digits(s[..p - start]) && len == FromDecimal(s[..p - start]) < U64_LIMIT
      decreases |record| - p
    {
      AtText(record, p);
      assert s[..p + 1 - start][..p - start] == s[..p - start];
      RunIsAtLeast(s, p + 1 - start);
      if len * 10 + (record[p] - 0x30) >= U64_LIMIT { TooLong(s, p + 1 - start); }
      if len * 10 >= U64_LIMIT { return None; }
      len := len * 10;
      if len + (record[p] - 0x30) >= U64_LIMIT { return None; }
      len := len + (record[p] - 0x30);
      p := p + 1;
    }
    AtText(record, p);
    RunIsAtLeast(s, p - start);
    return Some((len, p));
  }

  lemma OriginalIs(s: seq<byte>, d: nat, len: nat)
    requires s == [] || s[0] != MINUS
    requires d == DigitRun(s) && len == FromDecimal(s[..d]) < U64_LIMIT
    ensures HookOriginal(s) ==
      if d == 0 || d == |s| || s[d] != COLON || len > |s| - d - 1 then None
      else Some((Some(s[d + 1..d + 1 + len]), s[d + 1 + len..]))
  {
    hide FromDecimal, DigitRun;
  }

  /** Skips a value, which must not reach the terminator. */
  method SkipValue(record: seq<byte>, start: nat, len: nat) returns (r: Option<nat>)
    requires CString(record) && start < |record|
    ensures r == if start + len < |record| then Some(start + len) else None
  {
    var i := 0;
    while i < len
      invariant 0 <= i <= len && start + i < |record|
    {
      AtText(record, start + i);
      if record[start + i] == 0 { return None; }
      i := i + 1;
    }
    return Some(start + len);
  }

  lemma SliceOf(record: seq<byte>, start: nat, a: nat, b: nat)
    requires record != [] && a <= b && start + b < |record|
    ensures Text(record)[start..][a..b] == record[start + a..start + b]
    ensures Text(record)[start..][b..] == Text(record)[start + b..]
  {
    var t := Text(record);
    assert t[start..][a..b] == t[start + a..start + b];
    assert t[start + a..start + b] == record[start + a..start + b];
    assert t[start..][b..] == t[start + b..];
  }

  method ParseOriginal(record: seq<byte>, start: nat) returns (r: Option<(Option<seq<byte>>, nat)>)
    requires CString(record) && start < |record|
    ensures match HookOriginal(Text(record)[start..])
      case None => r.None?
      case Some((original, rest)) =>
        r.Some? && r.value.0 == original && start < r.value.1 < |record| && Text(record)[r.value.1..] == rest
  {
    ghost var s := Text(record)[start..];
    AtText(record, start);
    if record[start] == MINUS { return Some((None, start + 1)); }
    hide HookOriginal, FromDecimal, DigitRun;
    var length :- ParseLength(record, start);
    var (len, p) := length;
    AtText(record, p);
    ghost var d := p - start;
    OriginalIs(s, d, len);
    if p == start || record[p] != COLON { return None; }
    p := p + 1;
    var end :- SkipValue(record, p, len);
    SliceOf(record, start, d + 1, d + 1 + len);
    return Some((Some(record[p..end]), end));
  }

  /** The entry at `pos`, and where the next one starts. */
  method Parse(record: seq<byte>, pos: nat) returns (r: Option<(Entry, nat)>)
    requires CString(record) && pos < |record|
    ensures match ParseEntry(Hook, Text(record)[pos..])
      case None => r.None?
      case Some((e, rest)) =>
        r.Some? && r.value.0 == e && pos < r.value.1 < |record| && Text(record)[r.value.1..] == rest
  {
    hide ReadApplied, HookOriginal, IndexOf;
    ghost var text := Text(record);
    var end :- NameEnd(record, pos);
    if end == pos { return None; }
    assert text[pos..][end + 1 - pos..] == text[end + 1..];
    var first :- ParseApplied(record, end + 1);
    var (applied, q) := first;
    var second :- ParseOriginal(record, q);
    var (original, p) := second;
    AtText(record, p);
    if record[p] != SEMICOLON { return None; }
    assert record[pos..end] == text[pos..][..end - pos];
    return Some((Entry(record[pos..end], applied, original), p + 1));
  }

  // ---- walking the record ----------------------------------------------------------------------

  lemma Whole(s: seq<byte>)
    ensures s[0..] == s
  {
  }

  /** How many entries there are before anything malformed. */
  method CountEntries(record: seq<byte>) returns (entries: nat)
    requires CString(record)
    ensures entries == |ParseRecord(Hook, Text(record))|
  {
    hide ParseEntry;
    var pos := 0;
    entries := 0;
    Whole(Text(record));
    var next := Parse(record, pos);
    while next.Some?
      invariant pos < |record|
      invariant match ParseEntry(Hook, Text(record)[pos..])
        case None => next.None?
        case Some((e, rest)) =>
          next.Some? && next.value.0 == e && pos < next.value.1 < |record| && Text(record)[next.value.1..] == rest
      invariant |ParseRecord(Hook, Text(record))| == entries + |ParseRecord(Hook, Text(record)[pos..])|
      decreases |record| - pos
    {
      entries := entries + 1;
      pos := next.value.1;
      next := Parse(record, pos);
    }
  }

  lemma FindNext(e: Entry, es: seq<Entry>, name: seq<byte>)
    requires e.name != name
    ensures Find([e] + es, name) == Find(es, name)
  {
    assert ([e] + es)[1..] == es;
  }

  /** The first entry of a name. */
  method FindEntry(record: seq<byte>, name: seq<byte>) returns (found: Option<Entry>)
    requires CString(record)
    ensures found == Find(ParseRecord(Hook, Text(record)), name)
  {
    hide ParseEntry;
    var pos := 0;
    Whole(Text(record));
    while true
      invariant pos < |record|
      invariant Find(ParseRecord(Hook, Text(record)), name) == Find(ParseRecord(Hook, Text(record)[pos..]), name)
      decreases |record| - pos
    {
      var next := Parse(record, pos);
      if next.None? { return None; }
      var (entry, after) := next.value;
      if entry.name == name { return Some(entry); }
      FindNext(entry, ParseRecord(Hook, Text(record)[after..]), name);
      pos := after;
    }
  }

  predicate CStrings(envp: seq<seq<byte>>) { forall i :: 0 <= i < |envp| ==> CString(envp[i]) }

  function Texts(envp: seq<seq<byte>>): (r: seq<seq<byte>>)
    requires CStrings(envp)
    ensures |r| == |envp| && forall i :: 0 <= i < |r| ==> r[i] == Text(envp[i])
  {
    seq(|envp|, i requires 0 <= i < |envp| => Text(envp[i]))
  }

  /** The length of a variable's name: up to an equals sign or the terminator. */
  method NameLength(v: seq<byte>) returns (n: nat)
    requires CString(v)
    ensures n == IndexOf(Text(v), EQUALS) && n < |v|
    ensures v[n] == EQUALS <==> Named(Text(v))
  {
    n := 0;
    while v[n] != 0 && v[n] != EQUALS
      invariant n < |v|
      invariant forall j :: 0 <= j < n ==> v[j] != EQUALS && v[j] != 0
      decreases |v| - n
    {
      AtText(v, n);
      n := n + 1;
    }
    AtText(v, n);
    assert forall j :: 0 <= j < n ==> Text(v)[j] == v[j];
  }

  /** Whether a variable of this name is given. */
  method IsPresent(envp: seq<seq<byte>>, name: seq<byte>) returns (found: bool)
    requires CStrings(envp)
    ensures found == Present(Texts(envp), name)
  {
    hide Named, IndexOf;
    for i := 0 to |envp|
      invariant forall j :: 0 <= j < i ==> !(Named(Texts(envp)[j]) && NameOf(Texts(envp)[j]) == name)
    {
      var n := NameLength(envp[i]);
      assert NameOf(Texts(envp)[i]) == envp[i][..n];
      if n == |name| && envp[i][n] == EQUALS && envp[i][..n] == name { return true; }
    }
    return false;
  }

  // ---- the strings and the pointers ----------------------------------------------------------------

  /** A pointer the hook hands on: a string it was given, or one in its own buffer. */
  datatype Pointer = Null | Given(index: nat) | Stored(at: nat)

  /** The pointer reads as the text `t`. */
  predicate Reads(p: Pointer, strings: seq<byte>, envp: seq<seq<byte>>, t: seq<byte>) {
    match p
    case Null => false
    case Given(i) => i < |envp| && envp[i] == t + [0]
    case Stored(at) => at + |t| + 1 <= |strings| && strings[at..at + |t| + 1] == t + [0]
  }

  ghost predicate Holding(out: array<Pointer>, strings: array<byte>, used: nat, envp: seq<seq<byte>>, r: seq<seq<byte>>)
    reads out, strings
  {
    && |r| <= out.Length && used <= strings.Length
    && forall j :: 0 <= j < |r| ==> Reads(out[j], strings[..used], envp, r[j])
  }

  /** Copies `src` to `at`. */
  method Copy(strings: array<byte>, at: nat, src: seq<byte>)
    requires at + |src| <= strings.Length
    modifies strings
    ensures strings[..at] == old(strings[..at]) && strings[at..at + |src|] == src
  {
    for i := 0 to |src|
      invariant strings[..at] == old(strings[..at])
      invariant strings[at..at + i] == src[..i]
    {
      strings[at + i] := src[i];
      assert strings[at..at + i + 1] == src[..i] + [src[i]];
      assert src[..i + 1] == src[..i] + [src[i]];
    }
    assert src[..|src|] == src;
  }

  /** Writes `name=value` and its terminator. */
  method Put(strings: array<byte>, at: nat, name: seq<byte>, value: seq<byte>) returns (next: nat)
    requires at + |name| + |value| + 2 <= strings.Length
    modifies strings
    ensures next == at + |name| + |value| + 2
    ensures strings[..at] == old(strings[..at])
    ensures strings[at..next] == Assignment(name, value) + [0]
  {
    Copy(strings, at, name);
    strings[at + |name|] := EQUALS;
    ghost var first := strings[at..at + |name| + 1];
    assert first == name + [EQUALS];
    ghost var before := strings[..at];
    Copy(strings, at + |name| + 1, value);
    assert strings[..at + |name| + 1][at..] == strings[at..at + |name| + 1];
    next := at + |name| + |value| + 2;
    strings[next - 1] := 0;
    assert strings[at..next] == strings[at..at + |name| + 1] + strings[at + |name| + 1..next - 1] + [0];
  }

  lemma TextIs(v: seq<byte>)
    requires CString(v)
    ensures v == Text(v) + [0]
  {
  }

  /** Appends a pointer to a given string. */
  method Pass(out: array<Pointer>, k: nat, i: nat, strings: array<byte>, used: nat, envp: seq<seq<byte>>,
              ghost r: seq<seq<byte>>)
    requires CStrings(envp) && i < |envp| && k == |r| < out.Length && Holding(out, strings, used, envp, r)
    modifies out
    ensures Holding(out, strings, used, envp, r + [Text(envp[i])])
  {
    out[k] := Given(i);
    TextIs(envp[i]);
    assert forall j :: 0 <= j < |r| ==> out[j] == old(out[j]);
  }

  lemma ReadsOn(p: Pointer, a: seq<byte>, b: seq<byte>, envp: seq<seq<byte>>, t: seq<byte>)
    requires Reads(p, a, envp, t) && a <= b
    ensures Reads(p, b, envp, t)
  {
    if p.Stored? { assert b[p.at..p.at + |t| + 1] == a[p.at..p.at + |t| + 1]; }
  }

  /** Appends a string of the hook's own. */
  method PassNew(out: array<Pointer>, k: nat, strings: array<byte>, used: nat, ghost envp: seq<seq<byte>>,
                 ghost r: seq<seq<byte>>, name: seq<byte>, value: seq<byte>) returns (next: nat)
    requires k == |r| < out.Length && Holding(out, strings, used, envp, r)
    requires used + |name| + |value| + 2 <= strings.Length
    modifies out, strings
    ensures next == used + |name| + |value| + 2
    ensures Holding(out, strings, next, envp, r + [Assignment(name, value)])
  {
    ghost var was := strings[..used];
    next := Put(strings, used, name, value);
    out[k] := Stored(used);
    ghost var now := strings[..next];
    assert now[used..next] == strings[used..next];
    assert was <= now;
    forall j | 0 <= j < |r| ensures Reads(out[j], now, envp, r[j]) {
      assert Reads(old(out[j]), was, envp, r[j]);
      ReadsOn(out[j], was, now, envp, r[j]);
    }
  }

  function Optional(o: Option<seq<byte>>): seq<seq<byte>> { if o.None? then [] else [o.value] }

  lemma {:induction false} RestoreAllLast(es: seq<Entry>, envp: seq<seq<byte>>, v: seq<byte>, hash: Hash)
    ensures RestoreAll(es, envp + [v], hash) == RestoreAll(es, envp, hash) + Optional(RestoreOne(es, v, hash))
  {
    hide RestoreOne;
    if envp == [] {
      assert envp + [v] == [v] && [v][1..] == [];
    } else {
      RestoreAllLast(es, envp[1..], v, hash);
      assert (envp + [v])[1..] == envp[1..] + [v];
    }
  }

  lemma RestoredNext(es: seq<Entry>, texts: seq<seq<byte>>, i: nat, hash: Hash)
    requires i < |texts|
    ensures RestoreAll(es, texts[..i + 1], hash)
      == RestoreAll(es, texts[..i], hash) + Optional(RestoreOne(es, texts[i], hash))
    ensures RestoredBytes(es, texts[..i + 1], hash)
      == RestoredBytes(es, texts[..i], hash) + PutLength(es, texts[i], hash)
    ensures RestoredBytes(es, texts[..i + 1], hash) <= RestoredBytes(es, texts, hash)
  {
    hide RestoreOne, PutLength;
    var part := texts[..i + 1];
    assert part == texts[..i] + [texts[i]] && part[..i] == texts[..i];
    RestoreAllLast(es, texts[..i], texts[i], hash);
    RestoredBytesGrow(es, texts, hash, i + 1);
  }

  /** What the hook does with one given variable. */
  datatype Choice = Keep | Drop | Replace(value: seq<byte>)

  method Choose(record: seq<byte>, v: seq<byte>, hash: Hash) returns (choice: Choice)
    requires CString(record) && CString(v)
    ensures var es := ParseRecord(Hook, Text(record)); var t := Text(v);
      match choice
      case Keep => RestoreOne(es, t, hash) == Some(t) && PutLength(es, t, hash) == 0
      case Drop => RestoreOne(es, t, hash) == None && PutLength(es, t, hash) == 0
      case Replace(value) =>
        && RestoreOne(es, t, hash) == Some(Assignment(NameOf(t), value))
        && PutLength(es, t, hash) == |NameOf(t)| + |value| + 2
  {
    hide ParseRecord;
    var n := NameLength(v);
    if v[n] != EQUALS { return Keep; }
    assert v[..n] == NameOf(Text(v)) && Text(v)[n + 1..] == v[n + 1..|v| - 1];
    if v[..n] == RECORD_NAME { return Drop; }
    var found := FindEntry(record, v[..n]);
    FindsName(ParseRecord(Hook, Text(record)), v[..n]);
    if found.None? || !Restores(found.value, Some(v[n + 1..|v| - 1]), hash) { return Keep; }
    if found.value.original.None? { return Drop; }
    return Replace(found.value.original.value);
  }

  method RestoreGiven(record: seq<byte>, envp: seq<seq<byte>>, hash: Hash, out: array<Pointer>, strings: array<byte>)
    returns (k: nat, used: nat)
    requires CString(record) && CStrings(envp)
    requires |envp| < out.Length
    requires RestoredBytes(ParseRecord(Hook, Text(record)), Texts(envp), hash) <= strings.Length
    modifies out, strings
    ensures var es := ParseRecord(Hook, Text(record));
      && used == RestoredBytes(es, Texts(envp), hash)
      && k == |RestoreAll(es, Texts(envp), hash)|
      && Holding(out, strings, used, envp, RestoreAll(es, Texts(envp), hash))
  {
    hide ParseRecord, RestoreAll, RestoredBytes, RestoreOne, PutLength, CString, Holding, Named;
    TextNotEmpty(record);
    ghost var es, texts := ParseRecord(Hook, Text(record)), Texts(envp);
    k, used := 0, 0;
    NothingYet(es, hash, out, strings, envp);
    assert texts[..0] == [];
    for i := 0 to |envp|
      invariant used == RestoredBytes(es, texts[..i], hash)
      invariant k == |RestoreAll(es, texts[..i], hash)| <= i
      invariant Holding(out, strings, used, envp, RestoreAll(es, texts[..i], hash))
    {
      ghost var r := RestoreAll(es, texts[..i], hash);
      RestoredNext(es, texts, i, hash);
      var choice := Choose(record, envp[i], hash);
      match choice
      case Keep =>
        Pass(out, k, i, strings, used, envp, r);
        k := k + 1;
      case Drop =>
        assert r + [] == r;
      case Replace(value) =>
        var n := NameLength(envp[i]);
        assert envp[i][..n] == NameOf(texts[i]);
        used := PassNew(out, k, strings, used, envp, r, envp[i][..n], value);
        k := k + 1;
    }
    assert texts[..|envp|] == texts;
  }

  lemma NothingYet(es: seq<Entry>, hash: Hash, out: array<Pointer>, strings: array<byte>, envp: seq<seq<byte>>)
    ensures RestoredBytes(es, [], hash) == 0 && RestoreAll(es, [], hash) == []
    ensures Holding(out, strings, 0, envp, [])
  {
  }

  lemma {:induction false} BringBackLast(es: seq<Entry>, e: Entry, texts: seq<seq<byte>>, hash: Hash)
    ensures BringBack(es + [e], texts, hash)
      == BringBack(es, texts, hash) + if ComesBack(e, texts, hash) then [Assignment(e.name, e.original.value)] else []
    ensures BroughtBytes(es + [e], texts, hash)
      == BroughtBytes(es, texts, hash) + if ComesBack(e, texts, hash) then Room(e) else 0
  {
    hide Assignment, Room, Present, Restores;
    assert (es + [e])[..|es|] == es;
    if es == [] {
      assert es + [e] == [e] && [e][1..] == [];
    } else {
      BringBackLast(es[1..], e, texts, hash);
      assert (es + [e])[1..] == es[1..] + [e];
    }
  }

  method BringBackMissing(record: seq<byte>, envp: seq<seq<byte>>, hash: Hash, out: array<Pointer>,
                          strings: array<byte>, ghost given: seq<seq<byte>>, start: nat, from: nat)
    returns (k: nat, used: nat)
    requires CString(record) && CStrings(envp)
    requires start == |given| && start + |ParseRecord(Hook, Text(record))| < out.Length
    requires from + BroughtBytes(ParseRecord(Hook, Text(record)), Texts(envp), hash) <= strings.Length
    requires Holding(out, strings, from, envp, given)
    modifies out, strings
    ensures var r := given + BringBack(ParseRecord(Hook, Text(record)), Texts(envp), hash);
      && k == |r| && used == from + BroughtBytes(ParseRecord(Hook, Text(record)), Texts(envp), hash)
      && Holding(out, strings, used, envp, r)
  {
    hide ParseEntry, CString, Holding, BringBack, BroughtBytes, Restores, Present, Assignment, Texts;
    TextNotEmpty(record);
    ghost var es, texts, done := ParseRecord(Hook, Text(record)), Texts(envp), [];
    k, used := start, from;
    var pos := 0;
    Whole(Text(record));
    NothingBroughtBack(texts, hash);
    assert given + [] == given && done + es == es;
    ghost var r := given;
    while true
      invariant pos < |record|
      invariant es == done + ParseRecord(Hook, Text(record)[pos..])
      invariant r == given + BringBack(done, texts, hash) && k == |r| <= start + |done|
      invariant used == from + BroughtBytes(done, texts, hash)
      invariant Holding(out, strings, used, envp, r)
      decreases |record| - pos
    {
      var next := Parse(record, pos);
      if next.None? {
        assert done == es;
        return;
      }
      var (entry, after) := next.value;
      ghost var rest := ParseRecord(Hook, Text(record)[after..]);
      assert es == done + [entry] + rest;
      BringBackLast(done, entry, texts, hash);
      assert es[..|done| + 1] == done + [entry];
      BroughtBytesGrow(es, texts, hash, |done| + 1);
      var there := IsPresent(envp, entry.name);
      if entry.original.Some? && !there && Restores(entry, None, hash) {
        used := PassNew(out, k, strings, used, envp, r, entry.name, entry.original.value);
        r := r + [Assignment(entry.name, entry.original.value)];
        k := k + 1;
      }
      done := done + [entry];
      pos := after;
    }
  }

  lemma NothingBroughtBack(texts: seq<seq<byte>>, hash: Hash)
    ensures BringBack([], texts, hash) == [] && BroughtBytes([], texts, hash) == 0
  {
  }

  lemma TextNotEmpty(record: seq<byte>)
    requires CString(record)
    ensures record != []
  {
  }

  /** `restored`: pointers to the environment a host program starts with, then a null. The buffer
      holds the record's length and one byte more, which is enough for every record exactly if
      no name that can be put back is given twice. */
  method RestoredEnvironment(record: seq<byte>, envp: seq<seq<byte>>, hash: Hash)
    returns (out: array<Pointer>, strings: array<byte>, k: nat, used: nat)
    requires CString(record) && CStrings(envp) && NoRepeats(Texts(envp))
    ensures var r := Restored(ParseRecord(Hook, Text(record)), Texts(envp), hash);
      && k == |r| < out.Length && out[k] == Null
      && Holding(out, strings, used, envp, r)
    ensures out.Length == |envp| + |ParseRecord(Hook, Text(record))| + 1 && strings.Length == |record|
  {
    hide CString, ParseRecord, Holding, RestoreAll, BringBack, RestoredBytes, BroughtBytes, NoRepeats, Texts;
    TextNotEmpty(record);
    ghost var es, texts := ParseRecord(Hook, Text(record)), Texts(envp);
    StringsFit(Text(record), texts, hash);
    PointersFit(es, texts, hash);
    TextsLength(envp);
    var entries := CountEntries(record);
    out := new Pointer[|envp| + entries + 1];
    strings := new byte[|record|];
    NoMoreThanGiven(es, texts, hash);
    k, used := RestoreGiven(record, envp, hash, out, strings);
    k, used := BringBackMissing(record, envp, hash, out, strings, RestoreAll(es, texts, hash), k, used);
    Terminate(out, k, strings, used, envp, Restored(es, texts, hash));
  }

  method Terminate(out: array<Pointer>, k: nat, strings: array<byte>, ghost used: nat, ghost envp: seq<seq<byte>>,
                   ghost r: seq<seq<byte>>)
    requires k == |r| < out.Length && Holding(out, strings, used, envp, r)
    modifies out
    ensures out[k] == Null && Holding(out, strings, used, envp, r)
  {
    out[k] := Null;
  }

  lemma TextsLength(envp: seq<seq<byte>>)
    requires CStrings(envp)
    ensures |Texts(envp)| == |envp|
  {
  }

  // ---- which programs are the package's own ----------------------------------------------------

  /** `roots[i..j]` is one of the colon-separated roots. */
  predicate IsRoot(roots: seq<byte>, i: nat, j: nat) {
    && i <= j <= |roots|
    && (i == 0 || roots[i - 1] == COLON)
    && (j == |roots| || roots[j] == COLON)
    && COLON !in roots[i..j]
  }

  /** The path is the root or lies below it. */
  predicate Under(path: seq<byte>, root: seq<byte>) {
    root != [] && root <= path && (|path| == |root| || path[|root|] == 0x2F)
  }

  /** `inside_any`: whether a path lies in one of the roots. An empty root holds nothing. */
  method InsideAny(path: seq<byte>, roots: seq<byte>) returns (inside: bool)
    requires CString(roots)
    ensures inside <==> exists i: nat, j: nat :: IsRoot(Text(roots), i, j) && Under(path, Text(roots)[i..j])
  {
    ghost var text := Text(roots);
    var start := 0;
    while true
      invariant start <= |text| && (start == 0 || text[start - 1] == COLON)
      invariant forall i: nat, j: nat :: i < start && IsRoot(text, i, j) ==> !Under(path, text[i..j])
      decreases |text| - start
    {
      var end := start;
      while roots[end] != 0 && roots[end] != COLON
        invariant start <= end <= |text|
        invariant forall k :: start <= k < end ==> text[k] != COLON
        decreases |text| - end
      {
        AtText(roots, end);
        end := end + 1;
      }
      AtText(roots, end);
      assert IsRoot(text, start, end);
      assert text[start..end] == roots[start..end] by { assert text == roots[..|roots| - 1]; }
      if end > start && |path| >= end - start && path[..end - start] == roots[start..end]
         && (|path| == end - start || path[end - start] == 0x2F) {
        assert Under(path, text[start..end]);
        return true;
      }
      OneRoot(text, path, start, end);
      if roots[end] == 0 { return false; }
      start := end + 1;
    }
  }

  lemma OneRoot(text: seq<byte>, path: seq<byte>, start: nat, end: nat)
    requires IsRoot(text, start, end) && !Under(path, text[start..end])
    ensures forall i: nat, j: nat :: start <= i <= end && IsRoot(text, i, j) ==> !Under(path, text[i..j])
  {
    NoColonBetween(text, start, end);
    forall i: nat, j: nat | start <= i <= end && IsRoot(text, i, j) ensures i == start && j == end {
      NoColonBetween(text, i, j);
    }
  }

  lemma NoColonBetween(text: seq<byte>, a: nat, b: nat)
    requires a <= b <= |text| && COLON !in text[a..b]
    ensures forall k :: a <= k < b ==> text[k] != COLON
  {
    forall k | a <= k < b ensures text[k] != COLON { assert text[a..b][k - a] == text[k]; }
  }
}
