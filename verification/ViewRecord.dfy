/** The per-view environment record: what `encode_view_env` of `crates/onelf-rt/src/env.rs`
    writes and what the constructor in `crates/onelf-payloads/src/rtenv.rs` reads back, with
    its bounds and its reasons for refusing.
 */
module ViewRecord {
  import opened Bytes
  import EnvRecord

  const EQUALS := EnvRecord.EQUALS
  const SEMICOLON := EnvRecord.SEMICOLON
  const COLON := EnvRecord.COLON
  const NEWLINE: byte := 0x0A
  const ROOTS_TAG: byte := 0x52
  const HOST_TAG: byte := 0x48

  const MAX_RECORD_BYTES := 1024 * 1024
  const MAX_ENTRIES := 4096
  const MAX_NAME_BYTES := 128
  const MAX_VALUE_BYTES := 32 * 1024

  datatype Policy = Preserve | Replace

  datatype Entry = Entry(name: seq<byte>, value: seq<byte>, policy: Policy, leftSet: bool)

  datatype Record = Record(entries: seq<Entry>, roots: Option<seq<byte>>, host: Option<seq<byte>>)

  datatype Reject =
    BadHeader | BadCount | Truncated | BadLength | ValueCap | BadName | NulInValue | BadPolicy | BadApplied | Trailing

  // ---- what can be written -------------------------------------------------------------

  predicate ValidName(name: seq<byte>) { name != [] && |name| <= MAX_NAME_BYTES && 0 !in name && EQUALS !in name }

  predicate ValidValue(value: seq<byte>) { |value| <= MAX_VALUE_BYTES && 0 !in value }

  predicate ValidEntry(e: Entry) { ValidName(e.name) && ValidValue(e.value) }

  predicate ValidScalar(scalar: Option<seq<byte>>) { scalar.None? || ValidValue(scalar.value) }

  predicate ValidEntries(es: seq<Entry>) { forall i :: 0 <= i < |es| ==> ValidEntry(es[i]) }

  predicate Valid(r: Record) {
    |r.entries| <= MAX_ENTRIES && ValidEntries(r.entries) && ValidScalar(r.roots) && ValidScalar(r.host)
  }

  // ---- writing ---------------------------------------------------------------------------

  function HeaderText(): seq<byte> { Ascii("ONELF-RUNTIME-ENV 1 ") }

  function PolicyByte(p: Policy): byte { if p.Preserve? then 0x2E else 0x21 }

  function AppliedByte(leftSet: bool): byte { if leftSet then 0x2B else 0x2D }

  function ValueText(value: seq<byte>): seq<byte> { EnvRecord.Decimal(|value|) + [COLON] + value }

  function EntryText(e: Entry): seq<byte> {
    e.name + [EQUALS] + [PolicyByte(e.policy)] + ValueText(e.value) + [AppliedByte(e.leftSet)] + [SEMICOLON, NEWLINE]
  }

  function EntriesText(es: seq<Entry>): seq<byte> {
    if es == [] then [] else EntryText(es[0]) + EntriesText(es[1..])
  }

  function ScalarText(tag: byte, scalar: Option<seq<byte>>): seq<byte> {
    if scalar.None? then [] else [tag] + ValueText(scalar.value) + [SEMICOLON, NEWLINE]
  }

  function RecordText(r: Record): seq<byte> {
    HeaderText() + EnvRecord.Decimal(|r.entries|) + [NEWLINE]
    + (EntriesText(r.entries) + (ScalarText(ROOTS_TAG, r.roots) + ScalarText(HOST_TAG, r.host)))
  }

  // ---- reading ---------------------------------------------------------------------------

  datatype Read<+T> = Refused(why: Reject) | Got(value: T, rest: seq<byte>)

  function Take(s: seq<byte>, want: byte): Read<byte> {
    if s != [] && s[0] == want then Got(want, s[1..]) else Refused(Truncated)
  }

  /** A decimal number of at most `cap`. */
  function ReadNumber(s: seq<byte>, cap: nat, missing: Reject, over: Reject): (r: Read<nat>)
    ensures r.Got? ==> r.value <= cap && |r.rest| < |s|
  {
    var d := EnvRecord.DigitRun(s);
    var n := EnvRecord.FromDecimal(s[..d]);
    if n > cap then Refused(over) else if d == 0 then Refused(missing) else Got(n, s[d..])
  }

  function NameEnd(s: seq<byte>): (n: nat)
    ensures n <= |s| && (n < |s| ==> s[n] == EQUALS || s[n] == 0)
    ensures forall i :: 0 <= i < n ==> s[i] != EQUALS && s[i] != 0
  {
    if s == [] || s[0] == EQUALS || s[0] == 0 then 0 else 1 + NameEnd(s[1..])
  }

  /** A name and what follows its equals sign. */
  function ReadName(s: seq<byte>): (r: Read<seq<byte>>)
    ensures r.Got? ==> ValidName(r.value) && |r.rest| < |s|
  {
    var n := NameEnd(s);
    if n == |s| then Refused(Truncated)
    else if s[n] == 0 || n == 0 || n > MAX_NAME_BYTES then Refused(BadName)
    else Got(s[..n], s[n + 1..])
  }

  function ReadValue(s: seq<byte>): (r: Read<seq<byte>>)
    ensures r.Got? ==> ValidValue(r.value) && |r.rest| < |s|
  {
    match ReadNumber(s, MAX_VALUE_BYTES, Truncated, ValueCap)
    case Refused(why) => Refused(why)
    case Got(len, t) =>
      match Take(t, COLON)
      case Refused(why) => Refused(why)
      case Got(_, u) =>
        if len > |u| then Refused(BadLength)
        else if 0 in u[..len] then Refused(NulInValue)
        else Got(u[..len], u[len..])
  }

  function ReadPolicy(s: seq<byte>): Read<Policy> {
    if s != [] && s[0] == 0x2E then Got(Preserve, s[1..])
    else if s != [] && s[0] == 0x21 then Got(Replace, s[1..])
    else Refused(BadPolicy)
  }

  function ReadApplied(s: seq<byte>): Read<bool> {
    if s != [] && s[0] == 0x2B then Got(true, s[1..])
    else if s != [] && s[0] == 0x2D then Got(false, s[1..])
    else Refused(BadApplied)
  }

  /** The end of an entry or a scalar: the newline after it may be left out. */
  function ReadEnd(s: seq<byte>): (r: Read<byte>)
    ensures r.Got? ==> |r.rest| < |s|
  {
    match Take(s, SEMICOLON)
    case Refused(why) => Refused(why)
    case Got(b, t) => Got(b, if t != [] && t[0] == NEWLINE then t[1..] else t)
  }

  function ReadEntry(s: seq<byte>): (r: Read<Entry>)
    ensures r.Got? ==> ValidEntry(r.value) && |r.rest| < |s|
  {
    match ReadName(s)
    case Refused(why) => Refused(why)
    case Got(name, t) =>
      match ReadPolicy(t)
      case Refused(why) => Refused(why)
      case Got(policy, u) =>
        match ReadValue(u)
        case Refused(why) => Refused(why)
        case Got(value, v) =>
          match ReadApplied(v)
          case Refused(why) => Refused(why)
          case Got(leftSet, w) =>
            match ReadEnd(w)
            case Refused(why) => Refused(why)
            case Got(_, rest) => Got(Entry(name, value, policy, leftSet), rest)
  }

  function ReadEntries(count: nat, s: seq<byte>): (r: Read<seq<Entry>>)
    ensures r.Got? ==> |r.value| == count && ValidEntries(r.value)
  {
    if count == 0 then Got([], s)
    else
      match ReadEntry(s)
      case Refused(why) => Refused(why)
      case Got(e, t) =>
        match ReadEntries(count - 1, t)
        case Refused(why) => Refused(why)
        case Got(es, rest) => Got([e] + es, rest)
  }

  function ReadScalar(tag: byte, s: seq<byte>): (r: Read<Option<seq<byte>>>)
    ensures r.Got? ==> ValidScalar(r.value)
  {
    if s == [] || s[0] != tag then Got(None, s)
    else
      match ReadValue(s[1..])
      case Refused(why) => Refused(why)
      case Got(value, t) =>
        match ReadEnd(t)
        case Refused(why) => Refused(why)
        case Got(_, rest) => Got(Some(value), rest)
  }

  function ReadScalars(entries: seq<Entry>, s: seq<byte>): (r: Read<Record>)
    ensures r.Got? ==> r.value.entries == entries && ValidScalar(r.value.roots) && ValidScalar(r.value.host)
  {
    match ReadScalar(ROOTS_TAG, s)
    case Refused(why) => Refused(why)
    case Got(roots, t) =>
      match ReadScalar(HOST_TAG, t)
      case Refused(why) => Refused(why)
      case Got(host, u) => if u == [] then Got(Record(entries, roots, host), u) else Refused(Trailing)
  }

  /** The number of entries, and where they start. */
  function ReadHeader(s: seq<byte>): (r: Read<nat>)
    ensures r.Got? ==> r.value <= MAX_ENTRIES
  {
    if !StartsWith(s, HeaderText()) then Refused(BadHeader)
    else
      match ReadNumber(s[|HeaderText()|..], MAX_ENTRIES, BadCount, BadCount)
      case Refused(why) => Refused(why)
      case Got(count, t) =>
        match Take(t, NEWLINE)
        case Refused(why) => Refused(why)
        case Got(_, u) => Got(count, u)
  }

  /** `Decoded::parse`: a record is accepted whole or not at all, and then it is valid. */
  function Parse(s: seq<byte>): (r: Read<Record>)
    ensures r.Got? ==> Valid(r.value)
  {
    match ReadHeader(s)
    case Refused(why) => Refused(why)
    case Got(count, t) =>
      match ReadEntries(count, t)
      case Refused(why) => Refused(why)
      case Got(entries, u) => ReadScalars(entries, u)
  }

  // ---- what is written is read back ----------------------------------------------------------

  lemma NumberIsReadBack(n: nat, cap: nat, missing: Reject, over: Reject, rest: seq<byte>)
    requires n <= cap && (rest == [] || !EnvRecord.Digit(rest[0]))
    ensures ReadNumber(EnvRecord.Decimal(n) + rest, cap, missing, over) == Got(n, rest)
  {
    var d := EnvRecord.Decimal(n);
    EnvRecord.FromDecimalOfDecimal(n);
    EnvRecord.DigitRunOf(d, rest);
    hide EnvRecord.Decimal, EnvRecord.FromDecimal, EnvRecord.DigitRun;
    assert (d + rest)[..|d|] == d && (d + rest)[|d|..] == rest;
  }

  lemma ValueIsReadBack(value: seq<byte>, rest: seq<byte>)
    requires ValidValue(value)
    ensures ReadValue(ValueText(value) + rest) == Got(value, rest)
  {
    var t := [COLON] + (value + rest);
    assert ValueText(value) + rest == EnvRecord.Decimal(|value|) + t;
    NumberIsReadBack(|value|, MAX_VALUE_BYTES, Truncated, ValueCap, t);
    hide EnvRecord.Decimal, ReadNumber;
    assert t[1..] == value + rest;
    assert (value + rest)[..|value|] == value && (value + rest)[|value|..] == rest;
  }

  lemma {:induction false} NameEndIs(name: seq<byte>, rest: seq<byte>)
    requires 0 !in name && EQUALS !in name
    ensures NameEnd(name + [EQUALS] + rest) == |name|
  {
    var s := name + [EQUALS] + rest;
    if name != [] {
      assert s[1..] == name[1..] + [EQUALS] + rest;
      assert name[0] in name;
      NameEndIs(name[1..], rest);
    }
  }

  lemma NameIsReadBack(name: seq<byte>, rest: seq<byte>)
    requires ValidName(name)
    ensures ReadName(name + [EQUALS] + rest) == Got(name, rest)
  {
    var s := name + [EQUALS] + rest;
    NameEndIs(name, rest);
    hide NameEnd;
    assert s[..|name|] == name && s[|name| + 1..] == rest && s[|name|] == EQUALS;
  }

  lemma EndIsReadBack(rest: seq<byte>)
    ensures ReadEnd([SEMICOLON, NEWLINE] + rest) == Got(SEMICOLON, rest)
  {
    var s := [SEMICOLON, NEWLINE] + rest;
    assert s[1..][1..] == rest;
  }

  lemma MarksAreReadBack(p: Policy, leftSet: bool, u: seq<byte>)
    ensures ReadPolicy([PolicyByte(p)] + u) == Got(p, u) && ReadApplied([AppliedByte(leftSet)] + u) == Got(leftSet, u)
  {
    assert ([PolicyByte(p)] + u)[1..] == u && ([AppliedByte(leftSet)] + u)[1..] == u;
  }

  lemma EntryIsReadBack(e: Entry, rest: seq<byte>)
    requires ValidEntry(e)
    ensures ReadEntry(EntryText(e) + rest) == Got(e, rest)
  {
    hide ReadName, ReadValue, ReadEnd, ReadPolicy, ReadApplied, ValueText, EntryText, PolicyByte, AppliedByte,
      ValidName, ValidValue;
    var w := [SEMICOLON, NEWLINE] + rest;
    var v := [AppliedByte(e.leftSet)] + w;
    var u := ValueText(e.value) + v;
    var t := [PolicyByte(e.policy)] + u;
    EntryTextIs(e, rest);
    NameIsReadBack(e.name, t);
    MarksAreReadBack(e.policy, e.leftSet, u);
    ValueIsReadBack(e.value, v);
    MarksAreReadBack(e.policy, e.leftSet, w);
    EndIsReadBack(rest);
  }

  lemma EntryTextIs(e: Entry, rest: seq<byte>)
    ensures EntryText(e) + rest
      == e.name + [EQUALS] + ([PolicyByte(e.policy)]
        + (ValueText(e.value) + ([AppliedByte(e.leftSet)] + ([SEMICOLON, NEWLINE] + rest))))
  {
    hide ValueText, PolicyByte, AppliedByte;
  }

  lemma {:induction false} EntriesAreReadBack(es: seq<Entry>, rest: seq<byte>)
    requires ValidEntries(es)
    ensures ReadEntries(|es|, EntriesText(es) + rest) == Got(es, rest)
  {
    if es == [] {
      assert EntriesText(es) + rest == rest;
    } else {
      var tail := EntriesText(es[1..]) + rest;
      assert ValidEntry(es[0]) && ValidEntries(es[1..]);
      assert EntriesText(es) + rest == EntryText(es[0]) + tail by { hide EntryText; }
      EntryIsReadBack(es[0], tail);
      hide ReadEntry, EntryText, EntriesText, ValidEntries;
      EntriesAreReadBack(es[1..], rest);
      assert [es[0]] + es[1..] == es;
    }
  }

  lemma ScalarIsReadBack(tag: byte, scalar: Option<seq<byte>>, rest: seq<byte>)
    requires ValidScalar(scalar) && (rest == [] || rest[0] != tag)
    ensures ReadScalar(tag, ScalarText(tag, scalar) + rest) == Got(scalar, rest)
  {
    if scalar.None? {
      assert ScalarText(tag, scalar) + rest == rest;
    } else {
      var t := [SEMICOLON, NEWLINE] + rest;
      var s := ScalarText(tag, scalar) + rest;
      hide ReadValue, ReadEnd, ValueText;
      assert s == [tag] + (ValueText(scalar.value) + t);
      assert s[1..] == ValueText(scalar.value) + t;
      ValueIsReadBack(scalar.value, t);
      EndIsReadBack(rest);
    }
  }

  lemma ScalarsAreReadBack(r: Record)
    requires ValidScalar(r.roots) && ValidScalar(r.host)
    ensures ReadScalars(r.entries, ScalarText(ROOTS_TAG, r.roots) + ScalarText(HOST_TAG, r.host)) == Got(r, [])
  {
    hide ReadScalar, ValueText;
    var t := ScalarText(HOST_TAG, r.host);
    assert t == [] || t[0] == HOST_TAG;
    assert t + [] == t;
    ScalarIsReadBack(ROOTS_TAG, r.roots, t);
    ScalarIsReadBack(HOST_TAG, r.host, []);
  }

  lemma HeaderIsReadBack(count: nat, rest: seq<byte>)
    requires count <= MAX_ENTRIES
    ensures ReadHeader(HeaderText() + EnvRecord.Decimal(count) + [NEWLINE] + rest) == Got(count, rest)
  {
    hide HeaderText, EnvRecord.Decimal, ReadNumber;
    var s := HeaderText() + EnvRecord.Decimal(count) + [NEWLINE] + rest;
    var t := [NEWLINE] + rest;
    assert s[..|HeaderText()|] == HeaderText();
    assert s[|HeaderText()|..] == EnvRecord.Decimal(count) + t;
    NumberIsReadBack(count, MAX_ENTRIES, BadCount, BadCount, t);
    assert t[1..] == rest;
  }

  /** The constructor reads back what the runtime wrote, for every record within the bounds. */
  lemma ParseOfText(r: Record)
    requires Valid(r)
    ensures Parse(RecordText(r)) == Got(r, [])
  {
    hide HeaderText, EnvRecord.Decimal, EntriesText, ScalarText, ReadHeader, ReadEntries, ReadScalars, ValidScalar,
      ValidEntries;
    var tail := ScalarText(ROOTS_TAG, r.roots) + ScalarText(HOST_TAG, r.host);
    HeaderIsReadBack(|r.entries|, EntriesText(r.entries) + tail);
    EntriesAreReadBack(r.entries, tail);
    ScalarsAreReadBack(r);
  }

  /** Every accepted input means the same as what would be written for it, and no two records have the same text. */
  lemma AcceptedIsRewritten(s: seq<byte>)
    requires Parse(s).Got?
    ensures Parse(RecordText(Parse(s).value)) == Got(Parse(s).value, [])
  {
    hide RecordText, Valid;
    ParseOfText(Parse(s).value);
  }

  lemma TextIsInjective(a: Record, b: Record)
    requires Valid(a) && Valid(b) && RecordText(a) == RecordText(b)
    ensures a == b
  {
    hide RecordText, Valid, Parse;
    ParseOfText(a);
    ParseOfText(b);
  }
}
