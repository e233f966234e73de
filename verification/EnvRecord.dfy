/** The record of what a launch changed in its environment: the text that
    `crates/onelf-rt/src/hostenv.rs` writes, and the two parsers of it, the one
    beside the writer and the one in `crates/onelf-payloads/src/exec.rs`.
 */
module EnvRecord {
  import opened Bytes

  const EQUALS: byte := 0x3D
  const SEMICOLON: byte := 0x3B
  const COLON: byte := 0x3A
  const MINUS: byte := 0x2D
  const STAR: byte := 0x2A
  const PLUS: byte := 0x2B

  const U64_LIMIT: nat := 0x1_0000_0000_0000_0000

  type u64 = x: int | 0 <= x < U64_LIMIT

  /** What the launch did to a variable. */
  datatype Applied = Removed | Value(hash: u64) | Any

  datatype Entry = Entry(name: seq<byte>, applied: Applied, original: Option<seq<byte>>)

  // ---- numbers as text -------------------------------------------------------------------

  predicate Digit(b: byte) { 0x30 <= b <= 0x39 }

  predicate HexDigit(b: byte) { Digit(b) || 0x61 <= b <= 0x66 }

  predicate Digits(s: seq<byte>) { forall i :: 0 <= i < |s| ==> Digit(s[i]) }

  predicate HexDigits(s: seq<byte>) { forall i :: 0 <= i < |s| ==> HexDigit(s[i]) }

  function HexValue(b: byte): nat
    requires HexDigit(b)
  {
    if Digit(b) then b - 0x30 else b - 0x61 + 10
  }

  function HexText(n: nat): byte
    requires n < 16
  {
    if n < 10 then 0x30 + n else 0x61 + n - 10
  }

  /** `n` in `width` hexadecimal digits, the most significant first. */
  function Hex(n: nat, width: nat): (r: seq<byte>)
    ensures |r| == width
  {
    if width == 0 then [] else Hex(n / 16, width - 1) + [HexText(n % 16)]
  }

  function FromHex(s: seq<byte>): nat
    requires HexDigits(s)
  {
    if s == [] then 0 else FromHex(s[..|s| - 1]) * 16 + HexValue(s[|s| - 1])
  }

  function Decimal(n: nat): (r: seq<byte>)
    ensures r != []
  {
    if n < 10 then [0x30 + n] else Decimal(n / 10) + [0x30 + n % 10]
  }

  function FromDecimal(s: seq<byte>): nat
    requires Digits(s)
  {
    if s == [] then 0 else FromDecimal(s[..|s| - 1]) * 10 + (s[|s| - 1] - 0x30)
  }

  function Pow16(k: nat): nat { if k == 0 then 1 else 16 * Pow16(k - 1) }

  lemma {:induction false} FromHexOfHex(n: nat, width: nat)
    requires n < Pow16(width)
    ensures HexDigits(Hex(n, width)) && FromHex(Hex(n, width)) == n
  {
    if width > 0 {
      FromHexOfHex(n / 16, width - 1);
      assert Hex(n, width)[..width - 1] == Hex(n / 16, width - 1);
    }
  }

  lemma {:induction false} FromHexBelow(s: seq<byte>)
    requires HexDigits(s)
    ensures FromHex(s) < Pow16(|s|)
  {
    if s != [] { FromHexBelow(s[..|s| - 1]); }
  }

  lemma SixteenDigits()
    ensures Pow16(16) == U64_LIMIT
  {
    assert Pow16(8) == 0x1_0000_0000;
  }

  lemma {:induction false} FromDecimalOfDecimal(n: nat)
    ensures Digits(Decimal(n)) && FromDecimal(Decimal(n)) == n
  {
    if n >= 10 {
      FromDecimalOfDecimal(n / 10);
      assert Decimal(n)[..|Decimal(n)| - 1] == Decimal(n / 10);
    } else {
      assert FromDecimal([]) == 0 && [0x30 + n][..0] == [];
    }
  }

  // ---- writing ---------------------------------------------------------------------------

  function AppliedText(a: Applied): seq<byte> {
    match a
    case Removed => [MINUS]
    case Any => [STAR]
    case Value(hash) => Hex(hash, 16)
  }

  function OriginalText(original: Option<seq<byte>>): seq<byte> {
    match original
    case None => [MINUS]
    case Some(value) => Decimal(|value|) + [COLON] + value
  }

  /** One entry of the record. */
  function EntryText(e: Entry): seq<byte> {
    e.name + [EQUALS] + AppliedText(e.applied) + OriginalText(e.original) + [SEMICOLON]
  }

  function RecordText(es: seq<Entry>): seq<byte> {
    if es == [] then [] else EntryText(es[0]) + RecordText(es[1..])
  }

  // ---- reading ---------------------------------------------------------------------------

  /** The first place of `b`, or the length. */
  function IndexOf(s: seq<byte>, b: byte): (i: nat)
    ensures i <= |s| && (i < |s| ==> s[i] == b) && forall j :: 0 <= j < i ==> s[j] != b
  {
    if s == [] || s[0] == b then 0 else 1 + IndexOf(s[1..], b)
  }

  lemma IndexOfFirst(s: seq<byte>, b: byte, rest: seq<byte>)
    requires b !in s
    ensures IndexOf(s + [b] + rest, b) == |s|
  {
    var t := s + [b] + rest;
    assert t[|s|] == b;
    assert forall j :: 0 <= j < |s| ==> t[j] == s[j];
  }

  function ReadApplied(s: seq<byte>): Option<(Applied, seq<byte>)> {
    if s == [] then None
    else if s[0] == MINUS then Some((Removed, s[1..]))
    else if s[0] == STAR then Some((Any, s[1..]))
    else if |s| >= 16 && HexDigits(s[..16]) then
      SixteenDigits();
      FromHexBelow(s[..16]);
      Some((Value(FromHex(s[..16])), s[16..]))
    else None
  }

  /** How many digits `s` starts with. */
  function DigitRun(s: seq<byte>): (n: nat)
    ensures n <= |s| && Digits(s[..n]) && (n < |s| ==> !Digit(s[n]))
  {
    if s == [] || !Digit(s[0]) then 0
    else
      assert s[..1 + DigitRun(s[1..])] == [s[0]] + s[1..][..DigitRun(s[1..])];
      1 + DigitRun(s[1..])
  }

  /** A value of the declared length, as the hooks read it. */
  function HookOriginal(s: seq<byte>): Option<(Option<seq<byte>>, seq<byte>)> {
    if s != [] && s[0] == MINUS then Some((None, s[1..]))
    else
      var d := DigitRun(s);
      var len := FromDecimal(s[..d]);
      if d == 0 || len >= U64_LIMIT || d == |s| || s[d] != COLON || len > |s| - d - 1 then None
      else Some((Some(s[d + 1..d + 1 + len]), s[d + 1 + len..]))
  }

  /** `parse` of an unsigned number, which allows a plus sign. */
  function ParseUsize(s: seq<byte>): Option<nat> {
    var d := if s != [] && s[0] == PLUS then s[1..] else s;
    if d == [] || !Digits(d) || FromDecimal(d) >= U64_LIMIT then None else Some(FromDecimal(d))
  }

  /** A value of the declared length, as the writer's side reads it. */
  function HostOriginal(s: seq<byte>): Option<(Option<seq<byte>>, seq<byte>)> {
    if s != [] && s[0] == MINUS then Some((None, s[1..]))
    else
      var colon := IndexOf(s, COLON);
      if colon == |s| || ParseUsize(s[..colon]).None? then None
      else
        var len := ParseUsize(s[..colon]).value;
        if len > |s| - colon - 1 then None
        else Some((Some(s[colon + 1..colon + 1 + len]), s[colon + 1 + len..]))
  }

  datatype Parser = Hook | Host

  function ReadOriginal(p: Parser, s: seq<byte>): (r: Option<(Option<seq<byte>>, seq<byte>)>)
    ensures r.Some? ==> |r.value.1| < |s|
  {
    if p.Hook? then HookOriginal(s) else HostOriginal(s)
  }

  /** The entry that `s` starts with and what follows it. Only the hooks refuse an empty name. */
  function ParseEntry(p: Parser, s: seq<byte>): (r: Option<(Entry, seq<byte>)>)
    ensures r.Some? ==> |r.value.1| < |s|
  {
    var eq := IndexOf(s, EQUALS);
    if eq == |s| || (p.Hook? && eq == 0) then None
    else
      match ReadApplied(s[eq + 1..])
      case None => None
      case Some((applied, t)) =>
        match ReadOriginal(p, t)
        case None => None
        case Some((original, u)) =>
          if u == [] || u[0] != SEMICOLON then None else Some((Entry(s[..eq], applied, original), u[1..]))
  }

  /** The entries up to the first malformed one. */
  function ParseRecord(p: Parser, s: seq<byte>): seq<Entry>
    decreases |s|
  {
    match ParseEntry(p, s)
    case None => []
    case Some((e, rest)) => [e] + ParseRecord(p, rest)
  }

  // ---- what is written is read back --------------------------------------------------------

  predicate WellFormed(e: Entry) {
    && e.name != [] && EQUALS !in e.name
    && (e.original.Some? ==> |e.original.value| < U64_LIMIT)
  }

  lemma ReadAppliedOfText(a: Applied, rest: seq<byte>)
    ensures ReadApplied(AppliedText(a) + rest) == Some((a, rest))
  {
    var s := AppliedText(a) + rest;
    if a.Value? {
      SixteenDigits();
      FromHexOfHex(a.hash, 16);
      assert s[..16] == Hex(a.hash, 16) && s[16..] == rest;
      assert HexDigit(s[0]) by { assert s[0] == Hex(a.hash, 16)[0]; }
    } else {
      assert s[1..] == rest;
    }
  }

  lemma {:induction false} DigitRunOf(d: seq<byte>, rest: seq<byte>)
    requires Digits(d) && (rest == [] || !Digit(rest[0]))
    ensures DigitRun(d + rest) == |d|
  {
    if d == [] {
      assert d + rest == rest;
    } else {
      assert (d + rest)[1..] == d[1..] + rest;
      DigitRunOf(d[1..], rest);
    }
  }

  lemma OriginalParts(value: seq<byte>, rest: seq<byte>)
    ensures var d := Decimal(|value|); var s := d + [COLON] + value + rest;
      && s[..|d|] == d && s[|d|] == COLON && |s| == |d| + 1 + |value| + |rest|
      && s[|d| + 1..|d| + 1 + |value|] == value && s[|d| + 1 + |value|..] == rest
      && s == d + ([COLON] + value + rest) && s == d + [COLON] + (value + rest)
  {
    hide Decimal;
    ColonParts(Decimal(|value|), value, rest);
  }

  lemma ColonParts(d: seq<byte>, value: seq<byte>, rest: seq<byte>)
    ensures var s := d + [COLON] + value + rest;
      && s[..|d|] == d && s[|d|] == COLON && |s| == |d| + 1 + |value| + |rest|
      && s[|d| + 1..|d| + 1 + |value|] == value && s[|d| + 1 + |value|..] == rest
      && s == d + ([COLON] + value + rest) && s == d + [COLON] + (value + rest)
  {
    var s := d + [COLON] + value + rest;
    var front := d + [COLON];
    assert |front| == |d| + 1 && front[..|d|] == d && front[|d|] == COLON;
    Slices(front, value, rest);
    assert s[..|front|] == front;
    assert s[..|d|] == front[..|d|] && s[|d|] == front[|d|];
    Slices(d, [COLON], value + rest);
    assert [COLON] + value + rest == [COLON] + (value + rest);
  }

  lemma Slices(a: seq<byte>, b: seq<byte>, c: seq<byte>)
    ensures var s := a + b + c;
      && |s| == |a| + |b| + |c| && s == a + (b + c)
      && s[..|a|] == a && s[|a|..|a| + |b|] == b && s[|a| + |b|..] == c
  {
  }

  lemma HookOriginalOfText(value: seq<byte>, rest: seq<byte>)
    requires |value| < U64_LIMIT
    ensures HookOriginal(OriginalText(Some(value)) + rest) == Some((Some(value), rest))
  {
    var d := Decimal(|value|);
    var s := d + [COLON] + value + rest;
    FromDecimalOfDecimal(|value|);
    OriginalParts(value, rest);
    DigitRunOf(d, [COLON] + value + rest);
    assert s[0] == d[0];
  }

  lemma NoColonIn(d: seq<byte>)
    requires Digits(d)
    ensures COLON !in d
  {
  }

  lemma HostOriginalOfText(value: seq<byte>, rest: seq<byte>)
    requires |value| < U64_LIMIT
    ensures HostOriginal(OriginalText(Some(value)) + rest) == Some((Some(value), rest))
  {
    var d := Decimal(|value|);
    var s := d + [COLON] + value + rest;
    FromDecimalOfDecimal(|value|);
    OriginalParts(value, rest);
    NoColonIn(d);
    IndexOfFirst(d, COLON, value + rest);
    assert s[0] == d[0] && Digit(d[0]);
  }

  lemma ReadOriginalOfText(p: Parser, original: Option<seq<byte>>, rest: seq<byte>)
    requires original.Some? ==> |original.value| < U64_LIMIT
    ensures ReadOriginal(p, OriginalText(original) + rest) == Some((original, rest))
  {
    if original.None? {
      assert ([MINUS] + rest)[1..] == rest;
    } else if p.Hook? {
      HookOriginalOfText(original.value, rest);
    } else {
      HostOriginalOfText(original.value, rest);
    }
  }

  /** Either parser reads an entry back, whatever its name, values and hash are made of. */
  lemma ParseEntryOfText(p: Parser, e: Entry, rest: seq<byte>)
    requires WellFormed(e)
    ensures ParseEntry(p, EntryText(e) + rest) == Some((e, rest))
  {
    hide AppliedText, OriginalText, ReadApplied, ReadOriginal;
    var s := EntryText(e) + rest;
    var u := [SEMICOLON] + rest;
    var t := OriginalText(e.original) + u;
    assert s == e.name + [EQUALS] + (AppliedText(e.applied) + t);
    IndexOfFirst(e.name, EQUALS, AppliedText(e.applied) + t);
    assert s[..|e.name|] == e.name && s[|e.name| + 1..] == AppliedText(e.applied) + t;
    ReadAppliedOfText(e.applied, t);
    ReadOriginalOfText(p, e.original, u);
    assert u[1..] == rest;
  }

  /** A written record parses to its entries, by both parsers. */
  lemma {:induction false} ParseRecordOfText(p: Parser, es: seq<Entry>)
    requires forall e :: e in es ==> WellFormed(e)
    ensures ParseRecord(p, RecordText(es)) == es
  {
    if es == [] {
      assert IndexOf([], EQUALS) == 0;
    } else {
      ParseEntryOfText(p, es[0], RecordText(es[1..]));
      ParseRecordOfText(p, es[1..]);
    }
  }

  // ---- where the two parsers agree ---------------------------------------------------------

  lemma ColonAfterDigits(s: seq<byte>)
    requires DigitRun(s) < |s| && s[DigitRun(s)] == COLON
    ensures IndexOf(s, COLON) == DigitRun(s)
  {
    var n := DigitRun(s);
    NoColonIn(s[..n]);
    SplitAt(s, n);
    hide IndexOf, Digits, DigitRun, Digit;
    IndexOfFirst(s[..n], COLON, s[n + 1..]);
  }

  lemma SplitAt(s: seq<byte>, n: nat)
    requires n < |s|
    ensures s == s[..n] + [s[n]] + s[n + 1..]
  {
  }

  lemma DigitsUpToColon(s: seq<byte>)
    requires IndexOf(s, COLON) < |s| && Digits(s[..IndexOf(s, COLON)])
    ensures DigitRun(s) == IndexOf(s, COLON)
  {
    var colon := IndexOf(s, COLON);
    var front, rest := s[..colon], s[colon..];
    assert rest[0] == COLON && !Digit(COLON);
    hide IndexOf, Digits, DigitRun, Digit;
    DigitRunOf(front, rest);
    assert front + rest == s;
  }

  predicate StartsWithPlus(s: seq<byte>) { s != [] && s[0] == PLUS }

  /** The lengths differ in the plus sign only. */
  lemma OriginalsAgree(s: seq<byte>)
    ensures HookOriginal(s) == HostOriginal(s) <==> HostOriginal(s).None? || !StartsWithPlus(s)
    ensures HookOriginal(s).Some? ==> HookOriginal(s) == HostOriginal(s)
  {
    var d, colon := DigitRun(s), IndexOf(s, COLON);
    if d < |s| && s[d] == COLON && d > 0 {
      ColonAfterDigits(s);
      assert s[..d][0] == s[0];
    } else if colon < |s| && !StartsWithPlus(s) && Digits(s[..colon]) {
      DigitsUpToColon(s);
    }
    assert colon > 0 ==> s[..colon][0] == s[0];
  }

  /** What the hooks do not take, in an entry that the writer's side reads: a name without a
      byte, and a length with a plus sign. */
  predicate HooksRefuse(s: seq<byte>) {
    var eq := IndexOf(s, EQUALS);
    || eq == 0
    || (eq < |s| && var applied := ReadApplied(s[eq + 1..]); applied.Some? && StartsWithPlus(applied.value.1))
  }

  /** What the hooks accept the writer's side reads as the same, and the other way round exactly
      if there is nothing that the hooks do not take. */
  lemma EntriesAgreeExactly(s: seq<byte>)
    ensures ParseEntry(Hook, s) == ParseEntry(Host, s) <==> ParseEntry(Host, s).None? || !HooksRefuse(s)
    ensures ParseEntry(Hook, s).Some? ==> ParseEntry(Hook, s) == ParseEntry(Host, s)
  {
    var eq := IndexOf(s, EQUALS);
    hide ReadApplied, HookOriginal, HostOriginal;
    if eq < |s| && ReadApplied(s[eq + 1..]).Some? { OriginalsAgree(ReadApplied(s[eq + 1..]).value.1); }
  }

  /** None of the entries that the writer's side reads has what the hooks do not take. */
  predicate HooksTake(s: seq<byte>)
    decreases |s|
  {
    match ParseEntry(Host, s)
    case None => true
    case Some((_, rest)) => !HooksRefuse(s) && HooksTake(rest)
  }

  /** On every input the hooks read a prefix of what the writer's side reads, and all of it
      exactly if they take every entry. */
  lemma {:induction false} RecordsAgreeExactly(s: seq<byte>)
    ensures ParseRecord(Hook, s) <= ParseRecord(Host, s)
    ensures ParseRecord(Hook, s) == ParseRecord(Host, s) <==> HooksTake(s)
    decreases |s|
  {
    EntriesAgreeExactly(s);
    hide ParseEntry, HooksRefuse;
    match ParseEntry(Host, s) {
      case None =>
      case Some((e, rest)) =>
        RecordsAgreeExactly(rest);
        if ParseEntry(Hook, s).Some? { SameFirst(e, ParseRecord(Hook, rest), ParseRecord(Host, rest)); }
    }
  }

  lemma SameFirst(e: Entry, a: seq<Entry>, b: seq<Entry>)
    ensures [e] + a == [e] + b <==> a == b
    ensures a <= b ==> [e] + a <= [e] + b
  {
    assert ([e] + a)[1..] == a && ([e] + b)[1..] == b;
  }

  /** Two entries at which the parsers differ: an empty name, and a signed length. */
  lemma ParsersDiffer()
    ensures ParseEntry(Host, Ascii("=-+1:x;")).Some? && ParseEntry(Hook, Ascii("=-+1:x;")).None?
    ensures ParseEntry(Host, Ascii("A=-+1:x;")).Some? && ParseEntry(Hook, Ascii("A=-+1:x;")).None?
  {
    assert Ascii("=-+1:x;") == [] + [EQUALS] + Signed();
    assert Ascii("A=-+1:x;") == [0x41] + [EQUALS] + Signed();
    hide ParseEntry, Signed;
    SignedEntry([]);
    SignedEntry([0x41]);
  }

  /** Removed, with an original of one byte whose length has a sign. */
  function Signed(): seq<byte> { [MINUS, PLUS, 0x31, COLON, 0x78, SEMICOLON] }

  lemma SignedEntry(name: seq<byte>)
    requires EQUALS !in name
    ensures var s := name + [EQUALS] + Signed(); ParseEntry(Host, s).Some? && ParseEntry(Hook, s).None?
  {
    var s := name + [EQUALS] + Signed();
    IndexOfFirst(name, EQUALS, Signed());
    assert s[|name| + 1..] == Signed();
    assert Signed()[1..] == [PLUS, 0x31, COLON, 0x78, SEMICOLON];
    assert ReadApplied(Signed()) == Some((Removed, Signed()[1..]));
    SignedLength();
    hide ReadApplied, HostOriginal, HookOriginal, IndexOf, Signed;
  }

  lemma SignedLength()
    ensures var t := [PLUS, 0x31, COLON, 0x78, SEMICOLON];
      HostOriginal(t) == Some((Some([0x78]), [SEMICOLON])) && HookOriginal(t) == None
  {
    var t := [PLUS, 0x31, COLON, 0x78, SEMICOLON];
    IndexOfFirst([PLUS, 0x31], COLON, [0x78, SEMICOLON]);
    assert t == [PLUS, 0x31] + [COLON] + [0x78, SEMICOLON];
    assert t[..2] == [PLUS, 0x31] && [PLUS, 0x31][1..] == [0x31];
    assert FromDecimal([0x31]) == 1 by { assert [0x31][..0] == []; assert FromDecimal([]) == 0; }
    assert t[3..4] == [0x78] && t[4..] == [SEMICOLON];
  }
}
