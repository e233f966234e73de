/** The identity of a launch's active pins and the decision recorded under it, of
    `crates/onelf-format/src/resolve.rs`. The digest that names the record's directory
    and what the file system says are given by functions.
 */
module Selection {
  import opened Bytes
  import opened EnvRecord
  import opened Ordering

  const TAB: byte := 0x09
  const LF: byte := 0x0A
  const CR: byte := 0x0D

  const MAX_ACTIVE_PINS := 4096
  const MAX_PIN_LABEL_BYTES := 128

  type Text = seq<byte>

  datatype Pin = Pin(name: Text, hash: Text)

  // ---- lines ---------------------------------------------------------------------------------

  function WithoutCr(line: Text): Text {
    if line != [] && line[|line| - 1] == CR then line[..|line| - 1] else line
  }

  /** `str::lines`: up to each line feed, less a carriage return before it. */
  function Lines(text: Text): seq<Text>
    decreases |text|
  {
    if text == [] then []
    else
      var n := IndexOf(text, LF);
      if n == |text| then [text] else [WithoutCr(text[..n])] + Lines(text[n + 1..])
  }

  /** Every line with its line feed. */
  function Unlines(lines: seq<Text>): Text { if lines == [] then [] else lines[0] + [LF] + Unlines(lines[1..]) }

  /** A line that reading gives back: no line feed in it and no carriage return at its end. */
  predicate Clean(line: Text) { LF !in line && (line == [] || line[|line| - 1] != CR) }

  predicate AllClean(lines: seq<Text>) { forall i :: 0 <= i < |lines| ==> Clean(lines[i]) }

  lemma FirstLine(line: Text, rest: Text)
    requires Clean(line)
    ensures Lines(line + [LF] + rest) == [line] + Lines(rest)
  {
    IndexOfFirst(line, LF, rest);
    LinePieces(line, rest);
  }

  lemma LinePieces(line: Text, rest: Text)
    ensures (line + [LF] + rest)[..|line|] == line && (line + [LF] + rest)[|line| + 1..] == rest
  {
  }

  lemma {:induction false} LinesOfUnlines(lines: seq<Text>, rest: Text)
    requires AllClean(lines)
    ensures Lines(Unlines(lines) + rest) == lines + Lines(rest)
    decreases |lines|
  {
    hide Lines, Clean;
    if lines == [] {
      assert Unlines(lines) + rest == rest;
    } else {
      FirstLine(lines[0], Unlines(lines[1..]) + rest);
      assert Unlines(lines) + rest == lines[0] + [LF] + (Unlines(lines[1..]) + rest);
      LinesOfUnlines(lines[1..], rest);
      assert [lines[0]] + (lines[1..] + Lines(rest)) == lines + Lines(rest);
    }
  }

  // ---- the identity ----------------------------------------------------------------------------

  function LowerByte(b: byte): byte { if 0x41 <= b <= 0x5A then b + 0x20 else b }

  function Lower(s: Text): Text { seq(|s|, i requires 0 <= i < |s| => LowerByte(s[i])) }

  function Lowered(p: Pin): Pin { Pin(p.name, Lower(p.hash)) }

  predicate Control(b: byte) { b < 0x20 || b == 0x7F }

  /** `admitted`: what a record line can carry. */
  predicate Admitted(p: Pin) {
    && 0 < |p.name| <= MAX_PIN_LABEL_BYTES
    && (forall i :: 0 <= i < |p.name| ==> !Control(p.name[i]))
    && |p.hash| == 64 && HexDigits(p.hash)
  }

  function PinLine(p: Pin): Text { Ascii("pin ") + Decimal(|p.name|) + [COLON] + p.name + [TAB] + p.hash }

  predicate PinBefore(a: Pin, b: Pin) { Before(a.name, b.name) || (a.name == b.name && Before(a.hash, b.hash)) }

  function LoweredAll(pins: seq<Pin>): (r: seq<Pin>)
    ensures |r| == |pins| && forall i :: 0 <= i < |pins| ==> r[i] == Lowered(pins[i])
  {
    seq(|pins|, i requires 0 <= i < |pins| => Lowered(pins[i]))
  }

  /** `dedup`: without the repetitions that follow one another. */
  function Dedup(s: seq<Pin>): seq<Pin> {
    if |s| < 2 then s else if s[0] == s[1] then Dedup(s[1..]) else [s[0]] + Dedup(s[1..])
  }

  /** The pins in canonical order. */
  function Canonical(pins: seq<Pin>): seq<Pin> { Dedup(Sort(PinBefore, LoweredAll(pins))) }

  function PinLines(pins: seq<Pin>): (r: seq<Text>)
    ensures |r| == |pins| && forall i :: 0 <= i < |pins| ==> r[i] == PinLine(pins[i])
  {
    seq(|pins|, i requires 0 <= i < |pins| => PinLine(pins[i]))
  }

  /** Lines with a line feed between them and none at the end. */
  function Joined(lines: seq<Text>): Text {
    if lines == [] then [] else if |lines| == 1 then lines[0] else lines[0] + [LF] + Joined(lines[1..])
  }

  predicate AllAdmitted(pins: seq<Pin>) { forall i :: 0 <= i < |pins| ==> Admitted(pins[i]) }

  /** The canonical text of a list of pins, or `None` outside the bounds. */
  function Identity(pins: seq<Pin>): Option<Text> {
    if |pins| > MAX_ACTIVE_PINS || !AllAdmitted(Canonical(pins)) then None
    else Some(Joined(PinLines(Canonical(pins))))
  }

  // ---- canonical order ------------------------------------------------------------------------

  lemma PinOrder()
    ensures Strict(PinBefore)
  {
    forall x: Pin ensures !PinBefore(x, x) {
      BeforeIsTotal(x.name, x.name);
      BeforeIsTotal(x.hash, x.hash);
    }
    forall x: Pin, y: Pin, z: Pin | PinBefore(x, y) && PinBefore(y, z) ensures PinBefore(x, z) {
      if Before(x.name, y.name) && Before(y.name, z.name) { BeforeIsTransitive(x.name, y.name, z.name); }
      if Before(x.hash, y.hash) && Before(y.hash, z.hash) { BeforeIsTransitive(x.hash, y.hash, z.hash); }
    }
  }

  lemma PinsAreOrdered(a: Pin, b: Pin)
    ensures a == b || PinBefore(a, b) || PinBefore(b, a)
  {
    BeforeIsTotal(a.name, b.name);
    BeforeIsTotal(a.hash, b.hash);
  }

  /** In order, repetitions allowed. */
  predicate Weakly(s: seq<Pin>) { forall i, j :: 0 <= i < j < |s| ==> s[i] == s[j] || PinBefore(s[i], s[j]) }

  lemma {:induction false} InsertWeakly(x: Pin, s: seq<Pin>)
    requires Weakly(s)
    ensures Weakly(Insert(PinBefore, x, s))
  {
    PinOrder();
    hide PinBefore;
    if s == [] {
    } else if PinBefore(s[0], x) {
      InsertWeakly(x, s[1..]);
      InsertKeeps(PinBefore, x, s[1..]);
      var rest := Insert(PinBefore, x, s[1..]);
      forall i | 0 <= i < |rest| ensures s[0] == rest[i] || PinBefore(s[0], rest[i]) {
        assert rest[i] in multiset(rest);
        assert rest[i] == x || rest[i] in s[1..];
      }
    } else {
      PinsAreOrdered(x, s[0]);
      forall i | 0 <= i < |s| ensures x == s[i] || PinBefore(x, s[i]) {
        assert i > 0 ==> s[0] == s[i] || PinBefore(s[0], s[i]);
      }
    }
  }

  lemma {:induction false} SortWeakly(s: seq<Pin>)
    ensures Weakly(Sort(PinBefore, s))
  {
    if s != [] {
      SortWeakly(s[1..]);
      InsertWeakly(s[0], Sort(PinBefore, s[1..]));
    }
  }

  lemma {:induction false} DedupAscends(s: seq<Pin>)
    requires Weakly(s)
    ensures Ascending(PinBefore, Dedup(s)) && forall p :: p in Dedup(s) <==> p in s
    ensures s != [] ==> Dedup(s) != [] && Dedup(s)[0] == s[0]
    decreases |s|
  {
    PinOrder();
    hide PinBefore;
    if |s| >= 2 {
      var t := s[1..];
      DedupAscends(t);
      assert s == [s[0]] + t;
      if s[0] != s[1] {
        forall i | 0 <= i < |Dedup(t)| ensures PinBefore(s[0], Dedup(t)[i]) {
          assert PinBefore(s[0], s[1]);
          assert i > 0 ==> PinBefore(Dedup(t)[0], Dedup(t)[i]);
        }
      }
    }
  }

  lemma CanonicalIs(pins: seq<Pin>)
    ensures Ascending(PinBefore, Canonical(pins))
    ensures forall p :: p in Canonical(pins) <==> p in LoweredAll(pins)
  {
    hide PinBefore;
    SortWeakly(LoweredAll(pins));
    SortKeeps(PinBefore, LoweredAll(pins));
    SameElements(Sort(PinBefore, LoweredAll(pins)), LoweredAll(pins));
    DedupAscends(Sort(PinBefore, LoweredAll(pins)));
  }

  lemma FirstIsMember(s: seq<Pin>)
    ensures s != [] ==> exists p :: p in s
  {
    if s != [] { assert s[0] in s; }
  }

  /** Two ascending lists with the same elements are one. */
  lemma {:induction false} SameSetSameOrder(a: seq<Pin>, b: seq<Pin>)
    requires Ascending(PinBefore, a) && Ascending(PinBefore, b) && forall p :: p in a <==> p in b
    ensures a == b
  {
    PinOrder();
    hide PinBefore;
    if a == [] {
      FirstIsMember(b);
    } else {
      assert a[0] in b && b != [];
      assert b[0] in a;
      var i :| 0 <= i < |b| && b[i] == a[0];
      var j :| 0 <= j < |a| && a[j] == b[0];
      HeadIsLeast(PinBefore, b, i);
      HeadIsLeast(PinBefore, a, j);
      assert a[0] == b[0];
      RestOf(a);
      RestOf(b);
      SameSetSameOrder(a[1..], b[1..]);
      assert a == [a[0]] + a[1..] && b == [b[0]] + b[1..];
    }
  }

  lemma RestOf(s: seq<Pin>)
    requires s != [] && Ascending(PinBefore, s)
    ensures Ascending(PinBefore, s[1..]) && forall p :: p in s[1..] <==> p in s && p != s[0]
  {
    PinOrder();
    hide PinBefore;
    assert s == [s[0]] + s[1..];
    forall p | p in s[1..] ensures p != s[0] {
      var i :| 0 <= i < |s[1..]| && s[1..][i] == p;
      assert PinBefore(s[0], s[i + 1]);
    }
  }

  // ---- one text, one selection -----------------------------------------------------------------

  lemma PinLineIsClean(p: Pin)
    requires Admitted(p)
    ensures Clean(PinLine(p)) && PinLine(p) != []
  {
    FromDecimalOfDecimal(|p.name|);
    var line := PinLine(p);
    var d := Decimal(|p.name|);
    assert line[|line| - 1] == p.hash[63] && HexDigit(p.hash[63]);
    assert Ascii("pin ") == [0x70, 0x69, 0x6E, 0x20];
    assert LF !in d && LF !in p.name && LF !in p.hash;
  }

  /** A pin's line names its name and hash and nothing else. */
  lemma PinLineIsInjective(p: Pin, q: Pin)
    requires Admitted(p) && Admitted(q) && PinLine(p) == PinLine(q)
    ensures p == q
  {
    var x, y := Decimal(|p.name|), Decimal(|q.name|);
    FromDecimalOfDecimal(|p.name|);
    FromDecimalOfDecimal(|q.name|);
    NoColonIn(x);
    NoColonIn(y);
    AfterPin(p);
    AfterPin(q);
    IndexOfFirst(x, COLON, p.name + [TAB] + p.hash);
    IndexOfFirst(y, COLON, q.name + [TAB] + q.hash);
    var s := PinLine(p)[4..];
    assert x == s[..|x|] && y == s[..|x|];
    assert p.name + [TAB] + p.hash == s[|x| + 1..] == q.name + [TAB] + q.hash;
    assert p.name == (p.name + [TAB] + p.hash)[..|p.name|];
    assert q.name == (q.name + [TAB] + q.hash)[..|q.name|];
    assert p.hash == (p.name + [TAB] + p.hash)[|p.name| + 1..];
    assert q.hash == (q.name + [TAB] + q.hash)[|q.name| + 1..];
  }

  lemma AfterPin(p: Pin)
    ensures |PinLine(p)| >= 4 && PinLine(p)[4..] == Decimal(|p.name|) + [COLON] + (p.name + [TAB] + p.hash)
  {
    hide Decimal;
    assert |Ascii("pin ")| == 4;
    assert PinLine(p) == Ascii("pin ") + (Decimal(|p.name|) + [COLON] + (p.name + [TAB] + p.hash));
  }

  lemma {:induction false} LinesOfJoined(lines: seq<Text>)
    requires AllClean(lines) && forall i :: 0 <= i < |lines| ==> lines[i] != []
    ensures Lines(Joined(lines)) == lines
  {
    hide Lines, Clean;
    if lines == [] {
      NoLines();
    } else if |lines| == 1 {
      NoLineFeed(lines[0]);
      assert lines == [lines[0]];
    } else {
      LinesOfJoined(lines[1..]);
      FirstLine(lines[0], Joined(lines[1..]));
      assert lines == [lines[0]] + lines[1..];
    }
  }

  lemma NoLineFeed(line: Text)
    requires Clean(line) && line != []
    ensures Lines(line) == [line]
  {
    assert IndexOf(line, LF) == |line|;
  }

  lemma IdentityLines(pins: seq<Pin>)
    requires Identity(pins).Some?
    ensures Lines(Identity(pins).value) == PinLines(Canonical(pins)) && AllClean(PinLines(Canonical(pins)))
  {
    var c := Canonical(pins);
    forall i | 0 <= i < |c| ensures Clean(PinLines(c)[i]) && PinLines(c)[i] != [] { PinLineIsClean(c[i]); }
    LinesOfJoined(PinLines(c));
  }

  /** Two selections have the same canonical text exactly when they have the same pins, order, repetition
      and the case of hashes aside.
   */
  lemma IdentityIsTheSet(a: seq<Pin>, b: seq<Pin>)
    requires Identity(a).Some? && Identity(b).Some?
    ensures Identity(a) == Identity(b) <==> forall p :: p in LoweredAll(a) <==> p in LoweredAll(b)
  {
    hide Admitted, PinLine, PinBefore, Joined, Lines;
    var c, d := Canonical(a), Canonical(b);
    CanonicalIs(a);
    CanonicalIs(b);
    if Identity(a) == Identity(b) {
      IdentityLines(a);
      IdentityLines(b);
      assert PinLines(c) == PinLines(d);
      assert c == d by {
        forall i | 0 <= i < |c| ensures c[i] == d[i] {
          assert PinLines(c)[i] == PinLines(d)[i];
          PinLineIsInjective(c[i], d[i]);
        }
      }
    }
    if forall p :: p in LoweredAll(a) <==> p in LoweredAll(b) {
      SameSetSameOrder(c, d);
    }
  }

  // ---- the record ------------------------------------------------------------------------------

  const RECORD_HEADER: Text := Ascii("onelf-resolve-selection 1")
  const FINGERPRINT: Text := Ascii("fingerprint ")
  const INTERP: Text := Ascii("interp ")
  const HOST: Text := Ascii("host ")
  const STAT: Text := Ascii("stat ")
  const INCOMPARABLE: Text := Ascii("incomparable ")

  /** A decision: the loader, the winners in order of name, and the names that could not be compared. */
  datatype Decision = Decision(interp: Option<Text>, winners: map<Text, Text>, incomparable: seq<Text>)

  /** What the file system says of a path. */
  datatype Files = Files(isFile: Text -> bool, stat: Text -> Text)

  /** The winners' names in order, as a map of the original lists them. */
  ghost predicate NamesOf(winners: map<Text, Text>, names: seq<Text>) {
    && (forall n :: n in names <==> n in winners)
    && Ascending(Before, names)
  }

  function HostLines(winners: map<Text, Text>, names: seq<Text>): seq<Text>
    requires forall n :: n in names ==> n in winners
  {
    if names == [] then [] else [HOST + names[0] + [TAB] + winners[names[0]]] + HostLines(winners, names[1..])
  }

  function StatLines(f: Files, winners: map<Text, Text>, names: seq<Text>): seq<Text>
    requires forall n :: n in names ==> n in winners
  {
    if names == [] then []
    else [STAT + names[0] + [TAB] + f.stat(winners[names[0]])] + StatLines(f, winners, names[1..])
  }

  function IncomparableLines(names: seq<Text>): seq<Text> {
    if names == [] then [] else [INCOMPARABLE + names[0]] + IncomparableLines(names[1..])
  }

  function InterpLines(interp: Option<Text>): seq<Text> { if interp.None? then [] else [INTERP + interp.value] }

  /** The lines after the fingerprint. */
  function BodyLines(f: Files, d: Decision, names: seq<Text>): seq<Text>
    requires forall n :: n in names ==> n in d.winners
  {
    InterpLines(d.interp) + HostLines(d.winners, names) + StatLines(f, d.winners, names)
      + IncomparableLines(d.incomparable)
  }

  /** The lines that say whose decision it is. */
  function HeadLines(identity: seq<Text>, fingerprint: Text): seq<Text> {
    [RECORD_HEADER] + identity + [FINGERPRINT + fingerprint]
  }

  /** The text of a record. The canonical text ends its lines itself, all but the last. */
  function RecordText(f: Files, canonical: Text, fingerprint: Text, d: Decision, names: seq<Text>): Text
    requires forall n :: n in names ==> n in d.winners
  {
    RECORD_HEADER + [LF] + (if canonical == [] then [] else canonical + [LF]) + FINGERPRINT + fingerprint + [LF]
    + Unlines(BodyLines(f, d, names))
  }

  function After(line: Text, prefix: Text): Option<Text> {
    if prefix <= line then Some(line[|prefix|..]) else None
  }

  /** Before and after the first tab. */
  function AtTab(s: Text): Option<(Text, Text)> {
    var n := IndexOf(s, TAB);
    if n == |s| then None else Some((s[..n], s[n + 1..]))
  }

  /** One line of the body, or `None` where the record is not adopted. */
  function ReadLine(f: Files, d: Decision, line: Text): Option<Decision> {
    if INTERP <= line then
      var path := line[|INTERP|..];
      if f.isFile(path) then Some(d.(interp := Some(path))) else None
    else if HOST <= line then
      match AtTab(line[|HOST|..])
      case None => None
      case Some((name, path)) => Some(d.(winners := d.winners[name := path]))
    else if STAT <= line then
      match AtTab(line[|STAT|..])
      case None => None
      case Some((name, recorded)) =>
        if name in d.winners && f.stat(d.winners[name]) == recorded then Some(d) else None
    else if INCOMPARABLE <= line then Some(d.(incomparable := d.incomparable + [line[|INCOMPARABLE|..]]))
    else None
  }

  function ReadBody(f: Files, d: Decision, lines: seq<Text>): Option<Decision>
    decreases |lines|
  {
    if lines == [] then Some(d)
    else
      match ReadLine(f, d, lines[0])
      case None => None
      case Some(next) => ReadBody(f, next, lines[1..])
  }

  /** `parse_decision`: nothing is adopted unless the whole head is the expected one. */
  function ParseDecision(f: Files, text: Text, identity: seq<Text>, fingerprint: Text): Option<Decision> {
    var lines, head := Lines(text), HeadLines(identity, fingerprint);
    if |lines| < |head| || lines[..|head|] != head then None
    else ReadBody(f, Decision(None, map[], []), lines[|head|..])
  }

  // ---- only for the identity it was made for ------------------------------------------------------

  lemma {:induction false} UnlinesConcat(a: seq<Text>, b: seq<Text>)
    ensures Unlines(a + b) == Unlines(a) + Unlines(b)
  {
    if a == [] {
      assert a + b == b;
    } else {
      UnlinesConcat(a[1..], b);
      assert (a + b)[1..] == a[1..] + b;
      assert a[0] + [LF] + (Unlines(a[1..]) + Unlines(b)) == a[0] + [LF] + Unlines(a[1..]) + Unlines(b);
    }
  }

  lemma {:induction false} JoinedUnlines(lines: seq<Text>)
    requires lines != []
    ensures Joined(lines) + [LF] == Unlines(lines)
  {
    if |lines| == 1 {
      assert lines[1..] == [] && Unlines(lines) == lines[0] + [LF] + Unlines(lines[1..]);
    } else {
      JoinedUnlines(lines[1..]);
      assert lines[0] + [LF] + Joined(lines[1..]) + [LF] == lines[0] + [LF] + (Joined(lines[1..]) + [LF]);
    }
  }

  lemma JoinedNotEmpty(lines: seq<Text>)
    requires forall i :: 0 <= i < |lines| ==> lines[i] != []
    ensures Joined(lines) == [] <==> lines == []
  {
  }

  lemma HeadIsClean(pins: seq<Pin>, fingerprint: Text)
    requires Identity(pins).Some? && Clean(fingerprint)
    ensures AllClean(HeadLines(PinLines(Canonical(pins)), fingerprint))
  {
    hide PinLine, Canonical;
    IdentityLines(pins);
    var head := HeadLines(PinLines(Canonical(pins)), fingerprint);
    WordsAreClean();
    forall i | 0 <= i < |head| ensures Clean(head[i]) {
      if 0 < i < |head| - 1 { assert head[i] == PinLines(Canonical(pins))[i - 1]; }
      if i == |head| - 1 { PrefixClean(FINGERPRINT, fingerprint); }
    }
  }

  lemma WordsAreClean()
    ensures Clean(RECORD_HEADER)
    ensures Clean(FINGERPRINT) && Clean(INTERP) && Clean(HOST) && Clean(STAT) && Clean(INCOMPARABLE)
  {
  }

  lemma PrefixClean(word: Text, rest: Text)
    requires Clean(word) && Clean(rest)
    ensures Clean(word + rest)
  {
    if rest != [] { assert (word + rest)[|word + rest| - 1] == rest[|rest| - 1]; } else { assert word + rest == word; }
  }

  /** The text of a record is the lines of its head and then those of its body. */
  lemma RecordIsLines(f: Files, pins: seq<Pin>, fingerprint: Text, d: Decision, names: seq<Text>)
    requires Identity(pins).Some? && forall n :: n in names ==> n in d.winners
    ensures RecordText(f, Identity(pins).value, fingerprint, d, names)
      == Unlines(HeadLines(PinLines(Canonical(pins)), fingerprint)) + Unlines(BodyLines(f, d, names))
  {
    hide PinLine, Canonical, BodyLines, Admitted;
    var lines, last := PinLines(Canonical(pins)), FINGERPRINT + fingerprint;
    var canonical := Identity(pins).value;
    forall i | 0 <= i < |lines| ensures lines[i] != [] { PinLineIsClean(Canonical(pins)[i]); }
    JoinedNotEmpty(lines);
    if lines != [] { JoinedUnlines(lines); }
    var middle := if canonical == [] then [] else canonical + [LF];
    assert middle == Unlines(lines);
    UnlinesConcat([RECORD_HEADER] + lines, [last]);
    UnlinesConcat([RECORD_HEADER], lines);
    OneLine(RECORD_HEADER);
    OneLine(last);
    Assemble(RECORD_HEADER, middle, FINGERPRINT, fingerprint, Unlines(BodyLines(f, d, names)));
  }

  lemma OneLine(line: Text)
    ensures Unlines([line]) == line + [LF]
  {
    assert Unlines([line]) == line + [LF] + Unlines([]);
  }

  lemma Assemble(a: Text, b: Text, c: Text, d: Text, e: Text)
    ensures a + [LF] + b + c + d + [LF] + e == a + [LF] + b + (c + d + [LF]) + e
  {
  }

  lemma LinesOfRecord(f: Files, pins: seq<Pin>, fingerprint: Text, d: Decision, names: seq<Text>)
    requires Identity(pins).Some? && Clean(fingerprint) && forall n :: n in names ==> n in d.winners
    ensures Lines(RecordText(f, Identity(pins).value, fingerprint, d, names))
      == HeadLines(PinLines(Canonical(pins)), fingerprint) + Lines(Unlines(BodyLines(f, d, names)))
  {
    hide Canonical, BodyLines, Identity, RecordText, Lines, Unlines, HeadLines;
    RecordIsLines(f, pins, fingerprint, d, names);
    HeadIsClean(pins, fingerprint);
    LinesOfUnlines(HeadLines(PinLines(Canonical(pins)), fingerprint), Unlines(BodyLines(f, d, names)));
  }

  /** No pin's line can be taken for a fingerprint. */
  lemma PinLineIsNoFingerprint(p: Pin, fingerprint: Text)
    ensures PinLine(p) != FINGERPRINT + fingerprint
  {
    assert PinLine(p)[0] == 0x70;
    assert (FINGERPRINT + fingerprint)[0] == 0x66;
  }

  /** Where one head is the start of another record's lines, both heads are the same. */
  lemma HeadsAgree(a: seq<Pin>, b: seq<Pin>, fa: Text, fb: Text, body: seq<Text>)
    requires var ha, hb := HeadLines(PinLines(a), fa), HeadLines(PinLines(b), fb);
      |hb| <= |ha + body| && (ha + body)[..|hb|] == hb
    ensures PinLines(a) == PinLines(b) && fa == fb
  {
    hide PinLine;
    var ha, hb := HeadLines(PinLines(a), fa), HeadLines(PinLines(b), fb);
    var all := ha + body;
    assert forall i :: 0 <= i < |hb| ==> all[i] == hb[i];
    if |a| < |b| {
      assert all[|a| + 1] == FINGERPRINT + fa && hb[|a| + 1] == PinLine(b[|a|]);
      PinLineIsNoFingerprint(b[|a|], fa);
    } else if |a| > |b| {
      assert all[|b| + 1] == PinLine(a[|b|]) && hb[|b| + 1] == FINGERPRINT + fb;
      PinLineIsNoFingerprint(a[|b|], fb);
    } else {
      forall i | 0 <= i < |a| ensures PinLines(a)[i] == PinLines(b)[i] { assert all[i + 1] == hb[i + 1]; }
      assert all[|a| + 1] == FINGERPRINT + fa && hb[|a| + 1] == FINGERPRINT + fb;
      assert fa == (FINGERPRINT + fa)[|FINGERPRINT|..] && fb == (FINGERPRINT + fb)[|FINGERPRINT|..];
    }
  }

  /** A record is adopted under another identity or host state only if both are the same, whatever digest
      names its directory and whatever it says.
   */
  lemma OnlyItsOwnRecord(f: Files, g: Files, a: seq<Pin>, b: seq<Pin>, fa: Text, fb: Text, d: Decision,
                         names: seq<Text>)
    requires Identity(a).Some? && Identity(b).Some? && Clean(fa) && forall n :: n in names ==> n in d.winners
    requires ParseDecision(g, RecordText(f, Identity(a).value, fa, d, names), Lines(Identity(b).value), fb).Some?
    ensures Identity(a) == Identity(b) && fa == fb
  {
    hide Canonical, BodyLines, RecordText, Lines, HeadLines, ReadBody;
    LinesOfRecord(f, a, fa, d, names);
    IdentityLines(b);
    HeadsAgree(Canonical(a), Canonical(b), fa, fb, Lines(Unlines(BodyLines(f, d, names))));
  }

  // ---- read back ---------------------------------------------------------------------------------

  /** What a record can carry: no name with a tab or line break, no path or loader with a line break. */
  ghost predicate Recordable(f: Files, d: Decision, names: seq<Text>) {
    && NamesOf(d.winners, names)
    && (d.interp.Some? ==> Clean(d.interp.value))
    && (forall n :: n in d.winners ==> TAB !in n && LF !in n && Clean(d.winners[n]) && Clean(f.stat(d.winners[n])))
    && (forall n :: n in d.incomparable ==> Clean(n))
  }

  /** The loader is still a file, and every winner is the file that was seen when the record was written. */
  ghost predicate Unchanged(f: Files, g: Files, d: Decision) {
    && (d.interp.Some? ==> g.isFile(d.interp.value))
    && forall n :: n in d.winners ==> g.stat(d.winners[n]) == f.stat(d.winners[n])
  }

  lemma {:induction false} ReadConcat(f: Files, d: Decision, a: seq<Text>, b: seq<Text>)
    ensures ReadBody(f, d, a + b) ==
      match ReadBody(f, d, a) case None => None case Some(e) => ReadBody(f, e, b)
    decreases |a|
  {
    hide ReadLine;
    if a == [] {
      assert a + b == b;
    } else {
      assert (a + b)[1..] == a[1..] + b && (a + b)[0] == a[0];
      match ReadLine(f, d, a[0])
      case None =>
      case Some(next) => ReadConcat(f, next, a[1..], b);
    }
  }

  function Filled(m: map<Text, Text>, winners: map<Text, Text>, names: seq<Text>): map<Text, Text>
    requires forall n :: n in names ==> n in winners
    decreases |names|
  {
    if names == [] then m else Filled(m[names[0] := winners[names[0]]], winners, names[1..])
  }

  lemma {:induction false} FilledIs(m: map<Text, Text>, winners: map<Text, Text>, names: seq<Text>)
    requires forall n :: n in names ==> n in winners
    ensures forall n :: n in Filled(m, winners, names) <==> n in m || n in names
    ensures forall n :: n in Filled(m, winners, names) ==>
      Filled(m, winners, names)[n] == if n in names then winners[n] else m[n]
    decreases |names|
  {
    if names != [] {
      FilledIs(m[names[0] := winners[names[0]]], winners, names[1..]);
      assert names == [names[0]] + names[1..];
    }
  }

  lemma TabSplits(name: Text, rest: Text)
    requires TAB !in name
    ensures AtTab(name + [TAB] + rest) == Some((name, rest))
  {
    IndexOfFirst(name, TAB, rest);
    assert (name + [TAB] + rest)[..|name|] == name && (name + [TAB] + rest)[|name| + 1..] == rest;
  }

  lemma HostLineReads(f: Files, d: Decision, name: Text, path: Text)
    requires TAB !in name
    ensures ReadLine(f, d, HOST + name + [TAB] + path) == Some(d.(winners := d.winners[name := path]))
  {
    var line := HOST + name + [TAB] + path;
    assert line == HOST + (name + [TAB] + path);
    TabSplits(name, path);
    assert line[0] == 0x68 && INTERP[0] == 0x69;
  }

  lemma StatLineReads(g: Files, d: Decision, name: Text, recorded: Text)
    requires TAB !in name && name in d.winners
    ensures ReadLine(g, d, STAT + name + [TAB] + recorded) ==
      if g.stat(d.winners[name]) == recorded then Some(d) else None
  {
    var line := STAT + name + [TAB] + recorded;
    assert line == STAT + (name + [TAB] + recorded);
    TabSplits(name, recorded);
    assert line[0] == 0x73 && INTERP[0] == 0x69 && HOST[0] == 0x68;
  }

  lemma IncomparableLineReads(f: Files, d: Decision, name: Text)
    ensures ReadLine(f, d, INCOMPARABLE + name) == Some(d.(incomparable := d.incomparable + [name]))
  {
    var line := INCOMPARABLE + name;
    assert line[0] == 0x69 && line[2] == 0x63 && INTERP[2] == 0x74 && HOST[0] == 0x68 && STAT[0] == 0x73;
  }

  lemma {:induction false} HostLinesRead(f: Files, d: Decision, winners: map<Text, Text>, names: seq<Text>)
    requires forall n :: n in names ==> n in winners && TAB !in n
    ensures ReadBody(f, d, HostLines(winners, names)) == Some(d.(winners := Filled(d.winners, winners, names)))
    decreases |names|
  {
    if names != [] {
      HostLineReads(f, d, names[0], winners[names[0]]);
      HostLinesRead(f, d.(winners := d.winners[names[0] := winners[names[0]]]), winners, names[1..]);
    }
  }

  lemma {:induction false} StatLinesRead(f: Files, g: Files, d: Decision, names: seq<Text>)
    requires forall n :: n in names ==> n in d.winners && TAB !in n
    ensures ReadBody(g, d, StatLines(f, d.winners, names)) ==
      if forall n :: n in names ==> g.stat(d.winners[n]) == f.stat(d.winners[n]) then Some(d) else None
    decreases |names|
  {
    if names != [] {
      StatLineReads(g, d, names[0], f.stat(d.winners[names[0]]));
      StatLinesRead(f, g, d, names[1..]);
      assert names == [names[0]] + names[1..];
      hide ReadLine;
    }
  }

  lemma {:induction false} IncomparableLinesRead(f: Files, d: Decision, names: seq<Text>)
    ensures ReadBody(f, d, IncomparableLines(names)) == Some(d.(incomparable := d.incomparable + names))
    decreases |names|
  {
    if names == [] {
      assert d.incomparable + [] == d.incomparable;
    } else {
      IncomparableLineReads(f, d, names[0]);
      IncomparableLinesRead(f, d.(incomparable := d.incomparable + [names[0]]), names[1..]);
      assert d.incomparable + [names[0]] + names[1..] == d.incomparable + names;
    }
  }

  lemma InterpLinesRead(g: Files, interp: Option<Text>)
    ensures ReadBody(g, Decision(None, map[], []), InterpLines(interp)) ==
      if interp.Some? && !g.isFile(interp.value) then None else Some(Decision(interp, map[], []))
  {
    if interp.Some? {
      var line := INTERP + interp.value;
      assert InterpLines(interp)[1..] == [];
      assert line[|INTERP|..] == interp.value;
    }
  }

  /** The body reads back as the decision it was written from, exactly where no file has changed. */
  lemma BodyReads(f: Files, g: Files, d: Decision, names: seq<Text>)
    requires Recordable(f, d, names)
    ensures ReadBody(g, Decision(None, map[], []), BodyLines(f, d, names)) == if Unchanged(f, g, d) then Some(d)
      else None
  {
    hide ReadBody, InterpLines, HostLines, StatLines, IncomparableLines;
    var d0, d1 := Decision(None, map[], []), Decision(d.interp, map[], []);
    var d2 := d1.(winners := Filled(map[], d.winners, names));
    FilledIs(map[], d.winners, names);
    assert d2.winners == d.winners;
    InterpLinesRead(g, d.interp);
    HostLinesRead(g, d1, d.winners, names);
    StatLinesRead(f, g, d2, names);
    IncomparableLinesRead(g, d2, d.incomparable);
    var a, b, c, e := InterpLines(d.interp), HostLines(d.winners, names), StatLines(f, d.winners, names),
      IncomparableLines(d.incomparable);
    ReadConcat(g, d0, a + b + c, e);
    ReadConcat(g, d0, a + b, c);
    ReadConcat(g, d0, a, b);
    assert [] + d.incomparable == d.incomparable;
  }

  lemma {:induction false} HostLinesClean(winners: map<Text, Text>, names: seq<Text>)
    requires forall n :: n in names ==> n in winners && LF !in n && Clean(winners[n])
    ensures AllClean(HostLines(winners, names))
  {
    if names != [] {
      HostLinesClean(winners, names[1..]);
      LineClean(HOST, names[0], winners[names[0]]);
    }
  }

  lemma {:induction false} StatLinesClean(f: Files, winners: map<Text, Text>, names: seq<Text>)
    requires forall n :: n in names ==> n in winners && LF !in n && Clean(f.stat(winners[n]))
    ensures AllClean(StatLines(f, winners, names))
  {
    if names != [] {
      StatLinesClean(f, winners, names[1..]);
      LineClean(STAT, names[0], f.stat(winners[names[0]]));
    }
  }

  lemma {:induction false} IncomparableLinesClean(names: seq<Text>)
    requires forall n :: n in names ==> Clean(n)
    ensures AllClean(IncomparableLines(names))
  {
    if names != [] {
      IncomparableLinesClean(names[1..]);
      WordsAreClean();
      PrefixClean(INCOMPARABLE, names[0]);
    }
  }

  lemma LineClean(word: Text, name: Text, rest: Text)
    requires (word == HOST || word == STAT) && LF !in name && Clean(rest)
    ensures Clean(word + name + [TAB] + rest)
  {
    var line := word + name + [TAB] + rest;
    WordsAreClean();
    assert line[|line| - 1] == if rest == [] then TAB else rest[|rest| - 1];
  }

  lemma BodyClean(f: Files, d: Decision, names: seq<Text>)
    requires Recordable(f, d, names)
    ensures AllClean(BodyLines(f, d, names))
  {
    hide HostLines, StatLines, IncomparableLines;
    HostLinesClean(d.winners, names);
    StatLinesClean(f, d.winners, names);
    IncomparableLinesClean(d.incomparable);
    WordsAreClean();
    if d.interp.Some? { PrefixClean(INTERP, d.interp.value); }
    hide Clean, Recordable;
  }

  /** A record read under the identity and host state it was written for gives the decision back, exactly where
      the loader is still there and no winner's file has changed. Otherwise nothing is adopted. */
  lemma RecordIsReadBack(f: Files, g: Files, pins: seq<Pin>, fingerprint: Text, d: Decision, names: seq<Text>)
    requires Identity(pins).Some? && Clean(fingerprint) && Recordable(f, d, names)
    ensures ParseDecision(g, RecordText(f, Identity(pins).value, fingerprint, d, names), Lines(Identity(pins).value),
      fingerprint)
      == if Unchanged(f, g, d) then Some(d) else None
  {
    hide Canonical, BodyLines, RecordText, Lines, HeadLines, ReadBody, Identity, Unchanged;
    LinesOfRecord(f, pins, fingerprint, d, names);
    IdentityLines(pins);
    BodyClean(f, d, names);
    var head, body := HeadLines(PinLines(Canonical(pins)), fingerprint), BodyLines(f, d, names);
    LinesOfUnlines(body, []);
    NoLines();
    assert Unlines(body) + [] == Unlines(body) && body + [] == body;
    assert (head + body)[..|head|] == head && (head + body)[|head|..] == body;
    BodyReads(f, g, d, names);
  }

  lemma NoLines()
    ensures Lines([]) == []
  {
  }

  // ---- as the original runs it ---------------------------------------------------------------------

  lemma {:induction false} JoinedLast(lines: seq<Text>, line: Text)
    ensures Joined(lines + [line]) == if lines == [] then line else Joined(lines) + [LF] + line
  {
    if lines == [] {
      assert lines + [line] == [line];
    } else {
      JoinedLast(lines[1..], line);
      assert (lines + [line])[1..] == lines[1..] + [line];
      if |lines| > 1 {
        assert lines[0] + [LF] + (Joined(lines[1..]) + [LF] + line)
          == lines[0] + [LF] + Joined(lines[1..]) + [LF] + line;
      }
    }
  }

  /** `SelectionIdentity::new`: one line for each pin in canonical order, as long as all can be recorded. */
  method NewIdentity(pins: seq<Pin>) returns (identity: Option<Text>)
    ensures identity == Identity(pins)
  {
    if |pins| > MAX_ACTIVE_PINS { return None; }
    var sorted := Canonical(pins);
    hide Canonical, PinLine, Admitted;
    var canonical: Text := [];
    for i := 0 to |sorted|
      invariant AllAdmitted(sorted[..i]) && canonical == Joined(PinLines(sorted[..i]))
    {
      if !Admitted(sorted[i]) { return None; }
      NextPinLine(sorted, i);
      if canonical != [] { canonical := canonical + [LF]; }
      canonical := canonical + PinLine(sorted[i]);
    }
    assert sorted[..|sorted|] == sorted;
    return Some(canonical);
  }

  lemma NextPinLine(pins: seq<Pin>, i: nat)
    requires i < |pins| && AllAdmitted(pins[..i]) && Admitted(pins[i])
    ensures AllAdmitted(pins[..i + 1])
    ensures Joined(PinLines(pins[..i])) == [] <==> i == 0
    ensures Joined(PinLines(pins[..i + 1]))
      == if i == 0 then PinLine(pins[i]) else Joined(PinLines(pins[..i])) + [LF] + PinLine(pins[i])
  {
    hide PinLine, Admitted;
    var a, b := pins[..i], pins[..i + 1];
    assert b == a + [pins[i]];
    assert PinLines(b) == PinLines(a) + [PinLine(pins[i])];
    JoinedLast(PinLines(a), PinLine(pins[i]));
    forall j | 0 <= j < |a| ensures PinLines(a)[j] != [] { PinLineIsClean(a[j]); }
    JoinedNotEmpty(PinLines(a));
  }

  /** `parse_decision` over the lines of a record. */
  method Parse(f: Files, text: Text, identity: seq<Text>, fingerprint: Text) returns (r: Option<Decision>)
    ensures r == ParseDecision(f, text, identity, fingerprint)
  {
    hide ReadLine, Lines;
    var lines := Lines(text);
    ghost var head := HeadLines(identity, fingerprint);
    if lines == [] || lines[0] != RECORD_HEADER { return None; }
    for i := 0 to |identity|
      invariant 1 + i <= |lines| && forall j :: 0 <= j < 1 + i ==> lines[j] == head[j]
    {
      if 1 + i >= |lines| || lines[1 + i] != identity[i] { return None; }
    }
    var at := 1 + |identity|;
    if at >= |lines| { return None; }
    FingerprintLine(lines[at], fingerprint);
    var stamp := After(lines[at], FINGERPRINT);
    if stamp != Some(fingerprint) { return None; }
    assert lines[..|head|] == head;
    var d, rest := Decision(None, map[], []), lines[at + 1..];
    for i := 0 to |rest|
      invariant ReadBody(f, Decision(None, map[], []), rest) == ReadBody(f, d, rest[i..])
    {
      assert rest[i..][1..] == rest[i + 1..];
      d :- ReadLine(f, d, rest[i]);
    }
    return Some(d);
  }

  lemma FingerprintLine(line: Text, fingerprint: Text)
    ensures After(line, FINGERPRINT) == Some(fingerprint) <==> line == FINGERPRINT + fingerprint
  {
    if FINGERPRINT <= line { assert line == FINGERPRINT + line[|FINGERPRINT|..]; }
    assert (FINGERPRINT + fingerprint)[|FINGERPRINT|..] == fingerprint;
  }

  lemma UnlinesLast(lines: seq<Text>, line: Text)
    ensures Unlines(lines + [line]) == Unlines(lines) + line + [LF]
  {
    UnlinesConcat(lines, [line]);
    OneLine(line);
    assert Unlines(lines) + (line + [LF]) == Unlines(lines) + line + [LF];
  }

  lemma {:induction false} HostLinesLast(winners: map<Text, Text>, names: seq<Text>, i: nat)
    requires i < |names| && forall n :: n in names ==> n in winners
    ensures (forall n :: n in names[..i + 1] ==> n in winners) && forall n :: n in names[..i] ==> n in winners
    ensures HostLines(winners, names[..i + 1])
      == HostLines(winners, names[..i]) + [HOST + names[i] + [TAB] + winners[names[i]]]
  {
    if i == 0 {
      assert names[..0] == [] && names[..1] == [names[0]] && [names[0]][1..] == names[..0];
    } else {
      HostLinesLast(winners, names[1..], i - 1);
      assert names[..i + 1][1..] == names[1..][..i] && names[..i][1..] == names[1..][..i - 1];
    }
  }

  lemma {:induction false} StatLinesLast(f: Files, winners: map<Text, Text>, names: seq<Text>, i: nat)
    requires i < |names| && forall n :: n in names ==> n in winners
    ensures (forall n :: n in names[..i + 1] ==> n in winners) && forall n :: n in names[..i] ==> n in winners
    ensures StatLines(f, winners, names[..i + 1])
      == StatLines(f, winners, names[..i]) + [STAT + names[i] + [TAB] + f.stat(winners[names[i]])]
  {
    if i == 0 {
      assert names[..0] == [] && names[..1] == [names[0]] && [names[0]][1..] == names[..0];
    } else {
      StatLinesLast(f, winners, names[1..], i - 1);
      assert names[..i + 1][1..] == names[1..][..i] && names[..i][1..] == names[1..][..i - 1];
    }
  }

  lemma {:induction false} IncomparableLinesLast(names: seq<Text>, i: nat)
    requires i < |names|
    ensures IncomparableLines(names[..i + 1]) == IncomparableLines(names[..i]) + [INCOMPARABLE + names[i]]
  {
    if i == 0 {
      assert names[..0] == [] && names[..1] == [names[0]] && [names[0]][1..] == names[..0];
    } else {
      IncomparableLinesLast(names[1..], i - 1);
      assert names[..i + 1][1..] == names[1..][..i] && names[..i][1..] == names[1..][..i - 1];
    }
  }

  method WriteHosts(winners: map<Text, Text>, names: seq<Text>) returns (text: Text)
    requires forall n :: n in names ==> n in winners
    ensures text == Unlines(HostLines(winners, names))
  {
    hide HostLines, Unlines;
    text := [];
    NothingListed(names[..0], winners);
    for i := 0 to |names|
      invariant forall n :: n in names[..i] ==> n in winners
      invariant text == Unlines(HostLines(winners, names[..i]))
    {
      HostLinesLast(winners, names, i);
      UnlinesLast(HostLines(winners, names[..i]), HOST + names[i] + [TAB] + winners[names[i]]);
      text := text + (HOST + names[i] + [TAB] + winners[names[i]]) + [LF];
    }
    assert names[..|names|] == names;
  }

  method WriteStats(f: Files, winners: map<Text, Text>, names: seq<Text>) returns (text: Text)
    requires forall n :: n in names ==> n in winners
    ensures text == Unlines(StatLines(f, winners, names))
  {
    hide StatLines, Unlines;
    text := [];
    NothingSeen(f, names[..0], winners);
    for i := 0 to |names|
      invariant forall n :: n in names[..i] ==> n in winners
      invariant text == Unlines(StatLines(f, winners, names[..i]))
    {
      StatLinesLast(f, winners, names, i);
      UnlinesLast(StatLines(f, winners, names[..i]), STAT + names[i] + [TAB] + f.stat(winners[names[i]]));
      text := text + (STAT + names[i] + [TAB] + f.stat(winners[names[i]])) + [LF];
    }
    assert names[..|names|] == names;
  }

  method WriteIncomparable(names: seq<Text>) returns (text: Text)
    ensures text == Unlines(IncomparableLines(names))
  {
    hide IncomparableLines, Unlines;
    text := [];
    NothingNamed(names[..0]);
    for i := 0 to |names|
      invariant text == Unlines(IncomparableLines(names[..i]))
    {
      IncomparableLinesLast(names, i);
      UnlinesLast(IncomparableLines(names[..i]), INCOMPARABLE + names[i]);
      text := text + (INCOMPARABLE + names[i]) + [LF];
    }
    assert names[..|names|] == names;
  }

  /** The text of `write_decision`: the winners twice over, once with their paths and once with what was seen
      of them. */
  method WriteRecord(f: Files, canonical: Text, fingerprint: Text, d: Decision, names: seq<Text>) returns (text: Text)
    requires forall n :: n in names ==> n in d.winners
    ensures text == RecordText(f, canonical, fingerprint, d, names)
  {
    hide HostLines, StatLines, IncomparableLines, Unlines;
    text := RECORD_HEADER + [LF];
    if canonical != [] { text := text + canonical + [LF]; }
    text := text + FINGERPRINT + fingerprint + [LF];
    ghost var head := text;
    UnlinesOfInterp(d.interp);
    var interp := if d.interp.Some? then INTERP + d.interp.value + [LF] else [];
    var hosts := WriteHosts(d.winners, names);
    var stats := WriteStats(f, d.winners, names);
    var others := WriteIncomparable(d.incomparable);
    text := text + (interp + hosts + stats + others);
    BodyText(f, d, names);
    assert head == RECORD_HEADER + [LF] + (if canonical == [] then [] else canonical + [LF]) + FINGERPRINT
      + fingerprint + [LF];
  }

  lemma BodyText(f: Files, d: Decision, names: seq<Text>)
    requires forall n :: n in names ==> n in d.winners
    ensures Unlines(BodyLines(f, d, names))
      == Unlines(InterpLines(d.interp)) + Unlines(HostLines(d.winners, names)) + Unlines(StatLines(f, d.winners, names))
         + Unlines(IncomparableLines(d.incomparable))
  {
    hide InterpLines, HostLines, StatLines, IncomparableLines, Unlines;
    var a, b, c, e := InterpLines(d.interp), HostLines(d.winners, names), StatLines(f, d.winners, names),
      IncomparableLines(d.incomparable);
    UnlinesConcat(a + b + c, e);
    UnlinesConcat(a + b, c);
    UnlinesConcat(a, b);
  }

  lemma UnlinesOfInterp(interp: Option<Text>)
    ensures Unlines(InterpLines(interp)) == if interp.None? then [] else INTERP + interp.value + [LF]
  {
    if interp.Some? { OneLine(INTERP + interp.value); }
  }

  lemma NothingListed(names: seq<Text>, winners: map<Text, Text>)
    requires names == []
    ensures Unlines(HostLines(winners, names)) == []
  {
  }

  lemma NothingSeen(f: Files, names: seq<Text>, winners: map<Text, Text>)
    requires names == []
    ensures Unlines(StatLines(f, winners, names)) == []
  {
  }

  lemma NothingNamed(names: seq<Text>)
    requires names == []
    ensures Unlines(IncomparableLines(names)) == []
  {
  }
}
