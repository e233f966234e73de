/** The texts of the records that one process writes and another reads, spelled out: the environment record of
    `crates/onelf-rt/src/hostenv.rs`, the per-view record of `crates/onelf-rt/src/env.rs`, and the pins and
    decisions of `crates/onelf-format/src/resolve.rs`.
 */
module RecordLayouts {
  import opened Bytes
  import EnvRecord
  import Selection
  import ViewRecord

  type Chars = seq<byte>

  // ---- numerals ------------------------------------------------------------------------------

  /** The digits at the place `k` from the right. */
  function Sixteenth(n: nat, k: nat): (d: nat)
    ensures d < 16
  {
    if k == 0 then n % 16 else Sixteenth(n / 16, k - 1)
  }

  function Tenth(n: nat, k: nat): (d: nat)
    ensures d < 10
  {
    if k == 0 then n % 10 else Tenth(n / 10, k - 1)
  }

  /** Sixteen digits for a hash, the most significant first and without capitals. */
  lemma {:induction false} HexIs(n: nat, width: nat, i: nat)
    requires i < width
    ensures EnvRecord.Hex(n, width)[i] == Ascii("0123456789abcdef")[Sixteenth(n, width - 1 - i)]
  {
    if i < width - 1 {
      HexIs(n / 16, width - 1, i);
    }
  }

  /** A length, in as many digits as it has. */
  lemma {:induction false} DecimalIs(n: nat)
    ensures var s := EnvRecord.Decimal(n);
      forall i :: 0 <= i < |s| ==> s[i] == Ascii("0123456789")[Tenth(n, |s| - 1 - i)]
    ensures var s := EnvRecord.Decimal(n); s[0] == Ascii("0")[0] ==> n == 0 && |s| == 1
  {
    var s := EnvRecord.Decimal(n);
    if n >= 10 {
      DecimalIs(n / 10);
      forall i | 0 <= i < |s| ensures s[i] == Ascii("0123456789")[Tenth(n, |s| - 1 - i)] {
        if i < |s| - 1 { assert s[i] == EnvRecord.Decimal(n / 10)[i]; }
      }
    }
  }

  // ---- what a launch changed -------------------------------------------------------------------

  function Counted(value: Chars): Chars { EnvRecord.Decimal(|value|) + Ascii(":") + value }

  /** What was applied is a minus sign for a removal, a star for anything, or the hash of the value. */
  lemma EnvEntryIs(e: EnvRecord.Entry)
    ensures EnvRecord.EntryText(e) ==
      e.name + Ascii("=")
      + (match e.applied case Removed => Ascii("-") case Any => Ascii("*") case Value(hash) => EnvRecord.Hex(hash, 16))
      + (if e.original.Some? then Counted(e.original.value) else Ascii("-"))
      + Ascii(";")
  {
    hide EnvRecord.Hex, EnvRecord.Decimal;
  }

  // ---- what a view needs -------------------------------------------------------------------------

  lemma ViewEntryIs(e: ViewRecord.Entry)
    ensures ViewRecord.EntryText(e) ==
      e.name + Ascii(if e.policy.Preserve? then "=." else "=!") + Counted(e.value)
      + Ascii(if e.leftSet then "+;\n" else "-;\n")
  {
    hide EnvRecord.Decimal;
  }

  /** The head with the number of entries, the entries, the package roots and the host's own record. */
  lemma ViewRecordIs(r: ViewRecord.Record)
    ensures ViewRecord.RecordText(r) ==
      Ascii("ONELF-RUNTIME-ENV 1 ") + EnvRecord.Decimal(|r.entries|) + Ascii("\n") + ViewRecord.EntriesText(r.entries)
      + (if r.roots.Some? then Ascii("R") + Counted(r.roots.value) + Ascii(";\n") else [])
      + (if r.host.Some? then Ascii("H") + Counted(r.host.value) + Ascii(";\n") else [])
  {
    hide EnvRecord.Decimal, ViewRecord.EntriesText;
  }

  // ---- what a launch decided -----------------------------------------------------------------------

  lemma PinLineIs(p: Selection.Pin)
    ensures Selection.PinLine(p) == Ascii("pin ") + Counted(p.name) + Ascii("\t") + p.hash
  {
    hide EnvRecord.Decimal;
  }

  function Line(word: string, parts: Chars): Chars { Ascii(word) + parts + Ascii("\n") }

  function Hosts(d: Selection.Decision, names: seq<Chars>): Chars
    requires forall n :: n in names ==> n in d.winners
  {
    if names == [] then []
    else Line("host ", names[0] + Ascii("\t") + d.winners[names[0]]) + Hosts(d, names[1..])
  }

  function Stats(f: Selection.Files, d: Selection.Decision, names: seq<Chars>): Chars
    requires forall n :: n in names ==> n in d.winners
  {
    if names == [] then []
    else Line("stat ", names[0] + Ascii("\t") + f.stat(d.winners[names[0]])) + Stats(f, d, names[1..])
  }

  function Others(names: seq<Chars>): Chars {
    if names == [] then [] else Line("incomparable ", names[0]) + Others(names[1..])
  }

  lemma {:induction false} HostsAre(d: Selection.Decision, names: seq<Chars>)
    requires forall n :: n in names ==> n in d.winners
    ensures Selection.Unlines(Selection.HostLines(d.winners, names)) == Hosts(d, names)
  {
    if names != [] { HostsAre(d, names[1..]); }
  }

  lemma {:induction false} StatsAre(f: Selection.Files, d: Selection.Decision, names: seq<Chars>)
    requires forall n :: n in names ==> n in d.winners
    ensures Selection.Unlines(Selection.StatLines(f, d.winners, names)) == Stats(f, d, names)
  {
    if names != [] { StatsAre(f, d, names[1..]); }
  }

  lemma {:induction false} OthersAre(names: seq<Chars>)
    ensures Selection.Unlines(Selection.IncomparableLines(names)) == Others(names)
  {
    if names != [] { OthersAre(names[1..]); }
  }

  lemma BodyIs(f: Selection.Files, d: Selection.Decision, names: seq<Chars>)
    requires forall n :: n in names ==> n in d.winners
    ensures Selection.Unlines(Selection.BodyLines(f, d, names)) ==
      (if d.interp.Some? then Line("interp ", d.interp.value) else [])
      + Hosts(d, names) + Stats(f, d, names) + Others(d.incomparable)
  {
    HostsAre(d, names);
    StatsAre(f, d, names);
    OthersAre(d.incomparable);
    var a, b := Selection.InterpLines(d.interp), Selection.HostLines(d.winners, names);
    var c, e := Selection.StatLines(f, d.winners, names), Selection.IncomparableLines(d.incomparable);
    Selection.UnlinesConcat(a + b + c, e);
    Selection.UnlinesConcat(a + b, c);
    Selection.UnlinesConcat(a, b);
    InterpIs(d.interp);
    hide Selection.Unlines, Selection.HostLines, Selection.StatLines, Selection.IncomparableLines,
      Selection.InterpLines,
      Hosts, Stats, Others, Line;
  }

  lemma InterpIs(interp: Option<Chars>)
    ensures Selection.Unlines(Selection.InterpLines(interp))
      == if interp.Some? then Line("interp ", interp.value) else []
  {
    if interp.Some? { assert Selection.InterpLines(interp)[1..] == []; }
  }

  /** A decision, line by line: whose it is, the host state it was made on, the loader, the winners with their
      paths, what was seen of their files, and what could not be compared. */
  lemma DecisionIs(f: Selection.Files, canonical: Chars, fingerprint: Chars, d: Selection.Decision, names: seq<Chars>)
    requires forall n :: n in names ==> n in d.winners
    ensures Selection.RecordText(f, canonical, fingerprint, d, names) ==
      Line("onelf-resolve-selection 1", []) + (if canonical == [] then [] else canonical + Ascii("\n"))
      + Line("fingerprint ", fingerprint)
      + ((if d.interp.Some? then Line("interp ", d.interp.value) else [])
         + Hosts(d, names) + Stats(f, d, names) + Others(d.incomparable))
  {
    hide Selection.Unlines, Selection.BodyLines, Hosts, Stats, Others, Line, Ascii;
    BodyIs(f, d, names);
    LineIs("onelf-resolve-selection 1", []);
    LineIs("fingerprint ", fingerprint);
    LineFeed();
    var header, mark, lf := Ascii("onelf-resolve-selection 1"), Ascii("fingerprint "), [Selection.LF];
    var own := if canonical == [] then [] else canonical + lf;
    assert header + [] + lf == header + lf;
    assert header + lf + own + mark + fingerprint + lf == header + lf + own + (mark + fingerprint + lf);
  }

  lemma LineFeed()
    ensures Ascii("\n") == [Selection.LF]
  {
  }

  lemma LineIs(word: string, parts: Chars)
    ensures Line(word, parts) == Ascii(word) + parts + [Selection.LF]
  {
  }
}
