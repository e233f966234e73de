/** Exactly when patching a patched desktop file again changes nothing
    (`patch_desktop_file` of `crates/onelf-format/src/desktop.rs`).
 */
module DesktopTwice {
  import opened Bytes
  import opened DesktopQuoting
  import opened DesktopCommand
  import opened DesktopLines
  import opened DesktopPatch
  import opened DesktopFile

  // ---- one line is one line ----------------------------------------------------------------

  predicate OneLine(s: string) { '\n' !in s }

  predicate OneLines(lines: Lines) { forall i :: 0 <= i < |lines| ==> OneLine(lines[i]) }

  lemma {:induction false} EscapesAreOneLine(s: string)
    ensures '\n' !in EscapeAll(s) && '\r' !in EscapeAll(s)
  {
    if s != "" {
      assert '\n' !in Escape(s[0]) && '\r' !in Escape(s[0]);
      hide Escape;
      EscapesAreOneLine(s[1..]);
    }
  }

  /** No argument that is written breaks its line, whatever it was. */
  lemma CommandIsOneLine(p: Launch)
    ensures '\n' !in ExecCommand(p.path, p.entrypoint) && !EndsWith(ExecCommand(p.path, p.entrypoint), '\r')
  {
    ArgumentIsOneLine(p.path);
    assert '\n' !in Env();
    if p.entrypoint.Some? { ArgumentIsOneLine(Assignment(p.entrypoint.value)); }
    WrittenShapes(p.path);
    hide ExecArg, Env, Assignment, EscapeAll, Body, Space, NeedsQuotes;
  }

  lemma ArgumentIsOneLine(s: string)
    ensures '\n' !in ExecArg(s) && '\r' !in ExecArg(s)
  {
    ExecArgIsEscaped(s);
    EscapesAreOneLine(Field(s));
  }

  lemma ValueIsOneLine(s: string)
    ensures '\n' !in StringValue(s) && '\r' !in StringValue(s)
  {
    EscapesAreOneLine(s);
    if s != "" { EscapesAreOneLine(s[1..]); }
    hide EscapeAll;
  }

  lemma {:induction false} SkipKeepsOneLine(s: string)
    requires OneLine(s)
    ensures OneLine(SkipAscii(s)) && OneLine(AfterBare(s)) && OneLine(TrimStart(s))
  {
    if s != "" {
      assert OneLine(s[1..]);
      SkipKeepsOneLine(s[1..]);
    }
  }

  lemma {:induction false} QuotedKeepsOneLine(s: string)
    requires OneLine(s)
    ensures OneLine(AfterQuoted(s))
    decreases |s|
  {
    if s != "" {
      assert OneLine(s[1..]);
      if s[0] == '\\' && |s| >= 2 {
        assert OneLine(s[EscapeWidth(s)..]);
        QuotedKeepsOneLine(s[EscapeWidth(s)..]);
      } else {
        QuotedKeepsOneLine(s[1..]);
      }
    }
  }

  lemma TailIsOneLine(s: string)
    requires OneLine(s)
    ensures OneLine(ExecTail(s))
  {
    hide SkipAscii, AfterBare, AfterQuoted, OneLine;
    SkipKeepsOneLine(s);
    var t := SkipAscii(s);
    SkipKeepsOneLine(t);
    if t != "" {
      PartIsOneLine(t, 1);
      QuotedKeepsOneLine(t[1..]);
    }
    SkipKeepsOneLine(AfterFirst(t));
  }

  lemma PartIsOneLine(s: string, k: nat)
    requires OneLine(s) && k <= |s|
    ensures OneLine(s[k..]) && OneLine(s[..k])
  {
  }

  lemma WithoutEntrypointIsOneLine(s: string)
    requires OneLine(s)
    ensures OneLine(WithoutEntrypoint(s))
  {
    hide TrimStart, OneLine, Env, Variable, Token;
    if HasPrefix(s, Env()) {
      PartIsOneLine(s, |Env()|);
      SkipKeepsOneLine(s[|Env()|..]);
      var rest := TrimStart(s[|Env()|..]);
      TokenIsPrefix(rest);
      PartIsOneLine(rest, |Token(rest)|);
      SkipKeepsOneLine(rest[|Token(rest)|..]);
    }
  }

  lemma PatchedLineIsOneLine(p: Launch, g: Group, line: string)
    requires Fit(p) && OneLine(line)
    ensures OneLine(PatchedLine(p, g, line))
  {
    assert OneLine(ExecKey()) && OneLine(TryKey()) && OneLine(IconKey());
    if HasPrefix(line, ExecKey()) {
      PartIsOneLine(line, |ExecKey()|);
      WithoutEntrypointIsOneLine(line[|ExecKey()|..]);
      TailIsOneLine(WithoutEntrypoint(line[|ExecKey()|..]));
      NewExecLine(p, TailOf(line));
    }
    ValueIsOneLine(p.path);
    hide ExecKey, TryKey, IconKey, ExecCommand, StringValue, WithoutEntrypoint, ExecTail, IsHeader, HasPrefix, TailOf,
      ExecLine;
  }

  lemma NewExecLine(p: Launch, tail: string)
    requires OneLine(tail)
    ensures OneLine(ExecLine(p, tail))
  {
    assert OneLine(ExecKey());
    CommandIsOneLine(p);
    hide ExecKey, ExecCommand;
  }

  lemma {:induction false} PatchedIsOneLines(p: Launch, g: Group, lines: Lines)
    requires Fit(p) && OneLines(lines)
    ensures OneLines(Patched(p, g, lines))
    decreases |lines|
  {
    if lines != [] {
      PatchedLineIsOneLine(p, Next(g, lines[0]), lines[0]);
      hide PatchedLine, Next, OneLine, Fit;
      assert OneLines(lines[1..]);
      PatchedIsOneLines(p, Next(g, lines[0]), lines[1..]);
    }
  }

  lemma WholeIsOneLines(p: Launch, lines: Lines)
    requires Fit(p) && OneLines(lines)
    ensures OneLines(Whole(p, lines))
  {
    PatchedIsOneLines(p, Other, lines);
    NewExecLine(p, "");
    ValueIsOneLine(p.path);
    assert OneLine(TryKey());
    assert OneLine(TryLine(p)) by { hide TryKey, StringValue; }
    hide Patched, ExecLine, TryLine, OneLine, Seen, InsertAt, Fit;
  }

  lemma {:induction false} LinesAreOneLines(s: string)
    ensures OneLines(LinesOf(s))
    decreases |s|
  {
    if s != "" && LineEnd(s) < |s| {
      LinesAreOneLines(s[LineEnd(s) + 1..]);
      assert OneLine(Chomp(s[..LineEnd(s)]));
    } else if s != "" {
      assert s[..|s|] == s;
    }
  }

  // ---- writing lines and reading them --------------------------------------------------------

  function Terminated(lines: Lines): string {
    if lines == [] then "" else lines[0] + "\n" + Terminated(lines[1..])
  }

  /** The lines whose ends are in the text: a last blank one is not. */
  function Kept(lines: Lines): Lines {
    if |lines| >= 2 && lines[|lines| - 1] == "" then lines[..|lines| - 1] else lines
  }

  lemma {:induction false} JoinedIs(lines: Lines)
    requires lines != []
    ensures Joined(lines) == Terminated(lines[..|lines| - 1]) + lines[|lines| - 1]
    ensures Terminated(lines) == Joined(lines) + "\n"
  {
    if |lines| > 1 {
      JoinedIs(lines[1..]);
      var front := lines[..|lines| - 1];
      assert front[0] == lines[0] && front[1..] == lines[1..][..|lines| - 2];
    }
  }

  lemma {:induction false} TerminatedEnds(lines: Lines)
    requires lines != []
    ensures EndsWith(Terminated(lines), '\n')
  {
    JoinedIs(lines);
  }

  lemma TextIs(lines: Lines)
    requires lines != [] && OneLines(lines)
    ensures Text(lines) == Terminated(Kept(lines))
  {
    JoinedIs(lines);
    var front, last := lines[..|lines| - 1], lines[|lines| - 1];
    assert OneLine(last);
    if last == "" {
      assert Joined(lines) == Terminated(front);
      if front != [] { TerminatedEnds(front); }
    } else {
      assert Joined(lines)[|Joined(lines)| - 1] == last[|last| - 1];
    }
  }

  function Chomped(lines: Lines): (r: Lines)
    ensures |r| == |lines| && forall i :: 0 <= i < |lines| ==> r[i] == Chomp(lines[i])
  {
    seq(|lines|, i requires 0 <= i < |lines| => Chomp(lines[i]))
  }

  lemma {:induction false} LineEndIs(s: string, n: nat)
    requires n < |s| && s[n] == '\n' && forall k :: 0 <= k < n ==> s[k] != '\n'
    ensures LineEnd(s) == n
  {
    if n > 0 { LineEndIs(s[1..], n - 1); }
  }

  lemma FirstLine(line: string, rest: string)
    requires OneLine(line)
    ensures var s := line + "\n" + rest;
      LineEnd(s) == |line| < |s| && s[..|line|] == line && s[|line| + 1..] == rest
  {
    var s := line + "\n" + rest;
    assert s[|line|] == '\n';
    assert s[..|line|] == line;
    forall k | 0 <= k < |line| ensures s[k] != '\n' { assert s[k] == line[k]; }
    LineEndIs(s, |line|);
  }

  lemma {:induction false} LinesOfTerminated(lines: Lines)
    requires OneLines(lines)
    ensures LinesOf(Terminated(lines)) == Chomped(lines)
  {
    if lines != [] {
      FirstLine(lines[0], Terminated(lines[1..]));
      LinesOfTerminated(lines[1..]);
      hide Chomp, OneLine;
    }
  }

  lemma {:induction false} TerminatedIsInjective(a: Lines, b: Lines)
    requires OneLines(a) && OneLines(b) && Terminated(a) == Terminated(b)
    ensures a == b
  {
    if a != [] && b != [] {
      FirstLine(a[0], Terminated(a[1..]));
      FirstLine(b[0], Terminated(b[1..]));
      TerminatedIsInjective(a[1..], b[1..]);
      assert a == [a[0]] + a[1..] && b == [b[0]] + b[1..];
    }
  }

  lemma WholeIsNotEmpty(p: Launch, lines: Lines)
    ensures Whole(p, lines) != []
  {
    if lines == [] { assert !Seen(ExecKey(), Other, lines); }
    hide Patched, Seen;
  }

  /** What a patched file is as text, and which lines the next pass reads from it. */
  lemma PatchedFile(p: Launch, content: string)
    requires Fit(p)
    ensures var kept := Kept(Whole(p, LinesOf(content)));
      PatchText(p, content) == Terminated(kept) && OneLines(kept) && LinesOf(PatchText(p, content)) == Chomped(kept)
  {
    var whole := Whole(p, LinesOf(content));
    LinesAreOneLines(content);
    WholeIsOneLines(p, LinesOf(content));
    WholeIsNotEmpty(p, LinesOf(content));
    hide Whole, LinesOf, Text, Terminated, Fit, OneLine;
    TextIs(whole);
    LinesOfTerminated(Kept(whole));
  }

  // ---- patching twice --------------------------------------------------------------------------

  predicate NoReturns(lines: Lines) { forall i :: 0 <= i < |lines| ==> !EndsWith(lines[i], '\r') }

  predicate TwoBlanks(lines: Lines) { |lines| >= 2 && lines[|lines| - 1] == "" && lines[|lines| - 2] == "" }

  /** A line whose end is replaced in group `g`: a command that no arguments follow, or the
      value of another key that is set. */
  predicate EndReplaced(p: Launch, g: Group, line: string) {
    && !IsHeader(line)
    && ((!g.Other? && HasPrefix(line, ExecKey()) && TailOf(line) == "")
        || (g.Main? && HasPrefix(line, TryKey()))
        || (g.Main? && HasPrefix(line, IconKey()) && p.icon.Some?))
  }

  /** Every line that ends in a carriage return has its end replaced. */
  predicate ReturnsReplaced(p: Launch, g: Group, lines: Lines)
    decreases |lines|
  {
    || lines == []
    || (&& (EndsWith(lines[0], '\r') ==> EndReplaced(p, Next(g, lines[0]), lines[0]))
        && ReturnsReplaced(p, Next(g, lines[0]), lines[1..]))
  }

  /** The keys are there or go below a header without trailing blanks, carriage returns are only
      at the ends that are replaced, and the file does not end in two blank lines. */
  predicate Settles(p: Launch, content: string) {
    && (CleanHeader(LinesOf(content)) || BothSeen(LinesOf(content)))
    && ReturnsReplaced(p, Other, LinesOf(content))
    && !TwoBlanks(LinesOf(content))
  }

  lemma ChompNothing(lines: Lines)
    requires NoReturns(lines)
    ensures Chomped(lines) == lines
  {
  }

  lemma HeaderIsThere(lines: Lines)
    requires CleanHeader(lines) || BothSeen(lines)
    ensures HeaderAt(lines) < |lines|
  {
    if HeaderAt(lines) == |lines| { NoHeaderMeansNothing(ExecKey(), lines); }
  }

  /** Blank lines stay blank, and nothing else becomes blank. */
  lemma BlankStaysBlank(p: Launch, g: Group, line: string)
    ensures PatchedLine(p, g, line) == "" <==> line == ""
  {
    assert ExecKey() != "" && TryKey() != "" && IconKey() != "";
    hide ExecKey, TryKey, IconKey, ExecCommand, StringValue, IsHeader, TailOf;
  }

  lemma {:induction false} PatchedAt(p: Launch, g: Group, lines: Lines, i: nat)
    requires i < |lines|
    ensures exists g': Group :: Patched(p, g, lines)[i] == PatchedLine(p, g', lines[i])
    decreases |lines|
  {
    hide PatchedLine, Next;
    if i == 0 {
      assert Patched(p, g, lines)[0] == PatchedLine(p, Next(g, lines[0]), lines[0]);
    } else {
      PatchedAt(p, Next(g, lines[0]), lines[1..], i - 1);
    }
  }

  lemma BlankAfterPatch(p: Launch, g: Group, lines: Lines, i: nat)
    requires i < |lines|
    ensures Patched(p, g, lines)[i] == "" <==> lines[i] == ""
  {
    PatchedAt(p, g, lines, i);
    hide Patched, PatchedLine;
    var g' :| Patched(p, g, lines)[i] == PatchedLine(p, g', lines[i]);
    BlankStaysBlank(p, g', lines[i]);
  }

  predicate LastBlank(lines: Lines) { lines != [] && lines[|lines| - 1] == "" }

  lemma EndOf(x: Lines, rest: Lines)
    requires x != [] && !LastBlank(x)
    ensures LastBlank(x + rest) <==> LastBlank(rest)
    ensures TwoBlanks(x + rest) <==> TwoBlanks(rest)
    ensures LastBlank(rest) ==> |x + rest| >= 2
    ensures TwoBlanks(rest) ==> |x + rest| >= 3
  {
    assert |rest| == 1 ==> (x + rest)[|x + rest| - 2] == x[|x| - 1];
  }

  predicate SameBlanks(a: Lines, b: Lines) { |a| == |b| && forall i :: 0 <= i < |a| ==> (a[i] == "" <==> b[i] == "") }

  lemma SameBlanksAfter(p: Launch, lines: Lines)
    ensures SameBlanks(Patched(p, Other, lines), lines)
  {
    hide Patched;
    forall i | 0 <= i < |lines| ensures Patched(p, Other, lines)[i] == "" <==> lines[i] == "" {
      BlankAfterPatch(p, Other, lines, i);
    }
  }

  lemma NewLinesAreNotBlank(p: Launch, lines: Lines, x: Lines)
    requires x != [] && !LastBlank(x)
    ensures !LastBlank(x + Missing(p, lines))
  {
    assert ExecKey() != "" && TryKey() != "";
    hide ExecKey, TryKey, ExecCommand, StringValue, Seen;
  }

  /** The last lines of a complete pass are blank where those of the file are. */
  lemma LastLines(p: Launch, lines: Lines)
    requires HeaderAt(lines) < |lines|
    ensures var whole := Whole(p, lines);
      && (LastBlank(whole) <==> LastBlank(lines)) && (TwoBlanks(whole) <==> TwoBlanks(lines))
      && (LastBlank(whole) ==> |whole| >= 2) && (TwoBlanks(whole) ==> |whole| >= 3)
  {
    hide Patched, Missing, HeaderAt, TwoBlanks;
    var at := HeaderAt(lines) + 1;
    var done := Patched(p, Other, lines);
    InsertedAt(p, lines);
    SameBlanksAfter(p, lines);
    HeaderIsNotBlank(lines);
    NewLinesAreNotBlank(p, lines, done[..at]);
    EndOf(done[..at] + Missing(p, lines), done[at..]);
    EndOf(lines[..at], lines[at..]);
    assert lines[..at] + lines[at..] == lines;
    SameEnds(done[at..], lines[at..]);
  }

  lemma InsertedAt(p: Launch, lines: Lines)
    requires HeaderAt(lines) < |lines|
    ensures InsertAt(Patched(p, Other, lines)) == HeaderAt(lines) + 1
  {
    hide Patched, HeaderAt, Alike;
    PatchedIsAlike(p, Other, lines);
    AlikeFiles(ExecKey(), Other, lines, Patched(p, Other, lines));
  }

  lemma HeaderIsNotBlank(lines: Lines)
    requires HeaderAt(lines) < |lines|
    ensures lines[HeaderAt(lines)] != ""
  {
    HeaderIsHeader();
  }

  lemma HeaderBeforeBlank(front: Lines)
    requires HeaderAt(front + [""]) <= |front|
    ensures HeaderAt(front) < |front|
  {
    HeaderIsNotBlank(front + [""]);
    hide Trim, EntryHeader;
    var h := HeaderAt(front + [""]);
    assert front[h] == (front + [""])[h];
  }

  lemma SameEnds(a: Lines, b: Lines)
    requires SameBlanks(a, b)
    ensures LastBlank(a) == LastBlank(b) && TwoBlanks(a) == TwoBlanks(b)
  {
  }

  lemma KeptIs(lines: Lines)
    requires LastBlank(lines) ==> |lines| >= 2
    ensures LastBlank(lines) ==> lines == Kept(lines) + [""]
    ensures !LastBlank(lines) ==> lines == Kept(lines)
  {
  }

  lemma KeptEnd(lines: Lines)
    ensures TwoBlanks(lines) && |lines| >= 3 ==> LastBlank(Kept(lines)) && |Kept(lines)| >= 2
    ensures NoReturns(Kept(lines)) <==> NoReturns(lines)
  {
    assert |lines| >= 2 && lines[|lines| - 1] == "" ==> lines == Kept(lines) + [""];
  }

  // ---- carriage returns ------------------------------------------------------------------------

  /** A part of a string up to its end. */
  predicate SameEnd(part: string, s: string) { part == "" || (s != "" && part[|part| - 1] == s[|s| - 1]) }

  lemma RestHasSameEnd(s: string, k: nat)
    requires k <= |s|
    ensures SameEnd(s[k..], s)
  {
  }

  lemma {:induction false} SkippedHasSameEnd(s: string)
    ensures SameEnd(SkipAscii(s), s) && SameEnd(AfterBare(s), s) && SameEnd(TrimStart(s), s)
  {
    if s != "" {
      hide Space, AsciiSpace;
      SkippedHasSameEnd(s[1..]);
      RestHasSameEnd(s, 1);
    }
  }

  lemma {:induction false} QuotedHasSameEnd(s: string)
    ensures SameEnd(AfterQuoted(s), s)
    decreases |s|
  {
    if s != "" {
      var k := if s[0] == '\\' && |s| >= 2 then EscapeWidth(s) else 1;
      RestHasSameEnd(s, k);
      QuotedHasSameEnd(s[k..]);
    }
  }

  lemma TailHasSameEnd(s: string)
    ensures SameEnd(ExecTail(s), s)
  {
    hide SkipAscii, AfterBare, AfterQuoted;
    var t := SkipAscii(s);
    SkippedHasSameEnd(s);
    SkippedHasSameEnd(t);
    if t != "" {
      RestHasSameEnd(t, 1);
      QuotedHasSameEnd(t[1..]);
    }
    SkippedHasSameEnd(AfterFirst(t));
  }

  lemma WithoutEntrypointHasSameEnd(s: string)
    ensures SameEnd(WithoutEntrypoint(s), s)
  {
    hide TrimStart, Env, Variable, Token, TrimQuotes;
    if HasPrefix(s, Env()) {
      var rest := TrimStart(s[|Env()|..]);
      RestHasSameEnd(s, |Env()|);
      SkippedHasSameEnd(s[|Env()|..]);
      TokenIsPrefix(rest);
      RestHasSameEnd(rest, |Token(rest)|);
      SkippedHasSameEnd(rest[|Token(rest)|..]);
    }
  }

  /** Arguments that are kept end where their line does. */
  lemma ArgumentsHaveSameEnd(line: string)
    requires HasPrefix(line, ExecKey())
    ensures SameEnd(TailOf(line), line)
  {
    hide ExecKey, ExecTail, WithoutEntrypoint;
    RestHasSameEnd(line, |ExecKey()|);
    WithoutEntrypointHasSameEnd(line[|ExecKey()|..]);
    TailHasSameEnd(WithoutEntrypoint(line[|ExecKey()|..]));
  }

  lemma KeptArgumentsEnd(p: Launch, tail: string)
    requires tail != ""
    ensures EndsWith(ExecLine(p, tail), '\r') == EndsWith(tail, '\r')
  {
    var command := ExecCommand(p.path, p.entrypoint);
    hide ExecKey, ExecCommand;
    EndOfBoth(" ", tail);
    EndOfBoth(command, " " + tail);
    EndOfBoth(ExecKey(), command + (" " + tail));
  }

  lemma ReturnOfALine(p: Launch, g: Group, line: string)
    requires Fit(p)
    ensures !EndsWith(PatchedLine(p, g, line), '\r') <==> (EndsWith(line, '\r') ==> EndReplaced(p, g, line))
  {
    NewLinesEnd(p);
    OneKeyOnly(line);
    if HasPrefix(line, ExecKey()) {
      ArgumentsHaveSameEnd(line);
      if TailOf(line) == "" { NewExecEnds(p, ""); } else { KeptArgumentsEnd(p, TailOf(line)); }
    }
    hide ExecKey, TryKey, IconKey, ExecLine, TryLine, TailOf, IsHeader, HasPrefix, Fit;
  }

  lemma {:induction false} ReturnsOfLines(p: Launch, g: Group, lines: Lines)
    requires Fit(p)
    ensures NoReturns(Patched(p, g, lines)) <==> ReturnsReplaced(p, g, lines)
    decreases |lines|
  {
    if lines != [] {
      var next := Next(g, lines[0]);
      ReturnOfALine(p, next, lines[0]);
      hide PatchedLine, Next, EndReplaced, EndsWith, Fit;
      ReturnsOfLines(p, next, lines[1..]);
      var first := [PatchedLine(p, next, lines[0])];
      assert NoReturns(first) <==> !EndsWith(first[0], '\r');
      NoReturnsParts(first, Patched(p, next, lines[1..]));
    }
  }

  lemma NoReturnsParts(a: Lines, b: Lines)
    ensures NoReturns(a + b) <==> NoReturns(a) && NoReturns(b)
  {
    hide EndsWith;
    assert forall i :: 0 <= i < |a| ==> (a + b)[i] == a[i];
    assert forall i :: 0 <= i < |b| ==> (a + b)[|a| + i] == b[i];
  }

  /** The lines that a pass writes have no carriage returns at their ends exactly if those of the file are replaced. */
  lemma ReturnsOfFile(p: Launch, lines: Lines)
    requires Fit(p)
    ensures NoReturns(Whole(p, lines)) <==> ReturnsReplaced(p, Other, lines)
  {
    ReturnsOfLines(p, Other, lines);
    NewLinesEnd(p);
    NewExecEnds(p, "");
    hide Patched, ReturnsReplaced, InsertAt, Seen, EndsWith, ExecLine, TryLine, Fit, NoReturns;
    var done := Patched(p, Other, lines);
    var at := InsertAt(done);
    assert NoReturns(Missing(p, lines)) by { NoReturnsOf(ExecLine(p, ""), TryLine(p)); }
    NoReturnsParts(done[..at], done[at..]);
    assert done[..at] + done[at..] == done;
    NoReturnsParts(done[..at] + Missing(p, lines), done[at..]);
    NoReturnsParts(done[..at], Missing(p, lines));
  }

  lemma NoReturnsOf(a: string, b: string)
    requires !EndsWith(a, '\r') && !EndsWith(b, '\r')
    ensures NoReturns([] + []) && NoReturns([a] + []) && NoReturns([] + [b]) && NoReturns([a] + [b])
  {
  }

  /** A later patch takes over from an earlier one: the file is as if it had been the only one. */
  lemma LastPatchWins(a: Launch, b: Launch, content: string)
    requires Fit(a) && Fit(b) && (a.icon.Some? ==> b.icon.Some?) && Settles(a, content)
    ensures PatchText(b, PatchText(a, content)) == PatchText(b, content)
  {
    hide LinesOf, PatchText, Terminated, CleanHeader, BothSeen, TwoBlanks, Kept, Whole;
    var lines := LinesOf(content);
    PatchedFile(a, content);
    PatchedFile(b, content);
    PatchedFile(b, PatchText(a, content));
    LastPatchWinsOnKept(a, b, lines);
    ReturnsOfFile(a, lines);
    KeptEnd(Whole(a, lines));
    ChompNothing(Kept(Whole(a, lines)));
  }

  lemma LastPatchWinsOnKept(a: Launch, b: Launch, lines: Lines)
    requires Compatible(a, b) && (CleanHeader(lines) || BothSeen(lines)) && !TwoBlanks(lines)
    ensures Kept(Whole(b, Kept(Whole(a, lines)))) == Kept(Whole(b, lines))
  {
    HeaderIsThere(lines);
    LastLines(a, lines);
    KeptIs(Whole(a, lines));
    hide Whole, CleanHeader, BothSeen, HeaderAt, TwoBlanks, Kept;
    if LastBlank(lines) {
      WithoutTheBlank(lines);
      LastPatchWinsBeforeABlank(a, b, lines[..|lines| - 1]);
    } else {
      LastPatchWinsOnFiles(a, b, lines);
    }
  }

  lemma KeptBeforeABlank(p: Launch, front: Lines)
    requires HeaderAt(front) < |front|
    ensures Kept(Whole(p, front + [""])) == Whole(p, front)
    ensures !LastBlank(front) ==> Kept(Whole(p, front)) == Whole(p, front)
  {
    BlankAtTheEnd(p, front);
    LastLines(p, front);
    WholeIsNotEmpty(p, front);
    hide Whole, HeaderAt, TwoBlanks, CleanHeader, BothSeen, Kept, LastBlank;
    KeptWithBlank(Whole(p, front));
    if !LastBlank(front) { KeptIs(Whole(p, front)); }
  }

  lemma KeptWithBlank(lines: Lines)
    requires lines != []
    ensures Kept(lines + [""]) == lines
  {
    assert (lines + [""])[..|lines|] == lines;
  }

  lemma LastPatchWinsBeforeABlank(a: Launch, b: Launch, front: Lines)
    requires Compatible(a, b) && (CleanHeader(front + [""]) || BothSeen(front + [""]))
    requires !LastBlank(front)
    ensures Kept(Whole(b, Kept(Whole(a, front + [""])))) == Kept(Whole(b, front + [""]))
  {
    HeaderIsThere(front + [""]);
    HeaderBeforeBlank(front);
    BlankAtTheEnd(a, front);
    KeptBeforeABlank(a, front);
    KeptBeforeABlank(b, front);
    hide Whole, HeaderAt, CleanHeader, BothSeen, Kept;
    LastPatchWinsOnFiles(a, b, front);
  }

  lemma WithoutTheBlank(lines: Lines)
    requires LastBlank(lines) && !TwoBlanks(lines)
    ensures var front := lines[..|lines| - 1]; lines == front + [""] && !LastBlank(front)
  {
  }

  // ---- and only then -----------------------------------------------------------------------------

  predicate Counts(line: string) { HasPrefix(line, ExecKey()) || HasPrefix(line, TryKey()) }

  function KeyCount(lines: Lines): nat {
    if lines == [] then 0 else (if Counts(lines[0]) then 1 else 0) + KeyCount(lines[1..])
  }

  lemma {:induction false} KeyCountAdds(a: Lines, b: Lines)
    ensures KeyCount(a + b) == KeyCount(a) + KeyCount(b)
  {
    if a == [] {
      assert a + b == b;
    } else {
      hide Counts;
      assert (a + b)[1..] == a[1..] + b;
      KeyCountAdds(a[1..], b);
    }
  }

  lemma {:induction false} SameKeyCount(a: Lines, b: Lines)
    requires |a| == |b| && forall i :: 0 <= i < |a| ==> Counts(a[i]) == Counts(b[i])
    ensures KeyCount(a) == KeyCount(b)
  {
    if a != [] {
      hide Counts;
      assert Counts(a[0]) == Counts(b[0]);
      forall i | 0 <= i < |a| - 1
        ensures Counts(a[1..][i]) == Counts(b[1..][i])
      {
        assert Counts(a[i + 1]) == Counts(b[i + 1]);
      }
      SameKeyCount(a[1..], b[1..]);
    }
  }

  lemma KeyCountOfPatched(p: Launch, lines: Lines)
    ensures KeyCount(Patched(p, Other, lines)) == KeyCount(lines)
  {
    hide HasPrefix, ExecKey, TryKey, IconKey, IsHeader, Trim, EntryHeader, Patched;
    PatchedIsAlike(p, Other, lines);
    var done := Patched(p, Other, lines);
    forall i | 0 <= i < |lines| ensures Counts(lines[i]) == Counts(done[i]) { assert SameKind(lines[i], done[i]); }
    SameKeyCount(lines, done);
  }

  lemma ChompKeepsKeys(line: string)
    ensures Counts(Chomp(line)) == Counts(line)
  {
    assert EndsWith(ExecKey(), '=') && EndsWith(TryKey(), '=');
    hide ExecKey, TryKey;
    KeyIsKept(line, ExecKey());
    KeyIsKept(line, TryKey());
  }

  lemma KeyIsKept(line: string, key: string)
    requires EndsWith(key, '=')
    ensures HasPrefix(Chomp(line), key) == HasPrefix(line, key)
  {
    if HasPrefix(line, key) {
      assert line[|key| - 1] == line[..|key|][|key| - 1] == '=';
      assert Chomp(line)[..|key|] == line[..|key|];
    }
    if HasPrefix(Chomp(line), key) { assert line[..|key|] == Chomp(line)[..|key|]; }
  }

  lemma KeyCountOfChomped(lines: Lines)
    ensures KeyCount(Chomped(lines)) == KeyCount(lines)
  {
    hide Counts, Chomp;
    forall i | 0 <= i < |lines| ensures Counts(Chomped(lines)[i]) == Counts(lines[i]) { ChompKeepsKeys(lines[i]); }
    SameKeyCount(Chomped(lines), lines);
  }

  lemma KeyCountOfKept(lines: Lines)
    ensures KeyCount(Kept(lines)) == KeyCount(lines)
  {
    if |lines| >= 2 && lines[|lines| - 1] == "" {
      var front := lines[..|lines| - 1];
      assert lines == front + [""];
      KeyCountAdds(front, [""]);
      assert !Counts("") && [""][1..] == [];
    }
  }

  lemma KeyCountOfMissing(p: Launch, lines: Lines)
    ensures KeyCount(Missing(p, lines)) == |Missing(p, lines)|
  {
    NewLines(p);
    hide ExecKey, TryKey, HasPrefix, ExecLine, TryLine, Seen;
    KeyCountAdds(MissingExec(p, lines), MissingTry(p, lines));
    assert [ExecLine(p, "")][1..] == [] && [TryLine(p)][1..] == [];
    assert KeyCount([ExecLine(p, "")]) == 1 && KeyCount([TryLine(p)]) == 1;
  }

  lemma KeyCountOfWhole(p: Launch, lines: Lines)
    ensures KeyCount(Whole(p, lines)) == KeyCount(lines) + |Missing(p, lines)|
  {
    var done := Patched(p, Other, lines);
    KeyCountOfPatched(p, lines);
    KeyCountOfMissing(p, lines);
    hide KeyCount, Patched, Missing, InsertAt;
    var top, rest := done[..InsertAt(done)], done[InsertAt(done)..];
    KeyCountAdds(top, Missing(p, lines));
    KeyCountAdds(top + Missing(p, lines), rest);
    KeyCountAdds(top, rest);
    assert top + rest == done;
  }

  /** A pass that gives back the lines it started from, inserts nothing and drops no last blank. */
  lemma NothingIsInserted(p: Launch, kept: Lines)
    requires Kept(Whole(p, Chomped(kept))) == kept
    ensures BothSeen(Chomped(kept)) && Patched(p, Other, Chomped(kept)) == kept
    ensures LastBlank(kept) ==> |kept| < 2
  {
    var lines := Chomped(kept);
    KeyCountOfChomped(kept);
    KeyCountOfWhole(p, lines);
    KeyCountOfKept(Whole(p, lines));
    hide KeyCount, Patched, Chomped, InsertAt, Whole;
    assert Missing(p, lines) == [];
    assert BothSeen(lines) by { hide ExecLine, TryLine, Seen; }
    hide Missing, BothSeen;
    WholeWhenSeen(p, lines);
  }

  lemma ChompedTail(p: Launch, tail: string)
    requires Launchable(p.path, p.entrypoint) && EndsWith(tail, '\r')
    ensures var line := Chomp(ExecLine(p, tail)); HasPrefix(line, ExecKey()) && |TailOf(line)| < |tail|
  {
    hide ExecKey, ExecCommand, HasPrefix, ExecTail, WithoutEntrypoint, SkipAscii, Launchable;
    var command, shorter := ExecCommand(p.path, p.entrypoint), tail[..|tail| - 1];
    assert Chomp(ExecLine(p, tail)) == ExecKey() + (command + " " + shorter);
    Begins(ExecKey(), command + " " + shorter);
    CommandIsSkipped(p.path, p.entrypoint, shorter);
    SkipAsciiShortens(shorter);
  }

  lemma EndOfBoth(a: string, b: string)
    requires b != ""
    ensures EndsWith(a + b, '\r') == EndsWith(b, '\r')
  {
  }

  lemma NewExecEnds(p: Launch, tail: string)
    requires !EndsWith(tail, '\r')
    ensures !EndsWith(ExecLine(p, tail), '\r')
  {
    CommandIsOneLine(p);
    ArgumentsEnd(p);
    var command := ExecCommand(p.path, p.entrypoint);
    hide ExecKey, ExecCommand;
    if tail == "" {
      assert command + "" == command;
      EndOfBoth(ExecKey(), command);
    } else {
      EndOfBoth(command + " ", tail);
      assert command + " " + tail == command + (" " + tail);
      EndOfBoth(ExecKey(), command + (" " + tail));
    }
  }

  lemma NewLinesEnd(p: Launch)
    requires Fit(p)
    ensures !EndsWith(TryLine(p), '\r')
    ensures p.icon.Some? ==> !EndsWith(IconKey() + p.icon.value, '\r')
  {
    ValueIsOneLine(p.path);
    assert EndsWith(TryKey(), '=') && EndsWith(IconKey(), '=');
    hide TryKey, IconKey, StringValue, Launchable;
    if StringValue(p.path) == "" {
      assert TryKey() + "" == TryKey();
    } else {
      EndOfBoth(TryKey(), StringValue(p.path));
    }
    if p.icon.Some? {
      if p.icon.value == "" { assert IconKey() + "" == IconKey(); } else { EndOfBoth(IconKey(), p.icon.value); }
    }
  }

  lemma ArgumentsEnd(p: Launch)
    ensures ExecCommand(p.path, p.entrypoint) != ""
  {
    WrittenShapes(p.path);
    hide ExecArg, Env, Assignment, EscapeAll, Body, Space, NeedsQuotes;
  }

  /** No patched line, read back without its carriage return, is patched into one with it. */
  lemma ReturnIsLost(p: Launch, g: Group, line: string)
    requires Fit(p) && PatchedLine(p, g, Chomp(line)) == line
    ensures !EndsWith(line, '\r')
  {
    var shorter := Chomp(line);
    if HasPrefix(shorter, ExecKey()) {
      var tail := TailOf(shorter);
      if EndsWith(tail, '\r') { ChompedTail(p, tail); } else { NewExecEnds(p, tail); }
    }
    NewLinesEnd(p);
    hide ExecKey, TryKey, IconKey, ExecLine, TryLine, TailOf, IsHeader, HasPrefix, Fit;
  }

  lemma ReturnsAreLost(p: Launch, lines: Lines)
    requires Fit(p) && Patched(p, Other, Chomped(lines)) == lines
    ensures NoReturns(lines)
  {
    hide Patched, PatchedLine, Fit, EndsWith, Chomp;
    forall i | 0 <= i < |lines| ensures !EndsWith(lines[i], '\r') {
      PatchedAt(p, Other, Chomped(lines), i);
      var g :| Patched(p, Other, Chomped(lines))[i] == PatchedLine(p, g, Chomped(lines)[i]);
      ReturnIsLost(p, g, lines[i]);
    }
  }

  lemma SeenBeforeABlank(p: Launch, lines: Lines)
    requires BothSeen(Kept(lines))
    ensures BothSeen(lines)
  {
    hide Seen;
    if |lines| >= 2 && lines[|lines| - 1] == "" {
      var front := lines[..|lines| - 1];
      assert lines == front + [""];
      BlankKey(p, ExecKey(), front);
      BlankKey(p, TryKey(), front);
    }
  }

  lemma OnlyThen(p: Launch, content: string)
    requires Fit(p) && PatchText(p, PatchText(p, content)) == PatchText(p, content)
    ensures Settles(p, content)
  {
    var lines := LinesOf(content);
    var whole := Whole(p, lines);
    var kept := Kept(whole);
    PatchedFile(p, content);
    PatchedFile(p, PatchText(p, content));
    hide Whole, LinesOf, PatchText, Terminated, TwoBlanks, Chomped, Fit, Kept, CleanHeader, HeaderAt, OneLines,
      NoReturns;
    TerminatedIsInjective(Kept(Whole(p, Chomped(kept))), kept);
    NothingIsInserted(p, kept);
    ReturnsAreLost(p, kept);
    ChompNothing(kept);
    SeenBeforeABlank(p, whole);
    KeptEnd(whole);
    ReturnsOfFile(p, lines);
    hide BothSeen, Seen, ReturnsReplaced;
    KeysAreThere(p, lines);
    HeaderIsThere(lines);
    LastLines(p, lines);
  }

  lemma KeysAreThere(p: Launch, lines: Lines)
    requires Launchable(p.path, p.entrypoint) && BothSeen(Whole(p, lines))
    ensures CleanHeader(lines) || BothSeen(lines)
  {
    hide Whole, Seen, CleanHeader, ExecKey, TryKey;
    KeysAreAdded(p, ExecKey(), lines);
    KeysAreAdded(p, TryKey(), lines);
  }

  /** Patching is idempotent exactly on the files that settle. */
  lemma IdempotentExactly(p: Launch, content: string)
    requires Fit(p)
    ensures PatchText(p, PatchText(p, content)) == PatchText(p, content) <==> Settles(p, content)
  {
    if Settles(p, content) {
      hide Settles, PatchText, Fit;
      LastPatchWins(p, p, content);
    }
    if PatchText(p, PatchText(p, content)) == PatchText(p, content) {
      hide Settles, PatchText, Fit;
      OnlyThen(p, content);
    }
  }

  /** A file that ends in two blank lines loses one at each pass. */
  lemma BlankLinesAreLost(p: Launch)
    requires Fit(p)
    ensures var content := Terminated([EntryHeader(), "", ""]);
      PatchText(p, PatchText(p, content)) != PatchText(p, content)
  {
    var lines := [EntryHeader(), "", ""];
    assert OneLine(EntryHeader()) && !EndsWith(EntryHeader(), '\r');
    hide EntryHeader, Fit, PatchText;
    LinesOfTerminated(lines);
    assert Chomped(lines) == lines;
    IdempotentExactly(p, Terminated(lines));
  }

  /** A header with a blank after it is found when keys are inserted, but not when they are looked for. */
  lemma KeysAreInsertedAgain(p: Launch)
    requires Fit(p)
    ensures var content := Terminated([EntryHeader() + " "]);
      PatchText(p, PatchText(p, content)) != PatchText(p, content)
  {
    var line := EntryHeader() + " ";
    BlankHeaderLine();
    hide EntryHeader, Fit, PatchText, TrimStart;
    LinesOfTerminated([line]);
    assert Chomped([line]) == [line];
    NeverMain(ExecKey(), Other, [line]);
    hide Seen, ExecKey, HeaderAt, LinesOf;
    IdempotentExactly(p, Terminated([line]));
  }

  lemma BlankHeaderLine()
    ensures var line := EntryHeader() + " "; OneLine(line) && !EndsWith(line, '\r') && TrimStart(line) != EntryHeader()
  {
    HeaderIsHeader();
    assert !Space('[') && EntryHeader()[0] == '[' && OneLine(EntryHeader());
    var line := EntryHeader() + " ";
    assert TrimStart(line) == line && |line| == |EntryHeader()| + 1;
  }
}
