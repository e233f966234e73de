/** What a file patched by `patch_desktop_file` of `crates/onelf-format/src/desktop.rs` says: which lines are
    replaced, what a reader of the Desktop Entry Specification finds in them, and where new ones stand.
 */
module DesktopMeaning {
  import opened Bytes
  import opened DesktopCommand
  import opened DesktopFile
  import opened DesktopLines
  import opened DesktopPatch
  import opened DesktopQuoting
  import DesktopTwice

  // ---- groups --------------------------------------------------------------------------------

  predicate Blanks(s: string) { forall i :: 0 <= i < |s| ==> Space(s[i]) }

  /** A line that starts a group. Blanks in front of it do not count. */
  ghost predicate Heads(line: string, group: Group) {
    exists k :: 0 <= k <= |line| && Blanks(line[..k]) && IsTitle(line[k..], group)
  }

  predicate IsTitle(t: string, group: Group) {
    && t != "" && t[0] == '[' && t[|t| - 1] == ']'
    && group == if t == "[Desktop Entry]" then Main else if "[Desktop Action " <= t then Action else Other
  }

  ghost predicate AnyHead(line: string) { exists g: Group :: Heads(line, g) }

  /** The last heading up to a line is one of the group. */
  ghost predicate Under(lines: Lines, i: nat, group: Group)
    requires i < |lines|
  {
    exists h :: 0 <= h <= i && Heads(lines[h], group) && forall j :: h < j <= i ==> !AnyHead(lines[j])
  }

  /** A line below the heading of a group and above the next heading. */
  ghost predicate In(lines: Lines, i: nat, group: Group)
    requires i < |lines|
  {
    Under(lines, i, group) && !AnyHead(lines[i])
  }

  lemma TitleIs(line: string, k: nat, group: Group)
    requires k <= |line| && Blanks(line[..k]) && IsTitle(line[k..], group)
    ensures TrimStart(line) == line[k..] && IsHeader(line) && GroupOf(line) == group
  {
    TrimStartAt(line, k);
    assert ActionHeader() == "[Desktop Action ";
    hide TrimStart;
  }

  lemma {:induction false} TrimStartAt(line: string, k: nat)
    requires k <= |line| && Blanks(line[..k]) && (k < |line| ==> !Space(line[k]))
    ensures TrimStart(line) == line[k..]
  {
    if k > 0 {
      assert line[..k][0] == line[0];
      hide Space;
      assert line[1..][..k - 1] == line[..k][1..];
      TrimStartAt(line[1..], k - 1);
    }
  }

  lemma {:induction false} TrimmedFrom(line: string) returns (k: nat)
    ensures k <= |line| && Blanks(line[..k]) && TrimStart(line) == line[k..]
  {
    k := 0;
    if line != "" && Space(line[0]) {
      hide Space;
      k := TrimmedFrom(line[1..]);
      assert line[..k + 1] == [line[0]] + line[1..][..k];
      k := k + 1;
    }
  }

  lemma HeadsIs(line: string, group: Group)
    ensures Heads(line, group) <==> IsHeader(line) && GroupOf(line) == group
  {
    if Heads(line, group) {
      var k :| 0 <= k <= |line| && Blanks(line[..k]) && IsTitle(line[k..], group);
      TitleIs(line, k, group);
    }
    if IsHeader(line) && GroupOf(line) == group {
      var k := TrimmedFrom(line);
      assert ActionHeader() == "[Desktop Action ";
      hide TrimStart, Blanks;
      assert IsTitle(line[k..], group);
    }
  }

  lemma AnyHeadIs(line: string)
    ensures AnyHead(line) <==> IsHeader(line)
  {
    forall g: Group ensures Heads(line, g) <==> IsHeader(line) && GroupOf(line) == g { HeadsIs(line, g); }
    hide Heads, IsHeader, GroupOf;
    if IsHeader(line) { assert Heads(line, GroupOf(line)); }
  }

  lemma FinalStep(lines: Lines, i: nat)
    requires i < |lines|
    ensures Final(Other, lines[..i + 1]) == Next(Final(Other, lines[..i]), lines[i])
  {
    hide Next;
    var one := [lines[i]];
    assert lines[..i + 1] == lines[..i] + one;
    FinalOfTwo(Other, lines[..i], one);
    var g := Final(Other, lines[..i]);
    assert one[1..] == [] && Final(Next(g, lines[i]), []) == Next(g, lines[i]);
  }

  lemma UnderStep(lines: Lines, i: nat, group: Group)
    requires i < |lines|
    ensures Under(lines, i, group) <==>
      if AnyHead(lines[i]) then Heads(lines[i], group) else i > 0 && Under(lines, i - 1, group)
  {
    hide Heads, AnyHead;
    if Under(lines, i, group) {
      var h :| 0 <= h <= i && Heads(lines[h], group) && forall j :: h < j <= i ==> !AnyHead(lines[j]);
      if h == i { HeadIsAny(lines[i], group); }
    }
  }

  lemma HeadIsAny(line: string, group: Group)
    requires Heads(line, group)
    ensures AnyHead(line)
  {
  }

  /** The group a line is in is the one that the loop has reached. */
  lemma {:induction false} UnderIs(lines: Lines, i: nat, group: Group)
    requires i < |lines| && group != Other
    ensures Under(lines, i, group) <==> Final(Other, lines[..i + 1]) == group
    decreases i
  {
    UnderStep(lines, i, group);
    FinalStep(lines, i);
    HeadsIs(lines[i], group);
    AnyHeadIs(lines[i]);
    hide Heads, AnyHead, IsHeader, GroupOf, Under;
    if i > 0 { UnderIs(lines, i - 1, group); }
  }

  lemma {:induction false} PatchedOne(p: Launch, g: Group, lines: Lines, i: nat)
    requires i < |lines|
    ensures Patched(p, g, lines)[i] == PatchedLine(p, Final(g, lines[..i + 1]), lines[i])
    decreases i
  {
    hide PatchedLine, Next;
    assert lines[..i + 1][0] == lines[0] && lines[..i + 1][1..] == lines[1..][..i];
    if i == 0 {
      assert Final(Next(g, lines[0]), []) == Next(g, lines[0]);
    } else {
      PatchedOne(p, Next(g, lines[0]), lines[1..], i - 1);
    }
  }

  // ---- commands ------------------------------------------------------------------------------

  /** The first `n` words of a command line, by the specification, and what follows them. */
  function Words(t: string, n: nat): Option<(seq<string>, string)>
    decreases n
  {
    if n == 0 then Some(([], t))
    else
      match FirstArgument(t)
      case Malformed => None
      case Argument(word, rest) =>
        if n == 1 then Some(([word], rest))
        else if rest == "" || rest[0] != ' ' then None
        else
          match Words(rest[1..], n - 1)
          case None => None
          case Some((words, tail)) => Some(([word] + words, tail))
  }

  /** The words that launch a package. */
  function LaunchWords(p: Launch): seq<string> {
    match p.entrypoint
    case None => [p.path]
    case Some(name) => ["env", "ONELF_ENTRYPOINT=" + name, p.path]
  }

  /** Whatever follows the command, a reader takes just these words, and then what follows. */
  ghost predicate Launches(command: string, p: Launch) {
    forall tail :: Unescape(tail).Some? && (tail == "" || tail[0] == ' ') ==> ReadsAs(command, p, tail)
  }

  predicate ReadsAs(command: string, p: Launch, tail: string) {
    && Unescape(tail).Some? && Unescape(command + tail).Some?
    && Words(Unescape(command + tail).value, |LaunchWords(p)|) == Some((LaunchWords(p), Unescape(tail).value))
  }

  lemma OneWordRead(path: string, tail: string)
    requires Unescape(tail).Some? && (tail == "" || tail[0] == ' ')
    ensures Unescape(ExecArg(path) + tail).Some?
    ensures Words(Unescape(ExecArg(path) + tail).value, 1) == Some(([path], Unescape(tail).value))
  {
    ReadersFindThePath(path, tail);
    hide ExecArg, Unescape, FirstArgument;
  }

  lemma UnescapeBlank(s: string)
    ensures Unescape(" " + s) == Prepend(' ', Unescape(s))
  {
    assert (" " + s)[1..] == s;
  }

  lemma WordAndMore(word: string, more: string, n: nat, words: seq<string>, tail: string)
    requires n > 0 && Unescape(more).Some? && Words(Unescape(more).value, n) == Some((words, tail))
    ensures Unescape(ExecArg(word) + (" " + more)).Some?
    ensures Words(Unescape(ExecArg(word) + (" " + more)).value, n + 1) == Some(([word] + words, tail))
  {
    UnescapeBlank(more);
    ReadersFindThePath(word, " " + more);
    var rest := [' '] + Unescape(more).value;
    assert rest[1..] == Unescape(more).value;
    hide ExecArg, Unescape, FirstArgument;
  }

  lemma EnvIsWritten()
    ensures Env() == ExecArg("env") + " " && Variable() + "=" == "ONELF_ENTRYPOINT="
  {
    OrdinaryIsWrittenAsItIs("env");
    hide ExecArg;
  }

  lemma CommandParts(path: string, name: string, tail: string)
    ensures ExecCommand(path, Some(name)) + tail
      == ExecArg("env") + (" " + (ExecArg("ONELF_ENTRYPOINT=" + name) + (" " + (ExecArg(path) + tail))))
  {
    EnvIsWritten();
    hide ExecArg, Env, Variable;
  }

  lemma CommandLaunches(p: Launch)
    ensures Launches(ExecCommand(p.path, p.entrypoint), p)
  {
    forall tail | Unescape(tail).Some? && (tail == "" || tail[0] == ' ')
      ensures ReadsAs(ExecCommand(p.path, p.entrypoint), p, tail)
    {
      CommandReads(p, tail);
    }
  }

  lemma CommandReads(p: Launch, tail: string)
    requires Unescape(tail).Some? && (tail == "" || tail[0] == ' ')
    ensures ReadsAs(ExecCommand(p.path, p.entrypoint), p, tail)
  {
    hide ExecArg, Unescape, Words, Env, Assignment;
    OneWordRead(p.path, tail);
    if p.entrypoint.Some? {
      var name := p.entrypoint.value;
      var last := ExecArg(p.path) + tail;
      WordAndMore("ONELF_ENTRYPOINT=" + name, last, 1, [p.path], Unescape(tail).value);
      WordAndMore("env", ExecArg("ONELF_ENTRYPOINT=" + name) + (" " + last), 2, ["ONELF_ENTRYPOINT=" + name] + [p.path],
        Unescape(tail).value);
      CommandParts(p.path, name, tail);
      assert ["env"] + (["ONELF_ENTRYPOINT=" + name] + [p.path]) == LaunchWords(p);
    }
  }

  // ---- lines -----------------------------------------------------------------------------------

  /** A command line for the package, with the arguments that followed the old command. */
  ghost predicate IsExec(line: string, p: Launch, arguments: string) {
    exists command :: Launches(command, p)
      && line == "Exec=" + command + (if arguments == "" then "" else " " + arguments)
  }

  ghost predicate IsTryExec(line: string, p: Launch) {
    "TryExec=" <= line && Unescape(line[8..]) == Some(p.path)
  }

  lemma Prefixes(line: string)
    ensures HasPrefix(line, ExecKey()) <==> "Exec=" <= line
    ensures HasPrefix(line, TryKey()) <==> "TryExec=" <= line
    ensures HasPrefix(line, IconKey()) <==> "Icon=" <= line
  {
  }

  lemma ExecIs(p: Launch, arguments: string)
    ensures IsExec(ExecLine(p, arguments), p, arguments)
  {
    CommandLaunches(p);
    hide ExecCommand, Launches;
    var command := ExecCommand(p.path, p.entrypoint);
    assert ExecLine(p, arguments) == "Exec=" + command + (if arguments == "" then "" else " " + arguments);
  }

  lemma TryExecIs(p: Launch)
    ensures IsTryExec(TryLine(p), p)
  {
    StringValueIsReadBack(p.path);
    hide StringValue, Unescape;
    assert TryLine(p)[8..] == StringValue(p.path);
  }

  /** The keys of a line, in the words of the text. */
  lemma PatchedLineMeans(p: Launch, g: Group, line: string)
    requires !IsHeader(line)
    ensures var out := PatchedLine(p, g, line);
      if g != Other && "Exec=" <= line then IsExec(out, p, ExecTail(WithoutEntrypoint(line[5..])))
      else if g == Main && "TryExec=" <= line then IsTryExec(out, p)
      else if g == Main && "Icon=" <= line && p.icon.Some? then out == "Icon=" + p.icon.value
      else out == line
  {
    Prefixes(line);
    if "Exec=" <= line { ExecIs(p, ExecTail(WithoutEntrypoint(line[5..]))); }
    TryExecIs(p);
    hide IsHeader, ExecTail, WithoutEntrypoint, HasPrefix, IsExec, IsTryExec, ExecLine, TryLine;
  }

  /** What becomes of every line. */
  lemma LinesMean(p: Launch, lines: Lines, i: nat)
    requires i < |lines|
    ensures var line, out := lines[i], Patched(p, Other, lines)[i];
      if (In(lines, i, Main) || In(lines, i, Action)) && "Exec=" <= line then
        IsExec(out, p, ExecTail(WithoutEntrypoint(line[5..])))
      else if In(lines, i, Main) && "TryExec=" <= line then IsTryExec(out, p)
      else if In(lines, i, Main) && "Icon=" <= line && p.icon.Some? then out == "Icon=" + p.icon.value
      else out == line
  {
    var line := lines[i];
    UnderIs(lines, i, Main);
    UnderIs(lines, i, Action);
    AnyHeadIs(line);
    PatchedOne(p, Other, lines, i);
    if IsHeader(line) {
      assert PatchedLine(p, Final(Other, lines[..i + 1]), line) == line;
    } else {
      PatchedLineMeans(p, Final(Other, lines[..i + 1]), line);
    }
    hide Under, AnyHead, IsHeader, Patched, Final, ExecTail, WithoutEntrypoint, IsExec, IsTryExec, PatchedLine;
  }

  // ---- whole files -------------------------------------------------------------------------------

  /** The entry's own heading, with nothing but blanks around it. */
  ghost predicate Titled(line: string) {
    exists a, b :: Blanks(a) && Blanks(b) && line == a + "[Desktop Entry]" + b
  }

  /** The entry has a line of the key. */
  ghost predicate HasKey(lines: Lines, key: string) {
    exists i :: 0 <= i < |lines| && In(lines, i, Main) && key <= lines[i]
  }

  lemma {:induction false} TrimEndAt(t: string, k: nat)
    requires k <= |t| && Blanks(t[k..]) && (k > 0 ==> !Space(t[k - 1]))
    ensures TrimEnd(t) == t[..k]
  {
    if k < |t| {
      assert t[k..][|t| - 1 - k] == t[|t| - 1];
      hide Space;
      assert t[..|t| - 1][k..] == t[k..][..|t| - 1 - k] && t[..|t| - 1][..k] == t[..k];
      TrimEndAt(t[..|t| - 1], k);
    } else {
      assert t[..k] == t;
    }
  }

  lemma {:induction false} TrimmedTo(t: string) returns (k: nat)
    ensures k <= |t| && Blanks(t[k..]) && TrimEnd(t) == t[..k]
  {
    k := |t|;
    assert t[..k] == t;
    if t != "" && Space(t[|t| - 1]) {
      hide Space;
      k := TrimmedTo(t[..|t| - 1]);
      assert t[k..] == t[..|t| - 1][k..] + [t[|t| - 1]] && t[..|t| - 1][..k] == t[..k];
    }
  }

  lemma TitledTrims(a: string, b: string)
    requires Blanks(a) && Blanks(b)
    ensures Trim(a + "[Desktop Entry]" + b) == "[Desktop Entry]"
  {
    var line := a + "[Desktop Entry]" + b;
    var t := "[Desktop Entry]" + b;
    assert line[..|a|] == a && line[|a|..] == t && line[|a|] == '[';
    TrimStartAt(line, |a|);
    assert t[15..] == b && t[14] == ']' && t[..15] == "[Desktop Entry]";
    TrimEndAt(t, 15);
  }

  lemma TitledIs(line: string)
    ensures Titled(line) <==> Trim(line) == EntryHeader()
  {
    hide Blanks, TrimStart, TrimEnd;
    if Titled(line) {
      var a, b :| Blanks(a) && Blanks(b) && line == a + "[Desktop Entry]" + b;
      TitledTrims(a, b);
    }
    if Trim(line) == EntryHeader() {
      var j := TrimmedFrom(line);
      var k := TrimmedTo(line[j..]);
      assert line == line[..j] + line[j..][..k] + line[j..][k..];
    }
  }

  lemma {:induction false} SeenIs(key: string, lines: Lines, i: nat)
    requires i <= |lines|
    ensures Seen(key, Other, lines[..i]) <==>
      exists k :: 0 <= k < i && Final(Other, lines[..k + 1]) == Main && !IsHeader(lines[k]) && HasPrefix(lines[k], key)
    decreases i
  {
    if i > 0 {
      var one := [lines[i - 1]];
      assert lines[..i] == lines[..i - 1] + one;
      SeenInTwo(key, Other, lines[..i - 1], one);
      FinalStep(lines, i - 1);
      hide Next, Final, IsHeader, HasPrefix;
      assert one[1..] == [] && !Seen(key, Next(Final(Other, lines[..i - 1]), one[0]), []);
      SeenIs(key, lines, i - 1);
    }
  }

  lemma HasKeyIs(lines: Lines, key: string)
    ensures HasKey(lines, key) <==> Seen(key, Other, lines)
  {
    SeenIs(key, lines, |lines|);
    assert lines[..|lines|] == lines;
    forall i | 0 <= i < |lines|
      ensures In(lines, i, Main) <==> Final(Other, lines[..i + 1]) == Main && !IsHeader(lines[i])
    {
      UnderIs(lines, i, Main);
      AnyHeadIs(lines[i]);
      hide Under, AnyHead, IsHeader, Final;
    }
    hide In, IsHeader, Final, Seen;
  }

  /** The place for new lines: right below the first title, or at the end where there is none. */
  ghost predicate IsPlace(lines: Lines, at: nat)
    requires at <= |lines|
  {
    if at > 0 && Titled(lines[at - 1]) then forall i :: 0 <= i < at - 1 ==> !Titled(lines[i])
    else at == |lines| && forall i :: 0 <= i < |lines| ==> !Titled(lines[i])
  }

  lemma PlaceIs(p: Launch, lines: Lines)
    ensures var at := InsertAt(Patched(p, Other, lines)); at <= |lines| && IsPlace(lines, at)
  {
    var done := Patched(p, Other, lines);
    PatchedIsAlike(p, Other, lines);
    forall i | 0 <= i < |lines| ensures Titled(lines[i]) <==> Trim(done[i]) == EntryHeader() {
      TitledIs(lines[i]);
      assert SameKind(lines[i], done[i]);
    }
    hide Titled, Trim, EntryHeader, Patched, Alike;
  }

  /** A patched file is its lines, each patched where it stands, and a command and a `TryExec` for the entry
      where it has none, below its first title. */
  lemma FilesMean(p: Launch, lines: Lines) returns (at: nat, execs: Lines, tries: Lines)
    ensures var done := Patched(p, Other, lines);
      at <= |lines| && IsPlace(lines, at) && Whole(p, lines) == done[..at] + (execs + tries) + done[at..]
    ensures |execs| == (if HasKey(lines, "Exec=") then 0 else 1) && forall line :: line in execs ==> IsExec(line, p, "")
    ensures |tries| == (if HasKey(lines, "TryExec=") then 0 else 1) && forall line :: line in tries ==>
      IsTryExec(line, p)
  {
    at, execs, tries := InsertAt(Patched(p, Other, lines)), MissingExec(p, lines), MissingTry(p, lines);
    PlaceIs(p, lines);
    HasKeyIs(lines, "Exec=");
    HasKeyIs(lines, "TryExec=");
    ExecIs(p, "");
    TryExecIs(p);
    hide IsPlace, HasKey, Seen, Patched, IsExec, IsTryExec, InsertAt, ExecLine, TryLine;
  }

  lemma {:induction false} LinesAreTerminated(s: string)
    requires s != "" && s[|s| - 1] == '\n' && '\r' !in s
    ensures DesktopTwice.Terminated(LinesOf(s)) == s && LinesOf(s) != []
    decreases |s|
  {
    var n := LineEnd(s);
    assert s[n + 1..] != "" ==> s[n + 1..][|s| - n - 2] == '\n';
    var line := s[..n];
    assert '\r' !in line && Chomp(line) == line;
    assert s == line + "\n" + s[n + 1..];
    if s[n + 1..] != "" { LinesAreTerminated(s[n + 1..]); }
    hide Chomp, LineEnd;
  }

  lemma LastLine(lines: Lines)
    requires |lines| >= 2 && lines[|lines| - 1] == ""
    ensures var t := DesktopTwice.Terminated(lines); |t| >= 2 && t[|t| - 2] == '\n'
  {
    DesktopTwice.JoinedIs(lines);
    DesktopTwice.TerminatedEnds(lines[..|lines| - 1]);
    hide DesktopTwice.Terminated, Joined;
  }

  lemma TextOfLines(lines: Lines)
    requires lines != [] && DesktopTwice.OneLines(lines) && (|lines| >= 2 ==> lines[|lines| - 1] != "")
    ensures Text(lines) == DesktopTwice.Terminated(lines)
  {
    hide DesktopTwice.Terminated, Text, DesktopTwice.OneLines;
    DesktopTwice.TextIs(lines);
  }

  /** A text is its lines: without carriage returns, and ending in just one line feed, it is made of them again. */
  lemma TextIsItsLines(s: string)
    requires s != "" && s[|s| - 1] == '\n' && '\r' !in s && (|s| >= 2 ==> s[|s| - 2] != '\n')
    ensures Text(LinesOf(s)) == s
  {
    hide LinesOf, DesktopTwice.Terminated, Text, DesktopTwice.OneLines;
    LinesAreTerminated(s);
    DesktopTwice.LinesAreOneLines(s);
    var lines := LinesOf(s);
    if |lines| >= 2 && lines[|lines| - 1] == "" {
      LastLine(lines);
    } else {
      TextOfLines(lines);
    }
  }
}
