/** `patch_desktop_file` of `crates/onelf-format/src/desktop.rs` on whole files: exactly when
    patching a patched file again changes nothing.
 */
module DesktopFile {
  import opened Bytes
  import opened DesktopQuoting
  import opened DesktopCommand
  import opened DesktopLines
  import opened DesktopPatch

  // ---- text and lines ------------------------------------------------------------------

  function LineEnd(s: string): (n: nat)
    ensures n <= |s| && (n < |s| ==> s[n] == '\n') && '\n' !in s[..n]
  {
    if s == "" || s[0] == '\n' then 0
    else
      var n := 1 + LineEnd(s[1..]);
      assert s[..n] == [s[0]] + s[1..][..n - 1];
      n
  }

  function Chomp(line: string): string { if EndsWith(line, '\r') then line[..|line| - 1] else line }

  /** `str::lines`: a carriage return before a newline is part of it, one at the very end is not. */
  function LinesOf(s: string): Lines
    decreases |s|
  {
    if s == "" then []
    else if LineEnd(s) == |s| then [s]
    else [Chomp(s[..LineEnd(s)])] + LinesOf(s[LineEnd(s) + 1..])
  }

  function Joined(lines: Lines): string {
    if lines == [] then "" else if |lines| == 1 then lines[0] else lines[0] + "\n" + Joined(lines[1..])
  }

  function Text(lines: Lines): string {
    if EndsWith(Joined(lines), '\n') then Joined(lines) else Joined(lines) + "\n"
  }

  function PatchText(p: Launch, content: string): string { Text(Whole(p, LinesOf(content))) }

  // ---- the loop --------------------------------------------------------------------------

  method WriteCommand(path: string, entrypoint: Option<string>) returns (command: string)
    ensures command == ExecCommand(path, entrypoint)
  {
    hide ExecArg, Env, Assignment;
    var arg := WriteExecArg(path);
    if entrypoint.None? { return arg; }
    var variable := WriteExecArg(Assignment(entrypoint.value));
    command := Env() + variable + " " + arg;
  }

  /** One turn of the loop over the lines. */
  method PatchLine(p: Launch, command: string, tryExec: string, line: string, group: Group, hasExec: bool, hasTry: bool)
    returns (line': string, group': Group, hasExec': bool, hasTry': bool)
    requires command == ExecCommand(p.path, p.entrypoint) && tryExec == StringValue(p.path)
    ensures group' == Next(group, line) && line' == PatchedLine(p, group', line)
    ensures hasExec' == (hasExec || Holds(ExecKey(), group', line))
    ensures hasTry' == (hasTry || Holds(TryKey(), group', line))
  {
    OneKeyOnly(line);
    hide ExecCommand, StringValue, TrimStart, EntryHeader, ActionHeader, WithoutEntrypoint, ExecTail, ExecKey, TryKey,
      IconKey, EndsWith;
    line', group', hasExec', hasTry' := line, group, hasExec, hasTry;
    var trimmed := TrimStart(line);
    if trimmed != "" && trimmed[0] == '[' && EndsWith(trimmed, ']') {
      group' := if trimmed == EntryHeader() then Main else if HasPrefix(trimmed, ActionHeader()) then Action else Other;
      return;
    }
    if group'.Other? { return; }
    if HasPrefix(line, ExecKey()) {
      var tail := ExecArgTail(WithoutEntrypoint(line[|ExecKey()|..]));
      line' := ExecKey() + (command + (if tail == "" then "" else " " + tail));
      hasExec' := hasExec || group'.Main?;
    } else if group'.Action? {
      return;
    } else if HasPrefix(line, TryKey()) {
      line' := TryKey() + tryExec;
      hasTry' := true;
    } else if HasPrefix(line, IconKey()) && p.icon.Some? {
      line' := IconKey() + p.icon.value;
    }
  }

  method PatchLines(p: Launch, command: string, tryExec: string, original: Lines)
    returns (lines: Lines, hasExec: bool, hasTry: bool)
    requires command == ExecCommand(p.path, p.entrypoint) && tryExec == StringValue(p.path)
    ensures lines == Patched(p, Other, original)
    ensures hasExec == Seen(ExecKey(), Other, original) && hasTry == Seen(TryKey(), Other, original)
  {
    var group := Other;
    lines, hasExec, hasTry := [], false, false;
    Before(p, Other, []);
    assert original[..0] == [];
    hide PatchedLine, Next, Holds, Patched, Final, Seen, ExecCommand, StringValue, ExecKey, TryKey;
    for i := 0 to |original|
      invariant group == Final(Other, original[..i]) && lines == Patched(p, Other, original[..i])
      invariant hasExec == Seen(ExecKey(), Other, original[..i]) && hasTry == Seen(TryKey(), Other, original[..i])
    {
      Turn(p, ExecKey(), original, i);
      Turn(p, TryKey(), original, i);
      var line: string;
      line, group, hasExec, hasTry := PatchLine(p, command, tryExec, original[i], group, hasExec, hasTry);
      lines := lines + [line];
    }
    assert original[..|original|] == original;
  }

  lemma Before(p: Launch, g: Group, lines: Lines)
    requires lines == []
    ensures Patched(p, g, lines) == [] && Final(g, lines) == g && !Seen(ExecKey(), g, lines) &&
      !Seen(TryKey(), g, lines)
  {
  }

  lemma Turn(p: Launch, key: string, lines: Lines, i: nat)
    requires i < |lines|
    ensures var g := Final(Other, lines[..i]); var next := Next(g, lines[i]);
      && Final(Other, lines[..i + 1]) == next
      && Patched(p, Other, lines[..i + 1]) == Patched(p, Other, lines[..i]) + [PatchedLine(p, next, lines[i])]
      && Seen(key, Other, lines[..i + 1]) == (Seen(key, Other, lines[..i]) || Holds(key, next, lines[i]))
  {
    var one := [lines[i]];
    assert lines[..i + 1] == lines[..i] + one;
    InTwoParts(p, key, Other, lines[..i], one);
    var g := Final(Other, lines[..i]);
    hide PatchedLine, Next, Holds;
    assert one[1..] == [] && Patched(p, Next(g, lines[i]), []) == [];
    assert Final(g, one) == Final(Next(g, lines[i]), []) == Next(g, lines[i]);
    assert Patched(p, g, one) == [PatchedLine(p, Next(g, lines[i]), lines[i])];
  }

  method FindInsertion(lines: Lines) returns (at: nat)
    ensures at == InsertAt(lines)
  {
    hide Trim, EntryHeader;
    at := 0;
    assert lines[0..] == lines;
    while at < |lines| && Trim(lines[at]) != EntryHeader()
      invariant at <= |lines| && HeaderAt(lines) == at + HeaderAt(lines[at..])
    {
      assert lines[at..][1..] == lines[at + 1..];
      at := at + 1;
    }
    if at < |lines| { at := at + 1; }
  }

  method PatchDesktopFile(content: string, p: Launch) returns (text: string)
    ensures text == PatchText(p, content)
  {
    hide ExecCommand, StringValue, Seen, Patched, LinesOf, EndsWith, ExecKey, TryKey, InsertAt, Joined;
    var command := WriteCommand(p.path, p.entrypoint);
    var tryExec := WriteStringValue(p.path);
    ghost var original := LinesOf(content);
    var lines, hasExec, hasTry := PatchLines(p, command, tryExec, LinesOf(content));
    ghost var done := lines;
    var at := FindInsertion(lines);
    assert lines == done[..at] + [] + done[at..];
    if !hasExec {
      assert command + "" == command;
      lines := lines[..at] + [ExecKey() + command] + lines[at..];
      at := at + 1;
    }
    assert lines == done[..InsertAt(done)] + MissingExec(p, original) + done[InsertAt(done)..];
    if !hasTry {
      lines := lines[..at] + [TryKey() + tryExec] + lines[at..];
    }
    assert lines == done[..InsertAt(done)] + MissingExec(p, original) + MissingTry(p, original)
      + done[InsertAt(done)..];
    assert lines == Whole(p, original);
    text := Joined(lines);
    if !EndsWith(text, '\n') { text := text + "\n"; }
  }
}
