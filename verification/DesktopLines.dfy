/** The line work of `patch_desktop_file` in `crates/onelf-format/src/desktop.rs`: which lines
    belong to which group, what becomes of each, and where missing keys go.
 */
module DesktopLines {
  import opened Bytes
  import opened DesktopQuoting
  import opened DesktopCommand

  /** What a file is patched for. */
  datatype Launch = Launch(path: string, entrypoint: Option<string>, icon: Option<string>)

  predicate EndsWith(s: string, c: char) { s != "" && s[|s| - 1] == c }

  /** The command can be recognised again, and an icon's name is one line. */
  predicate Fit(p: Launch) {
    && Launchable(p.path, p.entrypoint)
    && (p.icon.Some? ==> '\n' !in p.icon.value && !EndsWith(p.icon.value, '\r'))
  }

  // ---- groups --------------------------------------------------------------------------

  datatype Group = Other | Main | Action

  function EntryHeader(): string { "[Desktop Entry]" }

  function ActionHeader(): string { "[Desktop Action " }

  predicate IsHeader(line: string) {
    var t := TrimStart(line);
    t != "" && t[0] == '[' && EndsWith(t, ']')
  }

  function GroupOf(line: string): Group {
    if TrimStart(line) == EntryHeader() then Main
    else if HasPrefix(TrimStart(line), ActionHeader()) then Action
    else Other
  }

  function Next(g: Group, line: string): Group { if IsHeader(line) then GroupOf(line) else g }

  function Final(g: Group, lines: seq<string>): Group
    decreases |lines|
  {
    if lines == [] then g else Final(Next(g, lines[0]), lines[1..])
  }

  // ---- one line --------------------------------------------------------------------------

  function ExecKey(): string { "Exec=" }

  function TryKey(): string { "TryExec=" }

  function IconKey(): string { "Icon=" }

  function ExecLine(p: Launch, tail: string): string {
    ExecKey() + (ExecCommand(p.path, p.entrypoint) + (if tail == "" then "" else " " + tail))
  }

  function TryLine(p: Launch): string { TryKey() + StringValue(p.path) }

  function TailOf(line: string): string
    requires HasPrefix(line, ExecKey())
  {
    ExecTail(WithoutEntrypoint(line[|ExecKey()|..]))
  }

  /** What becomes of a line that leaves its file in group `g`. */
  function PatchedLine(p: Launch, g: Group, line: string): string {
    if IsHeader(line) || g.Other? then line
    else if HasPrefix(line, ExecKey()) then ExecLine(p, TailOf(line))
    else if g.Action? then line
    else if HasPrefix(line, TryKey()) then TryLine(p)
    else if HasPrefix(line, IconKey()) && p.icon.Some? then IconKey() + p.icon.value
    else line
  }

  predicate IsKey(line: string) {
    HasPrefix(line, ExecKey()) || HasPrefix(line, TryKey()) || HasPrefix(line, IconKey())
  }

  function TrimEnd(s: string): string {
    if s != "" && Space(s[|s| - 1]) then TrimEnd(s[..|s| - 1]) else s
  }

  function Trim(s: string): string { TrimEnd(TrimStart(s)) }

  lemma {:induction false} TrimEndKeepsStart(s: string)
    requires s != "" && !Space(s[0])
    ensures TrimEnd(s) != "" && TrimEnd(s)[0] == s[0]
  {
    if Space(s[|s| - 1]) { TrimEndKeepsStart(s[..|s| - 1]); }
  }

  lemma PlainStart(line: string)
    requires line != "" && line[0] in {'E', 'T', 'I'}
    ensures !IsHeader(line) && Trim(line) != EntryHeader()
  {
    assert !Space(line[0]) && EntryHeader()[0] == '[';
    hide Space, EntryHeader;
    TrimEndKeepsStart(line);
  }

  lemma KeyStart(line: string)
    requires IsKey(line)
    ensures line != "" && line[0] in {'E', 'T', 'I'}
  {
    assert HasPrefix(line, ExecKey()) ==> line[0] == line[..|ExecKey()|][0] == 'E';
    assert HasPrefix(line, TryKey()) ==> line[0] == line[..|TryKey()|][0] == 'T';
    assert HasPrefix(line, IconKey()) ==> line[0] == line[..|IconKey()|][0] == 'I';
  }

  /** A line of a key is never taken for a header. */
  lemma KeysAreNotHeaders(line: string)
    requires IsKey(line)
    ensures !IsHeader(line) && Trim(line) != EntryHeader()
  {
    KeyStart(line);
    hide IsKey, IsHeader, Trim, EntryHeader;
    PlainStart(line);
  }

  lemma OneKeyOnly(line: string)
    ensures HasPrefix(line, ExecKey()) ==> !HasPrefix(line, TryKey()) && !HasPrefix(line, IconKey())
    ensures HasPrefix(line, TryKey()) ==> !HasPrefix(line, IconKey())
  {
    assert HasPrefix(line, ExecKey()) ==> line[0] == line[..|ExecKey()|][0] == 'E';
    assert HasPrefix(line, TryKey()) ==> line[0] == line[..|TryKey()|][0] == 'T';
    assert HasPrefix(line, IconKey()) ==> line[0] == line[..|IconKey()|][0] == 'I';
  }

  lemma Begins(prefix: string, rest: string)
    ensures HasPrefix(prefix + rest, prefix) && (prefix + rest)[|prefix|..] == rest
  {
  }

  /** Two lines that every later pass treats as the same kind. */
  predicate SameKind(a: string, b: string) {
    && IsHeader(a) == IsHeader(b) && (IsHeader(a) ==> a == b)
    && (Trim(a) == EntryHeader() <==> Trim(b) == EntryHeader())
    && HasPrefix(a, ExecKey()) == HasPrefix(b, ExecKey())
    && HasPrefix(a, TryKey()) == HasPrefix(b, TryKey())
    && HasPrefix(a, IconKey()) == HasPrefix(b, IconKey())
  }

  lemma SameKey(a: string, b: string, key: string)
    requires key in {ExecKey(), TryKey(), IconKey()} && HasPrefix(a, key) && HasPrefix(b, key)
    ensures SameKind(a, b)
  {
    assert IsKey(a) && IsKey(b);
    KeysAreNotHeaders(a);
    KeysAreNotHeaders(b);
    OneKeyOnly(a);
    OneKeyOnly(b);
    hide IsHeader, Trim, EntryHeader, ExecKey, TryKey, IconKey, HasPrefix, IsKey;
  }

  lemma PatchedLineIsAlike(p: Launch, g: Group, line: string)
    ensures SameKind(line, PatchedLine(p, g, line))
  {
    hide IsHeader, Trim, EntryHeader, ExecKey, TryKey, IconKey, HasPrefix, IsKey, TailOf, SameKind, ExecCommand,
      StringValue;
    var changed := PatchedLine(p, g, line);
    if changed == line {
      SameKindAsItself(line);
    } else if HasPrefix(line, ExecKey()) {
      Begins(ExecKey(), changed[|ExecKey()|..]);
      Begins(ExecKey(), ExecCommand(p.path, p.entrypoint) + (if TailOf(line) == "" then "" else " " + TailOf(line)));
      SameKey(line, changed, ExecKey());
    } else if HasPrefix(line, TryKey()) {
      Begins(TryKey(), StringValue(p.path));
      SameKey(line, changed, TryKey());
    } else {
      Begins(IconKey(), p.icon.value);
      SameKey(line, changed, IconKey());
    }
  }

  lemma SameKindAsItself(line: string)
    ensures SameKind(line, line)
  {
  }

  lemma TailIsTrimmed(value: string)
    ensures ExecTail(value) == "" || !AsciiSpace(ExecTail(value)[0])
  {
    SkipAsciiShortens(AfterFirst(SkipAscii(value)));
  }

  /** A rewritten `Exec=` keeps what followed the command, so it can be rewritten again. */
  lemma ExecLineKeepsTail(p: Launch, tail: string)
    requires Launchable(p.path, p.entrypoint)
    ensures HasPrefix(ExecLine(p, tail), ExecKey())
    ensures TailOf(ExecLine(p, tail)) == if tail == "" then "" else SkipAscii(tail)
  {
    hide ExecKey, ExecCommand, HasPrefix, ExecTail, WithoutEntrypoint, SkipAscii, Launchable;
    var command := ExecCommand(p.path, p.entrypoint);
    CommandIsSkipped(p.path, p.entrypoint, tail);
    var value := command + (if tail == "" then "" else " " + tail);
    Begins(ExecKey(), value);
    if tail == "" { assert command + "" == command; } else { assert command + (" " + tail) == command + " " + tail; }
  }

  /** A later patch takes over from an earlier one, line by line. */
  lemma LastPatchWinsOnALine(a: Launch, b: Launch, g: Group, line: string)
    requires Launchable(a.path, a.entrypoint) && (a.icon.Some? ==> b.icon.Some?)
    ensures PatchedLine(b, g, PatchedLine(a, g, line)) == PatchedLine(b, g, line)
  {
    PatchedLineIsAlike(a, g, line);
    if HasPrefix(line, ExecKey()) {
      TailIsTrimmed(WithoutEntrypoint(line[|ExecKey()|..]));
      SkipAsciiShortens(TailOf(line));
      ExecLineKeepsTail(a, TailOf(line));
    }
    hide IsHeader, Trim, EntryHeader, ExecKey, TryKey, IconKey, HasPrefix, IsKey, TailOf, Launchable, AsciiSpace,
      ExecLine, TryLine, SkipAscii;
  }
}
