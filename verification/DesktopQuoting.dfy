/** `Exec=` quoting of `crates/onelf-format/src/desktop.rs`, against a reader that follows the
    Desktop Entry Specification, "Possible value types" and "The Exec key". Strings are
    sequences of characters. The scan that the source does over bytes looks for ASCII bytes
    only, so it stops at the same places.
 */
module DesktopQuoting {
  import opened Bytes

  // ---- characters ----------------------------------------------------------------------

  predicate AsciiSpace(c: char) { c as int in {0x20, 0x09, 0x0A, 0x0C, 0x0D} }

  /** `char::is_whitespace`. */
  predicate Space(c: char) {
    var n := c as int;
    || 0x09 <= n <= 0x0D || n in {0x20, 0x85, 0xA0, 0x1680, 0x2028, 0x2029, 0x202F, 0x205F, 0x3000}
    || 0x2000 <= n <= 0x200A
  }

  predicate Reserved(c: char) { Space(c) || c in "\"'\\<>~|&;$*?#()`" }

  /** Escaped with a backslash inside quotes. */
  predicate Special(c: char) { c in "\"`$\\" }

  predicate HasPrefix(s: string, prefix: string) { |prefix| <= |s| && s[..|prefix|] == prefix }

  lemma PrefixStays(a: string, b: string, prefix: string)
    requires HasPrefix(a, prefix)
    ensures HasPrefix(a + b, prefix) && (a + b)[|prefix|..] == a[|prefix|..] + b
  {
    assert (a + b)[..|prefix|] == a[..|prefix|];
  }

  // ---- writing ---------------------------------------------------------------------------

  function Escape(c: char): string {
    if c == '\\' then "\\\\"
    else if c == '\n' then "\\n"
    else if c == '\t' then "\\t"
    else if c == '\r' then "\\r"
    else [c]
  }

  function EscapeAll(s: string): string {
    if s == "" then "" else Escape(s[0]) + EscapeAll(s[1..])
  }

  /** `string_value`: a leading space is escaped as well. */
  function StringValue(s: string): string {
    if s != "" && s[0] == ' ' then "\\s" + EscapeAll(s[1..]) else EscapeAll(s)
  }

  predicate NeedsQuotes(s: string) { s == "" || exists i :: 0 <= i < |s| && Reserved(s[i]) }

  /** One character of an argument, quoted or not. */
  function Piece(quote: bool, c: char): string {
    (if quote && Special(c) then "\\" else "") + (if c == '%' then "%" else "") + [c]
  }

  function Body(quote: bool, s: string): string {
    if s == "" then "" else Piece(quote, s[0]) + Body(quote, s[1..])
  }

  function Field(s: string): string {
    if NeedsQuotes(s) then "\"" + Body(true, s) + "\"" else Body(false, s)
  }

  /** `exec_arg`. */
  function ExecArg(s: string): string { StringValue(Field(s)) }

  // ---- the loops that write ------------------------------------------------------------------

  lemma EscapeFirst(s: string)
    requires s != ""
    ensures EscapeAll(s) == Escape(s[0]) + EscapeAll(s[1..])
  {
  }

  lemma Regroup(a: string, b: string, c: string)
    ensures a + (b + c) == a + b + c
  {
  }

  lemma {:induction false} EscapeAllAdds(a: string, b: string)
    ensures EscapeAll(a + b) == EscapeAll(a) + EscapeAll(b)
  {
    hide Escape;
    if a == "" {
      assert a + b == b;
    } else {
      EscapeFirst(a);
      EscapeFirst(a + b);
      hide EscapeAll;
      assert (a + b)[0] == a[0] && (a + b)[1..] == a[1..] + b;
      EscapeAllAdds(a[1..], b);
      Regroup(Escape(a[0]), EscapeAll(a[1..]), EscapeAll(b));
    }
  }

  lemma BodyOne(quote: bool, s: string)
    requires s != ""
    ensures Body(quote, s) == Piece(quote, s[0]) + Body(quote, s[1..])
  {
  }

  lemma {:induction false} BodyAdds(quote: bool, a: string, b: string)
    ensures Body(quote, a + b) == Body(quote, a) + Body(quote, b)
  {
    if a == "" {
      assert a + b == b;
    } else {
      BodyOne(quote, a + b);
      BodyOne(quote, a);
      hide Piece, Body;
      BodyAdds(quote, a[1..], b);
      assert (a + b)[1..] == a[1..] + b;
      Regroup(Piece(quote, a[0]), Body(quote, a[1..]), Body(quote, b));
    }
  }

  method WriteStringValue(s: string) returns (out: string)
    ensures out == StringValue(s)
  {
    out := "";
    assert EscapeAll("") == "";
    hide EscapeAll;
    for i := 0 to |s|
      invariant out == StringValue(s[..i])
    {
      StepStringValue(s, i);
      match s[i]
      case '\\' => out := out + "\\\\";
      case '\n' => out := out + "\\n";
      case '\t' => out := out + "\\t";
      case '\r' => out := out + "\\r";
      case ' ' => out := out + (if i == 0 then "\\s" else " ");
      case c => out := out + [c];
    }
    assert s[..|s|] == s;
  }

  lemma StepStringValue(s: string, i: nat)
    requires i < |s|
    ensures StringValue(s[..i + 1]) == StringValue(s[..i]) + (if i == 0 && s[0] == ' ' then "\\s" else Escape(s[i]))
  {
    assert EscapeAll([s[i]]) == Escape(s[i]) + EscapeAll("");
    if i == 0 {
      assert s[..1] == [s[0]];
    } else if s[0] == ' ' {
      assert s[..i + 1][1..] == s[..i][1..] + [s[i]];
      EscapeAllAdds(s[..i][1..], [s[i]]);
    } else {
      assert s[..i + 1] == s[..i] + [s[i]];
      EscapeAllAdds(s[..i], [s[i]]);
    }
  }

  method WriteExecArg(s: string) returns (out: string)
    ensures out == ExecArg(s)
  {
    assert Body(true, "") == "" && Body(false, "") == "";
    hide Reserved, Body, Special;
    var quote := s == "";
    for i := 0 to |s|
      invariant quote <==> s == "" || exists k :: 0 <= k < i && Reserved(s[k])
    {
      if Reserved(s[i]) { quote := true; }
    }
    assert quote == NeedsQuotes(s);
    var text := if quote then "\"" else "";
    for i := 0 to |s|
      invariant text == (if quote then "\"" else "") + Body(quote, s[..i])
    {
      StepBody(quote, s, i);
      if quote && Special(s[i]) { text := text + "\\"; }
      if s[i] == '%' { text := text + "%"; }
      text := text + [s[i]];
    }
    assert s[..|s|] == s;
    if quote {
      assert "\"" + Body(true, s) + "\"" == text + "\"";
      text := text + "\"";
    } else {
      assert "" + Body(false, s) == text;
    }
    assert text == Field(s);
    hide Field, Piece;
    out := WriteStringValue(text);
  }

  lemma StepBody(quote: bool, s: string, i: nat)
    requires i < |s|
    ensures Body(quote, s[..i + 1]) == Body(quote, s[..i]) + Piece(quote, s[i])
  {
    assert Body(quote, [s[i]]) == Piece(quote, s[i]) + Body(quote, "");
    assert s[..i + 1] == s[..i] + [s[i]];
    BodyAdds(quote, s[..i], [s[i]]);
  }

  // ---- a reader by the specification ------------------------------------------------------------

  function Prepend(c: char, s: Option<string>): Option<string> {
    match s
    case None => None
    case Some(t) => Some([c] + t)
  }

  /** Undoes the escapes of a string value. */
  function Unescape(s: string): Option<string>
    decreases |s|
  {
    if s == "" then Some("")
    else if s[0] != '\\' then Prepend(s[0], Unescape(s[1..]))
    else if |s| < 2 then None
    else if s[1] == '\\' then Prepend('\\', Unescape(s[2..]))
    else if s[1] == 'n' then Prepend('\n', Unescape(s[2..]))
    else if s[1] == 't' then Prepend('\t', Unescape(s[2..]))
    else if s[1] == 'r' then Prepend('\r', Unescape(s[2..]))
    else if s[1] == 's' then Prepend(' ', Unescape(s[2..]))
    else None
  }

  datatype Argument = Malformed | Argument(text: string, rest: string)

  /** What the specification reserves, and what it has escaped inside quotes. */
  predicate ReservedBySpec(c: char) { c in " \t\n\"'\\><~|&;$*?#()`" }

  predicate EscapedBySpec(c: char) { c in "\"`$\\" }

  function Add(c: char, a: Argument): Argument {
    match a
    case Malformed => Malformed
    case Argument(text, rest) => Argument([c] + text, rest)
  }

  /** A doubled percent sign stands for itself, a single one would be a field code. */
  function ReadQuoted(t: string): Argument
    decreases |t|
  {
    if t == "" then Malformed
    else if t[0] == '"' then Argument("", t[1..])
    else if t[0] == '\\' then if |t| >= 2 && EscapedBySpec(t[1]) then Add(t[1], ReadQuoted(t[2..])) else Malformed
    else if EscapedBySpec(t[0]) then Malformed
    else if t[0] == '%' then if |t| >= 2 && t[1] == '%' then Add('%', ReadQuoted(t[2..])) else Malformed
    else Add(t[0], ReadQuoted(t[1..]))
  }

  function ReadBare(t: string): Argument
    decreases |t|
  {
    if t == "" || t[0] == ' ' then Argument("", t)
    else if ReservedBySpec(t[0]) then Malformed
    else if t[0] == '%' then if |t| >= 2 && t[1] == '%' then Add('%', ReadBare(t[2..])) else Malformed
    else Add(t[0], ReadBare(t[1..]))
  }

  /** The first argument of a command line whose string escapes are undone. */
  function FirstArgument(t: string): Argument {
    if t != "" && t[0] == '"' then ReadQuoted(t[1..])
    else if ReadBare(t).Argument? && ReadBare(t).text == "" then Malformed
    else ReadBare(t)
  }

  // ---- undoing -----------------------------------------------------------------------------------

  /** What stands after something has nothing to do with how it is read. */
  function Following(s: string, rest: Option<string>): Option<string> {
    match rest
    case None => None
    case Some(t) => Some(s + t)
  }

  lemma UnescapeOne(c: char, rest: string)
    ensures Unescape(Escape(c) + rest) == Prepend(c, Unescape(rest))
  {
    var s := Escape(c) + rest;
    if |Escape(c)| == 2 { assert s[2..] == rest; } else { assert s[1..] == rest; }
  }

  lemma OneMore(s: string, rest: Option<string>)
    requires s != ""
    ensures Prepend(s[0], Following(s[1..], rest)) == Following(s, rest)
  {
    if rest.Some? { assert [s[0]] + (s[1..] + rest.value) == s + rest.value; }
  }

  lemma {:induction false} UnescapeOfEscape(s: string, rest: string)
    ensures Unescape(EscapeAll(s) + rest) == Following(s, Unescape(rest))
  {
    if s == "" {
      assert EscapeAll(s) + rest == rest;
      if Unescape(rest).Some? { assert "" + Unescape(rest).value == Unescape(rest).value; }
    } else {
      var tail := EscapeAll(s[1..]) + rest;
      assert EscapeAll(s) + rest == Escape(s[0]) + tail by { hide Escape; }
      UnescapeOne(s[0], tail);
      hide Unescape, Escape, EscapeAll, Following, Prepend;
      UnescapeOfEscape(s[1..], rest);
      OneMore(s, Unescape(rest));
    }
  }

  lemma UnescapeAll(s: string)
    ensures Unescape(EscapeAll(s)) == Some(s)
  {
    UnescapeOfEscape(s, "");
    hide Unescape, EscapeAll;
    assert EscapeAll(s) + "" == EscapeAll(s) && s + "" == s;
    assert Unescape("") == Some("") by { UnescapeNothing(); }
  }

  lemma UnescapeNothing()
    ensures Unescape("") == Some("")
  {
  }

  /** A string key is read back, whatever the string. */
  lemma StringValueIsReadBack(s: string)
    ensures Unescape(StringValue(s)) == Some(s)
  {
    if s != "" && s[0] == ' ' {
      UnescapeAll(s[1..]);
      var text := StringValue(s);
      assert text[0] == '\\' && text[1] == 's' && text[2..] == EscapeAll(s[1..]);
      assert Unescape(text) == Prepend(' ', Unescape(text[2..]));
      assert [' '] + s[1..] == s;
    } else {
      UnescapeAll(s);
    }
  }

  lemma ReadOneQuoted(c: char, rest: string)
    ensures ReadQuoted(Piece(true, c) + rest) == Add(c, ReadQuoted(rest))
  {
    var t := Piece(true, c) + rest;
    if Special(c) {
      assert t[0] == '\\' && t[1] == c && t[2..] == rest;
    } else if c == '%' {
      assert t[2..] == rest;
    } else {
      assert t[0] == c && t[1..] == rest;
    }
  }

  lemma AddFirst(s: string, rest: string)
    requires s != ""
    ensures Add(s[0], Argument(s[1..], rest)) == Argument(s, rest)
  {
  }

  lemma {:induction false} ReadOfQuoted(s: string, rest: string)
    ensures ReadQuoted(Body(true, s) + "\"" + rest) == Argument(s, rest)
  {
    if s == "" {
      assert Body(true, s) + "\"" + rest == "\"" + rest;
    } else {
      hide Piece, Add;
      var tail := Body(true, s[1..]) + "\"" + rest;
      assert Body(true, s) + "\"" + rest == Piece(true, s[0]) + tail;
      ReadOneQuoted(s[0], tail);
      ReadOfQuoted(s[1..], rest);
      AddFirst(s, rest);
    }
  }

  lemma ReadOneBare(c: char, rest: string)
    requires !Reserved(c)
    ensures ReadBare(Piece(false, c) + rest) == Add(c, ReadBare(rest))
  {
    var t := Piece(false, c) + rest;
    if c == '%' {
      assert t[2..] == rest;
    } else {
      assert t[0] == c && t[1..] == rest;
    }
  }

  lemma {:induction false} ReadOfBare(s: string, rest: string)
    requires forall i :: 0 <= i < |s| ==> !Reserved(s[i])
    requires rest == "" || rest[0] == ' '
    ensures ReadBare(Body(false, s) + rest) == Argument(s, rest)
  {
    if s == "" {
      assert Body(false, s) + rest == rest;
    } else {
      var tail := Body(false, s[1..]) + rest;
      assert Body(false, s) + rest == Piece(false, s[0]) + tail by { hide Piece; }
      ReadOneBare(s[0], tail);
      hide Piece, Reserved, ReadBare, Body;
      ReadOfBare(s[1..], rest);
      assert [s[0]] + s[1..] == s;
    }
  }

  predicate Ordinary(c: char) {
    'a' <= c <= 'z' || 'A' <= c <= 'Z' || '0' <= c <= '9' || c in "/._-+:,=@"
  }

  lemma OrdinaryCharacter(c: char)
    requires Ordinary(c)
    ensures !Reserved(c) && Escape(c) == [c] && Piece(false, c) == [c] && c != ' '
  {
  }

  lemma {:induction false} OrdinaryBody(s: string)
    requires forall i :: 0 <= i < |s| ==> Ordinary(s[i])
    ensures Body(false, s) == s && EscapeAll(s) == s
  {
    if s != "" {
      OrdinaryCharacter(s[0]);
      hide Ordinary, Piece, Escape;
      OrdinaryBody(s[1..]);
      assert [s[0]] + s[1..] == s;
    }
  }

  /** A path of ordinary characters is written as it is. */
  lemma OrdinaryIsWrittenAsItIs(s: string)
    requires s != "" && forall i :: 0 <= i < |s| ==> Ordinary(s[i])
    ensures ExecArg(s) == s == StringValue(s)
  {
    OrdinaryBody(s);
    OrdinaryCharacter(s[0]);
    forall i | 0 <= i < |s| ensures !Reserved(s[i]) { OrdinaryCharacter(s[i]); }
    hide Ordinary, Reserved, Body, EscapeAll, Space;
  }

  lemma FieldIsReadBack(s: string, rest: string)
    requires rest == "" || rest[0] == ' '
    ensures FirstArgument(Field(s) + rest) == Argument(s, rest)
  {
    if NeedsQuotes(s) {
      var inner := Body(true, s) + "\"" + rest;
      QuotedField(s, rest);
      ReadOfQuoted(s, rest);
    } else {
      ReadOfBare(s, rest);
      BareStart(s);
      hide Body, ReadBare, Space;
      assert (Field(s) + rest)[0] == Field(s)[0];
    }
  }

  lemma QuotedField(s: string, rest: string)
    requires NeedsQuotes(s)
    ensures var t := Field(s) + rest; t[0] == '"' && t[1..] == Body(true, s) + "\"" + rest
  {
    hide NeedsQuotes, Body;
    assert Field(s) + rest == "\"" + (Body(true, s) + "\"" + rest);
  }

  lemma BareStart(s: string)
    requires !NeedsQuotes(s)
    ensures Field(s) != "" && Field(s)[0] == s[0] && !Reserved(s[0])
  {
  }

  lemma ExecArgIsEscaped(s: string)
    ensures ExecArg(s) == EscapeAll(Field(s)) && Field(s) != "" && !Space(Field(s)[0])
  {
    if !NeedsQuotes(s) { BareStart(s); }
  }

  /** A reader of the specification takes the path, whatever it is, as the first argument of the
      written command, and what was written after it as what follows. */
  lemma ReadersFindThePath(path: string, tail: string)
    requires Unescape(tail).Some? && (tail == "" || tail[0] == ' ')
    ensures Unescape(ExecArg(path) + tail).Some?
    ensures FirstArgument(Unescape(ExecArg(path) + tail).value) == Argument(path, Unescape(tail).value)
  {
    ExecArgIsEscaped(path);
    UnescapeOfEscape(Field(path), tail);
    var rest := Unescape(tail).value;
    assert rest == "" || rest[0] == ' ';
    hide Field, ExecArg, Unescape, FirstArgument;
    FieldIsReadBack(path, rest);
  }
}
