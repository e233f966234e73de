/** Commands in desktop files, from `crates/onelf-format/src/desktop.rs`: what was written for
    one package is skipped as a whole when the same line is written again for another.
 */
module DesktopCommand {
  import opened Bytes
  import opened DesktopQuoting

  // ---- skipping the first argument --------------------------------------------------------

  function SkipAscii(s: string): string {
    if s != "" && AsciiSpace(s[0]) then SkipAscii(s[1..]) else s
  }

  function AfterBare(s: string): string {
    if s != "" && !AsciiSpace(s[0]) then AfterBare(s[1..]) else s
  }

  /** How much a backslash takes with it: the text is still escaped, so two stand for one, which escapes what
      follows. */
  function EscapeWidth(s: string): (n: nat)
    requires |s| >= 2
    ensures 2 <= n <= |s|
  {
    if s[1] != '\\' || |s| == 2 then 2 else if s[2] == '\\' && |s| >= 4 then 4 else 3
  }

  function AfterQuoted(s: string): string
    decreases |s|
  {
    if s == "" then ""
    else if s[0] == '\\' && |s| >= 2 then AfterQuoted(s[EscapeWidth(s)..])
    else if s[0] == '"' then s[1..]
    else AfterQuoted(s[1..])
  }

  function AfterFirst(s: string): string {
    if s != "" && s[0] == '"' then AfterQuoted(s[1..]) else AfterBare(s)
  }

  function ExecTail(value: string): string { SkipAscii(AfterFirst(SkipAscii(value))) }

  method SkipSpaces(s: string, from: nat) returns (i: nat)
    requires from <= |s|
    ensures from <= i <= |s| && s[i..] == SkipAscii(s[from..])
  {
    i := from;
    while i < |s| && AsciiSpace(s[i])
      invariant from <= i <= |s| && SkipAscii(s[i..]) == SkipAscii(s[from..])
    {
      assert s[i..][1..] == s[i + 1..];
      i := i + 1;
    }
  }

  method SkipQuoted(s: string, from: nat) returns (i: nat)
    requires from <= |s|
    ensures from <= i <= |s| && s[i..] == AfterQuoted(s[from..])
  {
    i := from;
    assert AfterQuoted("") == "";
    hide AfterQuoted;
    while i < |s|
      invariant from <= i <= |s| && AfterQuoted(s[i..]) == AfterQuoted(s[from..])
    {
      SkipStep(s, i);
      if s[i] == '\\' && i + 1 < |s| {
        var backslash := s[i + 1] == '\\';
        i := i + 2;
        if backslash && i < |s| {
          i := i + if s[i] == '\\' && i + 1 < |s| then 2 else 1;
        }
      } else if s[i] == '"' {
        i := i + 1;
        return;
      } else {
        i := i + 1;
      }
    }
  }

  lemma SkipStep(s: string, i: nat)
    requires i < |s|
    ensures
      if s[i] == '\\' && i + 1 < |s| then
        var n := if s[i + 1] != '\\' || i + 2 == |s| then 2 else if s[i + 2] == '\\' && i + 3 < |s| then 4 else 3;
        AfterQuoted(s[i..]) == AfterQuoted(s[i + n..])
      else AfterQuoted(s[i..]) == if s[i] == '"' then s[i + 1..] else AfterQuoted(s[i + 1..])
  {
    var t := s[i..];
    assert forall k :: 0 <= k < |t| ==> t[k] == s[i + k];
    assert t[1..] == s[i + 1..];
    if s[i] == '\\' && i + 1 < |s| {
      var n := EscapeWidth(t);
      assert t[n..] == s[i + n..];
    }
  }

  /** `exec_arg_tail`. */
  method ExecArgTail(value: string) returns (tail: string)
    ensures tail == ExecTail(value)
  {
    hide AsciiSpace, AfterQuoted, SkipAscii;
    var i := SkipSpaces(value, 0);
    assert value[0..] == value;
    ghost var start := value[i..];
    if i < |value| && value[i] == '"' {
      assert start[1..] == value[i + 1..];
      i := SkipQuoted(value, i + 1);
    } else {
      while i < |value| && !AsciiSpace(value[i])
        invariant i <= |value| && AfterBare(value[i..]) == AfterBare(start)
      {
        assert value[i..][1..] == value[i + 1..];
        i := i + 1;
      }
    }
    assert value[i..] == AfterFirst(start);
    i := SkipSpaces(value, i);
    tail := value[i..];
  }

  // ---- it skips what was written -----------------------------------------------------------

  predicate Separated(rest: string) { rest == "" || rest[0] == ' ' }

  lemma SkipOnePiece(c: char, rest: string)
    ensures AfterQuoted(EscapeAll(Piece(true, c)) + rest) == AfterQuoted(rest)
  {
    var e := EscapeAll(Piece(true, c));
    var s := e + rest;
    EscapedPiece(c);
    assert s[|e|..] == rest;
    if c == '%' {
      assert s[1..][1..] == rest;
      assert AfterQuoted(s) == AfterQuoted(s[1..]) == AfterQuoted(rest);
    } else if c == '\\' {
      assert EscapeWidth(s) == 4;
    } else if Special(c) {
      assert EscapeWidth(s) == 3;
    } else if |e| == 2 {
      assert EscapeWidth(s) == 2;
    }
  }

  lemma EscapedPiece(c: char)
    ensures var e := EscapeAll(Piece(true, c));
      if c == '\\' then e == "\\\\\\\\"
      else if Special(c) then e == "\\\\" + [c]
      else if c == '%' then e == "%%"
      else if c == '\n' then e == "\\n" else if c == '\t' then e == "\\t" else if c == '\r' then e == "\\r"
      else e == [c]
  {
    assert EscapeAll([c]) == Escape(c) + EscapeAll([c][1..]) == Escape(c);
    if Special(c) {
      assert Piece(true, c)[1..] == [c];
    } else if c == '%' {
      assert Piece(true, c)[1..] == [c];
    } else {
      assert Piece(true, c) == [c];
    }
  }

  lemma {:induction false} SkipBody(s: string, rest: string)
    ensures AfterQuoted(EscapeAll(Body(true, s)) + "\"" + rest) == rest
  {
    if s == "" {
      assert EscapeAll(Body(true, s)) + "\"" + rest == "\"" + rest;
    } else {
      BodyOne(true, s);
      EscapeAllAdds(Piece(true, s[0]), Body(true, s[1..]));
      hide Piece, EscapeAll, Body, AfterQuoted;
      var tail := EscapeAll(Body(true, s[1..])) + "\"" + rest;
      assert EscapeAll(Body(true, s)) + "\"" + rest == EscapeAll(Piece(true, s[0])) + tail;
      SkipOnePiece(s[0], tail);
      SkipBody(s[1..], rest);
    }
  }

  predicate Unquoted(s: string) { forall i :: 0 <= i < |s| ==> !Reserved(s[i]) }

  /** Nothing in an argument without quotes is escaped, or is space. */
  lemma {:induction false} BareBody(s: string)
    requires Unquoted(s)
    ensures EscapeAll(Body(false, s)) == Body(false, s)
    ensures forall i :: 0 <= i < |Body(false, s)| ==> !Space(Body(false, s)[i])
  {
    if s != "" {
      assert !Reserved(s[0]);
      BarePiece(s[0]);
      BodyOne(false, s);
      EscapeAllAdds(Piece(false, s[0]), Body(false, s[1..]));
      assert forall i :: 0 <= i < |s[1..]| ==> s[1..][i] == s[i + 1];
      hide Piece, EscapeAll, Body, Reserved, Space;
      BareBody(s[1..]);
    }
  }

  lemma BarePiece(c: char)
    requires !Reserved(c)
    ensures EscapeAll(Piece(false, c)) == Piece(false, c)
    ensures forall i :: 0 <= i < |Piece(false, c)| ==> !Space(Piece(false, c)[i])
  {
    assert Escape(c) == [c];
    assert EscapeAll([c]) == Escape(c) + EscapeAll([c][1..]) == [c];
    if c == '%' { assert Piece(false, c)[1..] == [c]; }
  }

  lemma {:induction false} SkipBare(s: string, rest: string)
    requires (forall i :: 0 <= i < |s| ==> !Space(s[i])) && Separated(rest)
    ensures AfterBare(s + rest) == rest
  {
    if s == "" {
      assert s + rest == rest;
    } else {
      assert (s + rest)[1..] == s[1..] + rest;
      SkipBare(s[1..], rest);
    }
  }

  /** The two shapes of a written argument: in quotes, or without any space. */
  lemma WrittenShapes(path: string)
    ensures ExecArg(path) == if NeedsQuotes(path) then "\"" + EscapeAll(Body(true, path)) + "\"" else Body(false, path)
    ensures ExecArg(path) != "" && !Space(ExecArg(path)[0])
    ensures !NeedsQuotes(path) ==> ExecArg(path)[0] != '"' && forall i :: 0 <= i < |ExecArg(path)| ==>
      !Space(ExecArg(path)[i])
  {
    ExecArgIsEscaped(path);
    if NeedsQuotes(path) {
      EscapeAllAdds("\"" + Body(true, path), "\"");
      EscapeAllAdds("\"", Body(true, path));
      assert EscapeAll("\"") == Escape('"') + EscapeAll("") == "\"";
    } else {
      BareBody(path);
      BareStart(path);
    }
  }

  lemma QuotedIsSkipped(text: string, rest: string)
    requires AfterQuoted(text + "\"" + rest) == rest
    ensures AfterFirst("\"" + text + "\"" + rest) == rest
  {
    hide AfterQuoted;
    assert "\"" + text + "\"" + rest == "\"" + (text + "\"" + rest);
  }

  lemma ArgumentIsSkipped(path: string, rest: string)
    requires Separated(rest)
    ensures AfterFirst(ExecArg(path) + rest) == rest
  {
    WrittenShapes(path);
    hide EscapeAll, ExecArg, Space, AfterQuoted, AfterBare, NeedsQuotes, Body, Reserved, Separated;
    if NeedsQuotes(path) {
      SkipBody(path, rest);
      QuotedIsSkipped(EscapeAll(Body(true, path)), rest);
    } else {
      SkipBare(ExecArg(path), rest);
      assert (ExecArg(path) + rest)[0] == ExecArg(path)[0];
    }
  }

  /** What follows a written path is found again, whatever the path: without leading blanks, and
      so unchanged exactly if it does not start with one. */
  lemma TailIsFound(path: string, t: string)
    ensures ExecTail(ExecArg(path) + " " + t) == SkipAscii(t)
    ensures ExecTail(ExecArg(path) + " " + t) == t <==> t == "" || !AsciiSpace(t[0])
    ensures ExecTail(ExecArg(path)) == ""
  {
    WrittenShapes(path);
    hide ExecArg, EscapeAll, Body, NeedsQuotes, AfterFirst, Space;
    assert !AsciiSpace(ExecArg(path)[0]) by { AsciiIsSpace(ExecArg(path)[0]); }
    var rest := " " + t;
    assert ExecArg(path) + " " + t == ExecArg(path) + rest && ExecArg(path) + "" == ExecArg(path);
    ArgumentIsSkipped(path, rest);
    ArgumentIsSkipped(path, "");
    assert rest[1..] == t;
    SkipAsciiShortens(t);
  }

  lemma AsciiIsSpace(c: char)
    ensures AsciiSpace(c) ==> Space(c)
  {
  }

  lemma {:induction false} SkipAsciiShortens(t: string)
    ensures |SkipAscii(t)| <= |t|
    ensures SkipAscii(t) == t <==> t == "" || !AsciiSpace(t[0])
    ensures SkipAscii(t) == "" || !AsciiSpace(SkipAscii(t)[0])
  {
    if t != "" && AsciiSpace(t[0]) { SkipAsciiShortens(t[1..]); }
  }

  // ---- the entrypoint in front ----------------------------------------------------------------

  function Variable(): string { "ONELF_ENTRYPOINT" }

  function Env(): string { "env " }

  function TrimStart(s: string): string {
    if s != "" && Space(s[0]) then TrimStart(s[1..]) else s
  }

  /** The first run of characters that are not white space, in a string that starts with one. */
  function Token(s: string): string {
    if s == "" || Space(s[0]) then "" else [s[0]] + Token(s[1..])
  }

  lemma {:induction false} TokenIsPrefix(s: string)
    ensures HasPrefix(s, Token(s))
  {
    if s != "" && !Space(s[0]) {
      TokenIsPrefix(s[1..]);
      assert s[..|Token(s)|] == [s[0]] + s[1..][..|Token(s)| - 1];
    }
  }

  function TrimQuotes(s: string): string {
    if s != "" && s[0] == '"' then TrimQuotes(s[1..]) else s
  }

  /** `without_entrypoint_prefix`. */
  function WithoutEntrypoint(value: string): string {
    if !HasPrefix(value, Env()) then value
    else
      var rest := TrimStart(value[|Env()|..]);
      var token := Token(rest);
      TokenIsPrefix(rest);
      if HasPrefix(TrimQuotes(token), Variable()) then TrimStart(rest[|token|..]) else value
  }

  function Assignment(name: string): string { Variable() + "=" + name }

  /** `exec_command`. */
  function ExecCommand(path: string, entrypoint: Option<string>): string {
    match entrypoint
    case None => ExecArg(path)
    case Some(name) => Env() + ExecArg(Assignment(name)) + " " + ExecArg(path)
  }

  predicate SpaceFree(s: string) { forall i :: 0 <= i < |s| ==> !Space(s[i]) }

  /** White space that is not written as a backslash escape would end the word. */
  predicate OneWord(s: string) { forall i :: 0 <= i < |s| && Space(s[i]) ==> s[i] in "\t\n\r" }

  /** The commands that the source recognises again whatever follows: the name of the entrypoint
      is written as one word, and a path alone is not the word that a prefix would start with. */
  predicate Launchable(path: string, entrypoint: Option<string>) {
    match entrypoint
    case None => path != "env"
    case Some(name) => OneWord(name)
  }

  lemma {:induction false} TokenOfWord(word: string, rest: string)
    requires SpaceFree(word) && (rest == "" || Space(rest[0]))
    ensures Token(word + rest) == word
  {
    if word == "" {
      assert word + rest == rest;
    } else {
      assert (word + rest)[1..] == word[1..] + rest;
      TokenOfWord(word[1..], rest);
    }
  }

  lemma PieceIsSpaceFree(c: char)
    ensures SpaceFree(EscapeAll(Piece(true, c))) <==> Space(c) ==> c in "\t\n\r"
    ensures var e := EscapeAll(Piece(true, c));
      e != "" && e[0] != '"' && forall i :: 0 < i < |e| && e[i] == '"' ==> e[i - 1] == '\\'
  {
    EscapedPiece(c);
    assert !Space('\\') && !Space('%') && !Space('n') && !Space('t') && !Space('r');
    var e := EscapeAll(Piece(true, c));
    assert Special(c) ==> !Space(c);
    hide Space, EscapeAll, Piece;
    if e == [c] || e == "%%" { assert e[0] == c; }
  }

  /** A name stays one word in quotes exactly if its white space is written as escapes. */
  lemma {:induction false} BodyIsSpaceFree(s: string)
    ensures SpaceFree(EscapeAll(Body(true, s))) <==> OneWord(s)
  {
    if s != "" {
      PieceIsSpaceFree(s[0]);
      BodyOne(true, s);
      EscapeAllAdds(Piece(true, s[0]), Body(true, s[1..]));
      hide Piece, EscapeAll, Body, Space;
      BodyIsSpaceFree(s[1..]);
      SpaceFreeParts(EscapeAll(Piece(true, s[0])), EscapeAll(Body(true, s[1..])));
      OneWordParts(s);
    }
  }

  lemma SpaceFreeParts(a: string, b: string)
    ensures SpaceFree(a + b) <==> SpaceFree(a) && SpaceFree(b)
  {
    hide Space;
    assert forall i :: 0 <= i < |a| ==> (a + b)[i] == a[i];
    assert forall i :: 0 <= i < |b| ==> (a + b)[|a| + i] == b[i];
  }

  lemma OneWordParts(s: string)
    requires s != ""
    ensures OneWord(s) <==> (Space(s[0]) ==> s[0] in "\t\n\r") && OneWord(s[1..])
  {
    hide Space;
    assert forall i :: 0 <= i < |s[1..]| ==> s[1..][i] == s[i + 1];
  }

  predicate Ordinary(c: char) { 'A' <= c <= 'Z' || c == '_' }

  predicate AllOrdinary(v: string) { forall i :: 0 <= i < |v| ==> Ordinary(v[i]) }

  lemma OrdinaryIsItself(quote: bool, c: char)
    requires Ordinary(c)
    ensures Piece(quote, c) == [c] && Escape(c) == [c]
  {
  }

  lemma FirstOf(v: string, rest: string)
    requires v != ""
    ensures v + rest != "" && (v + rest)[0] == v[0] && (v + rest)[1..] == v[1..] + rest &&
      [v[0]] + (v[1..] + rest) == v + rest
  {
  }

  lemma {:induction false} OrdinaryBody(quote: bool, v: string, rest: string)
    requires AllOrdinary(v)
    ensures Body(quote, v + rest) == v + Body(quote, rest)
  {
    if v == "" {
      assert v + rest == rest;
    } else {
      FirstOf(v, rest);
      FirstOf(v, Body(quote, rest));
      BodyOne(quote, v + rest);
      OrdinaryIsItself(quote, v[0]);
      hide Piece, Body, Ordinary;
      OrdinaryBody(quote, v[1..], rest);
    }
  }

  lemma {:induction false} OrdinaryEscape(v: string, rest: string)
    requires AllOrdinary(v)
    ensures EscapeAll(v + rest) == v + EscapeAll(rest)
  {
    if v == "" {
      assert v + rest == rest;
    } else {
      FirstOf(v, rest);
      FirstOf(v, EscapeAll(rest));
      EscapeOne(v + rest);
      OrdinaryIsItself(false, v[0]);
      hide Escape, EscapeAll, Ordinary;
      OrdinaryEscape(v[1..], rest);
    }
  }

  lemma EscapeOne(s: string)
    requires s != ""
    ensures EscapeAll(s) == Escape(s[0]) + EscapeAll(s[1..])
  {
  }

  lemma VariableStarts(quote: bool, name: string)
    ensures HasPrefix(EscapeAll(Body(quote, Variable() + "=" + name)), Variable())
  {
    assert AllOrdinary(Variable());
    hide Body, EscapeAll, Variable, AllOrdinary;
    OrdinaryBody(quote, Variable(), "=" + name);
    OrdinaryEscape(Variable(), Body(quote, "=" + name));
    assert Variable() + "=" + name == Variable() + ("=" + name);
  }

  lemma QuoteIsTrimmed(inner: string)
    requires HasPrefix(inner, Variable())
    ensures HasPrefix(TrimQuotes(inner), Variable()) && HasPrefix(TrimQuotes("\"" + inner + "\""), Variable())
  {
    assert inner[0] == Variable()[0] == 'O';
    assert |Variable()| > 0;
    hide Variable;
    assert ("\"" + inner + "\"")[1..] == inner + "\"";
    PrefixStays(inner, "\"", Variable());
  }

  lemma Enclosed(text: string)
    requires SpaceFree(text) && !Space('"')
    ensures SpaceFree("\"" + text + "\"")
  {
    hide Space;
  }

  lemma UnquotedIsBare(s: string)
    requires !NeedsQuotes(s)
    ensures EscapeAll(Body(false, s)) == Body(false, s)
  {
    BareBody(s);
  }

  lemma AssignmentIsOneWord(name: string)
    ensures OneWord(Assignment(name)) <==> OneWord(name)
    ensures !Space('"')
  {
    assert SpaceFree(Variable()) && !Space('=');
    hide Space, Variable;
    var v := Variable() + "=";
    assert forall i :: 0 <= i < |v| ==> !Space(v[i]);
    assert Assignment(name) == v + name;
    forall i | 0 <= i < |name| ensures Assignment(name)[|v| + i] == name[i] {}
  }

  lemma VariableIsOneWord(name: string)
    requires OneWord(name)
    ensures var word := ExecArg(Assignment(name));
      SpaceFree(word) && word != "" && HasPrefix(TrimQuotes(word), Variable())
  {
    var s := Assignment(name);
    AssignmentIsOneWord(name);
    WrittenShapes(s);
    VariableStarts(NeedsQuotes(s), name);
    var text := EscapeAll(Body(NeedsQuotes(s), s));
    QuoteIsTrimmed(text);
    if NeedsQuotes(s) {
      BodyIsSpaceFree(s);
      Enclosed(text);
    } else {
      UnquotedIsBare(s);
      hide ExecArg, Space, Body, EscapeAll, TrimQuotes, HasPrefix, NeedsQuotes, Variable;
    }
  }

  lemma StartsTrimmed(s: string, rest: string)
    requires s != "" && !Space(s[0])
    ensures TrimStart(s + rest) == s + rest && TrimStart(" " + (s + rest)) == s + rest
  {
    BlankIsSpace();
    hide Space;
    assert (s + rest)[0] == s[0] && (" " + (s + rest))[1..] == s + rest;
  }

  lemma BlankIsSpace()
    ensures Space(' ')
  {
  }

  lemma WordIsTakenOff(word: string, after: string)
    requires SpaceFree(word) && word != "" && HasPrefix(TrimQuotes(word), Variable())
    requires after != "" && Space(after[0])
    ensures WithoutEntrypoint(Env() + (word + after)) == TrimStart(after)
  {
    assert !Space(word[0]);
    hide Space, TrimQuotes, Variable, Env;
    var value := Env() + (word + after);
    assert value[..|Env()|] == Env() && value[|Env()|..] == word + after;
    StartsTrimmed(word, after);
    TokenOfWord(word, after);
    hide TrimStart, Token, SpaceFree;
    assert (word + after)[|word|..] == after;
  }

  lemma CommandShape(word: string, arg: string, rest: string)
    ensures Env() + word + " " + arg + rest == Env() + (word + (" " + (arg + rest)))
  {
    hide Env;
  }

  /** The prefix of a command for a named entrypoint is taken off. */
  lemma PrefixIsTakenOff(path: string, name: string, rest: string)
    requires OneWord(name)
    ensures WithoutEntrypoint(ExecCommand(path, Some(name)) + rest) == ExecArg(path) + rest
  {
    WrittenShapes(path);
    VariableIsOneWord(name);
    BlankIsSpace();
    hide ExecArg, EscapeAll, Body, NeedsQuotes, TrimQuotes, Space, SpaceFree, OneWord, TrimStart, WithoutEntrypoint,
      HasPrefix, Env, Assignment;
    var word, arg := ExecArg(Assignment(name)), ExecArg(path);
    CommandShape(word, arg, rest);
    StartsTrimmed(arg, rest);
    WordIsTakenOff(word, " " + (arg + rest));
  }

  lemma EnvWord(path: string)
    requires !NeedsQuotes(path) && Body(false, path) == "env"
    ensures path == "env"
  {
    ReadOfBare(path, "");
    EnvBody();
    EnvIsUnreserved();
    ReadOfBare("env", "");
  }

  lemma EnvBody()
    ensures Body(false, "env") == "env"
  {
    assert Body(false, "v") == Piece(false, 'v') + Body(false, "") == "v";
    assert "nv"[1..] == "v" && "env"[1..] == "nv";
    assert Body(false, "nv") == Piece(false, 'n') + Body(false, "v") == "nv";
    assert Body(false, "env") == Piece(false, 'e') + Body(false, "nv") == "env";
  }

  lemma EnvIsUnreserved()
    ensures Unquoted("env") && !NeedsQuotes("env")
  {
  }

  lemma StartsWithEnv(path: string, rest: string)
    requires Separated(rest) && HasPrefix(ExecArg(path) + rest, Env())
    ensures path == "env"
  {
    WrittenShapes(path);
    BlankIsSpace();
    var arg, value := ExecArg(path), ExecArg(path) + rest;
    hide ExecArg, EscapeAll, Body, Space;
    assert value[..4] == "env " && value[0] == 'e' && value[1] == 'n' && value[2] == 'v' && value[3] == ' ';
    assert arg[0] == value[0];
    assert !NeedsQuotes(path);
    hide NeedsQuotes;
    assert forall i :: 0 <= i < |arg| ==> value[i] == arg[i];
    assert |arg| <= 3;
    assert value[|arg|] == rest[0];
    assert |arg| == 3 && arg == "env";
    EnvWord(path);
  }

  /** A command without one is left alone. */
  lemma NoPrefixToTakeOff(path: string, rest: string)
    requires path != "env" && Separated(rest)
    ensures WithoutEntrypoint(ExecArg(path) + rest) == ExecArg(path) + rest
  {
    hide ExecArg, Env;
    if HasPrefix(ExecArg(path) + rest, Env()) { StartsWithEnv(path, rest); }
  }

  /** Whatever command was written, writing over it finds what follows the path. */
  lemma CommandIsSkipped(path: string, entrypoint: Option<string>, t: string)
    requires Launchable(path, entrypoint)
    ensures ExecTail(WithoutEntrypoint(ExecCommand(path, entrypoint) + " " + t)) == SkipAscii(t)
    ensures ExecTail(WithoutEntrypoint(ExecCommand(path, entrypoint))) == ""
  {
    hide ExecArg, OneWord, WithoutEntrypoint, ExecTail, Env, Assignment;
    var command, rest := ExecCommand(path, entrypoint), " " + t;
    assert command + " " + t == command + rest && command + "" == command;
    assert ExecArg(path) + " " + t == ExecArg(path) + rest && ExecArg(path) + "" == ExecArg(path);
    match entrypoint {
      case None =>
        NoPrefixToTakeOff(path, rest);
        NoPrefixToTakeOff(path, "");
      case Some(name) =>
        PrefixIsTakenOff(path, name, rest);
        PrefixIsTakenOff(path, name, "");
    }
    TailIsFound(path, t);
  }

  // ---- exactly when what follows is found ----------------------------------------------------

  lemma {:induction false} AfterQuotedShortens(s: string)
    requires s != ""
    ensures |AfterQuoted(s)| < |s|
    decreases |s|
  {
    var rest := if s[0] == '\\' && |s| >= 2 then s[EscapeWidth(s)..] else s[1..];
    if rest != "" { AfterQuotedShortens(rest); }
  }

  lemma {:induction false} AfterBareShortens(s: string)
    ensures |AfterBare(s)| <= |s|
  {
    if s != "" && !AsciiSpace(s[0]) { AfterBareShortens(s[1..]); }
  }

  lemma ExecTailShortens(value: string)
    ensures |ExecTail(value)| <= |value|
  {
    hide SkipAscii, AfterBare, AfterQuoted;
    var s := SkipAscii(value);
    SkipAsciiShortens(value);
    AfterBareShortens(s);
    if s != "" && s[1..] != "" { AfterQuotedShortens(s[1..]); }
    assert AfterQuoted("") == "" by { AfterQuotedNothing(); }
    SkipAsciiShortens(AfterFirst(s));
  }

  lemma AfterQuotedNothing()
    ensures AfterQuoted("") == ""
  {
  }

  lemma {:induction false} TrimStartShortens(t: string)
    ensures |TrimStart(t)| <= |SkipAscii(t)|
  {
    if t != "" {
      AsciiIsSpace(t[0]);
      hide AsciiSpace, Space;
      if AsciiSpace(t[0]) { TrimStartShortens(t[1..]); } else { TrimStartIsShorter(t); }
    }
  }

  lemma {:induction false} TrimStartIsShorter(t: string)
    ensures |TrimStart(t)| <= |t|
  {
    if t != "" && Space(t[0]) { TrimStartIsShorter(t[1..]); }
  }

  /** A path that is the word `env` alone: what follows is found exactly if its first word does not name the
      variable. */
  lemma EnvExactly(t: string)
    ensures ExecTail(WithoutEntrypoint(ExecCommand("env", None) + " " + t)) == SkipAscii(t)
      <==> !HasPrefix(TrimQuotes(Token(TrimStart(t))), Variable())
  {
    EnvIsItself();
    EnvText();
    TailIsFound("env", t);
    var rest := TrimStart(t);
    var token := Token(rest);
    TokenIsPrefix(rest);
    NoWordIsNoPrefix(token);
    hide ExecArg, ExecTail, TrimStart, TrimQuotes, Token, Variable, Env, SkipAscii;
    assert "env" + " " + t == Env() + t;
    Begun(Env(), t);
    if HasPrefix(TrimQuotes(token), Variable()) {
      var after := TrimStart(rest[|token|..]);
      assert WithoutEntrypoint(Env() + t) == after;
      ExecTailShortens(after);
      TrimStartIsShorter(rest[|token|..]);
      TrimStartShortens(t);
    }
  }

  lemma Begun(prefix: string, rest: string)
    ensures HasPrefix(prefix + rest, prefix) && (prefix + rest)[|prefix|..] == rest
  {
  }

  lemma NoWordIsNoPrefix(token: string)
    ensures HasPrefix(TrimQuotes(token), Variable()) ==> token != ""
  {
    assert TrimQuotes("") == "";
  }

  /** A path that is the word `env` loses arguments that name the variable. */
  lemma EnvMayBeLost()
    ensures ExecTail(WithoutEntrypoint(ExecCommand("env", None) + " " + Variable())) != SkipAscii(Variable())
  {
    VariableAlone();
    hide Variable, ExecCommand, ExecTail, WithoutEntrypoint, SkipAscii;
    EnvExactly(Variable());
  }

  lemma VariableAlone()
    ensures HasPrefix(TrimQuotes(Token(TrimStart(Variable()))), Variable())
  {
    assert SpaceFree(Variable()) && Variable() + "" == Variable();
    TokenOfWord(Variable(), "");
    assert TrimStart(Variable()) == Variable() && TrimQuotes(Variable()) == Variable();
    assert Variable()[..|Variable()|] == Variable();
  }

  lemma EnvText()
    ensures "env" + " " == Env()
  {
  }

  lemma EnvIsItself()
    ensures ExecArg("env") == "env"
  {
    EnvIsUnreserved();
    EnvBody();
    WrittenShapes("env");
  }

  // ---- a name that is not one word -------------------------------------------------------------

  /** Inside quotes every quote follows a backslash. */
  predicate QuotesEscaped(e: string) { forall i :: 0 <= i < |e| && e[i] == '"' ==> i > 0 && e[i - 1] == '\\' }

  lemma QuotesEscapedParts(a: string, b: string)
    requires QuotesEscaped(a) && QuotesEscaped(b)
    ensures QuotesEscaped(a + b)
  {
    forall i | 0 <= i < |a + b| && (a + b)[i] == '"' ensures i > 0 && (a + b)[i - 1] == '\\' {
      if i >= |a| { assert b[i - |a|] == '"'; }
    }
  }

  lemma {:induction false} BodyEscapesQuotes(s: string)
    ensures QuotesEscaped(EscapeAll(Body(true, s)))
  {
    if s != "" {
      PieceIsSpaceFree(s[0]);
      BodyOne(true, s);
      EscapeAllAdds(Piece(true, s[0]), Body(true, s[1..]));
      hide Piece, EscapeAll, Body, Space, SpaceFree;
      BodyEscapesQuotes(s[1..]);
      QuotesEscapedParts(EscapeAll(Piece(true, s[0])), EscapeAll(Body(true, s[1..])));
    }
  }

  lemma {:induction false} TokenSplits(w: string)
    ensures |Token(w)| <= |w| && Token(w) == w[..|Token(w)|] && SpaceFree(Token(w))
    ensures |Token(w)| < |w| ==> Space(w[|Token(w)|])
  {
    if w != "" && !Space(w[0]) {
      hide Space;
      TokenSplits(w[1..]);
      assert w == [w[0]] + w[1..];
    }
  }

  /** Where the blanks at the start of a string end. */
  lemma {:induction false} TrimmedAt(s: string) returns (j: nat)
    ensures j <= |s| && TrimStart(s) == s[j..] && (j > 0 ==> Space(s[j - 1])) && (j < |s| ==> !Space(s[j]))
    ensures s != "" && Space(s[0]) ==> j > 0
  {
    j := 0;
    if s != "" && Space(s[0]) {
      hide Space;
      var k := TrimmedAt(s[1..]);
      j := k + 1;
    }
  }

  lemma {:induction false} TrimStartOfTwo(a: string, b: string)
    requires TrimStart(a) != ""
    ensures TrimStart(a + b) == TrimStart(a) + b
  {
    hide Space;
    assert (a + b)[0] == a[0] && (a + b)[1..] == a[1..] + b;
    if Space(a[0]) { TrimStartOfTwo(a[1..], b); }
  }

  /** What is left of a quoted word once its first token is gone starts with no quote, unless it is the closing one. */
  lemma RestOfWord(e: string) returns (word: string, after: string)
    requires QuotesEscaped(e) && !SpaceFree(e)
    ensures "\"" + e + "\"" == word + after && SpaceFree(word) && word != "" && after != "" && Space(after[0])
    ensures var u := TrimStart(after); u != "" && !Space(u[0]) && (u[0] == '"' ==> u == "\"")
  {
    assert !Space('"') && !Space('\\');
    hide Space;
    var w := "\"" + e + "\"";
    TokenSplits(w);
    word, after := Token(w), w[|Token(w)|..];
    assert after != "" by { SpaceFreeParts("\"", e); SpaceFreeParts("\"" + e, "\""); }
    var j := TrimmedAt(after);
    var k := |word| + j;
    assert after[|after| - 1] == w[|w| - 1] == '"';
    assert w[|word|] == after[0];
    assert w[k - 1] == after[j - 1];
    assert j < |after|;
    assert w[k] == after[j] && TrimStart(after) == w[k..];
    QuoteInside(e, k);
  }

  lemma QuoteInside(e: string, k: nat)
    requires QuotesEscaped(e) && 0 < k < |e| + 2
    ensures var w := "\"" + e + "\""; w[k] == '"' ==> w[k - 1] == '\\' || w[k..] == "\""
  {
    var w := "\"" + e + "\"";
    if k <= |e| {
      assert w[k] == e[k - 1];
      if k > 1 { assert w[k - 1] == e[k - 2]; }
    } else {
      assert w[k..] == "\"";
    }
  }

  lemma FirstWordNames(e: string, word: string, after: string)
    requires HasPrefix(e, Variable()) && "\"" + e + "\"" == word + after && after != "" && Space(after[0]) && word != ""
    ensures HasPrefix(TrimQuotes(word), Variable())
  {
    assert SpaceFree(Variable()) && !Space('"') && Variable()[0] == 'O';
    hide Space;
    var w, n := "\"" + e + "\"", |Variable()|;
    assert w[|word|] == after[0];
    forall i | 0 <= i <= n ensures !Space(w[i]) {
      if i > 0 { assert w[i] == e[i - 1] == e[..n][i - 1]; }
    }
    assert |word| > n;
    assert word[0] == w[0] == '"';
    assert word[1] == w[1] == e[0] == e[..n][0];
    hide Variable;
    assert TrimQuotes(word) == word[1..];
    assert word[1..][..n] == w[1..][..n] == e[..n];
  }

  lemma {:induction false} SkipAsciiKeeps(a: string, b: string)
    requires b != "" && !AsciiSpace(b[0])
    ensures |SkipAscii(a + b)| >= |b|
  {
    hide AsciiSpace;
    if a == "" {
      assert a + b == b;
    } else {
      assert (a + b)[0] == a[0] && (a + b)[1..] == a[1..] + b;
      SkipAsciiKeeps(a[1..], b);
    }
  }

  lemma {:induction false} AfterBareKeeps(a: string, b: string) returns (c: string)
    requires b != "" && AsciiSpace(b[0])
    ensures AfterBare(a + b) == c + b
  {
    hide AsciiSpace;
    if a == "" {
      assert a + b == b == "" + b;
      c := "";
    } else {
      assert (a + b)[0] == a[0] && (a + b)[1..] == a[1..] + b;
      if AsciiSpace(a[0]) { c := a; } else { c := AfterBareKeeps(a[1..], b); }
    }
  }

  predicate Plain(s: string) { '"' !in s && '\\' !in s }

  lemma {:induction false} PlainIsPassed(a: string, b: string)
    requires Plain(a)
    ensures AfterQuoted(a + b) == AfterQuoted(b)
  {
    if a == "" {
      assert a + b == b;
    } else {
      assert (a + b)[0] == a[0] && (a + b)[1..] == a[1..] + b;
      PlainIsPassed(a[1..], b);
    }
  }

  lemma {:induction false} BareIsPlain(s: string)
    requires Unquoted(s)
    ensures Plain(Body(false, s))
  {
    if s != "" {
      assert !Reserved(s[0]);
      BodyOne(false, s);
      BareIsPlain(s[1..]);
    }
  }

  lemma {:induction false} BlanksArePassed(t: string)
    ensures AfterQuoted(t) == AfterQuoted(SkipAscii(t))
  {
    if t != "" && AsciiSpace(t[0]) { BlanksArePassed(t[1..]); }
  }

  /** What starts with part of a word is skipped instead of the path, or more than the path is. */
  lemma PathIsNotSkipped(u: string, path: string, t: string)
    requires u != "" && !Space(u[0]) && (u[0] == '"' ==> u == "\"") && SkipAscii(t) != ""
    ensures ExecTail(u + (" " + (ExecArg(path) + (" " + t)))) != SkipAscii(t)
  {
    WrittenShapes(path);
    AsciiIsSpace(u[0]);
    AsciiIsSpace(ExecArg(path)[0]);
    assert AsciiSpace(' ') && !AsciiSpace('"');
    SkipAsciiShortens(t);
    var arg := ExecArg(path) + (" " + t);
    var rest := " " + arg;
    assert arg[0] == ExecArg(path)[0] && (u + rest)[0] == u[0];
    assert SkipAscii(u + rest) == u + rest;
    if u[0] != '"' {
      hide AsciiSpace, Space, SkipAscii, ExecArg, NeedsQuotes, Body, EscapeAll;
      var c := AfterBareKeeps(u, rest);
      assert c + rest == (c + " ") + arg;
      SkipAsciiKeeps(c + " ", arg);
    } else {
      assert u + rest == "\"" + rest && (u + rest)[1..] == rest;
      hide AsciiSpace, Space, ExecArg, Body, EscapeAll;
      if NeedsQuotes(path) { QuoteOpensThere(path, t); } else { QuoteIsNotClosed(path, t); }
    }
  }

  lemma QuoteOpensThere(path: string, t: string)
    requires NeedsQuotes(path)
    ensures |SkipAscii(AfterQuoted(" " + (ExecArg(path) + (" " + t))))| > |t|
  {
    WrittenShapes(path);
    assert !AsciiSpace('"');
    var e := EscapeAll(Body(true, path));
    var last := "\" " + t;
    hide EscapeAll, Body, ExecArg, AsciiSpace, NeedsQuotes, AfterQuoted, SkipAscii;
    QuotedText(e, t);
    FirstQuote(e + last);
    SkipAsciiKeeps(e, last);
  }

  lemma QuotedText(e: string, t: string)
    ensures "\"" + e + "\"" + (" " + t) == "\"" + (e + ("\" " + t))
  {
    assert "\"" + (" " + t) == "\" " + t;
    Regroup("\"" + e, "\"", " " + t);
    Regroup("\"", e, "\" " + t);
  }

  lemma FirstQuote(rest: string)
    ensures AfterQuoted(" " + ("\"" + rest)) == rest
  {
    assert (" " + ("\"" + rest))[1..] == "\"" + rest && ("\"" + rest)[1..] == rest;
  }

  lemma QuoteIsNotClosed(path: string, t: string)
    requires !NeedsQuotes(path) && SkipAscii(t) != ""
    ensures |SkipAscii(AfterQuoted(" " + (ExecArg(path) + (" " + t))))| < |SkipAscii(t)|
  {
    WrittenShapes(path);
    BareIsPlain(path);
    hide AfterQuoted, SkipAscii, ExecArg, Body, NeedsQuotes, Space, EscapeAll;
    PlainArgument(ExecArg(path), t);
    PlainIsPassed(" " + ExecArg(path) + " ", t);
    BlanksArePassed(t);
    AfterQuotedShortens(SkipAscii(t));
    SkipAsciiShortens(AfterQuoted(t));
  }

  lemma CutWord(name: string) returns (word: string, after: string)
    requires !OneWord(name)
    ensures ExecArg(Assignment(name)) == word + after && after != "" && Space(after[0])
    ensures SpaceFree(word) && word != "" && HasPrefix(TrimQuotes(word), Variable())
    ensures var u := TrimStart(after); u != "" && !Space(u[0]) && (u[0] == '"' ==> u == "\"")
  {
    var s := Assignment(name);
    AssignmentIsOneWord(name);
    hide ExecArg, EscapeAll, Body, TrimQuotes, Space, SpaceFree, TrimStart, HasPrefix, QuotesEscaped, OneWord, Variable;
    QuotedName(s);
    VariableStarts(true, name);
    BodyEscapesQuotes(s);
    BodyIsSpaceFree(s);
    hide Assignment;
    word, after := RestOfWord(EscapeAll(Body(true, s)));
    FirstWordNames(EscapeAll(Body(true, s)), word, after);
  }

  lemma PlainArgument(arg: string, t: string)
    requires Plain(arg)
    ensures Plain(" " + arg + " ") && " " + (arg + (" " + t)) == " " + arg + " " + t
  {
    Regroup(" ", arg, " " + t);
    Regroup(" " + arg, " ", t);
  }

  /** A name with other white space: the first token is not all of its word. */
  lemma NameIsCut(name: string, rest: string) returns (u: string)
    requires !OneWord(name)
    ensures WithoutEntrypoint(Env() + (ExecArg(Assignment(name)) + (" " + rest))) == u + (" " + rest)
    ensures u != "" && !Space(u[0]) && (u[0] == '"' ==> u == "\"")
  {
    hide ExecArg, TrimQuotes, Space, SpaceFree, TrimStart, WithoutEntrypoint, HasPrefix, Env, OneWord, Variable,
      Assignment;
    var word, after := CutWord(name);
    u := TrimStart(after);
    Regroup(word, after, " " + rest);
    WordIsTakenOff(word, after + (" " + rest));
    TrimStartOfTwo(after, " " + rest);
  }

  lemma NothingIsFound(path: string, name: string, t: string)
    requires !OneWord(name) && SkipAscii(t) != ""
    ensures ExecTail(WithoutEntrypoint(ExecCommand(path, Some(name)) + " " + t)) != SkipAscii(t)
  {
    hide ExecArg, OneWord, Space, WithoutEntrypoint, ExecTail, SkipAscii, Env, Assignment;
    var rest := ExecArg(path) + (" " + t);
    var u := NameIsCut(name, rest);
    CommandParts(ExecArg(Assignment(name)), ExecArg(path), t);
    PathIsNotSkipped(u, path, t);
  }

  lemma QuotedName(s: string)
    requires !OneWord(s)
    ensures ExecArg(s) == "\"" + EscapeAll(Body(true, s)) + "\""
  {
    var i :| 0 <= i < |s| && Space(s[i]) && s[i] !in "\t\n\r";
    assert Reserved(s[i]);
    WrittenShapes(s);
  }

  lemma CommandParts(word: string, arg: string, t: string)
    ensures Env() + word + " " + arg + " " + t == Env() + (word + (" " + (arg + (" " + t))))
  {
    hide Env;
    CommandShape(word, arg, " " + t);
    assert Env() + word + " " + arg + " " + t == Env() + word + " " + arg + (" " + t);
  }

  /** Arguments after the command of a named entrypoint are found exactly if the name is one word. */
  lemma NamedExactly(path: string, name: string, t: string)
    requires SkipAscii(t) != ""
    ensures ExecTail(WithoutEntrypoint(ExecCommand(path, Some(name)) + " " + t)) == SkipAscii(t) <==> OneWord(name)
  {
    hide ExecTail, WithoutEntrypoint, ExecCommand, OneWord, SkipAscii;
    if OneWord(name) { CommandIsSkipped(path, Some(name), t); } else { NothingIsFound(path, name, t); }
  }

  /** A blank in the name, and the argument is lost. */
  lemma NameWithABlank()
    ensures ExecTail(WithoutEntrypoint(ExecCommand("app", Some("a b")) + " " + "%u")) != SkipAscii("%u")
  {
    BlankIsNotEscaped();
    SkipAsciiShortens("%u");
    hide ExecTail, WithoutEntrypoint, ExecCommand, SkipAscii, OneWord;
    NamedExactly("app", "a b", "%u");
  }

  lemma BlankIsNotEscaped()
    ensures !OneWord("a b") && !AsciiSpace("%u"[0])
  {
    assert Space("a b"[1]);
  }

  /** The commands after which everything is found, whatever it is. */
  lemma FoundExactly(path: string, entrypoint: Option<string>)
    ensures (forall t :: ExecTail(WithoutEntrypoint(ExecCommand(path, entrypoint) + " " + t)) == SkipAscii(t))
      <==> Launchable(path, entrypoint)
  {
    hide ExecTail, WithoutEntrypoint, ExecCommand, SkipAscii, Launchable;
    if Launchable(path, entrypoint) {
      forall t ensures ExecTail(WithoutEntrypoint(ExecCommand(path, entrypoint) + " " + t)) == SkipAscii(t) {
        CommandIsSkipped(path, entrypoint, t);
      }
    } else {
      var t := LostAfter(path, entrypoint);
    }
  }

  lemma LostAfter(path: string, entrypoint: Option<string>) returns (t: string)
    requires !Launchable(path, entrypoint)
    ensures ExecTail(WithoutEntrypoint(ExecCommand(path, entrypoint) + " " + t)) != SkipAscii(t)
  {
    assert SkipAscii("x") == "x";
    hide ExecTail, WithoutEntrypoint, ExecCommand, SkipAscii, OneWord, Variable;
    match entrypoint {
      case None =>
        t := Variable();
        EnvMayBeLost();
      case Some(name) =>
        t := "x";
        NothingIsFound(path, name, t);
    }
  }
}
