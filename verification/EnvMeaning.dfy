/** What lines of `.onelf/env` mean, piece by piece, apart from how `crates/onelf-payloads/src/env.rs` reads
    them: the text between references is copied, a reference is the value of its variable or its default,
    and a line takes effect unless the live value shows that it already did.
 */
module EnvMeaning {
  import opened Bytes
  import opened EnvExpand
  import opened EnvLines
  import opened Environment

  type Chars = seq<byte>

  /** Copied text, `${NAME}` and `${NAME:-word}`. */
  datatype Piece = Plain(text: Chars) | Variable(name: Chars) | Defaulted(name: Chars, word: Chars)

  function PieceText(p: Piece): Chars {
    match p
    case Plain(text) => text
    case Variable(name) => Ascii("${") + name + Ascii("}")
    case Defaulted(name, word) => Ascii("${") + name + Ascii(":-") + word + Ascii("}")
  }

  function Written(ps: seq<Piece>): Chars { if ps == [] then [] else PieceText(ps[0]) + Written(ps[1..]) }

  predicate NoMark(s: Chars) { forall i :: 0 <= i < |s| - 1 ==> !(s[i] == 0x3A && s[i + 1] == 0x2D) }

  /** A name that is read as it stands. */
  predicate Name(s: Chars) { |s| < 256 && 0 !in s && 0x7D !in s && NoMark(s) }

  predicate Readable(p: Piece) {
    match p
    case Plain(text) => forall i :: 0 <= i < |text| - 1 ==> !(text[i] == 0x24 && text[i + 1] == 0x7B)
    case Variable(name) => Name(name)
    case Defaulted(name, word) => Name(name) && 0x7D !in word
  }

  /** No piece runs into the next. */
  predicate Legible(ps: seq<Piece>) {
    ps != [] ==>
      && Readable(ps[0])
      && (ps[0].Plain? && EndsIn(ps[0].text, 0x24) ==> !Begins(Written(ps[1..]), 0x7B))
      && Legible(ps[1..])
  }

  predicate EndsIn(s: Chars, b: byte) { s != [] && s[|s| - 1] == b }

  predicate Begins(s: Chars, b: byte) { s != [] && s[0] == b }

  /** The value of a variable, empty if it is unset. The package root is one that no environment changes. */
  function Held(name: Chars, env: Env, root: Chars): Chars {
    if name == Ascii("ONELF_DIR") then root else if name in env then env[name] else []
  }

  function PieceMeaning(p: Piece, env: Env, root: Chars): Chars {
    match p
    case Plain(text) => text
    case Variable(name) => Held(name, env, root)
    case Defaulted(name, word) => if Held(name, env, root) == [] then word else Held(name, env, root)
  }

  function Meaning(ps: seq<Piece>, env: Env, root: Chars): Chars {
    if ps == [] then [] else PieceMeaning(ps[0], env, root) + Meaning(ps[1..], env, root)
  }

  // ---- expansion gives the meaning -----------------------------------------------------------

  lemma Marks()
    ensures Ascii("${") == [DOLLAR, OPEN] && Ascii("}") == [SHUT] && Ascii(":-") == [COLON, MINUS]
  {
  }

  lemma {:induction false} PlainInFront(text: Chars, rest: Chars, env: Env, root: Chars)
    requires Readable(Plain(text)) && (EndsIn(text, 0x24) ==> !Begins(rest, 0x7B))
    ensures Expansion(text + rest, env, root) == text + Expansion(rest, env, root)
  {
    if text == [] {
      assert text + rest == rest;
    } else {
      hide Expansion, Names;
      assert text[1..] != [] ==> text[1..][0] == text[1] && text[1..][|text[1..]| - 1] == text[|text| - 1];
      PlainInFront(text[1..], rest, env, root);
      ByteInFront(text[0], text[1..] + rest, env, root);
      assert [text[0]] + (text[1..] + rest) == text + rest;
      assert [text[0]] + (text[1..] + Expansion(rest, env, root)) == text + Expansion(rest, env, root);
    }
  }

  lemma {:induction false} MarkAt(name: Chars, rest: Chars)
    requires NoMark(name) && (rest == [] || (|rest| >= 2 && rest[0] == COLON && rest[1] == MINUS))
    ensures DefaultAt(name + rest) == |name|
  {
    if name == [] {
      assert name + rest == rest;
    } else {
      var s := name + rest;
      assert s[0] == name[0] && s[1..] == name[1..] + rest;
      assert |s| >= 2 ==> s[1] == if |name| > 1 then name[1] else rest[0];
      MarkAt(name[1..], rest);
    }
  }

  /** A reference and what its body is read as. */
  lemma ReferenceAt(body: Chars, rest: Chars)
    requires SHUT !in body
    ensures var s := [DOLLAR, OPEN] + body + [SHUT] + rest;
      RefAt(s) == Some((ReadRef(body), |body| + 3)) && s[|body| + 3..] == rest
  {
    var s := [DOLLAR, OPEN] + body + [SHUT] + rest;
    assert s[2..] == body + [SHUT] + rest;
    ShutAt(body, rest);
    assert s[2..|body| + 2] == body;
    hide ReadRef, IndexOf;
  }

  lemma {:induction false} ShutAt(body: Chars, rest: Chars)
    requires SHUT !in body
    ensures IndexOf(body + [SHUT] + rest, SHUT) == |body|
  {
    var s := body + [SHUT] + rest;
    if body == [] {
      assert s[0] == SHUT;
    } else {
      assert s[0] == body[0] && s[1..] == body[1..] + [SHUT] + rest;
      ShutAt(body[1..], rest);
    }
  }

  function Body(p: Piece): Chars
    requires !p.Plain?
  {
    if p.Variable? then p.name else p.name + [COLON, MINUS] + p.word
  }

  lemma PieceBody(p: Piece)
    requires !p.Plain?
    ensures PieceText(p) == [DOLLAR, OPEN] + Body(p) + [SHUT]
  {
    Marks();
    if p.Defaulted? {
      assert [DOLLAR, OPEN] + (p.name + [COLON, MINUS] + p.word) == [DOLLAR, OPEN] + p.name + [COLON, MINUS] + p.word;
    }
  }

  lemma BodyIsRead(p: Piece)
    requires !p.Plain? && Readable(p)
    ensures SHUT !in Body(p)
    ensures ReadRef(Body(p)) == Ref(p.name, if p.Defaulted? then Some(p.word) else None)
  {
    if p.Variable? {
      MarkAt(p.name, []);
      assert p.name + [] == p.name == p.name[..|p.name|];
    } else {
      var rest := [COLON, MINUS] + p.word;
      assert Body(p) == p.name + rest;
      MarkAt(p.name, rest);
      assert Body(p)[..|p.name|] == p.name && Body(p)[|p.name| + 2..] == p.word;
    }
  }

  lemma ReplacementMeans(p: Piece, env: Env, root: Chars)
    requires !p.Plain? && Readable(p)
    ensures Replacement(Ref(p.name, if p.Defaulted? then Some(p.word) else None), env, root)
      == PieceMeaning(p, env, root)
  {
    CStringIsItself(p.name);
    hide CString, Name;
  }

  lemma PieceInFront(p: Piece, rest: Chars, env: Env, root: Chars)
    requires !p.Plain? && Readable(p)
    ensures Expansion(PieceText(p) + rest, env, root) == PieceMeaning(p, env, root) + Expansion(rest, env, root)
    ensures Names(PieceText(p) + rest) == {p.name} + Names(rest)
  {
    PieceBody(p);
    BodyIsRead(p);
    ReferenceAt(Body(p), rest);
    ReplacementMeans(p, env, root);
    CStringIsItself(p.name);
    var s := PieceText(p) + rest;
    hide RefAt, Replacement, PieceMeaning, ReadRef, CString, Body, PieceText, NoMark;
  }

  /** What `expand` writes for a text is what its pieces mean, one after another. */
  lemma {:induction false} ExpansionMeans(ps: seq<Piece>, env: Env, root: Chars)
    requires Legible(ps)
    ensures Expansion(Written(ps), env, root) == Meaning(ps, env, root)
  {
    if ps == [] {
      NothingExpands(env, root);
    } else {
      hide Expansion, PieceText, PieceMeaning, Readable, EndsIn, Begins;
      ExpansionMeans(ps[1..], env, root);
      if ps[0].Plain? {
        PlainMeans(ps[0], env, root);
        PlainInFront(ps[0].text, Written(ps[1..]), env, root);
      } else {
        PieceInFront(ps[0], Written(ps[1..]), env, root);
      }
    }
  }

  lemma PlainMeans(p: Piece, env: Env, root: Chars)
    requires p.Plain?
    ensures PieceText(p) == PieceMeaning(p, env, root) == p.text
  {
  }

  /** Without the end of a reference all is text. */
  lemma {:induction false} UnshutIsCopied(s: Chars, env: Env, root: Chars)
    requires 0x7D !in s
    ensures Expansion(s, env, root) == s
  {
    if s != [] {
      assert RefAt(s) == None by { if Opens(s) { assert IndexOf(s[2..], SHUT) == |s| - 2; } }
      UnshutIsCopied(s[1..], env, root);
    }
  }

  /** A reference to a name of 256 bytes or more is text as far as its opening. */
  lemma OverlongIsCopied(name: Chars, rest: Chars, env: Env, root: Chars)
    requires |name| >= 256 && 0x7D !in name && NoMark(name)
    ensures Expansion(Ascii("${") + name + Ascii("}") + rest, env, root)
      == Ascii("${") + Expansion(name + Ascii("}") + rest, env, root)
  {
    Marks();
    var tail := name + [SHUT] + rest;
    var s := [DOLLAR, OPEN] + name + [SHUT] + rest;
    ReferenceAt(name, rest);
    MarkAt(name, []);
    assert name + [] == name == name[..|name|];
    assert s[0] == DOLLAR && s[1..] == [OPEN] + tail;
    assert Expansion(s, env, root) == [DOLLAR] + Expansion([OPEN] + tail, env, root) by { hide RefAt, DefaultAt; }
    hide RefAt, DefaultAt, Expansion, Names;
    ByteInFront(OPEN, tail, env, root);
    assert [DOLLAR] + ([OPEN] + Expansion(tail, env, root)) == [DOLLAR, OPEN] + Expansion(tail, env, root);
  }

  // ---- what a line does ----------------------------------------------------------------------

  /** Bytes around which nothing is trimmed. */
  predicate Trimmed(s: Chars) { s == [] || !(s[0] in {0x20, 0x09, 0x0D} || s[|s| - 1] in {0x20, 0x09, 0x0D}) }

  lemma {:induction false} TrimLeaves(s: Chars)
    requires Trimmed(s)
    ensures Trim(s) == s
  {
  }

  /** A line is a key and a value around the first equals sign. */
  lemma LineIsRead(key: Chars, value: Chars)
    requires key != [] && key[0] != 0x23 && 0x3D !in key && Trimmed(key) && Trimmed(value)
    ensures ParseLine(key + Ascii("=") + value) == Some((key, value))
  {
    assert Ascii("=") == [EQUALS];
    var line := key + [EQUALS] + value;
    assert line[0] == key[0] && line[|line| - 1] == if value == [] then EQUALS else value[|value| - 1];
    TrimLeaves(line);
    EqualsAt(key, value);
    assert line[..|key|] == key && line[|key| + 1..] == value;
    TrimLeaves(key);
    TrimLeaves(value);
    hide TrimStart, TrimEnd, IndexOf, Trimmed;
  }

  lemma {:induction false} EqualsAt(key: Chars, value: Chars)
    requires EQUALS !in key
    ensures IndexOf(key + [EQUALS] + value, EQUALS) == |key|
  {
    var s := key + [EQUALS] + value;
    if key == [] {
      assert s[0] == EQUALS;
    } else {
      assert s[0] == key[0] && s[1..] == key[1..] + [EQUALS] + value;
      EqualsAt(key[1..], value);
    }
  }

  /** Comments, blank lines and lines without an equals sign say nothing. */
  lemma OtherLines(env: Env, root: Chars, line: Chars)
    requires Trimmed(line) && (line == [] || line[0] == 0x23 || 0x3D !in line)
    ensures ApplyLine(env, root, line) == env
  {
    TrimLeaves(line);
    hide TrimStart, TrimEnd;
  }

  /** The lines of a text are applied one after another, the last with or without a line feed. */
  lemma LinesInTurn(env: Env, root: Chars, line: Chars, rest: Chars)
    requires 0x0A !in line
    ensures line != [] ==> ApplyText(env, root, line) == ApplyLine(env, root, line)
    ensures ApplyText(env, root, line + Ascii("\n") + rest) == ApplyText(ApplyLine(env, root, line), root, rest)
  {
    assert Ascii("\n") == [NEWLINE];
    var text := line + [NEWLINE] + rest;
    assert text[|line|] == NEWLINE && IndexOf(text, NEWLINE) == |line|;
    assert text[..|line|] == line && text[|line| + 1..] == rest;
    hide ApplyLine, IndexOf;
    if line != [] {
      assert IndexOf(line, NEWLINE) == |line| && line[..|line|] == line;
      assert ApplyText(ApplyLine(env, root, line), root, []) == ApplyLine(env, root, line);
    }
  }

  predicate Mentions(ps: seq<Piece>, key: Chars) { exists i :: 0 <= i < |ps| && !ps[i].Plain? && ps[i].name == key }

  predicate Key(key: Chars) {
    key != [] && |key| < 1024 && key[0] != 0x23 && 0 !in key && 0x3D !in key && Trimmed(key)
  }

  /** A value that is too long for its buffer leaves the variable alone. */
  function Assigned(env: Env, key: Chars, value: Chars): Env { if |value| < 8192 then env[key := value] else env }

  lemma BehindTwice(a: Chars, b: Chars, w: Option<Wrap>)
    ensures Behind(a, Behind(b, w)) == Behind(a + b, w)
  {
    if w.Some? { assert a + (b + w.value.before) == a + b + w.value.before; }
  }

  lemma BehindNothing(w: Option<Wrap>)
    ensures Behind([], w) == w
  {
    if w.Some? { assert [] + w.value.before == w.value.before; }
  }

  lemma {:induction false} OwnRefBehindPlain(text: Chars, rest: Chars, key: Chars)
    requires Readable(Plain(text)) && (EndsIn(text, 0x24) ==> !Begins(rest, 0x7B))
    ensures OwnRef(text + rest, key) == Behind(text, OwnRef(rest, key))
  {
    if text == [] {
      assert text + rest == rest;
      BehindNothing(OwnRef(rest, key));
    } else {
      var s := text + rest;
      assert s[0] == text[0] && s[1..] == text[1..] + rest;
      assert text[1..] != [] ==> text[1..][0] == text[1] && text[1..][|text[1..]| - 1] == text[|text| - 1];
      OwnRefBehindPlain(text[1..], rest, key);
      BehindTwice([text[0]], text[1..], OwnRef(rest, key));
      assert [text[0]] + text[1..] == text;
      assert |s| >= 2 ==> !Opens(s);
      assert |s| < 2 ==> |rest| < 2;
    }
  }

  lemma OwnRefAtPiece(p: Piece, rest: Chars, key: Chars)
    requires !p.Plain? && Readable(p)
    ensures OwnRef(PieceText(p) + rest, key) ==
      if p.name == key then Some(Wrap([], Ref(p.name, if p.Defaulted? then Some(p.word) else None), rest))
      else Behind(PieceText(p), OwnRef(rest, key))
  {
    PieceBody(p);
    BodyIsRead(p);
    ReferenceAt(Body(p), rest);
    var s := PieceText(p) + rest;
    assert s[..|PieceText(p)|] == PieceText(p);
    assert Opens(s);
    hide RefAt, ReadRef, Body, PieceText, NoMark;
  }

  lemma {:induction false} OwnRefBehind(ps: seq<Piece>, rest: Chars, key: Chars)
    requires Legible(ps) && !Mentions(ps, key) && !Begins(rest, 0x7B)
    ensures OwnRef(Written(ps) + rest, key) == Behind(Written(ps), OwnRef(rest, key))
  {
    if ps == [] {
      assert Written(ps) + rest == rest;
      BehindNothing(OwnRef(rest, key));
    } else {
      var later := Written(ps[1..]) + rest;
      assert Written(ps) + rest == PieceText(ps[0]) + later;
      assert Begins(later, 0x7B) ==> Begins(Written(ps[1..]), 0x7B);
      NoMentionInTail(ps, key);
      hide OwnRef, Behind, PieceText, Readable, EndsIn, Begins, Mentions;
      OwnRefBehind(ps[1..], rest, key);
      BehindTwice(PieceText(ps[0]), Written(ps[1..]), OwnRef(rest, key));
      if ps[0].Plain? {
        PlainMeans(ps[0], map[], []);
        OwnRefBehindPlain(ps[0].text, later, key);
      } else {
        OwnRefAtPiece(ps[0], later, key);
      }
    }
  }

  lemma NoMentionInTail(ps: seq<Piece>, key: Chars)
    requires ps != [] && !Mentions(ps, key)
    ensures !Mentions(ps[1..], key) && (ps[0].Plain? || ps[0].name != key)
  {
  }

  lemma NoOwnRef(ps: seq<Piece>, key: Chars)
    requires Legible(ps) && !Mentions(ps, key)
    ensures OwnRef(Written(ps), key) == None
  {
    OwnRefBehind(ps, [], key);
    assert Written(ps) + [] == Written(ps);
  }

  lemma MeaningIsAString(ps: seq<Piece>, env: Env, root: Chars)
    requires Legible(ps) && 0 !in Written(ps) && Terminated(env, root)
    ensures CString(Meaning(ps, env, root)) == Meaning(ps, env, root)
  {
    ExpansionMeans(ps, env, root);
    ExpansionHasNoNul(Written(ps), env, root);
    CStringIsItself(Meaning(ps, env, root));
  }

  /** A line whose value does not mention its own variable sets it to what the value means. */
  lemma LineSets(env: Env, root: Chars, key: Chars, ps: seq<Piece>)
    requires Key(key) && Terminated(env, root)
    requires Legible(ps) && !Mentions(ps, key) && Trimmed(Written(ps)) && 0 !in Written(ps)
    ensures ApplyLine(env, root, key + Ascii("=") + Written(ps)) == Assigned(env, key, Meaning(ps, env, root))
  {
    hide ParseLine, Expansion, OwnRef, Written, Meaning, Terminated, CString, Trimmed, Legible, Mentions;
    LineIsRead(key, Written(ps));
    CStringIsItself(key);
    NoOwnRef(ps, key);
    ExpansionMeans(ps, env, root);
    MeaningIsAString(ps, env, root);
  }

  /** The live value has what a line puts around it. */
  predicate HasBoth(v: Chars, before: Chars, after: Chars) {
    && v != [] && |before| < 4096 && |after| < 4096
    && |before| + |after| <= |v|
    && before <= v && v[|v| - |after|..] == after
  }

  function Around(ps: seq<Piece>, own: Piece, qs: seq<Piece>): Chars { Written(ps) + PieceText(own) + Written(qs) }

  lemma {:induction false} MeaningBefore(ps: seq<Piece>, rest: Chars, env: Env, root: Chars)
    requires Legible(ps) && !Begins(rest, 0x7B)
    ensures Expansion(Written(ps) + rest, env, root) == Meaning(ps, env, root) + Expansion(rest, env, root)
  {
    if ps == [] {
      assert Written(ps) + rest == rest;
    } else {
      var later := Written(ps[1..]) + rest;
      assert Written(ps) + rest == PieceText(ps[0]) + later;
      assert Begins(later, 0x7B) ==> Begins(Written(ps[1..]), 0x7B);
      hide Expansion, PieceText, PieceMeaning, Readable, EndsIn, Begins;
      MeaningBefore(ps[1..], rest, env, root);
      if ps[0].Plain? {
        PlainMeans(ps[0], env, root);
        PlainInFront(ps[0].text, later, env, root);
      } else {
        PieceInFront(ps[0], later, env, root);
      }
      Associates(PieceMeaning(ps[0], env, root), Meaning(ps[1..], env, root), Expansion(rest, env, root));
    }
  }

  lemma Associates(a: Chars, b: Chars, c: Chars)
    ensures a + b + c == a + (b + c)
  {
  }

  lemma OwnBegins(own: Piece, rest: Chars)
    requires !own.Plain?
    ensures !Begins(PieceText(own) + rest, 0x7B)
  {
    PieceBody(own);
    hide Body;
    assert (PieceText(own) + rest)[0] == DOLLAR;
  }

  lemma AroundMeans(env: Env, root: Chars, ps: seq<Piece>, own: Piece, qs: seq<Piece>)
    requires !own.Plain? && Readable(own) && Legible(ps) && Legible(qs)
    ensures Expansion(Around(ps, own, qs), env, root)
      == Meaning(ps, env, root) + PieceMeaning(own, env, root) + Meaning(qs, env, root)
  {
    hide Expansion, Written, Meaning, PieceText, PieceMeaning, Legible, Readable, Begins;
    Associates(Written(ps), PieceText(own), Written(qs));
    OwnBegins(own, Written(qs));
    MeaningBefore(ps, PieceText(own) + Written(qs), env, root);
    PieceInFront(own, Written(qs), env, root);
    ExpansionMeans(qs, env, root);
    Associates(Meaning(ps, env, root), PieceMeaning(own, env, root), Meaning(qs, env, root));
  }

  lemma AroundWraps(ps: seq<Piece>, own: Piece, qs: seq<Piece>, key: Chars)
    requires !own.Plain? && own.name == key && Readable(own) && Legible(ps) && !Mentions(ps, key)
    ensures OwnRef(Around(ps, own, qs), key)
      == Some(Wrap(Written(ps), Ref(key, if own.Defaulted? then Some(own.word) else None), Written(qs)))
  {
    hide OwnRef, Written, PieceText, Legible, Mentions, Readable, Begins;
    Associates(Written(ps), PieceText(own), Written(qs));
    OwnBegins(own, Written(qs));
    OwnRefBehind(ps, PieceText(own) + Written(qs), key);
    OwnRefAtPiece(own, Written(qs), key);
    assert Written(ps) + [] == Written(ps);
  }

  lemma ApplyWrapped(env: Env, root: Chars, key: Chars, src: Chars, w: Wrap, before: Chars, after: Chars, value: Chars)
    requires key != [] && OwnRef(src, key) == Some(w)
    requires Expansion(w.before, env, root) == before == CString(before)
    requires Expansion(w.after, env, root) == after == CString(after)
    requires Expansion(src, env, root) == value == CString(value)
    ensures ApplyValue(env, root, key, src) ==
      if key in env && HasBoth(env[key], before, after) then env else Assigned(env, key, value)
  {
    hide OwnRef, Expansion, CString;
  }

  lemma AroundIsAString(env: Env, root: Chars, ps: seq<Piece>, own: Piece, qs: seq<Piece>)
    requires Terminated(env, root) && Legible(ps) && Legible(qs) && 0 !in Around(ps, own, qs)
    ensures CString(Meaning(ps, env, root)) == Meaning(ps, env, root) == Expansion(Written(ps), env, root)
    ensures CString(Meaning(qs, env, root)) == Meaning(qs, env, root) == Expansion(Written(qs), env, root)
    ensures var value := Expansion(Around(ps, own, qs), env, root); CString(value) == value
  {
    Parts(Written(ps), PieceText(own), Written(qs));
    hide Expansion, Written, Meaning, Terminated, CString, Legible, PieceText;
    ExpansionMeans(ps, env, root);
    ExpansionMeans(qs, env, root);
    MeaningIsAString(ps, env, root);
    MeaningIsAString(qs, env, root);
    ExpansionHasNoNul(Around(ps, own, qs), env, root);
    CStringIsItself(Expansion(Around(ps, own, qs), env, root));
  }

  /** A line that wraps its own variable puts its text around the value, exactly where the value does not have
      it around it yet. */
  lemma LineWraps(env: Env, root: Chars, key: Chars, ps: seq<Piece>, own: Piece, qs: seq<Piece>)
    requires Key(key) && Terminated(env, root)
    requires !own.Plain? && own.name == key && Readable(own) && Legible(ps) && Legible(qs) && !Mentions(ps, key)
    requires Trimmed(Around(ps, own, qs)) && 0 !in Around(ps, own, qs)
    ensures var before, after := Meaning(ps, env, root), Meaning(qs, env, root);
      ApplyLine(env, root, key + Ascii("=") + Around(ps, own, qs)) ==
        if key in env && HasBoth(env[key], before, after) then env
        else Assigned(env, key, before + PieceMeaning(own, env, root) + after)
  {
    hide ParseLine, Expansion, OwnRef, Written, Meaning, Terminated, CString, Trimmed, Legible, Mentions, Around,
      Readable,
      PieceMeaning, HasBoth, ApplyValue;
    var src := Around(ps, own, qs);
    LineIsRead(key, src);
    CStringIsItself(key);
    AroundMeans(env, root, ps, own, qs);
    AroundWraps(ps, own, qs, key);
    AroundIsAString(env, root, ps, own, qs);
    var w := Wrap(Written(ps), Ref(key, if own.Defaulted? then Some(own.word) else None), Written(qs));
    ApplyWrapped(env, root, key, src, w, Meaning(ps, env, root), Meaning(qs, env, root), Expansion(src, env, root));
  }

  lemma Parts(a: Chars, b: Chars, c: Chars)
    ensures 0 !in a + b + c ==> 0 !in a && 0 !in c
  {
  }
}
