/** Applying a whole `.onelf/env` file, as `apply_env_bytes` of
    `crates/onelf-payloads/src/env.rs` does line by line.
 */
module EnvLines {
  import opened Bytes
  import opened EnvExpand
  import opened Environment

  predicate Blank(b: byte) { b == 0x20 || b == 0x09 || b == 0x0D }

  function TrimStart(s: seq<byte>): seq<byte> { if s != [] && Blank(s[0]) then TrimStart(s[1..]) else s }

  function TrimEnd(s: seq<byte>): seq<byte> { if s != [] && Blank(s[|s| - 1]) then TrimEnd(s[..|s| - 1]) else s }

  function Trim(s: seq<byte>): seq<byte> { TrimEnd(TrimStart(s)) }

  /** The key and the value of a line, unless it is empty, a comment, or has no key. */
  function ParseLine(line: seq<byte>): Option<(seq<byte>, seq<byte>)> {
    var text := Trim(line);
    var eq := IndexOf(text, EQUALS);
    if text == [] || text[0] == HASH || eq == |text| || Trim(text[..eq]) == [] then None
    else Some((Trim(text[..eq]), Trim(text[eq + 1..])))
  }

  /** A key that does not fit its buffer is passed over. */
  function ApplyLine(env: Env, root: seq<byte>, line: seq<byte>): Env {
    match ParseLine(line)
    case None => env
    case Some((key, value)) => if |key| >= KEY_BYTES then env else ApplyValue(env, root, CString(key), value)
  }

  function ApplyText(env: Env, root: seq<byte>, text: seq<byte>): Env
    decreases |text|
  {
    if text == [] then env
    else
      var n := IndexOf(text, NEWLINE);
      ApplyText(ApplyLine(env, root, text[..n]), root, if n < |text| then text[n + 1..] else [])
  }

  // ---- the loops ---------------------------------------------------------------------------

  method TrimSpan(text: seq<byte>, start: nat, end: nat) returns (s: nat, e: nat)
    requires start <= end <= |text|
    ensures start <= s <= e <= end && text[s..e] == Trim(text[start..end])
  {
    s, e := start, end;
    while s < e && Blank(text[s])
      invariant start <= s <= e == end && TrimStart(text[s..e]) == TrimStart(text[start..end])
    {
      assert text[s..e][1..] == text[s + 1..e];
      s := s + 1;
    }
    assert text[s..e] == TrimStart(text[start..end]);
    while e > s && Blank(text[e - 1])
      invariant start <= s <= e <= end && TrimEnd(text[s..e]) == Trim(text[start..end])
    {
      assert text[s..e][..e - s - 1] == text[s..e - 1];
      e := e - 1;
    }
  }

  method Find(text: seq<byte>, start: nat, end: nat, b: byte) returns (i: nat)
    requires start <= end <= |text|
    ensures i == start + IndexOf(text[start..end], b) <= end
  {
    i := start;
    while i < end && text[i] != b
      invariant start <= i <= end && IndexOf(text[start..end], b) == i - start + IndexOf(text[i..end], b)
    {
      assert text[i..end][1..] == text[i + 1..end];
      i := i + 1;
    }
  }

  /** `bytes_eq` at a place of a string. */
  predicate At(s: seq<byte>, i: nat, part: seq<byte>) { i + |part| <= |s| && s[i..i + |part|] == part }

  /** The bytes of a buffer before its terminator. */
  method Stringed(buffer: array<byte>, ghost text: seq<byte>) returns (s: seq<byte>)
    requires |text| < buffer.Length && buffer[..|text|] == text && buffer[|text|] == 0
    ensures s == CString(text)
  {
    hide CString;
    var n := 0;
    forall i | 0 <= i < |text| ensures buffer[i] == text[i] { assert text[i] == buffer[..|text|][i]; }
    while buffer[n] != 0
      invariant n <= |text| && forall i :: 0 <= i < n ==> text[i] != 0
      decreases |text| - n
    {
      n := n + 1;
    }
    FirstNul(text, n);
    assert buffer[..n] == text[..n];
    s := buffer[..n];
  }

  lemma {:induction false} FirstNul(text: seq<byte>, n: nat)
    requires n <= |text| && (n < |text| ==> text[n] == 0) && forall i :: 0 <= i < n ==> text[i] != 0
    ensures CString(text) == text[..n]
  {
    if n > 0 {
      FirstNul(text[1..], n - 1);
      assert text[..n] == [text[0]] + text[1..][..n - 1];
    }
  }

  method WrapsCurrent(env: Env, root: seq<byte>, key: seq<byte>, before: seq<byte>, after: seq<byte>)
    returns (yes: bool)
    ensures yes <==> Wraps(env, root, key, before, after)
  {
    hide Expansion, CString;
    var current := Get(env, key);
    if current.None? || current.value == [] { return false; }
    var prefix := new byte[WRAP_BYTES](_ => 0);
    var suffix := new byte[WRAP_BYTES](_ => 0);
    var first := Expand(prefix, before, env, root);
    if !first { return false; }
    var second := Expand(suffix, after, env, root);
    if !second { return false; }
    var p := Stringed(prefix, Expansion(before, env, root));
    var s := Stringed(suffix, Expansion(after, env, root));
    var v := current.value;
    yes := |v| >= |p| + |s| && At(v, 0, p) && At(v, |v| - |s|, s);
  }

  lemma OneByteOn(src: seq<byte>, key: seq<byte>, i: nat, step: nat)
    requires step > 0 && i + step <= |src|
    ensures OwnRef(src[i..], key) == Behind(src[i..i + step], OwnRef(src[i + step..], key)) ==>
      Behind(src[..i], OwnRef(src[i..], key)) == Behind(src[..i + step], OwnRef(src[i + step..], key))
  {
    var w := OwnRef(src[i + step..], key);
    if w.Some? { assert src[..i] + (src[i..i + step] + w.value.before) == src[..i + step] + w.value.before; }
  }

  lemma AtStart(src: seq<byte>, key: seq<byte>)
    ensures Behind(src[..0], OwnRef(src[0..], key)) == OwnRef(src, key)
  {
    assert src[0..] == src;
    if OwnRef(src, key).Some? { assert [] + OwnRef(src, key).value.before == OwnRef(src, key).value.before; }
  }

  method HasApplied(env: Env, root: seq<byte>, key: seq<byte>, src: seq<byte>) returns (yes: bool)
    ensures yes <==> AlreadyApplied(env, root, key, src)
  {
    hide RefAt, Wraps;
    AtStart(src, key);
    var i: nat := 0;
    while i + 1 < |src|
      invariant i <= |src| && Behind(src[..i], OwnRef(src[i..], key)) == OwnRef(src, key)
      decreases |src| - i
    {
      if src[i] != DOLLAR || src[i + 1] != OPEN {
        OneByteOn(src, key, i, 1);
        assert src[i..][1..] == src[i + 1..] && [src[i]] == src[i..i + 1];
        i := i + 1;
        continue;
      }
      var r := FindRef(src, i);
      if r.None? { return false; }
      var end := i + r.value.1;
      assert src[i..][r.value.1..] == src[end..] && src[i..][..r.value.1] == src[i..end];
      if r.value.0.name == key {
        assert src[..i] + [] == src[..i];
        assert OwnRef(src, key) == Some(Wrap(src[..i], r.value.0, src[end..]));
        yes := WrapsCurrent(env, root, key, src[..i], src[end..]);
        return;
      }
      OneByteOn(src, key, i, r.value.1);
      i := end;
    }
    yes := false;
  }

  method ApplyOne(process: Process, root: seq<byte>, bytes: seq<byte>, start: nat, end: nat)
    requires start <= end <= |bytes|
    modifies process
    ensures process.env == ApplyLine(old(process.env), root, bytes[start..end])
  {
    hide Expansion, AlreadyApplied, CString, TrimStart, TrimEnd;
    var s, e := TrimSpan(bytes, start, end);
    if s >= e || bytes[s] == HASH { return; }
    var eq := Find(bytes, s, e, EQUALS);
    if eq >= e { return; }
    var ks, ke := TrimSpan(bytes, s, eq);
    assert bytes[s..e][..eq - s] == bytes[s..eq];
    if ks >= ke { return; }
    var vs, ve := TrimSpan(bytes, eq + 1, e);
    assert bytes[s..e][eq - s + 1..] == bytes[eq + 1..e];
    if ke - ks + 1 > KEY_BYTES { return; }
    var key, src := CString(bytes[ks..ke]), bytes[vs..ve];
    assert ParseLine(bytes[start..end]) == Some((bytes[ks..ke], src));
    hide ParseLine;
    var applied := HasApplied(process.env, root, key, src);
    if applied { return; }
    var val := new byte[VALUE_BYTES](_ => 0);
    var fits := Expand(val, src, process.env, root);
    if !fits { return; }
    var value := Stringed(val, Expansion(src, process.env, root));
    if key != [] { process.SetEnv(key, value); }
  }

  lemma FirstLine(env: Env, root: seq<byte>, text: seq<byte>)
    requires text != []
    ensures var n := IndexOf(text, NEWLINE);
      ApplyText(env, root, text) == ApplyText(ApplyLine(env, root, text[..n]), root,
        if n < |text| then text[n + 1..] else [])
  {
  }

  lemma LineOn(env: Env, root: seq<byte>, bytes: seq<byte>, cur: nat, end: nat)
    requires cur < |bytes| && end == cur + IndexOf(bytes[cur..|bytes|], NEWLINE)
    ensures end <= |bytes|
    ensures ApplyText(env, root, bytes[cur..])
      == ApplyText(ApplyLine(env, root, bytes[cur..end]), root, if end < |bytes| then bytes[end + 1..] else [])
  {
    hide ApplyLine, ApplyText, IndexOf;
    var rest := bytes[cur..];
    assert bytes[cur..|bytes|] == rest && rest[..end - cur] == bytes[cur..end];
    assert end < |bytes| ==> rest[end - cur + 1..] == bytes[end + 1..];
    FirstLine(env, root, rest);
  }

  /** `apply_env_bytes`. */
  method ApplyEnvBytes(process: Process, root: seq<byte>, bytes: seq<byte>)
    modifies process
    ensures process.env == ApplyText(old(process.env), root, bytes)
  {
    assert bytes[0..] == bytes && bytes[|bytes|..] == [];
    hide ApplyLine, IndexOf;
    assert ApplyText(process.env, root, []) == process.env;
    var cur: nat := 0;
    while cur < |bytes|
      invariant cur <= |bytes| && ApplyText(process.env, root, bytes[cur..]) == ApplyText(old(process.env), root, bytes)
    {
      var end := Find(bytes, cur, |bytes|, NEWLINE);
      LineOn(process.env, root, bytes, cur, end);
      ApplyOne(process, root, bytes, cur, end);
      cur := if end < |bytes| then end + 1 else |bytes|;
    }
  }

  // ---- applying again -------------------------------------------------------------------------

  /** A line of which every name is short and that refers to its own variable at most once. */
  predicate Reappliable(line: seq<byte>) {
    NoNul(line) &&
      match ParseLine(line)
      case None => true
      case Some((key, value)) => ShortNames(value) && SingleOwnRef(value, key)
  }

  lemma {:induction false} TrimHasNoNul(s: seq<byte>)
    requires NoNul(s)
    ensures NoNul(TrimStart(s)) && NoNul(TrimEnd(s))
  {
    if s != [] {
      assert NoNul(s[1..]) && NoNul(s[..|s| - 1]);
      TrimHasNoNul(s[1..]);
      TrimHasNoNul(s[..|s| - 1]);
    }
  }

  lemma PartsHaveNoNul(line: seq<byte>)
    requires NoNul(line) && ParseLine(line).Some?
    ensures NoNul(ParseLine(line).value.0) && NoNul(ParseLine(line).value.1)
  {
    hide TrimStart, TrimEnd, IndexOf;
    TrimHasNoNul(line);
    TrimHasNoNul(TrimStart(line));
    var text := Trim(line);
    var eq := IndexOf(text, EQUALS);
    assert NoNul(text[..eq]) && NoNul(text[eq + 1..]);
    TrimHasNoNul(text[..eq]);
    TrimHasNoNul(TrimStart(text[..eq]));
    TrimHasNoNul(text[eq + 1..]);
    TrimHasNoNul(TrimStart(text[eq + 1..]));
  }

  /** Applying such a line again changes nothing, so every exec of the entrypoint may do it. */
  lemma LineAppliesAgain(env: Env, root: seq<byte>, line: seq<byte>)
    requires Terminated(env, root) && Reappliable(line)
    ensures ApplyLine(ApplyLine(env, root, line), root, line) == ApplyLine(env, root, line)
  {
    if ParseLine(line).Some? {
      PartsHaveNoNul(line);
      var (key, value) := ParseLine(line).value;
      CStringIsItself(key);
      hide ParseLine, ApplyValue, Terminated, ShortNames, SingleOwnRef, CString;
      ApplyingAgain(env, root, key, value);
    }
  }

  function Twice(): seq<byte> { Ascii("${K}:${K}") }

  lemma TwiceReads()
    ensures var one := Ascii("${K}");
      && Twice() == one + ([COLON] + one) && Opens(Twice()) && |Twice()| == 9 && one[4..] == [] && one != []
      && RefAt(one) == Some((Ref(Ascii("K"), None), 4)) && RefAt([COLON] + one) == None
      && CString(Ascii("K")) == Ascii("K") != RootName()
  {
    var k: seq<byte> := [0x4B];
    var one: seq<byte> := [DOLLAR, OPEN, 0x4B, SHUT];
    assert Ascii("${K}") == one && Ascii("K") == k && Twice() == one + ([COLON] + one);
    assert one[2..] == [0x4B, SHUT] && [0x4B, SHUT][1..] == [SHUT];
    assert IndexOf([0x4B, SHUT], SHUT) == 1 + IndexOf([SHUT], SHUT) == 1;
    assert one[2..3] == k && k[..1] == k;
    CStringIsItself(k);
    assert |RootName()| == 9;
  }

  lemma OneExpands(env: Env, root: seq<byte>, v: seq<byte>)
    requires v != [] && NoNul(v) && Get(env, Ascii("K")) == Some(v)
    ensures var one := Ascii("${K}");
      Expansion(one, env, root) == v && Expansion([COLON] + one, env, root) == [COLON] + v
    ensures Ascii("K") in Names([COLON] + Ascii("${K}"))
  {
    var one := Ascii("${K}");
    var after := [COLON] + one;
    TwiceReads();
    hide RefAt, RootName;
    assert after[1..] == one && Expansion([], env, root) == [] && v + [] == v;
    assert Replacement(Ref(Ascii("K"), None), env, root) == v;
    assert Names(after) == Names(one);
  }

  lemma TwiceExpands(env: Env, root: seq<byte>, v: seq<byte>)
    requires v != [] && NoNul(v) && Get(env, Ascii("K")) == Some(v)
    ensures Expansion(Twice(), env, root) == v + [COLON] + v
    ensures OwnRef(Twice(), Ascii("K")) == Some(Wrap([], Ref(Ascii("K"), None), [COLON] + Ascii("${K}")))
  {
    var key, one := Ascii("K"), Ascii("${K}");
    var after := [COLON] + one;
    TwiceReads();
    RefStays(one, after);
    OneExpands(env, root, v);
    hide RefAt, Twice, RootName;
    assert Twice()[4..] == after;
    assert Replacement(Ref(key, None), env, root) == v;
    assert v + ([COLON] + v) == v + [COLON] + v;
  }

  /** A value that refers to its own variable twice grows each time it is applied, until it no longer fits. */
  lemma TwoReferencesGrow(env: Env, root: seq<byte>, v: seq<byte>)
    requires v != [] && NoNul(v) && Get(env, Ascii("K")) == Some(v) && 2 * |v| + 1 < VALUE_BYTES
    ensures !SingleOwnRef(Twice(), Ascii("K"))
    ensures ApplyValue(env, root, Ascii("K"), Twice()) == env[Ascii("K") := v + [COLON] + v]
  {
    OneExpands(env, root, v);
    TwiceExpands(env, root, v);
    CStringIsItself([COLON] + v);
    CStringIsItself(v + [COLON] + v);
    hide OwnRef, Expansion, CString, Names, Replacement, NoNul, Twice;
  }
}
