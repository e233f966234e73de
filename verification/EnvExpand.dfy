/** `.onelf/env` lines in `crates/onelf-payloads/src/env.rs`: the expansion of references into
    buffers of fixed size, and why a line that wraps its own variable can be applied again.
 */
module EnvExpand {
  import opened Bytes
  import opened Environment

  const DOLLAR: byte := 0x24
  const OPEN: byte := 0x7B
  const SHUT: byte := 0x7D
  const COLON: byte := 0x3A
  const MINUS: byte := 0x2D
  const HASH: byte := 0x23
  const EQUALS: byte := 0x3D
  const NEWLINE: byte := 0x0A

  const NAME_BYTES := 256
  const KEY_BYTES := 1024
  const WRAP_BYTES := 4096
  const VALUE_BYTES := 8192

  function RootName(): seq<byte> { Ascii("ONELF_DIR") }

  predicate NoNul(s: seq<byte>) { 0 !in s }

  /** The values of an environment, and the package root, are NUL-terminated strings. */
  predicate Terminated(env: Env, root: seq<byte>) { NoNul(root) && forall n :: n in env ==> NoNul(env[n]) }

  /** What a NUL-terminated copy of some bytes is taken for. */
  function CString(s: seq<byte>): seq<byte> { if s == [] || s[0] == 0 then [] else [s[0]] + CString(s[1..]) }

  lemma {:induction false} CStringIsItself(s: seq<byte>)
    requires NoNul(s)
    ensures CString(s) == s
  {
    if s != [] {
      assert s[0] in s;
      assert NoNul(s[1..]);
      CStringIsItself(s[1..]);
    }
  }

  // ---- references ------------------------------------------------------------------------

  datatype Ref = Ref(name: seq<byte>, word: Option<seq<byte>>)

  predicate Opens(s: seq<byte>) { |s| >= 2 && s[0] == DOLLAR && s[1] == OPEN }

  function IndexOf(s: seq<byte>, b: byte): (i: nat)
    ensures i <= |s| && (i < |s| ==> s[i] == b) && forall j :: 0 <= j < i ==> s[j] != b
  {
    if s == [] || s[0] == b then 0 else 1 + IndexOf(s[1..], b)
  }

  /** Where the default of a reference begins, counting its mark. */
  function DefaultAt(body: seq<byte>): (i: nat)
    ensures i <= |body|
  {
    if |body| < 2 then |body| else if body[0] == COLON && body[1] == MINUS then 0 else 1 + DefaultAt(body[1..])
  }

  function ReadRef(body: seq<byte>): Ref {
    var d := DefaultAt(body);
    Ref(body[..d], if d + 2 <= |body| then Some(body[d + 2..]) else None)
  }

  /** The reference that `s` starts with, and where it ends. */
  function RefAt(s: seq<byte>): (r: Option<(Ref, nat)>)
    ensures r.Some? ==> 3 <= r.value.1 <= |s|
  {
    if !Opens(s) then None
    else
      var close := 2 + IndexOf(s[2..], SHUT);
      if close == |s| then None else Some((ReadRef(s[2..close]), close + 1))
  }

  // ---- expansion -------------------------------------------------------------------------

  function Value(name: seq<byte>, env: Env, root: seq<byte>): Option<seq<byte>> {
    if CString(name) == RootName() then Some(root) else Get(env, CString(name))
  }

  /** An unset or empty variable is replaced by the default, which is not itself expanded. */
  function Replacement(r: Ref, env: Env, root: seq<byte>): seq<byte> {
    var v := Value(r.name, env, root);
    if v.Some? && v.value != [] then v.value else if r.word.Some? then r.word.value else []
  }

  /** What a text stands for. A reference with an overlong name, or without an end, is not one. */
  function Expansion(src: seq<byte>, env: Env, root: seq<byte>): seq<byte>
    decreases |src|
  {
    if src == [] then []
    else
      match RefAt(src)
      case Some((r, end)) =>
        if |r.name| < NAME_BYTES then Replacement(r, env, root) + Expansion(src[end..], env, root)
        else [src[0]] + Expansion(src[1..], env, root)
      case None => [src[0]] + Expansion(src[1..], env, root)
  }

  // ---- the loops -------------------------------------------------------------------------

  /** Copies bytes behind those already in a buffer, leaving room for a terminator. */
  method Append(dst: array<byte>, at: nat, bytes: seq<byte>) returns (ok: bool, end: nat)
    requires at <= dst.Length
    modifies dst
    ensures ok <==> bytes == [] || at + |bytes| < dst.Length
    ensures ok ==> end == at + |bytes| <= dst.Length && dst[..end] == old(dst[..at]) + bytes
  {
    end := at;
    var k := 0;
    while k < |bytes|
      invariant k <= |bytes| && end == at + k <= dst.Length && (k > 0 ==> end < dst.Length)
      invariant dst[..end] == old(dst[..at]) + bytes[..k]
    {
      if end + 1 >= dst.Length { return false, end; }
      dst[end] := bytes[k];
      assert dst[..end + 1] == old(dst[..at]) + bytes[..k] + [bytes[k]];
      assert bytes[..k + 1] == bytes[..k] + [bytes[k]];
      end, k := end + 1, k + 1;
    }
    assert bytes[..k] == bytes;
    ok := true;
  }

  method FindClose(src: seq<byte>, from: nat) returns (j: nat)
    requires from <= |src|
    ensures j == from + IndexOf(src[from..], SHUT)
  {
    j := from;
    while j < |src| && src[j] != SHUT
      invariant from <= j <= |src| && IndexOf(src[from..], SHUT) == j - from + IndexOf(src[j..], SHUT)
    {
      assert src[j..][1..] == src[j + 1..];
      j := j + 1;
    }
  }

  method FindDefault(src: seq<byte>, start: nat, end: nat) returns (nameEnd: nat, hasWord: bool)
    requires start <= end <= |src|
    ensures nameEnd == start + DefaultAt(src[start..end])
    ensures hasWord <==> DefaultAt(src[start..end]) + 2 <= end - start
  {
    var p := start;
    var body := src[start..end];
    assert body[0..] == body;
    while p + 1 < end
      invariant start <= p && (p <= end) && DefaultAt(body) == p - start + DefaultAt(body[p - start..])
    {
      var k := p - start;
      assert body[k..][0] == src[p] && body[k..][1] == src[p + 1] && body[k..][1..] == body[k + 1..];
      if src[p] == COLON && src[p + 1] == MINUS { return p, true; }
      p := p + 1;
    }
    nameEnd, hasWord := end, false;
  }

  /** What one turn of `expand` adds, and where it goes on. */
  function Turn(s: seq<byte>, env: Env, root: seq<byte>): (r: (seq<byte>, nat))
    requires s != []
    ensures 0 < r.1 <= |s|
  {
    match RefAt(s)
    case Some((r, end)) => if |r.name| < NAME_BYTES then (Replacement(r, env, root), end) else ([s[0]], 1)
    case None => ([s[0]], 1)
  }

  lemma TurnExpands(s: seq<byte>, env: Env, root: seq<byte>)
    requires s != []
    ensures var t := Turn(s, env, root); Expansion(s, env, root) == t.0 + Expansion(s[t.1..], env, root)
  {
    hide RefAt, Replacement;
  }

  /** The reference at a place of the text, if there is one that counts. */
  method FindRef(src: seq<byte>, i: nat) returns (r: Option<(Ref, nat)>)
    requires i < |src|
    ensures r == RefAt(src[i..])
  {
    var s := src[i..];
    if !(i + 1 < |src| && src[i] == DOLLAR && src[i + 1] == OPEN) { return None; }
    assert s[2..] == src[i + 2..];
    var close := FindClose(src, i + 2);
    if close == |src| { return None; }
    var nameEnd, hasWord := FindDefault(src, i + 2, close);
    ghost var body := s[2..close - i];
    assert body == src[i + 2..close];
    assert src[i + 2..nameEnd] == body[..DefaultAt(body)];
    assert hasWord ==> src[nameEnd + 2..close] == body[DefaultAt(body) + 2..];
    r := Some((Ref(src[i + 2..nameEnd], if hasWord then Some(src[nameEnd + 2..close]) else None), close + 1 - i));
  }

  /** `expand`: succeeds exactly if the expansion and its terminator fit, and then writes just that. */
  method Expand(dst: array<byte>, src: seq<byte>, env: Env, root: seq<byte>) returns (ok: bool)
    modifies dst
    ensures ok <==> |Expansion(src, env, root)| < dst.Length
    ensures ok ==>
      dst[..|Expansion(src, env, root)|] == Expansion(src, env, root) && dst[|Expansion(src, env, root)|] == 0
  {
    hide RefAt, Replacement, Expansion, Turn;
    ghost var whole := Expansion(src, env, root);
    var o: nat, i: nat := 0, 0;
    assert src[0..] == src && dst[..0] == [];
    while i < |src|
      invariant i <= |src| && o <= dst.Length
      invariant dst[..o] + Expansion(src[i..], env, root) == whole
      decreases |src| - i
    {
      var fits;
      TurnExpands(src[i..], env, root);
      ghost var turn := Turn(src[i..], env, root);
      ghost var later := Expansion(src[i..][turn.1..], env, root);
      assert src[i..][turn.1..] == src[i + turn.1..];
      var r := FindRef(src, i);
      var piece, step := OneTurn(src, i, r, env, root);
      ghost var done := dst[..o];
      assert done + (piece + later) == done + piece + later;
      fits, o := Append(dst, o, piece);
      if !fits { return false; }
      i := i + step;
    }
    assert Expansion([], env, root) == [] by { NothingExpands(env, root); }
    assert src[i..] == [] && dst[..o] == whole;
    if o >= dst.Length { return false; }
    dst[o] := 0;
    ok := true;
  }

  lemma NothingExpands(env: Env, root: seq<byte>)
    ensures Expansion([], env, root) == []
  {
  }

  method OneTurn(src: seq<byte>, i: nat, r: Option<(Ref, nat)>, env: Env, root: seq<byte>)
    returns (piece: seq<byte>, step: nat)
    requires i < |src| && r == RefAt(src[i..])
    ensures (piece, step) == Turn(src[i..], env, root)
  {
    hide RefAt;
    if r.Some? && |r.value.0.name| < NAME_BYTES {
      var v := Value(r.value.0.name, env, root);
      piece := if v.Some? && v.value != [] then v.value else if r.value.0.word.Some? then r.value.0.word.value else [];
      step := r.value.1;
    } else {
      piece, step := [src[i]], 1;
    }
  }

  // ---- a line that wraps its own variable ------------------------------------------------------

  datatype Wrap = Wrap(before: seq<byte>, own: Ref, after: seq<byte>)

  /** The first reference to a variable, with what surrounds it. */
  function OwnRef(src: seq<byte>, key: seq<byte>): Option<Wrap>
    decreases |src|
  {
    if |src| < 2 then None
    else if !Opens(src) then Behind([src[0]], OwnRef(src[1..], key))
    else
      match RefAt(src)
      case None => None
      case Some((r, end)) =>
        if r.name == key then Some(Wrap([], r, src[end..])) else Behind(src[..end], OwnRef(src[end..], key))
  }

  function Behind(front: seq<byte>, w: Option<Wrap>): Option<Wrap> {
    match w
    case None => None
    case Some(w) => Some(w.(before := front + w.before))
  }

  /** `wraps_current`. */
  predicate Wraps(env: Env, root: seq<byte>, key: seq<byte>, before: seq<byte>, after: seq<byte>) {
    var current, prefix, suffix := Get(env, key), Expansion(before, env, root), Expansion(after, env, root);
    && current.Some? && current.value != []
    && |prefix| < WRAP_BYTES && |suffix| < WRAP_BYTES
    && |current.value| >= |CString(prefix)| + |CString(suffix)|
    && current.value[..|CString(prefix)|] == CString(prefix)
    && current.value[|current.value| - |CString(suffix)|..] == CString(suffix)
  }

  /** `already_applied`. */
  predicate AlreadyApplied(env: Env, root: seq<byte>, key: seq<byte>, src: seq<byte>) {
    var w := OwnRef(src, key);
    w.Some? && Wraps(env, root, key, w.value.before, w.value.after)
  }

  /** What applying a value to a variable makes of the environment. */
  function ApplyValue(env: Env, root: seq<byte>, key: seq<byte>, src: seq<byte>): Env {
    if key == [] || AlreadyApplied(env, root, key, src) || |Expansion(src, env, root)| >= VALUE_BYTES then env
    else env[key := CString(Expansion(src, env, root))]
  }

  /** The names that the expansion of a text looks up. */
  function Names(src: seq<byte>): set<seq<byte>>
    decreases |src|
  {
    if src == [] then {}
    else
      match RefAt(src)
      case Some((r, end)) => if |r.name| < NAME_BYTES then {CString(r.name)} + Names(src[end..]) else Names(src[1..])
      case None => Names(src[1..])
  }

  /** No reference has a name that the expansion takes for text. */
  predicate ShortNames(src: seq<byte>)
    decreases |src|
  {
    src == [] ||
      match RefAt(src)
      case Some((r, end)) => |r.name| < NAME_BYTES && ShortNames(src[end..])
      case None => ShortNames(src[1..])
  }

  lemma {:induction false} OtherVariables(src: seq<byte>, env: Env, root: seq<byte>, key: seq<byte>, value: seq<byte>)
    requires key !in Names(src)
    ensures Expansion(src, env[key := value], root) == Expansion(src, env, root)
    decreases |src|
  {
    if src != [] {
      hide RefAt, CString;
      match RefAt(src)
      case Some((r, end)) =>
        if |r.name| < NAME_BYTES {
          assert key != CString(r.name);
          OtherVariables(src[end..], env, root, key, value);
        } else {
          OtherVariables(src[1..], env, root, key, value);
        }
      case None => OtherVariables(src[1..], env, root, key, value);
    }
  }

  lemma {:induction false} IndexStays(a: seq<byte>, b: seq<byte>, c: byte)
    requires IndexOf(a, c) < |a|
    ensures IndexOf(a + b, c) == IndexOf(a, c)
  {
    assert (a + b)[0] == a[0] && (a + b)[1..] == a[1..] + b;
    if a[0] != c { IndexStays(a[1..], b, c); }
  }

  /** A reference is read alike whatever follows it. */
  lemma RefStays(a: seq<byte>, b: seq<byte>)
    requires RefAt(a).Some?
    ensures RefAt(a + b) == RefAt(a) && (a + b)[RefAt(a).value.1..] == a[RefAt(a).value.1..] + b
  {
    var close := 2 + IndexOf(a[2..], SHUT);
    assert (a + b)[2..] == a[2..] + b && (a + b)[..2] == a[..2];
    IndexStays(a[2..], b, SHUT);
    assert (a + b)[2..close] == a[2..close];
  }

  lemma RefIsWhole(s: seq<byte>)
    requires RefAt(s).Some?
    ensures var end := RefAt(s).value.1; RefAt(s[..end]) == RefAt(s)
  {
    var end := RefAt(s).value.1;
    var t := s[..end];
    assert t[2..] == s[2..][..end - 2];
    assert t + s[end..] == s;
    IndexOfPrefix(s[2..], SHUT);
    assert t[2..end - 1] == s[2..end - 1];
  }

  lemma {:induction false} IndexOfPrefix(s: seq<byte>, c: byte)
    requires IndexOf(s, c) < |s|
    ensures IndexOf(s[..IndexOf(s, c) + 1], c) == IndexOf(s, c)
  {
    var t := s[..IndexOf(s, c) + 1];
    assert t[0] == s[0];
    if s[0] != c {
      assert t[1..] == s[1..][..IndexOf(s[1..], c) + 1];
      IndexOfPrefix(s[1..], c);
    }
  }

  lemma ByteInFront(c: byte, b: seq<byte>, env: Env, root: seq<byte>)
    requires !(c == DOLLAR && b != [] && b[0] == OPEN)
    ensures Expansion([c] + b, env, root) == [c] + Expansion(b, env, root) && Names([c] + b) == Names(b)
  {
    assert ([c] + b)[1..] == b;
    assert RefAt([c] + b) == None;
  }

  lemma RefInFront(s: seq<byte>, b: seq<byte>, env: Env, root: seq<byte>)
    requires RefAt(s).Some? && |RefAt(s).value.0.name| < NAME_BYTES
    ensures var (r, end) := RefAt(s).value;
      && Expansion(s[..end] + b, env, root) == Replacement(r, env, root) + Expansion(b, env, root)
      && Names(s[..end] + b) == {CString(r.name)} + Names(b)
  {
    var (r, end) := RefAt(s).value;
    RefIsWhole(s);
    RefStays(s[..end], b);
    hide RefAt, Replacement, CString;
    assert (s[..end] + b)[end..] == b;
  }

  lemma {:induction false} BeforeIsPrefix(src: seq<byte>, key: seq<byte>)
    requires OwnRef(src, key).Some?
    ensures OwnRef(src, key).value.before <= src
    decreases |src|
  {
    hide RefAt;
    if !Opens(src) {
      BeforeIsPrefix(src[1..], key);
    } else if RefAt(src).value.0.name != key {
      BeforeIsPrefix(src[RefAt(src).value.1..], key);
    }
  }

  lemma RefIsPart(s: seq<byte>)
    requires RefAt(s).Some? && NoNul(s)
    ensures NoNul(RefAt(s).value.0.name)
  {
  }

  /** A text falls into what stands before its own reference, the reference, and what stands after it. */
  lemma {:induction false} WrapIsExpanded(src: seq<byte>, key: seq<byte>, env: Env, root: seq<byte>)
    requires ShortNames(src) && NoNul(src) && OwnRef(src, key).Some?
    ensures var w := OwnRef(src, key).value;
      && w.own.name == key && key !in Names(w.before)
      && Expansion(src, env, root)
          == Expansion(w.before, env, root) + (Replacement(w.own, env, root) + Expansion(w.after, env, root))
    decreases |src|, 1
  {
    if !Opens(src) {
      WrapAfterByte(src, key, env, root);
    } else {
      WrapAfterRef(src, key, env, root);
    }
  }

  lemma {:induction false} WrapAfterByte(src: seq<byte>, key: seq<byte>, env: Env, root: seq<byte>)
    requires ShortNames(src) && NoNul(src) && OwnRef(src, key).Some? && !Opens(src)
    ensures var w := OwnRef(src, key).value;
      && w.own.name == key && key !in Names(w.before)
      && Expansion(src, env, root)
          == Expansion(w.before, env, root) + (Replacement(w.own, env, root) + Expansion(w.after, env, root))
    decreases |src|, 0
  {
    var w := OwnRef(src[1..], key).value;
    assert OwnRef(src, key) == Some(w.(before := [src[0]] + w.before));
    assert RefAt(src) == None && ShortNames(src[1..]) && NoNul(src[1..]);
    BeforeIsPrefix(src[1..], key);
    hide RefAt, Replacement, OwnRef, ShortNames;
    WrapIsExpanded(src[1..], key, env, root);
    ByteInFront(src[0], w.before, env, root);
    ByteInFront(src[0], src[1..], env, root);
    assert [src[0]] + src[1..] == src;
    Regroup([src[0]], Expansion(w.before, env, root), Replacement(w.own, env, root) + Expansion(w.after, env, root));
  }

  lemma {:induction false} WrapAfterRef(src: seq<byte>, key: seq<byte>, env: Env, root: seq<byte>)
    requires ShortNames(src) && NoNul(src) && OwnRef(src, key).Some? && Opens(src)
    ensures var w := OwnRef(src, key).value;
      && w.own.name == key && key !in Names(w.before)
      && Expansion(src, env, root)
          == Expansion(w.before, env, root) + (Replacement(w.own, env, root) + Expansion(w.after, env, root))
    decreases |src|, 0
  {
    var (r, end) := RefAt(src).value;
    RefIsPart(src);
    CStringIsItself(r.name);
    assert |r.name| < NAME_BYTES && ShortNames(src[end..]) && NoNul(src[end..]);
    if r.name == key {
      assert OwnRef(src, key) == Some(Wrap([], r, src[end..]));
      hide RefAt, Replacement, ShortNames;
      assert Expansion([], env, root) == [] && Names([]) == {};
    } else {
      var w := OwnRef(src[end..], key).value;
      assert OwnRef(src, key) == Some(w.(before := src[..end] + w.before));
      hide RefAt, Replacement, OwnRef, ShortNames, Opens, CString, NoNul;
      WrapIsExpanded(src[end..], key, env, root);
      RefInFront(src, w.before, env, root);
      RefInFront(src, src[end..], env, root);
      hide Expansion, Names;
      assert src[..end] + src[end..] == src;
      Regroup(Replacement(r, env, root), Expansion(w.before, env, root),
        Replacement(w.own, env, root) + Expansion(w.after, env, root));
    }
  }

  lemma Regroup(a: seq<byte>, b: seq<byte>, c: seq<byte>)
    ensures a + (b + c) == a + b + c
  {
  }

  lemma {:induction false} NoOwnReference(src: seq<byte>, key: seq<byte>)
    requires ShortNames(src) && NoNul(src) && OwnRef(src, key).None?
    ensures key !in Names(src)
    decreases |src|
  {
    if |src| >= 2 {
      if !Opens(src) {
        assert RefAt(src) == None && ShortNames(src[1..]) && NoNul(src[1..]);
        assert OwnRef(src[1..], key).None?;
        NoOwnReference(src[1..], key);
      } else if RefAt(src).None? {
        NeverShut(src);
      } else {
        var (r, end) := RefAt(src).value;
        RefIsPart(src);
        CStringIsItself(r.name);
        assert |r.name| < NAME_BYTES && ShortNames(src[end..]) && NoNul(src[end..]);
        hide RefAt;
        NoOwnReference(src[end..], key);
      }
    } else {
      NeverShut(src);
    }
  }

  /** Without an end in sight, nothing that follows is a reference either. */
  lemma {:induction false} NeverShut(src: seq<byte>)
    requires |src| < 2 || (Opens(src) && RefAt(src).None?)
    ensures Names(src) == {}
  {
    if |src| >= 2 {
      assert forall i :: 2 <= i < |src| ==> src[i] == src[2..][i - 2] != SHUT;
      NoEndNoNames(src);
    } else if |src| == 1 {
      assert Names(src[1..]) == {};
    }
  }

  lemma {:induction false} NoEndNoNames(src: seq<byte>)
    requires forall i :: 0 <= i < |src| ==> src[i] != SHUT
    ensures Names(src) == {}
    decreases |src|
  {
    if src != [] {
      if Opens(src) { assert IndexOf(src[2..], SHUT) == |src| - 2; }
      assert RefAt(src) == None;
      NoEndNoNames(src[1..]);
    }
  }

  lemma {:induction false} ExpansionHasNoNul(src: seq<byte>, env: Env, root: seq<byte>)
    requires NoNul(src) && Terminated(env, root)
    ensures NoNul(Expansion(src, env, root))
    decreases |src|
  {
    if src != [] {
      assert NoNul(src[1..]) && NoNul([src[0]]);
      match RefAt(src)
      case Some((r, end)) =>
        assert NoNul(src[end..]);
        if |r.name| < NAME_BYTES {
          ReplacementHasNoNul(src, env, root);
          hide RefAt, Replacement;
          ExpansionHasNoNul(src[end..], env, root);
        } else {
          hide RefAt, Replacement;
          ExpansionHasNoNul(src[1..], env, root);
        }
      case None =>
        hide RefAt, Replacement;
        ExpansionHasNoNul(src[1..], env, root);
    }
  }

  lemma ReplacementHasNoNul(s: seq<byte>, env: Env, root: seq<byte>)
    requires NoNul(s) && Terminated(env, root) && RefAt(s).Some?
    ensures NoNul(Replacement(RefAt(s).value.0, env, root))
  {
    hide CString, RootName;
  }

  /** A value that refers to its own variable at most once: nothing after the first reference depends on it. */
  predicate SingleOwnRef(src: seq<byte>, key: seq<byte>) {
    OwnRef(src, key).Some? ==> key !in Names(OwnRef(src, key).value.after)
  }

  /** A text as its own reference and what surrounds it, in an environment and in one where it was applied. */
  lemma SecondExpansion(env: Env, root: seq<byte>, key: seq<byte>, src: seq<byte>, first: seq<byte>)
    requires ShortNames(src) && NoNul(src) && key != [] && NoNul(key) && SingleOwnRef(src, key)
    requires OwnRef(src, key).Some? && first == Expansion(src, env, root)
    ensures var w := OwnRef(src, key).value; var later := env[key := first];
      && Expansion(w.before, later, root) == Expansion(w.before, env, root)
      && Expansion(w.after, later, root) == Expansion(w.after, env, root)
      && |first| >= |Expansion(w.before, env, root)| + |Expansion(w.after, env, root)|
      && first[..|Expansion(w.before, env, root)|] == Expansion(w.before, env, root)
      && first[|first| - |Expansion(w.after, env, root)|..] == Expansion(w.after, env, root)
      && (Expansion(src, later, root) == first
          || |Expansion(src, later, root)|
              == |Expansion(w.before, env, root)| + |first| + |Expansion(w.after, env, root)|)
  {
    var w := OwnRef(src, key).value;
    var later := env[key := first];
    WrapIsExpanded(src, key, env, root);
    WrapIsExpanded(src, key, later, root);
    OtherVariables(w.before, env, root, key, first);
    OtherVariables(w.after, env, root, key, first);
    CStringIsItself(key);
    hide Expansion, Names, OwnRef, ShortNames, CString;
    var p, m, s := Expansion(w.before, env, root), Replacement(w.own, env, root), Expansion(w.after, env, root);
    OwnReplacement(w.own, env, root, first);
    hide Replacement;
    Surrounded(p, m, s);
  }

  lemma Surrounded(p: seq<byte>, m: seq<byte>, s: seq<byte>)
    ensures var first := p + (m + s);
      |first| == |p| + |m| + |s| && first[..|p|] == p && first[|first| - |s|..] == s
  {
  }

  /** Once a variable holds `first`, a reference to it stands for that, unless it stands for something else anyway. */
  lemma OwnReplacement(own: Ref, env: Env, root: seq<byte>, first: seq<byte>)
    requires CString(own.name) == own.name && (first == [] ==> Replacement(own, env, root) == [])
    ensures var later := env[own.name := first];
      Replacement(own, later, root) == first || Replacement(own, later, root) == Replacement(own, env, root)
  {
    hide CString, RootName;
  }

  /** Applying a value again changes nothing, if no name in it is overlong and it refers to its own variable
      at most once. Whether its parts fit the buffers that they are compared in does not matter: where one
      does not, a second expansion is too long for the value's. */
  lemma ApplyingAgain(env: Env, root: seq<byte>, key: seq<byte>, src: seq<byte>)
    requires Terminated(env, root) && NoNul(src) && NoNul(key) && ShortNames(src) && SingleOwnRef(src, key)
    ensures ApplyValue(ApplyValue(env, root, key, src), root, key, src) == ApplyValue(env, root, key, src)
  {
    var later := ApplyValue(env, root, key, src);
    if later != env {
      var first := Expansion(src, env, root);
      ExpansionHasNoNul(src, env, root);
      CStringIsItself(first);
      hide Expansion, Names, ShortNames, Terminated, CString, OwnRef, Wraps, AlreadyApplied;
      if OwnRef(src, key).None? {
        NoOwnReference(src, key);
        OtherVariables(src, env, root, key, first);
      } else {
        WrappedAgain(env, root, key, src, first);
      }
      assert later[key := first] == later;
    }
  }

  lemma WrappedAgain(env: Env, root: seq<byte>, key: seq<byte>, src: seq<byte>, first: seq<byte>)
    requires Terminated(env, root) && NoNul(src) && key != [] && NoNul(key) && ShortNames(src) && SingleOwnRef(src, key)
    requires OwnRef(src, key).Some? && first == Expansion(src, env, root)
    ensures var later := env[key := first];
      AlreadyApplied(later, root, key, src) || Expansion(src, later, root) == first ||
        |Expansion(src, later, root)| >= VALUE_BYTES
  {
    SecondExpansion(env, root, key, src, first);
    OwnRefHasNoNul(src, key);
    SurroundingsAreStrings(env, root, OwnRef(src, key).value);
    hide Expansion, OwnRef, Names, ShortNames, Terminated, CString;
  }

  lemma {:induction false} OwnRefHasNoNul(src: seq<byte>, key: seq<byte>)
    requires NoNul(src) && OwnRef(src, key).Some?
    ensures NoNul(OwnRef(src, key).value.before) && NoNul(OwnRef(src, key).value.after)
    decreases |src|
  {
    hide RefAt;
    if !Opens(src) {
      assert NoNul(src[1..]);
      OwnRefHasNoNul(src[1..], key);
    } else {
      var end := RefAt(src).value.1;
      assert NoNul(src[end..]) && NoNul(src[..end]);
      if RefAt(src).value.0.name != key { OwnRefHasNoNul(src[end..], key); }
    }
  }

  lemma SurroundingsAreStrings(env: Env, root: seq<byte>, w: Wrap)
    requires Terminated(env, root) && NoNul(w.before) && NoNul(w.after)
    ensures CString(Expansion(w.before, env, root)) == Expansion(w.before, env, root)
    ensures CString(Expansion(w.after, env, root)) == Expansion(w.after, env, root)
  {
    ExpansionHasNoNul(w.before, env, root);
    ExpansionHasNoNul(w.after, env, root);
    CStringIsItself(Expansion(w.before, env, root));
    CStringIsItself(Expansion(w.after, env, root));
  }

  // ---- why names have to be short ------------------------------------------------------------

  function Key(): seq<byte> { [0x4B] }

  /** The reference to the variable. */
  function Own(): seq<byte> { [DOLLAR, OPEN, 0x4B, SHUT] }

  function Filler(n: nat): (s: seq<byte>)
    ensures |s| == n && forall i :: 0 <= i < n ==> s[i] == 0x41
  {
    if n == 0 then [] else [0x41] + Filler(n - 1)
  }

  /** A reference that is opened and not shut before another one is. */
  function Unshut(): seq<byte> { [DOLLAR, OPEN] + Filler(NAME_BYTES) + Own() }

  lemma {:induction false} NoDefault(body: seq<byte>)
    requires COLON !in body
    ensures DefaultAt(body) == |body|
  {
    if |body| >= 2 { NoDefault(body[1..]); }
  }

  lemma OwnIsRead()
    ensures RefAt(Own()) == Some((Ref(Key(), None), 4))
  {
    assert Own()[2..] == [0x4B, SHUT] && IndexOf([0x4B, SHUT], SHUT) == 1;
    assert Own()[2..3] == Key() && Key()[..1] == Key();
    NoDefault(Key());
    assert ReadRef(Key()) == Ref(Key(), None);
  }

  lemma UnshutIsRead()
    ensures RefAt(Unshut()).Some? && RefAt(Unshut()).value.1 == |Unshut()|
    ensures |RefAt(Unshut()).value.0.name| > NAME_BYTES
    ensures Unshut()[1..] == [OPEN] + (Filler(NAME_BYTES) + Own())
  {
    var s, tail := Unshut(), Filler(NAME_BYTES) + Own();
    assert s[2..] == tail;
    assert tail[|tail| - 1] == SHUT && forall i :: 0 <= i < |tail| - 1 ==> tail[i] != SHUT && tail[i] != COLON;
    assert IndexOf(tail, SHUT) == |tail| - 1;
    assert s[2..|s| - 1] == tail[..|tail| - 1];
    NoDefault(tail[..|tail| - 1]);
  }

  lemma {:induction false} FillerIsCopied(n: nat, env: Env, root: seq<byte>)
    ensures Expansion(Filler(n) + Own(), env, root) == Filler(n) + Expansion(Own(), env, root)
  {
    if n == 0 {
      assert Filler(0) + Own() == Own();
    } else {
      hide Expansion, Names;
      FillerIsCopied(n - 1, env, root);
      ByteInFront(0x41, Filler(n - 1) + Own(), env, root);
      Regroup([0x41], Filler(n - 1), Own());
      Regroup([0x41], Filler(n - 1), Expansion(Own(), env, root));
    }
  }

  lemma OwnExpands(env: Env, root: seq<byte>)
    requires Key() in env && env[Key()] != []
    ensures Expansion(Own(), env, root) == env[Key()]
  {
    OwnIsRead();
    CStringIsItself(Key());
    assert Own()[4..] == [];
    NothingExpands(env, root);
    assert |RootName()| == 9;
    hide RefAt, CString, RootName, Own;
    assert Replacement(Ref(Key(), None), env, root) == env[Key()];
    TurnExpands(Own(), env, root);
  }

  lemma UnshutTurn(env: Env, root: seq<byte>)
    ensures Turn(Unshut(), env, root) == ([DOLLAR], 1)
  {
    UnshutIsRead();
    assert Unshut()[0] == DOLLAR;
    hide RefAt, Replacement;
  }

  lemma OpenExpands(env: Env, root: seq<byte>)
    requires Key() in env && env[Key()] != []
    ensures Expansion([OPEN] + (Filler(NAME_BYTES) + Own()), env, root) == [OPEN] + (Filler(NAME_BYTES) + env[Key()])
  {
    OwnExpands(env, root);
    FillerIsCopied(NAME_BYTES, env, root);
    hide Expansion, RefAt, Filler, Own, Names, Key;
    ByteInFront(OPEN, Filler(NAME_BYTES) + Own(), env, root);
  }

  lemma GrownFromFirst(value: seq<byte>)
    ensures [DOLLAR] + ([OPEN] + (Filler(NAME_BYTES) + value)) == Grown(value)
  {
    hide Filler;
  }

  /** What is opened is copied, and the variable's value put behind it. */
  lemma UnshutExpands(env: Env, root: seq<byte>)
    requires Key() in env && env[Key()] != []
    ensures Expansion(Unshut(), env, root) == Grown(env[Key()])
  {
    UnshutIsRead();
    OpenExpands(env, root);
    UnshutTurn(env, root);
    assert Unshut() != [];
    hide Expansion, RefAt, Filler, Own, Unshut, Turn, Names, Key, Grown;
    TurnExpands(Unshut(), env, root);
    GrownFromFirst(env[Key()]);
  }

  function Grown(value: seq<byte>): (r: seq<byte>)
    ensures |r| == 2 + NAME_BYTES + |value|
  {
    [DOLLAR, OPEN] + Filler(NAME_BYTES) + value
  }

  lemma GrownHasNoNul(value: seq<byte>)
    requires NoNul(value)
    ensures NoNul(Grown(value))
  {
    forall i | 0 <= i < |Grown(value)| ensures Grown(value)[i] != 0 {
      if i >= 2 && i < 2 + NAME_BYTES { assert Grown(value)[i] == Filler(NAME_BYTES)[i - 2]; }
      else if i >= 2 { assert Grown(value)[i] == value[i - 2 - NAME_BYTES]; }
    }
  }

  lemma UnshutIsPlain()
    ensures NoNul(Unshut()) && OwnRef(Unshut(), Key()).None? && !ShortNames(Unshut())
  {
    UnshutIsRead();
    GrownHasNoNul(Own());
    assert Unshut()[|Unshut()|..] == [] && OwnRef([], Key()) == None && |Key()| == 1;
    assert Opens(Unshut());
    hide RefAt, Unshut, Key;
  }

  lemma AppliedOnce(env: Env, root: seq<byte>)
    requires Terminated(env, root) && Key() in env && 0 < |env[Key()]| < VALUE_BYTES - NAME_BYTES - 2
    ensures ApplyValue(env, root, Key(), Unshut()) == env[Key() := Grown(env[Key()])]
  {
    UnshutIsPlain();
    UnshutExpands(env, root);
    GrownHasNoNul(env[Key()]);
    CStringIsItself(Grown(env[Key()]));
    assert Key() != [];
    hide Expansion, Unshut, OwnRef, ShortNames, CString, Grown, Key;
  }

  /** A reference with an overlong name is text to the expansion, but hides what it contains from the
      search for the own reference: with one, a value grows each time it is applied. */
  lemma OverlongNameGrows(env: Env, root: seq<byte>)
    requires Terminated(env, root) && Key() in env && 0 < |env[Key()]| < WRAP_BYTES
    ensures NoNul(Unshut()) && SingleOwnRef(Unshut(), Key()) && !ShortNames(Unshut())
    ensures var once := ApplyValue(env, root, Key(), Unshut()); ApplyValue(once, root, Key(), Unshut()) != once
  {
    UnshutIsPlain();
    AppliedOnce(env, root);
    GrownHasNoNul(env[Key()]);
    hide ApplyValue, Unshut, OwnRef, ShortNames, Names, Key, Grown;
    var once := env[Key() := Grown(env[Key()])];
    AppliedOnce(once, root);
    assert once[Key() := Grown(once[Key()])][Key()] == Grown(once[Key()]);
  }
}
