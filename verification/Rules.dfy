/** The validated names of `crates/onelf-format/src/rules.rs`, and the runtime rules built from them. */
module Rules {
  import opened Bytes

  const MAX_ID_BYTES := 128
  const MAX_PATH_BYTES := 4096

  // ---- identities ------------------------------------------------------------------

  predicate Alphabetic(b: byte) { 0x41 <= b <= 0x5A || 0x61 <= b <= 0x7A }

  predicate Digit(b: byte) { 0x30 <= b <= 0x39 }

  predicate Alphanumeric(b: byte) { Alphabetic(b) || Digit(b) }

  predicate Control(b: byte) { b < 0x20 || b == 0x7F }

  /** What `RuleId::new` accepts. */
  predicate RuleId(s: seq<byte>) {
    && |s| <= MAX_ID_BYTES
    && s != [] && Alphanumeric(s[0])
    && forall i :: 0 <= i < |s| ==> Alphanumeric(s[i]) || s[i] == 0x2E || s[i] == 0x5F || s[i] == 0x2D
  }

  /** What `RuleId::set_name` accepts: an identity without dots. */
  predicate SetName(s: seq<byte>) { RuleId(s) && 0x2E !in s }

  predicate EnvironmentByte(b: byte) { Alphanumeric(b) || b == 0x5F }

  /** What `EnvironmentName::new` accepts. */
  predicate EnvironmentName(s: seq<byte>) {
    && |s| <= MAX_ID_BYTES
    && s != [] && !Digit(s[0])
    && (forall i :: 0 <= i < |s| ==> EnvironmentByte(s[i]))
    && !StartsWith(s, Ascii("LD_")) && s != Ascii("GCONV_PATH") && s != Ascii("GLIBC_TUNABLES")
    && !StartsWith(s, Ascii("ONELF_"))
  }

  lemma IdentitiesAreUtf8(s: seq<byte>)
    requires RuleId(s) || EnvironmentName(s)
    ensures Utf8(s)
  {
    AsciiIsUtf8(s);
  }

  // ---- relative paths ----------------------------------------------------------------

  const SLASH: byte := 0x2F

  predicate NoSlash(s: seq<byte>) { forall i :: 0 <= i < |s| ==> s[i] != SLASH }

  /** The parts between slashes. There is always at least one. */
  function Split(s: seq<byte>): (parts: seq<seq<byte>>)
    ensures |parts| > 0 && forall i :: 0 <= i < |parts| ==> NoSlash(parts[i])
  {
    if s == [] then [[]]
    else
      var rest := Split(s[1..]);
      if s[0] == SLASH then [[]] + rest else [[s[0]] + rest[0]] + rest[1..]
  }

  function Join(parts: seq<seq<byte>>): seq<byte> {
    if parts == [] then []
    else if |parts| == 1 then parts[0]
    else parts[0] + [SLASH] + Join(parts[1..])
  }

  /** Neither empty nor a single dot. */
  predicate Kept(part: seq<byte>) { part != [] && part != [0x2E] }

  function Keep(parts: seq<seq<byte>>): (kept: seq<seq<byte>>)
    ensures forall i :: 0 <= i < |kept| ==> Kept(kept[i]) && kept[i] in parts
  {
    if parts == [] then [] else (if Kept(parts[0]) then [parts[0]] else []) + Keep(parts[1..])
  }

  predicate Drive(part: seq<byte>) { |part| >= 2 && part[1] == 0x3A && Alphabetic(part[0]) }

  predicate Plain(s: seq<byte>) { forall i :: 0 <= i < |s| ==> s[i] != 0x5C && !Control(s[i]) }

  /** `RelativePath::new`: the normal form of a confined relative path. */
  function RelativePath(value: seq<byte>): Option<seq<byte>> {
    var parts := Split(value);
    var kept := Keep(parts);
    if |value| > MAX_PATH_BYTES then None
    else if StartsWith(value, [SLASH]) || Drive(if kept == [] then [] else kept[0]) || !Plain(value) ||
      [0x2E, 0x2E] in parts
    then None
    else if Join(kept) == [] then None
    else Some(Join(kept))
  }

  lemma {:induction false} JoinSplit(s: seq<byte>)
    ensures Join(Split(s)) == s
  {
    if s != [] {
      JoinSplit(s[1..]);
      var rest := Split(s[1..]);
      if s[0] == SLASH {
        assert ([[]] + rest)[1..] == rest;
      } else {
        assert Split(s)[1..] == rest[1..];
      }
    }
  }

  lemma {:induction false} SplitPart(p: seq<byte>)
    requires NoSlash(p)
    ensures Split(p) == [p]
  {
    if p != [] {
      SplitPart(p[1..]);
      assert [p[0]] + p[1..] == p;
    }
  }

  lemma {:induction false} SplitAfter(p: seq<byte>, s: seq<byte>)
    requires NoSlash(p)
    ensures Split(p + [SLASH] + s) == [p] + Split(s)
  {
    var whole := p + [SLASH] + s;
    if p == [] {
      assert whole[1..] == s;
    } else {
      SplitAfter(p[1..], s);
      assert whole[1..] == p[1..] + [SLASH] + s;
      assert Split(whole)[0] == p;
    }
  }

  lemma {:induction false} SplitJoin(parts: seq<seq<byte>>)
    requires parts != [] && forall i :: 0 <= i < |parts| ==> NoSlash(parts[i])
    ensures Split(Join(parts)) == parts
  {
    if |parts| == 1 {
      SplitPart(parts[0]);
    } else {
      SplitJoin(parts[1..]);
      SplitAfter(parts[0], Join(parts[1..]));
    }
  }

  lemma {:induction false} KeepAll(parts: seq<seq<byte>>)
    requires forall i :: 0 <= i < |parts| ==> Kept(parts[i])
    ensures Keep(parts) == parts
  {
    if parts != [] { KeepAll(parts[1..]); }
  }

  lemma {:induction false} KeepShortens(parts: seq<seq<byte>>)
    ensures |Join(Keep(parts))| <= |Join(parts)|
  {
    if |parts| > 1 {
      var rest := Keep(parts[1..]);
      KeepShortens(parts[1..]);
      assert Keep(parts) == if Kept(parts[0]) then [parts[0]] + rest else rest;
      assert Join(parts) == parts[0] + [SLASH] + Join(parts[1..]);
      assert ([parts[0]] + rest)[1..] == rest;
    } else if parts != [] {
      assert Keep(parts[1..]) == [];
    }
  }

  lemma {:induction false} JoinBytes(parts: seq<seq<byte>>, k: nat)
    requires k < |Join(parts)|
    ensures Join(parts)[k] == SLASH || exists i :: 0 <= i < |parts| && Join(parts)[k] in parts[i]
  {
    if |parts| == 1 {
      assert Join(parts)[k] in parts[0];
    } else if k < |parts[0]| {
      assert Join(parts)[k] in parts[0];
    } else if k > |parts[0]| {
      var j := k - |parts[0]| - 1;
      JoinBytes(parts[1..], j);
      if Join(parts)[k] != SLASH {
        var i :| 0 <= i < |parts[1..]| && Join(parts[1..])[j] in parts[1..][i];
        assert Join(parts)[k] in parts[i + 1];
      }
    }
  }

  lemma {:induction false} SplitBytes(s: seq<byte>, i: nat, b: byte)
    requires i < |Split(s)| && b in Split(s)[i]
    ensures b in s
  {
    if s != [] {
      var rest := Split(s[1..]);
      if s[0] == SLASH {
        SplitBytes(s[1..], i - 1, b);
      } else if i > 0 || b in rest[0] {
        SplitBytes(s[1..], i, b);
      }
    }
  }

  lemma NormalIsPlain(value: seq<byte>)
    requires Plain(value)
    ensures Plain(Join(Keep(Split(value))))
  {
    var kept := Keep(Split(value));
    forall k | 0 <= k < |Join(kept)|
      ensures Join(kept)[k] != 0x5C && !Control(Join(kept)[k])
    {
      JoinBytes(kept, k);
      if Join(kept)[k] != SLASH {
        var i :| 0 <= i < |kept| && Join(kept)[k] in kept[i];
        var j :| 0 <= j < |Split(value)| && Split(value)[j] == kept[i];
        SplitBytes(value, j, Join(kept)[k]);
      }
    }
  }

  lemma NormalIsRelative(kept: seq<seq<byte>>)
    requires kept != [] && Kept(kept[0]) && NoSlash(kept[0])
    ensures Join(kept) != [] && !StartsWith(Join(kept), [SLASH])
  {
    assert Join(kept)[0] == kept[0][0];
  }

  /** A normalised path is its own normal form, so writing one and reading it back refuses nothing. */
  lemma NormalFormIsStable(value: seq<byte>)
    requires RelativePath(value).Some?
    ensures RelativePath(RelativePath(value).value) == RelativePath(value)
  {
    var kept := Keep(Split(value));
    var path := Join(kept);
    assert kept != [];
    SplitJoin(kept);
    KeepAll(kept);
    JoinSplit(value);
    KeepShortens(Split(value));
    NormalIsPlain(value);
    NormalIsRelative(kept);
  }

  /** No part of a normalised path is empty, `.` or `..`, and there is at least one. */
  lemma NormalFormIsConfined(path: seq<byte>)
    requires RelativePath(path) == Some(path)
    ensures forall i :: 0 <= i < |Split(path)| ==> Kept(Split(path)[i]) && Split(path)[i] != [0x2E, 0x2E]
  {
    var kept := Keep(Split(path));
    SplitJoin(kept);
  }

  // ---- UTF-8 of the parts ---------------------------------------------------------------

  lemma InsideACharacter(s: seq<byte>, n: nat)
    requires 0 < n <= |s| && Character(s[..n])
    ensures forall k :: 1 <= k < n ==> s[k] != SLASH
  {
    forall k | 1 <= k < n ensures s[k] != SLASH { assert Tail(s[..n][k]); }
  }

  lemma {:induction false} Utf8Split(a: seq<byte>, b: seq<byte>)
    ensures Utf8(a + [SLASH] + b) ==> Utf8(a) && Utf8(b)
    decreases |a|
  {
    var s := a + [SLASH] + b;
    if a == [] {
      assert s[1..] == b;
    } else if Utf8(s) {
      var n := Width(s[0]);
      InsideACharacter(s, n);
      assert s[|a|] == SLASH;
      assert s[..n] == a[..n];
      assert s[n..] == a[n..] + [SLASH] + b;
      Utf8Split(a[n..], b);
    }
  }

  lemma {:induction false} Utf8Join(a: seq<byte>, b: seq<byte>)
    requires Utf8(a) && Utf8(b)
    ensures Utf8(a + b)
    decreases |a|
  {
    if a == [] {
      assert a + b == b;
    } else {
      var n := Width(a[0]);
      assert (a + b)[..n] == a[..n];
      assert (a + b)[n..] == a[n..] + b;
      Utf8Join(a[n..], b);
    }
  }

  lemma {:induction false} PartsAreUtf8(parts: seq<seq<byte>>)
    requires parts != [] && Utf8(Join(parts))
    ensures forall i :: 0 <= i < |parts| ==> Utf8(parts[i])
  {
    if |parts| > 1 {
      Utf8Split(parts[0], Join(parts[1..]));
      PartsAreUtf8(parts[1..]);
    }
  }

  lemma {:induction false} JoinIsUtf8(parts: seq<seq<byte>>)
    requires forall i :: 0 <= i < |parts| ==> Utf8(parts[i])
    ensures Utf8(Join(parts))
  {
    if |parts| > 1 {
      JoinIsUtf8(parts[1..]);
      assert Utf8([SLASH]);
      Utf8Join(parts[0], [SLASH]);
      Utf8Join(parts[0] + [SLASH], Join(parts[1..]));
    }
  }

  /** Normalising keeps text well-formed. */
  lemma NormalFormIsUtf8(value: seq<byte>)
    requires Utf8(value) && RelativePath(value).Some?
    ensures Utf8(RelativePath(value).value)
  {
    JoinSplit(value);
    PartsAreUtf8(Split(value));
    var kept := Keep(Split(value));
    forall i | 0 <= i < |kept| ensures Utf8(kept[i]) {
      var j :| 0 <= j < |Split(value)| && Split(value)[j] == kept[i];
    }
    JoinIsUtf8(kept);
  }
}
