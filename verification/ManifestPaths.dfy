/** The paths that a manifest gives its entries, the check on symbolic links, and the
    builder of its string table, from `crates/onelf-format/src/manifest.rs`.
 */
module ManifestPaths {
  import opened Bytes
  import opened ManifestCodec
  import Rules

  // ---- entry paths -----------------------------------------------------------------------

  function NameOf(m: Manifest, i: nat): seq<byte>
    requires i < |m.entries|
  {
    GetString(m.strings, m.entries[i].name)
  }

  /** The names from an entry up to the top, ending before the first empty one. */
  function Climb(m: Manifest, i: nat): seq<seq<byte>>
    requires Valid(m) && i < |m.entries|
    decreases i
  {
    assert ValidEntry(m, i);
    if NameOf(m, i) == [] then []
    else if m.entries[i].parent == TOP then [NameOf(m, i)]
    else [NameOf(m, i)] + Climb(m, m.entries[i].parent)
  }

  /** The same walk on any manifest, in at most `steps` steps. */
  function Walk(m: Manifest, i: nat, steps: nat): seq<seq<byte>>
    decreases steps
  {
    if steps == 0 || i >= |m.entries| || NameOf(m, i) == [] then []
    else if m.entries[i].parent == TOP then [NameOf(m, i)]
    else [NameOf(m, i)] + Walk(m, m.entries[i].parent, steps - 1)
  }

  /** On a manifest that `deserialize` accepts, as many steps as there are entries never cut the walk short. */
  lemma {:induction false} WalkIsNeverCut(m: Manifest, i: nat, steps: nat)
    requires Valid(m) && i < |m.entries| && steps > i
    ensures Walk(m, i, steps) == Climb(m, i)
    decreases i
  {
    hide NameOf;
    assert ValidEntry(m, i);
    if NameOf(m, i) != [] && m.entries[i].parent != TOP { WalkIsNeverCut(m, m.entries[i].parent, steps - 1); }
  }

  function Reversed<T>(s: seq<T>): (r: seq<T>)
    ensures |r| == |s| && forall i :: 0 <= i < |s| ==> r[i] == s[|s| - 1 - i]
  {
    if s == [] then [] else Reversed(s[1..]) + [s[0]]
  }

  method Reverse<T>(s: seq<T>) returns (r: seq<T>)
    ensures r == Reversed(s)
  {
    r := [];
    for i := 0 to |s|
      invariant |r| == i && forall k :: 0 <= k < i ==> r[k] == s[i - 1 - k]
    {
      r := [s[i]] + r;
    }
  }

  /** `entry_path`: ends on every manifest, and is the whole climb on a valid one. */
  method EntryPath(m: Manifest, index: nat) returns (path: seq<byte>)
    ensures path == Rules.Join(Reversed(Walk(m, index, |m.entries| + 1)))
    ensures Valid(m) && index < |m.entries| ==> path == Rules.Join(Reversed(Climb(m, index)))
  {
    hide Valid, NameOf, Rules.Join, Reversed;
    var parts: seq<seq<byte>>, at: nat := [], index;
    ghost var left: nat := |m.entries| + 1;
    assert [] + Walk(m, index, left) == Walk(m, index, left);
    for i := 0 to |m.entries| + 1
      invariant left == |m.entries| + 1 - i
      invariant parts + Walk(m, at, left) == Walk(m, index, |m.entries| + 1)
    {
      if at >= |m.entries| { break; }
      var name := NameOf(m, at);
      if name == [] { break; }
      parts := parts + [name];
      if m.entries[at].parent == TOP { left := 0; break; }
      at := m.entries[at].parent;
      left := left - 1;
    }
    assert Walk(m, at, left) == [];
    assert parts == Walk(m, index, |m.entries| + 1);
    if Valid(m) && index < |m.entries| { WalkIsNeverCut(m, index, |m.entries| + 1); }
    parts := Reverse(parts);
    path := Join(parts);
  }

  method Join(parts: seq<seq<byte>>) returns (path: seq<byte>)
    ensures path == Rules.Join(parts)
  {
    if parts == [] { return []; }
    path := parts[|parts| - 1];
    var i := |parts| - 1;
    while i > 0
      invariant 0 <= i < |parts| && path == Rules.Join(parts[i..])
    {
      i := i - 1;
      assert parts[i..][1..] == parts[i + 1..];
      path := parts[i] + [Rules.SLASH] + path;
    }
    assert parts[0..] == parts;
  }

  /** One plain component of a path. */
  predicate SafeComponent(name: seq<byte>) {
    name != [] && name != [0x2E] && name != [0x2E, 0x2E] && Rules.SLASH !in name && 0 !in name
  }

  predicate AllSafe(names: seq<seq<byte>>) { forall i :: 0 <= i < |names| ==> SafeComponent(names[i]) }

  /** The checked walk, which looks at any manifest: every parent comes before its child. */
  function SafeWalk(m: Manifest, i: nat): Option<seq<seq<byte>>>
    decreases i
  {
    if i >= |m.entries| then None
    else if NameOf(m, i) == [] then Some([])
    else if !SafeComponent(NameOf(m, i)) then None
    else if m.entries[i].parent == TOP then Some([NameOf(m, i)])
    else if m.entries[i].parent >= i then None
    else
      match SafeWalk(m, m.entries[i].parent)
      case None => None
      case Some(above) => Some([NameOf(m, i)] + above)
  }

  function After(parts: seq<seq<byte>>, walk: Option<seq<seq<byte>>>): Option<seq<seq<byte>>> {
    match walk
    case None => None
    case Some(above) => Some(parts + above)
  }

  lemma AfterNothing(walk: Option<seq<seq<byte>>>)
    ensures After([], walk) == walk
  {
    if walk.Some? { assert [] + walk.value == walk.value; }
  }

  lemma AfterStep(m: Manifest, at: nat, parts: seq<seq<byte>>)
    requires at < |m.entries| && NameOf(m, at) != [] && SafeComponent(NameOf(m, at))
    ensures m.entries[at].parent == TOP ==> After(parts, SafeWalk(m, at)) == Some(parts + [NameOf(m, at)])
    ensures m.entries[at].parent < at && m.entries[at].parent != TOP ==>
      After(parts, SafeWalk(m, at)) == After(parts + [NameOf(m, at)], SafeWalk(m, m.entries[at].parent))
  {
    if m.entries[at].parent < at && m.entries[at].parent != TOP && SafeWalk(m, m.entries[at].parent).Some? {
      var above := SafeWalk(m, m.entries[at].parent).value;
      assert parts + ([NameOf(m, at)] + above) == parts + [NameOf(m, at)] + above;
    }
  }

  /** `validated_entry_path`, component by component. The bound on its loop is never what ends it. */
  method ValidatedEntryPath(m: Manifest, index: nat) returns (path: Option<seq<seq<byte>>>)
    ensures path.Some? <==> SafeWalk(m, index).Some?
    ensures path.Some? ==> path.value == Reversed(SafeWalk(m, index).value)
  {
    hide NameOf, GetString, SafeComponent, Reversed;
    var parts: seq<seq<byte>>, at: nat := [], index;
    AfterNothing(SafeWalk(m, index));
    for i := 0 to |m.entries| + 1
      invariant i > 0 ==> at + i <= |m.entries|
      invariant After(parts, SafeWalk(m, at)) == SafeWalk(m, index)
    {
      if at >= |m.entries| { return None; }
      var name := NameOf(m, at);
      if name == [] {
        assert parts + [] == parts;
        assert After(parts, SafeWalk(m, at)) == Some(parts);
        break;
      }
      if !SafeComponent(name) { return None; }
      AfterStep(m, at, parts);
      parts := parts + [name];
      if m.entries[at].parent == TOP { break; }
      if m.entries[at].parent >= at { return None; }
      at := m.entries[at].parent;
    }
    assert SafeWalk(m, index) == Some(parts);
    var reversed := Reverse(parts);
    path := Some(reversed);
  }

  /** Whatever the manifest, a path that is returned has only plain components. */
  lemma {:induction false} CheckedPathIsSafe(m: Manifest, i: nat)
    requires SafeWalk(m, i).Some?
    ensures AllSafe(SafeWalk(m, i).value) && |SafeWalk(m, i).value| <= i + 1
    decreases i
  {
    if NameOf(m, i) != [] && m.entries[i].parent != TOP { CheckedPathIsSafe(m, m.entries[i].parent); }
  }

  /** On an accepted manifest the check fails exactly where some name on the way up is not a plain component. */
  lemma {:induction false} CheckedExactly(m: Manifest, i: nat)
    requires Valid(m) && i < |m.entries|
    ensures SafeWalk(m, i).Some? <==> AllSafe(Climb(m, i))
    ensures SafeWalk(m, i).Some? ==> SafeWalk(m, i).value == Climb(m, i)
    decreases i
  {
    hide GetString, SafeComponent;
    assert ValidEntry(m, i);
    if NameOf(m, i) != [] {
      assert Climb(m, i)[0] == NameOf(m, i);
      if m.entries[i].parent != TOP {
        CheckedExactly(m, m.entries[i].parent);
        assert forall k :: 0 <= k < |Climb(m, m.entries[i].parent)| ==>
            Climb(m, i)[k + 1] == Climb(m, m.entries[i].parent)[k];
      }
    }
  }

  /** The checked components are those of the unchecked text: splitting `entry_path` at its slashes gives them back. */
  lemma TextHasTheCheckedComponents(m: Manifest, i: nat)
    requires Valid(m) && i < |m.entries| && SafeWalk(m, i).Some? && SafeWalk(m, i).value != []
    ensures var text := Rules.Join(Reversed(Climb(m, i)));
      Rules.Split(text) == Reversed(SafeWalk(m, i).value) && [0x2E, 0x2E] !in Rules.Split(text) &&
        text[0] != Rules.SLASH
  {
    hide GetString, Valid;
    CheckedExactly(m, i);
    CheckedPathIsSafe(m, i);
    var parts := Reversed(Climb(m, i));
    forall k | 0 <= k < |parts| ensures Rules.NoSlash(parts[k]) && SafeComponent(parts[k]) {
      assert SafeComponent(Climb(m, i)[|parts| - 1 - k]);
    }
    Rules.SplitJoin(parts);
    Rules.NormalIsRelative(parts);
  }
}
