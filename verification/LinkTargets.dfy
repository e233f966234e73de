/** The lexical check on symbolic links in `crates/onelf-format/src/manifest.rs`: a link is
    kept when following it component by component never leaves the root.
 */
module LinkTargets {
  import opened Bytes
  import Rules

  /** A component of a path, as the standard library yields them on Unix. */
  datatype Step = Root | Here | Up | Down(name: seq<byte>)

  function Steps(parts: seq<seq<byte>>): seq<Step> {
    if parts == [] then []
    else
      (if !Rules.Kept(parts[0]) then [] else if parts[0] == [0x2E, 0x2E] then [Up] else [Down(parts[0])])
      + Steps(parts[1..])
  }

  /** A dot counts only at the start, an empty part never. */
  function Components(path: seq<byte>): seq<Step> {
    (if StartsWith(path, [Rules.SLASH]) then [Root] else if Rules.Split(path)[0] == [0x2E] then [Here] else [])
    + Steps(Rules.Split(path))
  }

  /** The components of the directory that a path is in. The root and the empty path are in none. */
  function ParentSteps(path: seq<byte>): seq<Step> {
    var all := Components(path);
    if all == [] || all[|all| - 1].Root? then [] else all[..|all| - 1]
  }

  /** How far below its start a walk is at its end, if it is never stopped above it. */
  function Depth(steps: seq<Step>): int {
    if steps == [] then 0
    else
      var last := steps[|steps| - 1];
      Depth(steps[..|steps| - 1]) + (if last.Down? then 1 else if last.Up? then -1 else 0)
  }

  /** At no point is the walk above where `start` levels are. */
  predicate StaysInside(start: int, steps: seq<Step>) {
    Root !in steps && forall k :: 0 <= k <= |steps| ==> start + Depth(steps[..k]) >= 0
  }

  lemma {:induction false} DepthAdds(a: seq<Step>, b: seq<Step>)
    ensures Depth(a + b) == Depth(a) + Depth(b)
  {
    if b == [] {
      assert a + b == a;
    } else {
      DepthAdds(a, b[..|b| - 1]);
      assert (a + b)[..|a + b| - 1] == a + b[..|b| - 1];
    }
  }

  lemma InsideInTwoParts(start: nat, a: seq<Step>, b: seq<Step>)
    requires StaysInside(start, a)
    ensures StaysInside(start, a + b) <==> StaysInside(start + Depth(a), b)
  {
    assert a[..|a|] == a;
    forall k | 0 <= k <= |b| ensures Depth((a + b)[..|a| + k]) == Depth(a) + Depth(b[..k]) {
      assert (a + b)[..|a| + k] == a + b[..k];
      DepthAdds(a, b[..k]);
    }
    forall k | 0 <= k <= |a| ensures (a + b)[..k] == a[..k] {}
    if StaysInside(start + Depth(a), b) {
      forall k | 0 <= k <= |a + b| ensures start + Depth((a + b)[..k]) >= 0 {
        if k > |a| { assert start + Depth(a) + Depth(b[..k - |a|]) >= 0; }
      }
    }
    if StaysInside(start, a + b) {
      forall k | 0 <= k <= |b| ensures start + Depth(a) + Depth(b[..k]) >= 0 {
        assert start + Depth((a + b)[..|a| + k]) >= 0;
      }
      assert forall i :: 0 <= i < |b| ==> b[i] == (a + b)[|a| + i];
    }
  }

  lemma FirstPartStaysInside(start: nat, a: seq<Step>, b: seq<Step>)
    requires StaysInside(start, a + b)
    ensures StaysInside(start, a)
  {
    forall k | 0 <= k <= |a| ensures start + Depth(a[..k]) >= 0 {
      assert (a + b)[..k] == a[..k];
    }
  }

  lemma Stopped(start: nat, steps: seq<Step>, i: nat)
    requires i < |steps| && StaysInside(start, steps[..i])
    requires steps[i].Root? || (steps[i].Up? && start + Depth(steps[..i]) == 0)
    ensures !StaysInside(start, steps)
  {
    assert steps[..i + 1][..i] == steps[..i];
  }

  lemma Continued(start: nat, steps: seq<Step>, i: nat)
    requires i < |steps| && StaysInside(start, steps[..i])
    requires !steps[i].Root? && (steps[i].Up? ==> start + Depth(steps[..i]) > 0)
    ensures StaysInside(start, steps[..i + 1])
    ensures Depth(steps[..i + 1]) == Depth(steps[..i]) + (if steps[i].Down? then 1 else if steps[i].Up? then -1 else 0)
  {
    var next := steps[..i + 1];
    assert next[..i] == steps[..i] && next[..i + 1] == next;
    assert Depth(next) == Depth(next[..i]) + (if next[i].Down? then 1 else if next[i].Up? then -1 else 0);
    assert steps[..i][..i] == steps[..i];
    forall k | 0 <= k <= |next| ensures start + Depth(next[..k]) >= 0 {
      if k <= i {
        assert next[..k] == steps[..i][..k];
      } else {
        assert next[..k] == next;
      }
    }
  }

  /** Takes the steps on a stack of names. */
  method Follow(stack: seq<seq<byte>>, steps: seq<Step>) returns (ok: bool, end: seq<seq<byte>>)
    ensures ok <==> StaysInside(|stack|, steps)
    ensures ok ==> |end| == |stack| + Depth(steps)
  {
    assert StaysInside(|stack|, steps[..0]) && Depth(steps[..0]) == 0;
    hide StaysInside, Depth;
    end := stack;
    for i := 0 to |steps|
      invariant StaysInside(|stack|, steps[..i]) && |end| == |stack| + Depth(steps[..i])
    {
      match steps[i]
      case Root =>
        Stopped(|stack|, steps, i);
        return false, end;
      case Here => Continued(|stack|, steps, i);
      case Up =>
        if end == [] {
          Stopped(|stack|, steps, i);
          return false, end;
        }
        Continued(|stack|, steps, i);
        end := end[..|end| - 1];
      case Down(name) =>
        Continued(|stack|, steps, i);
        end := end + [name];
    }
    assert steps[..|steps|] == steps;
    ok := true;
  }

  /** `symlink_target_within_root`: exactly the relative targets that, taken from the link's own
      directory, never climb above the root. */
  method TargetWithinRoot(link: seq<byte>, target: seq<byte>) returns (ok: bool)
    ensures ok <==>
      && target != [] && target[0] != Rules.SLASH
      && StaysInside(0, ParentSteps(link) + Components(target))
  {
    hide StaysInside, Depth, ParentSteps, Components;
    if target == [] { return false; }
    if target[0] == Rules.SLASH { return false; }
    var inside, stack := Follow([], ParentSteps(link));
    if !inside {
      if StaysInside(0, ParentSteps(link) + Components(target)) {
        FirstPartStaysInside(0, ParentSteps(link), Components(target));
      }
      return false;
    }
    InsideInTwoParts(0, ParentSteps(link), Components(target));
    ok, stack := Follow(stack, Components(target));
  }

  /** What a checked path and an accepted target lead to: a plain path below the root, as long as the walk is deep. */
  function Landing(stack: seq<seq<byte>>, steps: seq<Step>): seq<seq<byte>>
    decreases |steps|
  {
    if steps == [] then stack
    else
      var rest := Landing(stack, steps[..|steps| - 1]);
      match steps[|steps| - 1]
      case Down(name) => rest + [name]
      case Up => if rest == [] then [] else rest[..|rest| - 1]
      case _ => rest
  }

  predicate Plain(steps: seq<Step>) {
    forall s :: s in steps && s.Down? ==> Rules.Kept(s.name) && s.name != [0x2E, 0x2E] && Rules.NoSlash(s.name)
  }

  lemma {:induction false} StepsArePlain(parts: seq<seq<byte>>)
    requires forall i :: 0 <= i < |parts| ==> Rules.NoSlash(parts[i])
    ensures Plain(Steps(parts))
  {
    if parts != [] { StepsArePlain(parts[1..]); }
  }

  lemma ComponentsOfAPathArePlain(path: seq<byte>)
    ensures Plain(Components(path))
  {
    StepsArePlain(Rules.Split(path));
    hide Steps, Rules.Split, Rules.Kept, Rules.NoSlash, StartsWith;
  }

  lemma PlainTogether(a: seq<Step>, b: seq<Step>, n: nat)
    requires Plain(a) && Plain(b) && n <= |a|
    ensures Plain(a[..n] + b)
  {
    hide Rules.Kept, Rules.NoSlash;
  }

  lemma ComponentsArePlain(link: seq<byte>, target: seq<byte>)
    ensures Plain(ParentSteps(link) + Components(target))
  {
    ComponentsOfAPathArePlain(link);
    ComponentsOfAPathArePlain(target);
    hide Components, Plain;
    var all := Components(link);
    var n := if all == [] || all[|all| - 1].Root? then 0 else |all| - 1;
    assert ParentSteps(link) == all[..n];
    PlainTogether(all, Components(target), n);
  }

  lemma {:induction false} LandingIsPlain(steps: seq<Step>)
    requires Plain(steps) && StaysInside(0, steps)
    ensures |Landing([], steps)| == Depth(steps)
    ensures forall i :: 0 <= i < |Landing([], steps)| ==> Down(Landing([], steps)[i]) in steps
  {
    if steps != [] {
      var shorter := steps[..|steps| - 1];
      assert steps == shorter + [steps[|steps| - 1]];
      FirstPartStaysInside(0, shorter, [steps[|steps| - 1]]);
      LandingIsPlain(shorter);
      assert steps[..|steps|] == steps;
    }
  }

  /** Where an accepted link leads, joined as text and split again, is made of plain components only. */
  lemma AcceptedTargetsLandInside(link: seq<byte>, target: seq<byte>)
    requires StaysInside(0, ParentSteps(link) + Components(target))
    requires Landing([], ParentSteps(link) + Components(target)) != []
    ensures var place := Landing([], ParentSteps(link) + Components(target));
      Rules.Split(Rules.Join(place)) == place && [0x2E, 0x2E] !in place && !StartsWith(Rules.Join(place), [Rules.SLASH])
  {
    var all := ParentSteps(link) + Components(target);
    ComponentsArePlain(link, target);
    LandingIsPlain(all);
    hide ParentSteps, Components, Landing, StaysInside, Depth, Rules.Kept, Rules.NoSlash;
    var place := Landing([], all);
    forall i | 0 <= i < |place| ensures Rules.NoSlash(place[i]) && Rules.Kept(place[i]) && place[i] != [0x2E, 0x2E] {
      assert Down(place[i]) in all;
    }
    hide Plain;
    Rules.SplitJoin(place);
    assert place[0] in place;
    Rules.NormalIsRelative(place);
    NotAmong(place);
  }

  lemma NotAmong(place: seq<seq<byte>>)
    requires forall i :: 0 <= i < |place| ==> place[i] != [0x2E, 0x2E]
    ensures [0x2E, 0x2E] !in place
  {
  }
}
