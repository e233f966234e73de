/** The path patterns of `crates/onelf-rt/src/inspect.rs`: a loop that keeps a single
    place to go back to decides the same question as a search over all decompositions.
 */
module Glob {
  import opened Bytes

  const STAR: byte := 0x2A
  const SLASH: byte := 0x2F
  const DOT: byte := 0x2E

  // ---- what a pattern means -------------------------------------------------------------

  function Flatten(runs: seq<seq<byte>>): seq<byte> {
    if runs == [] then [] else runs[0] + Flatten(runs[1..])
  }

  /** `runs` gives each character of the pattern its part of the string: a star any run, the others themselves. */
  predicate Decomposes(p: seq<byte>, s: seq<byte>, runs: seq<seq<byte>>) {
    && |runs| == |p|
    && (forall i :: 0 <= i < |p| ==> p[i] == 0x2A || runs[i] == [p[i]])
    && Flatten(runs) == s
  }

  /** The textbook matcher, which tries every length of every run. */
  predicate Fits(p: seq<byte>, s: seq<byte>)
    decreases |p|, |s|
  {
    if p == [] then s == []
    else if p[0] == STAR then Fits(p[1..], s) || (s != [] && Fits(p, s[1..]))
    else s != [] && s[0] == p[0] && Fits(p[1..], s[1..])
  }

  lemma {:induction false} FitsDecomposes(p: seq<byte>, s: seq<byte>) returns (runs: seq<seq<byte>>)
    requires Fits(p, s)
    ensures Decomposes(p, s, runs)
    decreases |p|, |s|
  {
    if p == [] {
      runs := [];
    } else if p[0] == STAR && Fits(p[1..], s) {
      var rest := FitsDecomposes(p[1..], s);
      runs := [[]] + rest;
      assert runs[1..] == rest && [] + Flatten(rest) == s;
    } else if p[0] == STAR {
      var rest := FitsDecomposes(p, s[1..]);
      runs := [[s[0]] + rest[0]] + rest[1..];
      assert runs[1..] == rest[1..];
      assert Flatten(runs) == [s[0]] + (rest[0] + Flatten(rest[1..])) == s;
    } else {
      var rest := FitsDecomposes(p[1..], s[1..]);
      runs := [[p[0]]] + rest;
      assert runs[1..] == rest && [p[0]] + Flatten(rest) == s;
    }
  }

  lemma {:induction false} DecomposesFits(p: seq<byte>, s: seq<byte>, runs: seq<seq<byte>>)
    requires Decomposes(p, s, runs)
    ensures Fits(p, s)
    decreases |p|, |s|
  {
    if p != [] {
      var rest := runs[1..];
      assert forall i :: 0 <= i < |p[1..]| ==> p[1..][i] == p[i + 1] && rest[i] == runs[i + 1];
      if p[0] == STAR && runs[0] != [] {
        var shorter := [runs[0][1..]] + rest;
        assert shorter[1..] == rest;
        assert Flatten(shorter) == runs[0][1..] + Flatten(rest) == s[1..];
        DecomposesFits(p, s[1..], shorter);
      } else if p[0] == STAR {
        assert s == [] + Flatten(rest) == Flatten(rest);
        DecomposesFits(p[1..], s, rest);
      } else {
        assert s[1..] == Flatten(rest);
        DecomposesFits(p[1..], s[1..], rest);
      }
    }
  }

  /** A string fits a pattern exactly when it decomposes under it. */
  lemma FitsExactly(p: seq<byte>, s: seq<byte>)
    ensures Fits(p, s) <==> exists runs :: Decomposes(p, s, runs)
  {
    if Fits(p, s) { var runs := FitsDecomposes(p, s); }
    if runs :| Decomposes(p, s, runs) { DecomposesFits(p, s, runs); }
  }

  // ---- why one place to go back to is enough ------------------------------------------------

  predicate Literal(l: seq<byte>) { forall i :: 0 <= i < |l| ==> l[i] != STAR }

  lemma {:induction false} LiteralFits(l: seq<byte>, q: seq<byte>, t: seq<byte>)
    requires Literal(l)
    ensures Fits(l + q, t) <==> l <= t && Fits(q, t[|l|..])
    decreases |l|
  {
    if l == [] {
      assert l + q == q && t[0..] == t;
    } else {
      assert (l + q)[1..] == l[1..] + q;
      if t != [] && t[0] == l[0] {
        LiteralFits(l[1..], q, t[1..]);
        assert l <= t <==> l[1..] <= t[1..];
        if l <= t { assert t[1..][|l| - 1..] == t[|l|..]; }
      }
    }
  }

  /** A star can take over anything in front of what follows it. */
  lemma {:induction false} StarAbsorbs(q: seq<byte>, s: seq<byte>, k: nat)
    requires q != [] && q[0] == STAR && k <= |s| && Fits(q, s[k..])
    ensures Fits(q, s)
    decreases k
  {
    if k == 0 {
      assert s[0..] == s;
    } else {
      assert s[1..][k - 1..] == s[k..];
      StarAbsorbs(q, s[1..], k - 1);
    }
  }

  /** How much the star in front takes. */
  lemma {:induction false} StarTakes(q: seq<byte>, s: seq<byte>) returns (k: nat)
    requires q != [] && q[0] == STAR && Fits(q, s)
    ensures k <= |s| && Fits(q[1..], s[k..])
    decreases |s|
  {
    if Fits(q[1..], s) {
      k := 0;
      assert s[0..] == s;
    } else {
      var j := StarTakes(q, s[1..]);
      k := j + 1;
      assert s[1..][j..] == s[k..];
    }
  }

  /** Once another star is reached, the first one need never take more. */
  lemma NextStarDecides(l: seq<byte>, q: seq<byte>, s: seq<byte>)
    requires Literal(l) && l <= s && q != [] && q[0] == STAR
    ensures Fits([STAR] + l + q, s) <==> Fits(q, s[|l|..])
  {
    var p := [STAR] + l + q;
    assert p[1..] == l + q;
    if Fits(p, s) {
      var k := StarTakes(p, s);
      LiteralFits(l, q, s[k..]);
      assert s[k..][|l|..] == s[|l|..][k..];
      StarAbsorbs(q, s[|l|..], k);
    }
    if Fits(q, s[|l|..]) { LiteralFits(l, q, s); }
  }

  /** Where the text after a star does not go on, the star has to take one more. */
  lemma StarTakesOneMore(l: seq<byte>, q: seq<byte>, s: seq<byte>)
    requires Literal(l) && l <= s && |s| > |l| && (q == [] || (q[0] != STAR && q[0] != s[|l|]))
    ensures Fits([STAR] + l + q, s) <==> Fits([STAR] + l + q, s[1..])
  {
    var p := [STAR] + l + q;
    assert p[1..] == l + q;
    LiteralFits(l, q, s);
    assert s[|l|..] != [] && s[|l|..][0] == s[|l|];
  }

  predicate AllStars(q: seq<byte>) { forall i :: 0 <= i < |q| ==> q[i] == STAR }

  lemma {:induction false} FitsNothing(q: seq<byte>)
    ensures Fits(q, []) <==> AllStars(q)
  {
    if q != [] {
      FitsNothing(q[1..]);
      assert AllStars(q) <==> q[0] == STAR && AllStars(q[1..]) by {
        assert forall i :: 0 <= i < |q| - 1 ==> q[1..][i] == q[i + 1];
        if q[0] == STAR && AllStars(q[1..]) {
          forall i | 0 <= i < |q| ensures q[i] == STAR { if i > 0 { assert q[1..][i - 1] == STAR; } }
        }
      }
    }
  }

  lemma AtTheEnd(l: seq<byte>, q: seq<byte>)
    requires Literal(l)
    ensures Fits([STAR] + l + q, l) <==> AllStars(q)
  {
    var p := [STAR] + l + q;
    assert p[1..] == l + q;
    FitsNothing(q);
    assert l[|l|..] == [];
    LiteralFits(l, q, l);
    if Fits(p, l) {
      var k := StarTakes(p, l);
      LiteralFits(l, q, l[k..]);
    }
  }

  // ---- the loop ----------------------------------------------------------------------------

  /** What is left to decide: from the last star on, or from where the loop stands if there was none. */
  predicate Stands(p: seq<byte>, s: seq<byte>, pi: nat, si: nat, sp: int, ss: nat) {
    && pi <= |p| && si <= |s|
    && (sp >= 0 ==>
          && sp < pi && ss <= si && p[sp] == STAR
          && Literal(p[sp + 1..pi]) && p[sp + 1..pi] == s[ss..si])
    && (Fits(p, s) <==> if sp >= 0 then Fits(p[sp..], s[ss..]) else Fits(p[pi..], s[si..]))
  }

  lemma Parts(p: seq<byte>, s: seq<byte>, pi: nat, si: nat, sp: nat, ss: nat)
    requires Stands(p, s, pi, si, sp, ss)
    ensures p[sp..] == [STAR] + p[sp + 1..pi] + p[pi..]
    ensures s[ss..] == s[ss..si] + s[si..] && p[sp + 1..pi] <= s[ss..]
    ensures s[ss..][|p[sp + 1..pi]|..] == s[si..]
  {
  }

  lemma AtAStar(p: seq<byte>, s: seq<byte>, pi: nat, si: nat, sp: int, ss: nat)
    requires Stands(p, s, pi, si, sp, ss) && pi < |p| && p[pi] == STAR
    ensures Stands(p, s, pi + 1, si, pi, si)
  {
    hide Fits;
    if sp >= 0 {
      Parts(p, s, pi, si, sp, ss);
      NextStarDecides(p[sp + 1..pi], p[pi..], s[ss..]);
    }
    assert p[pi + 1..pi + 1] == [] == s[si..si];
  }

  lemma AtTheSame(p: seq<byte>, s: seq<byte>, pi: nat, si: nat, sp: int, ss: nat)
    requires Stands(p, s, pi, si, sp, ss) && pi < |p| && si < |s| && p[pi] == s[si] != STAR
    ensures Stands(p, s, pi + 1, si + 1, sp, ss)
  {
    if sp >= 0 {
      hide Fits;
      assert p[sp + 1..pi + 1] == p[sp + 1..pi] + [p[pi]];
      assert s[ss..si + 1] == s[ss..si] + [s[si]];
    } else {
      assert p[pi..][1..] == p[pi + 1..] && s[si..][1..] == s[si + 1..];
    }
  }

  lemma GoBack(p: seq<byte>, s: seq<byte>, pi: nat, si: nat, sp: nat, ss: nat)
    requires Stands(p, s, pi, si, sp, ss) && si < |s|
    requires pi < |p| ==> p[pi] != STAR && p[pi] != s[si]
    ensures Stands(p, s, sp + 1, ss + 1, sp, ss + 1)
  {
    hide Fits;
    Parts(p, s, pi, si, sp, ss);
    StarTakesOneMore(p[sp + 1..pi], p[pi..], s[ss..]);
    assert s[ss..][1..] == s[ss + 1..];
    assert p[sp + 1..sp + 1] == [] == s[ss + 1..ss + 1];
  }

  lemma NoWayOn(p: seq<byte>, s: seq<byte>, pi: nat, si: nat)
    requires Stands(p, s, pi, si, -1, 0) && si < |s|
    requires pi < |p| ==> p[pi] != STAR && p[pi] != s[si]
    ensures !Fits(p, s)
  {
    assert s[si..][0] == s[si];
  }

  lemma AtEnd(p: seq<byte>, s: seq<byte>, pi: nat, sp: int, ss: nat)
    requires Stands(p, s, pi, |s|, sp, ss)
    ensures Fits(p, s) <==> AllStars(p[pi..])
  {
    hide Fits;
    if sp >= 0 {
      Parts(p, s, pi, |s|, sp, ss);
      assert s[ss..] == p[sp + 1..pi];
      AtTheEnd(p[sp + 1..pi], p[pi..]);
    } else {
      assert s[|s|..] == [];
      FitsNothing(p[pi..]);
    }
  }

  /** `glob`: true exactly when the string decomposes under the pattern. */
  method Glob(p: seq<byte>, s: seq<byte>) returns (matched: bool)
    ensures matched <==> exists runs :: Decomposes(p, s, runs)
    ensures matched <==> Fits(p, s)
  {
    FitsExactly(p, s);
    hide Fits, Decomposes, AllStars, Stands;
    var pi, si := 0, 0;
    var star: Option<(nat, nat)> := None;
    ghost var sp: int, ss: nat := -1, 0;
    AtTheStart(p, s);
    while si < |s|
      invariant Stands(p, s, pi, si, sp, ss)
      invariant if star.None? then sp == -1 && ss == 0 else sp == star.value.0 && ss == star.value.1
      invariant pi <= |p| && si <= |s| && ss <= si && sp < |p|
      decreases if star.None? then |s| + 1 else |s| - ss, |p| - pi
    {
      if pi < |p| && p[pi] == STAR {
        AtAStar(p, s, pi, si, sp, ss);
        star := Some((pi, si));
        sp, ss := pi, si;
        pi := pi + 1;
      } else if pi < |p| && p[pi] == s[si] {
        AtTheSame(p, s, pi, si, sp, ss);
        pi, si := pi + 1, si + 1;
      } else if star.Some? {
        GoBack(p, s, pi, si, sp, ss);
        var (back, from) := star.value;
        pi, si := back + 1, from + 1;
        star := Some((back, from + 1));
        ss := from + 1;
      } else {
        NoWayOn(p, s, pi, si);
        return false;
      }
    }
    AtEnd(p, s, pi, sp, ss);
    matched := AllStars(p[pi..]);
  }

  lemma AtTheStart(p: seq<byte>, s: seq<byte>)
    ensures Stands(p, s, 0, 0, -1, 0)
  {
    assert p[0..] == p && s[0..] == s;
  }

  // ---- paths ------------------------------------------------------------------------------------

  /** Without leading `./`, however often. */
  function TrimStart(s: seq<byte>): seq<byte> { if [DOT, SLASH] <= s then TrimStart(s[2..]) else s }

  /** Without trailing slashes. */
  function TrimEnd(s: seq<byte>): seq<byte> { if s != [] && s[|s| - 1] == SLASH then TrimEnd(s[..|s| - 1]) else s }

  function Trim(pattern: seq<byte>): seq<byte> { TrimEnd(TrimStart(pattern)) }

  /** The path itself, or one of the directories above it. */
  predicate AtOrAbove(dir: seq<byte>, path: seq<byte>) {
    dir <= path && (dir == path || path[|dir|] == SLASH)
  }

  /** `matches`: the trimmed pattern fits the path or a directory above it. */
  method Matches(pattern: seq<byte>, path: seq<byte>) returns (matched: bool)
    ensures matched <==> exists dir :: AtOrAbove(dir, path) && Fits(Trim(pattern), dir)
  {
    hide Fits;
    var p := Trim(pattern);
    matched := Glob(p, path);
    if matched {
      assert AtOrAbove(path, path);
      return true;
    }
    for i := 0 to |path|
      invariant forall dir :: AtOrAbove(dir, path) && (|dir| < i || dir == path) ==> !Fits(p, dir)
    {
      if path[i] == SLASH {
        matched := Glob(p, path[..i]);
        if matched {
          assert AtOrAbove(path[..i], path);
          return true;
        }
      }
      forall dir | AtOrAbove(dir, path) && |dir| == i ensures !Fits(p, dir) { assert dir == path[..i]; }
    }
    return false;
  }

  lemma {:induction false} TrimStartStays(s: seq<byte>)
    ensures TrimStart(TrimStart(s)) == TrimStart(s) && !([DOT, SLASH] <= TrimStart(s))
  {
    if [DOT, SLASH] <= s { TrimStartStays(s[2..]); }
  }

  lemma {:induction false} TrimEndIsPrefix(s: seq<byte>)
    ensures TrimEnd(s) <= s && (TrimEnd(s) == [] || TrimEnd(s)[|TrimEnd(s)| - 1] != SLASH)
  {
    if s != [] && s[|s| - 1] == SLASH { TrimEndIsPrefix(s[..|s| - 1]); }
  }

  /** `./` over and over. */
  function Here(n: nat): seq<byte> { if n == 0 then [] else Ascii("./") + Here(n - 1) }

  function Slashes(n: nat): seq<byte> { if n == 0 then [] else Slashes(n - 1) + Ascii("/") }

  lemma {:induction false} TrimStartIs(s: seq<byte>) returns (n: nat)
    ensures s == Here(n) + TrimStart(s) && !(Ascii("./") <= TrimStart(s))
  {
    n := 0;
    assert Ascii("./") == [DOT, SLASH];
    if [DOT, SLASH] <= s {
      var m := TrimStartIs(s[2..]);
      n := m + 1;
      assert s == Ascii("./") + s[2..];
    }
  }

  lemma {:induction false} TrimEndIs(s: seq<byte>) returns (n: nat)
    ensures s == TrimEnd(s) + Slashes(n) && (TrimEnd(s) != [] ==> TrimEnd(s)[|TrimEnd(s)| - 1] != Ascii("/")[0])
  {
    n := 0;
    if s != [] && s[|s| - 1] == SLASH {
      var m := TrimEndIs(s[..|s| - 1]);
      n := m + 1;
      assert s == s[..|s| - 1] + Ascii("/");
    }
  }

  /** Trimming takes away just what a pattern may be decorated with, and all of it. */
  lemma TrimTakesDecoration(pattern: seq<byte>) returns (front: nat, back: nat)
    ensures pattern == Here(front) + Trim(pattern) + Slashes(back)
    ensures !(Ascii("./") <= Trim(pattern)) && (Trim(pattern) != [] ==> Trim(pattern)[|Trim(pattern)| - 1] != 0x2F)
  {
    front := TrimStartIs(pattern);
    back := TrimEndIs(TrimStart(pattern));
    hide TrimStart, TrimEnd, Here, Slashes;
    var t := TrimStart(pattern);
    assert TrimEnd(t) <= t;
    assert Ascii("./") <= TrimEnd(t) ==> Ascii("./") <= t;
    assert Here(front) + (TrimEnd(t) + Slashes(back)) == Here(front) + TrimEnd(t) + Slashes(back);
  }

  /** A trimmed pattern is trimmed: written again with the decoration removed it means the same. */
  lemma TrimIsIdempotent(pattern: seq<byte>)
    ensures Trim(Trim(pattern)) == Trim(pattern)
  {
    var t := TrimStart(pattern);
    TrimStartStays(pattern);
    TrimEndIsPrefix(t);
    assert !([DOT, SLASH] <= TrimEnd(t));
  }
}
