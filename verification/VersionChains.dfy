/** GNU version chains as `crates/onelf-format/src/verdef.rs` reads them: headers linked by
    relative offsets, each with a chain of auxiliary entries that linkers place as they
    like. Error messages are not modelled.
 */
module VersionChains {
  import opened Bytes

  const MAX_RECORDS := 4096
  const MAX_NAME := 4096

  /** Sizes of the two kinds of record and where their fields are. */
  datatype Shape = Shape(header: nat, aux: nat, countAt: nat, auxAt: nat, nextAt: nat, nameAt: nat, auxNextAt: nat)

  const VERDEF := Shape(20, 8, 6, 12, 16, 0, 4)
  const VERNEED := Shape(16, 16, 2, 8, 12, 8, 12)

  predicate Sized(sh: Shape) {
    && sh.countAt + 2 <= sh.header && sh.auxAt + 4 <= sh.header && sh.nextAt + 4 <= sh.header && 8 <= sh.header
    && sh.nameAt + 4 <= sh.aux && sh.auxNextAt + 4 <= sh.aux && 0 < sh.aux
  }

  function HalfAt(b: seq<byte>, at: nat): nat
    requires at + 2 <= |b|
  {
    FromLe(b[at..at + 2])
  }

  function WordAt(b: seq<byte>, at: nat): nat
    requires at + 4 <= |b|
  {
    FromLe(b[at..at + 4])
  }

  function TerminatorAt(s: seq<byte>): (n: nat)
    ensures n <= |s| && (n < |s| ==> s[n] == 0) && forall i :: 0 <= i < n ==> s[i] != 0
  {
    if s == [] || s[0] == 0 then 0 else 1 + TerminatorAt(s[1..])
  }

  /** The NUL-terminated name at an offset of the string table. */
  function NameAt(strings: seq<byte>, at: nat): Option<seq<byte>> {
    if at > |strings| then None
    else
      var rest := strings[at..];
      var end := TerminatorAt(rest);
      if end == |rest| || end > MAX_NAME || !Utf8(rest[..end]) then None else Some(rest[..end])
  }

  // ---- a chain, walked ------------------------------------------------------------------

  /** A header and its auxiliary entries, by their offsets. */
  datatype Node = Node(at: nat, auxes: seq<nat>)

  function WalkAuxes(sh: Shape, b: seq<byte>, at: nat, count: nat): Option<seq<nat>>
    requires Sized(sh) && count > 0
    decreases count
  {
    if at + sh.aux > |b| then None
    else
      var next := WordAt(b, at + sh.auxNextAt);
      if count == 1 then (if next != 0 then None else Some([at]))
      else if next < sh.aux then None
      else
        match WalkAuxes(sh, b, at + next, count - 1)
        case None => None
        case Some(rest) => Some([at] + rest)
  }

  function Walk(sh: Shape, b: seq<byte>, pos: nat, total: nat, left: nat): Option<seq<Node>>
    requires Sized(sh)
    decreases left
  {
    if left == 0 || pos + sh.header > |b| || HalfAt(b, pos) != 1 then None
    else
      var count, delta, next := HalfAt(b, pos + sh.countAt), WordAt(b, pos + sh.auxAt), WordAt(b, pos + sh.nextAt);
      if count == 0 || total + count > MAX_RECORDS || delta < sh.header then None
      else
        match WalkAuxes(sh, b, pos + delta, count)
        case None => None
        case Some(auxes) =>
          if next == 0 then Some([Node(pos, auxes)])
          else if next < sh.header then None
          else
            match Walk(sh, b, pos + next, total + count, left - 1)
            case None => None
            case Some(rest) => Some([Node(pos, auxes)] + rest)
  }

  // ---- a chain, described -----------------------------------------------------------------

  predicate AuxLinked(sh: Shape, b: seq<byte>, x: nat, y: nat)
    requires Sized(sh)
  {
    && x + sh.aux <= |b|
    && WordAt(b, x + sh.auxNextAt) >= sh.aux && y == x + WordAt(b, x + sh.auxNextAt)
  }

  predicate AuxLast(sh: Shape, b: seq<byte>, x: nat)
    requires Sized(sh)
  {
    x + sh.aux <= |b| && WordAt(b, x + sh.auxNextAt) == 0
  }

  /** The auxiliary entries are in the section and each leads to the next one after it. */
  predicate IsAuxChain(sh: Shape, b: seq<byte>, at: nat, xs: seq<nat>)
    requires Sized(sh)
  {
    && xs != [] && xs[0] == at
    && (forall j :: 0 <= j < |xs| - 1 ==> AuxLinked(sh, b, xs[j], xs[j + 1]))
    && AuxLast(sh, b, xs[|xs| - 1])
  }

  predicate IsNode(sh: Shape, b: seq<byte>, n: Node)
    requires Sized(sh)
  {
    && n.at + sh.header <= |b| && HalfAt(b, n.at) == 1
    && HalfAt(b, n.at + sh.countAt) == |n.auxes|
    && WordAt(b, n.at + sh.auxAt) >= sh.header
    && IsAuxChain(sh, b, n.at + WordAt(b, n.at + sh.auxAt), n.auxes)
  }

  function Total(ns: seq<Node>): nat { if ns == [] then 0 else |ns[0].auxes| + Total(ns[1..]) }

  /** The header leads to the next one after it. */
  predicate Linked(sh: Shape, b: seq<byte>, m: Node, n: Node)
    requires Sized(sh)
  {
    && m.at + sh.header <= |b|
    && WordAt(b, m.at + sh.nextAt) >= sh.header && n.at == m.at + WordAt(b, m.at + sh.nextAt)
  }

  predicate Last(sh: Shape, b: seq<byte>, n: Node)
    requires Sized(sh)
  {
    n.at + sh.header <= |b| && WordAt(b, n.at + sh.nextAt) == 0
  }

  /** The headers are a chain from `pos` of at most `left` records. */
  predicate IsChain(sh: Shape, b: seq<byte>, pos: nat, total: nat, left: nat, ns: seq<Node>)
    requires Sized(sh)
  {
    && 0 < |ns| <= left && ns[0].at == pos
    && total + Total(ns) <= MAX_RECORDS
    && (forall i :: 0 <= i < |ns| ==> IsNode(sh, b, ns[i]))
    && (forall i :: 0 <= i < |ns| - 1 ==> Linked(sh, b, ns[i], ns[i + 1]))
    && Last(sh, b, ns[|ns| - 1])
  }

  lemma AuxTail(sh: Shape, b: seq<byte>, at: nat, xs: seq<nat>)
    requires Sized(sh) && |xs| > 1 && IsAuxChain(sh, b, at, xs)
    ensures AuxLinked(sh, b, at, xs[1]) && IsAuxChain(sh, b, xs[1], xs[1..])
  {
    hide AuxLinked, AuxLast, Sized;
  }

  lemma AuxGrows(sh: Shape, b: seq<byte>, at: nat, rest: seq<nat>)
    requires Sized(sh) && rest != [] && AuxLinked(sh, b, at, rest[0]) && IsAuxChain(sh, b, rest[0], rest)
    ensures IsAuxChain(sh, b, at, [at] + rest)
  {
    hide AuxLinked, AuxLast, Sized;
    var xs := [at] + rest;
    forall j | 0 <= j < |xs| - 1 ensures AuxLinked(sh, b, xs[j], xs[j + 1]) {
      if j > 0 { assert AuxLinked(sh, b, rest[j - 1], rest[j]); }
    }
  }

  /** The entries of a chain lie in the section. */
  lemma AuxesInSection(sh: Shape, b: seq<byte>, at: nat, xs: seq<nat>)
    requires Sized(sh) && IsAuxChain(sh, b, at, xs)
    ensures forall j :: 0 <= j < |xs| ==> xs[j] + sh.aux <= |b|
  {
    forall j | 0 <= j < |xs| ensures xs[j] + sh.aux <= |b| {
      if j < |xs| - 1 { assert AuxLinked(sh, b, xs[j], xs[j + 1]); }
    }
  }

  lemma {:induction false} WalkedAuxes(sh: Shape, b: seq<byte>, at: nat, count: nat)
    requires Sized(sh) && count > 0 && WalkAuxes(sh, b, at, count).Some?
    ensures var xs := WalkAuxes(sh, b, at, count).value; |xs| == count && IsAuxChain(sh, b, at, xs)
    decreases count
  {
    hide FromLe;
    if count > 1 {
      var next := WordAt(b, at + sh.auxNextAt);
      WalkedAuxes(sh, b, at + next, count - 1);
      AuxGrows(sh, b, at, WalkAuxes(sh, b, at + next, count - 1).value);
    }
  }

  lemma {:induction false} AuxesWalk(sh: Shape, b: seq<byte>, at: nat, xs: seq<nat>)
    requires Sized(sh) && IsAuxChain(sh, b, at, xs)
    ensures WalkAuxes(sh, b, at, |xs|) == Some(xs)
    decreases |xs|
  {
    hide FromLe;
    if |xs| > 1 {
      AuxTail(sh, b, at, xs);
      AuxesWalk(sh, b, xs[1], xs[1..]);
      assert xs == [at] + xs[1..];
    } else {
      assert xs == [at];
    }
  }

  lemma ChainTail(sh: Shape, b: seq<byte>, pos: nat, total: nat, left: nat, ns: seq<Node>)
    requires Sized(sh) && |ns| > 1 && IsChain(sh, b, pos, total, left, ns)
    ensures Linked(sh, b, ns[0], ns[1]) && IsChain(sh, b, ns[1].at, total + |ns[0].auxes|, left - 1, ns[1..])
  {
    hide IsNode, Linked, Last, Sized;
  }

  lemma ChainGrows(sh: Shape, b: seq<byte>, total: nat, left: nat, n: Node, rest: seq<Node>)
    requires Sized(sh) && IsNode(sh, b, n) && rest != [] && Linked(sh, b, n, rest[0])
    requires IsChain(sh, b, rest[0].at, total + |n.auxes|, left, rest)
    ensures IsChain(sh, b, n.at, total, left + 1, [n] + rest)
  {
    hide IsNode, Linked, Last, Sized;
    var ns := [n] + rest;
    assert ns[1..] == rest;
    forall i | 0 <= i < |ns| - 1 ensures Linked(sh, b, ns[i], ns[i + 1]) {
      if i > 0 { assert Linked(sh, b, rest[i - 1], rest[i]); }
    }
  }

  /** Walking a chain only ever finds one. */
  lemma {:induction false} WalkedChain(sh: Shape, b: seq<byte>, pos: nat, total: nat, left: nat)
    requires Sized(sh) && Walk(sh, b, pos, total, left).Some?
    ensures IsChain(sh, b, pos, total, left, Walk(sh, b, pos, total, left).value)
    decreases left
  {
    hide FromLe, IsAuxChain, WalkAuxes;
    var count, delta, next := HalfAt(b, pos + sh.countAt), WordAt(b, pos + sh.auxAt), WordAt(b, pos + sh.nextAt);
    WalkedAuxes(sh, b, pos + delta, count);
    var n := Node(pos, WalkAuxes(sh, b, pos + delta, count).value);
    assert IsNode(sh, b, n);
    if next != 0 {
      WalkedChain(sh, b, pos + next, total + count, left - 1);
      var rest := Walk(sh, b, pos + next, total + count, left - 1).value;
      assert rest != [] && rest[0].at == pos + next;
      ChainGrows(sh, b, total, left - 1, n, rest);
    } else {
      OneNode(sh, b, total, left, n);
    }
  }

  lemma OneNode(sh: Shape, b: seq<byte>, total: nat, left: nat, n: Node)
    requires Sized(sh) && IsNode(sh, b, n) && Last(sh, b, n) && total + |n.auxes| <= MAX_RECORDS && left > 0
    ensures IsChain(sh, b, n.at, total, left, [n])
  {
    hide IsNode, Last;
    assert [n][1..] == [];
    assert Total([n]) == |n.auxes| + Total([n][1..]);
  }

  /** Every chain is found, wherever its auxiliary entries lie. */
  lemma {:induction false} ChainWalks(sh: Shape, b: seq<byte>, pos: nat, total: nat, left: nat, ns: seq<Node>)
    requires Sized(sh) && IsChain(sh, b, pos, total, left, ns)
    ensures Walk(sh, b, pos, total, left) == Some(ns)
    decreases left
  {
    hide FromLe, IsAuxChain, WalkAuxes;
    assert IsNode(sh, b, ns[0]);
    NodeWalks(sh, b, ns[0]);
    assert ns == [Node(pos, ns[0].auxes)] + ns[1..];
    assert Total(ns) == |ns[0].auxes| + Total(ns[1..]);
    if |ns| > 1 {
      ChainTail(sh, b, pos, total, left, ns);
      ChainWalks(sh, b, ns[1].at, total + |ns[0].auxes|, left - 1, ns[1..]);
    } else {
      assert ns == [Node(pos, ns[0].auxes)] && Last(sh, b, ns[0]);
    }
  }

  lemma NodeWalks(sh: Shape, b: seq<byte>, n: Node)
    requires Sized(sh) && IsNode(sh, b, n)
    ensures n.auxes != [] && WalkAuxes(sh, b, n.at + WordAt(b, n.at + sh.auxAt), |n.auxes|) == Some(n.auxes)
  {
    AuxesWalk(sh, b, n.at + WordAt(b, n.at + sh.auxAt), n.auxes);
  }

  // ---- where auxiliary entries may lie --------------------------------------------------------

  predicate Overlap(header: nat, headerLen: nat, aux: nat, auxLen: nat) {
    header < aux + auxLen && aux < header + headerLen
  }

  predicate Ascending(headers: seq<nat>) { forall i, j :: 0 <= i < j < |headers| ==> headers[i] < headers[j] }

  /** Binary search for the first header that ends after `aux`. */
  method FirstEndingAfter(headers: seq<nat>, headerLen: nat, aux: nat) returns (after: nat)
    requires Ascending(headers)
    ensures after <= |headers|
    ensures forall i :: 0 <= i < after ==> headers[i] + headerLen <= aux
    ensures forall i :: after <= i < |headers| ==> headers[i] + headerLen > aux
  {
    var lo, hi := 0, |headers|;
    while lo < hi
      invariant lo <= hi <= |headers|
      invariant forall i :: 0 <= i < lo ==> headers[i] + headerLen <= aux
      invariant forall i :: hi <= i < |headers| ==> headers[i] + headerLen > aux
    {
      var mid := (lo + hi) / 2;
      if headers[mid] + headerLen <= aux {
        lo := mid + 1;
      } else {
        hi := mid;
      }
    }
    return lo;
  }

  ghost predicate Placed(headers: seq<nat>, headerLen: nat, auxes: seq<nat>, auxLen: nat) {
    forall h, a :: h in headers && a in auxes ==> !Overlap(h, headerLen, a, auxLen)
  }

  /** `check_aux_placement`: refuses exactly when an auxiliary entry overlaps a header. */
  method CheckPlacement(headers: seq<nat>, headerLen: nat, auxes: seq<nat>, auxLen: nat) returns (ok: bool)
    requires Ascending(headers)
    ensures ok <==> Placed(headers, headerLen, auxes, auxLen)
  {
    for k := 0 to |auxes|
      invariant Placed(headers, headerLen, auxes[..k], auxLen)
    {
      var aux := auxes[k];
      var after := FirstEndingAfter(headers, headerLen, aux);
      if after < |headers| && headers[after] < aux + auxLen {
        assert Overlap(headers[after], headerLen, aux, auxLen);
        return false;
      }
      forall h, a | h in headers && a in auxes[..k + 1] ensures !Overlap(h, headerLen, a, auxLen) {
        if a !in auxes[..k] {
          assert a == aux;
          var i :| 0 <= i < |headers| && headers[i] == h;
        }
      }
    }
    assert auxes[..|auxes|] == auxes;
    return true;
  }

  function Offsets(ns: seq<Node>): (r: seq<nat>)
    ensures |r| == |ns| && forall i :: 0 <= i < |ns| ==> r[i] == ns[i].at
  {
    seq(|ns|, i requires 0 <= i < |ns| => ns[i].at)
  }

  function AllAuxes(ns: seq<Node>): seq<nat> { if ns == [] then [] else ns[0].auxes + AllAuxes(ns[1..]) }

  lemma {:induction false} ChainAscends(sh: Shape, b: seq<byte>, pos: nat, total: nat, left: nat, ns: seq<Node>)
    requires Sized(sh) && IsChain(sh, b, pos, total, left, ns)
    ensures Ascending(Offsets(ns))
    decreases |ns|
  {
    hide FromLe, IsAuxChain;
    if |ns| > 1 {
      ChainTail(sh, b, pos, total, left, ns);
      ChainAscends(sh, b, ns[1].at, total + |ns[0].auxes|, left - 1, ns[1..]);
      var r, t := Offsets(ns), Offsets(ns[1..]);
      assert forall i :: 0 <= i < |t| ==> t[i] == r[i + 1];
      forall i, j | 0 <= i < j < |r| ensures r[i] < r[j] {
        if i > 0 { assert t[i - 1] < t[j - 1]; } else if j > 1 { assert t[0] < t[j - 1]; }
      }
    }
  }
}
