/** Which libraries a launch takes from the host: `driver_closure` and `decide_on` of
    `crates/onelf-format/src/resolve.rs` and `compare` of
    `crates/onelf-format/src/verdef.rs`. What files say (the versions they define, the
    names they need, the loader they name) is given by functions.
 */
module HostChoice {
  import opened Bytes

  type Name = seq<byte>
  type Path = seq<byte>
  type Versions = set<seq<byte>>

  // ---- comparing versions ------------------------------------------------------------------

  datatype Choice = Host | Bundle | Incomparable

  function Compare(bundle: Versions, host: Versions): (c: Choice)
    ensures c.Host? <==> bundle < host
    ensures c.Bundle? <==> host <= bundle
  {
    if host <= bundle then Bundle else if bundle <= host then Host else Incomparable
  }

  /** Only a copy that defines strictly more replaces the bundle's, never both ways round. */
  lemma CompareIsAsymmetric(a: Versions, b: Versions)
    ensures Compare(a, b).Host? ==> Compare(b, a).Bundle?
    ensures Compare(a, b).Incomparable? <==> Compare(b, a).Incomparable?
    ensures Compare(a, b).Bundle? && Compare(b, a).Bundle? <==> a == b
  {
  }

  // ---- names -------------------------------------------------------------------------------

  const LIBC: Name := Ascii("libc.so.6")
  const LOADER: Name := Ascii("ld-linux")

  const LIBC_FAMILY: seq<Name> := [
    Ascii("libc.so"), Ascii("libm.so"), Ascii("libpthread.so"), Ascii("libdl.so"), Ascii("librt.so"),
    Ascii("libresolv.so"), Ascii("libutil.so"), Ascii("libanl.so"), Ascii("libnss_"), Ascii("libBrokenLocale.so"),
    Ascii("libmvec.so"), Ascii("libc_malloc_debug.so"), Ascii("libthread_db.so"), Ascii("ld-linux")]

  predicate LibcFamily(name: Name) { exists i :: 0 <= i < |LIBC_FAMILY| && StartsWith(name, LIBC_FAMILY[i]) }

  // ---- the driver closure --------------------------------------------------------------------

  /** The host's libraries by name, and the names the walk starts from. */
  datatype Index = Index(libs: map<Name, Path>, seeds: seq<Name>)

  /** What a name pulls in: what its library needs, and nothing when the host lacks it. */
  function Pulls(host: Index, needed: Path -> seq<Name>, name: Name): seq<Name> {
    if name in host.libs then needed(host.libs[name]) else []
  }

  /** The set holds the seeds and everything its members need. */
  ghost predicate Closed(host: Index, needed: Path -> seq<Name>, s: set<Name>) {
    && (forall n :: n in host.seeds ==> n in s)
    && (forall n, m :: n in s && n in host.libs && m in needed(host.libs[n]) ==> m in s)
  }

  ghost function Elements(s: seq<Name>): set<Name> { set n | n in s }

  /** Every name that can ever come up. */
  ghost function Universe(host: Index, needed: Path -> seq<Name>): (u: set<Name>)
    ensures forall n :: n in host.seeds ==> n in u
    ensures forall n, m :: n in host.libs && m in Pulls(host, needed, n) ==> m in u
  {
    var u := Elements(host.seeds) + set n, m | n in host.libs.Keys && m in Elements(Pulls(host, needed, n)) :: m;
    assert forall n, m :: n in host.libs && m in Pulls(host, needed, n) ==> m in Elements(Pulls(host, needed, n));
    u
  }

  /** Everything the seeds and the seen names ask for has been seen or waits. */
  ghost predicate Covered(host: Index, needed: Path -> seq<Name>, seen: set<Name>, queue: seq<Name>) {
    && (forall n :: n in host.seeds ==> n in seen || n in queue)
    && (forall n, m :: n in seen && m in Pulls(host, needed, n) ==> m in seen || m in queue)
  }

  /** Only what every closed set holds has been seen or waits. */
  ghost predicate Called(host: Index, needed: Path -> seq<Name>, seen: set<Name>, queue: seq<Name>) {
    forall s :: Closed(host, needed, s) ==> seen <= s && forall n :: n in queue ==> n in s
  }

  ghost predicate Bounded(all: set<Name>, seen: set<Name>, queue: seq<Name>) {
    seen <= all && forall n :: n in queue ==> n in all
  }

  lemma SeenBefore(host: Index, needed: Path -> seq<Name>, seen: set<Name>, queue: seq<Name>)
    requires queue != [] && queue[0] in seen && Covered(host, needed, seen, queue) && Called(host, needed, seen, queue)
    ensures Covered(host, needed, seen, queue[1..]) && Called(host, needed, seen, queue[1..])
  {
    hide Closed, Pulls;
    assert queue == [queue[0]] + queue[1..];
  }

  lemma SeenNow(host: Index, needed: Path -> seq<Name>, seen: set<Name>, queue: seq<Name>, more: seq<Name>)
    requires queue != [] && Covered(host, needed, seen, queue) && Called(host, needed, seen, queue)
    requires forall m :: m in more <==> m in Pulls(host, needed, queue[0]) && m !in seen + {queue[0]}
    ensures Covered(host, needed, seen + {queue[0]}, queue[1..] + more)
    ensures Called(host, needed, seen + {queue[0]}, queue[1..] + more)
  {
    var name, rest := queue[0], queue[1..];
    assert queue == [name] + rest;
    forall s | Closed(host, needed, s) ensures seen + {name} <= s && forall n :: n in rest + more ==> n in s {
      assert name in queue && name in s;
    }
  }

  lemma StillBounded(host: Index, needed: Path -> seq<Name>, seen: set<Name>, queue: seq<Name>, more: seq<Name>)
    requires queue != [] && Bounded(Universe(host, needed), seen, queue)
    requires forall m :: m in more ==> m in Pulls(host, needed, queue[0])
    ensures Bounded(Universe(host, needed), seen + {queue[0]}, queue[1..] + more)
    ensures queue[0] !in seen ==>
      |Universe(host, needed) - (seen + {queue[0]})| < |Universe(host, needed) - seen|
  {
    var name, all := queue[0], Universe(host, needed);
    assert queue == [name] + queue[1..];
    if name !in seen { assert all - (seen + {name}) == (all - seen) - {name}; }
  }

  /** `driver_closure`: a walk with a queue finds the least closed set. */
  method DriverClosure(host: Index, needed: Path -> seq<Name>) returns (seen: set<Name>)
    ensures Closed(host, needed, seen)
    ensures forall s :: Closed(host, needed, s) ==> seen <= s
  {
    hide Closed, Covered, Called, Bounded, Universe;
    seen := {};
    var queue := host.seeds;
    ghost var all := Universe(host, needed);
    Unvisited(host, needed, all, queue);
    while queue != []
      invariant Bounded(all, seen, queue) && Covered(host, needed, seen, queue) && Called(host, needed, seen, queue)
      decreases |all - seen|, |queue|
    {
      queue, seen := Visit(host, needed, all, seen, queue);
    }
    AllVisited(host, needed, seen, queue);
  }

  lemma Unvisited(host: Index, needed: Path -> seq<Name>, all: set<Name>, queue: seq<Name>)
    requires all == Universe(host, needed) && queue == host.seeds
    ensures Bounded(all, {}, queue) && Covered(host, needed, {}, queue) && Called(host, needed, {}, queue)
  {
  }

  lemma AllVisited(host: Index, needed: Path -> seq<Name>, seen: set<Name>, queue: seq<Name>)
    requires queue == [] && Covered(host, needed, seen, queue) && Called(host, needed, seen, queue)
    ensures Closed(host, needed, seen) && forall s :: Closed(host, needed, s) ==> seen <= s
  {
    forall n, m | n in seen && n in host.libs && m in needed(host.libs[n]) ensures m in seen {
      assert m in Pulls(host, needed, n);
    }
  }

  /** One name off the queue. */
  method Visit(host: Index, needed: Path -> seq<Name>, ghost all: set<Name>, seen: set<Name>, queue: seq<Name>)
    returns (rest: seq<Name>, now: set<Name>)
    requires queue != [] && all == Universe(host, needed)
    requires Bounded(all, seen, queue) && Covered(host, needed, seen, queue) && Called(host, needed, seen, queue)
    ensures Bounded(all, now, rest) && Covered(host, needed, now, rest) && Called(host, needed, now, rest)
    ensures |all - now| < |all - seen| || (now == seen && |rest| < |queue|)
  {
    hide Closed, Covered, Called, Bounded, Universe, Unseen;
    var name := queue[0];
    if name in seen {
      SeenBefore(host, needed, seen, queue);
      Shorter(all, seen, queue);
      return queue[1..], seen;
    }
    now := seen + {name};
    var more := Unseen(now, if name in host.libs then needed(host.libs[name]) else []);
    UnseenAre(now, Pulls(host, needed, name));
    StillBounded(host, needed, seen, queue, more);
    SeenNow(host, needed, seen, queue, more);
    rest := queue[1..] + more;
  }

  lemma Shorter(all: set<Name>, seen: set<Name>, queue: seq<Name>)
    requires queue != [] && Bounded(all, seen, queue)
    ensures Bounded(all, seen, queue[1..])
  {
  }

  /** The needed names not seen yet, in order. */
  function Unseen(seen: set<Name>, needs: seq<Name>): seq<Name> {
    if needs == [] then [] else (if needs[0] !in seen then [needs[0]] else []) + Unseen(seen, needs[1..])
  }

  lemma {:induction false} UnseenAre(seen: set<Name>, needs: seq<Name>)
    ensures forall n :: n in Unseen(seen, needs) <==> n in needs && n !in seen
  {
    if needs != [] {
      UnseenAre(seen, needs[1..]);
      assert needs == [needs[0]] + needs[1..];
    }
  }

  /** There is one least closed set. */
  lemma OneClosure(host: Index, needed: Path -> seq<Name>, a: set<Name>, b: set<Name>)
    requires Closed(host, needed, a) && forall s :: Closed(host, needed, s) ==> a <= s
    requires Closed(host, needed, b) && forall s :: Closed(host, needed, s) ==> b <= s
    ensures a == b
  {
  }

  // ---- the decision ------------------------------------------------------------------------------

  /** What the files say. */
  datatype World = World(
    versions: Path -> Versions,
    needed: Path -> seq<Name>,
    interp: Path -> Option<Path>,
    isFile: Path -> bool)

  datatype Request = Request(bundled: map<Name, Path>, hostLibc: bool, always: bool)

  datatype Decision = Decision(
    compared: seq<(Name, Option<Choice>)>,
    winners: map<Name, Path>,
    hostInterp: Option<Path>,
    incomparable: seq<Name>)

  /** A loader that the host names and has. */
  predicate NamedLoader(w: World, host: Index, n: Name) {
    n in host.libs && StartsWith(n, LOADER) && w.isFile(host.libs[n])
  }

  /** The host libc's own interpreter, or else the first loader among the host's libraries. */
  ghost predicate IsLoader(w: World, host: Index, libc: Path, r: Option<Path>) {
    if w.interp(libc).Some? && w.isFile(w.interp(libc).value) then r == w.interp(libc)
    else
      match r
      case None => forall n :: !NamedLoader(w, host, n)
      case Some(path) =>
        exists n :: NamedLoader(w, host, n) && path == host.libs[n] && forall m ::
          NamedLoader(w, host, m) && m != n ==> Before(n, m)
  }

  method LoaderFor(w: World, host: Index, libc: Path) returns (r: Option<Path>)
    ensures IsLoader(w, host, libc, r)
  {
    var interp := w.interp(libc);
    if interp.Some? && w.isFile(interp.value) { return interp; }
    var left := host.libs.Keys;
    while left != {}
      invariant left <= host.libs.Keys
      invariant forall n :: n in host.libs && n !in left ==> !NamedLoader(w, host, n)
      decreases left
    {
      LeastExists(left);
      var name :| name in left && IsLeast(name, left);
      if StartsWith(name, LOADER) && w.isFile(host.libs[name]) {
        assert NamedLoader(w, host, name);
        return Some(host.libs[name]);
      }
      left := left - {name};
    }
    return None;
  }

  /** The bundle's libc and the host's are compared at all. */
  predicate LibcCompared(req: Request, host: Index) { req.hostLibc && LIBC in req.bundled && LIBC in host.libs }

  function LibcChoice(w: World, req: Request, host: Index): Choice
    requires LibcCompared(req, host)
  {
    Compare(w.versions(req.bundled[LIBC]), w.versions(host.libs[LIBC]))
  }

  predicate TakenWithLibc(req: Request, host: Index, n: Name) {
    n in req.bundled && LibcFamily(n) && (StartsWith(n, LOADER) || n in host.libs)
  }

  /** Compared in the second part: a name the drivers need, or any bundled one under `always`. */
  predicate Candidate(req: Request, closure: set<Name>, n: Name) { n in closure || (req.always && n in req.bundled) }

  predicate Weighed(req: Request, host: Index, closure: set<Name>, n: Name) {
    Candidate(req, closure, n) && !LibcFamily(n) && n in host.libs
  }

  function ChoiceOf(w: World, req: Request, host: Index, n: Name): Option<Choice>
    requires n in host.libs
  {
    if n in req.bundled then Some(Compare(w.versions(req.bundled[n]), w.versions(host.libs[n]))) else None
  }

  predicate TakenAlone(w: World, req: Request, host: Index, closure: set<Name>, n: Name) {
    Weighed(req, host, closure, n) && (ChoiceOf(w, req, host, n).None? || ChoiceOf(w, req, host, n) == Some(Host))
  }

  /** What the decision takes under the name `n`, if anything. */
  function Taken(w: World, req: Request, host: Index, closure: set<Name>, loader: Option<Path>, n: Name): Option<Path> {
    if LibcFamily(n) then
      if LibcCompared(req, host) && LibcChoice(w, req, host).Host? && loader.Some? && TakenWithLibc(req, host, n) then
        Some(if StartsWith(n, LOADER) then loader.value else host.libs[n])
      else None
    else if TakenAlone(w, req, host, closure, n) then Some(host.libs[n])
    else None
  }

  ghost predicate Decided(w: World, req: Request, host: Index, closure: set<Name>, loader: Option<Path>, d: Decision) {
    && (forall n: Name ::
          (if n in d.winners then Some(d.winners[n]) else None) == Taken(w, req, host, closure, loader, n))
    && d.hostInterp == (if LibcCompared(req, host) && LibcChoice(w, req, host).Host? then loader else None)
    && (forall n, c :: (n, c) in d.compared <==>
          || (n == LIBC && LibcCompared(req, host) && c == Some(LibcChoice(w, req, host)))
          || (Weighed(req, host, closure, n) && c == ChoiceOf(w, req, host, n)))
    && (forall n :: n in d.incomparable <==> (n, Some(Incomparable)) in d.compared)
  }

  // ---- deciding ------------------------------------------------------------------------------------

  /** What the first part takes under a name: the glibc family when the host's libc wins. */
  function TakenFirst(w: World, req: Request, host: Index, loader: Option<Path>, n: Name): Option<Path> {
    if LibcCompared(req, host) && LibcChoice(w, req, host).Host? && loader.Some? && TakenWithLibc(req, host, n) then
      Some(if StartsWith(n, LOADER) then loader.value else if n in host.libs then host.libs[n] else loader.value)
    else None
  }

  /** The glibc family of the bundle, from the host. */
  method TakeFamily(req: Request, host: Index, interp: Path) returns (winners: map<Name, Path>)
    ensures forall n :: n in winners <==> TakenWithLibc(req, host, n)
    ensures forall n :: n in winners ==>
      winners[n] == if StartsWith(n, LOADER) || n !in host.libs then interp else host.libs[n]
  {
    hide LibcFamily;
    winners := map[];
    var left := req.bundled.Keys;
    while left != {}
      invariant left <= req.bundled.Keys
      invariant forall n :: n in winners <==> n !in left && TakenWithLibc(req, host, n)
      invariant forall n :: n in winners ==>
        winners[n] == if StartsWith(n, LOADER) || n !in host.libs then interp else host.libs[n]
      decreases left
    {
      var name :| name in left;
      left := left - {name};
      if LibcFamily(name) {
        if StartsWith(name, LOADER) {
          winners := winners[name := interp];
        } else if name in host.libs {
          winners := winners[name := host.libs[name]];
        }
      }
    }
  }

  /** The first part: libc and its family. */
  method DecideLibc(w: World, req: Request, host: Index) returns (d: Decision, ghost loader: Option<Path>)
    ensures LibcCompared(req, host) ==> IsLoader(w, host, host.libs[LIBC], loader)
    ensures forall n :: (if n in d.winners then Some(d.winners[n]) else None) == TakenFirst(w, req, host, loader, n)
    ensures d.hostInterp == if LibcCompared(req, host) && LibcChoice(w, req, host).Host? then loader else None
    ensures d.compared == if LibcCompared(req, host) then [(LIBC, Some(LibcChoice(w, req, host)))] else []
    ensures d.incomparable == if LibcCompared(req, host) && LibcChoice(w, req, host).Incomparable? then [LIBC] else []
  {
    d, loader := Decision([], map[], None, []), None;
    if req.hostLibc && LIBC in req.bundled && LIBC in host.libs {
      var choice := Compare(w.versions(req.bundled[LIBC]), w.versions(host.libs[LIBC]));
      d := d.(compared := [(LIBC, Some(choice))]);
      var found := LoaderFor(w, host, host.libs[LIBC]);
      loader := found;
      match choice
      case Host =>
        if found.Some? {
          var winners := TakeFamily(req, host, found.value);
          d := d.(winners := winners, hostInterp := found);
        }
      case Incomparable => d := d.(incomparable := [LIBC]);
      case Bundle =>
    }
  }

  /** What has been decided once the names in `done` have been weighed. */
  ghost predicate Deciding(w: World, req: Request, host: Index, closure: set<Name>, loader: Option<Path>,
                           done: set<Name>, d: Decision) {
    && (forall n: Name :: (if n in d.winners then Some(d.winners[n]) else None) ==
          if LibcFamily(n) then TakenFirst(w, req, host, loader, n)
          else if n in done && TakenAlone(w, req, host, closure, n) then Some(host.libs[n])
          else None)
    && d.hostInterp == (if LibcCompared(req, host) && LibcChoice(w, req, host).Host? then loader else None)
    && (forall n, c :: (n, c) in d.compared <==>
          || (n == LIBC && LibcCompared(req, host) && c == Some(LibcChoice(w, req, host)))
          || (n in done && Weighed(req, host, closure, n) && c == ChoiceOf(w, req, host, n)))
    && (forall n :: n in d.incomparable <==> (n, Some(Incomparable)) in d.compared)
  }

  /** One candidate: compared with the bundle's copy if there is one. */
  function Weigh(w: World, req: Request, host: Index, n: Name, d: Decision): Decision
    requires n in host.libs
  {
    var choice := ChoiceOf(w, req, host, n);
    var compared := d.compared + [(n, choice)];
    match choice
    case None => d.(compared := compared, winners := d.winners[n := host.libs[n]])
    case Some(Host) => d.(compared := compared, winners := d.winners[n := host.libs[n]])
    case Some(Incomparable) => d.(compared := compared, incomparable := d.incomparable + [n])
    case Some(Bundle) => d.(compared := compared)
  }

  lemma WeighedOne(w: World, req: Request, host: Index, closure: set<Name>, loader: Option<Path>, done: set<Name>,
                   d: Decision, n: Name)
    requires Deciding(w, req, host, closure, loader, done, d) && n !in done && Candidate(req, closure, n)
    ensures Deciding(w, req, host, closure, loader, done + {n},
                     if LibcFamily(n) || n !in host.libs then d else Weigh(w, req, host, n, d))
  {
    hide LibcFamily, TakenFirst, LibcChoice, LibcCompared;
  }

  /** From the `skip`th on, in order of name and of names in `done`. */
  ghost predicate Rising(skip: nat, compared: seq<(Name, Option<Choice>)>, done: set<Name>) {
    && (forall i :: skip <= i < |compared| ==> compared[i].0 in done)
    && (forall i, j :: skip <= i < j < |compared| ==> Before(compared[i].0, compared[j].0))
  }

  predicate InOrder(skip: nat, compared: seq<(Name, Option<Choice>)>) {
    forall i, j :: skip <= i < j < |compared| ==> Before(compared[i].0, compared[j].0)
  }

  lemma StillRising(skip: nat, d: Decision, w: World, req: Request, host: Index, done: set<Name>, n: Name)
    requires Rising(skip, d.compared, done) && n in host.libs && forall m :: m in done ==> Before(m, n)
    ensures Rising(skip, Weigh(w, req, host, n, d).compared, done + {n})
  {
    hide Before, ChoiceOf;
    assert Weigh(w, req, host, n, d).compared == d.compared + [(n, ChoiceOf(w, req, host, n))];
  }

  /** The second part: every candidate, in order of name. */
  method WeighAll(w: World, req: Request, host: Index, ghost closure: set<Name>, ghost loader: Option<Path>,
                  all: set<Name>, first: Decision)
    returns (d: Decision)
    requires forall n :: n in all ==> Candidate(req, closure, n)
    requires Deciding(w, req, host, closure, loader, {}, first)
    ensures Deciding(w, req, host, closure, loader, all, d)
    ensures InOrder(|first.compared|, d.compared)
  {
    d := first;
    var left := all;
    ghost var done: set<Name>, skip := {}, |first.compared|;
    while left != {}
      invariant done + left == all && done !! left
      invariant forall m, n :: m in done && n in left ==> Before(m, n)
      invariant Deciding(w, req, host, closure, loader, done, d)
      invariant Rising(skip, d.compared, done)
      decreases left
    {
      hide Deciding, IsLeast, LibcFamily, Weigh, Rising, Candidate, Before;
      LeastExists(left);
      var name :| name in left && IsLeast(name, left);
      LeastIsBefore(name, left);
      left := left - {name};
      WeighedOne(w, req, host, closure, loader, done, d, name);
      MoreDone(skip, d.compared, done, name);
      if !LibcFamily(name) && name in host.libs {
        StillRising(skip, d, w, req, host, done, name);
        d := Weigh(w, req, host, name, d);
      }
      done := done + {name};
    }
    assert done == all;
  }

  lemma MoreDone(skip: nat, compared: seq<(Name, Option<Choice>)>, done: set<Name>, n: Name)
    requires Rising(skip, compared, done)
    ensures Rising(skip, compared, done + {n})
  {
  }

  /** `decide_on`: first libc, then every candidate in order of name. */
  method DecideOn(w: World, req: Request, host: Index)
    returns (d: Decision, ghost closure: set<Name>, ghost loader: Option<Path>)
    ensures Closed(host, w.needed, closure) && forall s :: Closed(host, w.needed, s) ==> closure <= s
    ensures LibcCompared(req, host) ==> IsLoader(w, host, host.libs[LIBC], loader)
    ensures Decided(w, req, host, closure, loader, d)
    ensures InOrder(if LibcCompared(req, host) then 1 else 0, d.compared)
  {
    var first;
    first, loader := DecideLibc(w, req, host);
    var drivers := DriverClosure(host, w.needed);
    closure := drivers;
    var all := drivers + if req.always then req.bundled.Keys else {};
    StartDeciding(w, req, host, closure, loader, first);
    hide Deciding, Closed, IsLoader, InOrder, Decided;
    d := WeighAll(w, req, host, closure, loader, all, first);
    EndDeciding(w, req, host, closure, loader, all, d);
  }

  lemma StartDeciding(w: World, req: Request, host: Index, closure: set<Name>, loader: Option<Path>, d: Decision)
    requires forall n :: (if n in d.winners then Some(d.winners[n]) else None) == TakenFirst(w, req, host, loader, n)
    requires d.hostInterp == if LibcCompared(req, host) && LibcChoice(w, req, host).Host? then loader else None
    requires d.compared == if LibcCompared(req, host) then [(LIBC, Some(LibcChoice(w, req, host)))] else []
    requires d.incomparable == if LibcCompared(req, host) && LibcChoice(w, req, host).Incomparable? then [LIBC] else []
    ensures Deciding(w, req, host, closure, loader, {}, d)
  {
    hide LibcFamily;
  }

  lemma EndDeciding(w: World, req: Request, host: Index, closure: set<Name>, loader: Option<Path>, all: set<Name>,
                    d: Decision)
    requires all == closure + if req.always then req.bundled.Keys else {}
    requires Deciding(w, req, host, closure, loader, all, d)
    ensures Decided(w, req, host, closure, loader, d)
  {
    hide LibcFamily;
    assert forall n :: Weighed(req, host, closure, n) ==> n in all;
  }

  // ---- what a decision means -----------------------------------------------------------------------

  /** A bundled library outside the glibc family gives way only to a host copy that defines strictly more. */
  lemma BundledGivesWayOnlyToMore(w: World, req: Request, host: Index, closure: set<Name>, loader: Option<Path>,
                                  d: Decision, n: Name)
    requires Decided(w, req, host, closure, loader, d) && n in req.bundled && !LibcFamily(n)
    ensures n in d.winners <==>
      && Candidate(req, closure, n) && n in host.libs
      && w.versions(req.bundled[n]) < w.versions(host.libs[n])
  {
    assert Taken(w, req, host, closure, loader, n).Some? <==> n in d.winners;
  }

  /** What the bundle does not carry comes from the host exactly if the drivers need it and the host has
      it: there is nothing to compare it with. */
  lemma DriversComeFromTheHost(w: World, req: Request, host: Index, closure: set<Name>, loader: Option<Path>,
                               d: Decision, n: Name)
    requires Decided(w, req, host, closure, loader, d) && n !in req.bundled
    ensures !LibcFamily(n) ==> (n in d.winners <==> n in closure && n in host.libs)
    ensures LibcFamily(n) ==> n !in d.winners
  {
    assert Taken(w, req, host, closure, loader, n) == if n in d.winners then Some(d.winners[n]) else None;
  }

  /** Every winner but a loader is the host's library of its own name. */
  lemma WinnersAreTheHosts(w: World, req: Request, host: Index, closure: set<Name>, loader: Option<Path>,
                           d: Decision, n: Name)
    requires Decided(w, req, host, closure, loader, d) && n in d.winners
    requires !(LibcFamily(n) && StartsWith(n, LOADER))
    ensures n in host.libs && d.winners[n] == host.libs[n]
  {
    assert Taken(w, req, host, closure, loader, n) == Some(d.winners[n]);
  }

  /** What is reported of a library outside the glibc family: that the host alone has it, or how the two
      sets of versions compare. */
  lemma ComparedMeans(w: World, req: Request, host: Index, closure: set<Name>, loader: Option<Path>,
                      d: Decision, n: Name, c: Option<Choice>)
    requires Decided(w, req, host, closure, loader, d) && !LibcFamily(n)
    ensures (n, c) in d.compared <==>
      && n in host.libs && (n in closure || (req.always && n in req.bundled))
      && if n !in req.bundled then c == None
         else
           var bundle, other := w.versions(req.bundled[n]), w.versions(host.libs[n]);
           c == Some(if other <= bundle then Bundle else if bundle < other then Host else Incomparable)
    ensures n in d.incomparable <==> (n, Some(Incomparable)) in d.compared
  {
    assert LibcFamily(LIBC) by { LibcIsFamily(); }
  }

  lemma LibcIsFamily()
    ensures LibcFamily(LIBC)
  {
    assert LIBC_FAMILY[0] == Ascii("libc.so") && LIBC[..7] == Ascii("libc.so");
  }

  /** The glibc family is taken as a whole or not at all, exactly when the host's libc wins and a loader is
      found, and every loader name then stands for that one loader.
   */
  lemma LibcFamilyIsAUnit(w: World, req: Request, host: Index, closure: set<Name>, loader: Option<Path>, d: Decision,
                          n: Name)
    requires Decided(w, req, host, closure, loader, d) && LibcFamily(n) && n in req.bundled
    requires StartsWith(n, LOADER) || n in host.libs
    ensures n in d.winners <==> LibcCompared(req, host) && LibcChoice(w, req, host).Host? && loader.Some?
    ensures n in d.winners <==> d.hostInterp.Some?
    ensures n in d.winners && StartsWith(n, LOADER) ==> Some(d.winners[n]) == d.hostInterp
  {
    assert Taken(w, req, host, closure, loader, n) == if n in d.winners then Some(d.winners[n]) else None;
  }

  /** Under `auto` nothing is taken that `always` would not take, and from the same place. */
  lemma AutoWithinAlways(w: World, req: Request, host: Index, closure: set<Name>, loader: Option<Path>,
                         auto: Decision, always: Decision)
    requires Decided(w, req.(always := false), host, closure, loader, auto)
    requires Decided(w, req.(always := true), host, closure, loader, always)
    ensures forall n :: n in auto.winners ==> n in always.winners && always.winners[n] == auto.winners[n]
  {
    var a, b := req.(always := false), req.(always := true);
    forall n | n in auto.winners ensures n in always.winners && always.winners[n] == auto.winners[n] {
      assert Taken(w, a, host, closure, loader, n) == Some(auto.winners[n]);
      assert Taken(w, b, host, closure, loader, n) == Taken(w, a, host, closure, loader, n);
      assert n in always.winners;
    }
  }
}
