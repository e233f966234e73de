/** The lifetime guardian of `crates/onelf-rt/src/guardian.rs` among the processes of a
    system. A process has an identity of its own, ordered by birth, and a pid that is used
    again once it has been reaped. The guardian only ever sees pids. Any other process may
    fork, exit, reap and make itself a subreaper at any time, and the guardian may be
    killed at any point. `wait` returns a status, an interruption or the lack of children.
 */
module Guardian {

  type Id = nat

  const INIT: Id := 0

  datatype Status = Exited(code: int) | Killed(signal: int) | Odd

  datatype Outcome = Exit(code: int) | Signaled(signal: int) | Other | Unavailable

  /** A wait status as an outcome. */
  function OutcomeOf(status: Status): Outcome {
    match status
    case Exited(code) => Exit(code)
    case Killed(signal) => Signaled(signal)
    case Odd => Other
  }

  datatype Life = Alive | Zombie(status: Status)

  datatype Proc = Proc(pid: nat, parent: Id, subreaper: bool, life: Life)

  type Procs = map<Id, Proc>

  datatype Event = Report(outcome: Outcome) | Release

  /** Where the guardian is: in `supervise`, and inside it in `foreground_reaped`. */
  datatype Pc =
    | Start
    | Marked
    | Failed
    | FailedReleased
    | Waiting
    | Reaped(status: Status)
    | Stored(status: Status)
    | Detached(status: Status)
    | Unaccounted
    | Drained
    | Done
    | Gone

  /** `pending` is the report not yet taken, `child` the pid the loop compares with and
      `foreground` the pid signals are forwarded to. `fore`, `ended` and `family` are what
      an observer knows: the foreground process, how it ended, and every process ever born
      to the foreground or to one of its descendants.
   */
  datatype State = State(
    procs: Procs,
    next: Id,
    pc: Pc,
    pending: bool,
    child: nat,
    foreground: nat,
    log: seq<Event>,
    fore: Id,
    ended: Status,
    family: set<Id>)

  datatype Act =
    | Fork(x: Id, pid: nat, sibling: bool)
    | ExitOf(x: Id, status: Status)
    | Reap(x: Id)
    | SetSubreaper(x: Id, on: bool)
    | Mark(ok: bool)
    | ForkForeground(ok: bool, pid: nat)
    | WaitStatus(x: Id)
    | WaitInterrupted
    | WaitNoChild
    | Store
    | Detach
    | Send
    | LetGo
    | Quit
    | GuardianKilled(status: Status)

  // ---- the kernel --------------------------------------------------------------------

  predicate Known(procs: Procs, next: Id, x: Id) { x in procs ==> x < next && procs[x].pid > 0 }

  /** The parent of a process is alive and older. */
  predicate HasParent(procs: Procs, x: Id) {
    x in procs && x != INIT ==>
      var p := procs[x].parent; p in procs && p < x && procs[p].life.Alive?
  }

  predicate PidsDiffer(procs: Procs, x: Id, y: Id) {
    x in procs && y in procs && procs[x].pid == procs[y].pid ==> x == y
  }

  /** The processes form a tree below init, and no pid is in use twice. */
  ghost predicate Tree(procs: Procs, next: Id) {
    && INIT in procs && procs[INIT].life.Alive? && procs[INIT].parent == INIT
    && (forall x: Id {:trigger Known(procs, next, x)} :: Known(procs, next, x))
    && (forall x: Id {:trigger HasParent(procs, x)} :: HasParent(procs, x))
    && (forall x: Id, y: Id {:trigger PidsDiffer(procs, x, y)} :: PidsDiffer(procs, x, y))
  }

  /** The nearest subreaper above `x`, or init. */
  ghost function Adopter(procs: Procs, next: Id, x: Id): (a: Id)
    requires Tree(procs, next) && x in procs
    ensures a in procs && procs[a].life.Alive? && (x != INIT ==> a < x)
    decreases x
  {
    if x == INIT then INIT
    else
      assert HasParent(procs, x);
      var p := procs[x].parent;
      if p == INIT || procs[p].subreaper then p else Adopter(procs, next, p)
  }

  /** `x` has become a zombie and its children, dead or alive, have been adopted. */
  ghost function AfterExit(procs: Procs, next: Id, x: Id, status: Status): Procs
    requires Tree(procs, next) && x in procs
  {
    map y | y in procs ::
      if y == x then procs[x].(life := Zombie(status))
      else if procs[y].parent == x then procs[y].(parent := Adopter(procs, next, x))
      else procs[y]
  }

  predicate FreePid(procs: Procs, pid: nat) { pid > 0 && forall x :: x in procs ==> procs[x].pid != pid }

  predicate Childless(procs: Procs, g: Id) { forall x :: x in procs && x != INIT ==> procs[x].parent != g }

  predicate LiveOther(g: Id, s: State, x: Id) { x in s.procs && s.procs[x].life.Alive? && x != g && x != INIT }

  // ---- the steps -----------------------------------------------------------------------

  ghost predicate OtherActs(g: Id, s: State, t: State, a: Act)
    requires Tree(s.procs, s.next)
  {
    match a
    case Fork(x, pid, sibling) =>
      && x in s.procs && s.procs[x].life.Alive? && x != g && (sibling ==> x != INIT) && FreePid(s.procs, pid)
      && t == s.(procs := s.procs[s.next := Proc(pid, if sibling then s.procs[x].parent else x, false, Alive)],
                 next := s.next + 1,
                 family := if x in s.family then s.family + {s.next} else s.family)
    case ExitOf(x, status) =>
      && LiveOther(g, s, x)
      && t == s.(procs := AfterExit(s.procs, s.next, x, status),
                 ended := if x == s.fore then status else s.ended)
    case Reap(x) =>
      && x in s.procs && x != INIT && s.procs[x].life.Zombie? && s.procs[x].parent != g
      && t == s.(procs := s.procs - {x})
    case SetSubreaper(x, on) =>
      && LiveOther(g, s, x)
      && t == s.(procs := s.procs[x := s.procs[x].(subreaper := on)])
    case GuardianKilled(status) =>
      && !s.pc.Gone? && g in s.procs
      && t == s.(procs := AfterExit(s.procs, s.next, g, status), pc := Gone)
    case _ => false
  }

  ghost predicate GuardianActs(g: Id, s: State, t: State, a: Act)
    requires Tree(s.procs, s.next)
  {
    match a
    case Mark(ok) =>
      && s.pc.Start? && g in s.procs
      && t == if ok then s.(procs := s.procs[g := s.procs[g].(subreaper := true)], pc := Marked) else s.(pc := Failed)
    case ForkForeground(ok, pid) =>
      && s.pc.Marked? && (ok ==> FreePid(s.procs, pid))
      && t == if ok then
           s.(procs := s.procs[s.next := Proc(pid, g, false, Alive)], next := s.next + 1, pc := Waiting,
              pending := true, child := pid, foreground := pid, fore := s.next, family := {s.next})
         else s.(pc := Failed)
    case WaitStatus(x) =>
      && s.pc.Waiting? && x in s.procs && x != INIT && s.procs[x].life.Zombie? && s.procs[x].parent == g
      && t == s.(procs := s.procs - {x},
                 pc := if s.procs[x].pid == s.child then Reaped(s.procs[x].life.status) else Waiting)
    case WaitInterrupted => s.pc.Waiting? && t == s
    case WaitNoChild =>
      && s.pc.Waiting? && Childless(s.procs, g)
      && t == s.(pc := if s.pending then Unaccounted else Drained)
    case Store => s.pc.Reaped? && t == s.(foreground := 0, pc := Stored(s.pc.status))
    case Detach => s.pc.Stored? && t == s.(pc := Detached(s.pc.status))
    case Send =>
      || (&& s.pc.Detached?
          && t == if s.pending then s.(pc := Waiting, pending := false, log := s.log + [Report(OutcomeOf(s.pc.status))])
                  else s.(pc := Waiting))
      || ((s.pc.FailedReleased? || s.pc.Unaccounted?) && t == s.(pc := Done, log := s.log + [Report(Unavailable)]))
    case LetGo =>
      || (s.pc.Failed? && t == s.(pc := FailedReleased, log := s.log + [Release]))
      || (s.pc.Drained? && t == s.(pc := Done, log := s.log + [Release]))
    case Quit =>
      && s.pc.Done? && g in s.procs
      && t == s.(procs := AfterExit(s.procs, s.next, g, Exited(0)), pc := Gone)
    case _ => false
  }

  ghost predicate Step(g: Id, s: State, t: State) {
    Tree(s.procs, s.next) && exists a: Act :: OtherActs(g, s, t, a) || GuardianActs(g, s, t, a)
  }

  /** The guardian has just been forked: alive, without children, among any other processes. */
  ghost predicate Forked(g: Id, s: State) {
    && Tree(s.procs, s.next) && g in s.procs && g != INIT && s.procs[g].life.Alive? && Childless(s.procs, g)
    && s.pc.Start? && !s.pending && s.log == [] && s.family == {} && s.foreground == 0
  }

  ghost predicate Run(g: Id, tr: seq<State>) {
    && tr != [] && Forked(g, tr[0])
    && forall i :: 0 <= i < |tr| - 1 ==> Step(g, tr[i], tr[i + 1])
  }

  // ---- what holds throughout ---------------------------------------------------------------

  predicate Belongs(procs: Procs, g: Id, family: set<Id>, x: Id) {
    x in procs && x != INIT ==> (x in family <==> procs[x].parent == g || procs[x].parent in family)
  }

  /** A family member is what the guardian or another family member is the parent of. */
  ghost predicate Held(procs: Procs, g: Id, family: set<Id>) {
    && INIT !in family && g !in family
    && forall x: Id {:trigger Belongs(procs, g, family, x)} :: Belongs(procs, g, family, x)
  }

  predicate Reaping(pc: Pc) { pc.Reaped? || pc.Stored? || pc.Detached? }

  /** The guardian holds its subtree together. */
  predicate Active(pc: Pc) { pc.Waiting? || Reaping(pc) }

  predicate Standing(g: Id, procs: Procs) { g in procs && g != INIT && procs[g].life.Alive? }

  predicate NoneLeft(procs: Procs, family: set<Id>) { forall x :: x in procs ==> x !in family }

  ghost predicate Watched(g: Id, s: State) {
    && s.fore in s.procs && s.fore != INIT && s.procs[s.fore].parent == g && s.procs[s.fore].pid == s.child
    && (s.procs[s.fore].life.Zombie? ==> s.ended == s.procs[s.fore].life.status)
    && s.foreground == s.child
  }

  predicate StatusOf(pc: Pc, status: Status) {
    match pc
    case Reaped(st) => st == status
    case Stored(st) => st == status
    case Detached(st) => st == status
    case _ => true
  }

  /** What has been said and done by the time the guardian is at `pc`. */
  predicate Logged(pc: Pc, pending: bool, ended: Status, log: seq<Event>) {
    match pc
    case Start => log == []
    case Marked => log == []
    case Failed => log == []
    case FailedReleased => log == [Release]
    case Waiting => log == if pending then [] else [Report(OutcomeOf(ended))]
    case Reaped(_) => log == if pending then [] else [Report(OutcomeOf(ended))]
    case Stored(_) => log == if pending then [] else [Report(OutcomeOf(ended))]
    case Detached(_) => log == if pending then [] else [Report(OutcomeOf(ended))]
    case Unaccounted => false
    case Drained => log == [Report(OutcomeOf(ended))]
    case Done => log == [Release, Report(Unavailable)] || log == [Report(OutcomeOf(ended)), Release]
    case Gone => PartOf(log, ended)
  }

  /** The foreground's own outcome and then the release, or the release and then that there was no launch. */
  predicate PartOf(log: seq<Event>, ended: Status) {
    log <= [Report(OutcomeOf(ended)), Release] || log <= [Release, Report(Unavailable)]
  }

  predicate Before(pc: Pc) { pc.Start? || pc.Marked? || pc.Failed? || pc.FailedReleased? }

  /** The foreground process has been reaped, and its identity is never used again. */
  ghost predicate Settled(s: State) { s.fore < s.next && s.fore !in s.procs }

  predicate Told(log: seq<Event>) { log != [] && log[0].Report? }

  /** The guardian lives, as a subreaper once it could mark itself one. */
  ghost predicate Lives(g: Id, s: State) {
    && (!s.pc.Gone? ==> Standing(g, s.procs))
    && (Active(s.pc) || s.pc.Marked? ==> g in s.procs && s.procs[g].subreaper)
  }

  ghost predicate Families(g: Id, s: State) {
    && (forall x :: x in s.family ==> x < s.next)
    && (Before(s.pc) ==> s.family == {} && Childless(s.procs, g))
    && (Active(s.pc) ==> Held(s.procs, g, s.family))
  }

  ghost predicate Foreground(g: Id, s: State) {
    && (s.pc.Waiting? && s.pending ==> Watched(g, s))
    && (Reaping(s.pc) && s.pending ==> Settled(s) && StatusOf(s.pc, s.ended))
    && (Told(s.log) ==> Settled(s))
    && (s.foreground != 0 && !s.pc.Gone? ==> s.pending && (s.pc.Waiting? || s.pc.Reaped?))
  }

  ghost predicate Emptied(s: State) { s.pc.Drained? || Release in s.log ==> NoneLeft(s.procs, s.family) }

  ghost predicate Inv(g: Id, s: State) {
    && Tree(s.procs, s.next)
    && Lives(g, s)
    && Families(g, s)
    && Foreground(g, s)
    && Logged(s.pc, s.pending, s.ended, s.log)
    && Emptied(s)
  }

  // ---- adoption ------------------------------------------------------------------------------

  /** An orphan stays in the family exactly when its parent was in it. */
  lemma {:induction false} AdopterHeld(procs: Procs, next: Id, g: Id, family: set<Id>, x: Id)
    requires Tree(procs, next) && Held(procs, g, family)
    requires Standing(g, procs) && procs[g].subreaper
    requires x in procs && x != INIT && x != g
    ensures var a := Adopter(procs, next, x); x in family <==> a == g || a in family
    decreases x
  {
    var p := procs[x].parent;
    assert HasParent(procs, x) && Belongs(procs, g, family, x);
    if p != INIT && !procs[p].subreaper { AdopterHeld(procs, next, g, family, p); }
  }

  lemma AfterExitAt(procs: Procs, next: Id, x: Id, status: Status, y: Id)
    requires Tree(procs, next) && x in procs && x != INIT
    ensures var after := AfterExit(procs, next, x, status);
      && after.Keys == procs.Keys
      && (y in procs ==>
            && after[y].pid == procs[y].pid && after[y].subreaper == procs[y].subreaper
            && after[y].life == (if y == x then Zombie(status) else procs[y].life)
            && after[y].parent == (if y != x && procs[y].parent == x then Adopter(procs, next, x) else procs[y].parent))
  {
  }

  lemma ExitTree(procs: Procs, next: Id, x: Id, status: Status)
    requires Tree(procs, next) && x in procs && x != INIT
    ensures Tree(AfterExit(procs, next, x, status), next)
  {
    var after := AfterExit(procs, next, x, status);
    AfterExitAt(procs, next, x, status, INIT);
    hide AfterExit, Adopter;
    forall y: Id ensures Known(after, next, y) {
      assert Known(procs, next, y);
      AfterExitAt(procs, next, x, status, y);
    }
    forall y: Id ensures HasParent(after, y) {
      assert HasParent(procs, y);
      AfterExitAt(procs, next, x, status, y);
      if y in procs { AfterExitAt(procs, next, x, status, procs[y].parent); }
      AfterExitAt(procs, next, x, status, Adopter(procs, next, x));
    }
    forall y: Id, z: Id ensures PidsDiffer(after, y, z) {
      assert PidsDiffer(procs, y, z);
      AfterExitAt(procs, next, x, status, y);
      AfterExitAt(procs, next, x, status, z);
    }
  }

  lemma ExitHeld(procs: Procs, next: Id, g: Id, family: set<Id>, x: Id, status: Status)
    requires Tree(procs, next) && Held(procs, g, family)
    requires Standing(g, procs) && procs[g].subreaper
    requires x in procs && x != INIT && x != g
    ensures Held(AfterExit(procs, next, x, status), g, family)
  {
    AdopterHeld(procs, next, g, family, x);
    var after := AfterExit(procs, next, x, status);
    forall y: Id ensures Belongs(after, g, family, y) {
      hide AfterExit, Adopter;
      assert Belongs(procs, g, family, y);
      AfterExitAt(procs, next, x, status, y);
    }
  }

  lemma RemoveTree(procs: Procs, next: Id, x: Id)
    requires Tree(procs, next) && x in procs && x != INIT && procs[x].life.Zombie?
    ensures Tree(procs - {x}, next)
  {
    var after := procs - {x};
    forall y: Id ensures Known(after, next, y) { assert Known(procs, next, y); }
    forall y: Id ensures HasParent(after, y) { assert HasParent(procs, y); }
    forall y: Id, z: Id ensures PidsDiffer(after, y, z) { assert PidsDiffer(procs, y, z); }
  }

  lemma BirthTree(procs: Procs, next: Id, pid: nat, parent: Id)
    requires Tree(procs, next) && FreePid(procs, pid) && parent in procs && procs[parent].life.Alive?
    ensures Tree(procs[next := Proc(pid, parent, false, Alive)], next + 1) && next !in procs && parent < next
  {
    var after := procs[next := Proc(pid, parent, false, Alive)];
    assert Known(procs, next, next) && Known(procs, next, INIT) && Known(procs, next, parent);
    var later := next + 1;
    forall y: Id ensures Known(after, later, y) { assert Known(procs, next, y); }
    forall y: Id ensures HasParent(after, y) { assert HasParent(procs, y); }
    forall y: Id, z: Id ensures PidsDiffer(after, y, z) { assert PidsDiffer(procs, y, z); }
  }

  lemma MarkTree(procs: Procs, next: Id, x: Id, on: bool)
    requires Tree(procs, next) && x in procs && x != INIT
    ensures Tree(procs[x := procs[x].(subreaper := on)], next)
  {
    var after := procs[x := procs[x].(subreaper := on)];
    forall y: Id ensures Known(after, next, y) { assert Known(procs, next, y); }
    forall y: Id ensures HasParent(after, y) { assert HasParent(procs, y); }
    forall y: Id, z: Id ensures PidsDiffer(after, y, z) { assert PidsDiffer(procs, y, z); }
  }

  // ---- every step of the others keeps it -------------------------------------------------------

  lemma ForkFamilies(g: Id, s: State, t: State, a: Act)
    requires Tree(s.procs, s.next) && Families(g, s) && a.Fork? && OtherActs(g, s, t, a) && g < s.next
    ensures Families(g, t)
  {
    var parent := if a.sibling then s.procs[a.x].parent else a.x;
    assert HasParent(s.procs, a.x) && Known(s.procs, s.next, s.next) && Known(s.procs, s.next, INIT);
    if Active(s.pc) {
      assert Belongs(s.procs, g, s.family, a.x);
      forall y: Id ensures Belongs(t.procs, g, t.family, y) {
        assert Belongs(s.procs, g, s.family, y) && HasParent(s.procs, y);
      }
    }
  }

  lemma ForkKeeps(g: Id, s: State, t: State, a: Act)
    requires Inv(g, s) && a.Fork? && OtherActs(g, s, t, a)
    ensures Inv(g, t)
  {
    assert Known(s.procs, s.next, s.next) && Known(s.procs, s.next, g);
    assert HasParent(s.procs, a.x);
    BirthTree(s.procs, s.next, a.pid, if a.sibling then s.procs[a.x].parent else a.x);
    assert Families(g, t) by { if g in s.procs { ForkFamilies(g, s, t, a); } else { GoneFamilies(g, s, t); } }
    hide Tree, Families, Held, Logged;
  }

  lemma GoneFamilies(g: Id, s: State, t: State)
    requires Families(g, s) && t.next >= s.next && t.pc.Gone?
    requires forall x :: x in t.family ==> x in s.family || x < t.next
    ensures Families(g, t)
  {
  }

  lemma ExitKeeps(g: Id, s: State, t: State, a: Act)
    requires Inv(g, s) && a.ExitOf? && OtherActs(g, s, t, a)
    ensures Inv(g, t)
  {
    ExitTree(s.procs, s.next, a.x, a.status);
    if Active(s.pc) { ExitHeld(s.procs, s.next, g, s.family, a.x, a.status); }
    forall y: Id ensures y in t.procs <==> y in s.procs { AfterExitAt(s.procs, s.next, a.x, a.status, y); }
    AfterExitAt(s.procs, s.next, a.x, a.status, g);
    AfterExitAt(s.procs, s.next, a.x, a.status, s.fore);
    if Before(s.pc) { ExitChildless(g, s, a.x, a.status); }
    hide Tree, Held, AfterExit;
  }

  /** A guardian without children gets none: only a descendant's orphans can be its own. */
  lemma ExitChildless(g: Id, s: State, x: Id, status: Status)
    requires Tree(s.procs, s.next) && Childless(s.procs, g) && x in s.procs && x != INIT && x != g && g != INIT
    ensures Childless(AfterExit(s.procs, s.next, x, status), g)
  {
    NotAdopted(s.procs, s.next, g, x);
    forall y | y in AfterExit(s.procs, s.next, x, status) && y != INIT
      ensures AfterExit(s.procs, s.next, x, status)[y].parent != g
    {
      hide AfterExit, Adopter;
      AfterExitAt(s.procs, s.next, x, status, y);
    }
  }

  lemma {:induction false} NotAdopted(procs: Procs, next: Id, g: Id, x: Id)
    requires Tree(procs, next) && Childless(procs, g) && x in procs && x != INIT && g != INIT
    ensures Adopter(procs, next, x) != g
    decreases x
  {
    var p := procs[x].parent;
    assert HasParent(procs, x);
    if p != INIT && !procs[p].subreaper { NotAdopted(procs, next, g, p); }
  }

  lemma ReapKeeps(g: Id, s: State, t: State, a: Act)
    requires Inv(g, s) && a.Reap? && OtherActs(g, s, t, a)
    ensures Inv(g, t)
  {
    RemoveTree(s.procs, s.next, a.x);
    RemoveHeld(g, s, a.x);
    hide Tree, Held;
  }

  lemma RemoveHeld(g: Id, s: State, x: Id)
    requires x in s.procs
    ensures Held(s.procs, g, s.family) ==> Held(s.procs - {x}, g, s.family)
  {
    if Held(s.procs, g, s.family) {
      forall y: Id ensures Belongs(s.procs - {x}, g, s.family, y) { assert Belongs(s.procs, g, s.family, y); }
    }
  }

  lemma SubreaperKeeps(g: Id, s: State, t: State, a: Act)
    requires Inv(g, s) && a.SetSubreaper? && OtherActs(g, s, t, a)
    ensures Inv(g, t)
  {
    MarkTree(s.procs, s.next, a.x, a.on);
    MarkHeld(g, s, a.x, a.on);
    hide Tree, Held;
  }

  lemma MarkHeld(g: Id, s: State, x: Id, on: bool)
    requires x in s.procs
    ensures Held(s.procs, g, s.family) ==> Held(s.procs[x := s.procs[x].(subreaper := on)], g, s.family)
  {
    var after := s.procs[x := s.procs[x].(subreaper := on)];
    if Held(s.procs, g, s.family) {
      forall y: Id ensures Belongs(after, g, s.family, y) { assert Belongs(s.procs, g, s.family, y); }
    }
  }

  lemma KilledKeeps(g: Id, s: State, t: State, a: Act)
    requires Inv(g, s) && a.GuardianKilled? && OtherActs(g, s, t, a)
    ensures Inv(g, t)
  {
    ExitTree(s.procs, s.next, g, a.status);
    forall y: Id ensures y in t.procs <==> y in s.procs { AfterExitAt(s.procs, s.next, g, a.status, y); }
    hide Tree, Held, AfterExit;
    LogIsPart(s);
  }

  lemma LogIsPart(s: State)
    requires Logged(s.pc, s.pending, s.ended, s.log)
    ensures PartOf(s.log, s.ended)
  {
  }

  // ---- every step of the guardian keeps it -------------------------------------------------------

  lemma MarkKeeps(g: Id, s: State, t: State, a: Act)
    requires Inv(g, s) && a.Mark? && GuardianActs(g, s, t, a)
    ensures Inv(g, t)
  {
    MarkTree(s.procs, s.next, g, true);
    hide Tree, Held;
  }

  lemma ForkForegroundKeeps(g: Id, s: State, t: State, a: Act)
    requires Inv(g, s) && a.ForkForeground? && GuardianActs(g, s, t, a)
    ensures Inv(g, t)
  {
    if a.ok {
      BirthTree(s.procs, s.next, a.pid, g);
      FirstOfTheFamily(g, s, a.pid);
      assert Known(s.procs, s.next, g);
    }
    hide Tree, Held;
  }

  lemma FirstOfTheFamily(g: Id, s: State, pid: nat)
    requires Tree(s.procs, s.next) && Childless(s.procs, g) && g in s.procs && g != INIT
    ensures Held(s.procs[s.next := Proc(pid, g, false, Alive)], g, {s.next})
  {
    var after := s.procs[s.next := Proc(pid, g, false, Alive)];
    assert Known(s.procs, s.next, g) && Known(s.procs, s.next, INIT) && Known(s.procs, s.next, s.next);
    forall y: Id ensures Belongs(after, g, {s.next}, y) { assert HasParent(s.procs, y); }
  }

  /** The pid of the foreground is its own until it has been reaped. */
  lemma ReapedIsForeground(g: Id, s: State, x: Id)
    requires Tree(s.procs, s.next) && Watched(g, s) && x in s.procs
    ensures s.procs[x].pid == s.child <==> x == s.fore
  {
    assert PidsDiffer(s.procs, x, s.fore);
  }

  lemma WaitKeeps(g: Id, s: State, t: State, a: Act)
    requires Inv(g, s) && a.WaitStatus? && GuardianActs(g, s, t, a)
    ensures Inv(g, t)
  {
    RemoveTree(s.procs, s.next, a.x);
    RemoveHeld(g, s, a.x);
    assert Known(s.procs, s.next, s.fore);
    if s.pending { ReapedIsForeground(g, s, a.x); }
    hide Tree, Held;
  }

  /** With no child left, the guardian has no family left either, and it has seen the foreground end. */
  lemma {:induction false} NobodyBelow(g: Id, procs: Procs, next: Id, family: set<Id>, x: Id)
    requires Tree(procs, next) && Held(procs, g, family) && Childless(procs, g) && x in procs
    ensures x !in family
    decreases x
  {
    assert HasParent(procs, x) && Belongs(procs, g, family, x);
    if x != INIT { NobodyBelow(g, procs, next, family, procs[x].parent); }
  }

  lemma NoChildKeeps(g: Id, s: State, t: State, a: Act)
    requires Inv(g, s) && a.WaitNoChild? && GuardianActs(g, s, t, a)
    ensures Inv(g, t)
  {
    assert !s.pending;
    forall x | x in s.procs ensures x !in s.family { NobodyBelow(g, s.procs, s.next, s.family, x); }
    hide Tree, Held;
  }

  lemma OwnStepKeeps(g: Id, s: State, t: State, a: Act)
    requires Inv(g, s) && GuardianActs(g, s, t, a)
    requires a.WaitInterrupted? || a.Store? || a.Detach? || a.LetGo?
    ensures Inv(g, t)
  {
    hide Tree, Held, AfterExit;
  }

  lemma SendKeeps(g: Id, s: State, t: State, a: Act)
    requires Inv(g, s) && a.Send? && GuardianActs(g, s, t, a)
    ensures Inv(g, t)
  {
    hide Tree, Held, AfterExit;
  }

  lemma QuitKeeps(g: Id, s: State, t: State, a: Act)
    requires Inv(g, s) && a.Quit? && GuardianActs(g, s, t, a)
    ensures Inv(g, t)
  {
    ExitTree(s.procs, s.next, g, Exited(0));
    forall y: Id ensures y in t.procs <==> y in s.procs { AfterExitAt(s.procs, s.next, g, Exited(0), y); }
    hide Tree, Held, AfterExit;
    LogIsPart(s);
  }

  lemma StepKeeps(g: Id, s: State, t: State)
    requires Inv(g, s) && Step(g, s, t)
    ensures Inv(g, t)
  {
    var a: Act :| OtherActs(g, s, t, a) || GuardianActs(g, s, t, a);
    hide Inv, OtherActs, GuardianActs;
    if OtherActs(g, s, t, a) { OtherKeeps(g, s, t, a); } else { GuardianKeeps(g, s, t, a); }
  }

  lemma OtherKeeps(g: Id, s: State, t: State, a: Act)
    requires Inv(g, s) && OtherActs(g, s, t, a)
    ensures Inv(g, t)
  {
    hide Inv;
    match a
    case Fork(_, _, _) => ForkKeeps(g, s, t, a);
    case ExitOf(_, _) => ExitKeeps(g, s, t, a);
    case Reap(_) => ReapKeeps(g, s, t, a);
    case SetSubreaper(_, _) => SubreaperKeeps(g, s, t, a);
    case GuardianKilled(_) => KilledKeeps(g, s, t, a);
  }

  lemma GuardianKeeps(g: Id, s: State, t: State, a: Act)
    requires Inv(g, s) && GuardianActs(g, s, t, a)
    ensures Inv(g, t)
  {
    hide Inv;
    match a
    case Mark(_) => MarkKeeps(g, s, t, a);
    case ForkForeground(_, _) => ForkForegroundKeeps(g, s, t, a);
    case WaitStatus(_) => WaitKeeps(g, s, t, a);
    case WaitInterrupted => OwnStepKeeps(g, s, t, a);
    case WaitNoChild => NoChildKeeps(g, s, t, a);
    case Store => OwnStepKeeps(g, s, t, a);
    case Detach => OwnStepKeeps(g, s, t, a);
    case Send => SendKeeps(g, s, t, a);
    case LetGo => OwnStepKeeps(g, s, t, a);
    case Quit => QuitKeeps(g, s, t, a);
  }

  lemma {:induction false} RunKeeps(g: Id, tr: seq<State>, i: nat)
    requires Run(g, tr) && i < |tr|
    ensures Inv(g, tr[i])
  {
    if i == 0 {
      hide Tree;
    } else {
      RunKeeps(g, tr, i - 1);
      assert Step(g, tr[i - 1], tr[i]);
      hide Inv, Step;
      StepKeeps(g, tr[i - 1], tr[i]);
    }
  }

  // ---- what a launch can rely on --------------------------------------------------------------------

  /** Once the claims are released, no process born to the foreground or to any descendant of
      it exists, however it was orphaned and whatever pid it had.
   */
  lemma ReleasedOnlyWhenEmpty(g: Id, tr: seq<State>, i: nat)
    requires Run(g, tr) && i < |tr| && Release in tr[i].log
    ensures NoneLeft(tr[i].procs, tr[i].family)
  {
    RunKeeps(g, tr, i);
  }

  /** `wait` lacks children exactly when no process of the launch is left, so the guardian
      neither releases early nor waits for anything else.
   */
  lemma NoChildMeansNoFamily(g: Id, tr: seq<State>, i: nat)
    requires Run(g, tr) && i < |tr| && tr[i].pc.Waiting?
    ensures Childless(tr[i].procs, g) <==> NoneLeft(tr[i].procs, tr[i].family)
  {
    RunKeeps(g, tr, i);
    var s := tr[i];
    if Childless(s.procs, g) {
      forall x | x in s.procs ensures x !in s.family { NobodyBelow(g, s.procs, s.next, s.family, x); }
    } else {
      var x :| x in s.procs && x != INIT && s.procs[x].parent == g;
      assert Belongs(s.procs, g, s.family, x);
    }
  }

  /** The report is the foreground's own outcome and comes before the release, or says that
      there was no launch and comes after it. Nothing is ever reported twice.
   */
  lemma OneReport(g: Id, tr: seq<State>, i: nat)
    requires Run(g, tr) && i < |tr|
    ensures PartOf(tr[i].log, tr[i].ended)
    ensures tr[i].pc.Done? ==>
      tr[i].log == [Report(OutcomeOf(tr[i].ended)), Release] || tr[i].log == [Release, Report(Unavailable)]
  {
    RunKeeps(g, tr, i);
    LogIsPart(tr[i]);
  }

  /** The branch that gives the claims up without a release, for a foreground never seen to end, is never taken. */
  lemma ForegroundIsAccountedFor(g: Id, tr: seq<State>, i: nat)
    requires Run(g, tr) && i < |tr|
    ensures !tr[i].pc.Unaccounted?
  {
    RunKeeps(g, tr, i);
  }

  /** A signal is forwarded to the foreground or to nobody, except between its reaping and the
      store that follows it.
   */
  lemma ForwardsToForeground(g: Id, tr: seq<State>, i: nat)
    requires Run(g, tr) && i < |tr| && !tr[i].pc.Reaped? && !tr[i].pc.Gone? && tr[i].foreground != 0
    ensures tr[i].fore in tr[i].procs && tr[i].procs[tr[i].fore].pid == tr[i].foreground
    ensures forall x :: x in tr[i].procs && tr[i].procs[x].pid == tr[i].foreground ==> x == tr[i].fore
  {
    RunKeeps(g, tr, i);
    forall x | x in tr[i].procs && tr[i].procs[x].pid == tr[i].foreground ensures x == tr[i].fore {
      ReapedIsForeground(g, tr[i], x);
    }
  }

  // ---- the record on the report pipe -----------------------------------------------------------------

  /** A kind byte and a value byte; the value keeps the low byte only. */
  function EncodeRecord(o: Outcome): (int, int) {
    match o
    case Exit(code) => (0, code % 256)
    case Signaled(signal) => (1, signal % 256)
    case Other => (2, 0)
    case Unavailable => (3, 0)
  }

  function DecodeRecord(record: (int, int)): Outcome {
    match record.0
    case 0 => Exit(record.1)
    case 1 => Signaled(record.1)
    case 3 => Unavailable
    case _ => Other
  }

  predicate FitsByte(o: Outcome) {
    match o
    case Exit(code) => 0 <= code < 256
    case Signaled(signal) => 0 <= signal < 256
    case _ => true
  }

  /** The proxy reads the outcome the guardian sent exactly when its value fits the record's byte,
      which every status that `wait` returns does. */
  lemma RecordIsReadBack(o: Outcome)
    ensures DecodeRecord(EncodeRecord(o)) == o <==> FitsByte(o)
  {
    match o
    case Exit(code) => assert 0 <= code % 256 < 256;
    case Signaled(signal) => assert 0 <= signal % 256 < 256;
    case Other =>
    case Unavailable =>
  }
}
