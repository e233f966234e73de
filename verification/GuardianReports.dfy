/** What the lifetime guardian of `crates/onelf-rt/src/guardian.rs` says of its foreground process, from
    how it ended to the exit code of the process that was invoked, and that it does say it.
 */
module GuardianReports {
  import opened Guardian

  /** The code that an outcome is passed on with by a process that cannot end the same way. */
  function ExitCode(o: Outcome): int {
    match o
    case Exit(code) => code
    case Signaled(signal) => 128 + signal
    case Other => 1
    case Unavailable => 1
  }

  // ---- every run that ends after the foreground was reaped ------------------------------------------

  /** The guardian has started its foreground, and has not given up. */
  predicate Started(s: State) { !Before(s.pc) && (s.log == [] || s.log[0].Report?) }

  lemma StepStaysStarted(g: Id, s: State, t: State)
    requires Inv(g, s) && Step(g, s, t) && Started(s) && !Unreported(s.log)
    ensures Started(t) && !Unreported(t.log)
  {
    hide AfterExit, FreePid, Childless;
    var a: Act :| OtherActs(g, s, t, a) || GuardianActs(g, s, t, a);
    hide Tree, Families, Lives, Foreground, Emptied;
  }

  predicate Unreported(log: seq<Event>) { log != [] && log[0] == Report(Unavailable) }

  lemma {:induction false} StaysStarted(g: Id, tr: seq<State>, j: nat, i: nat)
    requires Run(g, tr) && j <= i < |tr| && tr[j].pc.Reaped?
    ensures Started(tr[i]) && !Unreported(tr[i].log)
  {
    assert i > j ==> Step(g, tr[i - 1], tr[i]);
    hide Inv, Step, Started, Unreported;
    if i == j {
      RunKeeps(g, tr, j);
      ReapedIsStarted(g, tr[j]);
    } else {
      StaysStarted(g, tr, j, i - 1);
      RunKeeps(g, tr, i - 1);
      StepStaysStarted(g, tr[i - 1], tr[i]);
    }
  }

  lemma ReapedIsStarted(g: Id, s: State)
    requires Inv(g, s) && s.pc.Reaped?
    ensures Started(s) && !Unreported(s.log)
  {
    hide Tree, Families, Lives, Foreground, Emptied;
  }

  /** A guardian that is done after it has reaped its foreground has reported how that ended, and then released. */
  lemma ReportSaysHowItEnded(g: Id, tr: seq<State>, j: nat, i: nat)
    requires Run(g, tr) && j <= i < |tr| && tr[j].pc.Reaped? && tr[i].pc.Done?
    ensures match tr[i].ended
      case Exited(code) => tr[i].log == [Report(Exit(code)), Release]
      case Killed(signal) => tr[i].log == [Report(Signaled(signal)), Release]
      case Odd => tr[i].log == [Report(Other), Release]
  {
    StaysStarted(g, tr, j, i);
    OneReport(g, tr, i);
    hide Run;
  }

  /** What the invoking process reads from the pipe and exits with: the code of a foreground that exited,
      and 128 with its signal for one that was killed, for every status that `wait` gives. */
  lemma ProxySeesHowItEnded(g: Id, tr: seq<State>, j: nat, i: nat)
    requires Run(g, tr) && j <= i < |tr| && tr[j].pc.Reaped? && tr[i].pc.Done?
    requires match tr[i].ended
      case Exited(code) => 0 <= code < 256
      case Killed(signal) => 0 <= signal < 128
      case Odd => true
    ensures tr[i].log != [] && tr[i].log[0].Report?
    ensures var record := EncodeRecord(tr[i].log[0].outcome); var seen := DecodeRecord(record);
      match tr[i].ended
      case Exited(code) => record == (0, code) && seen == Exit(code) && ExitCode(seen) == code
      case Killed(signal) => record == (1, signal) && seen == Signaled(signal) && ExitCode(seen) == 128 + signal
      case Odd => record == (2, 0) && seen == Other && ExitCode(seen) == 1
  {
    ReportSaysHowItEnded(g, tr, j, i);
    hide Run;
  }

  /** Without a launch it reads that, and fails. */
  lemma ProxySeesNoLaunch()
    ensures EncodeRecord(Unavailable) == (3, 0) && DecodeRecord((3, 0)) == Unavailable && ExitCode(Unavailable) == 1
    ensures forall kind, value :: kind !in {0, 1, 3} ==> DecodeRecord((kind, value)) == Other
  {
  }

  // ---- such runs -------------------------------------------------------------------------------------

  lemma GoesOn(g: Id, tr: seq<State>, t: State) returns (more: seq<State>)
    requires Run(g, tr) && Step(g, tr[|tr| - 1], t)
    ensures Run(g, more) && more[0] == tr[0] && |more| == |tr| + 1 && more[|more| - 1] == t && tr <= more
  {
    hide Step, Forked;
    more := tr + [t];
    forall i | 0 <= i < |more| - 1 ensures Step(g, more[i], more[i + 1]) {
      if i < |tr| - 1 { assert Step(g, tr[i], tr[i + 1]); }
    }
  }

  lemma ByAct(g: Id, s: State, t: State, a: Act)
    requires Tree(s.procs, s.next) && (OtherActs(g, s, t, a) || GuardianActs(g, s, t, a))
    ensures Step(g, s, t)
  {
    hide OtherActs, GuardianActs, Tree;
  }

  lemma FreePidExists(procs: Procs) returns (pid: nat)
    ensures FreePid(procs, pid)
  {
    pid := AbovePids(procs, procs.Keys);
  }

  lemma {:induction false} AbovePids(procs: Procs, ids: set<Id>) returns (pid: nat)
    requires ids <= procs.Keys
    ensures pid > 0 && forall x :: x in ids ==> procs[x].pid < pid
  {
    if ids == {} {
      pid := 1;
    } else {
      var x :| x in ids;
      var rest := AbovePids(procs, ids - {x});
      pid := if procs[x].pid < rest then rest else procs[x].pid + 1;
      assert forall y :: y in ids ==> y == x || y in ids - {x};
    }
  }

  /** The guardian's process table once it is a subreaper. */
  function Holding(g: Id, procs: Procs): Procs
    requires g in procs
  {
    procs[g := procs[g].(subreaper := true)]
  }

  /** A childless process that ends leaves the rest as they were. */
  lemma ChildlessExit(procs: Procs, next: Id, x: Id, status: Status)
    requires Tree(procs, next) && x in procs && x != INIT && Childless(procs, x)
    ensures AfterExit(procs, next, x, status) == procs[x := procs[x].(life := Zombie(status))]
  {
    hide Adopter;
    forall y | y in procs ensures AfterExit(procs, next, x, status)[y]
      == procs[x := procs[x].(life := Zombie(status))][y] {
      AfterExitAt(procs, next, x, status, y);
      if y == INIT { assert Known(procs, next, INIT); }
    }
    assert forall y :: y in AfterExit(procs, next, x, status) <==> y in procs;
  }

  /** The foreground, forked and not yet ended. */
  ghost predicate ForegroundRuns(g: Id, s: State, t: State, pid: nat) {
    && g in s.procs && Tree(t.procs, t.next) && FreePid(s.procs, pid) && s.next !in s.procs && s.next != INIT &&
        s.next != g
    && t == s.(procs := Holding(g, s.procs)[s.next := Proc(pid, g, false, Alive)], next := s.next + 1, pc := Waiting,
               pending := true, child := pid, foreground := pid, fore := s.next, family := {s.next})
    && Childless(t.procs, s.next)
  }

  lemma StartsForeground(g: Id, s: State) returns (tr: seq<State>, pid: nat)
    requires Forked(g, s)
    ensures Run(g, tr) && tr[0] == s && ForegroundRuns(g, s, tr[|tr| - 1], pid)
  {
    pid := FreePidExists(s.procs);
    var a := s.(procs := Holding(g, s.procs), pc := Marked);
    var b := a.(procs := a.procs[s.next := Proc(pid, g, false, Alive)], next := s.next + 1, pc := Waiting,
                pending := true, child := pid, foreground := pid, fore := s.next, family := {s.next});
    assert GuardianActs(g, s, a, Mark(true));
    MarkTree(s.procs, s.next, g, true);
    assert FreePid(a.procs, pid);
    assert GuardianActs(g, a, b, ForkForeground(true, pid));
    BirthTree(a.procs, a.next, pid, g);
    NewIsChildless(a.procs, a.next, pid, g);
    assert Known(s.procs, s.next, g) && Known(s.procs, s.next, INIT);
    ByAct(g, s, a, Mark(true));
    ByAct(g, a, b, ForkForeground(true, pid));
    hide Step, Tree, FreePid, Childless, Forked, GuardianActs;
    var one := [s];
    assert Run(g, one);
    var two := GoesOn(g, one, a);
    tr := GoesOn(g, two, b);
  }

  lemma NewIsChildless(procs: Procs, next: Id, pid: nat, parent: Id)
    requires Tree(procs, next) && next !in procs && parent in procs
    ensures Childless(procs[next := Proc(pid, parent, false, Alive)], next)
  {
    forall x | x in procs && x != INIT ensures procs[x].parent != next { assert HasParent(procs, x); }
  }

  /** The foreground has ended and has been reaped, and nothing else has happened. */
  lemma ReapsForeground(g: Id, s: State, t: State, pid: nat, status: Status, tr: seq<State>)
    returns (more: seq<State>)
    requires Forked(g, s) && Run(g, tr) && tr[0] == s && tr[|tr| - 1] == t && ForegroundRuns(g, s, t, pid)
    ensures Run(g, more) && more[0] == s
    ensures more[|more| - 1] == t.(procs := Holding(g, s.procs), ended := status, pc := Reaped(status))
  {
    var x := s.next;
    var a := t.(procs := t.procs[x := t.procs[x].(life := Zombie(status))], ended := status);
    ChildlessExit(t.procs, t.next, x, status);
    assert OtherActs(g, t, a, ExitOf(x, status));
    ExitTree(t.procs, t.next, x, status);
    var b := t.(procs := Holding(g, s.procs), ended := status, pc := Reaped(status));
    assert a.procs - {x} == b.procs;
    assert GuardianActs(g, a, b, WaitStatus(x));
    ByAct(g, t, a, ExitOf(x, status));
    ByAct(g, a, b, WaitStatus(x));
    hide Step, Tree, FreePid, Childless, Forked, GuardianActs, OtherActs, AfterExit, Holding;
    var one := GoesOn(g, tr, a);
    more := GoesOn(g, one, b);
  }

  /** The outcome that a status is reported as. */
  predicate Reports(status: Status, o: Outcome) {
    match status
    case Exited(code) => o == Exit(code)
    case Killed(signal) => o == Signaled(signal)
    case Odd => o == Other
  }

  lemma Tells(g: Id, tr: seq<State>, status: Status) returns (more: seq<State>)
    requires Run(g, tr) && tr[|tr| - 1].pc == Reaped(status) && tr[|tr| - 1].pending
    ensures Run(g, more) && more[0] == tr[0] && |more| > |tr| && tr <= more
    ensures var r := tr[|tr| - 1];
      more[|more| - 1] == r.(foreground := 0, pc := Waiting, pending := false,
        log := r.log + [Report(OutcomeOf(status))])
  {
    var r := tr[|tr| - 1];
    RunKeeps(g, tr, |tr| - 1);
    var a := r.(foreground := 0, pc := Stored(status));
    var b := a.(pc := Detached(status));
    var c := b.(pc := Waiting, pending := false, log := b.log + [Report(OutcomeOf(status))]);
    assert GuardianActs(g, r, a, Store) && GuardianActs(g, a, b, Detach) && GuardianActs(g, b, c, Send);
    ByAct(g, r, a, Store);
    ByAct(g, a, b, Detach);
    ByAct(g, b, c, Send);
    hide Step, Tree, Forked, GuardianActs, Inv, OutcomeOf;
    var one := GoesOn(g, tr, a);
    var two := GoesOn(g, one, b);
    more := GoesOn(g, two, c);
  }

  lemma LetsGo(g: Id, tr: seq<State>) returns (more: seq<State>)
    requires Run(g, tr)
    requires var w := tr[|tr| - 1]; w.pc.Waiting? && !w.pending && Childless(w.procs, g)
    ensures Run(g, more) && more[0] == tr[0] && tr <= more
    ensures var w := tr[|tr| - 1]; more[|more| - 1] == w.(pc := Done, log := w.log + [Release])
  {
    var w := tr[|tr| - 1];
    RunKeeps(g, tr, |tr| - 1);
    var a := w.(pc := Drained);
    var b := a.(pc := Done, log := a.log + [Release]);
    assert GuardianActs(g, w, a, WaitNoChild) && GuardianActs(g, a, b, LetGo);
    ByAct(g, w, a, WaitNoChild);
    ByAct(g, a, b, LetGo);
    hide Step, Tree, Forked, GuardianActs, Inv, Childless;
    var one := GoesOn(g, tr, a);
    more := GoesOn(g, one, b);
  }

  /** However the foreground may end, there is a run in which it does, and the guardian reports just that,
      releases what it holds and is done. */
  lemma OutcomeIsReported(g: Id, s: State, status: Status) returns (tr: seq<State>)
    requires Forked(g, s)
    ensures Run(g, tr) && tr[0] == s
    ensures var d := tr[|tr| - 1];
      d.pc.Done? && d.ended == status && |d.log| == 2 && d.log[1] == Release
      && d.log[0].Report? && Reports(status, d.log[0].outcome)
  {
    var first, pid := StartsForeground(g, s);
    var reaped := ReapsForeground(g, s, first[|first| - 1], pid, status, first);
    assert s.log == [] && Childless(Holding(g, s.procs), g);
    hide Run, Forked, Childless, Holding;
    var told := Tells(g, reaped, status);
    tr := LetsGo(g, told);
  }

  /** A guardian that cannot hold its subtree together, or cannot fork, releases at once and says that there
      was no launch. */
  lemma NoLaunchIsReported(g: Id, s: State, marked: bool) returns (tr: seq<State>)
    requires Forked(g, s)
    ensures Run(g, tr) && tr[0] == s && tr[|tr| - 1].pc.Done? && tr[|tr| - 1].log == [Release, Report(Unavailable)]
    ensures tr[|tr| - 1].family == {} && tr[|tr| - 1].procs == if marked then Holding(g, s.procs) else s.procs
  {
    var a := if marked then s.(procs := Holding(g, s.procs), pc := Marked) else s.(pc := Failed);
    var b := a.(pc := Failed);
    var c := b.(pc := FailedReleased, log := [Release]);
    var d := c.(pc := Done, log := [Release, Report(Unavailable)]);
    assert GuardianActs(g, s, a, Mark(marked));
    MarkTree(s.procs, s.next, g, true);
    assert marked ==> GuardianActs(g, a, b, ForkForeground(false, 0));
    assert GuardianActs(g, b, c, LetGo) && GuardianActs(g, c, d, Send);
    ByAct(g, s, a, Mark(marked));
    if marked { ByAct(g, a, b, ForkForeground(false, 0)); }
    ByAct(g, b, c, LetGo);
    ByAct(g, c, d, Send);
    hide Step, Tree, Childless, Forked, GuardianActs, Holding;
    tr := [s];
    assert Run(g, tr);
    tr := GoesOn(g, tr, a);
    if marked { tr := GoesOn(g, tr, b); }
    tr := GoesOn(g, tr, c);
    tr := GoesOn(g, tr, d);
  }
}
