/** What the steps of the extraction cache of `crates/onelf-rt/src/cache.rs` can get done: a launch that
    nothing fails returns from any cache that nobody is using, exactly if its package can be built, and a
    collector that nobody stands in the way of removes its package, or the blobs that no tree carries.
 */
module CacheProgress {
  import opened CacheProtocol

  // ---- one process by itself -----------------------------------------------------------------

  /** The state in which one actor is the only process. */
  ghost function Alone(plans: Plans, v: View): State { State(plans, map[v.q := v.me], v.paths, v.disk) }

  ghost predicate Stands(plans: Plans, ok: PC -> bool, v: View) {
    v.plan == plans(v.me.pkg) && Inv(Alone(plans, v)) && ok(v.me.pc)
  }

  /** Steps of one actor for one package, without any program point that is not `ok`. */
  ghost predicate Walk(plans: Plans, ok: PC -> bool, vs: seq<View>) {
    && |vs| > 0
    && (forall i :: 0 <= i < |vs| ==> Stands(plans, ok, vs[i]) && vs[i].q == vs[0].q && vs[i].me.pkg == vs[0].me.pkg)
    && (forall i :: 0 <= i < |vs| - 1 ==> Step(Alone(plans, vs[i]), Alone(plans, vs[i + 1])))
  }

  ghost predicate Leads(plans: Plans, ok: PC -> bool, v: View, w: View) {
    exists vs :: Walk(plans, ok, vs) && vs[0] == v && vs[|vs| - 1] == w
  }

  lemma LeadsStands(plans: Plans, ok: PC -> bool, v: View, w: View)
    requires Leads(plans, ok, v, w)
    ensures Stands(plans, ok, v) && Stands(plans, ok, w) && w.q == v.q && w.me.pkg == v.me.pkg && w.plan == v.plan
  {
    hide Stands;
    var vs :| Walk(plans, ok, vs) && vs[0] == v && vs[|vs| - 1] == w;
    assert Stands(plans, ok, vs[0]) && Stands(plans, ok, vs[|vs| - 1]);
    StandsPlan(plans, ok, v);
    StandsPlan(plans, ok, w);
  }

  lemma StandsPlan(plans: Plans, ok: PC -> bool, v: View)
    requires Stands(plans, ok, v)
    ensures v.plan == plans(v.me.pkg) && Sound(v) && ok(v.me.pc)
  {
    assert ProcOk(Alone(plans, v), v.q);
    assert ViewOf(Alone(plans, v), v.q) == v;
  }

  lemma LeadsHere(plans: Plans, ok: PC -> bool, v: View)
    requires Stands(plans, ok, v)
    ensures Leads(plans, ok, v, v)
  {
    hide Stands;
    assert Walk(plans, ok, [v]);
  }

  lemma LeadsOn(plans: Plans, ok: PC -> bool, v: View, w: View, x: View)
    requires Leads(plans, ok, v, w) && Leads(plans, ok, w, x)
    ensures Leads(plans, ok, v, x)
  {
    hide Stands, Step;
    var vs :| Walk(plans, ok, vs) && vs[0] == v && vs[|vs| - 1] == w;
    var ws :| Walk(plans, ok, ws) && ws[0] == w && ws[|ws| - 1] == x;
    Joins(plans, ok, vs, ws);
    var both := vs + ws[1..];
    assert both[0] == v && both[|both| - 1] == x;
  }

  lemma Joins(plans: Plans, ok: PC -> bool, vs: seq<View>, ws: seq<View>)
    requires Walk(plans, ok, vs) && Walk(plans, ok, ws) && vs[|vs| - 1] == ws[0]
    ensures Walk(plans, ok, vs + ws[1..])
  {
    hide Stands, Step;
    var both := vs + ws[1..];
    forall i | 0 <= i < |both|
      ensures Stands(plans, ok, both[i]) && both[i].q == both[0].q && both[i].me.pkg == both[0].me.pkg
    {
      if i >= |vs| { assert both[i] == ws[i - |vs| + 1]; }
    }
    forall i | 0 <= i < |both| - 1 ensures Step(Alone(plans, both[i]), Alone(plans, both[i + 1])) {
      if i >= |vs| - 1 { assert both[i] == ws[i - |vs| + 1] && both[i + 1] == ws[i - |vs| + 2]; }
    }
  }

  lemma LeadsByStep(plans: Plans, ok: PC -> bool, v: View, w: View)
    requires Stands(plans, ok, v) && Step(Alone(plans, v), Alone(plans, w))
    requires w.q == v.q && w.plan == v.plan && w.me.pkg == v.me.pkg && ok(w.me.pc)
    ensures Leads(plans, ok, v, w)
  {
    hide Step, Inv;
    StepKeeps(Alone(plans, v), Alone(plans, w));
    assert Walk(plans, ok, [v, w]);
  }

  /** A file-system action of an actor by itself. */
  lemma Does(plans: Plans, ok: PC -> bool, v: View, w: View)
    requires Stands(plans, ok, v) && Act(v, w)
    requires w.q == v.q && w.plan == v.plan && w.me.pkg == v.me.pkg && ok(w.me.pc)
    ensures Leads(plans, ok, v, w)
  {
    var s := Alone(plans, v);
    assert ViewOf(s, v.q) == v;
    hide Act, Inv;
    assert Alone(plans, w) == Become(s, v.q, w.me).(paths := w.paths, disk := w.disk);
    assert StepOf(s, v.q, Alone(plans, w));
    LeadsByStep(plans, ok, v, w);
  }

  /** Taking a lock that nobody else can hold. */
  lemma Takes(plans: Plans, ok: PC -> bool, v: View, me: Proc)
    requires Stands(plans, ok, v) && me.pkg == v.me.pkg && ok(me.pc)
    requires var s := Alone(plans, v); LockStep(s, v.q, Become(s, v.q, me))
    ensures Leads(plans, ok, v, v.(me := me))
  {
    hide LockStep, Inv;
    var s := Alone(plans, v);
    assert Become(s, v.q, me) == Alone(plans, v.(me := me));
    assert StepOf(s, v.q, Alone(plans, v.(me := me)));
    LeadsByStep(plans, ok, v, v.(me := me));
  }

  /** A launch that meets no error. */
  predicate Succeeding(pc: PC) { !pc.LUndoTmp? && !pc.LUndoDir? }

  /** A launch that finds its package extracted. */
  predicate Brief(pc: PC) { Succeeding(pc) && !UnderMutex(pc) && !Extracting(pc) }

  // ---- up to the first check -------------------------------------------------------------------

  lemma Enters(plans: Plans, ok: PC -> bool, v: View) returns (w: View)
    requires Stands(plans, ok, v) && v.me.pc == LOpen && ok(LLock) && ok(LCheckDir)
    ensures Leads(plans, ok, v, w) && w.me.pc == LCheckDir && w.disk == v.disk
  {
    var p := v.me.pkg;
    var u := if p in v.paths.use then v.(me := v.me.(pc := LLock, use := Opened(v.paths.use[p])))
             else v.(me := v.me.(pc := LLock, use := Opened(v.paths.nextInode)),
                     paths := v.paths.(use := v.paths.use[p := v.paths.nextInode], nextInode := v.paths.nextInode + 1));
    assert OpenUse(v, u);
    hide Stands;
    Does(plans, ok, v, u);
    LeadsStands(plans, ok, v, u);
    var me := u.me.(pc := LCheckDir, use := Shared(u.me.use.inode));
    w := u.(me := me);
    assert Locks(Alone(plans, u), u.q, u.me, Become(Alone(plans, u), u.q, me));
    Takes(plans, ok, u, me);
    LeadsOn(plans, ok, v, u, w);
  }

  /** With marker and tree in place the launch records its use and returns. */
  lemma Returns(plans: Plans, ok: PC -> bool, v: View) returns (w: View)
    requires Stands(plans, ok, v) && v.me.pc == LCheckDir && v.me.pkg in v.disk.trees && v.me.pkg in v.disk.ready
    requires ok(LCheckReady) && ok(LTouchHit) && ok(LRunning)
    ensures Leads(plans, ok, v, w) && w.me.pc == LRunning
    ensures w.disk == v.disk.(meta := v.disk.meta + {v.me.pkg})
  {
    var a := v.Goto(LCheckReady);
    var b := a.Goto(LTouchHit);
    w := b.Goto(LRunning).(disk := b.disk.(meta := b.disk.meta + {b.me.pkg}));
    assert CheckDir(v, a) && CheckReady(a, b) && Touch(b, w);
    hide Stands;
    Does(plans, ok, v, a);
    LeadsStands(plans, ok, v, a);
    Does(plans, ok, a, b);
    LeadsOn(plans, ok, v, a, b);
    LeadsStands(plans, ok, v, b);
    Does(plans, ok, b, w);
    LeadsOn(plans, ok, v, b, w);
  }

  /** Without both it asks for the extraction mutex. */
  lemma AsksForMutex(plans: Plans, v: View) returns (w: View)
    requires Stands(plans, Succeeding, v) && v.me.pc == LCheckDir
    requires !(v.me.pkg in v.disk.trees && v.me.pkg in v.disk.ready)
    ensures Leads(plans, Succeeding, v, w) && w == v.Goto(LOpenMutex)
  {
    w := v.Goto(LOpenMutex);
    hide Stands;
    if v.me.pkg in v.disk.trees {
      var a := v.Goto(LCheckReady);
      assert CheckDir(v, a) && CheckReady(a, w);
      Does(plans, Succeeding, v, a);
      LeadsStands(plans, Succeeding, v, a);
      Does(plans, Succeeding, a, w);
      LeadsOn(plans, Succeeding, v, a, w);
    } else {
      assert CheckDir(v, w);
      Does(plans, Succeeding, v, w);
    }
  }

  lemma TakesMutex(plans: Plans, v: View) returns (w: View)
    requires Stands(plans, Succeeding, v) && v.me.pc == LOpenMutex
    ensures Leads(plans, Succeeding, v, w) && w.me.pc == LRecheckDir && w.disk == v.disk
  {
    hide Stands;
    var c := OpensMutex(plans, v);
    LeadsStands(plans, Succeeding, v, c);
    var me := c.me.(pc := LRecheckDir, mutex := Exclusive(c.me.mutex.inode));
    w := c.(me := me);
    assert Locks(Alone(plans, c), c.q, c.me, Become(Alone(plans, c), c.q, me));
    Takes(plans, Succeeding, c, me);
    LeadsOn(plans, Succeeding, v, c, w);
  }

  lemma OpensMutex(plans: Plans, v: View) returns (w: View)
    requires Stands(plans, Succeeding, v) && v.me.pc == LOpenMutex
    ensures Leads(plans, Succeeding, v, w) && w.me.pc == LLockMutex && w.me.mutex.Opened? && w.disk == v.disk
  {
    var p := v.me.pkg;
    w := if p in v.paths.mutex then v.(me := v.me.(pc := LLockMutex, mutex := Opened(v.paths.mutex[p])))
         else v.(me := v.me.(pc := LLockMutex, mutex := Opened(v.paths.nextInode)),
                 paths := v.paths.(mutex := v.paths.mutex[p := v.paths.nextInode], nextInode := v.paths.nextInode + 1));
    assert OpenMutex(v, w);
    hide Stands;
    Does(plans, Succeeding, v, w);
  }

  /** And starts to clear what is left of the package. */
  lemma StartsOver(plans: Plans, v: View) returns (w: View)
    requires Stands(plans, Succeeding, v) && v.me.pc == LRecheckDir
    requires !(v.me.pkg in v.disk.trees && v.me.pkg in v.disk.ready)
    ensures Leads(plans, Succeeding, v, w) && w.me.pc == LClearDir
  {
    var a := v;
    LeadsHere(plans, Succeeding, v);
    if v.me.pkg in v.disk.trees {
      a := v.Goto(LRecheckReady);
      assert RecheckDir(v, a) by { hide Stands; }
      Does(plans, Succeeding, v, a);
      LeadsStands(plans, Succeeding, v, a);
    }
    w := a.Goto(LClearDir);
    assert RecheckDir(a, w) || RecheckReady(a, w) by { hide Stands; }
    hide Stands;
    Does(plans, Succeeding, a, w);
    LeadsOn(plans, Succeeding, v, a, w);
  }

  // ---- removing trees --------------------------------------------------------------------------

  lemma OneLess<K, V>(m: map<K, V>, x: K)
    requires x in m
    ensures |m - {x}| < |m|
  {
    assert (m - {x}).Keys == m.Keys - {x};
    assert |(m - {x}).Keys| < |m.Keys|;
  }

  /** How many entries a removal has still to take away. */
  function Left(trees: map<PkgId, Tree>, p: PkgId): nat { if p in trees then |trees[p]| else 0 }

  lemma RemovesOne(trees: map<PkgId, Tree>, p: PkgId) returns (after: map<PkgId, Tree>)
    requires p in trees && trees[p] != map[]
    ensures Removal(trees, p, after, false) && Left(after, p) < Left(trees, p) && after - {p} == trees - {p}
  {
    var x :| x in trees[p];
    after := trees[p := trees[p] - {x}];
    OneLess(trees[p], x);
  }

  predicate RemovingTree(pc: PC) { pc == LClearDir || pc == GDropTree || pc == LUndoDir }

  /** Where an actor is once it has removed its package's tree. */
  function TreeRemoved(pc: PC): PC {
    if pc == LClearDir then LClearReady else if pc == GDropTree then GDropMeta else pc
  }

  lemma RemovesEntry(plans: Plans, ok: PC -> bool, v: View) returns (w: View)
    requires Stands(plans, ok, v) && RemovingTree(v.me.pc)
    requires v.me.pkg in v.disk.trees && v.disk.trees[v.me.pkg] != map[]
    ensures Leads(plans, ok, v, w) && w == v.(disk := v.disk.(trees := w.disk.trees))
    ensures Left(w.disk.trees, v.me.pkg) < Left(v.disk.trees, v.me.pkg)
    ensures w.disk.trees - {v.me.pkg} == v.disk.trees - {v.me.pkg}
  {
    var after := RemovesOne(v.disk.trees, v.me.pkg);
    w := v.(disk := v.disk.(trees := after));
    hide Stands, Left, Removal;
    assert RemoveTree(v, after, false, w);
    hide RemoveTree;
    Does(plans, ok, v, w);
  }

  lemma RemovesRoot(plans: Plans, ok: PC -> bool, v: View) returns (w: View)
    requires Stands(plans, ok, v) && RemovingTree(v.me.pc)
    requires v.me.pkg in v.disk.trees ==> v.disk.trees[v.me.pkg] == map[]
    requires ok(TreeRemoved(v.me.pc))
    ensures Leads(plans, ok, v, w) && w.me.pc == TreeRemoved(v.me.pc)
    ensures w.disk == v.disk.(trees := v.disk.trees - {v.me.pkg}) && w.paths == v.paths
  {
    var after := v.disk.trees - {v.me.pkg};
    w := v.Goto(TreeRemoved(v.me.pc)).(disk := v.disk.(trees := after));
    assert RemoveTree(v, after, true, w);
    hide Stands, RemoveTree;
    Does(plans, ok, v, w);
  }

  lemma {:induction false} RemovesTree(plans: Plans, ok: PC -> bool, v: View) returns (w: View)
    requires Stands(plans, ok, v) && RemovingTree(v.me.pc)
    requires ok(TreeRemoved(v.me.pc))
    ensures Leads(plans, ok, v, w) && w.me.pc == TreeRemoved(v.me.pc)
    ensures w.disk == v.disk.(trees := v.disk.trees - {v.me.pkg}) && w.paths == v.paths
    decreases Left(v.disk.trees, v.me.pkg)
  {
    hide Stands, Leads, Left;
    if v.me.pkg in v.disk.trees && v.disk.trees[v.me.pkg] != map[] {
      var u := RemovesEntry(plans, ok, v);
      LeadsStands(plans, ok, v, u);
      w := RemovesTree(plans, ok, u);
      LeadsOn(plans, ok, v, u, w);
    } else {
      w := RemovesRoot(plans, ok, v);
    }
  }

  lemma RemovesScratchEntry(plans: Plans, ok: PC -> bool, v: View) returns (w: View)
    requires Stands(plans, ok, v) && (v.me.pc == LClearTmp || v.me.pc == LUndoTmp)
    requires v.me.pkg in v.disk.tmps && v.disk.tmps[v.me.pkg] != map[]
    ensures Leads(plans, ok, v, w) && w.me == v.me && w.disk == v.disk.(tmps := w.disk.tmps)
    ensures Left(w.disk.tmps, v.me.pkg) < Left(v.disk.tmps, v.me.pkg)
  {
    var after := RemovesOne(v.disk.tmps, v.me.pkg);
    w := v.(disk := v.disk.(tmps := after));
    hide Stands, Left, Removal;
    assert RemoveTmp(v, after, false, w);
    hide RemoveTmp;
    Does(plans, ok, v, w);
  }

  lemma RemovesScratchRoot(plans: Plans, ok: PC -> bool, v: View) returns (w: View)
    requires Stands(plans, ok, v) && (v.me.pc == LClearTmp || v.me.pc == LUndoTmp) && ok(LMakeTmp)
    requires v.me.pkg in v.disk.tmps ==> v.disk.tmps[v.me.pkg] == map[]
    ensures Leads(plans, ok, v, w) && w.me.pc == (if v.me.pc == LClearTmp then LMakeTmp else LUndoTmp)
    ensures v.me.pkg !in w.disk.tmps && w.disk == v.disk.(tmps := w.disk.tmps)
  {
    var after := v.disk.tmps - {v.me.pkg};
    w := v.Goto(if v.me.pc == LClearTmp then LMakeTmp else LUndoTmp).(disk := v.disk.(tmps := after));
    assert RemoveTmp(v, after, true, w);
    hide Stands, RemoveTmp;
    Does(plans, ok, v, w);
  }

  lemma {:induction false} RemovesScratch(plans: Plans, ok: PC -> bool, v: View) returns (w: View)
    requires Stands(plans, ok, v) && (v.me.pc == LClearTmp || v.me.pc == LUndoTmp) && ok(LMakeTmp)
    ensures Leads(plans, ok, v, w) && w.me.pc == (if v.me.pc == LClearTmp then LMakeTmp else LUndoTmp)
    ensures v.me.pkg !in w.disk.tmps && w.disk == v.disk.(tmps := w.disk.tmps)
    decreases Left(v.disk.tmps, v.me.pkg)
  {
    hide Stands, Leads, Left;
    if v.me.pkg in v.disk.tmps && v.disk.tmps[v.me.pkg] != map[] {
      var u := RemovesScratchEntry(plans, ok, v);
      LeadsStands(plans, ok, v, u);
      w := RemovesScratch(plans, ok, u);
      LeadsOn(plans, ok, v, u, w);
    } else {
      w := RemovesScratchRoot(plans, ok, v);
    }
  }

  lemma Clears(plans: Plans, v: View) returns (w: View)
    requires Stands(plans, Succeeding, v) && v.me.pc == LClearDir
    ensures Leads(plans, Succeeding, v, w) && w.me.pc == LMakeTmp
  {
    hide Stands;
    var a := RemovesTree(plans, Succeeding, v);
    LeadsStands(plans, Succeeding, v, a);
    var b := a.Goto(LClearTmp).(disk := a.disk.(ready := a.disk.ready - {a.me.pkg}));
    assert DropReady(a, b);
    Does(plans, Succeeding, a, b);
    LeadsOn(plans, Succeeding, v, a, b);
    LeadsStands(plans, Succeeding, v, b);
    w := RemovesScratch(plans, Succeeding, b);
    LeadsOn(plans, Succeeding, v, b, w);
  }

  // ---- building --------------------------------------------------------------------------------

  lemma OpensTheStore(plans: Plans, ok: PC -> bool, v: View, next: PC) returns (w: View)
    requires Stands(plans, ok, v) && ok(next)
    requires (v.me.pc == LOpenStore && next == LLockStore) || (v.me.pc == COpen && next == CLock)
    ensures Leads(plans, ok, v, w) && w.me.pc == next && w.me.store.Opened? && w.disk == v.disk
  {
    w := if v.paths.store.Some? then v.(me := v.me.(pc := next, store := Opened(v.paths.store.value)))
         else v.(me := v.me.(pc := next, store := Opened(v.paths.nextInode)),
                 paths := v.paths.(store := Some(v.paths.nextInode), nextInode := v.paths.nextInode + 1));
    assert OpensStore(v, next, w);
    hide Stands, OpensStore;
    assert OpenStore(v, w) || OpenCollect(v, w);
    Does(plans, ok, v, w);
  }

  lemma MakesScratch(plans: Plans, v: View) returns (w: View)
    requires Stands(plans, Succeeding, v) && v.me.pc == LMakeTmp
    ensures Leads(plans, Succeeding, v, w) && w.me.pc == LOpenStore
  {
    w := v.Goto(LOpenStore).(disk := v.SetScratch(map[]));
    hide Stands;
    assert MakeTmp(v, w);
    Does(plans, Succeeding, v, w);
  }

  lemma StartsBuilding(plans: Plans, v: View) returns (w: View)
    requires Stands(plans, Succeeding, v) && v.me.pc == LMakeTmp
    ensures Leads(plans, Succeeding, v, w) && w.me.pc == LBuild(0)
  {
    hide Stands, Leads;
    var a := MakesScratch(plans, v);
    LeadsStands(plans, Succeeding, v, a);
    var b := OpensTheStore(plans, Succeeding, a, LLockStore);
    LeadsOn(plans, Succeeding, v, a, b);
    LeadsStands(plans, Succeeding, v, b);
    var me := b.me.(pc := LBuild(0), store := Shared(b.me.store.inode));
    w := b.(me := me);
    assert Locks(Alone(plans, b), b.q, b.me, Become(Alone(plans, b), b.q, me));
    Takes(plans, Succeeding, b, me);
    LeadsOn(plans, Succeeding, v, b, w);
  }

  /** An operation that does not meet something else at its path: a directory may be made again, and
      anything but a directory replaced. */
  predicate Placeable(plan: seq<Op>, at: nat)
    requires at < |plan|
  {
    var was, x := Outcome(plan[..at]), plan[at].path;
    x in was ==> (was[x] == WantDir <==> plan[at].MkDir?)
  }

  /** No operation of a package's plan stands in the way of a later one. */
  predicate Buildable(plan: seq<Op>) { forall at :: 0 <= at < |plan| ==> Placeable(plan, at) }

  lemma ScratchIs(plans: Plans, v: View)
    requires Stands(plans, Succeeding, v) && Building(v.me.pc) && !v.me.pc.LPlace? && v.me.pc.at < |v.plan|
    ensures v.Working() && forall x ::
      (x in v.Scratch() <==> x in Outcome(v.plan[..v.me.pc.at]))
      && (x in v.Scratch() ==> (v.Scratch()[x] == Dir <==> Outcome(v.plan[..v.me.pc.at])[x] == WantDir))
  {
    StandsPlan(plans, Succeeding, v);
    var want := Outcome(v.plan[..v.me.pc.at]);
    assert Matches(v.disk.content, v.Scratch(), want, None);
    forall x | x in v.Scratch() ensures x in want && (v.Scratch()[x] == Dir <==> want[x] == WantDir) {
      assert NodeIs(v.disk.content, v.Scratch()[x], want[x]);
    }
    hide Outcome;
  }

  lemma FreshInode(used: set<Inode>) returns (i: Inode)
    ensures i !in used
  {
    i := AboveAll(used);
  }

  lemma {:induction false} AboveAll(used: set<nat>) returns (i: nat)
    ensures forall x :: x in used ==> x < i
  {
    if used == {} {
      i := 0;
    } else {
      var x :| x in used;
      var j := AboveAll(used - {x});
      i := if x < j then j else x + 1;
      assert forall y :: y in used ==> y == x || y in used - {x};
    }
  }

  lemma WritesBlob(plans: Plans, v: View) returns (w: View)
    requires Stands(plans, Succeeding, v) && v.me.pc.LCreateTemp? && v.me.pc.at < |v.plan| && v.Op().Link?
    ensures Leads(plans, Succeeding, v, w) && w.me.pc == LUnlinkOld(v.me.pc.at)
  {
    var at := v.me.pc.at;
    var i := FreshInode(v.disk.content.Keys);
    if v.TempName() in v.disk.blobs { i := v.disk.blobs[v.TempName()]; }
    var a := v.Goto(LWriteTemp(at)).(
      disk := v.disk.(blobs := v.disk.blobs[v.TempName() := i], content := v.disk.content[i := Partial]));
    var b := a.Goto(LRenameTemp(at)).(
      disk := a.disk.(content := a.disk.content[a.disk.blobs[a.TempName()] := Whole(a.Op().key)]));
    w := b.(me := b.me.(pc := LUnlinkOld(at), temps := b.me.temps + 1),
            disk := b.disk.(blobs := (b.disk.blobs - {b.TempName()})[Blob(b.Op().key) := b.disk.blobs[b.TempName()]]));
    assert CreateTemp(v, i, a) && WriteTemp(a, b) && RenameTemp(b, w);
    hide Stands, CreateTemp, WriteTemp, RenameTemp;
    Does(plans, Succeeding, v, a);
    LeadsStands(plans, Succeeding, v, a);
    Does(plans, Succeeding, a, b);
    LeadsOn(plans, Succeeding, v, a, b);
    LeadsStands(plans, Succeeding, v, b);
    Does(plans, Succeeding, b, w);
    LeadsOn(plans, Succeeding, v, b, w);
  }

  lemma BuildsDir(plans: Plans, v: View) returns (w: View)
    requires Stands(plans, Succeeding, v) && v.me.pc.LBuild? && v.me.pc.at < |v.plan| && v.Op().MkDir?
    requires Placeable(v.plan, v.me.pc.at)
    ensures Leads(plans, Succeeding, v, w) && w.me.pc == LBuild(v.me.pc.at + 1)
  {
    ScratchIs(plans, v);
    w := v.Goto(LBuild(v.me.pc.at + 1)).(disk := v.SetScratch(v.Scratch()[v.Op().path := Dir]));
    assert BuildDir(v, w);
    hide Stands;
    Does(plans, Succeeding, v, w);
  }

  /** A file has its blob written unless it is there, and a symbolic link needs none. */
  lemma Prepares(plans: Plans, v: View) returns (w: View)
    requires Stands(plans, Succeeding, v) && v.me.pc.LBuild? && v.me.pc.at < |v.plan| && !v.Op().MkDir?
    ensures Leads(plans, Succeeding, v, w) && w.me.pc == LUnlinkOld(v.me.pc.at)
  {
    var at := v.me.pc.at;
    ScratchIs(plans, v);
    var reuse := match v.Op() case Link(_, k) => Verifies(v.disk, Blob(k), k) case _ => true;
    var a := v.Goto(if reuse then LUnlinkOld(at) else LCreateTemp(at));
    assert Choose(v, a);
    hide Stands;
    Does(plans, Succeeding, v, a);
    LeadsStands(plans, Succeeding, v, a);
    w := a;
    if !reuse {
      w := WritesBlob(plans, a);
      LeadsOn(plans, Succeeding, v, a, w);
    }
  }

  lemma Places(plans: Plans, v: View) returns (w: View)
    requires Stands(plans, Succeeding, v) && v.me.pc.LUnlinkOld? && v.me.pc.at < |v.plan| && !v.Op().MkDir?
    requires Placeable(v.plan, v.me.pc.at)
    ensures Leads(plans, Succeeding, v, w) && w.me.pc == LBuild(v.me.pc.at + 1)
  {
    var at := v.me.pc.at;
    ScratchIs(plans, v);
    var a := v.Goto(LPlace(at)).(disk := v.SetScratch(v.Scratch() - {v.Op().path}));
    assert UnlinkOld(v, a);
    hide Stands;
    Does(plans, Succeeding, v, a);
    LeadsStands(plans, Succeeding, v, a);
    StandsPlan(plans, Succeeding, a);
    var node := match a.Op() case Link(_, k) => File(a.disk.blobs[Blob(k)]) case Symlink(_, t) => Sym(t);
    w := a.Goto(LBuild(at + 1)).(disk := a.SetScratch(a.Scratch()[a.Op().path := node]));
    assert PlaceLink(a, w) || PlaceSymlink(a, w);
    Does(plans, Succeeding, a, w);
    LeadsOn(plans, Succeeding, v, a, w);
  }

  lemma BuildsOne(plans: Plans, v: View) returns (w: View)
    requires Stands(plans, Succeeding, v) && v.me.pc.LBuild? && v.me.pc.at < |v.plan| && Placeable(v.plan, v.me.pc.at)
    ensures Leads(plans, Succeeding, v, w) && w.me.pc == LBuild(v.me.pc.at + 1)
  {
    hide Stands, Placeable;
    if v.Op().MkDir? {
      w := BuildsDir(plans, v);
    } else {
      var a := Prepares(plans, v);
      LeadsStands(plans, Succeeding, v, a);
      w := Places(plans, a);
      LeadsOn(plans, Succeeding, v, a, w);
    }
  }

  lemma {:induction false} Builds(plans: Plans, v: View, to: nat) returns (w: View)
    requires Stands(plans, Succeeding, v) && v.me.pc.LBuild? && v.me.pc.at <= to <= |v.plan| && Buildable(v.plan)
    ensures Leads(plans, Succeeding, v, w) && w.me.pc == LBuild(to)
    decreases |v.plan| - v.me.pc.at
  {
    hide Stands, Placeable;
    if v.me.pc.at == to {
      w := v;
      LeadsHere(plans, Succeeding, v);
    } else {
      var a := BuildsOne(plans, v);
      LeadsStands(plans, Succeeding, v, a);
      w := Builds(plans, a, to);
      LeadsOn(plans, Succeeding, v, a, w);
    }
  }

  // ---- publishing ------------------------------------------------------------------------------

  lemma LeavesStore(plans: Plans, v: View) returns (w: View)
    requires Stands(plans, Succeeding, v) && v.me.pc == LBuild(|v.plan|)
    ensures Leads(plans, Succeeding, v, w) && w.me.pc == LRename
  {
    StandsPlan(plans, Succeeding, v);
    var a := v.Goto(LDropStore);
    w := a.(me := a.me.(pc := LRename, store := Closed));
    assert Choose(v, a) && DropStore(a, w);
    hide Stands, Choose, Sound;
    Does(plans, Succeeding, v, a);
    LeadsStands(plans, Succeeding, v, a);
    Does(plans, Succeeding, a, w);
    LeadsOn(plans, Succeeding, v, a, w);
  }

  lemma Publishes(plans: Plans, v: View) returns (w: View)
    requires Stands(plans, Succeeding, v) && v.me.pc == LRename
    ensures Leads(plans, Succeeding, v, w) && w.me.pc == LMarkReady
  {
    StandsPlan(plans, Succeeding, v);
    var p := v.me.pkg;
    w := v.Goto(LMarkReady).(
      disk := v.disk.(trees := v.disk.trees[p := v.disk.tmps[p]], tmps := v.disk.tmps - {p}));
    assert Rename(v, w);
    hide Stands, Sound, Rename;
    Does(plans, Succeeding, v, w);
  }

  lemma Finishes(plans: Plans, v: View) returns (w: View)
    requires Stands(plans, Succeeding, v) && v.me.pc == LMarkReady
    ensures Leads(plans, Succeeding, v, w) && w.me.pc == LRunning && w.me.pkg in w.disk.meta
  {
    hide Stands;
    var p := v.me.pkg;
    var a := v.Goto(LTouch).(disk := v.disk.(ready := v.disk.ready + {p}));
    var b := a.Goto(LUnlockMutex).(disk := a.disk.(meta := a.disk.meta + {p}));
    w := b.(me := b.me.(pc := LRunning, mutex := Closed));
    assert MarkReady(v, a) && Touch(a, b) && UnlockMutex(b, w);
    Does(plans, Succeeding, v, a);
    LeadsStands(plans, Succeeding, v, a);
    Does(plans, Succeeding, a, b);
    LeadsOn(plans, Succeeding, v, a, b);
    LeadsStands(plans, Succeeding, v, b);
    Does(plans, Succeeding, b, w);
    LeadsOn(plans, Succeeding, v, b, w);
  }

  /** From the start of an extraction up to some operation of its plan. */
  lemma ExtractsUpTo(plans: Plans, v: View, to: nat) returns (w: View)
    requires Stands(plans, Succeeding, v) && v.me.pc == LClearDir && Buildable(v.plan) && to <= |v.plan|
    ensures Leads(plans, Succeeding, v, w) && w.me.pc == LBuild(to)
  {
    hide Stands, Buildable;
    var a := Clears(plans, v);
    LeadsStands(plans, Succeeding, v, a);
    var b := StartsBuilding(plans, a);
    LeadsOn(plans, Succeeding, v, a, b);
    LeadsStands(plans, Succeeding, v, b);
    w := Builds(plans, b, to);
    LeadsOn(plans, Succeeding, v, b, w);
  }

  lemma Extracts(plans: Plans, v: View) returns (w: View)
    requires Stands(plans, Succeeding, v) && v.me.pc == LClearDir && Buildable(v.plan)
    ensures Leads(plans, Succeeding, v, w) && w.me.pc == LMarkReady
  {
    hide Stands, Buildable;
    var c := ExtractsUpTo(plans, v, |v.plan|);
    LeadsStands(plans, Succeeding, v, c);
    var r := LeavesStore(plans, c);
    LeadsOn(plans, Succeeding, v, c, r);
    LeadsStands(plans, Succeeding, v, r);
    w := Publishes(plans, r);
    LeadsOn(plans, Succeeding, v, r, w);
  }

  /** A launch that does not find its package complete starts over. */
  lemma StartsExtraction(plans: Plans, v: View) returns (w: View)
    requires Stands(plans, Succeeding, v) && v.me.pc == LCheckDir
    requires !(v.me.pkg in v.disk.trees && v.me.pkg in v.disk.ready)
    ensures Leads(plans, Succeeding, v, w) && w.me.pc == LClearDir
  {
    hide Stands, Leads;
    var m := AsksForMutex(plans, v);
    LeadsStands(plans, Succeeding, v, m);
    var b := TakesMutex(plans, m);
    LeadsOn(plans, Succeeding, v, m, b);
    LeadsStands(plans, Succeeding, v, b);
    w := StartsOver(plans, b);
    LeadsOn(plans, Succeeding, v, b, w);
  }

  lemma Launches(plans: Plans, v: View) returns (w: View)
    requires Stands(plans, Succeeding, v) && v.me.pc == LOpen && Buildable(v.plan)
    ensures Leads(plans, Succeeding, v, w) && w.me.pc == LRunning && w.me.pkg in w.disk.meta
  {
    hide Stands, Leads, Buildable;
    var a := Enters(plans, Succeeding, v);
    LeadsStands(plans, Succeeding, v, a);
    if a.me.pkg in a.disk.trees && a.me.pkg in a.disk.ready {
      w := Returns(plans, Succeeding, a);
      LeadsStands(plans, Succeeding, a, w);
      LeadsOn(plans, Succeeding, v, a, w);
    } else {
      var c := StartsExtraction(plans, a);
      LeadsOn(plans, Succeeding, v, a, c);
      LeadsStands(plans, Succeeding, v, c);
      var d := Extracts(plans, c);
      LeadsOn(plans, Succeeding, v, c, d);
      LeadsStands(plans, Succeeding, v, d);
      w := Finishes(plans, d);
      LeadsOn(plans, Succeeding, v, d, w);
    }
  }

  // ---- runs --------------------------------------------------------------------------------------

  /** A run of one process `q` for package `p` from an idle state, all of whose program points are `ok`. */
  ghost predicate SoloRun(tr: seq<State>, s: State, q: Pid, p: PkgId, ok: PC -> bool) {
    Run(tr) && |tr| > 1 && tr[0] == s && forall i :: 0 < i < |tr| ==> Solo(tr[i], s.plans, q, p, ok)
  }

  ghost predicate Solo(s: State, plans: Plans, q: Pid, p: PkgId, ok: PC -> bool) {
    s.procs.Keys == {q} && s.procs[q].pkg == p && ok(s.procs[q].pc) && s.plans == plans
  }

  ghost function Starting(s: State, q: Pid, p: PkgId, pc: PC): View {
    View(q, s.plans(p), Proc(p, pc, Closed, Closed, Closed, 0), s.paths, s.disk)
  }

  lemma Starts(s: State, q: Pid, p: PkgId, pc: PC, ok: PC -> bool)
    requires Idle(s) && (pc == LOpen || pc == GList || pc == COpen) && ok(pc)
    ensures Stands(s.plans, ok, Starting(s, q, p, pc)) && Step(s, Alone(s.plans, Starting(s, q, p, pc)))
  {
    var s' := Alone(s.plans, Starting(s, q, p, pc));
    assert s' == Become(s, q, Proc(p, pc, Closed, Closed, Closed, 0));
    assert StepOf(s, q, s') by { hide Idle; }
    StepKeeps(s, s');
  }

  lemma RunOf(s: State, q: Pid, p: PkgId, pc: PC, ok: PC -> bool, w: View) returns (tr: seq<State>)
    requires Idle(s) && (pc == LOpen || pc == GList || pc == COpen) && ok(pc)
    requires Leads(s.plans, ok, Starting(s, q, p, pc), w)
    ensures SoloRun(tr, s, q, p, ok) && tr[|tr| - 1] == Alone(s.plans, w)
  {
    Starts(s, q, p, pc, ok);
    var v := Starting(s, q, p, pc);
    hide Idle, Step;
    var vs :| Walk(s.plans, ok, vs) && vs[0] == v && vs[|vs| - 1] == w;
    tr := WalkAsRun(s, ok, vs);
  }

  lemma WalkAsRun(s: State, ok: PC -> bool, vs: seq<View>) returns (tr: seq<State>)
    requires Idle(s) && Walk(s.plans, ok, vs) && Step(s, Alone(s.plans, vs[0]))
    ensures SoloRun(tr, s, vs[0].q, vs[0].me.pkg, ok) && tr[|tr| - 1] == Alone(s.plans, vs[|vs| - 1])
  {
    hide Idle, Step, Inv;
    tr := seq(|vs| + 1, i requires 0 <= i < |vs| + 1 => if i == 0 then s else Alone(s.plans, vs[i - 1]));
    forall i | 0 <= i < |tr| - 1 ensures Step(tr[i], tr[i + 1]) {
      if i > 0 { assert Step(Alone(s.plans, vs[i - 1]), Alone(s.plans, vs[i])); }
    }
    forall i | 0 < i < |tr|
      ensures tr[i].procs.Keys == {vs[0].q} && tr[i].procs[vs[0].q].pkg == vs[0].me.pkg && ok(tr[i].procs[vs[0].q].pc)
    {
      assert Stands(s.plans, ok, vs[i - 1]) && vs[i - 1].q == vs[0].q;
    }
  }

  /** The launch has returned: marker, record of the use and complete tree are there. */
  ghost predicate Returned(s: State, q: Pid) {
    && q in s.procs && s.procs[q].pc.LRunning?
    && var p := s.procs[q].pkg; p in s.disk.ready && p in s.disk.meta && Complete(s.plans(p), s.disk, p)
  }

  /** From any cache that nobody is using, a launch of a package that can be built returns if nothing fails. */
  lemma LaunchReturns(s: State, q: Pid, p: PkgId) returns (tr: seq<State>)
    requires Idle(s) && Buildable(s.plans(p))
    ensures SoloRun(tr, s, q, p, Succeeding) && Returned(tr[|tr| - 1], q)
  {
    Starts(s, q, p, LOpen, Succeeding);
    hide Idle, Stands, Buildable;
    var w := Launches(s.plans, Starting(s, q, p, LOpen));
    LeadsStands(s.plans, Succeeding, Starting(s, q, p, LOpen), w);
    tr := RunOf(s, q, p, LOpen, Succeeding, w);
    RunningLaunchIsComplete(tr, |tr| - 1, q);
  }

  lemma ReadyHasTree(s: State, p: PkgId)
    requires Idle(s) && p in s.disk.ready
    ensures p in s.disk.trees
  {
    assert Complete(s.plans(p), s.disk, p);
  }

  lemma BriefPoints()
    ensures Brief(LOpen) && Brief(LLock) && Brief(LCheckDir) && Brief(LCheckReady) && Brief(LTouchHit) &&
      Brief(LRunning)
  {
  }

  lemma BriefLaunch(s: State, q: Pid, p: PkgId) returns (w: View)
    requires Idle(s) && p in s.disk.ready
    ensures Leads(s.plans, Brief, Starting(s, q, p, LOpen), w) && w.me.pc == LRunning
    ensures w.disk == s.disk.(meta := s.disk.meta + {p})
  {
    BriefPoints();
    hide Brief, Idle, Stands, Leads;
    Starts(s, q, p, LOpen, Brief);
    var v := Starting(s, q, p, LOpen);
    ReadyHasTree(s, p);
    var a := Enters(s.plans, Brief, v);
    LeadsStands(s.plans, Brief, v, a);
    w := Returns(s.plans, Brief, a);
    LeadsOn(s.plans, Brief, v, a, w);
  }

  /** A launch of a package that is there with its marker only records its use: it never asks for the mutex. */
  lemma ReadyLaunchReturns(s: State, q: Pid, p: PkgId) returns (tr: seq<State>)
    requires Idle(s) && p in s.disk.ready
    ensures SoloRun(tr, s, q, p, Brief) && Returned(tr[|tr| - 1], q)
    ensures tr[|tr| - 1].disk == s.disk.(meta := s.disk.meta + {p})
  {
    hide Idle, Stands, Leads, Complete, Starting;
    var w := BriefLaunch(s, q, p);
    var v := Starting(s, q, p, LOpen);
    assert v.q == q && v.me.pkg == p && v.plan == s.plans(p) by { StartingIs(s, q, p, LOpen); }
    LeadsStands(s.plans, Brief, v, w);
    tr := RunOf(s, q, p, LOpen, Brief, w);
    RunningLaunchIsComplete(tr, |tr| - 1, q);
  }

  lemma StartingIs(s: State, q: Pid, p: PkgId, pc: PC)
    ensures var v := Starting(s, q, p, pc); v.q == q && v.me.pkg == p && v.plan == s.plans(p)
  {
  }

  // ---- only packages that can be built are ever extracted ------------------------------------------

  /** How many operations of its plan a building process has behind it, or is sure of. */
  function Behind(pc: PC): nat
    requires Building(pc)
  {
    if pc.LPlace? then pc.at + 1 else pc.at
  }

  /** The process has not yet met an operation that stands in the way of another. */
  ghost predicate SoFar(plan: seq<Op>, me: Proc) {
    && (Building(me.pc) ==> Behind(me.pc) <= |plan| && Buildable(plan[..Behind(me.pc)]))
    && (me.pc.LDropStore? || me.pc.LRename? || me.pc.LMarkReady? ==> Buildable(plan))
  }

  ghost predicate BuildableSoFar(s: State) {
    && (forall q :: q in s.procs ==> SoFar(s.plans(s.procs[q].pkg), s.procs[q]))
    && (forall p :: p in s.disk.ready ==> Buildable(s.plans(p)))
  }

  lemma OneMore(plan: seq<Op>, at: nat)
    requires at < |plan| && Buildable(plan[..at]) && Placeable(plan, at)
    ensures Buildable(plan[..at + 1])
  {
    var more := plan[..at + 1];
    forall i | 0 <= i < |more| ensures Placeable(more, i) {
      assert more[..i] == plan[..i];
      if i < at { assert plan[..at][..i] == plan[..i] && Placeable(plan[..at], i); }
    }
  }

  /** The steps after which more of the plan is known to be buildable. */
  lemma BuildDirShows(v: View, w: View)
    requires MineOk(v) && BuildDir(v, w) && SoFar(v.plan, v.me)
    ensures SoFar(w.plan, w.me)
  {
    var at := v.me.pc.at;
    var want := Outcome(v.plan[..at]);
    assert Matches(v.disk.content, v.Scratch(), want, None);
    var x := v.Op().path;
    assert x in want ==> x in v.Scratch() && NodeIs(v.disk.content, v.Scratch()[x], want[x]);
    hide Outcome, Buildable;
    OneMore(v.plan, at);
  }

  lemma UnlinkOldShows(v: View, w: View)
    requires MineOk(v) && UnlinkOld(v, w) && SoFar(v.plan, v.me)
    ensures SoFar(w.plan, w.me)
  {
    var at := v.me.pc.at;
    var want := Outcome(v.plan[..at]);
    assert Matches(v.disk.content, v.Scratch(), want, None);
    var x := v.Op().path;
    assert x in want ==> x in v.Scratch() && NodeIs(v.disk.content, v.Scratch()[x], want[x]);
    hide Outcome, Buildable;
    OneMore(v.plan, at);
  }

  lemma EarlyActsShowNothing(v: View, w: View)
    requires MineOk(v) && SoFar(v.plan, v.me)
    requires OpeningAct(v, w) || ReleasingAct(v, w) || CheckingAct(v, w) || PublishingAct(v, w)
    ensures SoFar(w.plan, w.me)
  {
    hide Buildable, Outcome, Matches;
  }

  lemma BuildingShowsNothing(v: View, w: View)
    requires MineOk(v) && SoFar(v.plan, v.me) && (Fail(v, w) || Choose(v, w))
    ensures SoFar(w.plan, w.me)
  {
    hide Buildable, Outcome, Matches;
    assert v.plan[..|v.plan|] == v.plan;
  }

  lemma LateActsShowNothing(v: View, w: View)
    requires MineOk(v) && SoFar(v.plan, v.me)
    requires StoringAct(v, w) || ClearingAct(v, w) || CollectingAct(v, w)
    ensures SoFar(w.plan, w.me)
  {
    hide Buildable, Outcome, Carried, Matches;
  }

  lemma PublishingMarksOnly(v: View, w: View)
    requires PublishingAct(v, w)
    ensures w.plan == v.plan && w.me.pkg == v.me.pkg
    ensures forall p :: p in w.disk.ready && p !in v.disk.ready ==> p == v.me.pkg && v.me.pc.LMarkReady?
  {
  }

  lemma OthersMarkNothing(v: View, w: View)
    requires Act(v, w) && !PublishingAct(v, w)
    ensures w.plan == v.plan && w.me.pkg == v.me.pkg && w.disk.ready == v.disk.ready
  {
  }

  lemma MarksOnly(v: View, w: View)
    requires Act(v, w)
    ensures w.plan == v.plan && w.me.pkg == v.me.pkg
    ensures forall p :: p in w.disk.ready && p !in v.disk.ready ==> p == v.me.pkg && v.me.pc.LMarkReady?
  {
    hide Act, PublishingAct;
    if PublishingAct(v, w) { PublishingMarksOnly(v, w); } else { OthersMarkNothing(v, w); }
  }

  lemma ActShows(v: View, w: View)
    requires MineOk(v) && Act(v, w) && SoFar(v.plan, v.me)
    ensures SoFar(w.plan, w.me)
  {
    hide MineOk, SoFar, BuildDir, UnlinkOld, Fail, Choose;
    hide OpeningAct, ReleasingAct, CheckingAct, PublishingAct, StoringAct, ClearingAct, CollectingAct;
    if BuildDir(v, w) { BuildDirShows(v, w); }
    else if UnlinkOld(v, w) { UnlinkOldShows(v, w); }
    else if BuildingAct(v, w) { BuildingShowsNothing(v, w); }
    else if StoringAct(v, w) || ClearingAct(v, w) || CollectingAct(v, w) { LateActsShowNothing(v, w); }
    else { EarlyActsShowNothing(v, w); }
  }

  lemma ActStepShows(s: State, q: Pid, w: View)
    requires q in s.procs && MineOk(ViewOf(s, q)) && Act(ViewOf(s, q), w) && BuildableSoFar(s)
    ensures BuildableSoFar(Become(s, q, w.me).(paths := w.paths, disk := w.disk))
  {
    var v := ViewOf(s, q);
    assert SoFar(v.plan, v.me) && v.plan == s.plans(v.me.pkg);
    hide Act, MineOk, Buildable;
    MarksOnly(v, w);
    ActShows(v, w);
    assert SoFar(s.plans(w.me.pkg), w.me);
    assert v.me.pc.LMarkReady? ==> Buildable(s.plans(v.me.pkg));
    hide SoFar;
  }

  lemma OtherStepsShow(s: State, q: Pid, s': State)
    requires BuildableSoFar(s)
    requires LockStep(s, q, s') || PickStep(s, q, s') || StartStep(s, q, s') || DieStep(s, q, s')
    ensures BuildableSoFar(s') && s'.plans == s.plans
  {
    assert Buildable([]) && (q in s.procs ==> s.plans(s.procs[q].pkg)[..0] == []);
    hide Buildable;
  }

  lemma StepShows(s: State, s': State)
    requires Inv(s) && Step(s, s') && BuildableSoFar(s)
    ensures BuildableSoFar(s') && s'.plans == s.plans
  {
    hide BuildableSoFar, LockStep, PickStep, StartStep, DieStep;
    var q :| StepOf(s, q, s');
    if ActStep(s, q, s') {
      var w: View :| Act(ViewOf(s, q), w) && s' == Become(s, q, w.me).(paths := w.paths, disk := w.disk);
      assert ProcOk(s, q);
      hide Act, MineOk;
      ActStepShows(s, q, w);
    } else {
      OtherStepsShow(s, q, s');
    }
  }

  lemma {:induction false} RunShows(tr: seq<State>, i: nat)
    requires Run(tr) && i < |tr| && BuildableSoFar(tr[0])
    ensures BuildableSoFar(tr[i]) && tr[i].plans == tr[0].plans
  {
    hide BuildableSoFar, Step;
    if i > 0 {
      RunShows(tr, i - 1);
      RunKeeps(tr, i - 1);
      StepShows(tr[i - 1], tr[i]);
    }
  }

  /** Process `q` has returned from a launch of `p` in some state of the run. */
  ghost predicate ReturnsIn(tr: seq<State>, i: nat, q: Pid, p: PkgId) {
    i < |tr| && Returned(tr[i], q) && tr[i].procs[q].pkg == p
  }

  /** From the empty cache some launch of a package returns exactly if the package can be built. */
  lemma LaunchReturnsExactly(plans: Plans, p: PkgId)
    ensures (exists tr: seq<State>, i: nat, q: Pid ::
               Run(tr) && tr[0] == EmptyCache(plans) && ReturnsIn(tr, i, q, p))
      <==> Buildable(plans(p))
  {
    EmptyCacheIsIdle(plans);
    var s := EmptyCache(plans);
    assert BuildableSoFar(s);
    hide BuildableSoFar, Idle, Buildable, Run;
    if Buildable(plans(p)) {
      var tr := LaunchReturns(s, 0, p);
      assert ReturnsIn(tr, |tr| - 1, 0, p);
    }
    if tr: seq<State>, i: nat, q: Pid :| Run(tr) && tr[0] == s && ReturnsIn(tr, i, q, p) {
      RunShows(tr, i);
      ReadyIsBuildable(tr[i], p);
    }
  }

  lemma ReadyIsBuildable(s: State, p: PkgId)
    requires BuildableSoFar(s) && p in s.disk.ready
    ensures Buildable(s.plans(p))
  {
  }

  // ---- a marker under a shared lock stays ------------------------------------------------------------

  lemma UnmarksOnly(v: View, w: View, p: PkgId)
    requires Act(v, w) && p in v.disk.ready && p !in w.disk.ready
    ensures p == v.me.pkg && (v.me.pc.LClearReady? || v.me.pc.GDropReady?)
  {
  }

  lemma ActKeepsMarker(s: State, q: Pid, r: Pid, w: View)
    requires Inv(s) && q in s.procs && r in s.procs && Act(ViewOf(s, r), w)
    requires InUse(s.procs[q].pc) && s.procs[q].pkg in s.disk.ready
    ensures s.procs[q].pkg in w.disk.ready
  {
    var p := s.procs[q].pkg;
    assert ProcOk(s, q) && ProcOk(s, r);
    if r != q { LocksKeepApart(s, r, q); }
    MarkedIsNotExtracting(s, r);
    hide Act, Inv, MineOk, LocksOk;
    if p !in w.disk.ready { UnmarksOnly(ViewOf(s, r), w, p); }
  }

  lemma MarkedIsNotExtracting(s: State, q: Pid)
    requires Inv(s) && q in s.procs
    ensures s.procs[q].pkg in s.disk.ready ==> !Extracting(s.procs[q].pc)
  {
    assert ProcOk(s, q);
  }

  lemma StepKeepsMarker(s: State, s': State, q: Pid)
    requires Inv(s) && Step(s, s') && q in s.procs && InUse(s.procs[q].pc) && s.procs[q].pkg in s.disk.ready
    ensures s.procs[q].pkg in s'.disk.ready
  {
    hide Inv, InUse;
    var r :| StepOf(s, r, s');
    if ActStep(s, r, s') {
      var w: View :| Act(ViewOf(s, r), w) && s' == Become(s, r, w.me).(paths := w.paths, disk := w.disk);
      hide Act;
      ActKeepsMarker(s, q, r, w);
    }
  }

  /** A launch that has its lock on a package with a marker never extracts it, whatever others do meanwhile. */
  lemma {:induction false} ReadyIsNeverExtracted(tr: seq<State>, i: nat, j: nat, q: Pid, p: PkgId)
    requires Run(tr) && i <= j < |tr| && p in tr[i].disk.ready
    requires forall k :: i <= k <= j ==> q in tr[k].procs && InUse(tr[k].procs[q].pc) && tr[k].procs[q].pkg == p
    ensures p in tr[j].disk.ready && !Extracting(tr[j].procs[q].pc)
  {
    hide Idle, Step, Inv, InUse, Extracting;
    if j > i {
      ReadyIsNeverExtracted(tr, i, j - 1, q, p);
      RunKeeps(tr, j - 1);
      StepKeepsMarker(tr[j - 1], tr[j], q);
    }
    RunKeeps(tr, j);
    MarkedIsNotExtracting(tr[j], q);
  }

  // ---- collectors ------------------------------------------------------------------------------------

  predicate Anywhere(pc: PC) { true }

  /** `auto_gc` gets the lock file of a recorded package and locks it. */
  lemma LocksIdle(s: State, q: Pid, p: PkgId) returns (w: View)
    requires Idle(s) && p in s.disk.meta
    ensures Leads(s.plans, Anywhere, Starting(s, q, p, GList), w) && w.me.pc == GDropReady && w.disk == s.disk
  {
    Starts(s, q, p, GList, Anywhere);
    var v := Starting(s, q, p, GList);
    var plans := s.plans;
    assert p in s.paths.use;
    var a := v.Goto(GOpen);
    assert PickStep(Alone(plans, v), q, Alone(plans, a)) by {
      assert Alone(plans, a) == Become(Alone(plans, v), q, v.me.(pc := GOpen, pkg := p));
    }
    assert StepOf(Alone(plans, v), q, Alone(plans, a));
    hide Idle, Stands;
    LeadsByStep(plans, Anywhere, v, a);
    LeadsStands(plans, Anywhere, v, a);
    var b := a.(me := a.me.(pc := GLock, use := Opened(a.paths.use[p])));
    assert OpenIdle(a, b);
    Does(plans, Anywhere, a, b);
    LeadsOn(plans, Anywhere, v, a, b);
    LeadsStands(plans, Anywhere, v, b);
    var me := b.me.(pc := GDropReady, use := Exclusive(b.me.use.inode));
    w := b.(me := me);
    assert TriesUse(Alone(plans, b), q, b.me, Become(Alone(plans, b), q, me));
    Takes(plans, Anywhere, b, me);
    LeadsOn(plans, Anywhere, v, b, w);
  }

  /** From any cache that nobody is using, collecting a recorded package takes everything of it away. */
  lemma PackageIsRemoved(s: State, q: Pid, p: PkgId) returns (tr: seq<State>)
    requires Idle(s) && p in s.disk.meta
    ensures SoloRun(tr, s, q, p, Anywhere)
    ensures var d := tr[|tr| - 1];
      && d.procs[q].pc == GList && d.procs[q].use == Closed && p !in d.paths.mutex
      && d.disk == s.disk.(ready := s.disk.ready - {p}, trees := s.disk.trees - {p}, meta := s.disk.meta - {p})
  {
    var plans, v := s.plans, Starting(s, q, p, GList);
    hide Idle, Stands;
    var a := LocksIdle(s, q, p);
    LeadsStands(plans, Anywhere, v, a);
    var b := a.Goto(GDropTree).(disk := a.disk.(ready := a.disk.ready - {p}));
    assert DropReady(a, b);
    Does(plans, Anywhere, a, b);
    LeadsOn(plans, Anywhere, v, a, b);
    LeadsStands(plans, Anywhere, v, b);
    var c := RemovesTree(plans, Anywhere, b);
    LeadsOn(plans, Anywhere, v, b, c);
    LeadsStands(plans, Anywhere, v, c);
    var w := Forgets(plans, c);
    LeadsOn(plans, Anywhere, v, c, w);
    tr := RunOf(s, q, p, GList, Anywhere, w);
  }

  lemma Forgets(plans: Plans, v: View) returns (w: View)
    requires Stands(plans, Anywhere, v) && v.me.pc == GDropMeta
    ensures Leads(plans, Anywhere, v, w) && w.me.pc == GList && w.me.use == Closed && v.me.pkg !in w.paths.mutex
    ensures w.disk == v.disk.(meta := v.disk.meta - {v.me.pkg})
  {
    hide Stands;
    var p := v.me.pkg;
    var a := v.Goto(GDropMutex).(disk := v.disk.(meta := v.disk.meta - {p}));
    w := a.(me := a.me.(pc := GList, use := Closed), paths := a.paths.(mutex := a.paths.mutex - {p}));
    assert DropMeta(v, a) && DropMutex(a, w);
    Does(plans, Anywhere, v, a);
    LeadsStands(plans, Anywhere, v, a);
    Does(plans, Anywhere, a, w);
    LeadsOn(plans, Anywhere, v, a, w);
  }

  /** The files of the store that some tree carries. */
  ghost function CarriedBlobs(disk: Disk): map<Name, Inode> {
    map n | n in disk.blobs && Carried(disk, disk.blobs[n]) :: disk.blobs[n]
  }

  /** The files that a scan still keeps: those to be looked at, and those of the rest that are carried. */
  ghost predicate Scanned(was: Disk, now: Disk, todo: set<Name>) {
    && now == was.(blobs := now.blobs) && todo <= now.blobs.Keys
    && (forall n :: n in now.blobs ==> n in was.blobs && now.blobs[n] == was.blobs[n])
    && (forall n :: n in was.blobs && (n in todo || Carried(was, was.blobs[n])) ==> n in now.blobs)
    && (forall n :: n in now.blobs && n !in todo ==> Carried(was, was.blobs[n]))
  }

  lemma Condemns(plans: Plans, v: View, n: Name) returns (w: View)
    requires Stands(plans, Anywhere, v) && v.me.pc.CScan? && n in v.me.pc.todo && n in v.disk.blobs
    requires LinkCount(v.disk, v.disk.blobs[n]) <= 1
    ensures Leads(plans, Anywhere, v, w) && w.me.pc == CScan(v.me.pc.todo - {n})
    ensures w.disk == v.disk.(blobs := v.disk.blobs - {n})
  {
    var rest := v.me.pc.todo - {n};
    hide Stands, LinkCount;
    var a := v.Goto(CRemove(n, rest));
    assert Condemn(v, n, a);
    Does(plans, Anywhere, v, a);
    LeadsStands(plans, Anywhere, v, a);
    w := a.Goto(CScan(rest)).(disk := a.disk.(blobs := a.disk.blobs - {n}));
    assert RemoveBlob(a, w);
    Does(plans, Anywhere, a, w);
    LeadsOn(plans, Anywhere, v, a, w);
  }

  lemma Spares(plans: Plans, v: View, n: Name) returns (w: View)
    requires Stands(plans, Anywhere, v) && v.me.pc.CScan? && n in v.me.pc.todo && n in v.disk.blobs
    requires LinkCount(v.disk, v.disk.blobs[n]) > 1
    ensures Leads(plans, Anywhere, v, w) && w.me.pc == CScan(v.me.pc.todo - {n}) && w.disk == v.disk
  {
    w := v.Goto(CScan(v.me.pc.todo - {n}));
    hide Stands, LinkCount;
    assert Spare(v, n, w);
    Does(plans, Anywhere, v, w);
  }

  lemma ScansOne(plans: Plans, v: View, was: Disk, n: Name) returns (w: View)
    requires Stands(plans, Anywhere, v) && v.me.pc.CScan? && Scanned(was, v.disk, v.me.pc.todo) && n in v.me.pc.todo
    ensures Leads(plans, Anywhere, v, w) && w.me.pc == CScan(v.me.pc.todo - {n})
    ensures Scanned(was, w.disk, v.me.pc.todo - {n})
  {
    StandsPlan(plans, Anywhere, v);
    CountOneIsUnlinked(v.disk, n);
    SameCarried(was, v.disk, v.me.pc.todo, n);
    ScannedNext(was, v.disk, v.me.pc.todo, n);
    hide Stands, Carried, LinkCount, Sound, Leads, Scanned, StoreOk;
    if LinkCount(v.disk, v.disk.blobs[n]) <= 1 {
      w := Condemns(plans, v, n);
    } else {
      w := Spares(plans, v, n);
    }
  }

  lemma SameCarried(was: Disk, now: Disk, todo: set<Name>, n: Name)
    requires Scanned(was, now, todo) && n in todo
    ensures n in was.blobs && n in now.blobs && (Carried(now, now.blobs[n]) <==> Carried(was, was.blobs[n]))
  {
  }

  lemma ScannedNext(was: Disk, now: Disk, todo: set<Name>, n: Name)
    requires Scanned(was, now, todo) && n in todo && n in was.blobs
    ensures Scanned(was, if Carried(was, was.blobs[n]) then now else now.(blobs := now.blobs - {n}), todo - {n})
  {
    hide Carried;
  }

  lemma {:induction false} ScansAll(plans: Plans, v: View, was: Disk) returns (w: View)
    requires Stands(plans, Anywhere, v) && v.me.pc.CScan? && Scanned(was, v.disk, v.me.pc.todo)
    ensures Leads(plans, Anywhere, v, w) && w.me.pc == CScan({}) && Scanned(was, w.disk, {})
    decreases |v.me.pc.todo|
  {
    hide Stands, Scanned;
    if v.me.pc.todo == {} {
      w := v;
      LeadsHere(plans, Anywhere, v);
    } else {
      var n :| n in v.me.pc.todo;
      var a := ScansOne(plans, v, was, n);
      LeadsStands(plans, Anywhere, v, a);
      w := ScansAll(plans, a, was);
      LeadsOn(plans, Anywhere, v, a, w);
    }
  }

  lemma ListsStore(s: State, q: Pid, p: PkgId) returns (w: View)
    requires Idle(s)
    ensures Leads(s.plans, Anywhere, Starting(s, q, p, COpen), w)
    ensures w.me.pc == CScan(s.disk.blobs.Keys) && w.disk == s.disk
  {
    var plans, v := s.plans, Starting(s, q, p, COpen);
    Starts(s, q, p, COpen, Anywhere);
    hide Idle, Stands;
    var a := OpensTheStore(plans, Anywhere, v, CLock);
    LeadsStands(plans, Anywhere, v, a);
    var me := a.me.(pc := CList, store := Exclusive(a.me.store.inode));
    var b := a.(me := me);
    assert TriesStore(Alone(plans, a), q, a.me, Become(Alone(plans, a), q, me));
    hide TriesStore;
    Takes(plans, Anywhere, a, me);
    LeadsOn(plans, Anywhere, v, a, b);
    LeadsStands(plans, Anywhere, v, b);
    w := b.Goto(CScan(b.disk.blobs.Keys));
    assert ListStore(b, w);
    Does(plans, Anywhere, b, w);
    LeadsOn(plans, Anywhere, v, b, w);
  }

  /** From any cache that nobody is using, collecting the store leaves just the files that some tree carries. */
  lemma StoreIsCollected(s: State, q: Pid, p: PkgId) returns (tr: seq<State>)
    requires Idle(s)
    ensures SoloRun(tr, s, q, p, Anywhere) && tr[|tr| - 1].procs[q].pc == CScan({})
    ensures tr[|tr| - 1].disk == s.disk.(blobs := CarriedBlobs(s.disk))
  {
    var plans, v := s.plans, Starting(s, q, p, COpen);
    hide Idle, Stands, Carried, Leads;
    var c := ListsStore(s, q, p);
    LeadsStands(plans, Anywhere, v, c);
    assert Scanned(s.disk, c.disk, c.me.pc.todo);
    var w := ScansAll(plans, c, s.disk);
    LeadsOn(plans, Anywhere, v, c, w);
    LeadsStands(plans, Anywhere, c, w);
    assert w.disk.blobs == CarriedBlobs(s.disk);
    tr := RunOf(s, q, p, COpen, Anywhere, w);
  }

  // ---- what a failure leaves ---------------------------------------------------------------------------

  lemma LeadsAnywhere(plans: Plans, v: View, w: View)
    requires Leads(plans, Succeeding, v, w)
    ensures Leads(plans, Anywhere, v, w)
  {
    hide Step, Inv;
    var vs :| Walk(plans, Succeeding, vs) && vs[0] == v && vs[|vs| - 1] == w;
    forall i | 0 <= i < |vs| ensures Stands(plans, Anywhere, vs[i]) { assert Stands(plans, Succeeding, vs[i]); }
    hide Stands;
    assert Walk(plans, Anywhere, vs);
  }

  lemma Fails(plans: Plans, v: View, next: PC) returns (w: View)
    requires Stands(plans, Anywhere, v)
    requires (Building(v.me.pc) && next == LUndoTmp) || (v.me.pc == LMarkReady && next == LUndoDir)
    ensures Leads(plans, Anywhere, v, w) && w == v.Goto(next)
  {
    w := v.Goto(next);
    hide Stands;
    assert Fail(v, w);
    Does(plans, Anywhere, v, w);
  }

  lemma ReachesExtraction(s: State, q: Pid, p: PkgId) returns (w: View)
    requires Idle(s) && p !in s.disk.ready
    ensures Leads(s.plans, Succeeding, Starting(s, q, p, LOpen), w) && w.me.pc == LClearDir
  {
    var v := Starting(s, q, p, LOpen);
    Starts(s, q, p, LOpen, Succeeding);
    hide Idle, Stands, Leads;
    var a := Enters(s.plans, Succeeding, v);
    LeadsStands(s.plans, Succeeding, v, a);
    w := StartsExtraction(s.plans, a);
    LeadsOn(s.plans, Succeeding, v, a, w);
  }

  /** An extraction that fails at any of its operations leaves neither a scratch tree nor a package behind. */
  lemma FailedExtractionIsUndone(s: State, q: Pid, p: PkgId, at: nat) returns (tr: seq<State>)
    requires Idle(s) && p !in s.disk.ready && Buildable(s.plans(p)) && at <= |s.plans(p)|
    ensures SoloRun(tr, s, q, p, Anywhere)
    ensures var d := tr[|tr| - 1];
      d.procs[q].pc == LUndoTmp && p !in d.disk.tmps && p !in d.disk.trees && p !in d.disk.ready
    ensures exists i :: 0 < i < |tr| && tr[i].procs[q].pc == LBuild(at)
  {
    var plans, v := s.plans, Starting(s, q, p, LOpen);
    hide Idle, Stands, Leads, Buildable;
    var a := ReachesExtraction(s, q, p);
    LeadsStands(plans, Succeeding, v, a);
    var b := ExtractsUpTo(plans, a, at);
    LeadsOn(plans, Succeeding, v, a, b);
    LeadsAnywhere(plans, v, b);
    LeadsStands(plans, Anywhere, v, b);
    var w := UndoesScratch(plans, b);
    LeadsStands(plans, Anywhere, b, w);
    var i;
    tr, i := RunBy(s, q, p, b, w);
    assert tr[i].procs[q].pc == LBuild(at);
  }

  lemma UndoesScratch(plans: Plans, b: View) returns (w: View)
    requires Stands(plans, Anywhere, b) && b.me.pc.LBuild?
    ensures Leads(plans, Anywhere, b, w) && w.me.pc == LUndoTmp
    ensures var p := b.me.pkg; p !in w.disk.tmps && p !in w.disk.trees && p !in w.disk.ready
  {
    StandsPlan(plans, Anywhere, b);
    assert b.me.pkg !in b.disk.trees && b.me.pkg !in b.disk.ready;
    hide Stands, Leads, Sound;
    var c := Fails(plans, b, LUndoTmp);
    LeadsStands(plans, Anywhere, b, c);
    w := RemovesScratch(plans, Anywhere, c);
    LeadsOn(plans, Anywhere, b, c, w);
  }

  /** A run by way of some state. */
  lemma RunBy(s: State, q: Pid, p: PkgId, b: View, w: View) returns (tr: seq<State>, i: nat)
    requires Idle(s) && Leads(s.plans, Anywhere, Starting(s, q, p, LOpen), b) && Leads(s.plans, Anywhere, b, w)
    ensures SoloRun(tr, s, q, p, Anywhere) && 0 < i < |tr|
    ensures tr[i] == Alone(s.plans, b) && tr[|tr| - 1] == Alone(s.plans, w)
  {
    hide Idle, Stands, Leads, Run, Alone;
    LeadsStands(s.plans, Anywhere, Starting(s, q, p, LOpen), b);
    var front := RunOf(s, q, p, LOpen, Anywhere, b);
    i := |front| - 1;
    tr := RunOn(s, q, p, Anywhere, front, b, w);
  }

  ghost predicate Steps(tr: seq<State>) { forall i :: 0 <= i < |tr| - 1 ==> Step(tr[i], tr[i + 1]) }

  lemma StepsOn(front: seq<State>, back: seq<State>)
    requires front != [] && Steps(front) && Steps(back) && (back != [] ==> Step(front[|front| - 1], back[0]))
    ensures Steps(front + back)
  {
    hide Step;
    var tr := front + back;
    forall i | 0 <= i < |tr| - 1 ensures Step(tr[i], tr[i + 1]) {
      if i < |front| - 1 {
        assert Step(front[i], front[i + 1]);
      } else if i >= |front| {
        assert Step(back[i - |front|], back[i - |front| + 1]);
      }
    }
  }

  /** The states of a walk after its first. */
  ghost function Rest(plans: Plans, vs: seq<View>): (back: seq<State>)
    requires vs != []
    ensures |back| == |vs| - 1 && forall i :: 0 <= i < |back| ==> back[i] == Alone(plans, vs[i + 1])
  {
    seq(|vs| - 1, i requires 0 <= i < |vs| - 1 => Alone(plans, vs[i + 1]))
  }

  lemma RestSteps(plans: Plans, ok: PC -> bool, vs: seq<View>)
    requires Walk(plans, ok, vs)
    ensures var back := Rest(plans, vs); Steps(back) && (back != [] ==> Step(Alone(plans, vs[0]), back[0]))
    ensures forall i :: 0 <= i < |vs| - 1 ==> Solo(Rest(plans, vs)[i], plans, vs[0].q, vs[0].me.pkg, ok)
  {
    hide Step, Inv;
    var back := Rest(plans, vs);
    forall i | 0 <= i < |back| - 1 ensures Step(back[i], back[i + 1]) {
      assert Step(Alone(plans, vs[i + 1]), Alone(plans, vs[i + 2]));
    }
    forall i | 0 <= i < |back| ensures Solo(back[i], plans, vs[0].q, vs[0].me.pkg, ok) {
      assert Stands(plans, ok, vs[i + 1]);
    }
  }

  /** A run goes on as its last state allows. */
  lemma RunOn(s: State, q: Pid, p: PkgId, ok: PC -> bool, front: seq<State>, v: View, w: View) returns (tr: seq<State>)
    requires SoloRun(front, s, q, p, ok) && front[|front| - 1] == Alone(s.plans, v) && v.q == q && v.me.pkg == p
    requires Leads(s.plans, ok, v, w)
    ensures SoloRun(tr, s, q, p, ok) && front <= tr && tr[|tr| - 1] == Alone(s.plans, w)
  {
    var vs :| Walk(s.plans, ok, vs) && vs[0] == v && vs[|vs| - 1] == w;
    RestSteps(s.plans, ok, vs);
    hide Idle, Step, Inv, Walk, Solo, Alone;
    assert Steps(front);
    var back := Rest(s.plans, vs);
    StepsOn(front, back);
    tr := front + back;
    hide Rest;
  }

  /** A launch whose marker cannot be written takes its published tree away again. */
  lemma FailedMarkerIsUndone(s: State, q: Pid, p: PkgId) returns (tr: seq<State>)
    requires Idle(s) && p !in s.disk.ready && Buildable(s.plans(p))
    ensures SoloRun(tr, s, q, p, Anywhere)
    ensures var d := tr[|tr| - 1]; d.procs[q].pc == LUndoDir && p !in d.disk.trees && p !in d.disk.ready
    ensures exists i :: 0 < i < |tr| && tr[i].procs[q].pc == LMarkReady && Complete(s.plans(p), tr[i].disk, p)
  {
    var plans, v := s.plans, Starting(s, q, p, LOpen);
    hide Idle, Stands, Leads, Buildable;
    var a := ReachesExtraction(s, q, p);
    LeadsStands(plans, Succeeding, v, a);
    var b := Extracts(plans, a);
    LeadsOn(plans, Succeeding, v, a, b);
    LeadsAnywhere(plans, v, b);
    LeadsStands(plans, Anywhere, v, b);
    var w := UndoesTree(plans, b);
    LeadsStands(plans, Anywhere, b, w);
    var i;
    tr, i := RunBy(s, q, p, b, w);
    assert tr[i].procs[q].pc == LMarkReady && Complete(s.plans(p), tr[i].disk, p);
  }

  lemma UndoesTree(plans: Plans, b: View) returns (w: View)
    requires Stands(plans, Anywhere, b) && b.me.pc == LMarkReady
    ensures Complete(b.plan, b.disk, b.me.pkg)
    ensures Leads(plans, Anywhere, b, w) && w.me.pc == LUndoDir
    ensures var p := b.me.pkg; p !in w.disk.trees && p !in w.disk.ready
  {
    StandsPlan(plans, Anywhere, b);
    assert b.me.pkg !in b.disk.ready;
    hide Stands, Leads, Sound;
    var c := Fails(plans, b, LUndoDir);
    LeadsStands(plans, Anywhere, b, c);
    w := RemovesTree(plans, Anywhere, c);
    LeadsOn(plans, Anywhere, b, c, w);
  }
}
