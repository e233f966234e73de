/** The extraction cache of `crates/onelf-rt/src/cache.rs` as a transition system.

    Launches, garbage collectors and content-store collectors are actors that
    interleave freely, one file-system or flock action per step, and any of them
    may die after any step. A flock is held on an inode through an open
    descriptor: the extraction mutex file is unlinked and created anew, so two
    descriptors of one path need not meet on one lock.
 */
module CacheProtocol {

  type Pid = nat
  type PkgId = nat
  type Inode = nat
  type Path = nat
  /** A blob's content hash together with its mode. */
  type Key = nat
  type Target = nat

  datatype Option<+T> = None | Some(value: T)

  // ---- what a package extracts to -------------------------------------------

  /** One action of an extraction, in the order the three passes perform them. */
  datatype Op =
    | MkDir(path: Path)
    | Link(path: Path, key: Key)
    | Symlink(path: Path, target: Target)

  /** What each package's manifest asks for. */
  type Plans = PkgId -> seq<Op>

  /** What a path of a finished tree must be. */
  datatype Want = WantDir | WantFile(key: Key) | WantSymlink(target: Target)

  function Wanted(op: Op): Want {
    match op
    case MkDir(_) => WantDir
    case Link(_, k) => WantFile(k)
    case Symlink(_, t) => WantSymlink(t)
  }

  /** The tree a list of operations leaves: a later operation on a path wins. */
  function Outcome(ops: seq<Op>): map<Path, Want> {
    if ops == [] then map[]
    else
      var last := ops[|ops| - 1];
      Outcome(ops[..|ops| - 1])[last.path := Wanted(last)]
  }

  // ---- the file system --------------------------------------------------------

  datatype Node = Dir | File(inode: Inode) | Sym(target: Target)
  type Tree = map<Path, Node>

  /** A name in the content store: a blob, or the scratch file of a writer. */
  datatype Name = Blob(key: Key) | Temp(tempKey: Key, writer: Pid, number: nat)

  /** What an inode of the store holds: nothing trustworthy yet, or a blob. */
  datatype Content = Partial | Whole(key: Key)

  /** The lock files: which inode each path names now, and the next inode to hand out. */
  datatype Paths = Paths(
    use: map<PkgId, Inode>, mutex: map<PkgId, Inode>, store: Option<Inode>, nextInode: Inode)

  /** Completion markers, last-use records, package trees, scratch trees and the content store. */
  datatype Disk = Disk(
    ready: set<PkgId>, meta: set<PkgId>,
    trees: map<PkgId, Tree>, tmps: map<PkgId, Tree>,
    blobs: map<Name, Inode>, content: map<Inode, Content>)

  ghost predicate NodeIs(content: map<Inode, Content>, node: Node, want: Want) {
    match want
    case WantDir => node == Dir
    case WantSymlink(t) => node == Sym(t)
    case WantFile(k) => node.File? && node.inode in content && content[node.inode] == Whole(k)
  }

  /** `tree` is what `want` asks for, except perhaps at `hole`. */
  ghost predicate Matches(content: map<Inode, Content>, tree: Tree, want: map<Path, Want>, hole: Option<Path>) {
    forall x :: Some(x) != hole ==>
      && (x in tree <==> x in want)
      && (x in tree ==> NodeIs(content, tree[x], want[x]))
  }

  /** The package's tree is present and is everything its manifest lists. */
  ghost predicate Complete(plan: seq<Op>, disk: Disk, p: PkgId) {
    p in disk.trees && Matches(disk.content, disk.trees[p], Outcome(plan), None)
  }

  /** The store has `n` and its bytes hash to `k`. */
  ghost predicate Verifies(disk: Disk, n: Name, k: Key) {
    n in disk.blobs && disk.blobs[n] in disk.content && disk.content[disk.blobs[n]] == Whole(k)
  }

  /** Some tree of `trees` has an entry for inode `i`. */
  ghost predicate CarriedBy(trees: map<PkgId, Tree>, i: Inode) {
    exists p, x :: p in trees && x in trees[p] && trees[p][x] == File(i)
  }

  /** Some package tree, finished or in the making, carries inode `i`. */
  ghost predicate Carried(disk: Disk, i: Inode) {
    CarriedBy(disk.trees, i) || CarriedBy(disk.tmps, i)
  }

  /** A directory entry naming a file inode, wherever it stands. */
  datatype DirEntry = InStore(name: Name) | InTree(pkg: PkgId, path: Path) | InTmp(pkg: PkgId, path: Path)

  /** Every directory entry of inode `i`: what its link count counts. */
  ghost function Links(disk: Disk, i: Inode): set<DirEntry> {
    (set n | n in disk.blobs && disk.blobs[n] == i :: InStore(n))
    + (set p, x | p in disk.trees && x in disk.trees[p] && disk.trees[p][x] == File(i) :: InTree(p, x))
    + (set p, x | p in disk.tmps && x in disk.tmps[p] && disk.tmps[p][x] == File(i) :: InTmp(p, x))
  }

  ghost function LinkCount(disk: Disk, i: Inode): nat { |Links(disk, i)| }

  // ---- actors ----------------------------------------------------------------------

  datatype Descriptor = Closed | Opened(inode: Inode) | Shared(inode: Inode) | Exclusive(inode: Inode)

  /** Where an actor is: a launch (`L`), a package collector (`G`) or a store collector (`C`). */
  datatype PC =
    | LOpen | LLock | LCheckDir | LCheckReady | LTouchHit
    | LOpenMutex | LLockMutex | LRecheckDir | LRecheckReady
    | LClearDir | LClearReady | LClearTmp | LMakeTmp | LOpenStore | LLockStore
    | LBuild(at: nat) | LCreateTemp(at: nat) | LWriteTemp(at: nat) | LRenameTemp(at: nat)
    | LUnlinkOld(at: nat) | LPlace(at: nat)
    | LDropStore | LRename | LMarkReady | LUndoTmp | LUndoDir
    | LTouch | LUnlockMutex | LRunning
    | GList | GOpen | GLock | GDropReady | GDropTree | GDropMeta | GDropMutex
    | COpen | CLock | CList | CScan(todo: set<Name>) | CRemove(name: Name, todo: set<Name>)

  datatype Proc = Proc(pkg: PkgId, pc: PC, use: Descriptor, mutex: Descriptor, store: Descriptor, temps: nat)

  predicate Building(pc: PC) {
    pc.LBuild? || pc.LCreateTemp? || pc.LWriteTemp? || pc.LRenameTemp? || pc.LUnlinkOld? || pc.LPlace?
  }

  /** Between clearing the old tree and publishing the new one. */
  predicate Clean(pc: PC) {
    || pc.LClearReady? || pc.LClearTmp? || pc.LMakeTmp? || pc.LOpenStore? || pc.LLockStore?
    || pc.LDropStore? || pc.LRename? || Building(pc)
  }

  predicate Extracting(pc: PC) {
    Clean(pc) || pc.LClearDir? || pc.LMarkReady? || pc.LUndoTmp? || pc.LUndoDir?
  }

  predicate UnderMutex(pc: PC) {
    Extracting(pc) || pc.LRecheckDir? || pc.LRecheckReady? || pc.LTouch? || pc.LUnlockMutex?
  }

  /** The launch holds the shared in-use lock. */
  predicate InUse(pc: PC) {
    UnderMutex(pc) || pc.LCheckDir? || pc.LCheckReady? || pc.LTouchHit? || pc.LOpenMutex? || pc.LLockMutex? ||
      pc.LRunning?
  }

  /** The launch has decided that the package is extracted. */
  predicate Decided(pc: PC) { pc.LTouchHit? || pc.LTouch? || pc.LUnlockMutex? || pc.LRunning? }

  predicate Dropping(pc: PC) { pc.GDropReady? || pc.GDropTree? || pc.GDropMeta? || pc.GDropMutex? }

  predicate Storing(pc: PC) { Building(pc) || pc.LDropStore? }

  predicate Collecting(pc: PC) { pc.CList? || pc.CScan? || pc.CRemove? }

  // ---- what one actor does to the files --------------------------------------------

  /** What the steps of one actor read and write. */
  datatype View = View(q: Pid, plan: seq<Op>, me: Proc, paths: Paths, disk: Disk) {
    function Goto(pc: PC): View { this.(me := me.(pc := pc)) }

    /** Inside an extraction, with its scratch tree in place. */
    predicate Working() {
      Building(me.pc) && me.pkg in disk.tmps && (me.pc.LBuild? || me.pc.at < |plan|)
    }

    predicate AtLink() { Building(me.pc) && me.pc.at < |plan| && plan[me.pc.at].Link? }

    function Op(): Op
      requires Building(me.pc) && me.pc.at < |plan|
    {
      plan[me.pc.at]
    }

    function Scratch(): Tree
      requires me.pkg in disk.tmps
    {
      disk.tmps[me.pkg]
    }

    function SetScratch(tree: Tree): Disk { disk.(tmps := disk.tmps[me.pkg := tree]) }

    function TempName(): Name
      requires AtLink()
    {
      Temp(Op().key, q, me.temps)
    }
  }

  // Opening a path: the inode it names, or a new one.

  ghost predicate OpenUse(v: View, w: View) {
    && v.me.pc.LOpen?
    && var p := v.me.pkg;
       if p in v.paths.use then w == v.(me := v.me.(pc := LLock, use := Opened(v.paths.use[p])))
       else w == v.(
         me := v.me.(pc := LLock, use := Opened(v.paths.nextInode)),
         paths := v.paths.(use := v.paths.use[p := v.paths.nextInode], nextInode := v.paths.nextInode + 1))
  }

  ghost predicate OpenMutex(v: View, w: View) {
    && v.me.pc.LOpenMutex?
    && var p := v.me.pkg;
       if p in v.paths.mutex then w == v.(me := v.me.(pc := LLockMutex, mutex := Opened(v.paths.mutex[p])))
       else w == v.(
         me := v.me.(pc := LLockMutex, mutex := Opened(v.paths.nextInode)),
         paths := v.paths.(mutex := v.paths.mutex[p := v.paths.nextInode], nextInode := v.paths.nextInode + 1))
  }

  /** Opening the store lock leaves an actor at `next`. */
  ghost predicate OpensStore(v: View, next: PC, w: View) {
    if v.paths.store.Some? then w == v.(me := v.me.(pc := next, store := Opened(v.paths.store.value)))
    else w == v.(
      me := v.me.(pc := next, store := Opened(v.paths.nextInode)),
      paths := v.paths.(store := Some(v.paths.nextInode), nextInode := v.paths.nextInode + 1))
  }

  ghost predicate OpenStore(v: View, w: View) { v.me.pc.LOpenStore? && OpensStore(v, LLockStore, w) }

  ghost predicate OpenCollect(v: View, w: View) { v.me.pc.COpen? && OpensStore(v, CLock, w) }

  ghost predicate OpenIdle(v: View, w: View) {
    && v.me.pc.GOpen?
    && w == if v.me.pkg in v.paths.use then v.(me := v.me.(pc := GLock, use := Opened(v.paths.use[v.me.pkg])))
            else v.Goto(GDropReady)
  }

  // Unlocking.

  ghost predicate UnlockMutex(v: View, w: View) {
    v.me.pc.LUnlockMutex? && w == v.(me := v.me.(pc := LRunning, mutex := Closed))
  }

  ghost predicate DropStore(v: View, w: View) {
    v.me.pc.LDropStore? && w == v.(me := v.me.(pc := LRename, store := Closed))
  }

  ghost predicate DropMutex(v: View, w: View) {
    && v.me.pc.GDropMutex?
    && w == v.(me := v.me.(pc := GList, use := Closed), paths := v.paths.(mutex := v.paths.mutex - {v.me.pkg}))
  }

  // Deciding whether to extract, and recording the use.

  ghost predicate CheckDir(v: View, w: View) {
    v.me.pc.LCheckDir? && w == v.Goto(if v.me.pkg in v.disk.trees then LCheckReady else LOpenMutex)
  }

  ghost predicate CheckReady(v: View, w: View) {
    v.me.pc.LCheckReady? && w == v.Goto(if v.me.pkg in v.disk.ready then LTouchHit else LOpenMutex)
  }

  ghost predicate RecheckDir(v: View, w: View) {
    v.me.pc.LRecheckDir? && w == v.Goto(if v.me.pkg in v.disk.trees then LRecheckReady else LClearDir)
  }

  ghost predicate RecheckReady(v: View, w: View) {
    v.me.pc.LRecheckReady? && w == v.Goto(if v.me.pkg in v.disk.ready then LTouch else LClearDir)
  }

  ghost predicate Touch(v: View, w: View) {
    && (v.me.pc.LTouchHit? || v.me.pc.LTouch?)
    && w == v.Goto(if v.me.pc.LTouchHit? then LRunning else LUnlockMutex).(
         disk := v.disk.(meta := v.disk.meta + {v.me.pkg}))
  }

  ghost predicate DropMeta(v: View, w: View) {
    && v.me.pc.GDropMeta?
    && w == v.Goto(GDropMutex).(disk := v.disk.(meta := v.disk.meta - {v.me.pkg}))
  }

  // Clearing and publishing.

  /** Removing a directory tree: one entry at a time, then the directory. */
  ghost predicate Removal(before: map<PkgId, Tree>, p: PkgId, after: map<PkgId, Tree>, done: bool) {
    if p in before && before[p] != map[] then
      !done && exists x :: x in before[p] && after == before[p := before[p] - {x}]
    else
      done && after == before - {p}
  }

  ghost predicate RemoveTree(v: View, after: map<PkgId, Tree>, done: bool, w: View) {
    && (v.me.pc.LClearDir? || v.me.pc.GDropTree? || v.me.pc.LUndoDir?)
    && Removal(v.disk.trees, v.me.pkg, after, done)
    && w == v.Goto(
         if !done || v.me.pc.LUndoDir? then v.me.pc else if v.me.pc.LClearDir? then LClearReady else GDropMeta).(
         disk := v.disk.(trees := after))
  }

  ghost predicate RemoveTmp(v: View, after: map<PkgId, Tree>, done: bool, w: View) {
    && (v.me.pc.LClearTmp? || v.me.pc.LUndoTmp?)
    && Removal(v.disk.tmps, v.me.pkg, after, done)
    && w == v.Goto(if done && v.me.pc.LClearTmp? then LMakeTmp else v.me.pc).(disk := v.disk.(tmps := after))
  }

  ghost predicate DropReady(v: View, w: View) {
    && (v.me.pc.LClearReady? || v.me.pc.GDropReady?)
    && w == v.Goto(if v.me.pc.LClearReady? then LClearTmp else GDropTree).(
         disk := v.disk.(ready := v.disk.ready - {v.me.pkg}))
  }

  ghost predicate MakeTmp(v: View, w: View) {
    && v.me.pc.LMakeTmp?
    && w == v.Goto(LOpenStore).(disk := v.SetScratch(map[]))
  }

  ghost predicate Rename(v: View, w: View) {
    && v.me.pc.LRename?
    && var p := v.me.pkg;
       if p in v.disk.tmps && (p in v.disk.trees ==> v.disk.trees[p] == map[])
       then w == v.Goto(LMarkReady).(disk := v.disk.(trees := v.disk.trees[p := v.disk.tmps[p]],
         tmps := v.disk.tmps - {p}))
       else w == v.Goto(LUndoTmp)
  }

  ghost predicate MarkReady(v: View, w: View) {
    && v.me.pc.LMarkReady?
    && w == v.Goto(LTouch).(disk := v.disk.(ready := v.disk.ready + {v.me.pkg}))
  }

  /** An extraction error undoes the scratch tree, a failed marker the published one. */
  ghost predicate Fail(v: View, w: View) {
    && (Building(v.me.pc) || v.me.pc.LMarkReady?)
    && w == v.Goto(if v.me.pc.LMarkReady? then LUndoDir else LUndoTmp)
  }

  // `extract_to_cas`, one operation of the plan after another.

  ghost predicate Choose(v: View, w: View) {
    && v.Working() && v.me.pc.LBuild?
    && var at := v.me.pc.at;
       if at >= |v.plan| then w == v.Goto(LDropStore)
       else match v.Op()
         case MkDir(_) => false
         case Link(_, k) => w == v.Goto(if Verifies(v.disk, Blob(k), k) then LUnlinkOld(at) else LCreateTemp(at))
         case Symlink(_, _) => w == v.Goto(LUnlinkOld(at))
  }

  ghost predicate BuildDir(v: View, w: View) {
    && v.Working() && v.me.pc.LBuild? && v.me.pc.at < |v.plan| && v.Op().MkDir?
    && (v.Op().path in v.Scratch() ==> v.Scratch()[v.Op().path] == Dir)
    && w == v.Goto(LBuild(v.me.pc.at + 1)).(disk := v.SetScratch(v.Scratch()[v.Op().path := Dir]))
  }

  ghost predicate CreateTemp(v: View, i: Inode, w: View) {
    && v.me.pc.LCreateTemp? && v.AtLink()
    && (if v.TempName() in v.disk.blobs then i == v.disk.blobs[v.TempName()] else i !in v.disk.content)
    && w == v.Goto(LWriteTemp(v.me.pc.at)).(
         disk := v.disk.(blobs := v.disk.blobs[v.TempName() := i], content := v.disk.content[i := Partial]))
  }

  ghost predicate WriteTemp(v: View, w: View) {
    && v.me.pc.LWriteTemp? && v.AtLink() && v.TempName() in v.disk.blobs
    && w == v.Goto(LRenameTemp(v.me.pc.at)).(
         disk := v.disk.(content := v.disk.content[v.disk.blobs[v.TempName()] := Whole(v.Op().key)]))
  }

  ghost predicate RenameTemp(v: View, w: View) {
    && v.me.pc.LRenameTemp? && v.AtLink() && v.TempName() in v.disk.blobs
    && w == v.(
         me := v.me.(pc := LUnlinkOld(v.me.pc.at), temps := v.me.temps + 1),
         disk := v.disk.(blobs := (v.disk.blobs - {v.TempName()})[Blob(v.Op().key) := v.disk.blobs[v.TempName()]]))
  }

  ghost predicate UnlinkOld(v: View, w: View) {
    && v.Working() && v.me.pc.LUnlinkOld?
    && (v.Op().path in v.Scratch() ==> v.Scratch()[v.Op().path] != Dir)
    && w == v.Goto(LPlace(v.me.pc.at)).(disk := v.SetScratch(v.Scratch() - {v.Op().path}))
  }

  ghost predicate PlaceLink(v: View, w: View) {
    && v.Working() && v.me.pc.LPlace? && v.Op().Link? && Blob(v.Op().key) in v.disk.blobs
    && w == v.Goto(LBuild(v.me.pc.at + 1)).(
         disk := v.SetScratch(v.Scratch()[v.Op().path := File(v.disk.blobs[Blob(v.Op().key)])]))
  }

  ghost predicate PlaceSymlink(v: View, w: View) {
    && v.Working() && v.me.pc.LPlace? && v.Op().Symlink?
    && w == v.Goto(LBuild(v.me.pc.at + 1)).(
         disk := v.SetScratch(v.Scratch()[v.Op().path := Sym(v.Op().target)]))
  }

  // `collect_cas` over a list of the store.

  ghost predicate ListStore(v: View, w: View) {
    v.me.pc.CList? && w == v.Goto(CScan(v.disk.blobs.Keys))
  }

  /** A listed file with a link count of one is condemned; any other is spared. */
  ghost predicate Condemn(v: View, n: Name, w: View) {
    && v.me.pc.CScan? && n in v.me.pc.todo && n in v.disk.blobs && LinkCount(v.disk, v.disk.blobs[n]) <= 1
    && w == v.Goto(CRemove(n, v.me.pc.todo - {n}))
  }

  ghost predicate Spare(v: View, n: Name, w: View) {
    && v.me.pc.CScan? && n in v.me.pc.todo && !(n in v.disk.blobs && LinkCount(v.disk, v.disk.blobs[n]) <= 1)
    && w == v.Goto(CScan(v.me.pc.todo - {n}))
  }

  ghost predicate RemoveBlob(v: View, w: View) {
    && v.me.pc.CRemove?
    && w == v.Goto(CScan(v.me.pc.todo)).(disk := v.disk.(blobs := v.disk.blobs - {v.me.pc.name}))
  }

  ghost predicate OpeningAct(v: View, w: View) {
    OpenUse(v, w) || OpenMutex(v, w) || OpenStore(v, w) || OpenCollect(v, w) || OpenIdle(v, w)
  }

  ghost predicate ReleasingAct(v: View, w: View) {
    UnlockMutex(v, w) || DropStore(v, w) || DropMutex(v, w) || Touch(v, w) || DropMeta(v, w)
  }

  ghost predicate CheckingAct(v: View, w: View) {
    CheckDir(v, w) || CheckReady(v, w) || RecheckDir(v, w) || RecheckReady(v, w)
  }

  ghost predicate PublishingAct(v: View, w: View) {
    DropReady(v, w) || MakeTmp(v, w) || Rename(v, w) || MarkReady(v, w)
  }

  ghost predicate BuildingAct(v: View, w: View) {
    Fail(v, w) || Choose(v, w) || BuildDir(v, w) || UnlinkOld(v, w)
  }

  ghost predicate StoringAct(v: View, w: View) {
    WriteTemp(v, w) || RenameTemp(v, w) || PlaceLink(v, w) || PlaceSymlink(v, w)
  }

  ghost predicate ClearingAct(v: View, w: View) {
    || (exists after, done :: RemoveTree(v, after, done, w))
    || (exists after, done :: RemoveTmp(v, after, done, w))
    || (exists i :: CreateTemp(v, i, w))
  }

  ghost predicate CollectingAct(v: View, w: View) {
    ListStore(v, w) || RemoveBlob(v, w) || (exists n :: Condemn(v, n, w)) || (exists n :: Spare(v, n, w))
  }

  /** One file-system action of an actor, or the opening or closing of a lock file. */
  ghost predicate Act(v: View, w: View) {
    || OpeningAct(v, w) || ReleasingAct(v, w) || CheckingAct(v, w) || PublishingAct(v, w)
    || BuildingAct(v, w) || StoringAct(v, w) || ClearingAct(v, w) || CollectingAct(v, w)
  }

  // ---- what one actor relies on ------------------------------------------------------

  /** Each descriptor is on the inode its path names now, so two of them meet. */
  ghost predicate DescriptorsOk(paths: Paths, me: Proc) {
    && (me.use != Closed ==> me.pkg in paths.use && me.use.inode == paths.use[me.pkg])
    && (me.mutex != Closed ==> me.pkg in paths.mutex && me.mutex.inode == paths.mutex[me.pkg])
    && (me.store != Closed ==> paths.store == Some(me.store.inode))
    && (me.pc.GOpen? ==> me.pkg in paths.use)
  }

  /** The locks an actor holds, by where it is. */
  ghost predicate HoldsWhatItShould(me: Proc) {
    && (InUse(me.pc) ==> me.use.Shared?)
    && (Dropping(me.pc) ==> me.use.Exclusive?)
    && (me.pc.LOpen? || me.pc.GList? || me.pc.GOpen? ==> me.use == Closed)
    && (UnderMutex(me.pc) ==> me.mutex.Exclusive?)
    && (me.mutex != Closed ==> InUse(me.pc))
    && (Storing(me.pc) ==> me.store.Shared?)
    && (Collecting(me.pc) ==> me.store.Exclusive?)
  }

  /** The scratch tree is what the first `at` operations leave, except perhaps where the next one works. */
  ghost predicate Built(plan: seq<Op>, disk: Disk, p: PkgId, at: nat, hole: bool) {
    && p in disk.tmps && at <= |plan| && (hole ==> at < |plan|)
    && Matches(disk.content, disk.tmps[p], Outcome(plan[..at]), if hole then Some(plan[at].path) else None)
  }

  /** What an actor relies on about its package's marker and trees. */
  ghost predicate PackageRelies(plan: seq<Op>, disk: Disk, me: Proc) {
    var p := me.pkg;
    && (Decided(me.pc) ==> p in disk.ready)
    && (Extracting(me.pc) ==> p !in disk.ready)
    && (Clean(me.pc) ==> p !in disk.trees)
    && (me.pc.LMakeTmp? ==> p !in disk.tmps)
    && (me.pc.LMarkReady? ==> Complete(plan, disk, p))
    && (me.pc.LOpenStore? || me.pc.LLockStore? ==> Built(plan, disk, p, 0, false))
    && (me.pc.LDropStore? || me.pc.LRename? ==> Built(plan, disk, p, |plan|, false))
    && (Building(me.pc) ==> Built(plan, disk, p, me.pc.at, me.pc.LPlace?))
    && (Building(me.pc) && !me.pc.LBuild? ==> me.pc.at < |plan| && !plan[me.pc.at].MkDir?)
    && (me.pc.LCreateTemp? || me.pc.LWriteTemp? || me.pc.LRenameTemp? ==> plan[me.pc.at].Link?)
    && (me.pc.GDropTree? || me.pc.GDropMeta? || me.pc.GDropMutex? ==> p !in disk.ready)
    && (me.pc.GDropMeta? || me.pc.GDropMutex? ==> p !in disk.trees)
  }

  /** What a writer of the store relies on about its scratch file and its blob. */
  ghost predicate StoreRelies(plan: seq<Op>, disk: Disk, q: Pid, me: Proc) {
    Building(me.pc) && me.pc.at < |plan| && plan[me.pc.at].Link? ==>
      var k := plan[me.pc.at].key;
      && (me.pc.LWriteTemp? ==> Temp(k, q, me.temps) in disk.blobs)
      && (me.pc.LRenameTemp? ==> Verifies(disk, Temp(k, q, me.temps), k))
      && (me.pc.LUnlinkOld? || me.pc.LPlace? ==> Blob(k) in disk.blobs)
  }

  /** What a store collector relies on about the files it has still to visit, or is about to remove. */
  ghost predicate CollectRelies(disk: Disk, me: Proc) {
    && (me.pc.CScan? || me.pc.CRemove? ==> me.pc.todo <= disk.blobs.Keys)
    && (me.pc.CRemove? ==>
          me.pc.name !in me.pc.todo && me.pc.name in disk.blobs && !Carried(disk, disk.blobs[me.pc.name]))
  }

  /** Each name in the store is an inode of its own, a blob's bytes are its own, a scratch file is in no tree. */
  ghost predicate StoreOk(disk: Disk) {
    && (forall k :: Blob(k) in disk.blobs ==> Verifies(disk, Blob(k), k))
    && (forall n, m :: n in disk.blobs && m in disk.blobs && disk.blobs[n] == disk.blobs[m] ==> n == m)
    && (forall n :: n in disk.blobs && n.Temp? ==> !Carried(disk, disk.blobs[n]))
    && (forall n :: n in disk.blobs ==> disk.blobs[n] in disk.content)
  }

  /** What a tree carries is a finished blob. */
  ghost predicate TreesOk(disk: Disk) {
    forall i :: Carried(disk, i) ==> i in disk.content && disk.content[i].Whole?
  }

  ghost predicate MineOk(v: View) {
    && DescriptorsOk(v.paths, v.me) && HoldsWhatItShould(v.me) && PackageRelies(v.plan, v.disk, v.me)
    && StoreRelies(v.plan, v.disk, v.q, v.me) && CollectRelies(v.disk, v.me)
  }

  ghost predicate FilesOk(v: View) {
    && v.disk.meta <= v.paths.use.Keys
    && (v.me.pkg in v.disk.ready ==> Complete(v.plan, v.disk, v.me.pkg))
    && StoreOk(v.disk) && TreesOk(v.disk)
  }

  // ---- what one actor guarantees to the others -----------------------------------------

  ghost predicate SamePackage(d: Disk, e: Disk, p: PkgId) {
    && (p in d.ready <==> p in e.ready)
    && (p in d.trees <==> p in e.trees) && (p in d.trees ==> d.trees[p] == e.trees[p])
    && (p in d.tmps <==> p in e.tmps) && (p in d.tmps ==> d.tmps[p] == e.tmps[p])
  }

  /** Lock files stay what they are; only a package collector unlinks its package's mutex. */
  ghost predicate KeepsPaths(v: View, w: View) {
    && (forall p :: p in v.paths.use ==> p in w.paths.use && w.paths.use[p] == v.paths.use[p])
    && (forall p :: p in v.paths.mutex && !(p == v.me.pkg && Dropping(v.me.pc)) ==>
          p in w.paths.mutex && w.paths.mutex[p] == v.paths.mutex[p])
    && (v.paths.store.Some? ==> w.paths.store == v.paths.store)
  }

  /** Only an extraction or a removal of a package touches its marker or its trees. */
  ghost predicate KeepsPackages(v: View, w: View) {
    forall p :: !(p == v.me.pkg && (Extracting(v.me.pc) || Dropping(v.me.pc))) ==> SamePackage(v.disk, w.disk, p)
  }

  /** Bytes a tree carries never change, and the store changes only under its lock. */
  ghost predicate KeepsStore(v: View, w: View) {
    && (forall i :: i in v.disk.content && Carried(v.disk, i) ==>
          i in w.disk.content && w.disk.content[i] == v.disk.content[i])
    && (Storing(v.me.pc) ==>
          && (forall k :: Blob(k) in v.disk.blobs ==> Blob(k) in w.disk.blobs)
          && (forall k, r, m :: r != v.q && Temp(k, r, m) in v.disk.blobs ==>
                Temp(k, r, m) in w.disk.blobs &&
                  (Verifies(v.disk, Temp(k, r, m), k) ==> Verifies(w.disk, Temp(k, r, m), k))))
    && (!Storing(v.me.pc) ==>
          && (Collecting(v.me.pc) || w.disk.blobs == v.disk.blobs)
          && w.disk.content == v.disk.content
          && forall i :: Carried(w.disk, i) ==> Carried(v.disk, i))
  }

  ghost predicate Guarantees(v: View, w: View) {
    && w.q == v.q && w.plan == v.plan && w.me.pkg == v.me.pkg
    && Weaker(w.me.use, v.me.use) && Weaker(w.me.mutex, v.me.mutex) && Weaker(w.me.store, v.me.store)
    && KeepsPaths(v, w) && KeepsPackages(v, w) && KeepsStore(v, w)
  }

  /** No lock that was not held before. */
  ghost predicate Weaker(now: Descriptor, before: Descriptor) { now == before || now.Closed? || now.Opened? }

  ghost predicate HoldsExclusive(p: Proc, i: Inode) {
    p.use == Exclusive(i) || p.mutex == Exclusive(i) || p.store == Exclusive(i)
  }

  ghost predicate Holds(p: Proc, i: Inode) {
    HoldsExclusive(p, i) || p.use == Shared(i) || p.mutex == Shared(i) || p.store == Shared(i)
  }

  ghost predicate Sound(v: View) { MineOk(v) && FilesOk(v) }

  // ---- each act keeps its own ground and the files sound, and guarantees the rest ------

  lemma OutcomeStep(plan: seq<Op>, at: nat)
    requires at < |plan|
    ensures Outcome(plan[..at + 1]) == Outcome(plan[..at])[plan[at].path := Wanted(plan[at])]
  {
    assert plan[..at + 1][..at] == plan[..at];
  }

  /** A link from a tree counts beside the one from the store. */
  lemma CarriedIsCounted(disk: Disk, n: Name)
    requires n in disk.blobs && Carried(disk, disk.blobs[n])
    ensures LinkCount(disk, disk.blobs[n]) >= 2
  {
    var i := disk.blobs[n];
    var other: DirEntry;
    if CarriedBy(disk.trees, i) {
      var p, x :| p in disk.trees && x in disk.trees[p] && disk.trees[p][x] == File(i);
      other := InTree(p, x);
    } else {
      var p, x :| p in disk.tmps && x in disk.tmps[p] && disk.tmps[p][x] == File(i);
      other := InTmp(p, x);
    }
    assert {InStore(n), other} <= Links(disk, i);
    SubsetSize({InStore(n), other}, Links(disk, i));
  }

  lemma {:induction false} SubsetSize<T>(a: set<T>, b: set<T>)
    requires a <= b
    ensures |a| <= |b|
  {
    if x :| x in a { SubsetSize(a - {x}, b - {x}); }
  }

  lemma OpenGuarantees(v: View, w: View)
    requires Sound(v) && (OpenUse(v, w) || OpenMutex(v, w))
    ensures Guarantees(v, w)
  {
  }

  lemma FindGuarantees(v: View, w: View)
    requires Sound(v) && (OpenStore(v, w) || OpenCollect(v, w) || OpenIdle(v, w) || DropMutex(v, w))
    ensures Guarantees(v, w)
  {
  }

  lemma UnlockGuarantees(v: View, w: View)
    requires Sound(v) && (UnlockMutex(v, w) || DropStore(v, w))
    ensures Guarantees(v, w)
  {
  }

  lemma CheckGuarantees(v: View, w: View)
    requires Sound(v) && (CheckDir(v, w) || CheckReady(v, w) || RecheckDir(v, w) || RecheckReady(v, w))
    ensures Guarantees(v, w)
  {
  }

  lemma RecordGuarantees(v: View, w: View)
    requires Sound(v) && (Touch(v, w) || DropMeta(v, w) || DropReady(v, w) || MarkReady(v, w))
    ensures Guarantees(v, w)
  {
  }

  lemma PublishGuarantees(v: View, w: View)
    requires Sound(v) && (MakeTmp(v, w) || Rename(v, w))
    ensures Guarantees(v, w)
  {
  }

  lemma ChooseGuarantees(v: View, w: View)
    requires Sound(v) && (Fail(v, w) || Choose(v, w))
    ensures Guarantees(v, w)
  {
  }

  lemma BuildGuarantees(v: View, w: View)
    requires Sound(v) && (BuildDir(v, w) || UnlinkOld(v, w))
    ensures Guarantees(v, w)
  {
  }

  lemma WriteTempGuarantees(v: View, w: View)
    requires Sound(v) && WriteTemp(v, w)
    ensures Guarantees(v, w)
  {
  }

  lemma RenameTempGuarantees(v: View, w: View)
    requires Sound(v) && RenameTemp(v, w)
    ensures Guarantees(v, w)
  {
  }

  lemma PlaceGuarantees(v: View, w: View)
    requires Sound(v) && (PlaceLink(v, w) || PlaceSymlink(v, w))
    ensures Guarantees(v, w)
  {
  }

  lemma CollectGuarantees(v: View, w: View)
    requires Sound(v) && (ListStore(v, w) || RemoveBlob(v, w))
    ensures Guarantees(v, w)
  {
  }

  lemma OpenUseSound(v: View, w: View)
    requires Sound(v) && OpenUse(v, w)
    ensures Sound(w)
  {
  }

  lemma OpenMutexSound(v: View, w: View)
    requires Sound(v) && OpenMutex(v, w)
    ensures Sound(w)
  {
  }

  lemma OpenStoreSound(v: View, w: View)
    requires Sound(v) && OpenStore(v, w)
    ensures Sound(w)
  {
  }

  lemma OpenCollectSound(v: View, w: View)
    requires Sound(v) && OpenCollect(v, w)
    ensures Sound(w)
  {
  }

  lemma OpenIdleSound(v: View, w: View)
    requires Sound(v) && OpenIdle(v, w)
    ensures Sound(w)
  {
  }

  lemma UnlockMutexSound(v: View, w: View)
    requires Sound(v) && UnlockMutex(v, w)
    ensures Sound(w)
  {
  }

  lemma DropStoreSound(v: View, w: View)
    requires Sound(v) && DropStore(v, w)
    ensures Sound(w)
  {
  }

  lemma DropMutexSound(v: View, w: View)
    requires Sound(v) && DropMutex(v, w)
    ensures Sound(w)
  {
  }

  lemma CheckDirSound(v: View, w: View)
    requires Sound(v) && CheckDir(v, w)
    ensures Sound(w)
  {
  }

  lemma CheckReadySound(v: View, w: View)
    requires Sound(v) && CheckReady(v, w)
    ensures Sound(w)
  {
  }

  lemma RecheckDirSound(v: View, w: View)
    requires Sound(v) && RecheckDir(v, w)
    ensures Sound(w)
  {
  }

  lemma RecheckReadySound(v: View, w: View)
    requires Sound(v) && RecheckReady(v, w)
    ensures Sound(w)
  {
  }

  lemma TouchMine(v: View, w: View)
    requires Sound(v) && Touch(v, w)
    ensures MineOk(w)
  {
  }

  lemma TouchFiles(v: View, w: View)
    requires Sound(v) && Touch(v, w)
    ensures FilesOk(w)
  {
  }

  lemma DropMetaSound(v: View, w: View)
    requires Sound(v) && DropMeta(v, w)
    ensures Sound(w)
  {
  }

  lemma DropReadySound(v: View, w: View)
    requires Sound(v) && DropReady(v, w)
    ensures Sound(w)
  {
  }

  lemma MakeTmpSound(v: View, w: View)
    requires Sound(v) && MakeTmp(v, w)
    ensures Sound(w)
  {
  }

  lemma RenameMine(v: View, w: View)
    requires Sound(v) && Rename(v, w)
    ensures MineOk(w)
  {
    assert v.plan[..|v.plan|] == v.plan;
  }

  lemma RenameFiles(v: View, w: View)
    requires Sound(v) && Rename(v, w)
    ensures FilesOk(w)
  {
    assert v.plan[..|v.plan|] == v.plan;
  }

  lemma MarkReadySound(v: View, w: View)
    requires Sound(v) && MarkReady(v, w)
    ensures Sound(w)
  {
  }

  lemma FailSound(v: View, w: View)
    requires Sound(v) && Fail(v, w)
    ensures Sound(w)
  {
  }

  lemma ChooseSound(v: View, w: View)
    requires Sound(v) && Choose(v, w)
    ensures Sound(w)
  {
  }

  lemma BuildDirMine(v: View, w: View)
    requires Sound(v) && BuildDir(v, w)
    ensures MineOk(w)
  {
    OutcomeStep(v.plan, v.me.pc.at);
  }

  lemma BuildDirFiles(v: View, w: View)
    requires Sound(v) && BuildDir(v, w)
    ensures FilesOk(w)
  {
  }

  lemma WriteTempMine(v: View, w: View)
    requires Sound(v) && WriteTemp(v, w)
    ensures MineOk(w)
  {
  }

  lemma WriteTempFiles(v: View, w: View)
    requires Sound(v) && WriteTemp(v, w)
    ensures FilesOk(w)
  {
  }

  lemma RenameTempSound(v: View, w: View)
    requires Sound(v) && RenameTemp(v, w)
    ensures Sound(w)
  {
  }

  lemma UnlinkOldSound(v: View, w: View)
    requires Sound(v) && UnlinkOld(v, w)
    ensures Sound(w)
  {
  }

  lemma PlaceLinkMine(v: View, w: View)
    requires Sound(v) && PlaceLink(v, w)
    ensures MineOk(w)
  {
    OutcomeStep(v.plan, v.me.pc.at);
  }

  lemma PlaceLinkFiles(v: View, w: View)
    requires Sound(v) && PlaceLink(v, w)
    ensures FilesOk(w)
  {
  }

  lemma PlaceSymlinkMine(v: View, w: View)
    requires Sound(v) && PlaceSymlink(v, w)
    ensures MineOk(w)
  {
    OutcomeStep(v.plan, v.me.pc.at);
  }

  lemma PlaceSymlinkFiles(v: View, w: View)
    requires Sound(v) && PlaceSymlink(v, w)
    ensures FilesOk(w)
  {
  }

  lemma ListStoreSound(v: View, w: View)
    requires Sound(v) && ListStore(v, w)
    ensures Sound(w)
  {
  }

  lemma RemoveBlobMine(v: View, w: View)
    requires Sound(v) && RemoveBlob(v, w)
    ensures MineOk(w)
  {
  }

  lemma RemoveBlobFiles(v: View, w: View)
    requires Sound(v) && RemoveBlob(v, w)
    ensures FilesOk(w)
  {
  }

  lemma CreateTempGuarantees(v: View, i: Inode, w: View)
    requires Sound(v) && CreateTemp(v, i, w)
    ensures Guarantees(v, w)
  {
  }

  lemma CreateTempMine(v: View, i: Inode, w: View)
    requires Sound(v) && CreateTemp(v, i, w)
    ensures MineOk(w)
  {
  }

  lemma CreateTempFiles(v: View, i: Inode, w: View)
    requires Sound(v) && CreateTemp(v, i, w)
    ensures FilesOk(w)
  {
  }

  /** In a sound store a name's link count is one exactly when no tree carries its inode. */
  lemma CountOneIsUnlinked(disk: Disk, n: Name)
    requires StoreOk(disk) && n in disk.blobs
    ensures LinkCount(disk, disk.blobs[n]) <= 1 <==> !Carried(disk, disk.blobs[n])
  {
    if Carried(disk, disk.blobs[n]) {
      CarriedIsCounted(disk, n);
    } else {
      assert Links(disk, disk.blobs[n]) == {InStore(n)};
    }
  }

  /** One file of a scan: left alone, or condemned when no tree carries it. */
  ghost predicate Visits(v: View, n: Name, w: View) {
    && v.me.pc.CScan? && n in v.me.pc.todo
    && (((n in v.disk.blobs ==> Carried(v.disk, v.disk.blobs[n])) && w == v.Goto(CScan(v.me.pc.todo - {n})))
        || (n in v.disk.blobs && !Carried(v.disk, v.disk.blobs[n]) && w == v.Goto(CRemove(n, v.me.pc.todo - {n}))))
  }

  lemma InspectionVisits(v: View, n: Name, w: View)
    requires StoreOk(v.disk) && (Condemn(v, n, w) || Spare(v, n, w))
    ensures Visits(v, n, w)
  {
    if n in v.disk.blobs { CountOneIsUnlinked(v.disk, n); }
  }

  lemma VisitGuarantees(v: View, n: Name, w: View)
    requires Sound(v) && Visits(v, n, w)
    ensures Guarantees(v, w)
  {
  }

  lemma SparedSound(v: View, n: Name, w: View)
    requires Sound(v) && v.me.pc.CScan? && w == v.Goto(CScan(v.me.pc.todo - {n}))
    ensures Sound(w)
  {
  }

  lemma CondemnedSound(v: View, n: Name, w: View)
    requires Sound(v) && v.me.pc.CScan? && n in v.disk.blobs && !Carried(v.disk, v.disk.blobs[n])
    requires w == v.Goto(CRemove(n, v.me.pc.todo - {n}))
    ensures Sound(w)
  {
  }

  lemma VisitSound(v: View, n: Name, w: View)
    requires Sound(v) && Visits(v, n, w)
    ensures Sound(w)
  {
    if w.me.pc.CScan? { SparedSound(v, n, w); } else { CondemnedSound(v, n, w); }
  }

  lemma RemoveTreeGuarantees(v: View, after: map<PkgId, Tree>, done: bool, w: View)
    requires Sound(v) && RemoveTree(v, after, done, w)
    ensures Guarantees(v, w)
  {
  }

  lemma RemoveTreeMine(v: View, after: map<PkgId, Tree>, done: bool, w: View)
    requires Sound(v) && RemoveTree(v, after, done, w)
    ensures MineOk(w)
  {
  }

  lemma RemoveTreeFiles(v: View, after: map<PkgId, Tree>, done: bool, w: View)
    requires Sound(v) && RemoveTree(v, after, done, w)
    ensures FilesOk(w)
  {
  }

  lemma RemoveTmpGuarantees(v: View, after: map<PkgId, Tree>, done: bool, w: View)
    requires Sound(v) && RemoveTmp(v, after, done, w)
    ensures Guarantees(v, w)
  {
  }

  lemma RemoveTmpSound(v: View, after: map<PkgId, Tree>, done: bool, w: View)
    requires Sound(v) && RemoveTmp(v, after, done, w)
    ensures Sound(w)
  {
  }


  lemma OpeningActSound(v: View, w: View)
    requires Sound(v) && OpeningAct(v, w)
    ensures Sound(w) && Guarantees(v, w)
  {
    if OpenUse(v, w) { OpenUseSound(v, w); OpenGuarantees(v, w); }
    else if OpenMutex(v, w) { OpenMutexSound(v, w); OpenGuarantees(v, w); }
    else if OpenStore(v, w) { OpenStoreSound(v, w); FindGuarantees(v, w); }
    else if OpenCollect(v, w) { OpenCollectSound(v, w); FindGuarantees(v, w); }
    else { OpenIdleSound(v, w); FindGuarantees(v, w); }
  }

  lemma ReleasingActSound(v: View, w: View)
    requires Sound(v) && ReleasingAct(v, w)
    ensures Sound(w) && Guarantees(v, w)
  {
    if UnlockMutex(v, w) { UnlockMutexSound(v, w); UnlockGuarantees(v, w); }
    else if DropStore(v, w) { DropStoreSound(v, w); UnlockGuarantees(v, w); }
    else if DropMutex(v, w) { DropMutexSound(v, w); FindGuarantees(v, w); }
    else if Touch(v, w) { TouchMine(v, w); TouchFiles(v, w); RecordGuarantees(v, w); }
    else { DropMetaSound(v, w); RecordGuarantees(v, w); }
  }

  lemma CheckingActSound(v: View, w: View)
    requires Sound(v) && CheckingAct(v, w)
    ensures Sound(w) && Guarantees(v, w)
  {
    if CheckDir(v, w) { CheckDirSound(v, w); CheckGuarantees(v, w); }
    else if CheckReady(v, w) { CheckReadySound(v, w); CheckGuarantees(v, w); }
    else if RecheckDir(v, w) { RecheckDirSound(v, w); CheckGuarantees(v, w); }
    else { RecheckReadySound(v, w); CheckGuarantees(v, w); }
  }

  lemma PublishingActSound(v: View, w: View)
    requires Sound(v) && PublishingAct(v, w)
    ensures Sound(w) && Guarantees(v, w)
  {
    if DropReady(v, w) { DropReadySound(v, w); RecordGuarantees(v, w); }
    else if MakeTmp(v, w) { MakeTmpSound(v, w); PublishGuarantees(v, w); }
    else if Rename(v, w) { RenameMine(v, w); RenameFiles(v, w); PublishGuarantees(v, w); }
    else { MarkReadySound(v, w); RecordGuarantees(v, w); }
  }

  lemma BuildingActSound(v: View, w: View)
    requires Sound(v) && BuildingAct(v, w)
    ensures Sound(w) && Guarantees(v, w)
  {
    if Fail(v, w) { FailSound(v, w); ChooseGuarantees(v, w); }
    else if Choose(v, w) { ChooseSound(v, w); ChooseGuarantees(v, w); }
    else if BuildDir(v, w) { BuildDirMine(v, w); BuildDirFiles(v, w); BuildGuarantees(v, w); }
    else { UnlinkOldSound(v, w); BuildGuarantees(v, w); }
  }

  lemma StoringActSound(v: View, w: View)
    requires Sound(v) && StoringAct(v, w)
    ensures Sound(w) && Guarantees(v, w)
  {
    if WriteTemp(v, w) { WriteTempMine(v, w); WriteTempFiles(v, w); WriteTempGuarantees(v, w); }
    else if RenameTemp(v, w) { RenameTempSound(v, w); RenameTempGuarantees(v, w); }
    else if PlaceLink(v, w) { PlaceLinkMine(v, w); PlaceLinkFiles(v, w); PlaceGuarantees(v, w); }
    else { PlaceSymlinkMine(v, w); PlaceSymlinkFiles(v, w); PlaceGuarantees(v, w); }
  }

  lemma ClearingActSound(v: View, w: View)
    requires Sound(v) && ClearingAct(v, w)
    ensures Sound(w) && Guarantees(v, w)
  {
    if after, done :| RemoveTree(v, after, done, w) {
      RemoveTreeMine(v, after, done, w); RemoveTreeFiles(v, after, done, w); RemoveTreeGuarantees(v, after, done, w);
    } else if after, done :| RemoveTmp(v, after, done, w) {
      RemoveTmpSound(v, after, done, w); RemoveTmpGuarantees(v, after, done, w);
    } else {
      var i :| CreateTemp(v, i, w);
      CreateTempMine(v, i, w); CreateTempFiles(v, i, w); CreateTempGuarantees(v, i, w);
    }
  }

  lemma CollectingActSound(v: View, w: View)
    requires Sound(v) && CollectingAct(v, w)
    ensures Sound(w) && Guarantees(v, w)
  {
    if ListStore(v, w) { ListStoreSound(v, w); CollectGuarantees(v, w); }
    else if RemoveBlob(v, w) { RemoveBlobMine(v, w); RemoveBlobFiles(v, w); CollectGuarantees(v, w); }
    else {
      var n :| Condemn(v, n, w) || Spare(v, n, w);
      InspectionVisits(v, n, w); VisitSound(v, n, w); VisitGuarantees(v, n, w);
    }
  }

  lemma ActSound(v: View, w: View)
    requires Sound(v) && Act(v, w)
    ensures Sound(w) && Guarantees(v, w)
  {
    if OpeningAct(v, w) { OpeningActSound(v, w); }
    else if ReleasingAct(v, w) { ReleasingActSound(v, w); }
    else if CheckingAct(v, w) { CheckingActSound(v, w); }
    else if PublishingAct(v, w) { PublishingActSound(v, w); }
    else if BuildingAct(v, w) { BuildingActSound(v, w); }
    else if StoringAct(v, w) { StoringActSound(v, w); }
    else if ClearingAct(v, w) { ClearingActSound(v, w); }
    else { CollectingActSound(v, w); }
  }

  // ---- all actors together ---------------------------------------------------------------

  datatype State = State(plans: Plans, procs: map<Pid, Proc>, paths: Paths, disk: Disk)

  ghost function ViewOf(s: State, q: Pid): View
    requires q in s.procs
  {
    View(q, s.plans(s.procs[q].pkg), s.procs[q], s.paths, s.disk)
  }

  ghost function Become(s: State, q: Pid, me: Proc): State { s.(procs := s.procs[q := me]) }

  ghost predicate ActStep(s: State, q: Pid, s': State) {
    && q in s.procs
    && exists w: View :: Act(ViewOf(s, q), w) && s' == Become(s, q, w.me).(paths := w.paths, disk := w.disk)
  }

  // `flock` waits, or fails at once, for as long as another descriptor stands in the way.

  ghost predicate MayShare(s: State, q: Pid, i: Inode) {
    forall r :: r in s.procs && r != q ==> !HoldsExclusive(s.procs[r], i)
  }

  ghost predicate MayExclude(s: State, q: Pid, i: Inode) {
    forall r :: r in s.procs && r != q ==> !Holds(s.procs[r], i)
  }

  /** What a descriptor change does to its actor: a launch waits, a collector gives up. */
  ghost predicate Locks(s: State, q: Pid, me: Proc, s': State) {
    || (me.pc.LLock? && me.use.Opened? && MayShare(s, q, me.use.inode)
        && s' == Become(s, q, me.(pc := LCheckDir, use := Shared(me.use.inode))))
    || (me.pc.LLockMutex? && me.mutex.Opened? && MayExclude(s, q, me.mutex.inode)
        && s' == Become(s, q, me.(pc := LRecheckDir, mutex := Exclusive(me.mutex.inode))))
    || (me.pc.LLockStore? && me.store.Opened? && MayShare(s, q, me.store.inode)
        && s' == Become(s, q, me.(pc := LBuild(0), store := Shared(me.store.inode))))
  }

  ghost predicate TriesUse(s: State, q: Pid, me: Proc, s': State) {
    && me.pc.GLock? && me.use.Opened?
    && s' == if MayExclude(s, q, me.use.inode)
             then Become(s, q, me.(pc := GDropReady, use := Exclusive(me.use.inode)))
             else Become(s, q, me.(pc := GList, use := Closed))
  }

  ghost predicate TriesStore(s: State, q: Pid, me: Proc, s': State) {
    && me.pc.CLock? && me.store.Opened? && MayExclude(s, q, me.store.inode)
    && s' == Become(s, q, me.(pc := CList, store := Exclusive(me.store.inode)))
  }

  ghost predicate LockStep(s: State, q: Pid, s': State) {
    q in s.procs && (Locks(s, q, s.procs[q], s') || TriesUse(s, q, s.procs[q], s') || TriesStore(s, q, s.procs[q], s'))
  }

  /** `auto_gc` takes up another recorded package. */
  ghost predicate PickStep(s: State, q: Pid, s': State) {
    && q in s.procs && s.procs[q].pc.GList?
    && exists p :: p in s.disk.meta && s' == Become(s, q, s.procs[q].(pc := GOpen, pkg := p))
  }

  /** A new launch, package collection or store collection. A dead process's id may return. */
  ghost predicate StartStep(s: State, q: Pid, s': State) {
    && q !in s.procs
    && exists p: PkgId, pc: PC ::
         && (pc == LOpen || pc == GList || pc == COpen)
         && s' == Become(s, q, Proc(p, pc, Closed, Closed, Closed, 0))
  }

  /** A crash, an early error return or an exit, after any step: every lock of the process is dropped. */
  ghost predicate DieStep(s: State, q: Pid, s': State) {
    && q in s.procs
    && s' == s.(procs := s.procs - {q})
  }

  ghost predicate StepOf(s: State, q: Pid, s': State) {
    ActStep(s, q, s') || LockStep(s, q, s') || PickStep(s, q, s') || StartStep(s, q, s') || DieStep(s, q, s')
  }

  ghost predicate LocksOk(procs: map<Pid, Proc>) {
    forall q, r, i :: q in procs && r in procs && q != r && HoldsExclusive(procs[q], i) ==> !Holds(procs[r], i)
  }

  ghost predicate ProcOk(s: State, q: Pid) { q in s.procs ==> MineOk(ViewOf(s, q)) }

  ghost predicate DiskOk(s: State) {
    && s.disk.meta <= s.paths.use.Keys
    && (forall p :: p in s.disk.ready ==> Complete(s.plans(p), s.disk, p))
    && StoreOk(s.disk) && TreesOk(s.disk)
  }

  ghost predicate Inv(s: State) {
    LocksOk(s.procs) && DiskOk(s) && forall q :: ProcOk(s, q)
  }

  // ---- flock keeps two actors apart -------------------------------------------------------

  ghost predicate OthersStay(s: State, q: Pid, s': State) {
    && s'.plans == s.plans
    && (forall r :: r in s.procs && r != q ==> r in s'.procs && s'.procs[r] == s.procs[r])
    && (forall r :: r in s'.procs && r != q ==> r in s.procs)
  }

  lemma LocksKept(s: State, q: Pid, s': State)
    requires LocksOk(s.procs) && OthersStay(s, q, s')
    requires q in s'.procs ==> forall i ::
      && (Holds(s'.procs[q], i) ==> (q in s.procs && Holds(s.procs[q], i)) || MayShare(s, q, i))
      && (HoldsExclusive(s'.procs[q], i) ==> (q in s.procs && HoldsExclusive(s.procs[q], i)) || MayExclude(s, q, i))
    ensures LocksOk(s'.procs)
  {
  }

  /** What the protocol's locks rule out between two actors. */
  ghost predicate Apart(a: Proc, b: Proc) {
    && (a.pkg == b.pkg && Dropping(a.pc) ==> !InUse(b.pc) && !Dropping(b.pc))
    && (a.pkg == b.pkg && UnderMutex(a.pc) ==> !UnderMutex(b.pc) && !Dropping(b.pc))
    && (Collecting(a.pc) ==> !Storing(b.pc) && !Collecting(b.pc))
    && (Storing(a.pc) ==> !Collecting(b.pc))
  }

  lemma LocksKeepApart(s: State, q: Pid, r: Pid)
    requires LocksOk(s.procs) && q in s.procs && r in s.procs && q != r
    requires DescriptorsOk(s.paths, s.procs[q]) && HoldsWhatItShould(s.procs[q])
    requires DescriptorsOk(s.paths, s.procs[r]) && HoldsWhatItShould(s.procs[r])
    ensures Apart(s.procs[q], s.procs[r])
  {
    var a, b := s.procs[q], s.procs[r];
    if a.pkg == b.pkg && Dropping(a.pc) { assert HoldsExclusive(a, s.paths.use[a.pkg]); }
    if a.pkg == b.pkg && Dropping(b.pc) { assert HoldsExclusive(b, s.paths.use[a.pkg]); }
    if a.pkg == b.pkg && UnderMutex(a.pc) { assert HoldsExclusive(a, s.paths.mutex[a.pkg]); }
    if Collecting(a.pc) { assert HoldsExclusive(a, s.paths.store.value); }
    if Collecting(b.pc) { assert HoldsExclusive(b, s.paths.store.value); }
  }

  // ---- what the others relied on still holds ------------------------------------------------

  /** An actor `b` keeps its ground when an actor `v.me` apart from it acts. */
  lemma OtherDescriptors(v: View, w: View, b: Proc)
    requires Guarantees(v, w) && DescriptorsOk(v.paths, b) && HoldsWhatItShould(b) && Apart(v.me, b)
    ensures DescriptorsOk(w.paths, b)
  {
  }

  /** A tree keeps matching as long as the bytes that trees carry stay. */
  lemma MatchesKept(d: Disk, e: Disk, trees: map<PkgId, Tree>, p: PkgId, want: map<Path, Want>, hole: Option<Path>)
    requires p in trees && (trees == d.trees || trees == d.tmps)
    requires forall i :: i in d.content && Carried(d, i) ==> i in e.content && e.content[i] == d.content[i]
    requires Matches(d.content, trees[p], want, hole)
    ensures Matches(e.content, trees[p], want, hole)
  {
    forall x | Some(x) != hole && x in trees[p] && trees[p][x].File?
      ensures NodeIs(e.content, trees[p][x], want[x])
    {
      assert CarriedBy(trees, trees[p][x].inode);
    }
  }

  lemma BuiltKept(v: View, w: View, plan: seq<Op>, p: PkgId, at: nat, hole: bool)
    requires Guarantees(v, w) && SamePackage(v.disk, w.disk, p) && Built(plan, v.disk, p, at, hole)
    ensures Built(plan, w.disk, p, at, hole)
  {
    MatchesKept(v.disk, w.disk, v.disk.tmps, p, Outcome(plan[..at]), if hole then Some(plan[at].path) else None);
  }

  lemma CompleteKept(v: View, w: View, plan: seq<Op>, p: PkgId)
    requires Guarantees(v, w) && SamePackage(v.disk, w.disk, p) && Complete(plan, v.disk, p)
    ensures Complete(plan, w.disk, p)
  {
    MatchesKept(v.disk, w.disk, v.disk.trees, p, Outcome(plan), None);
  }

  lemma OtherPackage(v: View, w: View, plan: seq<Op>, b: Proc)
    requires Guarantees(v, w) && PackageRelies(v.plan, v.disk, v.me)
    requires PackageRelies(plan, v.disk, b) && Apart(v.me, b) && Apart(b, v.me)
    ensures PackageRelies(plan, w.disk, b)
  {
    if b.pkg == v.me.pkg && (Extracting(v.me.pc) || Dropping(v.me.pc)) {
      assert !Extracting(b.pc) && !Decided(b.pc) && !Dropping(b.pc);
    } else {
      assert SamePackage(v.disk, w.disk, b.pkg);
      if b.pc.LMarkReady? { CompleteKept(v, w, plan, b.pkg); }
      else if b.pc.LOpenStore? || b.pc.LLockStore? { BuiltKept(v, w, plan, b.pkg, 0, false); }
      else if b.pc.LDropStore? || b.pc.LRename? { BuiltKept(v, w, plan, b.pkg, |plan|, false); }
      else if Building(b.pc) { BuiltKept(v, w, plan, b.pkg, b.pc.at, b.pc.LPlace?); }
    }
  }

  lemma OtherStore(v: View, w: View, plan: seq<Op>, r: Pid, b: Proc)
    requires Guarantees(v, w) && r != v.q && StoreRelies(plan, v.disk, r, b) && Apart(v.me, b)
    ensures StoreRelies(plan, w.disk, r, b)
  {
  }

  lemma OtherCollect(v: View, w: View, b: Proc)
    requires Guarantees(v, w) && CollectRelies(v.disk, b) && Apart(v.me, b)
    ensures CollectRelies(w.disk, b)
  {
  }

  lemma OtherReady(v: View, w: View, plan: seq<Op>, p: PkgId)
    requires Guarantees(v, w) && p != v.me.pkg && p in w.disk.ready
    requires p in v.disk.ready ==> Complete(plan, v.disk, p)
    ensures Complete(plan, w.disk, p)
  {
    CompleteKept(v, w, plan, p);
  }

  lemma ActKeeps(s: State, q: Pid, w: View)
    requires Inv(s) && q in s.procs && Act(ViewOf(s, q), w)
    ensures Inv(Become(s, q, w.me).(paths := w.paths, disk := w.disk))
  {
    var v := ViewOf(s, q);
    var s' := Become(s, q, w.me).(paths := w.paths, disk := w.disk);
    assert ProcOk(s, q);
    ActSound(v, w);
    LocksKept(s, q, s');
    forall r | r in s'.procs && r != q
      ensures ProcOk(s', r)
    {
      assert ProcOk(s, q) && ProcOk(s, r);
      OtherKeeps(s, q, w, r);
    }
    forall p | p in s'.disk.ready
      ensures Complete(s.plans(p), s'.disk, p)
    {
      if p != v.me.pkg { OtherReady(v, w, s.plans(p), p); }
    }
  }

  lemma OtherKeeps(s: State, q: Pid, w: View, r: Pid)
    requires LocksOk(s.procs) && q in s.procs && r in s.procs && r != q
    requires MineOk(ViewOf(s, q)) && MineOk(ViewOf(s, r)) && Guarantees(ViewOf(s, q), w)
    ensures MineOk(View(r, s.plans(s.procs[r].pkg), s.procs[r], w.paths, w.disk))
  {
    var v, b := ViewOf(s, q), s.procs[r];
    LocksKeepApart(s, q, r);
    LocksKeepApart(s, r, q);
    OtherDescriptors(v, w, b);
    OtherPackage(v, w, s.plans(b.pkg), b);
    OtherStore(v, w, s.plans(b.pkg), r, b);
    OtherCollect(v, w, b);
  }

  /** A step that changes no file: the others' views are what they were. */
  lemma QuietKeeps(s: State, q: Pid, s': State)
    requires Inv(s) && OthersStay(s, q, s') && s'.paths == s.paths && s'.disk == s.disk
    requires LocksOk(s'.procs) && ProcOk(s', q)
    ensures Inv(s')
  {
    forall r | r != q
      ensures ProcOk(s', r)
    {
      assert ProcOk(s, r);
    }
  }

  lemma LockKeepsMine(s: State, q: Pid, s': State)
    requires q in s.procs && MineOk(ViewOf(s, q)) && Locks(s, q, s.procs[q], s')
    ensures MineOk(ViewOf(s', q))
  {
  }

  lemma TryUseKeepsMine(s: State, q: Pid, s': State)
    requires q in s.procs && MineOk(ViewOf(s, q)) && TriesUse(s, q, s.procs[q], s')
    ensures MineOk(ViewOf(s', q))
  {
  }

  lemma TryStoreKeepsMine(s: State, q: Pid, s': State)
    requires q in s.procs && MineOk(ViewOf(s, q)) && TriesStore(s, q, s.procs[q], s')
    ensures MineOk(ViewOf(s', q))
  {
  }

  lemma LockKeeps(s: State, q: Pid, s': State)
    requires Inv(s) && LockStep(s, q, s')
    ensures Inv(s')
  {
    LocksKept(s, q, s');
    assert ProcOk(s, q);
    if Locks(s, q, s.procs[q], s') { LockKeepsMine(s, q, s'); }
    else if TriesUse(s, q, s.procs[q], s') { TryUseKeepsMine(s, q, s'); }
    else { TryStoreKeepsMine(s, q, s'); }
    QuietKeeps(s, q, s');
  }

  lemma PickKeeps(s: State, q: Pid, s': State)
    requires Inv(s) && PickStep(s, q, s')
    ensures Inv(s')
  {
    LocksKept(s, q, s');
    assert ProcOk(s, q);
    QuietKeeps(s, q, s');
  }

  lemma LifeKeeps(s: State, q: Pid, s': State)
    requires Inv(s) && (StartStep(s, q, s') || DieStep(s, q, s'))
    ensures Inv(s')
  {
    LocksKept(s, q, s');
    QuietKeeps(s, q, s');
  }

  lemma StepKeeps(s: State, s': State)
    requires Inv(s) && Step(s, s')
    ensures Inv(s')
  {
    var q :| StepOf(s, q, s');
    if ActStep(s, q, s') {
      var w: View :| Act(ViewOf(s, q), w) && s' == Become(s, q, w.me).(paths := w.paths, disk := w.disk);
      ActKeeps(s, q, w);
    } else if LockStep(s, q, s') {
      LockKeeps(s, q, s');
    } else if PickStep(s, q, s') {
      PickKeeps(s, q, s');
    } else {
      LifeKeeps(s, q, s');
    }
  }

  // ---- runs -----------------------------------------------------------------------------------

  /** A cache nobody is using: every marker has its tree, every record its lock file. */
  ghost predicate Idle(s: State) { s.procs == map[] && DiskOk(s) }

  ghost function EmptyCache(plans: Plans): State {
    State(plans, map[], Paths(map[], map[], None, 0), Disk({}, {}, map[], map[], map[], map[]))
  }

  ghost predicate Step(s: State, s': State) { exists q :: StepOf(s, q, s') }

  ghost predicate Run(tr: seq<State>) {
    && |tr| > 0 && Idle(tr[0])
    && forall i :: 0 <= i < |tr| - 1 ==> Step(tr[i], tr[i + 1])
  }

  lemma EmptyCacheIsIdle(plans: Plans)
    ensures Idle(EmptyCache(plans))
  {
  }

  lemma {:induction false} RunKeeps(tr: seq<State>, i: nat)
    requires Run(tr) && i < |tr|
    ensures Inv(tr[i])
  {
    if i > 0 {
      RunKeeps(tr, i - 1);
      StepKeeps(tr[i - 1], tr[i]);
    }
  }

  /** A launch that has returned from `ensure_extracted` and still holds its lock has its complete tree and
      its marker. */
  lemma RunningLaunchIsComplete(tr: seq<State>, i: nat, q: Pid)
    requires Run(tr) && i < |tr| && q in tr[i].procs && tr[i].procs[q].pc.LRunning?
    ensures
      var p := tr[i].procs[q].pkg;
      p in tr[i].disk.ready && Complete(tr[i].plans(p), tr[i].disk, p)
  {
    RunKeeps(tr, i);
    assert ProcOk(tr[i], q);
  }

  /** Wherever a run is cut short, a marker stands only beside a complete tree. */
  lemma MarkerMeansComplete(tr: seq<State>, i: nat, p: PkgId)
    requires Run(tr) && i < |tr| && p in tr[i].disk.ready
    ensures Complete(tr[i].plans(p), tr[i].disk, p)
  {
    RunKeeps(tr, i);
  }

  /** At most one process per package is inside extraction, though the mutex's inode may have been replaced. */
  lemma OneExtractor(tr: seq<State>, i: nat, q: Pid, r: Pid)
    requires Run(tr) && i < |tr| && q in tr[i].procs && r in tr[i].procs
    requires UnderMutex(tr[i].procs[q].pc) && UnderMutex(tr[i].procs[r].pc) && tr[i].procs[q].pkg == tr[i].procs[r].pkg
    ensures q == r
  {
    RunKeeps(tr, i);
    assert ProcOk(tr[i], q) && ProcOk(tr[i], r);
    if q != r { LocksKeepApart(tr[i], q, r); }
  }

  /** The collector's branch for a missing lock file is never taken: its record stands beside one. */
  lemma CollectorFindsTheLock(tr: seq<State>, i: nat, q: Pid)
    requires Run(tr) && i < |tr| && q in tr[i].procs
    ensures tr[i].procs[q].pc.GOpen? ==> tr[i].procs[q].pkg in tr[i].paths.use
    ensures Dropping(tr[i].procs[q].pc) ==>
              tr[i].procs[q].pkg in tr[i].paths.use &&
                tr[i].procs[q].use == Exclusive(tr[i].paths.use[tr[i].procs[q].pkg])
  {
    RunKeeps(tr, i);
    assert ProcOk(tr[i], q);
  }

  /** From the reuse check or the rename into the store until the hard link, the blob stays. */
  lemma BlobStaysUntilLinked(tr: seq<State>, i: nat, q: Pid)
    requires Run(tr) && i < |tr| && q in tr[i].procs && ViewOf(tr[i], q).AtLink()
    requires tr[i].procs[q].pc.LUnlinkOld? || tr[i].procs[q].pc.LPlace?
    ensures var k := ViewOf(tr[i], q).Op().key; Verifies(tr[i].disk, Blob(k), k)
  {
    RunKeeps(tr, i);
    assert ProcOk(tr[i], q);
  }

  /** A file a collector is about to remove is linked by no tree, and nobody is writing the store. */
  lemma CollectedBlobIsUnlinked(tr: seq<State>, i: nat, q: Pid, r: Pid)
    requires Run(tr) && i < |tr| && q in tr[i].procs && r in tr[i].procs && tr[i].procs[q].pc.CRemove?
    ensures var n := tr[i].procs[q].pc.name; n in tr[i].disk.blobs && !Carried(tr[i].disk, tr[i].disk.blobs[n])
    ensures !Storing(tr[i].procs[r].pc)
  {
    RunKeeps(tr, i);
    assert ProcOk(tr[i], q) && ProcOk(tr[i], r);
    if q != r { LocksKeepApart(tr[i], q, r); }
  }

  // ---- what a completed collection leaves ----------------------------------------------------

  ghost predicate Scanning(s: State, q: Pid) {
    q in s.procs && (s.procs[q].pc.CScan? || s.procs[q].pc.CRemove?)
  }

  /** Names the collector has not passed yet. */
  ghost function Pending(pc: PC): set<Name>
    requires pc.CScan? || pc.CRemove?
  {
    pc.todo + if pc.CRemove? then {pc.name} else {}
  }

  ghost predicate Linked(s: State, n: Name) { n in s.disk.blobs && Carried(s.disk, s.disk.blobs[n]) }

  /** While a collector scans, nothing is linked or added, and it passes only what it removes or finds linked. */
  ghost predicate ScanStep(s: State, q: Pid, s': State)
    requires Scanning(s, q) && Scanning(s', q)
  {
    && (forall n :: n in s'.disk.blobs ==> n in s.disk.blobs && s'.disk.blobs[n] == s.disk.blobs[n])
    && (forall i :: Carried(s'.disk, i) ==> Carried(s.disk, i))
    && (forall n :: n in Pending(s.procs[q].pc) && n in s'.disk.blobs ==> n in Pending(s'.procs[q].pc) || Linked(s, n))
  }

  ghost predicate ScanAct(v: View, w: View)
    requires v.me.pc.CScan? || v.me.pc.CRemove?
  {
    && (w.me.pc.CScan? || w.me.pc.CRemove?)
    && (forall n :: n in w.disk.blobs ==> n in v.disk.blobs && w.disk.blobs[n] == v.disk.blobs[n])
    && w.disk.trees == v.disk.trees && w.disk.tmps == v.disk.tmps
    && (forall n :: n in Pending(v.me.pc) && n in w.disk.blobs ==>
          n in Pending(w.me.pc) || (n in v.disk.blobs && Carried(v.disk, v.disk.blobs[n])))
  }

  lemma VisitScans(v: View, n: Name, w: View)
    requires Visits(v, n, w)
    ensures ScanAct(v, w)
  {
  }

  lemma RemovalScans(v: View, w: View)
    requires RemoveBlob(v, w)
    ensures ScanAct(v, w)
  {
  }

  lemma OnlyCollects(v: View, w: View)
    requires Act(v, w) && (v.me.pc.CScan? || v.me.pc.CRemove?)
    ensures CollectingAct(v, w)
  {
  }

  lemma OwnActScans(v: View, w: View)
    requires StoreOk(v.disk) && Act(v, w) && (v.me.pc.CScan? || v.me.pc.CRemove?)
    ensures ScanAct(v, w)
  {
    OnlyCollects(v, w);
    if RemoveBlob(v, w) { RemovalScans(v, w); }
    else {
      var n :| Condemn(v, n, w) || Spare(v, n, w);
      InspectionVisits(v, n, w);
      VisitScans(v, n, w);
    }
  }

  lemma OtherActScans(s: State, q: Pid, r: Pid, w: View)
    requires Inv(s) && Scanning(s, q) && r in s.procs && r != q && Act(ViewOf(s, r), w)
    ensures w.disk.blobs == s.disk.blobs && forall i :: Carried(w.disk, i) ==> Carried(s.disk, i)
  {
    assert ProcOk(s, q) && ProcOk(s, r);
    ActSound(ViewOf(s, r), w);
    LocksKeepApart(s, q, r);
  }

  lemma QuietStepScans(s: State, q: Pid, r: Pid, s': State)
    requires Scanning(s, q) && Scanning(s', q)
    requires LockStep(s, r, s') || PickStep(s, r, s') || StartStep(s, r, s') || DieStep(s, r, s')
    ensures ScanStep(s, q, s')
  {
  }

  lemma ActStepScans(s: State, q: Pid, r: Pid, w: View)
    requires Inv(s) && Scanning(s, q) && r in s.procs && Act(ViewOf(s, r), w)
    ensures var s' := Become(s, r, w.me).(paths := w.paths, disk := w.disk); Scanning(s', q) && ScanStep(s, q, s')
  {
    if r == q { OwnActScans(ViewOf(s, q), w); } else { OtherActScans(s, q, r, w); }
  }

  lemma StepScans(s: State, q: Pid, s': State)
    requires Inv(s) && Step(s, s') && Scanning(s, q) && Scanning(s', q)
    ensures ScanStep(s, q, s')
  {
    var r :| StepOf(s, r, s');
    if ActStep(s, r, s') {
      var w: View :| Act(ViewOf(s, r), w) && s' == Become(s, r, w.me).(paths := w.paths, disk := w.disk);
      ActStepScans(s, q, r, w);
    } else {
      QuietStepScans(s, q, r, s');
    }
  }

  /** Between `a` and `b` of a run, `q` is inside one collection, from its listing to its end. */
  ghost predicate Collection(tr: seq<State>, a: nat, b: nat, q: Pid) {
    && Run(tr) && a <= b < |tr|
    && (forall j :: a <= j <= b ==> Scanning(tr[j], q))
    && tr[a].procs[q].pc == CScan(tr[a].disk.blobs.Keys)
    && tr[b].procs[q].pc == CScan({})
  }

  /** The same stretch of states, as far as the store and the scan go. */
  ghost predicate Scans(tr: seq<State>, a: nat, b: nat, q: Pid) {
    && a <= b < |tr|
    && (forall j :: a <= j <= b ==> Scanning(tr[j], q))
    && (forall j :: a <= j < b ==> ScanStep(tr[j], q, tr[j + 1]))
  }

  lemma CollectionScans(tr: seq<State>, a: nat, b: nat, q: Pid)
    requires Collection(tr, a, b, q)
    ensures Scans(tr, a, b, q)
  {
    forall j | a <= j < b
      ensures ScanStep(tr[j], q, tr[j + 1])
    {
      RunKeeps(tr, j);
      StepScans(tr[j], q, tr[j + 1]);
    }
  }

  /** The step after `j` takes the last tree link of store file `n` away. */
  ghost predicate Drains(tr: seq<State>, j: nat, n: Name)
    requires j + 1 < |tr|
  {
    Linked(tr[j], n) && n in tr[j + 1].disk.blobs && !Linked(tr[j + 1], n)
  }

  /** While a scan goes on, what is unlinked stays unlinked and what is there was there. */
  lemma {:induction false} ScanOnlyLoses(tr: seq<State>, a: nat, b: nat, q: Pid, j: nat, n: Name)
    requires Scans(tr, a, b, q) && a <= j <= b && n in tr[b].disk.blobs
    ensures n in tr[j].disk.blobs && tr[j].disk.blobs[n] == tr[b].disk.blobs[n]
    ensures Linked(tr[b], n) ==> Linked(tr[j], n)
    decreases b - j
  {
    if j < b { ScanOnlyLoses(tr, a, b, q, j + 1, n); }
  }

  /** A file that outlives the scan was linked when the collector passed it. */
  lemma {:induction false} SparedWasLinked(tr: seq<State>, a: nat, b: nat, q: Pid, j: nat, n: Name) returns (k: nat)
    requires Scans(tr, a, b, q) && a <= j <= b && n in tr[b].disk.blobs
    requires n in Pending(tr[j].procs[q].pc) && n !in Pending(tr[b].procs[q].pc)
    ensures j <= k < b && Linked(tr[k], n)
    decreases b - j
  {
    ScanOnlyLoses(tr, a, b, q, j + 1, n);
    if Linked(tr[j], n) { k := j; } else { k := SparedWasLinked(tr, a, b, q, j + 1, n); }
  }

  /** The last point at which `n` was linked is where it was drained. */
  lemma {:induction false} FindDrain(tr: seq<State>, a: nat, b: nat, q: Pid, j: nat, n: Name) returns (k: nat)
    requires Scans(tr, a, b, q) && a <= j < b && n in tr[b].disk.blobs && Linked(tr[j], n) && !Linked(tr[b], n)
    ensures j <= k < b && Drains(tr, k, n)
    decreases b - j
  {
    ScanOnlyLoses(tr, a, b, q, j + 1, n);
    if Linked(tr[j + 1], n) { k := FindDrain(tr, a, b, q, j + 1, n); } else { k := j; }
  }

  lemma ScanLeaves(tr: seq<State>, a: nat, b: nat, q: Pid, n: Name)
    requires Scans(tr, a, b, q) && n in tr[b].disk.blobs
    requires tr[a].disk.blobs.Keys <= Pending(tr[a].procs[q].pc) && n !in Pending(tr[b].procs[q].pc)
    ensures !Linked(tr[b], n) <==> exists j :: a <= j < b && Drains(tr, j, n)
  {
    ScanOnlyLoses(tr, a, b, q, a, n);
    if !Linked(tr[b], n) {
      var j := SparedWasLinked(tr, a, b, q, a, n);
      var k := FindDrain(tr, a, b, q, j, n);
    } else {
      forall j | a <= j < b
        ensures !Drains(tr, j, n)
      {
        ScanOnlyLoses(tr, a, b, q, j + 1, n);
      }
    }
  }

  lemma CollectionFacts(tr: seq<State>, a: nat, b: nat, q: Pid)
    requires Collection(tr, a, b, q)
    ensures Scans(tr, a, b, q) && StoreOk(tr[b].disk)
    ensures tr[a].disk.blobs.Keys <= Pending(tr[a].procs[q].pc) && Pending(tr[b].procs[q].pc) == {}
  {
    CollectionScans(tr, a, b, q);
    RunKeeps(tr, b);
  }

  lemma ScanLeavesCount(tr: seq<State>, a: nat, b: nat, q: Pid, n: Name)
    requires Scans(tr, a, b, q) && n in tr[b].disk.blobs && StoreOk(tr[b].disk)
    requires tr[a].disk.blobs.Keys <= Pending(tr[a].procs[q].pc) && Pending(tr[b].procs[q].pc) == {}
    ensures LinkCount(tr[b].disk, tr[b].disk.blobs[n]) <= 1 <==> exists j :: a <= j < b && Drains(tr, j, n)
  {
    ScanLeaves(tr, a, b, q, n);
    CountOneIsUnlinked(tr[b].disk, n);
  }

  /** A completed collection leaves a file with a link count of one exactly when, while it ran,
      someone took that file's last tree link away. */
  lemma CollectionLeaves(tr: seq<State>, a: nat, b: nat, q: Pid, n: Name)
    requires Collection(tr, a, b, q) && n in tr[b].disk.blobs
    ensures LinkCount(tr[b].disk, tr[b].disk.blobs[n]) <= 1 <==> exists j :: a <= j < b && Drains(tr, j, n)
  {
    CollectionFacts(tr, a, b, q);
    ScanLeavesCount(tr, a, b, q, n);
  }

  /** A tree or a scratch tree is being removed. */
  predicate Removing(pc: PC) { pc.LClearDir? || pc.LClearTmp? || pc.LUndoTmp? || pc.LUndoDir? || pc.GDropTree? }

  /** Publishing a tree keeps what it carries. */
  lemma RenameKeepsLinks(v: View, w: View, i: Inode)
    requires Rename(v, w) && MineOk(v) && Carried(v.disk, i)
    ensures Carried(w.disk, i)
  {
    var p, d := v.me.pkg, w.disk;
    if p in v.disk.tmps {
      if CarriedBy(v.disk.trees, i) {
        var o, x :| o in v.disk.trees && x in v.disk.trees[o] && v.disk.trees[o][x] == File(i);
        assert o in d.trees && x in d.trees[o] && d.trees[o][x] == File(i);
      } else {
        var o, x :| o in v.disk.tmps && x in v.disk.tmps[o] && v.disk.tmps[o][x] == File(i);
        if o == p {
          assert o in d.trees && x in d.trees[o] && d.trees[o][x] == File(i);
        } else {
          assert o in d.tmps && x in d.tmps[o] && d.tmps[o][x] == File(i);
        }
      }
    }
  }

  lemma MakeTmpKeepsLinks(v: View, w: View, i: Inode)
    requires MakeTmp(v, w) && MineOk(v) && Carried(v.disk, i)
    ensures Carried(w.disk, i)
  {
    if CarriedBy(v.disk.tmps, i) {
      var o, x :| o in v.disk.tmps && x in v.disk.tmps[o] && v.disk.tmps[o][x] == File(i);
      assert o in w.disk.tmps && x in w.disk.tmps[o] && w.disk.tmps[o][x] == File(i);
    }
  }

  lemma OtherActsKeepTrees(v: View, w: View)
    requires Act(v, w) && !Storing(v.me.pc) && !Removing(v.me.pc) && !Rename(v, w) && !MakeTmp(v, w)
    ensures w.disk.trees == v.disk.trees && w.disk.tmps == v.disk.tmps
  {
  }

  lemma ActKeepsLinks(v: View, w: View, i: Inode)
    requires MineOk(v) && Act(v, w) && !Storing(v.me.pc) && !Removing(v.me.pc) && Carried(v.disk, i)
    ensures Carried(w.disk, i)
  {
    hide Act, Rename, MakeTmp, MineOk;
    if Rename(v, w) { RenameKeepsLinks(v, w, i); }
    else if MakeTmp(v, w) { MakeTmpKeepsLinks(v, w, i); }
    else { OtherActsKeepTrees(v, w); }
  }

  /** While a collector scans and nobody removes a tree, no step takes a link away. */
  lemma StepKeepsLinks(s: State, q: Pid, s': State, i: Inode)
    requires Inv(s) && Step(s, s') && Scanning(s, q) && Carried(s.disk, i)
    requires forall r :: r in s.procs ==> !Removing(s.procs[r].pc)
    ensures Carried(s'.disk, i)
  {
    hide Carried;
    var r :| StepOf(s, r, s');
    if ActStep(s, r, s') {
      var w: View :| Act(ViewOf(s, r), w) && s' == Become(s, r, w.me).(paths := w.paths, disk := w.disk);
      assert ProcOk(s, q) && ProcOk(s, r);
      if r != q { LocksKeepApart(s, q, r); }
      hide Act, MineOk;
      ActKeepsLinks(ViewOf(s, r), w, i);
    }
  }

  /** With no removal of a tree or scratch tree under way, a completed collection leaves no file of one link. */
  lemma QuietCollectionLeavesNone(tr: seq<State>, a: nat, b: nat, q: Pid, n: Name)
    requires Collection(tr, a, b, q) && n in tr[b].disk.blobs
    requires forall j, r :: a <= j < b && r in tr[j].procs ==> !Removing(tr[j].procs[r].pc)
    ensures LinkCount(tr[b].disk, tr[b].disk.blobs[n]) > 1
  {
    CollectionLeaves(tr, a, b, q, n);
    CollectionFacts(tr, a, b, q);
    forall j | a <= j < b ensures !Drains(tr, j, n) {
      if Linked(tr[j], n) {
        RunKeeps(tr, j);
        ScanOnlyLoses(tr, a, b, q, j, n);
        ScanOnlyLoses(tr, a, b, q, j + 1, n);
        StepKeepsLinks(tr[j], q, tr[j + 1], tr[j].disk.blobs[n]);
      }
    }
  }

  // ---- a collection that completes and still leaves a count of one -----------------------------

  const SHIPPED := Blob(7)

  /** One package whose tree is a single link to a blob, with its marker and with its link or without. */
  function OnePackage(ready: bool, linked: bool): Disk {
    Disk(if ready then {0} else {}, {0}, map[0 := if linked then map[3 := File(5)] else map[]], map[],
         map[SHIPPED := 5], map[5 := Whole(7)])
  }

  function Collector(pc: PC, store: Descriptor): Proc { Proc(0, pc, Closed, Closed, store, 0) }

  function Remover(pc: PC, use: Descriptor): Proc { Proc(0, pc, use, Closed, Closed, 0) }

  /** The collector spares the blob, and then a package removal unlinks it. */
  ghost function Stage(i: nat): State {
    var before, after := Paths(map[0 := 0], map[], None, 1), Paths(map[0 := 0], map[], Some(1), 2);
    var full := OnePackage(true, true);
    var done := Collector(CScan({}), Exclusive(1));
    var plans := (p: PkgId) => [Link(3, 7)];
    if i == 0 then State(plans, map[], before, full)
    else if i == 1 then State(plans, map[0 := Collector(COpen, Closed)], before, full)
    else if i == 2 then State(plans, map[0 := Collector(CLock, Opened(1))], after, full)
    else if i == 3 then State(plans, map[0 := Collector(CList, Exclusive(1))], after, full)
    else if i == 4 then State(plans, map[0 := Collector(CScan({SHIPPED}), Exclusive(1))], after, full)
    else if i == 5 then State(plans, map[0 := done], after, full)
    else if i == 6 then State(plans, map[0 := done, 1 := Remover(GList, Closed)], after, full)
    else if i == 7 then State(plans, map[0 := done, 1 := Remover(GOpen, Closed)], after, full)
    else if i == 8 then State(plans, map[0 := done, 1 := Remover(GLock, Opened(0))], after, full)
    else if i == 9 then State(plans, map[0 := done, 1 := Remover(GDropReady, Exclusive(0))], after, full)
    else if i == 10 then State(plans, map[0 := done, 1 := Remover(GDropTree, Exclusive(0))], after,
      OnePackage(false, true))
    else State(plans, map[0 := done, 1 := Remover(GDropTree, Exclusive(0))], after, OnePackage(false, false))
  }

  ghost function Acted(s: State, q: Pid, w: View): State { Become(s, q, w.me).(paths := w.paths, disk := w.disk) }

  lemma ActMakesStep(s: State, q: Pid, w: View)
    requires q in s.procs && Act(ViewOf(s, q), w)
    ensures Step(s, Acted(s, q, w))
  {
    assert StepOf(s, q, Acted(s, q, w));
  }

  lemma StageZero()
    ensures Idle(Stage(0))
  {
    var s := Stage(0);
    assert Outcome(s.plans(0)) == map[3 := WantFile(7)] by { assert s.plans(0)[..0] == []; }
  }

  lemma Stage1() ensures Step(Stage(0), Stage(1))
  {
    assert StartStep(Stage(0), 0, Stage(1));
    assert StepOf(Stage(0), 0, Stage(1));
  }

  lemma Stage2() ensures Step(Stage(1), Stage(2))
  {
    var v := ViewOf(Stage(1), 0);
    var w := v.(me := Collector(CLock, Opened(1)), paths := Stage(2).paths);
    assert OpenCollect(v, w) && OpeningAct(v, w);
    assert Stage(1).procs[0 := w.me] == Stage(2).procs;
    ActMakesStep(Stage(1), 0, w);
  }

  lemma Stage3() ensures Step(Stage(2), Stage(3))
  {
    assert TriesStore(Stage(2), 0, Stage(2).procs[0], Stage(3));
    assert StepOf(Stage(2), 0, Stage(3));
  }

  lemma Stage4() ensures Step(Stage(3), Stage(4))
  {
    var v := ViewOf(Stage(3), 0);
    var w := v.Goto(CScan({SHIPPED}));
    assert v.disk.blobs.Keys == {SHIPPED};
    assert ListStore(v, w) && CollectingAct(v, w);
    assert Stage(3).procs[0 := w.me] == Stage(4).procs;
    ActMakesStep(Stage(3), 0, w);
  }

  /** A scan step over a file some tree carries. */
  lemma SparesCarried(s: State, q: Pid, n: Name, todo: set<Name>)
    requires q in s.procs && s.procs[q].pc == CScan(todo) && n in todo
    requires n in s.disk.blobs && Carried(s.disk, s.disk.blobs[n])
    ensures Step(s, Become(s, q, s.procs[q].(pc := CScan(todo - {n}))))
  {
    var v := ViewOf(s, q);
    var w := v.Goto(CScan(todo - {n}));
    CarriedIsCounted(v.disk, n);
    assert Spare(v, n, w);
    assert CollectingAct(v, w);
    ActMakesStep(s, q, w);
  }

  lemma Stage5() ensures Step(Stage(4), Stage(5))
  {
    var s := Stage(4);
    assert s.disk.trees[0][3] == File(5);
    assert {SHIPPED} - {SHIPPED} == {};
    SparesCarried(s, 0, SHIPPED, {SHIPPED});
    assert s.procs[0 := Collector(CScan({}), Exclusive(1))] == Stage(5).procs;
  }

  lemma Stage6() ensures Step(Stage(5), Stage(6))
  {
    assert StartStep(Stage(5), 1, Stage(6));
    assert StepOf(Stage(5), 1, Stage(6));
  }

  lemma Stage7() ensures Step(Stage(6), Stage(7))
  {
    assert PickStep(Stage(6), 1, Stage(7));
    assert StepOf(Stage(6), 1, Stage(7));
  }

  lemma Stage8() ensures Step(Stage(7), Stage(8))
  {
    var v := ViewOf(Stage(7), 1);
    var w := v.(me := Remover(GLock, Opened(0)));
    assert OpenIdle(v, w) && OpeningAct(v, w);
    assert Stage(7).procs[1 := w.me] == Stage(8).procs;
    ActMakesStep(Stage(7), 1, w);
  }

  lemma Stage9() ensures Step(Stage(8), Stage(9))
  {
    assert TriesUse(Stage(8), 1, Stage(8).procs[1], Stage(9));
    assert StepOf(Stage(8), 1, Stage(9));
  }

  lemma Stage10() ensures Step(Stage(9), Stage(10))
  {
    var v := ViewOf(Stage(9), 1);
    var w := v.Goto(GDropTree).(disk := OnePackage(false, true));
    assert {0} - {0} == {};
    assert DropReady(v, w) && PublishingAct(v, w);
    assert Stage(9).procs[1 := w.me] == Stage(10).procs;
    ActMakesStep(Stage(9), 1, w);
  }

  lemma Stage11() ensures Step(Stage(10), Stage(11))
  {
    var v := ViewOf(Stage(10), 1);
    var w := v.(disk := OnePackage(false, false));
    var tree := v.disk.trees[0];
    assert tree == map[3 := File(5)];
    assert tree - {3} == map[];
    assert v.disk.trees[0 := tree - {3}] == w.disk.trees;
    assert tree != map[] by { assert 3 in tree; }
    assert RemoveTree(v, w.disk.trees, false, w) && ClearingAct(v, w);
    assert Stage(10).procs[1 := w.me] == Stage(11).procs;
    ActMakesStep(Stage(10), 1, w);
  }

  lemma StagesRun() returns (tr: seq<State>)
    ensures Run(tr) && |tr| == 12 && forall i :: 0 <= i < 12 ==> tr[i] == Stage(i)
  {
    hide Step, Stage;
    tr := seq(12, i requires 0 <= i < 12 => Stage(i));
    StageZero();
    forall i | 0 <= i < 11
      ensures Step(tr[i], tr[i + 1])
    {
      StageSteps(i);
    }
  }

  lemma StageSteps(i: nat)
    requires i < 11
    ensures Step(Stage(i), Stage(i + 1))
  {
    hide Step, Stage;
    if i == 0 { Stage1(); } else if i == 1 { Stage2(); } else if i == 2 { Stage3(); } else if i == 3 { Stage4(); }
    else if i == 4 { Stage5(); } else if i == 5 { Stage6(); } else if i == 6 { Stage7(); } else if i == 7 { Stage8(); }
    else if i == 8 { Stage9(); } else if i == 9 { Stage10(); } else { Stage11(); }
  }

  lemma StagesScan()
    ensures forall j :: 4 <= j <= 11 ==> Scanning(Stage(j), 0)
    ensures Stage(4).procs[0].pc == CScan(Stage(4).disk.blobs.Keys) && Stage(11).procs[0].pc == CScan({})
  {
    assert Stage(4).disk.blobs.Keys == {SHIPPED};
  }

  lemma UnlinkedCountsOne()
    ensures LinkCount(OnePackage(false, false), 5) <= 1
  {
    CountOneIsUnlinked(OnePackage(false, false), SHIPPED);
  }

  /** Without the condition of `CollectionLeaves` the claim fails: this collection completes beside a removal. */
  lemma CollectionMayLeaveOne() returns (tr: seq<State>)
    ensures Collection(tr, 4, 11, 0)
    ensures SHIPPED in tr[11].disk.blobs && LinkCount(tr[11].disk, tr[11].disk.blobs[SHIPPED]) <= 1
  {
    tr := StagesRun();
    StagesScan();
    assert Collection(tr, 4, 11, 0);
    assert tr[11].disk == OnePackage(false, false);
    UnlinkedCountsOne();
  }
}
