/** Runs of the file system: safety over every run, and the simulation of a flat file system. */
module FsRuns {
  import opened CStrings
  import opened Items
  import opened Paths
  import opened Records
  import opened Directory
  import opened RandomAccess
  import opened FsModel
  import opened FsInvariants

  datatype Step =
    | CreateStep(path: string, n: Inode)                    // create, mkdir, symlink
    | LinkStep(oldPath: string, newPath: string)
    | DeleteStep(path: string)                              // unlink, rmdir
    | WriteStep(path: string, offset: nat, buf: string)
    | SetStep(path: string, n: Inode)                       // chmod, chown, setxattr, removexattr

  ghost predicate CanWrite(fs: Fs, path: string, offset: nat, buf: string) {
    && path in fs.Index() && fs.Index()[path] in fs.inodes && IsReg(fs.inodes[fs.Index()[path]])
    && FullBlocks(fs.blocks, fs.Index()[path]) && Coverable(offset, |buf|, BLOCK)
  }

  /** One step: the callback's guard holds and its effect is the new state. */
  ghost predicate StepTo(fs: Fs, step: Step, fs': Fs) {
    match step
    case CreateStep(path, n) =>
      CanCreate(fs, path, n) && (ParentIsOther(fs.Index(), fs.inodes, path); fs' == Create(fs, path, n))
    case LinkStep(oldPath, newPath) =>
      CanLink(fs, oldPath, newPath)
          && (ParentIsOther(fs.Index(), fs.inodes, newPath); fs' == Link(fs, oldPath, newPath))
    case DeleteStep(path) =>
      CanDelete(fs, path) && Parent(path) in fs.Index() && fs' == Delete(fs, path)
    case WriteStep(path, offset, buf) =>
      CanWrite(fs, path, offset, buf) && fs' == Write(fs, fs.Index()[path], offset, buf)
    case SetStep(path, n) =>
      path in fs.Index() && CanSet(fs, fs.Index()[path], n) && fs' == SetInode(fs, fs.Index()[path], n)
  }

  lemma StepKeeps(fs: Fs, step: Step, fs': Fs)
    requires Inv(fs) && StepTo(fs, step, fs')
    ensures Inv(fs')
  {
    hide Inv;
    match step
    case CreateStep(path, n) => CreateKeeps(fs, path, n);
    case LinkStep(oldPath, newPath) => LinkKeeps(fs, oldPath, newPath);
    case DeleteStep(path) => DeleteKeeps(fs, path);
    case WriteStep(path, offset, buf) => WriteKeeps(fs, fs.Index()[path], offset, buf);
    case SetStep(path, n) => SetKeeps(fs, fs.Index()[path], n);
  }

  /** A run from the first mount: any number of steps, each taken where its guard holds. */
  ghost predicate IsRun(states: seq<Fs>, steps: seq<Step>, uid: nat, gid: nat) {
    && |states| == |steps| + 1 && states[0] == Init(uid, gid)
    && forall k :: 0 <= k < |steps| ==> StepTo(states[k], steps[k], states[k + 1])
  }

  /** The invariant holds in every state of every run. */
  lemma {:induction false} RunSafe(states: seq<Fs>, steps: seq<Step>, uid: nat, gid: nat, k: nat)
    requires IsRun(states, steps, uid, gid) && k < |states|
    ensures Inv(states[k])
  {
    hide Inv, StepTo;
    if k == 0 {
      InitOk(uid, gid);
    } else {
      RunSafe(states, steps, uid, gid, k - 1);
      StepKeeps(states[k - 1], steps[k - 1], states[k]);
    }
  }

  // What the invariant gives in every state

  /** st_nlink of a regular file counts its paths, and there is a record exactly while there is a path. */
  lemma LinkCount(fs: Fs, i: nat)
    requires Inv(fs)
    ensures i in fs.inodes <==> PathsTo(fs.Index(), i) != {}
    ensures i in fs.inodes && IsReg(fs.inodes[i]) ==> fs.inodes[i].nlink == |PathsTo(fs.Index(), i)| > 0
  {
    hide IsPath, Parent, LinksOk, DataOk, InodesOk, FreshOk;
    if p :| p in PathsTo(fs.Index(), i) {
      assert p in fs.Index() && fs.Index()[p] == i;
    }
  }

  /** A directory's block lists the base names of its children, each once, and nothing else. */
  lemma ChildrenListed(fs: Fs, dir: string, q: string)
    requires Inv(fs) && dir in fs.Index() && IsDir(fs.inodes[fs.Index()[dir]])
    ensures var names := Links(fs.blocks, fs.Index()[dir]);
            && (q in fs.Index() && q != "/" && Parent(q) == dir ==> BaseName(q) in names)
            && (forall k :: 0 <= k < |names| ==>
                  Join(dir, names[k]) in fs.Index() && Parent(Join(dir, names[k])) == dir)
            && (forall j, k :: 0 <= j < k < |names| ==> names[j] != names[k])
  {
    hide IsPath, Parent, BaseName, Name, Join, DataOk, InodesOk, FreshOk, CountsOk;
    assert LinksOf(fs.Index(), fs.blocks, dir);
    var names := Links(fs.blocks, fs.Index()[dir]);
    forall k | 0 <= k < |names| ensures Join(dir, names[k]) in fs.Index() && Parent(Join(dir, names[k])) == dir {
      SplitJoin(dir, names[k]);
    }
    if q in fs.Index() && q != "/" && Parent(q) == dir {
      JoinSplit(q);
    }
  }

  /** Every path leads up to the root: following parents stays in the table and ends at "/". */
  lemma {:induction false} RootReached(fs: Fs, p: string) returns (up: seq<string>)
    requires Inv(fs) && p in fs.Index()
    ensures |up| > 0 && up[0] == p && up[|up| - 1] == "/"
    ensures forall k :: 0 <= k < |up| - 1 ==> up[k] != "/" && up[k + 1] == Parent(up[k])
    ensures forall k :: 0 <= k < |up| ==> up[k] in fs.Index()
    decreases |p|
  {
    hide Inv, Parent, ToMap;
    if p == "/" {
      up := [p];
    } else {
      UpOne(fs, p);
      up := RootReached(fs, Parent(p));
      var rest := up;
      up := [p] + rest;
      assert forall k :: 0 < k < |up| ==> up[k] == rest[k - 1];
    }
  }

  lemma UpOne(fs: Fs, p: string)
    requires Inv(fs) && p in fs.Index() && p != "/"
    ensures Parent(p) in fs.Index() && |Parent(p)| < |p|
  {
    var i := AfterLast(p, '/');
    assert IsPath(p);
    assert |p[i..]| > 0;
  }

  /** A new inode's id was never used, and no block waits under it. */
  lemma NewInodeClean(fs: Fs, b: nat)
    requires Inv(fs)
    ensures fs.next !in fs.inodes && PathsTo(fs.Index(), fs.next) == {} && (fs.next, b) !in fs.blocks
  {
    hide IsPath, Parent, LinksOk, DataOk, InodesOk;
    LinkCount(fs, fs.next);
  }

  // The next id

  /** The counter is the smallest unused id. */
  ghost predicate SmallestUnused(fs: Fs) {
    fs.next !in fs.inodes && forall i: nat :: i < fs.next ==> i in fs.inodes
  }

  /** The step deletes the last path of its inode. */
  ghost predicate TakesLastPath(fs: Fs, step: Step) {
    && step.DeleteStep? && step.path in fs.Index() && fs.Index()[step.path] in fs.inodes
    && var n := fs.inodes[fs.Index()[step.path]]; !(IsReg(n) && n.nlink > 1)
  }

  /** The ids below the counter that no inode has. */
  function Missing(fs: Fs): set<nat> {
    set i: nat | i < fs.next && i !in fs.inodes
  }

  lemma StepIds(fs: Fs, step: Step, fs': Fs)
    requires Inv(fs) && StepTo(fs, step, fs')
    ensures fs'.next == fs.next + if step.CreateStep? then 1 else 0
    ensures TakesLastPath(fs, step) ==> fs'.inodes.Keys == fs.inodes.Keys - {fs.Index()[step.path]}
    ensures !TakesLastPath(fs, step) ==> fs'.inodes.Keys == fs.inodes.Keys + if step.CreateStep? then {fs.next} else {}
  {
    hide IsPath, Parent, BaseName, TreeOk, CountsOk, LinksOk, DataOk, InodesOk, InodeOk, SetLinks, Links, WriteBlocks,
         GetFileBlocksInfo, FullBlocks, DropName, Without, DropBlocks, Storable, ToMap;
    match step
    case CreateStep(path, n) => CreateIds(fs, path, n);
    case LinkStep(oldPath, newPath) => LinkIds(fs, oldPath, newPath);
    case DeleteStep(path) => assert fs'.inodes == Left(fs, fs.Index()[path]).0;
    case WriteStep(path, offset, buf) =>
    case SetStep(path, n) =>
  }

  lemma CreateIds(fs: Fs, path: string, n: Inode)
    requires CanCreate(fs, path, n)
    ensures Parent(path) != path && Create(fs, path, n).next == fs.next + 1
    ensures Create(fs, path, n).inodes.Keys == fs.inodes.Keys + {fs.next}
  {
    hide IsPath, Parent, BaseName, Links, SetLinks, InodeOk, ToMap;
    MapAppend(fs.table, Item(path, fs.next));
  }

  lemma LinkIds(fs: Fs, oldPath: string, newPath: string)
    requires CanLink(fs, oldPath, newPath)
    ensures Parent(newPath) != newPath && Link(fs, oldPath, newPath).next == fs.next
    ensures Link(fs, oldPath, newPath).inodes.Keys == fs.inodes.Keys
  {
    hide IsPath, Parent, BaseName, Links, SetLinks, InodeOk, ToMap;
    MapAppend(fs.table, Item(newPath, fs.Index()[oldPath]));
  }

  lemma StepMissing(fs: Fs, step: Step, fs': Fs)
    requires Inv(fs) && StepTo(fs, step, fs')
    ensures Missing(fs') == Missing(fs) + if TakesLastPath(fs, step) then {fs.Index()[step.path]} else {}
  {
    hide Inv, StepTo, ToMap, IsReg;
    StepIds(fs, step, fs');
    NextIsFree(fs);
  }

  lemma NextIsFree(fs: Fs)
    requires Inv(fs)
    ensures forall i :: i in fs.inodes ==> i < fs.next
  {
  }

  /** In a run from the first mount the counter is the smallest unused id if and only if no step so far has deleted
      the last path of an inode. */
  lemma {:induction false} SmallestId(states: seq<Fs>, steps: seq<Step>, uid: nat, gid: nat, k: nat)
    requires IsRun(states, steps, uid, gid) && k < |states|
    ensures SmallestUnused(states[k]) <==> Missing(states[k]) == {}
    ensures SmallestUnused(states[k]) <==> forall m :: 0 <= m < k ==> !TakesLastPath(states[m], steps[m])
  {
    hide Inv, StepTo, TakesLastPath, Init, ToMap;
    RunSafe(states, steps, uid, gid, k);
    NextIsFree(states[k]);
    assert SmallestUnused(states[k]) <==> Missing(states[k]) == {} by {
      assert forall i: nat :: i < states[k].next && i !in states[k].inodes ==> i in Missing(states[k]);
    }
    if k == 0 {
      InitShape(uid, gid);
    } else {
      SmallestId(states, steps, uid, gid, k - 1);
      RunSafe(states, steps, uid, gid, k - 1);
      StepMissing(states[k - 1], steps[k - 1], states[k]);
    }
  }
}
