/** The specification: a flat file system of names and byte sequences. Every run of the block-wise system is a run
    of this one. */
module FlatSystem {
  import opened Bits
  import opened Items
  import opened Paths
  import opened Records
  import opened RandomAccess
  import opened FsModel
  import opened FsTree
  import opened FsInvariants
  import opened FlatFile
  import opened FsRuns

  /** Names map to file ids, ids to contents; directories and symbolic links have no content here. */
  datatype Flat = Flat(names: map<string, nat>, files: map<nat, string>, next: nat)

  ghost function FlatNext(f: Flat, step: Step): Flat {
    match step
    case CreateStep(path, n) =>
      Flat(f.names[path := f.next], if IsReg(n) then f.files[f.next := ""] else f.files, f.next + 1)
    case LinkStep(oldPath, newPath) =>
      if oldPath in f.names then f.(names := f.names[newPath := f.names[oldPath]]) else f
    case DeleteStep(path) =>
      if path !in f.names then f
      else
        var i, names := f.names[path], f.names - {path};
        f.(names := names, files := if exists q :: q in names && names[q] == i then f.files else f.files - {i})
    case WriteStep(path, offset, buf) =>
      if path in f.names && f.names[path] in f.files
      then f.(files := f.files[f.names[path] := Splice(f.files[f.names[path]], offset, buf)])
      else f
    case SetStep(path, n) => f
  }

  /** Every block a write touches can be stored; the other steps lose nothing. */
  ghost predicate Lossless(fs: Fs, step: Step) {
    step.WriteStep? && step.path in fs.Index() && FullBlocks(fs.blocks, fs.Index()[step.path]) ==>
      AllStorable(fs.blocks, fs.Index()[step.path], step.offset, step.buf)
  }

  ghost predicate AllFull(fs: Fs) {
    forall i :: i in fs.inodes && IsReg(fs.inodes[i]) ==> FullBlocks(fs.blocks, i)
  }

  lemma InvFull(fs: Fs)
    requires Inv(fs)
    ensures AllFull(fs)
  {
    hide FullBlocks, TreeOk, CountsOk, LinksOk, FreshOk, InodesOk, BlockOk, IsReg;
    forall i | i in fs.inodes && IsReg(fs.inodes[i]) ensures FullBlocks(fs.blocks, i) {
      BlocksFull(fs, i);
    }
  }

  function Regulars(inodes: map<nat, Inode>): set<nat> {
    set i | i in inodes && IsReg(inodes[i])
  }

  ghost function Files(fs: Fs): (files: map<nat, string>)
    requires AllFull(fs)
    ensures files.Keys == Regulars(fs.inodes)
    ensures forall i :: i in files ==> files[i] == File(fs, i)
  {
    map i | i in fs.inodes && IsReg(fs.inodes[i]) :: File(fs, i)
  }

  /** The abstraction: forget records, blocks and directory blocks. */
  ghost function Abs(fs: Fs): Flat
    requires AllFull(fs)
  {
    Flat(fs.Index(), Files(fs), fs.next)
  }

  /** File i is untouched. */
  ghost predicate SameFile(fs: Fs, fs': Fs, i: nat) {
    && i in fs.inodes && i in fs'.inodes && fs'.inodes[i].size == fs.inodes[i].size
    && (forall b: nat {:trigger (i, b)} :: (i, b) in fs'.blocks <==> (i, b) in fs.blocks)
    && (forall b: nat {:trigger (i, b)} :: (i, b) in fs.blocks ==> fs'.blocks[(i, b)] == fs.blocks[(i, b)])
  }

  /** If every file that stays is untouched, the contents are the same map on those ids. */
  lemma FilesKept(fs: Fs, fs': Fs, i: nat)
    requires AllFull(fs) && AllFull(fs') && i in fs.inodes && IsReg(fs.inodes[i]) && SameFile(fs, fs', i)
    requires i in fs'.inodes && IsReg(fs'.inodes[i])
    ensures Files(fs')[i] == Files(fs)[i]
  {
    FileSame(fs, fs', i);
  }

  /** Files that stay untouched and stay regular have their contents in both states. */
  lemma AllKept(fs: Fs, fs': Fs, keep: set<nat>)
    requires AllFull(fs) && AllFull(fs')
    requires keep <= Regulars(fs.inodes) && keep <= Regulars(fs'.inodes)
    requires forall j :: j in keep ==> SameFile(fs, fs', j)
    ensures forall j :: j in keep ==> Files(fs')[j] == Files(fs)[j]
  {
    hide SameFile, AllFull, Files;
    forall j | j in keep ensures Files(fs')[j] == Files(fs)[j] {
      FilesKept(fs, fs', j);
    }
  }

  /** Rewriting a directory's block touches no file. */
  lemma LinksTouchNoFile(fs: Fs, fs': Fs, d: nat, names: seq<string>, j: nat)
    requires fs'.blocks == SetLinks(fs.blocks, d, names) && j != d
    requires j in fs.inodes && j in fs'.inodes && fs'.inodes[j].size == fs.inodes[j].size
    ensures SameFile(fs, fs', j)
  {
  }

  lemma CreateShape(fs: Fs, path: string, n: Inode, fs': Fs)
    requires Inv(fs) && StepTo(fs, CreateStep(path, n), fs')
    ensures fs'.Index() == fs.Index()[path := fs.next] && fs'.next == fs.next + 1
    ensures fs.next !in fs.inodes && fs.next in fs'.inodes && (IsReg(n) ==> fs'.inodes[fs.next].size == 0)
    ensures Regulars(fs'.inodes) == Regulars(fs.inodes) + (if IsReg(n) then {fs.next} else {})
    ensures forall j :: j in Regulars(fs.inodes) ==> SameFile(fs, fs', j)
  {
    hide IsPath, Parent, BaseName, TreeOk, LinksOk, InodesOk, DataOk, CountsOk, InodeOk, Links, SetLinks, SameFile,
         Create, ToMap;
    var d, i := fs.Index()[Parent(path)], fs.next;
    var nd := fs.inodes[d].(blocks := fs.inodes[d].blocks + 1);
    CreateFields(fs, path, n);
    assert i !in fs.inodes && IsDir(fs.inodes[d]);
    RegularsSet(fs.inodes, i, n);
    RegularsSet(fs.inodes[i := n], d, nd);
    forall j | j in Regulars(fs.inodes) ensures SameFile(fs, fs', j) {
      LinksTouchNoFile(fs, fs', d, Links(fs.blocks, d) + [BaseName(path)], j);
    }
  }

  lemma CreateFields(fs: Fs, path: string, n: Inode)
    requires Addable(fs.Index(), fs.inodes, path)
    ensures var d := fs.Index()[Parent(path)];
            && Parent(path) != path
            && Create(fs, path, n).Index() == fs.Index()[path := fs.next] && Create(fs, path, n).next == fs.next + 1
            && Create(fs, path, n).blocks == SetLinks(fs.blocks, d, Links(fs.blocks, d) + [BaseName(path)])
            && (d != fs.next ==>
                Create(fs, path, n).inodes ==
                fs.inodes[fs.next := n][d := fs.inodes[d].(blocks := fs.inodes[d].blocks + 1)])
  {
    hide IsPath, Parent, BaseName, Links, SetLinks, ToMap;
    MapAppend(fs.table, Item(path, fs.next));
  }

  lemma RegularsSet(inodes: map<nat, Inode>, i: nat, n: Inode)
    ensures Regulars(inodes[i := n]) == (if IsReg(n) then Regulars(inodes) + {i} else Regulars(inodes) - {i})
  {
  }

  lemma SimCreate(fs: Fs, path: string, n: Inode, fs': Fs)
    requires Inv(fs) && AllFull(fs) && StepTo(fs, CreateStep(path, n), fs') && AllFull(fs')
    ensures Abs(fs') == FlatNext(Abs(fs), CreateStep(path, n))
  {
    hide Inv, StepTo, AllFull, Files, SameFile, IsReg, ToMap;
    CreateShape(fs, path, n, fs');
    AllKept(fs, fs', Regulars(fs.inodes));
    if IsReg(n) {
      RegularIn(fs'.inodes, fs.next);
      NewFile(fs', fs.next);
    }
  }

  lemma RegularIn(inodes: map<nat, Inode>, i: nat)
    requires i in Regulars(inodes)
    ensures i in inodes && IsReg(inodes[i])
  {
  }

  lemma NewFile(fs: Fs, i: nat)
    requires AllFull(fs) && i in fs.inodes && IsReg(fs.inodes[i]) && fs.inodes[i].size == 0
    ensures File(fs, i) == "" && Files(fs)[i] == ""
  {
  }

  lemma LinkShape(fs: Fs, oldPath: string, newPath: string, fs': Fs)
    requires Inv(fs) && StepTo(fs, LinkStep(oldPath, newPath), fs')
    ensures oldPath in fs.Index() && fs'.Index() == fs.Index()[newPath := fs.Index()[oldPath]] && fs'.next == fs.next
    ensures Regulars(fs'.inodes) == Regulars(fs.inodes)
    ensures forall j :: j in Regulars(fs.inodes) ==> SameFile(fs, fs', j)
  {
    hide IsPath, Parent, BaseName, LinksOk, InodesOk, DataOk, CountsOk, InodeOk, Links, SetLinks, SameFile, Link, ToMap;
    var i, d := fs.Index()[oldPath], fs.Index()[Parent(newPath)];
    var n, nd := fs.inodes[i].(nlink := fs.inodes[i].nlink + 1), fs.inodes[d].(blocks := fs.inodes[d].blocks + 1);
    LinkFields(fs, oldPath, newPath);
    RegularsSet(fs.inodes, i, n);
    RegularsSet(fs.inodes[i := n], d, nd);
    forall j | j in Regulars(fs.inodes) ensures SameFile(fs, fs', j) {
      LinksTouchNoFile(fs, fs', d, Links(fs.blocks, d) + [BaseName(newPath)], j);
    }
  }

  lemma LinkFields(fs: Fs, oldPath: string, newPath: string)
    requires CanLink(fs, oldPath, newPath)
    ensures var i, d := fs.Index()[oldPath], fs.Index()[Parent(newPath)];
            && Parent(newPath) != newPath && i != d
            && Link(fs, oldPath, newPath).Index() == fs.Index()[newPath := i]
                && Link(fs, oldPath, newPath).next == fs.next
            && Link(fs, oldPath, newPath).blocks == SetLinks(fs.blocks, d, Links(fs.blocks, d) + [BaseName(newPath)])
            && Link(fs, oldPath, newPath).inodes ==
               fs.inodes[i := fs.inodes[i].(nlink := fs.inodes[i].nlink + 1)]
                        [d := fs.inodes[d].(blocks := fs.inodes[d].blocks + 1)]
  {
    hide IsPath, Parent, BaseName, Links, SetLinks, ToMap;
    MapAppend(fs.table, Item(newPath, fs.Index()[oldPath]));
  }

  lemma SimLink(fs: Fs, oldPath: string, newPath: string, fs': Fs)
    requires Inv(fs) && AllFull(fs) && StepTo(fs, LinkStep(oldPath, newPath), fs') && AllFull(fs')
    ensures Abs(fs') == FlatNext(Abs(fs), LinkStep(oldPath, newPath))
  {
    hide Inv, StepTo, AllFull, Files, SameFile, IsReg, ToMap;
    LinkShape(fs, oldPath, newPath, fs');
    AllKept(fs, fs', Regulars(fs.inodes));
  }

  lemma DeleteShape(fs: Fs, path: string, fs': Fs)
    requires Inv(fs) && StepTo(fs, DeleteStep(path), fs')
    ensures path in fs.Index() && fs'.Index() == fs.Index() - {path} && fs'.next == fs.next
    ensures var i := fs.Index()[path];
            && ((exists q :: q in fs.Index() - {path} && (fs.Index() - {path})[q] == i) <==> i in fs'.inodes)
            && Regulars(fs'.inodes) == if i in fs'.inodes then Regulars(fs.inodes) else Regulars(fs.inodes) - {i}
    ensures forall j :: j in Regulars(fs'.inodes) ==> SameFile(fs, fs', j)
  {
    hide IsPath, Parent, BaseName, LinksOk, InodesOk, DataOk, CountsOk, InodeOk, Links, Without, DropName, SetLinks,
         Delete, SameFile, ToMap;
    var i, d := fs.Index()[path], fs.Index()[Parent(path)];
    ParentLives(fs, path);
    MapWithout(fs.table, path);
    LastOrNot(fs, path);
    DeleteFields(fs, path);
    RegularsLeft(fs, i);
    forall j | j in Regulars(fs'.inodes) ensures SameFile(fs, fs', j) {
      var left := fs.(inodes := Left(fs, i).0, blocks := Left(fs, i).1);
      LinksTouchNoFile(left, fs', d, DropName(Links(left.blocks, d), BaseName(path)), j);
      LeftSame(fs, left, fs', i, j);
    }
  }

  lemma DeleteFields(fs: Fs, path: string)
    requires CanDelete(fs, path) && Parent(path) in fs.Index()
    ensures var i, d := fs.Index()[path], fs.Index()[Parent(path)];
            && Delete(fs, path).table == Without(fs.table, path) && Delete(fs, path).next == fs.next
            && Delete(fs, path).inodes == Left(fs, i).0
            && Delete(fs, path).blocks == SetLinks(Left(fs, i).1, d, DropName(Links(Left(fs, i).1, d), BaseName(path)))
  {
    hide IsPath, Parent, BaseName, Links, SetLinks, ToMap, DropName, Without, DropBlocks;
  }

  lemma RegularsLeft(fs: Fs, i: nat)
    requires i in fs.inodes
    ensures Regulars(Left(fs, i).0) == if i in Left(fs, i).0 then Regulars(fs.inodes) else Regulars(fs.inodes) - {i}
  {
  }

  lemma LeftSame(fs: Fs, left: Fs, fs': Fs, i: nat, j: nat)
    requires i in fs.inodes && left.inodes == Left(fs, i).0 && left.blocks == Left(fs, i).1
    requires j in left.inodes && SameFile(left, fs', j)
    ensures SameFile(fs, fs', j)
  {
  }

  lemma SimDelete(fs: Fs, path: string, fs': Fs)
    requires Inv(fs) && AllFull(fs) && StepTo(fs, DeleteStep(path), fs') && AllFull(fs')
    ensures Abs(fs') == FlatNext(Abs(fs), DeleteStep(path))
  {
    hide Inv, StepTo, AllFull, Files, SameFile, IsReg, ToMap;
    DeleteShape(fs, path, fs');
    AllKept(fs, fs', Regulars(fs'.inodes));
  }

  /** The inode goes with its last path. */
  lemma LastOrNot(fs: Fs, path: string)
    requires Inv(fs) && CanDelete(fs, path) && Parent(path) in fs.Index()
    ensures var m, i := fs.Index(), fs.Index()[path];
            (exists q :: q in m - {path} && (m - {path})[q] == i) <==> i in Delete(fs, path).inodes
  {
    hide IsPath, Parent, BaseName, LinksOk, InodesOk, DataOk, Links, Without, DropName;
    var m, i := fs.Index(), fs.Index()[path];
    if q :| q in m - {path} && (m - {path})[q] == i {
      LastPath(m, fs.inodes, path, q);
    }
    if i in Delete(fs, path).inodes {
      PathsDrop(m, path, i);
      assert |PathsTo(m - {path}, i)| > 0;
      var q :| q in PathsTo(m - {path}, i);
      assert q in m - {path} && (m - {path})[q] == i;
    }
  }

  lemma SimWrite(fs: Fs, path: string, offset: nat, buf: string, fs': Fs)
    requires Inv(fs) && AllFull(fs) && StepTo(fs, WriteStep(path, offset, buf), fs') && AllFull(fs')
    ensures Abs(fs') == FlatNext(Abs(fs), WriteStep(path, offset, buf)) <==> Lossless(fs, WriteStep(path, offset, buf))
  {
    hide Inv, StepTo, AllFull, Files, SameFile, IsReg, ToMap, Splice, File, FullBlocks, AllStorable;
    WriteShape(fs, path, offset, buf, fs');
    var i := fs.Index()[path];
    AllKept(fs, fs', Regulars(fs.inodes) - {i});
    RegularIn(fs.inodes, i);
    RegularIn(fs'.inodes, i);
    if Abs(fs') == FlatNext(Abs(fs), WriteStep(path, offset, buf)) {
      assert Abs(fs').files[i] == Splice(File(fs, i), offset, buf);
    }
  }

  lemma WriteShape(fs: Fs, path: string, offset: nat, buf: string, fs': Fs)
    requires Inv(fs) && StepTo(fs, WriteStep(path, offset, buf), fs')
    ensures path in fs.Index() && fs'.Index() == fs.Index() && fs'.next == fs.next
    ensures Regulars(fs'.inodes) == Regulars(fs.inodes) && fs.Index()[path] in Regulars(fs.inodes)
    ensures var i := fs.Index()[path];
            && (forall j :: j in Regulars(fs.inodes) - {i} ==> SameFile(fs, fs', j))
            && FullBlocks(fs.blocks, i) && FullBlocks(fs'.blocks, i)
            && (File(fs', i) == Splice(File(fs, i), offset, buf) <==> AllStorable(fs.blocks, i, offset, buf))
  {
    hide IsPath, Parent, BaseName, LinksOk, InodesOk, DataOk, CountsOk, InodeOk, File, Links, AllStorable, WriteBlocks,
         GetFileBlocksInfo, BlockOk, TreeOk, FreshOk, Splice, FullBlocks, Coverable, ToMap;
    var i := fs.Index()[path];
    WriteExactly(fs, i, offset, buf);
    WriteElsewhere(fs, i, offset, buf);
    RegularsSet(fs.inodes, i, fs'.inodes[i]);
  }

  /** A write to one inode leaves the blocks of every other alone. */
  lemma WriteElsewhere(fs: Fs, i: nat, offset: nat, buf: string)
    requires Inv(fs) && i in fs.inodes && IsReg(fs.inodes[i]) && FullBlocks(fs.blocks, i)
    ensures forall x: (nat, nat) :: x.0 != i ==> (x in Write(fs, i, offset, buf).blocks <==> x in fs.blocks)
    ensures forall x: (nat, nat) :: x.0 != i && x in fs.blocks ==> Write(fs, i, offset, buf).blocks[x] == fs.blocks[x]
  {
    hide WriteBlocks, GetFileBlocksInfo, FullBlocks, TreeOk, CountsOk, LinksOk, InodesOk, FreshOk, BlockOk;
    var info, n := GetFileBlocksInfo(offset, |buf|, BLOCK), fs.inodes[i];
    forall b: nat | (i, b) in fs.blocks ensures BlockOk(n, b, fs.blocks[(i, b)]) {
      assert (i, b).0 in fs.inodes;
    }
    WrittenOk(n, n.(size := Max(n.size, offset + |buf|)), fs.blocks, i, info.startBlock, info.numBlocks, offset, buf);
  }

  lemma SimSet(fs: Fs, path: string, n: Inode, fs': Fs)
    requires Inv(fs) && AllFull(fs) && StepTo(fs, SetStep(path, n), fs') && AllFull(fs')
    ensures Abs(fs') == FlatNext(Abs(fs), SetStep(path, n))
  {
    hide Inv, StepTo, AllFull, Files, SameFile, IsReg, ToMap;
    SetShape(fs, path, n, fs');
    AllKept(fs, fs', Regulars(fs.inodes));
  }

  lemma SetShape(fs: Fs, path: string, n: Inode, fs': Fs)
    requires StepTo(fs, SetStep(path, n), fs')
    ensures fs'.Index() == fs.Index() && fs'.next == fs.next && Regulars(fs'.inodes) == Regulars(fs.inodes)
    ensures forall j :: j in Regulars(fs.inodes) ==> SameFile(fs, fs', j)
  {
    hide InodeOk, ToMap;
    RegularsSet(fs.inodes, fs.Index()[path], n);
  }

  /** Every step of the block-wise system is the same step of the flat one, if and only if it loses no block. */
  lemma Simulates(fs: Fs, step: Step, fs': Fs)
    requires Inv(fs) && StepTo(fs, step, fs')
    ensures AllFull(fs) && AllFull(fs')
    ensures Abs(fs') == FlatNext(Abs(fs), step) <==> Lossless(fs, step)
  {
    hide Inv, StepTo, AllFull, Abs, FlatNext;
    StepKeeps(fs, step, fs');
    InvFull(fs);
    InvFull(fs');
    match step
    case CreateStep(path, n) => SimCreate(fs, path, n, fs');
    case LinkStep(oldPath, newPath) => SimLink(fs, oldPath, newPath, fs');
    case DeleteStep(path) => SimDelete(fs, path, fs');
    case WriteStep(path, offset, buf) => SimWrite(fs, path, offset, buf, fs');
    case SetStep(path, n) => SimSet(fs, path, n, fs');
  }

  ghost function FlatRun(f: Flat, steps: seq<Step>): Flat {
    if steps == [] then f else FlatNext(FlatRun(f, steps[..|steps| - 1]), steps[|steps| - 1])
  }

  /** A whole run that loses no block, from the first mount on: the flat system starts with just the root and takes
      the same steps. */
  lemma {:induction false} RunSimulates(states: seq<Fs>, steps: seq<Step>, uid: nat, gid: nat, k: nat)
    requires IsRun(states, steps, uid, gid) && k < |states|
    requires forall m :: 0 <= m < k ==> Lossless(states[m], steps[m])
    ensures AllFull(states[k]) && Abs(states[k]) == FlatRun(Flat(map["/" := 0], map[], 1), steps[..k])
  {
    hide Inv, StepTo, AllFull, Abs, FlatNext, Init, Lossless;
    if k == 0 {
      InitFlat(uid, gid);
    } else {
      RunSimulates(states, steps, uid, gid, k - 1);
      RunSafe(states, steps, uid, gid, k - 1);
      Simulates(states[k - 1], steps[k - 1], states[k]);
      assert steps[..k][..k - 1] == steps[..k - 1];
    }
  }

  lemma InitFlat(uid: nat, gid: nat)
    ensures AllFull(Init(uid, gid)) && Abs(Init(uid, gid)) == Flat(map["/" := 0], map[], 1)
  {
    InitOk(uid, gid);
    InvFull(Init(uid, gid));
    assert Init(uid, gid).table == [Item("/", 0)];
    MapAppend([], Item("/", 0));
    assert [] + [Item("/", 0)] == [Item("/", 0)];
    assert Regulars(Init(uid, gid).inodes) == {};
  }
}
