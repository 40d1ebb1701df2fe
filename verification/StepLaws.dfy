/** The whole effect of every step on inodes, entries, names and blocks, spelled out, and what follows for an inode
    over its life. */
module StepLaws {
  import opened Lines
  import opened Items
  import opened Paths
  import opened Records
  import opened RandomAccess
  import opened FsModel
  import opened FsTree
  import opened FsInvariants
  import opened FlatFile
  import opened FsRuns
  import opened FlatSystem
  import opened FsText
  import opened StaleBlocks

  ghost predicate Leads(fs: Fs, path: string, i: nat) {
    path in fs.Index() && fs.Index()[path] == i
  }

  /** The step puts a name into directory i. */
  ghost predicate Enters(fs: Fs, step: Step, i: nat) {
    match step
    case CreateStep(path, n) => Leads(fs, Parent(path), i)
    case LinkStep(oldPath, newPath) => Leads(fs, Parent(newPath), i)
    case DeleteStep(path) => false
    case WriteStep(path, offset, buf) => false
    case SetStep(path, n) => false
  }

  // Inodes

  /** What getattr reports of an inode that stays. Owner, mode and text change in a set step on the inode only; links
      are counted in link and delete steps on it; the size is the end of the furthest write; st_blocks counts the names
      entered into a directory, or the blocks of the last write. */
  lemma InodeStep(fs: Fs, step: Step, fs': Fs, i: nat)
    requires Inv(fs) && StepTo(fs, step, fs') && i in fs.inodes && i in fs'.inodes
    ensures var n, n' := fs.inodes[i], fs'.inodes[i];
            && (!(step.SetStep? && Leads(fs, step.path, i)) ==>
                  n'.mode == n.mode && n'.uid == n.uid && n'.gid == n.gid && n'.tail == n.tail)
            && n'.nlink == n.nlink + (if step.LinkStep? && Leads(fs, step.oldPath, i) then 1 else 0)
                           - (if step.DeleteStep? && Leads(fs, step.path, i) then 1 else 0)
            && n'.size == (if step.WriteStep? && Leads(fs, step.path, i) && step.offset + |step.buf| > n.size
                           then step.offset + |step.buf| else n.size)
            && n'.blocks == (if Enters(fs, step, i) then n.blocks + 1
                             else if step.WriteStep? && Leads(fs, step.path, i) then BlocksOf(step.offset, |step.buf|)
                             else n.blocks)
  {
    hide IsPath, Parent, BaseName, TreeOk, CountsOk, LinksOk, DataOk, InodesOk, InodeOk, SetLinks, Links, WriteBlocks,
         GetFileBlocksInfo, FullBlocks, DropName, Without, DropBlocks, Storable, ToMap, Create, Link, Delete,
         BlocksOf, Coverable;
    NextIsFree(fs);
    match step
    case CreateStep(path, n) => CreateFields(fs, path, n);
    case LinkStep(oldPath, newPath) => LinkFields(fs, oldPath, newPath);
    case DeleteStep(path) => DeleteFields(fs, path);
    case WriteStep(path, offset, buf) => BlocksNamed(offset, |buf|);
    case SetStep(path, n) =>
  }

  /** The blocks a write touches, one more when it starts inside a block and ends at the end of a later one, and one
      when it writes nothing. */
  function BlocksOf(offset: nat, size: nat): nat {
    if size == 0 then 1
    else (offset + size - 1) / BLOCK - offset / BLOCK + 1 + if SpareBlock(offset, size, BLOCK) then 1 else 0
  }

  lemma BlocksNamed(offset: nat, size: nat)
    requires Coverable(offset, size, BLOCK)
    ensures GetFileBlocksInfo(offset, size, BLOCK).numBlocks == BlocksOf(offset, size)
    ensures GetFileBlocksInfo(offset, size, BLOCK).startBlock == offset / BLOCK
  {
    hide Coverable, SpareBlock;
    if size > 0 {
      BlockCount(offset, size, BLOCK);
    }
  }

  /** A write of a covered range: the blocks, st_blocks and st_size change. */
  lemma WriteEffect(fs: Fs, i: nat, offset: nat, buf: string)
    requires i in fs.inodes && FullBlocks(fs.blocks, i) && Coverable(offset, |buf|, BLOCK)
    ensures var n, fs' := fs.inodes[i], Write(fs, i, offset, buf);
            fs' == fs.(blocks := fs'.blocks, inodes := fs.inodes[i :=
              n.(blocks := BlocksOf(offset, |buf|),
                  size := if offset + |buf| > n.size then offset + |buf| else n.size)])
  {
    hide BlocksOf, WriteBlocks, FullBlocks, GetFileBlocksInfo, Coverable;
    BlocksNamed(offset, |buf|);
  }

  /** A step makes an inode only as the create step says, and a set step replaces one record as it says. */
  lemma RecordStep(fs: Fs, step: Step, fs': Fs)
    requires Inv(fs) && StepTo(fs, step, fs')
    ensures step.CreateStep? ==> fs.next !in fs.inodes && fs.next in fs'.inodes && fs'.inodes[fs.next] == step.n
    ensures step.SetStep? ==>
              && step.path in fs.Index() && fs.Index()[step.path] in fs'.inodes
              && fs'.inodes[fs.Index()[step.path]] == step.n
              && fs'.table == fs.table && fs'.next == fs.next && fs'.blocks == fs.blocks
  {
    hide IsPath, Parent, BaseName, TreeOk, CountsOk, LinksOk, DataOk, InodesOk, InodeOk, SetLinks, Links, ToMap,
         Create, Link, Delete, Write;
    NextIsFree(fs);
    if step.CreateStep? {
      CreateFields(fs, step.path, step.n);
      assert fs.Index()[Parent(step.path)] in fs.inodes;
    }
  }

  // Entries and names

  /** Entries are appended, or one is taken out; nothing else happens to the table. */
  lemma TableStep(fs: Fs, step: Step, fs': Fs)
    requires Inv(fs) && StepTo(fs, step, fs')
    ensures match step
            case CreateStep(path, n) => fs'.table == fs.table + [Item(path, fs.next)]
            case LinkStep(oldPath, newPath) =>
              oldPath in fs.Index() && fs'.table == fs.table + [Item(newPath, fs.Index()[oldPath])]
            case DeleteStep(path) =>
              exists p :: 0 <= p < |fs.table| && fs.table[p].key == path
                  && fs'.table == fs.table[..p] + fs.table[p + 1..]
            case WriteStep(path, offset, buf) => fs'.table == fs.table
            case SetStep(path, n) => fs'.table == fs.table
  {
    hide IsPath, Parent, BaseName, TreeOk, CountsOk, LinksOk, DataOk, InodesOk, InodeOk, FreshOk, SetLinks, Links,
         ToMap, WriteBlocks, GetFileBlocksInfo, DropName, DropBlocks, Without, FullBlocks, Coverable;
    match step
    case CreateStep(path, n) => MapAppend(fs.table, Item(path, fs.next));
    case LinkStep(oldPath, newPath) => MapAppend(fs.table, Item(newPath, fs.Index()[oldPath]));
    case DeleteStep(path) =>
      var p :| 0 <= p < |fs.table| && fs.table[p].key == path;
      WithoutAt(fs.table, p);
    case WriteStep(path, offset, buf) =>
    case SetStep(path, n) =>
  }

  /** A new name goes to the end of its directory's list; a deleted one leaves the others in order. */
  lemma NamesStep(fs: Fs, step: Step, fs': Fs)
    requires Inv(fs) && StepTo(fs, step, fs')
    ensures step.CreateStep? ==> Appended(fs, fs', step.path)
    ensures step.LinkStep? ==> Appended(fs, fs', step.newPath)
    ensures step.DeleteStep? ==> TakenOut(fs, fs', step.path)
  {
    hide Inv, StepTo, Appended, TakenOut;
    match step
    case CreateStep(path, n) => CreatedName(fs, path, n, fs');
    case LinkStep(oldPath, newPath) => LinkedName(fs, oldPath, newPath, fs');
    case DeleteStep(path) => DeletedName(fs, path, fs');
    case WriteStep(path, offset, buf) =>
    case SetStep(path, n) =>
  }

  ghost predicate Appended(fs: Fs, fs': Fs, path: string) {
    && Parent(path) in fs.Index()
    && var d := fs.Index()[Parent(path)]; Links(fs'.blocks, d) == Links(fs.blocks, d) + [BaseName(path)]
  }

  ghost predicate TakenOut(fs: Fs, fs': Fs, path: string) {
    && Parent(path) in fs.Index()
    && var names, names' := Links(fs.blocks, fs.Index()[Parent(path)]), Links(fs'.blocks, fs.Index()[Parent(path)]);
       exists p :: 0 <= p < |names| && names[p] == BaseName(path) && names' == names[..p] + names[p + 1..]
  }

  lemma CreatedName(fs: Fs, path: string, n: Inode, fs': Fs)
    requires Inv(fs) && StepTo(fs, CreateStep(path, n), fs')
    ensures Appended(fs, fs', path)
  {
    hide Inv, IsPath, Parent, BaseName, Links, SetLinks, ToMap, Create, InodeOk;
    CreateFields(fs, path, n);
    NameAdded(fs, path);
  }

  lemma LinkedName(fs: Fs, oldPath: string, newPath: string, fs': Fs)
    requires Inv(fs) && StepTo(fs, LinkStep(oldPath, newPath), fs')
    ensures Appended(fs, fs', newPath)
  {
    hide Inv, IsPath, Parent, BaseName, Links, SetLinks, ToMap, Link, InodeOk;
    LinkFields(fs, oldPath, newPath);
    NameAdded(fs, newPath);
  }

  lemma NameAdded(fs: Fs, path: string)
    requires Inv(fs) && Addable(fs.Index(), fs.inodes, path)
    ensures var d, names := fs.Index()[Parent(path)], Links(fs.blocks, fs.Index()[Parent(path)]) + [BaseName(path)];
            Links(SetLinks(fs.blocks, d, names), d) == names
  {
    hide IsPath, Parent, BaseName, Links, SetLinks, ToMap, CountsOk, DataOk, InodesOk, FreshOk, LinksOf;
    assert LinksOf(fs.Index(), fs.blocks, Parent(path));
    NamesGrow(fs.Index(), fs.blocks, path);
    LinksRoundTrip(fs.blocks, fs.Index()[Parent(path)],
                   Links(fs.blocks, fs.Index()[Parent(path)]) + [BaseName(path)]);
  }

  lemma DeletedName(fs: Fs, path: string, fs': Fs)
    requires Inv(fs) && StepTo(fs, DeleteStep(path), fs')
    ensures TakenOut(fs, fs', path)
  {
    hide IsPath, Parent, BaseName, SetLinks, ToMap, Delete, CountsOk, DataOk, InodesOk, FreshOk, LinksOf, DropName,
         Split, Enc;
    var i, d := fs.Index()[path], fs.Index()[Parent(path)];
    ParentLives(fs, path);
    DeleteFields(fs, path);
    assert LinksOf(fs.Index(), fs.blocks, Parent(path));
    var left := Left(fs, i).1;
    assert Links(left, d) == Links(fs.blocks, d);
    NamesShrink(fs.Index(), fs.blocks, Parent(path), BaseName(path));
    LinksRoundTrip(left, d, DropName(Links(fs.blocks, d), BaseName(path)));
    FirstTakenOut(Links(fs.blocks, d), BaseName(path));
  }

  lemma FirstTakenOut(names: seq<string>, name: string)
    requires name in names
    ensures exists p :: 0 <= p < |names| && names[p] == name && DropName(names, name) == names[..p] + names[p + 1..]
  {
    var p := FirstOf(names, name);
    DropNameIs(names, p);
  }

  lemma {:induction false} FirstOf(names: seq<string>, name: string) returns (p: nat)
    requires name in names
    ensures p < |names| && names[p] == name && forall k :: 0 <= k < p ==> names[k] != name
  {
    if names[0] == name {
      p := 0;
    } else {
      p := FirstOf(names[1..], name);
      p := p + 1;
      assert forall k :: 0 < k < p ==> names[k] == names[1..][k - 1];
    }
  }

  // Blocks

  /** The blocks that a step changes, makes or deletes: block 0 of the directory it changes, the blocks a write touches,
      and the blocks below st_blocks of an inode that loses its last path. All others stay as they are. */
  lemma BlockStep(fs: Fs, step: Step, fs': Fs, i: nat, b: nat)
    requires Inv(fs) && StepTo(fs, step, fs')
    requires !(b == 0 && ChangesNames(fs, step, i))
    requires step.WriteStep? && Leads(fs, step.path, i) ==>
               b < step.offset / BLOCK || b >= step.offset / BLOCK + BlocksOf(step.offset, |step.buf|)
    ensures (i, b) in fs'.blocks <==>
            (i, b) in fs.blocks && !(TakesLastPath(fs, step) && Leads(fs, step.path, i) && b < fs.inodes[i].blocks)
    ensures (i, b) in fs'.blocks ==> fs'.blocks[(i, b)] == fs.blocks[(i, b)]
  {
    hide Inv, StepTo, ToMap, BlocksOf;
    match step
    case CreateStep(path, n) => CreateBlocks(fs, path, n, fs', i, b);
    case LinkStep(oldPath, newPath) => LinkBlocks(fs, oldPath, newPath, fs', i, b);
    case DeleteStep(path) => DeleteBlocks(fs, path, fs', i, b);
    case WriteStep(path, offset, buf) => OtherBlocks(fs, path, offset, buf, fs', i, b);
    case SetStep(path, n) => RecordStep(fs, step, fs');
  }

  /** The step rewrites the names of directory i. */
  ghost predicate ChangesNames(fs: Fs, step: Step, i: nat) {
    Enters(fs, step, i) || (step.DeleteStep? && Leads(fs, Parent(step.path), i))
  }

  lemma CreateBlocks(fs: Fs, path: string, n: Inode, fs': Fs, i: nat, b: nat)
    requires Inv(fs) && StepTo(fs, CreateStep(path, n), fs') && !(b == 0 && Leads(fs, Parent(path), i))
    ensures (i, b) in fs'.blocks <==> (i, b) in fs.blocks
    ensures (i, b) in fs'.blocks ==> fs'.blocks[(i, b)] == fs.blocks[(i, b)]
  {
    hide Inv, IsPath, Parent, BaseName, Links, SetLinks, ToMap, Create, InodeOk;
    CreateFields(fs, path, n);
    var d := fs.Index()[Parent(path)];
    OnlyBlockZero(fs.blocks, d, Links(fs.blocks, d) + [BaseName(path)]);
  }

  lemma LinkBlocks(fs: Fs, oldPath: string, newPath: string, fs': Fs, i: nat, b: nat)
    requires Inv(fs) && StepTo(fs, LinkStep(oldPath, newPath), fs') && !(b == 0 && Leads(fs, Parent(newPath), i))
    ensures (i, b) in fs'.blocks <==> (i, b) in fs.blocks
    ensures (i, b) in fs'.blocks ==> fs'.blocks[(i, b)] == fs.blocks[(i, b)]
  {
    hide Inv, IsPath, Parent, BaseName, Links, SetLinks, ToMap, Link, InodeOk;
    LinkFields(fs, oldPath, newPath);
    var d := fs.Index()[Parent(newPath)];
    OnlyBlockZero(fs.blocks, d, Links(fs.blocks, d) + [BaseName(newPath)]);
  }

  lemma DeleteBlocks(fs: Fs, path: string, fs': Fs, i: nat, b: nat)
    requires Inv(fs) && StepTo(fs, DeleteStep(path), fs') && !(b == 0 && Leads(fs, Parent(path), i))
    ensures (i, b) in fs'.blocks <==>
            (i, b) in fs.blocks
                && !(TakesLastPath(fs, DeleteStep(path)) && Leads(fs, path, i) && b < fs.inodes[i].blocks)
    ensures (i, b) in fs'.blocks ==> fs'.blocks[(i, b)] == fs.blocks[(i, b)]
  {
    hide Inv, IsPath, Parent, BaseName, Links, SetLinks, ToMap, Delete, DropName;
    DeleteFields(fs, path);
    var d, left := fs.Index()[Parent(path)], Left(fs, fs.Index()[path]).1;
    OnlyBlockZero(left, d, DropName(Links(left, d), BaseName(path)));
  }

  lemma OtherBlocks(fs: Fs, path: string, offset: nat, buf: string, fs': Fs, i: nat, b: nat)
    requires Inv(fs) && StepTo(fs, WriteStep(path, offset, buf), fs')
    requires Leads(fs, path, i) ==> b < offset / BLOCK || b >= offset / BLOCK + BlocksOf(offset, |buf|)
    ensures (i, b) in fs'.blocks <==> (i, b) in fs.blocks
    ensures (i, b) in fs'.blocks ==> fs'.blocks[(i, b)] == fs.blocks[(i, b)]
  {
    hide Inv, ToMap, WriteBlocks, GetFileBlocksInfo, FullBlocks, Coverable, BlocksOf, Storable;
    var w, info := fs.Index()[path], GetFileBlocksInfo(offset, |buf|, BLOCK);
    BlocksNamed(offset, |buf|);
    BlocksBeyond(fs.blocks, w, info.startBlock, info.numBlocks, offset, buf, i, b);
  }

  lemma {:induction false} BlocksBeyond(blocks: Blocks, w: nat, start: nat, n: nat, offset: nat, buf: string, i: nat,
                                        b: nat)
    requires FullBlocks(blocks, w) && (i == w ==> b < start || b >= start + n)
    ensures var blocks' := WriteBlocks(blocks, w, start, n, offset, buf);
            && ((i, b) in blocks' <==> (i, b) in blocks)
            && ((i, b) in blocks' ==> blocks'[(i, b)] == blocks[(i, b)])
  {
    hide Storable, NewBlock, FullBlocks, BlockAt;
    if n > 0 {
      BlocksBeyond(blocks, w, start, n - 1, offset, buf, i, b);
    }
  }

  /** A write stores every block it touches, unless the block became the sentinel. */
  lemma TouchedStored(fs: Fs, path: string, offset: nat, buf: string, fs': Fs, b: nat)
    requires Inv(fs) && StepTo(fs, WriteStep(path, offset, buf), fs')
    requires offset / BLOCK <= b < offset / BLOCK + BlocksOf(offset, |buf|)
    ensures path in fs.Index() && FullBlocks(fs.blocks, fs.Index()[path])
    ensures var i := fs.Index()[path];
            && ((i, b) in fs'.blocks <==> (i, b) in fs.blocks || Storable(Fresh(fs.blocks, i, b, offset, buf)))
            && BlockAt(fs'.blocks, i, b) == (if Storable(Fresh(fs.blocks, i, b, offset, buf))
                                             then Fresh(fs.blocks, i, b, offset, buf) else BlockAt(fs.blocks, i, b))
  {
    hide Inv, ToMap, WriteBlocks, GetFileBlocksInfo, FullBlocks, Coverable, BlocksOf, Storable, Fresh, BlockAt;
    var i, info := fs.Index()[path], GetFileBlocksInfo(offset, |buf|, BLOCK);
    BlocksNamed(offset, |buf|);
    WrittenKey(fs.blocks, i, info.startBlock, info.numBlocks, offset, buf, b);
    WrittenBlock(fs.blocks, i, info.startBlock, info.numBlocks, offset, buf, b);
  }

  // The life of an inode

  /** The inodes of a later state that are old enough were there all along, and keep their type; files never shrink. */
  lemma {:induction false} Lifetime(states: seq<Fs>, steps: seq<Step>, uid: nat, gid: nat, j: nat, k: nat, i: nat)
    requires IsRun(states, steps, uid, gid) && j <= k < |states|
    requires i < states[j].next && i in states[k].inodes
    ensures forall m :: j <= m <= k ==> i in states[m].inodes
    ensures states[j].next <= states[k].next
    ensures FileType(states[k].inodes[i].mode) == FileType(states[j].inodes[i].mode)
    ensures states[k].inodes[i].size >= states[j].inodes[i].size
  {
    hide Inv, StepTo, ToMap, TakesLastPath, Enters, FileType, BlocksOf;
    if j < k {
      NextGrows(states, steps, uid, gid, j, k - 1);
      RunSafe(states, steps, uid, gid, k - 1);
      StepIds(states[k - 1], steps[k - 1], states[k]);
      Lifetime(states, steps, uid, gid, j, k - 1, i);
      InodeStep(states[k - 1], steps[k - 1], states[k], i);
      TypeStays(states[k - 1], steps[k - 1], states[k], i);
    }
  }

  lemma {:induction false} NextGrows(states: seq<Fs>, steps: seq<Step>, uid: nat, gid: nat, j: nat, k: nat)
    requires IsRun(states, steps, uid, gid) && j <= k < |states|
    ensures states[j].next <= states[k].next
  {
    hide Inv, StepTo, ToMap, TakesLastPath;
    if j < k {
      NextGrows(states, steps, uid, gid, j, k - 1);
      RunSafe(states, steps, uid, gid, k - 1);
      StepIds(states[k - 1], steps[k - 1], states[k]);
    }
  }

  lemma TypeStays(fs: Fs, step: Step, fs': Fs, i: nat)
    requires Inv(fs) && StepTo(fs, step, fs') && i in fs.inodes && i in fs'.inodes
    ensures FileType(fs'.inodes[i].mode) == FileType(fs.inodes[i].mode)
  {
    hide Inv, StepTo, ToMap, Enters, BlocksOf, FileType;
    InodeStep(fs, step, fs', i);
    if step.SetStep? && Leads(fs, step.path, i) {
      SetType(fs, step.path, step.n, fs');
    }
  }

  lemma SetType(fs: Fs, path: string, n: Inode, fs': Fs)
    requires StepTo(fs, SetStep(path, n), fs')
    ensures path in fs.Index() && fs.Index()[path] in fs.inodes && fs.Index()[path] in fs'.inodes
    ensures FileType(fs'.inodes[fs.Index()[path]].mode) == FileType(fs.inodes[fs.Index()[path]].mode)
  {
    hide ToMap, FileType, InodeOk;
  }

  /** Owner, group, mode and text of an inode stay as long as no set step is taken on it, whatever else happens. */
  lemma {:induction false} OwnerStays(states: seq<Fs>, steps: seq<Step>, uid: nat, gid: nat, j: nat, k: nat, i: nat)
    requires IsRun(states, steps, uid, gid) && j <= k < |states|
    requires i < states[j].next && i in states[k].inodes
    requires forall m :: j <= m < k ==> !(steps[m].SetStep? && Leads(states[m], steps[m].path, i))
    ensures i in states[j].inodes
    ensures var n, n' := states[j].inodes[i], states[k].inodes[i];
            n'.mode == n.mode && n'.uid == n.uid && n'.gid == n.gid && n'.tail == n.tail
  {
    hide Inv, StepTo, ToMap, TakesLastPath, Enters, FileType, BlocksOf, Leads;
    Lifetime(states, steps, uid, gid, j, k, i);
    if j < k {
      RunSafe(states, steps, uid, gid, k - 1);
      Lifetime(states, steps, uid, gid, j, k - 1, i);
      OwnerStays(states, steps, uid, gid, j, k - 1, i);
      InodeStep(states[k - 1], steps[k - 1], states[k], i);
    }
  }
}
