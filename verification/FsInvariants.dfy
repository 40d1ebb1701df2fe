/** Every step of the file system keeps the invariant. */
module FsInvariants {
  import opened Bits
  import opened CStrings
  import opened Lines
  import opened Items
  import opened Paths
  import opened Records
  import opened Directory
  import opened RandomAccess
  import opened FsModel
  import opened FsTree

  // Small facts

  lemma TailKept(n: Inode, n': Inode)
    requires InodeOk(n) && n'.tail == n.tail && FileType(n'.mode) == FileType(n.mode)
    ensures InodeOk(n')
  {
  }

  lemma LinksStorable(names: seq<string>)
    requires Names(names)
    ensures Storable(Enc(names))
  {
    hide Enc, CStr;
    NamesPlain(names);
    EndsInNewline(names);
    assert "NOVALUE"[6] == 'E';
  }

  lemma EndsInNewline(ls: seq<string>)
    ensures Enc(ls) == "" || Enc(ls)[|Enc(ls)| - 1] == '\n'
  {
    hide Enc;
    EncNil();
    if ls != [] {
      var k := |ls| - 1;
      EncAround(ls, k);
      assert ls[k + 1..] == [];
    }
  }

  lemma EncNil()
    ensures Enc([]) == ""
  {
  }

  /** The block map after a directory's block is rewritten. */
  lemma DataLinks(inodes: map<nat, Inode>, blocks: Blocks, d: nat, n: Inode, names: seq<string>)
    requires DataOk(inodes, blocks) && d in inodes && IsDir(inodes[d]) && IsDir(n) && n.blocks > 0 && Names(names)
    ensures DataOk(inodes[d := n], SetLinks(blocks, d, names))
  {
    hide Enc, Storable, Names;
    LinksStorable(names);
    OnlyBlockZero(blocks, d, names);
    var inodes', blocks' := inodes[d := n], SetLinks(blocks, d, names);
    forall k | k in blocks' && k.0 in inodes' ensures BlockOk(inodes'[k.0], k.1, blocks'[k]) {
      if k != (d, 0) {
        assert BlockOk(inodes[k.0], k.1, blocks[k]);
      }
    }
  }

  // Creating

  ghost predicate CanCreate(fs: Fs, path: string, n: Inode) {
    && Addable(fs.Index(), fs.inodes, path)
    && InodeOk(n) && (IsReg(n) ==> n.nlink == 1 && n.size == 0)
  }

  lemma ParentIsOther(m: map<string, nat>, inodes: map<nat, Inode>, path: string)
    requires Addable(m, inodes, path)
    ensures Parent(path) != path
  {
  }

  lemma CreateKeeps(fs: Fs, path: string, n: Inode)
    requires Inv(fs) && CanCreate(fs, path, n)
    ensures Parent(path) != path && Inv(Create(fs, path, n))
  {
    hide IsPath, Parent, BaseName, Name, Enc, LinksOk, InodeOk, PathsTo, DataOk, Links, SetLinks, Names, ToMap,
         CountsOk,
         InodesOk;
    var m, i, d := fs.Index(), fs.next, fs.Index()[Parent(path)];
    var fs', nd := Create(fs, path, n), fs.inodes[d].(blocks := fs.inodes[d].blocks + 1);
    var inodes1 := fs.inodes[i := n];
    MapAppend(fs.table, Item(path, i));
    AppendDistinct(fs.table, Item(path, i));
    assert fs'.Index() == m[path := i] && fs'.inodes == inodes1[d := nd];
    TreeAdd(m, fs.inodes, fs'.inodes, path, i);
    LinksAdd(m, fs.inodes, fs.blocks, path, i, fs'.inodes);
    CreateCounts(fs, path, n, nd);
    CreateData(fs, path, n, nd);
    CreateInodes(fs.inodes, i, n, d, nd);
    CreateFresh(fs, path, n);
  }

  lemma AppendDistinct(s: seq<Item>, x: Item)
    requires Distinct(s) && x.key !in ToMap(s)
    ensures Distinct(s + [x])
  {
    forall i | 0 <= i < |s| ensures s[i].key != x.key {
      assert s[i].key in Keys(s);
    }
  }

  lemma CreateCounts(fs: Fs, path: string, n: Inode, nd: Inode)
    requires Inv(fs) && CanCreate(fs, path, n)
    requires var d := fs.Index()[Parent(path)]; nd == fs.inodes[d].(blocks := nd.blocks)
    ensures CountsOk(fs.Index()[path := fs.next], fs.inodes[fs.next := n][fs.Index()[Parent(path)] := nd])
  {
    hide IsPath, Parent, BaseName, Name, LinksOk, InodeOk, DataOk, FreshOk, InodesOk, PathsTo;
    var m, i, d := fs.Index(), fs.next, fs.Index()[Parent(path)];
    var inodes' := fs.inodes[i := n][d := nd];
    NextUnused(fs);
    forall j | j in inodes' ensures CountOk(m[path := i], j, inodes'[j]) {
      PathsAdd(m, path, i, j);
      assert j in fs.inodes ==> CountOk(m, j, fs.inodes[j]);
    }
  }

  lemma NextUnused(fs: Fs)
    requires TreeOk(fs.Index(), fs.inodes) && FreshOk(fs)
    ensures fs.next !in fs.inodes && PathsTo(fs.Index(), fs.next) == {} && |PathsTo(fs.Index(), fs.next)| == 0
  {
    hide IsPath, Parent;
  }

  lemma CreateData(fs: Fs, path: string, n: Inode, nd: Inode)
    requires Inv(fs) && CanCreate(fs, path, n)
    requires var d := fs.Index()[Parent(path)]; nd == fs.inodes[d].(blocks := nd.blocks) && nd.blocks > 0
    ensures var d := fs.Index()[Parent(path)];
            DataOk(fs.inodes[fs.next := n][d := nd], SetLinks(fs.blocks, d, Links(fs.blocks, d) + [BaseName(path)]))
  {
    hide IsPath, Parent, BaseName, Name, Links, Names, InodeOk, CountsOk, LinksOf, Enc, SetLinks, BlockOk, PathsTo;
    var d := fs.Index()[Parent(path)];
    assert LinksOf(fs.Index(), fs.blocks, Parent(path));
    NamesGrow(fs.Index(), fs.blocks, path);
    assert DataOk(fs.inodes[fs.next := n], fs.blocks);
    DataLinks(fs.inodes[fs.next := n], fs.blocks, d, nd, Links(fs.blocks, d) + [BaseName(path)]);
  }

  lemma CreateInodes(inodes: map<nat, Inode>, i: nat, n: Inode, d: nat, nd: Inode)
    requires InodesOk(inodes) && InodeOk(n) && d in inodes && nd == inodes[d].(blocks := nd.blocks)
    ensures InodesOk(inodes[i := n][d := nd])
  {
    hide InodeOk;
    TailKept(inodes[d], nd);
  }

  lemma CreateFresh(fs: Fs, path: string, n: Inode)
    requires FreshOk(fs) && CanCreate(fs, path, n)
    ensures Parent(path) != path && FreshOk(Create(fs, path, n))
  {
    hide IsPath, Parent, BaseName, Name, Links, InodeOk, Enc;
  }

  // Linking

  ghost predicate CanLink(fs: Fs, oldPath: string, newPath: string) {
    && oldPath in fs.Index() && fs.Index()[oldPath] in fs.inodes && IsReg(fs.inodes[fs.Index()[oldPath]])
    && Addable(fs.Index(), fs.inodes, newPath)
  }

  lemma LinkKeeps(fs: Fs, oldPath: string, newPath: string)
    requires Inv(fs) && CanLink(fs, oldPath, newPath)
    ensures Parent(newPath) != newPath && Inv(Link(fs, oldPath, newPath))
  {
    hide IsPath, Parent, BaseName, Name, Enc, LinksOk, InodeOk, PathsTo, DataOk, Links, SetLinks, Names, ToMap;
    var m, i, d := fs.Index(), fs.Index()[oldPath], fs.Index()[Parent(newPath)];
    var fs' := Link(fs, oldPath, newPath);
    var n, nd := fs.inodes[i].(nlink := fs.inodes[i].nlink + 1), fs.inodes[d].(blocks := fs.inodes[d].blocks + 1);
    MapAppend(fs.table, Item(newPath, i));
    AppendDistinct(fs.table, Item(newPath, i));
    assert fs'.Index() == m[newPath := i] && i != d && fs'.inodes == fs.inodes[i := n][d := nd];
    TreeAdd(m, fs.inodes, fs'.inodes, newPath, i);
    LinksAdd(m, fs.inodes, fs.blocks, newPath, i, fs'.inodes);
    LinkCounts(fs, oldPath, newPath, n, nd);
    LinkData(fs, oldPath, newPath, n, nd);
    CreateInodes2(fs.inodes, i, n, d, nd);
    LinkFresh(fs, oldPath, newPath);
  }

  lemma LinkFresh(fs: Fs, oldPath: string, newPath: string)
    requires FreshOk(fs) && CanLink(fs, oldPath, newPath)
    ensures Parent(newPath) != newPath && FreshOk(Link(fs, oldPath, newPath))
  {
    hide IsPath, Parent, BaseName, Name, Links, InodeOk, Enc;
  }

  lemma CreateInodes2(inodes: map<nat, Inode>, i: nat, n: Inode, d: nat, nd: Inode)
    requires InodesOk(inodes) && i in inodes && n == inodes[i].(nlink := n.nlink) && d in inodes
        && nd == inodes[d].(blocks := nd.blocks)
    ensures InodesOk(inodes[i := n][d := nd])
  {
    hide InodeOk;
    TailKept(inodes[i], n);
    TailKept(inodes[d], nd);
  }

  lemma LinkCounts(fs: Fs, oldPath: string, newPath: string, n: Inode, nd: Inode)
    requires Inv(fs) && CanLink(fs, oldPath, newPath)
    requires var i, d := fs.Index()[oldPath], fs.Index()[Parent(newPath)];
             n == fs.inodes[i].(nlink := fs.inodes[i].nlink + 1) && nd == fs.inodes[d].(blocks := nd.blocks)
    ensures var i, d := fs.Index()[oldPath], fs.Index()[Parent(newPath)];
            CountsOk(fs.Index()[newPath := i], fs.inodes[i := n][d := nd])
  {
    hide IsPath, Parent, BaseName, Name, LinksOk, InodeOk, DataOk, PathsTo, FreshOk, InodesOk, TreeOk;
    var m, i, d := fs.Index(), fs.Index()[oldPath], fs.Index()[Parent(newPath)];
    var inodes' := fs.inodes[i := n][d := nd];
    forall j | j in inodes' ensures CountOk(m[newPath := i], j, inodes'[j]) {
      PathsAdd(m, newPath, i, j);
      assert j in fs.inodes ==> CountOk(m, j, fs.inodes[j]);
    }
  }

  lemma LinkData(fs: Fs, oldPath: string, newPath: string, n: Inode, nd: Inode)
    requires Inv(fs) && CanLink(fs, oldPath, newPath)
    requires var i, d := fs.Index()[oldPath], fs.Index()[Parent(newPath)];
             n == fs.inodes[i].(nlink := n.nlink) && nd == fs.inodes[d].(blocks := nd.blocks) && nd.blocks > 0
    ensures var i, d := fs.Index()[oldPath], fs.Index()[Parent(newPath)];
            DataOk(fs.inodes[i := n][d := nd], SetLinks(fs.blocks, d, Links(fs.blocks, d) + [BaseName(newPath)]))
  {
    hide IsPath, Parent, BaseName, Name, Links, Names, InodeOk, CountsOk, LinksOf, Enc, SetLinks, PathsTo;
    var i, d := fs.Index()[oldPath], fs.Index()[Parent(newPath)];
    assert LinksOf(fs.Index(), fs.blocks, Parent(newPath));
    NamesGrow(fs.Index(), fs.blocks, newPath);
    SameData(fs.inodes, fs.blocks, i, n);
    DataLinks(fs.inodes[i := n], fs.blocks, d, nd, Links(fs.blocks, d) + [BaseName(newPath)]);
  }

  lemma SameData(inodes: map<nat, Inode>, blocks: Blocks, i: nat, n: Inode)
    requires DataOk(inodes, blocks) && i in inodes
    requires FileType(n.mode) == FileType(inodes[i].mode) && n.size == inodes[i].size && n.blocks == inodes[i].blocks
    ensures DataOk(inodes[i := n], blocks)
  {
    forall k | k in blocks && k.0 in inodes[i := n] ensures BlockOk(inodes[i := n][k.0], k.1, blocks[k]) {
      assert BlockOk(inodes[k.0], k.1, blocks[k]);
    }
  }

  // Deleting

  ghost predicate CanDelete(fs: Fs, path: string) {
    && path in fs.Index() && path != "/" && fs.Index()[path] in fs.inodes
    && (IsDir(fs.inodes[fs.Index()[path]]) ==> Links(fs.blocks, fs.Index()[path]) == [])
  }

  /** What deletion leaves of the inodes and, before the parent's block is rewritten, of the blocks. */
  function Left(fs: Fs, i: nat): (map<nat, Inode>, Blocks)
    requires i in fs.inodes
  {
    var n := fs.inodes[i];
    if IsReg(n) && n.nlink > 1 then (fs.inodes[i := n.(nlink := n.nlink - 1)], fs.blocks)
    else (fs.inodes - {i}, DropBlocks(fs.blocks, i, n.blocks))
  }

  /** The last path of an inode takes it along; otherwise the paths that are left still lead to it. */
  lemma LastPath(m: map<string, nat>, inodes: map<nat, Inode>, path: string, q: string)
    requires CountsOk(m, inodes) && path in m && m[path] in inodes && q in m && q != path && m[q] == m[path]
    ensures IsReg(inodes[m[path]]) && inodes[m[path]].nlink > 1
  {
    var s := PathsTo(m, m[path]);
    Subset({path, q}, s);
    assert |{path, q}| == 2;
  }

  lemma NoChildren(fs: Fs, path: string, q: string)
    requires Inv(fs) && CanDelete(fs, path) && q in fs.Index() && q != "/"
    ensures Parent(q) != path
  {
    hide IsPath, BaseName, Parent, Name, Links, Names, InodeOk, CountsOk, LinksOf, Enc, PathsTo, DataOk;
    var m := fs.Index();
    if Parent(q) == path {
      assert IsDir(fs.inodes[m[path]]) && LinksOf(m, fs.blocks, path);
      EmptyDirChildless(m, fs.inodes, fs.blocks, path, q);
    }
  }

  /** The parent directory survives. */
  lemma ParentLives(fs: Fs, path: string)
    requires Inv(fs) && CanDelete(fs, path)
    ensures Parent(path) in fs.Index() && Parent(path) != path && IsPath(path)
    ensures var d := fs.Index()[Parent(path)];
            && d in fs.inodes && IsDir(fs.inodes[d]) && d != fs.Index()[path]
            && BaseName(path) in Links(fs.blocks, d) && (d, 0) in fs.blocks && fs.inodes[d].blocks > 0
  {
    hide IsPath, BaseName, Parent, Name, Names, InodeOk, Enc, PathsTo, CountsOk, Join;
    var m, dir := fs.Index(), Parent(path);
    NoChildren(fs, path, path);
    if m[dir] == m[path] {
      OnePath(m, fs.inodes, dir, path);
    }
    assert LinksOf(m, fs.blocks, dir);
    JoinSplit(path);
    assert BlockOk(fs.inodes[m[dir]], 0, fs.blocks[(m[dir], 0)]);
  }

  lemma DeleteKeeps(fs: Fs, path: string)
    requires Inv(fs) && CanDelete(fs, path)
    ensures Parent(path) in fs.Index() && Inv(Delete(fs, path))
  {
    hide IsPath, Parent, BaseName, Name, Enc, LinksOk, InodeOk, PathsTo, DataOk, Links, SetLinks, Names, ToMap,
         DropName, Without, DropBlocks, CountsOk;
    var m, i := fs.Index(), fs.Index()[path];
    ParentLives(fs, path);
    var d, left := m[Parent(path)], Left(fs, i);
    var fs' := Delete(fs, path);
    MapWithout(fs.table, path);
    assert fs'.Index() == m - {path} && fs'.inodes == left.0
        && fs'.blocks == SetLinks(left.1, d, DropName(Links(left.1, d), BaseName(path)));
    DeleteTree(fs, path);
    DeleteLinks(fs, path);
    DeleteCounts(fs, path);
    DeleteData(fs, path);
    DeleteInodes(fs, i);
    DeleteFresh(fs, path);
  }

  lemma DeleteTree(fs: Fs, path: string)
    requires Inv(fs) && CanDelete(fs, path)
    ensures TreeOk(fs.Index() - {path}, Left(fs, fs.Index()[path]).0)
  {
    hide IsPath, Parent, BaseName, Name, Enc, LinksOk, InodeOk, PathsTo, DataOk, Links, SetLinks, Names, DropBlocks,
         CountsOk;
    var m, i := fs.Index(), fs.Index()[path];
    var inodes' := Left(fs, i).0;
    forall q {:trigger Parent(q)} | q in m && q != "/" ensures Parent(q) != path {
      NoChildren(fs, path, q);
    }
    forall q | q in m && q != path ensures m[q] in inodes' {
      if m[q] == i {
        LastPath(m, fs.inodes, path, q);
      }
    }
    TreeDrop(m, fs.inodes, inodes', path);
  }

  lemma DeleteLinks(fs: Fs, path: string)
    requires Inv(fs) && CanDelete(fs, path)
    ensures Parent(path) in fs.Index()
    ensures var d, left := fs.Index()[Parent(path)], Left(fs, fs.Index()[path]);
            LinksOk(fs.Index() - {path}, left.0, SetLinks(left.1, d, DropName(Links(left.1, d), BaseName(path))))
  {
    hide IsPath, Parent, BaseName, Name, Enc, LinksOf, InodeOk, PathsTo, DataOk, Links, SetLinks, Names, CountsOk,
         DropName;
    ParentLives(fs, path);
    var left := Left(fs, fs.Index()[path]);
    LinksDrop(fs.Index(), fs.inodes, fs.blocks, path, left.0, left.1);
  }

  lemma DeleteCounts(fs: Fs, path: string)
    requires Inv(fs) && CanDelete(fs, path)
    ensures CountsOk(fs.Index() - {path}, Left(fs, fs.Index()[path]).0)
  {
    hide IsPath, Parent, BaseName, Name, Enc, LinksOk, InodeOk, DataOk, Links, Names, TreeOk, PathsTo;
    var m, i := fs.Index(), fs.Index()[path];
    var inodes' := Left(fs, i).0;
    forall j | j in inodes' ensures CountOk(m - {path}, j, inodes'[j]) {
      PathsDrop(m, path, j);
    }
  }

  lemma DeleteData(fs: Fs, path: string)
    requires Inv(fs) && CanDelete(fs, path)
    ensures Parent(path) in fs.Index()
    ensures var d, left := fs.Index()[Parent(path)], Left(fs, fs.Index()[path]);
            DataOk(left.0, SetLinks(left.1, d, DropName(Links(left.1, d), BaseName(path))))
  {
    hide IsPath, Parent, BaseName, Name, Enc, LinksOf, InodeOk, PathsTo, Links, SetLinks, Names, CountsOk, DropName,
         BlockOk;
    ParentLives(fs, path);
    var m, i := fs.Index(), fs.Index()[path];
    var d, left := m[Parent(path)], Left(fs, i);
    LeftData(fs, i);
    assert LinksOf(m, fs.blocks, Parent(path));
    LinksSame(m, fs.blocks, left.1, Parent(path));
    NamesShrink(m, left.1, Parent(path), BaseName(path));
    DataLinks(left.0, left.1, d, left.0[d], DropName(Links(left.1, d), BaseName(path)));
    assert left.0[d := left.0[d]] == left.0;
  }

  lemma LeftData(fs: Fs, i: nat)
    requires DataOk(fs.inodes, fs.blocks) && i in fs.inodes
    ensures DataOk(Left(fs, i).0, Left(fs, i).1)
  {
    hide BlockOk, IsReg;
    var n := fs.inodes[i];
    if IsReg(n) && n.nlink > 1 {
      SameData(fs.inodes, fs.blocks, i, n.(nlink := n.nlink - 1));
    }
  }

  lemma DeleteInodes(fs: Fs, i: nat)
    requires InodesOk(fs.inodes) && i in fs.inodes
    ensures InodesOk(Left(fs, i).0)
  {
    hide InodeOk;
    var n := fs.inodes[i];
    if IsReg(n) && n.nlink > 1 {
      TailKept(n, n.(nlink := n.nlink - 1));
    }
  }

  lemma DeleteFresh(fs: Fs, path: string)
    requires Inv(fs) && CanDelete(fs, path)
    ensures Parent(path) in fs.Index() && FreshOk(Delete(fs, path))
  {
    hide IsPath, Parent, BaseName, Name, Enc, LinksOk, InodeOk, PathsTo, DataOk, Links, Names, CountsOk, DropName,
         Without;
    ParentLives(fs, path);
  }

  // Writing

  lemma BlocksFull(fs: Fs, i: nat)
    requires DataOk(fs.inodes, fs.blocks) && i in fs.inodes && IsReg(fs.inodes[i])
    ensures FullBlocks(fs.blocks, i)
  {
    forall b: nat ensures |BlockAt(fs.blocks, i, b)| == BLOCK {
      if (i, b) in fs.blocks {
        assert BlockOk(fs.inodes[i], b, fs.blocks[(i, b)]);
      }
    }
  }

  /** A write's blocks stay full, and zero from the new end of the file on. */
  lemma {:induction false} WrittenOk(n: Inode, n': Inode, blocks: Blocks, i: nat, start: nat, k: nat, offset: nat,
          buf: string)
    requires FullBlocks(blocks, i) && IsReg(n) && IsReg(n') && n'.size == Max(n.size, offset + |buf|)
    requires forall b: nat :: (i, b) in blocks ==> BlockOk(n, b, blocks[(i, b)])
    ensures forall b: nat {:trigger (i, b)} ::
              (i, b) in WriteBlocks(blocks, i, start, k, offset, buf) ==>
                  BlockOk(n', b, WriteBlocks(blocks, i, start, k, offset, buf)[(i, b)])
    ensures forall x: (nat, nat) :: x.0 != i ==> (x in WriteBlocks(blocks, i, start, k, offset, buf) <==> x in blocks)
    ensures forall x: (nat, nat) :: x.0 != i && x in blocks ==>
        WriteBlocks(blocks, i, start, k, offset, buf)[x] == blocks[x]
  {
    hide Storable, NewBlock, BlockAt, FileType;
    if k == 0 {
      forall b: nat | (i, b) in blocks ensures BlockOk(n', b, blocks[(i, b)]) {
        assert BlockOk(n, b, blocks[(i, b)]);
      }
    } else {
      WrittenOk(n, n', blocks, i, start, k - 1, offset, buf);
      NewBlockOk(n, n', blocks, i, start + k - 1, offset, buf);
    }
  }

  lemma NewBlockOk(n: Inode, n': Inode, blocks: Blocks, i: nat, b: nat, offset: nat, buf: string)
    requires FullBlocks(blocks, i) && IsReg(n) && IsReg(n') && n'.size == Max(n.size, offset + |buf|)
    requires (i, b) in blocks ==> BlockOk(n, b, blocks[(i, b)])
    ensures var data := NewBlock(BlockAt(blocks, i, b), b, offset, buf); Storable(data) ==> BlockOk(n', b, data)
  {
    hide Storable, FileType;
  }

  lemma WriteKeeps(fs: Fs, i: nat, offset: nat, buf: string)
    requires Inv(fs) && i in fs.inodes && IsReg(fs.inodes[i])
    ensures FullBlocks(fs.blocks, i) && Inv(Write(fs, i, offset, buf))
  {
    hide IsPath, Parent, BaseName, Name, Enc, InodeOk, PathsTo, BlockOk, Links, Names, ToMap, WriteBlocks, FullBlocks,
         GetFileBlocksInfo;
    BlocksFull(fs, i);
    var fs', n, info := Write(fs, i, offset, buf), fs.inodes[i], GetFileBlocksInfo(offset, |buf|, BLOCK);
    var n' := fs'.inodes[i];
    WrittenOk(n, n', fs.blocks, i, info.startBlock, info.numBlocks, offset, buf);
    TreeSame(fs.Index(), fs.inodes, i, n');
    TailKept(n, n');
    LinksUntouched(fs.Index(), fs.inodes, fs.blocks, i, n', fs'.blocks);
    WriteData(fs.inodes, fs.blocks, i, n', fs'.blocks);
  }

  lemma TreeSame(m: map<string, nat>, inodes: map<nat, Inode>, i: nat, n: Inode)
    requires TreeOk(m, inodes) && CountsOk(m, inodes) && i in inodes
    requires FileType(n.mode) == FileType(inodes[i].mode) && n.nlink == inodes[i].nlink
    ensures TreeOk(m, inodes[i := n]) && CountsOk(m, inodes[i := n])
  {
    hide IsPath, Parent, PathsTo;
  }

  /** A change to one inode that is not a directory, or to no blocks, leaves every directory as it was. */
  lemma LinksUntouched(m: map<string, nat>, inodes: map<nat, Inode>, blocks: Blocks, i: nat, n: Inode, blocks': Blocks)
    requires LinksOk(m, inodes, blocks) && i in inodes && FileType(n.mode) == FileType(inodes[i].mode)
    requires blocks' == blocks || !IsDir(n)
    requires forall x: (nat, nat) :: x.0 != i ==> (x in blocks' <==> x in blocks)
    requires forall x: (nat, nat) :: x.0 != i && x in blocks ==> blocks'[x] == blocks[x]
    ensures LinksOk(m, inodes[i := n], blocks')
  {
    hide Name, Names, Join;
    forall p | p in m && m[p] in inodes[i := n] && IsDir(inodes[i := n][m[p]]) ensures LinksOf(m, blocks', p) {
      LinksSame(m, blocks, blocks', p);
    }
  }

  lemma WriteData(inodes: map<nat, Inode>, blocks: Blocks, i: nat, n: Inode, blocks': Blocks)
    requires DataOk(inodes, blocks) && i in inodes
    requires forall b: nat {:trigger (i, b)} :: (i, b) in blocks' ==> BlockOk(n, b, blocks'[(i, b)])
    requires forall x: (nat, nat) :: x.0 != i ==> (x in blocks' <==> x in blocks)
    requires forall x: (nat, nat) :: x.0 != i && x in blocks ==> blocks'[x] == blocks[x]
    ensures DataOk(inodes[i := n], blocks')
  {
    hide BlockOk;
    forall x | x in blocks' && x.0 in inodes[i := n] ensures BlockOk(inodes[i := n][x.0], x.1, blocks'[x]) {
      if x.0 == i {
        assert x == (i, x.1);
      }
    }
  }

  // Changing attributes

  /** chmod, chown and the extended attributes change neither the file type nor the link count nor the data. */
  ghost predicate CanSet(fs: Fs, i: nat, n: Inode) {
    && i in fs.inodes && InodeOk(n)
    && FileType(n.mode) == FileType(fs.inodes[i].mode) && n.nlink == fs.inodes[i].nlink
    && n.size == fs.inodes[i].size && n.blocks == fs.inodes[i].blocks
  }

  lemma SetKeeps(fs: Fs, i: nat, n: Inode)
    requires Inv(fs) && CanSet(fs, i, n)
    ensures Inv(SetInode(fs, i, n))
  {
    hide IsPath, Parent, BaseName, Name, Enc, InodeOk, PathsTo, BlockOk, Links, Names, ToMap;
    TreeSame(fs.Index(), fs.inodes, i, n);
    LinksUntouched(fs.Index(), fs.inodes, fs.blocks, i, n, fs.blocks);
    SameData(fs.inodes, fs.blocks, i, n);
  }

  // The first mount

  function RootInode(uid: nat, gid: nat): Inode {
    Inode(4 * 4096 + 0x1ED, uid, gid, 2, 0, 0, "")
  }

  /** memcached_init on an empty store. */
  function Init(uid: nat, gid: nat): Fs {
    Create(Fs([], 0, map[], map[]), "/", RootInode(uid, gid))
  }

  lemma InitOk(uid: nat, gid: nat)
    ensures Inv(Init(uid, gid))
  {
    hide LinksOf, Name, Join, Init;
    var fs := Init(uid, gid);
    InitShape(uid, gid);
    assert PathsTo(fs.Index(), 0) == {"/"};
    RootEmpty();
  }

  /** Just the root directory, which belongs to the one who mounts, with mode 0755. */
  lemma InitShape(uid: nat, gid: nat)
    ensures Init(uid, gid) == Fs([Item("/", 0)], 1, map[0 := Inode(4 * 4096 + 0x1ED, uid, gid, 2, 0, 0, "")], map[])
    ensures Init(uid, gid).Index() == map["/" := 0]
  {
    MapAppend([], Item("/", 0));
    assert [] + [Item("/", 0)] == [Item("/", 0)];
  }

  lemma RootEmpty()
    ensures LinksOf(map["/" := 0], map[], "/")
  {
    forall name: string | Name(name) ensures Join("/", name) !in map["/" := 0] {
      SplitJoin("/", name);
    }
  }
}
