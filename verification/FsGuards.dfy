/** The guards of the callbacks, and what the invariant gives them to work with. */
module FsGuards {
  import opened Bits
  import opened CStrings
  import opened Lines
  import opened Items
  import opened DataParser
  import opened Records
  import opened Directory
  import opened InodeTable
  import opened Paths
  import opened Xattrs
  import opened XattrLaws
  import opened XattrList
  import opened RandomAccess
  import opened Protocol
  import opened StoreKeys
  import opened FsModel
  import opened FsTree
  import opened FsInvariants
  import opened FlatFile
  import opened FsRuns
  import opened FsStore
  import opened FsText

  /** The inode create_inode makes: a symbolic link has its target as content. */
  function NewInode(mode: nat, nlink: nat, uid: nat, gid: nat, size: nat, content: Option<string>): Inode {
    Inode(mode, uid, gid, nlink, size, 0, match content case None => "" case Some(target) => Pair("st_content", target))
  }

  lemma EmptyRecord()
    ensures EncRec([]) == ""
  {
  }

  lemma NewInodeOk(mode: nat, nlink: nat, uid: nat, gid: nat, size: nat, content: Option<string>)
    requires content.Some? ==> '\0' !in content.value
    ensures '\0' !in NewInode(mode, nlink, uid, gid, size, content).tail
  {
  }

  lemma ReadNumeral(n: nat)
    ensures Atoi(Dec(n)) == n
  {
    AtoiDec(n, []);
    assert Dec(n) + [] == Dec(n);
  }

  /** The text of the table with one more entry. */
  lemma EntryAdded(t: seq<Item>, path: string, i: nat)
    requires TablePaths(t) && path !in ToMap(t) && TablePath(path)
    ensures TablePaths(t + [Item(path, i)]) && ToMap(t + [Item(path, i)]) == ToMap(t)[path := i]
    ensures var value := AddInodeToTable(EncTable(t), path, i);
            CStr(value) == EncTable(t + [Item(path, i)]) && Storable(value)
  {
    hide EncTable, CStr, ToMap, AddInodeToTable;
    MapAppend(t, Item(path, i));
    AppendDistinct(t, Item(path, i));
    AddAppends(t, path, i);
    TableStorable(t + [Item(path, i)]);
  }

  /** remove_link_from_parent_dir */
  function DropLink(fs: Fs, path: string): Fs
    requires Parent(path) in fs.Index()
  {
    var d := fs.Index()[Parent(path)];
    fs.(blocks := SetLinks(fs.blocks, d, DropName(Links(fs.blocks, d), BaseName(path))))
  }

  /** The directory of a new or doomed path, as the link routines find it. */
  ghost predicate DirReady(fs: Fs, path: string) {
    && Parent(path) in fs.Index() && Name(BaseName(path))
    && var d := fs.Index()[Parent(path)];
       d in fs.inodes && '\0' !in fs.inodes[d].tail && LinksText(fs.blocks, d)
  }

  /** When the first matches of the path in the table and of its name in the parent's block are its own. */
  ghost predicate Removable(fs: Fs, path: string) {
    && Parent(path) in fs.Index()
    && EntryFirst(fs.table, path) && NameFirst(Links(fs.blocks, fs.Index()[Parent(path)]), BaseName(path))
  }

  /** The inode a path leads to: its id and its attributes. */
  function InoOf(fs: Fs, path: string): nat {
    if path in fs.Index() then fs.Index()[path] else 0
  }

  function NodeOf(fs: Fs, path: string): Inode {
    if InoOf(fs, path) in fs.inodes then fs.inodes[InoOf(fs, path)] else Inode(0, 0, 0, 0, 0, 0, "")
  }

  // What the invariant gives the callbacks

  lemma PathFacts(fs: Fs, path: string)
    requires Inv(fs) && path in fs.Index()
    ensures fs.Index()[path] in fs.inodes && InodeOk(fs.inodes[fs.Index()[path]]) && TablePath(path)
  {
    hide IsPath, Parent, CountsOk, LinksOk, FreshOk, DataOk, InodeOk;
    PathPlain(path);
  }

  lemma AddableFacts(fs: Fs, path: string)
    requires Inv(fs) && Addable(fs.Index(), fs.inodes, path)
    ensures TablePaths(fs.table) && TablePath(path) && Parent(path) != path && DirReady(fs, path)
    ensures fs.Index()[Parent(path)] < fs.next
  {
    hide IsPath, Parent, BaseName, Name, Join, CountsOk, DataOk, ToMap, Links;
    InvTablePaths(fs);
    PathPlain(path);
    JoinSplit(path);
    assert LinksOf(fs.Index(), fs.blocks, Parent(path));
  }

  /** Unlinking finds the parent's block as it was. */
  lemma DoomedFacts(fs: Fs, path: string, left: Fs)
    requires Inv(fs) && CanDelete(fs, path) && Removable(fs, path)
    requires left == fs.(table := Without(fs.table, path), inodes := Left(fs, fs.Index()[path]).0,
                         blocks := Left(fs, fs.Index()[path]).1)
    ensures DirReady(left, path) && left.Index()[Parent(path)] == fs.Index()[Parent(path)]
    ensures var names := Links(left.blocks, left.Index()[Parent(path)]);
            BaseName(path) in names && NameFirst(names, BaseName(path))
    ensures DropLink(left, path) == FsModel.Delete(fs, path)
  {
    hide IsPath, Parent, BaseName, Name, Join, CountsOk, DataOk, ToMap, Without, DropName, SetLinks, NameFirst, Names,
         EntryFirst, InodeOk;
    var i, d := fs.Index()[path], fs.Index()[Parent(path)];
    ParentLives(fs, path);
    MapWithout(fs.table, path);
    JoinSplit(path);
    assert LinksOf(fs.Index(), fs.blocks, Parent(path));
    assert InodeOk(fs.inodes[d]);
    KeptText(fs.blocks, left.blocks, d);
    SameExt(fs, i, d);
  }

  lemma KeptText(blocks: Blocks, blocks': Blocks, d: nat)
    requires (d, 0) in blocks <==> (d, 0) in blocks'
    requires (d, 0) in blocks ==> blocks'[(d, 0)] == blocks[(d, 0)]
    ensures Links(blocks', d) == Links(blocks, d) && (LinksText(blocks, d) ==> LinksText(blocks', d))
  {
  }

  lemma SameExt(fs: Fs, i: nat, d: nat)
    requires i in fs.inodes && d in fs.inodes && d != i && InodeOk(fs.inodes[d])
    ensures d in Left(fs, i).0 && '\0' !in Left(fs, i).0[d].tail
  {
  }

  lemma OneMoreBlock(blocks: Blocks, i: nat, b: nat)
    ensures DropBlocks(blocks, i, b + 1) == DropBlocks(blocks, i, b) - {(i, b)} && DropBlocks(blocks, i, 0) == blocks
  {
  }

  lemma DeleteFacts(fs: Fs, path: string)
    requires Inv(fs) && CanDelete(fs, path) && Removable(fs, path)
    ensures TablePaths(fs.table) && path in fs.Index() && EntryFirst(fs.table, path)
    ensures fs.Index()[path] in fs.inodes && '\0' !in fs.inodes[fs.Index()[path]].tail
    ensures Parent(path) in fs.Index()
  {
    hide IsPath, Parent, BaseName, CountsOk, LinksOk, DataOk, FreshOk, ToMap, EntryFirst, NameFirst;
    InvTablePaths(fs);
    PathFacts(fs, path);
  }

  // First mount and remount

  lemma EmptyStore()
    ensures CStr("") == "" == EncTable([]) && "0" == Dec(0) && Storable("") && Storable("0")
    ensures Encodes(map[TABLE := "", COUNTER := "0"], Fs([], 0, map[], map[]))
  {
    hide InodeKey, BlockKey;
    KeysAreApart();
    assert CStr("") == "" == EncTable([]) && "0" == Dec(0);
  }

  /** What a remount parses is the table. */
  lemma StoredTable(kv: Store, fs: Fs)
    requires Encodes(kv, fs) && Inv(fs)
    ensures TABLE in kv && ParseTable(CStr(kv[TABLE])) == fs.table && Distinct(fs.table)
  {
    hide EncTable, CStr, ParseTable, TreeOk, CountsOk, LinksOk, FreshOk, DataOk, InodesOk, InodesStored, BlocksStored;
    InvTablePaths(fs);
    ParseEnc(fs.table);
  }

  lemma CreateFacts(fs: Fs, path: string, mode: nat, nlink: nat, uid: nat, gid: nat, size: nat, content: Option<string>)
    requires Inv(fs) && Addable(fs.Index(), fs.inodes, path)
    requires content.Some? ==> '\0' !in content.value
    requires FileType(mode) == 8 ==> nlink == 1 && size == 0
    requires if content == None then FileType(mode) == 8 || FileType(mode) == 4 else FileType(mode) == 10
    ensures TablePaths(fs.table) && TablePath(path) && Parent(path) != path && DirReady(fs, path)
    ensures path !in fs.Index() && fs.Index()[Parent(path)] < fs.next
    ensures StepTo(fs, CreateStep(path, NewInode(mode, nlink, uid, gid, size, content)),
                   FsModel.Create(fs, path, NewInode(mode, nlink, uid, gid, size, content)))
    ensures Inv(FsModel.Create(fs, path, NewInode(mode, nlink, uid, gid, size, content)))
  {
    hide Inv, FsModel.Create, InodeOk, DirReady, Parent, ToMap;
    var n := NewInode(mode, nlink, uid, gid, size, content);
    AddableFacts(fs, path);
    FreshInodeOk(n);
    CreateKeeps(fs, path, n);
  }

  lemma FreshInodeOk(n: Inode)
    requires n.tail == "" || exists target: string :: '\0' !in target && n.tail == Pair("st_content", target)
    requires FileType(n.mode) == 8 || FileType(n.mode) == 4 || (FileType(n.mode) == 10 && n.tail != "")
    ensures InodeOk(n)
  {
    if n.tail != "" {
      var target: string :| '\0' !in target && n.tail == Pair("st_content", target);
      assert n.tail == "st_content\n" + (target + "\n");
    }
  }

  lemma DirMode(mode: nat)
    requires mode < 4096
    ensures FileType(4 * 4096 + mode) == 4
  {
  }

  /** The state create_inode has reached when it adds the name to the directory. */
  lemma CreatedFacts(fs: Fs, path: string, n: Inode)
    requires path != "/" ==> Parent(path) != path && DirReady(fs, path) && fs.Index()[Parent(path)] != fs.next
    ensures var mid := fs.(table := fs.table + [Item(path, fs.next)], next := fs.next + 1,
        inodes := fs.inodes[fs.next := n]);
            if path == "/" then FsModel.Create(fs, path, n) == mid
            else DirReady(mid, path) && FsModel.Create(fs, path, n) == AddLink(mid, path)
  {
    hide Parent, BaseName, Name, LinksText, Links, SetLinks, ToMap;
    MapAppend(fs.table, Item(path, fs.next));
  }

  lemma LinkingFacts(fs: Fs, oldPath: string, newPath: string)
    requires Inv(fs) && CanLink(fs, oldPath, newPath)
    ensures oldPath in fs.Index() && fs.Index()[oldPath] in fs.inodes && '\0' !in fs.inodes[fs.Index()[oldPath]].tail
    ensures TablePaths(fs.table) && TablePath(newPath) && newPath !in fs.Index()
    ensures Parent(newPath) in fs.Index() && fs.Index()[Parent(newPath)] in fs.inodes && Parent(newPath) != newPath
    ensures StepTo(fs, LinkStep(oldPath, newPath), FsModel.Link(fs, oldPath, newPath))
        && Inv(FsModel.Link(fs, oldPath, newPath))
  {
    hide Inv, FsModel.Link, InodeOk, DirReady, Parent, ToMap;
    AddableFacts(fs, newPath);
    PathFacts(fs, oldPath);
    assert InodeOk(fs.inodes[fs.Index()[oldPath]]);
    OkExt(fs.inodes[fs.Index()[oldPath]]);
    LinkKeeps(fs, oldPath, newPath);
  }

  lemma OkExt(n: Inode)
    requires InodeOk(n)
    ensures '\0' !in n.tail
  {
  }

  /** The state link has reached when it adds the name to the directory. */
  lemma LinkedFacts(fs: Fs, oldPath: string, newPath: string, mid: Fs)
    requires Inv(fs) && CanLink(fs, oldPath, newPath)
    requires var i := fs.Index()[oldPath];
             mid == fs.(table := fs.table + [Item(newPath, i)],
                        inodes := fs.inodes[i := fs.inodes[i].(nlink := fs.inodes[i].nlink + 1)])
    ensures DirReady(mid, newPath) && Parent(newPath) != newPath && Parent(newPath) in fs.Index()
    ensures fs.Index()[Parent(newPath)] in fs.inodes && AddLink(mid, newPath) == FsModel.Link(fs, oldPath, newPath)
  {
    hide Inv, InodeOk, Parent, BaseName, Name, LinksText, Links, SetLinks, ToMap;
    AddableFacts(fs, newPath);
    PathFacts(fs, oldPath);
    OkExt(fs.inodes[fs.Index()[oldPath]]);
    MapAppend(fs.table, Item(newPath, fs.Index()[oldPath]));
  }

  lemma UnlinkFacts(fs: Fs, path: string)
    requires Inv(fs) && path in fs.Index() && fs.Index()[path] in fs.inodes && !IsDir(fs.inodes[fs.Index()[path]])
    ensures CanDelete(fs, path)
  {
    hide IsPath, Parent, CountsOk, LinksOk, FreshOk, DataOk, InodesOk;
  }

  /** The text of a directory's block is empty exactly when it has no links. */
  lemma DirText(fs: Fs, path: string)
    requires Inv(fs) && path in fs.Index() && fs.Index()[path] in fs.inodes && IsDir(fs.inodes[fs.Index()[path]])
    ensures var d := fs.Index()[path];
            && Names(Links(fs.blocks, d))
            && ((d, 0) in fs.blocks ==>
                  && fs.blocks[(d, 0)] == Enc(Links(fs.blocks, d)) && CStr(fs.blocks[(d, 0)]) == fs.blocks[(d, 0)])
            && (Links(fs.blocks, d) == [] <==> ((d, 0) in fs.blocks ==> fs.blocks[(d, 0)] == ""))
  {
    hide IsPath, Parent, CountsOk, FreshOk, DataOk, InodesOk, Enc, CStr, Split, TreeOk;
    var d := fs.Index()[path];
    assert LinksOf(fs.Index(), fs.blocks, path);
    NamesPlain(Links(fs.blocks, d));
    EncEmpty(Links(fs.blocks, d));
  }

  lemma EncEmpty(ls: seq<string>)
    ensures Enc(ls) == "" <==> ls == []
  {
  }

  // Reading

  /** The part of the request inside the file is a range the block description covers. */
  predicate ReadGuard(offset: nat, size: nat, stSize: nat) {
    stSize > offset ==> Coverable(offset, if offset + size > stSize then stSize - offset else size, BLOCK)
  }

  lemma ReadableFacts(fs: Fs, path: string)
    requires Inv(fs) && path in fs.Index() && fs.Index()[path] in fs.inodes && IsReg(fs.inodes[fs.Index()[path]])
    ensures FullBlocks(fs.blocks, fs.Index()[path])
  {
    hide IsPath, Parent, TreeOk, LinksOk, FreshOk, InodesOk, FullBlocks;
    BlocksFull(fs, fs.Index()[path]);
  }

  lemma NothingToRead(fs: Fs, i: nat, offset: nat, size: nat)
    requires i in fs.inodes && FullBlocks(fs.blocks, i) && fs.inodes[i].size <= offset
    ensures ReadOf(File(fs, i), offset, size) == ""
  {
  }

  // Attributes

  lemma SetStepOk(fs: Fs, path: string, n: Inode)
    requires Inv(fs) && path in fs.Index() && CanSet(fs, fs.Index()[path], n)
    ensures StepTo(fs, SetStep(path, n), SetInode(fs, fs.Index()[path], n)) && Inv(SetInode(fs, fs.Index()[path], n))
  {
    hide Inv, CanSet;
    SetKeeps(fs, fs.Index()[path], n);
  }

  lemma KeepsTail(fs: Fs, path: string, n: Inode)
    requires Inv(fs) && path in fs.Index() && fs.Index()[path] in fs.inodes
    requires var was := fs.inodes[fs.Index()[path]];
             && FileType(n.mode) == FileType(was.mode)
             && n == was.(mode := n.mode, uid := n.uid, gid := n.gid)
    ensures CanSet(fs, fs.Index()[path], n)
  {
    hide IsPath, Parent, TreeOk, CountsOk, LinksOk, DataOk, FreshOk, InodeOk;
    TailKept(fs.inodes[fs.Index()[path]], n);
  }

  /** A new tail that is a C string and leaves a link its st_content. */
  lemma NewTail(fs: Fs, path: string, tail: string)
    requires Inv(fs) && path in fs.Index() && fs.Index()[path] in fs.inodes && '\0' !in tail
    requires IsLnk(fs.inodes[fs.Index()[path]]) ==> "st_content\n" <= tail
    ensures CanSet(fs, fs.Index()[path], fs.inodes[fs.Index()[path]].(tail := tail))
  {
    hide IsPath, Parent, TreeOk, CountsOk, LinksOk, DataOk, FreshOk;
    assert InodeOk(fs.inodes[fs.Index()[path]]);
  }

  /** setxattr under a foreign name changes the tail of the record, and every step of it keeps the invariant. */
  lemma SetFacts(fs: Fs, path: string, name: string, value: string)
    requires Inv(fs) && path in fs.Index() && fs.Index()[path] in fs.inodes && '\0' !in value
    requires var n := fs.inodes[fs.Index()[path]];
             Foreign(n, fs.Index()[path], IsLnk(n), name) && Terminated(n.tail, name)
    ensures var i := fs.Index()[path];
            var n := fs.inodes[i];
            var n' := n.(tail := SetXattr(n.tail, name, value));
            && '\0' !in n.tail && Terminated(n.Text(i), name)
            && SetXattr(n.Text(i), name, value) == n'.Text(i) && '\0' !in n'.tail && CanSet(fs, i, n')
  {
    hide IsPath, Parent, TreeOk, CountsOk, LinksOk, DataOk, FreshOk, SetXattr, Terminated, Foreign, IsLnk, Inode.Text;
    var i := fs.Index()[path];
    var n := fs.inodes[i];
    assert InodeOk(n);
    OnTail(n, i, IsLnk(n), name, value);
    ForeignName(n, i, IsLnk(n), name);
    NoNulBrought(n.tail, name, value);
    if IsLnk(n) {
      ContentStays(n.tail, name, value);
    }
    NewTail(fs, path, SetXattr(n.tail, name, value));
  }

  lemma ForeignName(n: Inode, i: nat, link: bool, name: string)
    requires Foreign(n, i, link, name)
    ensures Plain(name) && name != "" && (link ==> !Contains("st_content", name))
  {
    hide Inode.Fixed, Contains;
    assert link ==> OwnLines(n, i, link)[14] == "st_content";
  }

  /** removexattr likewise. */
  lemma RemoveFacts(fs: Fs, path: string, name: string)
    requires Inv(fs) && path in fs.Index() && fs.Index()[path] in fs.inodes
    requires var n := fs.inodes[fs.Index()[path]];
             Foreign(n, fs.Index()[path], IsLnk(n), name) && TwoLinesFollow(n.tail, name)
    ensures var i := fs.Index()[path];
            var n := fs.inodes[i];
            var n' := n.(tail := RemoveXattr(n.tail, name));
            && '\0' !in n.tail && TwoLinesFollow(n.Text(i), name)
            && RemoveXattr(n.Text(i), name) == n'.Text(i) && '\0' !in n'.tail && CanSet(fs, i, n')
  {
    hide IsPath, Parent, TreeOk, CountsOk, LinksOk, DataOk, FreshOk, RemoveXattr, TwoLinesFollow, Foreign, IsLnk,
         Inode.Text;
    var i := fs.Index()[path];
    var n := fs.inodes[i];
    assert InodeOk(n);
    OnTail(n, i, IsLnk(n), name, "");
    ForeignName(n, i, IsLnk(n), name);
    NoNulBrought(n.tail, name, "");
    if IsLnk(n) {
      ContentStays(n.tail, name, "");
    }
    NewTail(fs, path, RemoveXattr(n.tail, name));
  }

  /** What getxattr and listxattr leave in the caller's buffer: nothing for size 0, otherwise as much as fits. */
  predicate Copied(whole: string, size: nat, r: nat, before: string, after: string) {
    if size == 0 then r == |whole| && after == before
    else r == Min(size, |whole|) && r <= |before| && after == whole[..r] + before[r..]
  }

  predicate Read(got: Option<string>, size: nat, r: nat, before: string, after: string) {
    match got
    case None => r == 0 && after == before
    case Some(v) => Copied(v, size, r, before, after)
  }

  /** getxattr hands out what the text search finds. On the record of extended attributes `ext` that is the lookup of
      a foreign name if and only if the name is unambiguous or the search is lucky. */
  ghost predicate XattrRead(n: Inode, i: nat, name: string, size: nat, r: nat, before: string, after: string) {
    && Terminated(n.Text(i), name) && Read(Get(n.Text(i), name), size, r, before, after)
    && forall ext: seq<Attr> :: n.tail == EncRec(ext) && RecordOk(ext) && Foreign(n, i, false, name) ==>
         && ScanEnds(ext, name)
         && (Get(n.Text(i), name) == Lookup(ext, name) <==> Unambiguous(ext, name) || LuckyGet(ext, name))
         && (Unambiguous(ext, name) || LuckyGet(ext, name) ==> Read(Lookup(ext, name), size, r, before, after))
  }

  lemma SearchIsLookup(n: Inode, i: nat, name: string, ext: seq<Attr>)
    requires n.tail == EncRec(ext) && RecordOk(ext) && Foreign(n, i, false, name) && Terminated(n.Text(i), name)
    ensures ScanEnds(ext, name)
    ensures Get(n.Text(i), name) == Lookup(ext, name) <==> Unambiguous(ext, name) || LuckyGet(ext, name)
  {
    hide EncRec, Get, Terminated, Unambiguous, LuckyGet, Lookup, ScanEnds, Inode.Text, FirstLine;
    OnTail(n, i, false, name, "");
    TerminatedExactly(ext, name);
    GetExactly(ext, name);
  }

  lemma SearchFacts(n: Inode, i: nat, name: string)
    requires Terminated(n.Text(i), name)
    ensures forall ext: seq<Attr> :: n.tail == EncRec(ext) && RecordOk(ext) && Foreign(n, i, false, name) ==>
              && ScanEnds(ext, name)
              && (Get(n.Text(i), name) == Lookup(ext, name) <==> Unambiguous(ext, name) || LuckyGet(ext, name))
  {
    hide EncRec, Get, Terminated, Unambiguous, LuckyGet, Lookup, ScanEnds, Inode.Text, Foreign;
    forall ext: seq<Attr> | n.tail == EncRec(ext) && RecordOk(ext) && Foreign(n, i, false, name)
      ensures ScanEnds(ext, name)
      ensures Get(n.Text(i), name) == Lookup(ext, name) <==> Unambiguous(ext, name) || LuckyGet(ext, name)
    {
      SearchIsLookup(n, i, name, ext);
    }
  }

  /** listxattr hands out the keys after st_blocks. On the record of extended attributes `ext` those are their names
      if and only if ListsRight holds. */
  ghost predicate KeysRead(n: Inode, i: nat, size: nat, r: nat, before: string, after: string) {
    && Contains(n.Text(i), "st_blocks") && Terminated(n.Text(i), "st_blocks")
    && Copied(Listed(n.Text(i)), size, r, before, after)
    && forall ext: seq<Attr> :: n.tail == EncRec(ext) && RecordOk(ext) && NamesDistinct(ext) ==>
         (Listed(n.Text(i)) == NameList(ext) <==> ListsRight(ext))
  }

  lemma KeysAreNames(n: Inode, i: nat)
    ensures Contains(n.Text(i), "st_blocks") && Terminated(n.Text(i), "st_blocks")
    ensures forall ext: seq<Attr> :: n.tail == EncRec(ext) && RecordOk(ext) && NamesDistinct(ext) ==>
              (Listed(n.Text(i)) == NameList(ext) <==> ListsRight(ext))
  {
    hide EncRec, Listed, NameList, ListsRight, Inode.Text, Contains, Terminated;
    ListedTail(n, i);
    forall ext: seq<Attr> | n.tail == EncRec(ext) && RecordOk(ext) && NamesDistinct(ext)
      ensures Listed(n.Text(i)) == NameList(ext) <==> ListsRight(ext)
    {
      ListXattrExactly(n, i, ext);
    }
  }

  lemma SameText(n: Inode, n': Inode, i: nat)
    requires n.Text(i) == n'.Text(i)
    ensures n == n'
  {
    TextInjective(n, n', i);
  }

  /** The text after a link's seven attributes begins with its target. */
  predicate HasTarget(n: Inode, target: string) {
    Pair("st_content", target) <= n.tail
  }

  /** readlink copies the whole first line of the target, whatever the size of the buffer. */
  predicate LinkFits(n: Inode, i: nat, length: nat) {
    Terminated(n.Text(i), "st_content") &&
    match Get(n.Text(i), "st_content")
    case None => false
    case Some(t) => |t| <= length
  }

  ghost predicate LinkRead(n: Inode, i: nat, before: string, after: string) {
    LinkFits(n, i, |before|) &&
    var t := Get(n.Text(i), "st_content").value;
    && after == t + before[|t|..]
    && forall target: string :: HasTarget(n, target) ==> t == Head(target) && (t == target <==> '\n' !in target)
  }

  lemma LinkFacts(n: Inode, i: nat, target: string)
    requires HasTarget(n, target)
    ensures Terminated(n.Text(i), "st_content") && Get(n.Text(i), "st_content") == Some(Head(target))
    ensures Head(target) == target <==> '\n' !in target
  {
    hide Get, Terminated, Head, Inode.Text, Pair;
    var p := Pair("st_content", target);
    assert n.tail == p + n.tail[|p|..];
    ContentLaw(n, i, target, n.tail[|p|..]);
  }
}
