/** main.c: the callbacks, on the key-value store and the in-memory index. The ghost field `fs` is the state the two
    stand for; each callback takes it through one step of the state machine. */
module FileSystem {
  import opened CStrings
  import opened Lines
  import opened Items
  import opened DataParser
  import opened Records
  import opened Directory
  import opened InodeTable
  import opened Paths
  import opened Xattrs
  import opened XattrLaws
  import opened XattrList
  import opened RandomAccess
  import opened Protocol
  import opened UtHash
  import opened Hashtable
  import opened StoreKeys
  import opened FsModel
  import opened FsTree
  import opened FsInvariants
  import opened FlatFile
  import opened FsRuns
  import opened StepLaws
  import opened FsStore
  import opened FsText
  import opened BlockIO
  import opened FsGuards

  const ENOENT := 2
  const ENOTEMPTY := 39

  method NewRecord(ino: nat, mode: nat, nlink: nat, uid: nat, gid: nat, size: nat, content: Option<string>)
    returns (inode: string)
    ensures inode == NewInode(mode, nlink, uid, gid, size, content).Text(ino)
  {
    hide EncRec, Pair, Dec;
    ghost var r: seq<Attr> := [];
    inode := "";
    assert inode == EncRec(r) by { EmptyRecord(); }
    AppendText(r, "st_ino", Dec(ino));
    inode, r := inode + Pair("st_ino", Dec(ino)), r + [Attr("st_ino", Dec(ino))];
    AppendText(r, "st_mode", Dec(mode));
    inode, r := inode + Pair("st_mode", Dec(mode)), r + [Attr("st_mode", Dec(mode))];
    AppendText(r, "st_uid", Dec(uid));
    inode, r := inode + Pair("st_uid", Dec(uid)), r + [Attr("st_uid", Dec(uid))];
    AppendText(r, "st_gid", Dec(gid));
    inode, r := inode + Pair("st_gid", Dec(gid)), r + [Attr("st_gid", Dec(gid))];
    AppendText(r, "st_nlink", Dec(nlink));
    inode, r := inode + Pair("st_nlink", Dec(nlink)), r + [Attr("st_nlink", Dec(nlink))];
    AppendText(r, "st_size", Dec(size));
    inode, r := inode + Pair("st_size", Dec(size)), r + [Attr("st_size", Dec(size))];
    AppendText(r, "st_blocks", Dec(0));
    inode, r := inode + Pair("st_blocks", Dec(0)), r + [Attr("st_blocks", Dec(0))];
    assert r == NewInode(mode, nlink, uid, gid, size, content).Fixed(ino);
    if content.Some? {
      inode := inode + Pair("st_content", content.value);
    } else {
      assert inode + "" == inode;
    }
  }

  /** struct stat, as far as getattr fills it */
  datatype Stat = Stat(ino: nat, mode: nat, uid: nat, gid: nat, nlink: nat, size: nat, blocks: nat)

  /** The inode with a new owner; -1 keeps the old one. */
  function Owned(n: Inode, uid: int, gid: int): Inode
    requires uid >= -1 && gid >= -1
  {
    n.(uid := if uid == -1 then n.uid else uid, gid := if gid == -1 then n.gid else gid)
  }

  class MemcachedFs {
    const server: Memcached
    const index: HashTable
    ghost var fs: Fs

    ghost function Repr(): set<object>
      reads index
    {
      {this, server} + index.Repr()
    }

    ghost predicate Apart()
      reads index
    {
      server !in index.Repr() && this !in index.Repr()
    }

    /** The store encodes the state, and the index holds these entries. */
    ghost predicate Indexed(entries: seq<Item>)
      reads this, server, index, index.Repr()
    {
      Apart() && index.Valid() && index.Pairs() == entries && Encodes(server.kv, fs)
    }

    /** Store and index agree with the state. */
    ghost predicate Ready()
      reads this, server, index, index.Repr()
    {
      Indexed(fs.table)
    }

    ghost predicate Valid()
      reads this, server, index, index.Repr()
    {
      Ready() && Inv(fs)
    }

    /** memcached_connect and hashtable_init: the server as it is, and no index yet. */
    constructor (server: Memcached, hash: string -> nat)
      ensures this.server == server && fresh(index.Repr()) && Apart() && index.Valid() && index.Pairs() == []
    {
      this.server := server;
      index := new HashTable(hash);
      fs := Fs([], 0, map[], map[]);
    }

    // Store accesses

    method LoadRecord(i: nat) returns (data: string)
      requires Ready() && i in fs.inodes && '\0' !in fs.inodes[i].tail
      modifies server
      ensures Ready() && fs == old(fs) && data == fs.inodes[i].Text(i)
    {
      hide CStr, Inode.Text, InodeKey, IsKey, BlocksStored, TableStored, CounterStored, Storable;
      KeysCarried(i, 0);
      TextStorable(fs.inodes[i], i);
      assert InodeKey(i) in server.kv;
      var value := server.Get(InodeKey(i));
      data := CStr(value.value);
    }

    method StoreRecord(i: nat, data: string, ghost n: Inode) returns (ok: bool)
      requires Ready() && '\0' !in n.tail && data == n.Text(i)
      modifies this, server
      ensures Ready() && fs == SetInode(old(fs), i, n) && ok
    {
      hide CStr, EncRec, InodeKey, IsKey, Encodes, Inode.Text;
      KeysCarried(i, 0);
      TextStorable(n, i);
      StoreInode(server.kv, fs, i, n);
      ok := server.Set(InodeKey(i), data);
      fs := SetInode(fs, i, n);
    }

    method LoadBlock(i: nat, b: nat) returns (data: Option<string>)
      requires Ready()
      modifies server
      ensures Ready() && fs == old(fs) && data == if (i, b) in fs.blocks then Some(fs.blocks[(i, b)]) else None
    {
      hide BlockKey, IsKey, InodesStored, TableStored;
      KeysCarried(i, b);
      assert BlockKey(i, b) in server.kv <==> (i, b) in fs.blocks;
      data := server.Get(BlockKey(i, b));
    }

    method SaveBlock(i: nat, b: nat, data: string)
      requires Ready()
      modifies this, server
      ensures Ready() && fs == old(fs).(blocks := StoreBlock(old(fs.blocks), i, b, data))
    {
      hide BlockKey, IsKey, Encodes, CStr;
      KeysCarried(i, b);
      StoreBlockKey(server.kv, fs, i, b, data);
      var ok := server.Set(BlockKey(i, b), data);
      fs := fs.(blocks := StoreBlock(fs.blocks, i, b, data));
    }

    method DeleteRecord(i: nat)
      requires Ready()
      modifies this, server
      ensures Ready() && fs == old(fs).(inodes := old(fs.inodes) - {i})
    {
      hide InodeKey, IsKey, Encodes;
      KeysCarried(i, 0);
      DeleteInodeKey(server.kv, fs, i);
      var status := server.Delete(InodeKey(i));
      fs := fs.(inodes := fs.inodes - {i});
    }

    method DeleteBlock(i: nat, b: nat)
      requires Ready()
      modifies this, server
      ensures Ready() && fs == old(fs).(blocks := old(fs.blocks) - {(i, b)})
    {
      hide BlockKey, IsKey, Encodes;
      KeysCarried(i, b);
      DeleteBlockKey(server.kv, fs, i, b);
      var status := server.Delete(BlockKey(i, b));
      fs := fs.(blocks := fs.blocks - {(i, b)});
    }

    method LoadTable(ghost entries: seq<Item>) returns (table: string)
      requires Indexed(entries)
      modifies server
      ensures Indexed(entries) && fs == old(fs) && table == EncTable(fs.table)
    {
      hide BlockKey, IsKey, InodesStored, BlocksStored, CStr, EncTable;
      KeysCarried(0, 0);
      var value := server.Get(TABLE);
      table := CStr(value.value);
    }

    /** Stores a value whose C string is the text of a table. */
    method SaveTable(value: string, ghost table: seq<Item>, ghost entries: seq<Item>)
      requires Indexed(entries) && CStr(value) == EncTable(table) && Storable(value)
      modifies this, server
      ensures Indexed(entries) && fs == old(fs).(table := table)
    {
      hide IsKey, Encodes, CStr, EncTable;
      KeysCarried(0, 0);
      StoreTable(server.kv, fs, value, table);
      var ok := server.Set(TABLE, value);
      fs := fs.(table := table);
    }

    method LoadCounter() returns (next: nat)
      requires Ready()
      modifies server
      ensures Ready() && fs == old(fs) && next == fs.next
    {
      hide BlockKey, IsKey, InodesStored, BlocksStored, EncTable, CStr, Atoi, Dec;
      KeysCarried(0, 0);
      NumeralStorable(fs.next);
      ReadNumeral(fs.next);
      var value := server.Get(COUNTER);
      next := Atoi(CStr(value.value));
    }

    method SaveCounter(next: nat)
      requires Ready()
      modifies this, server
      ensures Ready() && fs == old(fs).(next := next)
    {
      hide IsKey, Encodes, CStr, Dec;
      KeysCarried(0, 0);
      NumeralStorable(next);
      StoreCounter(server.kv, fs, next);
      var ok := server.Set(COUNTER, Dec(next));
      fs := fs.(next := next);
    }

    // The index

    method AddToIndex(path: string, inodeValue: nat)
      requires Ready() && path !in fs.Index()
      modifies index.Repr()
      ensures Indexed(fs.table + [Item(path, inodeValue)]) && fs == old(fs) && fresh(index.Repr() - old(index.Repr()))
    {
      hide Encodes, ToMap, HashTable.Valid, HashTable.Pairs;
      AddEntry(index, path, inodeValue);
    }

    method RemoveFromIndex(path: string, ghost entries: seq<Item>) returns (inodeValue: nat)
      requires Indexed(entries) && path in ToMap(entries)
      modifies index.Repr()
      ensures Indexed(Without(entries, path)) && fs == old(fs) && index.Repr() <= old(index.Repr())
      ensures inodeValue == ToMap(entries)[path]
    {
      hide Encodes, ToMap, HashTable.Valid, HashTable.Pairs, Without;
      inodeValue := RemoveEntry(index, path);
    }

    /** get_attr_value on an inode's record. */
    method ReadField(data: string, f: Field, ghost n: Inode, ghost i: nat) returns (value: nat)
      requires Ready() && data == n.Text(i) && f != Content
      ensures Ready() && value == n.Numeric(i, f)
    {
      hide Inode.Text, Dec, Get, Set, Terminated, Atoi, Contains, Encodes;
      AttrLaws(n, i, f, 0);
      value := GetAttrValue(data, f.Name());
    }

    /** get_attr_value_str */
    method AttrText(data: string, name: string) returns (value: Option<string>)
      requires Ready() && Terminated(data, name)
      ensures Ready() && value == Get(data, name)
    {
      hide Encodes, Get, Terminated;
      value := GetAttrValueStr(data, name);
    }

    /** modify_attr on an inode's record. */
    method ChangeField(data: string, f: Field, value: nat, ghost n: Inode, ghost i: nat) returns (newData: string)
      requires Ready() && data == n.Text(i) && f != Content && f != Ino
      ensures Ready() && newData == n.With(f, value).Text(i)
    {
      hide Inode.Text, Dec, Get, Set, Terminated, Atoi, Contains, Encodes;
      AttrLaws(n, i, f, value);
      var result := ModifyAttr(data, f.Name(), value);
      newData := result.value;
    }

    /** hashable_get_entry */
    method Lookup(path: string) returns (value: int)
      requires Ready()
      ensures Ready() && value == if path in fs.Index() then fs.Index()[path] else -1
    {
      hide Encodes, ToMap;
      value := GetEntry(index, path);
    }

    /** The new path goes to the index first, then to the stored table. */
    method AddPath(path: string, inodeValue: nat)
      requires Ready() && TablePaths(fs.table) && path !in fs.Index() && TablePath(path)
      modifies this, server, index.Repr()
      ensures Ready() && fresh(index.Repr() - old(index.Repr()))
      ensures fs == old(fs).(table := old(fs).table + [Item(path, inodeValue)])
      ensures fs.Index() == old(fs).Index()[path := inodeValue]
    {
      hide MemcachedFs.Indexed, CStr, ToMap, Storable, EncTable, AddInodeToTable;
      ghost var entries := fs.table + [Item(path, inodeValue)];
      EntryAdded(fs.table, path, inodeValue);
      AddToIndex(path, inodeValue);
      var inodeTable := LoadTable(entries);
      var newInodeTable := AddInodeToTable(inodeTable, path, inodeValue);
      SaveTable(newInodeTable, entries, entries);
    }

    // Links of the parent directory

    method AddLinkToParentDir(path: string)
      requires Ready() && DirReady(fs, path)
      modifies this, server
      ensures Ready() && fs == AddLink(old(fs), path)
    {
      hide CStr, MemcachedFs.Indexed, Parent, BaseName, Name, ToMap, LinksText, Links, Inode.Text, Enc,
           Storable;
      var inodeValue := Lookup(Parent(path));
      ghost var n, names := fs.inodes[inodeValue], Links(fs.blocks, inodeValue);
      var linkName := BaseName(path);
      LinkAdded(fs.blocks, inodeValue, linkName);
      var links := LoadBlock(inodeValue, 0);
      if links == None {
        SaveBlock(inodeValue, 0, linkName + "\n");
      } else {
        SaveBlock(inodeValue, 0, CStr(links.value) + linkName + "\n");
      }
      assert "" + linkName + "\n" == linkName + "\n";
      var data := LoadRecord(inodeValue);
      var stBlocks := ReadField(data, Field.Blocks, n, inodeValue);
      data := ChangeField(data, Field.Blocks, stBlocks + 1, n, inodeValue);
      var ok := StoreRecord(inodeValue, data, n.(blocks := n.blocks + 1));
    }

    method RemoveLinkFromParentDir(path: string)
      requires Ready() && DirReady(fs, path)
      requires var names := Links(fs.blocks, fs.Index()[Parent(path)]);
               BaseName(path) in names && NameFirst(names, BaseName(path))
      modifies this, server
      ensures Ready() && fs == DropLink(old(fs), path)
    {
      hide CStr, MemcachedFs.Indexed, Parent, BaseName, Name, ToMap, LinksText, Links, Enc, Storable,
           DropName, RemoveLink, Contains, StrStr, NameFirst;
      var inodeValue := Lookup(Parent(path));
      var linkName := BaseName(path);
      LinkRemoved(fs.blocks, inodeValue, linkName);
      var links := LoadBlock(inodeValue, 0);
      if links != None {
        SaveBlock(inodeValue, 0, RemoveLink(CStr(links.value), linkName));
      }
    }

    // Inodes

    method CreateInode(path: string, mode: nat, nlink: nat, uid: nat, gid: nat, size: nat, content: Option<string>)
      returns (r: int)
      requires Ready() && TablePaths(fs.table) && path !in fs.Index() && TablePath(path)
      requires content.Some? ==> '\0' !in content.value
      requires path != "/" ==> Parent(path) != path && DirReady(fs, path) && fs.Index()[Parent(path)] != fs.next
      modifies this, server, index.Repr()
      ensures Ready() && fresh(index.Repr() - old(index.Repr())) && r == 0
      ensures fs == FsModel.Create(old(fs), path, NewInode(mode, nlink, uid, gid, size, content))
    {
      hide CStr, MemcachedFs.Indexed, Parent, BaseName, Name, ToMap, LinksText, Links, Enc, Storable,
           Inode.Text, NewInode, FsModel.Create, DirReady, AddLink, TablePaths, EncTable;
      ghost var was := fs;
      ghost var n := NewInode(mode, nlink, uid, gid, size, content);
      var ino := LoadCounter();
      var inode := NewRecord(ino, mode, nlink, uid, gid, size, content);
      NewInodeOk(mode, nlink, uid, gid, size, content);
      var stored := StoreRecord(ino, inode, n);
      SaveCounter(ino + 1);
      if stored {
        AddPath(path, ino);
        CreatedFacts(was, path, n);
        if path != "/" {
          AddLinkToParentDir(path);
        }
        return 0;
      }
      return -1;
    }

    /** The table is stored with its old length, so whatever lies behind the new text goes along. */
    method RemoveFromTable(path: string)
      requires Ready() && TablePaths(fs.table) && path in fs.Index() && EntryFirst(fs.table, path)
      modifies this, server
      ensures Indexed(old(fs.table)) && fs == old(fs).(table := Without(old(fs.table), path))
    {
      hide Encodes, CStr, EncTable, EntryFirst, RemovePath, ToMap, Without, Terminated, Storable, TablePaths;
      var inodeTable := LoadTable(fs.table);
      EntryRemoved(fs.table, path);
      var newInodeTable := RemoveInodeFromTable(inodeTable, path);
      var memory := new char[|inodeTable| - |newInodeTable.value| - 1];
      TableBehind(Without(fs.table, path), memory[..]);
      SaveTable(newInodeTable.value + "\0" + memory[..], Without(fs.table, path), fs.table);
    }

    method DeleteBlocks(inodeValue: nat, stBlocks: nat)
      requires Ready()
      modifies this, server
      ensures Ready() && fs == old(fs).(blocks := DropBlocks(old(fs.blocks), inodeValue, stBlocks))
    {
      hide MemcachedFs.Indexed, DropBlocks;
      OneMoreBlock(fs.blocks, inodeValue, 0);
      for b := 0 to stBlocks
        invariant Ready() && fs == old(fs).(blocks := DropBlocks(old(fs.blocks), inodeValue, b))
      {
        OneMoreBlock(old(fs.blocks), inodeValue, b);
        DeleteBlock(inodeValue, b);
      }
    }

    method DeleteInode(path: string) returns (r: int)
      requires Valid() && CanDelete(fs, path) && Removable(fs, path)
      modifies this, server, index.Repr()
      ensures Ready() && index.Repr() <= old(index.Repr()) && r == 0
      ensures fs == FsModel.Delete(old(fs), path)
    {
      hide MemcachedFs.Indexed, Inv, CanDelete, ToMap, Parent, BaseName, Name, Links, LinksText, Without,
           DropBlocks, Inode.Text;
      hide FsModel.Delete, EntryFirst, NameFirst, Removable, DirReady;
      DeleteFacts(fs, path);
      ghost var was, i := fs, fs.Index()[path];
      RemoveFromTable(path);
      var inodeValue := RemoveFromIndex(path, was.table);
      ghost var n := was.inodes[i];
      var data := LoadRecord(inodeValue);
      var stNlink := ReadField(data, Nlink, n, i);
      var stMode := ReadField(data, Mode, n, i);
      if FileType(stMode) == 8 && stNlink > 1 {
        data := ChangeField(data, Nlink, stNlink - 1, n, i);
        var ok := StoreRecord(inodeValue, data, n.(nlink := n.nlink - 1));
      } else {
        var stBlocks := ReadField(data, Field.Blocks, n, i);
        DeleteBlocks(inodeValue, stBlocks);
        DeleteRecord(inodeValue);
      }
      DoomedFacts(was, path, fs);
      RemoveLinkFromParentDir(path);
      r := 0;
    }

    // The callbacks that change the namespace

    /** memcached_init: a first mount makes the root directory; a later one rebuilds the index from the store. */
    method Init(uid: nat, gid: nat, ghost stored: Fs)
      requires Apart() && index.Valid() && index.Pairs() == []
      requires TABLE in server.kv ==> Encodes(server.kv, stored) && Inv(stored)
      modifies this, server, index.Repr()
      ensures Valid() && fresh(index.Repr() - old(index.Repr()))
      ensures fs == if old(TABLE in server.kv) then stored
                    else Fs([Item("/", 0)], 1, map[0 := Inode(4 * 4096 + 0x1ED, uid, gid, 2, 0, 0, "")], map[])
      ensures !old(TABLE in server.kv) ==> fs == FsInvariants.Init(uid, gid)
      ensures old(TABLE in server.kv) ==> server.kv == old(server.kv)
    {
      hide Encodes, Inv, CStr, IsKey, FsModel.Create, ParseTable, HashTable.Valid, HashTable.Pairs;
      KeysCarried(0, 0);
      var inodeTable := server.Get(TABLE);
      if inodeTable == None {
        var status := server.FlushAll();
        EmptyStore();
        var ok := server.Set(TABLE, "");
        ok := server.Set(COUNTER, "0");
        fs := Fs([], 0, map[], map[]);
        InitOk(uid, gid);
        InitShape(uid, gid);
        var r := CreateInode("/", 4 * 4096 + 0x1ED, 2, uid, gid, 0, None);
      } else {
        StoredTable(server.kv, stored);
        StringToTable(index, inodeTable.value);
        fs := stored;
      }
    }

    method Create(path: string, mode: nat, uid: nat, gid: nat) returns (r: int)
      requires Valid() && Addable(fs.Index(), fs.inodes, path) && FileType(mode) == 8
      modifies this, server, index.Repr()
      ensures Valid() && fresh(index.Repr() - old(index.Repr())) && r == 0
      ensures StepTo(old(fs), CreateStep(path, Inode(mode, uid, gid, 1, 0, 0, "")), fs)
    {
      hide MemcachedFs.Indexed, Inv, StepTo, Addable;
      CreateFacts(fs, path, mode, 1, uid, gid, 0, None);
      r := CreateInode(path, mode, 1, uid, gid, 0, None);
    }

    /** The mode brings permission bits only. */
    method Mkdir(path: string, mode: nat, uid: nat, gid: nat) returns (r: int)
      requires Valid() && Addable(fs.Index(), fs.inodes, path) && mode < 4096
      modifies this, server, index.Repr()
      ensures Valid() && fresh(index.Repr() - old(index.Repr())) && r == 0
      ensures StepTo(old(fs), CreateStep(path, Inode(4 * 4096 + mode, uid, gid, 2, 0, 0, "")), fs)
    {
      hide MemcachedFs.Indexed, Inv, StepTo, Addable, FileType, FsModel.Create, DirReady, TablePaths, ToMap, Parent;
      DirMode(mode);
      CreateFacts(fs, path, 4 * 4096 + mode, 2, uid, gid, 0, None);
      var made := CreateInode(path, 4 * 4096 + mode, 2, uid, gid, 0, None);
      r := 0;
    }

    method Symlink(target: string, path: string, uid: nat, gid: nat) returns (r: int)
      requires Valid() && Addable(fs.Index(), fs.inodes, path) && '\0' !in target
      modifies this, server, index.Repr()
      ensures Valid() && fresh(index.Repr() - old(index.Repr())) && r == 0
      ensures StepTo(old(fs),
          CreateStep(path, Inode(10 * 4096 + 0x1FF, uid, gid, 1, |target|, 0, Pair("st_content", target))), fs)
    {
      hide MemcachedFs.Indexed, Inv, StepTo, Addable;
      CreateFacts(fs, path, 10 * 4096 + 0x1FF, 1, uid, gid, |target|, Some(target));
      var made := CreateInode(path, 10 * 4096 + 0x1FF, 1, uid, gid, |target|, Some(target));
      r := 0;
    }

    /** One more link in the record of an inode. */
    method CountLink(i: nat)
      requires Ready() && i in fs.inodes && '\0' !in fs.inodes[i].tail
      modifies this, server
      ensures Ready() && fs == SetInode(old(fs), i, old(fs.inodes[i]).(nlink := old(fs.inodes[i]).nlink + 1))
    {
      hide MemcachedFs.Indexed, Inode.Text;
      ghost var n := fs.inodes[i];
      var data := LoadRecord(i);
      var stNlink := ReadField(data, Nlink, n, i);
      data := ChangeField(data, Nlink, stNlink + 1, n, i);
      var ok := StoreRecord(i, data, n.(nlink := n.nlink + 1));
    }

    method Link(oldPath: string, newPath: string) returns (r: int)
      requires Valid() && CanLink(fs, oldPath, newPath)
      modifies this, server, index.Repr()
      ensures Valid() && fresh(index.Repr() - old(index.Repr())) && r == 0
      ensures StepTo(old(fs), LinkStep(oldPath, newPath), fs)
    {
      hide MemcachedFs.Indexed, Inv, StepTo, CanLink, ToMap, FsModel.Link, DirReady, InodeOk, Storable, EncTable,
           CStr, Addable;
      ghost var was := fs;
      LinkingFacts(fs, oldPath, newPath);
      var inodeValue := Lookup(oldPath);
      CountLink(inodeValue);
      AddPath(newPath, inodeValue);
      LinkedFacts(was, oldPath, newPath, fs);
      AddLinkToParentDir(newPath);
      r := 0;
    }

    method Unlink(path: string) returns (r: int)
      requires Valid() && path in fs.Index() && !IsDir(NodeOf(fs, path)) && Removable(fs, path)
      modifies this, server, index.Repr()
      ensures Valid() && index.Repr() <= old(index.Repr()) && r == 0
      ensures StepTo(old(fs), DeleteStep(path), fs)
    {
      hide MemcachedFs.Indexed, Inv, Removable, ToMap, FsModel.Delete, Parent;
      PathFacts(fs, path);
      UnlinkFacts(fs, path);
      DeleteKeeps(fs, path);
      var deleted := DeleteInode(path);
      r := 0;
    }

    /** A directory goes only when its block lists nothing. */
    method Rmdir(path: string) returns (r: int)
      requires Valid() && path in fs.Index() && path != "/" && IsDir(NodeOf(fs, path))
      requires Links(fs.blocks, InoOf(fs, path)) == [] ==> Removable(fs, path)
      modifies this, server, index.Repr()
      ensures Valid() && index.Repr() <= old(index.Repr())
      ensures if old(Links(fs.blocks, InoOf(fs, path))) == [] then r == 0 && StepTo(old(fs), DeleteStep(path), fs)
              else r == -ENOTEMPTY && fs == old(fs)
    {
      hide MemcachedFs.Indexed, Inv, Removable, ToMap, FsModel.Delete, Parent, CStr, Links;
      PathFacts(fs, path);
      DirText(fs, path);
      var inodeValue := Lookup(path);
      var links := LoadBlock(inodeValue, 0);
      if links != None && |CStr(links.value)| > 0 {
        return -ENOTEMPTY;
      }
      DeleteKeeps(fs, path);
      var deleted := DeleteInode(path);
      r := 0;
    }

    /** memcached_destroy */
    method Destroy()
      requires Valid()
      modifies index.Repr()
      ensures index.Valid() && index.Pairs() == [] && Apart() && Encodes(server.kv, old(fs)) && Inv(old(fs))
    {
      hide Encodes, Inv, HashTable.Valid, HashTable.Pairs;
      FreeTable(index);
    }

    // The callbacks that read

    method Getattr(path: string) returns (r: int, stat: Option<Stat>)
      requires Valid()
      modifies server
      ensures Valid() && fs == old(fs)
      ensures if path in fs.Index()
              then var i := InoOf(fs, path);
                   var n := NodeOf(fs, path);
                   r == 0 && stat == Some(Stat(i, n.mode, n.uid, n.gid, n.nlink, n.size, n.blocks))
              else r == -ENOENT && stat == None
    {
      hide MemcachedFs.Indexed, Inv, ToMap, Inode.Text, InodeOk;
      var inodeValue := Lookup(path);
      if inodeValue == -1 {
        return -ENOENT, None;
      }
      PathFacts(fs, path);
      ghost var n := fs.inodes[inodeValue];
      OkExt(n);
      var data := LoadRecord(inodeValue);
      var ino := ReadField(data, Ino, n, inodeValue);
      var mode := ReadField(data, Mode, n, inodeValue);
      var uid := ReadField(data, Uid, n, inodeValue);
      var gid := ReadField(data, Gid, n, inodeValue);
      var nlink := ReadField(data, Nlink, n, inodeValue);
      var size := ReadField(data, Size, n, inodeValue);
      var blocks := ReadField(data, Field.Blocks, n, inodeValue);
      return 0, Some(Stat(ino, mode, uid, gid, nlink, size, blocks));
    }

    /** The names the filler is called with. */
    method Readdir(path: string) returns (entries: seq<string>)
      requires Valid() && path in fs.Index() && IsDir(NodeOf(fs, path))
      modifies server
      ensures Valid() && fs == old(fs)
      ensures entries == [".", ".."] + Links(fs.blocks, InoOf(fs, path))
    {
      hide Encodes, HashTable.Valid, HashTable.Pairs, Inv, ToMap, Split, CStr;
      PathFacts(fs, path);
      DirText(fs, path);
      entries := [".", ".."];
      var inodeValue := Lookup(path);
      var links := LoadBlock(inodeValue, 0);
      if links != None {
        var names := ListLinks(CStr(links.value));
        entries := entries + names;
      }
    }

    /** Copies the target without a NUL and without regard to the size. */
    method Readlink(path: string, buf: array<char>, size: nat) returns (r: int)
      requires Valid() && path in fs.Index() && IsLnk(NodeOf(fs, path))
      requires buf !in Repr() && LinkFits(NodeOf(fs, path), InoOf(fs, path), buf.Length)
      modifies server, buf
      ensures Valid() && fs == old(fs) && r == 0
      ensures LinkRead(NodeOf(fs, path), InoOf(fs, path), old(buf[..]), buf[..])
      ensures var t := Get(NodeOf(fs, path).Text(InoOf(fs, path)), "st_content");
              t.Some? && |t.value| <= buf.Length && buf[..] == t.value + old(buf[..])[|t.value|..]
    {
      hide MemcachedFs.Indexed, Inv, ToMap, Inode.Text, Get, Terminated, InodeOk, HasTarget, Head;
      PathFacts(fs, path);
      var inodeValue := Lookup(path);
      ghost var n := fs.inodes[inodeValue];
      OkExt(n);
      var data := LoadRecord(inodeValue);
      var content := AttrText(data, "st_content");
      var contentSize := |content.value|;
      forall target: string | HasTarget(n, target)
        ensures content.value == Head(target) && (content.value == target <==> '\n' !in target)
      {
        LinkFacts(n, inodeValue, target);
      }
      var copied := if size != contentSize then contentSize else size;
      CopyOut(buf, 0, content.value[..copied]);
      r := 0;
    }

    // File contents

    /** A stored block, or zeros. */
    method BlockData(i: nat, b: nat) returns (data: string)
      requires Ready()
      modifies server
      ensures Ready() && fs == old(fs) && data == BlockAt(fs.blocks, i, b)
    {
      hide MemcachedFs.Indexed;
      var stored := LoadBlock(i, b);
      data := if stored == None then ZeroBlock() else stored.value;
    }

    method CopyOut(buf: array<char>, at: nat, piece: string)
      requires Ready() && buf !in Repr() && at + |piece| <= buf.Length
      modifies buf
      ensures Ready() && buf[..] == old(buf[..])[..at] + piece + old(buf[..])[at + |piece|..]
    {
      hide Encodes;
      MemCpy(buf, at, piece);
      assert old(buf[..at]) == old(buf[..])[..at] && old(buf[at + |piece|..]) == old(buf[..])[at + |piece|..];
    }

    method CopyIn(data: string, at: nat, piece: string) returns (changed: string)
      requires Ready() && at + |piece| <= |data|
      ensures Ready() && changed == data[..at] + piece + data[at + |piece|..]
    {
      hide Encodes;
      var block := new char[|data|](j requires 0 <= j < |data| => data[j]);
      assert block[..] == data;
      MemCpy(block, at, piece);
      changed := block[..];
    }

    /** Fills the buffer with the bytes of the file from the offset, up to the size or the end of the file. */
    method Read(path: string, buf: array<char>, size: nat, offset: nat) returns (r: nat)
      requires Valid() && path in fs.Index() && IsReg(NodeOf(fs, path))
      requires buf !in Repr() && size <= buf.Length
      requires ReadGuard(offset, size, NodeOf(fs, path).size)
      modifies server, buf
      ensures Valid() && fs == old(fs)
      ensures var i := InoOf(fs, path);
              && FullBlocks(fs.blocks, i)
              && r == |ReadOf(File(fs, i), offset, size)| <= buf.Length
              && r == (if NodeOf(fs, path).size <= offset then 0
                       else if offset + size > NodeOf(fs, path).size then NodeOf(fs, path).size - offset else size)
              && buf[..] == ReadOf(File(fs, i), offset, size) + old(buf[..])[r..]
    {
      hide MemcachedFs.Indexed, Inv, ToMap, Inode.Text, InodeOk, GetFileBlocksInfo, Covers, FullBlocks, File, ReadOf,
           BlockAt, Bytes;
      PathFacts(fs, path);
      ReadableFacts(fs, path);
      var inodeValue := Lookup(path);
      ghost var n := fs.inodes[inodeValue];
      OkExt(n);
      var data := LoadRecord(inodeValue);
      var stSize := ReadField(data, Size, n, inodeValue);
      if stSize <= offset {
        NothingToRead(fs, inodeValue, offset, size);
        return 0;
      }
      r := size;
      if offset + size > stSize {
        r := stSize - offset;
      }
      ReadIsBytes(fs, inodeValue, offset, size);
      var info := GetFileBlocksInfo(offset, r, BLOCK);
      CoversExactly(offset, r, BLOCK);
      ReadBlocks(inodeValue, info, buf, r, offset);
    }

    /** The loop of memcached_read. */
    method ReadBlocks(inodeValue: nat, info: FileBlocks, buf: array<char>, size: nat, offset: nat)
      requires Ready() && FullBlocks(fs.blocks, inodeValue) && Covers(info, offset, size, BLOCK)
      requires buf !in Repr() && size <= buf.Length
      modifies server, buf
      ensures Ready() && fs == old(fs)
      ensures buf[..] == Bytes(fs.blocks, inodeValue, offset, size) + old(buf[..])[size..]
    {
      hide MemcachedFs.Indexed, Covers, BlockAt, Bytes, Filled, FullBlocks, Done, OffsetIn, PieceSize, BytesBefore;
      ghost var was := buf[..];
      NothingFilled(fs.blocks, inodeValue, info, offset, size, was);
      StartOfRange(info, size);
      var alreadyRead := 0;
      for k := 0 to info.numBlocks
        invariant Ready() && fs == old(fs)
        invariant k < info.numBlocks ==> alreadyRead == Done(info, size, k)
        invariant Filled(fs.blocks, inodeValue, offset, Done(info, size, k), buf[..], was)
      {
        RoundFacts(info, offset, size, k);
        ghost var now := buf[..];
        FillStep(fs.blocks, inodeValue, info, offset, size, k, now, was);
        var data := BlockData(inodeValue, info.startBlock + k);
        assert buf[..] == now;
        var readOffset := if k == 0 then info.offsetInStartBlock else 0;
        if k == 0 && info.numBlocks == 1 {
          CopyOut(buf, 0, data[readOffset..readOffset + size]);
        } else if k == 0 && info.numBlocks > 1 {
          var readSize := BLOCK - readOffset;
          CopyOut(buf, 0, data[readOffset..readOffset + readSize]);
          alreadyRead := alreadyRead + readSize;
        } else {
          var readSize := if k == info.numBlocks - 1 then info.bytesInEndBlock else BLOCK;
          CopyOut(buf, alreadyRead, data[readOffset..readOffset + readSize]);
          alreadyRead := alreadyRead + readSize;
        }
      }
      AllFilled(fs.blocks, inodeValue, offset, size, buf[..], was);
    }

    method Write(path: string, buf: string, offset: nat) returns (r: nat)
      requires Valid() && path in fs.Index() && IsReg(NodeOf(fs, path))
      requires Coverable(offset, |buf|, BLOCK)
      modifies this, server
      ensures Valid() && r == |buf|
      ensures var i := InoOf(old(fs), path);
              FullBlocks(old(fs).blocks, i) && fs == FsModel.Write(old(fs), i, offset, buf)
      ensures StepTo(old(fs), WriteStep(path, offset, buf), fs)
      ensures var i, n := InoOf(old(fs), path), old(NodeOf(fs, path));
              fs == old(fs).(blocks := fs.blocks, inodes := old(fs).inodes[i :=
                n.(blocks := BlocksOf(offset, |buf|),
                    size := if offset + |buf| > n.size then offset + |buf| else n.size)])
    {
      hide MemcachedFs.Indexed, Inv, ToMap, Inode.Text, InodeOk, GetFileBlocksInfo, Covers, FullBlocks, WriteBlocks,
           BlocksOf, Coverable;
      PathFacts(fs, path);
      ReadableFacts(fs, path);
      var inodeValue := Lookup(path);
      ghost var n := fs.inodes[inodeValue];
      OkExt(n);
      WriteKeeps(fs, inodeValue, offset, buf);
      WriteEffect(fs, inodeValue, offset, buf);
      var info := GetFileBlocksInfo(offset, |buf|, BLOCK);
      CoversExactly(offset, |buf|, BLOCK);
      WriteLoop(inodeValue, info, buf, offset);
      var data := LoadRecord(inodeValue);
      var newData := ChangeField(data, Field.Blocks, info.numBlocks, n, inodeValue);
      var stSize := ReadField(data, Size, n, inodeValue);
      if offset + |buf| > stSize {
        newData := ChangeField(newData, Size, offset + |buf|, n.(blocks := info.numBlocks), inodeValue);
        var ok := StoreRecord(inodeValue, newData, n.(blocks := info.numBlocks, size := offset + |buf|));
      } else {
        var ok := StoreRecord(inodeValue, newData, n.(blocks := info.numBlocks));
      }
      r := |buf|;
    }

    /** The loop of memcached_write. */
    method WriteLoop(inodeValue: nat, info: FileBlocks, buf: string, offset: nat)
      requires Ready() && FullBlocks(fs.blocks, inodeValue) && Covers(info, offset, |buf|, BLOCK)
      modifies this, server
      ensures Ready()
      ensures fs == old(fs).(blocks := WriteBlocks(old(fs).blocks, inodeValue, info.startBlock, info.numBlocks,
          offset, buf))
    {
      hide MemcachedFs.Indexed, Covers, FullBlocks, BlockAt, NewBlock, StoreBlock, Done, OffsetIn, PieceSize,
           BytesBefore;
      ghost var was := fs.blocks;
      CoversSome(info, offset, |buf|);
      StartOfRange(info, |buf|);
      var written := 0;
      for k := 0 to info.numBlocks
        invariant Ready() && fs == old(fs).(blocks := WriteBlocks(was, inodeValue, info.startBlock, k, offset, buf))
        invariant k < info.numBlocks ==> written == Done(info, |buf|, k)
      {
        RoundFacts(info, offset, |buf|, k);
        WriteRound(was, inodeValue, info, offset, buf, k);
        var block := info.startBlock + k;
        var data := BlockData(inodeValue, block);
        var writeOffset := if k == 0 then info.offsetInStartBlock else 0;
        if k == 0 && info.numBlocks == 1 {
          data := CopyIn(data, writeOffset, buf[..|buf|]);
        } else if k == 0 && info.numBlocks > 1 {
          var writeSize := BLOCK - writeOffset;
          data := CopyIn(data, writeOffset, buf[written..written + writeSize]);
          written := written + writeSize;
        } else {
          var writeSize := if k == info.numBlocks - 1 then info.bytesInEndBlock else BLOCK;
          data := CopyIn(data, writeOffset, buf[written..written + writeSize]);
          written := written + writeSize;
        }
        SaveBlock(inodeValue, block, data);
      }
    }

    // Attributes

    /** The new mode keeps the file type. */
    method Chmod(path: string, mode: nat) returns (r: int)
      requires Valid() && path in fs.Index() && FileType(mode) == FileType(NodeOf(fs, path).mode)
      modifies this, server
      ensures Valid() && r == 0
      ensures StepTo(old(fs), SetStep(path, old(NodeOf(fs, path)).(mode := mode)), fs)
    {
      hide MemcachedFs.Indexed, Inv, StepTo, CanSet, ToMap, Inode.Text, InodeOk;
      PathFacts(fs, path);
      var inodeValue := Lookup(path);
      ghost var n := fs.inodes[inodeValue];
      OkExt(n);
      KeepsTail(fs, path, n.(mode := mode));
      SetStepOk(fs, path, n.(mode := mode));
      var data := LoadRecord(inodeValue);
      data := ChangeField(data, Mode, mode, n, inodeValue);
      var ok := StoreRecord(inodeValue, data, n.(mode := mode));
      r := 0;
    }

    /** An id of -1 is left alone. */
    method Chown(path: string, uid: int, gid: int) returns (r: int)
      requires Valid() && path in fs.Index() && uid >= -1 && gid >= -1
      modifies this, server
      ensures Valid() && r == 0
      ensures StepTo(old(fs), SetStep(path, NodeOf(fs, path)), fs)
      ensures var n, n' := old(NodeOf(fs, path)), NodeOf(fs, path);
              && n'.uid == (if uid == -1 then n.uid else uid) && n'.gid == (if gid == -1 then n.gid else gid)
              && n' == n.(uid := n'.uid, gid := n'.gid)
    {
      hide MemcachedFs.Indexed, Inv, StepTo, CanSet, ToMap, Inode.Text, InodeOk;
      PathFacts(fs, path);
      ghost var i := InoOf(fs, path);
      ghost var n := NodeOf(fs, path);
      OkExt(n);
      KeepsTail(fs, path, Owned(n, uid, gid));
      SetStepOk(fs, path, Owned(n, uid, gid));
      if uid == -1 && gid == -1 {
        assert SetInode(fs, i, n) == fs;
        return 0;
      }
      var inodeValue := Lookup(path);
      var data := LoadRecord(inodeValue);
      if uid != -1 {
        data := ChangeField(data, Uid, uid, n, i);
      }
      if gid != -1 {
        data := ChangeField(data, Gid, gid, Owned(n, uid, -1), i);
      }
      var ok := StoreRecord(inodeValue, data, Owned(n, uid, gid));
      r := 0;
    }

    /** modify_attr_str */
    method ChangeText(data: string, name: string, value: string) returns (result: Option<string>)
      requires Ready() && Terminated(data, name)
      ensures Ready() && result == Set(data, name, value)
    {
      hide Encodes, Set, Terminated;
      result := ModifyAttrStr(data, name, value);
    }

    /** The value counts up to its first NUL. */
    method Setxattr(path: string, name: string, value: string) returns (r: int)
      requires Valid() && path in fs.Index()
      requires Foreign(NodeOf(fs, path), InoOf(fs, path), IsLnk(NodeOf(fs, path)), name)
      requires Terminated(NodeOf(fs, path).tail, name)
      modifies this, server
      ensures Valid() && r == 0
      ensures var n := old(NodeOf(fs, path));
              StepTo(old(fs), SetStep(path, n.(tail := SetXattr(n.tail, name, CStr(value)))), fs)
    {
      hide MemcachedFs.Indexed, Inv, StepTo, CanSet, ToMap, Inode.Text, InodeOk, Foreign, CStr, Terminated;
      PathFacts(fs, path);
      var inodeValue := Lookup(path);
      ghost var n := fs.inodes[inodeValue];
      ghost var n' := n.(tail := SetXattr(n.tail, name, CStr(value)));
      SetFacts(fs, path, name, CStr(value));
      SetStepOk(fs, path, n');
      var data := LoadRecord(inodeValue);
      var attrValue := AttrText(data, name);
      var valueString := CStr(value);
      if attrValue == None {
        var ok := StoreRecord(inodeValue, data + Pair(name, valueString), n');
      } else {
        var newData := ChangeText(data, name, valueString);
        var ok := StoreRecord(inodeValue, newData.value, n');
      }
      r := 0;
    }

    /** A size of 0 asks for the length; otherwise as much of the value as fits is copied. */
    method Getxattr(path: string, name: string, buf: array<char>, size: nat) returns (r: nat)
      requires Valid() && path in fs.Index() && buf !in Repr() && size <= buf.Length
      requires Terminated(NodeOf(fs, path).Text(InoOf(fs, path)), name)
      modifies server, buf
      ensures Valid() && fs == old(fs)
      ensures XattrRead(NodeOf(fs, path), InoOf(fs, path), name, size, r, old(buf[..]), buf[..])
      ensures match Get(NodeOf(fs, path).Text(InoOf(fs, path)), name)
              case None => r == 0 && buf[..] == old(buf[..])
              case Some(v) =>
                && (size == 0 ==> r == |v| && buf[..] == old(buf[..]))
                && (size > 0 ==> r <= size && r <= |v| && (r == size || r == |v|)
                                 && buf[..] == v[..r] + old(buf[..])[r..])
    {
      hide MemcachedFs.Indexed, Inv, ToMap, Inode.Text, InodeOk, Get, Terminated, EncRec, Foreign, Unambiguous,
           LuckyGet, ScanEnds, Xattrs.Lookup;
      PathFacts(fs, path);
      var inodeValue := Lookup(path);
      ghost var n := fs.inodes[inodeValue];
      OkExt(n);
      SearchFacts(n, inodeValue, name);
      var data := LoadRecord(inodeValue);
      var attrValue := AttrText(data, name);
      if attrValue == None {
        return 0;
      }
      r := size;
      if size == 0 {
        r := |attrValue.value|;
      } else {
        if size > |attrValue.value| {
          r := |attrValue.value|;
        }
        CopyOut(buf, 0, attrValue.value[..r]);
      }
    }

    method ListKeys(data: string) returns (keys: string)
      requires Ready() && Contains(data, "st_blocks") && Terminated(data, "st_blocks")
      ensures Ready() && keys == Listed(data)
    {
      hide Encodes;
      keys := GetExtendedAttrsList(data);
    }

    /** The keys after st_blocks, each with a NUL: their length, or as much as fits. */
    method Listxattr(path: string, buf: array<char>, size: nat) returns (r: nat)
      requires Valid() && path in fs.Index() && buf !in Repr() && size <= buf.Length
      modifies server, buf
      ensures Valid() && fs == old(fs)
      ensures KeysRead(NodeOf(fs, path), InoOf(fs, path), size, r, old(buf[..]), buf[..])
      ensures var keys := Listed(NodeOf(fs, path).Text(InoOf(fs, path)));
              && (size == 0 ==> r == |keys| && buf[..] == old(buf[..]))
              && (size > 0 ==> r <= size && r <= |keys| && (r == size || r == |keys|)
                               && buf[..] == keys[..r] + old(buf[..])[r..])
    {
      hide MemcachedFs.Indexed, Inv, ToMap, Inode.Text, InodeOk, Terminated, Contains, Listed, NameList, ListsRight,
           EncRec;
      PathFacts(fs, path);
      var inodeValue := Lookup(path);
      ghost var n := fs.inodes[inodeValue];
      OkExt(n);
      KeysAreNames(n, inodeValue);
      var data := LoadRecord(inodeValue);
      var keys := ListKeys(data);
      r := size;
      if size == 0 {
        r := |keys|;
      } else {
        if size > |keys| {
          r := |keys|;
        }
        if r > 0 {
          CopyOut(buf, 0, keys[..r]);
        }
      }
    }

    method Removexattr(path: string, name: string) returns (r: int)
      requires Valid() && path in fs.Index()
      requires Foreign(NodeOf(fs, path), InoOf(fs, path), IsLnk(NodeOf(fs, path)), name)
      requires TwoLinesFollow(NodeOf(fs, path).tail, name)
      modifies this, server
      ensures Valid() && r == 0
      ensures var n := old(NodeOf(fs, path));
              StepTo(old(fs), SetStep(path, n.(tail := RemoveXattr(n.tail, name))), fs)
    {
      hide MemcachedFs.Indexed, Inv, StepTo, CanSet, ToMap, Inode.Text, InodeOk, Foreign, RemoveExtendedAttr,
           TwoLinesFollow;
      PathFacts(fs, path);
      var inodeValue := Lookup(path);
      ghost var n := fs.inodes[inodeValue];
      ghost var n' := n.(tail := RemoveXattr(n.tail, name));
      RemoveFacts(fs, path, name);
      SetStepOk(fs, path, n');
      var data := LoadRecord(inodeValue);
      var result := RemoveExtendedAttr(data, name);
      if result != None {
        var ok := StoreRecord(inodeValue, result.value, n');
      } else {
        SameText(n, n', inodeValue);
        assert SetInode(fs, inodeValue, n) == fs;
      }
      r := 0;
    }
  }

  /** A new process on the same server: the state and the index come back as they were. */
  method Restart(mounted: MemcachedFs, uid: nat, gid: nat) returns (again: MemcachedFs)
    requires mounted.Valid()
    modifies mounted.server, mounted.index.Repr()
    ensures fresh(again) && fresh(again.index.Repr()) && again.server == mounted.server
        && again.server.kv == old(mounted.server.kv)
    ensures again.Valid() && again.fs == old(mounted.fs) && again.index.Pairs() == old(mounted.index.Pairs())
  {
    hide Encodes, Inv, ToMap;
    ghost var was := mounted.fs;
    assert TABLE in mounted.server.kv by { StoredTable(mounted.server.kv, was); }
    mounted.Destroy();
    again := new MemcachedFs(mounted.server, mounted.index.hash);
    again.Init(uid, gid, was);
  }
}
