/** The file system as the key-value store holds it: what each store operation means for the state it encodes. */
module FsStore {
  import opened CStrings
  import opened Lines
  import opened Items
  import opened Records
  import opened InodeTable
  import opened Protocol
  import opened StoreKeys
  import opened Paths
  import opened FsModel

  /** The table is kept as a C string: what follows its NUL does not count. */
  ghost predicate TableStored(kv: Store, table: seq<Item>) {
    TABLE in kv && CStr(kv[TABLE]) == EncTable(table)
  }

  ghost predicate CounterStored(kv: Store, next: nat) {
    COUNTER in kv && kv[COUNTER] == Dec(next)
  }

  ghost predicate InodesStored(kv: Store, inodes: map<nat, Inode>) {
    && (forall i: nat :: InodeKey(i) in kv <==> i in inodes)
    && (forall i: nat :: i in inodes ==> kv[InodeKey(i)] == inodes[i].Text(i))
  }

  ghost predicate BlocksStored(kv: Store, blocks: Blocks) {
    && (forall i: nat, b: nat :: BlockKey(i, b) in kv <==> (i, b) in blocks)
    && (forall i: nat, b: nat :: (i, b) in blocks ==> kv[BlockKey(i, b)] == blocks[(i, b)])
  }

  ghost predicate Encodes(kv: Store, fs: Fs) {
    TableStored(kv, fs.table) && CounterStored(kv, fs.next) && InodesStored(kv, fs.inodes)
        && BlocksStored(kv, fs.blocks)
  }

  // One lemma for each store operation

  lemma StoreTable(kv: Store, fs: Fs, value: string, table: seq<Item>)
    requires Encodes(kv, fs) && CStr(value) == EncTable(table)
    ensures Encodes(kv[TABLE := value], fs.(table := table))
  {
    hide InodeKey, BlockKey, EncTable, CStr, Dec, Inode.Text;
    KeysAreApart();
  }

  lemma StoreCounter(kv: Store, fs: Fs, next: nat)
    requires Encodes(kv, fs)
    ensures Encodes(kv[COUNTER := Dec(next)], fs.(next := next))
  {
    hide InodeKey, BlockKey, EncTable, CStr, Dec, Inode.Text;
    KeysAreApart();
  }

  lemma StoreInode(kv: Store, fs: Fs, i: nat, n: Inode)
    requires Encodes(kv, fs)
    ensures Encodes(kv[InodeKey(i) := n.Text(i)], fs.(inodes := fs.inodes[i := n]))
  {
    hide InodeKey, BlockKey, EncTable, CStr, Dec, Inode.Text;
    KeysAreApart();
    OneInodeKey(i);
  }

  lemma DeleteInodeKey(kv: Store, fs: Fs, i: nat)
    requires Encodes(kv, fs)
    ensures Encodes(kv - {InodeKey(i)}, fs.(inodes := fs.inodes - {i}))
  {
    hide InodeKey, BlockKey, EncTable, CStr, Dec, Inode.Text;
    KeysAreApart();
    OneInodeKey(i);
  }

  lemma StoreBlockKey(kv: Store, fs: Fs, i: nat, b: nat, data: string)
    requires Encodes(kv, fs)
    ensures Encodes(kv[BlockKey(i, b) := data], fs.(blocks := fs.blocks[(i, b) := data]))
  {
    hide InodeKey, BlockKey, EncTable, CStr, Dec, Inode.Text;
    KeysAreApart();
    OneBlockKey(i, b);
  }

  lemma DeleteBlockKey(kv: Store, fs: Fs, i: nat, b: nat)
    requires Encodes(kv, fs)
    ensures Encodes(kv - {BlockKey(i, b)}, fs.(blocks := fs.blocks - {(i, b)}))
  {
    hide InodeKey, BlockKey, EncTable, CStr, Dec, Inode.Text;
    KeysAreApart();
    OneBlockKey(i, b);
  }

  lemma KeysAreApart()
    ensures forall i: nat, j: nat, b: nat {:trigger InodeKey(i), BlockKey(j, b)} :: InodeKey(i) != BlockKey(j, b)
    ensures forall i: nat :: TABLE != InodeKey(i) && COUNTER != InodeKey(i)
    ensures forall j: nat, b: nat :: TABLE != BlockKey(j, b) && COUNTER != BlockKey(j, b)
  {
    hide InodeKey, BlockKey;
    forall i: nat, j: nat, b: nat ensures InodeKey(i) != BlockKey(j, b) {
      KeysApart(i, j, b);
    }
    forall i: nat ensures TABLE != InodeKey(i) && COUNTER != InodeKey(i) {
      KeysApart(i, i, 0);
    }
    forall j: nat, b: nat ensures TABLE != BlockKey(j, b) && COUNTER != BlockKey(j, b) {
      KeysApart(j, j, b);
    }
  }

  lemma OneInodeKey(i: nat)
    ensures forall j: nat :: InodeKey(j) == InodeKey(i) <==> j == i
  {
    forall j: nat ensures InodeKey(j) == InodeKey(i) <==> j == i {
      InodeKeyInjective(j, i);
    }
  }

  lemma OneBlockKey(i: nat, b: nat)
    ensures forall j: nat, c: nat :: BlockKey(j, c) == BlockKey(i, b) <==> j == i && c == b
  {
    forall j: nat, c: nat ensures BlockKey(j, c) == BlockKey(i, b) <==> j == i && c == b {
      BlockKeyInjective(j, c, i, b);
    }
  }

  // The store determines the state

  lemma TextInjective(m: Inode, n: Inode, i: nat)
    requires m.Text(i) == n.Text(i)
    ensures m == n
  {
    hide Enc, Flat, Dec, Inode.Fixed;
    FixedOk(m, i);
    FixedOk(n, i);
    RecordPlain(m.Fixed(i));
    RecordPlain(n.Fixed(i));
    EncThenText(Flat(m.Fixed(i)), Flat(n.Fixed(i)), m.tail, n.tail);
    FlatInjective(m.Fixed(i), n.Fixed(i));
    SameField(m, n, i, Mode);
    SameField(m, n, i, Uid);
    SameField(m, n, i, Gid);
    SameField(m, n, i, Nlink);
    SameField(m, n, i, Size);
    SameField(m, n, i, Field.Blocks);
  }

  lemma FlatInjective(r: seq<Attr>, s: seq<Attr>)
    requires Flat(r) == Flat(s)
    ensures r == s
  {
    assert |Flat(r)| == |Flat(s)|;
    forall k | 0 <= k < |r| ensures r[k] == s[k] {
      FlatAt(r, k);
      FlatAt(s, k);
    }
  }

  lemma SameField(m: Inode, n: Inode, i: nat, f: Field)
    requires f != Content && m.Fixed(i) == n.Fixed(i)
    ensures m.Numeric(i, f) == n.Numeric(i, f)
  {
    FieldAt(m, i, f);
    FieldAt(n, i, f);
    DecInjective(m.Numeric(i, f), n.Numeric(i, f));
  }

  /** Two states in which the invariant holds are told apart by the store: nothing else is needed to remount. */
  lemma StoreDecides(kv: Store, fs: Fs, fs': Fs)
    requires Encodes(kv, fs) && Encodes(kv, fs') && Inv(fs) && Inv(fs')
    ensures fs == fs'
  {
    hide InodeKey, BlockKey, EncTable, CStr, TreeOk, CountsOk, LinksOk, DataOk, FreshOk;
    SameTable(fs, fs');
    DecInjective(fs.next, fs'.next);
    SameInodes(kv, fs.inodes, fs'.inodes);
    SameBlocks(kv, fs.blocks, fs'.blocks);
  }

  lemma SameTable(fs: Fs, fs': Fs)
    requires Inv(fs) && Inv(fs') && EncTable(fs.table) == EncTable(fs'.table)
    ensures fs.table == fs'.table
  {
    hide EncTable, CountsOk, LinksOk, DataOk, FreshOk, InodesOk;
    InvTablePaths(fs);
    InvTablePaths(fs');
    ParseEnc(fs.table);
    ParseEnc(fs'.table);
  }

  lemma SameInodes(kv: Store, inodes: map<nat, Inode>, inodes': map<nat, Inode>)
    requires InodesStored(kv, inodes) && InodesStored(kv, inodes')
    ensures inodes == inodes'
  {
    hide InodeKey;
    forall i: nat ensures i in inodes <==> i in inodes' {
      assert InodeKey(i) in kv <==> i in inodes;
    }
    forall i | i in inodes ensures inodes[i] == inodes'[i] {
      TextInjective(inodes[i], inodes'[i], i);
    }
  }

  lemma SameBlocks(kv: Store, blocks: Blocks, blocks': Blocks)
    requires BlocksStored(kv, blocks) && BlocksStored(kv, blocks')
    ensures blocks == blocks'
  {
    hide BlockKey;
    forall k: (nat, nat) ensures (k in blocks <==> k in blocks') && (k in blocks ==> blocks[k] == blocks'[k]) {
      var i, b := k.0, k.1;
      assert k == (i, b);
      assert BlockKey(i, b) in kv <==> (i, b) in blocks;
    }
  }

  lemma InvTablePaths(fs: Fs)
    requires Inv(fs)
    ensures TablePaths(fs.table)
  {
    hide IsPath, CountsOk, LinksOk, DataOk, FreshOk, InodesOk, Parent, ToMap;
    forall k | 0 <= k < |fs.table| ensures TablePath(fs.table[k].key) {
      MapAt(fs.table, k);
      PathPlain(fs.table[k].key);
    }
  }

  /** The store has a record for an inode exactly while some path leads to it. */
  lemma RecordWhilePath(kv: Store, fs: Fs, i: nat)
    requires Encodes(kv, fs) && Inv(fs)
    ensures InodeKey(i) in kv <==> exists p :: p in fs.Index() && fs.Index()[p] == i
  {
    hide IsPath, Parent, LinksOk, DataOk, InodesOk, FreshOk, EncTable, CStr, InodeKey, BlocksStored;
    assert InodeKey(i) in kv <==> i in fs.inodes;
    if i in fs.inodes {
      assert CountOk(fs.Index(), i, fs.inodes[i]);
      var p :| p in PathsTo(fs.Index(), i);
      assert p in fs.Index() && fs.Index()[p] == i;
    }
  }
}
