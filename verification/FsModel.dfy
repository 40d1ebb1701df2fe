/** The file system as a state machine: the entries of the namespace, the inodes and the blocks, and what each
    callback does to them. */
module FsModel {
  import opened Bits
  import opened CStrings
  import opened Lines
  import opened Items
  import opened Paths
  import opened Records
  import opened Directory
  import opened RandomAccess

  type Blocks = map<(nat, nat), string>

  datatype Fs = Fs(table: seq<Item>, next: nat, inodes: map<nat, Inode>, blocks: Blocks) {
    function Index(): map<string, nat> {
      ToMap(table)
    }
  }

  const BLOCK := 1024

  // File types, the S_IFMT bits of a mode

  function FileType(mode: nat): nat {
    mode / 4096 % 16
  }

  predicate IsReg(n: Inode) {
    FileType(n.mode) == 8
  }

  predicate IsDir(n: Inode) {
    FileType(n.mode) == 4
  }

  predicate IsLnk(n: Inode) {
    FileType(n.mode) == 10
  }

  // Directory links

  /** The names in a directory's block. */
  function Links(blocks: Blocks, d: nat): seq<string> {
    if (d, 0) in blocks then Split(blocks[(d, 0)]) else []
  }

  function SetLinks(blocks: Blocks, d: nat, names: seq<string>): Blocks {
    blocks[(d, 0) := Enc(names)]
  }

  /** add_link_to_parent_dir */
  function AddLink(fs: Fs, path: string): Fs
    requires Parent(path) in fs.Index() && fs.Index()[Parent(path)] in fs.inodes
  {
    var d := fs.Index()[Parent(path)];
    var n := fs.inodes[d];
    fs.(blocks := SetLinks(fs.blocks, d, Links(fs.blocks, d) + [BaseName(path)]),
        inodes := fs.inodes[d := n.(blocks := n.blocks + 1)])
  }

  function DropName(names: seq<string>, name: string): seq<string> {
    if names == [] then [] else if names[0] == name then names[1..] else [names[0]] + DropName(names[1..], name)
  }

  /** create_inode */
  function Create(fs: Fs, path: string, n: Inode): Fs
    requires path != "/" ==> Parent(path) in fs.Index() && fs.Index()[Parent(path)] in fs.inodes && Parent(path) != path
  {
    var fs1 := fs.(table := fs.table + [Item(path, fs.next)], next := fs.next + 1, inodes := fs.inodes[fs.next := n]);
    if path == "/" then fs1
    else (MapAppend(fs.table, Item(path, fs.next)); AddLink(fs1, path))
  }

  /** memcached_link */
  function Link(fs: Fs, oldPath: string, newPath: string): Fs
    requires oldPath in fs.Index() && fs.Index()[oldPath] in fs.inodes
    requires Parent(newPath) in fs.Index() && fs.Index()[Parent(newPath)] in fs.inodes && Parent(newPath) != newPath
  {
    var i := fs.Index()[oldPath];
    var n := fs.inodes[i];
    var fs1 := fs.(inodes := fs.inodes[i := n.(nlink := n.nlink + 1)], table := fs.table + [Item(newPath, i)]);
    MapAppend(fs.table, Item(newPath, i));
    AddLink(fs1, newPath)
  }

  /** The blocks left when the first n blocks of inode i are deleted. */
  function DropBlocks(blocks: Blocks, i: nat, n: nat): Blocks {
    map k | k in blocks && !(k.0 == i && k.1 < n) :: blocks[k]
  }

  /** delete_inode */
  function Delete(fs: Fs, path: string): Fs
    requires path in fs.Index() && fs.Index()[path] in fs.inodes && Parent(path) in fs.Index()
  {
    var i, d := fs.Index()[path], fs.Index()[Parent(path)];
    var n := fs.inodes[i];
    var fs1 := if IsReg(n) && n.nlink > 1 then fs.(inodes := fs.inodes[i := n.(nlink := n.nlink - 1)])
               else fs.(inodes := fs.inodes - {i}, blocks := DropBlocks(fs.blocks, i, n.blocks));
    fs1.(table := Without(fs.table, path),
         blocks := SetLinks(fs1.blocks, d, DropName(Links(fs1.blocks, d), BaseName(path))))
  }

  // File blocks

  function ZeroBlock(): (z: string)
    ensures |z| == BLOCK
  {
    seq(BLOCK, _ => '\0')
  }

  function BlockAt(blocks: Blocks, i: nat, b: nat): string {
    if (i, b) in blocks then blocks[(i, b)] else ZeroBlock()
  }

  /** One block of a write: the bytes of the buffer that fall into it, over what it held. */
  function NewBlock(was: string, b: nat, offset: nat, buf: string): string
    requires |was| == BLOCK
  {
    seq(BLOCK, j requires 0 <= j < BLOCK =>
      if offset <= b * BLOCK + j < offset + |buf| then buf[b * BLOCK + j - offset] else was[j])
  }

  /** The client cannot store a value whose C string is NOVALUE. */
  predicate Storable(data: string) {
    CStr(data) != "NOVALUE"
  }

  function StoreBlock(blocks: Blocks, i: nat, b: nat, data: string): Blocks {
    if Storable(data) then blocks[(i, b) := data] else blocks
  }

  ghost predicate FullBlocks(blocks: Blocks, i: nat) {
    forall b: nat :: |BlockAt(blocks, i, b)| == BLOCK
  }

  /** The loop of memcached_write after n blocks from `start`. */
  function WriteBlocks(blocks: Blocks, i: nat, start: nat, n: nat, offset: nat, buf: string): Blocks
    requires FullBlocks(blocks, i)
  {
    if n == 0 then blocks
    else StoreBlock(WriteBlocks(blocks, i, start, n - 1, offset, buf), i, start + n - 1,
                    NewBlock(BlockAt(blocks, i, start + n - 1), start + n - 1, offset, buf))
  }

  /** memcached_write */
  function Write(fs: Fs, i: nat, offset: nat, buf: string): Fs
    requires i in fs.inodes && FullBlocks(fs.blocks, i)
  {
    var info := GetFileBlocksInfo(offset, |buf|, BLOCK);
    var n := fs.inodes[i];
    fs.(blocks := WriteBlocks(fs.blocks, i, info.startBlock, info.numBlocks, offset, buf),
        inodes := fs.inodes[i := n.(blocks := info.numBlocks, size := Max(n.size, offset + |buf|))])
  }

  function SetInode(fs: Fs, i: nat, n: Inode): Fs {
    fs.(inodes := fs.inodes[i := n])
  }

  // The invariant

  /** The paths that lead to inode i. */
  function PathsTo(m: map<string, nat>, i: nat): set<string> {
    set p | p in m && m[p] == i
  }

  /** Every path but the root hangs off a directory in the table. */
  ghost predicate TreeOk(m: map<string, nat>, inodes: map<nat, Inode>) {
    && "/" in m
    && (forall p :: p in m ==> IsPath(p) && m[p] in inodes)
    && IsDir(inodes[m["/"]])
    && (forall p {:trigger Parent(p)} :: p in m && p != "/" ==> Parent(p) in m && IsDir(inodes[m[Parent(p)]]))
  }

  /** st_nlink of a regular file is the number of its paths; other inodes have one path. An inode exists only
      while it has a path. */
  ghost predicate CountOk(m: map<string, nat>, i: nat, n: Inode) {
    |PathsTo(m, i)| == (if IsReg(n) then n.nlink else 1) && |PathsTo(m, i)| > 0
  }

  ghost predicate CountsOk(m: map<string, nat>, inodes: map<nat, Inode>) {
    forall i :: i in inodes ==> CountOk(m, i, inodes[i])
  }

  /** The block of the directory at `dir` lists each child's base name exactly once and nothing else. */
  ghost predicate LinksOf(m: map<string, nat>, blocks: Blocks, dir: string)
    requires dir in m
  {
    var d := m[dir];
    && Names(Links(blocks, d))
    && ((d, 0) in blocks ==> blocks[(d, 0)] == Enc(Links(blocks, d)))
    && (forall n: string {:trigger Join(dir, n)} :: Name(n) ==> (n in Links(blocks, d) <==> Join(dir, n) in m))
  }

  ghost predicate LinksOk(m: map<string, nat>, inodes: map<nat, Inode>, blocks: Blocks) {
    forall p :: p in m && m[p] in inodes && IsDir(inodes[m[p]]) ==> LinksOf(m, blocks, p)
  }

  /** Ids at or above the stored counter are unused. */
  ghost predicate FreshOk(fs: Fs) {
    && (forall i :: i in fs.inodes ==> i < fs.next)
    && (forall k :: k in fs.blocks ==> k.0 < fs.next)
  }

  /** File blocks are full and hold zeros from the end of the file on; a directory has at most block 0. */
  ghost predicate BlockOk(n: Inode, b: nat, data: string) {
    && Storable(data)
    && (IsReg(n) ==> |data| == BLOCK && forall j :: 0 <= j < BLOCK && b * BLOCK + j >= n.size ==> data[j] == '\0')
    && (IsDir(n) ==> b == 0 && n.blocks > 0)
    && !IsLnk(n)
  }

  ghost predicate DataOk(inodes: map<nat, Inode>, blocks: Blocks) {
    forall k :: k in blocks && k.0 in inodes ==> BlockOk(inodes[k.0], k.1, blocks[k])
  }

  /** What follows the seven attributes is a C string, which begins with st_content in a symbolic link. */
  ghost predicate InodeOk(n: Inode) {
    && (IsReg(n) || IsDir(n) || IsLnk(n))
    && '\0' !in n.tail
    && (IsLnk(n) ==> "st_content\n" <= n.tail)
  }

  ghost predicate InodesOk(inodes: map<nat, Inode>) {
    forall i :: i in inodes ==> InodeOk(inodes[i])
  }

  ghost predicate Inv(fs: Fs) {
    && Distinct(fs.table)
    && TreeOk(fs.Index(), fs.inodes)
    && CountsOk(fs.Index(), fs.inodes)
    && LinksOk(fs.Index(), fs.inodes, fs.blocks)
    && FreshOk(fs)
    && DataOk(fs.inodes, fs.blocks)
    && InodesOk(fs.inodes)
  }
}
