/** Files as flat byte sequences: what block-wise writing and reading amounts to. */
module FlatFile {
  import opened Bits
  import opened CStrings
  import opened RandomAccess
  import opened FsModel
  import opened FsInvariants

  function ByteAt(blocks: Blocks, i: nat, k: nat): char
    requires FullBlocks(blocks, i)
  {
    BlockAt(blocks, i, k / BLOCK)[k % BLOCK]
  }

  /** The bytes of file i up to its size; blocks that are not stored are holes of zeros. */
  function Content(blocks: Blocks, i: nat, size: nat): (f: string)
    requires FullBlocks(blocks, i)
    ensures |f| == size
  {
    seq(size, k requires 0 <= k < size => ByteAt(blocks, i, k))
  }

  /** The flat file after a write: the buffer over what was there, zeros in a gap. */
  function Splice(f: string, offset: nat, buf: string): string {
    seq(Max(|f|, offset + |buf|), k requires 0 <= k < Max(|f|, offset + |buf|) =>
      if offset <= k < offset + |buf| then buf[k - offset] else if k < |f| then f[k] else '\0')
  }

  /** What a block-wise write should make of byte k. */
  function Intended(blocks: Blocks, i: nat, offset: nat, buf: string, k: nat): char
    requires FullBlocks(blocks, i)
  {
    if offset <= k < offset + |buf| then buf[k - offset] else ByteAt(blocks, i, k)
  }

  /** The new content of block b. */
  function Fresh(blocks: Blocks, i: nat, b: nat, offset: nat, buf: string): string
    requires FullBlocks(blocks, i)
  {
    NewBlock(BlockAt(blocks, i, b), b, offset, buf)
  }

  /** After n blocks: the blocks that could be stored are new, all others as before. */
  lemma {:induction false} WrittenBlock(blocks: Blocks, i: nat, start: nat, n: nat, offset: nat, buf: string, b: nat)
    requires FullBlocks(blocks, i)
    ensures BlockAt(WriteBlocks(blocks, i, start, n, offset, buf), i, b) ==
            if start <= b < start + n && Storable(Fresh(blocks, i, b, offset, buf))
            then Fresh(blocks, i, b, offset, buf)
            else BlockAt(blocks, i, b)
  {
    hide Storable, NewBlock, FullBlocks;
    if n > 0 {
      WrittenBlock(blocks, i, start, n - 1, offset, buf, b);
    }
  }

  lemma WrittenFull(blocks: Blocks, i: nat, start: nat, n: nat, offset: nat, buf: string)
    requires FullBlocks(blocks, i)
    ensures FullBlocks(WriteBlocks(blocks, i, start, n, offset, buf), i)
  {
    hide Storable, NewBlock, WriteBlocks, BlockAt;
    forall b: nat ensures |BlockAt(WriteBlocks(blocks, i, start, n, offset, buf), i, b)| == BLOCK {
      WrittenBlock(blocks, i, start, n, offset, buf, b);
      NewBlockLength(BlockAt(blocks, i, b), b, offset, buf);
    }
  }

  lemma NewBlockLength(was: string, b: nat, offset: nat, buf: string)
    requires |was| == BLOCK
    ensures |NewBlock(was, b, offset, buf)| == BLOCK
    ensures forall j :: 0 <= j < BLOCK ==>
              (NewBlock(was, b, offset, buf)[j] ==
               if offset <= b * BLOCK + j < offset + |buf| then buf[b * BLOCK + j - offset] else was[j])
  {
  }

  /** A byte of the new content of its block is the intended byte. */
  lemma FreshByte(blocks: Blocks, i: nat, offset: nat, buf: string, k: nat)
    requires FullBlocks(blocks, i)
    ensures |Fresh(blocks, i, k / BLOCK, offset, buf)| == BLOCK
    ensures Fresh(blocks, i, k / BLOCK, offset, buf)[k % BLOCK] == Intended(blocks, i, offset, buf, k)
  {
    hide NewBlock, BlockAt;
    NewBlockLength(BlockAt(blocks, i, k / BLOCK), k / BLOCK, offset, buf);
    assert (k / BLOCK) * BLOCK + k % BLOCK == k;
  }

  /** A range that is covered lies within the blocks from the start block on. */
  lemma CoveredWithin(info: FileBlocks, offset: nat, size: nat, k: nat)
    requires Covers(info, offset, size, BLOCK) && offset <= k < offset + size
    ensures info.startBlock <= k / BLOCK < info.startBlock + info.numBlocks
  {
    assert k / BLOCK * BLOCK + k % BLOCK == k;
  }

  /** Every block a write touches can be stored. */
  ghost predicate AllStorable(blocks: Blocks, i: nat, offset: nat, buf: string)
    requires FullBlocks(blocks, i)
  {
    var info := GetFileBlocksInfo(offset, |buf|, BLOCK);
    forall b: nat :: info.startBlock <= b < info.startBlock + info.numBlocks ==>
        Storable(Fresh(blocks, i, b, offset, buf))
  }

  /** A stored file holds no unstorable block. */
  lemma StoredAreStorable(fs: Fs, i: nat, b: nat)
    requires DataOk(fs.inodes, fs.blocks) && i in fs.inodes
    ensures Storable(BlockAt(fs.blocks, i, b))
  {
    if (i, b) in fs.blocks {
      assert BlockOk(fs.inodes[i], b, fs.blocks[(i, b)]);
    } else {
      assert ZeroBlock()[0] == '\0';
      FindIs(ZeroBlock(), '\0', 0, 0);
    }
  }

  /** A block-wise write of a coverable range gives every byte its intended value exactly when every block it
      touches can be stored. */
  lemma BytesExactly(fs: Fs, i: nat, offset: nat, buf: string)
    requires DataOk(fs.inodes, fs.blocks) && i in fs.inodes && IsReg(fs.inodes[i]) && FullBlocks(fs.blocks, i)
    requires Coverable(offset, |buf|, BLOCK) && FullBlocks(Write(fs, i, offset, buf).blocks, i)
    ensures (forall k: nat :: ByteAt(Write(fs, i, offset, buf).blocks, i, k) == Intended(fs.blocks, i, offset, buf, k))
            <==> AllStorable(fs.blocks, i, offset, buf)
  {
    hide Storable, NewBlock, BlockAt, FullBlocks, WriteBlocks, GetFileBlocksInfo, Covers, BlockOk, Fresh;
    var info := GetFileBlocksInfo(offset, |buf|, BLOCK);
    var blocks' := Write(fs, i, offset, buf).blocks;
    CoversExactly(offset, |buf|, BLOCK);
    if AllStorable(fs.blocks, i, offset, buf) {
      forall k: nat ensures ByteAt(blocks', i, k) == Intended(fs.blocks, i, offset, buf, k) {
        ByteWritten(fs.blocks, i, offset, buf, k);
      }
    }
    if forall k: nat :: ByteAt(blocks', i, k) == Intended(fs.blocks, i, offset, buf, k) {
      forall b: nat | info.startBlock <= b < info.startBlock + info.numBlocks
        ensures Storable(Fresh(fs.blocks, i, b, offset, buf))
      {
        LostBlock(fs, i, offset, buf, b);
      }
    }
  }

  lemma ByteWritten(blocks: Blocks, i: nat, offset: nat, buf: string, k: nat)
    requires FullBlocks(blocks, i) && AllStorable(blocks, i, offset, buf)
    requires Covers(GetFileBlocksInfo(offset, |buf|, BLOCK), offset, |buf|, BLOCK)
    ensures var info := GetFileBlocksInfo(offset, |buf|, BLOCK);
            var blocks' := WriteBlocks(blocks, i, info.startBlock, info.numBlocks, offset, buf);
            FullBlocks(blocks', i) && ByteAt(blocks', i, k) == Intended(blocks, i, offset, buf, k)
  {
    hide Storable, NewBlock, BlockAt, FullBlocks, WriteBlocks, GetFileBlocksInfo, Covers, Fresh;
    var info := GetFileBlocksInfo(offset, |buf|, BLOCK);
    WrittenFull(blocks, i, info.startBlock, info.numBlocks, offset, buf);
    WrittenBlock(blocks, i, info.startBlock, info.numBlocks, offset, buf, k / BLOCK);
    FreshByte(blocks, i, offset, buf, k);
    if offset <= k < offset + |buf| {
      CoveredWithin(info, offset, |buf|, k);
    }
  }

  /** A block that cannot be stored keeps its old bytes, and those are not the intended ones. */
  lemma LostBlock(fs: Fs, i: nat, offset: nat, buf: string, b: nat)
    requires DataOk(fs.inodes, fs.blocks) && i in fs.inodes && FullBlocks(fs.blocks, i)
    requires var info := GetFileBlocksInfo(offset, |buf|, BLOCK);
        info.startBlock <= b < info.startBlock + info.numBlocks
    requires FullBlocks(Write(fs, i, offset, buf).blocks, i)
    requires forall k: nat :: ByteAt(Write(fs, i, offset, buf).blocks, i, k) == Intended(fs.blocks, i, offset, buf, k)
    ensures Storable(Fresh(fs.blocks, i, b, offset, buf))
  {
    hide Storable, NewBlock, BlockAt, WriteBlocks, GetFileBlocksInfo, BlockOk, Intended;
    var info := GetFileBlocksInfo(offset, |buf|, BLOCK);
    StoredAreStorable(fs, i, b);
    WrittenBlock(fs.blocks, i, info.startBlock, info.numBlocks, offset, buf, b);
    NewBlockLength(BlockAt(fs.blocks, i, b), b, offset, buf);
    forall j | 0 <= j < BLOCK
      ensures BlockAt(Write(fs, i, offset, buf).blocks, i, b)[j] == Fresh(fs.blocks, i, b, offset, buf)[j]
    {
      var k := b * BLOCK + j;
      assert k / BLOCK == b && k % BLOCK == j;
      FreshByte(fs.blocks, i, offset, buf, k);
      assert ByteAt(Write(fs, i, offset, buf).blocks, i, k) == Intended(fs.blocks, i, offset, buf, k);
    }
    assert BlockAt(Write(fs, i, offset, buf).blocks, i, b) == Fresh(fs.blocks, i, b, offset, buf);
  }

  /** The flat content of a regular file. */
  function File(fs: Fs, i: nat): string
    requires i in fs.inodes && FullBlocks(fs.blocks, i)
  {
    Content(fs.blocks, i, fs.inodes[i].size)
  }

  /** From the end of a file on there are only zeros. */
  lemma ZeroTail(fs: Fs, i: nat, k: nat)
    requires DataOk(fs.inodes, fs.blocks) && i in fs.inodes && IsReg(fs.inodes[i]) && FullBlocks(fs.blocks, i)
    requires k >= fs.inodes[i].size
    ensures ByteAt(fs.blocks, i, k) == '\0'
  {
    assert k / BLOCK * BLOCK + k % BLOCK == k;
    if (i, k / BLOCK) in fs.blocks {
      assert BlockOk(fs.inodes[i], k / BLOCK, fs.blocks[(i, k / BLOCK)]);
    }
  }

  /** Writing through blocks is splicing into the flat file exactly when every block it touches can be stored. */
  lemma WriteExactly(fs: Fs, i: nat, offset: nat, buf: string)
    requires Inv(fs) && i in fs.inodes && IsReg(fs.inodes[i]) && Coverable(offset, |buf|, BLOCK)
    ensures FullBlocks(fs.blocks, i) && FullBlocks(Write(fs, i, offset, buf).blocks, i)
    ensures File(Write(fs, i, offset, buf), i) == Splice(File(fs, i), offset, buf) <==>
        AllStorable(fs.blocks, i, offset, buf)
  {
    hide FullBlocks, WriteBlocks, BlockOk, TreeOk, CountsOk, LinksOk, InodesOk, FreshOk, ByteAt, AllStorable,
         GetFileBlocksInfo, Coverable;
    WriteKeeps(fs, i, offset, buf);
    var fs' := Write(fs, i, offset, buf);
    BlocksFull(fs', i);
    BytesExactly(fs, i, offset, buf);
    var f, g := File(fs', i), Splice(File(fs, i), offset, buf);
    if AllStorable(fs.blocks, i, offset, buf) {
      forall k | 0 <= k < |f| ensures f[k] == g[k] {
        assert ByteAt(fs'.blocks, i, k) == Intended(fs.blocks, i, offset, buf, k);
        if k >= fs.inodes[i].size {
          ZeroTail(fs, i, k);
        }
      }
      assert f == g;
    }
    if f == g {
      forall k: nat ensures ByteAt(fs'.blocks, i, k) == Intended(fs.blocks, i, offset, buf, k) {
        if k < |f| {
          assert f[k] == g[k];
        } else {
          ZeroTail(fs', i, k);
        }
        if k >= fs.inodes[i].size {
          ZeroTail(fs, i, k);
        }
      }
    }
  }

  /** What a read returns: the bytes from the offset to the end of the request or of the file. */
  function ReadOf(f: string, offset: nat, size: nat): (r: string)
    ensures |r| <= size && forall k :: 0 <= k < |r| ==> offset + k < |f| && r[k] == f[offset + k]
    ensures |r| < size ==> offset + |r| >= |f|
  {
    if |f| <= offset then "" else if offset + size > |f| then f[offset..] else f[offset..offset + size]
  }

  /** Two reads in a row are one. */
  lemma ReadConcat(f: string, offset: nat, m: nat, n: nat)
    ensures ReadOf(f, offset, m) + ReadOf(f, offset + m, n) == ReadOf(f, offset, m + n)
    ensures ReadOf(f, 0, |f|) == f
  {
  }

  /** Reading back what was written. */
  lemma ReadWritten(f: string, offset: nat, buf: string)
    ensures ReadOf(Splice(f, offset, buf), offset, |buf|) == buf
  {
  }

  /** A write read back: the bytes that were written, and around them the bytes that were there before. */
  lemma ReadBack(fs: Fs, i: nat, offset: nat, buf: string, from: nat, size: nat)
    requires Inv(fs) && i in fs.inodes && IsReg(fs.inodes[i]) && FullBlocks(fs.blocks, i)
    requires Coverable(offset, |buf|, BLOCK) && AllStorable(fs.blocks, i, offset, buf)
    ensures FullBlocks(Write(fs, i, offset, buf).blocks, i)
    ensures var f := File(Write(fs, i, offset, buf), i);
            && ReadOf(f, offset, |buf|) == buf
            && (from + size <= offset && from + size <= fs.inodes[i].size ==>
                ReadOf(f, from, size) == ReadOf(File(fs, i), from, size))
            && (offset + |buf| <= from ==> ReadOf(f, from, size) == ReadOf(File(fs, i), from, size))
            && (fs.inodes[i].size <= from && from + size <= offset ==>
                  forall k :: 0 <= k < |ReadOf(f, from, size)| ==> ReadOf(f, from, size)[k] == '\0')
  {
    hide Inv, AllStorable, FullBlocks, WriteBlocks, GetFileBlocksInfo, Coverable, Content;
    WriteExactly(fs, i, offset, buf);
    ReadWritten(File(fs, i), offset, buf);
    if offset + |buf| <= from {
      SpliceAfter(File(fs, i), offset, buf, from, size);
    }
  }

  lemma SpliceAfter(f: string, offset: nat, buf: string, from: nat, size: nat)
    requires offset + |buf| <= from
    ensures ReadOf(Splice(f, offset, buf), from, size) == ReadOf(f, from, size)
  {
  }

  /** A step that leaves an inode's blocks and size alone leaves its file alone. */
  lemma FileSame(fs: Fs, fs': Fs, i: nat)
    requires i in fs.inodes && i in fs'.inodes && fs'.inodes[i].size == fs.inodes[i].size && FullBlocks(fs.blocks, i)
    requires forall b: nat {:trigger (i, b)} :: (i, b) in fs'.blocks <==> (i, b) in fs.blocks
    requires forall b: nat {:trigger (i, b)} :: (i, b) in fs.blocks ==> fs'.blocks[(i, b)] == fs.blocks[(i, b)]
    ensures FullBlocks(fs'.blocks, i) && File(fs', i) == File(fs, i)
  {
    assert forall b: nat :: BlockAt(fs'.blocks, i, b) == BlockAt(fs.blocks, i, b);
  }
}
