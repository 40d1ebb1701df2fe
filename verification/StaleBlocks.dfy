/** What deletion leaves behind: an inode's blocks at or beyond its st_blocks, which is the block count of the last
    write in a file and counts upwards in a directory. */
module StaleBlocks {
  import opened Paths
  import opened RandomAccess
  import opened FsModel
  import opened FsInvariants
  import opened FlatFile

  /** Every stored block of the inode is below its st_blocks. */
  ghost predicate Counted(fs: Fs, i: nat)
    requires i in fs.inodes
  {
    forall b: nat :: (i, b) in fs.blocks ==> b < fs.inodes[i].blocks
  }

  /** When deletion takes the inode, it leaves no block of it if and only if st_blocks counts them all. */
  lemma DeleteLeavesNothing(fs: Fs, path: string)
    requires Inv(fs) && CanDelete(fs, path)
    ensures Parent(path) in fs.Index()
    ensures var i, fs' := fs.Index()[path], Delete(fs, path);
            i !in fs'.inodes ==> ((forall b: nat :: (i, b) !in fs'.blocks) <==> Counted(fs, i))
  {
    hide IsPath, Parent, BaseName, TreeOk, CountsOk, LinksOk, DataOk, FreshOk, InodesOk, Links, DropName;
    ParentLives(fs, path);
    var i, fs' := fs.Index()[path], Delete(fs, path);
    if i !in fs'.inodes {
      forall b: nat ensures (i, b) in fs'.blocks <==> (i, b) in fs.blocks && b >= fs.inodes[i].blocks {
      }
    }
  }

  /** A directory has at most block 0 and counts it; a symbolic link has no block: their deletion leaves nothing. */
  lemma OnlyFilesLeaveBlocks(fs: Fs, i: nat)
    requires Inv(fs) && i in fs.inodes && !IsReg(fs.inodes[i])
    ensures Counted(fs, i)
  {
    hide TreeOk, CountsOk, LinksOk, FreshOk, IsReg, IsDir, IsLnk, Storable;
    assert InodeOk(fs.inodes[i]);
    forall b: nat | (i, b) in fs.blocks ensures b < fs.inodes[i].blocks {
      assert BlockOk(fs.inodes[i], b, fs.blocks[(i, b)]);
    }
  }

  /** A write leaves st_blocks counting all blocks if and only if no older block lies at or beyond its block count, and
      no block it touches there can be stored. */
  lemma WriteCounts(fs: Fs, i: nat, offset: nat, buf: string)
    requires i in fs.inodes && FullBlocks(fs.blocks, i)
    ensures var info := GetFileBlocksInfo(offset, |buf|, BLOCK);
            Counted(Write(fs, i, offset, buf), i) <==>
              && (forall b: nat :: (i, b) in fs.blocks ==> b < info.numBlocks)
              && (forall b: nat :: info.startBlock <= b < info.startBlock + info.numBlocks && b >= info.numBlocks ==>
                    !Storable(Fresh(fs.blocks, i, b, offset, buf)))
  {
    hide WriteBlocks, GetFileBlocksInfo, FullBlocks, Fresh, Storable;
    var info := GetFileBlocksInfo(offset, |buf|, BLOCK);
    var fs' := Write(fs, i, offset, buf);
    forall b: nat
      ensures (i, b) in fs'.blocks <==>
              (i, b) in fs.blocks || (info.startBlock <= b < info.startBlock + info.numBlocks
                                      && Storable(Fresh(fs.blocks, i, b, offset, buf)))
    {
      WrittenKey(fs.blocks, i, info.startBlock, info.numBlocks, offset, buf, b);
    }
  }

  lemma {:induction false} WrittenKey(blocks: Blocks, i: nat, start: nat, n: nat, offset: nat, buf: string, b: nat)
    requires FullBlocks(blocks, i)
    ensures (i, b) in WriteBlocks(blocks, i, start, n, offset, buf) <==>
            (i, b) in blocks || (start <= b < start + n && Storable(Fresh(blocks, i, b, offset, buf)))
  {
    hide Storable, NewBlock, FullBlocks, BlockAt;
    if n > 0 {
      WrittenKey(blocks, i, start, n - 1, offset, buf, b);
    }
  }

  /** A write that loses no block: its range starts in block 0 and covers every block stored before. */
  lemma LosslessWriteCounts(fs: Fs, i: nat, offset: nat, buf: string)
    requires i in fs.inodes && FullBlocks(fs.blocks, i) && AllStorable(fs.blocks, i, offset, buf)
    ensures var info := GetFileBlocksInfo(offset, |buf|, BLOCK);
            Counted(Write(fs, i, offset, buf), i) <==>
            info.startBlock == 0 && forall b: nat :: (i, b) in fs.blocks ==> b < info.numBlocks
  {
    hide Write, FullBlocks, Fresh, Storable;
    var info := GetFileBlocksInfo(offset, |buf|, BLOCK);
    WriteCounts(fs, i, offset, buf);
    SomeBlock(offset, |buf|);
    if info.startBlock > 0 {
      assert Storable(Fresh(fs.blocks, i, info.startBlock + info.numBlocks - 1, offset, buf));
    }
  }

  lemma SomeBlock(offset: nat, size: nat)
    ensures GetFileBlocksInfo(offset, size, BLOCK).numBlocks > 0
  {
  }
}
