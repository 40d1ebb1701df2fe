/** The pieces a read or a write moves, block by block. */
module BlockIO {
  import opened RandomAccess
  import opened FsModel
  import opened FlatFile

  /** memcpy */
  method MemCpy(dst: array<char>, at: nat, src: string)
    requires at + |src| <= dst.Length
    modifies dst
    ensures dst[..] == old(dst[..at]) + src + old(dst[at + |src|..])
  {
    var k := 0;
    while k < |src|
      invariant k <= |src|
      invariant forall j :: 0 <= j < k ==> dst[at + j] == src[j]
      invariant forall j :: 0 <= j < dst.Length && !(at <= j < at + k) ==> dst[j] == old(dst[j])
    {
      dst[at + k] := src[k];
      k := k + 1;
    }
  }

  // Piece k of a described range: where it starts in its block, its size, and how many bytes come before it

  function OffsetIn(info: FileBlocks, k: nat): nat {
    if k == 0 then info.offsetInStartBlock else 0
  }

  function PieceSize(info: FileBlocks, size: nat, k: nat): int {
    if info.numBlocks == 1 then size
    else if k == 0 then BLOCK - info.offsetInStartBlock
    else if k + 1 == info.numBlocks then info.bytesInEndBlock
    else BLOCK
  }

  function BytesBefore(info: FileBlocks, k: nat): int {
    if k == 0 then 0 else BLOCK - info.offsetInStartBlock + (k - 1) * BLOCK
  }

  /** The pieces follow one another, fit their blocks, and end with the range. */
  lemma PieceFits(info: FileBlocks, offset: nat, size: nat, k: nat)
    requires Covers(info, offset, size, BLOCK) && k < info.numBlocks
    ensures BytesBefore(info, k) >= 0 && PieceSize(info, size, k) >= 0
    ensures (info.startBlock + k) * BLOCK + OffsetIn(info, k) == offset + BytesBefore(info, k)
    ensures OffsetIn(info, k) + PieceSize(info, size, k) <= BLOCK
    ensures BytesBefore(info, k) + PieceSize(info, size, k) <= size
    ensures k + 1 == info.numBlocks ==> BytesBefore(info, k) + PieceSize(info, size, k) == size
    ensures k + 1 < info.numBlocks ==>
              && OffsetIn(info, k) + PieceSize(info, size, k) == BLOCK
              && BytesBefore(info, k + 1) == BytesBefore(info, k) + PieceSize(info, size, k)
  {
  }

  /** Copying a piece of the buffer over what the block held makes the new block. */
  lemma PieceWritten(was: string, b: nat, offset: nat, buf: string, o: nat, w: nat, n: nat)
    requires |was| == BLOCK && b * BLOCK + o == offset + w && o + n <= BLOCK && w + n <= |buf|
    requires (w == 0 || o == 0) && (w + n == |buf| || o + n == BLOCK)
    ensures was[..o] + buf[w..w + n] + was[o + n..] == NewBlock(was, b, offset, buf)
  {
    var data := was[..o] + buf[w..w + n] + was[o + n..];
    NewBlockLength(was, b, offset, buf);
    forall j | 0 <= j < BLOCK ensures data[j] == NewBlock(was, b, offset, buf)[j] {
      if o <= j < o + n {
        assert data[j] == buf[w + (j - o)];
      }
    }
  }

  /** n bytes of file i, wherever its blocks break. */
  function Bytes(blocks: Blocks, i: nat, from: nat, n: nat): (s: string)
    requires FullBlocks(blocks, i)
    ensures |s| == n
  {
    seq(n, j requires 0 <= j < n => ByteAt(blocks, i, from + j))
  }

  /** A piece of a block is a run of bytes of the file. */
  lemma PieceRead(blocks: Blocks, i: nat, b: nat, o: nat, n: nat)
    requires FullBlocks(blocks, i) && o + n <= BLOCK
    ensures BlockAt(blocks, i, b)[o..o + n] == Bytes(blocks, i, b * BLOCK + o, n)
  {
    hide BlockAt;
    var s, t := BlockAt(blocks, i, b)[o..o + n], Bytes(blocks, i, b * BLOCK + o, n);
    forall j | 0 <= j < n ensures s[j] == t[j] {
      var k := b * BLOCK + o + j;
      assert k / BLOCK == b && k % BLOCK == o + j;
      assert t[j] == ByteAt(blocks, i, k);
    }
  }

  lemma BytesConcat(blocks: Blocks, i: nat, from: nat, m: nat, n: nat)
    requires FullBlocks(blocks, i)
    ensures Bytes(blocks, i, from, m) + Bytes(blocks, i, from + m, n) == Bytes(blocks, i, from, m + n)
  {
    hide FullBlocks, ByteAt;
    var s, t := Bytes(blocks, i, from, m) + Bytes(blocks, i, from + m, n), Bytes(blocks, i, from, m + n);
    forall j | 0 <= j < m + n ensures s[j] == t[j] {
      if j >= m {
        assert from + m + (j - m) == from + j;
      }
    }
  }

  /** What a read must return, as bytes of the file. */
  lemma ReadIsBytes(fs: Fs, i: nat, offset: nat, size: nat)
    requires i in fs.inodes && FullBlocks(fs.blocks, i) && offset < fs.inodes[i].size
    ensures var n := if offset + size > fs.inodes[i].size then fs.inodes[i].size - offset else size;
            ReadOf(File(fs, i), offset, size) == Bytes(fs.blocks, i, offset, n)
  {
    hide FullBlocks, ByteAt;
    var n := if offset + size > fs.inodes[i].size then fs.inodes[i].size - offset else size;
    var s, t := ReadOf(File(fs, i), offset, size), Bytes(fs.blocks, i, offset, n);
    assert |s| == n;
    forall j | 0 <= j < n ensures s[j] == t[j] {
    }
  }

  /** A copy behind what is filled already fills a bit more. */
  lemma CopyExtends(now: string, filled: string, piece: string, was: string)
    requires |filled| + |piece| <= |was| && now == filled + was[|filled|..]
    ensures now[..|filled|] + piece + now[|filled| + |piece|..] == (filled + piece) + was[|filled + piece|..]
  {
    assert now[..|filled|] == filled && now[|filled| + |piece|..] == was[|filled + piece|..];
  }

  function Done(info: FileBlocks, size: nat, k: nat): int {
    if k == info.numBlocks then size else BytesBefore(info, k)
  }

  /** The sizes the loops compute in round k. */
  lemma RoundFacts(info: FileBlocks, offset: nat, size: nat, k: nat)
    requires Covers(info, offset, size, BLOCK) && k < info.numBlocks
    ensures OffsetIn(info, k) == if k == 0 then info.offsetInStartBlock else 0
    ensures PieceSize(info, size, k) ==
            if k == 0 && info.numBlocks == 1 then size
            else if k == 0 then BLOCK - info.offsetInStartBlock
            else if k == info.numBlocks - 1 then info.bytesInEndBlock else BLOCK
    ensures Done(info, size, k) == BytesBefore(info, k) && (k == 0 ==> BytesBefore(info, k) == 0)
    ensures k + 1 < info.numBlocks ==> Done(info, size, k + 1) == BytesBefore(info, k) + PieceSize(info, size, k)
    ensures info.offsetInStartBlock <= BLOCK
  {
  }

  lemma CoversSome(info: FileBlocks, offset: nat, size: nat)
    requires Covers(info, offset, size, BLOCK)
    ensures info.numBlocks > 0
  {
  }

  lemma StartOfRange(info: FileBlocks, size: nat)
    requires info.numBlocks > 0
    ensures Done(info, size, 0) == 0 == BytesBefore(info, 0) && Done(info, size, info.numBlocks) == size
  {
  }

  /** The first w bytes of the read are in the buffer; the rest is as it was. */
  ghost predicate Filled(blocks: Blocks, i: nat, offset: nat, w: int, now: string, was: string)
    requires FullBlocks(blocks, i)
  {
    0 <= w <= |was| && now == Bytes(blocks, i, offset, w) + was[w..]
  }

  lemma NothingFilled(blocks: Blocks, i: nat, info: FileBlocks, offset: nat, size: nat, was: string)
    requires FullBlocks(blocks, i) && Covers(info, offset, size, BLOCK)
    ensures info.numBlocks > 0 && Filled(blocks, i, offset, Done(info, size, 0), was, was)
  {
    assert was == Bytes(blocks, i, offset, 0) + was[0..];
  }

  lemma FillStep(blocks: Blocks, i: nat, info: FileBlocks, offset: nat, size: nat, k: nat, now: string, was: string)
    requires FullBlocks(blocks, i) && Covers(info, offset, size, BLOCK) && k < info.numBlocks && size <= |was|
    requires Filled(blocks, i, offset, BytesBefore(info, k), now, was)
    ensures var o, n, w, data := OffsetIn(info, k), PieceSize(info, size, k), BytesBefore(info, k),
        BlockAt(blocks, i, info.startBlock + k);
            && n >= 0 && w >= 0 && o + n <= |data| == BLOCK && w + n <= size && |now| == |was|
            && Filled(blocks, i, offset, Done(info, size, k + 1), now[..w] + data[o..o + n] + now[w + n..], was)
  {
    hide BlockAt, Bytes, Covers, Filled, FullBlocks;
    PieceFits(info, offset, size, k);
    FillPiece(blocks, i, offset, BytesBefore(info, k), info.startBlock + k, OffsetIn(info, k),
        PieceSize(info, size, k), now, was);
  }

  lemma FillPiece(blocks: Blocks, i: nat, offset: nat, w: nat, b: nat, o: nat, n: nat, now: string, was: string)
    requires FullBlocks(blocks, i) && Filled(blocks, i, offset, w, now, was)
    requires b * BLOCK + o == offset + w && o + n <= BLOCK && w + n <= |was|
    ensures |BlockAt(blocks, i, b)| == BLOCK && |now| == |was|
    ensures Filled(blocks, i, offset, w + n, now[..w] + BlockAt(blocks, i, b)[o..o + n] + now[w + n..], was)
  {
    hide BlockAt, Bytes;
    PieceRead(blocks, i, b, o, n);
    BytesConcat(blocks, i, offset, w, n);
    CopyExtends(now, Bytes(blocks, i, offset, w), BlockAt(blocks, i, b)[o..o + n], was);
  }

  lemma AllFilled(blocks: Blocks, i: nat, offset: nat, size: nat, now: string, was: string)
    requires FullBlocks(blocks, i) && Filled(blocks, i, offset, size, now, was)
    ensures size <= |was| && now == Bytes(blocks, i, offset, size) + was[size..]
  {
  }

  /** One round of the write loop: the block is as it was before the write, and becomes its new content. */
  lemma WriteRound(blocks: Blocks, i: nat, info: FileBlocks, offset: nat, buf: string, k: nat)
    requires FullBlocks(blocks, i) && Covers(info, offset, |buf|, BLOCK) && k < info.numBlocks
    ensures var o, n, w, b := OffsetIn(info, k), PieceSize(info, |buf|, k), BytesBefore(info, k), info.startBlock + k;
            var was := BlockAt(blocks, i, b);
            && n >= 0 && w >= 0 && o + n <= |was| == BLOCK && w + n <= |buf|
            && BlockAt(WriteBlocks(blocks, i, info.startBlock, k, offset, buf), i, b) == was
            && WriteBlocks(blocks, i, info.startBlock, k + 1, offset, buf)
               == StoreBlock(WriteBlocks(blocks, i, info.startBlock, k, offset, buf), i, b,
                   was[..o] + buf[w..w + n] + was[o + n..])
  {
    hide BlockAt, NewBlock, Covers, StoreBlock;
    var o, n, w, b := OffsetIn(info, k), PieceSize(info, |buf|, k), BytesBefore(info, k), info.startBlock + k;
    PieceFits(info, offset, |buf|, k);
    PieceWritten(BlockAt(blocks, i, b), b, offset, buf, o, w, n);
    WrittenBlock(blocks, i, info.startBlock, k, offset, buf, b);
  }
}
