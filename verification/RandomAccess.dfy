/** random_access.c: which blocks a byte range touches. */
module RandomAccess {
  import opened Bits

  datatype FileBlocks = FileBlocks(startBlock: nat, offsetInStartBlock: nat, numBlocks: nat, bytesInEndBlock: nat)

  /** get_file_blocks_info */
  function GetFileBlocksInfo(offset: nat, size: nat, blockSize: nat): FileBlocks
    requires blockSize > 0
  {
    var startBlock := offset / blockSize;
    var bytesLeft := blockSize - (offset - startBlock * blockSize);
    if size <= bytesLeft then FileBlocks(startBlock, offset % blockSize, 1, size)
    else
      var s := size - bytesLeft;
      if size % blockSize == 0 then FileBlocks(startBlock, offset % blockSize, 1 + s / blockSize, blockSize)
      else FileBlocks(startBlock, offset % blockSize, 2 + s / blockSize, s % blockSize)
  }

  /** The description covers the range exactly: one block that holds all of it, or the tail of the first block, all
      of the middle ones and a part of the last, adding up to the size. */
  predicate Covers(f: FileBlocks, offset: nat, size: nat, blockSize: nat) {
    && f.startBlock * blockSize + f.offsetInStartBlock == offset && f.offsetInStartBlock < blockSize
    && f.numBlocks > 0
    && (f.numBlocks == 1 ==> f.offsetInStartBlock + size <= blockSize && f.bytesInEndBlock == size)
    && (f.numBlocks > 1 ==>
          && f.bytesInEndBlock <= blockSize
          && (blockSize - f.offsetInStartBlock) + (f.numBlocks - 2) * blockSize + f.bytesInEndBlock == size)
  }

  /** What a caller can check: the description is wrong when a range of whole blocks starts inside a block. */
  predicate Coverable(offset: nat, size: nat, blockSize: nat)
    requires blockSize > 0
  {
    offset % blockSize == 0 || size % blockSize != 0 || size == 0
  }

  lemma MultipleIsBig(size: nat, blockSize: nat)
    requires blockSize > 0 && size > 0 && size % blockSize == 0
    ensures size >= blockSize
  {
    if size < blockSize {
      DivModUnique(size, blockSize, 0, size);
    }
  }

  /** The remainder of what is left after the first block. */
  lemma RestRemainder(size: nat, blockSize: nat, rest: nat, o: nat)
    requires blockSize > 0 && size % blockSize == 0 && size > 0 && o < blockSize && rest == size - blockSize + o
    ensures rest % blockSize == o && rest / blockSize == size / blockSize - 1
  {
    var q := size / blockSize;
    assert (q - 1) * blockSize == q * blockSize - blockSize;
    DivModUnique(rest, blockSize, q - 1, o);
  }

  /** The block description covers the range exactly when the range is coverable. */
  lemma CoversExactly(offset: nat, size: nat, blockSize: nat)
    requires blockSize > 0
    ensures Covers(GetFileBlocksInfo(offset, size, blockSize), offset, size, blockSize) <==>
        Coverable(offset, size, blockSize)
  {
    if size <= blockSize - offset % blockSize {
      OneBlock(offset, size, blockSize);
    } else {
      ManyBlocks(offset, size, blockSize);
    }
  }

  lemma OneBlock(offset: nat, size: nat, blockSize: nat)
    requires blockSize > 0 && size <= blockSize - offset % blockSize
    ensures Covers(GetFileBlocksInfo(offset, size, blockSize), offset, size, blockSize)
        && Coverable(offset, size, blockSize)
  {
    assert offset / blockSize * blockSize + offset % blockSize == offset;
    if size > 0 && size % blockSize == 0 {
      MultipleIsBig(size, blockSize);
    }
  }

  lemma ManyBlocks(offset: nat, size: nat, blockSize: nat)
    requires blockSize > 0 && size > blockSize - offset % blockSize
    ensures Covers(GetFileBlocksInfo(offset, size, blockSize), offset, size, blockSize) <==>
        Coverable(offset, size, blockSize)
  {
    var o := offset % blockSize;
    var s := size - (blockSize - o);
    assert offset / blockSize * blockSize + o == offset;
    assert s / blockSize * blockSize + s % blockSize == s;
    if size % blockSize == 0 {
      RestRemainder(size, blockSize, s, o);
      assert (1 + s / blockSize - 2) * blockSize == s / blockSize * blockSize - blockSize;
    }
  }

  // How many blocks the description names

  /** A range that starts inside a block and ends, in a later one, at the end of that block. */
  predicate SpareBlock(offset: nat, size: nat, blockSize: nat)
    requires blockSize > 0
  {
    offset % blockSize != 0 && size > blockSize - offset % blockSize && (offset + size) % blockSize == 0
  }

  /** The blocks from that of the first byte to that of the last are those that hold a byte of the range. */
  lemma TouchedBlocks(offset: nat, size: nat, blockSize: nat, b: nat)
    requires blockSize > 0 && size > 0
    ensures offset / blockSize <= b <= (offset + size - 1) / blockSize <==>
            exists k: nat {:trigger k / blockSize} :: offset <= k < offset + size && k / blockSize == b
  {
    var first, last := offset / blockSize, (offset + size - 1) / blockSize;
    if first == b {
      assert offset <= offset < offset + size && offset / blockSize == b;
    }
    if first < b <= last {
      BlockStart(offset, offset + size - 1, blockSize, b);
    }
    if k: nat :| offset <= k < offset + size && k / blockSize == b {
      DivMonotone(offset, k, blockSize);
      DivMonotone(k, offset + size - 1, blockSize);
    }
  }

  lemma BlockStart(x: nat, y: nat, d: nat, b: nat)
    requires d > 0 && x / d < b <= y / d
    ensures x <= b * d <= y && b * d / d == b
  {
    StepUp(x / d, b, d);
    DivModUnique(b * d, d, b, 0);
    if b < y / d {
      StepUp(b, y / d, d);
    }
  }

  lemma DivMonotone(x: nat, y: nat, d: nat)
    requires d > 0 && x <= y
    ensures x / d <= y / d
  {
    if y / d < x / d {
      StepUp(y / d, x / d, d);
    }
  }

  /** The description names as many blocks as the range touches if and only if it covers the range and the range is
      not one that starts inside a block and ends at the end of a later one; that one gets an empty block more. */
  lemma BlockCount(offset: nat, size: nat, blockSize: nat)
    requires blockSize > 0 && size > 0
    ensures var f, touched := GetFileBlocksInfo(offset, size, blockSize),
                              (offset + size - 1) / blockSize - offset / blockSize + 1;
            && (f.numBlocks == touched <==> Coverable(offset, size, blockSize) && !SpareBlock(offset, size, blockSize))
            && (f.numBlocks == touched + 1 <==> SpareBlock(offset, size, blockSize))
            && (f.numBlocks == touched - 1 <==> !Coverable(offset, size, blockSize))
            && (f.bytesInEndBlock == 0 <==> SpareBlock(offset, size, blockSize))
  {
    hide GetFileBlocksInfo, Coverable;
    if size <= blockSize - offset % blockSize {
      OneTouched(offset, size, blockSize);
    } else {
      ManyTouched(offset, size, blockSize);
    }
  }

  lemma OneTouched(offset: nat, size: nat, blockSize: nat)
    requires blockSize > 0 && 0 < size <= blockSize - offset % blockSize
    ensures (offset + size - 1) / blockSize == offset / blockSize && Coverable(offset, size, blockSize)
    ensures var f := GetFileBlocksInfo(offset, size, blockSize); f.numBlocks == 1 && f.bytesInEndBlock == size
  {
    OneBlock(offset, size, blockSize);
    DivModUnique(offset + size - 1, blockSize, offset / blockSize, offset % blockSize + size - 1);
  }

  lemma DivShift(x: nat, q: nat, s: nat, d: nat)
    requires d > 0 && x == q * d + s
    ensures x / d == q + s / d && x % d == s % d
  {
    Distribute(q, s / d, d);
    DivModUnique(x, d, q + s / d, s % d);
  }

  lemma Distribute(a: int, b: int, d: nat)
    ensures (a + b) * d == a * d + b * d
  {
  }

  lemma DivBefore(s: nat, d: nat)
    requires d > 0 && s > 0
    ensures (s - 1) / d == if s % d == 0 then s / d - 1 else s / d
  {
    if s % d == 0 {
      Distribute(s / d, -1, d);
      DivModUnique(s - 1, d, s / d - 1, d - 1);
    } else {
      DivModUnique(s - 1, d, s / d, s % d - 1);
    }
  }

  /** What is left after the first block, and where its last byte lies. */
  lemma RestOf(offset: nat, size: nat, blockSize: nat, s: nat)
    requires blockSize > 0 && s > 0 && size == s + (blockSize - offset % blockSize)
    ensures (offset + size - 1) / blockSize == offset / blockSize + 1 + (s - 1) / blockSize
    ensures (offset + size) % blockSize == s % blockSize
    ensures (s - 1) / blockSize == if s % blockSize == 0 then s / blockSize - 1 else s / blockSize
    ensures offset % blockSize == 0 ==> size % blockSize == s % blockSize
  {
    var q := offset / blockSize;
    Distribute(q, 1, blockSize);
    assert offset + size == (q + 1) * blockSize + s;
    DivShift(offset + size, q + 1, s, blockSize);
    DivShift(offset + size - 1, q + 1, s - 1, blockSize);
    DivBefore(s, blockSize);
    if offset % blockSize == 0 {
      DivShift(size, 1, s, blockSize);
    }
  }

  /** The description by what is left after the first block. */
  lemma ManyDescribed(offset: nat, size: nat, blockSize: nat, s: nat)
    requires blockSize > 0 && s > 0 && size == s + (blockSize - offset % blockSize)
    ensures var f := GetFileBlocksInfo(offset, size, blockSize);
            && f.numBlocks == (if size % blockSize == 0 then 1 else 2) + s / blockSize
            && f.bytesInEndBlock == if size % blockSize == 0 then blockSize else s % blockSize
  {
    assert offset / blockSize * blockSize + offset % blockSize == offset;
  }

  lemma ManyTouched(offset: nat, size: nat, blockSize: nat)
    requires blockSize > 0 && size > blockSize - offset % blockSize
    ensures var f, touched := GetFileBlocksInfo(offset, size, blockSize),
                              (offset + size - 1) / blockSize - offset / blockSize + 1;
            && (f.numBlocks == touched <==> Coverable(offset, size, blockSize) && !SpareBlock(offset, size, blockSize))
            && (f.numBlocks == touched + 1 <==> SpareBlock(offset, size, blockSize))
            && (f.numBlocks == touched - 1 <==> !Coverable(offset, size, blockSize))
            && (f.bytesInEndBlock == 0 <==> SpareBlock(offset, size, blockSize))
  {
    hide GetFileBlocksInfo;
    var o := offset % blockSize;
    var s := size - (blockSize - o);
    ManyDescribed(offset, size, blockSize, s);
    RestOf(offset, size, blockSize, s);
    if size % blockSize == 0 {
      RestRemainder(size, blockSize, s, o);
    }
  }
}
