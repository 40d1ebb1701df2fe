/** Inputs on which the code does not do what it is meant to; the exact conditions are proved next to each routine. */
module Departures {
  import opened CStrings
  import opened Lines
  import opened Items
  import opened DataParser
  import opened Records
  import opened Directory
  import opened InodeTable
  import opened Paths
  import opened Xattrs
  import opened XattrLaws
  import opened XattrList
  import opened RandomAccess
  import opened FsModel
  import opened FsInvariants
  import opened FlatFile
  import opened StaleBlocks

  /** 1024 bytes from offset 1 are described as one block of 1024 bytes, which runs over its end. */
  lemma BlockOverrun()
    ensures GetFileBlocksInfo(1, 1024, 1024) == FileBlocks(0, 1, 1, 1024)
    ensures !Covers(GetFileBlocksInfo(1, 1024, 1024), 1, 1024, 1024)
  {
  }

  /** 1536 bytes from offset 512 touch blocks 0 and 1, but three are described: the write stores a block 2 of zeros
      and st_blocks says 3. */
  lemma EmptyBlock(fs: Fs, i: nat)
    requires Inv(fs) && i in fs.inodes && IsReg(fs.inodes[i])
    ensures GetFileBlocksInfo(512, 1536, 1024) == FileBlocks(0, 512, 3, 0) && (512 + 1536 - 1) / 1024 == 1
    ensures FullBlocks(fs.blocks, i)
    ensures forall buf: string :: |buf| == 1536 && (i, 2) !in fs.blocks ==>
              && Write(fs, i, 512, buf).inodes[i].blocks == 3
              && (i, 2) in Write(fs, i, 512, buf).blocks && Write(fs, i, 512, buf).blocks[(i, 2)] == ZeroBlock()
  {
    hide Inv, WriteBlocks, Storable, NewBlock, BlockAt, FullBlocks;
    InvData(fs);
    BlocksFull(fs, i);
    forall buf: string | |buf| == 1536 && (i, 2) !in fs.blocks
      ensures && (i, 2) in Write(fs, i, 512, buf).blocks && Write(fs, i, 512, buf).blocks[(i, 2)] == ZeroBlock()
    {
      UntouchedBlock(fs.blocks, i, 2, 512, buf);
      StoredAreStorable(fs, i, 2);
      WrittenKey(fs.blocks, i, 0, 3, 512, buf, 2);
      WrittenBlock(fs.blocks, i, 0, 3, 512, buf, 2);
      BlockIs(fs.blocks, i, 2);
      BlockIs(Write(fs, i, 512, buf).blocks, i, 2);
    }
  }

  lemma BlockIs(blocks: Blocks, i: nat, b: nat)
    ensures BlockAt(blocks, i, b) == if (i, b) in blocks then blocks[(i, b)] else ZeroBlock()
  {
  }

  lemma UntouchedBlock(blocks: Blocks, i: nat, b: nat, offset: nat, buf: string)
    requires FullBlocks(blocks, i) && offset + |buf| <= b * BLOCK
    ensures Fresh(blocks, i, b, offset, buf) == BlockAt(blocks, i, b)
  {
    hide BlockAt, NewBlock;
    NewBlockLength(BlockAt(blocks, i, b), b, offset, buf);
  }

  lemma InFront(s: string, pat: string)
    requires |pat| <= |s| && s[..|pat|] == pat
    ensures StrStr(s, pat) == Some(0)
  {
    assert OccursAt(s, pat, 0);
    StrStrIs(s, pat, 0);
  }

  /** Removing /a from a table that lists /ab first damages the entry of /ab. */
  lemma WrongEntry()
    ensures var t := [Item("/", 0), Item("/ab", 1), Item("/a", 2)];
            Terminated(EncTable(t), "/a") && RemovePath(EncTable(t), "/a") != Some(EncTable([t[0], t[1]]))
  {
    hide EncTable, RemovePath, Terminated, StrStr;
    var t := [Item("/", 0), Item("/ab", 1), Item("/a", 2)];
    NotWithout("/", "/a", 'a');
    InFront("/ab", "/a");
    RemoveExactly(t, 2);
    assert FirstEntry(t, t[2].key) == 1 by {
      assert !Contains(t[0].key, "/a") && Contains(t[1].key, "/a");
    }
    assert t[..2] + t[3..] == [t[0], t[1]];
  }

  /** Removing a from a directory that lists ab first damages the name ab. */
  lemma WrongName()
    ensures var ns := ["ab", "a"];
            Contains(Enc(ns), "a") && StrStr(Enc(ns), "a").value + 2 <= |Enc(ns)|
                && RemoveLink(Enc(ns), "a") != Enc(["ab"])
  {
    hide Enc, RemoveLink, StrStr;
    var ns := ["ab", "a"];
    InFront("ab", "a");
    RemoveLinkExactly(ns, 1);
    assert FirstLine(ns, ns[1]) == 0;
    assert ns[..1] + ns[2..] == ["ab"];
  }

  // Records whose extended attributes mislead the search. The seven st_ lines can be any.

  lemma NotIn(s: string, pat: string)
    requires |s| == |pat| && s != pat
    ensures !Contains(s, pat)
  {
    forall i: nat ensures !OccursAt(s, pat, i) {
      if i == 0 {
        assert s[0..|pat|] == s;
      }
    }
  }

  /** The lines of two attributes. */
  lemma FourLines(a: Attr, b: Attr)
    ensures Flat([a, b]) == [a.name, a.value, b.name, b.value]
  {
  }

  lemma FoundInValue()
    ensures var ls := Flat([Attr("user.a", "user.b"), Attr("user.c", "d")]);
            AllPlain(ls) && FirstLine(ls, "user.b") == 1 && StrStr(ls[1], "user.b") == Some(0)
  {
    hide StrStr, Flat, Contains, FirstLine;
    FourLines(Attr("user.a", "user.b"), Attr("user.c", "d"));
    SelfContained("user.b");
    NotIn("user.a", "user.b");
    FirstLineIs(["user.a", "user.b", "user.c", "d"], "user.b", 1);
  }

  lemma SelfContained(s: string)
    ensures Contains(s, s) && StrStr(s, s) == Some(0)
  {
    StrStrSelf(s);
  }

  /** getxattr finds an attribute nobody set inside the value of another one. */
  lemma WrongAttribute(n: Inode, i: nat)
    requires n.tail == EncRec([Attr("user.a", "user.b"), Attr("user.c", "d")])
    ensures Terminated(n.Text(i), "user.b") && Get(n.Text(i), "user.b") == Some("user.c")
    ensures Lookup([Attr("user.a", "user.b"), Attr("user.c", "d")], "user.b") == None
  {
    hide Enc, Flat, StrStr, Get, Terminated, Foreign, SetXattr, FirstLine, Inode.Text;
    FoundInValue();
    FourLines(Attr("user.a", "user.b"), Attr("user.c", "d"));
    AtLineEnd(Flat([Attr("user.a", "user.b"), Attr("user.c", "d")]), "user.b", "");
    DottedIsForeign(n, i, false, "user.b");
    OnTail(n, i, false, "user.b", "");
  }

  /** setxattr of a new attribute renames the one after that value. */
  lemma WrongSet(n: Inode, i: nat)
    requires n.tail == EncRec([Attr("user.a", "user.b"), Attr("user.c", "d")])
    ensures Terminated(n.Text(i), "user.b")
    ensures SetXattr(n.Text(i), "user.b", "v") == n.(tail := EncRec([Attr("user.a", "user.b"), Attr("v", "d")])).Text(i)
  {
    hide Enc, Flat, StrStr, Get, Set, Terminated, Foreign, FirstLine, Inode.Text;
    var ls := Flat([Attr("user.a", "user.b"), Attr("user.c", "d")]);
    FoundInValue();
    FourLines(Attr("user.a", "user.b"), Attr("user.c", "d"));
    FourLines(Attr("user.a", "user.b"), Attr("v", "d"));
    AtLineEnd(ls, "user.b", "v");
    assert ls[2 := "v"] == ["user.a", "user.b", "v", "d"];
    DottedIsForeign(n, i, false, "user.b");
    OnTail(n, i, false, "user.b", "v");
  }

  /** removexattr of user.a takes the attribute user.ab in front of it instead. */
  lemma WrongRemoval(n: Inode, i: nat)
    requires n.tail == EncRec([Attr("user.ab", "v"), Attr("user.a", "w")])
    ensures TwoLinesFollow(n.Text(i), "user.a")
    ensures RemoveXattr(n.Text(i), "user.a") == n.(tail := EncRec([Attr("user.a", "w")])).Text(i)
  {
    hide Enc, Flat, StrStr, RemoveExtendedAttr, TwoLinesFollow, Foreign, FirstLine, Inode.Text;
    var r := [Attr("user.ab", "v"), Attr("user.a", "w")];
    var ls := Flat(r);
    FourLines(r[0], r[1]);
    RecordPlain(r);
    InFront("user.ab", "user.a");
    FirstLineIs(ls, "user.a", 0);
    RemoveTwoLines(ls, "user.a", 0, 0);
    CutWhole(ls, 0, 2);
    DropLines(r, 0);
    assert r[..0] + r[1..] == [Attr("user.a", "w")] && ls[..0] + ls[2..] == Flat([Attr("user.a", "w")]);
    assert ls[0][..0] == "";
    DottedIsForeign(n, i, false, "user.a");
    OnTail(n, i, false, "user.a", "");
  }

  /** After an empty value listxattr goes on with values. */
  lemma WrongList(n: Inode, i: nat)
    requires n.tail == EncRec([Attr("user.a", ""), Attr("user.b", "x")])
    ensures Contains(n.Text(i), "st_blocks") && Terminated(n.Text(i), "st_blocks")
    ensures Listed(n.Text(i)) == "user.a\0x\0"
    ensures NameList([Attr("user.a", ""), Attr("user.b", "x")]) == "user.a\0user.b\0"
  {
    hide Enc, Flat, Contains, Terminated, Listed, Inode.Text, Tokens, KeyText, PairTokens, NameList, NonEmpty;
    var ext := [Attr("user.a", ""), Attr("user.b", "x")];
    ListedTail(n, i);
    RecordPlain(ext);
    TokensEnc(Flat(ext));
    PairTokensAre(ext);
    ShiftedKeys();
  }

  lemma ShiftedKeys()
    ensures var ext := [Attr("user.a", ""), Attr("user.b", "x")];
            KeyText(PairTokens(ext), true) == "user.a\0x\0" && NameList(ext) == "user.a\0user.b\0"
  {
    var ext := [Attr("user.a", ""), Attr("user.b", "x")];
    assert PairTokens(ext[1..]) == ["user.b", "x"];
    assert PairTokens(ext) == ["user.a", "user.b", "x"];
    assert NameList(ext[1..]) == "user.b\0";
    KeyStep("", "user.a", ["user.b", "x"], true);
    assert KeyText(["user.b", "x"], false) == "x\0" by {
      assert ["user.b", "x"][1..] == ["x"] && ["x"][1..] == [];
    }
    assert ["user.a", "user.b", "x"][1..] == ["user.b", "x"];
  }

  /** When the last value is the name itself, the scans of get, set and remove run off the record. */
  lemma RunsOff(n: Inode, i: nat)
    requires n.tail == EncRec([Attr("user.a", "user.b")])
    ensures !Terminated(n.Text(i), "user.b") && !TwoLinesFollow(n.Text(i), "user.b")
  {
    hide Enc, Flat, StrStr, Terminated, TwoLinesFollow, Foreign, FirstLine, Inode.Text;
    var r := [Attr("user.a", "user.b")];
    assert Flat(r) == ["user.a", "user.b"] by { FlatAt(r, 0); }
    StrStrSelf("user.b");
    NotIn("user.a", "user.b");
    FirstLineIs(Flat(r), "user.b", 1);
    TerminatedExactly(r, "user.b");
    TwoLinesExactly(r, "user.b");
    DottedIsForeign(n, i, false, "user.b");
    OnTail(n, i, false, "user.b", "");
  }

  lemma HeadOfTwo()
    ensures Head("x\ny") == "x"
  {
    FindIs("x\ny", '\n', 0, 1);
  }

  /** Of a value with a newline only the first line is read back. */
  lemma ShortValue()
    ensures Terminated("", "user.a")
    ensures var d := SetXattr("", "user.a", "x\ny"); Terminated(d, "user.a") && Get(d, "user.a") == Some("x")
  {
    hide Enc, Flat, StrStr, Get, Terminated, SetXattr, FirstLine;
    HeadOfTwo();
    assert EncRec([]) == "" by { EncHead(Flat([])); }
    FirstLineIs(Flat([]), "user.a", 0);
    AbsentText([], "user.a");
    SetThenGetXattr([], "user.a", "x\ny");
  }

  /** Of a link's target likewise. */
  lemma ShortTarget(n: Inode, i: nat)
    requires n.tail == Pair("st_content", "x\ny")
    ensures Terminated(n.Text(i), "st_content") && Get(n.Text(i), "st_content") == Some("x")
  {
    hide Get, Terminated, Inode.Text, Pair;
    HeadOfTwo();
    assert n.tail == Pair("st_content", "x\ny") + "";
    ContentLaw(n, i, "x\ny", "");
  }

  /** Writing the word NOVALUE at the start of a file without blocks stores nothing. */
  lemma LostWord(fs: Fs, i: nat)
    requires Inv(fs) && i in fs.inodes && IsReg(fs.inodes[i]) && (i, 0) !in fs.blocks
    ensures FullBlocks(fs.blocks, i) && Write(fs, i, 0, "NOVALUE").blocks == fs.blocks
    ensures FullBlocks(Write(fs, i, 0, "NOVALUE").blocks, i)
    ensures File(Write(fs, i, 0, "NOVALUE"), i) != Splice(File(fs, i), 0, "NOVALUE")
  {
    hide Inv, File, Splice, WriteBlocks;
    assert DataOk(fs.inodes, fs.blocks) by { InvData(fs); }
    BlocksFull(fs, i);
    NoValueBlock();
    OneBlockWrite(fs, i);
    WriteExactly(fs, i, 0, "NOVALUE");
    assert !Storable(Fresh(fs.blocks, i, 0, 0, "NOVALUE"));
  }

  lemma InvData(fs: Fs)
    requires Inv(fs)
    ensures DataOk(fs.inodes, fs.blocks)
  {
  }

  lemma NoValueBlock()
    ensures !Storable(NewBlock(ZeroBlock(), 0, 0, "NOVALUE"))
  {
    var data := NewBlock(ZeroBlock(), 0, 0, "NOVALUE");
    assert forall j :: 0 <= j < 7 ==> data[j] == "NOVALUE"[j];
    assert data[7] == '\0';
    FindIs(data, '\0', 0, 7);
    assert data[..7] == "NOVALUE";
  }

  lemma OneBlockWrite(fs: Fs, i: nat)
    requires i in fs.inodes && FullBlocks(fs.blocks, i) && (i, 0) !in fs.blocks
    requires !Storable(NewBlock(ZeroBlock(), 0, 0, "NOVALUE"))
    ensures Write(fs, i, 0, "NOVALUE").blocks == fs.blocks
  {
    hide Storable, NewBlock;
    assert GetFileBlocksInfo(0, |"NOVALUE"|, BLOCK) == FileBlocks(0, 0, 1, 7);
    assert WriteBlocks(fs.blocks, i, 0, 0, 0, "NOVALUE") == fs.blocks;
    assert WriteBlocks(fs.blocks, i, 0, 1, 0, "NOVALUE") == fs.blocks;
  }

  /** Deleting a file removes as many blocks as its last write touched, from block 0 on: a file with one byte in
      block 5 leaves that block behind. */
  lemma StaleBlock(fs: Fs, path: string)
    requires Inv(fs) && path in fs.Index() && fs.Index()[path] in fs.inodes && Parent(path) in fs.Index()
    requires IsReg(fs.inodes[fs.Index()[path]]) && fs.inodes[fs.Index()[path]].nlink == 1
    requires (fs.Index()[path], 5) !in fs.blocks
    ensures var i := fs.Index()[path];
            && FullBlocks(fs.blocks, i)
            && var written := Write(fs, i, 5 * BLOCK, "x");
               && written.Index() == fs.Index() && i in written.inodes
               && i !in FsModel.Delete(written, path).inodes && (i, 5) in FsModel.Delete(written, path).blocks
  {
    hide Inv, BaseName, Parent, ToMap, DropName, Without, Links;
    var i := fs.Index()[path];
    InvData(fs);
    BlocksFull(fs, i);
    XBlock();
    assert WriteBlocks(fs.blocks, i, 5, 0, 5 * BLOCK, "x") == fs.blocks;
    assert GetFileBlocksInfo(5 * BLOCK, |"x"|, BLOCK) == FileBlocks(5, 0, 1, 1);
  }

  lemma XBlock()
    ensures Storable(NewBlock(ZeroBlock(), 5, 5 * BLOCK, "x"))
  {
    var data := NewBlock(ZeroBlock(), 5, 5 * BLOCK, "x");
    assert data[0] == 'x' && data[1] == '\0';
    FindIs(data, '\0', 0, 1);
  }
}
