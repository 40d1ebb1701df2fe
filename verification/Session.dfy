/** A run from the first mount that takes a create, a link, a write and an unlink: the guards can be met, and the flat
    system tells what the run leaves. */
module Session {
  import opened CStrings
  import opened Items
  import opened Paths
  import opened Records
  import opened RandomAccess
  import opened FsModel
  import opened FsInvariants
  import opened FlatFile
  import opened FsRuns
  import opened FlatSystem
  import opened FsGuards

  lemma OneName(c: char)
    requires c != '/' && c != '\n' && c != '\0'
    ensures var p := "/" + [c]; IsPath(p) && p != "/" && Parent(p) == "/"
  {
    var p := "/" + [c];
    AfterLastIs(p, '/', 1);
    assert p[1..] == [c];
  }

  /** In a state with just these paths, where id 1 is a regular file. */
  ghost predicate At(fs: Fs, m: map<string, nat>) {
    && Inv(fs) && fs.Index() == m && fs.next == 2
    && 1 in fs.inodes && IsReg(fs.inodes[1])
  }

  lemma RootKnown(fs: Fs)
    requires Inv(fs)
    ensures "/" in fs.Index() && fs.Index()["/"] in fs.inodes && IsDir(fs.inodes[fs.Index()["/"]])
  {
  }

  lemma CreateA(fs: Fs, n: Inode) returns (fs': Fs)
    requires fs == Init(0, 0) && n == Inode(8 * 4096, 0, 0, 1, 0, 0, "")
    ensures StepTo(fs, CreateStep("/a", n), fs') && At(fs', map["/" := 0, "/a" := 1])
  {
    hide IsPath, Parent, BaseName, Links, SetLinks, InodeOk, Inv, Create, Init, RootInode;
    InitOk(0, 0);
    InitShape(0, 0);
    OneName('a');
    RootKnown(fs);
    assert "/" + ['a'] == "/a";
    FreshInodeOk(n);
    CreateKeeps(fs, "/a", n);
    CreateFields(fs, "/a", n);
    fs' := Create(fs, "/a", n);
  }

  lemma LinkB(fs: Fs) returns (fs': Fs)
    requires At(fs, map["/" := 0, "/a" := 1])
    ensures StepTo(fs, LinkStep("/a", "/b"), fs') && At(fs', map["/" := 0, "/a" := 1, "/b" := 1])
  {
    hide IsPath, Parent, BaseName, Links, SetLinks, InodeOk, Inv, Link;
    RootKnown(fs);
    OneName('b');
    assert "/" + ['b'] == "/b";
    LinkKeeps(fs, "/a", "/b");
    LinkFields(fs, "/a", "/b");
    fs' := Link(fs, "/a", "/b");
  }

  lemma WriteB(fs: Fs) returns (fs': Fs)
    requires At(fs, map["/" := 0, "/a" := 1, "/b" := 1])
    ensures StepTo(fs, WriteStep("/b", 0, "hi"), fs') && At(fs', map["/" := 0, "/a" := 1, "/b" := 1])
    ensures Lossless(fs, WriteStep("/b", 0, "hi"))
  {
    hide InodeOk, Inv, WriteBlocks, FullBlocks, GetFileBlocksInfo;
    WriteKeeps(fs, 1, 0, "hi");
    HiStorable(fs.blocks, 1);
    fs' := Write(fs, 1, 0, "hi");
  }

  lemma HiStorable(blocks: Blocks, i: nat)
    requires FullBlocks(blocks, i)
    ensures AllStorable(blocks, i, 0, "hi")
  {
    assert GetFileBlocksInfo(0, |"hi"|, BLOCK) == FileBlocks(0, 0, 1, 2);
    var data := Fresh(blocks, i, 0, 0, "hi");
    assert data[0] == 'h' != '\0';
    assert CStr(data)[0] == 'h' != "NOVALUE"[0];
  }

  lemma DeleteA(fs: Fs) returns (fs': Fs)
    requires At(fs, map["/" := 0, "/a" := 1, "/b" := 1])
    ensures StepTo(fs, DeleteStep("/a"), fs') && Inv(fs')
  {
    hide IsPath, Parent, BaseName, Links, Inv, Delete;
    OneName('a');
    assert "/" + ['a'] == "/a";
    DeleteKeeps(fs, "/a");
    fs' := Delete(fs, "/a");
  }

  /** After mkfs, create /a, link it as /b, write to /b and unlink /a: one path is left, with the bytes and one link. */
  lemma SampleRun() returns (states: seq<Fs>, steps: seq<Step>)
    ensures IsRun(states, steps, 0, 0) && |steps| == 4
    ensures AllFull(states[4]) && Abs(states[4]) == Flat(map["/" := 0, "/b" := 1], map[1 := "hi"], 2)
    ensures 1 in states[4].inodes && states[4].inodes[1].nlink == 1
  {
    hide Inv, StepTo, Init, AllFull, Abs, At, AllStorable;
    var n := Inode(8 * 4096, 0, 0, 1, 0, 0, "");
    var fs := Init(0, 0);
    var fs1 := CreateA(fs, n);
    var fs2 := LinkB(fs1);
    var fs3 := WriteB(fs2);
    var fs4 := DeleteA(fs3);
    states := [fs, fs1, fs2, fs3, fs4];
    steps := [CreateStep("/a", n), LinkStep("/a", "/b"), WriteStep("/b", 0, "hi"), DeleteStep("/a")];
    RunSimulates(states, steps, 0, 0, 4);
    assert steps[..4] == steps;
    SampleFlat(n);
    OneLink(fs4);
  }

  lemma SampleFlat(n: Inode)
    requires IsReg(n)
    ensures FlatRun(Flat(map["/" := 0], map[], 1),
                    [CreateStep("/a", n), LinkStep("/a", "/b"), WriteStep("/b", 0, "hi"), DeleteStep("/a")])
         == Flat(map["/" := 0, "/b" := 1], map[1 := "hi"], 2)
  {
    var steps := [CreateStep("/a", n), LinkStep("/a", "/b"), WriteStep("/b", 0, "hi"), DeleteStep("/a")];
    var f0 := Flat(map["/" := 0], map[], 1);
    var f1 := Flat(map["/" := 0, "/a" := 1], map[1 := ""], 2);
    var f2 := Flat(map["/" := 0, "/a" := 1, "/b" := 1], map[1 := ""], 2);
    var f3 := Flat(map["/" := 0, "/a" := 1, "/b" := 1], map[1 := "hi"], 2);
    var f4 := Flat(map["/" := 0, "/b" := 1], map[1 := "hi"], 2);
    assert FlatNext(f0, steps[0]) == f1;
    assert FlatNext(f1, steps[1]) == f2;
    assert Splice("", 0, "hi") == "hi";
    assert FlatNext(f2, steps[2]) == f3;
    assert FlatNext(f3, steps[3]) == f4 by {
      assert "/b" in f3.names - {"/a"} && (f3.names - {"/a"})["/b"] == 1;
      assert f3.names - {"/a"} == f4.names;
    }
    FlatRunStep(f0, steps, 0);
    FlatRunStep(f0, steps, 1);
    FlatRunStep(f0, steps, 2);
    FlatRunStep(f0, steps, 3);
    assert steps[..0] == [] && steps[..4] == steps;
  }

  lemma FlatRunStep(f: Flat, steps: seq<Step>, k: nat)
    requires k < |steps|
    ensures FlatRun(f, steps[..k + 1]) == FlatNext(FlatRun(f, steps[..k]), steps[k])
  {
    assert steps[..k + 1][..k] == steps[..k];
  }

  lemma OneLink(fs: Fs)
    requires Inv(fs) && AllFull(fs) && Abs(fs) == Flat(map["/" := 0, "/b" := 1], map[1 := "hi"], 2)
    ensures 1 in fs.inodes && fs.inodes[1].nlink == 1
  {
    hide Inv, IsReg, File;
    LinkCount(fs, 1);
    assert 1 in Files(fs);
    assert PathsTo(fs.Index(), 1) == {"/b"};
  }

  lemma UnlinkA(fs: Fs) returns (fs': Fs)
    requires At(fs, map["/" := 0, "/a" := 1]) && fs.inodes[1].nlink == 1
    ensures StepTo(fs, DeleteStep("/a"), fs') && fs'.next == 2 && 1 !in fs'.inodes && !SmallestUnused(fs')
  {
    hide IsPath, Parent, BaseName, Links, Inv, DropName, SetLinks, Without, DropBlocks, InodeOk, ToMap;
    OneName('a');
    assert "/" + ['a'] == "/a";
    fs' := Delete(fs, "/a");
  }

  /** After create /a and unlink /a the counter stands at 2, and the smaller id 1 is not in use. */
  lemma SkippedId() returns (states: seq<Fs>, steps: seq<Step>)
    ensures IsRun(states, steps, 0, 0) && |steps| == 2
    ensures states[2].next == 2 && 1 !in states[2].inodes && !SmallestUnused(states[2])
  {
    hide Inv, StepTo, Init, At, SmallestUnused;
    var n := Inode(8 * 4096, 0, 0, 1, 0, 0, "");
    var fs := Init(0, 0);
    var fs1 := CreateA(fs, n);
    OneLinkAt(fs1);
    var fs2 := UnlinkA(fs1);
    states, steps := [fs, fs1, fs2], [CreateStep("/a", n), DeleteStep("/a")];
  }

  lemma OneLinkAt(fs: Fs)
    requires At(fs, map["/" := 0, "/a" := 1])
    ensures 1 in fs.inodes && fs.inodes[1].nlink == 1
  {
    hide Inv, IsReg;
    LinkCount(fs, 1);
    assert PathsTo(fs.Index(), 1) == {"/a"};
  }
}
