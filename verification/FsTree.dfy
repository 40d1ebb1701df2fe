/** Adding and removing a path keeps the namespace a tree, the link counts right and the directory blocks exact. */
module FsTree {
  import opened Lines
  import opened Paths
  import opened Records
  import opened Directory
  import opened FsModel

  /** The inodes that remain keep their modes. */
  ghost predicate ModesKept(inodes: map<nat, Inode>, inodes': map<nat, Inode>) {
    forall i :: i in inodes && i in inodes' ==> inodes'[i].mode == inodes[i].mode
  }

  /** A new path may be added under a directory of the table. */
  ghost predicate Addable(m: map<string, nat>, inodes: map<nat, Inode>, path: string) {
    && path !in m && IsPath(path) && path != "/"
    && Parent(path) in m && m[Parent(path)] in inodes && IsDir(inodes[m[Parent(path)]])
  }

  lemma TreeAdd(m: map<string, nat>, inodes: map<nat, Inode>, inodes': map<nat, Inode>, path: string, i: nat)
    requires TreeOk(m, inodes) && Addable(m, inodes, path)
    requires inodes.Keys <= inodes'.Keys && i in inodes' && ModesKept(inodes, inodes')
    ensures TreeOk(m[path := i], inodes')
  {
    hide IsPath, Parent;
  }

  lemma TreeDrop(m: map<string, nat>, inodes: map<nat, Inode>, inodes': map<nat, Inode>, path: string)
    requires TreeOk(m, inodes) && path in m && path != "/"
    requires forall q {:trigger Parent(q)} :: q in m && q != "/" ==> Parent(q) != path
    requires (forall q :: q in m && q != path ==> m[q] in inodes') && ModesKept(inodes, inodes')
    ensures TreeOk(m - {path}, inodes')
  {
    hide IsPath, Parent;
  }

  // Counts

  lemma PathsAdd(m: map<string, nat>, path: string, i: nat, j: nat)
    requires path !in m
    ensures PathsTo(m[path := i], j) == PathsTo(m, j) + (if j == i then {path} else {})
    ensures |PathsTo(m[path := i], j)| == |PathsTo(m, j)| + (if j == i then 1 else 0)
  {
    assert PathsTo(m[path := i], j) == PathsTo(m, j) + (if j == i then {path} else {});
  }

  lemma PathsDrop(m: map<string, nat>, path: string, j: nat)
    requires path in m
    ensures PathsTo(m - {path}, j) == PathsTo(m, j) - {path}
    ensures |PathsTo(m - {path}, j)| == |PathsTo(m, j)| - (if j == m[path] then 1 else 0)
  {
    assert PathsTo(m - {path}, j) == PathsTo(m, j) - {path};
    assert j == m[path] ==> path in PathsTo(m, j);
  }

  /** Only regular files have more than one path. */
  lemma OnePath(m: map<string, nat>, inodes: map<nat, Inode>, p: string, q: string)
    requires CountsOk(m, inodes) && p in m && q in m && m[p] == m[q] && m[p] in inodes && !IsReg(inodes[m[p]])
    ensures p == q
  {
    var s := PathsTo(m, m[p]);
    assert |s| == 1 && p in s && q in s;
    if p != q {
      assert {p, q} <= s && |{p, q}| == 2;
      Subset({p, q}, s);
    }
  }

  lemma {:induction false} Subset(a: set<string>, b: set<string>)
    requires a <= b
    ensures |a| <= |b|
  {
    if a != {} {
      var x :| x in a;
      Subset(a - {x}, b - {x});
    }
  }

  // Directory blocks

  lemma LinksRoundTrip(blocks: Blocks, d: nat, names: seq<string>)
    requires Names(names)
    ensures Links(SetLinks(blocks, d, names), d) == names
    ensures forall e :: e != d ==> Links(SetLinks(blocks, d, names), e) == Links(blocks, e)
  {
    NamesPlain(names);
    SplitEnc(names);
  }

  lemma AppendName(names: seq<string>, name: string)
    requires Names(names) && Name(name) && name !in names
    ensures Names(names + [name])
  {
  }

  /** The directory that gets the new path. */
  lemma ParentGains(m: map<string, nat>, blocks: Blocks, path: string, i: nat)
    requires Parent(path) in m && LinksOf(m, blocks, Parent(path)) && path !in m && IsPath(path) && path != "/"
    ensures var d := m[Parent(path)];
            LinksOf(m[path := i], SetLinks(blocks, d, Links(blocks, d) + [BaseName(path)]), Parent(path))
  {
    hide Name, IsPath, Parent, BaseName, Join, Enc, Names, Split;
    var dir, name, d := Parent(path), BaseName(path), m[Parent(path)];
    var names := Links(blocks, d);
    JoinSplit(path);
    assert name !in names;
    AppendName(names, name);
    LinksRoundTrip(blocks, d, names + [name]);
    var m', blocks' := m[path := i], SetLinks(blocks, d, names + [name]);
    forall n: string | Name(n) ensures n in Links(blocks', d) <==> Join(dir, n) in m' {
      SplitJoin(dir, n);
      assert n in names <==> Join(dir, n) in m;
    }
  }

  /** A directory elsewhere keeps its children. */
  lemma OtherDirKept(m: map<string, nat>, m': map<string, nat>, blocks: Blocks, blocks': Blocks, dir: string,
          path: string)
    requires dir in m && dir in m' && m[dir] == m'[dir] && LinksOf(m, blocks, dir) && IsPath(dir)
    requires dir != Parent(path)
    requires Links(blocks', m[dir]) == Links(blocks, m[dir])
    requires (m[dir], 0) in blocks' <==> (m[dir], 0) in blocks
    requires (m[dir], 0) in blocks ==> blocks'[(m[dir], 0)] == blocks[(m[dir], 0)]
    requires forall p :: p != path ==> (p in m' <==> p in m)
    ensures LinksOf(m', blocks', dir)
  {
    hide Name, IsPath, Parent, BaseName, Join, Enc, Names, Split;
    forall n: string | Name(n) ensures n in Links(blocks', m[dir]) <==> Join(dir, n) in m' {
      SplitJoin(dir, n);
      assert n in Links(blocks, m[dir]) <==> Join(dir, n) in m;
    }
  }

  /** A new directory has no children yet. */
  lemma NewDirEmpty(m: map<string, nat>, inodes: map<nat, Inode>, blocks: Blocks, path: string, i: nat)
    requires TreeOk(m, inodes) && Addable(m, inodes, path) && (i, 0) !in blocks
    ensures LinksOf(m[path := i], blocks, path)
  {
    hide IsPath, Parent, BaseName, Name, Join;
    var m' := m[path := i];
    forall n: string | Name(n) ensures Join(path, n) !in m' {
      SplitJoin(path, n);
    }
  }

  lemma LinksAdd(m: map<string, nat>, inodes: map<nat, Inode>, blocks: Blocks, path: string, i: nat,
          inodes': map<nat, Inode>)
    requires TreeOk(m, inodes) && CountsOk(m, inodes) && LinksOk(m, inodes, blocks) && Addable(m, inodes, path)
    requires inodes.Keys <= inodes'.Keys && i in inodes' && ModesKept(inodes, inodes')
    requires IsDir(inodes'[i]) ==> i !in inodes && (i, 0) !in blocks
    ensures var d := m[Parent(path)];
            LinksOk(m[path := i], inodes', SetLinks(blocks, d, Links(blocks, d) + [BaseName(path)]))
  {
    hide IsPath, Parent, BaseName, Name, Join, LinksOf, Links, SetLinks, PathsTo;
    var dir, d, m' := Parent(path), m[Parent(path)], m[path := i];
    var blocks' := SetLinks(blocks, d, Links(blocks, d) + [BaseName(path)]);
    ParentGains(m, blocks, path, i);
    OnlyBlockZero(blocks, d, Links(blocks, d) + [BaseName(path)]);
    NamesGrow(m, blocks, path);
    LinksRoundTrip(blocks, d, Links(blocks, d) + [BaseName(path)]);
    forall p | p in m' && m'[p] in inodes' && IsDir(inodes'[m'[p]]) ensures LinksOf(m', blocks', p) {
      if p == path {
        NewDirEmpty(m, inodes, blocks', path, i);
      } else if p != dir {
        if m[p] == d {
          OnePath(m, inodes, p, dir);
        }
        OtherDirKept(m, m', blocks, blocks', p, path);
      }
    }
  }

  lemma OnlyBlockZero(blocks: Blocks, d: nat, names: seq<string>)
    ensures SetLinks(blocks, d, names).Keys == blocks.Keys + {(d, 0)}
    ensures forall k :: k in blocks && k != (d, 0) ==> SetLinks(blocks, d, names)[k] == blocks[k]
    ensures SetLinks(blocks, d, names)[(d, 0)] == Enc(names)
  {
  }

  lemma NamesGrow(m: map<string, nat>, blocks: Blocks, path: string)
    requires Parent(path) in m && LinksOf(m, blocks, Parent(path)) && path !in m && IsPath(path) && path != "/"
    ensures Names(Links(blocks, m[Parent(path)]) + [BaseName(path)])
  {
    hide IsPath, Parent, BaseName, Name, Join;
    JoinSplit(path);
    AppendName(Links(blocks, m[Parent(path)]), BaseName(path));
  }

  // Removal

  lemma {:induction false} DropNameAt(names: seq<string>, name: string)
    requires Names(names)
    ensures Names(DropName(names, name))
    ensures forall n :: n in DropName(names, name) <==> n in names && n != name
  {
    if names != [] && names[0] != name {
      var rest := names[1..];
      assert forall k :: 0 <= k < |rest| ==> rest[k] == names[k + 1];
      DropNameAt(rest, name);
      var r := DropName(rest, name);
      assert names[0] !in rest;
      assert names == [names[0]] + rest;
      assert Names([names[0]] + r);
    } else if names != [] {
      var rest := names[1..];
      assert forall k :: 0 <= k < |rest| ==> rest[k] == names[k + 1];
      assert names == [names[0]] + rest;
    }
  }

  /** The directory that loses the path. */
  lemma ParentLoses(m: map<string, nat>, blocks: Blocks, path: string)
    requires path in m && Parent(path) in m && Parent(path) != path && LinksOf(m, blocks, Parent(path))
        && IsPath(path) && path != "/"
    ensures var d := m[Parent(path)];
            LinksOf(m - {path}, SetLinks(blocks, d, DropName(Links(blocks, d), BaseName(path))), Parent(path))
  {
    hide Name, IsPath, Parent, BaseName, Join, Enc, Names, Split, DropName;
    var dir, name, d := Parent(path), BaseName(path), m[Parent(path)];
    var names := Links(blocks, d);
    JoinSplit(path);
    DropNameAt(names, name);
    LinksRoundTrip(blocks, d, DropName(names, name));
    var m', blocks' := m - {path}, SetLinks(blocks, d, DropName(names, name));
    forall n: string | Name(n) ensures n in Links(blocks', d) <==> Join(dir, n) in m' {
      SplitJoin(dir, n);
      assert n in names <==> Join(dir, n) in m;
    }
  }

  /** blocks1 is what is left after the blocks of the deleted inode are gone. */
  lemma LinksDrop(m: map<string, nat>, inodes: map<nat, Inode>, blocks: Blocks, path: string,
          inodes': map<nat, Inode>, blocks1: Blocks)
    requires TreeOk(m, inodes) && CountsOk(m, inodes) && LinksOk(m, inodes, blocks)
    requires path in m && path != "/" && Parent(path) != path
    requires inodes'.Keys <= inodes.Keys && ModesKept(inodes, inodes')
    requires blocks1.Keys <= blocks.Keys && forall k :: k in blocks1 ==> blocks1[k] == blocks[k]
    requires forall k :: k in blocks && k !in blocks1 ==> k.0 == m[path] && k.0 !in inodes'
    requires m[Parent(path)] in inodes'
    ensures var d := m[Parent(path)];
            LinksOk(m - {path}, inodes', SetLinks(blocks1, d, DropName(Links(blocks1, d), BaseName(path))))
  {
    hide IsPath, BaseName, Parent, Name, Join, LinksOf, Links, SetLinks, PathsTo, DropName;
    var dir, d, m' := Parent(path), m[Parent(path)], m - {path};
    var names := DropName(Links(blocks1, d), BaseName(path));
    var blocks' := SetLinks(blocks1, d, names);
    assert dir in m && IsDir(inodes[d]);
    LinksSame(m, blocks, blocks1, dir);
    ParentLoses(m, blocks1, path);
    OnlyBlockZero(blocks1, d, names);
    NamesShrink(m, blocks1, dir, BaseName(path));
    LinksRoundTrip(blocks1, d, names);
    forall p | p in m' && m'[p] in inodes' && IsDir(inodes'[m'[p]]) ensures LinksOf(m', blocks', p) {
      if p != dir {
        if m[p] == d {
          OnePath(m, inodes, p, dir);
        }
        LinksSame(m, blocks, blocks1, p);
        OtherDirKept(m, m', blocks1, blocks', p, path);
      }
    }
  }

  lemma LinksSame(m: map<string, nat>, blocks: Blocks, blocks1: Blocks, dir: string)
    requires dir in m && LinksOf(m, blocks, dir)
    requires (m[dir], 0) in blocks <==> (m[dir], 0) in blocks1
    requires (m[dir], 0) in blocks1 ==> blocks1[(m[dir], 0)] == blocks[(m[dir], 0)]
    ensures Links(blocks1, m[dir]) == Links(blocks, m[dir]) && LinksOf(m, blocks1, dir)
  {
  }

  lemma NamesShrink(m: map<string, nat>, blocks: Blocks, dir: string, name: string)
    requires dir in m && LinksOf(m, blocks, dir)
    ensures Names(DropName(Links(blocks, m[dir]), name))
  {
    DropNameAt(Links(blocks, m[dir]), name);
  }

  /** A directory without links has no children in the table. */
  lemma EmptyDirChildless(m: map<string, nat>, inodes: map<nat, Inode>, blocks: Blocks, path: string, q: string)
    requires TreeOk(m, inodes) && path in m && LinksOf(m, blocks, path) && Links(blocks, m[path]) == []
    requires q in m && q != "/"
    ensures Parent(q) != path
  {
    hide IsPath, BaseName, Parent, Name, Join;
    JoinSplit(q);
  }
}
