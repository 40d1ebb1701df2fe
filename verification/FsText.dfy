/** What the callbacks read from the store and write back, as text, against the state it stands for. */
module FsText {
  import opened CStrings
  import opened Lines
  import opened Items
  import opened DataParser
  import opened Records
  import opened Directory
  import opened InodeTable
  import opened FsModel
  import opened FsTree
  import opened FsInvariants

  // No text the file system writes is taken for the client's sentinel

  lemma LinesStorable(ls: seq<string>)
    requires AllPlain(ls)
    ensures Storable(Enc(ls)) && CStr(Enc(ls)) == Enc(ls)
  {
    hide Enc, CStr;
    EncNoNul(ls);
    EndsInNewline(ls);
    assert "NOVALUE"[6] == 'E';
  }

  lemma NumeralStorable(n: nat)
    ensures Storable(Dec(n)) && CStr(Dec(n)) == Dec(n)
  {
    assert IsDigit(Dec(n)[0]) && !IsDigit("NOVALUE"[0]);
  }

  lemma TextStorable(n: Inode, i: nat)
    requires '\0' !in n.tail
    ensures Storable(n.Text(i)) && CStr(n.Text(i)) == n.Text(i)
  {
    hide Enc, Flat, Inode.Fixed;
    FixedOk(n, i);
    RecordPlain(n.Fixed(i));
    EncNoNul(Flat(n.Fixed(i)));
    FirstLetter(n, i);
    assert n.Text(i)[0] == 's' != "NOVALUE"[0];
  }

  lemma FirstLetter(n: Inode, i: nat)
    ensures EncRec(n.Fixed(i)) != "" && EncRec(n.Fixed(i))[0] == 's'
  {
    hide Dec, Inode.Fixed;
    FieldAt(n, i, Ino);
    FlatAt(n.Fixed(i), 0);
    EncHead(Flat(n.Fixed(i)));
  }

  lemma TableStorable(t: seq<Item>)
    requires TablePaths(t)
    ensures Storable(EncTable(t)) && CStr(EncTable(t)) == EncTable(t)
  {
    hide Enc, CStr, TableLines;
    TablePlain(t);
    LinesStorable(TableLines(t));
  }

  // Attributes

  /** Reading a numeric attribute and writing another value for it. */
  lemma AttrLaws(n: Inode, i: nat, f: Field, v: nat)
    requires f != Content
    ensures Terminated(n.Text(i), f.Name()) && Get(n.Text(i), f.Name()) == Some(Dec(n.Numeric(i, f)))
    ensures Atoi(Dec(n.Numeric(i, f))) == n.Numeric(i, f) && Contains(n.Text(i), f.Name())
    ensures f != Ino ==> Set(n.Text(i), f.Name(), Dec(v)) == Some(n.With(f, v).Text(i))
  {
    hide Dec, Get, Set, Terminated, Atoi, Inode.Text, Contains;
    FieldLaws(n, i, f, v);
    GotIsContained(n.Text(i), f.Name());
    AtoiDec(n.Numeric(i, f), []);
    assert Dec(n.Numeric(i, f)) + [] == Dec(n.Numeric(i, f));
  }

  lemma GotIsContained(data: string, name: string)
    requires Terminated(data, name)
    ensures Get(data, name).Some? <==> Contains(data, name)
  {
  }

  // Directory links

  /** The block of directory d is the text of its names. */
  ghost predicate LinksText(blocks: Blocks, d: nat) {
    Names(Links(blocks, d)) && ((d, 0) in blocks ==> blocks[(d, 0)] == Enc(Links(blocks, d)))
  }

  lemma LinkAdded(blocks: Blocks, d: nat, name: string)
    requires LinksText(blocks, d) && Name(name)
    ensures (if (d, 0) in blocks then CStr(blocks[(d, 0)]) else "") + name + "\n" == Enc(Links(blocks, d) + [name])
    ensures Storable(Enc(Links(blocks, d) + [name]))
  {
    hide Enc, CStr, Split;
    var names := Links(blocks, d);
    NamesPlain(names);
    AddLinkAppends(names, name);
    EncNil();
    assert AllPlain(names + [name]);
    LinesStorable(names + [name]);
  }

  /** When removing the name by its first match takes that name only. */
  ghost predicate NameFirst(names: seq<string>, name: string) {
    forall m :: 0 <= m < |names| && names[m] == name ==> RemovesName(names, m)
  }

  lemma {:induction false} DropNameIs(names: seq<string>, m: nat)
    requires m < |names| && forall k :: 0 <= k < m ==> names[k] != names[m]
    ensures DropName(names, names[m]) == names[..m] + names[m + 1..]
  {
    if m > 0 {
      DropNameIs(names[1..], m - 1);
      assert names[..m] == [names[0]] + names[1..][..m - 1];
      assert names[m + 1..] == names[1..][m..];
    }
  }

  lemma LinkRemoved(blocks: Blocks, d: nat, name: string)
    requires LinksText(blocks, d) && name in Links(blocks, d)
    ensures (d, 0) in blocks
    ensures var text := CStr(blocks[(d, 0)]); Contains(text, name) && StrStr(text, name).value + |name| + 1 <= |text|
    ensures NameFirst(Links(blocks, d), name) <==>
            RemoveLink(CStr(blocks[(d, 0)]), name) == Enc(DropName(Links(blocks, d), name))
    ensures Storable(Enc(DropName(Links(blocks, d), name)))
  {
    hide Enc, CStr, Split, RemoveLink, RemovesName, OccursAt, Contains, StrStr;
    var names := Links(blocks, d);
    assert names != [];
    var m :| 0 <= m < |names| && names[m] == name;
    NamesPlain(names);
    RemoveLinkExactly(names, m);
    DropNameIs(names, m);
    DropNameAt(names, name);
    NamesPlain(DropName(names, name));
    LinesStorable(DropName(names, name));
    if RemovesName(names, m) {
      forall k | 0 <= k < |names| && names[k] == name ensures RemovesName(names, k) {
        assert k == m;
      }
    }
  }

  // The table

  /** When removing the path by its first match takes that entry only. */
  ghost predicate EntryFirst(t: seq<Item>, path: string) {
    forall m :: 0 <= m < |t| && t[m].key == path ==> RemovesEntry(t, m)
  }

  lemma EntryRemoved(t: seq<Item>, path: string)
    requires TablePaths(t) && path in ToMap(t)
    ensures Terminated(EncTable(t), path) && RemovePath(EncTable(t), path).Some?
    ensures EntryFirst(t, path) <==> RemovePath(EncTable(t), path) == Some(EncTable(Without(t, path)))
    ensures |RemovePath(EncTable(t), path).value| < |EncTable(t)|
    ensures TablePaths(Without(t, path))
  {
    hide EncTable, RemovesEntry, Contains, StrStr, OccursAt, ToMap, RemovePath, Terminated;
    var m := MapLookup(t, path);
    RemoveExactly(t, m);
    WithoutAt(t, m);
    TableContains(t, m);
    Shorter(EncTable(t), path);
    RemovedDistinct(t, m);
    if RemovesEntry(t, m) {
      forall k | 0 <= k < |t| && t[k].key == path ensures RemovesEntry(t, k) {
        assert k == m;
      }
    }
  }

  lemma TableContains(t: seq<Item>, m: nat)
    requires TablePaths(t) && m < |t|
    ensures Contains(EncTable(t), t[m].key)
  {
    hide Enc, TableLines, FirstLine, OccursAt;
    TableFacts(t, m);
    StrStrEnc(TableLines(t), t[m].key);
  }

  lemma Shorter(table: string, path: string)
    requires Terminated(table, path) && Contains(table, path) && path != ""
    ensures RemovePath(table, path).Some? && |RemovePath(table, path).value| < |table|
  {
  }

  /** The value delete_inode stores: the new table, and whatever lies behind it up to the old length. */
  lemma TableBehind(t: seq<Item>, behind: string)
    requires TablePaths(t)
    ensures CStr(EncTable(t) + "\0" + behind) == EncTable(t) && Storable(EncTable(t) + "\0" + behind)
  {
    hide CStr, EncTable;
    TableStorable(t);
    CStrTerminated(EncTable(t), behind);
  }
}
