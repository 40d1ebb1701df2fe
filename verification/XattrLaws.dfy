/** The laws of the extended attribute calls on the text of a record: when the text search is the map lookup, what is
    read back after setting and removing, when the scans stay inside the text, and what names of their own keep
    apart from the attributes of the file system. */
module XattrLaws {
  import opened CStrings
  import opened Lines
  import opened DataParser
  import opened Records
  import opened Xattrs

  // Where the scans end

  /** get_attr_value_str and modify_attr_str find their newline unless the first line with the name is the last one
      and ends with it. */
  predicate ScanEnds(r: seq<Attr>, name: string) {
    var ls, j := Flat(r), FirstLine(Flat(r), name);
    j == |ls| || j + 1 < |ls| || !EndsAt(ls[j], name)
  }

  lemma TerminatedExactly(r: seq<Attr>, name: string)
    requires RecordOk(r) && Plain(name) && name != ""
    ensures Terminated(EncRec(r), name) <==> ScanEnds(r, name)
  {
    hide Enc, Flat, Get, Set, Terminated, FirstLine, StrStr, OccursAt;
    var ls, j := Flat(r), FirstLine(Flat(r), name);
    RecordPlain(r);
    if j == |ls| {
      AbsentText(r, name);
    } else {
      LandingIn(ls, name);
      if StrStr(ls[j], name).value + |name| < |ls[j]| {
        InLineMiddle(ls, name, "");
      } else if j + 1 < |ls| {
        AtLineEnd(ls, name, "");
      } else if Terminated(Enc(ls), name) {
        NotLast(ls, name);
        assert false;
      }
    }
  }

  /** remove_extended_attr finds its two newlines unless the first line with the name is the last one. */
  lemma TwoLinesExactly(r: seq<Attr>, name: string)
    requires RecordOk(r) && Plain(name) && name != ""
    ensures TwoLinesFollow(EncRec(r), name) <==> FirstLine(Flat(r), name) + 1 != 2 * |r|
  {
    hide Enc, Flat, TwoLinesFollow, RemoveExtendedAttr, FirstLine, StrStr, OccursAt, Cut;
    var ls, j := Flat(r), FirstLine(Flat(r), name);
    RecordPlain(r);
    if j == |ls| {
      AbsentRemoval(r, name);
    } else {
      LandingIn(ls, name);
      if j + 1 < |ls| {
        RemoveTwoLines(ls, name, j, StrStr(ls[j], name).value);
      } else if TwoLinesFollow(Enc(ls), name) {
        TwoLinesLeft(ls, name);
        assert false;
      }
    }
  }

  // Reading

  /** What the search reads after its first match in line j: the next line, or the rest of that line less one
      character. */
  function FoundText(r: seq<Attr>, name: string): string
    requires FirstLine(Flat(r), name) < 2 * |r| && ScanEnds(r, name)
  {
    var ls, j := Flat(r), FirstLine(Flat(r), name);
    if EndsAt(ls[j], name) then ls[j + 1] else (LandingIn(ls, name); ls[j][StrStr(ls[j], name).value + |name| + 1..])
  }

  lemma FoundAt(r: seq<Attr>, name: string)
    requires FirstLine(Flat(r), name) < 2 * |r| && ScanEnds(r, name)
    ensures var ls, j := Flat(r), FirstLine(Flat(r), name);
            && Contains(ls[j], name) && StrStr(ls[j], name).value + |name| <= |ls[j]|
            && (EndsAt(ls[j], name) <==> StrStr(ls[j], name).value + |name| == |ls[j]|)
            && (EndsAt(ls[j], name) ==> j + 1 < |ls| && FoundText(r, name) == ls[j + 1])
            && (!EndsAt(ls[j], name) ==> FoundText(r, name) == ls[j][StrStr(ls[j], name).value + |name| + 1..])
  {
    hide Flat, StrStr, FirstLine;
    LandingIn(Flat(r), name);
  }

  lemma GetIsFound(r: seq<Attr>, name: string)
    requires RecordOk(r) && Plain(name) && name != "" && ScanEnds(r, name)
    ensures Terminated(EncRec(r), name)
    ensures Get(EncRec(r), name) == if FirstLine(Flat(r), name) == 2 * |r| then None else Some(FoundText(r, name))
  {
    hide Enc, Flat, Get, Set, Terminated, FirstLine, StrStr, OccursAt, FoundText, EndsAt, ScanEnds;
    var ls, j := Flat(r), FirstLine(Flat(r), name);
    RecordPlain(r);
    if j == |ls| {
      AbsentText(r, name);
    } else {
      FoundAt(r, name);
      if EndsAt(ls[j], name) {
        AtLineEnd(ls, name, "");
      } else {
        InLineMiddle(ls, name, "");
      }
    }
  }

  /** The first match is another line's, and the text after it happens to be the attribute's value. */
  predicate LuckyGet(r: seq<Attr>, name: string) {
    && FirstLine(Flat(r), name) < 2 * |r| && ScanEnds(r, name)
    && Position(r, name) < |r| && r[Position(r, name)].value == FoundText(r, name)
  }

  /** getxattr on the text is the lookup in the map if and only if the name is unambiguous or the text after its first
      match happens to be the value. */
  lemma GetExactly(r: seq<Attr>, name: string)
    requires RecordOk(r) && Plain(name) && name != "" && ScanEnds(r, name)
    ensures Terminated(EncRec(r), name)
    ensures Get(EncRec(r), name) == Lookup(r, name) <==> Unambiguous(r, name) || LuckyGet(r, name)
  {
    hide Enc, Flat, Get, Terminated, FirstLine, FoundText, Contains, ScanEnds;
    GetIsFound(r, name);
    if Unambiguous(r, name) {
      GetIsLookup(r, name);
    }
  }

  // Setting and reading back

  /** After setting, reading gives the value up to its first newline, whether the name was in the text or not; that is
      the value exactly when it holds no newline. */
  lemma SetThenGetXattr(r: seq<Attr>, name: string, value: string)
    requires RecordOk(r) && Plain(name) && name != "" && Terminated(EncRec(r), name)
    ensures var d := SetXattr(EncRec(r), name, value); Terminated(d, name) && Get(d, name) == Some(Head(value))
    ensures Get(SetXattr(EncRec(r), name, value), name) == Some(value) <==> '\n' !in value
  {
    hide Enc, Flat, Get, Set, Terminated, StrStr, Head, FirstLine, Pair, OccursAt;
    HeadIsAll(value);
    if FirstLine(Flat(r), name) == 2 * |r| {
      AbsentText(r, name);
      StrStrBeyond(Flat(r), Pair(name, value), name);
      PairFirst(name, value, "");
      assert Pair(name, value) + "" == Pair(name, value);
      assert EncRec(r) + Pair(name, value) + "" == EncRec(r) + Pair(name, value);
      GetPair(EncRec(r), name, value, "");
    } else {
      ContainedSomewhere(r, name);
      ContainedIsGot(EncRec(r), name);
      SetThenGet(EncRec(r), name, value);
    }
  }

  lemma ContainedSomewhere(r: seq<Attr>, name: string)
    requires RecordOk(r) && Plain(name) && name != "" && FirstLine(Flat(r), name) < 2 * |r|
    ensures Contains(EncRec(r), name)
  {
    hide Enc, Flat, OccursAt, FirstLine;
    StrStrEnc(Flat(r), name);
  }

  lemma ContainedIsGot(data: string, name: string)
    requires Terminated(data, name)
    ensures Contains(data, name) <==> Get(data, name) != None
  {
  }

  /** Setting keeps the name unambiguous. */
  lemma PutUnambiguous(r: seq<Attr>, name: string, value: string)
    requires Unambiguous(r, name)
    ensures Unambiguous(Put(r, name, value), name)
  {
    hide Flat, Contains;
    var i, p := Position(r, name), Put(r, name, value);
    UnambiguousPosition(r, name);
    forall k | 0 <= k < 2 * i ensures !Contains(Flat(p)[k], name) {
      FlatAt(r, k / 2);
      FlatAt(p, k / 2);
      assert !Contains(Flat(r)[k], name);
    }
    FlatAt(p, i);
    StrStrSelf(name);
    FirstLineIs(Flat(p), name, 2 * i);
  }

  /** After a removal that takes exactly its attribute, reading finds nothing if and only if no other line holds the
      name. */
  lemma RemoveThenGet(r: seq<Attr>, name: string)
    requires RecordOk(r) && NamesDistinct(r) && Plain(name) && name != ""
    requires RemovesAttr(r, name) && ScanEnds(Drop(r, name), name)
    ensures TwoLinesFollow(EncRec(r), name) && Terminated(RemoveXattr(EncRec(r), name), name)
    ensures Get(RemoveXattr(EncRec(r), name), name) == None <==>
        FirstLine(Flat(Drop(r, name)), name) == 2 * |Drop(r, name)|
    ensures Lookup(Drop(r, name), name) == None
  {
    hide Enc, Flat, Get, Terminated, FirstLine, StrStr, RemoveXattr, RemovesAttr, Drop, TwoLinesFollow, ScanEnds,
         Lookup;
    RemovalFits(r, name);
    RemoveXattrExactly(r, name);
    DropOk(r, name);
    GetIsFound(Drop(r, name), name);
    DropLookup(r, name, name);
  }

  lemma DropOk(r: seq<Attr>, name: string)
    requires RecordOk(r)
    ensures RecordOk(Drop(r, name)) && (NamesDistinct(r) ==> NamesDistinct(Drop(r, name)))
  {
  }

  lemma PutOk(r: seq<Attr>, name: string, value: string)
    requires RecordOk(r) && AttrOk(Attr(name, value))
    ensures RecordOk(Put(r, name, value)) && (NamesDistinct(r) ==> NamesDistinct(Put(r, name, value)))
  {
  }

  /** Where removal is right, the lines it cuts are complete. */
  lemma RemovalFits(r: seq<Attr>, name: string)
    requires RecordOk(r) && Plain(name) && name != "" && RemovesAttr(r, name)
    ensures TwoLinesFollow(EncRec(r), name)
  {
    hide Flat, FirstLine, TwoLinesFollow, EndsAt, UpTo;
    TwoLinesExactly(r, name);
  }

  // Behind lines without the name

  /** Behind lines that do not hold the name, every call works on the rest of the text alone. */
  lemma BeyondOwn(ls: seq<string>, t: string, name: string, value: string)
    requires Plain(name) && name != "" && FirstLine(ls, name) == |ls|
    ensures Terminated(Enc(ls) + t, name) <==> Terminated(t, name)
    ensures Terminated(t, name) ==>
              && Get(Enc(ls) + t, name) == Get(t, name)
              && SetXattr(Enc(ls) + t, name, value) == Enc(ls) + SetXattr(t, name, value)
    ensures TwoLinesFollow(Enc(ls) + t, name) <==> TwoLinesFollow(t, name)
    ensures TwoLinesFollow(t, name) ==> RemoveXattr(Enc(ls) + t, name) == Enc(ls) + RemoveXattr(t, name)
  {
    hide Enc, StrStr, SetXattr, RemoveXattr, Terminated, TwoLinesFollow, Get, FirstLine;
    StrStrBeyond(ls, t, name);
    GetBehind(Enc(ls), t, name, value);
    RemoveBehind(Enc(ls), t, name);
  }

  lemma Slices(a: string, t: string, o: nat, e: nat)
    requires o <= |t| && e <= |t|
    ensures (a + t)[..|a| + o] == a + t[..o] && (a + t)[|a| + e..] == t[e..]
  {
  }

  lemma Slice(a: string, t: string, o: nat, e: nat)
    requires o <= e <= |t|
    ensures (a + t)[|a| + o..|a| + e] == t[o..e]
  {
  }

  lemma SetJoin(a: string, t: string, o: nat, pair: string, e: nat)
    requires o <= |t| && e <= |t|
    ensures (a + t)[..|a| + o] + pair + (a + t)[|a| + e..] == a + (t[..o] + pair + t[e..])
  {
    Slices(a, t, o, e);
    assert (a + t[..o]) + pair + t[e..] == a + (t[..o] + pair + t[e..]);
  }

  lemma CutJoin(a: string, t: string, o: nat, e: nat)
    requires o <= |t| && e <= |t|
    ensures (a + t)[..|a| + o] + (a + t)[|a| + e..] == a + (t[..o] + t[e..])
  {
    Slices(a, t, o, e);
    assert (a + t[..o]) + t[e..] == a + (t[..o] + t[e..]);
  }

  /** The calls in terms of where the match and the newlines are. */
  lemma ScanShort(t: string, name: string, o: nat)
    requires StrStr(t, name) == Some(o)
    ensures Terminated(t, name) <==> o + |name| + 1 <= |t| && Find(t, '\n', o + |name| + 1) < |t|
  {
    hide StrStr, Find;
  }

  lemma ScanAt(t: string, name: string, value: string, o: nat, start: nat, end: nat)
    requires StrStr(t, name) == Some(o) && Terminated(t, name)
    requires start == o + |name| + 1 <= |t| && end == Find(t, '\n', start)
    ensures end < |t| && Get(t, name) == Some(t[start..end])
    ensures SetXattr(t, name, value) == t[..o] + Pair(name, value) + t[end + 1..]
  {
    hide StrStr, Find, Pair;
    assert Get(t, name) != None;
  }

  lemma CutShort(t: string, name: string, o: nat)
    requires StrStr(t, name) == Some(o)
    ensures o <= |t|
    ensures TwoLinesFollow(t, name) <==> Find(t, '\n', o) < |t| && Find(t, '\n', Find(t, '\n', o) + 1) < |t|
  {
    hide StrStr, Find;
    StrStrFits(t, name);
  }

  lemma CutAt(t: string, name: string, o: nat, last: nat)
    requires StrStr(t, name) == Some(o) && TwoLinesFollow(t, name) && o <= |t|
    requires last == Find(t, '\n', Find(t, '\n', o) + 1)
    ensures last < |t| && RemoveXattr(t, name) == t[..o] + t[last + 1..]
  {
    hide StrStr, Find;
  }

  lemma GetBehind(a: string, t: string, name: string, value: string)
    requires StrStr(a + t, name) == match StrStr(t, name) case None => None case Some(o) => Some(|a| + o)
    ensures Terminated(a + t, name) <==> Terminated(t, name)
    ensures Terminated(t, name) ==>
              && Get(a + t, name) == Get(t, name)
              && SetXattr(a + t, name, value) == a + SetXattr(t, name, value)
  {
    if StrStr(t, name) == None {
      assert a + t + Pair(name, value) == a + (t + Pair(name, value));
    } else {
      GetSetBehind(a, t, StrStr(t, name).value, name, value);
    }
  }

  lemma GetSetBehind(a: string, t: string, o: nat, name: string, value: string)
    requires StrStr(t, name) == Some(o) && StrStr(a + t, name) == Some(|a| + o)
    ensures Terminated(a + t, name) <==> Terminated(t, name)
    ensures Terminated(t, name) ==>
              && Get(a + t, name) == Get(t, name)
              && SetXattr(a + t, name, value) == a + SetXattr(t, name, value)
  {
    hide StrStr, Find, Pair, Terminated, Get, SetXattr;
    ScanShort(t, name, o);
    ScanShort(a + t, name, |a| + o);
    var start := o + |name| + 1;
    if start <= |t| {
      FindShift(a, t, '\n', start);
      var end := Find(t, '\n', start);
      if end < |t| {
        ScanAt(t, name, value, o, start, end);
        ScanAt(a + t, name, value, |a| + o, |a| + start, |a| + end);
        Slice(a, t, start, end);
        SetJoin(a, t, o, Pair(name, value), end + 1);
      }
    }
  }

  lemma RemoveBehind(a: string, t: string, name: string)
    requires StrStr(a + t, name) == match StrStr(t, name) case None => None case Some(o) => Some(|a| + o)
    ensures TwoLinesFollow(a + t, name) <==> TwoLinesFollow(t, name)
    ensures TwoLinesFollow(t, name) ==> RemoveXattr(a + t, name) == a + RemoveXattr(t, name)
  {
    if StrStr(t, name).Some? {
      CutBehind(a, t, StrStr(t, name).value, name);
    }
  }

  lemma CutBehind(a: string, t: string, o: nat, name: string)
    requires StrStr(t, name) == Some(o) && StrStr(a + t, name) == Some(|a| + o)
    ensures TwoLinesFollow(a + t, name) <==> TwoLinesFollow(t, name)
    ensures TwoLinesFollow(t, name) ==> RemoveXattr(a + t, name) == a + RemoveXattr(t, name)
  {
    hide StrStr, Find, TwoLinesFollow, RemoveXattr;
    CutShort(t, name, o);
    CutShort(a + t, name, |a| + o);
    FindShift(a, t, '\n', o);
    var end := Find(t, '\n', o);
    if end < |t| {
      FindShift(a, t, '\n', end + 1);
      var last := Find(t, '\n', end + 1);
      if last < |t| {
        CutAt(t, name, o, last);
        CutAt(a + t, name, |a| + o, |a| + last);
        CutJoin(a, t, o, last + 1);
      }
    }
  }

  lemma StrStrFits(t: string, name: string)
    requires StrStr(t, name).Some?
    ensures StrStr(t, name).value <= |t|
  {
  }

  // The names of the file system

  /** The lines of a record that are the file system's: the seven attributes, and st_content of a symbolic link. */
  function OwnLines(n: Inode, ino: nat, link: bool): seq<string> {
    Flat(n.Fixed(ino)) + if link then ["st_content"] else []
  }

  /** The name occurs in none of the file system's own lines. */
  predicate Foreign(n: Inode, ino: nat, link: bool, name: string) {
    Plain(name) && name != "" && FirstLine(OwnLines(n, ino, link), name) == |OwnLines(n, ino, link)|
  }

  /** A name with a dot, as every namespace prefix has one, is foreign to every record. */
  lemma DottedIsForeign(n: Inode, ino: nat, link: bool, name: string)
    requires Plain(name) && '.' in name
    ensures Foreign(n, ino, link, name)
  {
    hide Inode.Fixed, Contains;
    var ls := OwnLines(n, ino, link);
    forall k | 0 <= k < |ls| ensures !Contains(ls[k], name) {
      if k < 14 {
        FlatAt(n.Fixed(ino), k / 2);
        NoDotInFixed(n, ino, k / 2);
        NotWithout(ls[k], name, '.');
      } else {
        NotWithout("st_content", name, '.');
      }
    }
    FirstLineIs(ls, name, |ls|);
  }

  lemma NoDotInFixed(n: Inode, ino: nat, k: nat)
    requires k < 7
    ensures '.' !in n.Fixed(ino)[k].name && '.' !in n.Fixed(ino)[k].value
  {
    hide Dec;
    FieldAt(n, ino, FieldOfRank(k));
    NoDotInNumeral(n.Numeric(ino, FieldOfRank(k)));
  }

  lemma NoDotInNumeral(n: nat)
    ensures '.' !in Dec(n)
  {
    assert !IsDigit('.');
  }

  lemma FirstLinePrefix(a: seq<string>, b: seq<string>, name: string)
    requires FirstLine(a + b, name) == |a + b|
    ensures FirstLine(a, name) == |a| && FirstLine(b, name) == |b|
  {
    forall k | 0 <= k < |a| ensures !Contains(a[k], name) {
      assert (a + b)[k] == a[k];
    }
    forall k | 0 <= k < |b| ensures !Contains(b[k], name) {
      assert (a + b)[|a| + k] == b[k];
    }
    FirstLineIs(a, name, |a|);
    FirstLineIs(b, name, |b|);
  }

  /** Under a foreign name every call works on the tail of the record alone. */
  lemma OnTail(n: Inode, ino: nat, link: bool, name: string, value: string)
    requires Foreign(n, ino, link, name)
    ensures Terminated(n.Text(ino), name) <==> Terminated(n.tail, name)
    ensures Terminated(n.tail, name) ==>
              && Get(n.Text(ino), name) == Get(n.tail, name)
              && SetXattr(n.Text(ino), name, value) == n.(tail := SetXattr(n.tail, name, value)).Text(ino)
    ensures TwoLinesFollow(n.Text(ino), name) <==> TwoLinesFollow(n.tail, name)
    ensures TwoLinesFollow(n.tail, name) ==>
              RemoveXattr(n.Text(ino), name) == n.(tail := RemoveXattr(n.tail, name)).Text(ino)
  {
    hide Enc, Flat, SetXattr, RemoveXattr, Terminated, TwoLinesFollow, Get, FirstLine;
    FirstLinePrefix(Flat(n.Fixed(ino)), if link then ["st_content"] else [], name);
    BeyondOwn(Flat(n.Fixed(ino)), n.tail, name, value);
  }

  /** A link's record keeps its st_content line. */
  lemma ContentStays(tail: string, name: string, value: string)
    requires Plain(name) && name != "" && !Contains("st_content", name)
    requires "st_content\n" <= tail
    ensures Terminated(tail, name) ==> "st_content\n" <= SetXattr(tail, name, value)
    ensures TwoLinesFollow(tail, name) ==> "st_content\n" <= RemoveXattr(tail, name)
  {
    hide SetXattr, RemoveXattr, Terminated, TwoLinesFollow, Get, Contains;
    EncOne("st_content");
    assert Enc(["st_content"]) == "st_content\n";
    assert tail == "st_content\n" + tail[11..];
    FirstLineIs(["st_content"], name, 1);
    BeyondOwn(["st_content"], tail[11..], name, value);
  }

  /** Neither call brings a NUL into the text. */
  lemma NoNulBrought(t: string, name: string, value: string)
    requires '\0' !in t && Plain(name) && '\0' !in value
    ensures Terminated(t, name) ==> '\0' !in SetXattr(t, name, value)
    ensures TwoLinesFollow(t, name) ==> '\0' !in RemoveXattr(t, name)
  {
  }

  // Well-formed records

  /** The tail of the record is the text of these attributes, with distinct names. */
  ghost predicate Holds(n: Inode, ext: seq<Attr>) {
    n.tail == EncRec(ext) && RecordOk(ext) && NamesDistinct(ext)
  }

  /** On a well-formed record setxattr is Put, and keeps it well formed, if and only if the name is unambiguous or
      nothing changes. */
  lemma SetKeepsRecord(n: Inode, ext: seq<Attr>, name: string, value: string)
    requires Holds(n, ext) && AttrOk(Attr(name, value)) && Terminated(n.tail, name)
    ensures Holds(n.(tail := SetXattr(n.tail, name, value)), Put(ext, name, value)) <==>
            Unambiguous(ext, name) || IdleSet(ext, name, value)
  {
    hide EncRec, SetXattr, Terminated, Put, Unambiguous, IdleSet;
    SetXattrExactly(ext, name, value);
    PutOk(ext, name, value);
  }

  /** On a well-formed record removexattr is Drop, and keeps it well formed, if and only if RemovesAttr holds. */
  lemma RemoveKeepsRecord(n: Inode, ext: seq<Attr>, name: string)
    requires Holds(n, ext) && Plain(name) && name != "" && TwoLinesFollow(n.tail, name)
    ensures Holds(n.(tail := RemoveXattr(n.tail, name)), Drop(ext, name)) <==> RemovesAttr(ext, name)
  {
    hide EncRec, RemoveXattr, TwoLinesFollow, Drop, RemovesAttr;
    RemoveXattrExactly(ext, name);
    DropOk(ext, name);
  }
}
