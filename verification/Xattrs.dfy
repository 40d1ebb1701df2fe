/** Extended attributes as main.c keeps them in the record text, against an ordered map of names and values. */
module Xattrs {
  import opened CStrings
  import opened Lines
  import opened DataParser
  import opened Records

  // The ordered map

  /** The position of the attribute with the name, or the length. */
  function Position(r: seq<Attr>, name: string): (i: nat)
    ensures i <= |r| && (i < |r| ==> r[i].name == name)
    ensures forall m :: 0 <= m < i ==> r[m].name != name
  {
    if r == [] || r[0].name == name then 0 else 1 + Position(r[1..], name)
  }

  function Lookup(r: seq<Attr>, name: string): Option<string> {
    var i := Position(r, name);
    if i < |r| then Some(r[i].value) else None
  }

  /** A new value for the attribute, or a new attribute at the end. */
  function Put(r: seq<Attr>, name: string, value: string): seq<Attr> {
    var i := Position(r, name);
    if i < |r| then r[i := Attr(name, value)] else r + [Attr(name, value)]
  }

  function Drop(r: seq<Attr>, name: string): seq<Attr> {
    var i := Position(r, name);
    if i < |r| then r[..i] + r[i + 1..] else r
  }

  lemma PositionIs(r: seq<Attr>, name: string, i: nat)
    requires i <= |r| && (i < |r| ==> r[i].name == name) && forall m :: 0 <= m < i ==> r[m].name != name
    ensures Position(r, name) == i
  {
    var k := Position(r, name);
    assert !(k < i) && !(i < k);
  }

  /** The laws of the map: the value put is found, and nothing else changes. */
  lemma PutLookup(r: seq<Attr>, name: string, value: string, other: string)
    ensures Lookup(Put(r, name, value), other) == if other == name then Some(value) else Lookup(r, other)
  {
    var i, p, k := Position(r, name), Put(r, name, value), Position(r, other);
    if other == name {
      PositionIs(p, name, i);
    } else if k < |r| {
      PositionIs(p, other, k);
    } else {
      PositionIs(p, other, |p|);
    }
  }

  /** The attribute dropped is gone, and nothing else changes. */
  lemma DropLookup(r: seq<Attr>, name: string, other: string)
    requires NamesDistinct(r)
    ensures Lookup(Drop(r, name), other) == if other == name then None else Lookup(r, other)
  {
    var i, p, k := Position(r, name), Drop(r, name), Position(r, other);
    if i < |r| {
      assert forall m :: 0 <= m < |p| ==> p[m] == if m < i then r[m] else r[m + 1];
      PositionIs(p, other, if other == name then |p| else if k < i then k else k - 1);
    }
  }

  ghost predicate NamesDistinct(r: seq<Attr>) {
    forall i, k :: 0 <= i < k < |r| ==> r[i].name != r[k].name
  }

  // The text operations

  /** The text has the name as an attribute name before it has it anywhere else, or not at all. */
  predicate Unambiguous(r: seq<Attr>, name: string) {
    var j := FirstLine(Flat(r), name);
    j == 2 * |r| || (j % 2 == 0 && r[j / 2].name == name)
  }

  /** memcached_setxattr on the record text. */
  function SetXattr(data: string, name: string, value: string): string
    requires Terminated(data, name)
  {
    if Get(data, name) == None then data + Pair(name, value) else Set(data, name, value).value
  }

  lemma UnambiguousPosition(r: seq<Attr>, name: string)
    requires Unambiguous(r, name)
    ensures FirstLine(Flat(r), name) == 2 * Position(r, name)
    ensures Position(r, name) < |r| ==> ClearBefore(r, Position(r, name))
  {
    var ls, j := Flat(r), FirstLine(Flat(r), name);
    StrStrSelf(name);
    forall m | 0 <= m < j / 2 ensures r[m].name != name && !Contains(r[m].name, name) && !Contains(r[m].value, name) {
      FlatAt(r, m);
      assert !Contains(ls[2 * m], name) && !Contains(ls[2 * m + 1], name);
    }
    PositionIs(r, name, j / 2);
  }

  /** Under an unambiguous name the text search is the map lookup. */
  lemma GetIsLookup(r: seq<Attr>, name: string)
    requires RecordOk(r) && Plain(name) && name != "" && Unambiguous(r, name)
    ensures Terminated(EncRec(r), name) && Get(EncRec(r), name) == Lookup(r, name)
  {
    hide Enc, Get, Set, Terminated, Unambiguous, ClearBefore, Flat;
    UnambiguousPosition(r, name);
    var i := Position(r, name);
    if i < |r| {
      AtAttr(r, i, "");
    } else {
      AbsentText(r, name);
    }
  }

  lemma AbsentText(r: seq<Attr>, name: string)
    requires RecordOk(r) && Plain(name) && name != "" && FirstLine(Flat(r), name) == 2 * |r|
    ensures Terminated(EncRec(r), name) && Get(EncRec(r), name) == None && StrStr(EncRec(r), name) == None
  {
    RecordPlain(r);
    StrStrEnc(Flat(r), name);
  }

  lemma AppendText(r: seq<Attr>, name: string, value: string)
    ensures EncRec(r) + Pair(name, value) == EncRec(r + [Attr(name, value)])
  {
    hide Enc;
    FlatConcat(r, [Attr(name, value)]);
    assert Flat([Attr(name, value)]) == [name, value];
    EncConcat(Flat(r), [name, value]);
    EncTwo(name, value);
  }

  /** The record of an inode, written out. */
  lemma RecordText(n: Inode, ino: nat)
    ensures n.Text(ino) ==
            Pair("st_ino", Dec(ino)) + Pair("st_mode", Dec(n.mode)) + Pair("st_uid", Dec(n.uid))
            + Pair("st_gid", Dec(n.gid)) + Pair("st_nlink", Dec(n.nlink)) + Pair("st_size", Dec(n.size))
            + Pair("st_blocks", Dec(n.blocks)) + n.tail
  {
    hide EncRec, Pair, Dec;
    var r := n.Fixed(ino);
    assert EncRec(r[..0]) == "" by { NoText(r); }
    assert "" + Pair("st_ino", Dec(ino)) == Pair("st_ino", Dec(ino));
    NextText(r, 0);
    NextText(r, 1);
    NextText(r, 2);
    NextText(r, 3);
    NextText(r, 4);
    NextText(r, 5);
    NextText(r, 6);
    assert r[..7] == r;
  }

  lemma NoText(r: seq<Attr>)
    ensures EncRec(r[..0]) == ""
  {
  }

  lemma NextText(r: seq<Attr>, k: nat)
    requires k < |r|
    ensures EncRec(r[..k + 1]) == EncRec(r[..k]) + Pair(r[k].name, r[k].value)
  {
    hide EncRec;
    AppendText(r[..k], r[k].name, r[k].value);
    assert r[..k + 1] == r[..k] + [Attr(r[k].name, r[k].value)];
  }

  /** Setting an attribute to the value it has already, found through an earlier line that ends with the name and
      happens to be followed by the same value. */
  predicate IdleSet(r: seq<Attr>, name: string, value: string) {
    var ls := Flat(r);
    var j := FirstLine(ls, name);
    && Lookup(r, name) == Some(value) && j + 1 < |ls| && ls[j + 1] == value
    && Contains(ls[j], name) && StrStr(ls[j], name).value + |name| == |ls[j]|
  }

  /** setxattr on the text is setting in the map exactly when the name is unambiguous (or nothing changes). */
  lemma SetXattrExactly(r: seq<Attr>, name: string, value: string)
    requires RecordOk(r) && AttrOk(Attr(name, value)) && Terminated(EncRec(r), name)
    ensures SetXattr(EncRec(r), name, value) == EncRec(Put(r, name, value)) <==>
            Unambiguous(r, name) || IdleSet(r, name, value)
  {
    if Unambiguous(r, name) {
      SetUnambiguous(r, name, value);
    } else {
      SetAmbiguous(r, name, value);
    }
  }

  lemma SetUnambiguous(r: seq<Attr>, name: string, value: string)
    requires RecordOk(r) && AttrOk(Attr(name, value)) && Unambiguous(r, name)
    ensures Terminated(EncRec(r), name) && SetXattr(EncRec(r), name, value) == EncRec(Put(r, name, value))
  {
    hide Enc, Get, Set, Terminated, Unambiguous, ClearBefore, Flat, EncRec, Pair;
    UnambiguousPosition(r, name);
    GetIsLookup(r, name);
    var i := Position(r, name);
    if i < |r| {
      AtAttr(r, i, value);
    } else {
      AppendText(r, name, value);
    }
  }

  lemma {:induction false} SetAmbiguous(r: seq<Attr>, name: string, value: string)
    requires RecordOk(r) && AttrOk(Attr(name, value)) && Terminated(EncRec(r), name) && !Unambiguous(r, name)
    ensures SetXattr(EncRec(r), name, value) == EncRec(Put(r, name, value)) <==> IdleSet(r, name, value)
  {
    hide Enc, Get, Set, Terminated, Flat, Put, Lookup, OccursAt, FirstLine, StrStr;
    var ls, j := Flat(r), FirstLine(Flat(r), name);
    RecordPlain(r);
    LandingIn(ls, name);
    PutLines(r, name, value);
    if StrStr(ls[j], name).value + |name| < |ls[j]| {
      InLineMiddle(ls, name, value);
      InsertedCount(ls, j, ls[j][..StrStr(ls[j], name).value] + name, value, Flat(Put(r, name, value)));
    } else {
      NotLast(ls, name);
      AtLineEnd(ls, name, value);
      NotThePosition(r, name);
      ReplaceVersusPut(r, name, value, j);
    }
  }

  lemma LandingIn(ls: seq<string>, name: string)
    requires FirstLine(ls, name) < |ls|
    ensures var j := FirstLine(ls, name); Contains(ls[j], name) && StrStr(ls[j], name).value + |name| <= |ls[j]|
  {
  }

  lemma PutLines(r: seq<Attr>, name: string, value: string)
    requires RecordOk(r) && AttrOk(Attr(name, value))
    ensures var ls := Flat(Put(r, name, value));
            AllPlain(ls) && (Lookup(r, name) != None ==> |ls| == |Flat(r)|)
                && (Lookup(r, name) == None ==> |ls| == |Flat(r)| + 2)
  {
    RecordPlain(Put(r, name, value));
  }

  lemma InsertedCount(ls: seq<string>, j: nat, k: string, v: string, other: seq<string>)
    requires AllPlain(ls) && j < |ls| && Plain(k) && Plain(v) && AllPlain(other) && |other| != |ls| + 1
    ensures Enc(ls[..j] + [k, v] + ls[j + 1..]) != Enc(other)
  {
    PlainParts(ls[..j], [k, v], ls[j + 1..]);
    LineCountsDiffer(ls[..j] + [k, v] + ls[j + 1..], other);
  }

  lemma PlainParts(a: seq<string>, b: seq<string>, c: seq<string>)
    requires AllPlain(a) && AllPlain(b) && AllPlain(c)
    ensures AllPlain(a + b + c)
  {
    hide Plain;
  }

  lemma NotLast(ls: seq<string>, name: string)
    requires AllPlain(ls) && Plain(name) && name != "" && FirstLine(ls, name) < |ls| && Terminated(Enc(ls), name)
    requires var j := FirstLine(ls, name); StrStr(ls[j], name).value + |name| == |ls[j]|
    ensures FirstLine(ls, name) + 1 < |ls|
  {
    hide Enc, OccursAt;
    var j := FirstLine(ls, name);
    StrStrEnc(ls, name);
    if j + 1 == |ls| {
      EncAround(ls, j);
      assert ls[j + 1..] == [];
      EndOfText(Enc(ls), Enc(ls[..j]), ls[j]);
    }
  }

  lemma EndOfText(data: string, before: string, l: string)
    requires data == before + l + "\n" + Enc([])
    ensures |data| == |before| + |l| + 1
  {
  }

  lemma ReplaceVersusPut(r: seq<Attr>, name: string, value: string, j: nat)
    requires RecordOk(r) && AttrOk(Attr(name, value)) && j + 1 < 2 * |r| && j != 2 * Position(r, name)
    ensures Enc(Flat(r)[j + 1 := value]) == EncRec(Put(r, name, value)) <==>
            Lookup(r, name) == Some(value) && Flat(r)[j + 1] == value
  {
    hide Enc, Flat, Put, Lookup;
    var ls, i := Flat(r), Position(r, name);
    RecordPlain(r);
    PutLine(r, name, value);
    if i == |r| {
      PutLines(r, name, value);
      LineCountsDiffer(ls[j + 1 := value], Flat(Put(r, name, value)));
    } else {
      TwoReplacements(ls, j + 1, 2 * i + 1, value);
    }
  }

  lemma PutLine(r: seq<Attr>, name: string, value: string)
    ensures var i := Position(r, name);
            if i == |r| then Lookup(r, name) == None
            else Lookup(r, name) == Some(Flat(r)[2 * i + 1]) && Flat(Put(r, name, value)) == Flat(r)[2 * i + 1 := value]
  {
    hide Flat;
    var i := Position(r, name);
    if i < |r| {
      FlatAt(r, i);
      FlatSet(r, i, value);
    }
  }

  lemma NotThePosition(r: seq<Attr>, name: string)
    requires !Unambiguous(r, name)
    ensures FirstLine(Flat(r), name) != 2 * Position(r, name)
  {
    hide Flat, FirstLine, Contains;
    var i := Position(r, name);
    assert 2 * i / 2 == i && 2 * i % 2 == 0;
  }

  lemma TwoReplacements(ls: seq<string>, p: nat, q: nat, v: string)
    requires AllPlain(ls) && Plain(v) && p != q && p < |ls| && q < |ls|
    ensures Enc(ls[p := v]) == Enc(ls[q := v]) <==> ls[p] == v && ls[q] == v
  {
    hide Enc;
    var a, b := ls[p := v], ls[q := v];
    assert AllPlain(a) && AllPlain(b);
    if Enc(a) == Enc(b) {
      EncInjective(a, b);
      assert a[p] == b[p] && a[q] == b[q];
    }
    if ls[p] == v && ls[q] == v {
      assert a == ls && b == ls;
    }
  }

  // Removal

  /** The matched line and one more are complete. */
  predicate TwoLinesFollow(data: string, name: string) {
    match StrStr(data, name)
    case None => true
    case Some(at) =>
      var keyEnd := Find(data, '\n', at);
      keyEnd < |data| && Find(data, '\n', keyEnd + 1) < |data|
  }

  /** remove_extended_attr: from the match to the end of the line after the matched one. */
  function RemoveExtendedAttr(data: string, name: string): Option<string>
    requires TwoLinesFollow(data, name)
  {
    match StrStr(data, name)
    case None => None
    case Some(at) =>
      var valueEnd := Find(data, '\n', Find(data, '\n', at) + 1);
      Some(data[..at] + data[valueEnd + 1..])
  }

  /** memcached_removexattr on the record text. */
  function RemoveXattr(data: string, name: string): string
    requires TwoLinesFollow(data, name)
  {
    match RemoveExtendedAttr(data, name)
    case None => data
    case Some(result) => result
  }

  lemma RemoveTwoLines(ls: seq<string>, name: string, j: nat, o: nat)
    requires AllPlain(ls) && Plain(name) && name != "" && j == FirstLine(ls, name) && j + 1 < |ls|
    requires StrStr(ls[j], name) == Some(o) && o <= |ls[j]|
    ensures TwoLinesFollow(Enc(ls), name) && RemoveExtendedAttr(Enc(ls), name) == Some(Cut(ls, j, ls[j][..o], j + 2))
  {
    hide Enc, OccursAt, FirstLine, StrStr, Around, TwoLinesFollow, RemoveExtendedAttr;
    StrStrEnc(ls, name);
    EncAround2(ls, j);
    assert Plain(ls[j]) && Plain(ls[j + 1]);
    RemoveFrom(Enc(ls), Enc(ls[..j]), ls[j], o, name, ls[j + 1], Enc(ls[j + 2..]));
  }

  lemma RemoveFrom(data: string, before: string, l: string, o: nat, name: string, v: string, rest: string)
    requires data == Around(before, l, v, rest) && '\n' !in l && '\n' !in v && o <= |l|
        && StrStr(data, name) == Some(|before| + o)
    ensures TwoLinesFollow(data, name) && RemoveExtendedAttr(data, name) == Some(before + l[..o] + rest)
  {
    hide StrStr, Around;
    CutTwo(data, before, l, o, v, rest);
  }

  lemma CutTwo(data: string, before: string, l: string, o: nat, v: string, rest: string)
    requires data == Around(before, l, v, rest) && '\n' !in l && '\n' !in v && o <= |l|
    ensures |data| == |before| + |l| + 1 + |v| + 1 + |rest|
    ensures Find(data, '\n', |before| + o) == |before| + |l|
    ensures Find(data, '\n', |before| + |l| + 1) == |before| + |l| + 1 + |v|
    ensures data[..|before| + o] + data[|before| + |l| + 1 + |v| + 1..] == before + l[..o] + rest
  {
    AroundAt(before, l, v, rest);
    assert data[|before| + |l|] == '\n' && forall i :: |before| <= i < |before| + |l| ==> data[i] == l[i - |before|];
    FindIs(data, '\n', |before| + o, |before| + |l|);
    assert data[..|before| + o] == before + l[..o];
  }

  /** When removing takes exactly the named attribute: the text has its name first as a name; or the attribute
      just before ends with the name and has the same value; or the value just before holds the name and from
      there on is the attribute's value. A name no attribute has must not occur at all. */
  predicate RemovesAttr(r: seq<Attr>, name: string) {
    var ls, i, j := Flat(r), Position(r, name), FirstLine(Flat(r), name);
    if i == |r| then j == 2 * |r|
    else
      || j == 2 * i
      || (j + 2 == 2 * i && EndsAt(ls[j], name) && r[i].value == r[i - 1].value)
      || (j + 1 == 2 * i && UpTo(ls[j], name) + r[i].value == ls[j])
  }

  predicate EndsAt(l: string, name: string) {
    Contains(l, name) && StrStr(l, name).value + |name| == |l|
  }

  function UpTo(l: string, name: string): string {
    match StrStr(l, name)
    case None => l
    case Some(o) => l[..o]
  }

  /** removexattr on the text is removal from the map exactly under RemovesAttr. */
  lemma RemoveXattrExactly(r: seq<Attr>, name: string)
    requires RecordOk(r) && NamesDistinct(r) && Plain(name) && name != "" && TwoLinesFollow(EncRec(r), name)
    ensures RemoveXattr(EncRec(r), name) == EncRec(Drop(r, name)) <==> RemovesAttr(r, name)
  {
    hide Enc, Flat, TwoLinesFollow, RemoveExtendedAttr, OccursAt, StrStr, Cut, FirstLine;
    var ls, i, j := Flat(r), Position(r, name), FirstLine(Flat(r), name);
    RecordPlain(r);
    if j == 2 * |r| {
      AbsentRemoval(r, name);
    } else {
      LandingIn(ls, name);
      var o := StrStr(ls[j], name).value;
      TwoLinesLeft(ls, name);
      RemoveTwoLines(ls, name, j, o);
      if i == |r| {
        CutIsShorter(ls, j, ls[j][..o], j + 2);
      } else {
        DropLines(r, i);
        PositionLine(r, name);
        if j == 2 * i {
          FlatAt(r, i);
          StrStrSelf(name);
          CutWhole(ls, j, j + 2);
          assert ls[j][..0] == "";
        } else {
          CutElsewhere(ls, j, ls[j][..o], 2 * i, 2);
          RemovalRepeats(r, i, j, o);
        }
      }
    }
  }

  lemma AbsentRemoval(r: seq<Attr>, name: string)
    requires RecordOk(r) && Plain(name) && name != "" && FirstLine(Flat(r), name) == 2 * |r|
    ensures Position(r, name) == |r| && TwoLinesFollow(EncRec(r), name) && RemoveExtendedAttr(EncRec(r), name) == None
  {
    AbsentText(r, name);
    var i := Position(r, name);
    if i < |r| {
      FlatAt(r, i);
      StrStrSelf(name);
    }
  }

  lemma TwoLinesLeft(ls: seq<string>, name: string)
    requires AllPlain(ls) && Plain(name) && name != "" && FirstLine(ls, name) < |ls| && TwoLinesFollow(Enc(ls), name)
    ensures FirstLine(ls, name) + 1 < |ls|
  {
    hide Enc, OccursAt;
    var j := FirstLine(ls, name);
    StrStrEnc(ls, name);
    if j + 1 == |ls| {
      EncAround(ls, j);
      assert ls[j + 1..] == [];
      EndOfText(Enc(ls), Enc(ls[..j]), ls[j]);
      LastNewline(Enc(ls), Enc(ls[..j]), ls[j], StrStr(ls[j], name).value);
    }
  }

  lemma LastNewline(data: string, before: string, l: string, o: nat)
    requires data == before + l + "\n" + Enc([]) && '\n' !in l && o <= |l|
    ensures Find(data, '\n', |before| + o) == |data| - 1
  {
    assert forall i :: |before| <= i < |before| + |l| ==> data[i] == l[i - |before|];
    FindIs(data, '\n', |before| + o, |before| + |l|);
  }

  lemma CutIsShorter(ls: seq<string>, j: nat, x: string, k: nat)
    requires j < k <= |ls| && |x| <= |ls[j]|
    ensures |Cut(ls, j, x, k)| < |Enc(ls)|
  {
    hide Enc;
    EncAround(ls, j);
    assert ls[j + 1..] == ls[j + 1..k] + ls[k..];
    EncConcat(ls[j + 1..k], ls[k..]);
  }

  lemma DropLines(r: seq<Attr>, i: nat)
    requires i < |r|
    ensures Flat(r[..i] + r[i + 1..]) == Flat(r)[..2 * i] + Flat(r)[2 * i + 2..]
  {
  }

  lemma PositionLine(r: seq<Attr>, name: string)
    requires Position(r, name) < |r|
    ensures FirstLine(Flat(r), name) <= 2 * Position(r, name)
  {
    FlatAt(r, Position(r, name));
    StrStrSelf(name);
  }

  /** Distinct names cannot repeat, so the lines in between are at most one attribute. */
  lemma RemovalRepeats(r: seq<Attr>, i: nat, j: nat, o: nat)
    requires NamesDistinct(r) && i < |r| && j < 2 * i
    requires StrStr(Flat(r)[j], r[i].name) == Some(o) && o + |r[i].name| <= |Flat(r)[j]|
        && OccursAt(Flat(r)[j], r[i].name, o)
    ensures var ls, name := Flat(r), r[i].name;
            (ls[j][..o] + ls[j + 2] == ls[j] && forall k :: j < k < 2 * i ==> ls[k + 2] == ls[k]) <==>
            ((j + 2 == 2 * i && EndsAt(ls[j], name) && r[i].value == r[i - 1].value)
             || (j + 1 == 2 * i && UpTo(ls[j], name) + r[i].value == ls[j]))
  {
    hide Flat, OccursAt, StrStr;
    var ls := Flat(r);
    FlatAt(r, i);
    FlatAt(r, i - 1);
    PrefixAndName(ls[j], o, r[i].name);
    if j + 2 < 2 * i {
      var m := j / 2 + 1;
      FlatAt(r, m);
      FlatAt(r, m + 1);
      assert ls[2 * m + 2] != ls[2 * m];
    }
  }

  lemma PrefixAndName(l: string, o: nat, name: string)
    requires OccursAt(l, name, o)
    ensures o <= |l| && (l[..o] + name == l <==> o + |name| == |l|)
  {
    assert l == l[..o] + name + l[o + |name|..];
  }
}
