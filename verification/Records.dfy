/** Attribute records: name and value lines. The seven st_ attributes come first, in the order create_inode writes
    them, then st_content of a symbolic link and the extended attributes. */
module Records {
  import opened CStrings
  import opened Lines
  import opened DataParser

  datatype Attr = Attr(name: string, value: string)

  function Flat(r: seq<Attr>): (ls: seq<string>)
    ensures |ls| == 2 * |r|
  {
    seq(2 * |r|, i requires 0 <= i < 2 * |r| => if i % 2 == 0 then r[i / 2].name else r[i / 2].value)
  }

  function EncRec(r: seq<Attr>): string {
    Enc(Flat(r))
  }

  predicate AttrOk(a: Attr) {
    Plain(a.name) && a.name != "" && Plain(a.value)
  }

  ghost predicate RecordOk(r: seq<Attr>) {
    forall i :: 0 <= i < |r| ==> AttrOk(r[i])
  }

  lemma RecordPlain(r: seq<Attr>)
    requires RecordOk(r)
    ensures AllPlain(Flat(r)) && CStr(EncRec(r)) == EncRec(r)
  {
    EncNoNul(Flat(r));
  }

  lemma FlatAt(r: seq<Attr>, i: nat)
    requires i < |r|
    ensures Flat(r)[2 * i] == r[i].name && Flat(r)[2 * i + 1] == r[i].value
  {
  }

  lemma FlatSet(r: seq<Attr>, i: nat, v: string)
    requires i < |r|
    ensures Flat(r)[2 * i + 1 := v] == Flat(r[i := Attr(r[i].name, v)])
  {
  }

  lemma FlatConcat(a: seq<Attr>, b: seq<Attr>)
    ensures Flat(a + b) == Flat(a) + Flat(b)
  {
  }

  /** No attribute before i holds the name of attribute i anywhere in its text. */
  predicate ClearBefore(r: seq<Attr>, i: nat)
    requires i < |r|
  {
    forall m :: 0 <= m < i ==> !Contains(r[m].name, r[i].name) && !Contains(r[m].value, r[i].name)
  }

  lemma ClearLine(r: seq<Attr>, i: nat)
    requires i < |r| && ClearBefore(r, i)
    ensures FirstLine(Flat(r), r[i].name) == 2 * i
  {
    var ls := Flat(r);
    FlatAt(r, i);
    StrStrSelf(r[i].name);
    forall k | 0 <= k < 2 * i ensures !Contains(ls[k], r[i].name) {
      FlatAt(r, k / 2);
    }
    FirstLineIs(ls, r[i].name, 2 * i);
  }

  /** Reading and setting an attribute whose name no earlier text holds. */
  lemma AtAttr(r: seq<Attr>, i: nat, v: string)
    requires RecordOk(r) && i < |r| && ClearBefore(r, i)
    ensures Terminated(EncRec(r), r[i].name) && Get(EncRec(r), r[i].name) == Some(r[i].value)
    ensures Set(EncRec(r), r[i].name, v) == Some(EncRec(r[i := Attr(r[i].name, v)]))
  {
    hide Flat, Enc, Terminated, Get, Set;
    RecordPlain(r);
    ClearLine(r, i);
    FlatAt(r, i);
    FlatSet(r, i, v);
    StrStrSelf(r[i].name);
    AtLineEnd(Flat(r), r[i].name, v);
  }

  // The fixed attributes

  datatype Field = Ino | Mode | Uid | Gid | Nlink | Size | Blocks | Content {
    function Name(): string {
      match this
      case Ino => "st_ino"
      case Mode => "st_mode"
      case Uid => "st_uid"
      case Gid => "st_gid"
      case Nlink => "st_nlink"
      case Size => "st_size"
      case Blocks => "st_blocks"
      case Content => "st_content"
    }

    /** The position in a record. */
    function Rank(): (k: nat)
      ensures k < 8
    {
      match this
      case Ino => 0
      case Mode => 1
      case Uid => 2
      case Gid => 3
      case Nlink => 4
      case Size => 5
      case Blocks => 6
      case Content => 7
    }
  }

  /** The names tell apart by their fourth character, and each has its underscore in third place only. */
  lemma NameShape(f: Field)
    ensures Plain(f.Name()) && |f.Name()| > 4 && f.Name()[2] == '_'
    ensures forall i :: 0 <= i < |f.Name()| && f.Name()[i] == '_' ==> i == 2
  {
  }

  lemma FourthCharacters(f: Field, g: Field)
    requires f.Name()[3] == g.Name()[3]
    ensures f == g
  {
  }

  lemma NoNameInName(f: Field, g: Field)
    requires f != g
    ensures !Contains(f.Name(), g.Name())
  {
    NameShape(f);
    NameShape(g);
    forall o: nat ensures !OccursAt(f.Name(), g.Name(), o) {
      if o + |g.Name()| <= |f.Name()| {
        var s := f.Name()[o..o + |g.Name()|];
        assert s[2] == f.Name()[o + 2] && s[3] == f.Name()[o + 3];
        if s == g.Name() {
          assert o == 0;
          FourthCharacters(f, g);
        }
      }
    }
  }

  lemma NoNameInNumeral(n: nat, g: Field)
    ensures !Contains(Dec(n), g.Name())
  {
    NameShape(g);
    forall o: nat ensures !OccursAt(Dec(n), g.Name(), o) {
      if o + |g.Name()| <= |Dec(n)| {
        assert Dec(n)[o..o + |g.Name()|][2] == Dec(n)[o + 2] != '_';
      }
    }
  }

  /** The seven attributes and, as text, whatever follows them: st_content of a symbolic link and the extended
      attributes. */
  datatype Inode = Inode(mode: nat, uid: nat, gid: nat, nlink: nat, size: nat, blocks: nat, tail: string) {

    /** The attributes create_inode writes and the file system keeps up to date. */
    function Fixed(ino: nat): (r: seq<Attr>)
      ensures |r| == 7
    {
      [Attr("st_ino", Dec(ino)), Attr("st_mode", Dec(mode)), Attr("st_uid", Dec(uid)), Attr("st_gid", Dec(gid)),
       Attr("st_nlink", Dec(nlink)), Attr("st_size", Dec(size)), Attr("st_blocks", Dec(blocks))]
    }

    function Text(ino: nat): string {
      EncRec(Fixed(ino)) + tail
    }

    function Numeric(ino: nat, f: Field): nat {
      match f
      case Ino => ino
      case Mode => mode
      case Uid => uid
      case Gid => gid
      case Nlink => nlink
      case Size => size
      case Blocks => blocks
      case Content => 0
    }

    function With(f: Field, v: nat): Inode {
      match f
      case Mode => this.(mode := v)
      case Uid => this.(uid := v)
      case Gid => this.(gid := v)
      case Nlink => this.(nlink := v)
      case Size => this.(size := v)
      case Blocks => this.(blocks := v)
      case Ino => this
      case Content => this
    }
  }

  lemma FieldAt(n: Inode, ino: nat, f: Field)
    requires f != Content
    ensures n.Fixed(ino)[f.Rank()] == Attr(f.Name(), Dec(n.Numeric(ino, f)))
  {
  }

  function FieldOfRank(k: nat): (f: Field)
    requires k < 8
    ensures f.Rank() == k
  {
    [Ino, Mode, Uid, Gid, Nlink, Size, Blocks, Content][k]
  }

  /** The name of a field is in no other fixed line. */
  lemma FieldsClear(n: Inode, ino: nat, f: Field, m: nat)
    requires m < 7 && m != f.Rank()
    ensures !Contains(n.Fixed(ino)[m].name, f.Name()) && !Contains(n.Fixed(ino)[m].value, f.Name())
  {
    hide Contains;
    var g := FieldOfRank(m);
    FieldAt(n, ino, g);
    NoNameInName(g, f);
    NoNameInNumeral(n.Numeric(ino, g), f);
  }

  lemma FixedOk(n: Inode, ino: nat)
    ensures RecordOk(n.Fixed(ino))
  {
    forall i | 0 <= i < 7 ensures AttrOk(n.Fixed(ino)[i]) {
      FieldAt(n, ino, FieldOfRank(i));
      NameShape(FieldOfRank(i));
    }
  }

  lemma WithField(n: Inode, ino: nat, f: Field, v: nat)
    requires f != Ino && f != Content
    ensures n.Fixed(ino)[f.Rank() := Attr(f.Name(), Dec(v))] == n.With(f, v).Fixed(ino)
  {
    hide Dec;
    match f
    case Mode =>
    case Uid =>
    case Gid =>
    case Nlink =>
    case Size =>
    case Blocks =>
  }

  /** get_attr_value and modify_attr on any of the seven attributes, whatever text follows them: reading gives the
      field, and setting gives the record of the inode with only that field changed. */
  lemma FieldLaws(n: Inode, ino: nat, f: Field, v: nat)
    requires f != Content
    ensures Contains(n.Text(ino), f.Name()) && Terminated(n.Text(ino), f.Name())
    ensures Get(n.Text(ino), f.Name()) == Some(Dec(n.Numeric(ino, f)))
    ensures f != Ino ==> Set(n.Text(ino), f.Name(), Dec(v)) == Some(n.With(f, v).Text(ino))
  {
    hide EncRec, Terminated, Get, Set, ClearBefore, Contains, Dec, Inode.Fixed;
    FieldAt(n, ino, f);
    FixedClear(n, ino, f);
    FixedOk(n, ino);
    AtAttr(n.Fixed(ino), f.Rank(), Dec(v));
    FoundIsContained(EncRec(n.Fixed(ino)), n.tail, f.Name());
    GetSetMore(EncRec(n.Fixed(ino)), n.tail, f.Name(), Dec(v));
    if f != Ino {
      WithField(n, ino, f, v);
    }
  }

  lemma FixedClear(n: Inode, ino: nat, f: Field)
    requires f != Content
    ensures n.Fixed(ino)[f.Rank()].name == f.Name() && ClearBefore(n.Fixed(ino), f.Rank())
  {
    hide Contains;
    FieldAt(n, ino, f);
    forall m | 0 <= m < f.Rank()
      ensures !Contains(n.Fixed(ino)[m].name, f.Name()) && !Contains(n.Fixed(ino)[m].value, f.Name())
    {
      FieldsClear(n, ino, f, m);
    }
  }

  lemma FoundIsContained(s: string, t: string, name: string)
    requires Terminated(s, name) && Get(s, name).Some?
    ensures Contains(s, name) && Contains(s + t, name)
  {
    StrStrMore(s, t, name);
  }

  /** No fixed line holds st_content. */
  lemma ContentFree(n: Inode, ino: nat)
    ensures FirstLine(Flat(n.Fixed(ino)), "st_content") == 14
  {
    hide Contains, Inode.Fixed;
    var ls := Flat(n.Fixed(ino));
    forall k | 0 <= k < 14 ensures !Contains(ls[k], "st_content") {
      FlatAt(n.Fixed(ino), k / 2);
      FieldsClear(n, ino, Content, k / 2);
    }
    FirstLineIs(ls, "st_content", 14);
  }

  /** st_content of a symbolic link, for every target and whatever follows: readlink gets the first line of the
      target, which is the target exactly when it holds no newline. */
  lemma ContentLaw(n: Inode, ino: nat, target: string, rest: string)
    requires n.tail == Pair("st_content", target) + rest
    ensures Terminated(n.Text(ino), "st_content") && Get(n.Text(ino), "st_content") == Some(Head(target))
    ensures Get(n.Text(ino), "st_content") == Some(target) <==> '\n' !in target
  {
    hide Enc, Flat, Get, Terminated, Head, StrStr, Inode.Fixed, FirstLine;
    var own := Enc(Flat(n.Fixed(ino)));
    ContentFree(n, ino);
    StrStrBeyond(Flat(n.Fixed(ino)), n.tail, "st_content");
    PairFirst("st_content", target, rest);
    assert n.Text(ino) == own + Pair("st_content", target) + rest;
    GetPair(own, "st_content", target, rest);
    HeadIsAll(target);
  }

  lemma PairFirst(name: string, value: string, rest: string)
    ensures StrStr(Pair(name, value) + rest, name) == Some(0)
  {
    var d := Pair(name, value) + rest;
    assert d[0..|name|] == name;
    StrStrIs(d, name, 0);
  }
}
