/** listxattr: the names after st_blocks, as strtok finds them. */
module XattrList {
  import opened CStrings
  import opened Lines
  import opened DataParser
  import opened Records
  import opened Xattrs

  /** What strtok hands out one by one: the pieces between newlines, empty ones skipped. */
  function Tokens(s: string): seq<string>
    decreases |s|
  {
    if s == "" then []
    else if s[0] == '\n' then Tokens(s[1..])
    else var n := Find(s, '\n', 0); [s[..n]] + Tokens(s[n..])
  }

  /** Every other token, each with a NUL after it. */
  function KeyText(ts: seq<string>, isKey: bool): string {
    if ts == [] then "" else (if isKey then ts[0] + "\0" else "") + KeyText(ts[1..], !isKey)
  }

  /** The buffer listxattr should fill. */
  function NameList(ext: seq<Attr>): string {
    if ext == [] then "" else ext[0].name + "\0" + NameList(ext[1..])
  }

  /** The keys of the lines after the one that follows "st_blocks". */
  function Listed(data: string): string
    requires Contains(data, "st_blocks") && Terminated(data, "st_blocks")
  {
    KeyText(Tokens(data[Find(data, '\n', StrStr(data, "st_blocks").value + 9 + 1) + 1..]), true)
  }

  /** get_extended_attrs_list */
  method GetExtendedAttrsList(data: string) returns (keys: string)
    requires Contains(data, "st_blocks") && Terminated(data, "st_blocks")
    ensures keys == Listed(data)
  {
    var attr := StrStr(data, "st_blocks").value + |"st_blocks"| + 1;
    attr := SkipLine(data, attr);
    keys := "";
    ghost var all := Tokens(data[attr..]);
    var token, next := StrTok(data, attr);
    var isKey := true;
    while token.Some?
      invariant next <= |data|
      invariant keys + KeyText((match token case None => [] case Some(t) => [t]) + Tokens(data[next..]), isKey)
             == KeyText(all, true)
      invariant token == None ==> Tokens(data[next..]) == []
      decreases token.Some?, |data| - next
    {
      KeyStep(keys, token.value, Tokens(data[next..]), isKey);
      if isKey {
        keys := keys + token.value + "\0";
      }
      isKey := !isKey;
      token, next := StrTok(data, next);
    }
    assert [] + Tokens(data[next..]) == [];
    assert keys + "" == keys;
  }

  lemma KeyStep(keys: string, t: string, ts: seq<string>, isKey: bool)
    ensures keys + KeyText([t] + ts, isKey) == (if isKey then keys + t + "\0" else keys) + KeyText(ts, !isKey)
  {
    assert ([t] + ts)[1..] == ts;
  }

  /** strtok: skips newlines, then takes everything up to the next one. */
  method StrTok(s: string, from: nat) returns (token: Option<string>, next: nat)
    requires from <= |s|
    ensures from <= next <= |s|
    ensures token == None ==> Tokens(s[from..]) == [] && next == |s|
    ensures token.Some? ==> Tokens(s[from..]) == [token.value] + Tokens(s[next..]) && from < next
  {
    var start := from;
    while start < |s| && s[start] == '\n'
      invariant from <= start <= |s| && Tokens(s[start..]) == Tokens(s[from..])
    {
      assert s[start..][1..] == s[start + 1..];
      start := start + 1;
    }
    if start == |s| {
      return None, |s|;
    }
    next := Find(s, '\n', start);
    token := Some(s[start..next]);
    TokenHere(s, start, next);
  }

  lemma TokenHere(s: string, start: nat, next: nat)
    requires start < |s| && s[start] != '\n' && next == Find(s, '\n', start)
    ensures Tokens(s[start..]) == [s[start..next]] + Tokens(s[next..]) && start < next
  {
    hide Tokens;
    var t := s[start..];
    FindIs(t, '\n', 0, next - start);
    TokensHead(t, next - start);
    assert t[..next - start] == s[start..next] && t[next - start..] == s[next..];
  }

  lemma TokensHead(t: string, n: nat)
    requires t != "" && t[0] != '\n' && n == Find(t, '\n', 0)
    ensures Tokens(t) == [t[..n]] + Tokens(t[n..]) && n > 0
  {
  }

  // On well-formed records

  function NonEmpty(ls: seq<string>): seq<string> {
    if ls == [] then [] else (if ls[0] == "" then [] else [ls[0]]) + NonEmpty(ls[1..])
  }

  lemma {:induction false} TokensEnc(ls: seq<string>)
    requires AllPlain(ls)
    ensures Tokens(Enc(ls)) == NonEmpty(ls)
  {
    if ls != [] {
      TokensEnc(ls[1..]);
      TokensLine(ls[0], Enc(ls[1..]));
    }
  }

  lemma TokensLine(l: string, rest: string)
    requires '\n' !in l
    ensures Tokens(l + "\n" + rest) == (if l == "" then [] else [l]) + Tokens(rest)
  {
    var s := l + "\n" + rest;
    if l == "" {
      assert s[1..] == rest;
    } else {
      FindIs(s, '\n', 0, |l|);
      assert s[0] == l[0] && s[..|l|] == l && s[|l|..] == "\n" + rest;
      assert ("\n" + rest)[1..] == rest;
    }
  }

  /** The tokens of the extended part of a record. */
  function PairTokens(ext: seq<Attr>): seq<string> {
    if ext == [] then [] else [ext[0].name] + (if ext[0].value == "" then [] else [ext[0].value]) + PairTokens(ext[1..])
  }

  lemma {:induction false} PairTokensAre(ext: seq<Attr>)
    requires RecordOk(ext)
    ensures NonEmpty(Flat(ext)) == PairTokens(ext)
  {
    if ext != [] {
      PairTokensAre(ext[1..]);
      FlatHead(ext);
      TwoTokens(ext[0].name, ext[0].value, Flat(ext[1..]));
    } else {
      assert Flat(ext) == [];
    }
  }

  lemma FlatHead(ext: seq<Attr>)
    requires ext != []
    ensures Flat(ext) == [ext[0].name, ext[0].value] + Flat(ext[1..])
  {
  }

  lemma TwoTokens(n: string, v: string, rest: seq<string>)
    requires n != ""
    ensures NonEmpty([n, v] + rest) == [n] + (if v == "" then [] else [v]) + NonEmpty(rest)
  {
    var ls := [n, v] + rest;
    assert ls[1..] == [v] + rest && ls[1..][1..] == rest;
  }

  /** When the list comes out right: no value but the last is empty, or after the first empty one every value
      happens to equal its name. */
  predicate ListsRight(ext: seq<Attr>) {
    ext == [] ||
    if ext[0].value != "" then ListsRight(ext[1..]) else forall k :: 0 < k < |ext| ==> ext[k].value == ext[k].name
  }

  lemma SameHead(a: string, b: string, s: string, t: string)
    requires '\0' !in a && '\0' !in b && a + "\0" + s == b + "\0" + t
    ensures a == b && s == t
  {
    var u := a + "\0" + s;
    assert u[|a|] == '\0' && u[|b|] == '\0';
    FindIs(u, '\0', 0, |a|);
    FindIs(u, '\0', 0, |b|);
    assert u[..|a|] == a && u[|a| + 1..] == s && u[|b| + 1..] == t;
  }

  /** With names and values swapped by one missing token. */
  lemma {:induction false} ShiftedList(ext: seq<Attr>)
    requires RecordOk(ext) && NamesDistinct(ext)
    ensures KeyText(PairTokens(ext), false) == NameList(ext) <==>
            forall k :: 0 <= k < |ext| ==> ext[k].value == ext[k].name
  {
    if ext != [] {
      var a, rest := ext[0], ext[1..];
      var ts := PairTokens(rest);
      if a.value != "" {
        ShiftedList(rest);
        assert PairTokens(ext) == [a.name] + ([a.value] + ts);
        KeyTwo(a.name, a.value, ts);
        if a.value + "\0" + KeyText(ts, false) == a.name + "\0" + NameList(rest) {
          SameHead(a.value, a.name, KeyText(ts, false), NameList(rest));
        }
        assert forall k :: 0 <= k < |rest| ==> rest[k] == ext[k + 1];
      } else {
        assert PairTokens(ext) == [a.name] + ts;
        KeyOne(a.name, ts);
        assert ext[0].value != ext[0].name;
        if rest != [] {
          assert rest[0].name == ext[1].name != a.name;
          FirstToken(rest);
          if ts[0] + "\0" + KeyText(ts[1..], false) == a.name + "\0" + NameList(rest) {
            SameHead(ts[0], a.name, KeyText(ts[1..], false), NameList(rest));
          }
        }
      }
    }
  }

  lemma KeyTwo(n: string, v: string, ts: seq<string>)
    ensures KeyText([n] + ([v] + ts), false) == v + "\0" + KeyText(ts, false)
    ensures KeyText([n] + ([v] + ts), true) == n + "\0" + KeyText(ts, true)
  {
    assert ([n] + ([v] + ts))[1..] == [v] + ts && ([v] + ts)[1..] == ts;
  }

  lemma KeyOne(n: string, ts: seq<string>)
    ensures KeyText([n] + ts, false) == KeyText(ts, true) && KeyText([n] + ts, true) == n + "\0" + KeyText(ts, false)
  {
    assert ([n] + ts)[1..] == ts;
  }

  lemma FirstToken(ext: seq<Attr>)
    requires ext != []
    ensures PairTokens(ext) != [] && PairTokens(ext)[0] == ext[0].name
    ensures KeyText(PairTokens(ext), true) == ext[0].name + "\0" + KeyText(PairTokens(ext)[1..], false)
  {
  }

  lemma {:induction false} ListExactly(ext: seq<Attr>)
    requires RecordOk(ext) && NamesDistinct(ext)
    ensures KeyText(PairTokens(ext), true) == NameList(ext) <==> ListsRight(ext)
  {
    if ext != [] {
      var a, rest := ext[0], ext[1..];
      var ts := PairTokens(rest);
      assert forall k :: 0 <= k < |rest| ==> rest[k] == ext[k + 1];
      if a.value != "" {
        ListExactly(rest);
        assert PairTokens(ext) == [a.name] + ([a.value] + ts);
        KeyTwo(a.name, a.value, ts);
        if a.name + "\0" + KeyText(ts, true) == a.name + "\0" + NameList(rest) {
          SameHead(a.name, a.name, KeyText(ts, true), NameList(rest));
        }
      } else {
        ShiftedList(rest);
        assert PairTokens(ext) == [a.name] + ts;
        KeyOne(a.name, ts);
        if a.name + "\0" + KeyText(ts, false) == a.name + "\0" + NameList(rest) {
          SameHead(a.name, a.name, KeyText(ts, false), NameList(rest));
        }
      }
    }
  }

  /** The keys listed on an inode's record are those of its tail. */
  lemma ListedTail(n: Inode, ino: nat)
    ensures Contains(n.Text(ino), "st_blocks") && Terminated(n.Text(ino), "st_blocks")
    ensures Listed(n.Text(ino)) == KeyText(Tokens(n.tail), true)
  {
    hide Tokens, KeyText, Contains, Terminated, Enc, Flat, StrStr, Inode.Fixed, OccursAt, FirstLine, Find;
    var r, ls, f := n.Fixed(ino), Flat(n.Fixed(ino)), Field.Blocks;
    FieldLaws(n, ino, f, 0);
    FixedClear(n, ino, f);
    FixedOk(n, ino);
    RecordPlain(r);
    ClearLine(r, 6);
    FlatAt(r, 6);
    StrStrSelf("st_blocks");
    StrStrEnc(ls, "st_blocks");
    StrStrMore(Enc(ls), n.tail, "st_blocks");
    EncAround2(ls, 12);
    assert ls[14..] == [];
    EncNothing();
    BlocksLine(n.Text(ino), Enc(ls[..12]), ls[13], n.tail);
  }

  lemma EncNothing()
    ensures Enc([]) == ""
  {
  }

  lemma BlocksLine(data: string, before: string, v: string, tail: string)
    requires data == Around(before, "st_blocks", v, "") + tail && '\n' !in v
    ensures |before| + 10 <= |data| && Find(data, '\n', |before| + 10) < |data|
    ensures data[Find(data, '\n', |before| + 9 + 1) + 1..] == tail
  {
    hide Around, Find;
    AroundMore(before, "st_blocks", v, tail);
    AroundAt(before, "st_blocks", v, tail);
  }

  lemma AroundMore(before: string, l: string, v: string, tail: string)
    ensures Around(before, l, v, "") + tail == Around(before, l, v, tail)
  {
    assert before + l + "\n" + v + "\n" + "" == before + l + "\n" + v + "\n";
  }

  /** listxattr on an inode's record lists exactly the names after st_blocks, in order, exactly under ListsRight. */
  lemma ListXattrExactly(n: Inode, ino: nat, ext: seq<Attr>)
    requires n.tail == EncRec(ext) && RecordOk(ext) && NamesDistinct(ext)
    ensures Contains(n.Text(ino), "st_blocks") && Terminated(n.Text(ino), "st_blocks")
    ensures Listed(n.Text(ino)) == NameList(ext) <==> ListsRight(ext)
  {
    hide Tokens, KeyText, NameList, ListsRight, Contains, Terminated, Listed, Inode.Text;
    ListedTail(n, ino);
    TokensEnc(Flat(ext));
    RecordPlain(ext);
    PairTokensAre(ext);
    ListExactly(ext);
  }
}
