/** Newline-terminated lines: the one text format behind the inode table, the directory blocks and the attribute
    records, and what a first-substring search finds in it. */
module Lines {
  import opened CStrings

  predicate Plain(l: string) {
    '\n' !in l && '\0' !in l
  }

  ghost predicate AllPlain(ls: seq<string>) {
    forall i :: 0 <= i < |ls| ==> Plain(ls[i])
  }

  function Enc(ls: seq<string>): string {
    if ls == [] then "" else ls[0] + "\n" + Enc(ls[1..])
  }

  lemma {:induction false} EncConcat(a: seq<string>, b: seq<string>)
    ensures Enc(a + b) == Enc(a) + Enc(b)
  {
    hide Enc;
    EncHead(a);
    if a == [] {
      assert a + b == b && "" + Enc(b) == Enc(b);
    } else {
      EncConcat(a[1..], b);
      EncHead(a + b);
      ConcatTail(a, b);
      Assoc(a[0] + "\n", Enc(a[1..]), Enc(b));
    }
  }

  lemma ConcatTail<T>(a: seq<T>, b: seq<T>)
    requires a != []
    ensures a + b != [] && (a + b)[0] == a[0] && (a + b)[1..] == a[1..] + b
  {
  }

  lemma EncOne(l: string)
    ensures Enc([l]) == l + "\n"
  {
    assert Enc([l][1..]) == "";
  }

  lemma EncTwo(k: string, v: string)
    ensures Enc([k, v]) == k + "\n" + v + "\n"
  {
    EncOne(v);
    assert [k, v][1..] == [v];
    assert k + "\n" + (v + "\n") == k + "\n" + v + "\n";
  }

  /** The encoding around line j. */
  lemma EncAround(ls: seq<string>, j: nat)
    requires j < |ls|
    ensures Enc(ls) == Enc(ls[..j]) + ls[j] + "\n" + Enc(ls[j + 1..])
  {
    hide Enc;
    AtMiddle(ls, j);
    EncConcat(ls[..j] + [ls[j]], ls[j + 1..]);
    EncConcat(ls[..j], [ls[j]]);
    EncOne(ls[j]);
    Assoc(Enc(ls[..j]), ls[j], "\n");
  }

  lemma AtMiddle<T>(s: seq<T>, j: nat)
    requires j < |s|
    ensures s == s[..j] + [s[j]] + s[j + 1..]
  {
  }

  lemma Assoc(a: string, b: string, c: string)
    ensures a + b + c == a + (b + c)
  {
  }

  lemma {:induction false} EncNoNul(ls: seq<string>)
    requires AllPlain(ls)
    ensures '\0' !in Enc(ls)
  {
    if ls != [] {
      EncNoNul(ls[1..]);
    }
  }

  /** The lines of a text, as the readers cut them: a piece after the last newline is no line. */
  function Split(s: string): seq<string>
    decreases |s|
  {
    var n := Find(s, '\n', 0);
    if n == |s| then [] else [s[..n]] + Split(s[n + 1..])
  }

  lemma {:induction false} SplitEnc(ls: seq<string>)
    requires AllPlain(ls)
    ensures Split(Enc(ls)) == ls
  {
    if ls != [] {
      SplitHead(ls[0], Enc(ls[1..]));
      SplitEnc(ls[1..]);
    }
  }

  lemma SplitHead(l: string, rest: string)
    requires Plain(l)
    ensures Split(l + "\n" + rest) == [l] + Split(rest)
  {
    var s := l + "\n" + rest;
    assert s[|l|] == '\n' && forall j :: 0 <= j < |l| ==> s[j] == l[j];
    FindIs(s, '\n', 0, |l|);
    assert s[..|l|] == l && s[|l| + 1..] == rest;
  }

  lemma EncInjective(a: seq<string>, b: seq<string>)
    requires AllPlain(a) && AllPlain(b) && Enc(a) == Enc(b)
    ensures a == b
  {
    SplitEnc(a);
    SplitEnc(b);
  }

  /** The first line in which the name occurs, or the number of lines. */
  function FirstLine(ls: seq<string>, name: string): (j: nat)
    ensures j <= |ls|
    ensures forall i :: 0 <= i < j ==> !Contains(ls[i], name)
    ensures j < |ls| ==> Contains(ls[j], name)
  {
    if ls == [] || Contains(ls[0], name) then 0 else 1 + FirstLine(ls[1..], name)
  }

  lemma FirstLineIs(ls: seq<string>, name: string, j: nat)
    requires j <= |ls| && (forall i :: 0 <= i < j ==> !Contains(ls[i], name)) && (j < |ls| ==> Contains(ls[j], name))
    ensures FirstLine(ls, name) == j
  {
    var k := FirstLine(ls, name);
    assert !(k < j) && !(j < k);
  }

  /** A match cannot run across a newline. */
  lemma OccursInTwo(l: string, rest: string, name: string, p: nat)
    requires Plain(name) && name != ""
    ensures OccursAt(l + "\n" + rest, name, p) <==>
            OccursAt(l, name, p) || (p > |l| && OccursAt(rest, name, p - |l| - 1))
  {
    var s := l + "\n" + rest;
    if p <= |l| < p + |name| && p + |name| <= |s| {
      assert s[p..p + |name|][|l| - p] == '\n' != name[|l| - p];
    }
    if p + |name| <= |l| {
      assert s[p..p + |name|] == l[p..p + |name|];
    } else if p > |l| && p + |name| <= |s| {
      assert s[p..p + |name|] == rest[p - |l| - 1..p - |l| - 1 + |name|];
    }
  }

  lemma StrStrHead(l: string, rest: string, name: string)
    requires Plain(name) && name != "" && Contains(l, name)
    ensures StrStr(l + "\n" + rest, name) == StrStr(l, name)
  {
    var o := StrStr(l, name).value;
    forall p: nat | p < o ensures !OccursAt(l + "\n" + rest, name, p) {
      OccursInTwo(l, rest, name, p);
    }
    OccursInTwo(l, rest, name, o);
    StrStrIs(l + "\n" + rest, name, o);
  }

  lemma StrStrTail(l: string, rest: string, name: string)
    requires Plain(name) && name != "" && !Contains(l, name)
    ensures StrStr(l + "\n" + rest, name) ==
            match StrStr(rest, name) case None => None case Some(o) => Some(|l| + 1 + o)
  {
    var s := l + "\n" + rest;
    forall p: nat ensures OccursAt(s, name, p) <==> (p > |l| && OccursAt(rest, name, p - |l| - 1)) {
      OccursInTwo(l, rest, name, p);
    }
    match StrStr(rest, name)
    case None =>
    case Some(o) =>
      assert OccursAt(s, name, |l| + 1 + o);
      forall p: nat | p < |l| + 1 + o ensures !OccursAt(s, name, p) {
      }
      StrStrIs(s, name, |l| + 1 + o);
  }

  /** Searching the encoding for a name finds it in the first line that contains it. */
  lemma {:induction false} StrStrEnc(ls: seq<string>, name: string)
    requires Plain(name) && name != ""
    ensures var j := FirstLine(ls, name);
            StrStr(Enc(ls), name) ==
            if j < |ls| then Some(|Enc(ls[..j])| + StrStr(ls[j], name).value) else None
  {
    hide Enc, OccursAt;
    var j := FirstLine(ls, name);
    EncHead([]);
    EncHead(ls);
    if ls == [] {
      NotInEmpty(name);
    } else if Contains(ls[0], name) {
      StrStrHead(ls[0], Enc(ls[1..]), name);
      assert ls[..0] == [];
    } else {
      StrStrEnc(ls[1..], name);
      StrStrTail(ls[0], Enc(ls[1..]), name);
      assert j == 1 + FirstLine(ls[1..], name);
      if j < |ls| {
        EncHead(ls[..j]);
        assert ls[..j][1..] == ls[1..][..j - 1];
      }
    }
  }

  /** Lines without the name in front of a text do not change what the search finds in the text. */
  lemma {:induction false} StrStrBeyond(ls: seq<string>, t: string, name: string)
    requires Plain(name) && name != "" && FirstLine(ls, name) == |ls|
    ensures StrStr(Enc(ls) + t, name) == match StrStr(t, name) case None => None case Some(o) => Some(|Enc(ls)| + o)
  {
    hide OccursAt, StrStr, Plain, Enc;
    EncHead(ls);
    if ls == [] {
      assert "" + t == t;
    } else {
      assert FirstLine(ls, name) == 1 + FirstLine(ls[1..], name);
      StrStrBeyond(ls[1..], t, name);
      StrStrTail(ls[0], Enc(ls[1..]) + t, name);
      assert ls[0] + "\n" + (Enc(ls[1..]) + t) == ls[0] + "\n" + Enc(ls[1..]) + t;
    }
  }

  lemma EncHead(ls: seq<string>)
    ensures Enc(ls) == if ls == [] then "" else ls[0] + "\n" + Enc(ls[1..])
  {
  }

  lemma NotInEmpty(name: string)
    requires name != ""
    ensures StrStr("", name) == None
  {
  }

  function Newlines(s: string): nat {
    if s == [] then 0 else (if s[0] == '\n' then 1 else 0) + Newlines(s[1..])
  }

  lemma {:induction false} NewlinesConcat(a: string, b: string)
    ensures Newlines(a + b) == Newlines(a) + Newlines(b)
  {
    if a == [] {
      assert a + b == b;
    } else {
      NewlinesConcat(a[1..], b);
      assert (a + b)[1..] == a[1..] + b;
    }
  }

  lemma {:induction false} NewlinesPlain(l: string)
    requires '\n' !in l
    ensures Newlines(l) == 0
  {
    if l != [] {
      NewlinesPlain(l[1..]);
    }
  }

  lemma {:induction false} NewlinesEnc(ls: seq<string>)
    requires AllPlain(ls)
    ensures Newlines(Enc(ls)) == |ls|
  {
    if ls != [] {
      NewlinesEnc(ls[1..]);
      NewlinesPlain(ls[0]);
      NewlinesConcat(ls[0], "\n");
      NewlinesConcat(ls[0] + "\n", Enc(ls[1..]));
      assert Newlines("\n") == 1 + Newlines("\n"[1..]);
    }
  }

  lemma SameTail(x: string, a: string, b: string)
    requires x + a == x + b
    ensures a == b
  {
    assert (x + a)[|x|..] == a && (x + b)[|x|..] == b;
  }

  /** The first lines of a text, and what follows them, are determined by the text. */
  lemma {:induction false} EncThenText(a: seq<string>, b: seq<string>, s: string, t: string)
    requires AllPlain(a) && AllPlain(b) && |a| == |b| && Enc(a) + s == Enc(b) + t
    ensures a == b && s == t
  {
    if a == [] {
      assert "" + s == s && "" + t == t;
    } else {
      Assoc(a[0] + "\n", Enc(a[1..]), s);
      Assoc(b[0] + "\n", Enc(b[1..]), t);
      SameHead(a[0], b[0], Enc(a[1..]) + s, Enc(b[1..]) + t);
      EncThenText(a[1..], b[1..], s, t);
      assert a == [a[0]] + a[1..] && b == [b[0]] + b[1..];
    }
  }

  lemma SameHead(a: string, b: string, s: string, t: string)
    requires Plain(a) && Plain(b) && a + "\n" + s == b + "\n" + t
    ensures a == b && s == t
  {
    var u := a + "\n" + s;
    assert u[|a|] == '\n' && u[|b|] == '\n';
    FindIs(u, '\n', 0, |a|);
    FindIs(u, '\n', 0, |b|);
    assert u[..|a|] == a && u[|a| + 1..] == s && u[..|b|] == b && u[|b| + 1..] == t;
  }
}
