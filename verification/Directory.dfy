/** The block of a directory: the names of its entries, one to a line. */
module Directory {
  import opened CStrings
  import opened Lines
  import opened DataParser

  predicate Name(n: string) {
    Plain(n) && n != "" && '/' !in n
  }

  ghost predicate Names(ns: seq<string>) {
    && (forall i :: 0 <= i < |ns| ==> Name(ns[i]))
    && (forall i, j :: 0 <= i < j < |ns| ==> ns[i] != ns[j])
  }

  lemma NamesPlain(ns: seq<string>)
    requires Names(ns)
    ensures AllPlain(ns) && CStr(Enc(ns)) == Enc(ns)
  {
    EncNoNul(ns);
  }

  /** add_link_to_parent_dir's new block. */
  lemma AddLinkAppends(ns: seq<string>, name: string)
    ensures Enc(ns) + name + "\n" == Enc(ns + [name])
  {
    hide Enc;
    EncConcat(ns, [name]);
    EncOne(name);
    Assoc(Enc(ns), name, "\n");
  }

  /** remove_link_from_parent_dir's new block: the first match of the name and one more character are cut out. */
  function RemoveLink(links: string, name: string): string
    requires Contains(links, name) && StrStr(links, name).value + |name| + 1 <= |links|
  {
    var at := StrStr(links, name).value;
    links[..at] + links[at + |name| + 1..]
  }

  lemma LinkAtLineEnd(ns: seq<string>, name: string, j: nat, x: string)
    requires AllPlain(ns) && Plain(name) && name != "" && j == FirstLine(ns, name) && j < |ns|
    requires ns[j] == x + name && StrStr(ns[j], name) == Some(|x|)
    ensures Contains(Enc(ns), name) && StrStr(Enc(ns), name).value + |name| + 1 <= |Enc(ns)|
    ensures RemoveLink(Enc(ns), name) == Cut(ns, j, x, j + 1)
  {
    hide Enc, OccursAt, FirstLine, StrStr;
    StrStrEnc(ns, name);
    EncAround(ns, j);
    LinkParts(Enc(ns), Enc(ns[..j]), x, name, Enc(ns[j + 1..]));
  }

  lemma LinkParts(data: string, before: string, x: string, name: string, after: string)
    requires data == before + (x + name) + "\n" + after
    ensures |data| == |before| + |x| + |name| + 1 + |after|
    ensures data[..|before| + |x|] + data[|before| + |x| + |name| + 1..] == before + x + after
  {
    assert data[..|before| + |x|] == before + x;
    assert data[|before| + |x| + |name| + 1..] == after;
  }

  lemma LinkInLine(ns: seq<string>, name: string, j: nat, o: nat)
    requires AllPlain(ns) && Plain(name) && name != "" && j == FirstLine(ns, name) && j < |ns|
    requires StrStr(ns[j], name) == Some(o) && o + |name| < |ns[j]|
    ensures Contains(Enc(ns), name) && StrStr(Enc(ns), name).value + |name| + 1 <= |Enc(ns)|
    ensures RemoveLink(Enc(ns), name) == Enc(ns[j := ns[j][..o] + ns[j][o + |name| + 1..]])
  {
    hide Enc, OccursAt, FirstLine, StrStr, Plain;
    StrStrEnc(ns, name);
    EncAround(ns, j);
    var l := ns[j][..o] + ns[j][o + |name| + 1..];
    EncAround(ns[j := l], j);
    assert ns[j := l][..j] == ns[..j] && ns[j := l][j + 1..] == ns[j + 1..];
    LinkMiddle(Enc(ns), Enc(ns[..j]), ns[j], o, name, Enc(ns[j + 1..]));
  }

  lemma LinkMiddle(data: string, before: string, l: string, o: nat, name: string, after: string)
    requires data == before + l + "\n" + after && o + |name| < |l|
    ensures data[..|before| + o] + data[|before| + o + |name| + 1..]
            == before + (l[..o] + l[o + |name| + 1..]) + "\n" + after
  {
    assert data[..|before| + o] == before + l[..o];
    assert data[|before| + o + |name| + 1..] == l[o + |name| + 1..] + "\n" + after;
  }

  /** When removing name m takes exactly that name: no earlier name contains it, or only the name just before
      does, at its end. */
  predicate RemovesName(ns: seq<string>, m: nat)
    requires m < |ns|
  {
    var j := FirstLine(ns, ns[m]);
    j >= m || (j + 1 == m && StrStr(ns[j], ns[m]).value + |ns[m]| == |ns[j]|)
  }

  /** remove_link_from_parent_dir takes name m and nothing else, exactly under RemovesName. */
  lemma RemoveLinkExactly(ns: seq<string>, m: nat)
    requires Names(ns) && m < |ns|
    ensures Contains(Enc(ns), ns[m]) && StrStr(Enc(ns), ns[m]).value + |ns[m]| + 1 <= |Enc(ns)|
    ensures RemoveLink(Enc(ns), ns[m]) == Enc(ns[..m] + ns[m + 1..]) <==> RemovesName(ns, m)
  {
    hide Enc, Cut, OccursAt, RemoveLink, FirstLine, StrStr, RemovesName, Contains;
    LandingBefore(ns, m);
    LandingFits(ns, ns[m]);
    var l := ns[FirstLine(ns, ns[m])];
    if StrStr(l, ns[m]).value + |ns[m]| < |l| {
      RemoveInside(ns, m);
    } else {
      RemoveAtEnd(ns, m);
    }
  }

  lemma RemoveInside(ns: seq<string>, m: nat)
    requires Names(ns) && m < |ns| && FirstLine(ns, ns[m]) < |ns|
    requires var l := ns[FirstLine(ns, ns[m])]; Contains(l, ns[m]) && StrStr(l, ns[m]).value + |ns[m]| < |l|
    ensures Contains(Enc(ns), ns[m]) && StrStr(Enc(ns), ns[m]).value + |ns[m]| + 1 <= |Enc(ns)|
    ensures RemoveLink(Enc(ns), ns[m]) != Enc(ns[..m] + ns[m + 1..]) && !RemovesName(ns, m)
  {
    hide Enc, OccursAt, RemoveLink, FirstLine, StrStr, RemovesName;
    var name, j := ns[m], FirstLine(ns, ns[m]);
    var o := StrStr(ns[j], name).value;
    NamesPlain(ns);
    LandingBefore(ns, m);
    LinkInLine(ns, name, j, o);
    var cut := ns[j := ns[j][..o] + ns[j][o + |name| + 1..]];
    assert AllPlain(cut) && AllPlain(ns[..m] + ns[m + 1..]);
    LineCountsDiffer(cut, ns[..m] + ns[m + 1..]);
  }

  lemma RemoveAtEnd(ns: seq<string>, m: nat)
    requires Names(ns) && m < |ns| && FirstLine(ns, ns[m]) < |ns|
    requires var l := ns[FirstLine(ns, ns[m])]; Contains(l, ns[m]) && StrStr(l, ns[m]).value + |ns[m]| == |l|
    ensures Contains(Enc(ns), ns[m]) && StrStr(Enc(ns), ns[m]).value + |ns[m]| + 1 <= |Enc(ns)|
    ensures RemoveLink(Enc(ns), ns[m]) == Enc(ns[..m] + ns[m + 1..]) <==> RemovesName(ns, m)
  {
    hide Enc, Cut, OccursAt, RemoveLink, FirstLine, StrStr, RemovesName;
    var name, j := ns[m], FirstLine(ns, ns[m]);
    NamesPlain(ns);
    LandingBefore(ns, m);
    EndsWith(ns[j], name);
    var x := ns[j][..|ns[j]| - |name|];
    LinkAtLineEnd(ns, name, j, x);
    if j == m {
      CutWhole(ns, m, m + 1);
    } else {
      CutElsewhere(ns, j, x, m, 1);
      NamesRepeat(ns, j, m, x);
    }
  }

  lemma LandingBefore(ns: seq<string>, m: nat)
    requires m < |ns|
    ensures var j := FirstLine(ns, ns[m]);
            && j <= m && (j == m ==> StrStr(ns[j], ns[m]) == Some(0))
            && (RemovesName(ns, m) <==> j == m || (j + 1 == m && StrStr(ns[j], ns[m]).value + |ns[m]| == |ns[j]|))
  {
    StrStrSelf(ns[m]);
  }

  lemma LandingFits(ns: seq<string>, name: string)
    requires FirstLine(ns, name) < |ns|
    ensures var l := ns[FirstLine(ns, name)]; Contains(l, name) && StrStr(l, name).value + |name| <= |l|
  {
  }

  lemma NamesRepeat(ns: seq<string>, j: nat, m: nat, x: string)
    requires Names(ns) && j < m < |ns| && ns[j] == x + ns[m]
    ensures (x + ns[j + 1] == ns[j] && forall k :: j < k < m ==> ns[k + 1] == ns[k]) <==> j + 1 == m
  {
    if x + ns[j + 1] == ns[j] {
      SameTail(x, ns[j + 1], ns[m]);
    }
  }

  /** The loop of memcached_readdir: one filler call per newline. */
  method ListLinks(links: string) returns (names: seq<string>)
    requires '\0' !in links
    ensures names == Split(links)
  {
    hide Split;
    var index, size: nat := 0, 0;
    names := [];
    assert links[0..] == links;
    while index < |links|
      invariant index <= |links| && size <= index
      invariant forall j :: index - size <= j < index ==> links[j] != '\n'
      invariant names + Split(links[index - size..]) == Split(links)
    {
      if links[index] == '\n' {
        SplitStep(links, index - size, index);
        Extend(names, links[index - size..index], Split(links[index + 1..]));
        names := names + [links[index - size..index]];
        size := 0;
      } else {
        size := size + 1;
      }
      index := index + 1;
    }
    SplitEnd(links, index - size);
  }

  lemma SplitStep(s: string, from: nat, n: nat)
    requires from <= n < |s| && s[n] == '\n' && forall j :: from <= j < n ==> s[j] != '\n'
    ensures Split(s[from..]) == [s[from..n]] + Split(s[n + 1..])
  {
    FindIs(s[from..], '\n', 0, n - from);
    assert s[from..][..n - from] == s[from..n] && s[from..][n - from + 1..] == s[n + 1..];
  }

  lemma SplitEnd(s: string, from: nat)
    requires from <= |s| && forall j :: from <= j < |s| ==> s[j] != '\n'
    ensures Split(s[from..]) == []
  {
    FindIs(s[from..], '\n', 0, |s| - from);
  }

  lemma Extend(a: seq<string>, x: string, b: seq<string>)
    ensures a + ([x] + b) == (a + [x]) + b
  {
  }
}
