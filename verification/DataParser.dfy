/** data_parser.c: attribute records, the inode table and directory blocks as text. Each routine is a method that
    scans as the source does, proved against a function on strings; the lemmas say what those functions do to lines. */
module DataParser {
  import opened CStrings
  import opened Lines

  function Pair(name: string, value: string): string {
    name + "\n" + value + "\n"
  }

  /** After the first match of the name and the character that follows it there is still a newline. */
  predicate Terminated(data: string, name: string) {
    match StrStr(data, name)
    case None => true
    case Some(at) => at + |name| + 1 <= |data| && Find(data, '\n', at + |name| + 1) < |data|
  }

  /** The text from the character after the matched name to the end of the line it is in. */
  function Get(data: string, name: string): Option<string>
    requires Terminated(data, name)
  {
    match StrStr(data, name)
    case None => None
    case Some(at) => var start := at + |name| + 1; Some(data[start..Find(data, '\n', start)])
  }

  function Set(data: string, name: string, value: string): Option<string>
    requires Terminated(data, name)
  {
    match StrStr(data, name)
    case None => None
    case Some(at) => Some(data[..at] + Pair(name, value) + data[Find(data, '\n', at + |name| + 1) + 1..])
  }

  /** get_attr_value_str */
  method GetAttrValueStr(data: string, name: string) returns (value: Option<string>)
    requires Terminated(data, name)
    ensures value == Get(data, name)
  {
    var attr := StrStr(data, name);
    if attr == None {
      return None;
    }
    var index := attr.value + |name| + 1;
    ghost var start := index;
    var size, c := 0, '\0';
    while c != '\n'
      invariant index == start + size && index <= |data|
      invariant size == 0 ==> c == '\0'
      invariant size > 0 ==> c == data[index - 1]
      invariant index <= Find(data, '\n', start) + 1
      invariant c == '\n' ==> index == Find(data, '\n', start) + 1
      decreases |data| - index, c != '\n'
    {
      c := data[index];
      index := index + 1;
      size := size + 1;
    }
    value := Some(data[index - size..index - 1]);
  }

  /** modify_attr_str */
  method ModifyAttrStr(data: string, name: string, value: string) returns (result: Option<string>)
    requires Terminated(data, name)
    ensures result == Set(data, name, value)
  {
    var attr := StrStr(data, name);
    if attr == None {
      return None;
    }
    var restIndex := SkipLine(data, attr.value + |name| + 1);
    result := Some(data[..attr.value] + Pair(name, value) + data[restIndex..]);
  }

  /** get_attr_value */
  method GetAttrValue(data: string, name: string) returns (value: nat)
    requires Terminated(data, name) && Contains(data, name)
    ensures value == Atoi(Get(data, name).value)
  {
    var text := GetAttrValueStr(data, name);
    value := Atoi(text.value);
  }

  /** modify_attr */
  method ModifyAttr(data: string, name: string, newValue: nat) returns (result: Option<string>)
    requires Terminated(data, name)
    ensures result == Set(data, name, Dec(newValue))
  {
    result := ModifyAttrStr(data, name, Dec(newValue));
  }

  /** The scan to just after the next newline, shared by the routines that cut text out. */
  method SkipLine(data: string, from: nat) returns (restIndex: nat)
    requires from <= |data| && Find(data, '\n', from) < |data|
    ensures restIndex == Find(data, '\n', from) + 1
  {
    restIndex := from;
    var c := '\0';
    while c != '\n'
      invariant from <= restIndex <= Find(data, '\n', from) + 1
      invariant c == '\n' <==> restIndex == Find(data, '\n', from) + 1
      decreases Find(data, '\n', from) + 1 - restIndex
    {
      c := data[restIndex];
      restIndex := restIndex + 1;
    }
  }

  // The effect on lines

  /** A line l, the line v after it, and what surrounds them. */
  function Around(before: string, l: string, v: string, rest: string): string {
    before + l + "\n" + v + "\n" + rest
  }

  lemma AroundAt(before: string, l: string, v: string, rest: string)
    requires '\n' !in v
    ensures var data, start := Around(before, l, v, rest), |before| + |l| + 1;
            && start + |v| < |data| && Find(data, '\n', start) == start + |v|
            && data[start..start + |v|] == v && data[start + |v| + 1..] == rest
            && data[..|before| + |l|] == before + l
  {
    var data, start := Around(before, l, v, rest), |before| + |l| + 1;
    assert data[start + |v|] == '\n' && forall j :: start <= j < start + |v| ==> data[j] == v[j - start];
    FindIs(data, '\n', start, start + |v|);
  }

  lemma EncAround2(ls: seq<string>, j: nat)
    requires j + 1 < |ls|
    ensures Enc(ls) == Around(Enc(ls[..j]), ls[j], ls[j + 1], Enc(ls[j + 2..]))
  {
    EncAround(ls, j);
    EncCons(ls, j + 1);
    AroundAssoc(Enc(ls[..j]), ls[j], ls[j + 1], Enc(ls[j + 2..]));
  }

  lemma EncCons(ls: seq<string>, j: nat)
    requires j < |ls|
    ensures Enc(ls[j..]) == ls[j] + "\n" + Enc(ls[j + 1..])
  {
    assert ls[j..][1..] == ls[j + 1..];
  }

  lemma AroundAssoc(a: string, l: string, v: string, rest: string)
    ensures a + l + "\n" + (v + "\n" + rest) == Around(a, l, v, rest)
  {
  }

  lemma EncReplace(ls: seq<string>, j: nat, value: string)
    requires j + 1 < |ls|
    ensures Enc(ls[j + 1 := value]) == Around(Enc(ls[..j]), ls[j], value, Enc(ls[j + 2..]))
  {
    var ls' := ls[j + 1 := value];
    EncAround2(ls', j);
    assert ls'[..j] == ls[..j] && ls'[j + 2..] == ls[j + 2..];
  }

  lemma PrefixOfLine(data: string, before: string, l: string, x: string, name: string)
    requires |before| + |l| <= |data| && data[..|before| + |l|] == before + l && l == x + name
    ensures data[..|before| + |x|] == before + x
  {
    assert data[..|before| + |x|] == data[..|before| + |l|][..|before| + |x|];
  }

  lemma NewPair(a: string, x: string, name: string, value: string, rest: string)
    ensures (a + x) + Pair(name, value) + rest == Around(a, x + name, value, rest)
  {
  }

  lemma GetSetAround(data: string, before: string, x: string, name: string, v: string, rest: string, value: string)
    requires data == Around(before, x + name, v, rest) && StrStr(data, name) == Some(|before| + |x|) && '\n' !in v
    ensures Terminated(data, name) && Get(data, name) == Some(v)
    ensures Set(data, name, value) == Some(Around(before, x + name, value, rest))
  {
    hide Around, Pair, StrStr;
    AroundAt(before, x + name, v, rest);
    PrefixOfLine(data, before, x + name, x, name);
    NewPair(before, x, name, value, rest);
  }

  /** When the first line with the name ends with it, the value is the next line, and setting replaces that line. */
  lemma AtLineEnd(ls: seq<string>, name: string, value: string)
    requires AllPlain(ls) && Plain(name) && name != ""
    requires var j := FirstLine(ls, name); j + 1 < |ls| && StrStr(ls[j], name).value + |name| == |ls[j]|
    ensures var j := FirstLine(ls, name);
            && Terminated(Enc(ls), name) && Get(Enc(ls), name) == Some(ls[j + 1])
            && Set(Enc(ls), name, value) == Some(Enc(ls[j + 1 := value]))
  {
    hide Enc, Around, Pair, OccursAt, Get, Set, Terminated, FirstLine, StrStr;
    var j := FirstLine(ls, name);
    EndsWith(ls[j], name);
    StrStrEnc(ls, name);
    EncAround2(ls, j);
    EncReplace(ls, j, value);
    GetSetAround(Enc(ls), Enc(ls[..j]), ls[j][..|ls[j]| - |name|], name, ls[j + 1], Enc(ls[j + 2..]), value);
  }

  lemma EndsWith(l: string, name: string)
    requires Contains(l, name) && StrStr(l, name).value + |name| == |l|
    ensures l == l[..|l| - |name|] + name
  {
  }

  lemma InLineMiddle(ls: seq<string>, name: string, value: string)
    requires AllPlain(ls) && Plain(name) && name != ""
    requires var j := FirstLine(ls, name); j < |ls| && StrStr(ls[j], name).value + |name| < |ls[j]|
    ensures var j := FirstLine(ls, name);
            var o := StrStr(ls[j], name).value;
            && Terminated(Enc(ls), name) && Get(Enc(ls), name) == Some(ls[j][o + |name| + 1..])
            && Set(Enc(ls), name, value) == Some(Enc(ls[..j] + [ls[j][..o] + name, value] + ls[j + 1..]))
  {
    hide Enc, Pair, OccursAt, Get, Set, Terminated, FirstLine, StrStr;
    var j := FirstLine(ls, name);
    var o := StrStr(ls[j], name).value;
    StrStrEnc(ls, name);
    EncAround(ls, j);
    assert Plain(ls[j]);
    InsertLine(ls, j, ls[j][..o] + name, value);
    GetSetMiddle(Enc(ls), Enc(ls[..j]), ls[j], o, name, Enc(ls[j + 1..]), value);
  }

  lemma InsertLine(ls: seq<string>, j: nat, k: string, v: string)
    requires j < |ls|
    ensures Enc(ls[..j] + [k, v] + ls[j + 1..]) == Around(Enc(ls[..j]), k, v, Enc(ls[j + 1..]))
  {
    var r := ls[..j] + [k, v] + ls[j + 1..];
    EncAround2(r, j);
    assert r[..j] == ls[..j] && r[j + 2..] == ls[j + 1..];
  }

  lemma GetSetMiddle(data: string, before: string, l: string, o: nat, name: string, after: string, value: string)
    requires data == before + l + "\n" + after && StrStr(data, name) == Some(|before| + o) && '\n' !in l
        && o + |name| < |l|
    ensures Terminated(data, name) && Get(data, name) == Some(l[o + |name| + 1..])
    ensures Set(data, name, value) == Some(Around(before, l[..o] + name, value, after))
  {
    hide StrStr, Pair;
    var start, end := |before| + o + |name| + 1, |before| + |l|;
    assert forall i :: |before| <= i < end ==> data[i] == l[i - |before|];
    assert data[end] == '\n';
    FindIs(data, '\n', start, end);
    assert data[end + 1..] == after && data[start..end] == l[o + |name| + 1..];
    assert data[..|before| + o] == before + l[..o];
    NewPair(before, l[..o], name, value, after);
  }

  /** The first line of a value: what reading it back gives. */
  function Head(value: string): string {
    value[..Find(value, '\n', 0)]
  }

  lemma HeadIsAll(value: string)
    ensures Head(value) == value <==> '\n' !in value
  {
    var k := Find(value, '\n', 0);
    assert k < |value| ==> value[k] == '\n' && |Head(value)| < |value|;
    assert k == |value| ==> value[..k] == value;
  }

  /** A pair whose name is the first match: reading gives the first line of its value. */
  lemma GetPair(before: string, name: string, value: string, rest: string)
    requires StrStr(before + Pair(name, value) + rest, name) == Some(|before|)
    ensures var d := before + Pair(name, value) + rest; Terminated(d, name) && Get(d, name) == Some(Head(value))
  {
    hide StrStr, Around, Pair, Find;
    var after := HeadOf(value, rest);
    PairAround(before, name, value, rest, Head(value), after);
    AroundAt(before, name, Head(value), after);
    AroundStart(before, name, Head(value), after);
  }

  lemma HeadOf(value: string, rest: string) returns (after: string)
    ensures value + "\n" + rest == Head(value) + "\n" + after && '\n' !in Head(value)
  {
    var k := Find(value, '\n', 0);
    after := if k < |value| then value[k + 1..] + "\n" + rest else rest;
    if k < |value| {
      assert value == Head(value) + "\n" + value[k + 1..];
      assert value + "\n" + rest == Head(value) + "\n" + (value[k + 1..] + "\n" + rest);
    } else {
      assert Head(value) == value;
    }
  }

  lemma AroundStart(before: string, name: string, v: string, after: string)
    ensures |before| + |name| + 1 <= |Around(before, name, v, after)|
  {
  }

  lemma PairAround(before: string, name: string, value: string, rest: string, v: string, after: string)
    requires value + "\n" + rest == v + "\n" + after
    ensures before + Pair(name, value) + rest == Around(before, name, v, after)
  {
    assert before + Pair(name, value) + rest == before + name + "\n" + (value + "\n" + rest);
    assert Around(before, name, v, after) == before + name + "\n" + (v + "\n" + after);
  }

  /** Setting a name that occurs and reading it back: the value up to its first newline, whatever the text was. */
  lemma SetThenGet(data: string, name: string, value: string)
    requires Terminated(data, name) && Contains(data, name)
    ensures var d := Set(data, name, value).value; Terminated(d, name) && Get(d, name) == Some(Head(value))
  {
    hide Get, Find, Pair;
    var at := StrStr(data, name).value;
    var rest := data[Find(data, '\n', at + |name| + 1) + 1..];
    FirstStays(data, Set(data, name, value).value, name, at, value, rest);
    GetPair(data[..at], name, value, rest);
  }

  /** Text behind a complete match changes neither reading nor setting. */
  lemma GetSetMore(s: string, t: string, name: string, value: string)
    requires Contains(s, name) && Terminated(s, name)
    ensures Terminated(s + t, name) && Get(s + t, name) == Get(s, name)
    ensures Set(s + t, name, value) == Some(Set(s, name, value).value + t)
  {
    StrStrMore(s, t, name);
    var start := StrStr(s, name).value + |name| + 1;
    var end := Find(s, '\n', start);
    FindIs(s + t, '\n', start, end);
    assert (s + t)[start..end] == s[start..end] && (s + t)[..start - |name| - 1] == s[..start - |name| - 1];
    assert (s + t)[end + 1..] == s[end + 1..] + t;
    var front := s[..start - |name| - 1] + Pair(name, value);
    assert front + (s[end + 1..] + t) == front + s[end + 1..] + t;
  }

  lemma FirstStays(data: string, d: string, name: string, at: nat, value: string, rest: string)
    requires StrStr(data, name) == Some(at) && d == data[..at] + Pair(name, value) + rest
    ensures StrStr(d, name) == Some(at)
  {
    hide StrStr;
    assert OccursAt(data, name, at);
    var u := data[..at + |name|];
    assert data == u + data[at + |name|..];
    StrStrLess(u, data[at + |name|..], name, at);
    assert u == data[..at] + name;
    assert d == u + ("\n" + value + "\n" + rest);
    StrStrMore(u, "\n" + value + "\n" + rest, name);
  }

  // Cutting lines out

  /** The text left when everything from inside line j (after x) up to line k is cut out. */
  function Cut(ls: seq<string>, j: nat, x: string, k: nat): string
    requires j <= k <= |ls|
  {
    Enc(ls[..j]) + x + Enc(ls[k..])
  }

  lemma CutIsLines(ls: seq<string>, j: nat, x: string, k: nat)
    requires j <= k < |ls|
    ensures Cut(ls, j, x, k) == Enc(ls[..j] + [x + ls[k]] + ls[k + 1..])
  {
    hide Enc;
    var r := ls[..j] + [x + ls[k]] + ls[k + 1..];
    EncAround(r, j);
    assert r[..j] == ls[..j] && r[j + 1..] == ls[k + 1..] && r[j] == x + ls[k];
    EncCons(ls, k);
    CutAssoc(Enc(ls[..j]), x, ls[k], Enc(ls[k + 1..]));
  }

  lemma CutAssoc(a: string, x: string, l: string, b: string)
    ensures a + x + (l + "\n" + b) == a + (x + l) + "\n" + b
  {
  }

  lemma CutWhole(ls: seq<string>, j: nat, k: nat)
    requires j <= k <= |ls|
    ensures Cut(ls, j, "", k) == Enc(ls[..j] + ls[k..])
  {
    EncConcat(ls[..j], ls[k..]);
    assert Enc(ls[..j]) + "" == Enc(ls[..j]);
  }

  /** Cutting d lines at j (keeping x) gives the text without the d lines at m exactly when the lines in between
      repeat with period d. */
  lemma CutElsewhere(ls: seq<string>, j: nat, x: string, m: nat, d: nat)
    requires AllPlain(ls) && Plain(x) && j < m && d > 0 && m + d <= |ls|
    ensures Cut(ls, j, x, j + d) == Enc(ls[..m] + ls[m + d..]) <==>
            x + ls[j + d] == ls[j] && forall k :: j < k < m ==> ls[k + d] == ls[k]
  {
    hide Enc, Cut;
    var a, b := ls[..j] + [x + ls[j + d]] + ls[j + d + 1..], ls[..m] + ls[m + d..];
    CutIsLines(ls, j, x, j + d);
    SameLines(ls, j, x + ls[j + d], m, d);
    assert AllPlain(a) && AllPlain(b);
    if Enc(a) == Enc(b) {
      EncInjective(a, b);
    }
  }

  lemma SameLines(ls: seq<string>, j: nat, y: string, m: nat, d: nat)
    requires j < m && d > 0 && m + d <= |ls|
    ensures ls[..j] + [y] + ls[j + d + 1..] == ls[..m] + ls[m + d..] <==>
            y == ls[j] && forall k :: j < k < m ==> ls[k + d] == ls[k]
  {
    var a, b := ls[..j] + [y] + ls[j + d + 1..], ls[..m] + ls[m + d..];
    if a == b {
      assert a[j] == b[j];
      forall k | j < k < m ensures ls[k + d] == ls[k] {
        assert a[k] == b[k];
      }
    }
    if y == ls[j] && forall k :: j < k < m ==> ls[k + d] == ls[k] {
      assert forall k :: 0 <= k < |a| ==> a[k] == b[k];
    }
  }

  /** Texts with different numbers of lines differ. */
  lemma LineCountsDiffer(a: seq<string>, b: seq<string>)
    requires AllPlain(a) && AllPlain(b) && |a| != |b|
    ensures Enc(a) != Enc(b)
  {
    NewlinesEnc(a);
    NewlinesEnc(b);
  }
}
