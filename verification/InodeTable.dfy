/** The serialized inode table and the link list of a directory: adding to them, removing from them by first
    substring, and parsing them back. */
module InodeTable {
  import opened CStrings
  import opened Lines
  import opened Items
  import opened DataParser

  // path\nino\n for every entry

  function TableLines(t: seq<Item>): (ls: seq<string>)
    ensures |ls| == 2 * |t|
  {
    seq(2 * |t|, i requires 0 <= i < 2 * |t| => if i % 2 == 0 then t[i / 2].key else Dec(t[i / 2].value))
  }

  function EncTable(t: seq<Item>): string {
    Enc(TableLines(t))
  }

  /** Paths as the table needs them: absolute, so no numeral contains one, and on one line. */
  predicate TablePath(p: string) {
    Plain(p) && p != "" && p[0] == '/'
  }

  ghost predicate TablePaths(t: seq<Item>) {
    Distinct(t) && forall i :: 0 <= i < |t| ==> TablePath(t[i].key)
  }

  lemma DecPlain(n: nat)
    ensures Plain(Dec(n))
  {
  }

  lemma TablePlain(t: seq<Item>)
    requires TablePaths(t)
    ensures AllPlain(TableLines(t)) && CStr(EncTable(t)) == EncTable(t)
  {
    forall i | 0 <= i < 2 * |t| ensures Plain(TableLines(t)[i]) {
      DecPlain(t[i / 2].value);
    }
    EncNoNul(TableLines(t));
  }

  /** The table, written out. */
  lemma {:induction false} TableText(t: seq<Item>, path: string, ino: nat)
    ensures EncTable([]) == "" && EncTable(t + [Item(path, ino)]) == EncTable(t) + path + "\n" + Dec(ino) + "\n"
  {
    AddAppends(t, path, ino);
  }

  /** add_inode_to_table */
  function AddInodeToTable(table: string, path: string, ino: nat): string {
    table + path + "\n" + Dec(ino) + "\n"
  }

  lemma AddAppends(t: seq<Item>, path: string, ino: nat)
    ensures AddInodeToTable(EncTable(t), path, ino) == EncTable(t + [Item(path, ino)])
  {
    hide Enc;
    assert TableLines(t + [Item(path, ino)]) == TableLines(t) + [path, Dec(ino)];
    EncConcat(TableLines(t), [path, Dec(ino)]);
    EncTwo(path, Dec(ino));
    Assoc5(EncTable(t), path, Dec(ino));
  }

  lemma Assoc5(a: string, p: string, d: string)
    ensures a + (p + "\n" + d + "\n") == a + p + "\n" + d + "\n"
  {
  }

  /** Everything from the first match of the path to the end of the line after the character that follows it. */
  function RemovePath(table: string, path: string): Option<string>
    requires Terminated(table, path)
  {
    match StrStr(table, path)
    case None => None
    case Some(at) => Some(table[..at] + table[Find(table, '\n', at + |path| + 1) + 1..])
  }

  /** remove_inode_from_table */
  method RemoveInodeFromTable(table: string, path: string) returns (result: Option<string>)
    requires Terminated(table, path)
    ensures result == RemovePath(table, path)
  {
    var inode := StrStr(table, path);
    if inode == None {
      return None;
    }
    var index := inode.value;
    var restIndex := SkipLine(table, index + |path| + 1);
    result := Some(table[..index] + table[restIndex..]);
  }

  // What removal by first substring removes

  /** The first entry that contains the path. */
  function FirstEntry(t: seq<Item>, path: string): (i: nat)
    ensures i <= |t|
    ensures forall k :: 0 <= k < i ==> !Contains(t[k].key, path)
    ensures i < |t| ==> Contains(t[i].key, path)
  {
    if t == [] || Contains(t[0].key, path) then 0 else 1 + FirstEntry(t[1..], path)
  }

  lemma NoPathInNumeral(n: nat, path: string)
    requires TablePath(path)
    ensures !Contains(Dec(n), path)
  {
    forall o: nat ensures !OccursAt(Dec(n), path, o) {
      if o + |path| <= |Dec(n)| {
        assert Dec(n)[o..o + |path|][0] == Dec(n)[o] != '/';
      }
    }
  }

  lemma FirstEntryLine(t: seq<Item>, path: string)
    requires TablePath(path)
    ensures FirstLine(TableLines(t), path) == 2 * FirstEntry(t, path)
  {
    var i, ls := FirstEntry(t, path), TableLines(t);
    forall k | 0 <= k < 2 * i ensures !Contains(ls[k], path) {
      NoPathInNumeral(t[k / 2].value, path);
      assert k % 2 == 0 ==> ls[k] == t[k / 2].key;
    }
    FirstLineIs(ls, path, 2 * i);
  }

  lemma RemoveAround(data: string, before: string, x: string, path: string, v: string, rest: string)
    requires data == Around(before, x + path, v, rest) && StrStr(data, path) == Some(|before| + |x|) && '\n' !in v
    ensures Terminated(data, path) && RemovePath(data, path) == Some(before + x + rest)
  {
    hide Around, StrStr;
    AroundAt(before, x + path, v, rest);
    PrefixOfLine(data, before, x + path, x, path);
  }

  /** A match at the end of line j takes the next line along. */
  lemma RemoveAtLineEnd(ls: seq<string>, path: string, j: nat, x: string)
    requires AllPlain(ls) && Plain(path) && path != "" && j == FirstLine(ls, path) && j + 1 < |ls|
    requires ls[j] == x + path && StrStr(ls[j], path) == Some(|x|)
    ensures Terminated(Enc(ls), path) && RemovePath(Enc(ls), path) == Some(Cut(ls, j, x, j + 2))
  {
    hide Enc, Around, OccursAt, Terminated, RemovePath, FirstLine, StrStr;
    StrStrEnc(ls, path);
    EncAround2(ls, j);
    RemoveAround(Enc(ls), Enc(ls[..j]), x, path, ls[j + 1], Enc(ls[j + 2..]));
  }

  /** A match inside line j takes only the rest of that line. */
  lemma RemoveInLine(ls: seq<string>, path: string, j: nat, o: nat)
    requires AllPlain(ls) && Plain(path) && path != "" && j == FirstLine(ls, path) && j < |ls|
    requires StrStr(ls[j], path) == Some(o) && o + |path| < |ls[j]|
    ensures Terminated(Enc(ls), path) && RemovePath(Enc(ls), path) == Some(Cut(ls, j, ls[j][..o], j + 1))
  {
    hide Enc, OccursAt, Terminated, RemovePath, FirstLine, StrStr;
    StrStrEnc(ls, path);
    EncAround(ls, j);
    RemoveMiddle(Enc(ls), Enc(ls[..j]), ls[j], o, path, Enc(ls[j + 1..]));
  }

  lemma RemoveMiddle(data: string, before: string, l: string, o: nat, path: string, after: string)
    requires data == before + l + "\n" + after && '\n' !in l && o + |path| < |l|
        && StrStr(data, path) == Some(|before| + o)
    ensures Terminated(data, path) && RemovePath(data, path) == Some(before + l[..o] + after)
  {
    hide StrStr;
    MiddleCut(data, before, l, o, path, after);
  }

  lemma MiddleCut(data: string, before: string, l: string, o: nat, path: string, after: string)
    requires data == before + l + "\n" + after && '\n' !in l && o + |path| < |l|
    ensures Find(data, '\n', |before| + o + |path| + 1) == |before| + |l|
    ensures data[..|before| + o] + data[|before| + |l| + 1..] == before + l[..o] + after
  {
    var start, end := |before| + o + |path| + 1, |before| + |l|;
    assert forall i :: |before| <= i < end ==> data[i] == l[i - |before|];
    assert data[end] == '\n';
    FindIs(data, '\n', start, end);
    assert data[end + 1..] == after && data[..|before| + o] == before + l[..o];
  }

  /** When removing the path of entry m takes exactly that entry: no earlier entry contains the path, or only the
      entry just before does, at its end, and maps to the same inode. */
  predicate RemovesEntry(t: seq<Item>, m: nat)
    requires m < |t|
  {
    var i := FirstEntry(t, t[m].key);
    i >= m || (i + 1 == m && StrStr(t[i].key, t[m].key).value + |t[m].key| == |t[i].key| && t[i].value == t[m].value)
  }

  lemma TableWithout(t: seq<Item>, m: nat)
    requires m < |t|
    ensures TableLines(t[..m] + t[m + 1..]) == TableLines(t)[..2 * m] + TableLines(t)[2 * m + 2..]
  {
    hide TableLines;
    TableConcat(t[..m], t[m + 1..]);
    TableSlices(t, m);
    TableSlices(t, m + 1);
  }

  lemma TableConcat(a: seq<Item>, b: seq<Item>)
    ensures TableLines(a + b) == TableLines(a) + TableLines(b)
  {
  }

  lemma TableSlices(t: seq<Item>, m: nat)
    requires m <= |t|
    ensures TableLines(t[..m]) == TableLines(t)[..2 * m] && TableLines(t[m..]) == TableLines(t)[2 * m..]
  {
  }

  /** remove_inode_from_table takes entry m and nothing else, exactly under RemovesEntry. */
  lemma RemoveExactly(t: seq<Item>, m: nat)
    requires TablePaths(t) && m < |t|
    ensures Terminated(EncTable(t), t[m].key)
    ensures RemovePath(EncTable(t), t[m].key) == Some(EncTable(t[..m] + t[m + 1..])) <==> RemovesEntry(t, m)
  {
    hide Enc, Cut, OccursAt, RemovePath, TableLines, StrStr, Terminated, RemovesEntry, FirstEntry, FirstLine;
    var path, ls, i := t[m].key, TableLines(t), FirstEntry(t, t[m].key);
    TableFacts(t, m);
    if StrStr(ls[2 * i], path).value + |path| < |ls[2 * i]| {
      TableWithout(t, m);
      RemoveInLine(ls, path, 2 * i, StrStr(ls[2 * i], path).value);
      CutInLine(t, m);
    } else {
      RemoveAtEnd(t, m);
    }
  }

  lemma RemoveAtEnd(t: seq<Item>, m: nat)
    requires TablePaths(t) && m < |t| && FirstEntry(t, t[m].key) <= m
    requires var l := t[FirstEntry(t, t[m].key)].key;
             StrStr(l, t[m].key).Some? && StrStr(l, t[m].key).value + |t[m].key| == |l|
    ensures Terminated(EncTable(t), t[m].key)
    ensures RemovePath(EncTable(t), t[m].key) == Some(EncTable(t[..m] + t[m + 1..])) <==> RemovesEntry(t, m)
  {
    hide Enc, Cut, OccursAt, RemovePath, TableLines, StrStr, Terminated, FirstEntry, FirstLine;
    var path, ls, i := t[m].key, TableLines(t), FirstEntry(t, t[m].key);
    TableFacts(t, m);
    TableWithout(t, m);
    EndsWith(ls[2 * i], path);
    RemoveAtLineEnd(ls, path, 2 * i, ls[2 * i][..|ls[2 * i]| - |path|]);
    if i == m {
      CutWhole(ls, 2 * m, 2 * m + 2);
    } else {
      CutElsewhere(ls, 2 * i, ls[2 * i][..|ls[2 * i]| - |path|], 2 * m, 2);
      Periodic(t, i, m);
    }
  }

  lemma TableFacts(t: seq<Item>, m: nat)
    requires TablePaths(t) && m < |t|
    ensures var path, ls, i := t[m].key, TableLines(t), FirstEntry(t, t[m].key);
            && i <= m && FirstLine(ls, path) == 2 * i && AllPlain(ls) && |ls| == 2 * |t| && TablePath(path)
            && ls[2 * i] == t[i].key && Contains(ls[2 * i], path)
            && (i == m ==> StrStr(ls[2 * i], path) == Some(0))
            && StrStr(ls[2 * i], path).value + |path| <= |ls[2 * i]|
  {
    hide TableLines, Plain, Enc, EncTable;
    StrStrSelf(t[m].key);
    FirstEntryLine(t, t[m].key);
    TablePlain(t);
    TableIndex(t, FirstEntry(t, t[m].key));
  }

  lemma TableIndex(t: seq<Item>, i: nat)
    requires i < |t|
    ensures |TableLines(t)| == 2 * |t| && TableLines(t)[2 * i] == t[i].key
        && TableLines(t)[2 * i + 1] == Dec(t[i].value)
  {
  }

  /** Too few newlines go when the match is inside a longer path. */
  lemma CutInLine(t: seq<Item>, m: nat)
    requires TablePaths(t) && m < |t|
    requires var i := FirstEntry(t, t[m].key); i < |t| && StrStr(t[i].key, t[m].key).value + |t[m].key| < |t[i].key|
    ensures var i := FirstEntry(t, t[m].key);
            && Cut(TableLines(t), 2 * i, t[i].key[..StrStr(t[i].key, t[m].key).value], 2 * i + 1)
               != Enc(TableLines(t)[..2 * m] + TableLines(t)[2 * m + 2..])
            && !RemovesEntry(t, m)
  {
    hide Enc, OccursAt, TableLines;
    TableFacts(t, m);
    var i, ls := FirstEntry(t, t[m].key), TableLines(t);
    var x := t[i].key[..StrStr(t[i].key, t[m].key).value];
    CutIsLines(ls, 2 * i, x, 2 * i + 1);
    var a, b := ls[..2 * i] + [x + ls[2 * i + 1]] + ls[2 * i + 2..], ls[..2 * m] + ls[2 * m + 2..];
    assert AllPlain(a) && AllPlain(b) && |a| == |b| + 1;
    LineCountsDiffer(a, b);
  }

  /** Distinct paths cannot repeat, so the period is one entry long. */
  lemma Periodic(t: seq<Item>, i: nat, m: nat)
    requires TablePaths(t) && i < m < |t| && i == FirstEntry(t, t[m].key)
    requires StrStr(t[i].key, t[m].key).value + |t[m].key| == |t[i].key|
    ensures var ls, path := TableLines(t), t[m].key;
            (ls[2 * i][..|ls[2 * i]| - |path|] + ls[2 * i + 2] == ls[2 * i]
             && forall k :: 2 * i < k < 2 * m ==> ls[k + 2] == ls[k])
            <==> RemovesEntry(t, m)
  {
    hide TableLines, OccursAt, StrStr, RemovesEntry;
    var ls, path := TableLines(t), t[m].key;
    var x := t[i].key[..|t[i].key| - |path|];
    EndsWith(t[i].key, path);
    FourLines(t, i);
    NextOnly(t, i, m);
    assert ls[2 * i] == x + path;
    if x + ls[2 * i + 2] == ls[2 * i] && forall k :: 2 * i < k < 2 * m ==> ls[k + 2] == ls[k] {
      SameTail(x, t[i + 1].key, path);
      assert ls[2 * i + 1 + 2] == ls[2 * i + 1];
      DecInjective(t[i].value, t[i + 1].value);
    }
    if RemovesEntry(t, m) {
      OnlyOneBetween(ls, i, m);
    }
  }

  lemma FourLines(t: seq<Item>, i: nat)
    requires i + 1 < |t|
    ensures |TableLines(t)| == 2 * |t| && TableLines(t)[2 * i] == t[i].key
        && TableLines(t)[2 * i + 1] == Dec(t[i].value)
    ensures TableLines(t)[2 * i + 2] == t[i + 1].key && TableLines(t)[2 * i + 3] == Dec(t[i + 1].value)
  {
    hide Dec;
  }

  lemma OnlyOneBetween(ls: seq<string>, i: nat, m: nat)
    requires i + 1 == m && 2 * i + 3 < |ls| && ls[2 * i + 3] == ls[2 * i + 1]
    ensures forall k :: 2 * i < k < 2 * m ==> ls[k + 2] == ls[k]
  {
    forall k | 2 * i < k < 2 * m ensures ls[k + 2] == ls[k] {
      assert k == 2 * i + 1;
    }
  }

  lemma NextOnly(t: seq<Item>, i: nat, m: nat)
    requires Distinct(t) && i < m < |t| && i == FirstEntry(t, t[m].key)
    requires StrStr(t[i].key, t[m].key).Some? && StrStr(t[i].key, t[m].key).value + |t[m].key| == |t[i].key|
    ensures RemovesEntry(t, m) <==> i + 1 == m && t[i].value == t[m].value
    ensures t[i + 1].key == t[m].key <==> i + 1 == m
  {
    hide StrStr;
  }

  // Parsing

  /** The entries in the lines path, ino, path, ino, ... */
  function ParseLines(ls: seq<string>): seq<Item> {
    if |ls| < 2 then [] else [Item(ls[0], Atoi(ls[1]))] + ParseLines(ls[2..])
  }

  /** What a remount reads from a stored table. */
  function ParseTable(table: string): seq<Item> {
    ParseLines(Split(table))
  }

  lemma {:induction false} ParseTableLines(t: seq<Item>)
    ensures ParseLines(TableLines(t)) == t
  {
    if t != [] {
      AtoiDec(t[0].value, []);
      assert Dec(t[0].value) + [] == Dec(t[0].value);
      TableHead(t);
      ParseTwo(t[0].key, Dec(t[0].value), TableLines(t[1..]));
      ParseTableLines(t[1..]);
    }
  }

  lemma TableHead(t: seq<Item>)
    requires t != []
    ensures TableLines(t) == [t[0].key, Dec(t[0].value)] + TableLines(t[1..])
  {
  }

  lemma ParseTwo(k: string, v: string, rest: seq<string>)
    ensures ParseLines([k, v] + rest) == [Item(k, Atoi(v))] + ParseLines(rest)
  {
    assert ([k, v] + rest)[2..] == rest;
  }

  /** Parsing inverts printing. */
  lemma ParseEnc(t: seq<Item>)
    requires TablePaths(t)
    ensures ParseTable(EncTable(t)) == t
  {
    TablePlain(t);
    SplitEnc(TableLines(t));
    ParseTableLines(t);
  }
}
