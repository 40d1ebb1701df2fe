/** hashtable.c: the path-to-inode index over the hash table. */
module Hashtable {
  import opened CStrings
  import opened Lines
  import opened Items
  import opened Directory
  import opened InodeTable
  import opened UtHash

  /** hashtable_add_entry */
  method AddEntry(t: HashTable, link: string, inodeValue: nat)
    requires t.Valid() && link !in Keys(t.Pairs())
    modifies t.Repr()
    ensures t.Valid() && t.Pairs() == old(t.Pairs()) + [Item(link, inodeValue)]
    ensures fresh(t.Repr() - old(t.Repr()))
  {
    t.Add(Item(link, inodeValue));
  }

  /** hashable_get_entry: the inode of a path, or -1. */
  method GetEntry(t: HashTable, link: string) returns (value: int)
    requires t.Valid()
    ensures value == if link in ToMap(t.Pairs()) then ToMap(t.Pairs())[link] else -1
  {
    hide ToMap;
    var h := t.Find(link);
    value := -1;
    if h != null {
      value := h.item.value;
      FoundEntry(t, h);
    }
  }

  lemma FoundEntry(t: HashTable, h: Node)
    requires t.Valid() && h in t.items
    ensures h.item.key in ToMap(t.Pairs()) && ToMap(t.Pairs())[h.item.key] == h.item.value
  {
    var i :| 0 <= i < |t.items| && t.items[i] == h;
    PairsDistinct(t.items);
    MapAt(t.Pairs(), i);
  }

  /** hashtable_remove_entry, on a path that has an entry. */
  method RemoveEntry(t: HashTable, link: string) returns (value: nat)
    requires t.Valid() && link in ToMap(t.Pairs())
    modifies t.Repr()
    ensures t.Valid() && t.Pairs() == Without(old(t.Pairs()), link) && value == old(ToMap(t.Pairs())[link])
    ensures t.Repr() <= old(t.Repr())
  {
    hide ToMap, Without;
    var h := t.Find(link);
    FoundEntry(t, h);
    value := h.item.value;
    t.Delete(h);
  }

  /** hashtable_string_to_table: the parser run at mount. */
  method StringToTable(t: HashTable, links: string)
    requires t.Valid() && t.Pairs() == [] && Distinct(ParseTable(CStr(links)))
    modifies t.Repr()
    ensures t.Valid() && t.Pairs() == ParseTable(CStr(links))
    ensures fresh(t.Repr() - old(t.Repr()))
  {
    hide Split, ParseLines, ToMap, Keys, HashTable.Valid, HashTable.Pairs;
    var s := CStr(links);
    var index, curWordSize: nat := 0, 0;
    var isLink, link := true, "";
    ghost var all, done := ParseTable(s), [];
    ParseStart(s);
    while index < |s|
      invariant index <= |s| && curWordSize <= index
      invariant forall j :: index - curWordSize <= j < index ==> s[j] != '\n'
      invariant t.Valid() && t.Pairs() == done && fresh(t.Repr() - old(t.Repr()))
      invariant all == done + ParseLines((if isLink then [] else [link]) + Split(s[index - curWordSize..]))
    {
      if s[index] == '\n' {
        var curWord := s[index - curWordSize..index];
        SplitStep(s, index - curWordSize, index);
        if isLink {
          link := curWord;
          isLink := false;
        } else {
          var value := Atoi(curWord);
          ParsePair(link, curWord, Split(s[index + 1..]));
          NextIsNew(all, done, Item(link, value), ParseLines(Split(s[index + 1..])));
          AddEntry(t, link, value);
          done := done + [Item(link, value)];
          isLink := true;
        }
        curWordSize := 0;
        DropEmpty(Split(s[index + 1..]), link, curWord, isLink);
      } else {
        curWordSize := curWordSize + 1;
      }
      index := index + 1;
    }
    SplitEnd(s, index - curWordSize);
    ParseEnd(if isLink then [] else [link]);
  }

  lemma ParseStart(s: string)
    ensures ParseTable(s) == [] + ParseLines([] + Split(s[0..]))
  {
    assert s[0..] == s && [] + Split(s) == Split(s);
  }

  lemma ParsePair(link: string, word: string, rest: seq<string>)
    ensures ParseLines([link] + ([word] + rest)) == [Item(link, Atoi(word))] + ParseLines(rest)
  {
    var ls := [link] + ([word] + rest);
    assert ls[0] == link && ls[1] == word && ls[2..] == rest;
  }

  lemma NextIsNew(all: seq<Item>, done: seq<Item>, x: Item, rest: seq<Item>)
    requires Distinct(all) && all == done + ([x] + rest)
    ensures x.key !in Keys(done) && all == (done + [x]) + rest
  {
    assert all == (done + [x]) + rest;
    forall i | 0 <= i < |done| ensures done[i].key != x.key {
      assert all[i] == done[i] && all[|done|] == x;
    }
  }

  lemma DropEmpty(rest: seq<string>, link: string, word: string, isLink: bool)
    ensures [] + rest == rest && [] + ([word] + rest) == [word] + rest
  {
  }

  lemma ParseEnd(ls: seq<string>)
    requires |ls| < 2
    ensures ParseLines(ls + []) == []
  {
    assert ls + [] == ls;
  }

  /** hashtable_free */
  method FreeTable(t: HashTable)
    requires t.Valid()
    modifies t.Repr()
    ensures t.Valid() && t.Pairs() == []
  {
    t.Free();
  }
}
