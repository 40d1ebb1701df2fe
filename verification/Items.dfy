/** The entries of the index: a path and its inode id, in application order. */
module Items {

  datatype Item = Item(key: string, value: nat)

  function Keys(s: seq<Item>): set<string> {
    set i | 0 <= i < |s| :: s[i].key
  }

  /** The entries without the first one for the key. */
  function Without(s: seq<Item>, key: string): (r: seq<Item>)
    ensures |r| == if key in Keys(s) then |s| - 1 else |s|
  {
    if s == [] then []
    else if s[0].key == key then (assert s[0].key in Keys(s); s[1..])
    else (WithoutHead(s, key); [s[0]] + Without(s[1..], key))
  }

  lemma WithoutHead(s: seq<Item>, key: string)
    requires s != [] && s[0].key != key
    ensures key in Keys(s) <==> key in Keys(s[1..])
  {
    if key in Keys(s) {
      var i :| 0 <= i < |s| && s[i].key == key;
      assert s[1..][i - 1].key == key;
    }
    if key in Keys(s[1..]) {
      var i :| 0 <= i < |s| - 1 && s[1..][i].key == key;
      assert s[i + 1].key == key;
    }
  }

  lemma {:induction false} WithoutAt(s: seq<Item>, p: nat)
    requires p < |s| && forall i :: 0 <= i < p ==> s[i].key != s[p].key
    ensures Without(s, s[p].key) == s[..p] + s[p + 1..]
  {
    if p > 0 {
      assert s[0].key != s[p].key && s[1..][p - 1] == s[p];
      WithoutAt(s[1..], p - 1);
      Shift(s, p);
    }
  }

  lemma Shift(s: seq<Item>, p: nat)
    requires 0 < p < |s|
    ensures s[..p] + s[p + 1..] == [s[0]] + (s[1..][..p - 1] + s[1..][p..])
  {
  }

  ghost predicate Distinct(s: seq<Item>) {
    forall i, j :: 0 <= i < j < |s| ==> s[i].key != s[j].key
  }

  /** The index as a finite map. */
  function ToMap(s: seq<Item>): (m: map<string, nat>)
    ensures m.Keys == Keys(s)
  {
    if s == [] then map[]
    else (KeysLast(s); ToMap(s[..|s| - 1])[s[|s| - 1].key := s[|s| - 1].value])
  }

  lemma KeysLast(s: seq<Item>)
    requires s != []
    ensures Keys(s) == Keys(s[..|s| - 1]) + {s[|s| - 1].key}
  {
    var t := s[..|s| - 1];
    forall k | k in Keys(s) ensures k in Keys(t) + {s[|s| - 1].key} {
      var i :| 0 <= i < |s| && s[i].key == k;
      assert i == |s| - 1 || t[i].key == k;
    }
    forall k | k in Keys(t) ensures k in Keys(s) {
      var i :| 0 <= i < |t| && t[i].key == k;
      assert s[i].key == k;
    }
  }

  lemma {:induction false} MapAt(s: seq<Item>, i: nat)
    requires Distinct(s) && i < |s|
    ensures s[i].key in ToMap(s) && ToMap(s)[s[i].key] == s[i].value
  {
    if i < |s| - 1 {
      MapAt(s[..|s| - 1], i);
    }
  }

  lemma MapAppend(s: seq<Item>, x: Item)
    ensures ToMap(s + [x]) == ToMap(s)[x.key := x.value]
  {
    assert (s + [x])[..|s|] == s;
  }

  lemma MapWithout(s: seq<Item>, key: string)
    requires Distinct(s)
    ensures Distinct(Without(s, key)) && ToMap(Without(s, key)) == ToMap(s) - {key}
  {
    if key in Keys(s) {
      var p :| 0 <= p < |s| && s[p].key == key;
      WithoutAt(s, p);
      RemovedMap(s, p);
    } else {
      WithoutNone(s, key);
    }
  }

  lemma RemovedMap(s: seq<Item>, p: nat)
    requires Distinct(s) && p < |s|
    ensures var r := s[..p] + s[p + 1..]; Distinct(r) && ToMap(r) == ToMap(s) - {s[p].key}
  {
    hide ToMap;
    var r := s[..p] + s[p + 1..];
    RemovedDistinct(s, p);
    forall k | k in ToMap(s) && k != s[p].key ensures k in ToMap(r) && ToMap(r)[k] == ToMap(s)[k] {
      var i := MapLookup(s, k);
      MapAt(r, if i < p then i else i - 1);
    }
    forall k | k in ToMap(r) ensures k in ToMap(s) && k != s[p].key {
      var i := MapLookup(r, k);
      MapAt(s, if i < p then i else i + 1);
    }
  }

  lemma RemovedDistinct(s: seq<Item>, p: nat)
    requires Distinct(s) && p < |s|
    ensures Distinct(s[..p] + s[p + 1..])
  {
  }

  lemma {:induction false} WithoutNone(s: seq<Item>, key: string)
    requires key !in Keys(s)
    ensures Without(s, key) == s
  {
    if s != [] {
      assert s[0].key in Keys(s);
      WithoutHead(s, key);
      WithoutNone(s[1..], key);
    }
  }

  lemma MapLookup(s: seq<Item>, k: string) returns (i: nat)
    requires Distinct(s) && k in ToMap(s)
    ensures i < |s| && s[i] == Item(k, ToMap(s)[k])
  {
    i :| 0 <= i < |s| && s[i].key == k;
    MapAt(s, i);
  }

  /** Distinct entries in another order are the same map. */
  lemma SameMap(s: seq<Item>, r: seq<Item>)
    requires Distinct(s) && Distinct(r) && multiset(s) == multiset(r)
    ensures ToMap(s) == ToMap(r)
  {
    hide ToMap;
    Included(s, r);
    Included(r, s);
  }

  lemma Included(s: seq<Item>, r: seq<Item>)
    requires Distinct(s) && Distinct(r) && multiset(s) == multiset(r)
    ensures forall k :: k in ToMap(s) ==> k in ToMap(r) && ToMap(r)[k] == ToMap(s)[k]
  {
    hide ToMap;
    forall k | k in ToMap(s) ensures k in ToMap(r) && ToMap(r)[k] == ToMap(s)[k] {
      var i := MapLookup(s, k);
      assert s[i] in multiset(s);
      assert s[i] in multiset(r);
      var j :| 0 <= j < |r| && r[j] == s[i];
      MapAt(r, j);
    }
  }
}
