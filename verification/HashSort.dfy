/** HASH_SRT: sorts the application-order list in place, relinking its nodes. */
module HashSort {
  import opened Bits
  import opened Items
  import opened UtHash
  import opened MergeSort

  /** The sorted part built so far: linked both ways, except that its last `next` is still stale. */
  ghost predicate OutOk(d: seq<Node>, list: Node?, tail: Node?)
    reads Nodes(d)`next, Nodes(d)`prev
  {
    && list == (if d == [] then null else d[0]) && tail == (if d == [] then null else d[|d| - 1])
    && (forall i {:trigger d[i].next} :: 0 <= i < |d| - 1 ==> d[i].next == d[i + 1])
    && (forall i {:trigger d[i].prev} :: 0 <= i < |d| ==> d[i].prev == (if i > 0 then d[i - 1] else null))
  }

  /** A run still to be merged: linked from each node to the next. */
  ghost predicate RunOk(p: seq<Node>)
    reads Nodes(p)`next
  {
    forall i {:trigger p[i].next} :: 0 <= i < |p| - 1 ==> p[i].next == p[i + 1]
  }

  /** The rest of the list, from q to its end. */
  ghost predicate RestOk(s: seq<Node>, q: Node?)
    reads Nodes(s)`next
  {
    && q == (if s == [] then null else s[0])
    && (forall i {:trigger s[i].next} :: 0 <= i < |s| ==> s[i].next == (if i + 1 < |s| then s[i + 1] else null))
  }

  /** Appends e to the sorted part. */
  method Emit(e: Node, list: Node?, tail: Node?, ghost q: Node?, ghost d: seq<Node>, ghost p: seq<Node>,
          ghost s: seq<Node>)
    returns (list': Node?, tail': Node?)
    requires OutOk(d, list, tail) && RunOk(p) && RestOk(s, q) && NoDup(d + [e] + p + s)
    modifies Nodes(d)`next, e`prev
    ensures OutOk(d + [e], list', tail') && RunOk(p) && RestOk(s, q)
  {
    list', tail' := list, tail;
    LastApart(d, e, p, s);
    if tail' != null {
      tail'.next := e;
    } else {
      list' := e;
    }
    e.prev := tail';
    tail' := e;
  }

  lemma LastApart(d: seq<Node>, e: Node, p: seq<Node>, s: seq<Node>)
    requires NoDup(d + [e] + p + s)
    ensures forall i :: 0 <= i < |d| ==> d[i] != e && (i < |d| - 1 ==> d[i] != d[|d| - 1])
    ensures d != [] ==>
              && (forall i :: 0 <= i < |p| ==> p[i] != d[|d| - 1])
              && (forall i :: 0 <= i < |s| ==> s[i] != d[|d| - 1])
  {
    var all := d + [e] + p + s;
    assert forall i :: 0 <= i < |d| ==> all[i] == d[i];
    assert all[|d|] == e;
    assert forall i :: 0 <= i < |p| ==> all[|d| + 1 + i] == p[i];
    assert forall i :: 0 <= i < |s| ==> all[|d| + 1 + |p| + i] == s[i];
  }

  /** The nodes of the three parts, before and after the head of the run p goes to the sorted part. */
  lemma TakeP(d: seq<Node>, p: seq<Node>, s: seq<Node>)
    requires p != [] && NoDup(d + p + s)
    ensures d + p + s == d + [p[0]] + p[1..] + s == (d + [p[0]]) + p[1..] + s
  {
    assert p == [p[0]] + p[1..];
  }

  /** The same for the head of the run s, which overtakes the run p. */
  lemma TakeQ(d: seq<Node>, p: seq<Node>, s: seq<Node>)
    requires s != [] && NoDup(d + p + s)
    ensures NoDup(d + [s[0]] + p + s[1..]) && Nodes(d + [s[0]] + p + s[1..]) == Nodes(d + p + s)
  {
    var was, now := d + p + s, d + [s[0]] + p + s[1..];
    var from := (i: nat) => if i < |d| then i else if i == |d| then |d| + |p| else if i <= |d| + |p| then i - 1 else i;
    assert forall i :: 0 <= i < |now| ==> 0 <= from(i) < |was| && now[i] == was[from(i)];
    forall n | n in was ensures n in now {
      var i :| 0 <= i < |was| && was[i] == n;
      var k := if i < |d| then i else if i == |d| + |p| then |d| else if i < |d| + |p| then i + 1 else i;
      assert n == now[k];
    }
  }

  lemma MergeTakesP(p: seq<Item>, q: seq<Item>, cmp: (Item, Item) -> int)
    requires p != [] && (q != [] ==> cmp(p[0], q[0]) <= 0)
    ensures Merge(p, q, cmp) == [p[0]] + Merge(p[1..], q, cmp)
  {
  }

  lemma MergeTakesQ(p: seq<Item>, q: seq<Item>, cmp: (Item, Item) -> int)
    requires q != [] && (p != [] ==> cmp(p[0], q[0]) > 0)
    ensures Merge(p, q, cmp) == [q[0]] + Merge(p, q[1..], cmp)
  {
  }

  /** The state of one merge: the sorted part d, the left run p and the rest s of the list, whose first qsize
      nodes are the right run. */
  ghost predicate MergeState(d: seq<Node>, list: Node?, tail: Node?, pp: seq<Node>, p: Node?, psize: nat,
          s: seq<Node>, q: Node?)
    reads Nodes(d)`next, Nodes(d)`prev, Nodes(pp)`next, Nodes(s)`next
  {
    && OutOk(d, list, tail) && RunOk(pp) && RestOk(s, q)
    && psize == |pp| && (pp != [] ==> p == pp[0])
  }

  method TakeFromP(list: Node?, tail: Node?, p: Node, psize: nat, ghost q: Node?, ghost d: seq<Node>,
          ghost pp: seq<Node>, ghost s: seq<Node>)
    returns (list': Node?, tail': Node?, p': Node?, psize': nat)
    requires MergeState(d, list, tail, pp, p, psize, s, q) && psize > 0 && NoDup(d + pp + s)
    modifies Nodes(d)`next, p`prev
    ensures MergeState(d + [pp[0]], list', tail', pp[1..], p', psize', s, q)
  {
    TakeP(d, pp, s);
    p', psize' := p.next, psize - 1;
    assert RunOk(pp[1..]);
    list', tail' := Emit(p, list, tail, q, d, pp[1..], s);
  }

  method TakeFromQ(list: Node?, tail: Node?, q: Node, ghost p: Node?, ghost psize: nat, ghost d: seq<Node>,
          ghost pp: seq<Node>, ghost s: seq<Node>)
    returns (list': Node?, tail': Node?, q': Node?)
    requires MergeState(d, list, tail, pp, p, psize, s, q) && NoDup(d + pp + s)
    modifies Nodes(d)`next, q`prev
    ensures s != [] && MergeState(d + [s[0]], list', tail', pp, p, psize, s[1..], q')
  {
    assert s != [];
    TakeQ(d, pp, s);
    q' := q.next;
    assert RestOk(s[1..], q');
    list', tail' := Emit(q, list, tail, q', d, pp, s[1..]);
  }

  /** What is still to come out of a merge after the sorted part d. */
  ghost function Target(d: seq<Node>, pp: seq<Node>, qq: seq<Node>, cmp: (Item, Item) -> int): seq<Item> {
    ItemsOf(d) + Merge(ItemsOf(pp), ItemsOf(qq), cmp)
  }

  lemma TargetP(d: seq<Node>, pp: seq<Node>, qq: seq<Node>, cmp: (Item, Item) -> int)
    requires pp != [] && (qq != [] ==> cmp(pp[0].item, qq[0].item) <= 0)
    ensures Target(d + [pp[0]], pp[1..], qq, cmp) == Target(d, pp, qq, cmp)
  {
    assert ItemsOf(d + [pp[0]]) == ItemsOf(d) + [pp[0].item];
    assert ItemsOf(pp[1..]) == ItemsOf(pp)[1..];
    MergeTakesP(ItemsOf(pp), ItemsOf(qq), cmp);
  }

  lemma TargetQ(d: seq<Node>, pp: seq<Node>, qq: seq<Node>, cmp: (Item, Item) -> int)
    requires qq != [] && (pp != [] ==> cmp(pp[0].item, qq[0].item) > 0)
    ensures Target(d + [qq[0]], pp, qq[1..], cmp) == Target(d, pp, qq, cmp)
  {
    assert ItemsOf(d + [qq[0]]) == ItemsOf(d) + [qq[0].item];
    assert ItemsOf(qq[1..]) == ItemsOf(qq)[1..];
    MergeTakesQ(ItemsOf(pp), ItemsOf(qq), cmp);
  }

  /** Merges the left run with the first qsize nodes of the rest. */
  method MergeRuns(list0: Node?, tail0: Node?, p0: Node?, psize0: nat, q0: Node?, qsize0: nat, cmp: (Item, Item) -> int,
                   ghost d0: seq<Node>, ghost pp0: seq<Node>, ghost s0: seq<Node>)
    returns (list: Node?, tail: Node?, q: Node?, ghost d: seq<Node>, ghost s: seq<Node>)
    requires MergeState(d0, list0, tail0, pp0, p0, psize0, s0, q0) && NoDup(d0 + pp0 + s0)
    modifies Nodes(d0 + pp0 + s0)`next, Nodes(d0 + pp0 + s0)`prev
    ensures OutOk(d, list, tail) && s == s0[Min(qsize0, |s0|)..] && RestOk(s, q)
    ensures NoDup(d + s) && Nodes(d + s) == Nodes(d0 + pp0 + s0)
    ensures ItemsOf(d) == Target(d0, pp0, s0[..Min(qsize0, |s0|)], cmp)
  {
    hide NoDup, Target, Merge, MergeState;
    StateFacts(d0, list0, tail0, pp0, p0, psize0, s0, q0);
    var p, psize: nat, qsize: nat := p0, psize0, qsize0;
    list, tail, q, d, s := list0, tail0, q0, d0, s0;
    ghost var pp := pp0;
    ghost var dom, goal, end := Nodes(d0 + pp0 + s0), Target(d0, pp0, s0[..Min(qsize0, |s0|)], cmp),
        s0[Min(qsize0, |s0|)..];
    while psize != 0 || (qsize != 0 && q != null)
      invariant MergeState(d, list, tail, pp, p, psize, s, q) && psize == |pp|
      invariant (pp != [] ==> p == pp[0]) && q == (if s == [] then null else s[0])
      invariant NoDup(d + pp + s) && Nodes(d + pp + s) == dom
      invariant Target(d, pp, s[..Min(qsize, |s|)], cmp) == goal && s[Min(qsize, |s|)..] == end
      decreases psize + Min(qsize, |s|)
    {
      ghost var qq := s[..Min(qsize, |s|)];
      var fromLeft;
      if psize == 0 {
        fromLeft := false;
      } else if qsize == 0 || q == null {
        fromLeft := true;
      } else {
        fromLeft := cmp(p.item, q.item) <= 0;
      }
      if fromLeft {
        TakeP(d, pp, s);
        TargetP(d, pp, qq, cmp);
        list, tail, p, psize := TakeFromP(list, tail, p, psize, q, d, pp, s);
        d, pp := d + [pp[0]], pp[1..];
      } else {
        TakeQ(d, pp, s);
        TargetQ(d, pp, qq, cmp);
        list, tail, q := TakeFromQ(list, tail, q, p, psize, d, pp, s);
        RunShrinks(s, qsize);
        qsize := qsize - 1;
        d, s := d + [s[0]], s[1..];
      }
      StateFacts(d, list, tail, pp, p, psize, s, q);
    }
    StateFacts(d, list, tail, pp, p, psize, s, q);
    MergeDone(d, s, end, qsize, cmp);
  }

  lemma StateFacts(d: seq<Node>, list: Node?, tail: Node?, pp: seq<Node>, p: Node?, psize: nat, s: seq<Node>, q: Node?)
    requires MergeState(d, list, tail, pp, p, psize, s, q)
    ensures psize == |pp| && (pp != [] ==> p == pp[0]) && q == (if s == [] then null else s[0])
    ensures OutOk(d, list, tail) && RestOk(s, q)
  {
  }

  lemma RunShrinks(s: seq<Node>, k: nat)
    requires s != [] && k > 0
    ensures s[1..][..Min(k - 1, |s| - 1)] == s[..Min(k, |s|)][1..]
    ensures s[1..][Min(k - 1, |s| - 1)..] == s[Min(k, |s|)..]
  {
  }

  lemma MergeDone(d: seq<Node>, s: seq<Node>, end: seq<Node>, qsize: nat, cmp: (Item, Item) -> int)
    requires (qsize == 0 || s == []) && s[Min(qsize, |s|)..] == end
    ensures s == end && Target(d, [], s[..Min(qsize, |s|)], cmp) == ItemsOf(d) && d + [] + s == d + s
  {
    assert ItemsOf(d) + [] == ItemsOf(d);
  }

  /** Steps over at most insize nodes from p: they are the left run. */
  method SplitRun(p: Node, insize: nat, ghost s: seq<Node>) returns (q: Node?, psize: nat)
    requires RestOk(s, p) && insize > 0
    ensures psize == Min(insize, |s|) && RestOk(s[psize..], q) && RunOk(s[..psize])
  {
    q, psize := p, 0;
    var i := 0;
    while i < insize
      invariant i <= insize && psize == Min(i, |s|) && q == if psize < |s| then s[psize] else null
      invariant i < insize ==> q != null
    {
      psize := psize + 1;
      q := q.next;
      i := i + 1;
      if q == null {
        break;
      }
    }
  }

  /** One merge of a pass: the next two runs go to the sorted part. */
  method MergeNext(list0: Node?, tail0: Node?, p: Node, insize: nat, cmp: (Item, Item) -> int, ghost d0: seq<Node>,
          ghost s0: seq<Node>)
    returns (list: Node?, tail: Node?, q: Node?, ghost d: seq<Node>, ghost s: seq<Node>)
    requires OutOk(d0, list0, tail0) && RestOk(s0, p) && NoDup(d0 + s0) && insize > 0
    modifies Nodes(d0 + s0)`next, Nodes(d0 + s0)`prev
    ensures OutOk(d, list, tail) && RestOk(s, q)
    ensures NoDup(d + s) && Nodes(d + s) == Nodes(d0 + s0)
    ensures ItemsOf(d) + Pass(ItemsOf(s), insize, cmp) == ItemsOf(d0) + Pass(ItemsOf(s0), insize, cmp)
    ensures |d| == |d0| + Min(2 * insize, |s0|) && |s| == |s0| - Min(2 * insize, |s0|)
  {
    hide NoDup, Pass, Merge, Target;
    var psize;
    q, psize := SplitRun(p, insize, s0);
    PassStep(d0, s0, insize, psize, cmp);
    list, tail, q, d, s := MergeRuns(list0, tail0, p, psize, q, insize, cmp, d0, s0[..psize], s0[psize..]);
    assert |ItemsOf(d)| == |d|;
  }

  /** One pass: merges neighbouring runs of insize nodes until the list is used up. */
  method PassOnce(first: Node?, insize: nat, cmp: (Item, Item) -> int, ghost s0: seq<Node>)
    returns (list: Node?, tail: Node?, nmerges: nat, ghost d: seq<Node>)
    requires RestOk(s0, first) && NoDup(s0) && insize > 0
    modifies Nodes(s0)`next, Nodes(s0)`prev
    ensures OutOk(d, list, tail) && (tail != null ==> tail.next == null)
    ensures NoDup(d) && Nodes(d) == Nodes(s0)
    ensures ItemsOf(d) == Pass(ItemsOf(s0), insize, cmp)
    ensures nmerges <= 1 <==> |s0| <= 2 * insize
  {
    hide NoDup, Pass, Merge, ItemsOf;
    var p := first;
    ghost var s := s0;
    list, tail, nmerges, d := null, null, 0, [];
    PassStart(s0);
    while p != null
      invariant OutOk(d, list, tail) && RestOk(s, p)
      invariant NoDup(d + s) && Nodes(d + s) == Nodes(s0)
      invariant ItemsOf(d) + Pass(ItemsOf(s), insize, cmp) == Pass(ItemsOf(s0), insize, cmp)
      invariant |d| + |s| == |s0| && (nmerges == 0 ==> d == [])
      invariant nmerges == 1 ==> |d| == Min(2 * insize, |s0|)
      invariant nmerges >= 2 ==> |s0| > 2 * insize
      decreases |s|
    {
      nmerges := nmerges + 1;
      list, tail, p, d, s := MergeNext(list, tail, p, insize, cmp, d, s);
    }
    assert d + s == d;
    assert d != [] ==> tail in Nodes(d);
    CloseList(list, tail, d);
  }

  /** Ends the sorted list at its last node. */
  method CloseList(list: Node?, tail: Node?, ghost d: seq<Node>)
    requires OutOk(d, list, tail) && NoDup(d)
    modifies Nodes(d)`next
    ensures OutOk(d, list, tail) && (tail != null ==> tail.next == null)
  {
    if tail != null {
      tail.next := null;
    }
  }

  lemma PassStart(s: seq<Node>)
    ensures [] + s == s && ItemsOf([]) == []
    ensures forall t: seq<Item> {:trigger [] + t} :: [] + t == t
  {
  }

  /** What one merge takes off the list, in terms of the pass on the entries. */
  lemma PassStep(d: seq<Node>, s: seq<Node>, k: nat, m: nat, cmp: (Item, Item) -> int)
    requires s != [] && k > 0 && m == Min(k, |s|)
    ensures d + s[..m] + s[m..] == d + s
    ensures var right, end := s[m..][..Min(k, |s| - m)], s[m..][Min(k, |s| - m)..];
            && |Target(d, s[..m], right, cmp)| == |d| + Min(2 * k, |s|)
            && |end| == |s| - Min(2 * k, |s|)
            && Target(d, s[..m], right, cmp) + Pass(ItemsOf(end), k, cmp) == ItemsOf(d) + Pass(ItemsOf(s), k, cmp)
  {
    hide Merge, Pass;
    var n := Min(2 * k, |s|);
    MergeSort.Cut(s, m, n);
    MergeSort.Cut(s, m, |s|);
    ItemsCut(s, m, n);
    MergeSort.Assoc(d, s[..m], s[m..]);
    PassHead(ItemsOf(s), k, cmp);
    MergeSort.Assoc(ItemsOf(d), Merge(ItemsOf(s)[..m], ItemsOf(s)[m..n], cmp), Pass(ItemsOf(s)[n..], k, cmp));
  }

  lemma ItemsCut(s: seq<Node>, m: nat, n: nat)
    requires m <= n <= |s|
    ensures ItemsOf(s[..m]) == ItemsOf(s)[..m] && ItemsOf(s[m..n]) == ItemsOf(s)[m..n]
        && ItemsOf(s[n..]) == ItemsOf(s)[n..]
  {
  }

  lemma PassHead(s: seq<Item>, k: nat, cmp: (Item, Item) -> int)
    requires s != [] && k > 0
    ensures var m, n := Min(k, |s|), Min(2 * k, |s|);
            Pass(s, k, cmp) == Merge(s[..m], s[m..n], cmp) + Pass(s[n..], k, cmp)
  {
    hide Merge;
  }

  lemma Closed(d: seq<Node>, list: Node?, tail: Node?)
    requires OutOk(d, list, tail) && d != [] && (tail != null ==> tail.next == null) && NoDup(d)
    ensures RestOk(d, list) && ListOk(d, list, tail)
  {
    assert d[|d| - 1].next == null;
  }

  lemma Reordered(s: seq<Node>, r: seq<Node>, hash: string -> nat)
    requires DistinctKeys(s) && Hashed(s, hash) && NoDup(r) && Nodes(r) == Nodes(s)
    ensures DistinctKeys(r) && Hashed(r, hash)
  {
    forall i | 0 <= i < |r| ensures r[i].hashv == hash(r[i].item.key) {
      assert r[i] in Nodes(s);
    }
    forall i, j | 0 <= i < j < |r| ensures r[i].item.key != r[j].item.key {
      assert r[i] in Nodes(s) && r[j] in Nodes(s);
    }
  }

  /** HASH_SRT: passes with doubling run lengths, until a pass makes at most one merge. */
  method Srt(t: HashTable, cmp: (Item, Item) -> int)
    requires t.Valid()
    modifies t`head, t`tail, t`items, Nodes(t.items)`next, Nodes(t.items)`prev
    ensures t.Valid() && t.Pairs() == Sort(old(t.Pairs()), 1, cmp)
    ensures Nodes(t.items) == old(Nodes(t.items))
  {
    hide NoDup, DistinctKeys, Hashed, Sort, Pass, RestOk, OutOk, ItemsOf;
    if t.head != null {
      ghost var was, dom := t.items, Nodes(t.items);
      var insize, looping, list := 1, true, t.head;
      Unsorted(was, t.head, t.tail);
      while looping
        invariant insize > 0 && NoDup(t.items) && Nodes(t.items) == dom && |t.items| == |was| && t.head != null
        invariant looping ==> RestOk(t.items, list) && Sort(ItemsOf(t.items), insize, cmp) == Sort(ItemsOf(was), 1, cmp)
        invariant !looping ==> ListOk(t.items, t.head, t.tail) && ItemsOf(t.items) == Sort(ItemsOf(was), 1, cmp)
        decreases looping, |was| - insize
      {
        var tail, nmerges;
        ghost var d;
        SortStep(ItemsOf(t.items), insize, cmp);
        list, tail, nmerges, d := PassOnce(list, insize, cmp, t.items);
        ItemsLength(d);
        ItemsLength(t.items);
        Closed(d, list, tail);
        t.items := d;
        if nmerges <= 1 {
          looping := false;
          t.tail := tail;
          t.head := list;
        }
        insize := insize * 2;
      }
      Reordered(was, t.items, t.hash);
    } else {
      ItemsLength(t.items);
      SortStep([], 1, cmp);
    }
  }

  lemma ItemsLength(s: seq<Node>)
    ensures |ItemsOf(s)| == |s|
  {
  }

  lemma Unsorted(s: seq<Node>, head: Node?, tail: Node?)
    requires ListOk(s, head, tail) && DistinctKeys(s)
    ensures RestOk(s, head) && NoDup(s)
  {
  }

  lemma SortStep(s: seq<Item>, k: nat, cmp: (Item, Item) -> int)
    requires k > 0
    ensures |Pass(s, k, cmp)| == |s| && (s == [] ==> Sort(s, k, cmp) == [])
    ensures Sort(s, k, cmp) == if |s| <= 2 * k then Pass(s, k, cmp) else Sort(Pass(s, k, cmp), 2 * k, cmp)
  {
  }

  /** The list ends up sorted, it is a stable permutation of what it was, and the map and the chains are untouched. */
  method SortList(t: HashTable, cmp: (Item, Item) -> int)
    requires t.Valid() && TotalPreorder(cmp)
    modifies t`head, t`tail, t`items, Nodes(t.items)`next, Nodes(t.items)`prev
    ensures t.Valid() && Nodes(t.items) == old(Nodes(t.items))
    ensures Sorted(t.Pairs(), cmp) && StablePermutation(old(t.Pairs()), t.Pairs(), cmp)
    ensures ToMap(t.Pairs()) == ToMap(old(t.Pairs())) && t.chains == old(t.chains)
  {
    hide ToMap;
    ghost var was := t.items;
    Srt(t, cmp);
    SortCorrect(ItemsOf(was), cmp);
    PairsDistinct(was);
    PairsDistinct(t.items);
    SameMap(ItemsOf(was), t.Pairs());
  }
}
