/** uthash.h: nodes that sit in the application-order list and in a bucket chain at once. HASH_ADD, HASH_ADD_INORDER,
    HASH_FIND, HASH_DELETE, HASH_EXPAND_BUCKETS and HASH_FSCK on the links themselves. */
module UtHash {
  import opened Bits
  import opened Items
  import opened MergeSort

  class Node {
    const item: Item
    const hashv: nat
    var prev: Node?
    var next: Node?
    var hhPrev: Node?
    var hhNext: Node?

    constructor (item: Item, hashv: nat)
      ensures this.item == item && this.hashv == hashv
    {
      this.item, this.hashv := item, hashv;
      prev, next, hhPrev, hhNext := null, null, null, null;
    }
  }

  datatype Bucket = Bucket(head: Node?, count: nat, expandMult: nat)

  ghost predicate NoDup(s: seq<Node>) {
    forall i, j :: 0 <= i < j < |s| ==> s[i] != s[j]
  }

  ghost function Nodes(s: seq<Node>): set<Node> {
    set n | n in s
  }

  /** The chain c hangs off the bucket head h through hhNext and hhPrev. */
  ghost predicate ChainOk(h: Node?, c: seq<Node>, b: nat, size: nat, dom: set<Node>)
    requires size > 0
    reads dom`hhNext, dom`hhPrev
  {
    && h == (if c == [] then null else c[0])
    && (forall j :: 0 <= j < |c| ==> c[j] in dom && Slot(c[j].hashv, size) == b)
    && (forall j {:trigger c[j].hhNext} :: 0 <= j < |c| ==> c[j].hhNext == (if j + 1 < |c| then c[j + 1] else null))
    && (forall j {:trigger c[j].hhPrev} :: 0 <= j < |c| ==> c[j].hhPrev == (if j > 0 then c[j - 1] else null))
  }

  ghost predicate ChainsOk(bk: array<Bucket>, chains: seq<seq<Node>>, dom: set<Node>)
    reads bk, dom`hhNext, dom`hhPrev
  {
    && bk.Length == |chains| > 0
    && (forall b :: 0 <= b < |chains| ==> ChainOk(bk[b].head, chains[b], b, |chains|, dom))
    && (forall n {:trigger InChain(n, chains)} :: n in dom ==> InChain(n, chains))
  }

  /** The node n hangs in the bucket of its hash value. */
  ghost predicate InChain(n: Node, chains: seq<seq<Node>>)
    requires |chains| > 0
  {
    n in chains[Slot(n.hashv, |chains|)]
  }

  ghost predicate CountsOk(bk: array<Bucket>, chains: seq<seq<Node>>)
    reads bk
  {
    && bk.Length == |chains|
    && forall b :: 0 <= b < |chains| ==> bk[b].count == |chains[b]|
  }

  method LinkFront(bk: array<Bucket>, b: nat, n: Node, ghost chains: seq<seq<Node>>, ghost dom: set<Node>)
    requires ChainsOk(bk, chains, dom) && b < |chains| && n !in dom && Slot(n.hashv, |chains|) == b
    modifies n`hhNext, n`hhPrev, dom`hhPrev, bk
    ensures ChainsOk(bk, chains[b := [n] + chains[b]], dom + {n})
    ensures bk[..] == old(bk[..])[b := old(bk[b]).(head := n)]
  {
    hide Slot;
    ghost var c := chains[b];
    assert ChainOk(bk[b].head, c, b, |chains|, dom);
    forall j | 0 < j < |c| ensures c[j] != c[0] {
      assert c[j].hhPrev != null && c[0].hhPrev == null;
    }
    n.hhPrev := null;
    n.hhNext := bk[b].head;
    if bk[b].head != null {
      bk[b].head.hhPrev := n;
    }
    bk[b] := bk[b].(head := n);
    ghost var c' := [n] + c;
    assert ChainOk(n, c', b, |chains|, dom + {n});
    ghost var chains' := chains[b := c'];
    forall i | 0 <= i < |chains| && i != b
      ensures ChainOk(bk[i].head, chains[i], i, |chains|, dom + {n})
    {
      assert old(ChainOk(bk[i].head, chains[i], i, |chains|, dom));
      assert forall j :: 0 <= j < |chains[i]| ==> Slot(chains[i][j].hashv, |chains|) == i;
    }
    forall m | m in dom + {n} ensures InChain(m, chains') {
      assert m in dom ==> InChain(m, chains);
      assert c'[0] == n;
    }
  }

  /** A doubly linked chain cannot hold a node twice: its back links count its positions. */
  lemma {:induction false} ChainDistinct(c: seq<Node>, i: nat, j: nat)
    requires i < j < |c|
    requires forall k {:trigger c[k].hhPrev} :: 0 <= k < |c| ==> c[k].hhPrev == (if k > 0 then c[k - 1] else null)
    ensures c[i] != c[j]
  {
    assert c[i].hhPrev == (if i > 0 then c[i - 1] else null) && c[j].hhPrev == c[j - 1];
    if i > 0 {
      ChainDistinct(c, i - 1, j - 1);
    }
  }

  lemma ChainsPartition(bk: array<Bucket>, chains: seq<seq<Node>>, dom: set<Node>)
    requires ChainsOk(bk, chains, dom)
    ensures Partition(chains)
    ensures forall b :: 0 <= b < |chains| ==> Nodes(chains[b]) == InSlot(dom, |chains|, b)
  {
    forall b | 0 <= b < |chains| ensures Nodes(chains[b]) == InSlot(dom, |chains|, b) {
      assert ChainOk(bk[b].head, chains[b], b, |chains|, dom);
      forall n | n in dom && Slot(n.hashv, |chains|) == b ensures n in chains[b] {
        assert InChain(n, chains);
      }
    }
    forall b | 0 <= b < |chains| ensures NoDup(chains[b]) {
      assert ChainOk(bk[b].head, chains[b], b, |chains|, dom);
      forall i, j | 0 <= i < j < |chains[b]| ensures chains[b][i] != chains[b][j] {
        ChainDistinct(chains[b], i, j);
      }
    }
    forall b, j | 0 <= b < |chains| && 0 <= j < |chains[b]| ensures Slot(chains[b][j].hashv, |chains|) == b {
      assert ChainOk(bk[b].head, chains[b], b, |chains|, dom);
    }
  }

  ghost predicate ListOk(s: seq<Node>, head: Node?, tail: Node?)
    reads Nodes(s)`next, Nodes(s)`prev
  {
    && head == (if s == [] then null else s[0])
    && (s != [] ==> tail == s[|s| - 1])
    && (forall i {:trigger s[i].next} :: 0 <= i < |s| ==> s[i].next == (if i + 1 < |s| then s[i + 1] else null))
    && (forall i {:trigger s[i].prev} :: 0 <= i < |s| ==> s[i].prev == (if i > 0 then s[i - 1] else null))
  }

  function TotalLen(chains: seq<seq<Node>>): (t: nat) {
    if chains == [] then 0 else TotalLen(chains[..|chains| - 1]) + |chains[|chains| - 1]|
  }

  lemma {:induction false} TotalLenUpdate(chains: seq<seq<Node>>, b: nat, c: seq<Node>)
    requires b < |chains|
    ensures TotalLen(chains[b := c]) == TotalLen(chains) - |chains[b]| + |c|
  {
    var m := |chains| - 1;
    if b < m {
      TotalLenUpdate(chains[..m], b, c);
      assert chains[b := c][..m] == chains[..m][b := c];
    } else {
      assert chains[b := c][..m] == chains[..m];
    }
  }

  lemma TotalLenStep(chains: seq<seq<Node>>, i: nat)
    requires i < |chains|
    ensures TotalLen(chains[..i + 1]) == TotalLen(chains[..i]) + |chains[i]|
  {
    assert chains[..i + 1][..i] == chains[..i];
  }

  lemma TotalLenAll(chains: seq<seq<Node>>)
    ensures TotalLen(chains[..|chains|]) == TotalLen(chains)
  {
    assert chains[..|chains|] == chains;
  }

  lemma {:induction false} TotalLenEmpty(chains: seq<seq<Node>>)
    requires forall b :: 0 <= b < |chains| ==> chains[b] == []
    ensures TotalLen(chains) == 0
  {
    if chains != [] {
      TotalLenEmpty(chains[..|chains| - 1]);
    }
  }

  /** The number of items whose position in their chain is beyond the ideal length. */
  function Excess(bs: seq<Bucket>, ideal: nat): (e: nat) {
    if bs == [] then 0
    else Excess(bs[..|bs| - 1], ideal) + Over(bs[|bs| - 1].count, ideal)
  }

  function Over(count: nat, ideal: nat): (e: nat)
    ensures Min(count, ideal) + e == count
  {
    if count > ideal then count - ideal else 0
  }

  lemma {:induction false} ExcessUpdate(bs: seq<Bucket>, b: nat, v: Bucket, ideal: nat)
    requires b < |bs|
    ensures Excess(bs[b := v], ideal) == Excess(bs, ideal) - Over(bs[b].count, ideal) + Over(v.count, ideal)
  {
    var m := |bs| - 1;
    if b < m {
      ExcessUpdate(bs[..m], b, v, ideal);
      assert bs[b := v][..m] == bs[..m][b := v];
    } else {
      assert bs[b := v][..m] == bs[..m];
    }
  }

  lemma {:induction false} ExcessEmpty(bs: seq<Bucket>, ideal: nat)
    requires forall b :: 0 <= b < |bs| ==> bs[b].count == 0
    ensures Excess(bs, ideal) == 0
  {
    if bs != [] {
      ExcessEmpty(bs[..|bs| - 1], ideal);
    }
  }

  /** The multiplier that a chain's length has earned: none up to the ideal length, one for the first item beyond it,
      and then as many as chains of ideal length it takes to hold the items; for single items, one fewer. */
  ghost predicate Tuned(v: Bucket, ideal: nat) {
    && (v.count <= ideal ==> v.expandMult == 0)
    && (v.count == ideal + 1 ==> v.expandMult == 1)
    && (v.count > ideal + 1 && ideal > 1 ==>
          v.expandMult > 0 && Times(v.expandMult - 1, ideal) < v.count <= Times(v.expandMult, ideal))
    && (v.count > ideal + 1 && ideal == 1 ==> v.expandMult == v.count - 1)
  }

  ghost predicate Bounded(v: Bucket, ideal: nat) {
    && v.count <= Times(v.expandMult + 1, ideal)
    && (v.expandMult > 0 ==> Times(v.expandMult - 1, ideal) < v.count)
  }

  lemma TunedIsBounded(v: Bucket, ideal: nat)
    requires Tuned(v, ideal)
    requires ideal > 0 || v.count == 0
    ensures Bounded(v, ideal)
  {
    assert Times(v.expandMult + 1, ideal) == Times(v.expandMult, ideal) + ideal;
    if ideal == 1 {
      TimesIsMul(v.expandMult + 1, 1);
      if v.expandMult > 0 {
        TimesIsMul(v.expandMult - 1, 1);
      }
    }
  }

  /** Length and ideal length determine the multiplier. */
  lemma TunedOnce(v: Bucket, w: Bucket, ideal: nat)
    requires Tuned(v, ideal) && Tuned(w, ideal) && v.count == w.count && ideal > 0
    ensures v.expandMult == w.expandMult
  {
    if v.expandMult < w.expandMult {
      TimesGrows(v.expandMult, w.expandMult - 1, ideal);
    } else if w.expandMult < v.expandMult {
      TimesGrows(w.expandMult, v.expandMult - 1, ideal);
    }
  }

  lemma {:induction false} TimesGrows(a: nat, b: nat, n: nat)
    requires a <= b
    ensures Times(a, n) <= Times(b, n)
  {
    if a < b {
      TimesGrows(a, b - 1, n);
    }
  }

  /** No chain has reached its threshold, as long as the table may grow and its ideal length stays below the capacity
      of a bucket. */
  ghost predicate ShortOk(bs: seq<Bucket>, ideal: nat, noexpand: bool) {
    noexpand || ideal >= 10 || forall b :: 0 <= b < |bs| ==> bs[b].count < (bs[b].expandMult + 1) * 10
  }

  lemma {:induction false} TimesBelow(m: nat, n: nat)
    requires m > 0 && n < 10
    ensures Times(m, n) < m * 10
  {
    if m > 1 {
      TimesBelow(m - 1, n);
    }
  }

  /** The multipliers are as they were. */
  ghost predicate SameTuning(bs: seq<Bucket>, bs': seq<Bucket>) {
    |bs'| == |bs| && forall b :: 0 <= b < |bs| ==> bs'[b].expandMult == bs[b].expandMult
  }

  /** Right after an expansion every chain is below its threshold. */
  lemma ShortAgain(bs: seq<Bucket>, ideal: nat, nonideal: nat, noexpand: bool)
    requires GrowthOk(bs, ideal, nonideal) && ideal > 0
    ensures ShortOk(bs, ideal, noexpand)
  {
    if ideal < 10 {
      forall b | 0 <= b < |bs| ensures bs[b].count < (bs[b].expandMult + 1) * 10 {
        TunedIsBounded(bs[b], ideal);
        TimesBelow(bs[b].expandMult + 1, ideal);
      }
    }
  }

  /** One bucket changes its count only. */
  lemma ShortKept(bs: seq<Bucket>, bkt: nat, v: Bucket, ideal: nat, noexpand: bool)
    requires bkt < |bs| && ShortOk(bs, ideal, noexpand)
    requires v.count < (v.expandMult + 1) * 10 || noexpand
        || (v.expandMult == bs[bkt].expandMult && v.count <= bs[bkt].count)
    ensures ShortOk(bs[bkt := v], ideal, noexpand)
  {
  }

  /** Counting one more item into a bucket of the table under construction. */
  function Grow(v: Bucket, ideal: nat): Bucket {
    var v1 := v.(count := v.count + 1);
    if v1.count > ideal && v1.count > Times(v1.expandMult, ideal) then v1.(expandMult := v1.expandMult + 1) else v1
  }

  lemma GrowTuned(v: Bucket, ideal: nat)
    requires Tuned(v, ideal) && ideal > 0
    ensures Tuned(Grow(v, ideal), ideal) && Bounded(Grow(v, ideal), ideal)
    ensures Over(Grow(v, ideal).count, ideal) == Over(v.count, ideal) + (if v.count + 1 > ideal then 1 else 0)
  {
    assert Times(v.expandMult + 1, ideal) == Times(v.expandMult, ideal) + ideal;
    assert Times(2, ideal) == Times(1, ideal) + ideal && Times(1, ideal) == Times(0, ideal) + ideal;
    if ideal == 1 {
      TimesIsMul(v.expandMult, 1);
    }
    TunedIsBounded(Grow(v, ideal), ideal);
  }

  class HashTable {
    const hash: string -> nat
    var head: Node?
    var tail: Node?
    var buckets: array<Bucket>
    var numBuckets: nat
    var log2NumBuckets: nat
    var numItems: nat
    var idealChainMaxlen: nat
    var nonidealItems: nat
    var ineffExpands: nat
    var noexpand: bool
    ghost var items: seq<Node>
    ghost var chains: seq<seq<Node>>

    /** Counts one more item into a bucket of the table under construction. */
    method CountInto(newBuckets: array<Bucket>, bkt: nat)
      requires bkt < newBuckets.Length
      modifies this`nonidealItems, newBuckets
      ensures newBuckets[..] == old(newBuckets[..])[bkt := Grow(old(newBuckets[bkt]), idealChainMaxlen)]
      ensures forall b :: 0 <= b < newBuckets.Length ==> newBuckets[b].head == old(newBuckets[b].head)
      ensures nonidealItems == old(nonidealItems) + (if old(newBuckets[bkt].count) + 1 > idealChainMaxlen then 1 else 0)
    {
      newBuckets[bkt] := newBuckets[bkt].(count := newBuckets[bkt].count + 1);
      if newBuckets[bkt].count > idealChainMaxlen {
        nonidealItems := nonidealItems + 1;
        TimesIsMul(newBuckets[bkt].expandMult, idealChainMaxlen);
        if newBuckets[bkt].count > newBuckets[bkt].expandMult * idealChainMaxlen {
          newBuckets[bkt] := newBuckets[bkt].(expandMult := newBuckets[bkt].expandMult + 1);
        }
      }
    }

    /** One node of an old chain moves to the front of its new chain. */
    method MoveNode(thh: Node, newBuckets: array<Bucket>, ghost newChains: seq<seq<Node>>, ghost done: set<Node>)
      returns (ghost movedChains: seq<seq<Node>>)
      requires idealChainMaxlen > 0 && |newChains| == Pow2(log2NumBuckets + 1)
      requires ChainsOk(newBuckets, newChains, done) && CountsOk(newBuckets, newChains) && thh !in done
      requires GrowthOk(newBuckets[..], idealChainMaxlen, nonidealItems)
      modifies this`nonidealItems, thh`hhNext, thh`hhPrev, done`hhPrev, newBuckets
      ensures ChainsOk(newBuckets, movedChains, done + {thh}) && CountsOk(newBuckets, movedChains)
      ensures |movedChains| == |newChains| && TotalLen(movedChains) == TotalLen(newChains) + 1
      ensures var b := Slot(thh.hashv, |newChains|); movedChains == newChains[b := [thh] + newChains[b]]
      ensures GrowthOk(newBuckets[..], idealChainMaxlen, nonidealItems)
    {
      MaskIsSlot(thh.hashv, log2NumBuckets + 1);
      var bkt := And(thh.hashv, newBuckets.Length - 1);
      GrowthStep(newBuckets[..], bkt, thh, idealChainMaxlen, nonidealItems);
      CountInto(newBuckets, bkt);
      LinkFront(newBuckets, bkt, thh, newChains, done);
      movedChains := newChains[bkt := [thh] + newChains[bkt]];
      TotalLenUpdate(newChains, bkt, [thh] + newChains[bkt]);
      CountsAfterMove(old(newBuckets[..]), newBuckets, bkt, thh, newChains);
    }

    /** What holds while buckets are being redistributed. */
    ghost predicate Filled(newBuckets: array<Bucket>, newChains: seq<seq<Node>>, done: set<Node>)
      reads this`nonidealItems, this`idealChainMaxlen, newBuckets, done`hhNext, done`hhPrev
    {
      && ChainsOk(newBuckets, newChains, done) && CountsOk(newBuckets, newChains)
      && GrowthOk(newBuckets[..], idealChainMaxlen, nonidealItems)
    }

    /** HASH_EXPAND_BUCKETS: twice as many buckets, every node in the chain of its new bucket. */
    method ExpandBuckets(ghost dom: set<Node>)
      requires numBuckets == Pow2(log2NumBuckets) && numItems > 0
      requires |chains| == numBuckets && ChainsOk(buckets, chains, dom) && TotalLen(chains) == numItems
      modifies this`buckets, this`chains, this`numBuckets, this`log2NumBuckets, this`idealChainMaxlen
      modifies this`nonidealItems, this`ineffExpands, this`noexpand, dom`hhNext, dom`hhPrev
      ensures numBuckets == 2 * old(numBuckets) == Pow2(log2NumBuckets)
      ensures |chains| == numBuckets && Filled(buckets, chains, dom)
      ensures TotalLen(chains) == numItems && fresh(buckets)
      ensures idealChainMaxlen == CeilDiv(numItems, numBuckets)
      ensures ineffExpands == if nonidealItems > numItems / 2 then old(ineffExpands) + 1 else 0
      ensures noexpand == (old(noexpand) || ineffExpands > 1)
    {
      hide Slot, CountsOk, GrowthOk, TotalLen, CeilDiv, ChainOk, InChain;
      var newBuckets, newChains := EmptyBuckets(2 * numBuckets);
      SetIdeal();
      FreshBuckets(newBuckets, newChains, idealChainMaxlen);
      newChains := Redistribute(newBuckets, newChains, dom);
      Install(newBuckets, newChains, dom);
    }

    /** The ideal chain length of the doubled table, by shift and mask. */
    method SetIdeal()
      requires numBuckets == Pow2(log2NumBuckets)
      modifies this`idealChainMaxlen, this`nonidealItems
      ensures idealChainMaxlen == CeilDiv(numItems, 2 * numBuckets) && nonidealItems == 0
    {
      CeilByMask(numItems, log2NumBuckets + 1);
      idealChainMaxlen := Shr(numItems, log2NumBuckets + 1) + (if And(numItems, numBuckets * 2 - 1) != 0 then 1 else 0);
      nonidealItems := 0;
    }

    /** What an expansion leaves: the ideal chain length, each multiplier, the items beyond the ideal length, and
        whether the table gives up growing after a second expansion in a row that left over half of them there. */
    ghost predicate Grown(ineff: nat, gaveUp: bool)
      reads this, buckets
    {
      && numBuckets > 0 && idealChainMaxlen == CeilDiv(numItems, numBuckets)
      && GrowthOk(buckets[..], idealChainMaxlen, nonidealItems)
      && ineffExpands == (if nonidealItems > numItems / 2 then ineff + 1 else 0)
      && noexpand == (gaveUp || ineffExpands > 1)
    }

    /** The node is first in the chain of its bucket. */
    ghost predicate Pushed(add: Node, was: seq<seq<Node>>)
      reads this`chains
    {
      |was| > 0 && var b := Slot(add.hashv, |was|); chains == was[b := [add] + was[b]]
    }

    /** Without an expansion none of that changes. */
    ghost predicate NotGrown(log2: nat, bs: seq<Bucket>, ideal: nat, nonideal: nat, ineff: nat, gaveUp: bool)
      reads this, buckets
    {
      && log2NumBuckets == log2 && SameTuning(bs, buckets[..]) && idealChainMaxlen == ideal && nonidealItems == nonideal
      && ineffExpands == ineff && noexpand == gaveUp
    }

    /** Puts the new bucket array in place and records whether the expansion was effective. */
    method Install(newBuckets: array<Bucket>, ghost newChains: seq<seq<Node>>, ghost dom: set<Node>)
      requires numBuckets == Pow2(log2NumBuckets) && Filled(newBuckets, newChains, dom)
      modifies this`buckets, this`chains, this`numBuckets, this`log2NumBuckets, this`ineffExpands, this`noexpand
      ensures buckets == newBuckets && chains == newChains
      ensures Filled(buckets, chains, dom)
      ensures numBuckets == 2 * old(numBuckets) == Pow2(log2NumBuckets) && log2NumBuckets == old(log2NumBuckets) + 1
      ensures ineffExpands == if nonidealItems > numItems / 2 then old(ineffExpands) + 1 else 0
      ensures noexpand == (old(noexpand) || ineffExpands > 1)
    {
      hide Slot;
      buckets := newBuckets;
      chains := newChains;
      numBuckets := 2 * numBuckets;
      log2NumBuckets := log2NumBuckets + 1;
      ShrIsDiv(numItems, 1);
      ineffExpands := if nonidealItems > Shr(numItems, 1) then ineffExpands + 1 else 0;
      if ineffExpands > 1 {
        noexpand := true;
      }
    }

    /** Every node of every old chain moves to its new chain. */
    method Redistribute(newBuckets: array<Bucket>, ghost emptyChains: seq<seq<Node>>, ghost dom: set<Node>)
      returns (ghost newChains: seq<seq<Node>>)
      requires |chains| == numBuckets == Pow2(log2NumBuckets) && ChainsOk(buckets, chains, dom)
      requires newBuckets != buckets && newBuckets.Length == 2 * numBuckets && idealChainMaxlen > 0
      requires Filled(newBuckets, emptyChains, {}) && TotalLen(emptyChains) == 0
      modifies this`nonidealItems, newBuckets, dom`hhNext, dom`hhPrev
      ensures |newChains| == newBuckets.Length && Filled(newBuckets, newChains, dom)
      ensures TotalLen(newChains) == TotalLen(chains)
    {
      hide Slot, CountsOk, GrowthOk, TotalLen;
      TotalLenEmpty([]);
      assert chains[..0] == [];
      newChains := emptyChains;
      ghost var done: set<Node> := {};
      ChainsPartition(buckets, chains, dom);
      var i := 0;
      while i < numBuckets
        invariant i <= numBuckets
        invariant |newChains| == 2 * numBuckets && Filled(newBuckets, newChains, done)
        invariant done == Before(dom, numBuckets, i)
        invariant forall n {:trigger n.hhNext} :: n in dom && n !in done ==> n.hhNext == old(n.hhNext)
        invariant TotalLen(newChains) == TotalLen(chains[..i])
      {
        BeforeStep(dom, chains, i);
        assert old(ChainOk(buckets[i].head, chains[i], i, |chains|, dom));
        newChains, done := MoveChain(buckets[i].head, chains[i], newBuckets, newChains, done);
        TotalLenStep(chains, i);
        i := i + 1;
      }
      TotalLenAll(chains);
      BeforeAll(dom, numBuckets);
    }

    /** Moves every node of one old chain. */
    method MoveChain(first: Node?, ghost chain: seq<Node>, newBuckets: array<Bucket>, ghost newChains: seq<seq<Node>>,
                     ghost done: set<Node>)
      returns (ghost newChains': seq<seq<Node>>, ghost done': set<Node>)
      requires idealChainMaxlen > 0 && |newChains| == Pow2(log2NumBuckets + 1)
      requires Filled(newBuckets, newChains, done)
      requires first == (if chain == [] then null else chain[0]) && NextOk(chain, 0)
      requires NoDup(chain) && forall j :: 0 <= j < |chain| ==> chain[j] !in done
      modifies this`nonidealItems, done`hhPrev, Nodes(chain)`hhNext, Nodes(chain)`hhPrev, newBuckets
      ensures done' == done + Nodes(chain) && Filled(newBuckets, newChains', done')
      ensures |newChains'| == |newChains| && TotalLen(newChains') == TotalLen(newChains) + |chain|
    {
      hide Slot, ChainsOk, CountsOk, GrowthOk;
      newChains', done' := newChains, done;
      var thh := first;
      ghost var k := 0;
      while thh != null
        invariant k <= |chain| && thh == if k < |chain| then chain[k] else null
        invariant |newChains'| == |newChains| && TotalLen(newChains') == TotalLen(newChains) + k
        invariant Filled(newBuckets, newChains', done')
        invariant done' == done + Nodes(chain[..k])
        invariant NextOk(chain, k)
        decreases |chain| - k
      {
        var n: Node := thh;
        var next := n.hhNext;
        NodesStep(chain, k);
        newChains' := MoveNode(n, newBuckets, newChains', done');
        done' := done' + {n};
        k := k + 1;
        thh := next;
      }
      assert chain[..k] == chain;
    }

    /** The bucket part of the representation invariant: the nodes in `dom`, each in the chain of its bucket,
        bucket counts, the item count, and no chain at its threshold. */
    ghost predicate TableOk(dom: set<Node>)
      reads this`buckets, this`chains, this`numBuckets, this`log2NumBuckets, this`numItems
      reads this`idealChainMaxlen, this`noexpand, buckets, dom`hhNext, dom`hhPrev
    {
      && numBuckets == Pow2(log2NumBuckets) == |chains|
      && ChainsOk(buckets, chains, dom) && CountsOk(buckets, chains)
      && TotalLen(chains) == numItems
      && ShortOk(buckets[..], idealChainMaxlen, noexpand)
    }

    ghost predicate Valid()
      reads this, buckets, Nodes(items)
    {
      && ListOk(items, head, tail)
      && DistinctKeys(items) && Hashed(items, hash)
      && (head != null ==> TableOk(Nodes(items)) && numItems == |items|)
    }

    ghost function Repr(): set<object>
      reads this
    {
      {this, buckets} + Nodes(items)
    }

    /** The entries in application order. */
    ghost function Pairs(): seq<Item>
      reads this
    {
      ItemsOf(items)
    }

    constructor (hash: string -> nat)
      ensures Valid() && Pairs() == [] && this.hash == hash && fresh(Repr())
    {
      this.hash := hash;
      head, tail := null, null;
      buckets := new Bucket[0];
      numBuckets, log2NumBuckets, numItems := 0, 0, 0;
      idealChainMaxlen, nonidealItems, ineffExpands, noexpand := 0, 0, 0, false;
      items, chains := [], [];
    }

    /** 32 empty buckets that may grow. */
    ghost predicate NewTable()
      reads this, buckets
    {
      && numBuckets == |chains| == buckets.Length == 32 && log2NumBuckets == 5
      && idealChainMaxlen == nonidealItems == ineffExpands == 0 && !noexpand
      && forall b :: 0 <= b < 32 ==> buckets[b].count == buckets[b].expandMult == 0
    }

    /** A table for its first node. */
    method MakeTable(add: Node)
      modifies this
      ensures TableOk({}) && numItems == 0 && fresh(buckets) && NewTable()
      ensures tail == add && head == old(head) && items == old(items)
    {
      hide Slot, ChainsOk, CountsOk, GrowthOk, TotalLen, ShortOk, ZeroBuckets, Pow2;
      Pow2Of5();
      ghost var cs;
      buckets, cs := EmptyBuckets(32);
      tail, chains := add, cs;
      numBuckets, log2NumBuckets, numItems := 32, 5, 0;
      idealChainMaxlen, nonidealItems, ineffExpands, noexpand := 0, 0, 0, false;
      FreshBuckets(buckets, chains, 0);
    }

    /** Appends to the application-order list. */
    method AppendList(add: Node)
      requires head != null && ListOk(items, head, tail) && add !in Nodes(items)
      modifies this`tail, this`items, tail`next, add`next, add`prev
      ensures items == old(items) + [add] && ListOk(items, head, tail)
    {
      ghost var s := items;
      forall i | 0 <= i < |s| ensures s[i] != add && (i < |s| - 1 ==> s[i] != tail) {
        assert s[i] in Nodes(s) && s[|s| - 1].next == null;
        assert i < |s| - 1 ==> s[i].next == s[i + 1];
      }
      add.next := null;
      add.prev := tail;
      tail.next := add;
      tail := add;
      items := items + [add];
      assert forall i {:trigger s[i]} :: 0 <= i < |s| ==> items[i] == s[i];
    }

    /** Counts the node and pushes it onto its bucket's chain; a chain at its threshold doubles the table. */
    method AddToTable(add: Node, ghost dom: set<Node>)
      requires TableOk(dom) && add !in dom
      modifies this`numItems, this`buckets, this`chains, this`numBuckets, this`log2NumBuckets, this`idealChainMaxlen
      modifies this`nonidealItems, this`ineffExpands, this`noexpand
      modifies buckets, dom`hhNext, dom`hhPrev, add`hhNext, add`hhPrev
      ensures TableOk(dom + {add}) && numItems == old(numItems) + 1
      ensures buckets == old(buckets) || fresh(buckets)
      ensures numBuckets == old(numBuckets) ==> buckets == old(buckets) && Pushed(add, old(chains))
      ensures var v := old(buckets[Slot(add.hashv, |chains|)]);
              v.count + 1 >= (v.expandMult + 1) * 10 && !old(noexpand) <==> numBuckets != old(numBuckets)
      ensures numBuckets != old(numBuckets) ==>
                numBuckets == 2 * old(numBuckets) && Grown(old(ineffExpands), old(noexpand))
      ensures numBuckets == old(numBuckets) ==>
                NotGrown(old(log2NumBuckets), old(buckets[..]), old(idealChainMaxlen), old(nonidealItems),
                         old(ineffExpands), old(noexpand))
    {
      hide Slot, GrowthOk, ShortOk, CeilDiv, ChainsOk, TotalLen, Pow2;
      numItems := numItems + 1;
      MaskIsSlot(add.hashv, log2NumBuckets);
      var bkt := And(add.hashv, numBuckets - 1);
      ghost var was := buckets[..];
      PushCounted(bkt, add, dom);
      if buckets[bkt].count >= (buckets[bkt].expandMult + 1) * 10 && !noexpand {
        ExpandBuckets(dom + {add});
        ShortAgain(buckets[..], idealChainMaxlen, nonidealItems, noexpand);
      } else {
        ShortKept(was, bkt, buckets[bkt], idealChainMaxlen, noexpand);
      }
    }

    method PushCounted(bkt: nat, add: Node, ghost dom: set<Node>)
      requires numBuckets == |chains| && ChainsOk(buckets, chains, dom) && CountsOk(buckets, chains)
      requires bkt < |chains| && add !in dom && Slot(add.hashv, |chains|) == bkt
      modifies this`chains, buckets, dom`hhPrev, add`hhNext, add`hhPrev
      ensures |chains| == numBuckets && ChainsOk(buckets, chains, dom + {add}) && CountsOk(buckets, chains)
      ensures TotalLen(chains) == old(TotalLen(chains)) + 1 && chains == old(chains)[bkt := [add] + old(chains)[bkt]]
      ensures buckets[bkt].count == old(buckets[bkt].count) + 1
          && buckets[bkt].expandMult == old(buckets[bkt].expandMult)
      ensures buckets[..] == old(buckets[..])[bkt := buckets[bkt]]
    {
      hide Slot;
      buckets[bkt] := buckets[bkt].(count := buckets[bkt].count + 1);
      LinkFront(buckets, bkt, add, chains, dom);
      CountsAfterMove(old(buckets[..]), buckets, bkt, add, chains);
      TotalLenUpdate(chains, bkt, [add] + chains[bkt]);
      chains := chains[bkt := [add] + chains[bkt]];
    }

    /** The first node of an empty index brings its own table. */
    method StartList(add: Node)
      requires items == []
      modifies this, add`next, add`prev
      ensures items == [add] && head == add && ListOk(items, head, tail)
      ensures TableOk({}) && numItems == 0 && fresh(buckets) && NewTable()
    {
      hide TableOk;
      add.next := null;
      add.prev := null;
      MakeTable(add);
      head, items := add, [add];
    }

    lemma Ends()
      requires ListOk(items, head, tail)
      ensures head == null <==> items == []
      ensures head != null ==> head in Nodes(items) && tail in Nodes(items)
    {
    }

    /** HASH_ADD: no check for duplicates, so the key must be new. */
    method Add(item: Item)
      requires Valid() && item.key !in Keys(Pairs())
      modifies Repr()
      ensures Valid() && Pairs() == old(Pairs()) + [item]
      ensures old(head) == null ==> numBuckets == 32 && log2NumBuckets == 5 && !noexpand
      ensures fresh(Repr() - old(Repr()))
    {
      hide Slot, TableOk, ListOk, NoDup, DistinctKeys, Hashed;
      var add := new Node(item, hash(item.key));
      AddedKeys(items, add, hash);
      LinkNew(add);
    }

    /** Links a new node into the list and the table. */
    method LinkNew(add: Node)
      requires ListOk(items, head, tail) && add !in Nodes(items)
      requires head != null ==> TableOk(Nodes(items)) && numItems == |items|
      modifies this, buckets, Nodes(items)`next, Nodes(items)`hhNext, Nodes(items)`hhPrev, add
      ensures items == old(items) + [add] && head != null && ListOk(items, head, tail)
      ensures TableOk(Nodes(items)) && numItems == |items|
      ensures buckets == old(buckets) || fresh(buckets)
      ensures old(head) == null ==> numBuckets == 32 && log2NumBuckets == 5 && !noexpand
    {
      hide Slot, TableOk, ListOk, NoDup;
      Ends();
      ghost var s, dom := items, Nodes(items);
      NodesAdded(items, add);
      if head == null {
        assert items + [add] == [add];
        StartList(add);
      } else {
        AppendList(add);
      }
      assert items == s + [add];
      AddToTable(add, dom);
    }

    lemma NodesAdded(s: seq<Node>, add: Node)
      ensures Nodes(s + [add]) == Nodes(s) + {add} && (s == [] ==> Nodes(s) == {})
    {
    }

    /** Puts the node before the one at position p, or at the end. */
    method InsertList(add: Node, iter: Node?, ghost p: nat)
      requires head != null && ListOk(items, head, tail) && NoDup(items) && add !in Nodes(items) && p <= |items|
      requires iter == if p < |items| then items[p] else null
      modifies this`head, this`tail, this`items, Nodes(items)`next, Nodes(items)`prev, add`next, add`prev
      ensures items == old(items)[..p] + [add] + old(items)[p..] && ListOk(items, head, tail) && head != null
    {
      if iter != null {
        assert items[p].prev == (if p > 0 then items[p - 1] else null);
        add.next := iter;
        add.prev := iter.prev;
        if add.prev != null {
          add.prev.next := add;
        } else {
          head := add;
        }
        iter.prev := add;
        ghost var s, r := items, items[..p] + [add] + items[p..];
        forall j | 0 <= j < |r|
          ensures r[j].next == (if j + 1 < |r| then r[j + 1] else null)
              && r[j].prev == (if j > 0 then r[j - 1] else null)
        {
          assert r[j] == if j < p then s[j] else if j == p then add else s[j - 1];
        }
        items := r;
      } else {
        AppendList(add);
      }
    }

    /** HASH_AKBI_INNER_LOOP: the first node that compares after the new one, if any. */
    method InsertionPoint(add: Node, cmp: (Item, Item) -> int) returns (iter: Node?, ghost p: nat)
      requires head != null && ListOk(items, head, tail)
      ensures p == InsertAt(ItemsOf(items), add.item, cmp) && iter == if p < |items| then items[p] else null
      ensures iter == null <==> forall i :: 0 <= i < |items| ==> cmp(items[i].item, add.item) <= 0
      ensures iter != null ==> iter in items && cmp(iter.item, add.item) > 0
    {
      iter, p := head, 0;
      while iter != null
        invariant p <= |items| && iter == if p < |items| then items[p] else null
        invariant forall j :: 0 <= j < p ==> cmp(items[j].item, add.item) <= 0
        decreases |items| - p
      {
        if cmp(iter.item, add.item) > 0 {
          break;
        }
        iter := iter.next;
        p := p + 1;
      }
      InsertAtIs(ItemsOf(items), add.item, cmp, p);
    }

    /** Links a new node into the ordered list. */
    method PlaceInorder(add: Node, cmp: (Item, Item) -> int)
      requires head != null && ListOk(items, head, tail) && DistinctKeys(items) && Hashed(items, hash)
      requires add.item.key !in Keys(Pairs()) && add.hashv == hash(add.item.key)
      modifies this`head, this`tail, this`items, Nodes(items)`next, Nodes(items)`prev, add`next, add`prev
      ensures head != null && ListOk(items, head, tail) && DistinctKeys(items) && Hashed(items, hash)
      ensures Nodes(items) == old(Nodes(items)) + {add} && |items| == old(|items|) + 1
      ensures Pairs() == Inserted(old(Pairs()), add.item, cmp)
    {
      hide ListOk, NoDup, DistinctKeys, Hashed, Inserted;
      var iter;
      ghost var p;
      iter, p := InsertionPoint(add, cmp);
      InsertedKeys(items, p, add, hash);
      InsertedItems(items, p, add, cmp);
      InsertList(add, iter, p);
    }

    /** HASH_ADD_INORDER: the new node goes before the first that compares after it. */
    method AddInorder(item: Item, cmp: (Item, Item) -> int)
      requires Valid() && item.key !in Keys(Pairs())
      modifies Repr()
      ensures Valid() && Pairs() == Inserted(old(Pairs()), item, cmp)
      ensures fresh(Repr() - old(Repr()))
    {
      hide Slot, TableOk, ListOk, NoDup, DistinctKeys, Hashed, Inserted;
      Ends();
      var add := new Node(item, hash(item.key));
      ghost var dom := Nodes(items);
      if head == null {
        InsertedFirst(items, add, cmp, hash);
        StartList(add);
      } else {
        PlaceInorder(add, cmp);
      }
      assert Nodes(items) == dom + {add};
      AddToTable(add, dom);
    }

    /** HASH_FIND: walks the chain of the key's bucket. */
    method Find(key: string) returns (out: Node?)
      requires Valid()
      ensures out != null ==> out in items && out.item.key == key
      ensures out == null ==> key !in Keys(Pairs())
    {
      hide Slot, TotalLen, Pow2;
      out := null;
      if head != null {
        var hashv := hash(key);
        MaskIsSlot(hashv, log2NumBuckets);
        var bkt := And(hashv, numBuckets - 1);
        out := FindInBucket(bkt, hashv, key);
        if out == null {
          NotInTable(key);
        }
      }
    }

    /** HASH_FIND_IN_BKT: compares the hash value, the length and then the bytes. */
    method FindInBucket(bkt: nat, hashv: nat, key: string) returns (out: Node?)
      requires bkt < |chains| && ChainsOk(buckets, chains, Nodes(items)) && Hashed(items, hash) && hashv == hash(key)
      ensures out != null ==> out in items && out.item.key == key
      ensures out == null ==> forall j :: 0 <= j < |chains[bkt]| ==> chains[bkt][j].item.key != key
    {
      hide Slot;
      ghost var c := chains[bkt];
      assert ChainOk(buckets[bkt].head, c, bkt, |chains|, Nodes(items));
      out := buckets[bkt].head;
      ghost var k := 0;
      while out != null
        invariant k <= |c| && out == if k < |c| then c[k] else null
        invariant forall j :: 0 <= j < k ==> c[j].item.key != key
        decreases |c| - k
      {
        if out.hashv == hashv && |out.item.key| == |key| {
          if out.item.key == key {
            break;
          }
        }
        assert c[k] in Nodes(items);
        out := out.hhNext;
        k := k + 1;
      }
    }

    lemma NotInTable(key: string)
      requires Valid() && head != null
      requires forall j :: 0 <= j < |chains[Slot(hash(key), |chains|)]| ==>
          chains[Slot(hash(key), |chains|)][j].item.key != key
      ensures key !in Keys(Pairs())
    {
      hide Slot, TotalLen, Pow2;
      forall i | 0 <= i < |items| ensures items[i].item.key != key {
        assert items[i] in Nodes(items) && InChain(items[i], chains);
      }
    }

    /** Takes the node at position p out of the application-order list, which keeps another node. */
    method UnlinkList(del: Node, ghost p: nat)
      requires ListOk(items, head, tail) && NoDup(items) && p < |items| && items[p] == del && |items| > 1
      modifies this`head, this`tail, this`items, Nodes(items)`next, Nodes(items)`prev
      ensures items == old(items)[..p] + old(items)[p + 1..] && ListOk(items, head, tail) && head != null
    {
      assert items[p].prev == (if p > 0 then items[p - 1] else null);
      assert items[p].next == (if p + 1 < |items| then items[p + 1] else null);
      if del == tail {
        assert p == |items| - 1;
        tail := del.prev;
      }
      if del.prev != null {
        del.prev.next := del.next;
      } else {
        head := del.next;
      }
      if del.next != null {
        del.next.prev := del.prev;
      }
      items := items[..p] + items[p + 1..];
    }

    /** HASH_DEL_IN_BKT: takes the node at position k out of its bucket's chain. */
    method DelInBucket(bkt: nat, del: Node, ghost k: nat, ghost dom: set<Node>)
      requires TableOk(dom) && numItems > 0
      requires bkt < |chains| && k < |chains[bkt]| && chains[bkt][k] == del
      modifies this`chains, this`numItems, buckets, dom`hhNext, dom`hhPrev
      ensures TableOk(dom - {del}) && numItems == old(numItems) - 1
      ensures SameTuning(old(buckets[..]), buckets[..])
      ensures chains == old(chains)[bkt := old(chains)[bkt][..k] + old(chains)[bkt][k + 1..]]
    {
      hide Slot, ChainsOk, ShortOk;
      ghost var c' := chains[bkt][..k] + chains[bkt][k + 1..];
      ghost var was := buckets[..];
      UnlinkChain(buckets, bkt, del, k, chains, dom);
      ShortKept(was, bkt, buckets[bkt], idealChainMaxlen, noexpand);
      TotalLenUpdate(chains, bkt, c');
      chains := chains[bkt := c'];
      numItems := numItems - 1;
      assert forall b :: 0 <= b < |chains| ==> buckets[b] == buckets[..][b];
    }

    /** HASH_DELETE: a sole node takes the whole table with it; otherwise both lists are patched up. */
    method Delete(del: Node)
      requires Valid() && del in items
      modifies Repr()
      ensures Valid() && Pairs() == Without(old(Pairs()), del.item.key)
      ensures Repr() <= old(Repr())
    {
      hide Slot, ChainsOk, Hashed, DistinctKeys, NoDup, Without, TotalLen, Pow2;
      ghost var p :| 0 <= p < |items| && items[p] == del;
      RemovedKeys(items, p, hash);
      assert del.prev == (if p > 0 then items[p - 1] else null)
          && del.next == (if p + 1 < |items| then items[p + 1] else null);
      if del.prev == null && del.next == null {
        items := items[..p] + items[p + 1..];
        head := null;
      } else {
        UnlinkBoth(del, p);
      }
    }

    /** Takes a node that is not the only one out of the list and out of its chain. */
    method UnlinkBoth(del: Node, ghost p: nat)
      requires ListOk(items, head, tail) && NoDup(items) && p < |items| && items[p] == del && |items| > 1
      requires TableOk(Nodes(items)) && numItems == |items|
      modifies this`head, this`tail, this`items, this`chains, this`numItems, buckets
      modifies Nodes(items)`next, Nodes(items)`prev, Nodes(items)`hhNext, Nodes(items)`hhPrev
      ensures items == old(items)[..p] + old(items)[p + 1..] && ListOk(items, head, tail) && head != null
      ensures TableOk(old(Nodes(items)) - {del}) && numItems == |items|
    {
      hide Slot, ChainsOk, NoDup, TotalLen, Pow2;
      ghost var dom := Nodes(items);
      ghost var k := ChainPosition(del);
      UnlinkList(del, p);
      MaskIsSlot(del.hashv, log2NumBuckets);
      var bkt := And(del.hashv, numBuckets - 1);
      DelInBucket(bkt, del, k, dom);
    }

    lemma ChainPosition(n: Node) returns (k: nat)
      requires TableOk(Nodes(items)) && n in items
      ensures k < |chains[Slot(n.hashv, |chains|)]| && chains[Slot(n.hashv, |chains|)][k] == n
    {
      assert n in Nodes(items);
      assert InChain(n, chains);
      k :| 0 <= k < |chains[Slot(n.hashv, |chains|)]| && chains[Slot(n.hashv, |chains|)][k] == n;
    }

    /** The nodes in the chains. */
    ghost function Chained(): set<Node>
      reads this`chains
    {
      set b, k | 0 <= b < |chains| && 0 <= k < |chains[b]| :: chains[b][k]
    }

    /** What HASH_FSCK needs to come to an end: next threads the list, and hh_next the chains. */
    ghost predicate Threaded()
      reads this, buckets, Nodes(items)`next, Chained()`hhNext
    {
      && numBuckets == |chains| == buckets.Length
      && NextThread(head, items)
      && forall b :: 0 <= b < |chains| ==> HhThread(buckets[b].head, chains[b], Chained())
    }

    /** What HASH_FSCK looks for: every back link, every bucket count, and the item count of both lists. */
    ghost predicate Sound()
      reads this, buckets, Nodes(items)`prev, Chained()`hhPrev
      requires buckets.Length == |chains|
    {
      && (forall b :: 0 <= b < |chains| ==> BucketSound(buckets[b], chains[b], Chained()))
      && TotalLen(chains) == numItems && Backs(items) && |items| == numItems
    }

    /** What HASH_FSCK does not look at: the tail, the keys and hash values, and that every node hangs in its bucket. */
    ghost predicate Placed()
      reads this, buckets, Nodes(items)
    {
      && items != [] && tail == items[|items| - 1] && DistinctKeys(items) && Hashed(items, hash)
      && numBuckets == Pow2(log2NumBuckets) == |chains|
      && ShortOk(buckets[..], idealChainMaxlen, noexpand)
      && (forall n {:trigger InChain(n, chains)} :: n in items ==> InChain(n, chains))
      && (forall b, j :: 0 <= b < |chains| && 0 <= j < |chains[b]| ==>
            chains[b][j] in items && Slot(chains[b][j].hashv, |chains|) == b)
    }

    /** Beyond that the check decides validity. */
    lemma SoundIsValid()
      requires Threaded() && Placed()
      ensures Sound() <==> Valid()
    {
      hide Slot, TotalLen, Hashed, DistinctKeys, InChain, ShortOk;
      if Sound() {
        forall b | 0 <= b < |chains| ensures ChainOk(buckets[b].head, chains[b], b, |chains|, Nodes(items)) {
          assert HhThread(buckets[b].head, chains[b], Chained()) && BucketSound(buckets[b], chains[b], Chained());
        }
      }
      if Valid() {
        ValidIsSound();
      }
    }

    /** A valid table passes the check. */
    lemma ValidIsSound()
      requires Valid() && head != null
      ensures Threaded() && Placed() && Sound()
    {
      hide Slot, Pow2, TotalLen, Hashed, DistinctKeys, InChain;
      forall b | 0 <= b < |chains|
        ensures HhThread(buckets[b].head, chains[b], Chained()) && BucketSound(buckets[b], chains[b], Chained())
      {
        assert ChainOk(buckets[b].head, chains[b], b, |chains|, Nodes(items));
      }
    }

    /** HASH_FSCK: recounts both lists and checks every back link. It accepts exactly the tables in which all are
        right. */
    method Fsck() returns (ok: bool)
      requires head != null ==> Threaded()
      ensures ok <==> head == null || Sound()
    {
      hide TotalLen, Pow2, Slot;
      ok := true;
      if head != null {
        TotalLenEmpty([]);
        assert chains[..0] == [];
        var count := 0;
        var bktI := 0;
        while bktI < numBuckets
          invariant bktI <= numBuckets && count == TotalLen(chains[..bktI])
          invariant ok <==> forall b :: 0 <= b < bktI ==> BucketSound(buckets[b], chains[b], Chained())
        {
          var bktCount, good := FsckBucket(bktI);
          ok := ok && good && buckets[bktI].count == bktCount;
          TotalLenStep(chains, bktI);
          count := count + bktCount;
          bktI := bktI + 1;
        }
        TotalLenAll(chains);
        ok := ok && count == numItems;
        var appCount, good := FsckList();
        ok := ok && good && appCount == numItems;
      }
    }

    method FsckBucket(bktI: nat) returns (bktCount: nat, good: bool)
      requires bktI < |chains| == buckets.Length && HhThread(buckets[bktI].head, chains[bktI], Chained())
      ensures bktCount == |chains[bktI]|
      ensures good && buckets[bktI].count == bktCount <==> BucketSound(buckets[bktI], chains[bktI], Chained())
    {
      ghost var c := chains[bktI];
      bktCount, good := 0, true;
      var thh, prev: Node? := buckets[bktI].head, null;
      while thh != null
        invariant bktCount <= |c|
        invariant good <==> forall j {:trigger c[j].hhPrev} :: 0 <= j < bktCount ==>
            c[j].hhPrev == (if j > 0 then c[j - 1] else null)
        invariant thh == if bktCount < |c| then c[bktCount] else null
        invariant prev == if bktCount > 0 then c[bktCount - 1] else null
        decreases |c| - bktCount
      {
        good := good && prev == thh.hhPrev;
        bktCount, prev, thh := bktCount + 1, thh, thh.hhNext;
      }
    }

    method FsckList() returns (count: nat, good: bool)
      requires NextThread(head, items)
      ensures count == |items| && (good <==> Backs(items))
    {
      count, good := 0, true;
      var thh, prev: Node? := head, null;
      while thh != null
        invariant count <= |items|
        invariant good <==> forall j {:trigger items[j].prev} :: 0 <= j < count ==>
            items[j].prev == (if j > 0 then items[j - 1] else null)
        invariant thh == if count < |items| then items[count] else null
        invariant prev == if count > 0 then items[count - 1] else null
        decreases |items| - count
      {
        good := good && prev == thh.prev;
        count, prev, thh := count + 1, thh, thh.next;
      }
    }

    /** hashtable_free: deletes every node, from the head. */
    method Free()
      requires Valid()
      modifies Repr()
      ensures Valid() && Pairs() == [] && Repr() <= old(Repr())
    {
      var current := head;
      while current != null
        invariant Valid() && current == head && Repr() <= old(Repr())
        decreases |items|
      {
        assert current == items[0];
        ghost var before := Pairs();
        Delete(current);
        assert |Pairs()| == |items| && |before| == |Pairs()| + 1;
        current := head;
      }
    }
  }

  ghost predicate NextThread(head: Node?, s: seq<Node>)
    reads Nodes(s)`next
  {
    && head == (if s == [] then null else s[0])
    && forall i {:trigger s[i].next} :: 0 <= i < |s| ==> s[i].next == (if i + 1 < |s| then s[i + 1] else null)
  }

  ghost predicate Backs(s: seq<Node>)
    reads Nodes(s)`prev
  {
    forall i {:trigger s[i].prev} :: 0 <= i < |s| ==> s[i].prev == (if i > 0 then s[i - 1] else null)
  }

  ghost predicate HhThread(h: Node?, c: seq<Node>, dom: set<Node>)
    reads dom`hhNext
  {
    && h == (if c == [] then null else c[0])
    && (forall j :: 0 <= j < |c| ==> c[j] in dom)
    && forall j {:trigger c[j].hhNext} :: 0 <= j < |c| ==> c[j].hhNext == (if j + 1 < |c| then c[j + 1] else null)
  }

  /** A bucket's count and the back links of its chain are right. */
  ghost predicate BucketSound(v: Bucket, c: seq<Node>, dom: set<Node>)
    reads dom`hhPrev
  {
    && v.count == |c|
    && (forall j :: 0 <= j < |c| ==> c[j] in dom)
    && forall j {:trigger c[j].hhPrev} :: 0 <= j < |c| ==> c[j].hhPrev == (if j > 0 then c[j - 1] else null)
  }

  /** The neighbours of the node are linked to each other. */
  method PatchChain(bk: array<Bucket>, bkt: nat, del: Node, ghost k: nat, ghost c: seq<Node>, ghost size: nat,
          ghost dom: set<Node>)
    requires size > 0 && bkt < bk.Length && ChainOk(bk[bkt].head, c, bkt, size, dom) && NoDup(c)
    requires k < |c| && c[k] == del && bk[bkt].count > 0
    modifies bk, Nodes(c)`hhNext, Nodes(c)`hhPrev
    ensures ChainOk(bk[bkt].head, c[..k] + c[k + 1..], bkt, size, dom - {del})
    ensures bk[bkt].count == old(bk[bkt].count) - 1 && bk[bkt].expandMult == old(bk[bkt].expandMult)
    ensures forall b :: 0 <= b < bk.Length && b != bkt ==> bk[b] == old(bk[b])
  {
    hide Slot;
    assert del.hhPrev == (if k > 0 then c[k - 1] else null) && del.hhNext == (if k + 1 < |c| then c[k + 1] else null);
    bk[bkt] := bk[bkt].(count := bk[bkt].count - 1);
    if bk[bkt].head == del {
      bk[bkt] := bk[bkt].(head := del.hhNext);
    }
    if del.hhPrev != null {
      del.hhPrev.hhNext := del.hhNext;
    }
    if del.hhNext != null {
      del.hhNext.hhPrev := del.hhPrev;
    }
    ghost var c' := c[..k] + c[k + 1..];
    assert forall j {:trigger c'[j]} :: 0 <= j < |c'| ==> c'[j] == (if j < k then c[j] else c[j + 1]) && c'[j] != del;
  }

  method UnlinkChain(bk: array<Bucket>, bkt: nat, del: Node, ghost k: nat, ghost chains: seq<seq<Node>>,
          ghost dom: set<Node>)
    requires ChainsOk(bk, chains, dom) && CountsOk(bk, chains)
    requires bkt < |chains| && k < |chains[bkt]| && chains[bkt][k] == del
    modifies bk, dom`hhNext, dom`hhPrev
    ensures ChainsOk(bk, chains[bkt := chains[bkt][..k] + chains[bkt][k + 1..]], dom - {del})
    ensures bk[bkt].count == old(bk[bkt].count) - 1 && bk[bkt].expandMult == old(bk[bkt].expandMult)
    ensures bk[..] == old(bk[..])[bkt := bk[bkt]]
  {
    hide Slot;
    ghost var c := chains[bkt];
    ChainsPartition(bk, chains, dom);
    assert ChainOk(bk[bkt].head, c, bkt, |chains|, dom);
    PatchChain(bk, bkt, del, k, c, |chains|, dom);
    ghost var c' := c[..k] + c[k + 1..];
    ghost var chains' := chains[bkt := c'];
    ghost var dom' := dom - {del};
    forall i | 0 <= i < |chains| && i != bkt
      ensures ChainOk(bk[i].head, chains[i], i, |chains|, dom')
    {
      assert old(ChainOk(bk[i].head, chains[i], i, |chains|, dom));
      assert forall j :: 0 <= j < |chains[i]| ==> Slot(chains[i][j].hashv, |chains|) == i;
    }
    forall m | m in dom' ensures InChain(m, chains') {
      assert InChain(m, chains);
      Survives(c, k, m);
    }
  }

  lemma Survives(c: seq<Node>, k: nat, m: Node)
    requires k < |c| && c[k] != m
    ensures m in c ==> m in c[..k] + c[k + 1..]
  {
    if m in c {
      var j :| 0 <= j < |c| && c[j] == m;
      if j > k {
        assert (c[..k] + c[k + 1..])[j - 1] == m;
      } else {
        assert (c[..k] + c[k + 1..])[j] == m;
      }
    }
  }

  lemma Pow2Of5()
    ensures Pow2(5) == 32
  {
    assert Pow2(5) == 2 * Pow2(4) && Pow2(4) == 2 * Pow2(3) && Pow2(3) == 2 * Pow2(2);
  }

  ghost predicate DistinctKeys(s: seq<Node>) {
    forall i, j :: 0 <= i < j < |s| ==> s[i].item.key != s[j].item.key
  }

  ghost predicate Hashed(s: seq<Node>, hash: string -> nat) {
    forall i :: 0 <= i < |s| ==> s[i].hashv == hash(s[i].item.key)
  }

  function ItemsOf(s: seq<Node>): seq<Item> {
    seq(|s|, i requires 0 <= i < |s| => s[i].item)
  }

  lemma PairsDistinct(s: seq<Node>)
    requires DistinctKeys(s)
    ensures Distinct(ItemsOf(s))
  {
  }

  lemma RemovedKeys(s: seq<Node>, p: nat, hash: string -> nat)
    requires DistinctKeys(s) && Hashed(s, hash) && p < |s|
    ensures DistinctKeys(s[..p] + s[p + 1..]) && Hashed(s[..p] + s[p + 1..], hash) && NoDup(s)
    ensures ItemsOf(s[..p] + s[p + 1..]) == Without(ItemsOf(s), s[p].item.key)
    ensures Nodes(s[..p] + s[p + 1..]) == Nodes(s) - {s[p]}
  {
    WithoutAt(ItemsOf(s), p);
    assert ItemsOf(s[..p] + s[p + 1..]) == ItemsOf(s)[..p] + ItemsOf(s)[p + 1..];
    forall m | m in Nodes(s) - {s[p]} ensures m in s[..p] + s[p + 1..] {
      Survives(s, p, m);
    }
  }

  lemma InsertAtIs(s: seq<Item>, x: Item, cmp: (Item, Item) -> int, p: nat)
    requires p <= |s| && (forall j :: 0 <= j < p ==> cmp(s[j], x) <= 0) && (p < |s| ==> cmp(s[p], x) > 0)
    ensures InsertAt(s, x, cmp) == p
  {
    var i := InsertAt(s, x, cmp);
    assert !(i < p) && !(p < i);
  }

  lemma InsertedFirst(s: seq<Node>, add: Node, cmp: (Item, Item) -> int, hash: string -> nat)
    requires s == [] && add.hashv == hash(add.item.key)
    ensures Inserted(ItemsOf(s), add.item, cmp) == ItemsOf([add]) && DistinctKeys([add]) && Hashed([add], hash)
    ensures Nodes(s) == {} && Nodes([add]) == {add}
  {
  }

  lemma InsertedItems(s: seq<Node>, p: nat, add: Node, cmp: (Item, Item) -> int)
    requires p == InsertAt(ItemsOf(s), add.item, cmp)
    ensures ItemsOf(s[..p] + [add] + s[p..]) == Inserted(ItemsOf(s), add.item, cmp)
  {
    assert ItemsOf(s[..p]) == ItemsOf(s)[..p] && ItemsOf(s[p..]) == ItemsOf(s)[p..];
  }

  lemma InsertedKeys(s: seq<Node>, p: nat, add: Node, hash: string -> nat)
    requires DistinctKeys(s) && Hashed(s, hash) && p <= |s| && add.item.key !in Keys(ItemsOf(s))
        && add.hashv == hash(add.item.key)
    ensures var r := s[..p] + [add] + s[p..];
            DistinctKeys(r) && Hashed(r, hash) && Nodes(r) == Nodes(s) + {add}
    ensures NoDup(s) && add !in Nodes(s)
  {
    var r := s[..p] + [add] + s[p..];
    forall i | 0 <= i < |s| ensures s[i].item.key != add.item.key {
      assert ItemsOf(s)[i].key in Keys(ItemsOf(s));
    }
    forall n | n in Nodes(s) ensures n in r {
      var i :| 0 <= i < |s| && s[i] == n;
      assert n == if i < p then r[i] else r[i + 1];
    }
  }

  lemma AddedKeys(s: seq<Node>, add: Node, hash: string -> nat)
    requires DistinctKeys(s) && Hashed(s, hash) && add.item.key !in Keys(ItemsOf(s)) && add.hashv == hash(add.item.key)
    ensures DistinctKeys(s + [add]) && Hashed(s + [add], hash) && ItemsOf(s + [add]) == ItemsOf(s) + [add.item]
        && add !in Nodes(s)
    ensures Nodes(s + [add]) == Nodes(s) + {add}
  {
    forall i | 0 <= i < |s| ensures s[i].item.key != add.item.key {
      assert ItemsOf(s)[i].key in Keys(ItemsOf(s));
    }
  }

  method EmptyBuckets(size: nat) returns (bk: array<Bucket>, ghost chains: seq<seq<Node>>)
    ensures fresh(bk) && bk.Length == size && ZeroBuckets(bk, chains)
  {
    bk := new Bucket[size](_ => Bucket(null, 0, 0));
    chains := seq(size, _ => []);
  }

  ghost predicate ZeroBuckets(bk: array<Bucket>, chains: seq<seq<Node>>)
    reads bk
  {
    bk.Length == |chains| && forall b :: 0 <= b < bk.Length ==> bk[b] == Bucket(null, 0, 0) && chains[b] == []
  }

  ghost function InSlot(dom: set<Node>, size: nat, b: nat): set<Node>
    requires size > 0
  {
    set n | n in dom && Slot(n.hashv, size) == b
  }

  ghost function Before(dom: set<Node>, size: nat, i: nat): set<Node>
    requires size > 0
  {
    set n | n in dom && Slot(n.hashv, size) < i
  }

  lemma BeforeStep(dom: set<Node>, chains: seq<seq<Node>>, i: nat)
    requires i < |chains| && Nodes(chains[i]) == InSlot(dom, |chains|, i)
    ensures Before(dom, |chains|, i + 1) == Before(dom, |chains|, i) + Nodes(chains[i])
    ensures forall j :: 0 <= j < |chains[i]| ==> chains[i][j] !in Before(dom, |chains|, i)
  {
    forall j | 0 <= j < |chains[i]| ensures chains[i][j] !in Before(dom, |chains|, i) {
      assert chains[i][j] in Nodes(chains[i]);
    }
  }

  lemma BeforeAll(dom: set<Node>, size: nat)
    requires size > 0
    ensures Before(dom, size, size) == dom
  {
  }

  lemma NodesStep(c: seq<Node>, k: nat)
    requires k < |c| && NoDup(c)
    ensures Nodes(c[..k + 1]) == Nodes(c[..k]) + {c[k]} && c[k] !in Nodes(c[..k])
  {
    assert c[..k + 1] == c[..k] + [c[k]];
  }

  ghost predicate NextOk(c: seq<Node>, k: nat)
    reads Nodes(c)`hhNext
  {
    forall j {:trigger c[j].hhNext} :: k <= j < |c| ==> c[j].hhNext == (if j + 1 < |c| then c[j + 1] else null)
  }

  /** No node is in two places. */
  ghost predicate Partition(chains: seq<seq<Node>>) {
    && (forall b :: 0 <= b < |chains| ==> NoDup(chains[b]))
    && (forall b, j :: 0 <= b < |chains| && 0 <= j < |chains[b]| ==> Slot(chains[b][j].hashv, |chains|) == b)
  }

  lemma FreshBuckets(bk: array<Bucket>, chains: seq<seq<Node>>, ideal: nat)
    requires bk.Length > 0 && ZeroBuckets(bk, chains)
    ensures ChainsOk(bk, chains, {}) && CountsOk(bk, chains) && GrowthOk(bk[..], ideal, 0) && TotalLen(chains) == 0
    ensures ShortOk(bk[..], ideal, false) && bk.Length == |chains|
    ensures forall b :: 0 <= b < bk.Length ==> bk[b].count == bk[b].expandMult == 0
  {
    TotalLenEmpty(chains);
    ExcessEmpty(bk[..], ideal);
    forall b | 0 <= b < bk.Length ensures Tuned(bk[..][b], ideal) {
      assert bk[..][b] == Bucket(null, 0, 0);
    }
  }

  ghost predicate GrowthOk(bs: seq<Bucket>, ideal: nat, nonideal: nat) {
    && nonideal == Excess(bs, ideal)
    && forall b :: 0 <= b < |bs| ==> Tuned(bs[b], ideal)
  }

  lemma GrowthStep(bs: seq<Bucket>, bkt: nat, n: Node, ideal: nat, nonideal: nat)
    requires bkt < |bs| && ideal > 0 && GrowthOk(bs, ideal, nonideal)
    ensures GrowthOk(bs[bkt := Grow(bs[bkt], ideal).(head := n)], ideal,
        nonideal + (if bs[bkt].count + 1 > ideal then 1 else 0))
  {
    GrowTuned(bs[bkt], ideal);
    ExcessUpdate(bs, bkt, Grow(bs[bkt], ideal).(head := n), ideal);
    assert Tuned(Grow(bs[bkt], ideal).(head := n), ideal);
  }

  lemma CountsAfterMove(bs: seq<Bucket>, bk: array<Bucket>, bkt: nat, n: Node, chains: seq<seq<Node>>)
    requires bkt < |bs| == bk.Length == |chains|
    requires forall b :: 0 <= b < |chains| ==> bs[b].count == |chains[b]|
    requires bk[..] == bs[bkt := bk[bkt]] && bk[bkt].count == bs[bkt].count + 1
    ensures CountsOk(bk, chains[bkt := [n] + chains[bkt]])
  {
    assert forall b :: 0 <= b < |chains| ==> bk[b] == bk[..][b];
  }
}
