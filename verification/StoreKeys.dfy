/** The keys under which the file system keeps its data: no two of them collide. */
module StoreKeys {
  import opened CStrings
  import opened Protocol

  const TABLE := "inode_table"
  const COUNTER := "inode_value"

  /** The key of an inode's record. */
  function InodeKey(i: nat): string {
    Dec(i)
  }

  /** block_key_to_string */
  function BlockKey(i: nat, b: nat): string {
    Dec(i) + "_b_" + Dec(b)
  }

  lemma BlockKeyShape(i: nat, b: nat)
    ensures var k := BlockKey(i, b);
            && Find(k, '_', 0) == |Dec(i)| && k[..|Dec(i)|] == Dec(i) && k[|Dec(i)| + 3..] == Dec(b)
            && k[|Dec(i)|] == '_' && IsDigit(k[0])
  {
    var k := BlockKey(i, b);
    assert k[|Dec(i)|] == '_' && forall j :: 0 <= j < |Dec(i)| ==> k[j] == Dec(i)[j];
    FindIs(k, '_', 0, |Dec(i)|);
  }

  /** A block key tells its inode and its block. */
  lemma BlockKeyInjective(i: nat, b: nat, j: nat, c: nat)
    ensures BlockKey(i, b) == BlockKey(j, c) <==> i == j && b == c
  {
    BlockKeyShape(i, b);
    BlockKeyShape(j, c);
    if BlockKey(i, b) == BlockKey(j, c) {
      DecInjective(i, j);
      DecInjective(b, c);
    }
  }

  lemma InodeKeyInjective(i: nat, j: nat)
    ensures InodeKey(i) == InodeKey(j) <==> i == j
  {
    if InodeKey(i) == InodeKey(j) {
      DecInjective(i, j);
    }
  }

  /** Records, blocks, the table and the counter are kept apart. */
  lemma KeysApart(i: nat, j: nat, b: nat)
    ensures InodeKey(i) != BlockKey(j, b)
    ensures TABLE != InodeKey(i) && COUNTER != InodeKey(i) && TABLE != BlockKey(j, b) && COUNTER != BlockKey(j, b)
  {
    BlockKeyShape(j, b);
    assert IsDigit(InodeKey(i)[0]) && !IsDigit(TABLE[0]) && !IsDigit(COUNTER[0]);
    assert '_' !in InodeKey(i) && '_' in BlockKey(j, b);
  }

  /** The protocol can carry every key. */
  lemma KeysCarried(i: nat, b: nat)
    ensures IsKey(TABLE) && IsKey(COUNTER) && IsKey(InodeKey(i)) && IsKey(BlockKey(i, b))
  {
    hide IsDigit;
    NoDigit();
    assert forall c :: c in "_b_" ==> c != ' ' && c != '\n' && c != '\r';
  }

  lemma NoDigit()
    ensures !IsDigit(' ') && !IsDigit('\n') && !IsDigit('\r')
  {
  }
}
