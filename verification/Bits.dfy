/** Arithmetic on unsigned numbers: the masks and shifts of the hash table against remainders and quotients. */
module Bits {

  function Min(a: nat, b: nat): nat {
    if a < b then a else b
  }

  function Max(a: nat, b: nat): nat {
    if a > b then a else b
  }

  function Pow2(k: nat): (p: nat)
    ensures p > 0
  {
    if k == 0 then 1 else 2 * Pow2(k - 1)
  }

  /** Bitwise and. */
  function And(x: nat, y: nat): nat {
    if x == 0 || y == 0 then 0 else 2 * And(x / 2, y / 2) + (if x % 2 == 1 && y % 2 == 1 then 1 else 0)
  }

  /** Logical shift right. */
  function Shr(x: nat, k: nat): nat {
    if k == 0 then x else Shr(x / 2, k - 1)
  }

  lemma {:induction false} ShrIsDiv(x: nat, k: nat)
    ensures Shr(x, k) == x / Pow2(k)
  {
    if k != 0 {
      ShrIsDiv(x / 2, k - 1);
      DivDiv(x, Pow2(k - 1));
    }
  }

  lemma DivDiv(x: nat, d: nat)
    requires d > 0
    ensures x / 2 / d == x / (2 * d)
    ensures x % (2 * d) == 2 * ((x / 2) % d) + x % 2
  {
    var q, r := x / 2 / d, (x / 2) % d;
    assert x == 2 * (q * d + r) + x % 2;
    assert x == q * (2 * d) + (2 * r + x % 2);
    DivModUnique(x, 2 * d, q, 2 * r + x % 2);
  }

  lemma {:induction false} StepUp(q: int, q': int, d: nat)
    requires q < q'
    ensures q * d + d <= q' * d
    decreases q' - q
  {
    OneMore(q' - 1, d);
    if q + 1 < q' {
      StepUp(q, q' - 1, d);
    }
  }

  lemma OneMore(q: int, d: int)
    ensures (q + 1) * d == q * d + d
  {
  }

  lemma DivModUnique(x: int, d: nat, q: int, r: nat)
    requires x == q * d + r && r < d
    ensures x / d == q && x % d == r
  {
    var q', r' := x / d, x % d;
    assert x == q' * d + r' && 0 <= r' < d;
    if q < q' {
      StepUp(q, q', d);
    } else if q' < q {
      StepUp(q', q, d);
    }
  }

  /** Masking with a power of two less one is the remainder: the bucket of a hash value. */
  lemma {:induction false} MaskIsMod(x: nat, k: nat)
    ensures And(x, Pow2(k) - 1) == x % Pow2(k)
  {
    var d := Pow2(k);
    if x == 0 {
      DivModUnique(0, d, 0, 0);
    } else if k == 0 {
    } else {
      var d' := Pow2(k - 1);
      MaskIsMod(x / 2, k - 1);
      DivDiv(x, d');
      OddHalf(d' - 1, d - 1);
    }
  }

  lemma OddHalf(h: nat, y: nat)
    requires y == 2 * h + 1
    ensures y / 2 == h && y % 2 == 1
  {
  }

  /** The remainder by repeated subtraction. */
  function Slot(h: nat, size: nat): (b: nat)
    requires size > 0
    ensures b < size
    decreases h
  {
    if h < size then h else Slot(h - size, size)
  }

  lemma {:induction false} SlotIsMod(h: nat, size: nat)
    requires size > 0
    ensures Slot(h, size) == h % size
    decreases h
  {
    if h < size {
      DivModUnique(h, size, 0, h);
    } else {
      SlotIsMod(h - size, size);
      var q := (h - size) / size;
      assert (q + 1) * size == q * size + size;
      DivModUnique(h, size, q + 1, (h - size) % size);
    }
  }

  /** Masking a hash value with the table size less one picks the slot of its remainder. */
  lemma MaskIsSlot(h: nat, k: nat)
    ensures And(h, Pow2(k) - 1) == Slot(h, Pow2(k))
  {
    MaskIsMod(h, k);
    SlotIsMod(h, Pow2(k));
  }

  /** The least number of groups of at most d that hold x things. */
  function CeilDiv(x: nat, d: nat): (m: nat)
    requires d > 0
    ensures x > 0 ==> m > 0
    decreases x
  {
    if x == 0 then 0 else if x <= d then 1 else 1 + CeilDiv(x - d, d)
  }

  lemma {:induction false} CeilSplit(x: nat, d: nat)
    requires d > 0
    ensures CeilDiv(x, d) == x / d + (if x % d != 0 then 1 else 0)
    decreases x
  {
    if x == 0 {
      DivModUnique(0, d, 0, 0);
    } else if x < d {
      DivModUnique(x, d, 0, x);
    } else if x == d {
      DivModUnique(x, d, 1, 0);
    } else {
      CeilSplit(x - d, d);
      var q := (x - d) / d;
      assert (q + 1) * d == q * d + d;
      DivModUnique(x, d, q + 1, (x - d) % d);
    }
  }

  /** The shift-and-mask ceiling that bucket expansion computes. */
  lemma CeilByMask(x: nat, k: nat)
    ensures Shr(x, k) + (if And(x, Pow2(k) - 1) != 0 then 1 else 0) == CeilDiv(x, Pow2(k))
  {
    ShrIsDiv(x, k);
    MaskIsMod(x, k);
    CeilSplit(x, Pow2(k));
  }

  /** Multiplication by repeated addition. */
  function Times(m: nat, n: nat): nat {
    if m == 0 then 0 else Times(m - 1, n) + n
  }

  lemma {:induction false} TimesIsMul(m: nat, n: nat)
    ensures Times(m, n) == m * n
  {
    if m != 0 {
      TimesIsMul(m - 1, n);
      assert m * n == (m - 1) * n + n;
    }
  }
}
