/** The C string functions the file system rests on, as functions on character sequences. */
module CStrings {

  datatype Option<+T> = None | Some(value: T)

  /** The position of the first c at or after `from`, or the length. */
  function Find(s: string, c: char, from: nat): (i: nat)
    requires from <= |s|
    ensures from <= i <= |s| && (i < |s| ==> s[i] == c)
    ensures forall j :: from <= j < i ==> s[j] != c
    decreases |s| - from
  {
    if from == |s| || s[from] == c then from else Find(s, c, from + 1)
  }

  lemma FindIs(s: string, c: char, from: nat, i: nat)
    requires from <= i <= |s| && (i < |s| ==> s[i] == c) && forall j :: from <= j < i ==> s[j] != c
    ensures Find(s, c, from) == i
  {
    var k := Find(s, c, from);
    assert !(k < i) && !(i < k);
  }

  /** What a C function sees of a buffer: the characters before the first NUL. */
  function CStr(s: string): (r: string)
    ensures '\0' !in r && ('\0' !in s ==> r == s)
  {
    s[..Find(s, '\0', 0)]
  }

  lemma CStrTerminated(s: string, junk: string)
    requires '\0' !in s
    ensures CStr(s + "\0" + junk) == s
  {
    var t := s + "\0" + junk;
    assert t[|s|] == '\0' && forall j :: 0 <= j < |s| ==> t[j] == s[j];
    FindIs(t, '\0', 0, |s|);
  }

  predicate OccursAt(s: string, pat: string, i: nat) {
    i + |pat| <= |s| && s[i..i + |pat|] == pat
  }

  /** strstr: the first occurrence of pat. */
  function StrStr(s: string, pat: string): (r: Option<nat>)
    ensures r.Some? ==> OccursAt(s, pat, r.value) && forall i: nat :: i < r.value ==> !OccursAt(s, pat, i)
    ensures r.None? ==> forall i: nat :: !OccursAt(s, pat, i)
  {
    StrStrFrom(s, pat, 0)
  }

  function StrStrFrom(s: string, pat: string, from: nat): (r: Option<nat>)
    requires forall i: nat :: i < from ==> !OccursAt(s, pat, i)
    ensures r.Some? ==> OccursAt(s, pat, r.value) && forall i: nat :: i < r.value ==> !OccursAt(s, pat, i)
    ensures r.None? ==> forall i: nat :: !OccursAt(s, pat, i)
    decreases |s| - from
  {
    if from > |s| then None
    else if OccursAt(s, pat, from) then Some(from)
    else StrStrFrom(s, pat, from + 1)
  }

  lemma StrStrIs(s: string, pat: string, i: nat)
    requires OccursAt(s, pat, i) && forall j: nat :: j < i ==> !OccursAt(s, pat, j)
    ensures StrStr(s, pat) == Some(i)
  {
  }

  /** Appending text does not move a match that is there already. */
  lemma StrStrMore(s: string, t: string, pat: string)
    requires StrStr(s, pat).Some?
    ensures StrStr(s + t, pat) == StrStr(s, pat)
  {
    var o := StrStr(s, pat).value;
    assert (s + t)[o..o + |pat|] == s[o..o + |pat|];
    forall i: nat | i < o ensures !OccursAt(s + t, pat, i) {
      assert (s + t)[i..i + |pat|] == s[i..i + |pat|];
      assert !OccursAt(s, pat, i);
    }
    StrStrIs(s + t, pat, o);
  }

  /** A match inside a prefix is the prefix's match. */
  lemma StrStrLess(s: string, t: string, pat: string, o: nat)
    requires StrStr(s + t, pat) == Some(o) && o + |pat| <= |s|
    ensures StrStr(s, pat) == Some(o)
  {
    assert (s + t)[o..o + |pat|] == s[o..o + |pat|];
    forall i: nat | i < o ensures !OccursAt(s, pat, i) {
      assert (s + t)[i..i + |pat|] == s[i..i + |pat|];
      assert !OccursAt(s + t, pat, i);
    }
    StrStrIs(s, pat, o);
  }

  /** Searching from a position behind a prefix. */
  lemma FindShift(a: string, b: string, c: char, from: nat)
    requires from <= |b|
    ensures Find(a + b, c, |a| + from) == |a| + Find(b, c, from)
  {
    var i := Find(b, c, from);
    assert forall j :: |a| + from <= j < |a| + i ==> (a + b)[j] == b[j - |a|];
    FindIs(a + b, c, |a| + from, |a| + i);
  }

  /** A string without a character contains no pattern with it. */
  lemma NotWithout(s: string, pat: string, c: char)
    requires c in pat && c !in s
    ensures !Contains(s, pat)
  {
    var k :| 0 <= k < |pat| && pat[k] == c;
    forall i: nat ensures !OccursAt(s, pat, i) {
      if i + |pat| <= |s| {
        assert s[i..i + |pat|][k] == s[i + k];
      }
    }
  }

  predicate Contains(s: string, pat: string) {
    StrStr(s, pat).Some?
  }

  lemma StrStrSelf(s: string)
    ensures StrStr(s, s) == Some(0)
  {
    assert OccursAt(s, s, 0);
  }

  /** strrchr: one past the last c, or 0 when there is none. */
  function AfterLast(s: string, c: char): (i: nat)
    ensures i <= |s| && (i > 0 ==> s[i - 1] == c)
    ensures forall j :: i <= j < |s| ==> s[j] != c
  {
    if s == [] then 0 else if s[|s| - 1] == c then |s| else AfterLast(s[..|s| - 1], c)
  }

  lemma AfterLastIs(s: string, c: char, i: nat)
    requires 0 < i <= |s| && s[i - 1] == c && forall j :: i <= j < |s| ==> s[j] != c
    ensures AfterLast(s, c) == i
  {
    var k := AfterLast(s, c);
    assert !(k < i) && !(i < k);
  }

  // Decimal numerals

  predicate IsDigit(c: char) {
    '0' <= c <= '9'
  }

  function Digit(d: nat): (c: char)
    requires d < 10
    ensures IsDigit(c) && DigitValue(c) == d
  {
    '0' + d as char
  }

  function DigitValue(c: char): (d: nat)
    requires IsDigit(c)
    ensures d < 10
  {
    (c - '0') as nat
  }

  /** printf's %d and %lu for a number that is not negative. */
  function Dec(n: nat): (s: string)
    ensures s != [] && forall i :: 0 <= i < |s| ==> IsDigit(s[i])
  {
    if n < 10 then [Digit(n)] else Dec(n / 10) + [Digit(n % 10)]
  }

  function Value(s: string): nat
    requires forall i :: 0 <= i < |s| ==> IsDigit(s[i])
  {
    if s == [] then 0 else 10 * Value(s[..|s| - 1]) + DigitValue(s[|s| - 1])
  }

  /** The number of digits at the front. */
  function DigitsOf(s: string): (n: nat)
    ensures n <= |s| && forall i :: 0 <= i < n ==> IsDigit(s[i])
    ensures n < |s| ==> !IsDigit(s[n])
  {
    if s == [] || !IsDigit(s[0]) then 0 else 1 + DigitsOf(s[1..])
  }

  /** atoi and strtoul: the number the leading digits spell. */
  function Atoi(s: string): nat {
    Value(s[..DigitsOf(s)])
  }

  lemma {:induction false} ValueDec(n: nat)
    ensures Value(Dec(n)) == n
  {
    if n >= 10 {
      ValueDec(n / 10);
      assert Dec(n)[..|Dec(n)| - 1] == Dec(n / 10);
    } else {
      assert Dec(n)[..0] == [];
    }
  }

  /** Reading back a printed number, whatever follows it. */
  lemma AtoiDec(n: nat, rest: string)
    requires rest == [] || !IsDigit(rest[0])
    ensures Atoi(Dec(n) + rest) == n
  {
    var s := Dec(n) + rest;
    DigitsOfIs(s, |Dec(n)|);
    assert s[..|Dec(n)|] == Dec(n);
    ValueDec(n);
  }

  lemma DigitsOfIs(s: string, n: nat)
    requires n <= |s| && (forall i :: 0 <= i < n ==> IsDigit(s[i])) && (n < |s| ==> !IsDigit(s[n]))
    ensures DigitsOf(s) == n
  {
    var k := DigitsOf(s);
    assert !(k < n) && !(n < k);
  }

  lemma DecInjective(m: nat, n: nat)
    requires Dec(m) == Dec(n)
    ensures m == n
  {
    ValueDec(m);
    ValueDec(n);
  }
}
