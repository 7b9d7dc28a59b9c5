/** Python's `<` on `str`: lexicographic by code point, a proper prefix
    before any of its extensions. */
module StrOrder {

  /** The order as Python states it: at the first position where the two
      strings differ the smaller code point wins, and a string that runs out
      first (a proper prefix) is the smaller one. */
  ghost predicate FirstDifferenceLess(a: string, b: string) {
    exists i :: 0 <= i <= |a| && i < |b| && a[..i] == b[..i] && (i == |a| || a[i] < b[i])
  }

  lemma FirstDifferenceEmpty(a: string, b: string)
    ensures |b| == 0 ==> !FirstDifferenceLess(a, b)
    ensures |a| == 0 && |b| > 0 ==> FirstDifferenceLess(a, b)
  {
    if |a| == 0 && |b| > 0 {
      assert a[..0] == b[..0];
    }
  }

  /** Different first characters decide the comparison. */
  lemma FirstDifferenceHead(a: string, b: string)
    requires |a| > 0 && |b| > 0 && a[0] != b[0]
    ensures FirstDifferenceLess(a, b) <==> a[0] < b[0]
  {
    assert a[..0] == b[..0];
    forall i | 0 < i <= |a| && i < |b| ensures a[..i] != b[..i] {
      assert a[..i][0] != b[..i][0];
    }
  }

  /** Equal first characters pass the comparison on to the rests. */
  lemma FirstDifferenceTail(a: string, b: string)
    requires |a| > 0 && |b| > 0 && a[0] == b[0]
    ensures FirstDifferenceLess(a, b) <==> FirstDifferenceLess(a[1..], b[1..])
  {
    if FirstDifferenceLess(a, b) {
      var i :| 0 <= i <= |a| && i < |b| && a[..i] == b[..i] && (i == |a| || a[i] < b[i]);
      assert i > 0;
      assert a[1..][..i - 1] == a[..i][1..] && b[1..][..i - 1] == b[..i][1..];
      assert i - 1 == |a[1..]| || a[1..][i - 1] < b[1..][i - 1];
    }
    if FirstDifferenceLess(a[1..], b[1..]) {
      var j :| 0 <= j <= |a[1..]| && j < |b[1..]| && a[1..][..j] == b[1..][..j]
               && (j == |a[1..]| || a[1..][j] < b[1..][j]);
      assert a[..j + 1] == [a[0]] + a[1..][..j] && b[..j + 1] == [b[0]] + b[1..][..j];
      assert j + 1 == |a| || a[j + 1] < b[j + 1];
    }
  }

  /** Python's `a < b` on strings, one character at a time. */
  predicate StrLt(a: string, b: string)
    ensures StrLt(a, b) <==> FirstDifferenceLess(a, b)
    decreases |a|
  {
    if |b| == 0 then FirstDifferenceEmpty(a, b); false
    else if |a| == 0 then FirstDifferenceEmpty(a, b); true
    else if a[0] != b[0] then FirstDifferenceHead(a, b); a[0] < b[0]
    else FirstDifferenceTail(a, b); StrLt(a[1..], b[1..])
  }

  lemma {:induction false} StrLtIrreflexive(a: string)
    ensures !StrLt(a, a)
    decreases |a|
  {
    if |a| > 0 {
      StrLtIrreflexive(a[1..]);
    }
  }

  lemma {:induction false} StrLtTransitive(a: string, b: string, c: string)
    requires StrLt(a, b) && StrLt(b, c)
    ensures StrLt(a, c)
    decreases |a|
  {
    if |a| > 0 && a[0] == b[0] && b[0] == c[0] {
      StrLtTransitive(a[1..], b[1..], c[1..]);
    }
  }

  /** Any two different strings are ordered one way or the other. */
  lemma {:induction false} StrLtTotal(a: string, b: string)
    ensures a == b || StrLt(a, b) || StrLt(b, a)
    decreases |a|
  {
    if |a| > 0 && |b| > 0 && a[0] == b[0] {
      StrLtTotal(a[1..], b[1..]);
      if a[1..] == b[1..] {
        assert a == [a[0]] + a[1..] && b == [b[0]] + b[1..];
      }
    }
  }

  lemma {:induction false} StrLtAsymmetric(a: string, b: string)
    requires StrLt(a, b)
    ensures !StrLt(b, a)
  {
    if StrLt(b, a) {
      StrLtTransitive(a, b, a);
      StrLtIrreflexive(a);
    }
  }
}
