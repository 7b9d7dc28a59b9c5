/** Decimal integer text, as far as `int(text)` is used on a publication year:
    a non-empty run of ASCII digits, leading zeros allowed. */
module Digits {
  import opened Wrappers

  predicate IsDigit(c: char) {
    '0' <= c <= '9'
  }

  predicate AllDigits(s: string) {
    forall i :: 0 <= i < |s| ==> IsDigit(s[i])
  }

  function DigitValue(c: char): nat
    requires IsDigit(c)
  {
    c as int - '0' as int
  }

  function DigitChar(d: nat): (c: char)
    requires d < 10
    ensures IsDigit(c) && DigitValue(c) == d
  {
    ('0' as int + d) as char
  }

  /** The value of a digit string, most significant digit first. */
  function ValueOf(s: string): nat
    requires AllDigits(s)
  {
    if |s| == 0 then 0 else 10 * ValueOf(s[..|s| - 1]) + DigitValue(s[|s| - 1])
  }

  /** `int(s)` restricted to ASCII digit strings; `None` is the `ValueError`.
      Text without a leading zero is read back exactly as the number prints. */
  function ParseNat(s: string): (r: Option<nat>)
    ensures r.Some? <==> |s| > 0 && AllDigits(s)
    ensures r.Some? ==> r.value == ValueOf(s)
    ensures r.Some? && (s[0] != '0' || s == "0") ==> ShowNat(r.value) == s
  {
    if |s| > 0 && AllDigits(s) then ShowValueOf(s); Some(ValueOf(s)) else None
  }

  /** The canonical decimal text of `n`: no leading zero except for 0 itself. */
  function ShowNat(n: nat): (r: string)
    ensures |r| > 0 && AllDigits(r)
    ensures r[0] != '0' || r == "0"
  {
    if n < 10 then [DigitChar(n)] else ShowNat(n / 10) + [DigitChar(n % 10)]
  }

  /** Printing a number and parsing it back gives the number. */
  lemma {:induction false} ParseShowNat(n: nat)
    ensures ParseNat(ShowNat(n)) == Some(n)
  {
    ValueShowNat(n);
  }

  lemma {:induction false} ValueShowNat(n: nat)
    ensures ValueOf(ShowNat(n)) == n
  {
    if n >= 10 {
      var s := ShowNat(n);
      assert s[..|s| - 1] == ShowNat(n / 10);
      ValueShowNat(n / 10);
    }
  }

  lemma DivMod10(v: nat, d: nat)
    requires d < 10
    ensures (10 * v + d) / 10 == v && (10 * v + d) % 10 == d
  {
  }

  /** A digit string whose first digit is not a zero (or that is "0") is the
      canonical text of its value: parsing loses nothing. */
  lemma {:induction false} ShowValueOf(s: string)
    requires |s| > 0 && AllDigits(s)
    ensures s[0] != '0' || s == "0" ==> ShowNat(ValueOf(s)) == s
    decreases |s|
  {
    if s[0] != '0' || s == "0" {
      var p, c := s[..|s| - 1], s[|s| - 1];
      assert DigitChar(DigitValue(c)) == c;
      if |s| == 1 {
        assert s == [c];
      } else {
        assert AllDigits(p) && p[0] == s[0];
        PositiveValue(p);
        ShowValueOf(p);
        DivMod10(ValueOf(p), DigitValue(c));
        assert s == p + [c];
      }
    }
  }

  lemma {:induction false} PositiveValue(s: string)
    requires |s| > 0 && AllDigits(s) && s[0] != '0'
    ensures ValueOf(s) > 0
    decreases |s|
  {
    if |s| > 1 {
      PositiveValue(s[..|s| - 1]);
    }
  }

  /** Leading zeros do not change the value: `int("02020") == 2020`. */
  lemma {:induction false} LeadingZero(s: string)
    requires AllDigits(s)
    ensures AllDigits("0" + s) && ValueOf("0" + s) == ValueOf(s)
    decreases |s|
  {
    if |s| > 0 {
      var p := s[..|s| - 1];
      LeadingZero(p);
      assert ("0" + s)[..|s|] == "0" + p;
    }
  }
}
