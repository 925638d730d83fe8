/** Decimal numerals: their values, their canonical text and how text order relates to value order. */
module Decimal {
  import opened Text

  predicate IsDigit(c: char) { '0' <= c <= '9' }

  predicate AllDigits(s: string) { forall i | 0 <= i < |s| :: IsDigit(s[i]) }

  function DigitOf(c: char): nat
    requires IsDigit(c)
  {
    c as int - '0' as int
  }

  function DigitChar(d: nat): (c: char)
    requires d < 10
    ensures IsDigit(c) && DigitOf(c) == d
  {
    '0' + d as char
  }

  function Value(s: string): nat
    requires AllDigits(s)
  {
    if s == [] then 0 else 10 * Value(s[..|s| - 1]) + DigitOf(s[|s| - 1])
  }

  /** The decimal text of n, as a printf of an unsigned integer writes it. */
  function Numeral(n: nat): (s: string)
    ensures AllDigits(s) && s != []
  {
    if n < 10 then [DigitChar(n)] else Numeral(n / 10) + [DigitChar(n % 10)]
  }

  /** A numeral without a leading zero. */
  predicate Canonical(s: string) {
    AllDigits(s) && s != [] && (|s| == 1 || s[0] != '0')
  }

  function Pow10(k: nat): (r: nat)
    ensures r >= 1
  {
    if k == 0 then 1 else 10 * Pow10(k - 1)
  }

  lemma {:induction false} ValueOfNumeral(n: nat)
    ensures Value(Numeral(n)) == n && Canonical(Numeral(n))
    ensures n > 0 ==> Numeral(n)[0] != '0'
  {
    var s := Numeral(n);
    if n < 10 {
      assert s[..0] == [];
    } else {
      ValueOfNumeral(n / 10);
      assert s[..|s| - 1] == Numeral(n / 10);
    }
  }

  lemma {:induction false} NumeralOfValue(s: string)
    requires Canonical(s)
    ensures Numeral(Value(s)) == s
  {
    var last := s[|s| - 1];
    assert s == s[..|s| - 1] + [last];
    if |s| == 1 {
      assert s[..0] == [];
      assert DigitChar(DigitOf(last)) == last;
    } else {
      NumeralOfValue(s[..|s| - 1]);
      LeadingDigit(s[..|s| - 1]);
      var v := Value(s[..|s| - 1]);
      assert Value(s) / 10 == v && Value(s) % 10 == DigitOf(last);
      assert DigitChar(DigitOf(last)) == last;
    }
  }

  /** A numeral with a non-zero leading digit is at least a power of ten; every numeral is below the next. */
  lemma {:induction false} LeadingDigit(s: string)
    requires AllDigits(s) && s != []
    ensures Value(s) < Pow10(|s|)
    ensures s[0] != '0' ==> Value(s) >= Pow10(|s| - 1)
  {
    if |s| > 1 {
      LeadingDigit(s[..|s| - 1]);
    } else {
      assert s[..0] == [];
    }
  }

  lemma {:induction false} Pow10Grows(j: nat, k: nat)
    requires j <= k
    ensures Pow10(j) <= Pow10(k)
    decreases k - j
  {
    if j < k { Pow10Grows(j + 1, k); }
  }

  lemma {:induction false} CompareSplit(a: string, b: string, c: char, d: char)
    requires |a| == |b|
    ensures CompareText(a + [c], b + [d]) == if CompareText(a, b) != 0 then CompareText(a, b) else Sign(c as int - d as int)
  {
    if a == [] {
      assert a + [c] == [c] && b + [d] == [d];
    } else {
      assert (a + [c])[1..] == a[1..] + [c] && (b + [d])[1..] == b[1..] + [d];
      CompareSplit(a[1..], b[1..], c, d);
    }
  }

  /** Numerals of one length compare as text exactly as their values do. */
  lemma {:induction false} SameLengthOrder(a: string, b: string)
    requires AllDigits(a) && AllDigits(b) && |a| == |b|
    ensures CompareText(a, b) == Sign(Value(a) - Value(b))
  {
    if a != [] {
      var a', b' := a[..|a| - 1], b[..|b| - 1];
      SameLengthOrder(a', b');
      CompareSplit(a', b', a[|a| - 1], b[|b| - 1]);
      assert a == a' + [a[|a| - 1]] && b == b' + [b[|b| - 1]];
    }
  }

  /** Shorter first, then bytewise, is the order of the unbounded values. */
  lemma NumeralOrder(a: string, b: string)
    requires Canonical(a) && Canonical(b)
    ensures (if |a| != |b| then Sign(|a| - |b|) else CompareText(a, b)) == Sign(Value(a) - Value(b))
  {
    if |a| == |b| {
      SameLengthOrder(a, b);
    } else {
      LeadingDigit(a);
      LeadingDigit(b);
      if |a| < |b| { Pow10Grows(|a|, |b| - 1); } else { Pow10Grows(|b|, |a| - 1); }
    }
  }

  /** A longer prefix of digits has at least the value of a shorter one. */
  lemma {:induction false} ValueOfPrefix(s: string, k: nat)
    requires AllDigits(s) && k <= |s|
    ensures Value(s[..k]) <= Value(s)
  {
    if k == |s| {
      assert s[..k] == s;
    } else {
      ValueOfPrefix(s[..|s| - 1], k);
      assert s[..|s| - 1][..k] == s[..k];
    }
  }

  /** How many digits a text starts with. */
  function DigitCount(s: string): (n: nat)
    ensures n <= |s| && AllDigits(s[..n]) && (n < |s| ==> !IsDigit(s[n]))
  {
    if s == [] || !IsDigit(s[0]) then 0
    else
      var n := 1 + DigitCount(s[1..]);
      assert forall i | 0 < i < n :: s[..n][i] == s[1..][..n - 1][i - 1];
      n
  }

  lemma DigitCountIs(s: string, n: nat)
    requires n <= |s| && (forall i | 0 <= i < n :: IsDigit(s[i])) && (n < |s| ==> !IsDigit(s[n]))
    ensures DigitCount(s) == n
  {
  }

  lemma NoDigits(s: string)
    ensures AllDigits(s[..0]) && Value(s[..0]) == 0
  {
  }

  /** One more digit. */
  lemma NextDigit(s: string, i: nat)
    requires i < |s| && AllDigits(s[..i]) && IsDigit(s[i])
    ensures AllDigits(s[..i + 1]) && Value(s[..i + 1]) == 10 * Value(s[..i]) + DigitOf(s[i])
  {
    assert s[..i + 1] == s[..i] + [s[i]];
    assert s[..i + 1][..i] == s[..i];
  }
}
