/** C strings: character classes and the bytewise order of strcmp and memcmp. */
module Text {
  import opened Common

  /** isspace in the C locale. */
  predicate IsSpace(c: char) {
    c == ' ' || '\t' <= c <= '\r'
  }

  /** Bytewise order, a proper prefix first: memcmp over the shared length, then the lengths. */
  function CompareText(a: string, b: string): (r: int)
    ensures -1 <= r <= 1
  {
    if a == [] then (if b == [] then 0 else -1)
    else if b == [] then 1
    else if a[0] < b[0] then -1
    else if a[0] > b[0] then 1
    else CompareText(a[1..], b[1..])
  }

  function Sign(x: int): int { if x < 0 then -1 else if x > 0 then 1 else 0 }

  lemma {:induction false} CompareTextZero(a: string, b: string)
    ensures CompareText(a, b) == 0 <==> a == b
  {
    if a != [] && b != [] {
      CompareTextZero(a[1..], b[1..]);
      HeadTail(a);
      HeadTail(b);
    }
  }

  lemma {:induction false} CompareTextAntisymmetric(a: string, b: string)
    ensures CompareText(a, b) == -CompareText(b, a)
  {
    if a != [] && b != [] { CompareTextAntisymmetric(a[1..], b[1..]); }
  }

  lemma {:induction false} CompareTextTransitive(a: string, b: string, c: string)
    requires CompareText(a, b) <= 0 && CompareText(b, c) <= 0
    ensures CompareText(a, c) <= 0
  {
    if a != [] && b != [] && c != [] && a[0] == b[0] == c[0] {
      CompareTextTransitive(a[1..], b[1..], c[1..]);
    }
  }

  /** The texts agree before k, where the first one ends or has the smaller character. */
  predicate TextBelowAt(a: string, b: string, k: nat) {
    k <= |a| && k < |b| && a[..k] == b[..k] && (k < |a| ==> a[k] < b[k])
  }

  /** The order by the first difference. */
  lemma {:induction false} CompareTextMeans(a: string, b: string)
    ensures CompareText(a, b) < 0 <==> exists k: nat :: TextBelowAt(a, b, k)
  {
    hide TextBelowAt;
    TextBelowFirst(a, b);
    if a != [] && b != [] && a[0] == b[0] {
      CompareTextMeans(a[1..], b[1..]);
      if k: nat :| TextBelowAt(a[1..], b[1..], k) {
        TextBelowNext(a, b, k);
      }
      if k: nat :| TextBelowAt(a, b, k) {
        if k > 0 {
          TextBelowNext(a, b, k - 1);
        }
      }
    }
  }

  lemma TextBelowFirst(a: string, b: string)
    ensures TextBelowAt(a, b, 0) <==> b != [] && (a != [] ==> a[0] < b[0])
    ensures b == [] || (a != [] && a[0] > b[0]) ==> forall k: nat :: !TextBelowAt(a, b, k)
    ensures a == [] ==> forall k: nat | k > 0 :: !TextBelowAt(a, b, k)
  {
    forall k: nat | k > 0 && TextBelowAt(a, b, k) ensures a != [] && b != [] && a[0] == b[0] {
      assert a[..k][0] == b[..k][0];
    }
  }

  lemma TextBelowNext(a: string, b: string, k: nat)
    requires a != [] && b != [] && a[0] == b[0]
    ensures TextBelowAt(a, b, k + 1) <==> TextBelowAt(a[1..], b[1..], k)
  {
    if k < |a| && k < |b| {
      assert a[..k + 1] == [a[0]] + a[1..][..k] && b[..k + 1] == [b[0]] + b[1..][..k];
    }
  }

  // ---------------------------------------------------- where a C string ends

  /** Where the character first is, or the length. */
  function IndexOf(s: string, c: char): (n: nat)
    ensures n <= |s|
  {
    if s == [] || s[0] == c then 0 else 1 + IndexOf(s[1..], c)
  }

  lemma {:induction false} IndexOfIs(s: string, c: char, n: nat)
    requires n <= |s| && c !in s[..n] && (n < |s| ==> s[n] == c)
    ensures IndexOf(s, c) == n
  {
    if n > 0 {
      assert s[..n][0] == s[0];
      assert s[1..][..n - 1] == s[..n][1..];
      IndexOfIs(s[1..], c, n - 1);
    }
  }

  /** What the C string functions see of a text: the characters before its first null character. */
  function CText(s: string): string { s[..IndexOf(s, '\0')] }

  lemma {:induction false} CTextIs(s: string)
    ensures CText(s) <= s && '\0' !in CText(s)
    ensures CText(s) != s ==> s[|CText(s)|] == '\0'
  {
    if s != [] && s[0] != '\0' {
      CTextIs(s[1..]);
      assert CText(s) == [s[0]] + CText(s[1..]);
    }
  }

  lemma CTextWhole(s: string)
    requires '\0' !in s
    ensures CText(s) == s
  {
    CTextIs(s);
  }

  // ------------------------------------------------------------------- trimming

  function TrimLeft(s: string): (r: string)
    ensures |r| <= |s|
  {
    if s != [] && IsSpace(s[0]) then TrimLeft(s[1..]) else s
  }

  function TrimRight(s: string): (r: string)
    ensures |r| <= |s|
  {
    if s != [] && IsSpace(s[|s| - 1]) then TrimRight(s[..|s| - 1]) else s
  }

  function Trim(s: string): string { TrimRight(TrimLeft(s)) }

  /** Neither empty ends nor spaces to remove. */
  predicate Trimmed(s: string) {
    s != [] ==> !IsSpace(s[0]) && !IsSpace(s[|s| - 1])
  }

  lemma {:induction false} TrimLeftIs(s: string)
    ensures var r := TrimLeft(s); (r != [] ==> !IsSpace(r[0])) && forall c | c in r :: c in s
  {
    if s != [] {
      TrimLeftIs(s[1..]);
    }
  }

  lemma {:induction false} TrimRightIs(s: string)
    ensures var r := TrimRight(s); r <= s && (r != [] ==> !IsSpace(r[|r| - 1]))
  {
    if s != [] {
      TrimRightIs(s[..|s| - 1]);
      assert s[..|s| - 1] <= s;
    }
  }

  /** Trimming keeps exactly the texts without outer blanks, and gives only such texts. */
  lemma TrimIs(s: string)
    ensures Trimmed(Trim(s)) && (Trim(s) == s <==> Trimmed(s))
    ensures forall c | c in Trim(s) :: c in s
  {
    TrimLeftIs(s);
    TrimRightIs(TrimLeft(s));
    if Trimmed(s) {
      TrimmedStays(s);
    }
    hide TrimLeft, TrimRight;
    var left := TrimLeft(s);
    var r := TrimRight(left);
    if r != [] {
      assert r[0] == left[0];
    }
    forall c | c in r ensures c in s {
      var i :| 0 <= i < |r| && r[i] == c;
      assert left[i] == c;
      assert c in left;
    }
  }

  lemma TrimmedStays(s: string)
    requires Trimmed(s)
    ensures TrimLeft(s) == s && TrimRight(s) == s
  {
  }

  // ------------------------------------------------------ trimming by positions

  predicate Blank(s: string) { forall c | c in s :: IsSpace(c) }

  lemma NoneBlank()
    ensures Blank([])
  {
  }

  lemma BlankCons(s: string, k: nat)
    requires k < |s| && IsSpace(s[0]) && Blank(s[1..][..k])
    ensures Blank(s[..k + 1]) && s[1..][k..] == s[k + 1..]
  {
    assert s[..k + 1] == [s[0]] + s[1..][..k];
  }

  lemma {:induction false} TrimLeftMeans(s: string)
    ensures TrimLeft(s) == s[|s| - |TrimLeft(s)|..] && Blank(s[..|s| - |TrimLeft(s)|])
    ensures TrimLeft(s) != [] ==> !IsSpace(TrimLeft(s)[0])
  {
    hide IsSpace, Blank;
    if s != [] && IsSpace(s[0]) {
      TrimLeftMeans(s[1..]);
      var k := |s[1..]| - |TrimLeft(s[1..])|;
      BlankCons(s, k);
    } else {
      assert s[..0] == [] && s[0..] == s;
      NoneBlank();
    }
  }

  /** The text behind leading blanks is found where they end. */
  lemma {:induction false} TrimLeftAt(s: string, k: nat)
    requires k <= |s| && Blank(s[..k]) && (k < |s| ==> !IsSpace(s[k]))
    ensures TrimLeft(s) == s[k..]
  {
    if k > 0 {
      assert s[0] in s[..k];
      forall c | c in s[1..][..k - 1] ensures IsSpace(c) {
        var i :| 0 <= i < k - 1 && s[1..][i] == c;
        assert s[..k][i + 1] == c;
      }
      TrimLeftAt(s[1..], k - 1);
    }
  }

  lemma BlankSnoc(s: string, k: nat)
    requires k < |s| && IsSpace(s[|s| - 1]) && Blank(s[..|s| - 1][k..])
    ensures Blank(s[k..]) && s[..|s| - 1][..k] == s[..k]
  {
    assert s[k..] == s[..|s| - 1][k..] + [s[|s| - 1]];
  }

  lemma {:induction false} TrimRightMeans(s: string)
    ensures TrimRight(s) == s[..|TrimRight(s)|] && Blank(s[|TrimRight(s)|..])
    ensures TrimRight(s) != [] ==> !IsSpace(TrimRight(s)[|TrimRight(s)| - 1])
  {
    hide IsSpace, Blank;
    if s != [] && IsSpace(s[|s| - 1]) {
      var front := s[..|s| - 1];
      TrimRightMeans(front);
      BlankSnoc(s, |TrimRight(front)|);
    } else {
      assert s[..|s|] == s && s[|s|..] == [];
      NoneBlank();
    }
  }

  /** What trimming gives lies between blanks. */
  predicate Between(s: string, i: nat, r: string) {
    i + |r| <= |s| && s[i..i + |r|] == r && Blank(s[..i]) && Blank(s[i + |r|..])
  }

  /** Trimming gives the part without outer blanks that lies between blanks. */
  lemma TrimMeans(s: string)
    ensures Trimmed(Trim(s)) && exists i: nat :: Between(s, i, Trim(s))
  {
    hide TrimLeft, TrimRight;
    TrimIs(s);
    TrimLeftMeans(s);
    var left := TrimLeft(s);
    TrimRightMeans(left);
    var r, i := Trim(s), |s| - |left|;
    assert s[i..][..|r|] == s[i..i + |r|];
    assert s[i..][|r|..] == s[i + |r|..];
    assert Between(s, i, r);
  }
}
