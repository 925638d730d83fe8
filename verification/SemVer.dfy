/**
 Version parsing and ordering of builder/src/prepare_node.c, proved against the
 grammar and the precedence of section 11 of Semantic Versioning 2.0.0.
 */
module SemVer {
  import opened Common
  import opened Text
  import opened Decimal

  /** An empty prerelease means a release. */
  datatype Version = Version(major: nat, minor: nat, patch: nat, prerelease: string)

  predicate IsAlphanumeric(c: char) {
    IsDigit(c) || 'A' <= c <= 'Z' || 'a' <= c <= 'z'
  }

  predicate IsNumeric(id: string) { id != [] && AllDigits(id) }

  // ------------------------------------------------------ dotted identifiers

  /** The position of the first dot, or the length when there is none. */
  function DotIndex(s: string): (i: nat)
    ensures i <= |s|
    ensures forall k | 0 <= k < i :: s[k] != '.'
    ensures i < |s| ==> s[i] == '.'
  {
    if s == [] || s[0] == '.' then 0 else 1 + DotIndex(s[1..])
  }

  /** Identifiers of a prerelease, read up to each dot; nothing follows a final dot. */
  function Identifiers(s: string): seq<string>
    decreases |s|
  {
    if s == [] then []
    else
      var i := DotIndex(s);
      [s[..i]] + Identifiers(if i < |s| then s[i + 1..] else [])
  }

  /** One identifier of the grammar: no leading zero when numeric. */
  predicate ValidIdentifier(id: string) {
    && id != []
    && (forall i | 0 <= i < |id| :: IsAlphanumeric(id[i]) || id[i] == '-')
    && (IsNumeric(id) ==> Canonical(id))
  }

  /** A dot-separated list of valid identifiers, of which there is at least one. */
  predicate ValidPrerelease(s: string)
    decreases |s|
  {
    var i := DotIndex(s);
    ValidIdentifier(s[..i]) && (i < |s| ==> ValidPrerelease(s[i + 1..]))
  }

  lemma {:induction false} IdentifiersValid(s: string)
    requires ValidPrerelease(s)
    ensures Identifiers(s) != [] && forall id | id in Identifiers(s) :: ValidIdentifier(id)
    decreases |s|
  {
    var i := DotIndex(s);
    if i < |s| { IdentifiersValid(s[i + 1..]); }
  }

  // ------------------------------------------- precedence (section 11 of SemVer 2.0.0)

  /** Numeric identifiers by value, others by ASCII text, numeric before others. */
  function IdentifierPrecedence(l: string, r: string): (c: int)
    ensures -1 <= c <= 1
  {
    if IsNumeric(l) && IsNumeric(r) then Sign(Value(l) - Value(r))
    else if IsNumeric(l) then -1
    else if IsNumeric(r) then 1
    else CompareText(l, r)
  }

  /** The first difference decides; a longer list of equal beginnings is greater. */
  function ListPrecedence(l: seq<string>, r: seq<string>): (c: int)
    ensures -1 <= c <= 1
  {
    if l == [] then (if r == [] then 0 else -1)
    else if r == [] then 1
    else if IdentifierPrecedence(l[0], r[0]) != 0 then IdentifierPrecedence(l[0], r[0])
    else ListPrecedence(l[1..], r[1..])
  }

  /** A release is greater than any of its prereleases. */
  function Precedence(l: Version, r: Version): (c: int)
    ensures -1 <= c <= 1
  {
    if l.major != r.major then Sign(l.major - r.major)
    else if l.minor != r.minor then Sign(l.minor - r.minor)
    else if l.patch != r.patch then Sign(l.patch - r.patch)
    else if l.prerelease == [] || r.prerelease == [] then
      (if l.prerelease == r.prerelease then 0 else if l.prerelease == [] then 1 else -1)
    else ListPrecedence(Identifiers(l.prerelease), Identifiers(r.prerelease))
  }

  // --------------------------------------------------------- the C comparisons

  /** memcmp of equally long texts. */
  function Memcmp(l: string, r: string): (c: int)
    requires |l| == |r|
    ensures -1 <= c <= 1
  {
    if l == [] then 0
    else if l[0] != r[0] then (if l[0] < r[0] then -1 else 1)
    else Memcmp(l[1..], r[1..])
  }

  function CompareIdentifier(l: string, r: string): (c: int)
    ensures -1 <= c <= 1
  {
    var leftNumeric, rightNumeric := IsNumeric(l), IsNumeric(r);
    if leftNumeric && rightNumeric && |l| < |r| then -1
    else if leftNumeric && rightNumeric && |l| > |r| then 1
    else if leftNumeric != rightNumeric then (if leftNumeric then -1 else 1)
    else
      var shared := if |l| < |r| then |l| else |r|;
      var c := Memcmp(l[..shared], r[..shared]);
      if c != 0 then c else if |l| < |r| then -1 else if |l| > |r| then 1 else 0
  }

  lemma {:induction false} MemcmpThenLength(l: string, r: string)
    ensures var shared := if |l| < |r| then |l| else |r|;
            var c := Memcmp(l[..shared], r[..shared]);
            CompareText(l, r) == if c != 0 then c else if |l| < |r| then -1 else if |l| > |r| then 1 else 0
  {
    if l != [] && r != [] && l[0] == r[0] {
      MemcmpThenLength(l[1..], r[1..]);
      var shared := if |l| < |r| then |l| else |r|;
      assert l[..shared][1..] == l[1..][..shared - 1] && r[..shared][1..] == r[1..][..shared - 1];
    }
  }

  /** Comparing numerals by length and bytes is comparing their values. */
  lemma CompareIdentifierIsPrecedence(l: string, r: string)
    requires ValidIdentifier(l) && ValidIdentifier(r)
    ensures CompareIdentifier(l, r) == IdentifierPrecedence(l, r)
  {
    MemcmpThenLength(l, r);
    if IsNumeric(l) && IsNumeric(r) { NumeralOrder(l, r); }
  }

  /** The identifier ending at the next dot and the offset of the one after it. */
  method NextIdentifier(s: string, offset: nat) returns (end: nat, next: nat)
    requires offset < |s|
    ensures offset <= end <= |s| && offset < next <= |s|
    ensures Identifiers(s[offset..]) == [s[offset..end]] + Identifiers(s[next..])
  {
    hide Identifiers;
    end := offset;
    while end < |s| && s[end] != '.'
      invariant offset <= end <= |s|
      invariant DotIndex(s[offset..]) == end - offset + DotIndex(s[end..])
    {
      assert s[end..][1..] == s[end + 1..];
      end := end + 1;
    }
    next := if end < |s| then end + 1 else end;
    FirstIdentifier(s, offset, end);
  }

  lemma FirstIdentifier(s: string, offset: nat, end: nat)
    requires offset < |s| && offset <= end <= |s| && DotIndex(s[offset..]) == end - offset
    ensures Identifiers(s[offset..]) == [s[offset..end]] + Identifiers(s[if end < |s| then end + 1 else end..])
  {
    var rest := s[offset..];
    assert rest[..end - offset] == s[offset..end];
    if end < |s| {
      assert rest[end - offset + 1..] == s[end + 1..];
    } else {
      assert s[end..] == [];
    }
  }

  /** The C loop over both prereleases; an empty one compares as a release. */
  method ComparePrerelease(l: string, r: string) returns (c: int)
    requires l != [] ==> ValidPrerelease(l)
    requires r != [] ==> ValidPrerelease(r)
    ensures c == Precedence(Version(0, 0, 0, l), Version(0, 0, 0, r))
  {
    if l == [] && r == [] {
      return 0;
    }
    if l == [] {
      return 1;
    }
    if r == [] {
      return -1;
    }
    IdentifiersValid(l);
    IdentifiersValid(r);
    hide ValidPrerelease, ValidIdentifier, CompareIdentifier, IdentifierPrecedence, Identifiers;
    ghost var goal := ListPrecedence(Identifiers(l), Identifiers(r));
    var leftOffset, rightOffset := 0, 0;
    assert l[0..] == l && r[0..] == r;
    while leftOffset < |l| && rightOffset < |r|
      invariant leftOffset <= |l| && rightOffset <= |r|
      invariant forall id | id in Identifiers(l[leftOffset..]) :: ValidIdentifier(id)
      invariant forall id | id in Identifiers(r[rightOffset..]) :: ValidIdentifier(id)
      invariant ListPrecedence(Identifiers(l[leftOffset..]), Identifiers(r[rightOffset..])) == goal
      decreases |l| - leftOffset
    {
      var leftEnd, leftNext := NextIdentifier(l, leftOffset);
      var rightEnd, rightNext := NextIdentifier(r, rightOffset);
      var left, right := l[leftOffset..leftEnd], r[rightOffset..rightEnd];
      assert left in Identifiers(l[leftOffset..]) && right in Identifiers(r[rightOffset..]);
      CompareIdentifierIsPrecedence(left, right);
      c := CompareIdentifier(left, right);
      if c != 0 {
        return;
      }
      leftOffset, rightOffset := leftNext, rightNext;
    }
    IdentifiersOfRest(l, leftOffset);
    IdentifiersOfRest(r, rightOffset);
    if leftOffset < |l| {
      return 1;
    }
    if rightOffset < |r| {
      return -1;
    }
    return 0;
  }

  lemma IdentifiersOfRest(s: string, offset: nat)
    requires offset <= |s|
    ensures Identifiers(s[offset..]) == [] <==> offset == |s|
  {}

  /** The versions that parsing produces. */
  predicate WellFormed(v: Version) {
    && v.major < UINT64_LIMIT && v.minor < UINT64_LIMIT && v.patch < UINT64_LIMIT
    && (v.prerelease != [] ==> ValidPrerelease(v.prerelease))
  }

  lemma PrereleaseTypes(l: Version, r: Version)
    requires WellFormed(l) && WellFormed(r)
    ensures l.prerelease != [] ==> ValidPrerelease(l.prerelease)
    ensures r.prerelease != [] ==> ValidPrerelease(r.prerelease)
  {
  }

  method CompareVersions(l: Version, r: Version) returns (c: int)
    requires WellFormed(l) && WellFormed(r)
    ensures c == Precedence(l, r)
    ensures (c < 0 <==> VersionBelow(l, r)) && (c > 0 <==> VersionBelow(r, l)) && (c == 0 <==> l == r)
  {
    hide VersionBelow, WellFormed;
    PrecedenceMeans(l, r);
    PrereleaseTypes(l, r);
    if l.major != r.major {
      return if l.major < r.major then -1 else 1;
    }
    if l.minor != r.minor {
      return if l.minor < r.minor then -1 else 1;
    }
    if l.patch != r.patch {
      return if l.patch < r.patch then -1 else 1;
    }
    c := ComparePrerelease(l.prerelease, r.prerelease);
  }

  // --------------------------------------------------------------- order laws

  lemma IdentifierZero(l: string, r: string)
    requires ValidIdentifier(l) && ValidIdentifier(r)
    ensures IdentifierPrecedence(l, r) == 0 <==> l == r
  {
    CompareTextZero(l, r);
    if IsNumeric(l) && IsNumeric(r) && Value(l) == Value(r) {
      NumeralOfValue(l);
      NumeralOfValue(r);
    }
  }

  lemma IdentifierTransitive(a: string, b: string, c: string)
    requires ValidIdentifier(a) && ValidIdentifier(b) && ValidIdentifier(c)
    requires IdentifierPrecedence(a, b) <= 0 && IdentifierPrecedence(b, c) <= 0
    ensures IdentifierPrecedence(a, c) <= 0
  {
    if !IsNumeric(a) && !IsNumeric(b) && !IsNumeric(c) { CompareTextTransitive(a, b, c); }
  }

  ghost predicate AllValid(ids: seq<string>) {
    forall id | id in ids :: ValidIdentifier(id)
  }

  lemma {:induction false} ListAntisymmetric(l: seq<string>, r: seq<string>)
    ensures ListPrecedence(l, r) == -ListPrecedence(r, l)
  {
    if l != [] && r != [] {
      CompareTextAntisymmetric(l[0], r[0]);
      ListAntisymmetric(l[1..], r[1..]);
    }
  }

  lemma {:induction false} ListZero(l: seq<string>, r: seq<string>)
    requires AllValid(l) && AllValid(r)
    ensures ListPrecedence(l, r) == 0 <==> l == r
  {
    hide ValidIdentifier, IdentifierPrecedence;
    if l != [] && r != [] {
      IdentifierZero(l[0], r[0]);
      ListZero(l[1..], r[1..]);
      HeadTail(l);
      HeadTail(r);
    }
  }

  lemma {:induction false} ListTransitive(a: seq<string>, b: seq<string>, c: seq<string>)
    requires AllValid(a) && AllValid(b) && AllValid(c)
    requires ListPrecedence(a, b) <= 0 && ListPrecedence(b, c) <= 0
    ensures ListPrecedence(a, c) <= 0
  {
    hide ValidIdentifier, IdentifierPrecedence;
    if a != [] && b != [] && c != [] {
      IdentifierTransitive(a[0], b[0], c[0]);
      IdentifierZero(a[0], b[0]);
      IdentifierZero(b[0], c[0]);
      IdentifierZero(a[0], c[0]);
      if a[0] == c[0] { IdentifierSquare(a[0], b[0]); }
      if a[0] == b[0] == c[0] { ListTransitive(a[1..], b[1..], c[1..]); }
    }
  }

  lemma IdentifierSquare(a: string, b: string)
    ensures IdentifierPrecedence(a, b) == -IdentifierPrecedence(b, a)
  {
    CompareTextAntisymmetric(a, b);
  }

  function Join(ids: seq<string>): string {
    if ids == [] then [] else if |ids| == 1 then ids[0] else ids[0] + "." + Join(ids[1..])
  }

  /** The identifiers of a prerelease determine it. */
  lemma {:induction false} JoinIdentifiers(s: string)
    requires ValidPrerelease(s)
    ensures Join(Identifiers(s)) == s
    decreases |s|
  {
    hide ValidIdentifier;
    var i := DotIndex(s);
    if i < |s| {
      var rest := s[i + 1..];
      IdentifiersValid(rest);
      JoinIdentifiers(rest);
      TailOfCons(s[..i], Identifiers(rest));
      assert s == s[..i] + "." + rest;
    } else {
      assert s[..i] == s;
    }
  }

  lemma PrecedenceAntisymmetric(l: Version, r: Version)
    ensures Precedence(l, r) == -Precedence(r, l)
  {
    ListAntisymmetric(Identifiers(l.prerelease), Identifiers(r.prerelease));
  }

  lemma PrecedenceZero(l: Version, r: Version)
    requires WellFormed(l) && WellFormed(r)
    ensures Precedence(l, r) == 0 <==> l == r
  {
    if l.prerelease != [] && r.prerelease != [] {
      IdentifiersValid(l.prerelease);
      IdentifiersValid(r.prerelease);
      ListZero(Identifiers(l.prerelease), Identifiers(r.prerelease));
      JoinIdentifiers(l.prerelease);
      JoinIdentifiers(r.prerelease);
    }
  }

  lemma PrecedenceTransitive(a: Version, b: Version, c: Version)
    requires WellFormed(a) && WellFormed(b) && WellFormed(c)
    requires Precedence(a, b) <= 0 && Precedence(b, c) <= 0
    ensures Precedence(a, c) <= 0
  {
    if a.prerelease != [] && b.prerelease != [] && c.prerelease != [] {
      IdentifiersValid(a.prerelease);
      IdentifiersValid(b.prerelease);
      IdentifiersValid(c.prerelease);
      if ListPrecedence(Identifiers(a.prerelease), Identifiers(b.prerelease)) <= 0
         && ListPrecedence(Identifiers(b.prerelease), Identifiers(c.prerelease)) <= 0 {
        ListTransitive(Identifiers(a.prerelease), Identifiers(b.prerelease), Identifiers(c.prerelease));
      }
    }
  }

  // ------------------------------------------------ the order by first differences

  /** Major, minor and patch agree before place i, where the first version has the smaller number. */
  predicate FieldsBelowAt(l: Version, r: Version, i: nat) {
    var (a, b) := ([l.major, l.minor, l.patch], [r.major, r.minor, r.patch]);
    i < 3 && a[..i] == b[..i] && a[i] < b[i]
  }

  ghost predicate FieldsBelow(l: Version, r: Version) {
    exists i: nat :: FieldsBelowAt(l, r, i)
  }

  predicate SameFields(l: Version, r: Version) {
    l.major == r.major && l.minor == r.minor && l.patch == r.patch
  }

  /** A numeric identifier with the smaller value, one before a text, or the text that is smaller at the first difference. */
  ghost predicate IdentifierBelow(x: string, y: string) {
    if IsNumeric(x) then IsNumeric(y) ==> Value(x) < Value(y)
    else !IsNumeric(y) && exists k: nat :: TextBelowAt(x, y, k)
  }

  /** The lists agree before k, where the first one ends or has the smaller identifier. */
  ghost predicate ListBelowAt(l: seq<string>, r: seq<string>, k: nat) {
    k <= |l| && k < |r| && l[..k] == r[..k] && (k < |l| ==> IdentifierBelow(l[k], r[k]))
  }

  /** A prerelease before the release, or before a prerelease at the first differing identifier. */
  ghost predicate PrereleaseBelow(p: string, q: string) {
    p != [] && (q == [] || exists k: nat :: ListBelowAt(Identifiers(p), Identifiers(q), k))
  }

  ghost predicate VersionBelow(l: Version, r: Version) {
    FieldsBelow(l, r) || (SameFields(l, r) && PrereleaseBelow(l.prerelease, r.prerelease))
  }

  lemma IdentifierMeans(x: string, y: string)
    ensures IdentifierPrecedence(x, y) < 0 <==> IdentifierBelow(x, y)
  {
    hide CompareText, TextBelowAt;
    CompareTextMeans(x, y);
  }

  lemma {:induction false} ListMeans(l: seq<string>, r: seq<string>)
    requires AllValid(l) && AllValid(r)
    ensures ListPrecedence(l, r) < 0 <==> exists k: nat :: ListBelowAt(l, r, k)
  {
    hide ListBelowAt, IdentifierBelow, IdentifierPrecedence, ValidIdentifier;
    ListBelowFirst(l, r);
    if l != [] && r != [] {
      IdentifierMeans(l[0], r[0]);
      IdentifierZero(l[0], r[0]);
      if l[0] == r[0] {
        ListMeans(l[1..], r[1..]);
        if k: nat :| ListBelowAt(l[1..], r[1..], k) {
          ListBelowNext(l, r, k);
        }
        if k: nat :| ListBelowAt(l, r, k) {
          if k > 0 {
            ListBelowNext(l, r, k - 1);
          }
        }
      }
    }
  }

  lemma ListBelowFirst(l: seq<string>, r: seq<string>)
    ensures ListBelowAt(l, r, 0) <==> r != [] && (l != [] ==> IdentifierBelow(l[0], r[0]))
    ensures l == [] || r == [] || l[0] != r[0] ==> forall k: nat | k > 0 :: !ListBelowAt(l, r, k)
  {
    hide IdentifierBelow;
    forall k: nat | k > 0 && ListBelowAt(l, r, k) ensures l != [] && r != [] && l[0] == r[0] {
      assert l[..k][0] == r[..k][0];
    }
  }

  lemma ListBelowNext(l: seq<string>, r: seq<string>, k: nat)
    requires l != [] && r != [] && l[0] == r[0]
    ensures ListBelowAt(l, r, k + 1) <==> ListBelowAt(l[1..], r[1..], k)
  {
    hide IdentifierBelow;
    if k < |l| && k < |r| {
      assert l[..k + 1] == [l[0]] + l[1..][..k] && r[..k + 1] == [r[0]] + r[1..][..k];
    }
  }

  /**
   What precedence means: the first difference of major, minor and patch decides, then a
   prerelease is below its release, and then the first differing identifier decides.
   */
  lemma PrecedenceMeans(l: Version, r: Version)
    requires WellFormed(l) && WellFormed(r)
    ensures Precedence(l, r) < 0 <==> VersionBelow(l, r)
    ensures Precedence(l, r) > 0 <==> VersionBelow(r, l)
    ensures Precedence(l, r) == 0 <==> l == r
  {
    BelowMeans(l, r);
    BelowMeans(r, l);
    hide Precedence, VersionBelow;
    PrecedenceAntisymmetric(l, r);
    PrecedenceZero(l, r);
  }

  lemma BelowMeans(l: Version, r: Version)
    requires WellFormed(l) && WellFormed(r)
    ensures Precedence(l, r) < 0 <==> VersionBelow(l, r)
  {
    hide FieldsBelow, ListPrecedence, ListBelowAt, ValidPrerelease, ValidIdentifier, Identifiers;
    FieldsMean(l, r);
    if l.prerelease != [] && r.prerelease != [] {
      IdentifiersValid(l.prerelease);
      IdentifiersValid(r.prerelease);
      ListMeans(Identifiers(l.prerelease), Identifiers(r.prerelease));
    }
  }

  lemma FieldsMean(l: Version, r: Version)
    ensures FieldsBelow(l, r) <==>
      if l.major != r.major then l.major < r.major
      else if l.minor != r.minor then l.minor < r.minor
      else l.patch < r.patch
  {
    var (a, b) := ([l.major, l.minor, l.patch], [r.major, r.minor, r.patch]);
    assert a[..0] == b[..0];
    assert a[..1] == [l.major] && b[..1] == [r.major];
    assert a[..2] == [l.major, l.minor] && b[..2] == [r.major, r.minor];
    FieldsAt(l, r);
    if l.major < r.major {
      assert FieldsBelowAt(l, r, 0);
    } else if l.major == r.major && l.minor < r.minor {
      assert FieldsBelowAt(l, r, 1);
    } else if l.major == r.major && l.minor == r.minor && l.patch < r.patch {
      assert FieldsBelowAt(l, r, 2);
    }
  }

  lemma FieldsAt(l: Version, r: Version)
    ensures FieldsBelowAt(l, r, 0) <==> l.major < r.major
    ensures FieldsBelowAt(l, r, 1) <==> l.major == r.major && l.minor < r.minor
    ensures FieldsBelowAt(l, r, 2) <==> l.major == r.major && l.minor == r.minor && l.patch < r.patch
    ensures forall i: nat | i > 2 :: !FieldsBelowAt(l, r, i)
  {
    var (a, b) := ([l.major, l.minor, l.patch], [r.major, r.minor, r.patch]);
    assert a[..0] == b[..0];
    assert a[..1] == [a[0]] && b[..1] == [b[0]];
    assert a[..2] == [a[0], a[1]] && b[..2] == [b[0], b[1]];
  }

  // ------------------------------------------------------------------- parsing

  datatype Scanned = Rejected | Scanned(value: nat, rest: string)

  /** A number without leading zeros below 2^64, and what follows it. */
  function ScanNumber(s: string): Scanned {
    var n := DigitCount(s);
    if Canonical(s[..n]) && Value(s[..n]) < UINT64_LIMIT then Scanned(Value(s[..n]), s[n..]) else Rejected
  }

  function ScanDot(s: string): Scanned {
    match ScanNumber(s)
    case Rejected => Rejected
    case Scanned(v, rest) => if rest != [] && rest[0] == '.' then Scanned(v, rest[1..]) else Rejected
  }

  function Parse(text: string, requireV: bool): Option<Version> {
    if requireV != (text != [] && text[0] == 'v') then None
    else match ScanDot(if requireV then text[1..] else text)
      case Rejected => None
      case Scanned(major, afterMajor) =>
        match ScanDot(afterMajor)
        case Rejected => None
        case Scanned(minor, afterMinor) =>
          match ScanNumber(afterMinor)
          case Rejected => None
          case Scanned(patch, rest) =>
            if rest == [] then Some(Version(major, minor, patch, []))
            else if rest[0] == '-' && ValidPrerelease(rest[1..]) then Some(Version(major, minor, patch, rest[1..]))
            else None
  }

  function Print(v: Version, requireV: bool): string {
    (if requireV then "v" else "") + (Numeral(v.major) + ("." + (Numeral(v.minor) + ("." + (Numeral(v.patch) + PrintPrerelease(v))))))
  }

  function PrintPrerelease(v: Version): string {
    if v.prerelease == [] then [] else "-" + v.prerelease
  }

  /** A number is scanned exactly when the text is its canonical numeral before something else. */
  lemma ScanNumberExact(s: string, v: nat, rest: string)
    ensures ScanNumber(s) == Scanned(v, rest)
       <==> v < UINT64_LIMIT && s == Numeral(v) + rest && (rest != [] ==> !IsDigit(rest[0]))
  {
    var n := DigitCount(s);
    if ScanNumber(s) == Scanned(v, rest) {
      NumeralOfValue(s[..n]);
      assert s == s[..n] + s[n..];
    }
    if v < UINT64_LIMIT && s == Numeral(v) + rest && (rest != [] ==> !IsDigit(rest[0])) {
      ValueOfNumeral(v);
      DigitCountIs(s, |Numeral(v)|);
      assert s[..|Numeral(v)|] == Numeral(v) && s[|Numeral(v)|..] == rest;
    }
  }

  lemma ScanDotExact(s: string, v: nat, rest: string)
    ensures ScanDot(s) == Scanned(v, rest) <==> v < UINT64_LIMIT && s == Numeral(v) + ("." + rest)
  {
    hide Numeral, ScanNumber;
    ScanNumberExact(s, v, "." + rest);
    TailOfCons('.', rest);
    match ScanNumber(s) {
      case Rejected =>
      case Scanned(w, tail) =>
        ScanNumberExact(s, w, tail);
        if tail != [] { HeadTail(tail); }
    }
  }

  /** Parsing accepts exactly the printed form of each well-formed version, so it is injective. */
  lemma ParseExact(text: string, requireV: bool, v: Version)
    ensures Parse(text, requireV) == Some(v) <==> WellFormed(v) && text == Print(v, requireV)
  {
    hide Numeral, ScanNumber, ScanDot, ValidPrerelease;
    if Parse(text, requireV) == Some(v) {
      ParseSound(text, requireV, v);
    }
    if WellFormed(v) && text == Print(v, requireV) {
      ParseComplete(requireV, v);
    }
  }

  lemma ParseSound(text: string, requireV: bool, v: Version)
    requires Parse(text, requireV) == Some(v)
    ensures WellFormed(v) && text == Print(v, requireV)
  {
    hide Numeral, ScanNumber, ScanDot, ValidPrerelease;
    var body := if requireV then text[1..] else text;
    var afterMajor := ScanDot(body).rest;
    var afterMinor := ScanDot(afterMajor).rest;
    var rest := ScanNumber(afterMinor).rest;
    ScanDotExact(body, v.major, afterMajor);
    ScanDotExact(afterMajor, v.minor, afterMinor);
    ScanNumberExact(afterMinor, v.patch, rest);
    if rest != [] {
      HeadTail(rest);
      EmptyPrereleaseIsInvalid();
    }
    if requireV { HeadTail(text); }
  }

  lemma EmptyPrereleaseIsInvalid()
    ensures !ValidPrerelease([])
  {}

  lemma ParseComplete(requireV: bool, v: Version)
    requires WellFormed(v)
    ensures Parse(Print(v, requireV), requireV) == Some(v)
  {
    hide Numeral, ScanNumber, ScanDot, ValidPrerelease;
    var rest := PrintPrerelease(v);
    var afterMinor := Numeral(v.patch) + rest;
    var afterMajor := Numeral(v.minor) + ("." + afterMinor);
    var body := Numeral(v.major) + ("." + afterMajor);
    ScanDotExact(body, v.major, afterMajor);
    ScanDotExact(afterMajor, v.minor, afterMinor);
    ScanNumberExact(afterMinor, v.patch, rest);
    TailOfCons('-', v.prerelease);
    TailOfCons('v', body);
    NumeralStartsWithDigit(v.major, "." + afterMajor);
    assert "" + body == body;
  }

  lemma NumeralStartsWithDigit(n: nat, rest: string)
    ensures Numeral(n) + rest != [] && IsDigit((Numeral(n) + rest)[0])
  {}

  lemma PrintStartsWithDigit(v: Version)
    ensures Print(v, false) != [] && '0' <= Print(v, false)[0] <= '9'
  {
    hide Numeral;
    NumeralStartsWithDigit(v.major, "." + (Numeral(v.minor) + ("." + (Numeral(v.patch) + PrintPrerelease(v)))));
    assert "" + Print(v, false) == Print(v, false);
  }

  /** On accepted texts the comparison is zero exactly for identical texts. */
  lemma EqualOnlyIfIdentical(left: string, right: string, requireV: bool)
    requires Parse(left, requireV).Some? && Parse(right, requireV).Some?
    ensures Precedence(Parse(left, requireV).value, Parse(right, requireV).value) == 0 <==> left == right
  {
    hide Precedence, Parse, Print;
    var l, r := Parse(left, requireV).value, Parse(right, requireV).value;
    ParseExact(left, requireV, l);
    ParseExact(right, requireV, r);
    PrecedenceZero(l, r);
  }

  // ------------------------------------------------------- section 11's own examples

  /** Valid identifiers joined by dots are a prerelease with these identifiers. */
  lemma {:induction false} IdentifiersOfJoin(ids: seq<string>)
    requires ids != [] && AllValid(ids)
    ensures Join(ids) != [] && ValidPrerelease(Join(ids)) && Identifiers(Join(ids)) == ids
  {
    hide ValidIdentifier;
    var s, n := Join(ids), |ids[0]|;
    NoDots(ids[0]);
    if |ids| == 1 {
      DotIndexIs(s, n);
      assert s[..n] == ids[0];
    } else {
      IdentifiersOfJoin(ids[1..]);
      DotIndexIs(s, n);
      assert s[..n] == ids[0] && s[n + 1..] == Join(ids[1..]);
      HeadTail(ids);
    }
  }

  lemma NoDots(id: string)
    requires ValidIdentifier(id)
    ensures id != [] && '.' !in id
  {
  }

  /** Both texts are versions, and the first one precedes the second. */
  predicate TextPrecedes(a: string, b: string) {
    Parse(a, false).Some? && Parse(b, false).Some? && Precedence(Parse(a, false).value, Parse(b, false).value) < 0
  }

  lemma Precedes(a: string, l: Version, b: string, r: Version)
    requires WellFormed(l) && WellFormed(r) && a == Print(l, false) && b == Print(r, false) && VersionBelow(l, r)
    ensures TextPrecedes(a, b)
  {
    hide Parse, Print, Precedence, WellFormed, VersionBelow;
    ParseExact(a, false, l);
    ParseExact(b, false, r);
    PrecedenceMeans(l, r);
  }

  /** The lists differ first at place k, so the prereleases of one release are ordered. */
  lemma PrereleasesPrecede(a: string, p: seq<string>, b: string, q: seq<string>, k: nat)
    requires p != [] && q != [] && AllValid(p) && AllValid(q) && ListBelowAt(p, q, k)
    requires a == "1.0.0-" + Join(p) && b == "1.0.0-" + Join(q)
    ensures TextPrecedes(a, b)
  {
    hide ListBelowAt, Print, FieldsBelow, ValidPrerelease, ValidIdentifier, Identifiers, Join, TextPrecedes;
    IdentifiersOfJoin(p);
    IdentifiersOfJoin(q);
    PrintedOne(Join(p));
    PrintedOne(Join(q));
    Precedes(a, Version(1, 0, 0, Join(p)), b, Version(1, 0, 0, Join(q)));
  }

  lemma PrintedOne(p: string)
    requires p != []
    ensures "1.0.0-" + p == Print(Version(1, 0, 0, p), false)
  {
    hide Numeral;
    OneIsOne();
  }

  lemma OneIsOne()
    ensures Numeral(0) == "0" && Numeral(1) == "1" && Numeral(2) == "2"
  {
  }

  lemma SamplesAreValid()
    ensures ValidIdentifier("alpha") && ValidIdentifier("beta") && ValidIdentifier("rc")
    ensures !IsNumeric("alpha") && !IsNumeric("beta") && !IsNumeric("rc")
    ensures ValidIdentifier("1") && ValidIdentifier("2") && ValidIdentifier("11")
    ensures IsNumeric("1") && IsNumeric("2") && IsNumeric("11")
  {
    assert "alpha"[0] == 'a' && "beta"[0] == 'b' && "rc"[0] == 'r';
  }

  /** The chain of section 11: prereleases, */
  lemma PrereleaseChain()
    ensures TextPrecedes("1.0.0-alpha", "1.0.0-alpha.1") && TextPrecedes("1.0.0-alpha.1", "1.0.0-alpha.beta")
    ensures TextPrecedes("1.0.0-alpha.beta", "1.0.0-beta") && TextPrecedes("1.0.0-beta", "1.0.0-beta.2")
    ensures TextPrecedes("1.0.0-beta.2", "1.0.0-beta.11") && TextPrecedes("1.0.0-beta.11", "1.0.0-rc.1")
  {
    hide TextPrecedes, ValidIdentifier, IsNumeric;
    SamplesAreValid();
    SampleOrder();
    PrereleasesPrecede("1.0.0-alpha", ["alpha"], "1.0.0-alpha.1", ["alpha", "1"], 1);
    PrereleasesPrecede("1.0.0-alpha.1", ["alpha", "1"], "1.0.0-alpha.beta", ["alpha", "beta"], 1);
    PrereleasesPrecede("1.0.0-alpha.beta", ["alpha", "beta"], "1.0.0-beta", ["beta"], 0);
    PrereleasesPrecede("1.0.0-beta", ["beta"], "1.0.0-beta.2", ["beta", "2"], 1);
    PrereleasesPrecede("1.0.0-beta.2", ["beta", "2"], "1.0.0-beta.11", ["beta", "11"], 1);
    PrereleasesPrecede("1.0.0-beta.11", ["beta", "11"], "1.0.0-rc.1", ["rc", "1"], 0);
  }

  lemma SampleOrder()
    ensures IdentifierBelow("1", "beta") && IdentifierBelow("2", "11")
    ensures IdentifierBelow("alpha", "beta") && IdentifierBelow("beta", "rc")
  {
    hide ValidIdentifier;
    SamplesAreValid();
    assert TextBelowAt("alpha", "beta", 0) && TextBelowAt("beta", "rc", 0);
    assert "11"[..1] == "1" && "1"[..0] == "" && "2"[..0] == "";
    assert Value("2") == 2 && Value("11") == 11;
  }

  /** and releases. */
  lemma ReleaseChain()
    ensures TextPrecedes("1.0.0-rc.1", "1.0.0") && TextPrecedes("1.0.0", "2.0.0")
    ensures TextPrecedes("2.0.0", "2.1.0") && TextPrecedes("2.1.0", "2.1.1")
  {
    hide TextPrecedes, Numeral;
    CandidatePrecedes();
    OneIsOne();
    ReleasesPrecede("1.0.0", Version(1, 0, 0, ""), "2.0.0", Version(2, 0, 0, ""), 0);
    ReleasesPrecede("2.0.0", Version(2, 0, 0, ""), "2.1.0", Version(2, 1, 0, ""), 1);
    ReleasesPrecede("2.1.0", Version(2, 1, 0, ""), "2.1.1", Version(2, 1, 1, ""), 2);
  }

  lemma CandidatePrecedes()
    ensures TextPrecedes("1.0.0-rc.1", "1.0.0")
  {
    hide TextPrecedes, ValidIdentifier, Numeral, ValidPrerelease, Identifiers, FieldsBelow, AllValid;
    var ids := ["rc", "1"];
    assert AllValid(ids) by { SamplesAreValid(); AllValidTwo("rc", "1"); }
    IdentifiersOfJoin(ids);
    assert Join(ids) == "rc.1";
    PrintedOne("rc.1");
    OneIsOne();
    Precedes("1.0.0-rc.1", Version(1, 0, 0, "rc.1"), "1.0.0", Version(1, 0, 0, ""));
  }

  lemma AllValidTwo(x: string, y: string)
    requires ValidIdentifier(x) && ValidIdentifier(y)
    ensures AllValid([x, y])
  {
    hide ValidIdentifier;
  }

  lemma ReleasesPrecede(a: string, l: Version, b: string, r: Version, i: nat)
    requires WellFormed(l) && WellFormed(r) && a == Print(l, false) && b == Print(r, false) && FieldsBelowAt(l, r, i)
    ensures TextPrecedes(a, b)
  {
    hide Print, WellFormed, Parse, Precedence, FieldsBelowAt;
    Precedes(a, l, b, r);
  }

  /** An earlier place decides, however the later ones differ. */
  lemma EarlierPlaceDecides()
    ensures TextPrecedes("20.19.0", "22.1.0") && TextPrecedes("20.1.9", "20.2.0")
  {
    hide TextPrecedes, Numeral;
    TensAreTens();
    OneIsOne();
    ReleasesPrecede("20.19.0", Version(20, 19, 0, ""), "22.1.0", Version(22, 1, 0, ""), 0);
    ReleasesPrecede("20.1.9", Version(20, 1, 9, ""), "20.2.0", Version(20, 2, 0, ""), 1);
  }

  lemma TensAreTens()
    ensures Numeral(9) == "9" && Numeral(19) == "19" && Numeral(20) == "20" && Numeral(22) == "22"
  {
  }

  // --------------------------------------------------- the cursors of the parser

  method ParseNumber(text: string, start: nat) returns (ok: bool, value: nat, cursor: nat)
    requires start <= |text|
    ensures start <= cursor <= |text|
    ensures match ScanNumber(text[start..])
            case Rejected => !ok
            case Scanned(v, rest) => ok && value == v && rest == text[cursor..]
  {
    hide Value, ScanNumber, Canonical, AllDigits;
    ghost var s := text[start..];
    ok, value, cursor := false, 0, start;
    if start == |text| || !IsDigit(text[start]) {
      NoNumber(s);
      return;
    }
    if text[start] == '0' && start + 1 < |text| && IsDigit(text[start + 1]) {
      LeadingZero(s);
      return;
    }
    DigitStep(s, 0);
    while cursor < |text| && IsDigit(text[cursor])
      invariant start <= cursor <= |text|
      invariant AllDigits(s[..cursor - start]) && value == Value(s[..cursor - start]) < UINT64_LIMIT
    {
      DigitStep(s, cursor - start);
      var digit := DigitOf(text[cursor]);
      if value > (UINT64_MAX - digit) / 10 {
        TooLarge(s, cursor - start + 1);
        return;
      }
      value := value * 10 + digit;
      cursor := cursor + 1;
    }
    NumberEnds(s, cursor - start);
    assert s[cursor - start..] == text[cursor..];
    ok := true;
  }

  lemma NoNumber(s: string)
    requires s == [] || !IsDigit(s[0])
    ensures ScanNumber(s) == Rejected
  {}

  lemma LeadingZero(s: string)
    requires |s| >= 2 && s[0] == '0' && IsDigit(s[1])
    ensures ScanNumber(s) == Rejected
  {
  }

  /** One more digit of the number; with none read its value is 0. */
  lemma DigitStep(s: string, k: nat)
    requires k < |s| && IsDigit(s[k]) && (k == 0 || AllDigits(s[..k]))
    ensures AllDigits(s[..0]) && Value(s[..0]) == 0
    ensures AllDigits(s[..k]) && AllDigits(s[..k + 1])
    ensures Value(s[..k + 1]) == 10 * Value(s[..k]) + DigitOf(s[k])
  {
    assert s[..k + 1][..k] == s[..k];
    forall i | 0 <= i < k ensures IsDigit(s[i]) { assert s[..k][i] == s[i]; }
  }

  lemma TooLarge(s: string, k: nat)
    requires k <= |s| && AllDigits(s[..k]) && Value(s[..k]) >= UINT64_LIMIT
    ensures ScanNumber(s) == Rejected
  {
    forall i | 0 <= i < k ensures IsDigit(s[i]) { assert s[..k][i] == s[i]; }
    DigitCountAtLeast(s, k);
    var n := DigitCount(s);
    assert s[..n][..k] == s[..k];
    ValueOfPrefix(s[..n], k);
  }

  lemma NumberEnds(s: string, k: nat)
    requires 0 < k <= |s| && AllDigits(s[..k]) && (k < |s| ==> !IsDigit(s[k]))
    requires Value(s[..k]) < UINT64_LIMIT && !(s[0] == '0' && |s| > 1 && IsDigit(s[1]))
    ensures ScanNumber(s) == Scanned(Value(s[..k]), s[k..])
  {
    forall i | 0 <= i < k ensures IsDigit(s[i]) { assert s[..k][i] == s[i]; }
    DigitCountIs(s, k);
  }

  lemma DigitCountAtLeast(s: string, k: nat)
    requires k <= |s| && forall i | 0 <= i < k :: IsDigit(s[i])
    ensures DigitCount(s) >= k
  {
  }

  method IsNumericScan(s: string, from: nat, to: nat) returns (numeric: bool)
    requires from <= to <= |s|
    ensures numeric <==> IsNumeric(s[from..to])
  {
    if from == to {
      return false;
    }
    for index := from to to
      invariant AllDigits(s[from..index])
    {
      assert s[from..to][index - from] == s[index];
      if !IsDigit(s[index]) {
        return false;
      }
      assert s[from..index + 1] == s[from..index] + [s[index]];
    }
    return true;
  }

  /** The single pass over a prerelease that checks characters and identifiers together. */
  method ValidatePrerelease(s: string) returns (ok: bool)
    ensures ok <==> ValidPrerelease(s)
  {
    hide ValidIdentifier, ValidPrerelease, DotIndex;
    var identifierStart, index := 0, 0;
    assert s[0..] == s;
    while index <= |s|
      invariant identifierStart <= index <= |s| + 1 && (index == |s| + 1 ==> identifierStart == index)
      invariant identifierStart <= |s| ==> InIdentifier(s[identifierStart..], index - identifierStart)
      invariant ValidPrerelease(s) == (identifierStart > |s| || ValidPrerelease(s[identifierStart..]))
    {
      var atEnd := index == |s|;
      ghost var rest := s[identifierStart..];
      var length := index - identifierStart;
      assert !atEnd ==> rest[length] == s[index];
      if !atEnd && !(IsAlphanumeric(s[index]) || s[index] == '-' || s[index] == '.') {
        BadCharacter(rest, length);
        return false;
      }
      if atEnd || s[index] == '.' {
        assert rest[..length] == s[identifierStart..index];
        var numeric := IsNumericScan(s, identifierStart, index);
        IdentifierEnds(rest, length, numeric);
        if length == 0 || (numeric && length > 1 && s[identifierStart] == '0') {
          return false;
        }
        assert !atEnd ==> rest[length + 1..] == s[index + 1..];
        identifierStart := index + 1;
        if !atEnd { EmptyIdentifier(s[identifierStart..]); }
      } else {
        IdentifierGoesOn(rest, length);
      }
      index := index + 1;
    }
    return true;
  }

  /** The first k characters are allowed in an identifier, so none of them ends it. */
  ghost predicate InIdentifier(s: string, k: nat) {
    k <= |s| && DotIndex(s) >= k && forall i | 0 <= i < k :: IsAlphanumeric(s[i]) || s[i] == '-'
  }

  lemma EmptyIdentifier(s: string)
    ensures InIdentifier(s, 0)
  {}

  lemma IdentifierGoesOn(s: string, k: nat)
    requires InIdentifier(s, k) && k < |s| && (IsAlphanumeric(s[k]) || s[k] == '-')
    ensures InIdentifier(s, k + 1)
  {
  }

  /** At a dot or at the end: the identifier must not be empty nor have a leading zero, and the rest must be valid. */
  lemma IdentifierEnds(s: string, k: nat, numeric: bool)
    requires InIdentifier(s, k) && (k < |s| ==> s[k] == '.')
    requires numeric <==> IsNumeric(s[..k])
    ensures ValidPrerelease(s)
       <==> k > 0 && !(numeric && k > 1 && s[0] == '0') && (k < |s| ==> ValidPrerelease(s[k + 1..]))
  {
    hide ValidIdentifier;
    DotIndexIs(s, k);
    IdentifierCheck(s[..k], numeric);
  }

  /** What is left to check of an identifier whose characters are allowed. */
  lemma IdentifierCheck(id: string, numeric: bool)
    requires forall i | 0 <= i < |id| :: IsAlphanumeric(id[i]) || id[i] == '-'
    requires numeric <==> IsNumeric(id)
    ensures ValidIdentifier(id) <==> id != [] && !(numeric && |id| > 1 && id[0] == '0')
  {}

  lemma {:induction false} DotIndexIs(s: string, n: nat)
    requires n <= |s| && DotIndex(s) >= n && (n < |s| ==> s[n] == '.')
    ensures DotIndex(s) == n
  {}

  lemma BadCharacter(s: string, k: nat)
    requires k < |s| && DotIndex(s) >= k
    requires !(IsAlphanumeric(s[k]) || s[k] == '-' || s[k] == '.')
    ensures !ValidPrerelease(s)
  {
  }

  method ParseVersion(text: string, requireV: bool) returns (result: Option<Version>)
    ensures result == Parse(text, requireV)
  {
    hide ScanNumber, ValidPrerelease;
    var cursor := 0;
    if requireV {
      if text == [] || text[0] != 'v' {
        return None;
      }
      cursor := 1;
    } else if text != [] && text[0] == 'v' {
      return None;
    }
    assert text[0..] == text;
    var ok, major, minor, patch;
    ok, major, cursor := ParseNumber(text, cursor);
    if !ok || cursor == |text| || text[cursor] != '.' {
      return None;
    }
    cursor := cursor + 1;
    assert text[cursor - 1..][1..] == text[cursor..];
    ok, minor, cursor := ParseNumber(text, cursor);
    if !ok || cursor == |text| || text[cursor] != '.' {
      return None;
    }
    cursor := cursor + 1;
    assert text[cursor - 1..][1..] == text[cursor..];
    ok, patch, cursor := ParseNumber(text, cursor);
    if !ok {
      return None;
    }
    if cursor == |text| {
      return Some(Version(major, minor, patch, []));
    }
    if text[cursor] != '-' {
      return None;
    }
    assert text[cursor..][1..] == text[cursor + 1..];
    var valid := ValidatePrerelease(text[cursor + 1..]);
    return if valid then Some(Version(major, minor, patch, text[cursor + 1..])) else None;
  }
}
