/**
 CEF release selection of builder/src/prepare_cef.c: the order of numbered versions, the
 candidates a catalog offers and the newest one that can be used.
 */
module CefPolicy {
  import opened Common
  import opened Text
  import opened Decimal
  import opened JsonValue

  // ---------------------------------------------------------- numbered versions

  /** The text from its first digit on. */
  function FromDigit(s: string): (r: string)
    ensures |r| <= |s|
  {
    if s == [] || IsDigit(s[0]) then s else FromDigit(s[1..])
  }

  /** The next number of a version text, modulo 2^64; zero when there is none. */
  function NumberAt(s: string): (n: nat)
    ensures n < UINT64_LIMIT
  {
    var t := FromDigit(s);
    Value(t[..DigitCount(t)]) % UINT64_LIMIT
  }

  function AfterNumber(s: string): (r: string)
    ensures |r| <= |s| && (s != [] ==> |r| < |s|)
  {
    var t := FromDigit(s);
    t[DigitCount(t)..]
  }

  /** What is left after a number and the character that ends it. */
  function NextPart(s: string): (r: string)
    ensures |r| <= |s| && (s != [] ==> |r| < |s|)
  {
    var t := AfterNumber(s);
    if t == [] then [] else t[1..]
  }

  /** The numbers of a version text. */
  function Numbers(s: string): seq<nat>
    decreases |s|
  {
    if s == [] then [] else [NumberAt(s)] + Numbers(NextPart(s))
  }

  function Head(a: seq<nat>): nat { if a == [] then 0 else a[0] }

  function Tail(a: seq<nat>): seq<nat> { if a == [] then [] else a[1..] }

  /** Lexicographic order of number lists, the shorter one continued with zeros. */
  function ComparePadded(a: seq<nat>, b: seq<nat>): (r: int)
    ensures -1 <= r <= 1
    decreases |a| + |b|
  {
    if a == [] && b == [] then 0
    else if Head(a) < Head(b) then -1
    else if Head(a) > Head(b) then 1
    else ComparePadded(Tail(a), Tail(b))
  }

  function Then(first: int, second: int): int { if first != 0 then first else second }

  /** The order of numbered versions: by their numbers, then bytewise. */
  function VersionOrder(a: string, b: string): (r: int)
    ensures -1 <= r <= 1
  {
    Then(ComparePadded(Numbers(a), Numbers(b)), CompareText(a, b))
  }

  method ReadVersionNumber(text: string, start: nat) returns (number: nat, cursor: nat)
    requires start <= |text|
    ensures start <= cursor <= |text|
    ensures number == NumberAt(text[start..]) && text[cursor..] == AfterNumber(text[start..])
  {
    hide FromDigit, Value, DigitCount;
    cursor := start;
    while cursor < |text| && !IsDigit(text[cursor])
      invariant start <= cursor <= |text|
      invariant FromDigit(text[cursor..]) == FromDigit(text[start..])
    {
      SkipOne(text, cursor);
      cursor := cursor + 1;
    }
    ghost var first := cursor;
    ghost var t := text[first..];
    SkippedAll(t);
    NoDigits(t);
    number := 0;
    while cursor < |text| && IsDigit(text[cursor])
      invariant first <= cursor <= |text|
      invariant AllDigits(t[..cursor - first]) && number == Value(t[..cursor - first]) % UINT64_LIMIT
    {
      DigitNext(t, cursor - first);
      number := (number * 10 + DigitOf(text[cursor])) % UINT64_LIMIT;
      cursor := cursor + 1;
    }
    DigitCountIs(t, cursor - first);
    assert t[cursor - first..] == text[cursor..];
  }

  lemma SkipOne(text: string, cursor: nat)
    requires cursor < |text| && !IsDigit(text[cursor])
    ensures FromDigit(text[cursor..]) == FromDigit(text[cursor + 1..])
  {
  }

  lemma SkippedAll(t: string)
    requires t == [] || IsDigit(t[0])
    ensures FromDigit(t) == t
  {
  }

  lemma DigitNext(t: string, n: nat)
    requires n < |t| && AllDigits(t[..n]) && IsDigit(t[n])
    ensures AllDigits(t[..n + 1])
    ensures Value(t[..n + 1]) % UINT64_LIMIT == (Value(t[..n]) % UINT64_LIMIT * 10 + DigitOf(t[n])) % UINT64_LIMIT
  {
    NextDigit(t, n);
    WrapNext(Value(t[..n]), DigitOf(t[n]));
  }

  lemma WrapNext(value: nat, digit: nat)
    ensures (value * 10 + digit) % UINT64_LIMIT == (value % UINT64_LIMIT * 10 + digit) % UINT64_LIMIT
  {
  }

  method CompareNumberedVersions(left: string, right: string) returns (r: int)
    ensures r == VersionOrder(left, right)
  {
    hide NumberAt, AfterNumber, CompareText;
    var i, j := 0, 0;
    assert left[0..] == left && right[0..] == right;
    while i < |left| || j < |right|
      invariant i <= |left| && j <= |right|
      invariant ComparePadded(Numbers(left[i..]), Numbers(right[j..])) == ComparePadded(Numbers(left), Numbers(right))
      decreases |left| - i + |right| - j
    {
      PaddedStep(left[i..], right[j..]);
      var leftNumber, leftCursor := ReadVersionNumber(left, i);
      var rightNumber, rightCursor := ReadVersionNumber(right, j);
      if leftNumber < rightNumber {
        return -1;
      }
      if leftNumber > rightNumber {
        return 1;
      }
      PartNext(left, i, leftCursor);
      PartNext(right, j, rightCursor);
      i := if leftCursor < |left| then leftCursor + 1 else leftCursor;
      j := if rightCursor < |right| then rightCursor + 1 else rightCursor;
    }
    assert left[i..] == [] && right[j..] == [];
    r := CompareTexts(left, right);
  }

  /** strcmp. */
  method CompareTexts(a: string, b: string) returns (r: int)
    ensures r == CompareText(a, b)
  {
    var i := 0;
    while i < |a| && i < |b| && a[i] == b[i]
      invariant i <= |a| && i <= |b|
      invariant CompareText(a[i..], b[i..]) == CompareText(a, b)
    {
      assert a[i..][1..] == a[i + 1..] && b[i..][1..] == b[i + 1..];
      i := i + 1;
    }
    return if i == |a| then (if i == |b| then 0 else -1) else if i == |b| || a[i] > b[i] then 1 else -1;
  }

  lemma PartNext(s: string, i: nat, cursor: nat)
    requires i <= cursor <= |s| && s[cursor..] == AfterNumber(s[i..])
    ensures NextPart(s[i..]) == s[if cursor < |s| then cursor + 1 else cursor..]
    ensures i < |s| ==> (if cursor < |s| then cursor + 1 else cursor) > i
  {
  }

  lemma PaddedStep(a: string, b: string)
    requires a != [] || b != []
    ensures ComparePadded(Numbers(a), Numbers(b))
         == if NumberAt(a) < NumberAt(b) then -1 else if NumberAt(a) > NumberAt(b) then 1
            else ComparePadded(Numbers(NextPart(a)), Numbers(NextPart(b)))
  {
    NumbersStep(a);
    NumbersStep(b);
  }

  lemma NumbersStep(a: string)
    ensures Head(Numbers(a)) == NumberAt(a) && Tail(Numbers(a)) == Numbers(NextPart(a))
  {
    if a == [] {
      assert ""[..0] == "";
    }
  }

  // ------------------------------------------------------------------ order laws

  lemma {:induction false} PaddedAntisymmetric(a: seq<nat>, b: seq<nat>)
    ensures ComparePadded(a, b) == -ComparePadded(b, a)
    decreases |a| + |b|
  {
    if (a != [] || b != []) && Head(a) == Head(b) {
      PaddedAntisymmetric(Tail(a), Tail(b));
    }
  }

  lemma {:induction false} PaddedTransitive(a: seq<nat>, b: seq<nat>, c: seq<nat>)
    requires ComparePadded(a, b) <= 0 && ComparePadded(b, c) <= 0
    ensures ComparePadded(a, c) <= 0
    ensures ComparePadded(a, b) < 0 || ComparePadded(b, c) < 0 ==> ComparePadded(a, c) < 0
    decreases |a| + |b| + |c|
  {
    if (a != [] || b != [] || c != []) && Head(a) == Head(b) == Head(c) {
      PaddedSame(a, b);
      PaddedSame(b, c);
      PaddedSame(a, c);
      PaddedTransitive(Tail(a), Tail(b), Tail(c));
    }
  }

  lemma PaddedSame(a: seq<nat>, b: seq<nat>)
    requires Head(a) == Head(b)
    ensures ComparePadded(a, b) == ComparePadded(Tail(a), Tail(b))
  {
  }

  /** The order of numbered versions is total, with equality only between identical texts. */
  lemma VersionOrderLaws(a: string, b: string, c: string)
    ensures VersionOrder(a, b) == 0 <==> a == b
    ensures VersionOrder(a, b) == -VersionOrder(b, a)
    ensures VersionOrder(a, b) <= 0 && VersionOrder(b, c) <= 0 ==> VersionOrder(a, c) <= 0
  {
    hide ComparePadded, CompareText, Numbers;
    CompareTextZero(a, b);
    CompareTextZero(b, b);
    CompareTextAntisymmetric(a, b);
    PaddedAntisymmetric(Numbers(a), Numbers(b));
    if VersionOrder(a, b) <= 0 && VersionOrder(b, c) <= 0 {
      PaddedTransitive(Numbers(a), Numbers(b), Numbers(c));
      if CompareText(a, b) <= 0 && CompareText(b, c) <= 0 {
        CompareTextTransitive(a, b, c);
      }
    }
  }

  function At(a: seq<nat>, k: nat): nat { if k < |a| then a[k] else 0 }

  /** The lists, continued with zeros, first differ at a place where the first one is smaller. */
  ghost predicate SmallerAt(a: seq<nat>, b: seq<nat>, k: nat) {
    At(a, k) < At(b, k) && forall i: nat | i < k :: At(a, i) == At(b, i)
  }

  lemma TailAt(a: seq<nat>, k: nat)
    ensures At(Tail(a), k) == At(a, k + 1) && Head(a) == At(a, 0)
  {
  }

  lemma SmallerTail(a: seq<nat>, b: seq<nat>, k: nat)
    requires Head(a) == Head(b)
    ensures SmallerAt(a, b, k + 1) <==> SmallerAt(Tail(a), Tail(b), k)
  {
    hide At, Tail, Head;
    TailAt(a, k);
    TailAt(b, k);
    forall i: nat ensures At(Tail(a), i) == At(a, i + 1) && At(Tail(b), i) == At(b, i + 1) {
      TailAt(a, i);
      TailAt(b, i);
    }
    if SmallerAt(Tail(a), Tail(b), k) {
      forall i: nat | i < k + 1 ensures At(a, i) == At(b, i) {
        if i > 0 {
          assert At(Tail(a), i - 1) == At(Tail(b), i - 1);
        }
      }
    }
  }

  /** The order by the first difference of the zero-padded lists. */
  lemma {:induction false} PaddedMeans(a: seq<nat>, b: seq<nat>)
    ensures ComparePadded(a, b) < 0 <==> exists k: nat :: SmallerAt(a, b, k)
    decreases |a| + |b|
  {
    hide SmallerAt, At;
    SmallerHead(a, b);
    if Head(a) == Head(b) && (a != [] || b != []) {
      PaddedMeans(Tail(a), Tail(b));
      if k: nat :| SmallerAt(Tail(a), Tail(b), k) {
        SmallerTail(a, b, k);
      }
      if k: nat :| SmallerAt(a, b, k) {
        if k > 0 {
          SmallerTail(a, b, k - 1);
        }
      }
    }
  }

  lemma SmallerHead(a: seq<nat>, b: seq<nat>)
    ensures SmallerAt(a, b, 0) <==> Head(a) < Head(b)
    ensures Head(a) > Head(b) || (a == [] && b == []) ==> forall k: nat :: !SmallerAt(a, b, k)
  {
  }

  /** The values of the maximal runs of digits, modulo 2^64. */
  function Runs(s: string): seq<nat>
    decreases |s|
  {
    if s == [] then []
    else if !IsDigit(s[0]) then Runs(s[1..])
    else [Value(s[..DigitCount(s)]) % UINT64_LIMIT] + Runs(s[DigitCount(s)..])
  }

  lemma {:induction false} RunsFromDigit(s: string)
    ensures Runs(FromDigit(s)) == Runs(s)
    ensures FromDigit(s) != [] ==> IsDigit(FromDigit(s)[0])
  {
    if s != [] && !IsDigit(s[0]) {
      RunsFromDigit(s[1..]);
    }
  }

  /** Reading part by part finds the runs of digits, with at most a zero after them. */
  lemma {:induction false} NumbersAreRuns(s: string)
    ensures Numbers(s) == Runs(s) || Numbers(s) == Runs(s) + [0]
    decreases |s|
  {
    if s != [] {
      var t := FromDigit(s);
      RunsFromDigit(s);
      if t == [] {
        assert ""[..0] == "" && AfterNumber(s) == "";
        assert Numbers(s) == [0] + Numbers("");
      } else {
        NumbersAreRuns(NextPart(s));
        RunsPastRun(t);
      }
    }
  }

  lemma RunsPastRun(t: string)
    requires t != [] && IsDigit(t[0]) && (DigitCount(t) < |t| ==> !IsDigit(t[DigitCount(t)]))
    ensures
      var rest := t[DigitCount(t)..];
      Runs(t) == [Value(t[..DigitCount(t)]) % UINT64_LIMIT] + Runs(if rest == [] then [] else rest[1..])
  {
  }

  lemma {:induction false} TrailingZero(a: seq<nat>, b: seq<nat>)
    ensures ComparePadded(a + [0], b) == ComparePadded(a, b)
    decreases |a| + |b|
  {
    if a == [] {
      if b != [] && b[0] == 0 {
        assert Tail([0]) == [];
      }
    } else {
      assert Tail(a + [0]) == Tail(a) + [0];
      if Head(a) == Head(b) {
        TrailingZero(Tail(a), Tail(b));
      }
    }
  }

  /** So the order of two versions by their numbers is that of their digit runs. */
  lemma RunsDecide(a: string, b: string)
    ensures ComparePadded(Numbers(a), Numbers(b)) == ComparePadded(Runs(a), Runs(b))
    ensures VersionOrder(a, b) == Then(ComparePadded(Runs(a), Runs(b)), CompareText(a, b))
  {
    hide ComparePadded, Numbers, Runs, CompareText;
    NumbersAreRuns(a);
    NumbersAreRuns(b);
    TrailingZero(Runs(a), Numbers(b));
    PaddedAntisymmetric(Runs(a), Numbers(b));
    TrailingZero(Runs(b), Runs(a));
    PaddedAntisymmetric(Runs(b), Runs(a));
  }

  // ------------------------------------------------------------------ candidates

  datatype Artifact = Artifact(
    version: string, target: string, distribution: string, fileName: string, url: string, sha1: string, size: nat)

  datatype Candidate = Candidate(artifact: Artifact, chromium: string, modified: string)

  datatype Reference = Reference(version: string, target: string, distribution: string, tested: Artifact)

  /** Newest first: Chromium version, CEF version, modification text, each descending. */
  function NewestFirst(a: Candidate, b: Candidate): (r: int)
    ensures -1 <= r <= 1
  {
    -Then(VersionOrder(a.chromium, b.chromium),
          Then(VersionOrder(a.artifact.version, b.artifact.version), CompareText(a.modified, b.modified)))
  }

  method CompareCandidatesNewestFirst(left: Candidate, right: Candidate) returns (r: int)
    ensures r == NewestFirst(left, right)
  {
    hide VersionOrder, CompareText;
    var comparison := CompareNumberedVersions(left.chromium, right.chromium);
    if comparison != 0 {
      return -comparison;
    }
    comparison := CompareNumberedVersions(left.artifact.version, right.artifact.version);
    if comparison != 0 {
      return -comparison;
    }
    comparison := CompareTexts(left.modified, right.modified);
    return -comparison;
  }

  /** A total preorder; only candidates alike in all three texts tie. */
  lemma NewestFirstLaws(a: Candidate, b: Candidate, c: Candidate)
    ensures NewestFirst(a, b) == 0 <==> a.chromium == b.chromium && a.artifact.version == b.artifact.version && a.modified == b.modified
    ensures NewestFirst(a, b) == -NewestFirst(b, a)
    ensures NewestFirst(a, b) <= 0 && NewestFirst(b, c) <= 0 ==> NewestFirst(a, c) <= 0
  {
    hide VersionOrder, CompareText;
    VersionOrderLaws(a.chromium, b.chromium, c.chromium);
    VersionOrderLaws(c.chromium, b.chromium, a.chromium);
    VersionOrderLaws(c.chromium, a.chromium, a.chromium);
    VersionOrderLaws(a.artifact.version, b.artifact.version, c.artifact.version);
    VersionOrderLaws(c.artifact.version, b.artifact.version, a.artifact.version);
    VersionOrderLaws(c.artifact.version, a.artifact.version, a.artifact.version);
    CompareTextZero(a.modified, b.modified);
    CompareTextAntisymmetric(a.modified, b.modified);
    CompareTextAntisymmetric(c.modified, b.modified);
    CompareTextAntisymmetric(c.modified, a.modified);
    if CompareText(c.modified, b.modified) <= 0 && CompareText(b.modified, a.modified) <= 0 {
      CompareTextTransitive(c.modified, b.modified, a.modified);
    }
  }

  predicate NotNewer(a: Candidate, b: Candidate) { NewestFirst(b, a) <= 0 }

  ghost predicate Sorted(list: seq<Candidate>) {
    forall i, j | 0 <= i < j < |list| :: NotNewer(list[j], list[i])
  }

  /** Sorts candidates newest first; ties may come in any order. */
  method SortCandidates(candidates: seq<Candidate>) returns (list: seq<Candidate>)
    ensures Sorted(list) && multiset(list) == multiset(candidates)
  {
    hide NewestFirst;
    list := [];
    for n := 0 to |candidates|
      invariant Sorted(list) && multiset(list) == multiset(candidates[..n])
    {
      assert candidates[..n + 1] == candidates[..n] + [candidates[n]];
      list := InsertCandidate(list, candidates[n]);
    }
    assert candidates[..|candidates|] == candidates;
  }

  method InsertCandidate(list: seq<Candidate>, c: Candidate) returns (r: seq<Candidate>)
    requires Sorted(list)
    ensures Sorted(r) && multiset(r) == multiset(list) + multiset{c}
  {
    hide NewestFirst, Sorted, NotNewer;
    var k := PlaceOf(list, c);
    if k < |list| {
      RestIsNotNewer(list, k, c);
    }
    InsertedIsSorted(list, k, c);
    r := list[..k] + [c] + list[k..];
    assert list == list[..k] + list[k..];
  }

  /** The first place whose candidate is older. */
  method PlaceOf(list: seq<Candidate>, c: Candidate) returns (k: nat)
    ensures k <= |list| && forall i | 0 <= i < k :: NotNewer(c, list[i])
    ensures k < |list| ==> NotNewer(list[k], c)
  {
    hide NewestFirst;
    k := 0;
    while k < |list|
      invariant k <= |list| && forall i | 0 <= i < k :: NotNewer(c, list[i])
    {
      var comparison := CompareCandidatesNewestFirst(list[k], c);
      NewestFirstLaws(list[k], c, c);
      if comparison > 0 {
        return;
      }
      k := k + 1;
    }
  }

  lemma RestIsNotNewer(list: seq<Candidate>, k: nat, c: Candidate)
    requires Sorted(list) && k < |list| && NotNewer(list[k], c)
    ensures forall j | k <= j < |list| :: NotNewer(list[j], c)
  {
    hide NewestFirst, Sorted;
    forall j | k <= j < |list| ensures NotNewer(list[j], c) {
      if j > k {
        SortedAt(list, k, j);
        NewestFirstLaws(c, list[k], list[j]);
      }
    }
  }

  lemma SortedAt(list: seq<Candidate>, i: nat, j: nat)
    requires Sorted(list) && i < j < |list|
    ensures NotNewer(list[j], list[i])
  {
  }

  lemma InsertedIsSorted(list: seq<Candidate>, k: nat, c: Candidate)
    requires Sorted(list) && k <= |list|
    requires forall i | 0 <= i < k :: NotNewer(c, list[i])
    requires forall j | k <= j < |list| :: NotNewer(list[j], c)
    ensures Sorted(list[..k] + [c] + list[k..])
  {
    hide NotNewer;
    var r := list[..k] + [c] + list[k..];
    forall i, j | 0 <= i < j < |r| ensures NotNewer(r[j], r[i]) {
      assert r[i] == if i < k then list[i] else if i == k then c else list[i - 1];
      assert r[j] == if j < k then list[j] else if j == k then c else list[j - 1];
    }
  }

  // ----------------------------------------------------------------- the catalog

  /** A wanted version of the catalog, with its files. */
  datatype Offer = Offer(version: string, chromium: string, files: seq<Json>)

  function MajorOf(version: string): string {
    if version == [] || version[0] == '.' then [] else [version[0]] + MajorOf(version[1..])
  }

  /** What a version object offers: stable, with a version text and a list of files, of the reference's major when asked. */
  function OfferOf(value: Json, reference: Reference, sameMajor: bool): Option<Offer> {
    var version, channel := GetText(value, "cef_version"), GetText(value, "channel");
    if version.None? || channel != Some("stable") || (sameMajor && MajorOf(version.value) != MajorOf(reference.version)) then None
    else
      var chromium := if GetText(value, "chromium_version").Some? then GetText(value, "chromium_version").value else "";
      match Get(value, "files")
      case Some(JArray(files)) => Some(Offer(version.value, chromium, files))
      case _ => None
  }

  predicate IsWanted(file: Json, reference: Reference) {
    GetText(file, "type") == Some(reference.distribution)
  }

  /** The candidate of a file object, unless a field is missing or of the wrong kind. */
  function CandidateOf(offer: Offer, file: Json, reference: Reference, urlOf: string -> string): Option<Candidate> {
    match (GetText(file, "name"), GetText(file, "sha1"), Get(file, "size"))
    case (Some(name), Some(sha1), Some(JUnsigned(size))) =>
      var modified := if GetText(file, "last_modified").Some? then GetText(file, "last_modified").value else "";
      Some(Candidate(Artifact(offer.version, reference.target, reference.distribution, name, urlOf(name), sha1, size),
                     offer.chromium, modified))
    case _ => None
  }

  /** The candidates of a list of files; one malformed wanted file spoils them all. */
  function FileCandidates(offer: Offer, files: seq<Json>, reference: Reference, urlOf: string -> string): Option<seq<Candidate>> {
    if files == [] then Some([])
    else
      var front := FileCandidates(offer, files[..|files| - 1], reference, urlOf);
      var last := files[|files| - 1];
      if front.None? || !IsWanted(last, reference) then front
      else
        match CandidateOf(offer, last, reference, urlOf)
        case None => None
        case Some(candidate) => Some(front.value + [candidate])
  }

  function VersionCandidates(
    versions: seq<Json>, reference: Reference, sameMajor: bool, urlOf: string -> string): Option<seq<Candidate>> {
    if versions == [] then Some([])
    else
      var front := VersionCandidates(versions[..|versions| - 1], reference, sameMajor, urlOf);
      var offer := OfferOf(versions[|versions| - 1], reference, sameMajor);
      if front.None? || offer.None? then front
      else
        match FileCandidates(offer.value, offer.value.files, reference, urlOf)
        case None => None
        case Some(candidates) => Some(front.value + candidates)
  }

  /** The list of versions of the reference's target. */
  function CatalogVersions(root: Option<Json>, target: string): Option<seq<Json>> {
    if root.None? || Get(root.value, target).None? then None
    else
      match Get(Get(root.value, target).value, "versions")
      case Some(JArray(versions)) => Some(versions)
      case _ => None
  }

  /** The candidates of the catalog, when it can be read and no wanted file is malformed. */
  function Offered(root: Option<Json>, reference: Reference, sameMajor: bool, urlOf: string -> string): Option<seq<Candidate>> {
    match CatalogVersions(root, reference.target)
    case None => None
    case Some(versions) => VersionCandidates(versions, reference, sameMajor, urlOf)
  }

  method CollectFiles(offer: Offer, reference: Reference, urlOf: string -> string, list: seq<Candidate>)
    returns (ok: bool, r: seq<Candidate>)
    ensures match FileCandidates(offer, offer.files, reference, urlOf)
            case None => !ok
            case Some(candidates) => ok && r == list + candidates
  {
    hide CandidateOf, IsWanted;
    r := list;
    ghost var found: seq<Candidate> := [];
    for n := 0 to |offer.files|
      invariant FileCandidates(offer, offer.files[..n], reference, urlOf) == Some(found) && r == list + found
    {
      var file := offer.files[n];
      FilesNext(offer, n, reference, urlOf);
      if IsWanted(file, reference) {
        var candidate := CandidateOf(offer, file, reference, urlOf);
        if candidate.None? {
          FilesStayMalformed(offer, n + 1, reference, urlOf);
          return false, [];
        }
        Assoc(list, found, [candidate.value]);
        r, found := r + [candidate.value], found + [candidate.value];
      }
    }
    assert offer.files[..|offer.files|] == offer.files;
    ok := true;
  }

  lemma FilesNext(offer: Offer, n: nat, reference: Reference, urlOf: string -> string)
    requires n < |offer.files|
    ensures FileCandidates(offer, offer.files[..n + 1], reference, urlOf)
         == (var front := FileCandidates(offer, offer.files[..n], reference, urlOf);
             if front.None? || !IsWanted(offer.files[n], reference) then front
             else match CandidateOf(offer, offer.files[n], reference, urlOf)
                  case None => None
                  case Some(candidate) => Some(front.value + [candidate]))
  {
    hide CandidateOf, IsWanted;
    assert offer.files[..n + 1][..n] == offer.files[..n];
  }

  lemma {:induction false} FilesStayMalformed(offer: Offer, n: nat, reference: Reference, urlOf: string -> string)
    requires n <= |offer.files| && FileCandidates(offer, offer.files[..n], reference, urlOf).None?
    ensures FileCandidates(offer, offer.files, reference, urlOf).None?
    decreases |offer.files| - n
  {
    hide CandidateOf, IsWanted, FileCandidates;
    if n < |offer.files| {
      FilesNext(offer, n, reference, urlOf);
      FilesStayMalformed(offer, n + 1, reference, urlOf);
    } else {
      assert offer.files[..n] == offer.files;
    }
  }

  method CollectPolicyCandidates(root: Option<Json>, reference: Reference, sameMajor: bool, urlOf: string -> string)
    returns (ok: bool, list: seq<Candidate>)
    ensures match Offered(root, reference, sameMajor, urlOf)
            case None => !ok
            case Some(candidates) => ok && Sorted(list) && multiset(list) == multiset(candidates)
  {
    hide OfferOf, FileCandidates, NewestFirst;
    ok, list := false, [];
    var versions := CatalogVersions(root, reference.target);
    if versions.None? {
      return;
    }
    var vs := versions.value;
    for n := 0 to |vs|
      invariant VersionCandidates(vs[..n], reference, sameMajor, urlOf) == Some(list)
    {
      VersionsNext(vs, n, reference, sameMajor, urlOf);
      var offer := OfferOf(vs[n], reference, sameMajor);
      if offer.Some? {
        ok, list := CollectFiles(offer.value, reference, urlOf, list);
        if !ok {
          VersionsStayMalformed(vs, n + 1, reference, sameMajor, urlOf);
          return false, [];
        }
      }
    }
    assert vs[..|vs|] == vs;
    list := SortCandidates(list);
    ok := true;
  }

  lemma VersionsNext(versions: seq<Json>, n: nat, reference: Reference, sameMajor: bool, urlOf: string -> string)
    requires n < |versions|
    ensures VersionCandidates(versions[..n + 1], reference, sameMajor, urlOf)
         == (var front := VersionCandidates(versions[..n], reference, sameMajor, urlOf);
             var offer := OfferOf(versions[n], reference, sameMajor);
             if front.None? || offer.None? then front
             else match FileCandidates(offer.value, offer.value.files, reference, urlOf)
                  case None => None
                  case Some(candidates) => Some(front.value + candidates))
  {
    hide OfferOf, FileCandidates;
    assert versions[..n + 1][..n] == versions[..n];
  }

  lemma {:induction false} VersionsStayMalformed(
    versions: seq<Json>, n: nat, reference: Reference, sameMajor: bool, urlOf: string -> string)
    requires n <= |versions| && VersionCandidates(versions[..n], reference, sameMajor, urlOf).None?
    ensures VersionCandidates(versions, reference, sameMajor, urlOf).None?
    decreases |versions| - n
  {
    hide OfferOf, FileCandidates, VersionCandidates;
    if n < |versions| {
      VersionsNext(versions, n, reference, sameMajor, urlOf);
      VersionsStayMalformed(versions, n + 1, reference, sameMajor, urlOf);
    } else {
      assert versions[..n] == versions;
    }
  }

  /** Some version object and some wanted file of it give the candidate. */
  ghost predicate Comes(c: Candidate, versions: seq<Json>, reference: Reference, sameMajor: bool, urlOf: string -> string) {
    exists v, file | v in versions && OfferOf(v, reference, sameMajor).Some? && file in OfferOf(v, reference, sameMajor).value.files ::
      IsWanted(file, reference) && CandidateOf(OfferOf(v, reference, sameMajor).value, file, reference, urlOf) == Some(c)
  }

  lemma {:induction false} FileMembers(offer: Offer, files: seq<Json>, reference: Reference, urlOf: string -> string, c: Candidate)
    requires FileCandidates(offer, files, reference, urlOf).Some?
    ensures c in FileCandidates(offer, files, reference, urlOf).value
       <==> exists file | file in files :: IsWanted(file, reference) && CandidateOf(offer, file, reference, urlOf) == Some(c)
  {
    hide CandidateOf, IsWanted;
    if files != [] {
      var front, last := files[..|files| - 1], files[|files| - 1];
      FileMembers(offer, front, reference, urlOf, c);
      assert files == front + [last];
    }
  }

  /** The candidates are exactly what the wanted files of the wanted versions give. */
  lemma {:induction false} OfferedMembers(
    versions: seq<Json>, reference: Reference, sameMajor: bool, urlOf: string -> string, c: Candidate)
    requires VersionCandidates(versions, reference, sameMajor, urlOf).Some?
    ensures c in VersionCandidates(versions, reference, sameMajor, urlOf).value <==> Comes(c, versions, reference, sameMajor, urlOf)
  {
    hide CandidateOf, IsWanted, OfferOf, FileCandidates;
    if versions != [] {
      var front, last := versions[..|versions| - 1], versions[|versions| - 1];
      OfferedMembers(front, reference, sameMajor, urlOf, c);
      assert versions == front + [last];
      var offer := OfferOf(last, reference, sameMajor);
      if offer.Some? {
        FileMembers(offer.value, offer.value.files, reference, urlOf, c);
      }
      LastComes(front, last, reference, sameMajor, urlOf, c);
    }
  }

  lemma LastComes(front: seq<Json>, last: Json, reference: Reference, sameMajor: bool, urlOf: string -> string, c: Candidate)
    ensures
      var offer := OfferOf(last, reference, sameMajor);
      Comes(c, front + [last], reference, sameMajor, urlOf)
      <==> Comes(c, front, reference, sameMajor, urlOf)
           || (offer.Some? && exists file | file in offer.value.files ::
                 IsWanted(file, reference) && CandidateOf(offer.value, file, reference, urlOf) == Some(c))
  {
  }

  // ------------------------------------------------- candidates in the catalog's terms

  /** The text is m, or m followed by a dot and something. */
  predicate LedBy(text: string, m: string) { text == m || m + "." <= text }

  /** Both texts have the same part before their first dot. */
  ghost predicate SameMajor(a: string, b: string) {
    exists m :: '.' !in m && LedBy(a, m) && LedBy(b, m)
  }

  lemma {:induction false} MajorIs(text: string, m: string)
    ensures MajorOf(text) == m <==> '.' !in m && LedBy(text, m)
  {
    if text == [] || text[0] == '.' {
      assert [] + "." == ".";
      if m != [] && LedBy(text, m) {
        LedByFirst(text, m);
      }
    } else if m != [] && m[0] == text[0] {
      MajorIs(text[1..], m[1..]);
      LedByTail(text, m);
      HeadTail(m);
    } else if m != [] && LedBy(text, m) {
      LedByFirst(text, m);
    }
  }

  lemma LedByFirst(text: string, m: string)
    requires m != [] && LedBy(text, m)
    ensures text != [] && text[0] == m[0]
  {
    if text != m {
      assert (m + ".")[0] == m[0];
    }
  }

  lemma LedByTail(text: string, m: string)
    requires text != [] && m != [] && m[0] == text[0]
    ensures LedBy(text, m) <==> LedBy(text[1..], m[1..])
    ensures '.' in m <==> m[0] == '.' || '.' in m[1..]
  {
    HeadTail(text);
    HeadTail(m);
    assert (m + ".")[1..] == m[1..] + ".";
    if m[1..] + "." <= text[1..] {
      assert m + "." == [m[0]] + (m[1..] + ".");
    }
    if m + "." <= text {
      assert text[..|m| + 1] == m + ".";
      assert text[1..][..|m|] == text[..|m| + 1][1..];
    }
  }

  lemma MajorMeans(a: string, b: string)
    ensures MajorOf(a) == MajorOf(b) <==> SameMajor(a, b)
  {
    hide MajorOf, LedBy;
    MajorIs(a, MajorOf(a));
    MajorIs(b, MajorOf(a));
    if m :| '.' !in m && LedBy(a, m) && LedBy(b, m) {
      MajorIs(a, m);
      MajorIs(b, m);
    }
  }

  /** The first member with the name as a text, or nothing when it is no text or missing. */
  ghost predicate TextOrNothing(value: Json, name: string, text: string) {
    HasText(value, name, text) || (text == "" && forall other :: !HasText(value, name, other))
  }

  /** A stable version with its texts and files, of the reference's major when that is asked. */
  ghost predicate Offers(v: Json, reference: Reference, sameMajor: bool, version: string, chromium: string, files: seq<Json>) {
    && HasText(v, "channel", "stable") && HasText(v, "cef_version", version)
    && HasMember(v, "files", JArray(files)) && TextOrNothing(v, "chromium_version", chromium)
    && (sameMajor ==> SameMajor(version, reference.version))
  }

  /** A file of the reference's distribution with the candidate's name, digest, size and time. */
  ghost predicate Describes(file: Json, reference: Reference, urlOf: string -> string, c: Candidate) {
    && HasText(file, "type", reference.distribution)
    && HasText(file, "name", c.artifact.fileName) && HasText(file, "sha1", c.artifact.sha1)
    && HasMember(file, "size", JUnsigned(c.artifact.size)) && TextOrNothing(file, "last_modified", c.modified)
    && c.artifact.target == reference.target && c.artifact.distribution == reference.distribution
    && c.artifact.url == urlOf(c.artifact.fileName)
  }

  lemma TextOrNothingIs(value: Json, name: string, text: string)
    ensures TextOrNothing(value, name, text) <==> text == if GetText(value, name).Some? then GetText(value, name).value else ""
  {
    hide GetText, HasText;
    forall other ensures GetText(value, name) == Some(other) <==> HasText(value, name, other) {
      GetTextMeans(value, name, other);
    }
  }

  lemma OfferMeans(v: Json, reference: Reference, sameMajor: bool, version: string, chromium: string, files: seq<Json>)
    ensures OfferOf(v, reference, sameMajor) == Some(Offer(version, chromium, files))
       <==> Offers(v, reference, sameMajor, version, chromium, files)
  {
    hide GetText, HasText, Get, HasMember, MajorOf, SameMajor, TextOrNothing;
    GetTextMeans(v, "channel", "stable");
    GetTextMeans(v, "cef_version", version);
    GetMeans(v, "files", JArray(files));
    TextOrNothingIs(v, "chromium_version", chromium);
    MajorMeans(version, reference.version);
  }

  lemma FileMeans(offer: Offer, file: Json, reference: Reference, urlOf: string -> string, c: Candidate)
    ensures IsWanted(file, reference) && CandidateOf(offer, file, reference, urlOf) == Some(c)
       <==> Describes(file, reference, urlOf, c) && c.artifact.version == offer.version && c.chromium == offer.chromium
  {
    hide GetText, HasText, Get, HasMember, TextOrNothing;
    GetTextMeans(file, "type", reference.distribution);
    GetTextMeans(file, "name", c.artifact.fileName);
    GetTextMeans(file, "sha1", c.artifact.sha1);
    GetMeans(file, "size", JUnsigned(c.artifact.size));
    TextOrNothingIs(file, "last_modified", c.modified);
  }

  /** Some stable version of the list and some wanted file of it give the candidate. */
  ghost predicate Listed(versions: seq<Json>, reference: Reference, sameMajor: bool, urlOf: string -> string, c: Candidate) {
    exists v, files, file | v in versions && file in files ::
      Offers(v, reference, sameMajor, c.artifact.version, c.chromium, files) && Describes(file, reference, urlOf, c)
  }

  /** The candidates are exactly what the catalog lists. */
  lemma CandidatesMean(versions: seq<Json>, reference: Reference, sameMajor: bool, urlOf: string -> string, c: Candidate)
    requires VersionCandidates(versions, reference, sameMajor, urlOf).Some?
    ensures c in VersionCandidates(versions, reference, sameMajor, urlOf).value <==> Listed(versions, reference, sameMajor, urlOf, c)
  {
    hide VersionCandidates, OfferOf, Offers, Describes, CandidateOf, IsWanted;
    OfferedMembers(versions, reference, sameMajor, urlOf, c);
    if Comes(c, versions, reference, sameMajor, urlOf) {
      var v, file :| v in versions && OfferOf(v, reference, sameMajor).Some? && file in OfferOf(v, reference, sameMajor).value.files
        && IsWanted(file, reference) && CandidateOf(OfferOf(v, reference, sameMajor).value, file, reference, urlOf) == Some(c);
      var offer := OfferOf(v, reference, sameMajor).value;
      OfferMeans(v, reference, sameMajor, offer.version, offer.chromium, offer.files);
      FileMeans(offer, file, reference, urlOf, c);
    }
    if Listed(versions, reference, sameMajor, urlOf, c) {
      var v, files, file :| v in versions && file in files
        && Offers(v, reference, sameMajor, c.artifact.version, c.chromium, files) && Describes(file, reference, urlOf, c);
      OfferMeans(v, reference, sameMajor, c.artifact.version, c.chromium, files);
      FileMeans(Offer(c.artifact.version, c.chromium, files), file, reference, urlOf, c);
    }
  }

  /** The file object is wanted and lacks a text or the size. */
  ghost predicate Spoils(file: Json, reference: Reference) {
    && HasText(file, "type", reference.distribution)
    && ((forall text :: !HasText(file, "name", text)) || (forall text :: !HasText(file, "sha1", text))
        || (forall n: nat :: !HasMember(file, "size", JUnsigned(n))))
  }

  /** A wanted file of a wanted version spoils the list. */
  ghost predicate Spoilt(versions: seq<Json>, reference: Reference, sameMajor: bool) {
    exists v, version, chromium, files, file | v in versions && file in files ::
      Offers(v, reference, sameMajor, version, chromium, files) && Spoils(file, reference)
  }

  lemma SpoilsMeans(offer: Offer, file: Json, reference: Reference, urlOf: string -> string)
    ensures IsWanted(file, reference) && CandidateOf(offer, file, reference, urlOf).None? <==> Spoils(file, reference)
  {
    hide GetText, HasText, Get, HasMember;
    GetTextMeans(file, "type", reference.distribution);
    forall text ensures (GetText(file, "name") == Some(text) <==> HasText(file, "name", text))
                     && (GetText(file, "sha1") == Some(text) <==> HasText(file, "sha1", text)) {
      GetTextMeans(file, "name", text);
      GetTextMeans(file, "sha1", text);
    }
    forall n: nat ensures Get(file, "size") == Some(JUnsigned(n)) <==> HasMember(file, "size", JUnsigned(n)) {
      GetMeans(file, "size", JUnsigned(n));
    }
  }

  lemma {:induction false} FilesSpoilt(offer: Offer, files: seq<Json>, reference: Reference, urlOf: string -> string)
    ensures FileCandidates(offer, files, reference, urlOf).None? <==> exists file | file in files :: Spoils(file, reference)
  {
    hide CandidateOf, IsWanted, Spoils;
    if files != [] {
      var front, last := files[..|files| - 1], files[|files| - 1];
      FilesSpoilt(offer, front, reference, urlOf);
      SpoilsMeans(offer, last, reference, urlOf);
      assert files == front + [last];
    }
  }

  /** The catalog offers nothing at all exactly when a wanted file of a wanted version is malformed. */
  lemma {:induction false} SpoiltMeans(versions: seq<Json>, reference: Reference, sameMajor: bool, urlOf: string -> string)
    ensures VersionCandidates(versions, reference, sameMajor, urlOf).None? <==> Spoilt(versions, reference, sameMajor)
  {
    hide OfferOf, FileCandidates, Spoils, Offers;
    if versions != [] {
      var front, last := versions[..|versions| - 1], versions[|versions| - 1];
      SpoiltMeans(front, reference, sameMajor, urlOf);
      assert versions == front + [last];
      LastSpoils(front, last, reference, sameMajor);
      forall version, chromium, files
        ensures OfferOf(last, reference, sameMajor) == Some(Offer(version, chromium, files))
           <==> Offers(last, reference, sameMajor, version, chromium, files) {
        OfferMeans(last, reference, sameMajor, version, chromium, files);
      }
      var offer := OfferOf(last, reference, sameMajor);
      if offer.Some? {
        FilesSpoilt(offer.value, offer.value.files, reference, urlOf);
        assert Offers(last, reference, sameMajor, offer.value.version, offer.value.chromium, offer.value.files);
      }
    }
  }

  ghost predicate VersionSpoils(v: Json, reference: Reference, sameMajor: bool) {
    exists version, chromium, files, file | file in files ::
      Offers(v, reference, sameMajor, version, chromium, files) && Spoils(file, reference)
  }

  lemma LastSpoils(front: seq<Json>, last: Json, reference: Reference, sameMajor: bool)
    ensures Spoilt(front + [last], reference, sameMajor)
       <==> Spoilt(front, reference, sameMajor) || VersionSpoils(last, reference, sameMajor)
  {
    hide Offers, Spoils;
    if VersionSpoils(last, reference, sameMajor) {
      var version, chromium, files, file :| file in files
        && Offers(last, reference, sameMajor, version, chromium, files) && Spoils(file, reference);
      assert last in front + [last];
    }
    if Spoilt(front, reference, sameMajor) {
      var v, version, chromium, files, file :| v in front && file in files
        && Offers(v, reference, sameMajor, version, chromium, files) && Spoils(file, reference);
      assert v in front + [last];
    }
  }

  /** What can be used: an archive that can be cached and whose API hash is the reference's. */
  predicate Acceptable(c: Candidate, cached: Artifact -> bool, matches: Artifact -> bool) {
    cached(c.artifact) && matches(c.artifact)
  }

  /** A usable candidate than which no usable candidate is newer. */
  ghost predicate Newest(c: Candidate, candidates: seq<Candidate>, cached: Artifact -> bool, matches: Artifact -> bool) {
    && c in candidates && Acceptable(c, cached, matches)
    && forall d | d in candidates && Acceptable(d, cached, matches) :: NotNewer(d, c)
  }

  // ------------------------------------------------- the newest in the catalog's terms

  /** Below at the first difference of the digit runs, or, when there is none, of the texts. */
  ghost predicate NumberedBelow(a: string, b: string) {
    || (exists k: nat :: SmallerAt(Runs(a), Runs(b), k))
    || ((forall k: nat :: !SmallerAt(Runs(b), Runs(a), k)) && exists k: nat :: TextBelowAt(a, b, k))
  }

  lemma VersionOrderMeans(a: string, b: string)
    ensures VersionOrder(a, b) < 0 <==> NumberedBelow(a, b)
  {
    hide VersionOrder, ComparePadded, CompareText, Runs, SmallerAt, TextBelowAt;
    RunsDecide(a, b);
    PaddedMeans(Runs(a), Runs(b));
    PaddedMeans(Runs(b), Runs(a));
    PaddedAntisymmetric(Runs(a), Runs(b));
    CompareTextMeans(a, b);
  }

  /** Later by the Chromium version, then by the CEF version, then by the time text. */
  ghost predicate Newer(d: Candidate, c: Candidate) {
    if c.chromium != d.chromium then NumberedBelow(c.chromium, d.chromium)
    else if c.artifact.version != d.artifact.version then NumberedBelow(c.artifact.version, d.artifact.version)
    else exists k: nat :: TextBelowAt(c.modified, d.modified, k)
  }

  lemma NewerMeans(d: Candidate, c: Candidate)
    ensures NewestFirst(d, c) < 0 <==> Newer(d, c)
  {
    hide VersionOrder, CompareText, NumberedBelow, TextBelowAt;
    VersionOrderMeans(c.chromium, d.chromium);
    VersionOrderMeans(c.artifact.version, d.artifact.version);
    CompareTextMeans(c.modified, d.modified);
    VersionOrderLaws(d.chromium, c.chromium, c.chromium);
    VersionOrderLaws(d.artifact.version, c.artifact.version, c.artifact.version);
    CompareTextAntisymmetric(d.modified, c.modified);
  }

  /** The object of the target in the catalog has the list of versions. */
  ghost predicate CatalogLists(root: Option<Json>, target: string, versions: seq<Json>) {
    root.Some? && exists t :: HasMember(root.value, target, t) && HasMember(t, "versions", JArray(versions))
  }

  lemma CatalogMeans(root: Option<Json>, target: string, versions: seq<Json>)
    ensures CatalogVersions(root, target) == Some(versions) <==> CatalogLists(root, target, versions)
  {
    hide Get, HasMember;
    if root.Some? {
      forall t ensures (Get(root.value, target) == Some(t) <==> HasMember(root.value, target, t))
                    && (Get(t, "versions") == Some(JArray(versions)) <==> HasMember(t, "versions", JArray(versions))) {
        GetMeans(root.value, target, t);
        GetMeans(t, "versions", JArray(versions));
      }
    }
  }

  /** A usable candidate of the catalog than which no usable one is newer. */
  ghost predicate Best(c: Candidate, versions: seq<Json>, reference: Reference, sameMajor: bool, urlOf: string -> string,
                       cached: Artifact -> bool, matches: Artifact -> bool) {
    && Listed(versions, reference, sameMajor, urlOf, c) && Acceptable(c, cached, matches)
    && forall d | Listed(versions, reference, sameMajor, urlOf, d) && Acceptable(d, cached, matches) :: !Newer(d, c)
  }

  /** The catalog is readable and lists something usable. */
  ghost predicate Serves(root: Option<Json>, versions: seq<Json>, reference: Reference, sameMajor: bool, urlOf: string -> string,
                         cached: Artifact -> bool, matches: Artifact -> bool) {
    && CatalogLists(root, reference.target, versions) && !Spoilt(versions, reference, sameMajor)
    && exists c :: Listed(versions, reference, sameMajor, urlOf, c) && Acceptable(c, cached, matches)
  }

  /** A best artifact of a catalog that serves, and the tested one when no catalog does. */
  ghost predicate Latest(root: Option<Json>, reference: Reference, sameMajor: bool, urlOf: string -> string,
                         cached: Artifact -> bool, matches: Artifact -> bool, result: Option<Artifact>) {
    && (forall versions | Serves(root, versions, reference, sameMajor, urlOf, cached, matches) ::
          exists c | Best(c, versions, reference, sameMajor, urlOf, cached, matches) :: result == Some(c.artifact))
    && ((forall versions :: !Serves(root, versions, reference, sameMajor, urlOf, cached, matches)) ==>
          result == if cached(reference.tested) then Some(reference.tested) else None)
  }

  /** What the latest policies must give, in terms of the candidates collected. */
  ghost predicate Chosen(offered: Option<seq<Candidate>>, reference: Reference,
                         cached: Artifact -> bool, matches: Artifact -> bool, result: Option<Artifact>) {
    if offered.Some? && (exists c | c in offered.value :: Acceptable(c, cached, matches))
    then exists c | Newest(c, offered.value, cached, matches) :: result == Some(c.artifact)
    else result == if cached(reference.tested) then Some(reference.tested) else None
  }

  /** The choice among the candidates is the best of the catalog. */
  lemma ChosenIsLatest(root: Option<Json>, reference: Reference, sameMajor: bool, urlOf: string -> string,
                       cached: Artifact -> bool, matches: Artifact -> bool, result: Option<Artifact>)
    requires Chosen(Offered(root, reference, sameMajor, urlOf), reference, cached, matches, result)
    ensures Latest(root, reference, sameMajor, urlOf, cached, matches, result)
  {
    hide CatalogVersions, VersionCandidates, CatalogLists, Spoilt, Listed, Newer, NewestFirst, Acceptable;
    forall versions ensures CatalogVersions(root, reference.target) == Some(versions) <==> CatalogLists(root, reference.target, versions) {
      CatalogMeans(root, reference.target, versions);
    }
    if CatalogVersions(root, reference.target).Some? {
      var versions := CatalogVersions(root, reference.target).value;
      SpoiltMeans(versions, reference, sameMajor, urlOf);
      if VersionCandidates(versions, reference, sameMajor, urlOf).Some? {
        forall c ensures c in VersionCandidates(versions, reference, sameMajor, urlOf).value
                    <==> Listed(versions, reference, sameMajor, urlOf, c) {
          CandidatesMean(versions, reference, sameMajor, urlOf, c);
        }
        if c :| c in VersionCandidates(versions, reference, sameMajor, urlOf).value && Acceptable(c, cached, matches) {
          assert Serves(root, versions, reference, sameMajor, urlOf, cached, matches);
          NewestIsBest(versions, reference, sameMajor, urlOf, cached, matches, result);
        }
      }
    }
  }

  lemma NewestIsBest(versions: seq<Json>, reference: Reference, sameMajor: bool, urlOf: string -> string,
                     cached: Artifact -> bool, matches: Artifact -> bool, result: Option<Artifact>)
    requires VersionCandidates(versions, reference, sameMajor, urlOf).Some?
    requires
      var candidates := VersionCandidates(versions, reference, sameMajor, urlOf).value;
      exists c | Newest(c, candidates, cached, matches) :: result == Some(c.artifact)
    ensures exists c | Best(c, versions, reference, sameMajor, urlOf, cached, matches) :: result == Some(c.artifact)
  {
    hide VersionCandidates, Listed, Newer, NewestFirst, Acceptable;
    var candidates := VersionCandidates(versions, reference, sameMajor, urlOf).value;
    var c :| Newest(c, candidates, cached, matches) && result == Some(c.artifact);
    CandidatesMean(versions, reference, sameMajor, urlOf, c);
    forall d | Listed(versions, reference, sameMajor, urlOf, d) && Acceptable(d, cached, matches) ensures !Newer(d, c) {
      CandidatesMean(versions, reference, sameMajor, urlOf, d);
      NewerMeans(d, c);
      NewestFirstLaws(d, c, c);
      assert NotNewer(d, c);
    }
    assert Best(c, versions, reference, sameMajor, urlOf, cached, matches);
  }

  /** The reference's own artifact, if it can be cached. */
  method EnsureTestedArchive(reference: Reference, cached: Artifact -> bool) returns (result: Option<Artifact>)
    ensures result == if cached(reference.tested) then Some(reference.tested) else None
  {
    result := if cached(reference.tested) then Some(reference.tested) else None;
  }

  /**
   The latest policies: a newest usable candidate if the catalog offers one, and otherwise,
   and only then, the tested artifact.
   */
  method EnsureLatestPolicyArchive(
    root: Option<Json>, reference: Reference, sameMajor: bool, urlOf: string -> string,
    cached: Artifact -> bool, matches: Artifact -> bool)
    returns (result: Option<Artifact>)
    ensures Chosen(Offered(root, reference, sameMajor, urlOf), reference, cached, matches, result)
    ensures Latest(root, reference, sameMajor, urlOf, cached, matches, result)
  {
    hide NewestFirst, Offered, Latest;
    ghost var offered := Offered(root, reference, sameMajor, urlOf);
    var ok, candidates := CollectPolicyCandidates(root, reference, sameMajor, urlOf);
    if !ok {
      result := EnsureTestedArchive(reference, cached);
      ChosenIsLatest(root, reference, sameMajor, urlOf, cached, matches, result);
      return;
    }
    SameMembers(offered.value, candidates);
    for index := 0 to |candidates|
      invariant forall i | 0 <= i < index :: !Acceptable(candidates[i], cached, matches)
    {
      var candidate := candidates[index];
      if !cached(candidate.artifact) {
        continue;
      }
      if matches(candidate.artifact) {
        FirstIsNewest(candidates, index, cached, matches);
        assert Newest(candidate, offered.value, cached, matches);
        result := Some(candidate.artifact);
        ChosenIsLatest(root, reference, sameMajor, urlOf, cached, matches, result);
        return;
      }
    }
    result := EnsureTestedArchive(reference, cached);
    ChosenIsLatest(root, reference, sameMajor, urlOf, cached, matches, result);
  }

  lemma FirstIsNewest(list: seq<Candidate>, k: nat, cached: Artifact -> bool, matches: Artifact -> bool)
    requires Sorted(list) && k < |list| && Acceptable(list[k], cached, matches)
    requires forall i | 0 <= i < k :: !Acceptable(list[i], cached, matches)
    ensures Newest(list[k], list, cached, matches)
  {
    hide NewestFirst;
    forall d | d in list && Acceptable(d, cached, matches) ensures NotNewer(d, list[k]) {
      var j :| 0 <= j < |list| && list[j] == d;
      NewestFirstLaws(d, d, d);
    }
  }

  /** Any two newest usable candidates have the same three texts, whatever order the catalog lists them in. */
  lemma NewestAgree(a: Candidate, b: Candidate, candidates: seq<Candidate>, cached: Artifact -> bool, matches: Artifact -> bool)
    requires Newest(a, candidates, cached, matches) && Newest(b, candidates, cached, matches)
    ensures a.chromium == b.chromium && a.artifact.version == b.artifact.version && a.modified == b.modified
  {
    hide NewestFirst;
    assert NotNewer(a, b) && NotNewer(b, a);
    NewestFirstLaws(a, b, a);
  }

  /** Zero padding and wrap-around show: these pairs have equal numbers and only the bytes decide. */
  lemma NumbersCanTie()
    ensures ComparePadded(Numbers("1.0"), Numbers("1")) == 0 && VersionOrder("1.0", "1") == 1
  {
  }
}
