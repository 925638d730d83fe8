/**
 Node.js release selection of builder/src/prepare_node.c: version requirements, the
 validation of catalog entries and the choice of the greatest matching release.
 */
module NodeCatalog {
  import opened Common
  import opened JsonValue
  import opened SemVer

  // -------------------------------------------------------------- requirements

  datatype Operator = Equal | Less | LessEqual | Greater | GreaterEqual

  datatype Comparator = Comparator(op: Operator, version: Version)

  function ParseComparator(text: string): Option<Comparator> {
    if text == [] then None
    else if "<=" <= text then WithOperator(LessEqual, text[2..])
    else if ">=" <= text then WithOperator(GreaterEqual, text[2..])
    else if text[0] == '<' then WithOperator(Less, text[1..])
    else if text[0] == '>' then WithOperator(Greater, text[1..])
    else if text[0] == '=' then None
    else WithOperator(Equal, text)
  }

  function WithOperator(op: Operator, text: string): Option<Comparator> {
    match Parse(text, false)
    case None => None
    case Some(v) => Some(Comparator(op, v))
  }

  predicate Satisfies(version: Version, c: Comparator) {
    var order := Precedence(version, c.version);
    match c.op
    case Equal => order == 0
    case Less => order < 0
    case LessEqual => order <= 0
    case Greater => order > 0
    case GreaterEqual => order >= 0
  }

  /** A set of comparators accepts a version when each of them is readable and holds. */
  predicate SetAccepts(comparators: seq<string>, version: Version) {
    forall text | text in comparators :: ParseComparator(text).Some? && Satisfies(version, ParseComparator(text).value)
  }

  /** A requirement is met when any of its sets accepts. */
  predicate Meets(version: Version, sets: seq<seq<string>>) {
    exists comparators | comparators in sets :: SetAccepts(comparators, version)
  }

  method VersionSatisfiesRequirement(version: Version, sets: seq<seq<string>>) returns (met: bool)
    requires WellFormed(version)
    ensures met <==> Meets(version, sets)
  {
    for setIndex := 0 to |sets|
      invariant forall k | 0 <= k < setIndex :: !SetAccepts(sets[k], version)
    {
      var comparators, setMatches := sets[setIndex], true;
      for index := 0 to |comparators|
        invariant setMatches && SetAccepts(comparators[..index], version)
      {
        var text := comparators[index];
        assert comparators[..index + 1] == comparators[..index] + [text];
        var c := ParseComparator(text);
        if c.None? {
          assert text in comparators;
          setMatches := false;
          break;
        }
        ComparatorWellFormed(text);
        var order := CompareVersions(version, c.value.version);
        var holds := match c.value.op
          case Equal => order == 0
          case Less => order < 0
          case LessEqual => order <= 0
          case Greater => order > 0
          case GreaterEqual => order >= 0;
        if !holds {
          assert text in comparators;
          setMatches := false;
          break;
        }
      }
      if setMatches {
        assert comparators[..|comparators|] == comparators;
        assert comparators in sets;
        return true;
      }
    }
    return false;
  }

  lemma ComparatorWellFormed(text: string)
    requires ParseComparator(text).Some?
    ensures WellFormed(ParseComparator(text).value.version)
  {
    hide Parse, WellFormed, Print;
    var v := ParseComparator(text).value.version;
    forall t | Parse(t, false) == Some(v) ensures WellFormed(v) { ParseExact(t, false, v); }
    assert Parse(text, false) == Some(v) || Parse(text[1..], false) == Some(v) || Parse(text[2..], false) == Some(v);
  }

  /** What a comparator asks of a version. */
  lemma SatisfiesMeans(version: Version, c: Comparator)
    requires WellFormed(version) && WellFormed(c.version)
    ensures Satisfies(version, c) <==>
      match c.op
      case Equal => version == c.version
      case Less => VersionBelow(version, c.version)
      case LessEqual => version == c.version || VersionBelow(version, c.version)
      case Greater => VersionBelow(c.version, version)
      case GreaterEqual => version == c.version || VersionBelow(c.version, version)
  {
    hide Precedence, VersionBelow, WellFormed;
    PrecedenceMeans(version, c.version);
  }

  /** The sign in front of a comparator's version; none asks for the version itself. */
  function Symbol(op: Operator): string {
    match op case Equal => "" case Less => "<" case LessEqual => "<=" case Greater => ">" case GreaterEqual => ">="
  }

  /** A comparator is exactly a sign and a version without v. */
  lemma ComparatorExact(text: string, op: Operator, v: Version)
    ensures ParseComparator(text) == Some(Comparator(op, v)) <==> WellFormed(v) && text == Symbol(op) + Print(v, false)
  {
    hide Parse, WellFormed, Print;
    if text != [] {
      ParseExact(text, false, v);
      ParseExact(text[1..], false, v);
      if |text| >= 2 { ParseExact(text[2..], false, v); }
    }
    PrintStartsWithDigit(v);
    if text == Symbol(op) + Print(v, false) {
      SymbolOf(text, op, Print(v, false));
    }
  }

  /** Which branch a text takes, and what is left of it. */
  lemma SymbolOf(text: string, op: Operator, rest: string)
    requires rest != [] && '0' <= rest[0] <= '9' && text == Symbol(op) + rest
    ensures text != []
    ensures op == LessEqual ==> "<=" <= text && text[2..] == rest
    ensures op == GreaterEqual ==> ">=" <= text && !("<=" <= text) && text[2..] == rest
    ensures op == Less ==> text[0] == '<' && !("<=" <= text) && !(">=" <= text) && text[1..] == rest
    ensures op == Greater ==> text[0] == '>' && !("<=" <= text) && !(">=" <= text) && text[1..] == rest
    ensures op == Equal ==> text == rest && text[0] !in {'<', '>', '='}
  {
    if op == Less || op == Greater {
      assert text[1] == rest[0];
    }
  }

  // ------------------------------------------------------------- catalog entries

  /** A JSON string that C code reads whole: no character after an embedded zero is lost. */
  predicate IsCString(s: string) { '\0' !in s }

  /** The values of every member with the name. */
  function Named(members: seq<(string, Json)>, name: string): seq<Json> {
    if members == [] then []
    else (if members[0].0 == name then [members[0].1] else []) + Named(members[1..], name)
  }

  /** A name counts only when exactly one member has it. */
  function Single(members: seq<(string, Json)>, name: string): Option<Json> {
    if |Named(members, name)| == 1 then Some(Named(members, name)[0]) else None
  }

  method GetSingleValue(members: seq<(string, Json)>, name: string) returns (result: Option<Json>)
    requires IsCString(name)
    ensures result == Single(members, name)
  {
    hide Named;
    var matchCount, matched := 0, JNull;
    ghost var before: seq<Json> := [];
    assert members[0..] == members;
    for index := 0 to |members|
      invariant Named(members, name) == before + Named(members[index..], name)
      invariant |before| == matchCount && (matchCount > 0 ==> before[matchCount - 1] == matched)
    {
      var key := members[index].0;
      NamedUncons(members, index, name);
      if IsCString(key) && key == name {
        matched := members[index].1;
        Assoc(before, [matched], Named(members[index + 1..], name));
        before := before + [matched];
        matchCount := matchCount + 1;
      }
    }
    assert members[|members|..] == [];
    NothingNamed(name);
    return if matchCount == 1 then Some(matched) else None;
  }

  lemma NamedUncons(members: seq<(string, Json)>, i: nat, name: string)
    requires i < |members|
    ensures Named(members[i..], name)
         == (if members[i].0 == name then [members[i].1] else []) + Named(members[i + 1..], name)
    ensures members[i].0 != name ==> Named(members[i..], name) == Named(members[i + 1..], name)
  {
  }

  /** The pair stands at the place, and no other member has the name. */
  predicate OnlyAt(members: seq<(string, Json)>, name: string, value: Json, i: nat) {
    i < |members| && members[i] == (name, value) && forall j | 0 <= j < |members| && j != i :: members[j].0 != name
  }

  lemma {:induction false} NoneNamed(members: seq<(string, Json)>, name: string)
    ensures Named(members, name) == [] <==> forall m | m in members :: m.0 != name
  {
    if members != [] {
      NoneNamed(members[1..], name);
      HeadTail(members);
    }
  }

  /** A single value is that of the only member with the name. */
  lemma {:induction false} SingleMeans(members: seq<(string, Json)>, name: string, value: Json)
    ensures Single(members, name) == Some(value) <==> exists i: nat :: OnlyAt(members, name, value, i)
  {
    hide OnlyAt;
    if members == [] {
      NothingOnly(name, value);
    } else {
      NoneNamed(members[1..], name);
      OnlyFirst(members, name, value);
      if members[0].0 != name {
        SingleMeans(members[1..], name, value);
        if i: nat :| OnlyAt(members[1..], name, value, i) {
          OnlyLater(members, name, value, i);
        }
        if i: nat :| OnlyAt(members, name, value, i) {
          if i > 0 {
            OnlyLater(members, name, value, i - 1);
          }
        }
      }
    }
  }

  lemma NothingOnly(name: string, value: Json)
    ensures forall i: nat :: !OnlyAt([], name, value, i)
  {
  }

  lemma OnlyFirst(members: seq<(string, Json)>, name: string, value: Json)
    requires members != []
    ensures OnlyAt(members, name, value, 0) <==> members[0] == (name, value) && forall m | m in members[1..] :: m.0 != name
    ensures members[0].0 == name ==> forall i: nat | i > 0 :: !OnlyAt(members, name, value, i)
  {
    if OnlyAt(members, name, value, 0) {
      forall m | m in members[1..] ensures m.0 != name {
        var k :| 0 <= k < |members[1..]| && members[1..][k] == m;
        assert members[k + 1] == m;
      }
    }
    forall j | 0 < j < |members| ensures members[j] in members[1..] {
      assert members[1..][j - 1] == members[j];
    }
  }

  lemma OnlyLater(members: seq<(string, Json)>, name: string, value: Json, i: nat)
    requires members != [] && members[0].0 != name
    ensures OnlyAt(members, name, value, i + 1) <==> OnlyAt(members[1..], name, value, i)
  {
    var rest := members[1..];
    assert forall j | 0 <= j < |rest| :: rest[j] == members[j + 1];
    if OnlyAt(rest, name, value, i) {
      forall j | 0 <= j < |members| && j != i + 1 ensures members[j].0 != name {
        if j > 0 {
          assert rest[j - 1].0 != name;
        }
      }
    }
  }

  lemma NothingNamed(name: string)
    ensures Named([], name) == []
  {}

  /** A file list: at least one entry, each a non-empty C string, all distinct. */
  predicate FilesValid(items: seq<Json>) {
    && items != []
    && (forall i | 0 <= i < |items| :: items[i].JString? && IsCString(items[i].s) && items[i].s != [])
    && (forall i, j | 0 <= i < j < |items| :: items[i] != items[j])
  }

  method ValidateCatalogFiles(files: Json, catalogFile: string) returns (ok: bool, containsTarget: bool)
    ensures ok <==> files.JArray? && FilesValid(files.items)
    ensures ok ==> (containsTarget <==> JString(catalogFile) in files.items)
  {
    ok, containsTarget := false, false;
    if !files.JArray? || |files.items| == 0 {
      return;
    }
    var items := files.items;
    for index := 0 to |items|
      invariant forall i | 0 <= i < index :: items[i].JString? && IsCString(items[i].s) && items[i].s != []
      invariant forall i, j | 0 <= i < j < index :: items[i] != items[j]
      invariant containsTarget <==> JString(catalogFile) in items[..index]
    {
      var entry := items[index];
      if !entry.JString? || !IsCString(entry.s) || entry.s == [] {
        return;
      }
      for previous := 0 to index
        invariant forall i | 0 <= i < previous :: items[i] != entry
      {
        if items[previous].s == entry.s {
          return;
        }
      }
      assert items[..index + 1] == items[..index] + [entry];
      if entry.s == catalogFile {
        containsTarget := true;
      }
    }
    assert items[..|items|] == items;
    ok := true;
  }

  /** A readable release: its version text, its code name when it is LTS, whether it has the target's file. */
  datatype Release = Release(text: string, lts: Option<string>, available: bool)

  /** The release an entry describes, or nothing when the entry is malformed. */
  function ReadEntry(entry: Json, catalogFile: string): Option<Release> {
    if !entry.JObject? then None
    else match (Single(entry.members, "version"), Single(entry.members, "files"), Single(entry.members, "lts"))
      case (Some(JString(text)), Some(JArray(files)), Some(lts)) =>
        if IsCString(text) && IsRelease(text) && LtsValid(lts) && FilesValid(files) then
          Some(Release(text, LtsName(lts), JString(catalogFile) in files))
        else None
      case _ => None
  }

  predicate IsRelease(text: string) {
    Parse(text, true).Some? && Parse(text, true).value.prerelease == []
  }

  /** An LTS field is a non-empty name or the literal false. */
  predicate LtsValid(lts: Json) {
    (lts.JString? && IsCString(lts.s) && lts.s != []) || lts == JBool(false)
  }

  function LtsName(lts: Json): Option<string> {
    if lts.JString? then Some(lts.s) else None
  }

  // ------------------------------------------------------ what resolution means

  datatype Selection = Selection(version: string, lts: Option<string>)

  function VersionOf(text: string): Version {
    match Parse(text, true) case Some(v) => v case None => Version(0, 0, 0, [])
  }

  /** Every entry is readable and no version occurs twice. */
  ghost predicate CatalogValid(entries: seq<Json>, file: string) {
    && (forall i | 0 <= i < |entries| :: ReadEntry(entries[i], file).Some?)
    && (forall i, j | 0 <= i < j < |entries| :: TextAt(entries, i, file) != TextAt(entries, j, file))
  }

  function TextAt(entries: seq<Json>, i: nat, file: string): string
    requires i < |entries|
  {
    match ReadEntry(entries[i], file) case Some(r) => r.text case None => []
  }

  /** The release can be used: it has the target's file and meets the requirement. */
  predicate Matches(r: Release, sets: seq<seq<string>>) {
    r.available && Meets(VersionOf(r.text), sets)
  }

  /** An entry that may be selected; with ltsOnly, only as a long-term-support release. */
  predicate Candidate(entry: Json, file: string, sets: seq<seq<string>>, ltsOnly: bool) {
    match ReadEntry(entry, file)
    case None => false
    case Some(r) => Matches(r, sets) && (ltsOnly ==> r.lts.Some?)
  }

  /** The entry is an object with exactly one member of each name that is read. */
  ghost predicate EntryHas(entry: Json, text: string, files: seq<Json>, lts: Json) {
    && entry.JObject?
    && (exists i: nat :: OnlyAt(entry.members, "version", JString(text), i))
    && (exists i: nat :: OnlyAt(entry.members, "files", JArray(files), i))
    && (exists i: nat :: OnlyAt(entry.members, "lts", lts, i))
  }

  /** A release with the target's file that meets the requirement, named as long-term support when that is asked. */
  ghost predicate Usable(file: string, sets: seq<seq<string>>, ltsOnly: bool, text: string, files: seq<Json>, lts: Json) {
    && IsCString(text) && IsRelease(text) && Meets(VersionOf(text), sets)
    && FilesValid(files) && JString(file) in files
    && if ltsOnly then lts.JString? && IsCString(lts.s) && lts.s != [] else LtsValid(lts)
  }

  /** A candidate, in terms of the entry's members. */
  lemma CandidateMeans(entry: Json, file: string, sets: seq<seq<string>>, ltsOnly: bool)
    ensures Candidate(entry, file, sets, ltsOnly)
       <==> exists text, files, lts :: EntryHas(entry, text, files, lts) && Usable(file, sets, ltsOnly, text, files, lts)
  {
    hide Single, FilesValid, Meets, IsRelease, OnlyAt;
    if entry.JObject? {
      forall text, files, lts ensures EntryHas(entry, text, files, lts) <==>
        && Single(entry.members, "version") == Some(JString(text)) && Single(entry.members, "files") == Some(JArray(files))
        && Single(entry.members, "lts") == Some(lts) {
        SingleMeans(entry.members, "version", JString(text));
        SingleMeans(entry.members, "files", JArray(files));
        SingleMeans(entry.members, "lts", lts);
      }
      if Candidate(entry, file, sets, ltsOnly) {
        var text, files := Single(entry.members, "version").value.s, Single(entry.members, "files").value.items;
        var lts := Single(entry.members, "lts").value;
        assert EntryHas(entry, text, files, lts) && Usable(file, sets, ltsOnly, text, files, lts);
      }
    }
  }

  /** The selection is a candidate, and no candidate has greater precedence. */
  ghost predicate Greatest(entries: seq<Json>, file: string, sets: seq<seq<string>>, ltsOnly: bool, s: Selection) {
    && (exists e | e in entries :: Candidate(e, file, sets, ltsOnly) && Selects(e, file, s))
    && (forall e | e in entries && Candidate(e, file, sets, ltsOnly) ::
          Precedence(VersionOf(ReadEntry(e, file).value.text), VersionOf(s.version)) <= 0)
  }

  predicate Selects(entry: Json, file: string, s: Selection) {
    match ReadEntry(entry, file)
    case None => false
    case Some(r) => s == Selection(r.text, r.lts)
  }

  ghost predicate NoCandidate(entries: seq<Json>, file: string, sets: seq<seq<string>>, ltsOnly: bool) {
    forall e | e in entries :: !Candidate(e, file, sets, ltsOnly)
  }

  /**
   The outcome of a resolution: the greatest matching LTS release; failing that, and only
   if a range was specified, the greatest matching release; nothing otherwise, and
   nothing at all when any entry is malformed or any version is repeated.
   */
  ghost predicate Outcome(entries: seq<Json>, file: string, sets: seq<seq<string>>, rangeSpecified: bool, result: Option<Selection>) {
    if !CatalogValid(entries, file) then result == None
    else if !NoCandidate(entries, file, sets, true) then result.Some? && Greatest(entries, file, sets, true, result.value)
    else if rangeSpecified && !NoCandidate(entries, file, sets, false) then
      result.Some? && Greatest(entries, file, sets, false, result.value)
    else result == None
  }

  /** Every candidate of the same kind is the selection, or smaller at the first difference of major, minor and patch. */
  ghost predicate Highest(entries: seq<Json>, file: string, sets: seq<seq<string>>, s: Selection) {
    && (s.lts.None? ==> NoCandidate(entries, file, sets, true))
    && forall e | e in entries && Candidate(e, file, sets, s.lts.Some?) ::
         var text := ReadEntry(e, file).value.text;
         text == s.version || FieldsBelow(VersionOf(text), VersionOf(s.version))
  }

  /** What is resolved has the highest number. */
  lemma OutcomeIsHighest(entries: seq<Json>, file: string, sets: seq<seq<string>>, rangeSpecified: bool, result: Option<Selection>)
    requires Outcome(entries, file, sets, rangeSpecified, result)
    ensures result.Some? ==> Highest(entries, file, sets, result.value)
  {
    if result.Some? {
      var s := result.value;
      var ltsOnly := !NoCandidate(entries, file, sets, true);
      assert s.lts.Some? == ltsOnly by {
        hide Matches, Precedence, Single, Parse;
        var e :| e in entries && Candidate(e, file, sets, ltsOnly) && Selects(e, file, s);
      }
      hide Candidate, Selects, NoCandidate, ReadEntry, Precedence, FieldsBelow;
      forall e | e in entries && Candidate(e, file, sets, ltsOnly)
        ensures ReadEntry(e, file).value.text == s.version
             || FieldsBelow(VersionOf(ReadEntry(e, file).value.text), VersionOf(s.version)) {
        NoGreaterIsBelow(entries, e, file, sets, ltsOnly, s);
      }
    }
  }

  lemma NoGreaterIsBelow(entries: seq<Json>, e: Json, file: string, sets: seq<seq<string>>, ltsOnly: bool, s: Selection)
    requires Greatest(entries, file, sets, ltsOnly, s) && e in entries && Candidate(e, file, sets, ltsOnly)
    ensures ReadEntry(e, file).Some?
    ensures ReadEntry(e, file).value.text == s.version
         || FieldsBelow(VersionOf(ReadEntry(e, file).value.text), VersionOf(s.version))
  {
    hide Precedence, FieldsBelow, Matches, Parse, Single, FilesValid, PrereleaseBelow;
    var f :| f in entries && Candidate(f, file, sets, ltsOnly) && Selects(f, file, s);
    var text := ReadEntry(e, file).value.text;
    TextsWellFormed(e, file);
    TextsWellFormed(f, file);
    PrecedenceMeans(VersionOf(text), VersionOf(s.version));
    EqualOnlyIfIdentical(text, s.version, true);
    EmptyBelowNothing();
  }

  lemma EmptyBelowNothing()
    ensures forall q :: !PrereleaseBelow("", q)
  {
  }

  lemma GreatestUnique(entries: seq<Json>, file: string, sets: seq<seq<string>>, ltsOnly: bool, s: Selection, t: Selection)
    requires CatalogValid(entries, file)
    requires Greatest(entries, file, sets, ltsOnly, s) && Greatest(entries, file, sets, ltsOnly, t)
    ensures s == t
  {
    hide Matches, Precedence, Parse;
    var e :| e in entries && Candidate(e, file, sets, ltsOnly) && Selects(e, file, s);
    var f :| f in entries && Candidate(f, file, sets, ltsOnly) && Selects(f, file, t);
    PrecedenceAntisymmetric(VersionOf(s.version), VersionOf(t.version));
    EqualOnlyIfIdentical(s.version, t.version, true);
    var i :| 0 <= i < |entries| && entries[i] == e;
    var j :| 0 <= j < |entries| && entries[j] == f;
    assert TextAt(entries, i, file) == s.version && TextAt(entries, j, file) == t.version;
  }

  /** A catalog has one outcome. */
  lemma OutcomeUnique(entries: seq<Json>, file: string, sets: seq<seq<string>>, rangeSpecified: bool,
                      r: Option<Selection>, q: Option<Selection>)
    requires Outcome(entries, file, sets, rangeSpecified, r) && Outcome(entries, file, sets, rangeSpecified, q)
    ensures r == q
  {
    hide CatalogValid, Greatest, NoCandidate;
    if r.Some? && q.Some? {
      if !NoCandidate(entries, file, sets, true) {
        GreatestUnique(entries, file, sets, true, r.value, q.value);
      } else {
        GreatestUnique(entries, file, sets, false, r.value, q.value);
      }
    }
  }

  /** An element at two positions occurs at least twice, and conversely. */
  lemma TwoPositions<T>(a: seq<T>, i: nat, j: nat)
    requires i < j < |a| && a[i] == a[j]
    ensures multiset(a)[a[i]] >= 2
  {
    assert a == a[..j] + a[j..];
    assert a[i] in a[..j] && a[j] in a[j..];
    assert multiset(a) == multiset(a[..j]) + multiset(a[j..]);
  }

  lemma {:induction false} PositionsOf<T>(a: seq<T>, x: T) returns (i: nat, j: nat)
    requires multiset(a)[x] >= 2
    ensures i < j < |a| && a[i] == x && a[j] == x
  {
    assert a == [a[0]] + a[1..];
    if a[0] == x {
      assert multiset(a[1..])[x] >= 1;
      assert x in a[1..];
      var k :| 0 <= k < |a[1..]| && a[1..][k] == x;
      i, j := 0, k + 1;
    } else {
      i, j := PositionsOf(a[1..], x);
      i, j := i + 1, j + 1;
    }
  }

  lemma RepeatIsInvalid(a: seq<Json>, file: string, x: Json)
    requires multiset(a)[x] >= 2
    ensures !CatalogValid(a, file)
  {
    var p, q := PositionsOf(a, x);
    assert TextAt(a, p, file) == TextAt(a, q, file);
  }

  lemma ValidPermutes(a: seq<Json>, b: seq<Json>, file: string)
    requires multiset(a) == multiset(b) && CatalogValid(a, file)
    ensures CatalogValid(b, file)
  {
    hide ReadEntry;
    SameMembers(a, b);
    forall i | 0 <= i < |b| ensures ReadEntry(b[i], file).Some? {
      assert b[i] in a;
    }
    forall i, j | 0 <= i < j < |b|
      ensures TextAt(b, i, file) != TextAt(b, j, file)
    {
      assert b[i] != b[j] by {
        if b[i] == b[j] {
          TwoPositions(b, i, j);
          RepeatIsInvalid(a, file, b[i]);
        }
      }
      assert b[i] in a && b[j] in a;
      var p: nat :| p < |a| && a[p] == b[i];
      var q: nat :| q < |a| && a[q] == b[j];
      assert TextAt(a, p, file) != TextAt(a, q, file);
    }
  }

  /** The outcome, success or failure, does not depend on the order of the catalog. */
  lemma OutcomeIgnoresOrder(a: seq<Json>, b: seq<Json>, file: string, sets: seq<seq<string>>, rangeSpecified: bool,
                            r: Option<Selection>, q: Option<Selection>)
    requires multiset(a) == multiset(b)
    requires Outcome(a, file, sets, rangeSpecified, r) && Outcome(b, file, sets, rangeSpecified, q)
    ensures r == q
  {
    hide CatalogValid, Candidate, Selects, Precedence;
    SameMembers(a, b);
    if CatalogValid(a, file) { ValidPermutes(a, b, file); }
    if CatalogValid(b, file) { ValidPermutes(b, a, file); }
    assert Outcome(a, file, sets, rangeSpecified, q);
    OutcomeUnique(a, file, sets, rangeSpecified, r, q);
  }

  // ------------------------------------------------------------- the resolution

  /** The best candidate so far: greatest among the entries seen, absent when none was a candidate. */
  ghost predicate BestOf(entries: seq<Json>, file: string, sets: seq<seq<string>>, ltsOnly: bool, best: Option<Selection>) {
    match best
    case None => NoCandidate(entries, file, sets, ltsOnly)
    case Some(s) => Greatest(entries, file, sets, ltsOnly, s)
  }

  /** Keeps the selection unless the version is greater. */
  method UpdateReleaseSelection(selection: Option<Selection>, version: string, lts: Option<string>)
    returns (result: Option<Selection>)
    requires Parse(version, true).Some?
    requires selection.Some? ==> Parse(selection.value.version, true).Some?
    ensures result == if selection.Some? && Precedence(VersionOf(version), VersionOf(selection.value.version)) <= 0
                      then selection else Some(Selection(version, lts))
  {
    if selection.Some? {
      ParseExact(version, true, VersionOf(version));
      ParseExact(selection.value.version, true, VersionOf(selection.value.version));
      var left := ParseVersion(version, true);
      var right := ParseVersion(selection.value.version, true);
      var order := CompareVersions(left.value, right.value);
      if order <= 0 {
        return selection;
      }
    }
    return Some(Selection(version, lts));
  }

  /** Taking in one more candidate keeps the best. */
  lemma BestWithCandidate(entries: seq<Json>, e: Json, file: string, sets: seq<seq<string>>, ltsOnly: bool,
                          best: Option<Selection>, next: Option<Selection>)
    requires BestOf(entries, file, sets, ltsOnly, best) && Candidate(e, file, sets, ltsOnly)
    requires best.Some? ==> Parse(best.value.version, true).Some?
    requires var r := ReadEntry(e, file).value;
             next == if best.Some? && Precedence(VersionOf(r.text), VersionOf(best.value.version)) <= 0
                     then best else Some(Selection(r.text, r.lts))
    ensures BestOf(entries + [e], file, sets, ltsOnly, next)
  {
    hide Matches, Precedence, Parse, Single, FilesValid, LtsValid, LtsName;
    var s := next.value;
    var v := VersionOf(s.version);
    assert e in entries + [e];
    forall f | f in entries + [e] && Candidate(f, file, sets, ltsOnly)
      ensures Precedence(VersionOf(ReadEntry(f, file).value.text), v) <= 0
    {
      var t := ReadEntry(f, file).value.text;
      TextsWellFormed(f, file);
      TextsWellFormed(e, file);
      if best.Some? && s != best.value {
        PrecedenceAntisymmetric(VersionOf(best.value.version), v);
        ParseExact(best.value.version, true, VersionOf(best.value.version));
        if f in entries { PrecedenceTransitive(VersionOf(t), VersionOf(best.value.version), v); }
      }
      if best.None? || s != best.value { PrecedenceZero(v, v); }
    }
    if best.Some? && s == best.value {
      var g :| g in entries && Candidate(g, file, sets, ltsOnly) && Selects(g, file, s);
      assert g in entries + [e];
    } else {
      assert Selects(e, file, s);
    }
  }

  lemma TextsWellFormed(e: Json, file: string)
    requires ReadEntry(e, file).Some?
    ensures Parse(ReadEntry(e, file).value.text, true).Some? && WellFormed(VersionOf(ReadEntry(e, file).value.text))
  {
    hide Parse, WellFormed, Print, Single, FilesValid, LtsValid, LtsName;
    var text := ReadEntry(e, file).value.text;
    ParseExact(text, true, VersionOf(text));
  }

  lemma BestWithOther(entries: seq<Json>, e: Json, file: string, sets: seq<seq<string>>, ltsOnly: bool, best: Option<Selection>)
    requires BestOf(entries, file, sets, ltsOnly, best) && !Candidate(e, file, sets, ltsOnly)
    ensures BestOf(entries + [e], file, sets, ltsOnly, best)
  {
    hide Candidate, Selects, Precedence;
    if best.Some? {
      var g :| g in entries && Candidate(g, file, sets, ltsOnly) && Selects(g, file, best.value);
      assert g in entries + [e];
    }
  }

  lemma BestParses(entries: seq<Json>, file: string, sets: seq<seq<string>>, ltsOnly: bool, best: Option<Selection>)
    requires BestOf(entries, file, sets, ltsOnly, best)
    ensures best.Some? ==> Parse(best.value.version, true).Some?
  {
  }

  /** Reads one entry; the checks run in the order of the C function. */
  method ReadCatalogEntry(entry: Json, file: string, seen: seq<string>)
    returns (ok: bool, text: string, lts: Option<string>, available: bool)
    ensures ok <==> ReadEntry(entry, file).Some? && ReadEntry(entry, file).value.text !in seen
    ensures ok ==> ReadEntry(entry, file).value == Release(text, lts, available)
  {
    hide Single, Parse, FilesValid;
    ok, text, lts, available := false, [], None, false;
    if !entry.JObject? {
      return;
    }
    var versionValue := GetSingleValue(entry.members, "version");
    var filesValue := GetSingleValue(entry.members, "files");
    var ltsValue := GetSingleValue(entry.members, "lts");
    if versionValue.None? || filesValue.None? || ltsValue.None?
       || !versionValue.value.JString? || !IsCString(versionValue.value.s) {
      return;
    }
    text := versionValue.value.s;
    var version := ParseVersion(text, true);
    if version.None? || version.value.prerelease != [] || text in seen {
      return;
    }
    if ltsValue.value.JString? && IsCString(ltsValue.value.s) && ltsValue.value.s != [] {
      lts := Some(ltsValue.value.s);
    } else if !ltsValue.value.JBool? || ltsValue.value.b {
      return;
    }
    ok, available := ValidateCatalogFiles(filesValue.value, file);
  }

  method ResolveNodeArtifact(entries: seq<Json>, file: string, sets: seq<seq<string>>, rangeSpecified: bool)
    returns (result: Option<Selection>)
    ensures Outcome(entries, file, sets, rangeSpecified, result)
    ensures result.Some? ==> Highest(entries, file, sets, result.value)
  {
    hide Highest, ReadEntry, Candidate, Greatest, Parse, Precedence, Matches;
    var seen: seq<string> := [];
    var bestAny, bestLts := None, None;
    for index := 0 to |entries|
      invariant |seen| == index
      invariant forall i | 0 <= i < index :: ReadEntry(entries[i], file).Some? && seen[i] == TextAt(entries, i, file)
      invariant forall i, j | 0 <= i < j < index :: TextAt(entries, i, file) != TextAt(entries, j, file)
      invariant BestOf(entries[..index], file, sets, false, bestAny)
      invariant BestOf(entries[..index], file, sets, true, bestLts)
    {
      var entry := entries[index];
      var ok, text, lts, available := ReadCatalogEntry(entry, file, seen);
      if !ok {
        RejectedEntry(entries, index, seen, file);
        return None;
      }
      ghost var before := entries[..index];
      assert entries[..index + 1] == before + [entry];
      seen := seen + [text];
      var met := false;
      if available {
        TextsWellFormed(entry, file);
        ParseExact(text, true, VersionOf(text));
        met := VersionSatisfiesRequirement(VersionOf(text), sets);
      }
      CandidateIs(entry, file, sets, Release(text, lts, available));
      BestParses(before, file, sets, false, bestAny);
      BestParses(before, file, sets, true, bestLts);
      if !met {
        BestWithOther(before, entry, file, sets, false, bestAny);
        BestWithOther(before, entry, file, sets, true, bestLts);
        continue;
      }
      TextsWellFormed(entry, file);
      var nextAny := UpdateReleaseSelection(bestAny, text, lts);
      BestWithCandidate(before, entry, file, sets, false, bestAny, nextAny);
      bestAny := nextAny;
      if lts.Some? {
        var nextLts := UpdateReleaseSelection(bestLts, text, lts);
        BestWithCandidate(before, entry, file, sets, true, bestLts, nextLts);
        bestLts := nextLts;
      } else {
        BestWithOther(before, entry, file, sets, true, bestLts);
      }
    }
    assert entries[..|entries|] == entries;
    BestExcludesNone(entries, file, sets, true, bestLts);
    BestExcludesNone(entries, file, sets, false, bestAny);
    result := bestLts;
    if result.None? && rangeSpecified {
      result := bestAny;
    }
    OutcomeIsHighest(entries, file, sets, rangeSpecified, result);
  }

  lemma CandidateIs(entry: Json, file: string, sets: seq<seq<string>>, r: Release)
    requires ReadEntry(entry, file) == Some(r)
    ensures Candidate(entry, file, sets, false) <==> r.available && Meets(VersionOf(r.text), sets)
    ensures Candidate(entry, file, sets, true) <==> r.available && Meets(VersionOf(r.text), sets) && r.lts.Some?
  {}

  lemma RejectedEntry(entries: seq<Json>, index: nat, seen: seq<string>, file: string)
    requires index < |entries| && |seen| == index
    requires forall i | 0 <= i < index :: ReadEntry(entries[i], file).Some? && seen[i] == TextAt(entries, i, file)
    requires ReadEntry(entries[index], file).None? || ReadEntry(entries[index], file).value.text in seen
    ensures !CatalogValid(entries, file)
  {
    hide ReadEntry;
    if ReadEntry(entries[index], file).Some? {
      var i :| 0 <= i < index && seen[i] == ReadEntry(entries[index], file).value.text;
      assert TextAt(entries, i, file) == TextAt(entries, index, file);
    }
  }

  lemma BestExcludesNone(entries: seq<Json>, file: string, sets: seq<seq<string>>, ltsOnly: bool, best: Option<Selection>)
    requires BestOf(entries, file, sets, ltsOnly, best)
    ensures best.Some? <==> !NoCandidate(entries, file, sets, ltsOnly)
  {
  }
}
