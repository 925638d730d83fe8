/**
 The launcher configuration file of builder/src/launcher_config.c: trimming in place,
 number and boolean parsing, reading an INI text over a mutable buffer, and writing it.
 */
module Ini {
  import opened Common
  import opened Text
  import opened TextLines
  import opened Decimal
  import opened Policies

  const DEFAULT_INTERVAL: uint64 := 604800
  const SECTION_SIZE: nat := 32

  datatype Config = Config(
    policy: string, hasPolicy: bool, exactVersion: string, hasExactVersion: bool,
    interval: uint64, cefLast: uint64, nodeLast: uint64, requested: bool, requestedAt: uint64)

  const DEFAULTS := Config("tested", false, "", false, DEFAULT_INTERVAL, 0, 0, false, 0)

  predicate IsValid(config: Config) {
    IsValidPolicy(config.policy) && (config.policy == "exact" ==> config.exactVersion != "")
  }

  // ------------------------------------------------------------------- trimming

  /** The C string at a position of a buffer. */
  ghost predicate Holds(buffer: array<char>, at: nat, text: string)
    reads buffer
  {
    && at + |text| < buffer.Length
    && buffer[at + |text|] == '\0'
    && forall i | at <= i < at + |text| :: buffer[i] == text[i - at] && buffer[i] != '\0'
  }

  method StringEnd(buffer: array<char>, from: nat, ghost text: string) returns (end: nat)
    requires Holds(buffer, from, text)
    ensures end == from + |text|
  {
    end := from;
    while buffer[end] != '\0'
      invariant from <= end <= from + |text|
      decreases from + |text| - end
    {
      end := end + 1;
    }
  }

  method SkipSpaces(buffer: array<char>, start: nat, ghost text: string) returns (from: nat)
    requires Holds(buffer, start, text)
    ensures from == start + |text| - |TrimLeft(text)| && Holds(buffer, from, TrimLeft(text))
  {
    hide TrimLeft;
    from := start;
    assert text[0..] == text;
    while IsSpace(buffer[from])
      invariant start <= from <= start + |text|
      invariant TrimLeft(text[from - start..]) == TrimLeft(text)
      decreases start + |text| - from
    {
      TrimLeftNext(text, from - start);
      from := from + 1;
    }
    SpaceEnds(text[from - start..]);
  }

  lemma TrimLeftNext(text: string, n: nat)
    requires n < |text| && IsSpace(text[n])
    ensures TrimLeft(text[n..]) == TrimLeft(text[n + 1..])
  {
  }

  lemma SpaceEnds(s: string)
    requires s == [] || !IsSpace(s[0])
    ensures TrimLeft(s) == s
  {
  }

  lemma TrimRightNext(text: string, n: nat)
    requires 0 < n <= |text| && IsSpace(text[n - 1])
    ensures TrimRight(text[..n]) == TrimRight(text[..n - 1])
  {
    assert text[..n][..n - 1] == text[..n - 1];
  }

  lemma SpaceStarts(s: string)
    requires s == [] || !IsSpace(s[|s| - 1])
    ensures TrimRight(s) == s
  {
  }

  method CutSpaces(buffer: array<char>, from: nat, ghost text: string)
    requires Holds(buffer, from, text)
    modifies buffer
    ensures Holds(buffer, from, TrimRight(text))
    ensures forall i | 0 <= i < buffer.Length && !(from <= i < from + |text|) :: buffer[i] == old(buffer[i])
  {
    hide TrimRight;
    var end := StringEnd(buffer, from, text);
    assert text[..end - from] == text;
    while end > from && IsSpace(buffer[end - 1])
      invariant from <= end <= from + |text|
      invariant TrimRight(text[..end - from]) == TrimRight(text)
      modifies {}
    {
      TrimRightNext(text, end - from);
      end := end - 1;
    }
    SpaceStarts(text[..end - from]);
    buffer[end] := '\0';
  }

  method TrimInPlace(buffer: array<char>, start: nat, ghost text: string) returns (from: nat)
    requires Holds(buffer, start, text)
    modifies buffer
    ensures start <= from && from + |Trim(text)| <= start + |text|
    ensures Holds(buffer, from, Trim(text))
    ensures forall i | 0 <= i < buffer.Length && !(start <= i < start + |text|) :: buffer[i] == old(buffer[i])
  {
    hide Holds;
    from := SkipSpaces(buffer, start, text);
    CutSpaces(buffer, from, TrimLeft(text));
  }

  // ------------------------------------------------------------------- values

  function ParseBool(value: string): Option<bool> {
    if value == "true" || value == "1" then Some(true)
    else if value == "false" || value == "0" then Some(false)
    else None
  }

  /** Exactly the digit strings whose value fits 64 bits. */
  function ParseUint64(value: string): Option<uint64> {
    if value != [] && AllDigits(value) && Decimal.Value(value) <= UINT64_MAX then Some(Decimal.Value(value)) else None
  }

  method ParseUint64Text(value: string) returns (result: Option<uint64>)
    ensures result == ParseUint64(value)
  {
    hide Decimal.Value;
    if value == [] {
      return None;
    }
    var parsed: uint64 := 0;
    NoDigits(value);
    for i := 0 to |value|
      invariant AllDigits(value[..i]) && parsed == Decimal.Value(value[..i])
    {
      if !IsDigit(value[i]) {
        return None;
      }
      NextDigit(value, i);
      var digit := DigitOf(value[i]);
      if parsed > (UINT64_MAX - digit) / 10 {
        if AllDigits(value) {
          ValueOfPrefix(value, i + 1);
        }
        return None;
      }
      parsed := parsed * 10 + digit;
    }
    assert value[..|value|] == value;
    return Some(parsed);
  }

  // ------------------------------------------------------- entries, lines and files

  /** What one key does to the configuration; unknown keys do nothing. */
  function Apply(config: Config, section: string, key: string, value: string): Option<Config> {
    if section == "cef" && key == "versionPolicy" then
      if IsValidPolicy(value) then Some(config.(policy := value, hasPolicy := true)) else None
    else if section == "cef" && key == "exactVersion" then
      Some(config.(exactVersion := value, hasExactVersion := true))
    else
      var number := ParseUint64(value);
      if section == "runtime" && key == "catalogRefreshIntervalSeconds" then
        if number.Some? then Some(config.(interval := number.value)) else None
      else if section == "cef" && key == "lastCatalogUpdateUnix" then
        if number.Some? then Some(config.(cefLast := number.value)) else None
      else if section == "node" && key == "lastCatalogUpdateUnix" then
        if number.Some? then Some(config.(nodeLast := number.value)) else None
      else if section == "update" && key == "requested" then
        if ParseBool(value).Some? then Some(config.(requested := ParseBool(value).value)) else None
      else if section == "update" && key == "requestedAtUnix" then
        if number.Some? then Some(config.(requestedAt := number.value)) else None
      else Some(config)
  }

  /** The configuration so far and the current section. */
  datatype State = State(config: Config, section: string)

  const START := State(DEFAULTS, "")

  /** The section buffer holds 31 characters. */
  function SectionName(name: string): string {
    if |name| < SECTION_SIZE then name else name[..SECTION_SIZE - 1]
  }

  predicate IsSectionLine(entry: string) {
    |entry| > 2 && entry[0] == '[' && entry[|entry| - 1] == ']'
  }

  predicate IsSkipped(entry: string) {
    entry == [] || entry[0] == '#' || entry[0] == ';'
  }

  function ApplyEntryText(state: State, entry: string): Option<State> {
    if IsSkipped(entry) then Some(state)
    else if IsSectionLine(entry) then Some(state.(section := SectionName(Trim(entry[1..|entry| - 1]))))
    else
      var equals := IndexOf(entry, '=');
      if equals == |entry| then Some(state)
      else
        match Apply(state.config, state.section, Trim(entry[..equals]), Trim(entry[equals + 1..]))
        case None => None
        case Some(config) => Some(state.(config := config))
  }

  function ApplyLine(state: State, line: string): Option<State> { ApplyEntryText(state, Trim(line)) }

  function ApplyLines(state: State, lines: seq<string>): Option<State>
    decreases |lines|
  {
    if lines == [] then Some(state)
    else
      match ApplyLine(state, lines[0])
      case None => None
      case Some(next) => ApplyLines(next, lines[1..])
  }

  function Finish(config: Config, defaultPolicy: Option<string>): Option<Config> {
    var done := if config.hasPolicy then config
                else config.(policy := if defaultPolicy.Some? then defaultPolicy.value else "tested");
    if IsValid(done) then Some(done) else None
  }

  /** The configuration a file holds. */
  function Read(content: string, defaultPolicy: Option<string>): Option<Config> {
    match ApplyLines(START, Lines(content))
    case None => None
    case Some(state) => Finish(state.config, defaultPolicy)
  }

  /** The mutable configuration. */
  class LauncherConfig {
    var value: Config

    constructor ()
      ensures value == DEFAULTS
    {
      value := DEFAULTS;
    }

    method ApplyEntry(section: string, key: string, text: string) returns (ok: bool)
      modifies this
      ensures match Apply(old(value), section, key, text) case Some(config) => ok && value == config case None => !ok
    {
      if section == "cef" && key == "versionPolicy" {
        if !IsValidPolicy(text) {
          return false;
        }
        value := value.(policy := text);
        value := value.(hasPolicy := true);
        return true;
      }
      if section == "cef" && key == "exactVersion" {
        value := value.(exactVersion := text);
        value := value.(hasExactVersion := true);
        return true;
      }
      var number := ParseUint64Text(text);
      if section == "runtime" && key == "catalogRefreshIntervalSeconds" {
        if number.Some? {
          value := value.(interval := number.value);
        }
        return number.Some?;
      }
      if section == "cef" && key == "lastCatalogUpdateUnix" {
        if number.Some? {
          value := value.(cefLast := number.value);
        }
        return number.Some?;
      }
      if section == "node" && key == "lastCatalogUpdateUnix" {
        if number.Some? {
          value := value.(nodeLast := number.value);
        }
        return number.Some?;
      }
      if section == "update" && key == "requested" {
        var flag := ParseBool(text);
        if flag.Some? {
          value := value.(requested := flag.value);
        }
        return flag.Some?;
      }
      if section == "update" && key == "requestedAtUnix" {
        if number.Some? {
          value := value.(requestedAt := number.value);
        }
        return number.Some?;
      }
      return true;
    }
  }

  method TextAt(buffer: array<char>, at: nat, ghost text: string) returns (read: string)
    requires Holds(buffer, at, text)
    ensures read == text
  {
    var end := StringEnd(buffer, at, text);
    read := buffer[at..end];
  }

  /** Finds a character of a C string. */
  method FindCharacter(buffer: array<char>, from: nat, c: char, ghost text: string) returns (at: nat)
    requires Holds(buffer, from, text) && c != '\0'
    ensures at == from + IndexOf(text, c)
    ensures at < from + |text| ==> buffer[at] == c
  {
    at := from;
    while buffer[at] != '\0' && buffer[at] != c
      invariant from <= at <= from + |text|
      invariant c !in text[..at - from]
      decreases from + |text| - at
    {
      assert text[..at + 1 - from] == text[..at - from] + [text[at - from]];
      at := at + 1;
    }
    IndexOfIs(text, c, at - from);
  }

  method SectionInPlace(buffer: array<char>, entry: nat, ghost text: string) returns (section: string)
    requires Holds(buffer, entry, text) && IsSectionLine(text)
    modifies buffer
    ensures section == SectionName(Trim(text[1..|text| - 1]))
    ensures forall i | 0 <= i < buffer.Length && !(entry <= i < entry + |text|) :: buffer[i] == old(buffer[i])
  {
    var end := StringEnd(buffer, entry, text);
    buffer[end - 1] := '\0';
    var name := TrimInPlace(buffer, entry + 1, text[1..|text| - 1]);
    section := TextAt(buffer, name, Trim(text[1..|text| - 1]));
    if |section| >= SECTION_SIZE {
      section := section[..SECTION_SIZE - 1];
    }
  }

  method KeyInPlace(buffer: array<char>, entry: nat, equals: nat, section: string, config: LauncherConfig, ghost text: string)
    returns (ok: bool)
    requires Holds(buffer, entry, text) && equals == entry + IndexOf(text, '=') < entry + |text|
    modifies buffer, config
    ensures match Apply(old(config.value), section, Trim(text[..equals - entry]), Trim(text[equals - entry + 1..]))
            case Some(c) => ok && config.value == c
            case None => !ok
    ensures forall i | 0 <= i < buffer.Length && !(entry <= i < entry + |text|) :: buffer[i] == old(buffer[i])
  {
    hide Trim, Apply;
    ghost var left, right := text[..equals - entry], text[equals - entry + 1..];
    buffer[equals] := '\0';
    assert Holds(buffer, equals + 1, right);
    var keyAt := TrimInPlace(buffer, entry, left);
    var key := TextAt(buffer, keyAt, Trim(left));
    var valueAt := TrimInPlace(buffer, equals + 1, right);
    var value := TextAt(buffer, valueAt, Trim(right));
    ok := config.ApplyEntry(section, key, value);
  }

  /** One line, edited in place. */
  method LineInPlace(buffer: array<char>, line: nat, section: string, config: LauncherConfig, ghost text: string)
    returns (ok: bool, next: string)
    requires Holds(buffer, line, text)
    modifies buffer, config
    ensures match ApplyLine(State(old(config.value), section), text)
            case Some(state) => ok && state == State(config.value, next)
            case None => !ok
    ensures forall i | 0 <= i < buffer.Length && !(line <= i < line + |text|) :: buffer[i] == old(buffer[i])
  {
    hide Trim, Apply, IndexOf;
    ok, next := true, section;
    var entry := TrimInPlace(buffer, line, text);
    ghost var t := Trim(text);
    if buffer[entry] == '\0' || buffer[entry] == '#' || buffer[entry] == ';' {
      return;
    }
    var end := StringEnd(buffer, entry, t);
    if buffer[entry] == '[' && end - entry > 2 && buffer[end - 1] == ']' {
      next := SectionInPlace(buffer, entry, t);
      return;
    }
    var equals := FindCharacter(buffer, entry, '=', t);
    if buffer[equals] == '\0' {
      return;
    }
    ok := KeyInPlace(buffer, entry, equals, section, config, t);
  }

  /** The end of the line that starts at the cursor. */
  method EndOfLine(buffer: array<char>, line: nat, ghost rest: string) returns (end: nat)
    requires Holds(buffer, line, rest)
    ensures end == line + LineEnd(rest)
  {
    end := line;
    while buffer[end] != '\0' && buffer[end] != '\n'
      invariant line <= end <= line + |rest|
      invariant '\n' !in rest[..end - line]
      decreases line + |rest| - end
    {
      assert rest[..end + 1 - line] == rest[..end - line] + [rest[end - line]];
      end := end + 1;
    }
    LineEndUnique(rest, end - line);
  }

  /** Ends the line in the buffer and gives the start of the next one. */
  method CutLine(buffer: array<char>, line: nat, ghost rest: string) returns (next: nat)
    requires Holds(buffer, line, rest)
    modifies buffer
    ensures next == line + if LineEnd(rest) < |rest| then LineEnd(rest) + 1 else |rest|
    ensures Holds(buffer, line, rest[..LineEnd(rest)]) && Holds(buffer, next, rest[next - line..])
    ensures line + LineEnd(rest) < next || next == line + |rest|
  {
    hide LineEnd;
    next := EndOfLine(buffer, line, rest);
    if buffer[next] == '\n' {
      buffer[next] := '\0';
      next := next + 1;
    }
  }

  lemma LineEndUnique(s: string, n: nat)
    requires n <= |s| && '\n' !in s[..n] && (n < |s| ==> s[n] == '\n')
    ensures LineEnd(s) == n
  {
  }

  method ReadContent(buffer: array<char>, defaultPolicy: Option<string>, ghost content: string) returns (result: Option<Config>)
    requires Holds(buffer, 0, content)
    modifies buffer
    ensures result == Read(content, defaultPolicy)
  {
    hide Lines, LineEnd, ApplyLine, Apply, Trim, IndexOf, ParseUint64, IsValidPolicy;
    var config := new LauncherConfig();
    var section, cursor := "", 0;
    assert content[0..] == content;
    while buffer[cursor] != '\0'
      invariant cursor <= |content| && Holds(buffer, cursor, content[cursor..])
      invariant fresh(config)
      invariant ApplyLines(State(config.value, section), Lines(content[cursor..])) == ApplyLines(START, Lines(content))
      decreases |content| - cursor
    {
      var line := cursor;
      ghost var rest := content[line..];
      ghost var text := rest[..LineEnd(rest)];
      LinesStep(rest);
      NoMoreLines(rest);
      cursor := CutLine(buffer, line, rest);
      assert content[cursor..] == rest[cursor - line..];
      ApplyFirst(State(config.value, section), text, Lines(content[cursor..]));
      var ok;
      ok, section := LineInPlace(buffer, line, section, config, text);
      if !ok {
        return None;
      }
    }
    assert content[cursor..] == content[|content|..];
    NoMoreLines(content);
    var done := config.value;
    if !done.hasPolicy {
      done := done.(policy := if defaultPolicy.Some? then defaultPolicy.value else "tested");
    }
    return if IsValid(done) then Some(done) else None;
  }

  lemma ApplyFirst(state: State, line: string, rest: seq<string>)
    ensures ApplyLines(state, [line] + rest) == match ApplyLine(state, line) case None => None case Some(next) => ApplyLines(next, rest)
  {
  }

  /** A configuration file: one that exists may still fail to be read. */
  datatype Stored = Missing | Unreadable | Stored(text: string)

  /** With no file, the defaults and the embedded policy. */
  function ReadStored(file: Stored, defaultPolicy: Option<string>): Option<Config> {
    match file
    case Missing => Finish(DEFAULTS, defaultPolicy)
    case Unreadable => None
    case Stored(text) => Read(CText(text), defaultPolicy)
  }

  method ReadWithDefault(file: Stored, defaultPolicy: Option<string>) returns (result: Option<Config>)
    ensures result == ReadStored(file, defaultPolicy)
  {
    if file.Missing? {
      return Finish(DEFAULTS, defaultPolicy);
    }
    if file.Unreadable? {
      return None;
    }
    var text := file.text;
    var buffer := new char[|text| + 1](i requires 0 <= i <= |text| => if i < |text| then text[i] else '\0');
    CTextIs(text);
    result := ReadContent(buffer, defaultPolicy, CText(text));
  }

  // ----------------------------------------------------------------- writing

  function Flag(b: bool): string { if b then "true" else "false" }

  function Pair(key: string, value: string): string { key + "=" + value }

  function Heading(name: string): string { "[" + name + "]" }

  function WrittenLines(config: Config): seq<string> {
    [Heading("runtime"), Pair("catalogRefreshIntervalSeconds", Numeral(config.interval)), "", Heading("cef")]
    + (if config.hasPolicy then [Pair("versionPolicy", config.policy)] else [])
    + (if config.hasExactVersion then [Pair("exactVersion", config.exactVersion)] else [])
    + [Pair("lastCatalogUpdateUnix", Numeral(config.cefLast)), "", Heading("node"),
              Pair("lastCatalogUpdateUnix", Numeral(config.nodeLast))]
    + ["", Heading("update"), Pair("requested", Flag(config.requested)), Pair("requestedAtUnix", Numeral(config.requestedAt))]
  }

  function Written(config: Config): string { WithEnds(WrittenLines(config)) }

  /** The text to be stored, if the configuration is valid. */
  method WriteContent(config: Config) returns (content: Option<string>)
    ensures content == if IsValid(config) then Some(Written(config)) else None
  {
    hide Numeral, Written, FourLines;
    if !IsValid(config) {
      return None;
    }
    var text := FourLines(Heading("runtime"), Pair("catalogRefreshIntervalSeconds", Numeral(config.interval)), "", Heading("cef"));
    assert text + [] == text;
    if config.hasPolicy {
      text := text + (Pair("versionPolicy", config.policy) + "\n");
    }
    assert text + [] == text;
    if config.hasExactVersion {
      text := text + (Pair("exactVersion", config.exactVersion) + "\n");
    }
    text := text + FourLines(Pair("lastCatalogUpdateUnix", Numeral(config.cefLast)), "", Heading("node"),
              Pair("lastCatalogUpdateUnix", Numeral(config.nodeLast)));
    text := text + FourLines("", Heading("update"), Pair("requested", Flag(config.requested)),
              Pair("requestedAtUnix", Numeral(config.requestedAt)));
    WrittenIs(config);
    return Some(text);
  }

  function FourLines(a: string, b: string, c: string, d: string): string {
    (a + "\n") + (b + "\n") + (c + "\n") + (d + "\n")
  }

  lemma EndsOfFour(a: string, b: string, c: string, d: string)
    ensures WithEnds([a, b, c, d]) == FourLines(a, b, c, d)
  {
    hide WithEnds;
    EndsOfOne(a);
    EndsOfOne(b);
    EndsOfOne(c);
    EndsOfOne(d);
    EndsAppend([a], [b]);
    EndsAppend([a] + [b], [c]);
    EndsAppend([a] + [b] + [c], [d]);
    assert [a, b, c, d] == [a] + [b] + [c] + [d];
  }

  lemma WrittenIs(config: Config)
    ensures Written(config)
         == FourLines(Heading("runtime"), Pair("catalogRefreshIntervalSeconds", Numeral(config.interval)), "", Heading("cef"))
            + (if config.hasPolicy then Pair("versionPolicy", config.policy) + "\n" else [])
            + (if config.hasExactVersion then Pair("exactVersion", config.exactVersion) + "\n" else [])
            + FourLines(Pair("lastCatalogUpdateUnix", Numeral(config.cefLast)), "", Heading("node"),
              Pair("lastCatalogUpdateUnix", Numeral(config.nodeLast)))
            + FourLines("", Heading("update"), Pair("requested", Flag(config.requested)),
                        Pair("requestedAtUnix", Numeral(config.requestedAt)))
  {
    hide Numeral, Flag, WithEnds, FourLines;
    var (interval, cef, node) := (Pair("catalogRefreshIntervalSeconds", Numeral(config.interval)),
      Pair("lastCatalogUpdateUnix", Numeral(config.cefLast)), Pair("lastCatalogUpdateUnix", Numeral(config.nodeLast)));
    var (flag, at) := (Pair("requested", Flag(config.requested)), Pair("requestedAtUnix", Numeral(config.requestedAt)));
    var a := [Heading("runtime"), interval, "", Heading("cef")];
    var b := if config.hasPolicy then [Pair("versionPolicy", config.policy)] else [];
    var c := if config.hasExactVersion then [Pair("exactVersion", config.exactVersion)] else [];
    EndsOfFour(Heading("runtime"), interval, "", Heading("cef"));
    EndsOfFour(cef, "", Heading("node"), node);
    EndsOfFour("", Heading("update"), flag, at);
    EndsOfOne(Pair("versionPolicy", config.policy));
    EndsOfOne(Pair("exactVersion", config.exactVersion));
    assert WithEnds([]) == [] by { NoLines([a[0]]); assert [a[0]][..0] == []; }
    EndsAppend(a, b);
    EndsAppend(a + b, c);
    EndsAppend(a + b + c, [cef, "", Heading("node"), node]);
    EndsAppend(a + b + c + [cef, "", Heading("node"), node], ["", Heading("update"), flag, at]);
  }

  // ------------------------------------------------------------- the round trip

  lemma {:induction false} ApplyAppend(state: State, a: seq<string>, b: seq<string>)
    ensures ApplyLines(state, a + b) == match ApplyLines(state, a) case None => None case Some(next) => ApplyLines(next, b)
    decreases |a|
  {
    hide ApplyLine;
    if a == [] {
      assert a + b == b;
    } else {
      assert (a + b)[0] == a[0] && (a + b)[1..] == a[1..] + b;
      if ApplyLine(state, a[0]).Some? {
        ApplyAppend(ApplyLine(state, a[0]).value, a[1..], b);
      }
    }
  }

  predicate IsKey(key: string) {
    key != [] && Trimmed(key) && '=' !in key && key[0] != '#' && key[0] != ';' && key[0] != '['
  }

  lemma KeyLine(state: State, key: string, value: string)
    requires IsKey(key) && Trimmed(value)
    ensures ApplyLine(state, Pair(key, value))
         == match Apply(state.config, state.section, key, value) case None => None case Some(config) => Some(state.(config := config))
  {
    hide Trim, Apply, IndexOf;
    var line := Pair(key, value);
    assert line[0] == key[0];
    assert line[|line| - 1] == if value == [] then '=' else value[|value| - 1];
    TrimIs(line);
    assert line[..|key|] == key && line[|key| + 1..] == value;
    IndexOfIs(line, '=', |key|);
    TrimIs(key);
    TrimIs(value);
  }

  lemma SectionLine(state: State, name: string)
    requires name != [] && Trimmed(name) && |name| < SECTION_SIZE
    ensures ApplyLine(state, Heading(name)) == Some(state.(section := name))
  {
  }

  lemma EmptyLine(state: State)
    ensures ApplyLine(state, "") == Some(state)
  {
  }

  lemma NumeralReads(n: uint64)
    ensures Trimmed(Numeral(n)) && '\n' !in Numeral(n) && ParseUint64(Numeral(n)) == Some(n)
  {
    hide Numeral;
    ValueOfNumeral(n);
    var s := Numeral(n);
    assert IsDigit(s[0]) && IsDigit(s[|s| - 1]);
  }

  lemma FlagReads(b: bool)
    ensures Trimmed(Flag(b)) && '\n' !in Flag(b) && ParseBool(Flag(b)) == Some(b)
  {
  }

  lemma KeysAreKeys()
    ensures IsKey("catalogRefreshIntervalSeconds") && IsKey("versionPolicy") && IsKey("exactVersion")
    ensures IsKey("lastCatalogUpdateUnix") && IsKey("requested") && IsKey("requestedAtUnix")
  {
    hide IsKey;
    IntervalIsKey();
    CefKeysAreKeys();
    StampIsKey();
    UpdateKeysAreKeys();
  }

  lemma IntervalIsKey()
    ensures IsKey("catalogRefreshIntervalSeconds")
  {
  }

  lemma CefKeysAreKeys()
    ensures IsKey("versionPolicy") && IsKey("exactVersion")
  {
  }

  lemma StampIsKey()
    ensures IsKey("lastCatalogUpdateUnix")
  {
  }

  lemma UpdateKeysAreKeys()
    ensures IsKey("requested") && IsKey("requestedAtUnix")
  {
  }

  lemma FourApply(s0: State, s1: State, s2: State, s3: State, s4: State, a: string, b: string, c: string, d: string)
    requires ApplyLine(s0, a) == Some(s1) && ApplyLine(s1, b) == Some(s2) && ApplyLine(s2, c) == Some(s3) && ApplyLine(s3, d) == Some(s4)
    ensures ApplyLines(s0, [a, b, c, d]) == Some(s4)
  {
    hide ApplyLine;
    var (bcd, cd) := ([b, c, d], [c, d]);
    assert [a, b, c, d][1..] == bcd && bcd[1..] == cd && cd[1..] == [d] && [d][1..] == [];
    assert ApplyLines(s4, []) == Some(s4);
    assert ApplyLines(s3, [d]) == Some(s4);
    assert ApplyLines(s2, cd) == Some(s4);
    assert ApplyLines(s1, bcd) == Some(s4);
  }

  lemma OneApplies(s0: State, s1: State, a: string)
    requires ApplyLine(s0, a) == Some(s1)
    ensures ApplyLines(s0, [a]) == Some(s1)
  {
  }

  /** The configuration before the default policy is filled in. */
  function Base(config: Config): Config {
    config.(policy := if config.hasPolicy then config.policy else "tested",
            exactVersion := if config.hasExactVersion then config.exactVersion else "")
  }

  function AfterInterval(config: Config): Config { DEFAULTS.(interval := config.interval) }

  function AfterPolicy(config: Config): Config {
    if config.hasPolicy then AfterInterval(config).(policy := config.policy, hasPolicy := true) else AfterInterval(config)
  }

  function AfterExact(config: Config): Config {
    if config.hasExactVersion
    then AfterPolicy(config).(exactVersion := config.exactVersion, hasExactVersion := true)
    else AfterPolicy(config)
  }

  function AfterStamps(config: Config): Config { AfterExact(config).(cefLast := config.cefLast, nodeLast := config.nodeLast) }

  lemma RuntimeLines(config: Config)
    ensures ApplyLines(START, [Heading("runtime"), Pair("catalogRefreshIntervalSeconds", Numeral(config.interval)), "", Heading("cef")])
         == Some(State(AfterInterval(config), "cef"))
  {
    hide ApplyLine, Numeral, ParseUint64, Pair, Heading;
    var s1 := State(DEFAULTS, "runtime");
    var s2 := State(AfterInterval(config), "runtime");
    KeysAreKeys();
    NumeralReads(config.interval);
    SectionLine(START, "runtime");
    KeyLine(s1, "catalogRefreshIntervalSeconds", Numeral(config.interval));
    EmptyLine(s2);
    SectionLine(s2, "cef");
    FourApply(START, s1, s2, s2, State(AfterInterval(config), "cef"),
              Heading("runtime"), Pair("catalogRefreshIntervalSeconds", Numeral(config.interval)), "", Heading("cef"));
  }

  lemma PolicyLine(config: Config)
    requires config.hasPolicy ==> IsValidPolicy(config.policy)
    ensures ApplyLines(State(AfterInterval(config), "cef"), if config.hasPolicy then [Pair("versionPolicy", config.policy)] else [])
         == Some(State(AfterPolicy(config), "cef"))
  {
    hide ApplyLine, Pair;
    if config.hasPolicy {
      KeysAreKeys();
      KeyLine(State(AfterInterval(config), "cef"), "versionPolicy", config.policy);
      OneApplies(State(AfterInterval(config), "cef"), State(AfterPolicy(config), "cef"), Pair("versionPolicy", config.policy));
    }
  }

  lemma ExactLine(config: Config)
    requires config.hasExactVersion ==> Trimmed(config.exactVersion)
    ensures ApplyLines(State(AfterPolicy(config), "cef"),
                       if config.hasExactVersion then [Pair("exactVersion", config.exactVersion)] else [])
         == Some(State(AfterExact(config), "cef"))
  {
    hide ApplyLine, Pair;
    if config.hasExactVersion {
      KeysAreKeys();
      KeyLine(State(AfterPolicy(config), "cef"), "exactVersion", config.exactVersion);
      OneApplies(State(AfterPolicy(config), "cef"), State(AfterExact(config), "cef"), Pair("exactVersion", config.exactVersion));
    }
  }

  lemma StampLines(config: Config)
    ensures ApplyLines(State(AfterExact(config), "cef"),
              [Pair("lastCatalogUpdateUnix", Numeral(config.cefLast)), "", Heading("node"),
              Pair("lastCatalogUpdateUnix", Numeral(config.nodeLast))])
         == Some(State(AfterStamps(config), "node"))
  {
    hide ApplyLine, Numeral, ParseUint64, Pair, Heading;
    var s0 := State(AfterExact(config), "cef");
    var s1 := State(s0.config.(cefLast := config.cefLast), "cef");
    var s3 := State(s1.config, "node");
    KeysAreKeys();
    NumeralReads(config.cefLast);
    NumeralReads(config.nodeLast);
    KeyLine(s0, "lastCatalogUpdateUnix", Numeral(config.cefLast));
    EmptyLine(s1);
    SectionLine(s1, "node");
    KeyLine(s3, "lastCatalogUpdateUnix", Numeral(config.nodeLast));
    FourApply(s0, s1, s1, s3, State(AfterStamps(config), "node"), Pair("lastCatalogUpdateUnix", Numeral(config.cefLast)), "",
              Heading("node"),
              Pair("lastCatalogUpdateUnix", Numeral(config.nodeLast)));
  }

  lemma UpdateLines(config: Config)
    ensures ApplyLines(State(AfterStamps(config), "node"),
              ["", Heading("update"), Pair("requested", Flag(config.requested)), Pair("requestedAtUnix", Numeral(config.requestedAt))])
         == Some(State(Base(config), "update"))
  {
    hide ApplyLine, Numeral, ParseUint64, Flag, Pair, Heading;
    var s0 := State(AfterStamps(config), "node");
    var s2 := State(AfterStamps(config), "update");
    var s3 := State(s2.config.(requested := config.requested), "update");
    KeysAreKeys();
    NumeralReads(config.requestedAt);
    FlagReads(config.requested);
    EmptyLine(s0);
    SectionLine(s0, "update");
    KeyLine(s2, "requested", Flag(config.requested));
    KeyLine(s3, "requestedAtUnix", Numeral(config.requestedAt));
    FourApply(s0, s0, s2, s3, State(Base(config), "update"), "", Heading("update"), Pair("requested", Flag(config.requested)),
              Pair("requestedAtUnix", Numeral(config.requestedAt)));
  }

  /** What reading the written lines gives. */
  lemma WrittenLinesApply(config: Config)
    requires config.hasPolicy ==> IsValidPolicy(config.policy)
    requires config.hasExactVersion ==> Trimmed(config.exactVersion)
    ensures ApplyLines(START, WrittenLines(config)) == Some(State(Base(config), "update"))
  {
    hide ApplyLines, Pair, Heading;
    RuntimeLines(config);
    PolicyLine(config);
    ExactLine(config);
    StampLines(config);
    UpdateLines(config);
    var a := [Heading("runtime"), Pair("catalogRefreshIntervalSeconds", Numeral(config.interval)), "", Heading("cef")];
    var b := if config.hasPolicy then [Pair("versionPolicy", config.policy)] else [];
    var c := if config.hasExactVersion then [Pair("exactVersion", config.exactVersion)] else [];
    var d := [Pair("lastCatalogUpdateUnix", Numeral(config.cefLast)), "", Heading("node"),
              Pair("lastCatalogUpdateUnix", Numeral(config.nodeLast))];
    var e := ["", Heading("update"), Pair("requested", Flag(config.requested)), Pair("requestedAtUnix", Numeral(config.requestedAt))];
    ApplyAppend(START, a, b);
    ApplyAppend(START, a + b, c);
    ApplyAppend(START, a + b + c, d);
    ApplyAppend(START, a + b + c + d, e);
  }

  /** The characters that would end a line or a text early. */
  predicate Ends(c: char) { c == '\n' || c == '\0' }

  predicate Lacks(line: string, c: char) { c !in line }

  lemma PairLacks(key: string, value: string, c: char)
    requires Lacks(key, c) && Lacks(value, c) && Ends(c)
    ensures Lacks(Pair(key, value), c)
  {
  }

  lemma NamesLack(c: char)
    requires Ends(c)
    ensures Lacks("", c) && Lacks("runtime", c) && Lacks("cef", c) && Lacks("node", c) && Lacks("update", c)
    ensures Lacks("versionPolicy", c) && Lacks("exactVersion", c) && Lacks("requested", c) && Lacks("requestedAtUnix", c)
    ensures Lacks("catalogRefreshIntervalSeconds", c) && Lacks("lastCatalogUpdateUnix", c)
  {
    if c == '\n' {
      NamesLackLineEnd();
    } else {
      NamesLackNull();
    }
  }

  lemma NamesLackLineEnd()
    ensures Lacks("", '\n') && Lacks("runtime", '\n') && Lacks("cef", '\n') && Lacks("node", '\n') && Lacks("update", '\n')
    ensures Lacks("versionPolicy", '\n') && Lacks("exactVersion", '\n') && Lacks("requested", '\n') && Lacks("requestedAtUnix", '\n')
    ensures Lacks("catalogRefreshIntervalSeconds", '\n') && Lacks("lastCatalogUpdateUnix", '\n')
  {
  }

  lemma NamesLackNull()
    ensures Lacks("", '\0') && Lacks("runtime", '\0') && Lacks("cef", '\0') && Lacks("node", '\0') && Lacks("update", '\0')
    ensures Lacks("versionPolicy", '\0') && Lacks("exactVersion", '\0') && Lacks("requested", '\0') && Lacks("requestedAtUnix", '\0')
    ensures Lacks("catalogRefreshIntervalSeconds", '\0') && Lacks("lastCatalogUpdateUnix", '\0')
  {
  }

  lemma NumeralLacks(n: uint64, c: char)
    requires Ends(c)
    ensures Lacks(Numeral(n), c)
  {
  }

  lemma FlagLacks(b: bool, c: char)
    requires Ends(c)
    ensures Lacks(Flag(b), c)
  {
  }

  lemma PolicyLacks(policy: string, c: char)
    requires IsValidPolicy(policy) && Ends(c)
    ensures Lacks(policy, c)
  {
  }

  lemma ExactLacks(config: Config, c: char)
    requires config.hasExactVersion ==> c !in config.exactVersion
    ensures config.hasExactVersion ==> Lacks(config.exactVersion, c)
  {
  }

  lemma HeadingLacks(name: string, c: char)
    requires Lacks(name, c) && Ends(c)
    ensures Lacks(Heading(name), c)
  {
  }

  predicate AllLack(lines: seq<string>, c: char) { forall line | line in lines :: Lacks(line, c) }

  lemma AppendLacks(a: seq<string>, b: seq<string>, c: char)
    requires AllLack(a, c) && AllLack(b, c)
    ensures AllLack(a + b, c)
  {
  }

  lemma FourLack(p: string, q: string, r: string, s: string, c: char)
    requires Lacks(p, c) && Lacks(q, c) && Lacks(r, c) && Lacks(s, c)
    ensures AllLack([p, q, r, s], c)
  {
  }

  lemma WrittenLinesLack(config: Config, c: char)
    requires Ends(c) && (config.hasPolicy ==> IsValidPolicy(config.policy)) && (config.hasExactVersion ==> c !in config.exactVersion)
    ensures AllLack(WrittenLines(config), c)
  {
    hide Numeral, Flag, Pair, Heading, Lacks, AllLack, IsValidPolicy;
    NamesLack(c);
    NumeralLacks(config.interval, c);
    NumeralLacks(config.cefLast, c);
    NumeralLacks(config.nodeLast, c);
    NumeralLacks(config.requestedAt, c);
    FlagLacks(config.requested, c);
    if config.hasPolicy {
      PolicyLacks(config.policy, c);
    }
    assert config.hasExactVersion ==> Lacks(config.exactVersion, c) by { ExactLacks(config, c); }
    HeadingLacks("runtime", c);
    HeadingLacks("cef", c);
    HeadingLacks("node", c);
    HeadingLacks("update", c);
    PairLacks("catalogRefreshIntervalSeconds", Numeral(config.interval), c);
    PairLacks("lastCatalogUpdateUnix", Numeral(config.cefLast), c);
    PairLacks("lastCatalogUpdateUnix", Numeral(config.nodeLast), c);
    PairLacks("requested", Flag(config.requested), c);
    PairLacks("requestedAtUnix", Numeral(config.requestedAt), c);
    var a := [Heading("runtime"), Pair("catalogRefreshIntervalSeconds", Numeral(config.interval)), "", Heading("cef")];
    var b := if config.hasPolicy then [Pair("versionPolicy", config.policy)] else [];
    var x := if config.hasExactVersion then [Pair("exactVersion", config.exactVersion)] else [];
    var d := [Pair("lastCatalogUpdateUnix", Numeral(config.cefLast)), "", Heading("node"),
              Pair("lastCatalogUpdateUnix", Numeral(config.nodeLast))];
    var e := ["", Heading("update"), Pair("requested", Flag(config.requested)), Pair("requestedAtUnix", Numeral(config.requestedAt))];
    FourLack(a[0], a[1], a[2], a[3], c);
    OptionalLacks(config.hasPolicy, "versionPolicy", config.policy, c);
    OptionalLacks(config.hasExactVersion, "exactVersion", config.exactVersion, c);
    FourLack(d[0], d[1], d[2], d[3], c);
    FourLack(e[0], e[1], e[2], e[3], c);
    AppendLacks(a, b, c);
    AppendLacks(a + b, x, c);
    AppendLacks(a + b + x, d, c);
    AppendLacks(a + b + x + d, e, c);
  }

  lemma OptionalLacks(present: bool, key: string, value: string, c: char)
    requires Ends(c) && (present ==> Lacks(key, c) && Lacks(value, c))
    ensures AllLack(if present then [Pair(key, value)] else [], c)
  {
  }

  /** What a caller can check before writing: the exact version survives, and what is not written is at its default. */
  predicate Storable(config: Config, defaultPolicy: Option<string>) {
    && (if config.hasExactVersion then Trimmed(config.exactVersion) && '\n' !in config.exactVersion else config.exactVersion == "")
    && (!config.hasPolicy ==> config.policy == if defaultPolicy.Some? then defaultPolicy.value else "tested")
  }

  /** What every reading leaves in the configuration. */
  predicate FromFile(config: Config) {
    && (if config.hasExactVersion then Trimmed(config.exactVersion) && '\n' !in config.exactVersion else config.exactVersion == "")
    && (!config.hasPolicy ==> config.policy == "tested")
  }

  /** An entry may set the exact version to its value and the policy to one of its own, and changes neither otherwise. */
  lemma ApplyChanges(config: Config, section: string, key: string, value: string)
    requires Apply(config, section, key, value).Some?
    ensures
      var next := Apply(config, section, key, value).value;
      && ((next.exactVersion == config.exactVersion && next.hasExactVersion == config.hasExactVersion)
          || (next.exactVersion == value && next.hasExactVersion))
      && ((next.policy == config.policy && next.hasPolicy == config.hasPolicy) || next.hasPolicy)
  {
    hide ParseUint64, ParseBool, IsValidPolicy;
  }

  lemma LineKeepsFromFile(state: State, line: string)
    requires FromFile(state.config) && '\n' !in line && ApplyLine(state, line).Some?
    ensures FromFile(ApplyLine(state, line).value.config)
  {
    hide Trim, IndexOf, Apply, Trimmed;
    TrimIs(line);
    var entry, equals := Trim(line), IndexOf(Trim(line), '=');
    assert '\n' !in entry;
    if !IsSkipped(entry) && !IsSectionLine(entry) && equals < |entry| {
      TrimIs(entry[equals + 1..]);
      ApplyChanges(state.config, state.section, Trim(entry[..equals]), Trim(entry[equals + 1..]));
    }
  }

  lemma {:induction false} LinesKeepFromFile(state: State, lines: seq<string>)
    requires FromFile(state.config) && (forall line | line in lines :: '\n' !in line) && ApplyLines(state, lines).Some?
    ensures FromFile(ApplyLines(state, lines).value.config)
    decreases |lines|
  {
    hide ApplyLine, FromFile;
    if lines != [] {
      LineKeepsFromFile(state, lines[0]);
      LinesKeepFromFile(ApplyLine(state, lines[0]).value, lines[1..]);
    }
  }

  /**
   A valid configuration is read back from the text written for it, with the same default
   policy, exactly when it is storable.
   */
  lemma RoundTrip(config: Config, defaultPolicy: Option<string>)
    requires IsValid(config)
    ensures Read(Written(config), defaultPolicy) == Some(config) <==> Storable(config, defaultPolicy)
  {
    hide WrittenLines, ApplyLines, Lines;
    if Storable(config, defaultPolicy) {
      WrittenLinesLack(config, '\n');
      LinesOf(WrittenLines(config));
      WrittenLinesApply(config);
    }
    if Read(Written(config), defaultPolicy).Some? {
      LinesKeepFromFile(START, Lines(Written(config)));
    }
  }

  /** Whatever is read can be stored. */
  lemma ReadIsStorable(content: string, defaultPolicy: Option<string>)
    requires Read(content, defaultPolicy).Some? && '\0' !in content
    ensures
      var config := Read(content, defaultPolicy).value;
      IsValid(config) && Storable(config, defaultPolicy) && '\0' !in config.exactVersion
  {
    hide ApplyLines, Lines;
    LinesLack(content, '\0');
    LinesKeepFromFile(START, Lines(content));
    LinesKeepOut(START, Lines(content), '\0');
  }

  lemma {:induction false} LinesLack(content: string, c: char)
    requires c !in content
    ensures AllLack(Lines(content), c)
    decreases |content|
  {
    hide LineEnd, Lines;
    if content == [] {
      NoMoreLines(content);
    } else {
      LinesStep(content);
      var end := LineEnd(content);
      if end < |content| {
        LinesLack(content[end + 1..], c);
      }
    }
  }

  lemma LineKeepsOut(state: State, line: string, c: char)
    requires c !in state.config.exactVersion && Lacks(line, c) && ApplyLine(state, line).Some?
    ensures c !in ApplyLine(state, line).value.config.exactVersion
  {
    hide Trim, IndexOf, Apply;
    TrimIs(line);
    var entry, equals := Trim(line), IndexOf(Trim(line), '=');
    if !IsSkipped(entry) && !IsSectionLine(entry) && equals < |entry| {
      TrimIs(entry[equals + 1..]);
      ApplyChanges(state.config, state.section, Trim(entry[..equals]), Trim(entry[equals + 1..]));
    }
  }

  lemma {:induction false} LinesKeepOut(state: State, lines: seq<string>, c: char)
    requires c !in state.config.exactVersion && AllLack(lines, c) && ApplyLines(state, lines).Some?
    ensures c !in ApplyLines(state, lines).value.config.exactVersion
    decreases |lines|
  {
    hide ApplyLine, Lacks;
    if lines != [] {
      LineKeepsOut(state, lines[0], c);
      LinesKeepOut(ApplyLine(state, lines[0]).value, lines[1..], c);
    }
  }

  lemma {:induction false} WithEndsLacks(lines: seq<string>, c: char)
    requires AllLack(lines, c) && c != '\n'
    ensures c !in WithEnds(lines)
  {
    if lines != [] {
      var last := lines[|lines| - 1];
      WithEndsLacks(lines[..|lines| - 1], c);
      assert Lacks(last, c);
      assert c !in last + "\n";
    }
  }

  /** A configuration that came from a file is read back from the file written for it. */
  lemma StoredRoundTrip(config: Config, defaultPolicy: Option<string>)
    requires IsValid(config) && Storable(config, defaultPolicy) && '\0' !in config.exactVersion
    ensures ReadStored(Stored(Written(config)), defaultPolicy) == Some(config)
  {
    hide WrittenLines, Read;
    WrittenLinesLack(config, '\0');
    WithEndsLacks(WrittenLines(config), '\0');
    CTextWhole(Written(config));
    RoundTrip(config, defaultPolicy);
  }
}
