/**
 What a launcher configuration file says, by the places of its lines: each known key has the
 value of the last line that sets it in its section, and one bad value spoils the file.
 */
module IniMeaning {
  import opened Common
  import opened Text
  import opened TextLines
  import opened Policies
  import opened Ini

  // ------------------------------------------------------------ what a line is

  predicate IsHeading(line: string) {
    var t := Trim(line);
    |t| >= 3 && t[0] == '[' && t[|t| - 1] == ']'
  }

  /** The line opens the section: its name is what the brackets hold, trimmed, as far as 31 characters. */
  predicate Heads(line: string, section: string) {
    IsHeading(line)
    && var name := Trim(Trim(line)[1..|Trim(line)| - 1]);
       section == if |name| <= 31 then name else name[..31]
  }

  /** The line is neither a comment nor a heading, and its first equals sign parts key and value. */
  predicate Assigns(line: string, key: string, value: string) {
    var t := Trim(line);
    && t != [] && t[0] != '#' && t[0] != ';' && !IsHeading(line)
    && exists e | 0 <= e < |t| :: PartsAt(t, e, key, value)
  }

  predicate PartsAt(t: string, e: int, key: string, value: string) {
    0 <= e < |t| && t[e] == '=' && '=' !in t[..e] && Trim(t[..e]) == key && Trim(t[e + 1..]) == value
  }

  /** Before line j the last heading, if any, opened the section. */
  predicate Within(lines: seq<string>, j: int, section: string)
    requires 0 <= j <= |lines|
  {
    || (exists i | 0 <= i < j :: Heads(lines[i], section) && NoHeading(lines, i + 1, j))
    || (section == "" && NoHeading(lines, 0, j))
  }

  predicate NoHeading(lines: seq<string>, from: int, to: int)
    requires 0 <= from <= to <= |lines|
  {
    forall k | from <= k < to :: !IsHeading(lines[k])
  }

  /** Line j sets the key of the section to the value. */
  predicate SetAt(lines: seq<string>, j: int, section: string, key: string, value: string) {
    0 <= j < |lines| && Within(lines, j, section) && Assigns(lines[j], key, value)
  }

  /** The last line that sets the key gives it the value. */
  ghost predicate Last(lines: seq<string>, section: string, key: string, value: string) {
    exists j :: SetAt(lines, j, section, key, value) && NotAfter(lines, j, section, key)
  }

  ghost predicate NotAfter(lines: seq<string>, j: int, section: string, key: string) {
    forall k, v | j < k :: !SetAt(lines, k, section, key, v)
  }

  ghost predicate Never(lines: seq<string>, section: string, key: string) {
    forall k, v :: !SetAt(lines, k, section, key, v)
  }

  // ------------------------------------------------------ what a setting means

  datatype Key = Policy | ExactVersion | Interval | CefStamp | NodeStamp | Requested | RequestedAt | Unknown

  function KeyOf(section: string, key: string): Key {
    if section == "cef" && key == "versionPolicy" then Policy
    else if section == "cef" && key == "exactVersion" then ExactVersion
    else if section == "runtime" && key == "catalogRefreshIntervalSeconds" then Interval
    else if section == "cef" && key == "lastCatalogUpdateUnix" then CefStamp
    else if section == "node" && key == "lastCatalogUpdateUnix" then NodeStamp
    else if section == "update" && key == "requested" then Requested
    else if section == "update" && key == "requestedAtUnix" then RequestedAt
    else Unknown
  }

  lemma KeyDecides(section: string, key: string, s: string, k: string)
    requires KeyOf(section, key) == KeyOf(s, k) != Unknown
    ensures section == s && key == k
  {
  }

  /** The value a key is set to is what the configuration has; unknown keys mean nothing. */
  predicate Says(config: Config, which: Key, value: string) {
    match which
    case Policy => config.hasPolicy && config.policy == value
    case ExactVersion => config.hasExactVersion && config.exactVersion == value
    case Interval => ParseUint64(value) == Some(config.interval)
    case CefStamp => ParseUint64(value) == Some(config.cefLast)
    case NodeStamp => ParseUint64(value) == Some(config.nodeLast)
    case Requested => value in (if config.requested then ["true", "1"] else ["false", "0"])
    case RequestedAt => ParseUint64(value) == Some(config.requestedAt)
    case Unknown => true
  }

  predicate Unset(config: Config, which: Key) {
    match which
    case Policy => !config.hasPolicy
    case ExactVersion => !config.hasExactVersion && config.exactVersion == ""
    case Interval => config.interval == 604800
    case CefStamp => config.cefLast == 0
    case NodeStamp => config.nodeLast == 0
    case Requested => !config.requested
    case RequestedAt => config.requestedAt == 0
    case Unknown => true
  }

  /** A policy there is not, a number that is none of 64 bits, a flag that is neither true nor false. */
  predicate Bad(which: Key, value: string) {
    match which
    case Policy => !IsValidPolicy(value)
    case Requested => value !in ["true", "1", "false", "0"]
    case ExactVersion | Unknown => false
    case _ => ParseUint64(value).None?
  }

  /** What is said about the key is the same before and after. */
  ghost predicate Keeps(before: Config, after: Config, which: Key) {
    (forall v :: Says(after, which, v) <==> Says(before, which, v)) && (Unset(after, which) <==> Unset(before, which))
  }

  /** Setting a key to a good value says it, and leaves the other keys alone. */
  lemma ApplyMeans(config: Config, section: string, key: string, value: string)
    ensures
      var which := KeyOf(section, key);
      match Apply(config, section, key, value)
      case None => Bad(which, value)
      case Some(after) =>
        && !Bad(which, value) && Says(after, which, value)
        && forall other: Key | other != which :: Keeps(config, after, other)
  {
    hide Says, Unset, Keeps, ParseUint64, IsValidPolicy, Bad, ApplyKey;
    var which := KeyOf(section, key);
    ApplyByKey(config, section, key, value);
    KeySays(config, which, value);
    if ApplyKey(config, which, value).Some? {
      forall other: Key | other != which
        ensures Keeps(config, ApplyKey(config, which, value).value, other) {
        KeyElsewhere(config, which, value, other);
      }
    }
  }

  lemma ApplyByKey(config: Config, section: string, key: string, value: string)
    ensures Apply(config, section, key, value) == ApplyKey(config, KeyOf(section, key), value)
  {
    hide ParseUint64, IsValidPolicy, ParseBool;
  }

  lemma KeySays(config: Config, which: Key, value: string)
    ensures ApplyKey(config, which, value).None? <==> Bad(which, value)
    ensures ApplyKey(config, which, value).Some? ==> Says(ApplyKey(config, which, value).value, which, value)
  {
    hide ParseUint64, IsValidPolicy;
  }

  lemma KeyElsewhere(config: Config, which: Key, value: string, other: Key)
    requires ApplyKey(config, which, value).Some? && other != which
    ensures Keeps(config, ApplyKey(config, which, value).value, other)
  {
    hide ParseUint64, IsValidPolicy, ParseBool;
  }

  function ApplyKey(config: Config, which: Key, value: string): Option<Config> {
    var number := ParseUint64(value);
    match which
    case Policy => if IsValidPolicy(value) then Some(config.(policy := value, hasPolicy := true)) else None
    case ExactVersion => Some(config.(exactVersion := value, hasExactVersion := true))
    case Interval => if number.Some? then Some(config.(interval := number.value)) else None
    case CefStamp => if number.Some? then Some(config.(cefLast := number.value)) else None
    case NodeStamp => if number.Some? then Some(config.(nodeLast := number.value)) else None
    case Requested => if ParseBool(value).Some? then Some(config.(requested := ParseBool(value).value)) else None
    case RequestedAt => if number.Some? then Some(config.(requestedAt := number.value)) else None
    case Unknown => Some(config)
  }

  // ------------------------------------------------------------- one line

  lemma FirstEquals(t: string, e: int)
    requires 0 <= e < |t| && t[e] == '=' && '=' !in t[..e]
    ensures IndexOf(t, '=') == e
  {
    IndexOfIs(t, '=', e);
  }

  lemma HasEquals(t: string)
    ensures var e := IndexOf(t, '=');
      && e <= |t| && '=' !in t[..e] && (e < |t| ==> t[e] == '=')
  {
  }

  /** A line is a heading, or sets one key to one value, or does nothing. */
  lemma LineMeans(state: State, line: string)
    ensures forall section | Heads(line, section) :: ApplyLine(state, line) == Some(state.(section := section))
    ensures IsHeading(line) ==> exists section :: Heads(line, section)
    ensures forall key, value | Assigns(line, key, value) ::
      ApplyLine(state, line) == match Apply(state.config, state.section, key, value)
                                case None => None
                                case Some(config) => Some(state.(config := config))
    ensures !IsHeading(line) && (forall key, value :: !Assigns(line, key, value)) ==> ApplyLine(state, line) == Some(state)
  {
    hide Trim, Apply, IndexOf;
    var t := Trim(line);
    if IsHeading(line) {
      var name := Trim(t[1..|t| - 1]);
      assert Heads(line, if |name| <= 31 then name else name[..31]);
    }
    HasEquals(t);
    forall key, value | Assigns(line, key, value)
      ensures IndexOf(t, '=') < |t| && Trim(t[..IndexOf(t, '=')]) == key && Trim(t[IndexOf(t, '=') + 1..]) == value {
      var e :| 0 <= e < |t| && PartsAt(t, e, key, value);
      FirstEquals(t, e);
    }
    var e := IndexOf(t, '=');
    if e < |t| && !IsHeading(line) && t[0] != '#' && t[0] != ';' {
      assert PartsAt(t, e, Trim(t[..e]), Trim(t[e + 1..]));
      assert Assigns(line, Trim(t[..e]), Trim(t[e + 1..]));
    }
  }

  lemma AssignsOne(line: string, key: string, value: string, k: string, v: string)
    requires Assigns(line, key, value) && Assigns(line, k, v)
    ensures key == k && value == v
  {
    hide Trim, IndexOf;
    var t := Trim(line);
    var e :| 0 <= e < |t| && PartsAt(t, e, key, value);
    var f :| 0 <= f < |t| && PartsAt(t, f, k, v);
    FirstEquals(t, e);
    FirstEquals(t, f);
  }

  // --------------------------------------------------------------- all lines

  lemma WithinOne(lines: seq<string>, j: int, s: string, t: string)
    requires 0 <= j <= |lines| && Within(lines, j, s) && Within(lines, j, t)
    ensures s == t
  {
    hide Trim;
  }

  /** What holds before the last line does not depend on it. */
  lemma WithinFront(front: seq<string>, line: string, j: int, section: string)
    requires 0 <= j <= |front|
    ensures Within(front + [line], j, section) <==> Within(front, j, section)
  {
    hide IsHeading, Heads;
    var lines := front + [line];
    forall i, k | 0 <= i <= k <= |front| ensures NoHeading(lines, i, k) <==> NoHeading(front, i, k) {
      assert forall n | i <= n < k :: lines[n] == front[n];
    }
    assert forall i | 0 <= i < j :: lines[i] == front[i];
    if Within(front, j, section) {
      if i :| 0 <= i < j && Heads(front[i], section) && NoHeading(front, i + 1, j) {
        assert Heads(lines[i], section) && NoHeading(lines, i + 1, j);
      } else {
        assert NoHeading(lines, 0, j);
      }
    }
  }

  /** The section in force behind a line. */
  lemma WithinNext(front: seq<string>, line: string, section: string)
    ensures var lines := front + [line];
      Within(lines, |lines|, section) <==> if IsHeading(line) then Heads(line, section) else Within(front, |front|, section)
  {
    hide IsHeading;
    var (lines, n) := (front + [line], |front|);
    assert lines[n] == line;
    WithinFront(front, line, n, section);
    forall i | 0 <= i <= n ensures NoHeading(lines, i, n + 1) <==> NoHeading(lines, i, n) && !IsHeading(line) {
      assert NoHeading(lines, i, n + 1) ==> forall k | i <= k < n + 1 :: !IsHeading(lines[k]);
    }
    if IsHeading(line) {
      assert NoHeading(lines, n + 1, n + 1);
      if Heads(line, section) { assert Heads(lines[n], section); }
    } else if Within(lines, n, section) {
      if i :| 0 <= i < n && Heads(lines[i], section) && NoHeading(lines, i + 1, n) {
        assert NoHeading(lines, i + 1, n + 1);
      }
    }
  }

  lemma SetFront(front: seq<string>, line: string)
    ensures forall j, s, k, v | j < |front| :: SetAt(front + [line], j, s, k, v) <==> SetAt(front, j, s, k, v)
  {
    hide Within, Assigns;
    forall j, s, k, v | j < |front| ensures SetAt(front + [line], j, s, k, v) <==> SetAt(front, j, s, k, v) {
      if 0 <= j {
        WithinFront(front, line, j, s);
        assert (front + [line])[j] == front[j];
      }
    }
  }

  lemma SetLast(front: seq<string>, line: string, section: string)
    requires Within(front, |front|, section)
    ensures forall s, k, v :: SetAt(front + [line], |front|, s, k, v) <==> s == section && Assigns(line, k, v)
  {
    hide Within, Assigns;
    forall s, k, v ensures SetAt(front + [line], |front|, s, k, v) <==> s == section && Assigns(line, k, v) {
      WithinFront(front, line, |front|, s);
      if Within(front, |front|, s) { WithinOne(front, |front|, s, section); }
    }
  }

  /** A key that the last line does not set was last set before it, or never. */
  lemma LastFront(front: seq<string>, line: string, section: string, key: string)
    requires forall v :: !SetAt(front + [line], |front|, section, key, v)
    ensures forall v :: Last(front + [line], section, key, v) <==> Last(front, section, key, v)
    ensures Never(front + [line], section, key) <==> Never(front, section, key)
  {
    var lines := front + [line];
    SetFront(front, line);
    hide SetAt;
    forall j, v | j > |front| ensures !SetAt(lines, j, section, key, v) && !SetAt(front, j, section, key, v) {
      OutOfRange(lines, j, section, key, v);
      OutOfRange(front, j, section, key, v);
    }
    forall v ensures !SetAt(front, |front|, section, key, v) { OutOfRange(front, |front|, section, key, v); }
    forall j, v ensures SetAt(lines, j, section, key, v) <==> SetAt(front, j, section, key, v) {}
    forall j ensures NotAfter(lines, j, section, key) <==> NotAfter(front, j, section, key) {}
  }

  lemma OutOfRange(lines: seq<string>, j: int, section: string, key: string, value: string)
    requires j >= |lines|
    ensures !SetAt(lines, j, section, key, value)
  {
  }

  lemma LastSet(front: seq<string>, line: string, section: string, key: string, value: string)
    requires SetAt(front + [line], |front|, section, key, value)
    ensures Last(front + [line], section, key, value)
    ensures !Never(front + [line], section, key)
    ensures forall v | Last(front + [line], section, key, v) :: SetAt(front + [line], |front|, section, key, v)
  {
    var lines := front + [line];
    hide SetAt;
    forall j, v | j > |front| ensures !SetAt(lines, j, section, key, v) { OutOfRange(lines, j, section, key, v); }
    assert NotAfter(lines, |front|, section, key);
    forall v | Last(lines, section, key, v) ensures SetAt(lines, |front|, section, key, v) {
      var j :| SetAt(lines, j, section, key, v) && NotAfter(lines, j, section, key);
    }
  }

  /** Some line sets a known key to a bad value. */
  ghost predicate Spoilt(lines: seq<string>) {
    exists j, s, k, v :: SetAt(lines, j, s, k, v) && Bad(KeyOf(s, k), v)
  }

  /** The configuration has what the last line says that sets the key, or the default. */
  ghost predicate Told(lines: seq<string>, config: Config, section: string, key: string) {
    && (forall v | Last(lines, section, key, v) :: Says(config, KeyOf(section, key), v))
    && (Never(lines, section, key) ==> Unset(config, KeyOf(section, key)))
  }

  /** What the lines amount to: nothing when one is bad, otherwise what the last lines say. */
  ghost predicate Meaning(lines: seq<string>, result: Option<State>) {
    match result
    case None => Spoilt(lines)
    case Some(state) =>
      !Spoilt(lines) && Within(lines, |lines|, state.section) && forall s, k :: Told(lines, state.config, s, k)
  }

  lemma NoLinesMean()
    ensures Meaning([], Some(START))
  {
    forall s, k ensures Told([], DEFAULTS, s, k) {
      forall v ensures !Last([], s, k, v) {}
    }
  }

  lemma SpoiltFront(front: seq<string>, line: string)
    requires Spoilt(front)
    ensures Spoilt(front + [line])
  {
    SetFront(front, line);
    hide SetAt;
    var j, s, k, v :| SetAt(front, j, s, k, v) && Bad(KeyOf(s, k), v);
    if j >= |front| { OutOfRange(front, j, s, k, v); }
    assert SetAt(front + [line], j, s, k, v);
  }

  lemma SetBefore(front: seq<string>, j: int, s: string, k: string, v: string)
    requires SetAt(front, j, s, k, v) && Bad(KeyOf(s, k), v)
    ensures Spoilt(front)
  {
  }

  lemma SpoiltHere(front: seq<string>, line: string)
    requires !Spoilt(front) && Spoilt(front + [line])
    ensures exists s, k, v :: SetAt(front + [line], |front|, s, k, v) && Bad(KeyOf(s, k), v)
  {
    SetFront(front, line);
    hide SetAt;
    var j, s, k, v :| SetAt(front + [line], j, s, k, v) && Bad(KeyOf(s, k), v);
    if j > |front| { OutOfRange(front + [line], j, s, k, v); }
    if j < |front| { SetBefore(front, j, s, k, v); }
  }

  /** A line that sets nothing leaves what is told. */
  lemma QuietLine(front: seq<string>, line: string, state: State, next: State)
    requires Meaning(front, Some(state)) && next.config == state.config
    requires forall k, v :: !Assigns(line, k, v)
    requires if IsHeading(line) then Heads(line, next.section) else next.section == state.section
    ensures Meaning(front + [line], Some(next))
  {
    hide Within, Assigns, Says, Unset, Bad, IsHeading, Heads, KeyOf, Last, Never;
    SetLast(front, line, state.section);
    WithinNext(front, line, next.section);
    if Spoilt(front + [line]) { SpoiltHere(front, line); }
    hide SetAt;
    forall s, k ensures Told(front + [line], next.config, s, k) {
      LastFront(front, line, s, k);
      assert Told(front, state.config, s, k);
    }
  }

  /** A line that sets a key. */
  lemma SettingLine(front: seq<string>, line: string, state: State, key: string, value: string)
    requires Meaning(front, Some(state)) && Assigns(line, key, value) && !IsHeading(line)
    ensures Meaning(front + [line],
                    match Apply(state.config, state.section, key, value)
                    case None => None
                    case Some(config) => Some(state.(config := config)))
  {
    hide Within, Assigns, Says, Unset, Bad, IsHeading, Heads, KeyOf, Last, Never, Apply, SetAt;
    var (lines, n) := (front + [line], |front|);
    SetLast(front, line, state.section);
    WithinNext(front, line, state.section);
    ApplyMeans(state.config, state.section, key, value);
    assert SetAt(lines, n, state.section, key, value);
    if Apply(state.config, state.section, key, value).Some? {
      var after := Apply(state.config, state.section, key, value).value;
      if Spoilt(lines) {
        SpoiltHere(front, line);
        var s, k, v :| SetAt(lines, n, s, k, v) && Bad(KeyOf(s, k), v);
        AssignsOne(line, key, value, k, v);
      }
      forall s, k ensures Told(lines, after, s, k) {
        ToldAfter(front, line, state, key, value, after, s, k);
      }
    }
  }

  lemma ToldAfter(front: seq<string>, line: string, state: State, key: string, value: string, after: Config, s: string, k: string)
    requires Within(front, |front|, state.section) && Assigns(line, key, value) && Told(front, state.config, s, k)
    requires Apply(state.config, state.section, key, value) == Some(after)
    ensures Told(front + [line], after, s, k)
  {
    hide Within, Assigns, Says, Unset, Bad, IsHeading, Heads, KeyOf, Last, Never, Apply, SetAt;
    var (lines, n) := (front + [line], |front|);
    SetLast(front, line, state.section);
    ApplyMeans(state.config, state.section, key, value);
    if s == state.section && k == key {
      LastSet(front, line, s, k, value);
      forall v | Last(lines, s, k, v) ensures v == value { AssignsOne(line, key, value, key, v); }
    } else {
      forall v ensures !SetAt(lines, n, s, k, v) {
        if SetAt(lines, n, s, k, v) { AssignsOne(line, key, value, k, v); }
      }
      LastFront(front, line, s, k);
      if KeyOf(s, k) == Unknown {
        UnknownMeansNothing(after);
      } else {
        if KeyOf(s, k) == KeyOf(state.section, key) { KeyDecides(state.section, key, s, k); }
        assert Keeps(state.config, after, KeyOf(s, k));
      }
    }
  }

  lemma UnknownMeansNothing(config: Config)
    ensures (forall v :: Says(config, Unknown, v)) && Unset(config, Unknown)
  {
  }

  /** What all lines of a file amount to. */
  lemma {:induction false} LinesMean(lines: seq<string>)
    ensures Meaning(lines, ApplyLines(START, lines))
  {
    hide Within, Assigns, IsHeading, Heads, ApplyLine, Meaning, Apply;
    if lines == [] {
      NoLinesMean();
    } else {
      var front, line := lines[..|lines| - 1], lines[|lines| - 1];
      assert lines == front + [line];
      LinesMean(front);
      ApplyAppend(START, front, [line]);
      if ApplyLines(START, front).None? {
        StillSpoilt(front, line);
      } else {
        var state := ApplyLines(START, front).value;
        LineMeans(state, line);
        OneLine(state, line);
        if key, value :| Assigns(line, key, value) {
          NoHeadingAssigns(line, key, value);
          SettingLine(front, line, state, key, value);
        } else {
          QuietLine(front, line, state, ApplyLine(state, line).value);
        }
      }
    }
  }

  lemma StillSpoilt(front: seq<string>, line: string)
    requires Meaning(front, None)
    ensures Meaning(front + [line], None)
  {
    SpoiltFront(front, line);
  }

  lemma OneLine(state: State, line: string)
    ensures ApplyLines(state, [line]) == ApplyLine(state, line)
  {
    ApplyFirst(state, line, []);
    assert [line] + [] == [line];
  }

  lemma NoHeadingAssigns(line: string, key: string, value: string)
    requires Assigns(line, key, value)
    ensures !IsHeading(line)
  {
  }

  // ------------------------------------------------------------- the whole file

  /** The policy in force: the last one set, or the default. */
  ghost predicate PolicyIs(lines: seq<string>, defaultPolicy: Option<string>, policy: string) {
    || Last(lines, "cef", "versionPolicy", policy)
    || (Never(lines, "cef", "versionPolicy") && policy == if defaultPolicy.Some? then defaultPolicy.value else "tested")
  }

  lemma {:induction false} LastOrNever(lines: seq<string>, section: string, key: string)
    ensures Never(lines, section, key) || exists v :: Last(lines, section, key, v)
  {
    hide SetAt, Never, Last;
    if lines == [] {
      NothingSet(section, key);
    } else {
      var front, line := lines[..|lines| - 1], lines[|lines| - 1];
      assert lines == front + [line];
      if v :| SetAt(lines, |front|, section, key, v) {
        LastSet(front, line, section, key, v);
      } else {
        LastFront(front, line, section, key);
        LastOrNever(front, section, key);
      }
    }
  }

  lemma NothingSet(section: string, key: string)
    ensures Never([], section, key)
  {
  }

  lemma PolicyOfState(lines: seq<string>, config: Config, policy: string)
    requires Told(lines, config, "cef", "versionPolicy")
    ensures Last(lines, "cef", "versionPolicy", policy) ==> config.hasPolicy && config.policy == policy
    ensures Never(lines, "cef", "versionPolicy") <==> !config.hasPolicy
    ensures config.hasPolicy ==> Last(lines, "cef", "versionPolicy", config.policy)
  {
    hide Last, Never;
    assert KeyOf("cef", "versionPolicy") == Policy;
    LastOrNever(lines, "cef", "versionPolicy");
  }

  lemma ExactOfState(lines: seq<string>, config: Config)
    requires Told(lines, config, "cef", "exactVersion")
    ensures config.exactVersion != "" <==> exists v :: v != "" && Last(lines, "cef", "exactVersion", v)
  {
    hide Last, Never;
    assert KeyOf("cef", "exactVersion") == ExactVersion;
    LastOrNever(lines, "cef", "exactVersion");
  }

  /**
   Reading fails exactly when some line is bad, the policy in force is none, or it is the exact
   one and no version is given; otherwise every key has what its last line says, or its default.
   */
  lemma ReadMeans(content: string, defaultPolicy: Option<string>)
    ensures
      var lines := Lines(content);
      match Read(content, defaultPolicy)
      case None =>
        || Spoilt(lines)
        || exists policy :: PolicyIs(lines, defaultPolicy, policy)
             && (!IsValidPolicy(policy)
                 || (policy == "exact" && forall v | Last(lines, "cef", "exactVersion", v) :: v == ""))
      case Some(config) =>
        && !Spoilt(lines) && PolicyIs(lines, defaultPolicy, config.policy)
        && IsValidPolicy(config.policy)
        && (config.policy == "exact" ==> exists v :: v != "" && Last(lines, "cef", "exactVersion", v))
        && forall s, k | KeyOf(s, k) != Policy :: Told(lines, config, s, k)
  {
    hide Lines, Last, Never, Within, IsValidPolicy, ApplyLines, Spoilt;
    var lines := Lines(content);
    LinesMean(lines);
    if ApplyLines(START, lines).Some? {
      var config := ApplyLines(START, lines).value.config;
      assert Told(lines, config, "cef", "versionPolicy") && Told(lines, config, "cef", "exactVersion");
      hide Told;
      PolicyOfState(lines, config, config.policy);
      ExactOfState(lines, config);
      var policy := if config.hasPolicy then config.policy else if defaultPolicy.Some? then defaultPolicy.value else "tested";
      assert PolicyIs(lines, defaultPolicy, policy);
      forall s, k | KeyOf(s, k) != Policy ensures Told(lines, config.(policy := policy), s, k) {
        OtherKeysTold(lines, config, policy, s, k);
      }
    }
  }

  lemma OtherKeysTold(lines: seq<string>, config: Config, policy: string, s: string, k: string)
    requires Told(lines, config, s, k) && KeyOf(s, k) != Policy
    ensures Told(lines, config.(policy := policy), s, k)
  {
    hide KeyOf, Last, Never;
  }
}
