/**
 What the ownership test of builder/src/prepare.c reads in a desktop entry, by the places of
 its lines, and that it reads in a generated entry what the entry was made from.
 */
module DesktopReading {
  import opened Common
  import opened TextLines
  import opened Desktop

  predicate OpensGroup(line: string) { line != [] && line[0] == '[' }

  predicate NoGroup(lines: seq<string>, from: int, to: int)
    requires 0 <= from <= to <= |lines|
  {
    forall k | from <= k < to :: !OpensGroup(lines[k])
  }

  /** The last line before j that opens a group opens this one. */
  predicate InGroup(lines: seq<string>, j: int, group: string)
    requires 0 <= j <= |lines|
  {
    exists i | 0 <= i < j :: IsGroup(lines[i], group) && NoGroup(lines, i + 1, j)
  }

  predicate IsGroup(line: string, group: string) { line == "[" + group + "]" }

  /** Line j is a line of the key in the group. */
  predicate KeyAt(lines: seq<string>, j: int, group: string, key: string) {
    0 <= j < |lines| && InGroup(lines, j, group) && !OpensGroup(lines[j]) && key + "=" <= lines[j]
  }

  /** The last line of the key in the group has the text. */
  ghost predicate LastSays(lines: seq<string>, group: string, key: string, text: string) {
    exists j :: KeyAt(lines, j, group, key) && lines[j] == key + "=" + text && NoneAfter(lines, j, group, key)
  }

  ghost predicate NoneAfter(lines: seq<string>, j: int, group: string, key: string) {
    forall k | j < k :: !KeyAt(lines, k, group, key)
  }

  lemma GroupFront(front: seq<string>, line: string, j: int, group: string)
    requires 0 <= j <= |front|
    ensures InGroup(front + [line], j, group) <==> InGroup(front, j, group)
  {
    hide OpensGroup, IsGroup;
    var lines := front + [line];
    forall i, k | 0 <= i <= k <= |front| ensures NoGroup(lines, i, k) <==> NoGroup(front, i, k) {
      assert forall n | i <= n < k :: lines[n] == front[n];
    }
    assert forall i | 0 <= i < j :: lines[i] == front[i];
  }

  lemma GroupNext(front: seq<string>, line: string, group: string)
    ensures var lines := front + [line];
      InGroup(lines, |lines|, group) <==> if OpensGroup(line) then IsGroup(line, group) else InGroup(front, |front|, group)
  {
    hide OpensGroup;
    var (lines, n) := (front + [line], |front|);
    assert lines[n] == line;
    GroupFront(front, line, n, group);
    forall i | 0 <= i <= n ensures NoGroup(lines, i, n + 1) <==> NoGroup(lines, i, n) && !OpensGroup(line) {
      assert NoGroup(lines, i, n + 1) ==> forall k | i <= k < n + 1 :: !OpensGroup(lines[k]);
    }
    if OpensGroup(line) {
      assert NoGroup(lines, n + 1, n + 1);
      if IsGroup(line, group) { assert IsGroup(lines[n], group); }
    } else {
      if IsGroup(line, group) { GroupOpens(line, group); }
      if InGroup(lines, n, group) {
        var i :| 0 <= i < n && IsGroup(lines[i], group) && NoGroup(lines, i + 1, n);
        assert NoGroup(lines, i + 1, n + 1);
      }
    }
  }

  lemma GroupOpens(line: string, group: string)
    requires IsGroup(line, group)
    ensures OpensGroup(line)
  {
  }

  lemma KeyFront(front: seq<string>, line: string, group: string, key: string)
    ensures forall j | j < |front| :: KeyAt(front + [line], j, group, key) <==> KeyAt(front, j, group, key)
    ensures KeyAt(front + [line], |front|, group, key)
       <==> InGroup(front, |front|, group) && !OpensGroup(line) && key + "=" <= line
  {
    hide InGroup, OpensGroup;
    assert (front + [line])[|front|] == line;
    GroupFront(front, line, |front|, group);
    forall j | j < |front| ensures KeyAt(front + [line], j, group, key) <==> KeyAt(front, j, group, key) {
      if 0 <= j {
        GroupFront(front, line, j, group);
        assert (front + [line])[j] == front[j];
      }
    }
  }

  lemma KeyOutside(lines: seq<string>, j: int, group: string, key: string)
    requires j >= |lines|
    ensures !KeyAt(lines, j, group, key)
  {
  }

  /** One more line: it is the last one of the key, or the last one is where it was. */
  lemma LastNext(front: seq<string>, line: string, group: string, key: string, text: string)
    ensures LastSays(front + [line], group, key, text)
       <==> if KeyAt(front + [line], |front|, group, key) then line == key + "=" + text else LastSays(front, group, key, text)
  {
    var (lines, n) := (front + [line], |front|);
    KeyFront(front, line, group, key);
    assert forall j | 0 <= j < n :: lines[j] == front[j];
    assert lines[n] == line;
    hide KeyAt;
    forall j | j > n ensures !KeyAt(lines, j, group, key) && !KeyAt(front, j, group, key) {
      KeyOutside(lines, j, group, key);
      KeyOutside(front, j, group, key);
    }
    KeyOutside(front, n, group, key);
    if KeyAt(lines, n, group, key) {
      assert NoneAfter(lines, n, group, key);
      if j :| KeyAt(lines, j, group, key) && lines[j] == key + "=" + text && NoneAfter(lines, j, group, key) {
        assert j == n;
      }
    } else {
      SameLast(front, line, group, key, text);
    }
  }

  lemma SameLast(front: seq<string>, line: string, group: string, key: string, text: string)
    requires forall j :: KeyAt(front + [line], j, group, key) <==> KeyAt(front, j, group, key)
    ensures LastSays(front + [line], group, key, text) <==> LastSays(front, group, key, text)
  {
    hide InGroup, OpensGroup;
    var lines := front + [line];
    assert forall j | 0 <= j < |front| :: lines[j] == front[j];
    forall j ensures NoneAfter(lines, j, group, key) <==> NoneAfter(front, j, group, key) {}
  }

  /** The scan is in the group of the last opening line, and finds what the last line of the key there says. */
  lemma {:induction false} ScanMeans(lines: seq<string>, group: string, key: string, text: string)
    ensures ScanLines(lines, group, key, text).inGroup <==> InGroup(lines, |lines|, group)
    ensures ScanLines(lines, group, key, text).found <==> LastSays(lines, group, key, text)
  {
    hide InGroup, LastSays, KeyAt;
    if lines == [] {
      NothingSaid(group, key, text);
    } else {
      var front, line := lines[..|lines| - 1], lines[|lines| - 1];
      assert lines == front + [line];
      ScanMeans(front, group, key, text);
      GroupNext(front, line, group);
      LastNext(front, line, group, key, text);
      KeyFront(front, line, group, key);
    }
  }

  lemma NothingSaid(group: string, key: string, text: string)
    ensures !InGroup([], 0, group) && !LastSays([], group, key, text)
  {
  }

  /** The test finds the value exactly when the last line of the key in the group has it, escaped. */
  lemma HasValueMeans(content: string, group: string, key: string, value: string)
    ensures HasValue(content, group, key, value) <==> LastSays(Lines(content), group, key, Escape(value))
  {
    ScanMeans(Lines(content), group, key, Escape(value));
  }

  // ------------------------------------------------ what a generated entry says

  /** Each line is a line of its key. */
  predicate Keyed(keys: seq<string>, lines: seq<string>) {
    |keys| == |lines| && forall i | 0 <= i < |keys| :: IsKey(keys[i]) && keys[i] + "=" <= lines[i]
  }

  predicate IsKey(key: string) { key != [] && key[0] != '[' && '=' !in key }

  lemma KeyedAppend(a: seq<string>, x: seq<string>, b: seq<string>, y: seq<string>)
    requires Keyed(a, x) && Keyed(b, y)
    ensures Keyed(a + b, x + y)
  {
    hide IsKey;
    forall i | 0 <= i < |a + b| ensures IsKey((a + b)[i]) && (a + b)[i] + "=" <= (x + y)[i] {
      if i >= |a| {
        assert (a + b)[i] == b[i - |a|] && (x + y)[i] == y[i - |a|];
      }
    }
  }

  /** A line has one key. */
  lemma OneKey(line: string, key: string, other: string)
    requires IsKey(key) && IsKey(other) && key + "=" <= line && other + "=" <= line
    ensures key == other
  {
    EndsAtEquals(line, key);
    EndsAtEquals(line, other);
    assert |key| == |other|;
    assert key == line[..|key|] && other == line[..|key|];
  }

  lemma EndsAtEquals(line: string, key: string)
    requires IsKey(key) && key + "=" <= line
    ensures |key| < |line| && line[|key|] == '=' && (forall i | 0 <= i < |key| :: line[i] != '=') && line[..|key|] == key
  {
    assert line[|key|] == (key + "=")[|key|];
    forall i | 0 <= i < |key| ensures line[i] != '=' {
      assert line[i] == (key + "=")[i] == key[i];
      assert key[i] in key;
    }
  }

  const HEADER := "[Desktop Entry]"
  const GROUP := "Desktop Entry"

  lemma HeaderIsGroup()
    ensures IsGroup(HEADER, GROUP) && OpensGroup(HEADER)
  {
    assert HEADER == "[" + GROUP + "]";
  }

  lemma KeyedInGroup(keys: seq<string>, lines: seq<string>, j: int)
    requires Keyed(keys, lines) && 0 <= j < |lines|
    ensures InGroup([HEADER] + lines, j + 1, GROUP) && !OpensGroup(lines[j])
  {
    var all := [HEADER] + lines;
    forall k | 0 <= k < |lines| ensures !OpensGroup(lines[k]) {
      assert IsKey(keys[k]);
      assert lines[k][0] == (keys[k] + "=")[0] == keys[k][0];
    }
    assert forall k | 1 <= k < j + 1 :: all[k] == lines[k - 1];
    HeaderIsGroup();
    assert IsGroup(all[0], GROUP) && NoGroup(all, 1, j + 1);
  }

  /** A key that exactly one line has says what that line says, and a key that none has says nothing. */
  lemma KeyedDecides(keys: seq<string>, lines: seq<string>, m: nat, key: string, text: string)
    requires Keyed(keys, lines) && IsKey(key) && m <= |keys|
    requires forall i | 0 <= i < |keys| :: keys[i] == key <==> i == m
    ensures LastSays([HEADER] + lines, GROUP, key, text) <==> m < |keys| && lines[m] == key + "=" + text
  {
    hide InGroup, OpensGroup, IsKey;
    var all := [HEADER] + lines;
    HeaderIsGroup();
    forall j ensures KeyAt(all, j, GROUP, key) <==> m < |keys| && j == m + 1 {
      if 0 < j < |all| {
        assert all[j] == lines[j - 1];
        KeyedInGroup(keys, lines, j - 1);
        if key + "=" <= lines[j - 1] { OneKey(lines[j - 1], key, keys[j - 1]); }
      } else if j == 0 {
        assert OpensGroup(all[0]);
      }
    }
    if m < |keys| {
      assert all[m + 1] == lines[m];
      assert NoneAfter(all, m + 1, GROUP, key);
    }
  }

  // ----------------------------------------------------------- the keys it has

  function FirstKeys(entry: Entry): seq<string> {
    ["Type", "Name"] + (if entry.comment != [] then ["Comment"] else [])
  }

  function ProgramKeys(entry: Entry): seq<string> {
    ["Exec", "TryExec", "Icon", "Terminal"] + (if entry.categories != [] then ["Categories"] else [])
  }

  function WindowKeys(entry: Entry): seq<string> {
    ["StartupNotify", "StartupWMClass", "X-muon-Managed"]
    + (if entry.notifications then ["DBusActivatable", "X-muon-AppId", "X-muon-Launcher"] else [])
  }

  function EntryKeys(entry: Entry): seq<string> { FirstKeys(entry) + ProgramKeys(entry) + WindowKeys(entry) }

  function FirstLines(entry: Entry): seq<string> {
    ["Type=Application", KeyValue("Name", entry.name)]
    + (if entry.comment != [] then [KeyValue("Comment", entry.comment)] else [])
  }

  function ProgramLines(entry: Entry, exec: string, tryExec: string, icon: string): seq<string> {
    ["Exec=" + exec, KeyValue("TryExec", tryExec), KeyValue("Icon", icon), "Terminal=false"]
    + (if entry.categories != [] then ["Categories=" + Categories(entry.categories)] else [])
  }

  function WindowLines(entry: Entry, appId: string, launcher: string): seq<string> {
    [if entry.startupNotify then "StartupNotify=true" else "StartupNotify=false",
     KeyValue("StartupWMClass", entry.id), "X-muon-Managed=true"]
    + (if entry.notifications
       then ["DBusActivatable=true", KeyValue("X-muon-AppId", appId), KeyValue("X-muon-Launcher", launcher)] else [])
  }

  function KeyLines(entry: Entry, exec: string, tryExec: string, icon: string, appId: string, launcher: string): seq<string> {
    FirstLines(entry) + ProgramLines(entry, exec, tryExec, icon) + WindowLines(entry, appId, launcher)
  }

  lemma LinesAreKeyLines(entry: Entry, exec: string, tryExec: string, icon: string, appId: string, launcher: string)
    ensures EntryLines(entry, exec, tryExec, icon, appId, launcher)
         == [HEADER] + KeyLines(entry, exec, tryExec, icon, appId, launcher)
  {
    hide KeyValue, Categories;
  }

  /** Each key is told from the others by its length and first character. */
  predicate Coded(key: string, n: nat, c: char) { |key| == n && n > 0 && key[0] == c }

  lemma FirstKeyed(entry: Entry)
    ensures Keyed(FirstKeys(entry), FirstLines(entry))
  {
    assert IsKey("Type") && IsKey("Name") && IsKey("Comment");
    assert "Type" + "=" <= "Type=Application";
    assert Keyed(["Type", "Name"], ["Type=Application", KeyValue("Name", entry.name)]);
    assert Keyed(["Comment"], [KeyValue("Comment", entry.comment)]);
    assert Keyed([], []);
    KeyedAppend(["Type", "Name"], ["Type=Application", KeyValue("Name", entry.name)],
                if entry.comment != [] then ["Comment"] else [],
                if entry.comment != [] then [KeyValue("Comment", entry.comment)] else []);
  }

  lemma ProgramKeyed(entry: Entry, exec: string, tryExec: string, icon: string)
    ensures Keyed(ProgramKeys(entry), ProgramLines(entry, exec, tryExec, icon))
  {
    assert IsKey("Exec") && IsKey("TryExec") && IsKey("Icon") && IsKey("Terminal") && IsKey("Categories");
    assert "Terminal" + "=" <= "Terminal=false" && "Exec" + "=" <= "Exec=" + exec;
    var categories := "Categories=" + Categories(entry.categories);
    assert "Categories" + "=" <= categories;
    var (keys, lines) := (["Exec", "TryExec", "Icon", "Terminal"],
      ["Exec=" + exec, KeyValue("TryExec", tryExec), KeyValue("Icon", icon), "Terminal=false"]);
    assert Keyed(keys, lines) && Keyed(["Categories"], [categories]) && Keyed([], []);
    KeyedAppend(keys, lines, if entry.categories != [] then ["Categories"] else [],
                if entry.categories != [] then [categories] else []);
  }

  lemma WindowKeyed(entry: Entry, appId: string, launcher: string)
    ensures Keyed(WindowKeys(entry), WindowLines(entry, appId, launcher))
  {
    var flag := if entry.startupNotify then "StartupNotify=true" else "StartupNotify=false";
    WindowIsKeyed(flag, entry.id);
    NotificationsAreKeyed(appId, launcher);
    assert Keyed([], []);
    KeyedAppend(["StartupNotify", "StartupWMClass", "X-muon-Managed"],
                [flag, KeyValue("StartupWMClass", entry.id), "X-muon-Managed=true"],
                if entry.notifications then ["DBusActivatable", "X-muon-AppId", "X-muon-Launcher"] else [],
                if entry.notifications
                then ["DBusActivatable=true", KeyValue("X-muon-AppId", appId), KeyValue("X-muon-Launcher", launcher)] else []);
  }

  lemma WindowIsKeyed(flag: string, id: string)
    requires flag == "StartupNotify=true" || flag == "StartupNotify=false"
    ensures Keyed(["StartupNotify", "StartupWMClass", "X-muon-Managed"],
                  [flag, KeyValue("StartupWMClass", id), "X-muon-Managed=true"])
  {
    assert IsKey("StartupNotify") && IsKey("StartupWMClass") && IsKey("X-muon-Managed");
    assert "StartupNotify" + "=" <= flag && "X-muon-Managed" + "=" <= "X-muon-Managed=true";
  }

  lemma NotificationsAreKeyed(appId: string, launcher: string)
    ensures Keyed(["DBusActivatable", "X-muon-AppId", "X-muon-Launcher"],
                  ["DBusActivatable=true", KeyValue("X-muon-AppId", appId), KeyValue("X-muon-Launcher", launcher)])
  {
    assert IsKey("DBusActivatable") && IsKey("X-muon-AppId") && IsKey("X-muon-Launcher");
    assert "DBusActivatable" + "=" <= "DBusActivatable=true";
  }

  lemma EntryKeyed(entry: Entry, exec: string, tryExec: string, icon: string, appId: string, launcher: string)
    ensures Keyed(EntryKeys(entry), KeyLines(entry, exec, tryExec, icon, appId, launcher))
  {
    hide Keyed, FirstKeys, ProgramKeys, WindowKeys, FirstLines, ProgramLines, WindowLines;
    FirstKeyed(entry);
    ProgramKeyed(entry, exec, tryExec, icon);
    WindowKeyed(entry, appId, launcher);
    KeyedAppend(FirstKeys(entry), FirstLines(entry), ProgramKeys(entry), ProgramLines(entry, exec, tryExec, icon));
    KeyedAppend(FirstKeys(entry) + ProgramKeys(entry), FirstLines(entry) + ProgramLines(entry, exec, tryExec, icon),
                WindowKeys(entry), WindowLines(entry, appId, launcher));
  }

  /** The key stands at this place and nowhere else; at the end of the list, nowhere. */
  predicate OnlyAt(keys: seq<string>, key: string, m: nat) {
    m <= |keys| && forall i | 0 <= i < |keys| :: keys[i] == key <==> i == m
  }

  lemma OnlyAtLeft(a: seq<string>, b: seq<string>, key: string, m: nat)
    requires OnlyAt(a, key, m) && m < |a| && key !in b
    ensures OnlyAt(a + b, key, m)
  {
    forall i | |a| <= i < |a + b| ensures (a + b)[i] != key { assert (a + b)[i] == b[i - |a|]; }
  }

  lemma OnlyAtRight(a: seq<string>, b: seq<string>, key: string, m: nat)
    requires key !in a && OnlyAt(b, key, m)
    ensures OnlyAt(a + b, key, |a| + m)
  {
    forall i | 0 <= i < |a + b| ensures (a + b)[i] == key <==> i == |a| + m {
      if i >= |a| { assert (a + b)[i] == b[i - |a|]; }
    }
  }

  lemma FirstPlaces(entry: Entry)
    ensures OnlyAt(FirstKeys(entry), "Name", 1) && OnlyAt(FirstKeys(entry), "Comment", 2)
    ensures forall key | key in ["Exec", "TryExec", "Icon", "StartupWMClass"] :: key !in FirstKeys(entry)
  {
    assert Coded("Type", 4, 'T') && Coded("Name", 4, 'N') && Coded("Comment", 7, 'C');
    assert Coded("Exec", 4, 'E') && Coded("TryExec", 7, 'T') && Coded("Icon", 4, 'I') && Coded("StartupWMClass", 14, 'S');
  }

  lemma ProgramPlaces(entry: Entry)
    ensures OnlyAt(ProgramKeys(entry), "Exec", 0) && OnlyAt(ProgramKeys(entry), "TryExec", 1) && OnlyAt(ProgramKeys(entry), "Icon", 2)
    ensures forall key | key in ["Name", "Comment", "StartupWMClass"] :: key !in ProgramKeys(entry)
  {
    assert Coded("Exec", 4, 'E') && Coded("TryExec", 7, 'T') && Coded("Icon", 4, 'I') && Coded("Terminal", 8, 'T');
    assert Coded("Categories", 10, 'C') && Coded("Name", 4, 'N') && Coded("Comment", 7, 'C') && Coded("StartupWMClass", 14, 'S');
  }

  lemma WindowPlaces(entry: Entry)
    ensures OnlyAt(WindowKeys(entry), "StartupWMClass", 1)
    ensures forall key | key in ["Name", "Comment", "Exec", "TryExec", "Icon"] :: key !in WindowKeys(entry)
  {
    assert Coded("StartupNotify", 13, 'S') && Coded("StartupWMClass", 14, 'S') && Coded("X-muon-Managed", 14, 'X');
    assert Coded("DBusActivatable", 15, 'D') && Coded("X-muon-AppId", 12, 'X') && Coded("X-muon-Launcher", 15, 'X');
    assert Coded("Name", 4, 'N') && Coded("Comment", 7, 'C') && Coded("Exec", 4, 'E') && Coded("TryExec", 7, 'T') && Coded("Icon", 4, 'I');
  }

  lemma OnlyNowhere(a: seq<string>, b: seq<string>, key: string)
    requires key !in a && key !in b
    ensures OnlyAt(a + b, key, |a + b|)
  {
  }

  /** Where the keys of an entry stand. */
  lemma EntryPlaces(entry: Entry)
    ensures
      var (keys, n) := (EntryKeys(entry), |FirstKeys(entry)|);
      && OnlyAt(keys, "Name", 1) && OnlyAt(keys, "Comment", if entry.comment != [] then 2 else |keys|)
      && OnlyAt(keys, "Exec", n) && OnlyAt(keys, "TryExec", n + 1) && OnlyAt(keys, "Icon", n + 2)
      && OnlyAt(keys, "StartupWMClass", n + |ProgramKeys(entry)| + 1)
  {
    hide ProgramKeys, WindowKeys;
    var (a, b, c) := (FirstKeys(entry), ProgramKeys(entry), WindowKeys(entry));
    FirstPlaces(entry);
    ProgramPlaces(entry);
    WindowPlaces(entry);
    hide FirstKeys, OnlyAt;
    assert EntryKeys(entry) == a + b + c;
    FirstLength(entry);
    InLeft(a, b, c, "Name", 1);
    if entry.comment != [] {
      InLeft(a, b, c, "Comment", 2);
    } else {
      FirstLacksComment(entry);
      OnlyNowhere(a + b, c, "Comment");
    }
    InMiddle(a, b, c, "Exec", 0);
    InMiddle(a, b, c, "TryExec", 1);
    InMiddle(a, b, c, "Icon", 2);
    OnlyAtRight(a + b, c, "StartupWMClass", 1);
  }

  lemma FirstLength(entry: Entry)
    ensures |FirstKeys(entry)| == (if entry.comment != [] then 3 else 2) && |ProgramKeys(entry)| >= 4
  {
  }

  lemma FirstLacksComment(entry: Entry)
    requires entry.comment == []
    ensures "Comment" !in FirstKeys(entry)
  {
    assert Coded("Type", 4, 'T') && Coded("Name", 4, 'N') && Coded("Comment", 7, 'C');
  }

  lemma InLeft(a: seq<string>, b: seq<string>, c: seq<string>, key: string, m: nat)
    requires OnlyAt(a, key, m) && m < |a| && key !in b && key !in c
    ensures OnlyAt(a + b + c, key, m)
  {
    hide OnlyAt;
    OnlyAtLeft(a, b, key, m);
    OnlyAtLeft(a + b, c, key, m);
  }

  lemma InMiddle(a: seq<string>, b: seq<string>, c: seq<string>, key: string, m: nat)
    requires key !in a && OnlyAt(b, key, m) && m < |b| && key !in c
    ensures OnlyAt(a + b + c, key, |a| + m)
  {
    hide OnlyAt;
    OnlyAtRight(a, b, key, m);
    OnlyAtLeft(a + b, c, key, |a| + m);
  }

  /** A generated text splits into its lines. */
  lemma EntryHasLines(entry: Entry, tryExec: string, icon: string, appId: string, launcher: string)
    ensures
      var lines := EntryLines(entry, ExecCommand(launcher), tryExec, icon, appId, launcher);
      Lines(WithEnds(lines)) == lines
  {
    hide ExecCommand, EntryBody, KeyValue;
    BodyIsOrdinary(entry, launcher, tryExec, icon);
    KeyValueHasNoLineEnd("X-muon-AppId", appId);
    KeyValueHasNoLineEnd("X-muon-Launcher", launcher);
    LinesOf(EntryLines(entry, ExecCommand(launcher), tryExec, icon, appId, launcher));
  }

  /** What a key line says is the value it was written with. */
  lemma SaysWritten(keys: seq<string>, lines: seq<string>, m: nat, key: string, written: string, value: string)
    requires Keyed(keys, lines) && OnlyAt(keys, key, m) && m < |keys| && lines[m] == KeyValue(key, written)
    ensures LastSays([HEADER] + lines, GROUP, key, Escape(value)) <==> value == written
  {
    hide Keyed, LastSays, Spell;
    assert IsKey(key) by { KeyAtPlace(keys, lines, m, key); }
    KeyedDecides(keys, lines, m, key, Escape(value));
    if key + "=" + Escape(value) == key + "=" + Escape(written) {
      assert (key + "=" + Escape(value))[|key| + 1..] == Escape(value);
      assert (key + "=" + Escape(written))[|key| + 1..] == Escape(written);
      EscapeInjective(value, written);
    }
  }

  lemma KeyAtPlace(keys: seq<string>, lines: seq<string>, m: nat, key: string)
    requires Keyed(keys, lines) && OnlyAt(keys, key, m) && m < |keys|
    ensures IsKey(key)
  {
    assert keys[m] == key;
  }

  lemma KeyLinesAt(entry: Entry, exec: string, tryExec: string, icon: string, appId: string, launcher: string)
    ensures
      var lines := KeyLines(entry, exec, tryExec, icon, appId, launcher);
      var n := |FirstKeys(entry)|;
      && |lines| == |EntryKeys(entry)| && n + |ProgramKeys(entry)| + 1 < |lines|
      && lines[1] == KeyValue("Name", entry.name)
      && (entry.comment != [] ==> lines[2] == KeyValue("Comment", entry.comment))
      && lines[n] == "Exec=" + exec && lines[n + 1] == KeyValue("TryExec", tryExec) && lines[n + 2] == KeyValue("Icon", icon)
      && lines[n + |ProgramKeys(entry)| + 1] == KeyValue("StartupWMClass", entry.id)
  {
    hide KeyValue, Categories;
  }

  /**
   In a generated entry the test finds, in the entry's own group, exactly the values it was made
   from; the command of the Exec line is the launcher's.
   */
  lemma EntryReadsBack(entry: Entry, tryExec: string, icon: string, appId: string, launcher: string, value: string)
    ensures
      var content := WithEnds(EntryLines(entry, ExecCommand(launcher), tryExec, icon, appId, launcher));
      && (HasValue(content, GROUP, "Name", value) <==> value == entry.name)
      && (HasValue(content, GROUP, "Comment", value) <==> entry.comment != [] && value == entry.comment)
      && (HasValue(content, GROUP, "TryExec", value) <==> value == tryExec)
      && (HasValue(content, GROUP, "Icon", value) <==> value == icon)
      && (HasValue(content, GROUP, "StartupWMClass", value) <==> value == entry.id)
      && LastSays(Lines(content), GROUP, "Exec", ExecCommand(launcher))
  {
    hide ExecCommand, EntryLines, KeyLines, EntryKeys, FirstKeys, ProgramKeys, OnlyAt, LastSays, HasValue, KeyValue, WithEnds,
      Lines;
    var n := |FirstKeys(entry)|;
    FirstLength(entry);
    EntryPlaces(entry);
    KeyLinesAt(entry, ExecCommand(launcher), tryExec, icon, appId, launcher);
    EntrySays(entry, tryExec, icon, appId, launcher, 1, "Name", entry.name, value);
    if entry.comment != [] {
      EntrySays(entry, tryExec, icon, appId, launcher, 2, "Comment", entry.comment, value);
    } else {
      NoComment(entry, tryExec, icon, appId, launcher, value);
    }
    EntrySays(entry, tryExec, icon, appId, launcher, n + 1, "TryExec", tryExec, value);
    EntrySays(entry, tryExec, icon, appId, launcher, n + 2, "Icon", icon, value);
    EntrySays(entry, tryExec, icon, appId, launcher, n + |ProgramKeys(entry)| + 1, "StartupWMClass", entry.id, value);
    ExecIsSaid(entry, tryExec, icon, appId, launcher);
  }

  lemma EntrySays(entry: Entry, tryExec: string, icon: string, appId: string, launcher: string,
                  m: nat, key: string, written: string, value: string)
    requires OnlyAt(EntryKeys(entry), key, m) && m < |KeyLines(entry, ExecCommand(launcher), tryExec, icon, appId, launcher)|
    requires KeyLines(entry, ExecCommand(launcher), tryExec, icon, appId, launcher)[m] == KeyValue(key, written)
    ensures
      var content := WithEnds(EntryLines(entry, ExecCommand(launcher), tryExec, icon, appId, launcher));
      HasValue(content, GROUP, key, value) <==> value == written
  {
    hide ExecCommand, EntryLines, KeyLines, EntryKeys, OnlyAt, LastSays, HasValue, KeyValue, WithEnds, Lines, Spell;
    var exec := ExecCommand(launcher);
    EntryHasLines(entry, tryExec, icon, appId, launcher);
    LinesAreKeyLines(entry, exec, tryExec, icon, appId, launcher);
    EntryKeyed(entry, exec, tryExec, icon, appId, launcher);
    HasValueMeans(WithEnds(EntryLines(entry, exec, tryExec, icon, appId, launcher)), GROUP, key, value);
    SaysWritten(EntryKeys(entry), KeyLines(entry, exec, tryExec, icon, appId, launcher), m, key, written, value);
  }

  lemma NoComment(entry: Entry, tryExec: string, icon: string, appId: string, launcher: string, value: string)
    requires entry.comment == [] && OnlyAt(EntryKeys(entry), "Comment", |EntryKeys(entry)|)
    ensures
      var content := WithEnds(EntryLines(entry, ExecCommand(launcher), tryExec, icon, appId, launcher));
      !HasValue(content, GROUP, "Comment", value)
  {
    hide ExecCommand, EntryLines, KeyLines, EntryKeys, Keyed, LastSays, HasValue, KeyValue, WithEnds, Lines, Spell;
    var exec := ExecCommand(launcher);
    EntryHasLines(entry, tryExec, icon, appId, launcher);
    LinesAreKeyLines(entry, exec, tryExec, icon, appId, launcher);
    EntryKeyed(entry, exec, tryExec, icon, appId, launcher);
    HasValueMeans(WithEnds(EntryLines(entry, exec, tryExec, icon, appId, launcher)), GROUP, "Comment", value);
    assert IsKey("Comment");
    KeyedDecides(EntryKeys(entry), KeyLines(entry, exec, tryExec, icon, appId, launcher), |EntryKeys(entry)|, "Comment", Escape(value));
  }

  lemma ExecIsSaid(entry: Entry, tryExec: string, icon: string, appId: string, launcher: string)
    ensures
      var content := WithEnds(EntryLines(entry, ExecCommand(launcher), tryExec, icon, appId, launcher));
      LastSays(Lines(content), GROUP, "Exec", ExecCommand(launcher))
  {
    hide ExecCommand, EntryLines, KeyLines, EntryKeys, FirstKeys, ProgramKeys, Keyed, LastSays, KeyValue, WithEnds, Lines;
    var exec := ExecCommand(launcher);
    EntryHasLines(entry, tryExec, icon, appId, launcher);
    LinesAreKeyLines(entry, exec, tryExec, icon, appId, launcher);
    EntryKeyed(entry, exec, tryExec, icon, appId, launcher);
    EntryPlaces(entry);
    KeyLinesAt(entry, exec, tryExec, icon, appId, launcher);
    assert IsKey("Exec") && "Exec" + "=" == "Exec=";
    KeyedDecides(EntryKeys(entry), KeyLines(entry, exec, tryExec, icon, appId, launcher), |FirstKeys(entry)|, "Exec", exec);
  }
}
