/**
 The desktop entries of builder/src/muon_launcher.c: the string builder, string escaping,
 Exec quoting, the generated entry and the ownership test on it, against the value types
 and the Exec key of the Desktop Entry Specification.
 */
module Desktop {
  import opened Common
  import opened TextLines

  const SIZE_MAX: nat := 0xFFFF_FFFF_FFFF_FFFF

  /** A text whose terminator still fits the address range. */
  predicate Fits(text: string) { |text| + 1 <= SIZE_MAX }

  // ----------------------------------------------------------- the string builder

  /** A growing buffer that always holds a terminated string. */
  class StringBuilder {
    var content: array?<char>
    var length: nat

    ghost predicate Valid()
      reads this, content
    {
      if content == null then length == 0
      else length < content.Length <= SIZE_MAX && content[length] == '\0'
    }

    ghost function Text(): (text: string)
      requires Valid()
      reads this, content
      ensures Fits(text)
    {
      if content == null then [] else content[..length]
    }

    constructor ()
      ensures Valid() && Text() == [] && content == null
    {
      content, length := null, 0;
    }

    /** Makes room for more characters and the terminator, doubling while it can. */
    method Reserve(additional: nat) returns (ok: bool)
      requires Valid()
      modifies this
      ensures ok <==> length + additional + 1 <= SIZE_MAX
      ensures length == old(length)
      ensures content == old(content) || fresh(content)
      ensures !ok ==> content == old(content)
      ensures ok ==> content != null && length + additional < content.Length <= SIZE_MAX && content[..length] == old(Text())
    {
      if additional > SIZE_MAX - length - 1 {
        return false;
      }
      var required := length + additional + 1;
      if content != null && required <= content.Length {
        return true;
      }
      var capacity := if content == null then 128 else content.Length;
      while capacity < required
        invariant 0 < capacity <= SIZE_MAX
      {
        if capacity > SIZE_MAX / 2 {
          capacity := required;
          break;
        }
        capacity := capacity * 2;
      }
      var grown := new char[capacity];
      if content != null {
        forall i | 0 <= i < length { grown[i] := content[i]; }
      }
      content := grown;
      return true;
    }

    method Append(value: string) returns (ok: bool)
      requires Valid()
      modifies this, content
      ensures Valid() && (content == old(content) || fresh(content))
      ensures ok <==> Fits(old(Text()) + value)
      ensures Text() == if ok then old(Text()) + value else old(Text())
    {
      ok := Reserve(|value|);
      if !ok {
        return;
      }
      forall i | 0 <= i < |value| { content[length + i] := value[i]; }
      length := length + |value|;
      content[length] := '\0';
    }

    /** Hands the text over. */
    method Take() returns (text: string)
      requires Valid()
      modifies this
      ensures text == old(Text()) && Valid() && Text() == []
    {
      if content == null {
        return "";
      }
      text := content[..length];
      content, length := null, 0;
    }
  }

  // ---------------------------------------------------------- escaping and quoting

  /** How one character is written: in a string value, or in a quoted Exec argument. */
  datatype Style = StringValue | ExecArgument(fieldCodes: bool) | Percent

  function Image(style: Style, c: char): (r: string)
    ensures 0 < |r| <= 2
  {
    match style
    case StringValue =>
      if c == '\n' then "\\n" else if c == '\r' then "\\r" else if c == '\t' then "\\t"
      else if c == '\\' then "\\\\" else [c]
    case ExecArgument(fieldCodes) =>
      if c == '"' || c == '\\' || c == '$' || c == '`' then ['\\', c]
      else if fieldCodes && c == '%' then "%%" else [c]
    case Percent => if c == '%' then "%%" else [c]
  }

  function Spell(style: Style, s: string): string {
    if s == [] then [] else Image(style, s[0]) + Spell(style, s[1..])
  }

  lemma {:induction false} SpellAppend(style: Style, a: string, b: string)
    ensures Spell(style, a + b) == Spell(style, a) + Spell(style, b)
  {
    if a == [] {
      assert a + b == b;
    } else {
      assert (a + b)[0] == a[0] && (a + b)[1..] == a[1..] + b;
      SpellAppend(style, a[1..], b);
      Assoc(Image(style, a[0]), Spell(style, a[1..]), Spell(style, b));
    }
  }

  lemma SpellNext(style: Style, s: string, i: nat)
    requires i < |s|
    ensures Spell(style, s[..i + 1]) == Spell(style, s[..i]) + Image(style, s[i])
    ensures |Spell(style, s[..i + 1])| <= |Spell(style, s)|
  {
    assert s[..i + 1] == s[..i] + [s[i]] && s == s[..i + 1] + s[i + 1..];
    SpellAppend(style, s[..i], [s[i]]);
    SpellAppend(style, s[..i + 1], s[i + 1..]);
    assert [s[i]][1..] == [];
    assert Spell(style, [s[i]]) == Image(style, s[i]);
  }

  lemma SpellNone(style: Style, s: string)
    ensures Spell(style, s[..0]) == []
  {
  }

  function EscapeLetter(c: char): char {
    if c == '\n' then 'n' else if c == '\r' then 'r' else if c == '\t' then 't' else if c == '\\' then '\\' else '\0'
  }

  lemma LetterImage(c: char)
    ensures Image(StringValue, c) == if EscapeLetter(c) != '\0' then ['\\'] + [EscapeLetter(c)] else [c]
  {
  }

  function Escape(s: string): string { Spell(StringValue, s) }

  function Quoted(s: string, fieldCodes: bool): string { "\"" + Spell(ExecArgument(fieldCodes), s) + "\"" }

  /** The escaped text, unless it does not fit. */
  method EscapeDesktopString(value: string) returns (escaped: Option<string>)
    ensures escaped == if Fits(Escape(value)) then Some(Escape(value)) else None
  {
    hide Spell, Image;
    var builder := new StringBuilder();
    SpellNone(StringValue, value);
    for i := 0 to |value|
      invariant builder.Valid() && fresh(builder) && (builder.content == null || fresh(builder.content))
      invariant builder.Text() == Escape(value[..i])
    {
      SpellNext(StringValue, value, i);
      var c := value[i];
      var letter := EscapeLetter(c);
      LetterImage(c);
      if letter != '\0' {
        var slash := builder.Append(['\\']);
        if !slash {
          return None;
        }
        var named := builder.Append([letter]);
        if !named {
          return None;
        }
      } else {
        var plain := builder.Append([c]);
        if !plain {
          return None;
        }
      }
    }
    assert value[..|value|] == value;
    var text := builder.Take();
    return Some(text);
  }

  lemma {:induction false} SpellLonger(style: Style, s: string)
    ensures |Spell(style, s)| >= |s|
  {
    if s != [] {
      SpellLonger(style, s[1..]);
    }
  }

  method QuoteExecArgument(value: string, expandFieldCodes: bool) returns (quoted: Option<string>)
    ensures
      var r := Escape(Quoted(value, expandFieldCodes));
      quoted == if Fits(r) then Some(r) else None
  {
    hide Spell, Image;
    var style := ExecArgument(expandFieldCodes);
    SpellLonger(StringValue, Quoted(value, expandFieldCodes));
    var builder := new StringBuilder();
    SpellNone(style, value);
    var ok := builder.Append("\"");
    if !ok {
      return None;
    }
    for i := 0 to |value|
      invariant builder.Valid() && fresh(builder) && (builder.content == null || fresh(builder.content))
      invariant builder.Text() == "\"" + Spell(style, value[..i])
    {
      QuotedNext(style, value, i);
      var c := value[i];
      ArgumentImage(expandFieldCodes, c);
      ghost var before := "\"" + Spell(style, value[..i]);
      if c == '"' || c == '\\' || c == '$' || c == '`' || (expandFieldCodes && c == '%') {
        var mark := if c == '%' then '%' else '\\';
        ok := builder.Append([mark]);
        if !ok {
          return None;
        }
        Assoc(before, [mark], [c]);
      }
      ok := builder.Append([c]);
      if !ok {
        return None;
      }
    }
    assert value[..|value|] == value;
    ok := builder.Append("\"");
    if !ok {
      return None;
    }
    var text := builder.Take();
    quoted := EscapeDesktopString(text);
  }

  lemma QuotedNext(style: Style, s: string, i: nat)
    requires i < |s|
    ensures "\"" + Spell(style, s[..i + 1]) == "\"" + Spell(style, s[..i]) + Image(style, s[i])
    ensures |Spell(style, s[..i])| + |Image(style, s[i])| <= |Spell(style, s)|
  {
    SpellNext(style, s, i);
    Assoc("\"", Spell(style, s[..i]), Image(style, s[i]));
  }

  lemma ArgumentImage(fieldCodes: bool, c: char)
    ensures Image(ExecArgument(fieldCodes), c)
         == if c == '"' || c == '\\' || c == '$' || c == '`' || (fieldCodes && c == '%')
            then [if c == '%' then '%' else '\\'] + [c] else [c]
  {
  }

  // -------------------------------------------- the Desktop Entry Specification's readers

  /** Undoes the escapes of a value of type string. */
  function Unescape(s: string): Option<string> {
    if s == [] then Some([])
    else if s[0] != '\\' then Before([s[0]], Unescape(s[1..]))
    else if |s| == 1 then None
    else match s[1]
      case 's' => Before(" ", Unescape(s[2..]))
      case 'n' => Before("\n", Unescape(s[2..]))
      case 't' => Before("\t", Unescape(s[2..]))
      case 'r' => Before("\r", Unescape(s[2..]))
      case '\\' => Before("\\", Unescape(s[2..]))
      case _ => None
  }

  function Before(prefix: string, rest: Option<string>): Option<string> {
    if rest.Some? then Some(prefix + rest.value) else None
  }

  lemma {:induction false} UnescapeSpelled(s: string, rest: string)
    ensures Unescape(Escape(s) + rest) == Before(s, Unescape(rest))
  {
    hide Unescape, Image;
    if s == [] {
      assert Escape(s) + rest == rest && (Unescape(rest).Some? ==> [] + Unescape(rest).value == Unescape(rest).value);
    } else {
      UnescapeSpelled(s[1..], rest);
      var image, tail := Image(StringValue, s[0]), Escape(s[1..]) + rest;
      Assoc(image, Escape(s[1..]), rest);
      UnescapeImage(s[0], tail);
      assert Unescape(rest).Some? ==> [s[0]] + (s[1..] + Unescape(rest).value) == s + Unescape(rest).value;
    }
  }

  lemma UnescapeImage(c: char, tail: string)
    ensures Unescape(Image(StringValue, c) + tail) == Before([c], Unescape(tail))
  {
    var image := Image(StringValue, c);
    assert (image + tail)[|image|..] == tail;
    assert (image + tail)[0] == image[0];
  }

  /** Escaping loses nothing. */
  lemma EscapeRoundTrip(s: string)
    ensures Unescape(Escape(s)) == Some(s)
  {
    UnescapeSpelled(s, []);
    assert Escape(s) + [] == Escape(s) && s + [] == s;
  }

  lemma EscapeInjective(a: string, b: string)
    requires Escape(a) == Escape(b)
    ensures a == b
  {
    EscapeRoundTrip(a);
    EscapeRoundTrip(b);
  }

  /** The rest of a quoted argument after its opening quote, and what follows the closing one. */
  function ReadQuoted(s: string): (r: Option<(string, string)>)
    ensures r.Some? ==> |r.value.1| < |s|
  {
    if s == [] then None
    else if s[0] == '"' then Some(([], s[1..]))
    else if s[0] == '`' || s[0] == '$' then None
    else if s[0] != '\\' then Prepend(s[0], ReadQuoted(s[1..]))
    else if |s| == 1 || !(s[1] == '"' || s[1] == '`' || s[1] == '$' || s[1] == '\\') then None
    else Prepend(s[1], ReadQuoted(s[2..]))
  }

  function Prepend(c: char, rest: Option<(string, string)>): Option<(string, string)> {
    if rest.Some? then Some(([c] + rest.value.0, rest.value.1)) else None
  }

  predicate Reserved(c: char) {
    c == ' ' || c == '\t' || c == '\n' || c == '"' || c == '\'' || c == '\\' || c == '>' || c == '<' || c == '~' || c == '|'
    || c == '&' || c == ';' || c == '$' || c == '*' || c == '?' || c == '#' || c == '(' || c == ')' || c == '`'
  }

  /** An argument without quotes, up to a space or the end. */
  function ReadPlain(s: string): (r: Option<(string, string)>)
    ensures r.Some? ==> |r.value.1| <= |s| && (s != [] && s[0] != ' ' ==> |r.value.1| < |s|)
  {
    if s == [] || s[0] == ' ' then Some(([], s))
    else if Reserved(s[0]) then None
    else Prepend(s[0], ReadPlain(s[1..]))
  }

  /** The arguments of a command line whose string escapes are undone. */
  function Arguments(s: string): Option<seq<string>>
    decreases |s|
  {
    if s == [] then Some([])
    else if s[0] == ' ' then Arguments(s[1..])
    else
      var first := if s[0] == '"' then ReadQuoted(s[1..]) else ReadPlain(s);
      if first.None? || (first.value.1 != [] && first.value.1[0] != ' ') then None
      else
        var others := Arguments(first.value.1);
        if others.Some? then Some([first.value.0] + others.value) else None
  }

  /** Field codes: only a doubled percent sign stands for a character. */
  function ExpandFields(s: string): Option<string> {
    if s == [] then Some([])
    else if s[0] != '%' then Before([s[0]], ExpandFields(s[1..]))
    else if |s| > 1 && s[1] == '%' then Before("%", ExpandFields(s[2..]))
    else None
  }

  function ExpandEach(arguments: seq<string>): Option<seq<string>> {
    if arguments == [] then Some([])
    else
      var first, others := ExpandFields(arguments[0]), ExpandEach(arguments[1..]);
      if first.Some? && others.Some? then Some([first.value] + others.value) else None
  }

  /** What an Exec value runs: escapes, then quoting, then field codes. */
  function ReadExec(value: string): Option<seq<string>> {
    var arguments := ReadServiceExec(value);
    if arguments.None? then None else ExpandEach(arguments.value)
  }

  /** The Exec value of a D-Bus service: escapes and quoting, no field codes. */
  function ReadServiceExec(value: string): Option<seq<string>> {
    var text := Unescape(value);
    if text.None? then None else Arguments(text.value)
  }

  lemma {:induction false} ExpandSpelled(s: string)
    ensures ExpandFields(Spell(Percent, s)) == Some(s)
  {
    if s != [] {
      ExpandSpelled(s[1..]);
      var image, tail := Image(Percent, s[0]), Spell(Percent, s[1..]);
      assert (image + tail)[|image|..] == tail;
      assert (image + tail)[1..] == image[1..] + tail;
      assert [s[0]] + s[1..] == s;
    }
  }

  /** The text a quoted argument stands for: the argument, with percent signs doubled when they are field codes. */
  function Meant(s: string, fieldCodes: bool): string {
    if fieldCodes then Spell(Percent, s) else s
  }

  lemma {:induction false} ReadSpelled(s: string, fieldCodes: bool, rest: string)
    ensures ReadQuoted(Spell(ExecArgument(fieldCodes), s) + "\"" + rest) == Some((Meant(s, fieldCodes), rest))
  {
    var style := ExecArgument(fieldCodes);
    var ending := "\"" + rest;
    Assoc(Spell(style, s), "\"", rest);
    if s == [] {
      assert Spell(style, s) + ending == ending && ending[1..] == rest;
    } else {
      ReadSpelled(s[1..], fieldCodes, rest);
      var image, tail := Image(style, s[0]), Spell(style, s[1..]) + ending;
      Assoc(image, Spell(style, s[1..]), ending);
      Assoc(Spell(style, s[1..]), "\"", rest);
      ReadImage(s[0], fieldCodes, tail);
      assert [s[0]] + s[1..] == s;
      if fieldCodes && s[0] == '%' {
        assert ['%'] + (['%'] + Meant(s[1..], true)) == "%%" + Meant(s[1..], true);
      }
    }
  }

  lemma ReadImage(c: char, fieldCodes: bool, tail: string)
    ensures ReadQuoted(Image(ExecArgument(fieldCodes), c) + tail)
         == if fieldCodes && c == '%' then Prepend('%', Prepend('%', ReadQuoted(tail))) else Prepend(c, ReadQuoted(tail))
  {
  }

  const NORMAL_ARGUMENT := "--muon-launch-from=normal"
  const ENV_PREFIX := "/usr/bin/env "

  function ExecCommand(launcher: string): string {
    (if '%' in launcher then ENV_PREFIX else "") + Escape(Quoted(launcher, true)) + " " + NORMAL_ARGUMENT
  }

  method CreateDesktopExecCommand(launcher: string) returns (command: Option<string>)
    ensures command == if Fits(Escape(Quoted(launcher, true))) then Some(ExecCommand(launcher)) else None
  {
    var quoted := QuoteExecArgument(launcher, true);
    if quoted.None? {
      return None;
    }
    var prefix := if '%' in launcher then ENV_PREFIX else "";
    return Some(prefix + quoted.value + " " + NORMAL_ARGUMENT);
  }

  /** A word with no reserved character is read as it is. */
  lemma {:induction false} ReadWord(word: string, rest: string)
    requires forall c | c in word :: !Reserved(c)
    requires rest == [] || rest[0] == ' '
    ensures ReadPlain(word + rest) == Some((word, rest))
  {
    if word == [] {
      assert word + rest == rest;
    } else {
      assert word[0] in word;
      assert (word + rest)[1..] == word[1..] + rest;
      ReadWord(word[1..], rest);
      assert [word[0]] + word[1..] == word;
    }
  }

  lemma ArgumentWord(word: string, rest: string)
    requires word != [] && forall c | c in word :: !Reserved(c)
    requires rest == [] || rest[0] == ' '
    ensures Arguments(word + rest) == match Arguments(rest) case None => None case Some(others) => Some([word] + others)
  {
    assert word[0] in word && (word + rest)[0] == word[0];
    ReadWord(word, rest);
  }

  lemma ArgumentQuoted(s: string, fieldCodes: bool, rest: string)
    requires rest == [] || rest[0] == ' '
    ensures Arguments(Quoted(s, fieldCodes) + rest)
         == match Arguments(rest) case None => None case Some(others) => Some([Meant(s, fieldCodes)] + others)
  {
    var body := Spell(ExecArgument(fieldCodes), s);
    assert (Quoted(s, fieldCodes) + rest)[1..] == body + "\"" + rest;
    ReadSpelled(s, fieldCodes, rest);
  }

  lemma PlainUnescapes(s: string)
    requires '\\' !in s
    ensures Unescape(s) == Some(s)
  {
    if s != [] {
      PlainUnescapes(s[1..]);
      assert [s[0]] + s[1..] == s;
    }
  }

  lemma {:induction false} PlainExpands(s: string)
    requires '%' !in s
    ensures ExpandFields(s) == Some(s)
  {
    if s != [] {
      PlainExpands(s[1..]);
      assert [s[0]] + s[1..] == s;
    }
  }

  lemma {:induction false} PlainBefore(prefix: string, rest: string)
    requires '\\' !in prefix
    ensures Unescape(prefix + rest) == Before(prefix, Unescape(rest))
  {
    if prefix == [] {
      assert prefix + rest == rest && (Unescape(rest).Some? ==> [] + Unescape(rest).value == Unescape(rest).value);
    } else {
      assert (prefix + rest)[1..] == prefix[1..] + rest;
      PlainBefore(prefix[1..], rest);
      assert Unescape(rest).Some? ==> [prefix[0]] + (prefix[1..] + Unescape(rest).value) == prefix + Unescape(rest).value;
    }
  }

  /** The arguments of a quoted path and one plain word after it. */
  lemma QuotedThenWord(path: string, fieldCodes: bool, word: string)
    requires word != [] && IsWord(word)
    ensures Unescape(Escape(Quoted(path, fieldCodes)) + " " + word) == Some(Quoted(path, fieldCodes) + (" " + word))
    ensures Arguments(Quoted(path, fieldCodes) + (" " + word)) == Some([Meant(path, fieldCodes), word])
  {
    hide Quoted, Spell;
    var rest := " " + word;
    assert '\\' !in word;
    assert '\\' !in rest;
    Assoc(Escape(Quoted(path, fieldCodes)), " ", word);
    PlainUnescapes(rest);
    UnescapeSpelled(Quoted(path, fieldCodes), rest);
    ArgumentQuoted(path, fieldCodes, rest);
    assert rest[1..] == word && word + [] == word;
    ArgumentWord(word, []);
    assert [word] + [] == [word];
    assert [Meant(path, fieldCodes)] + [word] == [Meant(path, fieldCodes), word];
  }

  predicate IsWord(s: string) { forall c | c in s :: !Reserved(c) && c != '%' }

  lemma NormalIsWord()
    ensures IsWord(NORMAL_ARGUMENT)
  {
  }

  lemma EnvIsWord()
    ensures IsWord("/usr/bin/env")
  {
  }

  lemma NotificationIsWord()
    ensures IsWord(NOTIFICATION_ARGUMENT)
  {
  }

  /** A desktop's Exec runs the launcher with its argument, through env exactly when the path has a percent sign. */
  lemma ExecRoundTrip(launcher: string)
    ensures ReadExec(ExecCommand(launcher))
         == Some((if '%' in launcher then ["/usr/bin/env"] else []) + [launcher, NORMAL_ARGUMENT])
  {
    hide Quoted, Spell, Arguments, Unescape, ExpandFields, Reserved;
    var env := "/usr/bin/env";
    var quoted := Quoted(launcher, true) + (" " + NORMAL_ARGUMENT);
    NormalIsWord();
    EnvIsWord();
    QuotedThenWord(launcher, true, NORMAL_ARGUMENT);
    ExpandSpelled(launcher);
    PlainExpands(NORMAL_ARGUMENT);
    ExpandTwo(Meant(launcher, true), launcher, NORMAL_ARGUMENT);
    var written := Escape(Quoted(launcher, true)) + " " + NORMAL_ARGUMENT;
    if '%' in launcher {
      assert ExecCommand(launcher) == ENV_PREFIX + written;
      assert '\\' !in ENV_PREFIX;
      PlainBefore(ENV_PREFIX, written);
      EnvFirst(quoted);
      PlainExpands(env);
      assert ([env] + [Meant(launcher, true), NORMAL_ARGUMENT])[1..] == [Meant(launcher, true), NORMAL_ARGUMENT];
    } else {
      assert ExecCommand(launcher) == written;
      assert [] + [launcher, NORMAL_ARGUMENT] == [launcher, NORMAL_ARGUMENT];
    }
  }

  lemma EnvFirst(rest: string)
    requires Arguments(rest).Some?
    ensures Arguments(ENV_PREFIX + rest) == Some(["/usr/bin/env"] + Arguments(rest).value)
  {
    hide Arguments, Reserved;
    EnvIsWord();
    var tail := " " + rest;
    assert ENV_PREFIX + rest == "/usr/bin/env" + tail;
    ArgumentWord("/usr/bin/env", tail);
    SpaceSkipped(rest);
  }

  lemma SpaceSkipped(rest: string)
    ensures Arguments(" " + rest) == Arguments(rest)
  {
  }

  lemma ExpandTwo(meant: string, launcher: string, word: string)
    requires ExpandFields(meant) == Some(launcher) && ExpandFields(word) == Some(word)
    ensures ExpandEach([meant, word]) == Some([launcher, word])
  {
    hide ExpandFields;
    assert [meant, word][1..] == [word] && [word][1..] == [];
    assert ExpandEach([]) == Some([]);
    assert ExpandEach([word]) == Some([word]) by { assert [word] + [] == [word]; }
    assert [launcher] + [word] == [launcher, word];
  }

  const NOTIFICATION_ARGUMENT := "--muon-notification-activation"

  /** The D-Bus service's Exec, which knows no field codes, starts the launcher as well. */
  lemma NotificationExecRoundTrip(launcher: string)
    ensures ReadServiceExec(Escape(Quoted(launcher, false)) + " " + NOTIFICATION_ARGUMENT) == Some([launcher, NOTIFICATION_ARGUMENT])
  {
    hide Arguments, Unescape, Quoted, Reserved;
    NotificationIsWord();
    QuotedThenWord(launcher, false, NOTIFICATION_ARGUMENT);
  }

  // ------------------------------------------------------------ the generated entry

  datatype Entry = Entry(
    id: string, name: string, comment: string, categories: seq<string>, startupNotify: bool, notifications: bool)

  function KeyValue(key: string, value: string): string { key + "=" + Escape(value) }

  function Categories(categories: seq<string>): string {
    if categories == [] then [] else Categories(categories[..|categories| - 1]) + Escape(categories[|categories| - 1]) + ";"
  }

  function EntryLines(entry: Entry, exec: string, tryExec: string, icon: string, appId: string, launcher: string): seq<string> {
    ["[Desktop Entry]"] + EntryBody(entry, exec, tryExec, icon)
    + (if entry.notifications then [KeyValue("X-muon-AppId", appId), KeyValue("X-muon-Launcher", launcher)] else [])
  }

  /** The lines between the header and the ownership keys. */
  function EntryBody(entry: Entry, exec: string, tryExec: string, icon: string): seq<string> {
    ["Type=Application", KeyValue("Name", entry.name)]
    + (if entry.comment != [] then [KeyValue("Comment", entry.comment)] else [])
    + ["Exec=" + exec, KeyValue("TryExec", tryExec), KeyValue("Icon", icon), "Terminal=false"]
    + (if entry.categories != [] then ["Categories=" + Categories(entry.categories)] else [])
    + [if entry.startupNotify then "StartupNotify=true" else "StartupNotify=false",
       KeyValue("StartupWMClass", entry.id), "X-muon-Managed=true"]
    + (if entry.notifications then ["DBusActivatable=true"] else [])
  }

  method AppendLine(builder: StringBuilder, line: string, ghost lines: seq<string>, ghost n: nat) returns (ok: bool)
    requires builder.Valid() && n < |lines| && lines[n] == line && builder.Text() == WithEnds(lines[..n])
    modifies builder, builder.content
    ensures builder.Valid() && (builder.content == old(builder.content) || fresh(builder.content))
    ensures ok ==> builder.Text() == WithEnds(lines[..n + 1])
    ensures !ok ==> !Fits(WithEnds(lines))
  {
    hide WithEnds;
    EndsNext(lines, n);
    EndsShorter(lines, n + 1);
    ok := builder.Append(line + "\n");
  }

  method AppendDesktopEntryKeyValue(builder: StringBuilder, key: string, value: string, ghost lines: seq<string>, ghost n: nat)
    returns (ok: bool)
    requires builder.Valid() && n < |lines| && lines[n] == KeyValue(key, value) && builder.Text() == WithEnds(lines[..n])
    modifies builder, builder.content
    ensures builder.Valid() && (builder.content == old(builder.content) || fresh(builder.content))
    ensures ok ==> builder.Text() == WithEnds(lines[..n + 1])
    ensures !ok ==> !Fits(WithEnds(lines))
  {
    hide WithEnds, Spell;
    EndsNext(lines, n);
    EndsShorter(lines, n + 1);
    var escaped := EscapeDesktopString(value);
    if escaped.None? {
      return false;
    }
    ok := AppendLine(builder, key + "=" + escaped.value, lines, n);
  }

  method CreateDesktopCategories(categories: seq<string>) returns (text: Option<string>)
    ensures text == if Fits(Categories(categories)) then Some(Categories(categories)) else None
  {
    hide Spell;
    var builder := new StringBuilder();
    for n := 0 to |categories|
      invariant builder.Valid() && fresh(builder) && (builder.content == null || fresh(builder.content))
      invariant builder.Text() == Categories(categories[..n])
    {
      CategoriesNext(categories, n);
      var escaped := EscapeDesktopString(categories[n]);
      if escaped.None? {
        return None;
      }
      var ok := builder.Append(escaped.value + ";");
      if !ok {
        return None;
      }
    }
    assert categories[..|categories|] == categories;
    var joined := builder.Take();
    return Some(joined);
  }

  lemma {:induction false} CategoriesNext(categories: seq<string>, n: nat)
    requires n < |categories|
    ensures Categories(categories[..n + 1]) == Categories(categories[..n]) + (Escape(categories[n]) + ";")
    ensures |Categories(categories[..n + 1])| <= |Categories(categories)|
    decreases |categories| - n
  {
    hide Spell;
    assert categories[..n + 1][..n] == categories[..n];
    Assoc(Categories(categories[..n]), Escape(categories[n]), ";");
    if n + 1 < |categories| {
      CategoriesNext(categories, n + 1);
    } else {
      assert categories[..n + 1] == categories;
    }
  }

  ghost predicate HeadAt(lines: seq<string>, entry: Entry) {
    && |lines| >= 4
    && lines[0] == "[Desktop Entry]" && lines[1] == "Type=Application" && lines[2] == KeyValue("Name", entry.name)
    && (entry.comment != [] ==> lines[3] == KeyValue("Comment", entry.comment))
  }

  ghost predicate ProgramsAt(lines: seq<string>, n: nat, exec: string, tryExec: string, icon: string) {
    && n + 4 <= |lines|
    && lines[n] == "Exec=" + exec && lines[n + 1] == KeyValue("TryExec", tryExec)
    && lines[n + 2] == KeyValue("Icon", icon) && lines[n + 3] == "Terminal=false"
  }

  ghost predicate WindowAt(lines: seq<string>, n: nat, entry: Entry) {
    && n + 3 <= |lines|
    && lines[n] == (if entry.startupNotify then "StartupNotify=true" else "StartupNotify=false")
    && lines[n + 1] == KeyValue("StartupWMClass", entry.id) && lines[n + 2] == "X-muon-Managed=true"
  }

  ghost predicate NotificationsAt(lines: seq<string>, n: nat, appId: string, launcher: string) {
    && n + 3 <= |lines|
    && lines[n] == "DBusActivatable=true" && lines[n + 1] == KeyValue("X-muon-AppId", appId)
    && lines[n + 2] == KeyValue("X-muon-Launcher", launcher)
  }

  method AppendHead(builder: StringBuilder, entry: Entry, ghost lines: seq<string>) returns (ok: bool)
    requires HeadAt(lines, entry)
    requires builder.Valid() && builder.Text() == []
    modifies builder, builder.content
    ensures builder.Valid() && (builder.content == old(builder.content) || fresh(builder.content))
    ensures ok ==> builder.Text() == WithEnds(lines[..if entry.comment != [] then 4 else 3])
    ensures !ok ==> !Fits(WithEnds(lines))
  {
    hide WithEnds, KeyValue;
    NoLines(lines);
    ok := AppendLine(builder, "[Desktop Entry]", lines, 0);
    if !ok { return; }
    ok := AppendLine(builder, "Type=Application", lines, 1);
    if !ok { return; }
    ok := AppendDesktopEntryKeyValue(builder, "Name", entry.name, lines, 2);
    if !ok { return; }
    if entry.comment != [] {
      ok := AppendDesktopEntryKeyValue(builder, "Comment", entry.comment, lines, 3);
    }
  }

  method AppendPrograms(builder: StringBuilder, exec: string, tryExec: string, icon: string, ghost lines: seq<string>, ghost n: nat)
    returns (ok: bool)
    requires ProgramsAt(lines, n, exec, tryExec, icon)
    requires builder.Valid() && builder.Text() == WithEnds(lines[..n])
    modifies builder, builder.content
    ensures builder.Valid() && (builder.content == old(builder.content) || fresh(builder.content))
    ensures ok ==> builder.Text() == WithEnds(lines[..n + 4])
    ensures !ok ==> !Fits(WithEnds(lines))
  {
    hide WithEnds, KeyValue;
    ok := AppendLine(builder, "Exec=" + exec, lines, n);
    if !ok { return; }
    ok := AppendDesktopEntryKeyValue(builder, "TryExec", tryExec, lines, n + 1);
    if !ok { return; }
    ok := AppendDesktopEntryKeyValue(builder, "Icon", icon, lines, n + 2);
    if !ok { return; }
    ok := AppendLine(builder, "Terminal=false", lines, n + 3);
  }

  method AppendWindow(builder: StringBuilder, entry: Entry, ghost lines: seq<string>, ghost n: nat) returns (ok: bool)
    requires WindowAt(lines, n, entry)
    requires builder.Valid() && builder.Text() == WithEnds(lines[..n])
    modifies builder, builder.content
    ensures builder.Valid() && (builder.content == old(builder.content) || fresh(builder.content))
    ensures ok ==> builder.Text() == WithEnds(lines[..n + 3])
    ensures !ok ==> !Fits(WithEnds(lines))
  {
    hide WithEnds, KeyValue;
    ok := AppendLine(builder, if entry.startupNotify then "StartupNotify=true" else "StartupNotify=false", lines, n);
    if !ok { return; }
    ok := AppendDesktopEntryKeyValue(builder, "StartupWMClass", entry.id, lines, n + 1);
    if !ok { return; }
    ok := AppendLine(builder, "X-muon-Managed=true", lines, n + 2);
  }

  method AppendNotifications(builder: StringBuilder, appId: string, launcher: string, ghost lines: seq<string>, ghost n: nat)
    returns (ok: bool)
    requires NotificationsAt(lines, n, appId, launcher)
    requires builder.Valid() && builder.Text() == WithEnds(lines[..n])
    modifies builder, builder.content
    ensures builder.Valid() && (builder.content == old(builder.content) || fresh(builder.content))
    ensures ok ==> builder.Text() == WithEnds(lines[..n + 3])
    ensures !ok ==> !Fits(WithEnds(lines))
  {
    hide WithEnds, KeyValue;
    ok := AppendLine(builder, "DBusActivatable=true", lines, n);
    if !ok { return; }
    ok := AppendDesktopEntryKeyValue(builder, "X-muon-AppId", appId, lines, n + 1);
    if !ok { return; }
    ok := AppendDesktopEntryKeyValue(builder, "X-muon-Launcher", launcher, lines, n + 2);
  }

  /** The generated entry, unless it does not fit. */
  method CreateDesktopEntryContent(entry: Entry, exec: string, tryExec: string, icon: string, appId: string, launcher: string)
    returns (content: Option<string>)
    ensures
      var text := WithEnds(EntryLines(entry, exec, tryExec, icon, appId, launcher));
      content == if Fits(text) then Some(text) else None
  {
    hide WithEnds, KeyValue, Categories, EntryLines, HeadAt, ProgramsAt, WindowAt, NotificationsAt;
    ghost var lines := EntryLines(entry, exec, tryExec, icon, appId, launcher);
    ghost var c, k := if entry.comment != [] then 1 else 0, if entry.categories != [] then 1 else 0;
    EntryLineAt(entry, exec, tryExec, icon, appId, launcher);
    var builder := new StringBuilder();
    var ok := AppendHead(builder, entry, lines);
    if !ok { return None; }
    ok := AppendPrograms(builder, exec, tryExec, icon, lines, 3 + c);
    if !ok { return None; }
    if entry.categories != [] {
      CategoriesLine(lines, 7 + c, entry.categories);
      var categories := CreateDesktopCategories(entry.categories);
      if categories.None? { return None; }
      ok := AppendLine(builder, "Categories=" + categories.value, lines, 7 + c);
      if !ok { return None; }
    }
    ok := AppendWindow(builder, entry, lines, 7 + c + k);
    if !ok { return None; }
    if entry.notifications {
      ok := AppendNotifications(builder, appId, launcher, lines, 10 + c + k);
      if !ok { return None; }
    }
    assert lines[..|lines|] == lines;
    var text := builder.Take();
    return Some(text);
  }

  lemma CategoriesLine(lines: seq<string>, n: nat, categories: seq<string>)
    requires n < |lines| && lines[n] == "Categories=" + Categories(categories)
    ensures Fits(WithEnds(lines)) ==> Fits(Categories(categories))
  {
    hide Categories, WithEnds;
    EndsNext(lines, n);
    EndsShorter(lines, n + 1);
  }

  lemma EntryLineAt(entry: Entry, exec: string, tryExec: string, icon: string, appId: string, launcher: string)
    ensures
      var lines := EntryLines(entry, exec, tryExec, icon, appId, launcher);
      var (c, k) := (if entry.comment != [] then 1 else 0, if entry.categories != [] then 1 else 0);
      && |lines| == 10 + c + k + (if entry.notifications then 3 else 0)
      && HeadAt(lines, entry)
      && ProgramsAt(lines, 3 + c, exec, tryExec, icon)
      && (entry.categories != [] ==> lines[7 + c] == "Categories=" + Categories(entry.categories))
      && WindowAt(lines, 7 + c + k, entry)
      && (entry.notifications ==> NotificationsAt(lines, 10 + c + k, appId, launcher))
  {
    hide KeyValue, Categories;
  }

  // -------------------------------------------------------------- the ownership test

  /** Whether the scan is in the group, and what the last key line there said. */
  datatype Scan = Scan(inGroup: bool, found: bool)

  function ScanLine(state: Scan, line: string, group: string, key: string, escaped: string): Scan {
    if line != [] && line[0] == '[' then state.(inGroup := line == "[" + group + "]")
    else if state.inGroup && key + "=" <= line then state.(found := line == key + "=" + escaped)
    else state
  }

  function ScanLines(lines: seq<string>, group: string, key: string, escaped: string): Scan {
    if lines == [] then Scan(false, false)
    else ScanLine(ScanLines(lines[..|lines| - 1], group, key, escaped), lines[|lines| - 1], group, key, escaped)
  }

  function HasValue(content: string, group: string, key: string, value: string): bool {
    ScanLines(Lines(content), group, key, Escape(value)).found
  }

  method EntryHasValue(content: string, group: string, key: string, value: string) returns (found: bool)
    ensures found == (Fits(Escape(value)) && HasValue(content, group, key, value))
  {
    hide Spell, Lines, ScanLines;
    var escaped := EscapeDesktopString(value);
    if escaped.None? {
      return false;
    }
    var inGroup := false;
    found := false;
    var at := 0;
    ghost var done: seq<string> := [];
    StartOfScan(content, group, key, escaped.value);
    while at < |content|
      invariant at <= |content|
      invariant Lines(content) == done + Lines(content[at..])
      invariant ScanLines(done, group, key, escaped.value) == Scan(inGroup, found)
      decreases |content| - at
    {
      var end := LineEnd(content[at..]);
      var line := content[at..at + end];
      NextLine(content, at);
      ScanNext(done, line, group, key, escaped.value);
      KeyLine(line, key, escaped.value);
      if line != [] && line[0] == '[' {
        inGroup := |line| == |group| + 2 && line[1..1 + |group|] == group && line[|line| - 1] == ']';
        GroupLine(line, group);
      } else if inGroup && |line| >= |key| + 1 && line[..|key|] == key && line[|key|] == '=' {
        found := |line| == |key| + |escaped.value| + 1 && line[|key| + 1..] == escaped.value;
      }
      Assoc(done, [line], if at + end == |content| then [] else Lines(content[at + end + 1..]));
      done := done + [line];
      if at + end == |content| {
        at := |content|;
        break;
      }
      at := at + end + 1;
    }
    NoMoreLines(content);
    assert done + [] == done;
  }

  lemma StartOfScan(content: string, group: string, key: string, escaped: string)
    ensures Lines(content) == [] + Lines(content[0..]) && ScanLines([], group, key, escaped) == Scan(false, false)
  {
  }

  lemma ScanNext(done: seq<string>, line: string, group: string, key: string, escaped: string)
    ensures ScanLines(done + [line], group, key, escaped) == ScanLine(ScanLines(done, group, key, escaped), line, group, key, escaped)
  {
  }

  lemma GroupLine(line: string, group: string)
    requires line != [] && line[0] == '['
    ensures line == "[" + group + "]" <==> |line| == |group| + 2 && line[1..1 + |group|] == group && line[|line| - 1] == ']'
  {
  }

  lemma KeyLine(line: string, key: string, escaped: string)
    ensures key + "=" <= line <==> |line| >= |key| + 1 && line[..|key|] == key && line[|key|] == '='
    ensures key + "=" <= line ==>
      (line == key + "=" + escaped <==> |line| == |key| + |escaped| + 1 && line[|key| + 1..] == escaped)
  {
  }

  // -------------------------------------------- what the test says of a generated entry

  /** A line that neither opens a group nor starts with the key. */
  predicate Neutral(line: string, key: string) {
    !(line != [] && line[0] == '[') && !(key + "=" <= line)
  }

  lemma {:induction false} NeutralLines(before: seq<string>, lines: seq<string>, group: string, key: string, escaped: string)
    requires forall line | line in lines :: Neutral(line, key)
    ensures ScanLines(before + lines, group, key, escaped) == ScanLines(before, group, key, escaped)
  {
    if lines == [] {
      assert before + lines == before;
    } else {
      var front, last := lines[..|lines| - 1], lines[|lines| - 1];
      hide ScanLines;
      assert forall line | line in front :: line in lines;
      NeutralLines(before, front, group, key, escaped);
      assert Neutral(last, key);
      ScanNext(before + front, last, group, key, escaped);
      assert before + lines == before + front + [last];
    }
  }

  lemma {:induction false} EscapedHasNoLineEnd(s: string)
    ensures '\n' !in Escape(s)
  {
    if s != [] {
      EscapedHasNoLineEnd(s[1..]);
      assert '\n' !in Image(StringValue, s[0]);
    }
  }

  lemma {:induction false} CategoriesHaveNoLineEnd(categories: seq<string>)
    ensures '\n' !in Categories(categories)
  {
    hide Spell;
    if categories != [] {
      CategoriesHaveNoLineEnd(categories[..|categories| - 1]);
      EscapedHasNoLineEnd(categories[|categories| - 1]);
    }
  }

  lemma KeyValueHasNoLineEnd(key: string, value: string)
    requires '\n' !in key
    ensures '\n' !in KeyValue(key, value)
  {
    hide Spell;
    EscapedHasNoLineEnd(value);
  }

  lemma ExecHasNoLineEnd(launcher: string)
    ensures '\n' !in "Exec=" + ExecCommand(launcher)
  {
    hide Spell;
    EscapedHasNoLineEnd(Quoted(launcher, true));
    NormalHasNoLineEnd();
  }

  lemma NormalHasNoLineEnd()
    ensures '\n' !in NORMAL_ARGUMENT && '\n' !in ENV_PREFIX
  {
  }

  /** A line written before the notification keys. */
  predicate Ordinary(line: string) {
    '\n' !in line && line != [] && line[0] != '[' && (line[0] == 'X' ==> |line| > 7 && line[7] == 'M')
  }

  lemma OrdinaryKeyValue(key: string, value: string)
    requires '\n' !in key && key != [] && key[0] != 'X' && key[0] != '['
    ensures Ordinary(KeyValue(key, value))
  {
    hide Spell;
    KeyValueHasNoLineEnd(key, value);
  }

  lemma BodyIsOrdinary(entry: Entry, launcher: string, tryExec: string, icon: string)
    ensures forall line | line in EntryBody(entry, ExecCommand(launcher), tryExec, icon) :: Ordinary(line)
  {
    hide KeyValue, Categories, ExecCommand, EntryBody, Ordinary;
    BodyMembers(entry, ExecCommand(launcher), tryExec, icon);
    LiteralsAreOrdinary(ExecCommand(launcher), entry.categories);
    OrdinaryKeyValue("Name", entry.name);
    OrdinaryKeyValue("Comment", entry.comment);
    OrdinaryKeyValue("TryExec", tryExec);
    OrdinaryKeyValue("Icon", icon);
    OrdinaryKeyValue("StartupWMClass", entry.id);
    ExecHasNoLineEnd(launcher);
  }

  lemma LiteralsAreOrdinary(exec: string, categories: seq<string>)
    ensures Ordinary("Type=Application") && Ordinary("Terminal=false") && Ordinary("StartupNotify=true")
    ensures Ordinary("StartupNotify=false") && Ordinary("X-muon-Managed=true") && Ordinary("DBusActivatable=true")
    ensures '\n' !in "Exec=" + exec ==> Ordinary("Exec=" + exec)
    ensures Ordinary("Categories=" + Categories(categories))
  {
    hide Categories, Ordinary;
    KindIsOrdinary();
    NotifyIsOrdinary();
    FlagsAreOrdinary();
    ExecIsOrdinary(exec);
    CategoriesAreOrdinary(categories);
  }

  lemma KindIsOrdinary()
    ensures Ordinary("Type=Application") && Ordinary("Terminal=false")
  {
  }

  lemma NotifyIsOrdinary()
    ensures Ordinary("StartupNotify=true") && Ordinary("StartupNotify=false")
  {
  }

  lemma FlagsAreOrdinary()
    ensures Ordinary("X-muon-Managed=true") && Ordinary("DBusActivatable=true")
  {
  }

  lemma ExecIsOrdinary(exec: string)
    ensures '\n' !in "Exec=" + exec ==> Ordinary("Exec=" + exec)
  {
  }

  lemma CategoriesAreOrdinary(categories: seq<string>)
    ensures Ordinary("Categories=" + Categories(categories))
  {
    hide Categories;
    CategoriesHaveNoLineEnd(categories);
  }

  lemma BodyMembers(entry: Entry, exec: string, tryExec: string, icon: string)
    ensures forall line | line in EntryBody(entry, exec, tryExec, icon) ::
      line in ["Type=Application", "Terminal=false", "StartupNotify=true", "StartupNotify=false", "X-muon-Managed=true",
               "DBusActivatable=true", "Exec=" + exec, "Categories=" + Categories(entry.categories),
               KeyValue("Name", entry.name), KeyValue("Comment", entry.comment), KeyValue("TryExec", tryExec),
               KeyValue("Icon", icon), KeyValue("StartupWMClass", entry.id)]
  {
  }

  lemma OrdinaryIsNeutral(line: string, key: string)
    requires Ordinary(line) && |key| > 7 && key[0] == 'X' && key[7] != 'M'
    ensures Neutral(line, key)
  {
  }

  /** After the header and ordinary lines nothing is found, and only its own group is entered. */
  lemma ScanOrdinary(ordinary: seq<string>, group: string, key: string, escaped: string)
    requires (forall line | line in ordinary :: Ordinary(line)) && |key| > 7 && key[0] == 'X' && key[7] != 'M'
    ensures ScanLines(["[Desktop Entry]"] + ordinary, group, key, escaped) == Scan(group == "Desktop Entry", false)
  {
    var header := "[Desktop Entry]";
    forall line | line in ordinary ensures Neutral(line, key) { OrdinaryIsNeutral(line, key); }
    NeutralLines([header], ordinary, group, key, escaped);
    ScanNext([], header, group, key, escaped);
    assert [] + [header] == [header];
    assert header == "[" + "Desktop Entry" + "]";
    GroupLine(header, group);
    assert header[1..14] == "Desktop Entry";
  }

  /** What a key line says: the value is the written one. */
  lemma ScanKeyLine(state: Scan, group: string, key: string, written: string, value: string)
    requires key != [] && key[0] != '['
    ensures ScanLine(state, KeyValue(key, written), group, key, Escape(value))
         == if state.inGroup then state.(found := value == written) else state
  {
    hide Spell;
    var line := KeyValue(key, written);
    assert line[..|key| + 1] == key + "=";
    if line == key + "=" + Escape(value) {
      assert line[|key| + 1..] == Escape(value) == Escape(written);
      EscapeInjective(value, written);
    }
  }

  /** A key line of another key says nothing. */
  lemma ScanOtherKey(state: Scan, group: string, other: string, written: string, key: string, escaped: string)
    requires |key| > 7 && |other| > 7 && other[7] != key[7] && other[0] != '['
    ensures ScanLine(state, KeyValue(other, written), group, key, escaped) == state
  {
    hide Spell;
    assert KeyValue(other, written)[7] == other[7] && (key + "=")[7] == key[7];
  }

  /**
   On a generated entry the ownership test accepts exactly the launcher and the application
   id that were written, in the entry's own group and only with notifications enabled.
   */
  lemma OwnershipIsDecided(
    entry: Entry, tryExec: string, icon: string, appId: string, launcher: string, group: string, value: string)
    ensures
      var content := WithEnds(EntryLines(entry, ExecCommand(launcher), tryExec, icon, appId, launcher));
      && (HasValue(content, group, "X-muon-AppId", value)
          <==> entry.notifications && group == "Desktop Entry" && value == appId)
      && (HasValue(content, group, "X-muon-Launcher", value)
          <==> entry.notifications && group == "Desktop Entry" && value == launcher)
  {
    hide Spell, ExecCommand, EntryBody, Lines, WithEnds, ScanLines, KeyValue;
    var lines := EntryLines(entry, ExecCommand(launcher), tryExec, icon, appId, launcher);
    var ordinary := EntryBody(entry, ExecCommand(launcher), tryExec, icon);
    BodyIsOrdinary(entry, launcher, tryExec, icon);
    var before := ["[Desktop Entry]"] + ordinary;
    var (idLine, launcherLine) := (KeyValue("X-muon-AppId", appId), KeyValue("X-muon-Launcher", launcher));
    KeyValueHasNoLineEnd("X-muon-AppId", appId);
    KeyValueHasNoLineEnd("X-muon-Launcher", launcher);
    assert forall line | line in lines :: '\n' !in line;
    LinesOf(lines);
    var escaped := Escape(value);
    ScanOrdinary(ordinary, group, "X-muon-AppId", escaped);
    ScanOrdinary(ordinary, group, "X-muon-Launcher", escaped);
    if entry.notifications {
      var g := Scan(group == "Desktop Entry", false);
      assert lines == before + [idLine] + [launcherLine];
      ScanNext(before, idLine, group, "X-muon-AppId", escaped);
      ScanNext(before + [idLine], launcherLine, group, "X-muon-AppId", escaped);
      ScanKeyLine(g, group, "X-muon-AppId", appId, value);
      ScanOtherKey(g.(found := g.inGroup && value == appId), group, "X-muon-Launcher", launcher, "X-muon-AppId", escaped);
      ScanNext(before, idLine, group, "X-muon-Launcher", escaped);
      ScanNext(before + [idLine], launcherLine, group, "X-muon-Launcher", escaped);
      ScanOtherKey(g, group, "X-muon-AppId", appId, "X-muon-Launcher", escaped);
      ScanKeyLine(g, group, "X-muon-Launcher", launcher, value);
    } else {
      assert lines == before;
    }
  }
}
