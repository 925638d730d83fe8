/**
 Windows command-line quoting of builder/src/common.c, and the rules by which
 CommandLineToArgvW reads a command line back.
 */
module CommandLine {
  import opened Common

  /** A unit of a Windows text; a character outside the basic plane takes two. */
  newtype wchar = n: int | 0 <= n < 0x1_0000

  type wstring = seq<wchar>

  const TERMINATOR: wchar := 0
  const TAB: wchar := 0x09
  const SPACE: wchar := 0x20
  const QUOTE: wchar := 0x22
  const BACKSLASH: wchar := 0x5C

  function Backslashes(n: nat): (s: wstring)
    ensures |s| == n && forall i | 0 <= i < n :: s[i] == BACKSLASH
  {
    seq(n, _ => BACKSLASH)
  }

  // ------------------------------------------------------------------ quoting

  /** What an argument contributes between its quotes, after n backslashes already read. */
  function Body(n: nat, v: wstring): wstring
    decreases |v|
  {
    if v == [] then Backslashes(2 * n)
    else if v[0] == BACKSLASH then Body(n + 1, v[1..])
    else if v[0] == QUOTE then Backslashes(2 * n) + [BACKSLASH, QUOTE] + Body(0, v[1..])
    else Backslashes(n) + [v[0]] + Body(0, v[1..])
  }

  function Quote(v: wstring): wstring {
    [QUOTE] + (Body(0, v) + [QUOTE])
  }

  function Line(args: seq<wstring>): wstring {
    if args == [] then [] else if |args| == 1 then Quote(args[0]) else Line(args[..|args| - 1]) + ([SPACE] + Quote(args[|args| - 1]))
  }

  // ---------------------------------------------- reading, after CommandLineToArgvW

  predicate IsBlank(c: wchar) { c == SPACE || c == TAB }

  function SkipBlanks(s: wstring): (r: wstring)
    ensures |r| <= |s|
    ensures r != [] ==> !IsBlank(r[0])
  {
    if s != [] && IsBlank(s[0]) then SkipBlanks(s[1..]) else s
  }

  /** Quotes directly after a quote: a third one is literal and closes; two open and close. */
  function QuoteRun(s: wstring, quotes: nat, read: wstring): (r: (wstring, nat, wstring))
    ensures |r.0| <= |s|
  {
    if s != [] && s[0] == QUOTE then
      if quotes + 1 == 3 then QuoteRun(s[1..], 0, read + [QUOTE]) else QuoteRun(s[1..], quotes + 1, read)
    else (s, if quotes == 2 then 0 else quotes, read)
  }

  /**
   One argument: n backslashes are pending, quotes is 1 inside quotation marks.  An even
   number of backslashes before a quote leaves it a delimiter, an odd number makes it literal.
   */
  function ReadArgument(s: wstring, quotes: nat, n: nat, read: wstring): (r: (wstring, wstring))
    ensures |r.1| <= |s|
    ensures s != [] && (quotes > 0 || !IsBlank(s[0])) ==> |r.1| < |s|
    decreases |s|
  {
    if s == [] then (read + Backslashes(n), [])
    else if IsBlank(s[0]) && quotes == 0 then (read + Backslashes(n), s)
    else if s[0] == BACKSLASH then ReadArgument(s[1..], quotes, n + 1, read)
    else if s[0] == QUOTE then
      var (count, literal) := if n % 2 == 0 then (quotes + 1, read + Backslashes(n / 2))
                               else (quotes, read + Backslashes(n / 2) + [QUOTE]);
      var (rest, after, text) := QuoteRun(s[1..], count, literal);
      ReadArgument(rest, after, 0, text)
    else ReadArgument(s[1..], quotes, 0, read + Backslashes(n) + [s[0]])
  }

  function ReadArguments(s: wstring): seq<wstring>
    decreases |s|
  {
    var start := SkipBlanks(s);
    if start == [] then []
    else
      var (argument, rest) := ReadArgument(start, 0, 0, []);
      [argument] + ReadArguments(rest)
  }

  /** The text up to a quote and what follows the quote. */
  function UntilQuote(s: wstring): (r: (wstring, wstring))
    ensures |r.1| <= |s|
  {
    if s == [] then ([], [])
    else if s[0] == QUOTE then ([], s[1..])
    else
      var (text, rest) := UntilQuote(s[1..]);
      ([s[0]] + text, rest)
  }

  function UntilBlank(s: wstring): (wstring, wstring) {
    if s == [] || IsBlank(s[0]) then ([], s)
    else
      var (text, rest) := UntilBlank(s[1..]);
      ([s[0]] + text, rest)
  }

  /** The program name is read without escapes, every later argument with them. */
  function ReadLine(s: wstring): seq<wstring> {
    var (name, rest) := if s != [] && s[0] == QUOTE then UntilQuote(s[1..]) else UntilBlank(s);
    [name] + ReadArguments(rest)
  }

  // -------------------------------------------------------------- round trip

  lemma MoreBackslashes(n: nat)
    ensures Backslashes(n + 1) == Backslashes(n) + [BACKSLASH] == [BACKSLASH] + Backslashes(n)
  {}

  /** Reading pending backslashes. */
  lemma {:induction false} ReadBackslashes(k: nat, s: wstring, quotes: nat, n: nat, read: wstring)
    ensures ReadArgument(Backslashes(k) + s, quotes, n, read) == ReadArgument(s, quotes, n + k, read)
  {
    if k == 0 {
      assert Backslashes(0) + s == s;
    } else {
      MoreBackslashes(k - 1);
      Assoc([BACKSLASH], Backslashes(k - 1), s);
      TailOfCons(BACKSLASH, Backslashes(k - 1) + s);
      ReadBackslashes(k - 1, s, quotes, n + 1, read);
    }
  }

  /** A text that ends an argument read so far: the end of the line or a blank. */
  predicate Ends(tail: wstring) {
    tail == [] || IsBlank(tail[0])
  }

  /** The state after a quote has been read: any further quotes belong to it. */
  function AfterQuote(s: wstring, quotes: nat, read: wstring): (wstring, wstring) {
    var (rest, after, text) := QuoteRun(s, quotes, read);
    ReadArgument(rest, after, 0, text)
  }

  lemma ClosingQuote(tail: wstring, n: nat, read: wstring)
    requires Ends(tail)
    ensures ReadArgument([QUOTE] + tail, 1, 2 * n, read) == (read + Backslashes(n), tail)
    ensures AfterQuote([QUOTE] + tail, 1, read) == (read, tail)
  {
    TailOfCons(QUOTE, tail);
    assert QuoteRun(tail, 2, read) == (tail, 0, read);
    assert QuoteRun(tail, 2, read + Backslashes(n)) == (tail, 0, read + Backslashes(n));
    assert read + Backslashes(0) == read;
    assert read + Backslashes(n) + Backslashes(0) == read + Backslashes(n);
  }

  lemma EscapedQuote(s: wstring, n: nat, read: wstring)
    ensures ReadArgument(Backslashes(2 * n) + [BACKSLASH, QUOTE] + s, 1, 0, read) == AfterQuote(s, 1, read + Backslashes(n) + [QUOTE])
  {
    MoreBackslashes(2 * n);
    assert Backslashes(2 * n) + [BACKSLASH, QUOTE] + s == Backslashes(2 * n + 1) + ([QUOTE] + s);
    ReadBackslashes(2 * n + 1, [QUOTE] + s, 1, 0, read);
    TailOfCons(QUOTE, s);
  }

  lemma PlainCharacter(c: wchar, s: wstring, n: nat, read: wstring)
    requires c != BACKSLASH && c != QUOTE
    ensures ReadArgument(Backslashes(n) + [c] + s, 1, 0, read) == ReadArgument(s, 1, 0, read + Backslashes(n) + [c])
  {
    Assoc(Backslashes(n), [c], s);
    ReadBackslashes(n, [c] + s, 1, 0, read);
    TailOfCons(c, s);
  }

  lemma {:induction false} BodyDoesNotOpenWithQuote(n: nat, v: wstring, s: wstring)
    requires n > 0 || v != []
    ensures (Body(n, v) + s) != [] && (Body(n, v) + s)[0] != QUOTE
    decreases |v|
  {
    if v != [] && v[0] == BACKSLASH { BodyDoesNotOpenWithQuote(n + 1, v[1..], s); }
  }

  /** Inside the quotes, reading the body gives back its backslashes and characters. */
  lemma {:induction false} ReadBody(n: nat, v: wstring, tail: wstring, read: wstring)
    requires Ends(tail)
    ensures ReadArgument(Body(n, v) + ([QUOTE] + tail), 1, 0, read) == (read + Backslashes(n) + v, tail)
    decreases |v|, 0
  {
    hide ReadArgument, AfterQuote;
    if v == [] {
      ReadBackslashes(2 * n, [QUOTE] + tail, 1, 0, read);
      ClosingQuote(tail, n, read);
      assert read + Backslashes(n) + v == read + Backslashes(n);
    } else if v[0] == BACKSLASH {
      ReadBody(n + 1, v[1..], tail, read);
      MoreBackslashes(n);
      assert read + Backslashes(n + 1) + v[1..] == read + Backslashes(n) + v;
    } else if v[0] == QUOTE {
      var more := Body(0, v[1..]) + ([QUOTE] + tail);
      Assoc(Backslashes(2 * n) + [BACKSLASH, QUOTE], Body(0, v[1..]), [QUOTE] + tail);
      EscapedQuote(more, n, read);
      ReadBodyAfterQuote(v[1..], tail, read + Backslashes(n) + [QUOTE]);
      assert read + Backslashes(n) + [QUOTE] + v[1..] == read + Backslashes(n) + v;
    } else {
      var more := Body(0, v[1..]) + ([QUOTE] + tail);
      Assoc(Backslashes(n) + [v[0]], Body(0, v[1..]), [QUOTE] + tail);
      PlainCharacter(v[0], more, n, read);
      ReadBody(0, v[1..], tail, read + Backslashes(n) + [v[0]]);
      assert read + Backslashes(n) + [v[0]] + Backslashes(0) + v[1..] == read + Backslashes(n) + v;
    }
  }

  /** The same when the body follows a quote, where a run of quotes could be misread. */
  lemma {:induction false} ReadBodyAfterQuote(v: wstring, tail: wstring, read: wstring)
    requires Ends(tail)
    ensures AfterQuote(Body(0, v) + ([QUOTE] + tail), 1, read) == (read + v, tail)
    decreases |v|, 1
  {
    if v == [] {
      ClosingQuote(tail, 0, read);
      assert Body(0, v) + ([QUOTE] + tail) == [QUOTE] + tail;
      assert read + v == read;
    } else {
      BodyDoesNotOpenWithQuote(0, v, [QUOTE] + tail);
      ReadBody(0, v, tail, read);
      assert read + Backslashes(0) + v == read + v;
    }
  }

  lemma ReadQuoted(v: wstring, tail: wstring)
    requires Ends(tail)
    ensures ReadArgument(Quote(v) + tail, 0, 0, []) == (v, tail)
  {
    hide Body;
    var body := Body(0, v) + ([QUOTE] + tail);
    Assoc([QUOTE], Body(0, v) + [QUOTE], tail);
    Assoc(Body(0, v), [QUOTE], tail);
    TailOfCons(QUOTE, body);
    assert [] + Backslashes(0) == [];
    ReadBodyAfterQuote(v, tail, []);
    assert [] + v == v;
  }

  /** Arguments from the second on, each behind a space. */
  function Spaced(args: seq<wstring>): wstring {
    if args == [] then [] else [SPACE] + (Quote(args[0]) + Spaced(args[1..]))
  }

  lemma {:induction false} LineIsSpaced(args: seq<wstring>)
    requires args != []
    ensures Line(args) == Quote(args[0]) + Spaced(args[1..])
  {
    hide Quote;
    if |args| == 1 {
      assert Quote(args[0]) + Spaced([]) == Quote(args[0]);
    } else {
      var front, last := args[..|args| - 1], args[|args| - 1];
      LineIsSpaced(front);
      SpacedSnoc(front[1..], last);
      assert front[1..] + [last] == args[1..];
      Assoc(Quote(args[0]), Spaced(front[1..]), [SPACE] + Quote(last));
    }
  }

  lemma {:induction false} SpacedSnoc(args: seq<wstring>, last: wstring)
    ensures Spaced(args + [last]) == Spaced(args) + ([SPACE] + Quote(last))
  {
    hide Quote;
    if args == [] {
      assert [] + [last] == [last];
      assert Spaced([last]) == [SPACE] + (Quote(last) + []);
      assert Quote(last) + [] == Quote(last);
      assert [] + ([SPACE] + Quote(last)) == [SPACE] + Quote(last);
    } else {
      assert (args + [last])[1..] == args[1..] + [last];
      SpacedSnoc(args[1..], last);
      var more := [SPACE] + Quote(last);
      Assoc(Quote(args[0]), Spaced(args[1..]), more);
      Assoc([SPACE], Quote(args[0]) + Spaced(args[1..]), more);
    }
  }

  lemma {:induction false} ReadSpaced(args: seq<wstring>)
    ensures ReadArguments(Spaced(args)) == args
  {
    hide Quote, ReadArgument;
    if args != [] {
      var tail := Quote(args[0]) + Spaced(args[1..]);
      TailOfCons(SPACE, tail);
      QuoteOpens(args[0], Spaced(args[1..]));
      ReadQuoted(args[0], Spaced(args[1..]));
      assert SkipBlanks(tail) == tail && SkipBlanks(Spaced(args)) == tail;
      ReadSpaced(args[1..]);
      HeadTail(args);
    }
  }

  lemma QuoteOpens(v: wstring, tail: wstring)
    ensures Quote(v) + tail != [] && (Quote(v) + tail)[0] == QUOTE
    ensures (Quote(v) + tail)[1..] == Body(0, v) + ([QUOTE] + tail)
  {
  }

  /** The name ends at the first quote, so a body without quotes is read whole. */
  lemma {:induction false} ReadUntilQuote(s: wstring, tail: wstring)
    requires QUOTE !in s
    ensures UntilQuote(s + ([QUOTE] + tail)) == (s, tail)
  {
    if s == [] {
      assert s + ([QUOTE] + tail) == [QUOTE] + tail;
    } else {
      Assoc([s[0]], s[1..], [QUOTE] + tail);
      HeadTail(s);
      TailOfCons(s[0], s[1..] + ([QUOTE] + tail));
      ReadUntilQuote(s[1..], tail);
    }
  }

  lemma {:induction false} UntilQuoteIsClean(s: wstring)
    ensures QUOTE !in UntilQuote(s).0
  {
    if s != [] && s[0] != QUOTE { UntilQuoteIsClean(s[1..]); }
  }

  lemma SamePrefix(a: wstring, v: wstring, w: wstring)
    requires v != []
    ensures a + [v[0]] + w == a + v <==> w == v[1..]
  {
    assert a + v == a + [v[0]] + v[1..];
    if a + [v[0]] + w == a + v {
      assert w == (a + v)[|a| + 1..] == v[1..];
    }
  }

  lemma {:induction false} BodyWithoutQuotes(n: nat, v: wstring)
    requires QUOTE !in v
    ensures QUOTE !in Body(n, v) && |Body(n, v)| >= n + |v|
    decreases |v|
  {
    if v != [] { BodyWithoutQuotes(if v[0] == BACKSLASH then n + 1 else 0, v[1..]); }
  }

  /** Without quotes, the body is the argument with its trailing backslashes doubled. */
  lemma {:induction false} BodyUnchanged(n: nat, v: wstring)
    requires QUOTE !in v
    ensures Body(n, v) == Backslashes(n) + v <==> (if v == [] then n == 0 else v[|v| - 1] != BACKSLASH)
    decreases |v|
  {
    hide Backslashes;
    if v == [] {
      assert |Body(n, v)| == 2 * n && |Backslashes(n) + v| == n;
      assert n == 0 ==> Body(n, v) == Backslashes(n) + v;
    } else if v[0] == BACKSLASH {
      BodyUnchanged(n + 1, v[1..]);
      MoveBackslash(n, v);
    } else {
      BodyUnchanged(0, v[1..]);
      NoBackslashes(v[1..]);
      SamePrefix(Backslashes(n), v, Body(0, v[1..]));
    }
  }

  lemma MoveBackslash(n: nat, v: wstring)
    requires v != [] && v[0] == BACKSLASH
    ensures Backslashes(n + 1) + v[1..] == Backslashes(n) + v
  {
  }

  lemma NoBackslashes(v: wstring)
    ensures Backslashes(0) + v == v
  {}

  /**
   When the program name has no quote, every argument after it is read back unchanged,
   whatever it contains.
   */
  lemma ArgumentsSurvive(args: seq<wstring>)
    requires args != [] && QUOTE !in args[0]
    ensures ReadLine(Line(args)) == [Body(0, args[0])] + args[1..]
  {
    hide ReadArguments, Spaced, Body, Quote;
    LineIsSpaced(args);
    QuoteOpens(args[0], Spaced(args[1..]));
    BodyWithoutQuotes(0, args[0]);
    ReadUntilQuote(Body(0, args[0]), Spaced(args[1..]));
    ReadSpaced(args[1..]);
  }

  /**
   The whole argument vector is read back exactly when the program name has no quote and
   does not end in a backslash; the later arguments are free.
   */
  lemma RoundTrip(args: seq<wstring>)
    requires args != []
    ensures ReadLine(Line(args)) == args
       <==> QUOTE !in args[0] && (args[0] != [] ==> args[0][|args[0]| - 1] != BACKSLASH)
  {
    hide ReadArguments, Spaced, Body, Quote, UntilQuote, UntilBlank, Line;
    if QUOTE !in args[0] {
      ArgumentsSurvive(args);
      BodyUnchanged(0, args[0]);
      NoBackslashes(args[0]);
      HeadTail(args);
      TailOfCons(Body(0, args[0]), args[1..]);
    } else {
      LineIsSpaced(args);
      QuoteOpens(args[0], Spaced(args[1..]));
      UntilQuoteIsClean(Line(args)[1..]);
      assert QUOTE !in ReadLine(Line(args))[0];
    }
  }

  // ----------------------------------- a quote in the program name spoils the arguments

  /** How many characters other than blanks. */
  function Solid(s: wstring): nat {
    if s == [] then 0 else (if IsBlank(s[0]) then 0 else 1) + Solid(s[1..])
  }

  function SolidAll(args: seq<wstring>): nat {
    if args == [] then 0 else Solid(args[0]) + SolidAll(args[1..])
  }

  /** The characters other than blanks that a text spells, quoted or not, after n backslashes. */
  function Spelled(n: nat, s: wstring): nat
    decreases |s|
  {
    if s == [] then n
    else if s[0] == BACKSLASH then Spelled(n + 1, s[1..])
    else if s[0] == QUOTE then n / 2 + n % 2 + Spelled(0, s[1..])
    else n + (if IsBlank(s[0]) then 0 else 1) + Spelled(0, s[1..])
  }

  lemma {:induction false} SolidAppend(a: wstring, b: wstring)
    ensures Solid(a + b) == Solid(a) + Solid(b)
  {
    if a == [] {
      assert a + b == b;
    } else {
      assert (a + b)[0] == a[0] && (a + b)[1..] == a[1..] + b;
      SolidAppend(a[1..], b);
    }
  }

  lemma {:induction false} SolidBackslashes(n: nat)
    ensures Solid(Backslashes(n)) == n
  {
    if n > 0 {
      assert Backslashes(n)[1..] == Backslashes(n - 1);
      SolidBackslashes(n - 1);
    }
  }

  /** A run of quotes loses nothing. */
  lemma {:induction false} RunKeeps(s: wstring, quotes: nat, read: wstring)
    ensures
      var (rest, _, text) := QuoteRun(s, quotes, read);
      Solid(text) + Spelled(0, rest) >= Solid(read) + Spelled(0, s)
  {
    if s != [] && s[0] == QUOTE {
      if quotes + 1 == 3 {
        RunKeeps(s[1..], 0, read + [QUOTE]);
        SolidAppend(read, [QUOTE]);
      } else {
        RunKeeps(s[1..], quotes + 1, read);
      }
    }
  }

  /** An argument has at least the solid characters its text spells. */
  lemma {:induction false} ArgumentKeeps(s: wstring, quotes: nat, n: nat, read: wstring)
    ensures
      var (argument, rest) := ReadArgument(s, quotes, n, read);
      Solid(argument) + Spelled(0, rest) >= Solid(read) + Spelled(n, s)
    decreases |s|
  {
    hide Backslashes, Solid, QuoteRun, IsBlank;
    SolidAppend(read, Backslashes(n));
    SolidBackslashes(n);
    BackslashIsSolid();
    if s == [] || (IsBlank(s[0]) && quotes == 0) {
    } else if s[0] == BACKSLASH {
      ArgumentKeeps(s[1..], quotes, n + 1, read);
    } else if s[0] == QUOTE {
      var (count, literal) := if n % 2 == 0 then (quotes + 1, read + Backslashes(n / 2))
                               else (quotes, read + Backslashes(n / 2) + [QUOTE]);
      var (rest, after, text) := QuoteRun(s[1..], count, literal);
      LiteralKeeps(n, read);
      RunKeeps(s[1..], count, literal);
      ArgumentKeeps(rest, after, 0, text);
    } else {
      SolidAppend(read + Backslashes(n), [s[0]]);
      SolidOne(s[0]);
      ArgumentKeeps(s[1..], quotes, 0, read + Backslashes(n) + [s[0]]);
    }
  }

  lemma SolidOne(c: wchar)
    ensures Solid([c]) == if IsBlank(c) then 0 else 1
  {
  }

  lemma LiteralKeeps(n: nat, read: wstring)
    ensures Solid(if n % 2 == 0 then read + Backslashes(n / 2) else read + Backslashes(n / 2) + [QUOTE]) == Solid(read) + n / 2 + n % 2
  {
    hide Backslashes, Solid;
    SolidAppend(read, Backslashes(n / 2));
    SolidBackslashes(n / 2);
    SolidAppend(read + Backslashes(n / 2), [QUOTE]);
    SolidOne(QUOTE);
  }

  lemma {:induction false} SkippingKeeps(s: wstring)
    ensures Spelled(0, SkipBlanks(s)) == Spelled(0, s)
  {
    if s != [] && IsBlank(s[0]) {
      SkippingKeeps(s[1..]);
    }
  }

  lemma {:induction false} ArgumentsKeep(s: wstring)
    ensures SolidAll(ReadArguments(s)) >= Spelled(0, s)
    decreases |s|
  {
    hide ReadArgument, Solid, IsBlank;
    SkippingKeeps(s);
    var start := SkipBlanks(s);
    if start != [] {
      var (argument, rest) := ReadArgument(start, 0, 0, []);
      ArgumentKeeps(start, 0, 0, []);
      SolidNone();
      FirstIsShorter(s);
      ArgumentsKeep(rest);
      TailOfCons(argument, ReadArguments(rest));
    }
  }

  lemma SolidNone()
    ensures Solid([]) == 0
  {
  }

  lemma FirstIsShorter(s: wstring)
    requires SkipBlanks(s) != []
    ensures |ReadArgument(SkipBlanks(s), 0, 0, []).1| < |s|
  {
  }

  lemma {:induction false} SpelledBackslashes(k: nat, m: nat, s: wstring)
    ensures Spelled(k, Backslashes(m) + s) == Spelled(k + m, s)
    decreases m
  {
    if m == 0 {
      assert Backslashes(0) + s == s;
    } else {
      assert (Backslashes(m) + s)[0] == BACKSLASH && (Backslashes(m) + s)[1..] == Backslashes(m - 1) + s;
      SpelledBackslashes(k + 1, m - 1, s);
    }
  }

  lemma SpelledNext(n: nat, c: wchar, s: wstring)
    requires c != BACKSLASH
    ensures Spelled(n, [c] + s)
         == if c == QUOTE then n / 2 + n % 2 + Spelled(0, s) else n + (if IsBlank(c) then 0 else 1) + Spelled(0, s)
  {
  }

  /** A quoted body spells the solid characters of its argument. */
  lemma {:induction false} BodySpells(n: nat, v: wstring, tail: wstring)
    ensures Spelled(0, Body(n, v) + ([QUOTE] + tail)) == n + Solid(v) + Spelled(0, tail)
    decreases |v|
  {
    hide Backslashes, Spelled, IsBlank;
    var ending := [QUOTE] + tail;
    if v == [] {
      SpelledBackslashes(0, 2 * n, ending);
      SpelledNext(2 * n, QUOTE, tail);
    } else if v[0] == BACKSLASH {
      BodySpells(n + 1, v[1..], tail);
      assert !IsBlank(BACKSLASH) by { BackslashIsSolid(); }
    } else if v[0] == QUOTE {
      BodySpells(0, v[1..], tail);
      assert !IsBlank(QUOTE) by { BackslashIsSolid(); }
      var rest := Body(0, v[1..]) + ending;
      assert Body(n, v) + ending == Backslashes(2 * n) + (Backslashes(1) + ([QUOTE] + rest)) by {
        EscapedShape(n, Body(0, v[1..]), ending);
      }
      SpelledBackslashes(0, 2 * n, Backslashes(1) + ([QUOTE] + rest));
      SpelledBackslashes(2 * n, 1, [QUOTE] + rest);
      SpelledNext(2 * n + 1, QUOTE, rest);
    } else {
      BodySpells(0, v[1..], tail);
      var rest := Body(0, v[1..]) + ending;
      assert Body(n, v) + ending == Backslashes(n) + ([v[0]] + rest) by {
        Assoc(Backslashes(n), [v[0]], Body(0, v[1..]));
        Assoc(Backslashes(n), [v[0]] + Body(0, v[1..]), ending);
        Assoc([v[0]], Body(0, v[1..]), ending);
      }
      SpelledBackslashes(0, n, [v[0]] + rest);
      SpelledNext(n, v[0], rest);
    }
  }

  lemma BackslashIsSolid()
    ensures !IsBlank(BACKSLASH) && !IsBlank(QUOTE) && IsBlank(SPACE)
  {
  }

  lemma EscapedShape(n: nat, body: wstring, ending: wstring)
    ensures Backslashes(2 * n) + [BACKSLASH, QUOTE] + body + ending == Backslashes(2 * n) + (Backslashes(1) + ([QUOTE] + (body + ending)))
  {
  }

  lemma {:induction false} SpacedSpells(args: seq<wstring>)
    ensures Spelled(0, Spaced(args)) == SolidAll(args)
  {
    hide Quote, Spelled, Solid, IsBlank;
    if args == [] {
      NothingSpelled();
    } else {
      var tail := Spaced(args[1..]);
      SpacedSpells(args[1..]);
      SpelledNext(0, SPACE, Quote(args[0]) + tail);
      BackslashIsSolid();
      QuoteOpens(args[0], tail);
      HeadTail(Quote(args[0]) + tail);
      SpelledNext(0, QUOTE, Body(0, args[0]) + ([QUOTE] + tail));
      BodySpells(0, args[0], tail);
    }
  }

  lemma NothingSpelled()
    ensures Spelled(0, []) == 0
  {
  }

  /** A text of blanks only. */
  lemma {:induction false} SolidZero(v: wstring, tail: wstring)
    requires Solid(v) == 0
    ensures SkipBlanks(Body(0, v) + ([QUOTE] + tail)) == [QUOTE] + tail
  {
    hide Backslashes;
    if v == [] {
      assert Body(0, v) == Backslashes(0) && Backslashes(0) + ([QUOTE] + tail) == [QUOTE] + tail;
    } else {
      SolidZero(v[1..], tail);
      var rest := Body(0, v[1..]) + ([QUOTE] + tail);
      assert Body(0, v) + ([QUOTE] + tail) == [v[0]] + rest by {
        assert Backslashes(0) + [v[0]] + Body(0, v[1..]) == [v[0]] + Body(0, v[1..]);
        Assoc([v[0]], Body(0, v[1..]), [QUOTE] + tail);
      }
      TailOfCons(v[0], rest);
    }
  }

  lemma {:induction false} RunStarts(s: wstring, quotes: nat, read: wstring)
    ensures read <= QuoteRun(s, quotes, read).2
  {
    if s != [] && s[0] == QUOTE {
      if quotes + 1 == 3 {
        RunStarts(s[1..], 0, read + [QUOTE]);
        assert read <= read + [QUOTE];
      } else {
        RunStarts(s[1..], quotes + 1, read);
      }
    }
  }

  /** What is read of an argument is its beginning. */
  lemma {:induction false} ArgumentStarts(s: wstring, quotes: nat, n: nat, read: wstring)
    ensures read <= ReadArgument(s, quotes, n, read).0
    decreases |s|
  {
    hide Backslashes, QuoteRun, IsBlank;
    if s == [] || (IsBlank(s[0]) && quotes == 0) {
    } else if s[0] == BACKSLASH {
      ArgumentStarts(s[1..], quotes, n + 1, read);
    } else if s[0] == QUOTE {
      var (count, literal) := if n % 2 == 0 then (quotes + 1, read + Backslashes(n / 2))
                               else (quotes, read + Backslashes(n / 2) + [QUOTE]);
      var (rest, after, text) := QuoteRun(s[1..], count, literal);
      RunStarts(s[1..], count, literal);
      ArgumentStarts(rest, after, 0, text);
      assert read <= literal;
    } else {
      ArgumentStarts(s[1..], quotes, 0, read + Backslashes(n) + [s[0]]);
      assert read <= read + Backslashes(n) + [s[0]];
    }
  }

  /** A closing quote read as an opening one, then a space, then an opening quote read as a closing one. */
  lemma ReadInverted(after: wstring)
    ensures ReadArgument([QUOTE] + ([SPACE] + ([QUOTE] + after)), 0, 0, []) == AfterQuote(after, 2, [SPACE])
  {
    var (second, first) := ([QUOTE] + after, [SPACE] + ([QUOTE] + after));
    BackslashIsSolid();
    TailOfCons(QUOTE, first);
    TailOfCons(SPACE, second);
    TailOfCons(QUOTE, after);
    assert Backslashes(0) == [];
    assert [] + Backslashes(0 / 2) == [];
    assert QuoteRun(first, 1, []) == (first, 1, []);
    assert ReadArgument([QUOTE] + first, 0, 0, []) == ReadArgument(first, 1, 0, []);
    assert [] + Backslashes(0) + [SPACE] == [SPACE];
    assert ReadArgument(first, 1, 0, []) == ReadArgument(second, 1, 0, [SPACE]);
    assert [SPACE] + Backslashes(0) == [SPACE];
  }

  lemma InvertedStarts(after: wstring)
    ensures var a := AfterQuote(after, 2, [SPACE]).0; a != [] && a[0] == SPACE
  {
    var (rest, state, text) := QuoteRun(after, 2, [SPACE]);
    RunStarts(after, 2, [SPACE]);
    ArgumentStarts(rest, state, 0, text);
  }

  lemma InvertedBlank(after: wstring)
    requires after != [] && IsBlank(after[0])
    ensures AfterQuote(after, 2, [SPACE]) == ([SPACE], after)
  {
    assert QuoteRun(after, 2, [SPACE]) == (after, 0, [SPACE]);
    assert [SPACE] + Backslashes(0) == [SPACE];
  }

  lemma ReadFirst(s: wstring)
    requires s != [] && s[0] == QUOTE
    ensures ReadArguments(s) == [ReadArgument(s, 0, 0, []).0] + ReadArguments(ReadArgument(s, 0, 0, []).1)
  {
  }

  lemma SameStart(s: wstring, t: wstring)
    requires SkipBlanks(s) == SkipBlanks(t)
    ensures ReadArguments(s) == ReadArguments(t)
  {
  }

  lemma BlankBody(u: wstring, tail: wstring)
    requires u != [] && u[0] == SPACE
    ensures var after := Body(0, u) + ([QUOTE] + tail); after != [] && after[0] == SPACE
    ensures u == [SPACE] ==> SkipBlanks(Body(0, u) + ([QUOTE] + tail)) == [QUOTE] + tail
  {
  }

  /** Read from a closing quote on, the arguments never come out as they were. */
  lemma {:induction false} ClosingFirst(args: seq<wstring>)
    ensures ReadArguments([QUOTE] + Spaced(args)) != args
  {
    hide Body, ReadArgument, AfterQuote, ReadArguments, SkipBlanks;
    var s := [QUOTE] + Spaced(args);
    ReadFirst(s);
    if args != [] {
      var tail := Spaced(args[1..]);
      var after := Body(0, args[0]) + ([QUOTE] + tail);
      QuoteOpens(args[0], tail);
      HeadTail(Quote(args[0]) + tail);
      assert s == [QUOTE] + ([SPACE] + ([QUOTE] + after));
      ReadInverted(after);
      InvertedStarts(after);
      if ReadArguments(s) == args {
        BlankBody(args[0], tail);
        BackslashIsSolid();
        InvertedBlank(after);
        SkipQuote(tail);
        SameStart(after, [QUOTE] + tail);
        TailOfCons([SPACE], ReadArguments(after));
        ClosingFirst(args[1..]);
      }
    }
  }

  lemma SkipQuote(tail: wstring)
    ensures SkipBlanks([QUOTE] + tail) == [QUOTE] + tail
  {
  }

  /** What follows the first quote. */
  function AfterFirst(v: wstring): wstring
    requires QUOTE in v
  {
    if v[0] == QUOTE then v[1..] else AfterFirst(v[1..])
  }

  lemma {:induction false} UntilSkips(m: nat, s: wstring)
    ensures UntilQuote(Backslashes(m) + s).1 == UntilQuote(s).1
  {
    if m == 0 {
      assert Backslashes(0) + s == s;
    } else {
      assert (Backslashes(m) + s)[0] == BACKSLASH && (Backslashes(m) + s)[1..] == Backslashes(m - 1) + s;
      UntilSkips(m - 1, s);
    }
  }

  /** The name ends at the first quote of the body, so the rest is read as arguments. */
  lemma {:induction false} UntilFirst(n: nat, v: wstring, tail: wstring)
    requires QUOTE in v
    ensures UntilQuote(Body(n, v) + tail).1 == Body(0, AfterFirst(v)) + tail
    decreases |v|
  {
    hide Backslashes;
    if v[0] == BACKSLASH {
      UntilFirst(n + 1, v[1..], tail);
    } else if v[0] == QUOTE {
      EscapedShape(n, Body(0, v[1..]), tail);
      var rest := Body(0, v[1..]) + tail;
      UntilSkips(2 * n, Backslashes(1) + ([QUOTE] + rest));
      UntilSkips(1, [QUOTE] + rest);
      TailOfCons(QUOTE, rest);
    } else {
      UntilFirst(0, v[1..], tail);
      var rest := Body(0, v[1..]) + tail;
      Assoc(Backslashes(n), [v[0]], Body(0, v[1..]));
      Assoc(Backslashes(n), [v[0]] + Body(0, v[1..]), tail);
      Assoc([v[0]], Body(0, v[1..]), tail);
      UntilSkips(n, [v[0]] + rest);
      TailOfCons(v[0], rest);
    }
  }

  /**
   The arguments after the program name are read back unchanged exactly when the name has
   no quote.
   */
  lemma ArgumentsSurviveExactly(args: seq<wstring>)
    requires args != []
    ensures ReadLine(Line(args))[1..] == args[1..] <==> QUOTE !in args[0]
  {
    hide ReadArguments, Spaced, Body, Quote, UntilQuote, UntilBlank, Line, Spelled, Solid, SolidAll, AfterFirst;
    if QUOTE !in args[0] {
      ArgumentsSurvive(args);
      TailOfCons(Body(0, args[0]), args[1..]);
    } else {
      var (tail, v) := (args[1..], AfterFirst(args[0]));
      var rest := Body(0, v) + ([QUOTE] + Spaced(tail));
      LineIsSpaced(args);
      QuoteOpens(args[0], Spaced(tail));
      UntilFirst(0, args[0], [QUOTE] + Spaced(tail));
      assert ReadLine(Line(args))[1..] == ReadArguments(rest);
      if Solid(v) == 0 {
        SolidZero(v, Spaced(tail));
        SkipQuote(Spaced(tail));
        SameStart(rest, [QUOTE] + Spaced(tail));
        ClosingFirst(tail);
      } else {
        ArgumentsKeep(rest);
        BodySpells(0, v, Spaced(tail));
        SpacedSpells(tail);
      }
    }
  }

  /** For instance an argument can appear from nothing. */
  lemma QuotedNameAddsAnArgument()
    ensures ReadLine(Line([[QUOTE]])) == [[BACKSLASH], []]
  {
    var line := Line([[QUOTE]]);
    assert Body(0, [QUOTE]) == [BACKSLASH, QUOTE] by {
      assert Body(0, []) == [];
      assert Backslashes(0) + [BACKSLASH, QUOTE] + [] == [BACKSLASH, QUOTE];
    }
    assert line == [QUOTE] + ([BACKSLASH] + ([QUOTE] + [QUOTE]));
    TailOfCons(QUOTE, [BACKSLASH] + ([QUOTE] + [QUOTE]));
    ReadUntilQuote([BACKSLASH], [QUOTE]);
    LoneQuote();
    assert ReadLine(line) == [[BACKSLASH]] + ReadArguments([QUOTE]);
  }

  lemma LoneQuote()
    ensures ReadArguments([QUOTE]) == [[]]
  {
    var start: wstring := [QUOTE];
    assert start[1..] == [];
    assert SkipBlanks(start) == start;
    assert QuoteRun([], 1, [] + Backslashes(0)) == ([], 1, [] + Backslashes(0));
    assert [] + Backslashes(0) + Backslashes(0) == [];
    assert ReadArgument([], 1, 0, [] + Backslashes(0)) == ([], []);
    assert ReadArgument(start, 0, 0, []) == ([], []);
  }

  // ------------------------------------------------------- the two-pass builder

  /** A Windows command line has at most 32767 units, the final zero among them. */
  const LIMIT: nat := 32766

  /** The text written so far is the counted length, and the buffer holds it when there is one. */
  ghost predicate Holds(buffer: array?<wchar>, length: nat, text: wstring)
    reads buffer
  {
    length == |text| <= LIMIT && (buffer != null ==> length <= buffer.Length && buffer[..length] == text)
  }

  /** Room for the whole of a text and a terminator, when there is a buffer at all. */
  predicate HasRoom(buffer: array?<wchar>, size: nat) {
    buffer != null ==> size < buffer.Length
  }

  method AppendCharacter(buffer: array?<wchar>, length: nat, c: wchar, ghost text: wstring)
    returns (ok: bool, newLength: nat)
    requires Holds(buffer, length, text) && HasRoom(buffer, length)
    modifies buffer
    ensures ok <==> |text| + 1 <= LIMIT
    ensures if ok then Holds(buffer, newLength, text + [c]) else length == LIMIT
  {
    if length == LIMIT {
      return false, length;
    }
    if buffer != null {
      buffer[length] := c;
    }
    return true, length + 1;
  }

  method AppendBackslashes(buffer: array?<wchar>, length: nat, count: nat, ghost text: wstring)
    returns (ok: bool, newLength: nat)
    requires Holds(buffer, length, text) && HasRoom(buffer, length + count)
    modifies buffer
    ensures ok <==> |text| + count <= LIMIT
    ensures ok ==> Holds(buffer, newLength, text + Backslashes(count))
  {
    ok, newLength := true, length;
    assert text + Backslashes(0) == text;
    for k := 0 to count
      invariant ok && Holds(buffer, newLength, text + Backslashes(k))
    {
      ok, newLength := AppendCharacter(buffer, newLength, BACKSLASH, text + Backslashes(k));
      if !ok {
        return;
      }
      assert text + Backslashes(k) + [BACKSLASH] == text + Backslashes(k + 1);
    }
  }

  /** The run of backslashes at i, which the body of the rest turns into a count. */
  method CountBackslashes(value: wstring, i: nat) returns (count: nat, next: nat)
    requires i <= |value|
    ensures next == i + count <= |value|
    ensures next < |value| ==> value[next] != BACKSLASH
    ensures Body(0, value[i..]) == Body(count, value[next..])
  {
    count, next := 0, i;
    while next < |value| && value[next] == BACKSLASH
      invariant next == i + count <= |value|
      invariant Body(0, value[i..]) == Body(count, value[next..])
    {
      assert value[next..][1..] == value[next + 1..];
      count, next := count + 1, next + 1;
    }
  }

  /** One turn of the quoting loop: a run of backslashes and the character that ends it. */
  method AppendPiece(buffer: array?<wchar>, length: nat, value: wstring, i: nat, ghost text: wstring)
    returns (ok: bool, newLength: nat, next: nat, more: bool, ghost piece: wstring)
    requires i <= |value| && Holds(buffer, length, text) && HasRoom(buffer, length + |Body(0, value[i..])|)
    modifies buffer
    ensures ok <==> |text| + |piece| <= LIMIT
    ensures ok ==> Holds(buffer, newLength, text + piece)
    ensures i <= next <= |value| && (more ==> i < next)
    ensures Body(0, value[i..]) == piece + if more then Body(0, value[next..]) else []
  {
    hide Body;
    var count, stop := CountBackslashes(value, i);
    ghost var rest := Body(count, value[stop..]);
    ghost var n := count;
    if stop == |value| || value[stop] == QUOTE {
      count := count * 2;
    }
    UnfoldBody(value, stop, count, rest, n);
    ok, newLength := AppendBackslashes(buffer, length, count, text);
    more := stop < |value|;
    next := if more then stop + 1 else stop;
    var quoted := more && value[stop] == QUOTE;
    piece := Backslashes(count);
    if quoted {
      piece := piece + [BACKSLASH];
      if ok {
        ok, newLength := AppendCharacter(buffer, newLength, BACKSLASH, text + Backslashes(count));
      }
      Assoc(text, Backslashes(count), [BACKSLASH]);
    }
    if more {
      ghost var before := piece;
      piece := piece + [value[stop]];
      if ok {
        ok, newLength := AppendCharacter(buffer, newLength, value[stop], text + before);
      }
      Assoc(text, before, [value[stop]]);
    }
    PieceIsBody(rest, count, value, stop);
  }

  lemma PieceIsBody(rest: wstring, count: nat, value: wstring, stop: nat)
    requires stop <= |value| && count <= |rest| && rest == Backslashes(count) + rest[count..]
    requires rest[count..] == if stop == |value| then []
                              else if value[stop] == QUOTE then [BACKSLASH, QUOTE] + Body(0, value[stop + 1..])
                              else [value[stop]] + Body(0, value[stop + 1..])
    ensures if stop == |value| then rest == Backslashes(count) + []
            else if value[stop] == QUOTE then rest == Backslashes(count) + [BACKSLASH] + [QUOTE] + Body(0, value[stop + 1..])
            else rest == Backslashes(count) + [value[stop]] + Body(0, value[stop + 1..])
  {
  }

  method AppendArgument(buffer: array?<wchar>, length: nat, value: wstring, ghost text: wstring)
    returns (ok: bool, newLength: nat)
    requires Holds(buffer, length, text) && HasRoom(buffer, length + |Quote(value)|)
    modifies buffer
    ensures ok <==> |text| + |Quote(value)| <= LIMIT
    ensures ok ==> Holds(buffer, newLength, text + Quote(value))
  {
    hide Body;
    ok, newLength := AppendCharacter(buffer, length, QUOTE, text);
    if !ok {
      return;
    }
    ghost var done, rest := [QUOTE], Body(0, value);
    var i, more := 0, true;
    assert value[0..] == value;
    Assoc([QUOTE], rest, [QUOTE]);
    while more
      invariant i <= |value| && Holds(buffer, newLength, text + done)
      invariant rest == if more then Body(0, value[i..]) else []
      invariant Quote(value) == done + rest + [QUOTE]
      decreases |value| - i, more
    {
      ghost var piece;
      ok, newLength, i, more, piece := AppendPiece(buffer, newLength, value, i, text + done);
      if !ok {
        return;
      }
      Assoc(text, done, piece);
      ghost var after := if more then Body(0, value[i..]) else [];
      Assoc(done, piece, after);
      done, rest := done + piece, after;
    }
    assert done + [] + [QUOTE] == done + [QUOTE];
    Assoc(text, done, [QUOTE]);
    ok, newLength := AppendCharacter(buffer, newLength, QUOTE, text + done);
  }

  /** What follows the backslashes: nothing, an escaped quote, or a plain character, then the rest. */
  lemma UnfoldBody(value: wstring, next: nat, count: nat, rest: wstring, n: nat)
    requires next <= |value| && (next < |value| ==> value[next] != BACKSLASH)
    requires rest == Body(n, value[next..])
    requires count == if next == |value| || value[next] == QUOTE then 2 * n else n
    ensures |rest| >= count && rest == Backslashes(count) + rest[count..]
    ensures rest[count..] == if next == |value| then []
                             else if value[next] == QUOTE then [BACKSLASH, QUOTE] + Body(0, value[next + 1..])
                             else [value[next]] + Body(0, value[next + 1..])
  {
  }

  /**
   Builds the command line in two passes, the first only counting.  It fails exactly when
   there is no program name or the line would need more than 32766 units.
   */
  method BuildCommandLine(args: seq<wstring>) returns (line: Option<wstring>)
    ensures line == if args != [] && args[0] != [] && |Line(args)| <= LIMIT then Some(Line(args)) else None
  {
    if args == [] || args[0] == [] {
      return None;
    }
    var counted, size := AppendAll(null, args);
    if !counted {
      return None;
    }
    var command := new wchar[size + 1];
    var written, length := AppendAll(command, args);
    command[length] := TERMINATOR;
    return Some(command[..length]);
  }

  method AppendAll(buffer: array?<wchar>, args: seq<wstring>) returns (ok: bool, length: nat)
    requires args != [] && HasRoom(buffer, |Line(args)|)
    modifies buffer
    ensures ok <==> |Line(args)| <= LIMIT
    ensures ok ==> Holds(buffer, length, Line(args))
  {
    hide Quote;
    ok, length := true, 0;
    for index := 0 to |args|
      invariant ok && Holds(buffer, length, Line(args[..index]))
    {
      LinePrefix(args, index);
      ghost var text := Line(args[..index]);
      if index > 0 {
        ok, length := AppendCharacter(buffer, length, SPACE, text);
        text := text + [SPACE];
      }
      if ok {
        ok, length := AppendArgument(buffer, length, args[index], text);
      }
      if !ok {
        return;
      }
    }
    assert args[..|args|] == args;
  }

  lemma {:induction false} LineGrows(args: seq<wstring>, k: nat)
    requires k <= |args|
    ensures |Line(args[..k])| <= |Line(args)|
  {
    if k == |args| {
      assert args[..k] == args;
    } else {
      LineGrows(args[..|args| - 1], k);
      assert args[..|args| - 1][..k] == args[..k];
    }
  }

  lemma LinePrefix(args: seq<wstring>, index: nat)
    requires index < |args|
    ensures Line(args[..index + 1])
         == if index == 0 then Quote(args[0]) else (Line(args[..index]) + [SPACE]) + Quote(args[index])
    ensures |Line(args[..index + 1])| <= |Line(args)|
  {
    hide Quote;
    assert args[..index + 1][..index] == args[..index];
    Assoc(Line(args[..index]), [SPACE], Quote(args[index]));
    LineGrows(args, index + 1);
  }
}
