/**
 The Android function allow patterns of core/android/function-paths.ts: the regular
 expression built for a glob, its meaning, and the expansion of allow lists.  Characters
 are Unicode code points.
 */
module FunctionPaths {
  import opened Common

  // ------------------------------------------------------- what a pattern means

  /** What a dot of a regular expression without the s flag does not match. */
  predicate IsLineEnd(c: char) { c == '\n' || c == '\r' || c == '\U{2028}' || c == '\U{2029}' }

  predicate NoLineEnd(s: string) { forall c | c in s :: !IsLineEnd(c) }

  predicate NoDot(s: string) { '.' !in s }

  /** Two stars stand for any text on one line, one star for any text without a dot, other characters for themselves. */
  predicate Glob(allow: string, path: string) {
    if allow == [] then path == []
    else if "**" <= allow then exists k | 0 <= k <= |path| :: NoLineEnd(path[..k]) && Glob(allow[2..], path[k..])
    else if allow[0] == '*' then exists k | 0 <= k <= |path| :: NoDot(path[..k]) && Glob(allow[1..], path[k..])
    else path != [] && path[0] == allow[0] && Glob(allow[1..], path[1..])
  }

  // -------------------------------------------- the fragment of regular expressions

  datatype Atom = Literal(c: char) | Dot | NotADot

  datatype Term = Term(atom: Atom, starred: bool)

  /** The characters with a meaning of their own in a pattern. */
  predicate IsSyntax(c: char) {
    c == '^' || c == '$' || c == '\\' || c == '.' || c == '*' || c == '+' || c == '?' || c == '(' || c == ')'
    || c == '[' || c == ']' || c == '{' || c == '}' || c == '|'
  }

  /** One atom and what follows it. */
  function ReadAtom(source: string): (r: Option<(Atom, string)>)
    ensures r.Some? ==> |r.value.1| < |source|
  {
    if source == [] then None
    else if source[0] == '\\' then
      if |source| > 1 && IsSyntax(source[1]) then Some((Literal(source[1]), source[2..])) else None
    else if source[0] == '.' then Some((Dot, source[1..]))
    else if "[^.]" <= source then Some((NotADot, source[4..]))
    else if IsSyntax(source[0]) then None
    else Some((Literal(source[0]), source[1..]))
  }

  /** Terms up to a final dollar sign. */
  function ReadTerms(source: string): Option<seq<Term>>
    decreases |source|
  {
    if source == "$" then Some([])
    else
      var atom := ReadAtom(source);
      if atom.None? then None
      else
        var starred := atom.value.1 != [] && atom.value.1[0] == '*';
        var rest := ReadTerms(if starred then atom.value.1[1..] else atom.value.1);
        if rest.None? then None else Some([Term(atom.value.0, starred)] + rest.value)
  }

  /** An anchored pattern. */
  function ReadExpression(source: string): Option<seq<Term>> {
    if source == [] || source[0] != '^' then None else ReadTerms(source[1..])
  }

  predicate Accepts(atom: Atom, c: char) {
    match atom
    case Literal(d) => c == d
    case Dot => !IsLineEnd(c)
    case NotADot => c != '.'
  }

  predicate AcceptsAll(atom: Atom, s: string) { forall c | c in s :: Accepts(atom, c) }

  /** Whether the terms, one after the other, can take up the whole text. */
  predicate Matches(terms: seq<Term>, path: string) {
    if terms == [] then path == []
    else if terms[0].starred then
      exists k | 0 <= k <= |path| :: AcceptsAll(terms[0].atom, path[..k]) && Matches(terms[1..], path[k..])
    else path != [] && Accepts(terms[0].atom, path[0]) && Matches(terms[1..], path[1..])
  }

  /** The test of a pattern. */
  predicate Test(source: string, path: string) {
    ReadExpression(source).Some? && Matches(ReadExpression(source).value, path)
  }

  // ------------------------------------------------------------ building a pattern

  function EscapeRegularExpression(c: char): string {
    if c == '\\' || c == '^' || c == '$' || c == '+' || c == '?' || c == '.' || c == '(' || c == ')' || c == '|'
       || c == '[' || c == ']' || c == '{' || c == '}'
    then ['\\', c] else [c]
  }

  /** The source between the anchors. */
  function Body(allow: string): string {
    if allow == [] then []
    else if "**" <= allow then ".*" + Body(allow[2..])
    else if allow[0] == '*' then "[^.]*" + Body(allow[1..])
    else EscapeRegularExpression(allow[0]) + Body(allow[1..])
  }

  function Expression(allow: string): string { "^" + Body(allow) + "$" }

  method CreateFunctionAllowExpression(allow: string) returns (source: string)
    ensures source == Expression(allow)
  {
    hide Body;
    source := "^";
    var index := 0;
    assert allow[0..] == allow;
    while index < |allow|
      invariant index <= |allow|
      invariant source + Body(allow[index..]) == "^" + Body(allow)
    {
      var rest := allow[index..];
      BodyStep(rest);
      if allow[index] == '*' && index + 1 < |allow| && allow[index + 1] == '*' {
        assert rest[2..] == allow[index + 2..];
        Assoc(source, ".*", Body(rest[2..]));
        source := source + ".*";
        index := index + 1;
      } else if allow[index] == '*' {
        assert rest[1..] == allow[index + 1..];
        Assoc(source, "[^.]*", Body(rest[1..]));
        source := source + "[^.]*";
      } else {
        assert rest[1..] == allow[index + 1..];
        Assoc(source, EscapeRegularExpression(allow[index]), Body(rest[1..]));
        source := source + EscapeRegularExpression(allow[index]);
      }
      index := index + 1;
    }
    BodyEnd(allow[index..]);
    assert source + [] == source;
    source := source + "$";
  }

  lemma BodyStep(allow: string)
    requires allow != []
    ensures Body(allow)
         == if allow[0] == '*' && |allow| > 1 && allow[1] == '*' then ".*" + Body(allow[2..])
            else if allow[0] == '*' then "[^.]*" + Body(allow[1..])
            else EscapeRegularExpression(allow[0]) + Body(allow[1..])
  {
  }

  lemma BodyEnd(allow: string)
    ensures allow == [] ==> Body(allow) == []
  {
  }

  // ----------------------------------------------------- the pattern means the glob

  function Terms(allow: string): seq<Term> {
    if allow == [] then []
    else if "**" <= allow then [Term(Dot, true)] + Terms(allow[2..])
    else if allow[0] == '*' then [Term(NotADot, true)] + Terms(allow[1..])
    else [Term(Literal(allow[0]), false)] + Terms(allow[1..])
  }

  /** What follows a term never starts with a star. */
  lemma BodyHead(allow: string)
    ensures Body(allow) + "$" != [] && (Body(allow) + "$")[0] != '*'
    ensures Body(allow) != [] ==> Body(allow) + "$" != "$"
  {
  }

  lemma ReadOne(text: string, atom: Atom, starred: bool, rest: string)
    requires text != "$" && rest != [] && rest[0] != '*'
    requires ReadAtom(text) == Some((atom, if starred then "*" + rest else rest))
    ensures ReadTerms(text) == if ReadTerms(rest).Some? then Some([Term(atom, starred)] + ReadTerms(rest).value) else None
  {
  }

  lemma ReadEscaped(c: char, rest: string)
    requires c != '*'
    ensures ReadAtom(EscapeRegularExpression(c) + rest) == Some((Literal(c), rest))
    ensures rest != [] ==> EscapeRegularExpression(c) + rest != "$"
  {
  }

  lemma ReadStars(rest: string)
    ensures ReadAtom(".*" + rest) == Some((Dot, "*" + rest)) && ReadAtom("[^.]*" + rest) == Some((NotADot, "*" + rest))
    ensures ".*" + rest != "$" && "[^.]*" + rest != "$"
  {
    assert (".*" + rest)[1..] == "*" + rest;
    assert ("[^.]*" + rest)[4..] == "*" + rest;
    assert "[^.]*" + rest == "[^.]" + ("*" + rest);
  }

  /** The built pattern is read as the terms of the glob: nothing in it is taken for syntax it is not. */
  lemma {:induction false} BodyReads(allow: string)
    ensures ReadTerms(Body(allow) + "$") == Some(Terms(allow))
  {
    hide ReadAtom, ReadTerms, Body;
    if allow == [] {
      BodyEnd(allow);
      EndReads();
      assert [] + "$" == "$";
    } else {
      BodyStep(allow);
      if "**" <= allow {
        var rest := Body(allow[2..]) + "$";
        BodyReads(allow[2..]);
        BodyHead(allow[2..]);
        ReadStars(rest);
        Assoc(".*", Body(allow[2..]), "$");
        ReadOne(".*" + rest, Dot, true, rest);
      } else {
        var rest := Body(allow[1..]) + "$";
        BodyReads(allow[1..]);
        BodyHead(allow[1..]);
        if allow[0] == '*' {
          ReadStars(rest);
          Assoc("[^.]*", Body(allow[1..]), "$");
          ReadOne("[^.]*" + rest, NotADot, true, rest);
        } else {
          var escaped := EscapeRegularExpression(allow[0]);
          ReadEscaped(allow[0], rest);
          Assoc(escaped, Body(allow[1..]), "$");
          ReadOne(escaped + rest, Literal(allow[0]), false, rest);
        }
      }
    }
  }

  lemma EndReads()
    ensures ReadTerms("$") == Some([])
  {
  }

  lemma TermsMatch(terms: seq<Term>, first: Term, path: string)
    ensures Matches([first] + terms, path)
        <==> if first.starred then exists k | 0 <= k <= |path| :: AcceptsAll(first.atom, path[..k]) && Matches(terms, path[k..])
             else path != [] && Accepts(first.atom, path[0]) && Matches(terms, path[1..])
  {
  }

  lemma AcceptsMeans(s: string)
    ensures AcceptsAll(Dot, s) == NoLineEnd(s) && AcceptsAll(NotADot, s) == NoDot(s)
  {
  }

  lemma {:induction false} TermsMeanGlob(allow: string, path: string)
    ensures Matches(Terms(allow), path) <==> Glob(allow, path)
    decreases |allow|
  {
    hide AcceptsAll, NoLineEnd, NoDot, Matches;
    if allow == [] {
      NoTerms(path);
    } else if "**" <= allow {
      TermsMatch(Terms(allow[2..]), Term(Dot, true), path);
      forall k | 0 <= k <= |path|
        ensures Matches(Terms(allow[2..]), path[k..]) == Glob(allow[2..], path[k..])
             && AcceptsAll(Dot, path[..k]) == NoLineEnd(path[..k]) {
        TermsMeanGlob(allow[2..], path[k..]);
        AcceptsMeans(path[..k]);
      }
    } else if allow[0] == '*' {
      TermsMatch(Terms(allow[1..]), Term(NotADot, true), path);
      forall k | 0 <= k <= |path|
        ensures Matches(Terms(allow[1..]), path[k..]) == Glob(allow[1..], path[k..])
             && AcceptsAll(NotADot, path[..k]) == NoDot(path[..k]) {
        TermsMeanGlob(allow[1..], path[k..]);
        AcceptsMeans(path[..k]);
      }
    } else {
      TermsMatch(Terms(allow[1..]), Term(Literal(allow[0]), false), path);
      if path != [] {
        TermsMeanGlob(allow[1..], path[1..]);
      }
    }
  }

  lemma NoTerms(path: string)
    ensures Matches([], path) <==> path == []
  {
  }

  /** The regular expression built for an allow pattern accepts exactly the paths of the glob. */
  lemma ExpressionMeansGlob(allow: string, path: string)
    ensures Test(Expression(allow), path) <==> Glob(allow, path)
  {
    hide ReadTerms, Matches, Glob, Body, Terms;
    assert Expression(allow)[1..] == Body(allow) + "$";
    BodyReads(allow);
    TermsMeanGlob(allow, path);
  }

  // ------------------------------------------------------------ what follows for paths

  /** Without a star a pattern accepts itself alone. */
  lemma {:induction false} ExactGlob(allow: string, path: string)
    requires '*' !in allow
    ensures Glob(allow, path) <==> path == allow
  {
    if allow != [] {
      assert allow[0] in allow && allow[0] != '*';
      if path != [] {
        ExactGlob(allow[1..], path[1..]);
        HeadTail(allow);
        HeadTail(path);
      }
    }
  }

  function Dots(s: string): nat {
    if s == [] then 0 else (if s[0] == '.' then 1 else 0) + Dots(s[1..])
  }

  lemma {:induction false} NoDotsBefore(s: string, k: nat)
    requires k <= |s| && NoDot(s[..k])
    ensures Dots(s) == Dots(s[k..])
  {
    if k > 0 {
      assert s[0] == s[..k][0] && s[1..][..k - 1] == s[..k][1..];
      NoDotsBefore(s[1..], k - 1);
      assert s[1..][k - 1..] == s[k..];
    }
  }

  predicate HasDoubleStar(allow: string) {
    |allow| >= 2 && ("**" <= allow || HasDoubleStar(allow[1..]))
  }

  /** Single stars stay inside one segment: a path that is accepted has as many dots as the pattern. */
  lemma {:induction false} StarsStayInSegments(allow: string, path: string)
    requires !HasDoubleStar(allow) && Glob(allow, path)
    ensures Dots(path) == Dots(allow)
    decreases |allow|
  {
    if allow != [] {
      if allow[0] == '*' {
        var k :| 0 <= k <= |path| && NoDot(path[..k]) && Glob(allow[1..], path[k..]);
        NoDotsBefore(path, k);
        StarsStayInSegments(allow[1..], path[k..]);
      } else {
        StarsStayInSegments(allow[1..], path[1..]);
      }
    }
  }

  // ------------------------------------------------------------------ the expansion

  predicate SomeAllows(allows: seq<string>, path: string) {
    exists allow | allow in allows :: Glob(allow, path)
  }

  predicate IsAvailable(allow: string, catalog: seq<string>) {
    exists path | path in catalog :: Glob(allow, path)
  }

  /** The paths of the catalog some pattern accepts, in the catalog's order. */
  function Selected(catalog: seq<string>, allows: seq<string>): seq<string> {
    if catalog == [] then []
    else
      var last := catalog[|catalog| - 1];
      Selected(catalog[..|catalog| - 1], allows) + (if SomeAllows(allows, last) then [last] else [])
  }

  datatype Expansion = Paths(paths: seq<string>) | Unavailable(allow: string)

  /** The right outcome: all selected paths, or the first pattern that accepts nothing. */
  predicate IsExpansion(result: Expansion, allows: seq<string>, catalog: seq<string>) {
    match result
    case Paths(paths) => (forall allow | allow in allows :: IsAvailable(allow, catalog)) && paths == Selected(catalog, allows)
    case Unavailable(allow) => IsFirstUnavailable(allow, allows, catalog)
  }

  predicate IsFirstUnavailable(allow: string, allows: seq<string>, catalog: seq<string>) {
    exists n | 0 <= n < |allows| ::
      allow == allows[n] && !IsAvailable(allow, catalog) && forall i | 0 <= i < n :: IsAvailable(allows[i], catalog)
  }

  /**
   The paths some pattern accepts, in catalog order; or the first pattern that accepts no
   path of the catalog.
   */
  method ExpandMuonAndroidFunctionAllows(allows: seq<string>, catalog: seq<string>) returns (result: Expansion)
    ensures IsExpansion(result, allows, catalog)
  {
    hide Glob, Expression, IsAvailable;
    var selected: set<string> := {};
    for n := 0 to |allows|
      invariant forall i | 0 <= i < n :: IsAvailable(allows[i], catalog)
      invariant forall path :: path in selected <==> path in catalog && SomeAllows(allows[..n], path)
    {
      var allow := allows[n];
      ghost var before := allows[..n];
      assert allows[..n + 1] == before + [allow];
      var matches: seq<string>;
      if '*' !in allow {
        ExactMatches(allow, catalog);
        matches := if allow in catalog then [allow] else [];
      } else {
        var source := CreateFunctionAllowExpression(allow);
        matches := FilterPaths(source, allow, catalog);
      }
      if matches == [] {
        NotAvailable(allow, catalog, matches);
        assert IsFirstUnavailable(allow, allows, catalog);
        return Unavailable(allow);
      }
      assert matches[0] in matches;
      assert IsAvailable(allow, catalog) by { SomeMatch(allow, catalog, matches[0]); }
      selected := selected + (set path | path in matches);
    }
    assert allows[..|allows|] == allows;
    var paths := FilterSelected(catalog, selected, allows);
    return Paths(paths);
  }

  lemma SomeMatch(allow: string, catalog: seq<string>, path: string)
    requires path in catalog && Glob(allow, path)
    ensures IsAvailable(allow, catalog)
  {
  }

  lemma ExactMatches(allow: string, catalog: seq<string>)
    requires '*' !in allow
    ensures forall path :: path in (if allow in catalog then [allow] else []) <==> path in catalog && Glob(allow, path)
  {
    hide Glob;
    forall path ensures Glob(allow, path) <==> path == allow { ExactGlob(allow, path); }
  }

  lemma NotAvailable(allow: string, catalog: seq<string>, matches: seq<string>)
    requires (forall path :: path in matches <==> path in catalog && Glob(allow, path)) && matches == []
    ensures !IsAvailable(allow, catalog)
  {
  }

  /** The paths a pattern's regular expression accepts. */
  method FilterPaths(source: string, ghost allow: string, catalog: seq<string>) returns (matches: seq<string>)
    requires source == Expression(allow)
    ensures forall path :: path in matches <==> path in catalog && Glob(allow, path)
  {
    hide Glob, Expression, Test;
    matches := [];
    for i := 0 to |catalog|
      invariant forall path :: path in matches <==> path in catalog[..i] && Glob(allow, path)
    {
      assert catalog[..i + 1] == catalog[..i] + [catalog[i]];
      ExpressionMeansGlob(allow, catalog[i]);
      if Test(source, catalog[i]) {
        matches := matches + [catalog[i]];
      }
    }
    assert catalog[..|catalog|] == catalog;
  }

  method FilterSelected(catalog: seq<string>, selected: set<string>, ghost allows: seq<string>) returns (paths: seq<string>)
    requires forall path :: path in selected <==> path in catalog && SomeAllows(allows, path)
    ensures paths == Selected(catalog, allows)
  {
    hide SomeAllows;
    paths := [];
    for i := 0 to |catalog|
      invariant paths == Selected(catalog[..i], allows)
    {
      assert catalog[..i + 1][..i] == catalog[..i];
      assert catalog[i] in catalog;
      if catalog[i] in selected {
        paths := paths + [catalog[i]];
      } else {
        assert paths + [] == paths;
      }
    }
    assert catalog[..|catalog|] == catalog;
  }

  /** Paths keep the catalog's order and number: what is selected from two parts is selected from each. */
  lemma {:induction false} SelectedInOrder(a: seq<string>, b: seq<string>, allows: seq<string>)
    ensures Selected(a + b, allows) == Selected(a, allows) + Selected(b, allows)
    ensures forall path :: Selected([path], allows) == if SomeAllows(allows, path) then [path] else []
  {
    hide Glob;
    if b == [] {
      assert a + b == a && Selected(a, allows) + [] == Selected(a, allows);
    } else {
      var front, last := b[..|b| - 1], b[|b| - 1];
      assert (a + b)[..|a + b| - 1] == a + front && (a + b)[|a + b| - 1] == last;
      SelectedInOrder(a, front, allows);
      Assoc(Selected(a, allows), Selected(front, allows), if SomeAllows(allows, last) then [last] else []);
    }
    forall path ensures Selected([path], allows) == if SomeAllows(allows, path) then [path] else [] {
      assert [path][..0] == [];
    }
  }

  /** Whatever the order of the patterns, the same paths come out. */
  lemma {:induction false} SelectionIgnoresOrder(catalog: seq<string>, a: seq<string>, b: seq<string>)
    requires forall allow :: allow in a <==> allow in b
    ensures Selected(catalog, a) == Selected(catalog, b)
    ensures forall path :: path in Selected(catalog, a) <==> path in catalog && SomeAllows(a, path)
  {
    hide Glob;
    if catalog != [] {
      SelectionIgnoresOrder(catalog[..|catalog| - 1], a, b);
      assert catalog == catalog[..|catalog| - 1] + [catalog[|catalog| - 1]];
    }
  }
}
