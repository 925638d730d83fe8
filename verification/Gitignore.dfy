/**
 The .gitignore entries that builder/src/prepare.c keeps in a project: which lines count
 as an entry, and appending the missing ones.
 */
module Gitignore {
  import opened Common
  import opened Text
  import opened TextLines

  const ENTRIES: seq<string> := [".muon/", "dist-muon/", "artifacts/"]

  /** Whether a trimmed line stands for the entry. */
  predicate LineMatches(line: string, entry: string) {
    if entry == ".muon/" then line in [".muon/", "/.muon/", ".muon", "/.muon"]
    else if entry == "dist-muon/" then line in ["dist-muon/", "/dist-muon/", "dist-muon", "/dist-muon", "dist-muon/*", "/dist-muon/*"]
    else if entry == "artifacts/" then line in ["artifacts/", "/artifacts/", "artifacts", "/artifacts"]
    else line == entry
  }

  /**
   A line stands for an entry when it names the directory, with or without a slash before it
   and behind it; for dist-muon also with everything in it.
   */
  lemma SpellingsAre(line: string)
    ensures LineMatches(line, ".muon/") <==> line in Slashed(".muon")
    ensures LineMatches(line, "dist-muon/") <==> line in Slashed("dist-muon") || line in ["dist-muon/*", "/dist-muon/*"]
    ensures LineMatches(line, "artifacts/") <==> line in Slashed("artifacts")
  {
    DirectoriesDiffer();
    assert "/" + ".muon" == "/.muon" && ".muon" + "/" == ".muon/" && "/" + ".muon/" == "/.muon/";
    assert "/" + "dist-muon" == "/dist-muon" && "dist-muon" + "/" == "dist-muon/" && "/" + "dist-muon/" == "/dist-muon/";
    assert "/" + "artifacts" == "/artifacts" && "artifacts" + "/" == "artifacts/" && "/" + "artifacts/" == "/artifacts/";
  }

  /** The name as it is, and with a slash before it, behind it or both. */
  function Slashed(name: string): seq<string> { [name, "/" + name, name + "/", "/" + (name + "/")] }

  lemma DirectoriesDiffer()
    ensures ".muon/" != "dist-muon/" && ".muon/" != "artifacts/" && "dist-muon/" != "artifacts/"
  {
    assert ".muon/"[0] == '.' && "dist-muon/"[0] == 'd' && "artifacts/"[0] == 'a';
  }

  predicate HasEntry(content: string, entry: string) {
    exists line | line in Lines(content) :: LineMatches(Trim(line), entry)
  }

  method GitignoreHasEntry(content: string, entry: string) returns (found: bool)
    ensures found == HasEntry(content, entry)
  {
    hide Lines, LineEnd, LineMatches, Trim;
    var cursor := 0;
    assert content[0..] == content;
    while cursor < |content|
      invariant cursor <= |content|
      invariant HasEntry(content, entry) <==> exists line | line in Lines(content[cursor..]) :: LineMatches(Trim(line), entry)
    {
      NextLine(content, cursor);
      var limit := cursor + LineEnd(content[cursor..]);
      if LineMatches(Trim(content[cursor..limit]), entry) {
        assert content[cursor..limit] in Lines(content[cursor..]);
        return true;
      }
      cursor := if limit == |content| then limit else limit + 1;
      NoMoreLines(content);
      assert content[cursor..] == if limit == |content| then content[|content|..] else content[limit + 1..];
    }
    assert content[cursor..] == content[|content|..];
    NoMoreLines(content);
    return false;
  }

  function Missing(content: string, entries: seq<string>): seq<string> {
    if entries == [] then []
    else
      var last := entries[|entries| - 1];
      Missing(content, entries[..|entries| - 1]) + (if HasEntry(content, last) then [] else [last])
  }

  /** The missing entries, in the order of the list. */
  lemma MissingAre(content: string)
    ensures Missing(content, ENTRIES)
         == (if HasEntry(content, ".muon/") then [] else [".muon/"])
            + (if HasEntry(content, "dist-muon/") then [] else ["dist-muon/"])
            + (if HasEntry(content, "artifacts/") then [] else ["artifacts/"])
  {
    hide HasEntry;
    var (two, one) := (ENTRIES[..2], ENTRIES[..1]);
    assert two[..1] == one && one[..0] == [];
    assert Missing(content, one) == (if HasEntry(content, ".muon/") then [] else [".muon/"]);
    assert Missing(content, two) == Missing(content, one) + (if HasEntry(content, "dist-muon/") then [] else ["dist-muon/"]);
  }

  predicate NeedsLineEnd(content: string) { content != [] && content[|content| - 1] != '\n' }

  function Finished(content: string): string { if NeedsLineEnd(content) then content + "\n" else content }

  /** The content with the missing entries on lines of their own. */
  function Ensured(content: string): string {
    var missing := Missing(content, ENTRIES);
    if missing == [] then content else Finished(content) + WithEnds(missing)
  }

  /** What one pass makes of a file: it looks for entries only before the first null character, and appends at the end. */
  function Passed(text: string): string { Completed(text, CText(text), ENTRIES) }

  function Completed(text: string, seen: string, entries: seq<string>): string {
    var missing := Missing(seen, entries);
    if missing == [] then text else text + LineEndFor(seen) + WithEnds(missing)
  }

  function LineEndFor(seen: string): string { if NeedsLineEnd(seen) then "\n" else "" }

  /** The project's .gitignore, if there is one. */
  class GitignoreFile {
    var content: Option<string>

    function Text(): string
      reads this
    {
      if content.Some? then content.value else ""
    }

    /** Appending fails before or part way, or succeeds. */
    method AppendTextFile(text: string) returns (ok: bool)
      modifies this
      ensures old(Text()) <= Text()
      ensures ok ==> content == Some(old(Text()) + text)
    {
      if * {
        return false;
      }
      var written: nat :| written <= |text|;
      if written < |text| {
        content := Some(Text() + text[..written]);
        return false;
      }
      content := Some(Text() + text);
      return true;
    }

    method AppendGitignoreEntry(entry: string, needsLineEnd: bool) returns (ok: bool)
      modifies this
      ensures old(Text()) <= Text()
      ensures ok ==> content == Some((if needsLineEnd then old(Text()) + "\n" else old(Text())) + (entry + "\n"))
    {
      var text := if needsLineEnd then "\n" + entry + "\n" else entry + "\n";
      ok := AppendTextFile(text);
      Assoc(old(Text()), "\n", entry + "\n");
      Assoc("\n", entry, "\n");
    }

    /**
     Outside a project nothing is done; an existing file that cannot be read is left alone.
     Otherwise nothing that was there is lost, and the missing entries are appended.
     */
    method EnsureMuonGitignoreEntry(inProject: bool, readable: bool) returns (ok: bool)
      modifies this
      ensures old(Text()) <= Text()
      ensures !inProject || (old(content).Some? && !readable) ==> content == old(content) && ok == !inProject
      ensures ok && inProject ==> Text() == Passed(old(Text()))
    {
      hide HasEntry, Completed, Missing, CText, NeedsLineEnd;
      if !inProject {
        return true;
      }
      if content.Some? && !readable {
        return false;
      }
      var existing, text := content.Some?, Text();
      var seen := CText(text);
      NothingSeen();
      var needsLineEnd := existing && NeedsLineEnd(seen);
      NothingCompleted(text, seen);
      for index := 0 to |ENTRIES|
        invariant text <= Text() && Text() == Completed(text, seen, ENTRIES[..index])
        invariant needsLineEnd == (Missing(seen, ENTRIES[..index]) == [] && NeedsLineEnd(seen))
      {
        var entry := ENTRIES[index];
        CompletedNext(text, seen, index);
        var present := existing;
        if present {
          present := GitignoreHasEntry(seen, entry);
        } else {
          EmptyHasNoEntry(entry);
        }
        if !present {
          ok := AppendGitignoreEntry(entry, needsLineEnd);
          if !ok {
            return;
          }
          needsLineEnd := false;
        }
      }
      assert ENTRIES[..|ENTRIES|] == ENTRIES;
      ok := true;
    }
  }

  lemma NothingCompleted(text: string, seen: string)
    ensures Completed(text, seen, ENTRIES[..0]) == text && Missing(seen, ENTRIES[..0]) == []
  {
    NothingMissing(seen);
  }

  /** One more entry: nothing if it is there, else its line, after a line end before the first one. */
  lemma CompletedNext(text: string, seen: string, index: nat)
    requires index < |ENTRIES|
    ensures
      var (sofar, entry) := (Completed(text, seen, ENTRIES[..index]), ENTRIES[index]);
      var first := Missing(seen, ENTRIES[..index]) == [];
      && (HasEntry(seen, entry) ==>
            Completed(text, seen, ENTRIES[..index + 1]) == sofar
            && Missing(seen, ENTRIES[..index + 1]) == Missing(seen, ENTRIES[..index]))
      && (!HasEntry(seen, entry) ==>
            Completed(text, seen, ENTRIES[..index + 1])
              == (if first && NeedsLineEnd(seen) then sofar + "\n" else sofar) + (entry + "\n")
            && Missing(seen, ENTRIES[..index + 1]) != [])
  {
    hide HasEntry, Missing, WithEnds, NeedsLineEnd;
    var before := Missing(seen, ENTRIES[..index]);
    MissingNext(seen, index);
    EndsSnoc(before, ENTRIES[index]);
    Assoc(text + LineEndFor(seen), WithEnds(before), ENTRIES[index] + "\n");
    assert text + "" == text;
  }

  lemma NothingSeen()
    ensures CText("") == "" && !NeedsLineEnd("")
  {
  }

  lemma NothingMissing(text: string)
    ensures Missing(text, ENTRIES[..0]) == []
  {
  }

  lemma MissingNext(text: string, index: nat)
    requires index < |ENTRIES|
    ensures Missing(text, ENTRIES[..index + 1])
         == if HasEntry(text, ENTRIES[index]) then Missing(text, ENTRIES[..index]) else Missing(text, ENTRIES[..index]) + [ENTRIES[index]]
  {
    hide HasEntry;
    assert Missing(text, ENTRIES[..index]) + [] == Missing(text, ENTRIES[..index]);
    assert ENTRIES[..index + 1][..index] == ENTRIES[..index];
  }

  lemma EmptyHasNoEntry(entry: string)
    ensures !HasEntry("", entry)
  {
  }

  lemma EndsSnoc(lines: seq<string>, line: string)
    ensures WithEnds(lines + [line]) == WithEnds(lines) + (line + "\n")
    ensures lines == [] ==> WithEnds(lines + [line]) == line + "\n"
  {
  }

  // ------------------------------------------------------------------ what it ensures

  /** After a line end the lines of two texts are simply put together. */
  lemma {:induction false} LinesAppend(a: string, b: string)
    requires a == [] || a[|a| - 1] == '\n'
    ensures Lines(a + b) == Lines(a) + Lines(b)
    decreases |a|
  {
    hide Lines, LineEnd;
    if a == [] {
      NoMoreLines("");
      assert a + b == b && a[|a|..] == a;
      assert [] + Lines(b) == Lines(b);
    } else {
      FirstEnds(a);
      var line, tail := a[..LineEnd(a)], a[LineEnd(a) + 1..];
      assert a == line + "\n" + tail;
      Assoc(line + "\n", tail, b);
      FirstLine(line, tail);
      FirstLine(line, tail + b);
      LinesAppend(tail, b);
      Assoc([line], Lines(tail), Lines(b));
    }
  }

  lemma FirstEnds(a: string)
    requires a != [] && a[|a| - 1] == '\n'
    ensures LineEnd(a) < |a|
  {
  }

  /** A line end after an unfinished last line adds no line. */
  lemma {:induction false} LinesFinished(a: string)
    requires NeedsLineEnd(a)
    ensures Lines(a + "\n") == Lines(a)
    decreases |a|
  {
    hide Lines, LineEnd;
    var n := LineEnd(a);
    if n == |a| {
      LinesStep(a);
      assert a[..n] == a;
      assert a + "\n" == a + "\n" + "";
      FirstLine(a, "");
      NoMoreLines("");
      assert ""[0..] == "";
    } else {
      var line, tail := a[..n], a[n + 1..];
      assert a == line + "\n" + tail;
      assert a + "\n" == line + "\n" + (tail + "\n");
      FirstLine(line, tail);
      FirstLine(line, tail + "\n");
      LinesFinished(tail);
    }
  }

  lemma {:induction false} MissingMembers(content: string, entries: seq<string>, entry: string)
    ensures entry in Missing(content, entries) <==> entry in entries && !HasEntry(content, entry)
  {
    hide HasEntry;
    if entries != [] {
      MissingMembers(content, entries[..|entries| - 1], entry);
      assert entries == entries[..|entries| - 1] + [entries[|entries| - 1]];
    }
  }

  lemma EntriesArePlain(entry: string)
    requires entry in ENTRIES
    ensures '\n' !in entry && Trimmed(entry) && LineMatches(entry, entry)
  {
  }

  /** The old lines stay as they are, followed by the missing entries. */
  lemma LinesEnsured(content: string)
    ensures Lines(Ensured(content)) == Lines(content) + Missing(content, ENTRIES)
  {
    hide HasEntry, WithEnds, Lines, Missing;
    var missing := Missing(content, ENTRIES);
    if missing == [] {
      assert Lines(content) + [] == Lines(content);
    } else {
      forall line | line in missing ensures '\n' !in line {
        MissingMembers(content, ENTRIES, line);
        EntriesArePlain(line);
      }
      LinesOf(missing);
      if NeedsLineEnd(content) {
        LinesFinished(content);
        LinesAppend(content + "\n", WithEnds(missing));
      } else {
        assert content + "" == content;
        LinesAppend(content, WithEnds(missing));
      }
    }
  }

  /** Afterwards every entry is there, and ensuring again changes nothing. */
  lemma EnsuredIsStable(content: string)
    ensures forall entry | entry in ENTRIES :: HasEntry(Ensured(content), entry)
    ensures Ensured(Ensured(content)) == Ensured(content)
  {
    hide Ensured, Lines, Missing, LineMatches;
    LinesEnsured(content);
    forall entry | entry in ENTRIES ensures HasEntry(Ensured(content), entry) {
      EntryEnsured(content, entry);
    }
    NoneMissing(Ensured(content));
  }

  lemma EntryEnsured(content: string, entry: string)
    requires entry in ENTRIES && Lines(Ensured(content)) == Lines(content) + Missing(content, ENTRIES)
    ensures HasEntry(Ensured(content), entry)
  {
    hide Ensured, Lines, Missing, LineMatches, Trim;
    MissingMembers(content, ENTRIES, entry);
    if HasEntry(content, entry) {
      var line :| line in Lines(content) && LineMatches(Trim(line), entry);
      assert line in Lines(Ensured(content));
    } else {
      EntriesArePlain(entry);
      TrimIs(entry);
      assert entry in Lines(Ensured(content));
    }
  }

  lemma NoneMissing(content: string)
    requires forall entry | entry in ENTRIES :: HasEntry(content, entry)
    ensures Ensured(content) == content
  {
    hide HasEntry;
    var missing := Missing(content, ENTRIES);
    if missing != [] {
      MissingMembers(content, ENTRIES, missing[0]);
    }
  }

  /** Without a null character a pass ensures every entry. */
  lemma PassEnsures(text: string)
    requires '\0' !in text
    ensures Passed(text) == Ensured(text)
  {
    hide Missing, WithEnds, CText;
    CTextWhole(text);
    assert text + "" == text;
  }

  /**
   A second pass changes nothing exactly when the file has no null character or nothing was
   missing before the first one; otherwise every pass appends the same entries again.
   */
  lemma PassIsStableExactly(text: string)
    ensures Passed(Passed(text)) == Passed(text) <==> '\0' !in text || Missing(CText(text), ENTRIES) == []
  {
    hide Missing, WithEnds, CText, Ensured;
    var missing := Missing(CText(text), ENTRIES);
    if missing != [] {
      if '\0' in text {
        NullStays(text, LineEndFor(CText(text)) + WithEnds(missing));
        Assoc(text, LineEndFor(CText(text)), WithEnds(missing));
        EndsAreText(missing);
      } else {
        PassEnsures(text);
        EnsuredIsStable(text);
        EnsuredHasNoNull(text);
        PassEnsures(Ensured(text));
      }
    }
  }

  lemma NullStays(text: string, more: string)
    requires '\0' in text
    ensures CText(text + more) == CText(text)
  {
    CTextIs(text);
    var n := |CText(text)|;
    assert (text + more)[..n] == CText(text) && (text + more)[n] == '\0';
    IndexOfIs(text + more, '\0', n);
  }

  lemma EndsAreText(lines: seq<string>)
    requires lines != []
    ensures WithEnds(lines) != []
  {
  }

  lemma EnsuredHasNoNull(text: string)
    requires '\0' !in text
    ensures '\0' !in Ensured(text)
  {
    hide HasEntry;
    forall entry | entry in Missing(text, ENTRIES) ensures '\0' !in entry {
      MissingMembers(text, ENTRIES, entry);
    }
    EndsHaveNoNull(Missing(text, ENTRIES));
  }

  lemma {:induction false} EndsHaveNoNull(lines: seq<string>)
    requires forall line | line in lines :: '\0' !in line
    ensures '\0' !in WithEnds(lines)
  {
    if lines != [] {
      EndsHaveNoNull(lines[..|lines| - 1]);
      assert lines[|lines| - 1] in lines;
    }
  }
}
