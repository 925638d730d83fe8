/** Texts as lines: writing each line with its line end, and splitting a text again. */
module TextLines {
  import opened Common

  /** The lines of a text; an end of text right after a line end starts no line. */
  function Lines(content: string): (r: seq<string>)
    ensures forall line | line in r :: '\n' !in line
  {
    if content == [] then []
    else
      var end := LineEnd(content);
      [content[..end]] + (if end == |content| then [] else Lines(content[end + 1..]))
  }

  /** Where the first line ends. */
  function LineEnd(content: string): (n: nat)
    ensures n <= |content| && '\n' !in content[..n] && (n < |content| ==> content[n] == '\n')
  {
    if content == [] || content[0] == '\n' then 0
    else
      var n := 1 + LineEnd(content[1..]);
      assert content[..n] == [content[0]] + content[1..][..n - 1];
      n
  }

  lemma {:induction false} LineEndIs(line: string, rest: string)
    requires '\n' !in line
    ensures LineEnd(line + "\n" + rest) == |line|
  {
    if line == [] {
    } else {
      assert line[0] in line;
      assert (line + "\n" + rest)[1..] == line[1..] + "\n" + rest;
      LineEndIs(line[1..], rest);
    }
  }

  lemma LinesStep(content: string)
    requires content != []
    ensures Lines(content)
         == [content[..LineEnd(content)]] + (if LineEnd(content) == |content| then [] else Lines(content[LineEnd(content) + 1..]))
  {
    hide LineEnd;
  }

  lemma NextLine(content: string, at: nat)
    requires at < |content|
    ensures
      var end := LineEnd(content[at..]);
      Lines(content[at..]) == [content[at..at + end]] + (if at + end == |content| then [] else Lines(content[at + end + 1..]))
      && at + end <= |content|
  {
    hide Lines, LineEnd;
    LinesStep(content[at..]);
    var end := LineEnd(content[at..]);
    assert content[at..][..end] == content[at..at + end];
    if at + end < |content| {
      assert content[at..][end + 1..] == content[at + end + 1..];
    }
  }

  lemma NoMoreLines(content: string)
    ensures Lines(content[|content|..]) == []
  {
  }

  lemma FirstLine(line: string, rest: string)
    requires '\n' !in line
    ensures Lines(line + "\n" + rest) == [line] + Lines(rest)
  {
    var content := line + "\n" + rest;
    LineEndIs(line, rest);
    assert content[..|line|] == line && content[|line| + 1..] == rest;
  }

  /** Every line with its line end. */
  function WithEnds(lines: seq<string>): string {
    if lines == [] then [] else WithEnds(lines[..|lines| - 1]) + (lines[|lines| - 1] + "\n")
  }

  lemma NoLines(lines: seq<string>)
    ensures WithEnds(lines[..0]) == []
  {
  }

  lemma EndsNext(lines: seq<string>, n: nat)
    requires n < |lines|
    ensures WithEnds(lines[..n + 1]) == WithEnds(lines[..n]) + (lines[n] + "\n")
  {
    assert lines[..n + 1][..n] == lines[..n];
  }

  lemma {:induction false} EndsShorter(lines: seq<string>, n: nat)
    requires n <= |lines|
    ensures |WithEnds(lines[..n])| <= |WithEnds(lines)|
    decreases |lines| - n
  {
    if n < |lines| {
      EndsNext(lines, n);
      EndsShorter(lines, n + 1);
    } else {
      assert lines[..n] == lines;
    }
  }

  /** The lines that were written are the lines that are read. */
  lemma {:induction false} LinesWithEnds(lines: seq<string>, rest: string)
    requires forall line | line in lines :: '\n' !in line
    ensures Lines(WithEnds(lines) + rest) == lines + Lines(rest)
  {
    hide Lines;
    if lines == [] {
      assert WithEnds(lines) + rest == rest;
    } else {
      var front, last := lines[..|lines| - 1], lines[|lines| - 1];
      LinesWithEnds(front, last + "\n" + rest);
      FirstLine(last, rest);
      Assoc(WithEnds(front), last + "\n", rest);
      Assoc(front, [last], Lines(rest));
      assert front + [last] == lines;
    }
  }

  lemma LinesOf(lines: seq<string>)
    requires forall line | line in lines :: '\n' !in line
    ensures Lines(WithEnds(lines)) == lines
  {
    LinesWithEnds(lines, []);
    assert WithEnds(lines) + [] == WithEnds(lines) && lines + [] == lines;
  }

  lemma EndsOfOne(a: string)
    ensures WithEnds([a]) == a + "\n"
  {
  }

  lemma {:induction false} EndsAppend(a: seq<string>, b: seq<string>)
    ensures WithEnds(a + b) == WithEnds(a) + WithEnds(b)
  {
    if b == [] {
      assert a + b == a && WithEnds(a) + [] == WithEnds(a);
    } else {
      var front, last := b[..|b| - 1], b[|b| - 1] + "\n";
      assert (a + b)[..|a + b| - 1] == a + front;
      EndsAppend(a, front);
      Assoc(WithEnds(a), WithEnds(front), last);
    }
  }

  function Ended(content: string): string {
    if content == [] || content[|content| - 1] == '\n' then content else content + "\n"
  }

  lemma FinishRest(line: string, rest: string, content: string)
    requires |line| < |content| && content[..|line|] == line && content[|line|] == '\n' && content[|line| + 1..] == rest
    ensures line + "\n" + Ended(rest) == Ended(content)
  {
    assert content == line + "\n" + rest;
    if rest != [] {
      assert content[|content| - 1] == rest[|rest| - 1];
      Assoc(line + "\n", rest, "\n");
    } else {
      assert content[|content| - 1] == '\n';
      assert line + "\n" + rest == line + "\n";
    }
  }

  /** Splitting loses nothing but whether the last line had its end. */
  lemma {:induction false} LinesMean(content: string)
    ensures WithEnds(Lines(content)) == Ended(content)
  {
    hide WithEnds, LineEnd, Lines;
    if content == [] {
      NoLines([""]);
      NoMoreLines(content);
      assert [""][..0] == [] && content[|content|..] == content;
    } else {
      var end := LineEnd(content);
      var line := content[..end];
      LinesStep(content);
      EndsOfOne(line);
      if end < |content| {
        var rest := content[end + 1..];
        LinesMean(rest);
        EndsAppend([line], Lines(rest));
        FinishRest(line, rest, content);
      } else {
        assert content[|content| - 1] in line;
        assert [line] + [] == [line];
      }
    }
  }
}
