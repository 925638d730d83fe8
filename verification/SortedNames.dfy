/** Directory names in strcmp order: one list for each set of names. */
module SortedNames {
  import opened Common
  import opened Text

  predicate Below(a: string, b: string) { CompareText(a, b) <= 0 }

  ghost predicate IsLeast(x: string, s: set<string>) {
    x in s && forall y | y in s :: Below(x, y)
  }

  lemma LeastExists(s: set<string>) returns (x: string)
    requires s != {}
    ensures IsLeast(x, s)
  {
    hide CompareText;
    x :| x in s;
    CompareTextZero(x, x);
    if s != {x} {
      var y := LeastExists(s - {x});
      CompareTextAntisymmetric(x, y);
      if !Below(x, y) {
        x := y;
      } else {
        forall z | z in s ensures Below(x, z) {
          if z != x {
            assert z in s - {x} && Below(y, z);
            CompareTextTransitive(x, y, z);
          }
        }
      }
    }
  }

  lemma HasLeast(s: set<string>)
    requires s != {}
    ensures exists x :: IsLeast(x, s)
  {
    var x := LeastExists(s);
  }

  lemma LeastUnique(x: string, y: string, s: set<string>)
    requires IsLeast(x, s) && IsLeast(y, s)
    ensures x == y
  {
    hide CompareText;
    CompareTextAntisymmetric(x, y);
    CompareTextZero(x, y);
  }

  ghost function Least(s: set<string>): (x: string)
    requires s != {}
    ensures IsLeast(x, s)
  {
    HasLeast(s);
    var x :| IsLeast(x, s);
    x
  }

  /** The names of the set in increasing order. */
  ghost function Ordered(s: set<string>): (r: seq<string>)
    ensures forall x :: x in r <==> x in s
    ensures |r| == |s|
  {
    if s == {} then []
    else
      var x := Least(s);
      var rest := Ordered(s - {x});
      assert forall y :: y in [x] + rest <==> y == x || y in rest;
      [x] + rest
  }

  lemma OrderedInjective(s: set<string>, t: set<string>)
    requires Ordered(s) == Ordered(t)
    ensures s == t
  {
  }

  ghost predicate Increasing(r: seq<string>) {
    forall i, j | 0 <= i < j < |r| :: Below(r[i], r[j])
  }

  ghost predicate Distinct(r: seq<string>) {
    forall i, j | 0 <= i < j < |r| :: r[i] != r[j]
  }

  lemma {:induction false} OrderedIncreases(s: set<string>)
    ensures Increasing(Ordered(s)) && Distinct(Ordered(s))
  {
    hide Increasing, Distinct, Below;
    if s == {} {
      NoneIncreases();
    } else {
      var x := Least(s);
      OrderedIncreases(s - {x});
      ConsIncreases(x, Ordered(s - {x}));
    }
  }

  lemma NoneIncreases()
    ensures Increasing([]) && Distinct([])
  {
  }

  lemma ConsIncreases(x: string, rest: seq<string>)
    requires Increasing(rest) && Distinct(rest) && x !in rest && forall y | y in rest :: Below(x, y)
    ensures Increasing([x] + rest) && Distinct([x] + rest)
  {
  }

  /** Any increasing list of distinct names is the ordered list of its set. */
  lemma {:induction false} IncreasingIsOrdered(r: seq<string>, s: set<string>)
    requires Increasing(r) && Distinct(r)
    requires forall x :: x in r <==> x in s
    ensures r == Ordered(s)
  {
    hide CompareText;
    if r == [] {
      assert s == {};
    } else {
      assert r[0] in r;
      CompareTextZero(r[0], r[0]);
      assert IsLeast(r[0], s);
      LeastUnique(r[0], Least(s), s);
      forall x ensures x in r[1..] <==> x in s - {r[0]} {
        if x in r[1..] {
          var k :| 0 <= k < |r[1..]| && r[1..][k] == x;
          assert r[k + 1] == x && r[0] != r[k + 1];
        }
        if x in s && x != r[0] {
          var k :| 0 <= k < |r| && r[k] == x;
          assert r[1..][k - 1] == x;
        }
      }
      IncreasingIsOrdered(r[1..], s - {r[0]});
      HeadTail(r);
    }
  }

  /** Sorts directory names; what the library's sort does with names that all differ. */
  method SortNames(names: seq<string>) returns (sorted: seq<string>)
    requires Distinct(names)
    ensures forall s :: (forall x :: x in names <==> x in s) ==> sorted == Ordered(s)
  {
    hide CompareText, Ordered;
    sorted := [];
    for i := 0 to |names|
      invariant Increasing(sorted) && Distinct(sorted)
      invariant forall x :: x in sorted <==> x in names[..i]
    {
      var name := names[i];
      assert names[..i + 1] == names[..i] + [name];
      assert name !in names[..i];
      sorted := Insert(sorted, name);
    }
    assert names[..|names|] == names;
    forall s: set<string> | forall x :: x in names <==> x in s
      ensures sorted == Ordered(s)
    {
      IncreasingIsOrdered(sorted, s);
    }
  }

  method Insert(sorted: seq<string>, name: string) returns (r: seq<string>)
    requires Increasing(sorted) && Distinct(sorted) && name !in sorted
    ensures Increasing(r) && Distinct(r)
    ensures forall x :: x in r <==> x in sorted || x == name
  {
    hide CompareText;
    var k := 0;
    while k < |sorted| && CompareText(sorted[k], name) <= 0
      invariant k <= |sorted| && forall i | 0 <= i < k :: Below(sorted[i], name)
    {
      k := k + 1;
    }
    if k < |sorted| {
      CompareTextAntisymmetric(sorted[k], name);
      forall j | k <= j < |sorted| ensures Below(name, sorted[j]) {
        if j > k { CompareTextTransitive(name, sorted[k], sorted[j]); }
      }
    }
    r := sorted[..k] + [name] + sorted[k..];
    assert sorted == sorted[..k] + sorted[k..];
  }
}
