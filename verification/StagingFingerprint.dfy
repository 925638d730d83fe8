/**
 What the staging fingerprint of builder/src/prepare.c tells apart.  Paths, kinds, names and
 digests are joined without lengths: equal fingerprints mean equal unskipped trees unless
 digests collide or the directories that differ hold a name and that name followed by
 ":directory"; two such trees have equal fingerprints whatever the hash.
 */
module StagingFingerprint {
  import opened Common
  import opened SortedNames
  import opened Text
  import opened RelativePath
  import opened Staging

  predicate IsHex(c: char) { '0' <= c <= '9' || 'a' <= c <= 'f' }

  predicate IsDigest(s: string) { |s| == 64 && forall i | 0 <= i < 64 :: IsHex(s[i]) }

  /** The hash gives hexadecimal digests. */
  ghost predicate IsHexHash(h: Hash) {
    forall s {:trigger h(s)} :: IsDigest(h(s))
  }

  // ------------------------------------------------------------- what is hashed

  /** The tree without what the staging rule skips. */
  function Visible(t: Tree, relative: string): Tree
    decreases t
  {
    match t
    case Directory(entries) =>
      Directory(map name | name in entries && !ShouldSkip(Child(relative, name)) :: Visible(entries[name], Child(relative, name)))
    case _ => t
  }

  /** The unskipped names of a directory, in order. */
  ghost function Names(t: Tree, relative: string): seq<string>
    requires t.Directory?
  {
    Unskipped(Ordered(t.entries.Keys), relative)
  }

  /** Every byte stream and content hashed while fingerprinting the tree. */
  ghost function Hashed(h: Hash, t: Tree, relative: string): set<string>
    decreases t
  {
    {Stream(h, t, relative)} +
      match t
      case File(content) => {content}
      case Other => {}
      case Directory(entries) =>
        set name, s | name in entries && !ShouldSkip(Child(relative, name)) && s in Hashed(h, entries[name], Child(relative, name)) :: s
  }

  /** Two different ones with the same digest. */
  ghost predicate Collision(h: Hash, streams: set<string>) {
    exists x, y | x in streams && y in streams :: x != y && h(x) == h(y)
  }

  // ------------------------------------------------- where the joined parts run together

  const MARK := ":directory"

  /** One of the names is the other followed by the mark of a directory, and possibly more. */
  predicate Overlap(m: string, n: string) { m + MARK <= n || n + MARK <= m }

  /** At some directory both trees have, the unskipped names differ and two of them overlap. */
  ghost predicate Ambiguous(a: Tree, b: Tree, relative: string)
    decreases a
  {
    a.Directory? && b.Directory?
    && ((Names(a, relative) != Names(b, relative) && NamesOverlap(Names(a, relative), Names(b, relative)))
        || exists name | name in a.entries && name in b.entries && !ShouldSkip(Child(relative, name)) ::
             Ambiguous(a.entries[name], b.entries[name], Child(relative, name)))
  }

  ghost predicate NamesOverlap(ms: seq<string>, ns: seq<string>) {
    exists m, n | m in ms && n in ns :: Overlap(m, n)
  }

  /** What a path is before its last name. */
  function Before(relative: string): string {
    if relative == [] || relative[|relative| - 1] == '/' then relative else relative + "/"
  }

  ghost function Detail(h: Hash, t: Tree, path: string): string {
    match t
    case File(content) => "file" + h(content)
    case Other => "other"
    case Directory(entries) => "directory" + Children(h, t, Ordered(entries.Keys), path)
  }

  lemma ChildStream(h: Hash, t: Tree, relative: string, name: string)
    requires name != []
    ensures Stream(h, t, Child(relative, name)) == Before(relative) + (name + (":" + Detail(h, t, Child(relative, name))))
  {
    var (path, detail) := (Child(relative, name), Detail(h, t, Child(relative, name)));
    assert Stream(h, t, path) == path + ":" + detail;
    assert path == Before(relative) + name;
    Assoc(path, ":", detail);
    Assoc(Before(relative), name, ":" + detail);
  }

  lemma PlainDigest(h: Hash, s: string)
    requires IsHexHash(h)
    ensures |h(s)| == 64 && ':' !in h(s) && '/' !in h(s)
  {
    assert IsDigest(h(s));
  }

  /** The details of a node hold a colon only behind the mark of a directory. */
  lemma ColonInDetail(h: Hash, t: Tree, path: string, k: nat)
    requires IsHexHash(h) && k < |Detail(h, t, path)| && Detail(h, t, path)[k] == ':'
    ensures k >= 9 && "directory" <= Detail(h, t, path)
  {
    hide Children, IsDigest, IsHexHash;
    match t
    case File(content) => NoColon(h, content, k);
    case Other =>
    case Directory(entries) =>
      NoColonInWord("directory" + Children(h, t, Ordered(entries.Keys), path));
  }

  lemma NoColonInWord(detail: string)
    requires "directory" <= detail
    ensures forall i | 0 <= i < 9 :: detail[i] != ':'
  {
    assert forall i | 0 <= i < 9 :: detail[i] == "directory"[i];
  }

  lemma NoColon(h: Hash, content: string, k: nat)
    requires IsHexHash(h) && k < |"file" + h(content)|
    ensures ("file" + h(content))[k] != ':'
  {
    hide IsDigest, IsHexHash;
    PlainDigest(h, content);
    if k >= 4 {
      assert ("file" + h(content))[k] == h(content)[k - 4];
      assert h(content)[k - 4] in h(content);
    }
  }

  lemma LongerName(m: string, x: string, n: string, y: string)
    requires |m| < |n| && m + (":" + x) == n + (":" + y)
    ensures |x| > |n| - |m| - 1 && x[|n| - |m| - 1] == ':'
    ensures "directory" <= x && |n| - |m| - 1 >= 9 ==> m + MARK <= n
  {
    var s := m + (":" + x);
    assert s[|n|] == ':' == (":" + x)[|n| - |m|] == x[|n| - |m| - 1] by {
      assert (n + (":" + y))[|n|] == ':';
    }
    if "directory" <= x && |n| - |m| - 1 >= 9 {
      forall i | 0 <= i < |m + MARK| ensures n[i] == (m + MARK)[i] {
        assert n[i] == s[i];
        if i > |m| { assert s[i] == x[i - |m| - 1] == "directory"[i - |m| - 1]; }
      }
      assert n[..|m + MARK|] == m + MARK;
    }
  }

  /** Children with one stream have one name, or overlapping names. */
  lemma EqualChildStreams(h: Hash, s: Tree, m: string, t: Tree, n: string, relative: string)
    requires IsHexHash(h) && m != [] && n != []
    requires Stream(h, s, Child(relative, m)) == Stream(h, t, Child(relative, n))
    ensures m == n || Overlap(m, n)
  {
    hide Stream, Detail, IsDigest, Child;
    var (x, y) := (Detail(h, s, Child(relative, m)), Detail(h, t, Child(relative, n)));
    ChildStream(h, s, relative, m);
    ChildStream(h, t, relative, n);
    Tails(Before(relative), m + (":" + x), n + (":" + y));
    if |m| < |n| {
      LongerName(m, x, n, y);
      ColonInDetail(h, s, Child(relative, m), |n| - |m| - 1);
    } else if |n| < |m| {
      LongerName(n, y, m, x);
      ColonInDetail(h, t, Child(relative, n), |m| - |n| - 1);
    } else {
      assert m == (m + (":" + x))[..|m|] == (n + (":" + y))[..|n|] == n;
    }
  }

  lemma Tails(head: string, x: string, y: string)
    requires head + x == head + y
    ensures x == y
  {
    assert (head + x)[|head|..] == x && (head + y)[|head|..] == y;
  }

  lemma Heads(x: string, y: string, tail: string)
    requires x + tail == y + tail
    ensures x == y
  {
    assert (x + tail)[..|x|] == x && (y + tail)[..|y|] == y;
  }

  // -------------------------------------------------- equal fingerprints, equal trees

  /** A last name adds itself and its digest. */
  lemma {:induction false} LastChild(h: Hash, t: Tree, names: seq<string>, name: string, relative: string)
    requires t.Directory? && name in t.entries && !ShouldSkip(Child(relative, name))
    requires forall n | n in names :: n in t.entries
    ensures forall n | n in names + [name] :: n in t.entries
    ensures Children(h, t, names + [name], relative)
         == Children(h, t, names, relative) + (name + h(Stream(h, t.entries[name], Child(relative, name))))
  {
    hide ShouldSkip, Child, Stream;
    var last := name + h(Stream(h, t.entries[name], Child(relative, name)));
    if names == [] {
      assert [] + [name] == [name] && [name][1..] == [];
      assert last + [] == last && [] + last == last;
    } else {
      LastChild(h, t, names[1..], name, relative);
      assert (names + [name])[0] == names[0] && (names + [name])[1..] == names[1..] + [name];
      var child := Child(relative, names[0]);
      var own := if ShouldSkip(child) then [] else names[0] + h(Stream(h, t.entries[names[0]], child));
      Assoc(own, Children(h, t, names[1..], relative), last);
    }
  }

  lemma EqualEnds(u: string, m: string, d: string, v: string, n: string, e: string)
    requires |d| == |e| && u + (m + d) == v + (n + e)
    ensures d == e && u + m == v + n
  {
    Assoc(u, m, d);
    Assoc(v, n, e);
    assert (u + m + d)[|u + m|..] == d && (v + n + e)[|v + n|..] == e;
    assert (u + m + d)[..|u + m|] == u + m && (v + n + e)[..|v + n|] == v + n;
  }

  lemma SplitLast(names: seq<string>)
    requires names != []
    ensures names == names[..|names| - 1] + [names[|names| - 1]]
    ensures forall n | n in names[..|names| - 1] :: n in names
  {
  }

  lemma SomeChild(h: Hash, t: Tree, names: seq<string>, relative: string)
    requires IsHexHash(h) && t.Directory? && names != []
    requires forall name | name in names :: name in t.entries && !ShouldSkip(Child(relative, name))
    ensures Children(h, t, names, relative) != []
  {
    hide ShouldSkip, Child, Stream;
    assert IsDigest(h(Stream(h, t.entries[names[0]], Child(relative, names[0]))));
  }

  lemma ChildHashed(h: Hash, t: Tree, name: string, relative: string)
    requires t.Directory? && name in t.entries && !ShouldSkip(Child(relative, name))
    ensures Hashed(h, t.entries[name], Child(relative, name)) <= Hashed(h, t, relative)
    ensures Stream(h, t.entries[name], Child(relative, name)) in Hashed(h, t, relative)
  {
    hide Stream, ShouldSkip, Child;
    forall s | s in Hashed(h, t.entries[name], Child(relative, name)) ensures s in Hashed(h, t, relative) {}
  }

  lemma CollisionGrows(h: Hash, small: set<string>, large: set<string>)
    requires small <= large && Collision(h, small)
    ensures Collision(h, large)
  {
    var x, y :| x in small && y in small && x != y && h(x) == h(y);
    assert x in large && y in large;
  }

  /** From the last name back: equal children have equal names and equal streams, */
  lemma {:induction false} ChildrenDecide(h: Hash, a: Tree, ms: seq<string>, b: Tree, ns: seq<string>, relative: string)
    requires IsHexHash(h) && a.Directory? && b.Directory?
    requires forall m | m in ms :: m != [] && m in a.entries && !ShouldSkip(Child(relative, m))
    requires forall n | n in ns :: n != [] && n in b.entries && !ShouldSkip(Child(relative, n))
    requires Children(h, a, ms, relative) == Children(h, b, ns, relative)
    requires ms == ns || !NamesOverlap(ms, ns)
    requires !Collision(h, Hashed(h, a, relative) + Hashed(h, b, relative))
    ensures ms == ns
    ensures forall m | m in ms ::
      Stream(h, a.entries[m], Child(relative, m)) == Stream(h, b.entries[m], Child(relative, m))
    decreases |ms|
  {
    hide ShouldSkip, Child, Stream, Children, Hashed, Overlap, IsDigest;
    if ms == [] || ns == [] {
      NoChildren(h, a, relative);
      NoChildren(h, b, relative);
      if ms != [] { SomeChild(h, a, ms, relative); }
      if ns != [] { SomeChild(h, b, ns, relative); }
    } else {
      var (m, n) := (ms[|ms| - 1], ns[|ns| - 1]);
      var (first, others) := (ms[..|ms| - 1], ns[..|ns| - 1]);
      SplitLast(ms);
      SplitLast(ns);
      LastChild(h, a, first, m, relative);
      LastChild(h, b, others, n, relative);
      var (x, y) := (Stream(h, a.entries[m], Child(relative, m)), Stream(h, b.entries[n], Child(relative, n)));
      PlainDigest(h, x);
      PlainDigest(h, y);
      EqualEnds(Children(h, a, first, relative), m, h(x), Children(h, b, others, relative), n, h(y));
      ChildHashed(h, a, m, relative);
      ChildHashed(h, b, n, relative);
      assert x == y;
      EqualChildStreams(h, a.entries[m], m, b.entries[n], n, relative);
      assert m == n;
      Heads(Children(h, a, first, relative), Children(h, b, others, relative), m);
      ChildrenDecide(h, a, first, b, others, relative);
    }
  }

  lemma NoChildren(h: Hash, t: Tree, relative: string)
    requires t.Directory?
    ensures Children(h, t, [], relative) == []
  {
  }

  lemma UnskippedNames(h: Hash, t: Tree, relative: string)
    requires t.Directory?
    ensures forall name :: name in Names(t, relative) <==> name in t.entries && !ShouldSkip(Child(relative, name))
    ensures Stream(h, t, relative) == relative + ":" + ("directory" + Children(h, t, Names(t, relative), relative))
  {
    hide ShouldSkip, Child;
    ChildrenUnskipped(h, t, Ordered(t.entries.Keys), relative);
  }

  lemma {:induction false} DirectoriesDecide(h: Hash, a: Tree, b: Tree, relative: string)
    requires IsHexHash(h) && ProperNames(a) && ProperNames(b) && a.Directory? && b.Directory?
    requires Stream(h, a, relative) == Stream(h, b, relative)
    requires !Collision(h, Hashed(h, a, relative) + Hashed(h, b, relative)) && !Ambiguous(a, b, relative)
    ensures Visible(a, relative) == Visible(b, relative)
    decreases a, 0
  {
    hide ShouldSkip, Child, Stream, Children, Hashed, Overlap, NamesOverlap, IsDigest, Collision, ProperNames, Names;
    UnskippedNames(h, a, relative);
    UnskippedNames(h, b, relative);
    var (ms, ns) := (Names(a, relative), Names(b, relative));
    DetailsAgree(relative + ":", Children(h, a, ms, relative), Children(h, b, ns, relative));
    NamesAreProper(a);
    NamesAreProper(b);
    ChildrenDecide(h, a, ms, b, ns, relative);
    forall name | name in ms
      ensures Visible(a.entries[name], Child(relative, name)) == Visible(b.entries[name], Child(relative, name)) {
      var (child, other, path) := (a.entries[name], b.entries[name], Child(relative, name));
      ChildHashed(h, a, name, relative);
      ChildHashed(h, b, name, relative);
      var below := Hashed(h, child, path) + Hashed(h, other, path);
      StreamsDecide(h, child, other, path);
      if Collision(h, below) { CollisionGrows(h, below, Hashed(h, a, relative) + Hashed(h, b, relative)); }
    }
    assert Visible(a, relative).entries == Visible(b, relative).entries;
  }

  lemma NamesAreProper(t: Tree)
    requires t.Directory? && ProperNames(t)
    ensures forall name | name in t.entries :: name != [] && ProperNames(t.entries[name])
  {
  }

  /** The kind is the first letter behind the path. */
  lemma SameKind(h: Hash, a: Tree, b: Tree, path: string)
    requires Stream(h, a, path) == Stream(h, b, path)
    ensures Detail(h, a, path) == Detail(h, b, path)
    ensures (a.File? <==> b.File?) && (a.Directory? <==> b.Directory?)
  {
    assert Stream(h, a, path) == path + ":" + Detail(h, a, path);
    assert Stream(h, b, path) == path + ":" + Detail(h, b, path);
    Tails(path + ":", Detail(h, a, path), Detail(h, b, path));
    assert Detail(h, a, path)[0] == Detail(h, b, path)[0];
  }

  /**
   Equal streams mean equal unskipped trees, in names, kinds and contents, unless two different
   streams or contents hashed on the way collide, or the names of some directory are ambiguous.
   */
  lemma {:induction false} StreamsDecide(h: Hash, a: Tree, b: Tree, relative: string)
    requires IsHexHash(h) && ProperNames(a) && ProperNames(b) && Stream(h, a, relative) == Stream(h, b, relative)
    ensures Visible(a, relative) == Visible(b, relative)
         || Collision(h, Hashed(h, a, relative) + Hashed(h, b, relative)) || Ambiguous(a, b, relative)
    decreases a, 1
  {
    hide Stream, Children, Visible, Ambiguous, ProperNames, IsDigest, ShouldSkip, Child;
    SameKind(h, a, b, relative);
    if a.File? {
      FilesDecide(h, a, b, relative);
    } else if a.Other? {
      assert a == b;
    } else if !Ambiguous(a, b, relative) && !Collision(h, Hashed(h, a, relative) + Hashed(h, b, relative)) {
      DirectoriesDecide(h, a, b, relative);
    }
  }

  lemma FilesDecide(h: Hash, a: Tree, b: Tree, relative: string)
    requires a.File? && b.File? && Detail(h, a, relative) == Detail(h, b, relative)
    ensures a == b || Collision(h, Hashed(h, a, relative) + Hashed(h, b, relative))
  {
    Tails("file", h(a.content), h(b.content));
    assert a.content in Hashed(h, a, relative) && b.content in Hashed(h, b, relative);
  }

  // ------------------------------------------- equal trees, equal fingerprints

  lemma VisibleNames(t: Tree, relative: string)
    requires t.Directory?
    ensures Ordered(Visible(t, relative).entries.Keys) == Names(t, relative)
  {
    hide ShouldSkip, Child, Increasing, Distinct;
    var all := Ordered(t.entries.Keys);
    OrderedIncreases(t.entries.Keys);
    UnskippedIncreases(all, relative);
    forall name ensures name in Unskipped(all, relative) <==> name in Visible(t, relative).entries.Keys {
      assert name in all <==> name in t.entries.Keys;
    }
    IncreasingIsOrdered(Unskipped(all, relative), Visible(t, relative).entries.Keys);
  }

  /** The stream sees the unskipped tree alone. */
  lemma {:induction false} StreamOfVisible(h: Hash, t: Tree, relative: string)
    ensures Stream(h, Visible(t, relative), relative) == Stream(h, t, relative)
    decreases t
  {
    hide ShouldSkip, Child;
    if t.Directory? {
      VisibleNames(t, relative);
      ChildrenUnskipped(h, t, Ordered(t.entries.Keys), relative);
      ChildrenOfVisible(h, t, Names(t, relative), relative);
    }
  }

  lemma {:induction false} ChildrenOfVisible(h: Hash, t: Tree, names: seq<string>, relative: string)
    requires t.Directory? && forall name | name in names :: name in t.entries && !ShouldSkip(Child(relative, name))
    ensures forall name | name in names :: name in Visible(t, relative).entries
    ensures Children(h, Visible(t, relative), names, relative) == Children(h, t, names, relative)
    decreases t, |names|
  {
    hide ShouldSkip, Child, Stream;
    if names != [] {
      var child := t.entries[names[0]];
      StreamOfVisible(h, child, Child(relative, names[0]));
      assert Visible(t, relative).entries[names[0]] == Visible(child, Child(relative, names[0]));
      ChildrenOfVisible(h, t, names[1..], relative);
    }
  }

  /** Staging fingerprints are equal for equal unskipped trees, and for no others but those named. */
  lemma FingerprintsDecide(h: Hash, a: Tree, b: Tree)
    requires IsHexHash(h) && ProperNames(a) && ProperNames(b)
    ensures Visible(a, "") == Visible(b, "") ==> FingerprintOf(h, a, "") == FingerprintOf(h, b, "")
    ensures FingerprintOf(h, a, "") == FingerprintOf(h, b, "") ==>
      Visible(a, "") == Visible(b, "") || Collision(h, Hashed(h, a, "") + Hashed(h, b, "")) || Ambiguous(a, b, "")
  {
    hide Stream, Visible, Ambiguous, ProperNames, IsDigest;
    StreamOfVisible(h, a, "");
    StreamOfVisible(h, b, "");
    var (x, y) := (Stream(h, a, ""), Stream(h, b, ""));
    assert x in Hashed(h, a, "") && y in Hashed(h, b, "");
    if x == y { StreamsDecide(h, a, b, ""); }
  }

  // ------------------------------------------------------ which names are ambiguous

  /** The name holds the mark somewhere. */
  predicate Marked(name: string) { exists i | 0 <= i <= |name| :: MARK <= name[i..] }

  predicate Unmarked(t: Tree, relative: string)
    decreases t
  {
    t.Directory? ==> forall name | name in t.entries && !ShouldSkip(Child(relative, name)) ::
      !Marked(name) && Unmarked(t.entries[name], Child(relative, name))
  }

  /** The unskipped names are the same at every directory both trees have. */
  ghost predicate SameNames(a: Tree, b: Tree, relative: string)
    decreases a
  {
    a.Directory? && b.Directory? ==>
      Names(a, relative) == Names(b, relative)
      && forall name | name in a.entries && name in b.entries && !ShouldSkip(Child(relative, name)) ::
           SameNames(a.entries[name], b.entries[name], Child(relative, name))
  }

  lemma OverlapIsMarked(m: string, n: string)
    requires Overlap(m, n)
    ensures Marked(m) || Marked(n)
  {
    if m + MARK <= n {
      assert MARK <= n[|m|..] by { assert n[..|m + MARK|] == m + MARK; }
    } else {
      assert MARK <= m[|n|..] by { assert m[..|n + MARK|] == n + MARK; }
    }
  }

  /** Trees without marked names are not ambiguous, and neither are trees with the same names. */
  lemma {:induction false} NotAmbiguous(a: Tree, b: Tree, relative: string)
    requires (Unmarked(a, relative) && Unmarked(b, relative)) || SameNames(a, b, relative)
    ensures !Ambiguous(a, b, relative)
    decreases a
  {
    hide ShouldSkip, Child, Overlap, Marked;
    if a.Directory? && b.Directory? {
      if Names(a, relative) != Names(b, relative) && NamesOverlap(Names(a, relative), Names(b, relative)) {
        var m, n :| m in Names(a, relative) && n in Names(b, relative) && Overlap(m, n);
        OverlapIsMarked(m, n);
      }
      forall name | name in a.entries && name in b.entries && !ShouldSkip(Child(relative, name))
        ensures !Ambiguous(a.entries[name], b.entries[name], Child(relative, name)) {
        NotAmbiguous(a.entries[name], b.entries[name], Child(relative, name));
      }
    }
  }

  /** Without marked names, or with the same names, only collisions hide a difference. */
  lemma UnmarkedFingerprintsDecide(h: Hash, a: Tree, b: Tree)
    requires IsHexHash(h) && ProperNames(a) && ProperNames(b)
    requires (Unmarked(a, "") && Unmarked(b, "")) || SameNames(a, b, "")
    requires FingerprintOf(h, a, "") == FingerprintOf(h, b, "")
    ensures Visible(a, "") == Visible(b, "") || Collision(h, Hashed(h, a, "") + Hashed(h, b, ""))
  {
    hide Visible, Ambiguous, Unmarked, SameNames, ProperNames, Collision;
    FingerprintsDecide(h, a, b);
    NotAmbiguous(a, b, "");
  }

  // ---------------------------------- for every marked name there are such trees

  /** A directory with one entry. */
  function Holding(name: string, t: Tree): Tree { Directory(map[name := t]) }

  /** A marked name, and the names that are made from it and from the digest d of its file. */
  function Name(w: string, v: string): string { w + MARK + v }

  function First(w: string, v: string, d: string): string { Name(w, v) + d + w }

  function Second(w: string, v: string, d: string): string { Name(w, v) + d + First(w, v, d) }

  function Inner(w: string, v: string, d: string): string { v + d + w + ":file" }

  /** The marked name with any content, and a directory behind it holding one file. */
  function OneTree(w: string, v: string, d: string, x: string, y: string): Tree {
    Directory(map[Name(w, v) := File(x), First(w, v, d) := Holding(Inner(w, v, d), File(y))])
  }

  /** One file. */
  function OtherTree(w: string, v: string, d: string, content: string): Tree { Holding(Second(w, v, d), File(content)) }

  lemma SecondIsFirst(w: string, v: string, d: string)
    ensures Second(w, v, d) + ":file" == First(w, v, d) + (MARK + Inner(w, v, d))
  {
    var n := First(w, v, d);
    calc {
      w + MARK + v + d + n + ":file";
      == w + MARK + v + d + (w + MARK + v + d + w) + ":file";
      == w + MARK + v + d + w + (MARK + (v + d + w + ":file"));
    }
  }

  lemma OneName(name: string)
    ensures Ordered({name}) == [name]
  {
    IncreasingIsOrdered([name], {name});
  }

  lemma LongerIsAbove(p: string, rest: string)
    ensures Below(p, p + rest)
  {
    CompareTextAntisymmetric(p + rest, p);
    CompareTextMeans(p + rest, p);
    forall k: nat ensures !TextBelowAt(p + rest, p, k) {}
  }

  lemma TwoNames(p: string, rest: string)
    requires rest != []
    ensures Ordered({p, p + rest}) == [p, p + rest]
  {
    LongerIsAbove(p, rest);
    IncreasingIsOrdered([p, p + rest], {p, p + rest});
  }

  /** A directory of one child hashes the child's name and digest. */
  lemma OneChildStream(h: Hash, name: string, t: Tree, relative: string)
    requires !ShouldSkip(Child(relative, name))
    ensures Stream(h, Holding(name, t), relative)
         == relative + ":" + ("directory" + (name + h(Stream(h, t, Child(relative, name)))))
  {
    hide ShouldSkip, Child;
    var entries := map[name := t];
    OneName(name);
    assert entries.Keys == {name};
    var own := name + h(Stream(h, t, Child(relative, name)));
    NoChildren(h, Directory(entries), relative);
    assert [name][1..] == [] && own + [] == own;
  }

  lemma TwoChildrenStream(h: Hash, p: string, s: Tree, rest: string, t: Tree, relative: string)
    requires rest != [] && !ShouldSkip(Child(relative, p)) && !ShouldSkip(Child(relative, p + rest))
    ensures Stream(h, Directory(map[p := s, p + rest := t]), relative)
         == relative + ":"
            + ("directory" + (p + h(Stream(h, s, Child(relative, p))) + (p + rest + h(Stream(h, t, Child(relative, p + rest))))))
  {
    hide ShouldSkip, Child;
    var n := p + rest;
    var entries := map[p := s, n := t];
    TwoNames(p, rest);
    assert entries.Keys == {p, n};
    var d := Directory(entries);
    LastChild(h, d, [p], n, relative);
    LastChild(h, d, [], p, relative);
    NoChildren(h, d, relative);
    var own := p + h(Stream(h, s, Child(relative, p)));
    assert [] + own == own && [] + [p] == [p] && [p] + [n] == [p, n];
  }

  lemma PartsAreNames(w: string, v: string, d: string)
    requires '/' !in w && '/' !in v && '/' !in d && d != []
    ensures IsName(Name(w, v)) && IsName(First(w, v, d)) && IsName(Second(w, v, d)) && IsName(Inner(w, v, d))
    ensures |Second(w, v, d)| > |First(w, v, d)| > |Name(w, v)|
    ensures First(w, v, d) == Name(w, v) + (d + w)
  {
    Assoc(Name(w, v), d, w);
  }

  lemma TreesAreProper(w: string, v: string, d: string, x: string, y: string, content: string)
    requires '/' !in w && '/' !in v && '/' !in d && d != []
    ensures ProperNames(OneTree(w, v, d, x, y)) && ProperNames(OtherTree(w, v, d, content))
  {
    hide Name, First, Second, Inner;
    PartsAreNames(w, v, d);
    assert ProperNames(File(x)) && ProperNames(File(y)) && ProperNames(File(content));
    assert ProperNames(Holding(Inner(w, v, d), File(y)));
    var entries := map[Name(w, v) := File(x), First(w, v, d) := Holding(Inner(w, v, d), File(y))];
    assert forall name | name in entries :: IsName(name) && ProperNames(entries[name]);
  }

  /** The digests of the two files whose bytes run together, at their places. */
  ghost function DigestAt(h: Hash, relative: string, w: string, v: string, x: string): string {
    h(Stream(h, File(x), Child(relative, Name(w, v))))
  }

  ghost function ContentAt(h: Hash, relative: string, w: string, v: string, d: string, y: string): string {
    Stream(h, File(y), Child(Child(relative, First(w, v, d)), Inner(w, v, d)))
  }

  /** None of the names is skipped at its place. */
  predicate Staged(relative: string, w: string, v: string, d: string) {
    && (relative != [] ==> relative[|relative| - 1] != '/')
    && !ShouldSkip(Child(relative, Name(w, v)))
    && !ShouldSkip(Child(relative, First(w, v, d))) && !ShouldSkip(Child(relative, Second(w, v, d)))
  }

  lemma InnerIsStaged(relative: string, w: string, v: string, d: string)
    requires '/' !in w && '/' !in v && '/' !in d && d != [] && Staged(relative, w, v, d)
    ensures !ShouldSkip(Child(Child(relative, First(w, v, d)), Inner(w, v, d)))
  {
    hide First, Second, Inner, Name, ShouldSkip;
    PartsAreNames(w, v, d);
    SkipIsRootOnly(relative, First(w, v, d));
    SkipIsRootOnly(Child(relative, First(w, v, d)), Inner(w, v, d));
  }

  /** The two trees have one stream. */
  lemma ConfusedStreams(h: Hash, relative: string, w: string, v: string, x: string, y: string)
    requires IsHexHash(h) && '/' !in w && '/' !in v && Staged(relative, w, v, DigestAt(h, relative, w, v, x))
    ensures
      var d := DigestAt(h, relative, w, v, x);
      Stream(h, OneTree(w, v, d, x, y), relative)
      == Stream(h, OtherTree(w, v, d, ContentAt(h, relative, w, v, d, y)), relative)
  {
    hide First, Second, Inner, Name, Stream, IsDigest, ShouldSkip, Child;
    PlainDigest(h, Stream(h, File(x), Child(relative, Name(w, v))));
    var d := DigestAt(h, relative, w, v, x);
    var (p, n, m, c) := (Name(w, v), First(w, v, d), Second(w, v, d), Inner(w, v, d));
    PartsAreNames(w, v, d);
    InnerIsStaged(relative, w, v, d);
    var content := ContentAt(h, relative, w, v, d, y);
    OneChildStream(h, c, File(y), Child(relative, n));
    OneChildStream(h, m, File(content), relative);
    FileStream(h, content, Child(relative, m));
    SecondIsFirst(w, v, d);
    SamePaths(relative, n, c, m);
    SameBytes(Child(relative, n), c, Child(relative, m), h(content));
    TwoChildrenStream(h, p, File(x), d + w, Holding(c, File(y)), relative);
    SecondParts(p, d, n, h(Stream(h, Holding(c, File(y)), Child(relative, n))), w, v);
  }

  lemma SecondParts(p: string, d: string, n: string, e: string, w: string, v: string)
    requires p == Name(w, v) && n == First(w, v, d)
    ensures p + d + (n + e) == Second(w, v, d) + e
  {
    Assoc(p + d, n, e);
  }

  lemma FileStream(h: Hash, content: string, path: string)
    ensures Stream(h, File(content), path) == path + ":" + ("file" + h(content))
  {
  }

  lemma SamePaths(relative: string, n: string, c: string, m: string)
    requires n != [] && m != [] && m + ":file" == n + (MARK + c)
    ensures Child(relative, m) + ":file" == Child(relative, n) + (MARK + c)
  {
    assert Child(relative, m) == Before(relative) + m && Child(relative, n) == Before(relative) + n;
    Assoc(Before(relative), m, ":file");
    Assoc(Before(relative), n, MARK + c);
  }

  lemma SameBytes(n: string, c: string, m: string, d: string)
    requires m + ":file" == n + (MARK + c)
    ensures m + ":" + ("file" + d) == n + ":" + ("directory" + (c + d))
  {
    calc {
      m + ":" + ("file" + d);
      == { assert ":" + "file" == ":file"; Assoc(m, ":", "file" + d); Assoc(":", "file", d); Assoc(m, ":file", d); }
      m + ":file" + d;
      == { Assoc(n, MARK + c, d); Assoc(MARK, c, d); Assoc(":", "directory", c + d); assert ":" + "directory" == MARK; }
      n + (":" + ("directory" + (c + d)));
      == { Assoc(n, ":", "directory" + (c + d)); }
      n + ":" + ("directory" + (c + d));
    }
  }

  /** And they differ, also in what is staged of them. */
  lemma ConfusedTreesDiffer(relative: string, w: string, v: string, d: string, x: string, y: string, content: string)
    requires '/' !in w && '/' !in v && '/' !in d && d != [] && Staged(relative, w, v, d)
    ensures Visible(OneTree(w, v, d, x, y), relative) != Visible(OtherTree(w, v, d, content), relative)
  {
    hide First, Second, Inner, Name, ShouldSkip, Child;
    PartsAreNames(w, v, d);
    assert Name(w, v) in Visible(OneTree(w, v, d, x, y), relative).entries;
    assert Name(w, v) !in Visible(OtherTree(w, v, d, content), relative).entries;
  }

  /** Every marked name is a beginning, the mark and a rest. */
  lemma MarkedParts(name: string) returns (w: string, v: string)
    requires Marked(name)
    ensures name == Name(w, v)
  {
    var i :| 0 <= i <= |name| && MARK <= name[i..];
    w, v := name[..i], name[i + |MARK|..];
    assert name == name[..i] + name[i..];
    assert name[i..] == MARK + v;
  }

  const FOLDER := "app"

  /** In an unskipped directory nothing is skipped. */
  lemma FolderIsStaged(w: string, v: string, d: string)
    requires '/' !in w && '/' !in v && '/' !in d && d != []
    ensures Child("", FOLDER) == FOLDER && !ShouldSkip(FOLDER) && Staged(FOLDER, w, v, d)
  {
    hide First, Second, Inner, Name, IsSkippedEntry, ShouldSkip;
    PartsAreNames(w, v, d);
    RareIsStaged(FOLDER);
    SkipIsRootOnly("", FOLDER);
    SkipIsRootOnly(FOLDER, Name(w, v));
    SkipIsRootOnly(FOLDER, First(w, v, d));
    SkipIsRootOnly(FOLDER, Second(w, v, d));
  }

  /**
   For every hash and every name that holds the mark there are two trees that differ in what is
   staged and have the same stream; one of them has a file of that name.
   */
  lemma MarkedNamesConfuse(h: Hash, name: string, x: string, y: string) returns (a: Tree, b: Tree)
    requires IsHexHash(h) && IsName(name) && Marked(name)
    ensures ProperNames(a) && ProperNames(b)
    ensures a.Directory? && FOLDER in a.entries && a.entries[FOLDER].Directory?
    ensures name in a.entries[FOLDER].entries && a.entries[FOLDER].entries[name] == File(x)
    ensures Stream(h, a, "") == Stream(h, b, "") && FingerprintOf(h, a, "") == FingerprintOf(h, b, "")
    ensures Visible(a, "") != Visible(b, "")
  {
    hide First, Second, Inner, Stream, IsDigest, ShouldSkip, Child, ProperNames, Staged, Visible;
    var w, v := MarkedParts(name);
    PartsOfName(w, v);
    hide Name;
    PlainDigest(h, Stream(h, File(x), Child(FOLDER, Name(w, v))));
    var d := DigestAt(h, FOLDER, w, v, x);
    var content := ContentAt(h, FOLDER, w, v, d, y);
    var (s, t) := (OneTree(w, v, d, x, y), OtherTree(w, v, d, content));
    a, b := Holding(FOLDER, s), Holding(FOLDER, t);
    PartsAreNames(w, v, d);
    TreesAreProper(w, v, d, x, y, content);
    FolderIsStaged(w, v, d);
    ConfusedStreams(h, FOLDER, w, v, x, y);
    ConfusedTreesDiffer(FOLDER, w, v, d, x, y, content);
    HoldingIsProper(s);
    HoldingIsProper(t);
    OneChildStream(h, FOLDER, s, "");
    OneChildStream(h, FOLDER, t, "");
    HoldingShows(s);
    HoldingShows(t);
  }

  lemma PartsOfName(w: string, v: string)
    requires '/' !in Name(w, v)
    ensures '/' !in w && '/' !in v
  {
    forall c | c in w || c in v ensures c in Name(w, v) {}
  }

  lemma HoldingIsProper(t: Tree)
    requires ProperNames(t)
    ensures ProperNames(Holding(FOLDER, t))
  {
  }

  lemma HoldingShows(t: Tree)
    requires Child("", FOLDER) == FOLDER && !ShouldSkip(FOLDER)
    ensures Visible(Holding(FOLDER, t), "") == Holding(FOLDER, Visible(t, FOLDER))
  {
    hide ShouldSkip, Child;
  }

  /** The shortest such name, at the root: two trees whose fingerprints no hash tells apart. */
  lemma NoHashTellsApart(h: Hash, x: string, y: string)
    requires IsHexHash(h)
    ensures
      var d := h(":directory:file" + h(x));
      var content := ":directory" + d + "/" + d + ":file:file" + h(y);
      var a := Directory(map[":directory" := File(x), ":directory" + d := Directory(map[d + ":file" := File(y)])]);
      var b := Directory(map[":directory" + d + ":directory" + d := File(content)]);
      ProperNames(a) && ProperNames(b) && FingerprintOf(h, a, "") == FingerprintOf(h, b, "") && Visible(a, "") != Visible(b, "")
  {
    hide Stream, IsDigest, ShouldSkip, IsSkippedEntry, ProperNames, Visible;
    ShortestParts(h, x, y);
    var d := DigestAt(h, "", "", "", x);
    PlainDigest(h, Stream(h, File(x), Child("", Name("", ""))));
    PartsAreNames("", "", d);
    RootIsStaged(Name("", ""));
    RootIsStaged(First("", "", d));
    RootIsStaged(Second("", "", d));
    assert Staged("", "", "", d);
    TreesAreProper("", "", d, x, y, ContentAt(h, "", "", "", d, y));
    ConfusedStreams(h, "", "", "", x, y);
    ConfusedTreesDiffer("", "", "", d, x, y, ContentAt(h, "", "", "", d, y));
  }

  lemma ShortestParts(h: Hash, x: string, y: string)
    requires IsHexHash(h)
    ensures
      var d := h(":directory:file" + h(x));
      && DigestAt(h, "", "", "", x) == d
      && Name("", "") == ":directory" && First("", "", d) == ":directory" + d && Inner("", "", d) == d + ":file"
      && Second("", "", d) == ":directory" + d + ":directory" + d
      && ContentAt(h, "", "", "", d, y) == ":directory" + d + "/" + d + ":file:file" + h(y)
  {
    hide Stream, IsDigest, IsHexHash, First, Second, Inner, Name, Child;
    var d := h(":directory:file" + h(x));
    PlainDigest(h, ":directory:file" + h(x));
    ShortestNames(d);
    FileStream(h, x, ":directory");
    assert ":directory" + ":" + ("file" + h(x)) == ":directory:file" + h(x);
    var path := ":directory" + d + "/" + (d + ":file");
    FileStream(h, y, path);
    ShortestContent(d, h(y));
  }

  lemma ShortestNames(d: string)
    requires d != [] && '/' !in d
    ensures Name("", "") == ":directory" && Child("", ":directory") == ":directory"
    ensures First("", "", d) == ":directory" + d && Inner("", "", d) == d + ":file"
    ensures Second("", "", d) == ":directory" + d + ":directory" + d
    ensures Child(Child("", First("", "", d)), Inner("", "", d)) == ":directory" + d + "/" + (d + ":file")
  {
    assert Name("", "") == ":directory";
    assert First("", "", d) == ":directory" + d && Inner("", "", d) == d + ":file";
    assert Second("", "", d) == ":directory" + d + ":directory" + d;
    assert d[|d| - 1] in d && (":directory" + d)[|":directory" + d| - 1] == d[|d| - 1];
  }

  lemma ShortestContent(d: string, e: string)
    ensures ":directory" + d + "/" + (d + ":file") + ":" + ("file" + e) == ":directory" + d + "/" + d + ":file:file" + e
  {
  }

  lemma RootIsStaged(name: string)
    requires IsName(name) && name[0] == ':'
    ensures Child("", name) == name && !ShouldSkip(Child("", name))
  {
    hide IsSkippedEntry;
    RareIsStaged(name);
    SkipIsRootOnly("", name);
  }

  /** No skipped name starts with a colon or with an a. */
  lemma RareIsStaged(name: string)
    requires name != [] && (name[0] == ':' || name[0] == 'a')
    ensures !IsSkippedEntry(name)
  {
    hide IsLockName;
    NoPayload(name);
    NoGenerated(name);
    NoLock(name);
  }

  lemma NoPayload(name: string)
    requires name != [] && (name[0] == ':' || name[0] == 'a')
    ensures name !in CEF_PAYLOAD
  {
    forall other | other in CEF_PAYLOAD ensures other != [] && other[0] != ':' && other[0] != 'a' {}
  }

  lemma NoGenerated(name: string)
    requires name != [] && (name[0] == ':' || name[0] == 'a')
    ensures name !in GENERATED
  {
    forall other | other in GENERATED ensures other != [] && other[0] != ':' && other[0] != 'a' {}
  }

  lemma NoLock(name: string)
    requires name != [] && (name[0] == ':' || name[0] == 'a')
    ensures !IsLockName(name)
  {
    assert LOCK_PREFIX[0] == '.';
  }
}
