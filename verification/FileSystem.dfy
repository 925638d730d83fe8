/**
 The disk that builder/src/common.c works on, as a map from paths to contents, and its file
 operations.  Every operation may fail, and the process may stop after any of them: a disk
 remembers each state it passed through, and what must survive a stop is stated of all of
 them.
 */
module FileSystem {

  type Path = seq<string>

  /** The regular files below the runtime directory; directories are the prefixes of their paths. */
  type Files = map<Path, string>

  /** Both disks have the same file at the path, or none. */
  predicate SameAt(a: Files, b: Files, p: Path) {
    (p in a <==> p in b) && (p in a ==> a[p] == b[p])
  }

  // ------------------------------------------------------------------ subtrees

  predicate Apart(a: Path, b: Path) { !(a <= b) && !(b <= a) }

  /** The files below a directory, by their path within it. */
  function Below(files: Files, root: Path): Files {
    var names := set p | p in files && root <= p :: p[|root|..];
    map q | q in names && root + q in files :: files[root + q]
  }

  function Without(files: Files, root: Path): Files {
    map p | p in files && !(root <= p) :: files[p]
  }

  /** The disk after a directory is renamed. */
  function Moved(files: Files, source: Path, target: Path): Files {
    var arrived := set q | q in Below(files, source) :: target + q;
    map p | p in Without(files, source).Keys + arrived ::
      if target <= p && p[|target|..] in Below(files, source) then Below(files, source)[p[|target|..]] else files[p]
  }

  lemma BelowHas(files: Files, root: Path, q: Path)
    ensures q in Below(files, root) <==> root + q in files
    ensures q in Below(files, root) ==> Below(files, root)[q] == files[root + q]
  {
    if root + q in files {
      assert (root + q)[|root|..] == q;
    }
  }

  /** Two disks have the same files below a directory when they agree on every path there. */
  lemma SameBelow(a: Files, b: Files, root: Path)
    requires forall p | root <= p :: SameAt(a, b, p)
    ensures Below(a, root) == Below(b, root)
  {
    forall q ensures (q in Below(a, root) <==> q in Below(b, root)) && (q in Below(a, root) ==> Below(a, root)[q] == Below(b, root)[q]) {
      BelowHas(a, root, q);
      BelowHas(b, root, q);
      assert root <= root + q && SameAt(a, b, root + q);
    }
  }

  lemma NothingBelow(files: Files, root: Path)
    ensures Below(files, root) == map[] <==> forall p | p in files :: !(root <= p)
  {
    forall p | p in files && root <= p ensures Below(files, root) != map[] {
      assert root + p[|root|..] == p;
      BelowHas(files, root, p[|root|..]);
      assert p[|root|..] in Below(files, root);
    }
    if Below(files, root) != map[] {
      var q :| q in Below(files, root);
      BelowHas(files, root, q);
      assert root <= root + q;
    }
  }

  lemma MovedHas(files: Files, source: Path, target: Path, p: Path)
    requires Apart(source, target) && Below(files, target) == map[]
    ensures source <= p ==> p !in Moved(files, source, target)
    ensures target <= p ==>
      && (p in Moved(files, source, target) <==> source + p[|target|..] in files)
      && (p in Moved(files, source, target) ==> Moved(files, source, target)[p] == files[source + p[|target|..]])
    ensures !(source <= p) && !(target <= p) ==>
      && (p in Moved(files, source, target) <==> p in files)
      && (p in files ==> Moved(files, source, target)[p] == files[p])
  {
    NothingBelow(files, target);
    var arrived := set q | q in Below(files, source) :: target + q;
    assert p in Moved(files, source, target) <==> p in Without(files, source) || p in arrived;
    if target <= p {
      var q := p[|target|..];
      assert target + q == p;
      BelowHas(files, source, q);
      Unrelated(source, target, p);
      assert p in arrived <==> q in Below(files, source) by {
        forall r | r in Below(files, source) && target + r == p ensures r == q {
          assert (target + r)[|target|..] == r;
        }
      }
    } else {
      assert p !in arrived;
    }
  }

  lemma Unrelated(a: Path, b: Path, p: Path)
    requires Apart(a, b) && b <= p
    ensures !(a <= p)
  {
    if |a| <= |b| {
      assert b[..|a|] == p[..|a|];
    } else if |a| <= |p| {
      assert p[..|a|][..|b|] == p[..|b|];
    }
  }

  lemma MovedArrives(files: Files, source: Path, target: Path)
    requires Apart(source, target) && Below(files, target) == map[]
    ensures Below(Moved(files, source, target), target) == Below(files, source)
    ensures Below(Moved(files, source, target), source) == map[]
  {
    hide Moved, Below;
    var after := Moved(files, source, target);
    forall q ensures (q in Below(after, target) <==> q in Below(files, source))
                  && (q in Below(after, target) ==> Below(after, target)[q] == Below(files, source)[q]) {
      BelowHas(after, target, q);
      BelowHas(files, source, q);
      MovedHas(files, source, target, target + q);
      assert (target + q)[|target|..] == q;
    }
    forall p | p in after ensures !(source <= p) { MovedHas(files, source, target, p); }
    NothingBelow(after, source);
  }

  lemma MovedElsewhere(files: Files, source: Path, target: Path, root: Path)
    requires Apart(source, target) && Below(files, target) == map[] && Apart(root, source) && Apart(root, target)
    ensures Below(Moved(files, source, target), root) == Below(files, root)
  {
    hide Moved, Below;
    forall p | root <= p
      ensures var after := Moved(files, source, target); SameAt(after, files, p) {
      MovedHas(files, source, target, p);
      Unrelated(source, root, p);
      Unrelated(target, root, p);
    }
    SameBelow(Moved(files, source, target), files, root);
  }

  lemma SameEverywhere(a: Files, b: Files)
    requires forall p :: SameAt(a, b, p)
    ensures a == b
  {
    assert forall p :: p in a <==> p in b by {
      forall p ensures p in a <==> p in b { assert SameAt(a, b, p); }
    }
    assert forall p | p in a :: a[p] == b[p] by {
      forall p | p in a ensures a[p] == b[p] { assert SameAt(a, b, p); }
    }
  }

  // ------------------------------------------------------------- what may differ

  /** No file outside the directory differs. */
  ghost predicate SameOutside(a: Files, b: Files, root: Path) {
    forall p | !(root <= p) :: SameAt(a, b, p)
  }

  /** Removing changes no file and adds none. */
  predicate Part(a: Files, b: Files) {
    forall p | p in a :: p in b && a[p] == b[p]
  }

  /** While a file is written, it is untouched or holds a beginning of its new content. */
  predicate Writing(before: Files, now: Files, path: Path, content: string) {
    now == before || (path in now && now[path] <= content && now == before[path := now[path]])
  }

  /** While a tree is copied, each of its files is untouched or a beginning of the source's. */
  ghost predicate Copying(before: Files, now: Files, tree: Files) {
    forall p :: SameAt(before, now, p) || (p in tree && p in now && now[p] <= tree[p])
  }

  /** The disk with the entries written below a directory, later ones over earlier ones. */
  function Overlay(files: Files, root: Path, entries: seq<(Path, string)>): Files {
    if entries == [] then files
    else
      var last := entries[|entries| - 1];
      Overlay(files, root, entries[..|entries| - 1])[root + last.0 := last.1]
  }

  /** The files an archive unpacks to. */
  function Tree(entries: seq<(Path, string)>): Files { Overlay(map[], [], entries) }

  lemma OverlayNone(files: Files, root: Path)
    ensures forall entries: seq<(Path, string)> :: Overlay(files, root, entries[..0]) == files
  {
  }

  lemma OverlayOne(files: Files, root: Path, entries: seq<(Path, string)>, n: nat)
    requires n < |entries|
    ensures Overlay(files, root, entries[..n + 1]) == Overlay(files, root, entries[..n])[root + entries[n].0 := entries[n].1]
  {
    assert entries[..n + 1][..n] == entries[..n];
  }

  /** Unpacking below an empty directory puts the archive's tree there. */
  lemma {:induction false} OverlayBelow(files: Files, root: Path, entries: seq<(Path, string)>)
    requires Below(files, root) == map[]
    ensures Below(Overlay(files, root, entries), root) == Tree(entries)
  {
    if entries != [] {
      var rest, last := entries[..|entries| - 1], entries[|entries| - 1];
      OverlayBelow(files, root, rest);
      UpdateBelow(Overlay(files, root, rest), root, last.0, last.1);
      assert [] + last.0 == last.0;
    }
  }

  lemma UpdateBelow(files: Files, root: Path, q: Path, content: string)
    ensures Below(files[root + q := content], root) == Below(files, root)[q := content]
  {
    hide Below;
    var after := files[root + q := content];
    forall r ensures (r in Below(after, root) <==> r in Below(files, root)[q := content])
                  && (r in Below(after, root) ==> Below(after, root)[r] == Below(files, root)[q := content][r]) {
      BelowHas(after, root, r);
      BelowHas(files, root, r);
      assert (root + r)[|root|..] == r && (root + q)[|root|..] == q;
    }
  }

  lemma RemovalElsewhere(before: Files, after: Files, removed: Path, root: Path)
    requires Apart(removed, root) && SameOutside(before, after, removed)
    ensures Below(after, root) == Below(before, root)
  {
    forall p | root <= p ensures SameAt(after, before, p) {
      Unrelated(removed, root, p);
      assert SameAt(before, after, p);
    }
    SameBelow(after, before, root);
  }

  lemma OutsideChain(before: Files, middle: Files, after: Files, root: Path)
    requires SameOutside(before, middle, root) && SameOutside(middle, after, root)
    ensures SameOutside(before, after, root)
  {
    forall p | !(root <= p) ensures SameAt(before, after, p) { assert SameAt(before, middle, p) && SameAt(middle, after, p); }
  }

  lemma WritingOutside(before: Files, middle: Files, path: Path, content: string, root: Path)
    requires SameOutside(before, middle, root) && root <= path
    ensures forall now :: Writing(middle, now, path, content) ==> SameOutside(before, now, root)
  {
    forall now | Writing(middle, now, path, content) ensures SameOutside(before, now, root) {
      OutsideChain(before, middle, now, root);
    }
  }

  /** Writing one more file of a tree is part of copying it. */
  lemma WritingCopies(before: Files, middle: Files, p: Path, tree: Files)
    requires p in tree && Copying(before, middle, tree)
    ensures forall now :: Writing(middle, now, p, tree[p]) ==> Copying(before, now, tree)
  {
    forall now | Writing(middle, now, p, tree[p]) ensures Copying(before, now, tree) {
      forall r ensures SameAt(before, now, r) || (r in tree && r in now && now[r] <= tree[r]) {
        assert SameAt(before, middle, r) || (r in tree && r in middle && middle[r] <= tree[r]);
      }
    }
  }

  // ------------------------------------------------------------------- the disk

  class Disk {
    var files: Files
    /** Every state of the disk, oldest first. */
    var passed: seq<Files>

    ghost predicate Recorded()
      reads this
    {
      passed != [] && passed[|passed| - 1] == files
    }

    constructor (files: Files)
      ensures this.files == files && passed == [files] && Recorded()
    {
      this.files := files;
      passed := [files];
    }

    method Become(next: Files)
      requires Recorded()
      modifies this
      ensures Recorded() && files == next && passed == old(passed) + [next]
    {
      files := next;
      passed := passed + [next];
    }

    /** Truncates or creates the file and writes it a character at a time. */
    method WriteTextFile(path: Path, content: string) returns (ok: bool)
      requires Recorded()
      modifies this
      ensures Recorded() && old(passed) <= passed
      ensures forall i | |old(passed)| <= i < |passed| :: Writing(old(files), passed[i], path, content)
      ensures Writing(old(files), files, path, content)
      ensures ok ==> files == old(files)[path := content]
    {
      if * {
        return false;
      }
      Become(files[path := ""]);
      for n := 0 to |content|
        invariant Recorded() && old(passed) <= passed
        invariant files == old(files)[path := content[..n]]
        invariant forall i | |old(passed)| <= i < |passed| :: Writing(old(files), passed[i], path, content)
      {
        if * {
          return false;
        }
        Become(files[path := content[..n + 1]]);
      }
      assert content[..|content|] == content;
      return true;
    }

    method RemoveRecursive(root: Path) returns (ok: bool)
      requires Recorded()
      modifies this
      ensures Recorded() && old(passed) <= passed
      ensures forall i | |old(passed)| <= i < |passed| :: SameOutside(old(files), passed[i], root) && Part(passed[i], old(files))
      ensures SameOutside(old(files), files, root) && Part(files, old(files))
      ensures ok ==> Below(files, root) == map[]
    {
      var remaining := set p | p in files && root <= p;
      while remaining != {}
        invariant Recorded() && old(passed) <= passed
        invariant remaining == set p | p in files && root <= p
        invariant forall i | |old(passed)| <= i < |passed| :: SameOutside(old(files), passed[i], root) && Part(passed[i], old(files))
        invariant SameOutside(old(files), files, root) && Part(files, old(files))
        decreases |remaining|
      {
        if * {
          return false;
        }
        var p :| p in remaining;
        OutsideChain(old(files), files, files - {p}, root);
        Become(files - {p});
        remaining := remaining - {p};
      }
      forall p | p in files ensures !(root <= p) { assert p !in remaining; }
      NothingBelow(files, root);
      return true;
    }

    /** Renames a directory; a missing source or a target that holds files fails. */
    method RenameDirectory(source: Path, target: Path) returns (ok: bool)
      requires Recorded() && Apart(source, target)
      modifies this
      ensures Recorded()
      ensures ok ==> Below(old(files), source) != map[] && Below(old(files), target) == map[]
      ensures ok ==> files == Moved(old(files), source, target) && passed == old(passed) + [files]
      ensures !ok ==> files == old(files) && passed == old(passed)
    {
      if Below(files, source) == map[] || Below(files, target) != map[] {
        return false;
      }
      if * {
        return false;
      }
      Become(Moved(files, source, target));
      return true;
    }

    /** Renames a file over another. */
    method ReplaceFile(source: Path, target: Path) returns (ok: bool)
      requires Recorded() && source in files && source != target
      modifies this
      ensures Recorded()
      ensures ok ==> files == (old(files) - {source})[target := old(files)[source]] && passed == old(passed) + [files]
      ensures !ok ==> files == old(files) && passed == old(passed)
    {
      if * {
        return false;
      }
      Become((files - {source})[target := files[source]]);
      return true;
    }

    /** Unpacks entries below a directory; each may fail once written. */
    method WriteAll(root: Path, entries: seq<(Path, string)>) returns (ok: bool)
      requires Recorded()
      modifies this
      ensures Recorded() && old(passed) <= passed
      ensures forall i | |old(passed)| <= i < |passed| :: SameOutside(old(files), passed[i], root)
      ensures SameOutside(old(files), files, root)
      ensures ok ==> files == Overlay(old(files), root, entries)
    {
      hide Overlay;
      OverlayNone(files, root);
      for n := 0 to |entries|
        invariant Recorded() && old(passed) <= passed
        invariant forall i | |old(passed)| <= i < |passed| :: SameOutside(old(files), passed[i], root)
        invariant SameOutside(old(files), files, root)
        invariant files == Overlay(old(files), root, entries[..n])
      {
        var path := root + entries[n].0;
        assert root <= path;
        WritingOutside(old(files), files, path, entries[n].1, root);
        ok := WriteTextFile(path, entries[n].1);
        if !ok {
          return;
        }
        if * {
          return false;
        }
        OverlayOne(old(files), root, entries, n);
      }
      assert entries[..|entries|] == entries;
      return true;
    }

    /** Copies the files of a directory over the disk, in whatever order they are listed. */
    method CopyTree(tree: Files) returns (ok: bool)
      requires Recorded()
      modifies this
      ensures Recorded() && old(passed) <= passed
      ensures forall i | |old(passed)| <= i < |passed| :: Copying(old(files), passed[i], tree)
      ensures Copying(old(files), files, tree)
      ensures ok ==> files == old(files) + tree
    {
      hide Copying;
      ghost var before := files;
      NothingCopied(before, tree);
      ok := [] !in tree;
      if !ok {
        return;
      }
      var remaining := tree.Keys;
      while remaining != {}
        invariant Recorded() && old(passed) <= passed
        invariant forall i | |old(passed)| <= i < |passed| :: Copying(before, passed[i], tree)
        invariant Copying(before, files, tree)
        invariant remaining <= tree.Keys
        invariant forall p | p !in tree :: SameAt(before, files, p)
        invariant forall p | p in tree && p !in remaining :: p in files && files[p] == tree[p]
        decreases |remaining|
      {
        var p :| p in remaining;
        WritingCopies(before, files, p, tree);
        ok := WriteTextFile(p, tree[p]);
        if !ok {
          return;
        }
        if * {
          return false;
        }
        remaining := remaining - {p};
      }
      CopiedAll(before, files, tree);
      return true;
    }
  }

  lemma NothingCopied(files: Files, tree: Files)
    ensures Copying(files, files, tree)
  {
  }

  lemma CopiedAll(before: Files, after: Files, tree: Files)
    requires forall p | p !in tree :: SameAt(before, after, p)
    requires forall p | p in tree :: p in after && after[p] == tree[p]
    ensures after == before + tree
  {
    forall p ensures SameAt(after, before + tree, p) {
      if p !in tree { assert SameAt(before, after, p); }
    }
    SameEverywhere(after, before + tree);
  }
}
