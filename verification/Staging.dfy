/**
 Staging of the muon files in builder/src/prepare.c: the skip rule, the fingerprint of a
 source tree and the copy of it, over trees as stat sees them.  The hash is a parameter
 that gives the hexadecimal digest; byte streams are strings.
 */
module Staging {
  import opened Common
  import opened SortedNames
  import opened RelativePath

  /** What stat tells: a file's content, a directory's entries, or something else. */
  datatype Tree =
    | File(content: string)
    | Directory(entries: map<string, Tree>)
    | Other

  // --------------------------------------------------------------- the skip rule

  const CEF_PAYLOAD := {
    "chrome-sandbox", "chrome_100_percent.pak", "chrome_200_percent.pak", "chrome_elf.dll", "d3dcompiler_47.dll",
    "dxcompiler.dll", "dxil.dll", "icudtl.dat", "libEGL.dll", "libEGL.so", "libGLESv2.dll", "libGLESv2.so",
    "libcef.dll", "libcef.so", "libvk_swiftshader.so", "libvulkan.so.1", "locales", "resources.pak",
    "snapshot_blob.bin", "swiftshader", "v8_context_snapshot.bin", "vk_swiftshader.dll", "vk_swiftshader_icd.json",
    "vulkan-1.dll"
  }

  const GENERATED := {
    ".muon-ready.json", ".muon-runtime-ready.json", ".muon-cef-ready.json", ".muon-test-config", "muon-launcher.ini",
    "muon-cef.log", "muon-close-debug.log", "muon-runtime-helper", "runtimes"
  }

  const LOCK_PREFIX := ".muon-runtime-"
  const LOCK_SUFFIX := ".lock"

  predicate IsLockName(name: string) {
    |name| >= |LOCK_PREFIX| + |LOCK_SUFFIX| && LOCK_PREFIX <= name && name[|name| - |LOCK_SUFFIX|..] == LOCK_SUFFIX
  }

  /** A root entry that is not staged: the CEF payload and what the runtime generates. */
  predicate IsSkippedEntry(name: string) {
    name in CEF_PAYLOAD || IsLockName(name) || name in GENERATED
  }

  /** A lock name is anything between its two ends; the ends may not overlap. */
  lemma LockNamesAre(name: string)
    ensures IsLockName(name) <==> exists middle :: name == LOCK_PREFIX + middle + LOCK_SUFFIX
  {
    if IsLockName(name) {
      var middle := name[|LOCK_PREFIX|..|name| - |LOCK_SUFFIX|];
      assert name == LOCK_PREFIX + middle + LOCK_SUFFIX;
    }
    if middle :| name == LOCK_PREFIX + middle + LOCK_SUFFIX {
      assert name[|name| - |LOCK_SUFFIX|..] == LOCK_SUFFIX;
    }
  }

  /** A root entry is skipped by its name in one of the lists, or as a lock name. */
  lemma SkippedAre(name: string)
    ensures IsSkippedEntry(name)
       <==> name in CEF_PAYLOAD || name in GENERATED || exists middle :: name == ".muon-runtime-" + middle + ".lock"
  {
    hide IsLockName;
    LockNamesAre(name);
  }

  /** The text before the first separator. */
  function RootOf(relative: string): (root: string)
    ensures |root| <= |relative|
  {
    if relative == [] || relative[0] == '/' then [] else [relative[0]] + RootOf(relative[1..])
  }

  predicate ShouldSkip(relative: string) { IsSkippedEntry(RootOf(relative)) }

  predicate IsName(name: string) { name != [] && '/' !in name }

  /** Directory names as file systems have them. */
  predicate ProperNames(t: Tree)
    decreases t
  {
    t.Directory? ==> forall name | name in t.entries :: IsName(name) && ProperNames(t.entries[name])
  }

  // -------------------------------------------------------- fingerprint and copy

  type Hash = string -> string

  ghost predicate IsHash(h: Hash) {
    forall s {:trigger h(s)} :: |h(s)| == 64
  }

  ghost function Stream(h: Hash, t: Tree, relative: string): string
    decreases t
  {
    relative + ":" +
      match t
      case File(content) => "file" + h(content)
      case Other => "other"
      case Directory(entries) => "directory" + Children(h, t, Ordered(entries.Keys), relative)
  }

  ghost function Children(h: Hash, t: Tree, names: seq<string>, relative: string): string
    requires t.Directory? && forall name | name in names :: name in t.entries
    decreases t, |names|
  {
    if names == [] then []
    else
      var child := Child(relative, names[0]);
      (if ShouldSkip(child) then [] else names[0] + h(Stream(h, t.entries[names[0]], child)))
      + Children(h, t, names[1..], relative)
  }

  ghost function FingerprintOf(h: Hash, t: Tree, relative: string): string { h(Stream(h, t, relative)) }

  /** Whether the copy makes anything for a child. */
  predicate IsCopied(t: Tree, name: string, relative: string)
    requires t.Directory? && name in t.entries
  {
    !ShouldSkip(Child(relative, name)) && !t.entries[name].Other?
  }

  /** What copying into an empty place makes; other kinds of nodes make nothing. */
  function Copied(t: Tree, relative: string): Tree
    decreases t
  {
    match t
    case Directory(entries) =>
      Directory(map name | name in entries && IsCopied(t, name, relative) :: Copied(entries[name], Child(relative, name)))
    case _ => t
  }

  /** Everything that is not skipped is a file or a directory. */
  predicate Copyable(t: Tree, relative: string)
    decreases t
  {
    !t.Other?
    && (t.Directory? ==> forall name | name in t.entries && !ShouldSkip(Child(relative, name)) ::
          Copyable(t.entries[name], Child(relative, name)))
  }

  // ---------------------------------------------------- copying keeps the fingerprint

  function Unskipped(names: seq<string>, relative: string): (r: seq<string>)
    ensures forall name :: name in r <==> name in names && !ShouldSkip(Child(relative, name))
  {
    if names == [] then []
    else (if ShouldSkip(Child(relative, names[0])) then [] else [names[0]]) + Unskipped(names[1..], relative)
  }

  lemma {:induction false} UnskippedIncreases(names: seq<string>, relative: string)
    requires Increasing(names) && Distinct(names)
    ensures Increasing(Unskipped(names, relative)) && Distinct(Unskipped(names, relative))
  {
    hide Below, ShouldSkip, Child;
    if names != [] {
      UnskippedIncreases(names[1..], relative);
      var rest := Unskipped(names[1..], relative);
      forall j | 0 <= j < |rest| ensures Below(names[0], rest[j]) && names[0] != rest[j] {
        assert rest[j] in rest;
        var k :| 0 <= k < |names[1..]| && names[1..][k] == rest[j];
        assert names[k + 1] == rest[j];
      }
    }
  }

  /** Skipped names add nothing. */
  lemma {:induction false} ChildrenUnskipped(h: Hash, t: Tree, names: seq<string>, relative: string)
    requires t.Directory? && forall name | name in names :: name in t.entries
    ensures Children(h, t, names, relative) == Children(h, t, Unskipped(names, relative), relative)
  {
    hide ShouldSkip, Child, Stream;
    if names != [] {
      ChildrenUnskipped(h, t, names[1..], relative);
      var rest := Unskipped(names[1..], relative);
      if ShouldSkip(Child(relative, names[0])) {
        assert [] + rest == rest;
        assert [] + Children(h, t, names[1..], relative) == Children(h, t, names[1..], relative);
      } else {
        assert ([names[0]] + rest)[0] == names[0] && ([names[0]] + rest)[1..] == rest;
      }
    }
  }

  /** Staging into an empty directory keeps the byte stream of the staging fingerprint. */
  lemma {:induction false} CopyKeepsStream(h: Hash, t: Tree, relative: string)
    requires Copyable(t, relative)
    ensures Stream(h, Copied(t, relative), relative) == Stream(h, t, relative)
    decreases t
  {
    if t.Directory? {
      var c := Copied(t, relative);
      var all, kept := Ordered(t.entries.Keys), Ordered(c.entries.Keys);
      KeptNames(t, relative);
      ChildrenUnskipped(h, t, all, relative);
      CopyKeepsChildren(h, t, kept, relative);
    }
  }

  /** The names of the copy, in order, are the unskipped names of the source, in order. */
  lemma KeptNames(t: Tree, relative: string)
    requires Copyable(t, relative) && t.Directory?
    ensures Ordered(Copied(t, relative).entries.Keys) == Unskipped(Ordered(t.entries.Keys), relative)
  {
    hide ShouldSkip, Child, Increasing, Distinct;
    var all := Ordered(t.entries.Keys);
    OrderedIncreases(t.entries.Keys);
    UnskippedIncreases(all, relative);
    forall name ensures name in Unskipped(all, relative) <==> name in Copied(t, relative).entries.Keys {
      assert name in all <==> name in t.entries.Keys;
    }
    IncreasingIsOrdered(Unskipped(all, relative), Copied(t, relative).entries.Keys);
  }

  lemma {:induction false} CopyKeepsChildren(h: Hash, t: Tree, names: seq<string>, relative: string)
    requires t.Directory? && Copyable(t, relative)
    requires forall name | name in names :: name in t.entries && !ShouldSkip(Child(relative, name))
    ensures forall name | name in names :: name in Copied(t, relative).entries
    ensures Children(h, Copied(t, relative), names, relative) == Children(h, t, names, relative)
    decreases t, |names|
  {
    hide ShouldSkip, Child, Stream;
    forall name | name in names ensures name in Copied(t, relative).entries {
      assert Copyable(t.entries[name], Child(relative, name));
    }
    if names != [] {
      var child := t.entries[names[0]];
      CopyKeepsStream(h, child, Child(relative, names[0]));
      assert Copied(t, relative).entries[names[0]] == Copied(child, Child(relative, names[0]));
      CopyKeepsChildren(h, t, names[1..], relative);
    }
  }

  /** Staging into an empty directory keeps the staging fingerprint. */
  lemma CopyKeepsFingerprint(h: Hash, t: Tree)
    requires Copyable(t, "")
    ensures FingerprintOf(h, Copied(t, ""), "") == FingerprintOf(h, t, "")
  {
    CopyKeepsStream(h, t, "");
  }

  // ------------------------------------------------------- and only such trees do

  /** Somewhere below, a node and its copy have different streams with the same digest. */
  ghost predicate CopyCollides(h: Hash, t: Tree, relative: string)
    decreases t
  {
    t.Directory? && exists name | name in t.entries && IsCopied(t, name, relative) ::
      var (child, path) := (t.entries[name], Child(relative, name));
      (Stream(h, Copied(child, path), path) != Stream(h, child, path)
       && h(Stream(h, Copied(child, path), path)) == h(Stream(h, child, path)))
      || CopyCollides(h, child, path)
  }

  function Kept(t: Tree, names: seq<string>, relative: string): (r: seq<string>)
    requires t.Directory? && forall name | name in names :: name in t.entries
    ensures forall name :: name in r <==> name in names && IsCopied(t, name, relative)
  {
    if names == [] then []
    else (if IsCopied(t, names[0], relative) then [names[0]] else []) + Kept(t, names[1..], relative)
  }

  lemma {:induction false} KeptIncreases(t: Tree, names: seq<string>, relative: string)
    requires t.Directory? && forall name | name in names :: name in t.entries
    requires Increasing(names) && Distinct(names)
    ensures Increasing(Kept(t, names, relative)) && Distinct(Kept(t, names, relative))
  {
    hide Below, ShouldSkip, Child;
    if names != [] {
      KeptIncreases(t, names[1..], relative);
      var rest := Kept(t, names[1..], relative);
      forall j | 0 <= j < |rest| ensures Below(names[0], rest[j]) && names[0] != rest[j] {
        assert rest[j] in rest;
        var k :| 0 <= k < |names[1..]| && names[1..][k] == rest[j];
        assert names[k + 1] == rest[j];
      }
    }
  }

  lemma CopiedNames(t: Tree, relative: string)
    requires t.Directory?
    ensures Ordered(Copied(t, relative).entries.Keys) == Kept(t, Ordered(t.entries.Keys), relative)
  {
    hide ShouldSkip, Child, Increasing, Distinct;
    var all := Ordered(t.entries.Keys);
    OrderedIncreases(t.entries.Keys);
    KeptIncreases(t, all, relative);
    forall name ensures name in Kept(t, all, relative) <==> name in Copied(t, relative).entries.Keys {
      assert name in all <==> name in t.entries.Keys;
    }
    IncreasingIsOrdered(Kept(t, all, relative), Copied(t, relative).entries.Keys);
  }

  /** The copy's children spell no more bytes than the source's, and as many only when nothing is dropped. */
  lemma {:induction false} CopyIsShorter(h: Hash, t: Tree, names: seq<string>, relative: string)
    requires IsHash(h) && t.Directory? && forall name | name in names :: name in t.entries
    ensures forall name | name in Kept(t, names, relative) :: name in Copied(t, relative).entries
    ensures |Children(h, Copied(t, relative), Kept(t, names, relative), relative)| <= |Children(h, t, names, relative)|
    ensures |Children(h, Copied(t, relative), Kept(t, names, relative), relative)| == |Children(h, t, names, relative)|
         ==> forall name | name in names && !ShouldSkip(Child(relative, name)) :: !t.entries[name].Other?
  {
    hide ShouldSkip, Child, Stream;
    if names != [] {
      CopyIsShorter(h, t, names[1..], relative);
      ChildrenCons(h, Copied(t, relative), names[0], Kept(t, names[1..], relative), relative);
    }
  }

  lemma ChildrenCons(h: Hash, t: Tree, name: string, rest: seq<string>, relative: string)
    requires t.Directory? && forall n | n in rest :: n in t.entries
    ensures name in t.entries ==>
      var own := if ShouldSkip(Child(relative, name)) then [] else name + h(Stream(h, t.entries[name], Child(relative, name)));
      Children(h, t, [name] + rest, relative) == own + Children(h, t, rest, relative)
    ensures [] + rest == rest
  {
  }

  /** Equal children spell equal digests, name by name. */
  lemma {:induction false} DigestsAgree(h: Hash, c: Tree, t: Tree, names: seq<string>, relative: string)
    requires IsHash(h) && c.Directory? && t.Directory?
    requires forall name | name in names :: name in t.entries && name in c.entries && !ShouldSkip(Child(relative, name))
    requires Children(h, c, names, relative) == Children(h, t, names, relative)
    ensures forall name | name in names ::
      h(Stream(h, c.entries[name], Child(relative, name))) == h(Stream(h, t.entries[name], Child(relative, name)))
  {
    hide ShouldSkip, Child, Stream;
    if names != [] {
      var path := Child(relative, names[0]);
      var (x, y) := (h(Stream(h, c.entries[names[0]], path)), h(Stream(h, t.entries[names[0]], path)));
      Parts(names[0], x, Children(h, c, names[1..], relative), y, Children(h, t, names[1..], relative));
      DigestsAgree(h, c, t, names[1..], relative);
    }
  }

  lemma Parts(name: string, x: string, u: string, y: string, v: string)
    requires |x| == |y| && name + x + u == name + y + v
    ensures x == y && u == v
  {
    assert (name + x + u)[|name|..|name| + |x|] == x && (name + y + v)[|name|..|name| + |y|] == y;
    assert (name + x + u)[|name| + |x|..] == u && (name + y + v)[|name| + |y|..] == v;
  }

  /** A tree whose copy has the same stream holds only files and directories, unless digests collide. */
  lemma {:induction false} OnlyCopyableKeepsStream(h: Hash, t: Tree, relative: string)
    requires IsHash(h) && !t.Other? && Stream(h, Copied(t, relative), relative) == Stream(h, t, relative)
    ensures Copyable(t, relative) || CopyCollides(h, t, relative)
    decreases t
  {
    hide ShouldSkip, Child;
    if t.Directory? {
      var c := Copied(t, relative);
      var all := Ordered(t.entries.Keys);
      CopiedNames(t, relative);
      CopyIsShorter(h, t, all, relative);
      var kept := Kept(t, all, relative);
      DetailsAgree(relative + ":", Children(h, c, kept, relative), Children(h, t, all, relative));
      NothingDropped(t, all, relative);
      ChildrenUnskipped(h, t, all, relative);
      DigestsAgree(h, c, t, kept, relative);
      forall name | name in t.entries && !ShouldSkip(Child(relative, name))
        ensures Copyable(t.entries[name], Child(relative, name)) || CopyCollides(h, t, relative) {
        assert name in all && name in kept;
        assert c.entries[name] == Copied(t.entries[name], Child(relative, name));
        if Stream(h, c.entries[name], Child(relative, name)) == Stream(h, t.entries[name], Child(relative, name)) {
          OnlyCopyableKeepsStream(h, t.entries[name], Child(relative, name));
        }
      }
    }
  }

  lemma DetailsAgree(head: string, x: string, y: string)
    requires head + ("directory" + x) == head + ("directory" + y)
    ensures x == y
  {
    assert (head + ("directory" + x))[|head|..] == "directory" + x && (head + ("directory" + y))[|head|..] == "directory" + y;
    assert ("directory" + x)[9..] == x && ("directory" + y)[9..] == y;
  }

  lemma {:induction false} NothingDropped(t: Tree, names: seq<string>, relative: string)
    requires t.Directory? && forall name | name in names :: name in t.entries
    requires forall name | name in names && !ShouldSkip(Child(relative, name)) :: !t.entries[name].Other?
    ensures Kept(t, names, relative) == Unskipped(names, relative)
  {
    hide ShouldSkip, Child;
    if names != [] {
      NothingDropped(t, names[1..], relative);
    }
  }

  // ------------------------------------------ the rule at every level, or at the root

  lemma {:induction false} RootOfChild(relative: string, name: string)
    requires '/' !in name
    ensures relative != [] && relative[|relative| - 1] != '/' ==> RootOf(relative + "/" + name) == RootOf(relative)
    ensures RootOf(name) == name
  {
    if relative != [] {
      var t := relative + "/" + name;
      if relative[0] != '/' {
        assert t[1..] == relative[1..] + "/" + name;
        if relative[1..] != [] {
          RootOfChild(relative[1..], name);
        } else {
          assert (("/" + name)[0]) == '/';
          assert t[1..] == "/" + name;
          PlainRoot(name);
        }
      } else {
        PlainRoot(name);
      }
    } else {
      PlainRoot(name);
    }
  }

  lemma {:induction false} PlainRoot(name: string)
    requires '/' !in name
    ensures RootOf(name) == name
  {
    if name != [] {
      assert name[0] in name;
      PlainRoot(name[1..]);
      HeadTail(name);
    }
  }

  /** The skip rule, tested on a path, sees only the path's root entry. */
  lemma SkipIsRootOnly(relative: string, name: string)
    requires IsName(name) && (relative != [] ==> relative[|relative| - 1] != '/')
    ensures ShouldSkip(Child(relative, name)) == if relative == [] then IsSkippedEntry(name) else ShouldSkip(relative)
    ensures Child(relative, name) != [] && Child(relative, name)[|Child(relative, name)| - 1] != '/'
  {
    hide IsSkippedEntry;
    RootOfChild(relative, name);
    assert name[|name| - 1] in name;
  }

  /** The tree without its skipped root entries. */
  function Filtered(t: Tree): Tree {
    match t
    case Directory(entries) => Directory(map name | name in entries && !IsSkippedEntry(name) :: entries[name])
    case _ => t
  }

  /** The copy that tests nothing. */
  function PlainCopy(t: Tree): Tree
    decreases t
  {
    match t
    case Directory(entries) => Directory(map name | name in entries && !entries[name].Other? :: PlainCopy(entries[name]))
    case _ => t
  }

  /** The stream without the rule. */
  ghost function PlainStream(h: Hash, t: Tree, relative: string): string
    decreases t
  {
    relative + ":" +
      match t
      case File(content) => "file" + h(content)
      case Other => "other"
      case Directory(entries) => "directory" + PlainChildren(h, t, Ordered(entries.Keys), relative)
  }

  ghost function PlainChildren(h: Hash, t: Tree, names: seq<string>, relative: string): string
    requires t.Directory? && forall name | name in names :: name in t.entries
    decreases t, |names|
  {
    if names == [] then []
    else names[0] + h(PlainStream(h, t.entries[names[0]], Child(relative, names[0]))) + PlainChildren(h, t, names[1..], relative)
  }

  /** A path below an unskipped root entry. */
  predicate Inside(relative: string) {
    relative != [] && relative[|relative| - 1] != '/' && !ShouldSkip(relative)
  }

  /** Below the root the rule never applies: to the copy, */
  lemma {:induction false} CopyInside(t: Tree, relative: string)
    requires ProperNames(t) && Inside(relative)
    ensures Copied(t, relative) == PlainCopy(t)
    decreases t
  {
    hide ShouldSkip, Child;
    if t.Directory? {
      forall name | name in t.entries
        ensures Inside(Child(relative, name)) && Copied(t.entries[name], Child(relative, name)) == PlainCopy(t.entries[name]) {
        SkipIsRootOnly(relative, name);
        CopyInside(t.entries[name], Child(relative, name));
      }
      assert Copied(t, relative).entries == PlainCopy(t).entries;
    }
  }

  /** and to the stream. */
  lemma {:induction false} StreamInside(h: Hash, t: Tree, relative: string)
    requires ProperNames(t) && Inside(relative)
    ensures Stream(h, t, relative) == PlainStream(h, t, relative)
    decreases t
  {
    hide ShouldSkip, Child, Inside;
    if t.Directory? {
      ChildrenInside(h, t, Ordered(t.entries.Keys), relative);
    }
  }

  lemma {:induction false} ChildrenInside(h: Hash, t: Tree, names: seq<string>, relative: string)
    requires t.Directory? && ProperNames(t) && Inside(relative)
    requires forall name | name in names :: name in t.entries
    ensures Children(h, t, names, relative) == PlainChildren(h, t, names, relative)
    decreases t, |names|
  {
    hide ShouldSkip, Child, Stream, PlainStream;
    if names != [] {
      SkipIsRootOnly(relative, names[0]);
      StreamInside(h, t.entries[names[0]], Child(relative, names[0]));
      ChildrenInside(h, t, names[1..], relative);
    }
  }

  /** Testing the rule at every level copies what filtering the root entries first would. */
  lemma CopyFiltersRoot(t: Tree)
    requires ProperNames(t)
    ensures Copied(t, "") == PlainCopy(Filtered(t))
  {
    hide ShouldSkip, IsSkippedEntry;
    if t.Directory? {
      forall name | name in t.entries
        ensures ShouldSkip(Child("", name)) == IsSkippedEntry(name)
        ensures !IsSkippedEntry(name) ==> Copied(t.entries[name], Child("", name)) == PlainCopy(t.entries[name]) {
        SkipIsRootOnly("", name);
        if !IsSkippedEntry(name) {
          CopyInside(t.entries[name], Child("", name));
        }
      }
      assert Copied(t, "").entries == PlainCopy(Filtered(t)).entries;
    }
  }

  /** And hashes what filtering the root entries first would. */
  lemma StreamFiltersRoot(h: Hash, t: Tree)
    requires ProperNames(t)
    ensures Stream(h, t, "") == PlainStream(h, Filtered(t), "")
  {
    hide ShouldSkip, IsSkippedEntry;
    if t.Directory? {
      var all := Ordered(t.entries.Keys);
      RootNames(t);
      ChildrenUnskipped(h, t, all, "");
      RootChildren(h, t, Unskipped(all, ""));
    }
  }

  lemma RootNames(t: Tree)
    requires t.Directory? && ProperNames(t)
    ensures Ordered(Filtered(t).entries.Keys) == Unskipped(Ordered(t.entries.Keys), "")
  {
    hide ShouldSkip, IsSkippedEntry, Increasing, Distinct;
    var all := Ordered(t.entries.Keys);
    OrderedIncreases(t.entries.Keys);
    UnskippedIncreases(all, "");
    forall name ensures name in Unskipped(all, "") <==> name in Filtered(t).entries.Keys {
      if name in t.entries {
        SkipIsRootOnly("", name);
      }
    }
    IncreasingIsOrdered(Unskipped(all, ""), Filtered(t).entries.Keys);
  }

  lemma {:induction false} RootChildren(h: Hash, t: Tree, names: seq<string>)
    requires t.Directory? && ProperNames(t)
    requires forall name | name in names :: name in t.entries && !ShouldSkip(Child("", name))
    ensures forall name | name in names :: name in Filtered(t).entries
    ensures Children(h, t, names, "") == PlainChildren(h, Filtered(t), names, "")
    decreases |names|
  {
    hide ShouldSkip, IsSkippedEntry, Stream, PlainStream;
    forall name | name in names ensures name in Filtered(t).entries { SkipIsRootOnly("", name); }
    if names != [] {
      SkipIsRootOnly("", names[0]);
      StreamInside(h, t.entries[names[0]], Child("", names[0]));
      RootChildren(h, t, names[1..]);
    }
  }

  // ------------------------------------------------------------- the computations

  /** The order in which the file system lists a directory's names. */
  type Listing = map<string, Tree> -> seq<string>

  ghost predicate IsListing(listing: Listing) {
    forall entries: map<string, Tree> {:trigger listing(entries)} ::
      Distinct(listing(entries)) && forall name :: name in listing(entries) <==> name in entries
  }

  method FingerprintStagingSource(h: Hash, listing: Listing, t: Tree, relative: string) returns (fingerprint: string)
    requires IsListing(listing)
    ensures fingerprint == FingerprintOf(h, t, relative)
    decreases t
  {
    hide ShouldSkip, Child, Ordered;
    var context := relative + ":";
    if t.Directory? {
      context := context + "directory";
      var names := listing(t.entries);
      names := SortNames(names);
      assert names == Ordered(t.entries.Keys);
      ghost var head, all := context, Children(h, t, names, relative);
      for index := 0 to |names|
        invariant context + Children(h, t, names[index..], relative) == head + all
      {
        var name := names[index];
        var child := Child(relative, name);
        assert names[index..][1..] == names[index + 1..];
        ghost var rest := Children(h, t, names[index + 1..], relative);
        if ShouldSkip(child) {
          assert [] + rest == rest;
          continue;
        }
        assert name in t.entries;
        var digest := FingerprintStagingSource(h, listing, t.entries[name], child);
        Assoc(context, name + digest, rest);
        Assoc(context, name, digest);
        context := context + name + digest;
      }
      assert context + [] == context;
      Assoc(relative + ":", "directory", all);
    } else if t.File? {
      context := context + "file" + h(t.content);
      Assoc(relative + ":", "file", h(t.content));
    } else {
      context := context + "other";
    }
    return h(context);
  }

  /** Copies into an empty place; nothing there means nothing was made. */
  method CopyStagingSource(listing: Listing, source: Tree, relative: string) returns (destination: Option<Tree>)
    requires IsListing(listing)
    ensures destination == if source.Other? then None else Some(Copied(source, relative))
    decreases source
  {
    hide ShouldSkip, Child;
    if source.Directory? {
      var made: map<string, Tree> := map[];
      var names := listing(source.entries);
      for index := 0 to |names|
        invariant made.Keys <= source.entries.Keys
        invariant forall name | name in source.entries ::
          name in made <==> name in names[..index] && IsCopied(source, name, relative)
        invariant forall name | name in made :: made[name] == Copied(source.entries[name], Child(relative, name))
      {
        var name := names[index];
        assert name in source.entries;
        assert names[..index + 1] == names[..index] + [name];
        var child := Child(relative, name);
        if !ShouldSkip(child) {
          var copy := CopyStagingSource(listing, source.entries[name], child);
          if copy.Some? {
            made := made[name := copy.value];
          }
        }
      }
      assert names[..|names|] == names;
      assert made == Copied(source, relative).entries;
      return Some(Directory(made));
    }
    if source.File? {
      return Some(source);
    }
    return None;
  }
}
