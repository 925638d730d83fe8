/**
 The recursive fingerprint of builder/src/common.c over a directory tree.  The hash is a
 parameter: equal fingerprints mean equal trees, or two different byte streams that were
 hashed along the way and have the same digest.  Byte streams are strings of characters
 below 256.
 */
module Fingerprint {
  import opened Common
  import opened SortedNames
  import opened RelativePath

  /** What lstat tells: the permission bits, and the content, the entries or the size. */
  datatype Tree =
    | File(mode: nat, content: string)
    | Directory(mode: nat, entries: map<string, Tree>)
    | Other(mode: nat, size: nat)

  type Hash = string -> string

  ghost predicate IsHash(h: Hash) {
    forall s {:trigger h(s)} :: |h(s)| == 32 && forall i | 0 <= i < 32 :: h(s)[i] < 256 as char
  }

  /** Permission bits are nine; sizes and name lengths are 64-bit. */
  predicate WellFormed(t: Tree)
    decreases t
  {
    t.mode < 512
    && match t
       case File(_, _) => true
       case Other(_, size) => size < UINT64_LIMIT
       case Directory(_, entries) => forall name | name in entries :: |name| < UINT64_LIMIT && WellFormed(entries[name])
  }

  // ------------------------------------------------------------ the byte stream

  function BigEndian(n: nat, bytes: nat): (s: string)
    ensures |s| == bytes
  {
    if bytes == 0 then [] else BigEndian(n / 256, bytes - 1) + [(n % 256) as char]
  }

  function Uint64(n: nat): (s: string)
    ensures |s| == 8
  {
    BigEndian(n, 8)
  }

  /** A string behind its length. */
  function Record(s: string): (r: string)
    ensures |r| == 8 + |s|
  {
    Uint64(|s|) + s
  }

  function HexDigit(d: nat): char
    requires d < 16
  {
    if d < 10 then '0' + d as char else 'a' + (d - 10) as char
  }

  function Hex(s: string): (r: string)
    requires forall i | 0 <= i < |s| :: s[i] < 256 as char
    ensures |r| == 2 * |s|
  {
    if s == [] then [] else [HexDigit(s[0] as int / 16), HexDigit(s[0] as int % 16)] + Hex(s[1..])
  }

  /** The bytes hashed for one node. */
  ghost function Stream(h: Hash, t: Tree, relative: string): string
    requires IsHash(h)
    decreases t
  {
    Record(relative) + (Uint64(t.mode) +
      match t
      case File(_, content) => Record("file") + h(content)
      case Other(_, size) => Record("other") + Uint64(size)
      case Directory(_, entries) => Record("directory") + Children(h, t, Ordered(entries.Keys), relative))
  }

  /** Each child contributes its name and the hexadecimal digest of its own stream. */
  ghost function Children(h: Hash, t: Tree, names: seq<string>, relative: string): string
    requires IsHash(h) && t.Directory? && forall name | name in names :: name in t.entries
    decreases t, |names|
  {
    if names == [] then []
    else Record(names[0])
         + (Record(Hex(h(Stream(h, t.entries[names[0]], Child(relative, names[0]))))) + Children(h, t, names[1..], relative))
  }

  ghost function FingerprintOf(h: Hash, t: Tree, relative: string): string
    requires IsHash(h)
  {
    Hex(h(Stream(h, t, relative)))
  }

  /** Every byte stream hashed while fingerprinting the tree. */
  ghost function Hashed(h: Hash, t: Tree, relative: string): set<string>
    requires IsHash(h)
    decreases t
  {
    {Stream(h, t, relative)} +
      match t
      case File(_, content) => {content}
      case Other(_, _) => {}
      case Directory(_, entries) => set name, s | name in entries && s in Hashed(h, entries[name], Child(relative, name)) :: s
  }

  /** Two different streams of the set with the same digest. */
  ghost predicate Collision(h: Hash, streams: set<string>) {
    exists x, y | x in streams && y in streams :: x != y && h(x) == h(y)
  }

  // -------------------------------------------------- the stream is unambiguous

  function Pow256(k: nat): nat {
    if k == 0 then 1 else 256 * Pow256(k - 1)
  }

  lemma {:induction false} BigEndianInjective(a: nat, b: nat, k: nat)
    requires a < Pow256(k) && b < Pow256(k) && BigEndian(a, k) == BigEndian(b, k)
    ensures a == b
  {
    if k > 0 {
      var x, y := BigEndian(a / 256, k - 1), BigEndian(b / 256, k - 1);
      SnocInjective(x, (a % 256) as char, y, (b % 256) as char);
      BigEndianInjective(a / 256, b / 256, k - 1);
    }
  }

  lemma SnocInjective(x: string, c: char, y: string, d: char)
    requires x + [c] == y + [d]
    ensures x == y && c == d
  {
    assert (x + [c])[..|x|] == x && (y + [d])[..|y|] == y;
    assert (x + [c])[|x|] == c && (y + [d])[|y|] == d;
  }

  lemma SplitEqual(a: string, u: string, b: string, v: string)
    requires a + u == b + v && |a| == |b|
    ensures a == b && u == v
  {
    assert (a + u)[..|a|] == a && (b + v)[..|b|] == b;
    assert (a + u)[|a|..] == u && (b + v)[|b|..] == v;
  }

  lemma Uint64Injective(a: nat, b: nat)
    requires a < UINT64_LIMIT && b < UINT64_LIMIT && Uint64(a) == Uint64(b)
    ensures a == b
  {
    assert Pow256(8) == UINT64_LIMIT;
    BigEndianInjective(a, b, 8);
  }

  /** A record in front determines its string and what follows. */
  lemma RecordInjective(s: string, u: string, t: string, v: string)
    requires |s| < UINT64_LIMIT && |t| < UINT64_LIMIT
    requires Record(s) + u == Record(t) + v
    ensures s == t && u == v
  {
    hide Uint64;
    Assoc(Uint64(|s|), s, u);
    Assoc(Uint64(|t|), t, v);
    SplitEqual(Uint64(|s|), s + u, Uint64(|t|), t + v);
    Uint64Injective(|s|, |t|);
    SplitEqual(s, u, t, v);
  }

  lemma HexDigitInjective(c: nat, d: nat)
    requires c < 16 && d < 16 && HexDigit(c) == HexDigit(d)
    ensures c == d
  {}

  lemma {:induction false} HexInjective(s: string, t: string)
    requires forall i | 0 <= i < |s| :: s[i] < 256 as char
    requires forall i | 0 <= i < |t| :: t[i] < 256 as char
    requires |s| == |t| && Hex(s) == Hex(t)
    ensures s == t
  {
    if s != [] {
      var (c, d) := (s[0] as int, t[0] as int);
      SplitEqual([HexDigit(c / 16), HexDigit(c % 16)], Hex(s[1..]), [HexDigit(d / 16), HexDigit(d % 16)], Hex(t[1..]));
      assert HexDigit(c / 16) == [HexDigit(c / 16), HexDigit(c % 16)][0] == HexDigit(d / 16);
      assert HexDigit(c % 16) == [HexDigit(c / 16), HexDigit(c % 16)][1] == HexDigit(d % 16);
      HexDigitInjective(c / 16, d / 16);
      HexDigitInjective(c % 16, d % 16);
      HexInjective(s[1..], t[1..]);
      HeadTail(s);
      HeadTail(t);
    }
  }

  lemma DigestsDecide(h: Hash, x: string, y: string, streams: set<string>)
    requires IsHash(h) && x in streams && y in streams && Hex(h(x)) == Hex(h(y))
    ensures x == y || Collision(h, streams)
  {
    HexInjective(h(x), h(y));
  }

  lemma CollisionGrows(h: Hash, small: set<string>, large: set<string>)
    requires small <= large && Collision(h, small)
    ensures Collision(h, large)
  {
    var x, y :| x in small && y in small && x != y && h(x) == h(y);
    assert x in large && y in large;
  }

  lemma ChildHashed(h: Hash, t: Tree, name: string, relative: string)
    requires IsHash(h) && t.Directory? && name in t.entries
    ensures Hashed(h, t.entries[name], Child(relative, name)) <= Hashed(h, t, relative)
    ensures Stream(h, t.entries[name], Child(relative, name)) in Hashed(h, t, relative)
  {
    hide Stream;
    forall s | s in Hashed(h, t.entries[name], Child(relative, name)) ensures s in Hashed(h, t, relative) {}
  }

  function Kind(t: Tree): string {
    match t case File(_, _) => "file" case Other(_, _) => "other" case Directory(_, _) => "directory"
  }

  ghost function Details(h: Hash, t: Tree, relative: string): string
    requires IsHash(h)
  {
    match t
    case File(_, content) => h(content)
    case Other(_, size) => Uint64(size)
    case Directory(_, entries) => Children(h, t, Ordered(entries.Keys), relative)
  }

  lemma StreamParts(h: Hash, t: Tree, relative: string)
    requires IsHash(h)
    ensures Stream(h, t, relative) == Record(relative) + (Uint64(t.mode) + (Record(Kind(t)) + Details(h, t, relative)))
  {
    hide Record, Uint64, Children;
  }

  /** Equal streams mean equal permission bits, the same kind of node and equal details. */
  lemma StreamHeads(h: Hash, a: Tree, b: Tree, relative: string)
    requires IsHash(h) && WellFormed(a) && WellFormed(b) && Stream(h, a, relative) == Stream(h, b, relative)
    ensures a.mode == b.mode && Kind(a) == Kind(b) && Details(h, a, relative) == Details(h, b, relative)
  {
    hide Record, Uint64, Details, Stream;
    StreamParts(h, a, relative);
    StreamParts(h, b, relative);
    var (ka, kb) := (Record(Kind(a)) + Details(h, a, relative), Record(Kind(b)) + Details(h, b, relative));
    SplitEqual(Record(relative), Uint64(a.mode) + ka, Record(relative), Uint64(b.mode) + kb);
    SplitEqual(Uint64(a.mode), ka, Uint64(b.mode), kb);
    Uint64Injective(a.mode, b.mode);
    RecordInjective(Kind(a), Details(h, a, relative), Kind(b), Details(h, b, relative));
  }

  lemma {:induction false} StreamsDecide(h: Hash, a: Tree, b: Tree, relative: string)
    requires IsHash(h) && WellFormed(a) && WellFormed(b) && Stream(h, a, relative) == Stream(h, b, relative)
    ensures a == b || Collision(h, Hashed(h, a, relative) + Hashed(h, b, relative))
    decreases a
  {
    hide Stream, Hashed, WellFormed, Details, Collision;
    StreamHeads(h, a, b, relative);
    match a {
      case File(_, _) => FilesDecide(h, a, b, relative);
      case Other(_, _) => OthersDecide(h, a, b, relative);
      case Directory(_, _) =>
        if !Collision(h, Hashed(h, a, relative) + Hashed(h, b, relative)) {
          DirectoriesDecide(h, a, b, relative);
        }
    }
  }

  lemma {:induction false} DirectoriesDecide(h: Hash, a: Tree, b: Tree, relative: string)
    requires IsHash(h) && WellFormed(a) && WellFormed(b) && a.Directory? && b.Directory? && a.mode == b.mode
    requires Details(h, a, relative) == Details(h, b, relative)
    requires !Collision(h, Hashed(h, a, relative) + Hashed(h, b, relative))
    ensures a == b
    decreases a, |a.entries| + 1
  {
    hide Stream, Children, Hashed, WellFormed, Collision, Ordered;
    ChildrenDecide(h, a, Ordered(a.entries.Keys), b, Ordered(b.entries.Keys), relative);
    OrderedInjective(a.entries.Keys, b.entries.Keys);
    assert a.entries == b.entries;
  }

  lemma FilesDecide(h: Hash, a: Tree, b: Tree, relative: string)
    requires IsHash(h) && a.File? && b.File? && a.mode == b.mode && Details(h, a, relative) == Details(h, b, relative)
    ensures a == b || Collision(h, Hashed(h, a, relative) + Hashed(h, b, relative))
  {
    hide Stream;
    assert a.content in Hashed(h, a, relative) && b.content in Hashed(h, b, relative);
  }

  lemma OthersDecide(h: Hash, a: Tree, b: Tree, relative: string)
    requires IsHash(h) && WellFormed(a) && WellFormed(b) && a.Other? && b.Other? && a.mode == b.mode
    requires Details(h, a, relative) == Details(h, b, relative)
    ensures a == b
  {
    hide Uint64;
    Uint64Injective(a.size, b.size);
  }

  lemma {:induction false} ChildrenDecide(h: Hash, a: Tree, aNames: seq<string>, b: Tree, bNames: seq<string>, relative: string)
    requires IsHash(h) && WellFormed(a) && WellFormed(b) && a.Directory? && b.Directory?
    requires (forall name | name in aNames :: name in a.entries) && (forall name | name in bNames :: name in b.entries)
    requires Children(h, a, aNames, relative) == Children(h, b, bNames, relative)
    requires !Collision(h, Hashed(h, a, relative) + Hashed(h, b, relative))
    ensures aNames == bNames && forall name | name in aNames :: a.entries[name] == b.entries[name]
    decreases a, |aNames|
  {
    hide Stream, Hashed, Record, Hex, Collision, Child;
    if aNames != [] && bNames != [] {
      var (m, n) := (aNames[0], bNames[0]);
      var (x, y) := (Stream(h, a.entries[m], Child(relative, m)), Stream(h, b.entries[n], Child(relative, n)));
      var (more, others) := (Children(h, a, aNames[1..], relative), Children(h, b, bNames[1..], relative));
      RecordInjective(m, Record(Hex(h(x))) + more, n, Record(Hex(h(y))) + others);
      RecordInjective(Hex(h(x)), more, Hex(h(y)), others);
      ChildHashed(h, a, m, relative);
      ChildHashed(h, b, n, relative);
      var streams := Hashed(h, a, relative) + Hashed(h, b, relative);
      DigestsDecide(h, x, y, streams);
      StreamsDecide(h, a.entries[m], b.entries[n], Child(relative, m));
      var below := Hashed(h, a.entries[m], Child(relative, m)) + Hashed(h, b.entries[n], Child(relative, n));
      if Collision(h, below) { CollisionGrows(h, below, streams); }
      ChildrenDecide(h, a, aNames[1..], b, bNames[1..], relative);
      HeadTail(aNames);
      HeadTail(bNames);
    }
  }

  /**
   Equal fingerprints mean equal trees, in names, permission bits, file contents and the
   sizes of other nodes, unless two different streams hashed on the way collide.
   */
  lemma EqualFingerprints(h: Hash, a: Tree, b: Tree, relative: string)
    requires IsHash(h) && WellFormed(a) && WellFormed(b)
    requires FingerprintOf(h, a, relative) == FingerprintOf(h, b, relative)
    ensures a == b || Collision(h, Hashed(h, a, relative) + Hashed(h, b, relative))
  {
    hide Stream;
    DigestsDecide(h, Stream(h, a, relative), Stream(h, b, relative), Hashed(h, a, relative) + Hashed(h, b, relative));
    if Stream(h, a, relative) == Stream(h, b, relative) { StreamsDecide(h, a, b, relative); }
  }

  // ------------------------------------------------------------- the computation

  /** The order in which the file system lists a directory's names. */
  type Listing = map<string, Tree> -> seq<string>

  ghost predicate IsListing(listing: Listing) {
    forall entries: map<string, Tree> {:trigger listing(entries)} ::
      Distinct(listing(entries)) && forall name :: name in listing(entries) <==> name in entries
  }

  /** The fingerprint, whatever order directories are listed in. */
  method FingerprintPath(h: Hash, listing: Listing, t: Tree, relative: string) returns (fingerprint: string)
    requires IsHash(h) && IsListing(listing)
    ensures fingerprint == FingerprintOf(h, t, relative)
    decreases t
  {
    hide Record, Uint64, Hex, Child, Ordered;
    var context := Record(relative) + Uint64(t.mode);
    if t.Directory? {
      context := context + Record("directory");
      var names := listing(t.entries);
      names := SortNames(names);
      assert names == Ordered(t.entries.Keys);
      ghost var head, all := context, Children(h, t, names, relative);
      for index := 0 to |names|
        invariant context + Children(h, t, names[index..], relative) == head + all
      {
        var name := names[index];
        assert names[index..][1..] == names[index + 1..];
        assert name in t.entries;
        var child := FingerprintPath(h, listing, t.entries[name], Child(relative, name));
        ghost var rest := Children(h, t, names[index + 1..], relative);
        Assoc(context, Record(name), Record(child) + rest);
        Assoc(context + Record(name), Record(child), rest);
        context := context + Record(name) + Record(child);
      }
      assert context + [] == context;
      assert context == head + all;
      Assoc(Record(relative) + Uint64(t.mode), Record("directory"), all);
      Assoc(Record(relative), Uint64(t.mode), Record("directory") + all);
    } else if t.File? {
      Assoc(context, Record("file"), h(t.content));
      Assoc(Record(relative), Uint64(t.mode), Record("file") + h(t.content));
      context := context + Record("file") + h(t.content);
    } else {
      Assoc(context, Record("other"), Uint64(t.size));
      Assoc(Record(relative), Uint64(t.mode), Record("other") + Uint64(t.size));
      context := context + Record("other") + Uint64(t.size);
    }
    fingerprint := Hex(h(context));
  }
}
