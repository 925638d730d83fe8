/**
 The in-place installation of builder/src/prepare.c as steps on a disk: the CEF files, the
 Node.js runtime, the launcher configuration and, last, the ready marker.
 */
module Install {
  import opened Common
  import opened Text
  import opened FileSystem
  import opened NodeRuntime

  const READY: Path := [".muon-runtime-ready.json"]
  const CONFIG: Path := ["muon-launcher.ini"]
  const CONFIG_PREFIX := ".muon-launcher.ini.tmp."
  const EXTRACT_PREFIX := ".cef-extract.tmp."
  const RELEASE: Path := ["Release"]
  const RESOURCES: Path := ["Resources"]
  const EMPTY_FINGERPRINT := Repeated('0', 64)

  function Repeated(c: char, n: nat): (s: string)
    ensures |s| == n && forall i | 0 <= i < n :: s[i] == c
  {
    if n == 0 then "" else [c] + Repeated(c, n - 1)
  }

  function TemporaryConfig(stamp: string): Path { [CONFIG_PREFIX + stamp] }
  function ExtractRoot(stamp: string): Path { [EXTRACT_PREFIX + stamp] }

  // ------------------------------------------------------- what a CEF input brings

  predicate InParts(tree: Files) { Below(tree, RELEASE) != map[] || Below(tree, RESOURCES) != map[] }

  /** The directories of a CEF input that are copied, in order. */
  function Pieces(tree: Files): seq<Files> {
    if InParts(tree) then [Below(tree, RELEASE), Below(tree, RESOURCES)] else [tree]
  }

  /** The files they amount to. */
  function Payload(tree: Files): Files {
    if InParts(tree) then Below(tree, RELEASE) + Below(tree, RESOURCES) else tree
  }

  /**
   When anything lies below Release or Resources, those files arrive with that part of their
   path removed, and Resources wins; otherwise everything arrives under its own path.
   */
  lemma PayloadMeans(tree: Files, p: Path)
    ensures (exists q :: RELEASE + q in tree || RESOURCES + q in tree) ==>
      && (p in Payload(tree) <==> RELEASE + p in tree || RESOURCES + p in tree)
      && (RESOURCES + p in tree ==> Payload(tree)[p] == tree[RESOURCES + p])
      && (RELEASE + p in tree && RESOURCES + p !in tree ==> Payload(tree)[p] == tree[RELEASE + p])
    ensures (forall q :: RELEASE + q !in tree && RESOURCES + q !in tree) ==> Payload(tree) == tree
  {
    hide Below;
    BelowMeans(tree, RELEASE);
    BelowMeans(tree, RESOURCES);
    if q :| RELEASE + q in tree || RESOURCES + q in tree {
      assert q in Below(tree, RELEASE) || q in Below(tree, RESOURCES);
    } else {
      assert Below(tree, RELEASE).Keys == {} && Below(tree, RESOURCES).Keys == {};
    }
  }

  lemma BelowMeans(files: Files, root: Path)
    ensures forall q :: q in Below(files, root) <==> root + q in files
    ensures forall q | q in Below(files, root) :: Below(files, root)[q] == files[root + q]
  {
    forall q | root + q in files ensures q in Below(files, root) {
      assert root <= root + q && (root + q)[|root|..] == q;
    }
  }

  /** The text is a beginning of what some piece has at the path. */
  ghost predicate Beginning(tree: Files, p: Path, text: string) {
    exists piece | piece in Pieces(tree) :: p in piece && text <= piece[p]
  }

  /** While the pieces are copied, each file is untouched or holds a beginning of a piece's file. */
  ghost predicate Bringing(before: Files, now: Files, tree: Files) {
    forall p :: SameAt(before, now, p) || (p in now && Beginning(tree, p, now[p]))
  }

  predicate Unpacked(p: Path) { p != [] && EXTRACT_PREFIX <= p[0] }

  /** The same outside the temporary trees that archives are unpacked to. */
  ghost predicate Installing(before: Files, now: Files, tree: Files) {
    forall p | !Unpacked(p) :: SameAt(before, now, p) || (p in now && Beginning(tree, p, now[p]))
  }

  /** Copies Release and Resources of a CEF input, or all of it when it has neither. */
  method CopyPieces(disk: Disk, tree: Files) returns (ok: bool)
    requires disk.Recorded()
    modifies disk
    ensures disk.Recorded() && old(disk.passed) <= disk.passed
    ensures forall i | |old(disk.passed)| <= i < |disk.passed| :: Bringing(old(disk.files), disk.passed[i], tree)
    ensures Bringing(old(disk.files), disk.files, tree)
    ensures ok ==> disk.files == old(disk.files) + Payload(tree)
  {
    hide Below, Copying, Bringing;
    ghost var before := disk.files;
    NothingBrought(before, tree);
    var release, resources := Below(tree, RELEASE), Below(tree, RESOURCES);
    var hasRelease, hasResources := release != map[], resources != map[];
    if hasRelease || hasResources {
      ok := true;
      if hasRelease {
        CopyingBrings(before, before, tree, 0);
        ok := disk.CopyTree(release);
      }
      if ok && hasResources {
        CopyingBrings(before, disk.files, tree, 1);
        ok := disk.CopyTree(resources);
      }
      assert before + release + resources == before + (release + resources);
    } else {
      CopyingBrings(before, before, tree, 0);
      ok := disk.CopyTree(tree);
    }
  }

  /** Unpacks an archive below a name that neither the disk nor the input uses, copies from there and removes it. */
  method ExtractArchive(disk: Disk, entries: seq<(Path, string)>) returns (ok: bool)
    requires disk.Recorded()
    modifies disk
    ensures disk.Recorded() && old(disk.passed) <= disk.passed
    ensures forall i | |old(disk.passed)| <= i < |disk.passed| :: Installing(old(disk.files), disk.passed[i], Tree(entries))
    ensures Installing(old(disk.files), disk.files, Tree(entries))
    ensures ok ==> disk.files == old(disk.files) + Payload(Tree(entries))
  {
    hide Below, SameOutside, Installing, Bringing, Payload, Overlay;
    var before, tree := disk.files, Tree(entries);
    NewStampExists(before.Keys + Payload(tree).Keys);
    var stamp: string :| Unused(stamp, before.Keys + Payload(tree).Keys);
    var root := ExtractRoot(stamp);
    NothingBelow(before, root);
    UnpackingInstalls(before, before, stamp, tree);
    ok := disk.WriteAll(root, entries);
    if !ok {
      UnpackingInstalls(before, disk.files, stamp, tree);
      var _ := disk.RemoveRecursive(root);
      return;
    }
    OverlayBelow(before, root, entries);
    ghost var unpacked := disk.files;
    BringingInstalls(before, unpacked, stamp, tree);
    ok := CopyPieces(disk, Below(disk.files, root));
    ghost var copied := disk.files;
    UnpackingInstalls(before, copied, stamp, tree);
    var removed := disk.RemoveRecursive(root);
    if ok && removed {
      ExtractedIs(before, unpacked, disk.files, stamp, Payload(tree));
    }
    return ok && removed;
  }

  /** The stamp gives a name below which no path lies. */
  predicate Unused(stamp: string, paths: set<Path>) {
    forall p | p in paths :: !(ExtractRoot(stamp) <= p)
  }

  lemma {:induction false} LongestName(paths: set<Path>) returns (n: nat)
    ensures forall p | p in paths && p != [] :: |p[0]| <= n
  {
    n := 0;
    if paths != {} {
      var p :| p in paths;
      n := LongestName(paths - {p});
      n := if p != [] && |p[0]| > n then |p[0]| else n;
      assert forall q | q in paths :: q == p || q in paths - {p};
    }
  }

  lemma NewStampExists(paths: set<Path>)
    ensures exists stamp :: Unused(stamp, paths)
  {
    var n := LongestName(paths);
    var stamp := seq(n + 1, _ => '0');
    forall p | p in paths ensures !(ExtractRoot(stamp) <= p) {
      if p != [] {
        assert |p[0]| <= n < |ExtractRoot(stamp)[0]|;
      }
    }
    assert Unused(stamp, paths);
  }

  lemma NothingBrought(files: Files, tree: Files)
    ensures Bringing(files, files, tree)
  {
  }

  lemma CopyingBrings(before: Files, middle: Files, tree: Files, k: nat)
    requires Bringing(before, middle, tree) && k < |Pieces(tree)|
    ensures forall now :: Copying(middle, now, Pieces(tree)[k]) ==> Bringing(before, now, tree)
  {
    hide Pieces;
    var piece := Pieces(tree)[k];
    forall now | Copying(middle, now, piece) ensures Bringing(before, now, tree) {
      forall p ensures SameAt(before, now, p) || (p in now && Beginning(tree, p, now[p])) {
        assert SameAt(middle, now, p) || (p in piece && p in now && now[p] <= piece[p]);
        assert SameAt(before, middle, p) || (p in middle && Beginning(tree, p, middle[p]));
      }
    }
  }

  lemma NotUnpacked(p: Path, stamp: string)
    requires !Unpacked(p)
    ensures !(ExtractRoot(stamp) <= p)
  {
  }

  lemma UnpackingInstalls(before: Files, middle: Files, stamp: string, tree: Files)
    requires middle == before || Installing(before, middle, tree)
    ensures Installing(before, middle, tree)
    ensures forall now :: SameOutside(middle, now, ExtractRoot(stamp)) ==> Installing(before, now, tree)
  {
    hide Beginning;
    var root := ExtractRoot(stamp);
    assert Installing(before, middle, tree);
    forall now | SameOutside(middle, now, root) ensures Installing(before, now, tree) {
      forall p | !Unpacked(p) ensures SameAt(before, now, p) || (p in now && Beginning(tree, p, now[p])) {
        NotUnpacked(p, stamp);
        assert SameAt(middle, now, p);
        assert SameAt(before, middle, p) || (p in middle && Beginning(tree, p, middle[p]));
      }
    }
  }

  lemma BringingInstalls(before: Files, middle: Files, stamp: string, tree: Files)
    requires SameOutside(before, middle, ExtractRoot(stamp))
    ensures forall now :: Bringing(middle, now, tree) ==> Installing(before, now, tree)
  {
    hide Beginning;
    var root := ExtractRoot(stamp);
    forall now | Bringing(middle, now, tree) ensures Installing(before, now, tree) {
      forall p | !Unpacked(p) ensures SameAt(before, now, p) || (p in now && Beginning(tree, p, now[p])) {
        NotUnpacked(p, stamp);
        assert SameAt(before, middle, p);
        assert SameAt(middle, now, p) || (p in now && Beginning(tree, p, now[p]));
      }
    }
  }

  /** Once the temporary tree is gone, what is left are the old files and what was copied. */
  lemma ExtractedIs(before: Files, unpacked: Files, after: Files, stamp: string, payload: Files)
    requires Unused(stamp, before.Keys + payload.Keys)
    requires SameOutside(before, unpacked, ExtractRoot(stamp)) && SameOutside(unpacked + payload, after, ExtractRoot(stamp))
    requires Below(after, ExtractRoot(stamp)) == map[]
    ensures after == before + payload
  {
    hide Below;
    NothingBelow(after, ExtractRoot(stamp));
    forall p ensures SameAt(after, before + payload, p) {
      if ExtractRoot(stamp) <= p {
        assert p !in after && p !in before.Keys + payload.Keys;
      } else {
        assert SameAt(before, unpacked, p) && SameAt(unpacked + payload, after, p);
      }
    }
    SameEverywhere(after, before + payload);
  }

  /** Brings the files of the CEF input into the runtime directory. */
  method InstallCef(disk: Disk, archive: bool, entries: seq<(Path, string)>) returns (ok: bool)
    requires disk.Recorded()
    modifies disk
    ensures disk.Recorded() && old(disk.passed) <= disk.passed
    ensures forall i | |old(disk.passed)| <= i < |disk.passed| :: Installing(old(disk.files), disk.passed[i], Tree(entries))
    ensures Installing(old(disk.files), disk.files, Tree(entries))
    ensures ok ==> disk.files == old(disk.files) + Payload(Tree(entries))
  {
    hide Installing, Bringing, Payload, Tree, SameOutside;
    if archive {
      ok := ExtractArchive(disk, entries);
    } else {
      SameOutsideItself(disk.files, ExtractRoot(""));
      BringingInstalls(disk.files, disk.files, "", Tree(entries));
      ok := CopyPieces(disk, Tree(entries));
    }
  }

  // ------------------------------------------------------------ the ready marker

  /** The 64 characters of a digest. */
  predicate IsFingerprint(text: string) { |text| == 64 && '\0' !in text }

  const READY_START := "{\"ready\":true,\"muonFingerprint\":\""
  const CEF_KEY := "\",\"cefFingerprint\":\""
  const NODE_KEY := "\",\"nodeFingerprint\":\""
  const READY_END := "\"}\n"

  function ReadyContent(cef: string, node: string): string {
    READY_START + EMPTY_FINGERPRINT + CEF_KEY + cef + NODE_KEY + node + READY_END
  }

  /** The marker is compared as a C string. */
  predicate Marked(files: Files, cef: string, node: string) {
    READY in files && CText(files[READY]) == ReadyContent(cef, node)
  }

  /** What each fingerprint stands for: the entries of a CEF input, and of a Node.js archive if any. */
  datatype Library = Library(cef: string -> seq<(Path, string)>, node: string -> Option<seq<(Path, string)>>)

  /** No ready marker is a beginning of the text. */
  ghost predicate Harmless(text: string) {
    forall cef, node | IsFingerprint(cef) && IsFingerprint(node) :: !(ReadyContent(cef, node) <= text)
  }

  /** What the input has for the marker's path, if anything, is harmless. */
  ghost predicate BringsNoMarker(tree: Files) {
    forall piece | piece in Pieces(tree) :: READY in piece ==> Harmless(piece[READY])
  }

  predicate BringsNoConfig(tree: Files) {
    forall piece | piece in Pieces(tree) :: CONFIG !in piece
  }

  function CefTree(library: Library, cef: string): Files { Tree(library.cef(cef)) }

  function NodeTree(library: Library, node: string): Files {
    match library.node(node)
    case None => map[]
    case Some(entries) => Tree(entries)
  }

  /**
   The paths the installer itself writes after the CEF files: the ready marker, the
   configuration, the Node.js runtime and the temporary names beside the last two.
   */
  predicate Owned(p: Path) {
    || READY <= p || p == CONFIG || (p != [] && CONFIG_PREFIX <= p[0])
    || NODE <= p || (|p| >= 2 && p[0] == RUNTIMES && (INSTALL_PREFIX <= p[1] || BACKUP_PREFIX <= p[1]))
  }

  /** Every other file of the CEF input is there with its content, and the Node.js runtime is whole. */
  ghost predicate InPlace(library: Library, files: Files, cef: string, node: string) {
    CefInPlace(library, files, cef) && Below(files, NODE) == NodeTree(library, node)
  }

  ghost predicate CefInPlace(library: Library, files: Files, cef: string) {
    forall p | p in Payload(CefTree(library, cef)) && !Owned(p) :: p in files && files[p] == Payload(CefTree(library, cef))[p]
  }

  /** Whatever the ready marker says is in place. */
  ghost predicate Vouched(library: Library, files: Files) {
    forall cef, node | IsFingerprint(cef) && IsFingerprint(node) && Marked(files, cef, node) :: InPlace(library, files, cef, node)
  }

  /** Nothing that could be read as a marker is at the marker's path. */
  ghost predicate Unmarked(files: Files) {
    READY in files ==> Harmless(files[READY])
  }

  /** Two ready markers are equal only for the same fingerprints, and none is the beginning of another. */
  lemma ReadyDecides(cef: string, node: string, cef': string, node': string)
    requires IsFingerprint(cef) && IsFingerprint(node) && IsFingerprint(cef') && IsFingerprint(node')
    requires ReadyContent(cef, node) <= ReadyContent(cef', node')
    ensures cef == cef' && node == node'
  {
    EmptyIsFingerprint();
    SameParts(READY_START + EMPTY_FINGERPRINT + CEF_KEY, cef, cef', NODE_KEY, node, node', READY_END);
  }

  lemma SameParts(start: string, x: string, x': string, middle: string, y: string, y': string, end: string)
    requires |x| == |x'| && |y| == |y'|
    requires start + x + middle + y + end <= start + x' + middle + y' + end
    ensures x == x' && y == y'
  {
    var a, b := start + x + middle + y + end, start + x' + middle + y' + end;
    assert |a| == |b|;
    assert a == b;
    var n, m := |start|, |start| + |x| + |middle|;
    assert a[n..n + |x|] == x && b[n..n + |x|] == x';
    assert a[m..m + |y|] == y && b[m..m + |y|] == y';
  }

  lemma EmptyIsFingerprint()
    ensures IsFingerprint(EMPTY_FINGERPRINT)
  {
  }

  lemma PartsLackNull()
    ensures '\0' !in READY_START && '\0' !in CEF_KEY && '\0' !in NODE_KEY && '\0' !in READY_END
  {
  }

  lemma ReadyIsText(cef: string, node: string)
    requires IsFingerprint(cef) && IsFingerprint(node)
    ensures CText(ReadyContent(cef, node)) == ReadyContent(cef, node)
  {
    hide CText, IndexOf;
    EmptyIsFingerprint();
    PartsLackNull();
    CTextWhole(ReadyContent(cef, node));
  }

  // ------------------------------------------------------- one preparation in place

  /** The configuration is the old one or the new text. */
  predicate EitherConfig(before: Files, now: Files, content: string) {
    SameAt(before, now, CONFIG) || HasConfig(now, content)
  }

  predicate HasConfig(now: Files, content: string) { CONFIG in now && now[CONFIG] == content }

  ghost predicate SameButConfig(a: Files, b: Files) {
    forall p | p != CONFIG && !(p != [] && CONFIG_PREFIX <= p[0]) :: SameAt(a, b, p)
  }

  /** Writes the text beside the configuration and replaces the configuration by it. */
  method SaveLauncherConfig(disk: Disk, content: string, stamp: string) returns (ok: bool)
    requires disk.Recorded()
    modifies disk
    ensures disk.Recorded() && old(disk.passed) <= disk.passed
    ensures forall i | |old(disk.passed)| <= i < |disk.passed| ::
      SameButConfig(old(disk.files), disk.passed[i]) && EitherConfig(old(disk.files), disk.passed[i], content)
    ensures SameButConfig(old(disk.files), disk.files)
    ensures if ok then HasConfig(disk.files, content) else SameAt(old(disk.files), disk.files, CONFIG)
  {
    hide SameButConfig, Writing, SameOutside, Part, Below;
    ghost var before := disk.files;
    var temporary := TemporaryConfig(stamp);
    ConfigNames(stamp);
    ConfigWriting(before, content, stamp);
    ok := disk.WriteTextFile(temporary, content);
    if ok {
      ConfigReplaced(before, disk.files, stamp);
      ok := disk.ReplaceFile(temporary, CONFIG);
    }
    if !ok {
      ConfigRemoved(before, disk.files, stamp);
      var _ := disk.RemoveRecursive(temporary);
    }
  }

  ghost predicate KeepsConfig(before: Files, now: Files, tree: Files) {
    BringsNoConfig(tree) ==> SameAt(before, now, CONFIG)
  }

  /** Where the installer has no files of its own, each file is untouched or holds a beginning of a piece's file. */
  ghost predicate Changing(before: Files, now: Files, tree: Files) {
    forall p | !Owned(p) && !Unpacked(p) :: SameAt(before, now, p) || (p in now && Beginning(tree, p, now[p]))
  }

  /** With no marker in place: only what the CEF input brings, hence no marker unless it brings one. */
  ghost predicate Filling(before: Files, now: Files, tree: Files) {
    (BringsNoMarker(tree) ==> Unmarked(now)) && KeepsConfig(before, now, tree) && Changing(before, now, tree)
  }

  /** Brings the CEF files and installs or removes the Node.js runtime, with no marker in place. */
  method InstallInputs(disk: Disk, library: Library, archive: bool, cef: string, node: string, stamp: string) returns (ok: bool)
    requires disk.Recorded() && Unmarked(disk.files)
    modifies disk
    ensures disk.Recorded() && old(disk.passed) <= disk.passed
    ensures forall i | |old(disk.passed)| <= i < |disk.passed| :: Filling(old(disk.files), disk.passed[i], CefTree(library, cef))
    ensures Filling(old(disk.files), disk.files, CefTree(library, cef))
    ensures ok ==> InPlace(library, disk.files, cef, node)
  {
    hide InPlace, Filling, CefInPlace, Installing, SameOutside, SameOutsideThree, SameUnowned,
      Below, Payload, Tree, Part, EitherRuntime, Restored;
    ghost var before, tree := disk.files, CefTree(library, cef);
    InstallingKeeps(before, tree);
    ok := InstallCef(disk, archive, library.cef(cef));
    if !ok {
      return;
    }
    ghost var brought := disk.files;
    CefBrought(library, before, cef);
    RuntimeKeeps(before, brought, tree, stamp);
    if library.node(node).Some? {
      var installed, _ := InstallNodeRuntime(disk, library.node(node).value, stamp);
      ok := installed;
    } else {
      NothingInstalled(stamp);
      ok := disk.RemoveRecursive(NODE);
    }
    if ok {
      KeepsCef(library, brought, disk.files, cef);
      PlaceIs(library, disk.files, cef, node);
    }
  }

  /** Whatever marker there is was there before, or is the new one, after the configuration has been saved. */
  ghost predicate Announced(before: Files, now: Files, cef: string, node: string, config: string) {
    forall cef', node' | IsFingerprint(cef') && IsFingerprint(node') && Marked(now, cef', node') ::
      Marked(before, cef', node') || (cef' == cef && node' == node && HasConfig(now, config))
  }

  /**
   What a stop may leave: every file of others untouched or a beginning of what the CEF input
   has for it; unless that input brings a marker, a marker that vouches truly if the one before
   did; and unless it brings a configuration, the old one or the new one.
   */
  ghost predicate Resumable(library: Library, before: Files, now: Files, cef: string, node: string, config: string) {
    var tree := CefTree(library, cef);
    && Changing(before, now, tree)
    && (BringsNoMarker(tree) ==> Announced(before, now, cef, node, config) && (Vouched(library, before) ==> Vouched(library, now)))
    && (BringsNoConfig(tree) ==> EitherConfig(before, now, config))
  }

  /**
   One in-place preparation, with the fingerprints of the CEF input and of the Node.js
   archive.  Wherever it stops, the disk is resumable; when it succeeds, all is in place and the
   marker is true, whatever the input brings.
   */
  method PrepareRuntimeInPlace(disk: Disk, library: Library, archive: bool, force: bool, cef: string, node: string,
                               config: string, stamp: string)
    returns (ok: bool, cacheHit: bool, ghost saved: bool)
    requires disk.Recorded() && IsFingerprint(cef) && IsFingerprint(node)
    modifies disk
    ensures disk.Recorded() && old(disk.passed) <= disk.passed
    ensures forall i | |old(disk.passed)| <= i < |disk.passed| ::
      Resumable(library, old(disk.files), disk.passed[i], cef, node, config)
    ensures Resumable(library, old(disk.files), disk.files, cef, node, config)
    ensures cacheHit <==> !force && Marked(old(disk.files), cef, node)
    ensures cacheHit ==> SameButConfig(old(disk.files), disk.files)
    ensures cacheHit && Vouched(library, old(disk.files)) ==> InPlace(library, old(disk.files), cef, node)
    ensures ok ==> saved && Marked(disk.files, cef, node)
    ensures saved ==> HasConfig(disk.files, config)
    ensures saved && (cacheHit ==> Vouched(library, old(disk.files))) ==> InPlace(library, disk.files, cef, node)
    ensures ok && (cacheHit ==> Vouched(library, old(disk.files))) ==> Vouched(library, disk.files)
    ensures !saved ==> !ok && KeepsConfig(old(disk.files), disk.files, CefTree(library, cef))
  {
    hide InPlace, Vouched, Resumable, Unmarked, Filling, Changing, KeepsConfig, SameUnowned, SameButConfig,
      EitherConfig, SameOutside, Below, Part, Writing,
      ReadyContent, SameAt, CefTree, CText;
    ghost var before := disk.files;
    var ready := ReadyContent(cef, node);
    NothingCleared(library, before, cef, node, config);
    if !force && READY in disk.files && CText(disk.files[READY]) == ready {
      SavingKeepsMarker(library, before, cef, node, config);
      ok := SaveLauncherConfig(disk, config, stamp);
      return ok, true, ok;
    }
    cacheHit, saved := false, false;
    ClearingIsResumable(library, before, cef, node, config);
    ok := disk.RemoveRecursive(READY);
    if !ok {
      return;
    }
    ghost var cleared := disk.files;
    ClearedIsUnmarked(cleared);
    InstallingIsResumable(library, before, cleared, cef, node, config);
    ok := InstallInputs(disk, library, archive, cef, node, stamp);
    if !ok {
      return;
    }
    ghost var installed := disk.files;
    SavingIsResumable(library, before, installed, cef, node, config);
    ok := SaveLauncherConfig(disk, config, stamp);
    if !ok {
      return;
    }
    saved := true;
    ghost var written := disk.files;
    MarkingIsResumable(library, before, written, cef, node, config);
    ok := disk.WriteTextFile(READY, ready);
    if ok {
      NewMarkerVouches(library, disk.files, cef, node);
    }
  }

  /** One preparation, and after how many disk operations it is stopped. */
  datatype Plan = Plan(archive: bool, force: bool, cef: string, node: string, config: string, stamp: string, stop: nat)

  /**
   Any number of preparations, each stopped wherever its plan says or run to its end, and
   each starting on the disk the last one left.
   */
  method PrepareAndStop(disk: Disk, library: Library, plans: seq<Plan>)
    requires disk.Recorded()
    requires forall plan | plan in plans :: IsFingerprint(plan.cef) && IsFingerprint(plan.node)
    modifies disk
    ensures disk.Recorded() && old(disk.passed) <= disk.passed
    ensures Vouched(library, old(disk.files)) && (forall plan | plan in plans :: BringsNoMarker(CefTree(library, plan.cef))) ==>
      && (forall i | |old(disk.passed)| <= i < |disk.passed| :: Vouched(library, disk.passed[i]))
      && Vouched(library, disk.files)
  {
    hide Vouched, IsFingerprint, InPlace, ReadyContent, Announced, Changing, EitherConfig, BringsNoMarker, BringsNoConfig,
      KeepsConfig, CefTree;
    ghost var honest := Vouched(library, disk.files) && forall plan | plan in plans :: BringsNoMarker(CefTree(library, plan.cef));
    for n := 0 to |plans|
      invariant disk.Recorded() && old(disk.passed) <= disk.passed
      invariant honest ==> forall i | |old(disk.passed)| <= i < |disk.passed| :: Vouched(library, disk.passed[i])
      invariant honest ==> Vouched(library, disk.files)
    {
      var plan, start := plans[n], |disk.passed|;
      assert plan in plans;
      var _, _, _ := PrepareRuntimeInPlace(disk, library, plan.archive, plan.force, plan.cef, plan.node, plan.config, plan.stamp);
      assert honest ==> forall i | start <= i < |disk.passed| :: Vouched(library, disk.passed[i]);
      if start + plan.stop < |disk.passed| {
        disk.Become(disk.passed[start + plan.stop]);
      }
    }
  }

  // ------------------------------------------------------ what each phase leaves alone

  ghost predicate SameUnowned(a: Files, b: Files) {
    forall p | !Owned(p) :: SameAt(a, b, p)
  }

  lemma ConfigNames(stamp: string)
    ensures TemporaryConfig(stamp) != CONFIG && !(TemporaryConfig(stamp) <= CONFIG) && CONFIG_PREFIX <= TemporaryConfig(stamp)[0]
  {
    assert TemporaryConfig(stamp)[0][0] == '.' && CONFIG[0][0] == 'm';
  }

  lemma ConfigWriting(before: Files, content: string, stamp: string)
    ensures forall now :: Writing(before, now, TemporaryConfig(stamp), content) ==>
      SameButConfig(before, now) && SameAt(before, now, CONFIG)
  {
    ConfigNames(stamp);
  }

  lemma ConfigReplaced(before: Files, middle: Files, stamp: string)
    requires SameButConfig(before, middle) && TemporaryConfig(stamp) in middle
    ensures SameButConfig(before, (middle - {TemporaryConfig(stamp)})[CONFIG := middle[TemporaryConfig(stamp)]])
  {
    ConfigNames(stamp);
    var after := (middle - {TemporaryConfig(stamp)})[CONFIG := middle[TemporaryConfig(stamp)]];
    forall p | p != CONFIG && !(p != [] && CONFIG_PREFIX <= p[0]) ensures SameAt(before, after, p) {
      assert SameAt(before, middle, p);
    }
  }

  lemma ConfigRemoved(before: Files, middle: Files, stamp: string)
    requires SameButConfig(before, middle) && SameAt(before, middle, CONFIG)
    ensures forall now :: SameOutside(middle, now, TemporaryConfig(stamp)) ==>
      SameButConfig(before, now) && SameAt(before, now, CONFIG)
  {
    ConfigNames(stamp);
    forall now | SameOutside(middle, now, TemporaryConfig(stamp)) ensures SameButConfig(before, now) && SameAt(before, now, CONFIG) {
      assert SameAt(middle, now, CONFIG);
      forall p | p != CONFIG && !(p != [] && CONFIG_PREFIX <= p[0]) ensures SameAt(before, now, p) {
        assert SameAt(before, middle, p) && SameAt(middle, now, p);
      }
    }
  }

  /** The names apart: configuration, marker, runtime and unpacked archives. */
  lemma NamesApart()
    ensures READY != CONFIG && !(CONFIG_PREFIX <= READY[0]) && !(CONFIG_PREFIX <= NODE[0])
    ensures !Unpacked(READY) && !Unpacked(CONFIG) && Apart(READY, NODE) && !(READY <= CONFIG) && !(NODE <= CONFIG)
    ensures CONFIG[0] != RUNTIMES && READY[0] != RUNTIMES
  {
    assert READY[0][0] == '.' && CONFIG[0][0] == 'm' && NODE[0][0] == 'r';
    assert READY[0][1] == 'm' && EXTRACT_PREFIX[1] == 'c' && READY[0][6] == 'r' && CONFIG_PREFIX[6] == 'l';
  }

  lemma SameOutsideItself(files: Files, root: Path)
    ensures SameOutside(files, files, root)
  {
  }

  lemma KeepsCef(library: Library, a: Files, b: Files, cef: string)
    requires CefInPlace(library, a, cef) && SameUnowned(a, b)
    ensures CefInPlace(library, b, cef)
  {
    hide Owned, Payload;
    forall p | p in Payload(CefTree(library, cef)) && !Owned(p) ensures p in b && b[p] == Payload(CefTree(library, cef))[p] {
      assert SameAt(a, b, p);
    }
  }

  lemma PlaceIs(library: Library, files: Files, cef: string, node: string)
    requires CefInPlace(library, files, cef) && Below(files, NODE) == NodeTree(library, node)
    ensures InPlace(library, files, cef, node)
  {
  }

  lemma CefBrought(library: Library, before: Files, cef: string)
    ensures CefInPlace(library, before + Payload(CefTree(library, cef)), cef)
  {
  }

  /** Where nothing is said by what was there and by what is brought, nothing is said in between. */
  lemma InstallingKeeps(before: Files, tree: Files)
    requires Unmarked(before)
    ensures forall now :: Installing(before, now, tree) ==> Filling(before, now, tree)
  {
    hide Pieces, ReadyContent, Owned;
    NamesApart();
    forall now | Installing(before, now, tree) ensures Filling(before, now, tree) {
      assert SameAt(before, now, READY) || (READY in now && Beginning(tree, READY, now[READY]));
      assert SameAt(before, now, CONFIG) || (CONFIG in now && Beginning(tree, CONFIG, now[CONFIG]));
      forall p | !Owned(p) && !Unpacked(p) ensures SameAt(before, now, p) || (p in now && Beginning(tree, p, now[p])) {}
    }
  }

  lemma RuntimeKeeps(before: Files, middle: Files, tree: Files, stamp: string)
    requires Filling(before, middle, tree)
    ensures forall now :: SameButRuntime(middle, now, stamp) ==> SameUnowned(middle, now) && Filling(before, now, tree)
  {
    hide Harmless, BringsNoMarker, BringsNoConfig, Changing, SameUnowned, Owned;
    NamesApart();
    forall now | SameButRuntime(middle, now, stamp) ensures SameUnowned(middle, now) && Filling(before, now, tree) {
      assert SameAt(middle, now, READY) && SameAt(middle, now, CONFIG);
      RuntimeUnowned(middle, now, stamp);
      StillChanging(before, middle, now, tree);
    }
  }

  lemma RuntimeUnowned(a: Files, b: Files, stamp: string)
    requires SameButRuntime(a, b, stamp)
    ensures SameUnowned(a, b)
  {
    hide Owned;
    forall p | !Owned(p) ensures SameAt(a, b, p) {
      RuntimeIsOwned(p, stamp);
    }
  }

  lemma StillChanging(before: Files, middle: Files, now: Files, tree: Files)
    requires Changing(before, middle, tree) && SameUnowned(middle, now)
    ensures Changing(before, now, tree)
  {
    hide Owned, Beginning;
    forall p | !Owned(p) && !Unpacked(p) ensures SameAt(before, now, p) || (p in now && Beginning(tree, p, now[p])) {
      assert SameAt(middle, now, p);
      assert SameAt(before, middle, p) || (p in middle && Beginning(tree, p, middle[p]));
    }
  }

  lemma NothingChanged(files: Files, tree: Files)
    ensures Changing(files, files, tree) && SameUnowned(files, files)
  {
    hide Owned, Beginning;
    forall p | !Owned(p) ensures SameAt(files, files, p) {}
  }

  /** Changes of the installer's own files alone do not count before what the CEF input brings, either. */
  lemma ChangingSince(before: Files, middle: Files, now: Files, tree: Files)
    requires SameUnowned(before, middle) && Changing(middle, now, tree)
    ensures Changing(before, now, tree)
  {
    hide Owned, Beginning;
    forall p | !Owned(p) && !Unpacked(p) ensures SameAt(before, now, p) || (p in now && Beginning(tree, p, now[p])) {
      assert SameAt(before, middle, p);
      assert SameAt(middle, now, p) || (p in now && Beginning(tree, p, now[p]));
    }
  }

  lemma RuntimeIsOwned(p: Path, stamp: string)
    requires !Owned(p)
    ensures !(TemporaryRoot(stamp) <= p) && !(NODE <= p) && !(BackupRoot(stamp) <= p)
  {
  }

  lemma NothingInstalled(stamp: string)
    ensures forall a, b :: SameOutside(a, b, NODE) ==> SameButRuntime(a, b, stamp)
  {
    forall a, b | SameOutside(a, b, NODE) ensures SameButRuntime(a, b, stamp) {
      forall p | !(TemporaryRoot(stamp) <= p) && !(NODE <= p) && !(BackupRoot(stamp) <= p) ensures SameAt(a, b, p) {}
    }
  }

  // ------------------------------------------------------- each phase can be resumed

  lemma NothingCleared(library: Library, before: Files, cef: string, node: string, config: string)
    ensures Resumable(library, before, before, cef, node, config) && KeepsConfig(before, before, CefTree(library, cef))
  {
    hide Vouched, Changing, ReadyContent, CText, IsFingerprint;
    NothingChanged(before, CefTree(library, cef));
  }

  /** A change beside the CEF files and the runtime leaves an installation in place. */
  lemma PlaceKept(library: Library, a: Files, b: Files, cef: string, node: string)
    requires InPlace(library, a, cef, node) && SameUnowned(a, b) && Below(b, NODE) == Below(a, NODE)
    ensures InPlace(library, b, cef, node)
  {
    hide SameUnowned, CefInPlace, Below;
    KeepsCef(library, a, b, cef);
  }

  lemma ConfigElsewhere(a: Files, b: Files)
    requires SameButConfig(a, b)
    ensures SameUnowned(a, b) && Below(b, NODE) == Below(a, NODE) && SameAt(a, b, READY)
  {
    NamesApart();
    forall p | NODE <= p ensures SameAt(b, a, p) {
      assert p[0] == NODE[0];
      assert SameAt(a, b, p);
    }
    SameBelow(b, a, NODE);
    forall p | !Owned(p) ensures SameAt(a, b, p) {}
  }

  lemma MarkerElsewhere(a: Files, b: Files)
    requires SameOutside(a, b, READY)
    ensures SameUnowned(a, b) && Below(b, NODE) == Below(a, NODE) && SameAt(a, b, CONFIG)
  {
    NamesApart();
    RemovalElsewhere(a, b, READY, NODE);
    forall p | !Owned(p) ensures SameAt(a, b, p) {}
  }

  lemma VouchedMeans(library: Library, files: Files, cef: string, node: string)
    requires Vouched(library, files) && IsFingerprint(cef) && IsFingerprint(node) && Marked(files, cef, node)
    ensures InPlace(library, files, cef, node)
  {
  }

  /** A harmless text is no marker. */
  lemma UnmarkedSaysNothing(library: Library, files: Files)
    requires Unmarked(files)
    ensures Vouched(library, files)
    ensures forall before, cef, node, config :: Announced(before, files, cef, node, config)
  {
    hide ReadyContent, CText, InPlace;
    if READY in files {
      CTextIs(files[READY]);
    }
  }

  /** While the old marker is removed it still vouches truly. */
  lemma ClearingIsResumable(library: Library, before: Files, cef: string, node: string, config: string)
    ensures forall now :: SameOutside(before, now, READY) && Part(now, before) ==>
      && Resumable(library, before, now, cef, node, config) && KeepsConfig(before, now, CefTree(library, cef))
      && SameAt(before, now, CONFIG) && SameUnowned(before, now)
  {
    hide ReadyContent, CText, InPlace, SameUnowned, SameOutside, BringsNoConfig, Changing;
    forall now | SameOutside(before, now, READY) && Part(now, before)
      ensures Resumable(library, before, now, cef, node, config) && KeepsConfig(before, now, CefTree(library, cef))
      ensures SameAt(before, now, CONFIG) && SameUnowned(before, now) {
      MarkerElsewhere(before, now);
      NothingChanged(before, CefTree(library, cef));
      StillChanging(before, before, now, CefTree(library, cef));
      forall cef', node' | IsFingerprint(cef') && IsFingerprint(node') && Marked(now, cef', node')
        ensures Marked(before, cef', node') && (Vouched(library, before) ==> InPlace(library, now, cef', node')) {
        assert Marked(before, cef', node');
        if Vouched(library, before) {
          PlaceKept(library, before, now, cef', node');
        }
      }
    }
  }

  lemma ClearedIsUnmarked(files: Files)
    requires Below(files, READY) == map[]
    ensures Unmarked(files)
  {
    NothingBelow(files, READY);
  }

  lemma InstallingIsResumable(library: Library, before: Files, cleared: Files, cef: string, node: string, config: string)
    requires SameAt(before, cleared, CONFIG) && SameUnowned(before, cleared)
    ensures forall now :: Filling(cleared, now, CefTree(library, cef)) ==>
      Resumable(library, before, now, cef, node, config) && Filling(before, now, CefTree(library, cef))
      && KeepsConfig(before, now, CefTree(library, cef))
  {
    hide Unmarked, Vouched, Announced, BringsNoMarker, BringsNoConfig, Changing, SameUnowned;
    forall now | Filling(cleared, now, CefTree(library, cef))
      ensures Resumable(library, before, now, cef, node, config) && Filling(before, now, CefTree(library, cef))
      && KeepsConfig(before, now, CefTree(library, cef)) {
      if BringsNoMarker(CefTree(library, cef)) {
        UnmarkedSaysNothing(library, now);
      }
      ChangingSince(before, cleared, now, CefTree(library, cef));
    }
  }

  lemma SavingIsResumable(library: Library, before: Files, installed: Files, cef: string, node: string, config: string)
    requires InPlace(library, installed, cef, node) && Filling(before, installed, CefTree(library, cef))
    ensures forall now :: SameButConfig(installed, now) ==>
      && (BringsNoMarker(CefTree(library, cef)) ==> Unmarked(now))
      && InPlace(library, now, cef, node) && Changing(before, now, CefTree(library, cef))
    ensures forall now :: SameButConfig(installed, now) && EitherConfig(installed, now, config) ==>
      Resumable(library, before, now, cef, node, config)
    ensures forall now :: SameAt(installed, now, CONFIG) ==> KeepsConfig(before, now, CefTree(library, cef))
  {
    hide Vouched, Announced, BringsNoMarker, BringsNoConfig, InPlace, SameUnowned, SameButConfig, Harmless, Changing;
    var quiet := BringsNoMarker(CefTree(library, cef));
    forall now | SameButConfig(installed, now)
      ensures (quiet ==> Unmarked(now)) && InPlace(library, now, cef, node) && Changing(before, now, CefTree(library, cef))
      ensures quiet ==> Vouched(library, now) && Announced(before, now, cef, node, config) {
      ConfigElsewhere(installed, now);
      PlaceKept(library, installed, now, cef, node);
      StillChanging(before, installed, now, CefTree(library, cef));
      if quiet {
        UnmarkedSaysNothing(library, now);
      }
    }
  }

  /** With the files in place already, only the configuration is written beside the marker. */
  lemma SavingKeepsMarker(library: Library, before: Files, cef: string, node: string, config: string)
    requires Marked(before, cef, node) && IsFingerprint(cef) && IsFingerprint(node)
    ensures Vouched(library, before) ==> InPlace(library, before, cef, node)
    ensures forall now :: SameButConfig(before, now) ==>
      Marked(now, cef, node) && (Vouched(library, before) ==> InPlace(library, now, cef, node) && Vouched(library, now))
    ensures forall now :: SameButConfig(before, now) && EitherConfig(before, now, config) ==>
      Resumable(library, before, now, cef, node, config)
    ensures forall now :: SameAt(before, now, CONFIG) ==> KeepsConfig(before, now, CefTree(library, cef))
  {
    hide ReadyContent, CText, BringsNoMarker, BringsNoConfig, InPlace, Vouched, SameUnowned, SameButConfig, Changing;
    NothingChanged(before, CefTree(library, cef));
    forall now | SameButConfig(before, now)
      ensures Marked(now, cef, node) && Announced(before, now, cef, node, config) && Changing(before, now, CefTree(library, cef)) {
      ConfigElsewhere(before, now);
      StillChanging(before, before, now, CefTree(library, cef));
    }
    if Vouched(library, before) {
      VouchedMeans(library, before, cef, node);
      forall now | SameButConfig(before, now) ensures InPlace(library, now, cef, node) && Vouched(library, now) {
        ConfigElsewhere(before, now);
        VouchedStays(library, before, now);
        VouchedMeans(library, now, cef, node);
      }
    }
  }

  lemma VouchedStays(library: Library, before: Files, now: Files)
    requires Vouched(library, before) && SameUnowned(before, now) && Below(now, NODE) == Below(before, NODE) && SameAt(before, now, READY)
    ensures Vouched(library, now)
  {
    hide ReadyContent, CText, InPlace, SameUnowned;
    forall cef, node | IsFingerprint(cef) && IsFingerprint(node) && Marked(now, cef, node) ensures InPlace(library, now, cef, node) {
      VouchedMeans(library, before, cef, node);
      PlaceKept(library, before, now, cef, node);
    }
  }

  /** While the new marker is written it says nothing until it is complete. */
  lemma MarkingIsResumable(library: Library, before: Files, written: Files, cef: string, node: string, config: string)
    requires BringsNoMarker(CefTree(library, cef)) ==> Unmarked(written)
    requires InPlace(library, written, cef, node) && HasConfig(written, config) && IsFingerprint(cef) && IsFingerprint(node)
    requires Changing(before, written, CefTree(library, cef))
    ensures CText(ReadyContent(cef, node)) == ReadyContent(cef, node)
    ensures forall now :: Writing(written, now, READY, ReadyContent(cef, node)) ==>
      Resumable(library, before, now, cef, node, config) && InPlace(library, now, cef, node) && HasConfig(now, config)
  {
    hide ReadyContent, CText, BringsNoMarker, BringsNoConfig, InPlace, SameUnowned, Vouched, Announced, Unmarked, Changing;
    ReadyIsText(cef, node);
    if BringsNoMarker(CefTree(library, cef)) {
      MarkingIsVouched(library, written, cef, node);
    }
    forall now | Writing(written, now, READY, ReadyContent(cef, node))
      ensures InPlace(library, now, cef, node) && HasConfig(now, config) && Changing(before, now, CefTree(library, cef))
      ensures BringsNoMarker(CefTree(library, cef)) ==> Announced(before, now, cef, node, config) {
      WritingElsewhere(written, now, ReadyContent(cef, node));
      PlaceKept(library, written, now, cef, node);
      StillChanging(before, written, now, CefTree(library, cef));
      if BringsNoMarker(CefTree(library, cef)) {
        WritingAnnounces(library, before, written, now, cef, node, config);
      }
    }
  }

  lemma MarkingIsVouched(library: Library, written: Files, cef: string, node: string)
    requires Unmarked(written) && InPlace(library, written, cef, node) && IsFingerprint(cef) && IsFingerprint(node)
    ensures forall now :: Writing(written, now, READY, ReadyContent(cef, node)) ==> Vouched(library, now)
  {
    hide ReadyContent, InPlace, Vouched, Unmarked, Writing;
    forall cef', node' | IsFingerprint(cef') && IsFingerprint(node') && ReadyContent(cef', node') <= ReadyContent(cef, node)
      ensures InPlace(library, written, cef', node') {
      ReadyDecides(cef', node', cef, node);
    }
    WritingIsVouchedExactly(library, written, ReadyContent(cef, node));
  }

  /** The complete marker of what is in place is true, whatever was there before. */
  lemma NewMarkerVouches(library: Library, files: Files, cef: string, node: string)
    requires InPlace(library, files, cef, node) && Marked(files, cef, node) && IsFingerprint(cef) && IsFingerprint(node)
    ensures Vouched(library, files)
  {
    hide ReadyContent, CText, InPlace;
    forall cef', node' | IsFingerprint(cef') && IsFingerprint(node') && Marked(files, cef', node')
      ensures InPlace(library, files, cef', node') {
      ReadyDecides(cef', node', cef, node);
    }
  }

  lemma WritingAnnounces(library: Library, before: Files, written: Files, now: Files, cef: string, node: string, config: string)
    requires Unmarked(written) && HasConfig(now, config) && IsFingerprint(cef) && IsFingerprint(node)
    requires Writing(written, now, READY, ReadyContent(cef, node))
    ensures Announced(before, now, cef, node, config)
  {
    hide ReadyContent, CText, Unmarked;
    if now == written {
      UnmarkedSaysNothing(library, now);
    } else {
      CTextIs(now[READY]);
      forall cef', node' | IsFingerprint(cef') && IsFingerprint(node') && Marked(now, cef', node') ensures cef' == cef && node' == node {
        ReadyDecides(cef', node', cef, node);
      }
    }
  }

  lemma WritingElsewhere(before: Files, now: Files, text: string)
    requires Writing(before, now, READY, text)
    ensures SameUnowned(before, now) && Below(now, NODE) == Below(before, NODE) && SameAt(before, now, CONFIG)
  {
    assert SameOutside(before, now, READY);
    MarkerElsewhere(before, now);
  }

  // ---------------------------------------------- what may be written as the marker

  /**
   On a disk without a marker, a text can be written at the marker's path, and stopped
   anywhere, exactly when every marker that begins it is true of the disk.
   */
  lemma WritingIsVouchedExactly(library: Library, before: Files, text: string)
    requires Unmarked(before)
    ensures (forall now | Writing(before, now, READY, text) :: Vouched(library, now))
       <==> forall cef, node | IsFingerprint(cef) && IsFingerprint(node) && ReadyContent(cef, node) <= text ::
              InPlace(library, before, cef, node)
  {
    hide ReadyContent, CText, InPlace, SameUnowned, Unmarked;
    if forall now | Writing(before, now, READY, text) :: Vouched(library, now) {
      forall cef, node | IsFingerprint(cef) && IsFingerprint(node) && ReadyContent(cef, node) <= text
        ensures InPlace(library, before, cef, node) {
        var now := before[READY := ReadyContent(cef, node)];
        assert Writing(before, now, READY, text);
        ReadyIsText(cef, node);
        VouchedMeans(library, now, cef, node);
        WritingElsewhere(before, now, text);
        PlaceKept(library, now, before, cef, node) by { SameBothWays(before, now); }
      }
    }
    if forall cef, node | IsFingerprint(cef) && IsFingerprint(node) && ReadyContent(cef, node) <= text ::
              InPlace(library, before, cef, node) {
      forall now | Writing(before, now, READY, text) ensures Vouched(library, now) {
        if now == before {
          UnmarkedSaysNothing(library, before);
        } else {
          BeginningIsVouched(library, before, now, text);
        }
      }
    }
  }

  lemma SameBothWays(a: Files, b: Files)
    requires SameUnowned(a, b)
    ensures SameUnowned(b, a)
  {
    hide Owned;
    forall p | !Owned(p) ensures SameAt(b, a, p) { assert SameAt(a, b, p); }
  }

  lemma BeginningIsVouched(library: Library, before: Files, now: Files, text: string)
    requires Writing(before, now, READY, text) && now != before
    requires forall cef, node | IsFingerprint(cef) && IsFingerprint(node) && ReadyContent(cef, node) <= text ::
              InPlace(library, before, cef, node)
    ensures Vouched(library, now)
  {
    hide ReadyContent, CText, InPlace, SameUnowned;
    CTextIs(now[READY]);
    WritingElsewhere(before, now, text);
    forall cef, node | IsFingerprint(cef) && IsFingerprint(node) && Marked(now, cef, node) ensures InPlace(library, now, cef, node) {
      PlaceKept(library, before, now, cef, node);
    }
  }

  /**
   Whatever the disk holds, a text can be written at the marker's path and stopped anywhere
   exactly when no marker is a beginning of it.
   */
  lemma HarmlessExactly(library: Library, text: string)
    ensures (forall before, now | READY !in before && Writing(before, now, READY, text) :: Vouched(library, now)) <==> Harmless(text)
  {
    hide ReadyContent, Vouched, Writing;
    if Harmless(text) {
      forall before, now | READY !in before && Writing(before, now, READY, text) ensures Vouched(library, now) {
        WritingIsVouchedExactly(library, before, text);
      }
    } else {
      var cef, node :| IsFingerprint(cef) && IsFingerprint(node) && ReadyContent(cef, node) <= text;
      var before: Files := if NodeTree(library, node) == map[] then map[NODE := ""] else map[];
      NothingBelow(before, NODE);
      if NodeTree(library, node) == map[] {
        assert NODE in before && NODE <= NODE;
      }
      assert !InPlace(library, before, cef, node);
      WritingIsVouchedExactly(library, before, text);
    }
  }

  const FIRST := Repeated('a', 64)
  const SECOND := Repeated('b', 64)

  const LIBRARY: Path := ["libcef.so"]

  /** A CEF input that is nothing but a marker for another. */
  const FORGING := Library(
    text => if text == FIRST then [(READY, ReadyContent(SECOND, EMPTY_FINGERPRINT))] else [(LIBRARY, "")],
    text => if text == EMPTY_FINGERPRINT then None else Some([]))

  /** Why no input may bring a marker: bringing this one onto an empty disk leaves a marker for files that are not there. */
  lemma ForgedMarkerDeceives()
    ensures forall text :: FORGING.node(text).None? <==> text == EMPTY_FINGERPRINT
    ensures IsFingerprint(FIRST) && !BringsNoMarker(CefTree(FORGING, FIRST))
    ensures !Vouched(FORGING, map[] + Payload(CefTree(FORGING, FIRST)))
  {
    hide ReadyContent, CText, IsFingerprint, Tree, Payload, Pieces, Below, NodeTree;
    EmptyIsFingerprint();
    SamplesAreFingerprints();
    var marker := ReadyContent(SECOND, EMPTY_FINGERPRINT);
    OneFile(READY, marker);
    var after: Files := map[READY := marker];
    assert map[] + Payload(CefTree(FORGING, FIRST)) == after;
    assert after in Pieces(CefTree(FORGING, FIRST));
    ReadyIsText(SECOND, EMPTY_FINGERPRINT);
    LibraryMissing(after);
    if Vouched(FORGING, after) {
      VouchedMeans(FORGING, after, SECOND, EMPTY_FINGERPRINT);
    }
  }

  lemma LibraryMissing(files: Files)
    requires LIBRARY !in files
    ensures !CefInPlace(FORGING, files, SECOND)
  {
    hide Tree, Payload, Pieces, Below, ReadyContent, Owned, LIBRARY;
    SamplesAreFingerprints();
    LibraryIsUnowned();
    OneFile(LIBRARY, "");
    assert LIBRARY in Payload(CefTree(FORGING, SECOND));
  }

  lemma LibraryIsUnowned()
    ensures !Owned(LIBRARY) && LIBRARY != [] && LIBRARY[0] != RELEASE[0] && LIBRARY[0] != RESOURCES[0]
  {
    assert LIBRARY[0][0] == 'l';
  }

  lemma SamplesAreFingerprints()
    ensures IsFingerprint(FIRST) && IsFingerprint(SECOND) && FIRST != SECOND
  {
    assert FIRST[0] == 'a' && SECOND[0] == 'b';
  }

  /** An input with one file that is not in Release or Resources brings that file. */
  lemma OneFile(p: Path, text: string)
    requires p != [] && p[0] != RELEASE[0] && p[0] != RESOURCES[0]
    ensures Tree([(p, text)]) == map[p := text]
    ensures Payload(map[p := text]) == map[p := text] && Pieces(map[p := text]) == [map[p := text]]
  {
    hide Below, Tree;
    OneEntry(p, text);
    NothingBelow(map[p := text], RELEASE);
    NothingBelow(map[p := text], RESOURCES);
  }

  lemma OneEntry(p: Path, text: string)
    ensures Tree([(p, text)]) == map[p := text]
  {
    assert [] + p == p;
    var entries := [(p, text)];
    var none: Files := map[];
    assert Overlay(none, [], entries[..0]) == none;
    assert none[p := text] == map[p := text];
  }
}
