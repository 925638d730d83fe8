/**
 The directory lock of builder/src/common.c as a state machine: processes that create the
 lock directory, write their process id into it, wait, reclaim a stale lock, release, fail
 and crash.  Reading and removing a stale lock is one step; any of its reads may fail.
 */
module Lock {
  import opened Common
  import opened Text
  import opened Decimal

  const STALE_SECONDS: nat := 30
  const INT_MAX: nat := 0x7FFF_FFFF

  // ---------------------------------------------------------- the owner file

  /** strtol in base 10 and the checks on its result: a positive int, only blanks after it. */
  function ParseOwner(content: string): Option<nat> {
    var s := TrimLeft(content);
    var t := if s != [] && (s[0] == '+' || s[0] == '-') then s[1..] else s;
    var n := DigitCount(t);
    if n == 0 || TrimLeft(t[n..]) != [] then None
    else if s[0] == '-' || Value(t[..n]) == 0 || Value(t[..n]) > INT_MAX then None
    else Some(Value(t[..n]))
  }

  function OwnerContent(pid: nat): string { Numeral(pid) + "\n" }

  /** A process id written to the owner file is read back. */
  lemma OwnerRoundTrip(pid: nat)
    requires 0 < pid <= INT_MAX
    ensures ParseOwner(OwnerContent(pid)) == Some(pid)
    ensures ParseOwner([]) == None
  {
    var s := OwnerContent(pid);
    ValueOfNumeral(pid);
    assert TrimLeft(s) == s;
    DigitsOfNumeral(Numeral(pid), "\n");
    assert s[..|Numeral(pid)|] == Numeral(pid) && s[|Numeral(pid)|..] == "\n";
    assert "\n"[1..] == [];
  }

  lemma {:induction false} DigitsOfNumeral(s: string, rest: string)
    requires AllDigits(s) && (rest == [] || !IsDigit(rest[0]))
    ensures DigitCount(s + rest) == |s|
  {
    if s == [] {
      assert s + rest == rest;
    } else {
      assert (s + rest)[1..] == s[1..] + rest;
      DigitsOfNumeral(s[1..], rest);
    }
  }

  /** Blanks, perhaps a plus sign, digits and blanks, and the value is a positive int. */
  predicate OwnerText(content: string, i: nat, signed: bool, j: nat, pid: nat) {
    var k := if signed then i + 1 else i;
    && k < j <= |content|
    && Blank(content[..i]) && (signed ==> content[i] == '+')
    && AllDigits(content[k..j]) && Value(content[k..j]) == pid && 0 < pid <= INT_MAX
    && Blank(content[j..])
  }

  /** An owner file names a process exactly when it has that form. */
  lemma OwnerExact(content: string, pid: nat)
    ensures ParseOwner(content) == Some(pid) <==> exists i: nat, signed, j: nat :: OwnerText(content, i, signed, j, pid)
  {
    if ParseOwner(content) == Some(pid) {
      OwnerHasForm(content, pid);
    }
    if i: nat, signed, j: nat :| OwnerText(content, i, signed, j, pid) {
      FormIsOwner(content, i, signed, j, pid);
    }
  }

  lemma OwnerHasForm(content: string, pid: nat)
    requires ParseOwner(content) == Some(pid)
    ensures exists i: nat, signed, j: nat :: OwnerText(content, i, signed, j, pid)
  {
    hide TrimLeft, Value, Blank, AllDigits, IsSpace, DigitCount;
    TrimLeftMeans(content);
    var s := TrimLeft(content);
    var i := |content| - |s|;
    var signed := s[0] == '+' || s[0] == '-';
    var k := if signed then i + 1 else i;
    var t := content[k..];
    assert t == if signed then s[1..] else s;
    var n := DigitCount(t);
    var j := k + n;
    assert content[k..j] == t[..n] && content[j..] == t[n..];
    TrimLeftMeans(t[n..]);
    assert t[n..][..|t[n..]|] == t[n..];
    assert AllDigits(t[..n]);
    assert OwnerText(content, i, signed, j, pid);
  }

  lemma FormIsOwner(content: string, i: nat, signed: bool, j: nat, pid: nat)
    requires OwnerText(content, i, signed, j, pid)
    ensures ParseOwner(content) == Some(pid)
  {
    hide TrimLeft, Value, Blank, DigitCount;
    var k := if signed then i + 1 else i;
    var (t, rest) := (content[k..], content[j..]);
    assert IsDigit(content[k]) by { assert content[k] == content[k..j][0]; }
    assert !IsSpace(content[i]);
    TrimLeftAt(content, i);
    assert t == if signed then content[i..][1..] else content[i..];
    DigitsThenBlanks(content, k, j);
    assert TrimLeft(rest) == [] by { AllBlank(rest); }
  }

  lemma DigitsThenBlanks(content: string, k: nat, j: nat)
    requires k < j <= |content| && AllDigits(content[k..j]) && Blank(content[j..])
    ensures DigitCount(content[k..]) == j - k
    ensures content[k..][..j - k] == content[k..j] && content[k..][j - k..] == content[j..]
  {
    hide DigitCount;
    var t := content[k..];
    forall m | 0 <= m < j - k ensures IsDigit(t[m]) { assert t[m] == content[k..j][m]; }
    if j < |content| { assert content[j..][0] in content[j..] && t[j - k] == content[j]; }
    DigitCountIs(t, j - k);
  }

  lemma AllBlank(s: string)
    requires Blank(s)
    ensures TrimLeft(s) == []
  {
    assert s[..|s|] == s && s[|s|..] == [];
    TrimLeftAt(s, |s|);
  }

  // ------------------------------------------------------------ the directory

  /** The owner file: missing, or holding some content. */
  datatype Owner = NoFile | File(content: string)

  /** The lock directory: its owner file, whether it has other entries, and when its entries last changed. */
  datatype Directory = Absent | Present(owner: Owner, others: bool, modified: nat)

  /** Which of a waiter's reads succeed: the owner file's, the directory's age and its listing. */
  datatype Readable = Readable(owner: bool, age: bool, listing: bool)

  datatype Decision = Wait | Remove | Fail

  function Age(now: nat, modified: nat): nat {
    if now > modified then now - modified else 0
  }

  /** The process a waiter finds named in the directory. */
  function NamedOwner(owner: Owner, seen: Readable): Option<nat> {
    if owner.File? && seen.owner then ParseOwner(owner.content) else None
  }

  /**
   Whether a waiter removes the directory it found.  An owner file that cannot be read counts
   like one that names nobody; a directory without one is removed only if it is empty.
   */
  function Judge(d: Directory, now: nat, alive: set<nat>, seen: Readable): Decision
    requires d.Present?
  {
    match NamedOwner(d.owner, seen)
    case Some(pid) => if pid in alive then Wait else Remove
    case None =>
      if !seen.age then Fail
      else if Age(now, d.modified) < STALE_SECONDS then Wait
      else if d.owner.File? then Remove
      else if !seen.listing then Fail
      else if d.others then Wait
      else Remove
  }

  /** What one removal can leave: nothing, or, when it fails part way, some of the entries. */
  predicate Removed(before: Directory, after: Directory, now: nat, ok: bool)
    requires before.Present?
  {
    if ok then after == Absent
    else
      && after.Present? && (after.owner == before.owner || after.owner == NoFile) && (after.others ==> before.others)
      && after.modified == if after.owner == before.owner && after.others == before.others then before.modified else now
  }

  /** The lock directory as one process sees it. */
  class LockDirectory {
    var directory: Directory

    /** A positive result gives the process id, zero means no owner file, a negative one an unusable file. */
    method ReadLockOwnerPid(seen: Readable) returns (result: int, pid: nat)
      requires directory.Present?
      ensures NamedOwner(directory.owner, seen) == if result > 0 then Some(pid) else None
      ensures result == 0 <==> directory.owner == NoFile
    {
      pid := 0;
      if directory.owner == NoFile {
        return 0, pid;
      }
      if !seen.owner {
        return -1, pid;
      }
      var value := ParseOwner(directory.owner.content);
      if value.None? {
        return -1, pid;
      }
      return 1, value.value;
    }

    /**
     Reads the owner and removes a stale lock: 1 when removed, 0 to wait, -1 on failure.
     The file system decides which reads succeed, whether the removal does and what a failed
     one leaves.
     */
    method TryReclaimStaleLock(alive: set<nat>, now: nat, seen: Readable, removalWorks: bool, fileGone: bool, othersGone: bool)
      returns (result: int)
      requires directory.Present?
      modifies this
      ensures match Judge(old(directory), now, alive, seen)
              case Wait => result == 0 && directory == old(directory)
              case Fail => result == -1 && directory == old(directory)
              case Remove => result == (if removalWorks then 1 else -1) && Removed(old(directory), directory, now, removalWorks)
    {
      var ownerResult, ownerPid := ReadLockOwnerPid(seen);
      if ownerResult > 0 {
        if ownerPid in alive {
          return 0;
        }
        result := RemoveRecursive(now, removalWorks, fileGone, othersGone);
        return;
      }
      if !seen.age {
        return -1;
      }
      var age := if now > directory.modified then now - directory.modified else 0;
      if age < STALE_SECONDS {
        return 0;
      }
      if ownerResult == 0 {
        if !seen.listing {
          return -1;
        }
        if directory.others {
          return 0;
        }
      }
      result := RemoveRecursive(now, removalWorks, fileGone, othersGone);
    }

    method RemoveRecursive(now: nat, works: bool, fileGone: bool, othersGone: bool) returns (result: int)
      requires directory.Present?
      modifies this
      ensures result == (if works then 1 else -1) && Removed(old(directory), directory, now, works)
    {
      if works {
        directory := Absent;
        return 1;
      }
      if (fileGone && directory.owner.File?) || (othersGone && directory.others) {
        directory := Present(if fileGone then NoFile else directory.owner, directory.others && !othersGone, now);
      }
      return -1;
    }
  }

  // --------------------------------------------------------- the state machine

  /**
   Where a process stands.  Made: its mkdir succeeded.  Opened: its owner file exists, still
   empty.  Holding: acquired.  Leaving: undoing or releasing, the directory still its own.
   */
  datatype Place = Outside | Trying | Made | Opened | Holding | Leaving

  datatype State = State(directory: Directory, now: nat, places: map<nat, Place>, alive: set<nat>)

  predicate ValidPid(p: nat) { 0 < p <= INT_MAX }

  /** The process is alive and the directory is its own. */
  predicate Owns(s: State, p: nat) {
    p in s.alive && p in s.places && s.places[p] !in {Outside, Trying}
  }

  ghost predicate Init(s: State) {
    && s.alive == s.places.Keys && (forall p | p in s.places :: ValidPid(p) && s.places[p] == Outside)
  }

  function Move(s: State, p: nat, place: Place, directory: Directory): State {
    s.(places := s.places[p := place], directory := directory)
  }

  predicate At(s: State, p: nat, place: Place) {
    p in s.alive && p in s.places && s.places[p] == place
  }

  datatype Step =
    | Begin(p: nat)
    | Mkdir(p: nat)
    | MkdirFails(p: nat)
    | Reclaim(p: nat, seen: Readable, after: Directory, ok: bool)
    | KeepWaiting(p: nat, seen: Readable)
    | ReclaimFails(p: nat, seen: Readable)
    | CreateOwner(p: nat)
    | WriteOwner(p: nat)
    | WriteFails(p: nat)
    | Leave(p: nat)
    | UnlinkOwner(p: nat)
    | Rmdir(p: nat)
    | GiveUp(p: nat)
    | Crash(p: nat)
    | Tick

  ghost predicate Next(s: State, s': State, step: Step) {
    match step
    case Begin(p) => At(s, p, Outside) && s' == Move(s, p, Trying, s.directory)
    // mkdir creates the directory only where there is none
    case Mkdir(p) => At(s, p, Trying) && s.directory == Absent && s' == Move(s, p, Made, Present(NoFile, false, s.now))
    case MkdirFails(p) => At(s, p, Trying) && s' == Move(s, p, Outside, s.directory)
    case Reclaim(p, seen, after, ok) =>
      && At(s, p, Trying) && s.directory.Present? && Judge(s.directory, s.now, s.alive, seen) == Remove
      && Removed(s.directory, after, s.now, ok)
      && s' == Move(s, p, if ok then Trying else Outside, after)
    case KeepWaiting(p, seen) =>
      At(s, p, Trying) && s.directory.Present? && Judge(s.directory, s.now, s.alive, seen) == Wait && s' == s
    case ReclaimFails(p, seen) =>
      && At(s, p, Trying) && s.directory.Present? && Judge(s.directory, s.now, s.alive, seen) == Fail
      && s' == Move(s, p, Outside, s.directory)
    // opening the owner file for writing creates it empty and touches the directory
    case CreateOwner(p) =>
      At(s, p, Made) && s.directory.Present? && s' == Move(s, p, Opened, Present(File([]), s.directory.others, s.now))
    case WriteOwner(p) =>
      At(s, p, Opened) && s.directory.Present? && s' == Move(s, p, Holding, s.directory.(owner := File(OwnerContent(p))))
    // a failed write removes the lock again
    case WriteFails(p) => (At(s, p, Made) || At(s, p, Opened)) && s' == Move(s, p, Leaving, s.directory)
    case Leave(p) => At(s, p, Holding) && s' == Move(s, p, Leaving, s.directory)
    case UnlinkOwner(p) =>
      At(s, p, Leaving) && s.directory.Present? && s.directory.owner.File?
      && s' == Move(s, p, Leaving, Present(NoFile, s.directory.others, s.now))
    case Rmdir(p) =>
      At(s, p, Leaving) && s.directory.Present? && s.directory.owner == NoFile && !s.directory.others
      && s' == Move(s, p, Outside, Absent)
    // an unlink or rmdir that fails leaves the directory behind
    case GiveUp(p) => At(s, p, Leaving) && s' == Move(s, p, Outside, s.directory)
    case Crash(p) => p in s.alive && s' == s.(alive := s.alive - {p})
    case Tick => s' == s.(now := s.now + 1)
  }

  /**
   No waiter finds a live process's own directory 30 seconds old without making out its owner:
   the process has written its id by then, and the waiter's read of it succeeds.
   */
  ghost predicate Timely(s: State, step: Step) {
    step.Reclaim? && s.directory.Present? && NamedOwner(s.directory.owner, step.seen).None? ==>
      forall p | Owns(s, p) :: Age(s.now, s.directory.modified) < STALE_SECONDS
  }

  /** The directory a process owns says so, as far as the process has come. */
  predicate Matches(place: Place, owner: Owner, p: nat) {
    match place
    case Made => owner == NoFile
    case Opened => owner == File([])
    case Holding => owner == File(OwnerContent(p))
    case Leaving => owner == NoFile || owner == File([]) || owner == File(OwnerContent(p))
    case _ => true
  }

  ghost predicate Inv(s: State) {
    && s.alive <= s.places.Keys && (forall p | p in s.places :: ValidPid(p))
    && (forall p | Owns(s, p) :: s.directory.Present? && Matches(s.places[p], s.directory.owner, p) && !s.directory.others)
    && (forall p, q | Owns(s, p) && Owns(s, q) :: p == q)
  }

  /** A directory that can be read to name a process is stale exactly when that process is dead, however old it is. */
  lemma NamedOwnerDecides(p: nat, others: bool, modified: nat, now: nat, alive: set<nat>, seen: Readable)
    requires ValidPid(p) && seen.owner
    ensures Judge(Present(File(OwnerContent(p)), others, modified), now, alive, seen) == if p in alive then Wait else Remove
  {
    OwnerRoundTrip(p);
  }

  /**
   A live owner's directory is judged stale exactly when the waiter makes out no owner in it
   and finds it 30 seconds old.
   */
  lemma LiveOwnerIsKept(s: State, p: nat, seen: Readable)
    requires Inv(s) && Owns(s, p)
    ensures s.directory.Present?
    ensures Judge(s.directory, s.now, s.alive, seen) == Remove
       <==> && NamedOwner(s.directory.owner, seen).None? && seen.age && Age(s.now, s.directory.modified) >= STALE_SECONDS
            && (s.directory.owner == NoFile ==> seen.listing)
  {
    OwnerRoundTrip(p);
  }

  /**
   Any directory is removed exactly when it names a dead process; or names nobody, was last
   changed at least 30 seconds ago, and has an owner file or nothing at all in it.
   */
  lemma StaleExactly(owner: Owner, others: bool, modified: nat, now: nat, alive: set<nat>, seen: Readable)
    ensures Judge(Present(owner, others, modified), now, alive, seen) == Remove <==>
      match NamedOwner(owner, seen)
      case Some(pid) => pid !in alive
      case None => seen.age && modified + 30 <= now && (owner.File? || (seen.listing && !others))
    ensures Judge(Present(owner, others, modified), now, alive, seen) == Fail
       <==> NamedOwner(owner, seen).None? && (!seen.age || (modified + 30 <= now && !owner.File? && !seen.listing))
  {
  }

  lemma InitInv(s: State)
    requires Init(s)
    ensures Inv(s)
  {}

  /** The process a step belongs to. */
  function Actor(step: Step): Option<nat> {
    if step.Tick? then None else Some(step.p)
  }

  /** Only the owner acts on an owned directory; others leave it and its owner alone. */
  lemma OthersKeepOff(s: State, s': State, step: Step, q: nat)
    requires Inv(s) && Timely(s, step) && Next(s, s', step) && Owns(s, q) && Actor(step) != Some(q)
    ensures s'.directory == s.directory && Owns(s', q) && s'.places[q] == s.places[q]
    ensures Actor(step).Some? ==> !Owns(s', Actor(step).value)
  {
    hide ParseOwner, OwnerContent, Judge, NamedOwner;
    if step.Reclaim? {
      LiveOwnerIsKept(s, q, step.seen);
    }
    if Actor(step).Some? { assert !Owns(s, Actor(step).value); }
  }

  lemma NextInv(s: State, s': State, step: Step)
    requires Inv(s) && Timely(s, step) && Next(s, s', step)
    ensures Inv(s')
  {
    hide ParseOwner, OwnerContent, Judge, NamedOwner, Timely;
    forall q: nat | Owns(s', q)
      ensures s'.directory.Present? && Matches(s'.places[q], s'.directory.owner, q) && !s'.directory.others
    {
      if Actor(step) != Some(q) { OthersKeepOff(s, s', step, q); }
    }
    forall q: nat, r: nat | Owns(s', q) && Owns(s', r)
      ensures q == r
    {
      if Actor(step) != Some(q) { OthersKeepOff(s, s', step, q); }
      if Actor(step) != Some(r) { OthersKeepOff(s, s', step, r); }
    }
  }

  /** Consecutive states are joined by steps. */
  ghost predicate Path(states: seq<State>, steps: seq<Step>) {
    |states| == |steps| + 1 && forall i | 0 <= i < |steps| :: Next(states[i], states[i + 1], steps[i])
  }

  ghost predicate Run(run: seq<State>, steps: seq<Step>) {
    && Path(run, steps) && Init(run[0])
    && (forall i | 0 <= i < |steps| :: Timely(run[i], steps[i]))
  }

  lemma {:induction false} RunInv(run: seq<State>, steps: seq<Step>, i: nat)
    requires Run(run, steps) && i < |run|
    ensures Inv(run[i])
  {
    if i == 0 {
      InitInv(run[0]);
    } else {
      RunInv(run, steps, i - 1);
      NextInv(run[i - 1], run[i], steps[i - 1]);
    }
  }

  /** In every run, at most one live process is between acquiring and releasing. */
  lemma MutualExclusion(run: seq<State>, steps: seq<Step>, i: nat, p: nat, q: nat)
    requires Run(run, steps) && i < |run|
    requires At(run[i], p, Holding) && At(run[i], q, Holding)
    ensures p == q
  {
    RunInv(run, steps, i);
    assert Owns(run[i], p) && Owns(run[i], q);
  }

  /** In every run, a lock held by a live process stays until that process itself leaves or crashes. */
  lemma LiveLockStays(run: seq<State>, steps: seq<Step>, i: nat, p: nat)
    requires Run(run, steps) && i < |steps| && At(run[i], p, Holding)
    requires steps[i] != Leave(p) && steps[i] != Crash(p)
    ensures At(run[i + 1], p, Holding)
    ensures run[i].directory.Present? && run[i + 1].directory == run[i].directory
  {
    hide ParseOwner, OwnerContent, Judge;
    RunInv(run, steps, i);
    if Actor(steps[i]) != Some(p) { OthersKeepOff(run[i], run[i + 1], steps[i], p); }
  }

  /**
   Wherever its owner crashed, the directory left behind is judged stale once 30 seconds
   have passed, whoever else is alive.
   */
  lemma CrashIsReclaimable(run: seq<State>, steps: seq<Step>, i: nat, p: nat, now: nat, alive: set<nat>, seen: Readable)
    requires Run(run, steps) && i < |steps| && steps[i] == Crash(p) && Owns(run[i], p)
    requires p !in alive && seen.age && seen.listing
    requires run[i].directory.Present? ==> now >= run[i].directory.modified + STALE_SECONDS
    ensures run[i + 1].directory.Present? && run[i + 1].directory == run[i].directory
    ensures Judge(run[i + 1].directory, now, alive, seen) == Remove
  {
    hide OwnerContent;
    RunInv(run, steps, i);
    OwnerRoundTrip(p);
  }

  // ------------------------------------------------------------ paths step by step

  lemma Begins(s: State, p: nat)
    requires At(s, p, Outside)
    ensures Next(s, Move(s, p, Trying, s.directory), Begin(p))
  {
  }

  lemma Makes(s: State, p: nat)
    requires At(s, p, Trying) && s.directory == Absent
    ensures Next(s, Move(s, p, Made, Present(NoFile, false, s.now)), Mkdir(p))
  {
  }

  lemma Creates(s: State, p: nat)
    requires At(s, p, Made) && s.directory.Present?
    ensures Next(s, Move(s, p, Opened, Present(File([]), s.directory.others, s.now)), CreateOwner(p))
  {
  }

  lemma Writes(s: State, p: nat)
    requires At(s, p, Opened) && s.directory.Present?
    ensures Next(s, Move(s, p, Holding, s.directory.(owner := File(OwnerContent(p)))), WriteOwner(p))
  {
  }

  lemma Reclaims(s: State, p: nat, seen: Readable)
    requires At(s, p, Trying) && s.directory.Present? && Judge(s.directory, s.now, s.alive, seen) == Remove
    ensures Next(s, Move(s, p, Trying, Absent), Reclaim(p, seen, Absent, true))
  {
  }

  predicate NoReclaim(steps: seq<Step>) { forall step | step in steps :: !step.Reclaim? }

  lemma Extended(states: seq<State>, steps: seq<Step>, step: Step, next: State)
    requires Path(states, steps) && Next(states[|steps|], next, step)
    ensures Path(states + [next], steps + [step])
  {
    hide Next;
  }

  lemma Joined(a: seq<State>, x: seq<Step>, b: seq<State>, y: seq<Step>)
    requires Path(a, x) && Path(b, y) && a[|a| - 1] == b[0]
    ensures Path(a + b[1..], x + y) && (a + b[1..])[|x| + |y|] == b[|y|] && (a + b[1..])[0] == a[0]
    ensures forall i | 0 <= i <= |x| :: (a + b[1..])[i] == a[i]
  {
    hide Next;
    var states, steps := a + b[1..], x + y;
    forall i | 0 <= i < |steps| ensures Next(states[i], states[i + 1], steps[i]) {
      if i < |x| {
        assert Next(a[i], a[i + 1], x[i]);
      } else {
        assert Next(b[i - |x|], b[i - |x| + 1], y[i - |x|]);
      }
    }
  }

  lemma {:induction false} TimePasses(s: State, n: nat) returns (states: seq<State>, steps: seq<Step>)
    ensures Path(states, steps) && NoReclaim(steps) && states[0] == s && states[|steps|] == s.(now := s.now + n)
  {
    if n == 0 {
      states, steps := [s], [];
    } else {
      states, steps := TimePasses(s, n - 1);
      var last := states[|steps|];
      var next := last.(now := last.now + 1);
      Extended(states, steps, Tick, next);
      states, steps := states + [next], steps + [Tick];
    }
  }

  /** A path that begins with a process taking away the directory, on what it has seen of it. */
  ghost predicate Takes(states: seq<State>, steps: seq<Step>, p: nat, seen: Readable) {
    Path(states, steps) && steps != [] && steps[0] == Reclaim(p, seen, Absent, true) && NoReclaim(steps[1..])
  }

  predicate OwnSteps(steps: seq<Step>, p: nat) { forall step | step in steps :: Actor(step) == Some(p) }

  /** From a directory it judges stale a waiting process gets to hold the lock by its own steps. */
  lemma WaiterGetsStaleLock(s: State, p: nat, seen: Readable) returns (states: seq<State>, steps: seq<Step>)
    requires At(s, p, Trying) && s.directory.Present? && Judge(s.directory, s.now, s.alive, seen) == Remove
    ensures Takes(states, steps, p, seen) && OwnSteps(steps, p) && states[0] == s
    ensures At(states[|steps|], p, Holding) && states[|steps|].directory.Present?
    ensures forall q | q != p && q in s.places :: q in states[|steps|].places && states[|steps|].places[q] == s.places[q]
    ensures states[|steps|].alive == s.alive
  {
    hide OwnerContent, Judge, ParseOwner, Next;
    var removed := Move(s, p, Trying, Absent);
    var made := Move(removed, p, Made, Present(NoFile, false, s.now));
    var created := Move(made, p, Opened, Present(File([]), false, s.now));
    var held := Move(created, p, Holding, Present(File(OwnerContent(p)), false, s.now));
    states := [s, removed, made, created, held];
    steps := [Reclaim(p, seen, Absent, true), Mkdir(p), CreateOwner(p), WriteOwner(p)];
    Reclaims(s, p, seen);
    Makes(removed, p);
    Creates(made, p);
    Writes(created, p);
    assert steps[1..] == [Mkdir(p), CreateOwner(p), WriteOwner(p)];
  }

  // ------------------------------------------ why runs have to be timely

  /**
   30 seconds after it was taken, a waiter whose read of the owner file fails takes the lock
   from a live holder by its own steps, and both hold it.
   */
  lemma UnreadableOwnerIsRobbed(s: State, p: nat, q: nat) returns (states: seq<State>, steps: seq<Step>)
    requires Inv(s) && At(s, p, Holding) && At(s, q, Trying)
    requires s.directory.Present? && Age(s.now, s.directory.modified) >= STALE_SECONDS
    ensures Takes(states, steps, q, Readable(false, true, true)) && OwnSteps(steps, q) && states[0] == s
    ensures p != q && At(states[|steps|], p, Holding) && At(states[|steps|], q, Holding)
  {
    var seen := Readable(false, true, true);
    assert Owns(s, p);
    LiveOwnerIsKept(s, p, seen);
    hide Inv, Next, Judge;
    states, steps := WaiterGetsStaleLock(s, q, seen);
  }

  /**
   30 seconds after its mkdir, a live process that has not written its id yet loses the lock to
   a waiter, with every read succeeding; when it then goes on as if nothing had happened, both
   hold the lock.
   */
  lemma SlowOwnerIsRobbed(s: State, p: nat, q: nat)
    returns (states: seq<State>, steps: seq<Step>, more: seq<State>, rest: seq<Step>)
    requires Inv(s) && (At(s, p, Made) || At(s, p, Opened)) && At(s, q, Trying)
    requires s.directory.Present? && Age(s.now, s.directory.modified) >= STALE_SECONDS
    ensures Takes(states, steps, q, Readable(true, true, true)) && OwnSteps(steps, q) && states[0] == s
    ensures p != q && At(states[|steps|], p, s.places[p]) && At(states[|steps|], q, Holding)
    ensures Path(more, rest) && more[0] == states[|steps|] && NoReclaim(rest) && OwnSteps(rest, p)
    ensures At(more[|rest|], p, Holding) && At(more[|rest|], q, Holding)
  {
    var seen := Readable(true, true, true);
    assert Owns(s, p);
    UnwrittenNamesNobody(s, p, seen);
    LiveOwnerIsKept(s, p, seen);
    hide Inv, Next, Judge, OwnerContent, ParseOwner;
    states, steps := WaiterGetsStaleLock(s, q, seen);
    more, rest := GoesOn(states[|steps|], p);
  }

  lemma UnwrittenNamesNobody(s: State, p: nat, seen: Readable)
    requires Inv(s) && (At(s, p, Made) || At(s, p, Opened))
    ensures s.directory.Present? && NamedOwner(s.directory.owner, seen).None?
  {
    assert Owns(s, p);
    assert ParseOwner([]) == None;
  }

  /** A process past its mkdir writes its id into whatever directory is there. */
  lemma GoesOn(s: State, p: nat) returns (states: seq<State>, steps: seq<Step>)
    requires (At(s, p, Made) || At(s, p, Opened)) && s.directory.Present?
    ensures Path(states, steps) && states[0] == s && NoReclaim(steps) && OwnSteps(steps, p)
    ensures At(states[|steps|], p, Holding)
    ensures forall q | q != p && q in s.places :: q in states[|steps|].places && states[|steps|].places[q] == s.places[q]
    ensures states[|steps|].alive == s.alive
  {
    hide OwnerContent, Next;
    var touched := s;
    states, steps := [s], [];
    if s.places[p] == Made {
      Creates(s, p);
      touched := Move(s, p, Opened, Present(File([]), s.directory.others, s.now));
      states, steps := [s, touched], [CreateOwner(p)];
    }
    Writes(touched, p);
    var held := Move(touched, p, Holding, touched.directory.(owner := File(OwnerContent(p))));
    Extended(states, steps, WriteOwner(p), held);
    states, steps := states + [held], steps + [WriteOwner(p)];
  }

  const NOBODY := State(Absent, 0, map[1 := Outside, 2 := Outside], {1, 2})

  /** The first of two processes makes the directory and, unless it is slow, takes the lock. */
  lemma FirstComes(slow: bool) returns (run: seq<State>, steps: seq<Step>)
    ensures Path(run, steps) && run[0] == NOBODY && NoReclaim(steps)
    ensures At(run[|steps|], 1, if slow then Made else Holding) && At(run[|steps|], 2, Outside)
    ensures var s := run[|steps|]; s.now == 0 && s.directory.Present? && s.directory.modified == 0
  {
    hide OwnerContent, Next;
    var begun := Move(NOBODY, 1, Trying, Absent);
    var made := Move(begun, 1, Made, Present(NoFile, false, 0));
    Begins(NOBODY, 1);
    Makes(begun, 1);
    if slow {
      run, steps := [NOBODY, begun, made], [Begin(1), Mkdir(1)];
    } else {
      var touched := Move(made, 1, Opened, Present(File([]), false, 0));
      var held := Move(touched, 1, Holding, Present(File(OwnerContent(1)), false, 0));
      Creates(made, 1);
      Writes(touched, 1);
      run, steps := [NOBODY, begun, made, touched, held], [Begin(1), Mkdir(1), CreateOwner(1), WriteOwner(1)];
    }
  }

  /** Then the second starts to wait, and 30 seconds pass. */
  lemma LongWait(slow: bool) returns (run: seq<State>, steps: seq<Step>)
    ensures Run(run, steps) && NoReclaim(steps)
    ensures At(run[|steps|], 1, if slow then Made else Holding) && At(run[|steps|], 2, Trying)
    ensures var s := run[|steps|]; s.directory.Present? && Age(s.now, s.directory.modified) >= STALE_SECONDS
  {
    hide Next;
    run, steps := FirstComes(slow);
    var s := run[|steps|];
    var waiting := Move(s, 2, Trying, s.directory);
    Begins(s, 2);
    Extended(run, steps, Begin(2), waiting);
    run, steps := run + [waiting], steps + [Begin(2)];
    var later, ticks := TimePasses(waiting, STALE_SECONDS);
    Joined(run, steps, later, ticks);
    run, steps := run + later[1..], steps + ticks;
  }

  /** The step takes away a directory in which it sees no owner; every other step is timely. */
  ghost predicate UntimelyOnlyAt(run: seq<State>, steps: seq<Step>, k: nat, seen: Readable)
    requires Path(run, steps)
  {
    && k < |steps| && steps[k].Reclaim? && steps[k].seen == seen
    && run[k].directory.Present? && NamedOwner(run[k].directory.owner, seen).None? && !Timely(run[k], steps[k])
    && forall i | 0 <= i < |steps| && i != k :: Timely(run[i], steps[i])
  }

  lemma TakenUntimely(a: seq<State>, x: seq<Step>, b: seq<State>, y: seq<Step>, p: nat, q: nat, seen: Readable)
    requires Path(a, x) && Takes(b, y, q, seen) && NoReclaim(x) && a[|a| - 1] == b[0]
    requires
      var s := b[0];
      && Owns(s, p) && s.directory.Present? && NamedOwner(s.directory.owner, seen).None?
      && Age(s.now, s.directory.modified) >= STALE_SECONDS
    ensures Path(a + b[1..], x + y) && UntimelyOnlyAt(a + b[1..], x + y, |x|, seen)
  {
    hide Next, NamedOwner;
    Joined(a, x, b, y);
    forall i | 0 <= i < |x + y| && i != |x| ensures !(x + y)[i].Reclaim? {
      if i < |x| {
        assert x[i] in x;
      } else {
        assert y[1..][i - |x| - 1] in y[1..];
      }
    }
  }

  lemma TakesThenGoesOn(a: seq<State>, x: seq<Step>, b: seq<State>, y: seq<Step>, p: nat, seen: Readable)
    requires Takes(a, x, p, seen) && Path(b, y) && NoReclaim(y) && a[|a| - 1] == b[0]
    ensures Takes(a + b[1..], x + y, p, seen)
  {
    hide Next;
    Joined(a, x, b, y);
    assert (x + y)[1..] == x[1..] + y;
  }

  /**
   The condition on runs is needed.  A path from the start that is untimely in a single step
   ends with two live holders: one whose read of the owner file fails, or, after a slow owner,
   one with no failing read at all.
   */
  lemma ExclusionNeedsTimely(slow: bool) returns (run: seq<State>, steps: seq<Step>, k: nat)
    ensures Path(run, steps) && Init(run[0]) && UntimelyOnlyAt(run, steps, k, Readable(slow, true, true))
    ensures At(run[|steps|], 1, Holding) && At(run[|steps|], 2, Holding)
  {
    var seen := Readable(slow, true, true);
    run, steps := LongWait(slow);
    k := |steps|;
    RunInv(run, steps, k);
    var robbed, taking;
    if slow {
      UnwrittenNamesNobody(run[k], 1, seen);
      var more, rest;
      robbed, taking, more, rest := SlowOwnerIsRobbed(run[k], 1, 2);
      hide Next, Inv, Timely;
      Joined(robbed, taking, more, rest);
      TakesThenGoesOn(robbed, taking, more, rest, 2, seen);
      robbed, taking := robbed + more[1..], taking + rest;
    } else {
      robbed, taking := UnreadableOwnerIsRobbed(run[k], 1, 2);
    }
    hide Next, Inv, Timely;
    TakenUntimely(run, steps, robbed, taking, 1, 2, seen);
    Joined(run, steps, robbed, taking);
    run, steps := run + robbed[1..], steps + taking;
  }
}
