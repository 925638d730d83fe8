/**
 The archive preparation of builder/src/prepare.c: catalog refreshes, the CEF and Node.js
 tasks that may run in parallel over one options record, and the update request that is
 cleared across runs.
 */
module PrepareInputs {
  import opened Common

  /** The options the two tasks read and write. */
  datatype Options = Options(
    force: bool, updateRequested: bool, updateRequestedAt: uint64, interval: uint64,
    policy: string, cefLast: uint64, nodeLast: uint64, nodeRequired: bool)

  datatype Outcome = Outcome(applicable: bool, due: bool, updated: bool)

  /** What the outside world answers to the CEF task. */
  datatype CefAnswers = CefAnswers(
    isArchive: bool, havePath: bool, catalogExists: bool, now: uint64,
    updated: bool, refreshWorks: bool, updatedAt: uint64, catalogExistsAfter: bool, archiveWorks: bool)

  /** What the outside world answers to the Node.js task. */
  datatype NodeAnswers = NodeAnswers(
    catalogExists: bool, now: uint64, updated: bool, refreshWorks: bool, updatedAt: uint64, resolveWorks: bool, archiveWorks: bool)

  // ------------------------------------------------- what each task amounts to

  /** Never refreshed, refreshed in the future, or the interval ago. */
  predicate Aged(interval: uint64, last: uint64, now: uint64) {
    last == 0 || now < last || now - last >= interval
  }

  /** A catalog is refreshed when missing, forced, requested or older than the interval. */
  function RefreshDue(o: Options, present: bool, last: uint64, now: uint64): bool {
    !present || o.force || o.updateRequested
    || (o.interval != 0 && Aged(o.interval, last, now))
  }

  function CefOutcome(o: Options, e: CefAnswers): Outcome {
    var applicable := e.isArchive && (o.policy != "tested" || o.force || o.updateRequested);
    var due := applicable && RefreshDue(o, e.catalogExists, o.cefLast, e.now);
    Outcome(applicable, due, due && e.updated)
  }

  /** A failed refresh matters only to the exact policy. */
  function CefSucceeds(o: Options, e: CefAnswers): bool {
    !(CefOutcome(o, e).due && !e.refreshWorks && o.policy == "exact") && (e.havePath || e.archiveWorks)
  }

  function NodeOutcome(o: Options, f: NodeAnswers): Outcome {
    var due := o.nodeRequired && RefreshDue(o, f.catalogExists, o.nodeLast, f.now);
    Outcome(o.nodeRequired, due, due && f.updated)
  }

  function NodeSucceeds(o: Options, f: NodeAnswers): bool {
    o.nodeRequired ==> (NodeOutcome(o, f).due ==> f.refreshWorks) && f.resolveWorks && f.archiveWorks
  }

  function AfterTasks(o: Options, e: CefAnswers, f: NodeAnswers): Options {
    o.(cefLast := if CefOutcome(o, e).updated then e.updatedAt else o.cefLast,
       nodeLast := if NodeOutcome(o, f).updated then f.updatedAt else o.nodeLast)
  }

  function Cleared(o: Options, cef: Outcome, node: Outcome): Options {
    if o.updateRequested && (cef.applicable || node.applicable)
       && (cef.applicable ==> cef.updated) && (node.applicable ==> node.updated)
    then o.(updateRequested := false, updateRequestedAt := 0) else o
  }

  /** The options, outcomes and result of preparing the inputs. */
  datatype Prepared = Prepared(options: Options, cef: Outcome, node: Outcome, ok: bool)

  function PrepareAll(o: Options, e: CefAnswers, f: NodeAnswers): Prepared {
    var (cef, node) := (CefOutcome(o, e), NodeOutcome(o, f));
    var ok := CefSucceeds(o, e) && NodeSucceeds(o, f);
    var after := AfterTasks(o, e, f);
    Prepared(if ok then Cleared(after, cef, node) else after, cef, node, ok)
  }

  // ------------------------------------------------------- when a refresh is due

  /** Nothing but time asks for a refresh of a catalog that exists. */
  predicate Unprompted(o: Options) { !o.force && !o.updateRequested }

  /** Whether the time asks for one, in plain numbers. */
  predicate DueAt(interval: int, last: int, now: int) {
    interval > 0 && (last == 0 || now < last || now >= last + interval)
  }

  lemma DueMeans(o: Options, present: bool, last: uint64, now: uint64)
    ensures RefreshDue(o, present, last, now) <==> !present || !Unprompted(o) || DueAt(o.interval, last, now)
  {
  }

  /**
   A catalog that was refreshed once is not due at that moment nor before the interval has
   passed, and is due from then on; without an interval, or forced, the time does not matter.
   */
  lemma DueOverTime(o: Options, last: uint64, now: uint64)
    requires last > 0 && now >= last
    ensures Unprompted(o) && o.interval > 0 ==> (RefreshDue(o, true, last, now) <==> now - last >= o.interval)
    ensures Unprompted(o) && o.interval > 0 ==> !RefreshDue(o, true, last, last)
    ensures Unprompted(o) && o.interval > 0 && last + o.interval <= UINT64_MAX ==> RefreshDue(o, true, last, last + o.interval)
    ensures forall later: uint64 | later >= now && RefreshDue(o, true, last, now) :: RefreshDue(o, true, last, later)
    ensures Unprompted(o) && o.interval == 0 ==> !RefreshDue(o, true, last, now)
    ensures !Unprompted(o) ==> RefreshDue(o, true, last, now)
  {
  }

  /** The tested policy, unprompted, and an input that is no archive never touch the catalog, whatever the world answers. */
  lemma CatalogLeftAlone(o: Options, e: CefAnswers, f: NodeAnswers)
    requires (o.policy == "tested" && Unprompted(o)) || !e.isArchive
    ensures CefOutcome(o, e) == Outcome(false, false, false) && AfterTasks(o, e, f).cefLast == o.cefLast
    ensures CefSucceeds(o, e) <==> e.havePath || e.archiveWorks
  {
  }

  /** Any other policy uses the catalog of an archive, and refreshes it when it is missing, prompted or the time asks for it. */
  lemma OthersUseCatalog(o: Options, e: CefAnswers)
    requires e.isArchive && (o.policy != "tested" || !Unprompted(o))
    ensures CefOutcome(o, e).applicable
    ensures CefOutcome(o, e).due <==> !e.catalogExists || !Unprompted(o) || DueAt(o.interval, o.cefLast, e.now)
  {
  }

  /** Only under the exact policy does the result depend on the catalog, and then a due refresh has to work. */
  lemma OnlyExactNeedsCatalog(o: Options, e: CefAnswers, d: CefAnswers)
    requires e.havePath == d.havePath && e.archiveWorks == d.archiveWorks
    ensures o.policy != "exact" ==> CefSucceeds(o, e) == CefSucceeds(o, d)
    ensures o.policy == "exact" && e.isArchive ==>
      (CefSucceeds(o, e) <==>
         && (e.havePath || e.archiveWorks)
         && (!e.catalogExists || !Unprompted(o) || DueAt(o.interval, o.cefLast, e.now) ==> e.refreshWorks))
  {
  }

  /** A Node.js runtime that is not required needs nothing; one that is needs a due refresh, the release and its archive. */
  lemma NodeNeeds(o: Options, f: NodeAnswers)
    ensures !o.nodeRequired ==> NodeSucceeds(o, f) && NodeOutcome(o, f) == Outcome(false, false, false)
    ensures o.nodeRequired ==>
      var due := !f.catalogExists || !Unprompted(o) || DueAt(o.interval, o.nodeLast, f.now);
      && NodeOutcome(o, f) == Outcome(true, due, due && f.updated)
      && (NodeSucceeds(o, f) <==> (due ==> f.refreshWorks) && f.resolveWorks && f.archiveWorks)
  {
  }

  // --------------------------------------------------- the C functions, in series

  /** The mutable options record. */
  class PrepareOptions {
    var value: Options

    constructor (value: Options)
      ensures this.value == value
    {
      this.value := value;
    }

    method CatalogRefreshDue(present: bool, last: uint64, now: uint64) returns (due: bool)
      ensures due == RefreshDue(value, present, last, now)
      ensures !present || value.force || value.updateRequested ==> due
      ensures present && !value.force && !value.updateRequested && value.interval == 0 ==> !due
      ensures present && !value.force && !value.updateRequested && value.interval > 0 ==>
        (due <==> last == 0 || now < last || now >= last + value.interval)
    {
      if !present {
        return true;
      }
      if value.force || value.updateRequested {
        return true;
      }
      if value.interval == 0 {
        return false;
      }
      return last == 0 || now < last || now - last >= value.interval;
    }

    method EnsureCefCatalogCache(required: bool, e: CefAnswers) returns (ok: bool, due: bool, updated: bool)
      modifies this
      ensures due == RefreshDue(old(value), e.catalogExists, old(value).cefLast, e.now)
      ensures updated == (due && e.updated)
      ensures value == old(value).(cefLast := if updated then e.updatedAt else old(value).cefLast)
      ensures ok == (!due || e.refreshWorks || (!required && e.catalogExistsAfter))
    {
      due := CatalogRefreshDue(e.catalogExists, value.cefLast, e.now);
      updated := false;
      if !due {
        return true, due, updated;
      }
      if e.updated {
        updated := true;
        value := value.(cefLast := e.updatedAt);
      }
      ok := e.refreshWorks || (!required && e.catalogExistsAfter);
    }

    method PrepareCefArchiveInput(e: CefAnswers) returns (ok: bool, catalog: Outcome)
      modifies this
      ensures catalog == CefOutcome(old(value), e) && ok == CefSucceeds(old(value), e)
      ensures value == old(value).(cefLast := if catalog.updated then e.updatedAt else old(value).cefLast)
    {
      var required := value.policy == "exact";
      var applicable := e.isArchive && (value.policy != "tested" || value.force || value.updateRequested);
      catalog := Outcome(applicable, false, false);
      if applicable {
        var ensured, due, updated := EnsureCefCatalogCache(required, e);
        catalog := Outcome(applicable, due, updated);
        if !ensured && required {
          return false, catalog;
        }
      }
      ok := e.havePath || e.archiveWorks;
    }

    method EnsureNodeArchiveCache(f: NodeAnswers) returns (ok: bool, catalog: Outcome)
      modifies this
      ensures catalog == NodeOutcome(old(value), f) && ok == NodeSucceeds(old(value), f)
      ensures value == old(value).(nodeLast := if catalog.updated then f.updatedAt else old(value).nodeLast)
    {
      catalog := Outcome(false, false, false);
      if !value.nodeRequired {
        return true, catalog;
      }
      var due := CatalogRefreshDue(f.catalogExists, value.nodeLast, f.now);
      catalog := Outcome(true, due, false);
      ok := true;
      if due {
        ok := f.refreshWorks;
        if f.updated {
          catalog := catalog.(updated := true);
          value := value.(nodeLast := f.updatedAt);
        }
      }
      ok := ok && f.resolveWorks;
      ok := ok && f.archiveWorks;
    }

    method ClearCatalogUpdateRequestIfSatisfied(cef: Outcome, node: Outcome)
      modifies this
      ensures value == Cleared(old(value), cef, node)
    {
      if !value.updateRequested {
        return;
      }
      var anyApplicable := cef.applicable || node.applicable;
      var everyApplicableUpdated := (!cef.applicable || cef.updated) && (!node.applicable || node.updated);
      if anyApplicable && everyApplicableUpdated {
        value := value.(updateRequested := false, updateRequestedAt := 0);
      }
    }

    /** The order taken when no thread is started. */
    method PrepareRuntimeArchiveInputs(e: CefAnswers, f: NodeAnswers) returns (ok: bool, cef: Outcome, node: Outcome)
      modifies this
      ensures Prepared(value, cef, node, ok) == PrepareAll(old(value), e, f)
    {
      var cefOk, nodeOk;
      cefOk, cef := PrepareCefArchiveInput(e);
      nodeOk, node := EnsureNodeArchiveCache(f);
      ok := cefOk && nodeOk;
      if ok {
        ClearCatalogUpdateRequestIfSatisfied(cef, node);
      }
    }
  }

  // --------------------------------------- the two tasks as interleaved small steps

  /** The next access of the CEF task; every read or write of the options is its own step. */
  datatype CefPlace =
    | CefPolicy | CefUsesCatalog | CefForced | CefRequested | CefLast
    | CefDueForced | CefDueRequested | CefDueInterval | CefDueAge | CefRefresh | CefArchive | CefDone

  datatype CefTask = CefTask(at: CefPlace, required: bool, last: uint64, outcome: Outcome, ok: bool)

  datatype NodePlace =
    | NodeRequired | NodeLast | NodeDueForced | NodeDueRequested | NodeDueInterval | NodeDueAge
    | NodeRefresh | NodeArchive | NodeDone

  datatype NodeTask = NodeTask(at: NodePlace, last: uint64, outcome: Outcome, ok: bool)

  const IDLE := Outcome(false, false, false)
  const CEF_START := CefTask(CefPolicy, false, 0, IDLE, true)
  const NODE_START := NodeTask(NodeRequired, 0, IDLE, true)

  function Applies(c: CefTask, yes: bool, otherwise: CefPlace): CefTask {
    if yes then c.(at := CefLast, outcome := Outcome(true, false, false)) else c.(at := otherwise)
  }

  function CefDue(c: CefTask, yes: bool, otherwise: CefPlace): CefTask {
    if yes then c.(at := CefRefresh, outcome := c.outcome.(due := true)) else c.(at := otherwise)
  }

  function CefStep(o: Options, c: CefTask, e: CefAnswers): (Options, CefTask) {
    match c.at
    case CefPolicy => (o, c.(required := o.policy == "exact", at := if e.isArchive then CefUsesCatalog else CefArchive))
    case CefUsesCatalog => (o, Applies(c, o.policy != "tested", CefForced))
    case CefForced => (o, Applies(c, o.force, CefRequested))
    case CefRequested => (o, Applies(c, o.updateRequested, CefArchive))
    case CefLast => (o, CefDue(c.(last := o.cefLast), !e.catalogExists, CefDueForced))
    case CefDueForced => (o, CefDue(c, o.force, CefDueRequested))
    case CefDueRequested => (o, CefDue(c, o.updateRequested, CefDueInterval))
    case CefDueInterval => (o, c.(at := if o.interval == 0 then CefArchive else CefDueAge))
    case CefDueAge =>
      (o, CefDue(c, Aged(o.interval, c.last, e.now), CefArchive))
    case CefRefresh =>
      (if e.updated then o.(cefLast := e.updatedAt) else o,
       c.(outcome := c.outcome.(updated := e.updated),
          ok := e.refreshWorks || !c.required,
          at := if e.refreshWorks || !c.required then CefArchive else CefDone))
    case CefArchive => (o, c.(ok := e.havePath || e.archiveWorks, at := CefDone))
    case CefDone => (o, c)
  }

  function NodeDue(n: NodeTask, yes: bool, otherwise: NodePlace): NodeTask {
    if yes then n.(at := NodeRefresh, outcome := n.outcome.(due := true)) else n.(at := otherwise)
  }

  function NodeStep(o: Options, n: NodeTask, f: NodeAnswers): (Options, NodeTask) {
    match n.at
    case NodeRequired =>
      (o, if o.nodeRequired then n.(at := NodeLast, outcome := Outcome(true, false, false)) else n.(at := NodeDone))
    case NodeLast => (o, NodeDue(n.(last := o.nodeLast), !f.catalogExists, NodeDueForced))
    case NodeDueForced => (o, NodeDue(n, o.force, NodeDueRequested))
    case NodeDueRequested => (o, NodeDue(n, o.updateRequested, NodeDueInterval))
    case NodeDueInterval => (o, n.(at := if o.interval == 0 then NodeArchive else NodeDueAge))
    case NodeDueAge =>
      (o, NodeDue(n, Aged(o.interval, n.last, f.now), NodeArchive))
    case NodeRefresh =>
      (if f.updated then o.(nodeLast := f.updatedAt) else o,
       n.(outcome := n.outcome.(updated := f.updated), ok := f.refreshWorks,
          at := if f.refreshWorks then NodeArchive else NodeDone))
    case NodeArchive => (o, n.(ok := f.resolveWorks && f.archiveWorks, at := NodeDone))
    case NodeDone => (o, n)
  }

  /** Both tasks over the shared options. */
  datatype Machine = Machine(options: Options, cef: CefTask, node: NodeTask)

  function StepCef(m: Machine, e: CefAnswers): Machine {
    var (o, c) := CefStep(m.options, m.cef, e);
    Machine(o, c, m.node)
  }

  function StepNode(m: Machine, f: NodeAnswers): Machine {
    var (o, n) := NodeStep(m.options, m.node, f);
    Machine(o, m.cef, n)
  }

  /** A schedule says whose turn each step is: true for the CEF task. */
  function Interleave(schedule: seq<bool>, m: Machine, e: CefAnswers, f: NodeAnswers): Machine {
    if schedule == [] then m
    else Interleave(schedule[1..], if schedule[0] then StepCef(m, e) else StepNode(m, f), e, f)
  }

  function CefSteps(k: nat, m: Machine, e: CefAnswers): Machine {
    if k == 0 then m else CefSteps(k - 1, StepCef(m, e), e)
  }

  function NodeSteps(k: nat, m: Machine, f: NodeAnswers): Machine {
    if k == 0 then m else NodeSteps(k - 1, StepNode(m, f), f)
  }

  /** The CEF task neither reads nor writes the Node.js stamp. */
  lemma CefIgnoresNodeStamp(o: Options, c: CefTask, e: CefAnswers, stamp: uint64)
    ensures CefStep(o.(nodeLast := stamp), c, e) == (CefStep(o, c, e).0.(nodeLast := stamp), CefStep(o, c, e).1)
    ensures exists last: uint64 :: CefStep(o, c, e).0 == o.(cefLast := last)
  {
    var last := if c.at.CefRefresh? && e.updated then e.updatedAt else o.cefLast;
    assert CefStep(o, c, e).0 == o.(cefLast := last);
  }

  /** The Node.js task neither reads nor writes the CEF stamp. */
  lemma NodeIgnoresCefStamp(o: Options, n: NodeTask, f: NodeAnswers, stamp: uint64)
    ensures NodeStep(o.(cefLast := stamp), n, f) == (NodeStep(o, n, f).0.(cefLast := stamp), NodeStep(o, n, f).1)
    ensures exists last: uint64 :: NodeStep(o, n, f).0 == o.(nodeLast := last)
  {
    var last := if n.at.NodeRefresh? && f.updated then f.updatedAt else o.nodeLast;
    assert NodeStep(o, n, f).0 == o.(nodeLast := last);
  }

  /** A step of one task and a step of the other can be exchanged. */
  lemma StepsCommute(m: Machine, e: CefAnswers, f: NodeAnswers)
    ensures StepCef(StepNode(m, f), e) == StepNode(StepCef(m, e), f)
  {
    hide CefStep, NodeStep;
    var cefLast, nodeLast := CefStep(m.options, m.cef, e).0.cefLast, NodeStep(m.options, m.node, f).0.nodeLast;
    CefIgnoresNodeStamp(m.options, m.cef, e, nodeLast);
    NodeIgnoresCefStamp(m.options, m.node, f, cefLast);
  }

  lemma {:induction false} NodeStepPastCef(k: nat, m: Machine, e: CefAnswers, f: NodeAnswers)
    ensures CefSteps(k, StepNode(m, f), e) == StepNode(CefSteps(k, m, e), f)
  {
    hide StepCef, StepNode;
    if k > 0 {
      StepsCommute(m, e, f);
      NodeStepPastCef(k - 1, StepCef(m, e), e, f);
    }
  }

  function Turns(schedule: seq<bool>, whose: bool): nat {
    if schedule == [] then 0 else (if schedule[0] == whose then 1 else 0) + Turns(schedule[1..], whose)
  }

  /** Any interleaving equals the CEF steps followed by the Node.js steps. */
  lemma {:induction false} Sorted(schedule: seq<bool>, m: Machine, e: CefAnswers, f: NodeAnswers)
    ensures Interleave(schedule, m, e, f) == NodeSteps(Turns(schedule, false), CefSteps(Turns(schedule, true), m, e), f)
  {
    hide StepCef, StepNode;
    if schedule != [] {
      if schedule[0] {
        Sorted(schedule[1..], StepCef(m, e), e, f);
      } else {
        Sorted(schedule[1..], StepNode(m, f), e, f);
        NodeStepPastCef(Turns(schedule, true), m, e, f);
      }
    }
  }

  // --------------------------------------------------- where a finished task ends

  /** What a CEF task still has to produce: the options, its outcome and its result. */
  datatype Ending = Ending(options: Options, outcome: Outcome, ok: bool)

  function CefArchived(o: Options, outcome: Outcome, e: CefAnswers): Ending {
    Ending(o, outcome, e.havePath || e.archiveWorks)
  }

  function CefRefreshed(o: Options, required: bool, e: CefAnswers): Ending {
    var after := if e.updated then o.(cefLast := e.updatedAt) else o;
    var outcome := Outcome(true, true, e.updated);
    if e.refreshWorks || !required then CefArchived(after, outcome, e) else Ending(after, outcome, false)
  }

  function CefChecked(o: Options, due: bool, required: bool, e: CefAnswers): Ending {
    if due then CefRefreshed(o, required, e) else CefArchived(o, Outcome(true, false, false), e)
  }

  function CefApplied(o: Options, applies: bool, required: bool, e: CefAnswers): Ending {
    if applies then CefChecked(o, RefreshDue(o, e.catalogExists, o.cefLast, e.now), required, e)
    else CefArchived(o, IDLE, e)
  }

  function CefEnding(o: Options, c: CefTask, e: CefAnswers): Ending {
    var aged := Aged(o.interval, c.last, e.now);
    match c.at
    case CefPolicy =>
      CefApplied(o, e.isArchive && (o.policy != "tested" || o.force || o.updateRequested), o.policy == "exact", e)
    case CefUsesCatalog => CefApplied(o, o.policy != "tested" || o.force || o.updateRequested, c.required, e)
    case CefForced => CefApplied(o, o.force || o.updateRequested, c.required, e)
    case CefRequested => CefApplied(o, o.updateRequested, c.required, e)
    case CefLast => CefApplied(o, true, c.required, e)
    case CefDueForced => CefChecked(o, o.force || o.updateRequested || (o.interval != 0 && aged), c.required, e)
    case CefDueRequested => CefChecked(o, o.updateRequested || (o.interval != 0 && aged), c.required, e)
    case CefDueInterval => CefChecked(o, o.interval != 0 && aged, c.required, e)
    case CefDueAge => CefChecked(o, aged, c.required, e)
    case CefRefresh => CefRefreshed(o, c.required, e)
    case CefArchive => CefArchived(o, c.outcome, e)
    case CefDone => Ending(o, c.outcome, c.ok)
  }

  /** The outcome a CEF task carries is the one its place implies. */
  predicate CefTaskValid(c: CefTask) {
    match c.at
    case CefPolicy | CefUsesCatalog | CefForced | CefRequested => c.outcome == IDLE
    case CefLast | CefDueForced | CefDueRequested | CefDueInterval | CefDueAge => c.outcome == Outcome(true, false, false)
    case CefRefresh => c.outcome == Outcome(true, true, false)
    case CefArchive | CefDone => true
  }

  lemma CefStepKeepsEnding(o: Options, c: CefTask, e: CefAnswers)
    requires CefTaskValid(c)
    ensures CefTaskValid(CefStep(o, c, e).1)
    ensures CefEnding(CefStep(o, c, e).0, CefStep(o, c, e).1, e) == CefEnding(o, c, e)
  {
    hide CefStep, CefEnding, CefTaskValid;
    match c.at
    case CefPolicy | CefUsesCatalog | CefForced | CefRequested => CefUseKeepsEnding(o, c, e);
    case CefLast | CefDueForced | CefDueRequested | CefDueInterval | CefDueAge => CefDueKeepsEnding(o, c, e);
    case CefRefresh | CefArchive | CefDone => CefFetchKeepsEnding(o, c, e);
  }

  lemma CefUseKeepsEnding(o: Options, c: CefTask, e: CefAnswers)
    requires CefTaskValid(c) && c.at in {CefPolicy, CefUsesCatalog, CefForced, CefRequested}
    ensures CefTaskValid(CefStep(o, c, e).1)
    ensures CefEnding(CefStep(o, c, e).0, CefStep(o, c, e).1, e) == CefEnding(o, c, e)
  {
    hide RefreshDue, CefChecked;
  }

  lemma CefDueKeepsEnding(o: Options, c: CefTask, e: CefAnswers)
    requires CefTaskValid(c) && c.at in {CefLast, CefDueForced, CefDueRequested, CefDueInterval, CefDueAge}
    ensures CefTaskValid(CefStep(o, c, e).1)
    ensures CefEnding(CefStep(o, c, e).0, CefStep(o, c, e).1, e) == CefEnding(o, c, e)
  {
    hide CefRefreshed, CefArchived, Aged;
  }

  lemma CefFetchKeepsEnding(o: Options, c: CefTask, e: CefAnswers)
    requires CefTaskValid(c) && c.at in {CefRefresh, CefArchive, CefDone}
    ensures CefTaskValid(CefStep(o, c, e).1)
    ensures CefEnding(CefStep(o, c, e).0, CefStep(o, c, e).1, e) == CefEnding(o, c, e)
  {
  }

  lemma {:induction false} CefStepsKeepEnding(k: nat, m: Machine, e: CefAnswers)
    requires CefTaskValid(m.cef)
    ensures CefSteps(k, m, e).node == m.node
    ensures CefEnding(CefSteps(k, m, e).options, CefSteps(k, m, e).cef, e) == CefEnding(m.options, m.cef, e)
  {
    hide CefEnding, CefTaskValid, CefStep;
    if k > 0 {
      CefStepKeepsEnding(m.options, m.cef, e);
      CefStepsKeepEnding(k - 1, StepCef(m, e), e);
    }
  }

  function NodeArchived(o: Options, outcome: Outcome, f: NodeAnswers): Ending {
    Ending(o, outcome, f.resolveWorks && f.archiveWorks)
  }

  function NodeRefreshed(o: Options, f: NodeAnswers): Ending {
    var after := if f.updated then o.(nodeLast := f.updatedAt) else o;
    var outcome := Outcome(true, true, f.updated);
    if f.refreshWorks then NodeArchived(after, outcome, f) else Ending(after, outcome, false)
  }

  function NodeChecked(o: Options, due: bool, f: NodeAnswers): Ending {
    if due then NodeRefreshed(o, f) else NodeArchived(o, Outcome(true, false, false), f)
  }

  function NodeEnding(o: Options, n: NodeTask, f: NodeAnswers): Ending {
    var aged := Aged(o.interval, n.last, f.now);
    match n.at
    case NodeRequired =>
      if o.nodeRequired then NodeChecked(o, RefreshDue(o, f.catalogExists, o.nodeLast, f.now), f)
      else Ending(o, IDLE, true)
    case NodeLast => NodeChecked(o, RefreshDue(o, f.catalogExists, o.nodeLast, f.now), f)
    case NodeDueForced => NodeChecked(o, o.force || o.updateRequested || (o.interval != 0 && aged), f)
    case NodeDueRequested => NodeChecked(o, o.updateRequested || (o.interval != 0 && aged), f)
    case NodeDueInterval => NodeChecked(o, o.interval != 0 && aged, f)
    case NodeDueAge => NodeChecked(o, aged, f)
    case NodeRefresh => NodeRefreshed(o, f)
    case NodeArchive => NodeArchived(o, n.outcome, f)
    case NodeDone => Ending(o, n.outcome, n.ok)
  }

  predicate NodeTaskValid(n: NodeTask) {
    match n.at
    case NodeRequired => n.outcome == IDLE && n.ok
    case NodeLast | NodeDueForced | NodeDueRequested | NodeDueInterval | NodeDueAge => n.outcome == Outcome(true, false, false)
    case NodeRefresh => n.outcome == Outcome(true, true, false)
    case NodeArchive | NodeDone => true
  }

  lemma NodeStepKeepsEnding(o: Options, n: NodeTask, f: NodeAnswers)
    requires NodeTaskValid(n)
    ensures NodeTaskValid(NodeStep(o, n, f).1)
    ensures NodeEnding(NodeStep(o, n, f).0, NodeStep(o, n, f).1, f) == NodeEnding(o, n, f)
  {
    match n.at
    case NodeRequired => {}
    case NodeLast => {}
    case NodeDueForced => {}
    case NodeDueRequested => {}
    case NodeDueInterval => {}
    case NodeDueAge => {}
    case NodeRefresh => {}
    case NodeArchive => {}
    case NodeDone => {}
  }

  lemma {:induction false} NodeStepsKeepEnding(k: nat, m: Machine, f: NodeAnswers)
    requires NodeTaskValid(m.node)
    ensures NodeSteps(k, m, f).cef == m.cef
    ensures NodeEnding(NodeSteps(k, m, f).options, NodeSteps(k, m, f).node, f) == NodeEnding(m.options, m.node, f)
  {
    hide NodeEnding, NodeTaskValid, NodeStep;
    if k > 0 {
      NodeStepKeepsEnding(m.options, m.node, f);
      NodeStepsKeepEnding(k - 1, StepNode(m, f), f);
    }
  }

  /**
   Whatever the schedule, given enough turns to both tasks the options, outcomes and result are
   those of the serial order, before and after clearing the request.
   */
  lemma AnyScheduleIsSerial(schedule: seq<bool>, o: Options, e: CefAnswers, f: NodeAnswers)
    requires Turns(schedule, true) >= 11 && Turns(schedule, false) >= 8
    ensures
      var m := Interleave(schedule, Machine(o, CEF_START, NODE_START), e, f);
      var ok := m.cef.ok && m.node.ok;
      && m.options == AfterTasks(o, e, f)
      && Prepared(if ok then Cleared(m.options, m.cef.outcome, m.node.outcome) else m.options, m.cef.outcome, m.node.outcome, ok)
         == PrepareAll(o, e, f)
  {
    var start := Machine(o, CEF_START, NODE_START);
    var j, k := Turns(schedule, true), Turns(schedule, false);
    Sorted(schedule, start, e, f);
    CefStepsKeepEnding(j, start, e);
    var middle := CefSteps(j, start, e);
    NodeStepsKeepEnding(k, middle, f);
    SerialEndings(o, e, f);
    EnoughTurns(schedule, start, e, f);
    hide Interleave, CefSteps, NodeSteps, CefStep, NodeStep;
  }

  function CefRank(at: CefPlace): nat {
    match at
    case CefPolicy => 11
    case CefUsesCatalog => 10
    case CefForced => 9
    case CefRequested => 8
    case CefLast => 7
    case CefDueForced => 6
    case CefDueRequested => 5
    case CefDueInterval => 4
    case CefDueAge => 3
    case CefRefresh => 2
    case CefArchive => 1
    case CefDone => 0
  }

  function NodeRank(at: NodePlace): nat {
    match at
    case NodeRequired => 8
    case NodeLast => 7
    case NodeDueForced => 6
    case NodeDueRequested => 5
    case NodeDueInterval => 4
    case NodeDueAge => 3
    case NodeRefresh => 2
    case NodeArchive => 1
    case NodeDone => 0
  }

  /** Both tasks finish: eleven turns of one and eight of the other are enough in any order. */
  lemma {:induction false} EnoughTurns(schedule: seq<bool>, m: Machine, e: CefAnswers, f: NodeAnswers)
    requires Turns(schedule, true) >= CefRank(m.cef.at) && Turns(schedule, false) >= NodeRank(m.node.at)
    ensures Interleave(schedule, m, e, f).cef.at.CefDone? && Interleave(schedule, m, e, f).node.at.NodeDone?
    decreases |schedule|
  {
    hide CefStep, NodeStep;
    if schedule != [] {
      if schedule[0] {
        CefAdvances(m.options, m.cef, e);
        EnoughTurns(schedule[1..], StepCef(m, e), e, f);
      } else {
        NodeAdvances(m.options, m.node, f);
        EnoughTurns(schedule[1..], StepNode(m, f), e, f);
      }
    }
  }

  lemma CefAdvances(o: Options, c: CefTask, e: CefAnswers)
    ensures CefRank(CefStep(o, c, e).1.at) < CefRank(c.at) || CefRank(CefStep(o, c, e).1.at) == 0
  {
    match c.at
    case CefPolicy => {}
    case CefUsesCatalog => {}
    case CefForced => {}
    case CefRequested => {}
    case CefLast => {}
    case CefDueForced => {}
    case CefDueRequested => {}
    case CefDueInterval => {}
    case CefDueAge => {}
    case CefRefresh => {}
    case CefArchive => {}
    case CefDone => {}
  }

  lemma NodeAdvances(o: Options, n: NodeTask, f: NodeAnswers)
    ensures NodeRank(NodeStep(o, n, f).1.at) < NodeRank(n.at) || NodeRank(NodeStep(o, n, f).1.at) == 0
  {
    match n.at
    case NodeRequired => {}
    case NodeLast => {}
    case NodeDueForced => {}
    case NodeDueRequested => {}
    case NodeDueInterval => {}
    case NodeDueAge => {}
    case NodeRefresh => {}
    case NodeArchive => {}
    case NodeDone => {}
  }

  /** The endings of the two tasks run one after the other. */
  lemma SerialEndings(o: Options, e: CefAnswers, f: NodeAnswers)
    ensures
      var first := CefEnding(o, CEF_START, e);
      var second := NodeEnding(first.options, NODE_START, f);
      && first.outcome == CefOutcome(o, e) && first.ok == CefSucceeds(o, e)
      && second.outcome == NodeOutcome(o, f) && second.ok == NodeSucceeds(o, f)
      && second.options == AfterTasks(o, e, f)
  {
    hide CefEnding, NodeEnding, CefOutcome, NodeOutcome, CefSucceeds, NodeSucceeds;
    CefEndingIs(o, e);
    NodeEndingIs(CefEnding(o, CEF_START, e).options, f);
    NodeIgnoresCef(o, CefEnding(o, CEF_START, e).options.cefLast, f);
  }

  lemma CefEndingIs(o: Options, e: CefAnswers)
    ensures
      var first := CefEnding(o, CEF_START, e);
      && first.outcome == CefOutcome(o, e) && first.ok == CefSucceeds(o, e)
      && first.options == o.(cefLast := if CefOutcome(o, e).updated then e.updatedAt else o.cefLast)
  {
  }

  lemma NodeEndingIs(o: Options, f: NodeAnswers)
    ensures
      var second := NodeEnding(o, NODE_START, f);
      && second.outcome == NodeOutcome(o, f) && second.ok == NodeSucceeds(o, f)
      && second.options == o.(nodeLast := if NodeOutcome(o, f).updated then f.updatedAt else o.nodeLast)
  {
  }

  lemma NodeIgnoresCef(o: Options, last: uint64, f: NodeAnswers)
    ensures NodeOutcome(o.(cefLast := last), f) == NodeOutcome(o, f) && NodeSucceeds(o.(cefLast := last), f) == NodeSucceeds(o, f)
  {
  }

  // -------------------------------------------------------- whole sequences of runs

  /** How far a run gets once its inputs are prepared: the configuration is replaced on the way. */
  datatype Reached = BeforeSave | AfterSave | Finished

  /** Between runs the user may request an update; a run may fail or be stopped anywhere. */
  datatype Event =
    | Request(at: uint64)
    | Run(force: bool, nodeRequired: bool, cef: CefAnswers, node: NodeAnswers, reached: Reached)

  function RunOptions(stored: Options, run: Event): Options
    requires run.Run?
  {
    stored.(force := run.force, nodeRequired := run.nodeRequired)
  }

  function Inputs(stored: Options, run: Event): Prepared
    requires run.Run?
  {
    PrepareAll(RunOptions(stored, run), run.cef, run.node)
  }

  /** The run replaces the stored options. */
  predicate Saves(stored: Options, run: Event)
    requires run.Run?
  {
    Inputs(stored, run).ok && run.reached != BeforeSave
  }

  /** The run does all it has to do and reports success. */
  predicate Succeeds(stored: Options, run: Event)
    requires run.Run?
  {
    Inputs(stored, run).ok && run.reached == Finished
  }

  /** The run replaces every catalog it uses, at least one. */
  predicate Updates(stored: Options, run: Event)
    requires run.Run?
  {
    var result := Inputs(stored, run);
    && (result.cef.applicable || result.node.applicable)
    && (result.cef.applicable ==> result.cef.updated)
    && (result.node.applicable ==> result.node.updated)
  }

  /** The stored options after one event; a run changes them when it gets to replace the configuration. */
  function After(stored: Options, event: Event): Options {
    match event
    case Request(at) => stored.(updateRequested := true, updateRequestedAt := at)
    case Run(_, _, _, _, _) =>
      if Saves(stored, event) then Inputs(stored, event).options.(force := stored.force, nodeRequired := stored.nodeRequired)
      else stored
  }

  function History(stored: Options, events: seq<Event>): Options
    decreases |events|
  {
    if events == [] then stored else History(After(stored, events[0]), events[1..])
  }

  /** A run that replaces the configuration and every catalog it uses, whether or not it then finishes. */
  predicate Satisfies(stored: Options, event: Event) {
    event.Run? && Saves(stored, event) && Updates(stored, event)
  }

  /** Every catalog the run uses is found due. */
  predicate ChecksDue(stored: Options, run: Event)
    requires run.Run?
  {
    var result := Inputs(stored, run);
    && result.cef.applicable == run.cef.isArchive && result.node.applicable == run.nodeRequired
    && (result.cef.applicable ==> result.cef.due) && (result.node.applicable ==> result.node.due)
  }

  /** A pending request is cleared by exactly the satisfying events, and makes every check due. */
  lemma RequestStep(stored: Options, event: Event)
    requires stored.updateRequested
    ensures After(stored, event).updateRequested <==> !Satisfies(stored, event)
    ensures event.Run? ==> ChecksDue(stored, event)
    ensures event.Run? ==>
      After(stored, event).updateRequestedAt == if Satisfies(stored, event) then 0 else stored.updateRequestedAt
  {
  }

  /**
   What becomes of a pending request depends on whether the run succeeded only in part: a
   successful run clears it exactly if it updates every catalog it uses, a run that fails or
   is stopped clears it exactly if it does so and got past replacing the configuration.
   */
  lemma RunClearsExactly(stored: Options, run: Event)
    requires stored.updateRequested && run.Run?
    ensures Succeeds(stored, run) ==> (!After(stored, run).updateRequested <==> Updates(stored, run))
    ensures !Succeeds(stored, run) ==>
      (!After(stored, run).updateRequested <==> Inputs(stored, run).ok && run.reached == AfterSave && Updates(stored, run))
  {
  }

  const WAITING := Options(false, true, 1, 0, "tested", 0, 0, false)
  const STOPPED_LATE := Run(false, false, CefAnswers(true, false, true, 2, true, true, 2, true, true),
                            NodeAnswers(false, 2, false, false, 2, false, false), AfterSave)

  /** A run whose last write fails reports failure, and the request is gone all the same. */
  lemma LateFailureLosesRequest()
    ensures WAITING.updateRequested && !Succeeds(WAITING, STOPPED_LATE) && !After(WAITING, STOPPED_LATE).updateRequested
  {
    RunClearsExactly(WAITING, STOPPED_LATE);
  }

  /**
   After a request is satisfied, an unforced run finds a catalog that exists due exactly when it
   uses it and the time since the update asks for it.
   */
  lemma SatisfiedIsFresh(stored: Options, run: Event, next: Event)
    requires Satisfies(stored, run) && next.Run? && !next.force
    ensures
      var result := Inputs(After(stored, run), next);
      && (Inputs(stored, run).cef.applicable && next.cef.catalogExists ==>
            (result.cef.due <==> result.cef.applicable && DueAt(stored.interval, run.cef.updatedAt, next.cef.now)))
      && (Inputs(stored, run).node.applicable && next.node.catalogExists ==>
            (result.node.due <==> result.node.applicable && DueAt(stored.interval, run.node.updatedAt, next.node.now)))
  {
  }

  /** A request is pending after the events and was pending through all of them. */
  predicate PendingThroughout(stored: Options, events: seq<Event>)
    decreases |events|
  {
    stored.updateRequested && (events == [] || PendingThroughout(After(stored, events[0]), events[1..]))
  }

  /**
   Over any sequence of events from a pending request: the request stays pending exactly
   as long as no run satisfies it, and until then every run finds its catalogs due.
   */
  lemma {:induction false} RequestSurvives(stored: Options, events: seq<Event>)
    requires stored.updateRequested
    ensures PendingThroughout(stored, events)
       <==> forall i | 0 <= i < |events| :: !Satisfies(History(stored, events[..i]), events[i])
    ensures PendingThroughout(stored, events) ==>
       && History(stored, events).updateRequested
       && forall i | 0 <= i < |events| && events[i].Run? :: ChecksDue(History(stored, events[..i]), events[i])
    decreases |events|
  {
    hide Satisfies, After, ChecksDue;
    if events != [] {
      var next, rest := After(stored, events[0]), events[1..];
      RequestStep(stored, events[0]);
      assert events[..0] == [];
      forall i | 0 <= i < |rest| ensures History(next, rest[..i]) == History(stored, events[..i + 1]) {
        HistoryHead(stored, events, i);
      }
      if next.updateRequested {
        RequestSurvives(next, rest);
        assert forall i | 0 < i < |events| :: events[i] == rest[i - 1] && History(stored, events[..i]) == History(next, rest[..i - 1]);
      }
    }
  }

  /** The event is a run that succeeds and updates every catalog it uses. */
  predicate Fulfils(stored: Options, event: Event) {
    event.Run? && Succeeds(stored, event) && Updates(stored, event)
  }

  /**
   A request that is still pending was never fulfilled; and while no run ends between
   replacing the configuration and its own end, it stays pending exactly until it is.
   */
  lemma PendingUntilFulfilled(stored: Options, events: seq<Event>)
    requires stored.updateRequested
    ensures PendingThroughout(stored, events) ==>
      forall i | 0 <= i < |events| :: !Fulfils(History(stored, events[..i]), events[i])
    ensures (forall event | event in events && event.Run? :: event.reached != AfterSave) ==>
      (PendingThroughout(stored, events) <==>
         forall i | 0 <= i < |events| :: !Fulfils(History(stored, events[..i]), events[i]))
  {
    hide Updates, Inputs, History;
    RequestSurvives(stored, events);
    forall i | 0 <= i < |events|
      ensures var at := History(stored, events[..i]);
        && (Fulfils(at, events[i]) ==> Satisfies(at, events[i]))
        && (events[i].Run? && events[i].reached != AfterSave && Satisfies(at, events[i]) ==> Fulfils(at, events[i])) {
    }
  }

  lemma {:induction false} HistoryAppend(stored: Options, events: seq<Event>, event: Event)
    ensures History(stored, events + [event]) == After(History(stored, events), event)
    decreases |events|
  {
    hide After;
    if events == [] {
      assert [event][1..] == [];
    } else {
      assert (events + [event])[1..] == events[1..] + [event];
      HistoryAppend(After(stored, events[0]), events[1..], event);
    }
  }

  lemma HistoryHead(stored: Options, events: seq<Event>, i: nat)
    requires i < |events| - 1
    ensures History(After(stored, events[0]), events[1..][..i]) == History(stored, events[..i + 1])
  {
    hide After;
    assert events[..i + 1][1..] == events[1..][..i];
  }
}
