/**
 The whole of muon_prepare_in_place in builder/src/prepare.c on one disk: the configuration is
 read, the inputs are prepared under it, and the installation writes it back on its way.
 */
module PrepareRun {
  import opened Common
  import opened Text
  import opened FileSystem
  import opened Install
  import Ini
  import PrepareInputs

  type Config = Ini.Config
  type Options = PrepareInputs.Options
  type Event = PrepareInputs.Event

  /** What a run makes of the configuration on the disk. */
  function Configured(files: Files, defaultPolicy: Option<string>): Option<Config> {
    Ini.ReadStored(if CONFIG in files then Ini.Stored(files[CONFIG]) else Ini.Missing, defaultPolicy)
  }

  function OptionsOf(config: Config): Options {
    PrepareInputs.Options(false, config.requested, config.requestedAt, config.interval, config.policy,
                          config.cefLast, config.nodeLast, false)
  }

  /** The configuration that is saved for the options. */
  function WithOptions(config: Config, o: Options): Config {
    config.(policy := o.policy, interval := o.interval, cefLast := o.cefLast, nodeLast := o.nodeLast,
            requested := o.updateRequested, requestedAt := o.updateRequestedAt)
  }

  function AfterRun(config: Config, run: Event): Config {
    WithOptions(config, PrepareInputs.After(OptionsOf(config), run))
  }

  /** What a run is given: the answers to its questions, and the fingerprints of the archives they lead to. */
  datatype Job = Job(force: bool, nodeRequired: bool, cefAnswers: PrepareInputs.CefAnswers, nodeAnswers: PrepareInputs.NodeAnswers,
                     cef: string, node: string, stamp: string, stop: nat)
  {
    function NodeFingerprint(): string { if nodeRequired then node else EMPTY_FINGERPRINT }

    predicate Valid() { IsFingerprint(cef) && IsFingerprint(node) }

    function Run(reached: PrepareInputs.Reached): Event {
      PrepareInputs.Run(force, nodeRequired, cefAnswers, nodeAnswers, reached)
    }
  }

  /** The configuration is the one before the run, or the one it saves. */
  predicate EitherConfigured(before: Files, now: Files, defaultPolicy: Option<string>, job: Job) {
    var was := Configured(before, defaultPolicy);
    || Configured(now, defaultPolicy) == was
    || (was.Some? && Configured(now, defaultPolicy) == Some(AfterRun(was.value, job.Run(PrepareInputs.AfterSave)))
        && PrepareInputs.Inputs(OptionsOf(was.value), job.Run(PrepareInputs.AfterSave)).ok)
  }

  /** What the run did to the configuration is what the event says. */
  predicate ConfiguredAfter(before: Files, now: Files, defaultPolicy: Option<string>, run: Event) {
    var was := Configured(before, defaultPolicy);
    Configured(now, defaultPolicy) == if was.Some? then Some(AfterRun(was.value, run)) else None
  }

  /** What a run finds and does, said of the configuration's own fields. */
  datatype Effect = Effect(cefUses: bool, cefDue: bool, cefStamped: bool, nodeDue: bool, nodeStamped: bool, ok: bool)

  predicate HasEffect(config: Config, force: bool, nodeRequired: bool, e: PrepareInputs.CefAnswers, f: PrepareInputs.NodeAnswers,
                      x: Effect)
  {
    var prompted := force || config.requested;
    && x.cefUses == (e.isArchive && (config.policy != "tested" || prompted))
    && x.cefDue == (x.cefUses && (!e.catalogExists || prompted || PrepareInputs.DueAt(config.interval, config.cefLast, e.now)))
    && x.cefStamped == (x.cefDue && e.updated)
    && x.nodeDue == (nodeRequired && (!f.catalogExists || prompted || PrepareInputs.DueAt(config.interval, config.nodeLast, f.now)))
    && x.nodeStamped == (x.nodeDue && f.updated)
    && x.ok == ((e.havePath || e.archiveWorks) && (config.policy == "exact" && x.cefDue ==> e.refreshWorks)
                && (nodeRequired ==> (x.nodeDue ==> f.refreshWorks) && f.resolveWorks && f.archiveWorks))
  }

  /**
   A run that fails, or stops before saving, leaves the configuration.  Any other gives each
   refreshed catalog its own new time, drops the request when every catalog in use was
   refreshed, and keeps everything else.
   */
  lemma AfterRunMeans(config: Config, force: bool, nodeRequired: bool, e: PrepareInputs.CefAnswers, f: PrepareInputs.NodeAnswers,
                      reached: PrepareInputs.Reached, x: Effect)
    requires HasEffect(config, force, nodeRequired, e, f, x)
    ensures
      var cleared := config.requested && (x.cefUses || nodeRequired)
                     && (x.cefUses ==> x.cefStamped) && (nodeRequired ==> x.nodeStamped);
      AfterRun(config, PrepareInputs.Run(force, nodeRequired, e, f, reached))
      == if !x.ok || reached == PrepareInputs.BeforeSave then config
         else config.(cefLast := if x.cefStamped then e.updatedAt else config.cefLast,
                      nodeLast := if x.nodeStamped then f.updatedAt else config.nodeLast,
                      requested := config.requested && !cleared,
                      requestedAt := if cleared then 0 else config.requestedAt)
  {
  }

  // ------------------------------------------------------- what is saved is read back

  lemma SavedIsRead(files: Files, defaultPolicy: Option<string>, run: Event)
    requires Configured(files, defaultPolicy).Some?
    ensures
      var config := Configured(files, defaultPolicy).value;
      var next := AfterRun(config, run);
      && Ini.IsValid(next)
      && Ini.ReadStored(Ini.Stored(Ini.Written(next)), defaultPolicy) == Some(next)
      && OptionsOf(next) == PrepareInputs.After(OptionsOf(config), run)
  {
    hide Ini.Read, Ini.Written, Ini.ReadStored, PrepareInputs.Inputs;
    var config := Configured(files, defaultPolicy).value;
    ConfiguredIsStorable(files, defaultPolicy);
    PolicyStays(OptionsOf(config), run);
    Ini.StoredRoundTrip(AfterRun(config, run), defaultPolicy);
  }

  /** Options that come from a configuration are written back with its policy and interval. */
  lemma PolicyStays(o: Options, event: Event)
    ensures
      var after := PrepareInputs.After(o, event);
      after.policy == o.policy && after.interval == o.interval && after.force == o.force && after.nodeRequired == o.nodeRequired
  {
  }

  lemma ConfiguredIsStorable(files: Files, defaultPolicy: Option<string>)
    requires Configured(files, defaultPolicy).Some?
    ensures
      var config := Configured(files, defaultPolicy).value;
      Ini.IsValid(config) && Ini.Storable(config, defaultPolicy) && '\0' !in config.exactVersion
  {
    hide Ini.Read, CText;
    if CONFIG in files {
      CTextIs(files[CONFIG]);
      Ini.ReadIsStorable(CText(files[CONFIG]), defaultPolicy);
    }
  }

  lemma SavedIsConfigured(before: Files, now: Files, defaultPolicy: Option<string>, run: Event)
    requires Configured(before, defaultPolicy).Some?
    requires HasConfig(now, Ini.Written(AfterRun(Configured(before, defaultPolicy).value, run)))
    ensures ConfiguredAfter(before, now, defaultPolicy, run)
  {
    hide Ini.Written, Ini.ReadStored, AfterRun;
    SavedIsRead(before, defaultPolicy, run);
  }

  lemma SameConfigured(before: Files, now: Files, defaultPolicy: Option<string>)
    requires SameAt(before, now, CONFIG)
    ensures Configured(now, defaultPolicy) == Configured(before, defaultPolicy)
  {
  }

  /** What the options hold once the inputs are there is what is saved, however the run then ends. */
  lemma SavedOptions(config: Config, job: Job, reached: PrepareInputs.Reached)
    requires PrepareInputs.Inputs(OptionsOf(config), job.Run(reached)).ok && reached != PrepareInputs.BeforeSave
    ensures
      var o := OptionsOf(config).(force := job.force, nodeRequired := job.nodeRequired);
      WithOptions(config, PrepareInputs.PrepareAll(o, job.cefAnswers, job.nodeAnswers).options) == AfterRun(config, job.Run(reached))
  {
    hide PrepareInputs.PrepareAll;
  }

  lemma NothingDone(files: Files, defaultPolicy: Option<string>, job: Job)
    ensures ConfiguredAfter(files, files, defaultPolicy, job.Run(PrepareInputs.BeforeSave))
  {
    hide Configured;
  }

  lemma UntouchedAfter(before: Files, now: Files, defaultPolicy: Option<string>, job: Job)
    requires SameAt(before, now, CONFIG)
    ensures ConfiguredAfter(before, now, defaultPolicy, job.Run(PrepareInputs.BeforeSave))
  {
    hide Configured;
    SameConfigured(before, now, defaultPolicy);
    NothingDone(before, defaultPolicy, job);
  }

  lemma EitherIsConfigured(before: Files, defaultPolicy: Option<string>, job: Job, content: string)
    requires Configured(before, defaultPolicy).Some?
    requires
      var config := Configured(before, defaultPolicy).value;
      && PrepareInputs.Inputs(OptionsOf(config), job.Run(PrepareInputs.AfterSave)).ok
      && content == Ini.Written(AfterRun(config, job.Run(PrepareInputs.AfterSave)))
    ensures forall now :: EitherConfig(before, now, content) ==> EitherConfigured(before, now, defaultPolicy, job)
  {
    hide Configured, AfterRun, SameAt, Ini.Written, PrepareInputs.Inputs;
    forall now | EitherConfig(before, now, content) ensures EitherConfigured(before, now, defaultPolicy, job) {
      if SameAt(before, now, CONFIG) {
        SameConfigured(before, now, defaultPolicy);
      } else {
        SavedIsConfigured(before, now, defaultPolicy, job.Run(PrepareInputs.AfterSave));
      }
    }
  }

  // ------------------------------------------------------------------------- a run

  /**
   One run.  Whatever happens, the configuration afterwards is the one that the event of the
   run makes of the one before, and at each moment it is one of the two.
   */
  method PrepareInPlace(disk: Disk, library: Library, defaultPolicy: Option<string>, job: Job)
    returns (ok: bool, ghost reached: PrepareInputs.Reached)
    requires disk.Recorded() && job.Valid()
    modifies disk
    ensures disk.Recorded() && old(disk.passed) <= disk.passed
    ensures Vouched(library, old(disk.files)) && BringsNoMarker(CefTree(library, job.cef)) ==>
      (forall i | |old(disk.passed)| <= i < |disk.passed| :: Vouched(library, disk.passed[i])) && Vouched(library, disk.files)
    ensures BringsNoConfig(CefTree(library, job.cef)) ==>
      && (forall i | |old(disk.passed)| <= i < |disk.passed| :: EitherConfigured(old(disk.files), disk.passed[i], defaultPolicy, job))
      && ConfiguredAfter(old(disk.files), disk.files, defaultPolicy, job.Run(reached))
    ensures Configured(old(disk.files), defaultPolicy).None? ==> !ok && disk.passed == old(disk.passed)
    ensures Configured(old(disk.files), defaultPolicy).Some? ==>
      (ok <==> PrepareInputs.Succeeds(OptionsOf(Configured(old(disk.files), defaultPolicy).value), job.Run(reached)))
    ensures ok ==> Marked(disk.files, job.cef, job.NodeFingerprint())
    ensures ok && (job.force || Vouched(library, old(disk.files))) ==>
      InPlace(library, disk.files, job.cef, job.NodeFingerprint()) && Vouched(library, disk.files)
  {
    hide Vouched, InPlace, Marked, Announced, Changing, BringsNoMarker, BringsNoConfig, EitherConfig, EitherConfigured,
      ConfiguredAfter, SameAt, IsFingerprint, CefTree, AfterRun, WithOptions, Ini.Read, Ini.Finish, Ini.Written, Ini.IsValid,
      PrepareInputs.After, PrepareInputs.PrepareAll;
    ghost var before := disk.files;
    reached := PrepareInputs.BeforeSave;
    NothingDone(before, defaultPolicy, job);
    var text := if CONFIG in disk.files then Ini.Stored(disk.files[CONFIG]) else Ini.Missing;
    if * {
      text := Ini.Unreadable;
    }
    var read := Ini.ReadWithDefault(text, defaultPolicy);
    if read.None? {
      return false, reached;
    }
    var config := read.value;
    var options := new PrepareInputs.PrepareOptions(OptionsOf(config).(force := job.force, nodeRequired := job.nodeRequired));
    var cef, node;
    ok, cef, node := options.PrepareRuntimeArchiveInputs(job.cefAnswers, job.nodeAnswers);
    if !ok {
      return;
    }
    var content := Ini.WriteContent(WithOptions(config, options.value));
    SavedOptions(config, job, PrepareInputs.AfterSave);
    SavedOptions(config, job, PrepareInputs.Finished);
    SavedIsRead(before, defaultPolicy, job.Run(PrepareInputs.AfterSave));
    EitherIsConfigured(before, defaultPolicy, job, content.value);
    EmptyIsFingerprint();
    var done, _, saved := PrepareRuntimeInPlace(disk, library, true, job.force, job.cef, job.NodeFingerprint(), content.value, job.stamp);
    ok := done;
    if saved {
      reached := if ok then PrepareInputs.Finished else PrepareInputs.AfterSave;
      SavedIsConfigured(before, disk.files, defaultPolicy, job.Run(reached));
    } else if BringsNoConfig(CefTree(library, job.cef)) {
      UntouchedAfter(before, disk.files, defaultPolicy, job);
    }
  }

  // -------------------------------------------------------------------------- runs

  /** The CEF inputs of the jobs bring neither a ready marker nor a configuration of their own. */
  ghost predicate Honest(library: Library, jobs: seq<Job>) {
    forall job | job in jobs :: BringsNoMarker(CefTree(library, job.cef))
  }

  predicate Tidy(library: Library, jobs: seq<Job>) {
    forall job | job in jobs :: BringsNoConfig(CefTree(library, job.cef))
  }

  /** Each event is the run of the job of that number, wherever it ended. */
  ghost predicate RunsOf(jobs: seq<Job>, events: seq<Event>) {
    |events| == |jobs| && forall i | 0 <= i < |jobs| :: events[i].Run? && events[i] == jobs[i].Run(events[i].reached)
  }

  /** Where a run is stopped, it has replaced the configuration or not. */
  lemma StoppedIsAfter(before: Files, now: Files, defaultPolicy: Option<string>, job: Job) returns (reached: PrepareInputs.Reached)
    requires Configured(before, defaultPolicy).Some? && EitherConfigured(before, now, defaultPolicy, job)
    ensures ConfiguredAfter(before, now, defaultPolicy, job.Run(reached))
  {
    hide Configured;
    if Configured(now, defaultPolicy) == Configured(before, defaultPolicy) {
      NothingDone(before, defaultPolicy, job);
      reached := PrepareInputs.BeforeSave;
    } else {
      reached := PrepareInputs.AfterSave;
    }
  }

  lemma RunAppends(start: Options, events: seq<Event>, before: Files, now: Files, defaultPolicy: Option<string>, run: Event)
    requires Configured(before, defaultPolicy).Some? && ConfiguredAfter(before, now, defaultPolicy, run)
    requires OptionsOf(Configured(before, defaultPolicy).value) == PrepareInputs.History(start, events)
    ensures Configured(now, defaultPolicy).Some?
    ensures OptionsOf(Configured(now, defaultPolicy).value) == PrepareInputs.History(start, events + [run])
  {
    hide Configured, PrepareInputs.History, PrepareInputs.After, AfterRun;
    SavedIsRead(before, defaultPolicy, run);
    PrepareInputs.HistoryAppend(start, events, run);
  }

  /** The options on the disk after the events, starting from a disk with a usable configuration. */
  ghost predicate Follows(before: Files, now: Files, defaultPolicy: Option<string>, events: seq<Event>) {
    && Configured(before, defaultPolicy).Some? && Configured(now, defaultPolicy).Some?
    && OptionsOf(Configured(now, defaultPolicy).value)
       == PrepareInputs.History(OptionsOf(Configured(before, defaultPolicy).value), events)
  }

  /** An update request on the disk stays there as long as no run satisfies it. */
  ghost predicate KeepsRequest(before: Files, now: Files, defaultPolicy: Option<string>, events: seq<Event>)
    requires Follows(before, now, defaultPolicy, events)
  {
    var start := OptionsOf(Configured(before, defaultPolicy).value);
    start.updateRequested
    && (forall i | 0 <= i < |events| :: !PrepareInputs.Satisfies(PrepareInputs.History(start, events[..i]), events[i]))
    ==> Configured(now, defaultPolicy).value.requested
  }

  lemma RequestIsKept(before: Files, now: Files, defaultPolicy: Option<string>, events: seq<Event>)
    requires Follows(before, now, defaultPolicy, events)
    ensures KeepsRequest(before, now, defaultPolicy, events)
  {
    hide Configured, PrepareInputs.Satisfies, PrepareInputs.History;
    var start := OptionsOf(Configured(before, defaultPolicy).value);
    if start.updateRequested {
      PrepareInputs.RequestSurvives(start, events);
    }
  }

  /**
   Any number of runs on one disk, each stopped wherever its job says or run to its end.  With
   honest inputs a marker keeps vouching truly; with tidy ones the options on the disk go
   through the history of the runs, so an update request on it is pending as long as no run
   satisfies it.
   */
  method PrepareRepeatedly(disk: Disk, library: Library, defaultPolicy: Option<string>, jobs: seq<Job>) returns (ghost events: seq<Event>)
    requires disk.Recorded() && forall job | job in jobs :: job.Valid()
    modifies disk
    ensures disk.Recorded() && old(disk.passed) <= disk.passed && RunsOf(jobs, events)
    ensures Vouched(library, old(disk.files)) && Honest(library, jobs) ==>
      (forall i | |old(disk.passed)| <= i < |disk.passed| :: Vouched(library, disk.passed[i])) && Vouched(library, disk.files)
    ensures Configured(old(disk.files), defaultPolicy).Some? && Tidy(library, jobs) ==>
      && Follows(old(disk.files), disk.files, defaultPolicy, events)
      && KeepsRequest(old(disk.files), disk.files, defaultPolicy, events)
  {
    hide Vouched, InPlace, Marked, Configured, ConfiguredAfter, EitherConfigured, Follows, BringsNoMarker, BringsNoConfig, CefTree,
      IsFingerprint, PrepareInputs.Succeeds;
    ghost var before := disk.files;
    ghost var honest := Vouched(library, before) && Honest(library, jobs);
    ghost var tidy := Configured(before, defaultPolicy).Some? && Tidy(library, jobs);
    events := [];
    if tidy {
      NothingFollowed(before, defaultPolicy);
    }
    for n := 0 to |jobs|
      invariant disk.Recorded() && old(disk.passed) <= disk.passed && RunsOf(jobs[..n], events)
      invariant honest ==> forall i | |old(disk.passed)| <= i < |disk.passed| :: Vouched(library, disk.passed[i])
      invariant honest ==> Vouched(library, disk.files)
      invariant tidy ==> Follows(before, disk.files, defaultPolicy, events)
    {
      var job, first := jobs[n], |disk.passed|;
      ghost var start := disk.files;
      assert job in jobs;
      var _, reached := PrepareInPlace(disk, library, defaultPolicy, job);
      if first + job.stop < |disk.passed| {
        if tidy {
          FollowsFrom(before, start, defaultPolicy, events);
          reached := StoppedIsAfter(start, disk.passed[first + job.stop], defaultPolicy, job);
        }
        disk.Become(disk.passed[first + job.stop]);
      }
      if tidy {
        RunFollows(before, start, disk.files, defaultPolicy, events, job.Run(reached));
      }
      events := events + [job.Run(reached)];
    }
    assert jobs[..|jobs|] == jobs;
    if tidy {
      RequestIsKept(before, disk.files, defaultPolicy, events);
    }
  }

  lemma NothingFollowed(files: Files, defaultPolicy: Option<string>)
    requires Configured(files, defaultPolicy).Some?
    ensures Follows(files, files, defaultPolicy, [])
  {
  }

  lemma FollowsFrom(before: Files, now: Files, defaultPolicy: Option<string>, events: seq<Event>)
    requires Follows(before, now, defaultPolicy, events)
    ensures Configured(now, defaultPolicy).Some?
  {
  }

  lemma RunFollows(before: Files, start: Files, now: Files, defaultPolicy: Option<string>, events: seq<Event>, run: Event)
    requires Follows(before, start, defaultPolicy, events) && ConfiguredAfter(start, now, defaultPolicy, run)
    ensures Follows(before, now, defaultPolicy, events + [run])
  {
    hide Configured, ConfiguredAfter, PrepareInputs.History;
    RunAppends(OptionsOf(Configured(before, defaultPolicy).value), events, start, now, defaultPolicy, run);
  }
}
