/** The runtime configuration with calls in parallel. Changing the snapshot, rebuilding the
    audit settings and writing them are separate steps; a reload builds its settings before
    it replaces the snapshot. */
module RuntimeConfigurationInterleaved {
  import opened Text
  import opened Audit
  import opened RuntimeConfiguration

  /** Where a call stands: its audit key changed, settings built and waiting to be written,
      a reload's table read, or done. */
  datatype Caller =
    | Changed
    | Rebuilt(settings: Settings)
    | Fetched(next: Snapshot, settings: Settings)
    | Done

  datatype World = World(snapshot: Snapshot, settings: Settings, callers: map<nat, Caller>)

  datatype Step =
    | Change(who: nat, call: Call)
    | Rebuild(who: nat)
    | Fetch(who: nat, configs: seq<Model>)
    | Replace(who: nat)
    | Write(who: nat)

  predicate Enabled(w: World, step: Step) {
    match step
    case Change(who, call) => who !in w.callers && !call.ReloadCall?
    case Rebuild(who) => who in w.callers && w.callers[who].Changed?
    case Fetch(who, _) => who !in w.callers
    case Replace(who) => who in w.callers && w.callers[who].Fetched?
    case Write(who) => who in w.callers && w.callers[who].Rebuilt?
  }

  function KeyOf(call: Call): string
    requires !call.ReloadCall?
  {
    if call.ApplyCall? then call.config.key else call.key
  }

  function SnapshotAfter(sync: Sync, snapshot: Snapshot, call: Call): Snapshot
    requires !call.ReloadCall?
  {
    if call.ApplyCall? then sync(snapshot, call.config) else snapshot - {call.key}
  }

  /** The call changes the snapshot on an audit key. */
  predicate AuditChange(sync: Sync, snapshot: Snapshot, call: Call) {
    !call.ReloadCall? && SnapshotAfter(sync, snapshot, call) != snapshot && IsAuditRuntimeKey(KeyOf(call))
  }

  ghost function Next(p: Parsers, sync: Sync, w: World, step: Step): World
    requires p.Valid() && Enabled(w, step)
  {
    match step
    case Change(who, call) =>
      var next := SnapshotAfter(sync, w.snapshot, call);
      w.(snapshot := next,
         callers := w.callers[who := if AuditChange(sync, w.snapshot, call) then Changed else Done])
    case Rebuild(who) => w.(callers := w.callers[who := Rebuilt(BuildAuditSettings(p, w.snapshot))])
    case Fetch(who, configs) =>
      var next := FromConfigs(configs);
      w.(callers := w.callers[who := Fetched(next, BuildAuditSettings(p, next))])
    case Replace(who) =>
      w.(snapshot := w.callers[who].next, callers := w.callers[who := Rebuilt(w.callers[who].settings)])
    case Write(who) => w.(settings := w.callers[who].settings, callers := w.callers[who := Done])
  }

  ghost predicate EnabledRun(p: Parsers, sync: Sync, w: World, steps: seq<Step>)
    requires p.Valid()
    decreases |steps|
  {
    steps == [] || (Enabled(w, steps[0]) && EnabledRun(p, sync, Next(p, sync, w, steps[0]), steps[1..]))
  }

  ghost function Run(p: Parsers, sync: Sync, w: World, steps: seq<Step>): World
    requires p.Valid() && EnabledRun(p, sync, w, steps)
    decreases |steps|
  {
    if steps == [] then w else Run(p, sync, Next(p, sync, w, steps[0]), steps[1..])
  }

  // ---- when the cache is current ---------------------------------------------------

  /** No call is under way. */
  ghost predicate Quiet(w: World) { forall who :: who in w.callers ==> w.callers[who].Done? }

  ghost predicate Current(p: Parsers, w: World)
    requires p.Valid()
  {
    w.settings == BuildAuditSettings(p, w.snapshot)
  }

  /** The settings a call is about to write are no longer those of the snapshot. */
  ghost predicate Overtaken(p: Parsers, w: World, who: nat)
    requires p.Valid() && who in w.callers && w.callers[who].Rebuilt?
  {
    w.callers[who].settings != BuildAuditSettings(p, w.snapshot)
  }

  /** All other calls are done. */
  ghost predicate LastOne(w: World, who: nat) {
    forall other :: other in w.callers && other != who ==> w.callers[other].Done?
  }

  /** A write that leaves no call under way was not overtaken. */
  ghost predicate Timely(p: Parsers, w: World, step: Step)
    requires p.Valid() && Enabled(w, step)
  {
    step.Write? && LastOne(w, step.who) ==> !Overtaken(p, w, step.who)
  }

  ghost predicate TimelyRun(p: Parsers, sync: Sync, w: World, steps: seq<Step>)
    requires p.Valid() && EnabledRun(p, sync, w, steps)
    decreases |steps|
  {
    steps == [] || (Timely(p, w, steps[0]) && TimelyRun(p, sync, Next(p, sync, w, steps[0]), steps[1..]))
  }

  /** Whenever no call is under way, at any moment of the run, the cache is current. */
  ghost predicate CurrentWhenQuiet(p: Parsers, sync: Sync, w: World, steps: seq<Step>)
    requires p.Valid() && EnabledRun(p, sync, w, steps)
    decreases |steps|
  {
    && (Quiet(w) ==> Current(p, w))
    && (steps == [] || CurrentWhenQuiet(p, sync, Next(p, sync, w, steps[0]), steps[1..]))
  }

  /** A change that needs no rebuild leaves the settings of the snapshot as they were. */
  lemma PlainChangeKeepsSettings(p: Parsers, sync: Sync, w: World, call: Call)
    requires p.Valid() && ValidSync(sync) && !call.ReloadCall? && !AuditChange(sync, w.snapshot, call)
    ensures BuildAuditSettings(p, SnapshotAfter(sync, w.snapshot, call)) == BuildAuditSettings(p, w.snapshot)
  {
    var next := SnapshotAfter(sync, w.snapshot, call);
    if next != w.snapshot { OtherKeysDoNotMatter(p, w.snapshot, next); }
  }

  /** One step keeps quiet moments current exactly when it does not end the activity with
      settings that are out of date. */
  lemma StepKeepsCurrentExactly(p: Parsers, sync: Sync, w: World, step: Step)
    requires p.Valid() && ValidSync(sync) && Enabled(w, step) && (Quiet(w) ==> Current(p, w))
    ensures var n := Next(p, sync, w, step); (Quiet(n) ==> Current(p, n)) <==> Timely(p, w, step)
  {
    var n := Next(p, sync, w, step);
    match step
    case Change(who, call) =>
      if n.callers[who].Done? {
        PlainChangeKeepsSettings(p, sync, w, call);
        assert Quiet(n) ==> Quiet(w) by {
          assert forall other :: other in w.callers ==> n.callers[other] == w.callers[other];
        }
      }
    case Write(who) =>
      assert forall other :: other in w.callers && other != who ==> n.callers[other] == w.callers[other];
      assert LastOne(w, who) <==> Quiet(n) by {
        if Quiet(n) {
          forall other | other in w.callers && other != who ensures w.callers[other].Done? {
            assert other in n.callers;
          }
        }
      }
    case Rebuild(who) => assert !n.callers[who].Done?;
    case Fetch(who, _) => assert !n.callers[who].Done?;
    case Replace(who) => assert !n.callers[who].Done?;
  }

  lemma {:induction false} CacheIsCurrentExactly(p: Parsers, sync: Sync, w: World, steps: seq<Step>)
    requires p.Valid() && ValidSync(sync) && EnabledRun(p, sync, w, steps) && (Quiet(w) ==> Current(p, w))
    ensures CurrentWhenQuiet(p, sync, w, steps) <==> TimelyRun(p, sync, w, steps)
    decreases |steps|
  {
    if steps != [] {
      var n := Next(p, sync, w, steps[0]);
      StepKeepsCurrentExactly(p, sync, w, steps[0]);
      if Quiet(n) ==> Current(p, n) { CacheIsCurrentExactly(p, sync, n, steps[1..]); }
    }
  }

  // ---- the condition on the schedule -------------------------------------------------

  /** The calls that no other call's audit-key change or snapshot replacement has followed
      since they built their settings, or replaced the snapshot by that of their settings. */
  function UndisturbedAfter(sync: Sync, w: World, calls: set<nat>, step: Step): set<nat> {
    match step
    case Rebuild(who) => calls + {who}
    case Replace(who) => {who}
    case Change(_, call) => if AuditChange(sync, w.snapshot, call) then {} else calls
    case Fetch(_, _) => calls
    case Write(_) => calls
  }

  /** Each write that ends the activity is by an undisturbed call. */
  ghost predicate EndsUndisturbed(p: Parsers, sync: Sync, w: World, calls: set<nat>, steps: seq<Step>)
    requires p.Valid() && EnabledRun(p, sync, w, steps)
    decreases |steps|
  {
    steps == [] ||
    (&& (steps[0].Write? && LastOne(w, steps[0].who) ==> steps[0].who in calls)
     && EndsUndisturbed(p, sync, Next(p, sync, w, steps[0]), UndisturbedAfter(sync, w, calls, steps[0]), steps[1..]))
  }

  /** Undisturbed calls hold the settings of the snapshot, and a reload those of its table. */
  ghost predicate Tracks(p: Parsers, w: World, calls: set<nat>)
    requires p.Valid()
  {
    forall who :: who in w.callers ==>
      && (w.callers[who].Rebuilt? && who in calls ==> w.callers[who].settings == BuildAuditSettings(p, w.snapshot))
      && (w.callers[who].Fetched? ==> w.callers[who].settings == BuildAuditSettings(p, w.callers[who].next))
  }

  /** Disturbed calls hold other settings. */
  ghost predicate Strays(p: Parsers, w: World, calls: set<nat>)
    requires p.Valid()
  {
    forall who :: who in w.callers && w.callers[who].Rebuilt? && who !in calls ==>
      w.callers[who].settings != BuildAuditSettings(p, w.snapshot)
  }

  lemma StepTracks(p: Parsers, sync: Sync, w: World, calls: set<nat>, step: Step)
    requires p.Valid() && ValidSync(sync) && Enabled(w, step) && Tracks(p, w, calls)
    ensures Tracks(p, Next(p, sync, w, step), UndisturbedAfter(sync, w, calls, step))
  {
    if step.Change? && !AuditChange(sync, w.snapshot, step.call) { PlainChangeKeepsSettings(p, sync, w, step.call); }
  }

  lemma {:induction false} UndisturbedIsTimely(p: Parsers, sync: Sync, w: World, calls: set<nat>, steps: seq<Step>)
    requires p.Valid() && ValidSync(sync) && EnabledRun(p, sync, w, steps) && Tracks(p, w, calls)
    requires EndsUndisturbed(p, sync, w, calls, steps)
    ensures TimelyRun(p, sync, w, steps)
    decreases |steps|
  {
    if steps != [] {
      StepTracks(p, sync, w, calls, steps[0]);
      UndisturbedIsTimely(p, sync, Next(p, sync, w, steps[0]), UndisturbedAfter(sync, w, calls, steps[0]), steps[1..]);
    }
  }

  /** If no other call changes an audit key or replaces the snapshot between the rebuild and
      the write of the call that finishes last, each time all calls have finished, then the
      cache is current at every quiet moment of the run, whatever the values. */
  lemma UndisturbedRunIsCurrent(p: Parsers, sync: Sync, w: World, steps: seq<Step>)
    requires p.Valid() && ValidSync(sync) && EnabledRun(p, sync, w, steps) && Quiet(w) && Current(p, w)
    requires EndsUndisturbed(p, sync, w, {}, steps)
    ensures CurrentWhenQuiet(p, sync, w, steps)
  {
    UndisturbedIsTimely(p, sync, w, {}, steps);
    CacheIsCurrentExactly(p, sync, w, steps);
  }

  /** No change brings back the settings that another call is about to write. */
  ghost predicate BringsNew(p: Parsers, sync: Sync, w: World, step: Step)
    requires p.Valid() && Enabled(w, step)
  {
    step.Replace? || (step.Change? && AuditChange(sync, w.snapshot, step.call)) ==>
      forall who :: who in w.callers && w.callers[who].Rebuilt? ==>
        w.callers[who].settings != BuildAuditSettings(p, Next(p, sync, w, step).snapshot)
  }

  ghost predicate AllBringNew(p: Parsers, sync: Sync, w: World, steps: seq<Step>)
    requires p.Valid() && EnabledRun(p, sync, w, steps)
    decreases |steps|
  {
    steps == [] || (BringsNew(p, sync, w, steps[0]) && AllBringNew(p, sync, Next(p, sync, w, steps[0]), steps[1..]))
  }

  lemma StepStrays(p: Parsers, sync: Sync, w: World, calls: set<nat>, step: Step)
    requires p.Valid() && ValidSync(sync) && Enabled(w, step) && Strays(p, w, calls) && BringsNew(p, sync, w, step)
    ensures Strays(p, Next(p, sync, w, step), UndisturbedAfter(sync, w, calls, step))
  {
    if step.Change? && !AuditChange(sync, w.snapshot, step.call) { PlainChangeKeepsSettings(p, sync, w, step.call); }
  }

  lemma {:induction false} TimelyIsUndisturbed(p: Parsers, sync: Sync, w: World, calls: set<nat>, steps: seq<Step>)
    requires p.Valid() && ValidSync(sync) && EnabledRun(p, sync, w, steps) && Strays(p, w, calls)
    requires AllBringNew(p, sync, w, steps) && TimelyRun(p, sync, w, steps)
    ensures EndsUndisturbed(p, sync, w, calls, steps)
    decreases |steps|
  {
    if steps != [] {
      StepStrays(p, sync, w, calls, steps[0]);
      TimelyIsUndisturbed(p, sync, Next(p, sync, w, steps[0]), UndisturbedAfter(sync, w, calls, steps[0]), steps[1..]);
    }
  }

  /** And where no change happens to bring back settings about to be written, the schedule
      decides: the cache is current at every quiet moment if and only if every activity is
      ended by an undisturbed call. */
  lemma ScheduleDecidesExactly(p: Parsers, sync: Sync, w: World, steps: seq<Step>)
    requires p.Valid() && ValidSync(sync) && EnabledRun(p, sync, w, steps) && Quiet(w) && Current(p, w)
    requires AllBringNew(p, sync, w, steps)
    ensures CurrentWhenQuiet(p, sync, w, steps) <==> EndsUndisturbed(p, sync, w, {}, steps)
  {
    CacheIsCurrentExactly(p, sync, w, steps);
    if EndsUndisturbed(p, sync, w, {}, steps) {
      UndisturbedIsTimely(p, sync, w, {}, steps);
    } else if TimelyRun(p, sync, w, steps) {
      TimelyIsUndisturbed(p, sync, w, {}, steps);
    }
  }

  // ---- what overtakes a single write ---------------------------------------------------

  /** Steps that change no audit key and are not this call's own. */
  predicate Harmless(sync: Sync, w: World, step: Step, who: nat) {
    step.who != who && !step.Replace? && (step.Change? ==> !AuditChange(sync, w.snapshot, step.call))
  }

  ghost predicate HarmlessRun(p: Parsers, sync: Sync, w: World, steps: seq<Step>, who: nat)
    requires p.Valid() && EnabledRun(p, sync, w, steps)
    decreases |steps|
  {
    steps == [] ||
    (Harmless(sync, w, steps[0], who) && HarmlessRun(p, sync, Next(p, sync, w, steps[0]), steps[1..], who))
  }

  /** Only another call's audit-key change or snapshot replacement between a call's rebuild
      and its write can overtake it. */
  lemma {:induction false} OnlyAuditChangesOvertake(p: Parsers, sync: Sync, w: World, steps: seq<Step>, who: nat)
    requires p.Valid() && ValidSync(sync) && EnabledRun(p, sync, w, steps) && HarmlessRun(p, sync, w, steps, who)
    requires who in w.callers && w.callers[who].Rebuilt? && !Overtaken(p, w, who)
    ensures var n := Run(p, sync, w, steps);
            who in n.callers && n.callers[who] == w.callers[who] && !Overtaken(p, n, who)
    decreases |steps|
  {
    if steps != [] {
      if steps[0].Change? { PlainChangeKeepsSettings(p, sync, w, steps[0].call); }
      OnlyAuditChangesOvertake(p, sync, Next(p, sync, w, steps[0]), steps[1..], who);
    }
  }

  // ---- a lost update ----------------------------------------------------------------

  function PlainSync(): Sync { (snapshot: Snapshot, m: Model) => snapshot[m.key := m] }

  function SetEnabled(value: string): Call { ApplyCall(Model(AUDIT_LOG_ENABLED_KEY, value, false)) }

  lemma StepThen(p: Parsers, sync: Sync, w: World, step: Step, rest: seq<Step>)
    requires p.Valid() && Enabled(w, step) && EnabledRun(p, sync, Next(p, sync, w, step), rest)
    ensures EnabledRun(p, sync, w, [step] + rest)
    ensures Run(p, sync, w, [step] + rest) == Run(p, sync, Next(p, sync, w, step), rest)
  {
    assert ([step] + rest)[1..] == rest;
  }

  function Overlap(a: nat, first: Call, b: nat, second: Call): seq<Step> {
    [Change(a, first), Rebuild(a)] + [Change(b, second), Rebuild(b)] + [Write(b), Write(a)]
  }

  lemma {:induction false} RunsCompose(p: Parsers, sync: Sync, w: World, first: seq<Step>, second: seq<Step>)
    requires p.Valid() && EnabledRun(p, sync, w, first) && EnabledRun(p, sync, Run(p, sync, w, first), second)
    ensures EnabledRun(p, sync, w, first + second)
    ensures Run(p, sync, w, first + second) == Run(p, sync, Run(p, sync, w, first), second)
    decreases |first|
  {
    if first == [] {
      assert first + second == second;
    } else {
      assert (first + second)[1..] == first[1..] + second;
      RunsCompose(p, sync, Next(p, sync, w, first[0]), first[1..], second);
    }
  }

  lemma ChangeAndRebuild(p: Parsers, sync: Sync, w: World, who: nat, call: Call)
    requires p.Valid() && who !in w.callers && AuditChange(sync, w.snapshot, call)
    ensures var steps, next := [Change(who, call), Rebuild(who)], SnapshotAfter(sync, w.snapshot, call);
            && EnabledRun(p, sync, w, steps)
            && Run(p, sync, w, steps) == World(next, w.settings, w.callers[who := Rebuilt(BuildAuditSettings(p, next))])
  {
    var changed := Next(p, sync, w, Change(who, call));
    StepThen(p, sync, changed, Rebuild(who), []);
    StepThen(p, sync, w, Change(who, call), [Rebuild(who)]);
    assert changed.callers[who := Rebuilt(BuildAuditSettings(p, changed.snapshot))]
           == w.callers[who := Rebuilt(BuildAuditSettings(p, changed.snapshot))];
  }

  lemma WriteBoth(p: Parsers, sync: Sync, w: World, b: nat, a: nat)
    requires p.Valid() && a != b && a in w.callers && b in w.callers && w.callers[a].Rebuilt? && w.callers[b].Rebuilt?
    ensures EnabledRun(p, sync, w, [Write(b), Write(a)])
    ensures Run(p, sync, w, [Write(b), Write(a)])
            == World(w.snapshot, w.callers[a].settings, w.callers[b := Done][a := Done])
  {
    var written := Next(p, sync, w, Write(b));
    StepThen(p, sync, written, Write(a), []);
    StepThen(p, sync, w, Write(b), [Write(a)]);
  }

  /** Any two audit-key changes can run so that the second call does all its steps between the
      first one's rebuild and its write. The cache then holds the settings after the first
      change while the snapshot holds both. */
  lemma OverlapLosesUpdate(p: Parsers, sync: Sync, w: World, a: nat, first: Call, b: nat, second: Call)
    requires p.Valid() && a !in w.callers && b !in w.callers && a != b && Quiet(w)
    requires AuditChange(sync, w.snapshot, first)
    requires AuditChange(sync, SnapshotAfter(sync, w.snapshot, first), second)
    ensures var one := SnapshotAfter(sync, w.snapshot, first);
            && EnabledRun(p, sync, w, Overlap(a, first, b, second))
            && var n := Run(p, sync, w, Overlap(a, first, b, second));
               && Quiet(n) && n.snapshot == SnapshotAfter(sync, one, second) && n.settings == BuildAuditSettings(p, one)
               && (Current(p, n) <==> BuildAuditSettings(p, one) == BuildAuditSettings(p, n.snapshot))
  {
    ChangeAndRebuild(p, sync, w, a, first);
    var w1 := Run(p, sync, w, [Change(a, first), Rebuild(a)]);
    ChangeAndRebuild(p, sync, w1, b, second);
    RunsCompose(p, sync, w, [Change(a, first), Rebuild(a)], [Change(b, second), Rebuild(b)]);
    var w2 := Run(p, sync, w1, [Change(b, second), Rebuild(b)]);
    WriteBoth(p, sync, w2, b, a);
    RunsCompose(p, sync, w, [Change(a, first), Rebuild(a)] + [Change(b, second), Rebuild(b)], [Write(b), Write(a)]);
  }

  /** For instance: one call switches recording off, another on; all calls are done, the
      snapshot says on and the cache says off. */
  lemma UpdateIsLost(p: Parsers)
    requires p.Valid() && p.parseBool("false") == Some(false) && p.parseBool("true") == Some(true)
    ensures var start := World(map[], BuildAuditSettings(p, map[]), map[]);
            var steps := Overlap(1, SetEnabled("false"), 2, SetEnabled("true"));
            && ValidSync(PlainSync()) && EnabledRun(p, PlainSync(), start, steps)
            && var n := Run(p, PlainSync(), start, steps);
               Quiet(n) && !Current(p, n) && !n.settings.enabled && BuildAuditSettings(p, n.snapshot).enabled
  {
    var start := World(map[], BuildAuditSettings(p, map[]), map[]);
    var one := SnapshotAfter(PlainSync(), start.snapshot, SetEnabled("false"));
    var two := SnapshotAfter(PlainSync(), one, SetEnabled("true"));
    assert "false"[0] != "true"[0];
    assert one[AUDIT_LOG_ENABLED_KEY].value == "false" && two[AUDIT_LOG_ENABLED_KEY].value == "true";
    OverlapLosesUpdate(p, PlainSync(), start, 1, SetEnabled("false"), 2, SetEnabled("true"));
  }
}
