/** The runtime configuration: a snapshot of stored values and audit settings derived
    from it, rebuilt only when one of the two audit keys changes. */
module RuntimeConfiguration {
  import opened Text
  import opened Audit

  const AUDIT_LOG_ENABLED_KEY := "audit_log_enabled"
  const AUDIT_LOG_RECORDED_ACTIONS_KEY := "audit_log_recorded_actions"

  datatype Model = Model(key: string, value: string, requiresRestart: bool)

  type Snapshot = map<string, Model>

  /** How the shared snapshot takes one model in. It may refuse, for instance a value that
      needs a restart, but touches no other key. */
  type Sync = (Snapshot, Model) -> Snapshot

  ghost predicate ValidSync(sync: Sync) {
    forall snapshot: Snapshot, m: Model, key: string ::
      key != m.key ==>
        (key in sync(snapshot, m) <==> key in snapshot) && (key in snapshot ==> sync(snapshot, m)[key] == snapshot[key])
  }

  function Get(snapshot: Snapshot, key: string): Option<string> {
    if key in snapshot then Some(snapshot[key].value) else None
  }

  function FromConfigs(configs: seq<Model>): Snapshot {
    if configs == [] then map[]
    else
      var last := configs[|configs| - 1];
      FromConfigs(configs[..|configs| - 1])[last.key := last]
  }

  /** A loaded snapshot has a key exactly when some row has it, with the last such row. */
  lemma {:induction false} FromConfigsMeaning(configs: seq<Model>, key: string)
    ensures key in FromConfigs(configs) <==> exists i :: 0 <= i < |configs| && configs[i].key == key
    ensures forall i ::
              0 <= i < |configs| && configs[i].key == key && (forall j :: i < j < |configs| ==> configs[j].key != key)
              ==> key in FromConfigs(configs) && FromConfigs(configs)[key] == configs[i]
  {
    if configs != [] {
      var n := |configs| - 1;
      FromConfigsMeaning(configs[..n], key);
      assert forall i :: 0 <= i < n ==> configs[..n][i] == configs[i];
    }
  }

  predicate IsAuditRuntimeKey(key: string) { key == AUDIT_LOG_ENABLED_KEY || key == AUDIT_LOG_RECORDED_ACTIONS_KEY }

  ghost function BuildAuditSettings(p: Parsers, snapshot: Snapshot): Settings
    requires p.Valid()
  {
    FromRawValues(p, Get(snapshot, AUDIT_LOG_ENABLED_KEY), Get(snapshot, AUDIT_LOG_RECORDED_ACTIONS_KEY))
  }

  class RuntimeConfig {
    const parsers: Parsers
    const sync: Sync
    var snapshot: Snapshot
    var auditLogSettings: Settings

    /** The cached settings are what a rebuild would give now. */
    ghost predicate Valid()
      reads this
    {
      parsers.Valid() && ValidSync(sync) && auditLogSettings == BuildAuditSettings(parsers, snapshot)
    }

    constructor (parsers: Parsers, sync: Sync)
      requires parsers.Valid() && ValidSync(sync)
      ensures Valid() && this.parsers == parsers && this.sync == sync && snapshot == map[]
    {
      this.parsers := parsers;
      this.sync := sync;
      snapshot := map[];
      var mask := AllActionsMask(parsers.count);
      auditLogSettings := Settings(DEFAULT_ENABLED, mask);
    }

    method Rebuild(from: Snapshot) returns (s: Settings)
      requires parsers.Valid()
      ensures s == BuildAuditSettings(parsers, from)
    {
      s := BuildSettings(parsers, Get(from, AUDIT_LOG_ENABLED_KEY), Get(from, AUDIT_LOG_RECORDED_ACTIONS_KEY));
    }

    /** A failed read of the table changes nothing. */
    method Reload(loaded: Option<seq<Model>>) returns (ok: bool)
      requires Valid()
      modifies this
      ensures Valid() && ok == loaded.Some?
      ensures snapshot == if ok then FromConfigs(loaded.value) else old(snapshot)
    {
      if loaded.None? {
        return false;
      }
      var next := FromConfigs(loaded.value);
      var settings := Rebuild(next);
      snapshot := next;
      auditLogSettings := settings;
      ok := true;
    }

    method Apply(config: Model)
      requires Valid()
      modifies this
      ensures Valid() && snapshot == sync(old(snapshot), config)
    {
      var isAuditKey := IsAuditRuntimeKey(config.key);
      var next := sync(snapshot, config);
      var changed := next != snapshot;
      snapshot := next;
      if changed && isAuditKey {
        auditLogSettings := Rebuild(snapshot);
      } else {
        OtherKeysDoNotMatter(parsers, old(snapshot), snapshot);
      }
    }

    method Remove(key: string)
      requires Valid()
      modifies this
      ensures Valid() && snapshot == old(snapshot) - {key}
    {
      var removed := key in snapshot;
      snapshot := snapshot - {key};
      if removed && IsAuditRuntimeKey(key) {
        auditLogSettings := Rebuild(snapshot);
      } else {
        OtherKeysDoNotMatter(parsers, old(snapshot), snapshot);
      }
    }

    method ShouldRecordAuditAction(action: nat) returns (record: bool)
      requires Valid() && action < parsers.count
      ensures record <==> PlainRule(parsers, snapshot, action)
    {
      CachedRuleIsPlainRule(parsers, snapshot, action);
      record := ShouldRecord(auditLogSettings, action);
    }
  }

  ghost predicate PlainRule(p: Parsers, snapshot: Snapshot, action: nat) {
    && (AUDIT_LOG_ENABLED_KEY in snapshot ==> p.parseBool(snapshot[AUDIT_LOG_ENABLED_KEY].value) != Some(false))
    && (AUDIT_LOG_RECORDED_ACTIONS_KEY in snapshot ==>
          var listed := p.actions(snapshot[AUDIT_LOG_RECORDED_ACTIONS_KEY].value);
          listed.Some? ==> action in listed.value)
  }

  lemma CachedRuleIsPlainRule(p: Parsers, snapshot: Snapshot, action: nat)
    requires p.Valid() && action < p.count
    ensures action / 64 < |BuildAuditSettings(p, snapshot).actionMask|
    ensures ShouldRecord(BuildAuditSettings(p, snapshot), action) <==> PlainRule(p, snapshot, action)
  {
    ShouldRecordMeaning(p, Get(snapshot, AUDIT_LOG_ENABLED_KEY), Get(snapshot, AUDIT_LOG_RECORDED_ACTIONS_KEY), action);
  }

  /** Snapshots that agree on the two audit keys give the same settings. */
  lemma OtherKeysDoNotMatter(p: Parsers, a: Snapshot, b: Snapshot)
    requires p.Valid()
    requires forall key :: IsAuditRuntimeKey(key) ==> Get(a, key) == Get(b, key)
    ensures BuildAuditSettings(p, a) == BuildAuditSettings(p, b)
  {
    assert IsAuditRuntimeKey(AUDIT_LOG_ENABLED_KEY) && IsAuditRuntimeKey(AUDIT_LOG_RECORDED_ACTIONS_KEY);
  }

  // ---- runs ---------------------------------------------------------------------

  datatype Call = ReloadCall(loaded: Option<seq<Model>>) | ApplyCall(config: Model) | RemoveCall(key: string)

  /** The two fields as a value, changed exactly as the methods change them. */
  datatype Fields = Fields(snapshot: Snapshot, settings: Settings)

  ghost function Next(p: Parsers, sync: Sync, f: Fields, call: Call): Fields
    requires p.Valid()
  {
    match call
    case ReloadCall(None) => f
    case ReloadCall(Some(configs)) => Fields(FromConfigs(configs), BuildAuditSettings(p, FromConfigs(configs)))
    case ApplyCall(config) =>
      var next := sync(f.snapshot, config);
      var rebuilds := next != f.snapshot && IsAuditRuntimeKey(config.key);
      Fields(next, if rebuilds then BuildAuditSettings(p, next) else f.settings)
    case RemoveCall(key) =>
      var next := f.snapshot - {key};
      Fields(next, if key in f.snapshot && IsAuditRuntimeKey(key) then BuildAuditSettings(p, next) else f.settings)
  }

  ghost function Run(p: Parsers, sync: Sync, f: Fields, calls: seq<Call>): Fields
    requires p.Valid()
    decreases |calls|
  {
    if calls == [] then f else Run(p, sync, Next(p, sync, f, calls[0]), calls[1..])
  }

  lemma StepKeepsCacheCurrent(p: Parsers, sync: Sync, f: Fields, call: Call)
    requires p.Valid() && ValidSync(sync) && f.settings == BuildAuditSettings(p, f.snapshot)
    ensures var n := Next(p, sync, f, call); n.settings == BuildAuditSettings(p, n.snapshot)
  {
    var n := Next(p, sync, f, call);
    if (call.ApplyCall? && !IsAuditRuntimeKey(call.config.key)) || (call.RemoveCall? && !IsAuditRuntimeKey(call.key)) {
      OtherKeysDoNotMatter(p, f.snapshot, n.snapshot);
    } else if call.RemoveCall? && call.key !in f.snapshot {
      assert n.snapshot == f.snapshot;
    }
  }

  /** After any sequence of calls the cache equals a rebuild from the snapshot, so every
      question about an action is answered by the plain rule on the stored values. */
  lemma {:induction false} CacheIsAlwaysCurrent(p: Parsers, sync: Sync, f: Fields, calls: seq<Call>, action: nat)
    requires p.Valid() && ValidSync(sync) && f.settings == BuildAuditSettings(p, f.snapshot) && action < p.count
    ensures var n := Run(p, sync, f, calls);
            && n.settings == BuildAuditSettings(p, n.snapshot)
            && action / 64 < |n.settings.actionMask|
            && (ShouldRecord(n.settings, action) <==> PlainRule(p, n.snapshot, action))
    decreases |calls|
  {
    if calls == [] {
      CachedRuleIsPlainRule(p, f.snapshot, action);
    } else {
      StepKeepsCacheCurrent(p, sync, f, calls[0]);
      CacheIsAlwaysCurrent(p, sync, Next(p, sync, f, calls[0]), calls[1..], action);
    }
  }
}
