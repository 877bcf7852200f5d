/** The background task table: compare-and-swap claims, token-guarded writes by
    workers, manual retry, cleanup, and the lane capacity kept by batch claims. */
module BackgroundTasks {
  import opened FiniteSets
  import opened Text

  datatype Status = Pending | Processing | Retry | Succeeded | Failed | Canceled

  datatype Task = Task(
    kind: nat, status: Status, attemptCount: int, maxAttempts: int, processingToken: int, nextRunAt: int,
    processingStartedAt: Option<int>, lastHeartbeatAt: Option<int>, leaseExpiresAt: Option<int>,
    startedAt: Option<int>, finishedAt: Option<int>, result: Option<string>, lastError: Option<string>,
    failureCanRetry: Option<bool>)

  /** The kind of the records kept about periodic system jobs. */
  const SYSTEM_RUNTIME: nat := 0

  type Rows = map<int, Task>

  /** What a worker got from a successful claim. */
  datatype Lease = Lease(taskId: int, token: int)

  /** The writes a worker may send; every one of them is guarded by its lease. */
  datatype Write =
    | Touch(now: int, leaseExpiresAt: int)
    | Succeed(result: Option<string>, finishedAt: int)
    | RetryLater(attemptCount: int, nextRunAt: int, lastError: string)
    | Fail(attemptCount: int, lastError: string, finishedAt: int, canRetry: bool)
    | Release(now: int, to: Status)
  {
    /** All writes but a heartbeat give the row away. */
    predicate Settles() { !Touch? }
  }

  datatype Candidate = Candidate(taskId: int, expected: int, next: int)

  // ---- row updates ------------------------------------------------------

  /** Due pending or retry rows, and processing rows whose lease has run out. */
  predicate Claimable(t: Task, now: int) {
    || ((t.status.Pending? || t.status.Retry?) && t.nextRunAt <= now)
    || (t.status.Processing? && t.leaseExpiresAt.Some? && t.leaseExpiresAt.value <= now)
  }

  predicate Guard(rows: Rows, lease: Lease) {
    && lease.taskId in rows
    && rows[lease.taskId].status.Processing?
    && rows[lease.taskId].processingToken == lease.token
  }

  function ClaimedRow(t: Task, now: int, next: int, leaseExpiresAt: int): Task {
    t.(status := Processing, processingStartedAt := Some(now), lastHeartbeatAt := Some(now),
       processingToken := next, leaseExpiresAt := Some(leaseExpiresAt),
       startedAt := if t.startedAt.Some? then t.startedAt else Some(now))
  }

  function Unleased(t: Task): Task {
    t.(processingStartedAt := None, lastHeartbeatAt := None, leaseExpiresAt := None)
  }

  function WrittenRow(t: Task, w: Write): Task {
    match w
    case Touch(now, until) => t.(lastHeartbeatAt := Some(now), leaseExpiresAt := Some(until))
    case Succeed(result, at) => Unleased(t).(status := Succeeded, result := result, finishedAt := Some(at))
    case RetryLater(attempts, at, error) =>
      Unleased(t).(status := Retry, attemptCount := attempts, nextRunAt := at, lastError := Some(error))
    case Fail(attempts, error, at, canRetry) =>
      Unleased(t).(status := Failed, attemptCount := attempts, lastError := Some(error),
                   failureCanRetry := Some(canRetry), finishedAt := Some(at))
    case Release(now, to) => Unleased(t).(status := to, nextRunAt := now)
  }

  function ResetRow(t: Task, now: int, maxAttempts: int): Task {
    Unleased(t).(status := Pending, attemptCount := 0, maxAttempts := maxAttempts, nextRunAt := now,
                 startedAt := None, finishedAt := None, lastError := None, result := None, failureCanRetry := None)
  }

  function AfterClaim(rows: Rows, c: Candidate, now: int, leaseExpiresAt: int): (Rows, bool) {
    if c.taskId in rows && rows[c.taskId].processingToken == c.expected && Claimable(rows[c.taskId], now)
    then (rows[c.taskId := ClaimedRow(rows[c.taskId], now, c.next, leaseExpiresAt)], true)
    else (rows, false)
  }

  function AfterWrite(rows: Rows, lease: Lease, w: Write): (Rows, bool) {
    if Guard(rows, lease) then (rows[lease.taskId := WrittenRow(rows[lease.taskId], w)], true) else (rows, false)
  }

  function AfterReset(rows: Rows, id: int, now: int, maxAttempts: int): (Rows, bool) {
    if id in rows && rows[id].status.Failed? then (rows[id := ResetRow(rows[id], now, maxAttempts)], true)
    else (rows, false)
  }

  /** A later success of the same system job, written over the record of the last one. */
  datatype Refresh = Refresh(id: int, result: string, nextRunAt: int, startedAt: int, finishedAt: int)

  function RefreshedRow(t: Task, r: Refresh): Task {
    Unleased(t).(status := Succeeded, result := Some(r.result), nextRunAt := r.nextRunAt,
                 startedAt := Some(r.startedAt), finishedAt := Some(r.finishedAt),
                 lastError := None, failureCanRetry := None)
  }

  function AfterRefresh(rows: Rows, r: Refresh): (Rows, bool) {
    if r.id in rows && rows[r.id].kind == SYSTEM_RUNTIME && rows[r.id].status.Succeeded?
    then (rows[r.id := RefreshedRow(rows[r.id], r)], true)
    else (rows, false)
  }

  // ---- lanes ------------------------------------------------------------

  function Active(rows: Rows, now: int, kinds: set<nat>): set<int> {
    set id | id in rows && rows[id].status.Processing? && rows[id].kind in kinds
             && rows[id].leaseExpiresAt.Some? && rows[id].leaseExpiresAt.value > now
  }

  /** The room left in a lane: its limit less what is active, never below zero. */
  function Available(limit: nat, active: nat): nat { if active < limit then limit - active else 0 }

  function ClaimUpTo(rows: Rows, claimed: seq<Lease>, available: nat, cs: seq<Candidate>, now: int, until: int)
    : (Rows, seq<Lease>)
    decreases |cs|
  {
    if cs == [] || |claimed| >= available then (rows, claimed)
    else
      var (rows', ok) := AfterClaim(rows, cs[0], now, until);
      var claimed' := if ok then claimed + [Lease(cs[0].taskId, cs[0].next)] else claimed;
      ClaimUpTo(rows', claimed', available, cs[1..], now, until)
  }

  function AfterBatch(rows: Rows, kinds: set<nat>, limit: nat, cs: seq<Candidate>, now: int, until: int)
    : (Rows, seq<Lease>)
  {
    ClaimUpTo(rows, [], Available(limit, |Active(rows, now, kinds)|), cs, now, until)
  }

  // ---- the repository ---------------------------------------------------

  class BackgroundTaskRepo {
    var rows: Rows

    constructor ()
      ensures rows == map[]
    {
      rows := map[];
    }

    method TryClaim(c: Candidate, now: int, leaseExpiresAt: int) returns (claimed: bool)
      modifies this
      ensures (rows, claimed) == AfterClaim(old(rows), c, now, leaseExpiresAt)
    {
      claimed := false;
      if c.taskId in rows {
        var t := rows[c.taskId];
        if t.processingToken == c.expected && Claimable(t, now) {
          rows := rows[c.taskId := ClaimedRow(t, now, c.next, leaseExpiresAt)];
          claimed := true;
        }
      }
    }

    method UpdateLeased(lease: Lease, w: Write) returns (updated: bool)
      modifies this
      ensures (rows, updated) == AfterWrite(old(rows), lease, w)
    {
      updated := false;
      if lease.taskId in rows {
        var t := rows[lease.taskId];
        if t.status == Processing && t.processingToken == lease.token {
          rows := rows[lease.taskId := WrittenRow(t, w)];
          updated := true;
        }
      }
    }

    /** Cooperative shutdown; any other target status is an error and changes nothing. */
    method ReleaseProcessing(lease: Lease, now: int, to: Status) returns (released: Option<bool>)
      modifies this
      ensures released.None? <==> to != Pending && to != Retry
      ensures released.None? ==> rows == old(rows)
      ensures released.Some? ==> (rows, released.value) == AfterWrite(old(rows), lease, Release(now, to))
    {
      if to != Pending && to != Retry {
        return None;
      }
      var updated := UpdateLeased(lease, Release(now, to));
      released := Some(updated);
    }

    method ResetForManualRetry(id: int, now: int, maxAttempts: int) returns (reset: bool)
      modifies this
      ensures (rows, reset) == AfterReset(old(rows), id, now, maxAttempts)
    {
      reset := false;
      if id in rows && rows[id].status == Failed {
        rows := rows[id := ResetRow(rows[id], now, maxAttempts)];
        reset := true;
      }
    }

    method RefreshSystemRuntimeSuccess(r: Refresh) returns (refreshed: bool)
      modifies this
      ensures (rows, refreshed) == AfterRefresh(old(rows), r)
    {
      refreshed := false;
      if r.id in rows && rows[r.id].kind == SYSTEM_RUNTIME && rows[r.id].status == Succeeded {
        rows := rows[r.id := RefreshedRow(rows[r.id], r)];
        refreshed := true;
      }
    }

    /** One transaction under the lane lock: count, then claim until the lane is full. */
    method ClaimCandidatesForLane(kinds: set<nat>, limit: nat, cs: seq<Candidate>, now: int, until: int)
      returns (claimed: seq<Lease>)
      modifies this
      ensures (rows, claimed) == AfterBatch(old(rows), kinds, limit, cs, now, until)
      ensures |claimed| <= Available(limit, |Active(old(rows), now, kinds)|)
      ensures |Active(rows, now, kinds)| <= limit || rows == old(rows)
    {
      claimed := [];
      var available := Available(limit, |Active(rows, now, kinds)|);
      assert cs[0..] == cs;
      var i := 0;
      while i < |cs| && |claimed| < available
        invariant 0 <= i <= |cs|
        invariant AfterBatch(old(rows), kinds, limit, cs, now, until)
                  == ClaimUpTo(rows, claimed, available, cs[i..], now, until)
      {
        assert cs[i..][1..] == cs[i + 1..];
        var didClaim := TryClaim(cs[i], now, until);
        if didClaim {
          claimed := claimed + [Lease(cs[i].taskId, cs[i].next)];
        }
        i := i + 1;
      }
      BatchKeepsLimit(old(rows), kinds, limit, cs, now, until);
    }
  }

  /** A batch never claims more than the room it found, and a lane within its
      limit stays within it. */
  lemma BatchKeepsLimit(rows: Rows, kinds: set<nat>, limit: nat, cs: seq<Candidate>, now: int, until: int)
    ensures var r := AfterBatch(rows, kinds, limit, cs, now, until);
            && |r.1| <= Available(limit, |Active(rows, now, kinds)|)
            && (|Active(r.0, now, kinds)| <= limit || r.0 == rows)
  {
    ClaimUpToKeepsLimit(rows, [], Available(limit, |Active(rows, now, kinds)|), cs, now, until, kinds);
  }

  /** A claimed row cannot be claimed again before its lease ends, and a claim that failed does
      not succeed because another one did. */
  lemma FailedClaimStaysFailed(rows: Rows, c: Candidate, d: Candidate, now: int, until: int)
    requires now < until && (c == d || !AfterClaim(rows, c, now, until).1)
    ensures !AfterClaim(AfterClaim(rows, d, now, until).0, c, now, until).1
  {
  }

  lemma {:induction false} ClaimUpToFills(
    rows: Rows, claimed: seq<Lease>, available: nat, cs: seq<Candidate>, now: int, until: int, done: seq<Candidate>)
    requires now < until && forall c :: c in done ==> !AfterClaim(rows, c, now, until).1
    ensures var r := ClaimUpTo(rows, claimed, available, cs, now, until);
            |r.1| >= available || forall c :: c in done + cs ==> !AfterClaim(r.0, c, now, until).1
    decreases |cs|
  {
    if cs == [] {
      assert done + cs == done;
    } else if |claimed| < available {
      var (rows', ok) := AfterClaim(rows, cs[0], now, until);
      var claimed' := if ok then claimed + [Lease(cs[0].taskId, cs[0].next)] else claimed;
      var done' := done + [cs[0]];
      forall c | c in done' ensures !AfterClaim(rows', c, now, until).1 {
        FailedClaimStaysFailed(rows, c, cs[0], now, until);
      }
      ClaimUpToFills(rows', claimed', available, cs[1..], now, until, done');
      assert done' + cs[1..] == done + cs;
    }
  }

  /** A batch stops only when the lane is full or none of its candidates can be claimed. */
  lemma BatchFillsLane(rows: Rows, kinds: set<nat>, limit: nat, cs: seq<Candidate>, now: int, until: int)
    requires now < until
    ensures var (after, leases) := AfterBatch(rows, kinds, limit, cs, now, until);
            || |Active(rows, now, kinds)| + |leases| >= limit
            || forall c :: c in cs ==> !AfterClaim(after, c, now, until).1
  {
    ClaimUpToFills(rows, [], Available(limit, |Active(rows, now, kinds)|), cs, now, until, []);
    assert [] + cs == cs;
  }

  lemma {:induction false} ClaimUpToKeepsLimit(
    rows: Rows, claimed: seq<Lease>, available: nat, cs: seq<Candidate>, now: int, until: int, kinds: set<nat>)
    requires |claimed| <= available
    ensures var r := ClaimUpTo(rows, claimed, available, cs, now, until);
            && |claimed| <= |r.1| <= available
            && |Active(r.0, now, kinds)| - |r.1| <= |Active(rows, now, kinds)| - |claimed|
            && (|r.1| == |claimed| ==> r.0 == rows)
    decreases |cs|
  {
    if cs != [] && |claimed| < available {
      var (rows', ok) := AfterClaim(rows, cs[0], now, until);
      ClaimAddsAtMostOne(rows, cs[0], now, until, kinds);
      var claimed' := if ok then claimed + [Lease(cs[0].taskId, cs[0].next)] else claimed;
      ClaimUpToKeepsLimit(rows', claimed', available, cs[1..], now, until, kinds);
    }
  }

  lemma ClaimAddsAtMostOne(rows: Rows, c: Candidate, now: int, until: int, kinds: set<nat>)
    ensures var r := AfterClaim(rows, c, now, until);
            |Active(r.0, now, kinds)| <= |Active(rows, now, kinds)| + if r.1 then 1 else 0
  {
    var (rows', ok) := AfterClaim(rows, c, now, until);
    var before, after := Active(rows, now, kinds), Active(rows', now, kinds);
    if ok {
      assert forall id :: id in after && id != c.taskId ==> rows'[id] == rows[id];
      SubsetSize(after, before + {c.taskId});
    }
  }

  // ---- what a write means for later claims ---------------------------------

  /** A claim succeeds exactly on a row that has the expected token and is due, or whose lease
      has run out. It starts a new lease, keeps the first start time and touches nothing else. */
  lemma ClaimColumns(rows: Rows, c: Candidate, now: int, until: int)
    ensures var (after, ok) := AfterClaim(rows, c, now, until);
            && (ok <==>
                  && c.taskId in rows && rows[c.taskId].processingToken == c.expected
                  && var t := rows[c.taskId];
                     || (t.status in {Pending, Retry} && t.nextRunAt <= now)
                     || (t.status == Processing && exists end :: t.leaseExpiresAt == Some(end) && end <= now))
            && (!ok ==> after == rows)
            && (ok ==>
                  && after.Keys == rows.Keys
                  && (forall id :: id in rows && id != c.taskId ==> after[id] == rows[id])
                  && var t, n := rows[c.taskId], after[c.taskId];
                     && n.status == Processing && n.processingToken == c.next && n.leaseExpiresAt == Some(until)
                     && n.processingStartedAt == Some(now) && n.lastHeartbeatAt == Some(now)
                     && n.startedAt == (if t.startedAt == None then Some(now) else t.startedAt)
                     && n.kind == t.kind && n.attemptCount == t.attemptCount && n.maxAttempts == t.maxAttempts
                     && n.nextRunAt == t.nextRunAt && n.finishedAt == t.finishedAt && n.result == t.result
                     && n.lastError == t.lastError && n.failureCanRetry == t.failureCanRetry)
  {
  }

  /** What each write leaves in the row: a retry or failure its count and error, a failure also
      whether it can be retried and when it ended, a success its result and end. Whatever a
      write does not report it keeps, and all but a heartbeat clear the lease. */
  lemma WriteColumns(rows: Rows, lease: Lease, w: Write)
    requires Guard(rows, lease)
    ensures var (after, ok) := AfterWrite(rows, lease, w);
            && ok && after.Keys == rows.Keys
            && (forall id :: id in rows && id != lease.taskId ==> after[id] == rows[id])
            && var t, n := rows[lease.taskId], after[lease.taskId];
               && n.kind == t.kind && n.maxAttempts == t.maxAttempts && n.startedAt == t.startedAt
               && n.processingToken == t.processingToken
               && (w.Touch? ==> n.status == Processing) && (w.Succeed? ==> n.status == Succeeded)
               && (w.RetryLater? ==> n.status == Retry) && (w.Fail? ==> n.status == Failed)
               && (w.Release? ==> n.status == w.to)
               && n.attemptCount == (if w.RetryLater? || w.Fail? then w.attemptCount else t.attemptCount)
               && n.lastError == (if w.RetryLater? || w.Fail? then Some(w.lastError) else t.lastError)
               && n.result == (if w.Succeed? then w.result else t.result)
               && n.finishedAt == (if w.Succeed? || w.Fail? then Some(w.finishedAt) else t.finishedAt)
               && n.failureCanRetry == (if w.Fail? then Some(w.canRetry) else t.failureCanRetry)
               && n.nextRunAt == (if w.RetryLater? then w.nextRunAt else if w.Release? then w.now else t.nextRunAt)
               && n.leaseExpiresAt == (if w.Touch? then Some(w.leaseExpiresAt) else None)
               && n.lastHeartbeatAt == (if w.Touch? then Some(w.now) else None)
               && n.processingStartedAt == (if w.Touch? then t.processingStartedAt else None)
  {
  }

  /** A manual retry leaves a new task of the same kind under the old token. */
  lemma ResetColumns(rows: Rows, id: int, now: int, maxAttempts: int)
    requires id in rows && rows[id].status == Failed
    ensures var t, n := rows[id], AfterReset(rows, id, now, maxAttempts).0[id];
            n == Task(t.kind, Pending, 0, maxAttempts, t.processingToken, now,
                      None, None, None, None, None, None, None, None)
  {
  }

  /** A refresh leaves the record of the new success: its result and its times, no lease and
      no failure. */
  lemma RefreshColumns(rows: Rows, r: Refresh)
    requires r.id in rows && rows[r.id].kind == SYSTEM_RUNTIME && rows[r.id].status == Succeeded
    ensures var t, n := rows[r.id], AfterRefresh(rows, r).0[r.id];
            n == Task(t.kind, Succeeded, t.attemptCount, t.maxAttempts, t.processingToken, r.nextRunAt,
                      None, None, None, Some(r.startedAt), Some(r.finishedAt), Some(r.result), None, None)
  {
  }

  /** A write under a valid lease decides from when on its row can be claimed: never
      again after success or failure, from the given time after a retry or a release, and
      after a heartbeat only once the renewed lease has run out. Kind, token and limit
      never change. */
  lemma WriteDecidesClaims(rows: Rows, lease: Lease, w: Write, at: int)
    requires Guard(rows, lease) && (w.Release? ==> w.to == Pending || w.to == Retry)
    ensures var t, n := rows[lease.taskId], AfterWrite(rows, lease, w).0[lease.taskId];
            && n.kind == t.kind && n.processingToken == t.processingToken && n.maxAttempts == t.maxAttempts
            && (n.status.Processing? <==> w.Touch?)
            && (n.status.Succeeded? <==> w.Succeed?) && (n.status.Failed? <==> w.Fail?)
            && (n.leaseExpiresAt.Some? <==> w.Touch?)
            && (Claimable(n, at) <==>
                  match w
                  case Touch(_, until) => until <= at
                  case RetryLater(_, from, _) => from <= at
                  case Release(from, _) => from <= at
                  case Succeed(_, _) => false
                  case Fail(_, _, _, _) => false)
  {
  }

  /** Manual retry makes a failed task claimable at once with a full budget, keeps its token
      so that old leases stay fenced, and touches no task that is not failed. */
  lemma ManualRetryMeaning(rows: Rows, id: int, now: int, maxAttempts: int)
    requires id in rows
    ensures var (after, ok) := AfterReset(rows, id, now, maxAttempts);
            && (ok <==> rows[id].status.Failed?) && (!ok ==> after == rows)
            && after[id].processingToken == rows[id].processingToken
            && (ok ==> Claimable(after[id], now) && after[id].attemptCount == 0 && after[id].maxAttempts == maxAttempts)
            && (forall other :: other in rows && other != id ==> after[other] == rows[other])
  {
  }

  // ---- runs of the whole system -----------------------------------------

  datatype Event =
    | Create(id: int, task: Task)
    | Claim(c: Candidate, now: int, leaseExpiresAt: int)
    | WorkerWrite(lease: Lease, w: Write)
    | ManualRetry(retryId: int, retryNow: int, maxAttempts: int)
    | SystemRefresh(r: Refresh)
    | Delete(ids: set<int>)

  /** The table with its history: every id ever used, the leases granted and the
      leases whose worker gave the row away, with how often each happened. */
  datatype State = State(rows: Rows, used: set<int>, granted: set<Lease>, settled: set<Lease>,
                         grants: nat, settlements: nat)

  const START := State(map[], {}, {}, {}, 0, 0)

  /** New rows have a fresh id and token 0 and are not being processed; a claim
      moves the token up; workers write only under leases they were granted. */
  predicate Enabled(s: State, e: Event) {
    match e
    case Create(id, t) => id !in s.used && t.processingToken == 0 && t.status != Processing && t.leaseExpiresAt == None
    case Claim(c, _, _) => c.expected < c.next
    case WorkerWrite(lease, w) => lease in s.granted && (w.Release? ==> w.to == Pending || w.to == Retry)
    case ManualRetry(_, _, _) => true
    case SystemRefresh(_) => true
    case Delete(_) => true
  }

  function Next(s: State, e: Event): State {
    match e
    case Create(id, t) => s.(rows := s.rows[id := t], used := s.used + {id})
    case Claim(c, now, until) =>
      var (rows, ok) := AfterClaim(s.rows, c, now, until);
      if ok then s.(rows := rows, granted := s.granted + {Lease(c.taskId, c.next)}, grants := s.grants + 1) else s
    case WorkerWrite(lease, w) =>
      var (rows, ok) := AfterWrite(s.rows, lease, w);
      if ok && w.Settles() then s.(rows := rows, settled := s.settled + {lease}, settlements := s.settlements + 1)
      else s.(rows := rows)
    case ManualRetry(id, now, max) => s.(rows := AfterReset(s.rows, id, now, max).0)
    case SystemRefresh(r) => s.(rows := AfterRefresh(s.rows, r).0)
    case Delete(ids) => s.(rows := s.rows - ids)
  }

  predicate EnabledRun(s: State, es: seq<Event>)
    decreases |es|
  {
    es == [] || (Enabled(s, es[0]) && EnabledRun(Next(s, es[0]), es[1..]))
  }

  function Run(s: State, es: seq<Event>): State
    decreases |es|
  {
    if es == [] then s else Run(Next(s, es[0]), es[1..])
  }

  ghost predicate Reachable(s: State) {
    exists es :: EnabledRun(START, es) && s == Run(START, es)
  }

  /** The row a task has agrees with the leases granted for it. */
  ghost predicate RowAgrees(s: State, id: int)
    requires id in s.rows
  {
    var t := s.rows[id];
    && id in s.used && 0 <= t.processingToken
    && (forall l :: l in s.granted && l.taskId == id ==> l.token <= t.processingToken)
    && (t.processingToken != 0 ==> Lease(id, t.processingToken) in s.granted)
    && (t.status.Processing? <==>
          Lease(id, t.processingToken) in s.granted && Lease(id, t.processingToken) !in s.settled)
  }

  ghost predicate Valid(s: State) {
    && (forall id :: id in s.rows ==> RowAgrees(s, id))
    && (forall l :: l in s.granted ==> 0 < l.token && l.taskId in s.used)
    && s.settled <= s.granted
    && |s.granted| == s.grants
    && |s.settled| == s.settlements
  }

  lemma ClaimKeepsRow(s: State, e: Event, id: int)
    requires Valid(s) && Enabled(s, e) && e.Claim? && id in Next(s, e).rows
    ensures RowAgrees(Next(s, e), id)
  {
    assert RowAgrees(s, id);
    var n := Next(s, e);
    if id == e.c.taskId && n != s {
      var lease := Lease(id, e.c.next);
      assert n.rows[id].processingToken == lease.token && n.granted == s.granted + {lease};
      assert lease !in s.granted;
    } else {
      assert n.rows[id] == s.rows[id];
    }
  }

  lemma WriteKeepsRow(s: State, e: Event, id: int)
    requires Valid(s) && Enabled(s, e) && e.WorkerWrite? && id in Next(s, e).rows
    ensures RowAgrees(Next(s, e), id)
  {
    assert RowAgrees(s, id);
    var n := Next(s, e);
    assert n.rows[id].processingToken == s.rows[id].processingToken;
    if id == e.lease.taskId && Guard(s.rows, e.lease) {
      assert e.lease == Lease(id, s.rows[id].processingToken);
      assert n.rows[id].status.Processing? <==> e.w.Touch?;
    } else {
      assert n.rows[id] == s.rows[id];
    }
  }

  lemma StepKeepsRow(s: State, e: Event, id: int)
    requires Valid(s) && Enabled(s, e) && id in Next(s, e).rows
    ensures RowAgrees(Next(s, e), id)
  {
    if e.Claim? {
      ClaimKeepsRow(s, e, id);
    } else if e.WorkerWrite? {
      WriteKeepsRow(s, e, id);
    } else if id in s.rows {
      assert RowAgrees(s, id);
    }
  }

  /** A successful claim makes a lease nobody had; a settling write ends a lease that
      had not ended. */
  lemma StepKeepsHistory(s: State, e: Event)
    requires Valid(s) && Enabled(s, e)
    ensures var n := Next(s, e);
            && (forall l :: l in n.granted ==> 0 < l.token && l.taskId in n.used)
            && n.settled <= n.granted && |n.granted| == n.grants && |n.settled| == n.settlements
  {
    if e.Claim? && e.c.taskId in s.rows { assert RowAgrees(s, e.c.taskId); }
    if e.WorkerWrite? && e.lease.taskId in s.rows { assert RowAgrees(s, e.lease.taskId); }
  }

  lemma StepKeepsValid(s: State, e: Event)
    requires Valid(s) && Enabled(s, e)
    ensures Valid(Next(s, e))
  {
    forall id | id in Next(s, e).rows ensures RowAgrees(Next(s, e), id) {
      StepKeepsRow(s, e, id);
    }
    StepKeepsHistory(s, e);
  }

  lemma {:induction false} RunKeepsValid(s: State, es: seq<Event>)
    requires Valid(s) && EnabledRun(s, es)
    ensures Valid(Run(s, es))
    decreases |es|
  {
    if es != [] {
      StepKeepsValid(s, es[0]);
      RunKeepsValid(Next(s, es[0]), es[1..]);
    }
  }

  lemma ReachableIsValid(s: State)
    requires Reachable(s)
    ensures Valid(s)
  {
    var es :| EnabledRun(START, es) && s == Run(START, es);
    RunKeepsValid(START, es);
  }

  /** The claims a batch tries, as events. */
  function Tried(rows: Rows, claimed: nat, available: nat, cs: seq<Candidate>, now: int, until: int): seq<Event>
    decreases |cs|
  {
    if cs == [] || claimed >= available then []
    else
      var (rows', ok) := AfterClaim(rows, cs[0], now, until);
      [Claim(cs[0], now, until)] + Tried(rows', if ok then claimed + 1 else claimed, available, cs[1..], now, until)
  }

  /** A batch is a run of single claims, so what holds of runs holds with batches in them,
      and every lease it hands out has been granted. */
  lemma {:induction false} BatchIsRun(
    s: State, claimed: seq<Lease>, available: nat, cs: seq<Candidate>, now: int, until: int)
    requires forall c :: c in cs ==> c.expected < c.next
    requires forall l :: l in claimed ==> l in s.granted
    ensures var es, (rows, leases) := Tried(s.rows, |claimed|, available, cs, now, until),
                                      ClaimUpTo(s.rows, claimed, available, cs, now, until);
            EnabledRun(s, es) && Run(s, es).rows == rows && forall l :: l in leases ==> l in Run(s, es).granted
    decreases |cs|
  {
    if cs != [] && |claimed| < available {
      var e := Claim(cs[0], now, until);
      assert cs[0] in cs && Enabled(s, e);
      var ok := AfterClaim(s.rows, cs[0], now, until).1;
      var claimed' := if ok then claimed + [Lease(cs[0].taskId, cs[0].next)] else claimed;
      BatchIsRun(Next(s, e), claimed', available, cs[1..], now, until);
      var rest := Tried(Next(s, e).rows, |claimed'|, available, cs[1..], now, until);
      assert ([e] + rest)[1..] == rest;
    }
  }

  // ---- what every reachable state promises -------------------------------

  /** Fencing: once a task has been granted again, no write under an older lease
      changes the table, whatever the write and whenever it arrives. */
  lemma StaleLeaseCannotWrite(s: State, stale: Lease, newer: Lease, w: Write)
    requires Reachable(s) && stale in s.granted && newer in s.granted
    requires stale.taskId == newer.taskId && stale.token < newer.token
    ensures AfterWrite(s.rows, stale, w) == (s.rows, false)
  {
    ReachableIsValid(s);
    if stale.taskId in s.rows { assert RowAgrees(s, stale.taskId); }
  }

  /** A lease gives its row away once: afterwards all its writes are refused, also
      after its row was claimed again, retried by hand or deleted. */
  lemma SettledLeaseCannotWrite(s: State, l: Lease, w: Write)
    requires Reachable(s) && l in s.settled
    ensures AfterWrite(s.rows, l, w) == (s.rows, false)
  {
    ReachableIsValid(s);
    if l.taskId in s.rows { assert RowAgrees(s, l.taskId); }
  }

  /** No lease is granted twice and none settles twice: successful claims are as
      many as distinct leases, successful settling writes as many as settled ones. */
  lemma GrantsAndSettlementsAreDistinct(s: State)
    requires Reachable(s)
    ensures s.grants == |s.granted| && s.settlements == |s.settled| && s.settled <= s.granted
    ensures s.settlements <= s.grants
  {
    ReachableIsValid(s);
    SubsetSize(s.settled, s.granted);
  }

  /** The row of a task being processed accepts writes from exactly one lease. */
  lemma ExactlyOneWriter(s: State, id: int)
    requires Reachable(s) && id in s.rows && s.rows[id].status.Processing?
    ensures exists l :: l in s.granted && l.taskId == id && Guard(s.rows, l)
    ensures forall l, m :: Guard(s.rows, l) && Guard(s.rows, m) && l.taskId == m.taskId ==> l == m
  {
    ReachableIsValid(s);
    assert RowAgrees(s, id);
    assert Guard(s.rows, Lease(id, s.rows[id].processingToken));
  }

  /** Every lease ever granted is accounted for: it holds its row, or gave it away,
      or lost it to a later grant, or the row is gone. */
  lemma EveryLeaseIsAccountedFor(s: State, l: Lease)
    requires Reachable(s) && l in s.granted
    ensures Guard(s.rows, l) || l in s.settled || l.taskId !in s.rows
            || exists m :: m in s.granted && m.taskId == l.taskId && l.token < m.token
    ensures Guard(s.rows, l) ==> l !in s.settled
    ensures Guard(s.rows, l) ==> forall m :: m in s.granted && m.taskId == l.taskId ==> m.token <= l.token
  {
    ReachableIsValid(s);
    if l.taskId in s.rows {
      assert RowAgrees(s, l.taskId);
      var m := Lease(l.taskId, s.rows[l.taskId].processingToken);
      assert l.token < m.token ==> m in s.granted;
    }
  }

  /** The event sets the attempt count of a row: it creates the row, it is a retry or failure
      that takes effect, or a manual retry of a failed row. */
  predicate Reports(s: State, e: Event, id: int, count: int) {
    match e
    case Create(created, t) => created == id && count == t.attemptCount
    case WorkerWrite(lease, w) =>
      lease.taskId == id && Guard(s.rows, lease) && (w.RetryLater? || w.Fail?) && count == w.attemptCount
    case ManualRetry(retried, _, _) => retried == id && id in s.rows && s.rows[id].status == Failed && count == 0
    case Claim(_, _, _) => false
    case SystemRefresh(_) => false
    case Delete(_) => false
  }

  ghost predicate SilentOn(s: State, es: seq<Event>, id: int)
    decreases |es|
  {
    es == [] || ((forall count :: !Reports(s, es[0], id, count)) && SilentOn(Next(s, es[0]), es[1..], id))
  }

  lemma ReportDecidesCount(s: State, e: Event, id: int)
    requires Enabled(s, e) && id in Next(s, e).rows
    ensures forall count :: Reports(s, e, id, count) ==> Next(s, e).rows[id].attemptCount == count
    ensures (forall count :: !Reports(s, e, id, count)) ==>
              id in s.rows && Next(s, e).rows[id].attemptCount == s.rows[id].attemptCount
  {
    if e.WorkerWrite? && Guard(s.rows, e.lease) {
      WriteColumns(s.rows, e.lease, e.w);
      assert e.lease.taskId == id && (e.w.RetryLater? || e.w.Fail?) ==> Reports(s, e, id, e.w.attemptCount);
    }
    if e.Create? { assert e.id == id ==> Reports(s, e, id, e.task.attemptCount); }
    if e.ManualRetry? && e.retryId in s.rows && s.rows[e.retryId].status == Failed {
      ResetColumns(s.rows, e.retryId, e.retryNow, e.maxAttempts);
      assert e.retryId == id ==> Reports(s, e, id, 0);
    }
    if e.Claim? { ClaimColumns(s.rows, e.c, e.now, e.leaseExpiresAt); }
  }

  lemma {:induction false} SilenceKeepsCount(s: State, es: seq<Event>, id: int)
    requires EnabledRun(s, es) && SilentOn(s, es, id) && id in Run(s, es).rows
    ensures id in s.rows && Run(s, es).rows[id].attemptCount == s.rows[id].attemptCount
    decreases |es|
  {
    if es != [] {
      SilenceKeepsCount(Next(s, es[0]), es[1..], id);
      ReportDecidesCount(s, es[0], id);
    }
  }

  /** The attempt count of a row is that of the last retry or failure that took effect since it
      was created or retried by hand, however many claims, heartbeats, releases and refused
      writes came after. */
  lemma AttemptCountIsLastReport(s: State, e: Event, es: seq<Event>, id: int, count: int)
    requires Enabled(s, e) && EnabledRun(Next(s, e), es) && id in Run(Next(s, e), es).rows
    requires Reports(s, e, id, count) && SilentOn(Next(s, e), es, id)
    ensures Run(Next(s, e), es).rows[id].attemptCount == count
  {
    SilenceKeepsCount(Next(s, e), es, id);
    ReportDecidesCount(s, e, id);
  }

  /** An event that lets a lease live until `end`: claims of its row come before, its own
      writes are heartbeats that do not shorten it, and cleanup leaves its row alone. */
  predicate Spares(e: Event, l: Lease, end: int) {
    match e
    case Claim(c, now, _) => c.taskId == l.taskId ==> now < end
    case WorkerWrite(lease, w) => lease == l ==> w.Touch? && end <= w.leaseExpiresAt
    case Delete(ids) => l.taskId !in ids
    case Create(_, _) => true
    case ManualRetry(_, _, _) => true
    case SystemRefresh(_) => true
  }

  predicate HoldsUntil(rows: Rows, l: Lease, end: int) {
    && Guard(rows, l)
    && rows[l.taskId].leaseExpiresAt.Some? && end <= rows[l.taskId].leaseExpiresAt.value
  }

  lemma StepSparesLease(s: State, e: Event, l: Lease, end: int)
    requires Enabled(s, e) && l.taskId in s.used && HoldsUntil(s.rows, l, end) && Spares(e, l, end)
    ensures HoldsUntil(Next(s, e).rows, l, end) && l.taskId in Next(s, e).used
  {
  }

  /** Nobody can take a row from a live lease: whatever other dispatchers, workers and admins
      do, a granted claim holds its row until its lease ends or it gives the row away. */
  lemma {:induction false} LiveLeaseHoldsItsRow(s: State, es: seq<Event>, l: Lease, end: int)
    requires EnabledRun(s, es) && l.taskId in s.used && HoldsUntil(s.rows, l, end)
    requires forall e :: e in es ==> Spares(e, l, end)
    ensures HoldsUntil(Run(s, es).rows, l, end)
    decreases |es|
  {
    if es != [] {
      assert es[0] in es;
      StepSparesLease(s, es[0], l, end);
      LiveLeaseHoldsItsRow(Next(s, es[0]), es[1..], l, end);
    }
  }

  /** A failure waits for an admin: no claim gets the row until a manual retry, which makes it
      claimable at once with a full budget. The new lease may write, the failed one may not. */
  lemma FailedTaskComesBack(rows: Rows, l: Lease, w: Write, early: int, now: int, max: int, c: Candidate, until: int)
    requires Guard(rows, l) && w.Fail? && c.taskId == l.taskId && c.expected == l.token && c.next != l.token
    ensures var failed := AfterWrite(rows, l, w).0;
            var (reset, ok) := AfterReset(failed, l.taskId, now, max);
            var (claimed, granted) := AfterClaim(reset, c, now, until);
            && !AfterClaim(failed, c, early, until).1 && ok && granted
            && claimed[l.taskId].attemptCount == 0 && claimed[l.taskId].maxAttempts == max
            && Guard(claimed, Lease(l.taskId, c.next)) && !Guard(claimed, l)
            && forall id :: id in rows && id != l.taskId ==> claimed[id] == rows[id]
  {
    var failed := AfterWrite(rows, l, w).0;
    WriteDecidesClaims(rows, l, w, early);
    ManualRetryMeaning(failed, l.taskId, now, max);
  }

  /** What stays of a succeeded row: everything, except that the record of a system job
      takes in the result and the times of later successes. */
  predicate StillSucceeded(before: Task, after: Task) {
    && after.status.Succeeded? && after.processingToken == before.processingToken && after.kind == before.kind
    && after.attemptCount == before.attemptCount && (before.kind != SYSTEM_RUNTIME ==> after == before)
  }

  lemma SuccessIsKept(s: State, e: Event, id: int)
    requires Enabled(s, e) && id in s.used && (id in s.rows ==> s.rows[id].status.Succeeded?)
    ensures var n := Next(s, e);
            id in n.used && (id in n.rows ==> id in s.rows && StillSucceeded(s.rows[id], n.rows[id]))
  {
  }

  /** A success is final: whatever follows, a succeeded task is never claimed, retried or
      failed again; it can only be refreshed or deleted, and a deleted one stays away. */
  lemma {:induction false} SuccessIsFinal(s: State, es: seq<Event>, id: int)
    requires EnabledRun(s, es) && id in s.used && (id in s.rows ==> s.rows[id].status.Succeeded?)
    ensures var n := Run(s, es); id in n.rows ==> id in s.rows && StillSucceeded(s.rows[id], n.rows[id])
    decreases |es|
  {
    if es != [] {
      SuccessIsKept(s, es[0], id);
      SuccessIsFinal(Next(s, es[0]), es[1..], id);
    }
  }

  // ---- lane capacity over time ---------------------------------------------

  datatype LaneEvent =
    | Tick(to: int)
    | Batch(cs: seq<Candidate>, claimedAt: int, until: int)
    | Other(e: Event)

  function LaneStep(rows: Rows, now: int, kinds: set<nat>, limit: nat, e: LaneEvent): (Rows, int) {
    match e
    case Tick(to) => (rows, to)
    case Batch(cs, at, until) => (AfterBatch(rows, kinds, limit, cs, at, until).0, now)
    case Other(Create(id, t)) => (rows[id := t], now)
    case Other(Claim(_, _, _)) => (rows, now)
    case Other(WorkerWrite(lease, w)) => (AfterWrite(rows, lease, w).0, now)
    case Other(ManualRetry(id, at, max)) => (AfterReset(rows, id, at, max).0, now)
    case Other(SystemRefresh(r)) => (AfterRefresh(rows, r).0, now)
    case Other(Delete(ids)) => (rows - ids, now)
  }

  /** Time does not run back, batches use a clock reading of the past and all claims of the
      lane go through batches. Heartbeats come whenever they come. */
  predicate Orderly(rows: Rows, now: int, e: LaneEvent) {
    match e
    case Tick(to) => now <= to
    case Batch(_, at, _) => at <= now
    case Other(Create(id, t)) => id !in rows && t.status != Processing
    case Other(Claim(_, _, _)) => false
    case Other(WorkerWrite(_, w)) => w.Release? ==> w.to == Pending || w.to == Retry
    case Other(ManualRetry(_, _, _)) => true
    case Other(SystemRefresh(_)) => true
    case Other(Delete(_)) => true
  }

  predicate OrderlyRun(rows: Rows, now: int, kinds: set<nat>, limit: nat, es: seq<LaneEvent>)
    decreases |es|
  {
    es == [] || (Orderly(rows, now, es[0])
                 && var (rows', now') := LaneStep(rows, now, kinds, limit, es[0]);
                    OrderlyRun(rows', now', kinds, limit, es[1..]))
  }

  function LaneRun(rows: Rows, now: int, kinds: set<nat>, limit: nat, es: seq<LaneEvent>): (Rows, int)
    decreases |es|
  {
    if es == [] then (rows, now)
    else var (rows', now') := LaneStep(rows, now, kinds, limit, es[0]); LaneRun(rows', now', kinds, limit, es[1..])
  }

  predicate IsHeartbeat(e: LaneEvent) { e.Other? && e.e.WorkerWrite? && e.e.w.Touch? }

  /** A heartbeat that cannot overfill the lane: it is refused, sets an end already past,
      belongs to another lane, renews a lease that has not run out, or finds room. */
  predicate HeartbeatFits(rows: Rows, now: int, kinds: set<nat>, limit: nat, lease: Lease, until: int) {
    || !Guard(rows, lease) || until <= now || rows[lease.taskId].kind !in kinds
    || lease.taskId in Active(rows, now, kinds) || |Active(rows, now, kinds)| < limit
  }

  predicate Fits(rows: Rows, now: int, kinds: set<nat>, limit: nat, e: LaneEvent) {
    IsHeartbeat(e) ==> HeartbeatFits(rows, now, kinds, limit, e.e.lease, e.e.w.leaseExpiresAt)
  }

  predicate AllHeartbeatsFit(rows: Rows, now: int, kinds: set<nat>, limit: nat, es: seq<LaneEvent>)
    decreases |es|
  {
    es == [] || (Fits(rows, now, kinds, limit, es[0])
                 && var (rows', now') := LaneStep(rows, now, kinds, limit, es[0]);
                    AllHeartbeatsFit(rows', now', kinds, limit, es[1..]))
  }

  predicate Within(state: (Rows, int), kinds: set<nat>, limit: nat) { |Active(state.0, state.1, kinds)| <= limit }

  /** At no moment of the run are there more unexpired leases than the limit. */
  ghost predicate AlwaysWithin(rows: Rows, now: int, kinds: set<nat>, limit: nat, es: seq<LaneEvent>) {
    forall k :: 0 <= k <= |es| ==> Within(LaneRun(rows, now, kinds, limit, es[..k]), kinds, limit)
  }

  /** A heartbeat is not checked against the end of its lease; this is exactly when it keeps
      a lane within its limit. */
  lemma HeartbeatKeepsLimitExactly(rows: Rows, lease: Lease, at: int, now: int, until: int, kinds: set<nat>, limit: nat)
    requires |Active(rows, now, kinds)| <= limit
    ensures |Active(AfterWrite(rows, lease, Touch(at, until)).0, now, kinds)| <= limit
            <==> HeartbeatFits(rows, now, kinds, limit, lease, until)
  {
    var before, after := Active(rows, now, kinds), Active(AfterWrite(rows, lease, Touch(at, until)).0, now, kinds);
    if Guard(rows, lease) && until > now && rows[lease.taskId].kind in kinds {
      assert after == before + {lease.taskId};
    } else {
      SubsetSize(after, before);
    }
  }

  lemma LaneStepKeepsLimitExactly(rows: Rows, now: int, kinds: set<nat>, limit: nat, e: LaneEvent)
    requires |Active(rows, now, kinds)| <= limit && Orderly(rows, now, e)
    ensures Within(LaneStep(rows, now, kinds, limit, e), kinds, limit) <==> Fits(rows, now, kinds, limit, e)
  {
    var (rows', now') := LaneStep(rows, now, kinds, limit, e);
    if IsHeartbeat(e) {
      HeartbeatKeepsLimitExactly(rows, e.e.lease, e.e.w.now, now, e.e.w.leaseExpiresAt, kinds, limit);
    } else if e.Batch? {
      BatchKeepsLimit(rows, kinds, limit, e.cs, e.claimedAt, e.until);
      SubsetSize(Active(rows', now, kinds), Active(rows', e.claimedAt, kinds));
    } else {
      SubsetSize(Active(rows', now', kinds), Active(rows, now, kinds));
    }
  }

  lemma AlwaysWithinUnfolds(rows: Rows, now: int, kinds: set<nat>, limit: nat, es: seq<LaneEvent>)
    requires es != []
    ensures var (rows', now') := LaneStep(rows, now, kinds, limit, es[0]);
            AlwaysWithin(rows, now, kinds, limit, es) <==>
              Within((rows, now), kinds, limit) && AlwaysWithin(rows', now', kinds, limit, es[1..])
  {
    var (rows', now') := LaneStep(rows, now, kinds, limit, es[0]);
    assert LaneRun(rows, now, kinds, limit, es[..0]) == (rows, now);
    forall k | 0 <= k < |es|
      ensures LaneRun(rows, now, kinds, limit, es[..k + 1]) == LaneRun(rows', now', kinds, limit, es[1..][..k])
    {
      assert es[..k + 1][1..] == es[1..][..k];
    }
    if AlwaysWithin(rows, now, kinds, limit, es) {
      forall k | 0 <= k <= |es[1..]| ensures Within(LaneRun(rows', now', kinds, limit, es[1..][..k]), kinds, limit) {
        assert Within(LaneRun(rows, now, kinds, limit, es[..k + 1]), kinds, limit);
      }
    }
    if Within((rows, now), kinds, limit) && AlwaysWithin(rows', now', kinds, limit, es[1..]) {
      forall k | 0 <= k <= |es| ensures Within(LaneRun(rows, now, kinds, limit, es[..k]), kinds, limit) {
        if k > 0 { assert Within(LaneRun(rows', now', kinds, limit, es[1..][..k - 1]), kinds, limit); }
      }
    }
  }

  /** Whatever dispatchers, workers and admins do, a lane that starts within its limit has at
      most `limit` unexpired leases at every moment of the run if and only if every heartbeat
      fits when it arrives. */
  lemma {:induction false} LaneCapacityHoldsExactly(
    rows: Rows, now: int, kinds: set<nat>, limit: nat, es: seq<LaneEvent>)
    requires |Active(rows, now, kinds)| <= limit && OrderlyRun(rows, now, kinds, limit, es)
    ensures AlwaysWithin(rows, now, kinds, limit, es) <==> AllHeartbeatsFit(rows, now, kinds, limit, es)
    decreases |es|
  {
    if es == [] {
      assert es[..0] == es;
    } else {
      var (rows', now') := LaneStep(rows, now, kinds, limit, es[0]);
      AlwaysWithinUnfolds(rows, now, kinds, limit, es);
      LaneStepKeepsLimitExactly(rows, now, kinds, limit, es[0]);
      if Within((rows', now'), kinds, limit) {
        LaneCapacityHoldsExactly(rows', now', kinds, limit, es[1..]);
      } else {
        assert es[1..][..0] == [];
        assert !Within(LaneRun(rows', now', kinds, limit, es[1..][..0]), kinds, limit);
      }
    }
  }

  const IDLE := Task(SYSTEM_RUNTIME, Pending, 0, 3, 0, 0, None, None, None, None, None, None, None, None)

  /** The limit can be passed. One slot, two new tasks: the first is claimed until 5 and
      outlives its lease, the second is claimed at 5, then the first one's worker reports. */
  lemma LateHeartbeatOverfillsLane()
    ensures var rows: Rows := map[1 := IDLE, 2 := IDLE];
            var es := [Batch([Candidate(1, 0, 1)], 0, 5), Tick(5), Batch([Candidate(2, 0, 1)], 5, 9),
                       Other(WorkerWrite(Lease(1, 1), Touch(5, 9)))];
            var (end, now) := LaneRun(rows, 0, {SYSTEM_RUNTIME}, 1, es);
            && OrderlyRun(rows, 0, {SYSTEM_RUNTIME}, 1, es)
            && Active(rows, 0, {SYSTEM_RUNTIME}) == {}
            && now == 5 && Active(end, now, {SYSTEM_RUNTIME}) == {1, 2}
  {
    var kinds := {SYSTEM_RUNTIME};
    var rows: Rows := map[1 := IDLE, 2 := IDLE];
    var first, tick, second := Batch([Candidate(1, 0, 1)], 0, 5), Tick(5), Batch([Candidate(2, 0, 1)], 5, 9);
    var late := Other(WorkerWrite(Lease(1, 1), Touch(5, 9)));
    assert Active(rows, 0, kinds) == {};
    OneClaimBatch(rows, kinds, Candidate(1, 0, 1), 0, 5);
    var claimed := rows[1 := ClaimedRow(IDLE, 0, 1, 5)];
    assert Active(claimed, 5, kinds) == {};
    OneClaimBatch(claimed, kinds, Candidate(2, 0, 1), 5, 9);
    var both := claimed[2 := ClaimedRow(IDLE, 5, 1, 9)];
    var es := [first, tick, second, late];
    assert es[1..] == [tick, second, late] && es[1..][1..] == [second, late] && es[1..][1..][1..] == [late];
    assert LaneStep(rows, 0, kinds, 1, first) == (claimed, 0);
    assert LaneStep(claimed, 0, kinds, 1, tick) == (claimed, 5);
    assert LaneStep(claimed, 5, kinds, 1, second) == (both, 5);
    var renewed := LaneStep(both, 5, kinds, 1, late).0;
    assert LaneRun(both, 5, kinds, 1, [late]) == (renewed, 5);
    assert Active(renewed, 5, kinds) == {1, 2};
  }

  /** With one free slot a batch of one candidate is that claim. */
  lemma OneClaimBatch(rows: Rows, kinds: set<nat>, c: Candidate, now: int, until: int)
    requires Active(rows, now, kinds) == {}
    ensures AfterBatch(rows, kinds, 1, [c], now, until).0 == AfterClaim(rows, c, now, until).0
  {
    var (rows', ok) := AfterClaim(rows, c, now, until);
    var claimed := if ok then [Lease(c.taskId, c.next)] else [];
    assert [] + [Lease(c.taskId, c.next)] == [Lease(c.taskId, c.next)] && [c][1..] == [];
    assert ClaimUpTo(rows', claimed, 1, [], now, until).0 == rows';
    assert ClaimUpTo(rows, [], 1, [c], now, until) == ClaimUpTo(rows', claimed, 1, [c][1..], now, until);
  }
}
