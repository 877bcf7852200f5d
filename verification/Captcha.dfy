/** Captcha challenges: issued into an expiring cache, then read, compared,
    counted and rewritten or deleted on every attempt. Times are milliseconds. */
module Captcha {
  import opened Text

  const U64_MAX: nat := 0xFFFF_FFFF_FFFF_FFFF
  const MIN_MAX_ATTEMPTS: nat := 1
  const MAX_MAX_ATTEMPTS: nat := 10
  const DEFAULT_MAX_ATTEMPTS: nat := 3

  datatype Challenge = Challenge(answerHash: string, attempts: nat, maxAttempts: nat, expiresAt: int)

  /** A cache slot; the cache may drop it at any time, at the latest at its deadline. */
  datatype Slot = Slot(challenge: Challenge, deadline: int)

  type Cache = map<string, Slot>

  datatype Outcome = Accepted | Required | Expired | Invalid

  // ---- answers and policy ------------------------------------------------

  function Visible(s: string): string {
    if s == [] then [] else (if IsSpace(s[0]) then [] else [s[0]]) + Visible(s[1..])
  }

  function NormalizeAnswer(answer: string): string { Upper(Visible(Trim(answer))) }

  function AnswerHash(hash: string -> string, answer: string): string { hash(NormalizeAnswer(answer)) }

  ghost predicate Injective(hash: string -> string) {
    forall a, b :: hash(a) == hash(b) ==> a == b
  }

  /** The bounded reader: a configured value counts only within its bounds. */
  function MaxAttempts(configured: Option<nat>): (n: nat)
    ensures MIN_MAX_ATTEMPTS <= n <= MAX_MAX_ATTEMPTS
    ensures forall c :: 1 <= c <= 10 && configured == Some(c) ==> n == c
    ensures configured.None? || configured.value == 0 || configured.value > 10 ==> n == 3
  {
    if configured.Some? && MIN_MAX_ATTEMPTS <= configured.value <= MAX_MAX_ATTEMPTS then configured.value
    else DEFAULT_MAX_ATTEMPTS
  }

  // ---- the two operations on one cache -------------------------------------

  function SaturatingIncrement(n: nat): nat { if n < U64_MAX then n + 1 else n }

  /** `num_seconds` truncates toward zero, then at least one second is kept. */
  function RemainingTtlSecs(expiresAt: int, now: int): (ttl: nat)
    ensures ttl >= 1
    ensures now + ttl * 1000 <= if expiresAt >= now + 1000 then expiresAt else now + 1000
    ensures expiresAt - 1000 < now + ttl * 1000
  {
    var left := expiresAt - now;
    var secs := if left >= 0 then left / 1000 else -((-left) / 1000);
    if secs < 1 then 1 else secs
  }

  function Issued(hash: string -> string, answer: string, maxAttempts: nat, ttlSecs: nat, now: int): Challenge {
    Challenge(AnswerHash(hash, answer), 0, maxAttempts, now + ttlSecs * 1000)
  }

  /** What a verifier decides from the challenge it has read: the outcome and the
      challenge to write back, if any; otherwise the slot is deleted. */
  function Decide(hash: string -> string, c: Challenge, answer: string, now: int): (Outcome, Option<Challenge>) {
    if c.expiresAt <= now then (Expired, None)
    else if c.answerHash == AnswerHash(hash, answer) then (Accepted, None)
    else
      var counted := c.(attempts := SaturatingIncrement(c.attempts));
      if counted.attempts >= counted.maxAttempts then (Invalid, None) else (Invalid, Some(counted))
  }

  function Stored(cache: Cache, id: string, c: Challenge, ttlSecs: nat, now: int): Cache {
    cache[id := Slot(c, now + ttlSecs * 1000)]
  }

  /** One whole `verify_answer`: `now` is the clock at the expiry check and `later`
      the clock when the remaining time is computed. */
  function Verified(hash: string -> string, cache: Cache, id: string, answer: string, now: int, later: int)
    : (Cache, Outcome)
  {
    if id !in cache then (cache, Expired)
    else
      var (outcome, back) := Decide(hash, cache[id].challenge, answer, now);
      match back
      case None => (cache - {id}, outcome)
      case Some(c) => (Stored(cache, id, c, RemainingTtlSecs(c.expiresAt, later), later), outcome)
  }

  class CaptchaService {
    const hash: string -> string
    var cache: Cache

    constructor (hash: string -> string)
      ensures this.hash == hash && cache == map[]
    {
      this.hash := hash;
      cache := map[];
    }

    /** The expiry is set from the clock at `now`, the slot is written at `later`. */
    method IssueChallenge(
      id: string, answer: string, configuredAttempts: Option<nat>, ttlSecs: nat, now: int, later: int)
      modifies this
      ensures var challenge := Issued(hash, answer, MaxAttempts(configuredAttempts), ttlSecs, now);
              cache == Stored(old(cache), id, challenge, ttlSecs, later)
    {
      var challenge := Challenge(AnswerHash(hash, answer), 0, MaxAttempts(configuredAttempts), now + ttlSecs * 1000);
      cache := cache[id := Slot(challenge, later + ttlSecs * 1000)];
    }

    method VerifyAnswer(id: string, answer: string, now: int, later: int) returns (outcome: Outcome)
      modifies this
      ensures (cache, outcome) == Verified(hash, old(cache), id, answer, now, later)
    {
      if id !in cache {
        return Expired;
      }
      var challenge := cache[id].challenge;
      if challenge.expiresAt <= now {
        cache := cache - {id};
        return Expired;
      }
      if challenge.answerHash == AnswerHash(hash, answer) {
        cache := cache - {id};
        return Accepted;
      }
      challenge := challenge.(attempts := SaturatingIncrement(challenge.attempts));
      if challenge.attempts >= challenge.maxAttempts {
        cache := cache - {id};
      } else {
        var ttl := RemainingTtlSecs(challenge.expiresAt, later);
        cache := cache[id := Slot(challenge, later + ttl * 1000)];
      }
      return Invalid;
    }

    /** The entry point: nothing is asked when the policy does not require a
        captcha, and a blank id or answer is refused before the cache is read. */
    method VerifyIfRequired(required: bool, id: Option<string>, answer: Option<string>, now: int, later: int)
      returns (outcome: Outcome)
      modifies this
      ensures !required ==> outcome == Accepted && cache == old(cache)
      ensures required && (id.None? || Trim(id.value) == [] || answer.None? || Trim(answer.value) == []) ==>
                outcome == Required && cache == old(cache)
      ensures required && id.Some? && Trim(id.value) != [] && answer.Some? && Trim(answer.value) != [] ==>
                (cache, outcome) == Verified(hash, old(cache), Trim(id.value), Trim(answer.value), now, later)
    {
      if !required {
        return Accepted;
      }
      if id.None? || Trim(id.value) == [] || answer.None? || Trim(answer.value) == [] {
        return Required;
      }
      outcome := VerifyAnswer(Trim(id.value), Trim(answer.value), now, later);
    }
  }

  // ---- what one attempt means ----------------------------------------------

  /** With an injective hash an attempt succeeds exactly when the slot is there, the
      clock is strictly before the issued expiry, and the answers agree up to case
      and whitespace. */
  lemma AcceptedExactly(
    hash: string -> string, cache: Cache, id: string, issued: string, answer: string, now: int, later: int)
    requires Injective(hash)
    requires id in cache ==> cache[id].challenge.answerHash == AnswerHash(hash, issued)
    ensures Verified(hash, cache, id, answer, now, later).1 == Accepted <==>
              id in cache && now < cache[id].challenge.expiresAt && NormalizeAnswer(answer) == NormalizeAnswer(issued)
  {
  }

  lemma {:induction false} VisibleAppend(a: string, b: string)
    ensures Visible(a + b) == Visible(a) + Visible(b)
  {
    if a == [] {
      assert a + b == b;
    } else {
      assert (a + b)[1..] == a[1..] + b;
      VisibleAppend(a[1..], b);
    }
  }

  lemma {:induction false} VisibleOfTrimStart(s: string)
    ensures Visible(TrimStart(s)) == Visible(s)
  {
    if s != [] && IsSpace(s[0]) { VisibleOfTrimStart(s[1..]); }
  }

  lemma {:induction false} VisibleOfTrimEnd(s: string)
    ensures Visible(TrimEnd(s)) == Visible(s)
  {
    var n := |s| - 1;
    if s != [] && IsSpace(s[n]) {
      VisibleOfTrimEnd(s[..n]);
      assert s == s[..n] + [s[n]];
      VisibleAppend(s[..n], [s[n]]);
    }
  }

  /** The positions before `i` that do not hold whitespace. */
  function Ink(a: string, i: nat): set<nat>
    requires i <= |a|
  {
    set k: nat | k < i && !IsSpace(a[k])
  }

  lemma InkStep(a: string, i: nat)
    requires i < |a|
    ensures Ink(a, i + 1) == if IsSpace(a[i]) then Ink(a, i) else Ink(a, i) + {i}
    ensures |Ink(a, i + 1)| == |Ink(a, i)| + if IsSpace(a[i]) then 0 else 1
  {
  }

  /** Ink before `i` counts the visible characters there. */
  lemma {:induction false} InkIsVisible(a: string, i: nat)
    requires i <= |a|
    ensures |Visible(a[..i])| == |Ink(a, i)|
    decreases i
  {
    if i == 0 {
      assert Ink(a, 0) == {};
    } else {
      InkIsVisible(a, i - 1);
      InkStep(a, i - 1);
      assert a[..i] == a[..i - 1] + [a[i - 1]];
      VisibleAppend(a[..i - 1], [a[i - 1]]);
    }
  }

  /** A normalized answer has one character for every position that is not whitespace: that
      character in upper case, at the number of such positions before it. */
  lemma NormalizeMeaning(a: string)
    ensures |NormalizeAnswer(a)| == |Ink(a, |a|)|
    ensures forall i :: 0 <= i < |a| && !IsSpace(a[i]) ==>
              |Ink(a, i)| < |Ink(a, |a|)| && NormalizeAnswer(a)[|Ink(a, i)|] == UpperChar(a[i])
  {
    VisibleOfTrimStart(a);
    VisibleOfTrimEnd(TrimStart(a));
    assert a[..|a|] == a;
    InkIsVisible(a, |a|);
    forall i | 0 <= i < |a| && !IsSpace(a[i])
      ensures |Ink(a, i)| < |Ink(a, |a|)| && NormalizeAnswer(a)[|Ink(a, i)|] == UpperChar(a[i])
    {
      InkIsVisible(a, i);
      assert a == a[..i] + ([a[i]] + a[i + 1..]);
      VisibleAppend(a[..i], [a[i]] + a[i + 1..]);
    }
  }

  lemma {:induction false} InkAtMost(a: string, i: nat)
    requires i <= |a|
    ensures |Ink(a, i)| <= i
    decreases i
  {
    if i == 0 {
      assert Ink(a, 0) == {};
    } else {
      InkAtMost(a, i - 1);
      InkStep(a, i - 1);
    }
  }

  /** Every place below the count is the place of some position. */
  lemma {:induction false} InkReaches(a: string, i: nat, m: nat) returns (k: nat)
    requires i <= |a| && m < |Ink(a, i)|
    ensures k < i && !IsSpace(a[k]) && |Ink(a, k)| == m
    decreases i
  {
    InkAtMost(a, i);
    InkStep(a, i - 1);
    if m == |Ink(a, i - 1)| { k := i - 1; } else { k := InkReaches(a, i - 1, m); }
  }

  /** The visible characters of two answers, in order, are equal up to ASCII case. */
  ghost predicate SameInk(a: string, b: string) {
    && |Ink(a, |a|)| == |Ink(b, |b|)|
    && forall i, j :: 0 <= i < |a| && 0 <= j < |b| && !IsSpace(a[i]) && !IsSpace(b[j]) && |Ink(a, i)| == |Ink(b, j)| ==>
         SameLetter(a[i], b[j])
  }

  /** Two answers count as the same exactly when their characters other than whitespace are,
      one by one, the same up to ASCII case. */
  lemma AnswersAgreeExactly(a: string, b: string)
    ensures NormalizeAnswer(a) == NormalizeAnswer(b) <==> SameInk(a, b)
  {
    NormalizeMeaning(a);
    NormalizeMeaning(b);
    forall c, d ensures UpperChar(c) == UpperChar(d) <==> SameLetter(c, d) { CaseMeaning(c, d); }
    if SameInk(a, b) {
      forall m | 0 <= m < |NormalizeAnswer(a)| ensures NormalizeAnswer(a)[m] == NormalizeAnswer(b)[m] {
        var i := InkReaches(a, |a|, m);
        var j := InkReaches(b, |b|, m);
        assert SameLetter(a[i], b[j]);
      }
    }
  }

  /** Issue, then try: accepted exactly for the issued answer within the issued time,
      invalid for another answer within it, expired afterwards. */
  lemma IssueThenVerify(hash: string -> string, cache: Cache, id: string, issued: string, configured: Option<nat>,
                        ttlSecs: nat, issuedAt: int, storedAt: int, answer: string, now: int, later: int)
    requires Injective(hash)
    ensures var c := Issued(hash, issued, MaxAttempts(configured), ttlSecs, issuedAt);
            var outcome := Verified(hash, Stored(cache, id, c, ttlSecs, storedAt), id, answer, now, later).1;
            var inTime, right := now < issuedAt + ttlSecs * 1000, SameInk(answer, issued);
            && (outcome == Expired <==> !inTime)
            && (outcome == Accepted <==> inTime && right)
            && (outcome == Invalid <==> inTime && !right)
  {
    var c := Issued(hash, issued, MaxAttempts(configured), ttlSecs, issuedAt);
    AnswersAgreeExactly(answer, issued);
    AcceptedExactly(hash, Stored(cache, id, c, ttlSecs, storedAt), id, issued, answer, now, later);
  }

  // ---- runs of whole attempts ------------------------------------------------

  datatype Event =
    | Issue(id: string, answer: string, configuredAttempts: Option<nat>, ttlSecs: nat, issuedAt: int, storedAt: int)
    | Attempt(id: string, given: string, now: int, later: int)
    | Evict(id: string)

  /** The cache with what has happened so far to every id. */
  datatype Tally = Tally(accepted: nat, invalid: nat)
  datatype State = State(cache: Cache, limits: map<string, nat>, tallies: map<string, Tally>)

  const START := State(map[], map[], map[])

  function TallyOf(s: State, id: string): Tally { if id in s.tallies then s.tallies[id] else Tally(0, 0) }

  function Count(t: Tally, o: Outcome): Tally {
    match o
    case Accepted => t.(accepted := t.accepted + 1)
    case Invalid => t.(invalid := t.invalid + 1)
    case Required => t
    case Expired => t
  }

  /** Challenge ids are fresh tokens: none is issued twice. */
  predicate Enabled(s: State, e: Event) { e.Issue? ==> e.id !in s.limits }

  function AttemptOutcome(hash: string -> string, s: State, e: Event): Outcome
    requires e.Attempt?
  {
    Verified(hash, s.cache, e.id, e.given, e.now, e.later).1
  }

  function Next(hash: string -> string, s: State, e: Event): State {
    match e
    case Issue(id, answer, configured, ttl, now, later) =>
      var c := Issued(hash, answer, MaxAttempts(configured), ttl, now);
      s.(cache := Stored(s.cache, id, c, ttl, later), limits := s.limits[id := c.maxAttempts])
    case Attempt(id, given, now, later) =>
      s.(cache := Verified(hash, s.cache, id, given, now, later).0,
         tallies := s.tallies[id := Count(TallyOf(s, id), AttemptOutcome(hash, s, e))])
    case Evict(id) => s.(cache := s.cache - {id})
  }

  predicate EnabledRun(hash: string -> string, s: State, es: seq<Event>)
    decreases |es|
  {
    es == [] || (Enabled(s, es[0]) && EnabledRun(hash, Next(hash, s, es[0]), es[1..]))
  }

  function Run(hash: string -> string, s: State, es: seq<Event>): State
    decreases |es|
  {
    if es == [] then s else Run(hash, Next(hash, s, es[0]), es[1..])
  }

  /** The slot of an id counts exactly the invalid answers given so far; without a
      slot the tally is closed. */
  predicate Counted(s: State, id: string) {
    var t := TallyOf(s, id);
    if id in s.cache then
      && id in s.limits && s.limits[id] == s.cache[id].challenge.maxAttempts
      && t == Tally(0, s.cache[id].challenge.attempts) && t.invalid < s.limits[id]
    else if id in s.limits then t.accepted <= 1 && t.accepted + t.invalid <= s.limits[id]
    else t == Tally(0, 0)
  }

  ghost predicate Valid(s: State) {
    && (forall id :: Counted(s, id))
    && (forall id :: id in s.limits ==> MIN_MAX_ATTEMPTS <= s.limits[id] <= MAX_MAX_ATTEMPTS)
  }

  lemma StepKeepsValid(hash: string -> string, s: State, e: Event)
    requires Valid(s) && Enabled(s, e)
    ensures Valid(Next(hash, s, e))
  {
    var n := Next(hash, s, e);
    forall id ensures Counted(n, id) {
      assert Counted(s, id);
    }
  }

  lemma {:induction false} RunKeepsValid(hash: string -> string, s: State, es: seq<Event>)
    requires Valid(s) && EnabledRun(hash, s, es)
    ensures Valid(Run(hash, s, es))
    decreases |es|
  {
    if es != [] {
      StepKeepsValid(hash, s, es[0]);
      RunKeepsValid(hash, Next(hash, s, es[0]), es[1..]);
    }
  }

  /** In every run each challenge is accepted at most once, collects at most its limit of
      invalid answers (one fewer if it was accepted), limits lie between 1 and 10, and an
      id that was never issued collects nothing. */
  lemma AttemptsAreBounded(hash: string -> string, es: seq<Event>, id: string)
    requires EnabledRun(hash, START, es)
    ensures var n := Run(hash, START, es);
            var t := TallyOf(n, id);
            && t.accepted <= 1
            && (if id in n.limits then t.accepted + t.invalid <= n.limits[id] && 1 <= n.limits[id] <= 10
                else t == Tally(0, 0))
  {
    RunKeepsValid(hash, START, es);
    assert Counted(Run(hash, START, es), id);
  }

  predicate Closed(s: State, id: string) { id !in s.cache && id in s.limits }

  lemma {:induction false} ClosedStays(hash: string -> string, s: State, es: seq<Event>, id: string)
    requires EnabledRun(hash, s, es) && Closed(s, id)
    ensures Closed(Run(hash, s, es), id) && TallyOf(Run(hash, s, es), id) == TallyOf(s, id)
    decreases |es|
  {
    if es != [] {
      ClosedStays(hash, Next(hash, s, es[0]), es[1..], id);
    }
  }

  /** In every run, after an acceptance or the invalid answer that uses up the limit, every
      later attempt on that id reports expired, whatever happens in between. */
  lemma ClosedReportsExpired(
    hash: string -> string, before: seq<Event>, first: Event, between: seq<Event>, later: Event)
    requires EnabledRun(hash, START, before) && first.Attempt? && later.Attempt? && first.id == later.id
    requires EnabledRun(hash, Next(hash, Run(hash, START, before), first), between)
    requires var s := Run(hash, START, before);
             var o := AttemptOutcome(hash, s, first);
             || o == Accepted
             || (o == Invalid && first.id in s.limits && TallyOf(s, first.id).invalid + 1 >= s.limits[first.id])
    ensures AttemptOutcome(hash, Run(hash, Next(hash, Run(hash, START, before), first), between), later) == Expired
  {
    var s := Run(hash, START, before);
    RunKeepsValid(hash, START, before);
    assert Counted(s, first.id);
    ClosedStays(hash, Next(hash, s, first), between, first.id);
  }

  function Latest(expiresAt: int, time: int): int { if expiresAt >= time + 1000 then expiresAt else time + 1000 }

  /** One retry changes only the count, which stays below the limit, and its deadline is at
      most the later of the issued expiry and one second after the write. */
  lemma RetryKeepsExpiry(hash: string -> string, cache: Cache, id: string, answer: string, now: int, later: int)
    requires id in cache
    ensures var after := Verified(hash, cache, id, answer, now, later).0;
            id in after ==>
              var before, kept := cache[id].challenge, after[id].challenge;
              && kept == before.(attempts := kept.attempts) && before.attempts <= kept.attempts < kept.maxAttempts
              && later + 1000 <= after[id].deadline <= Latest(before.expiresAt, later)
  {
  }

  /** Over any number of retries the expiry, the answer and the limit of a challenge never
      move and its count never falls. Its slot is still the first one, or was written by a retry:
      if no clock reading was after `time` the cache then keeps it no longer than the later of
      its expiry and one second after `time`. */
  lemma {:induction false} RetriesKeepExpiry(hash: string -> string, s: State, es: seq<Event>, id: string, time: int)
    requires EnabledRun(hash, s, es) && id in s.limits && forall e :: e in es && e.Attempt? ==> e.later <= time
    ensures var n := Run(hash, s, es);
            id in n.cache ==>
              && id in s.cache
              && var before, kept := s.cache[id].challenge, n.cache[id].challenge;
                 && kept == before.(attempts := kept.attempts) && before.attempts <= kept.attempts
                 && (n.cache[id] == s.cache[id] || n.cache[id].deadline <= Latest(before.expiresAt, time))
    decreases |es|
  {
    if es != [] {
      var e := es[0];
      assert e in es;
      if e.Attempt? && e.id == id && id in s.cache { RetryKeepsExpiry(hash, s.cache, id, e.given, e.now, e.later); }
      RetriesKeepExpiry(hash, Next(hash, s, e), es[1..], id, time);
    }
  }

  // ---- the log of a run ------------------------------------------------------------

  /** An attempt that was decided: what was answered, when, and with what outcome. */
  datatype Entry = Entry(id: string, answer: string, at: int, outcome: Outcome)

  function EntryOf(hash: string -> string, s: State, e: Event): seq<Entry> {
    if e.Attempt? then [Entry(e.id, e.given, e.now, AttemptOutcome(hash, s, e))] else []
  }

  function Log(hash: string -> string, s: State, es: seq<Event>): seq<Entry>
    decreases |es|
  {
    if es == [] then [] else EntryOf(hash, s, es[0]) + Log(hash, Next(hash, s, es[0]), es[1..])
  }

  /** How often the answers to one challenge were accepted and invalid. */
  function LogTally(log: seq<Entry>, id: string): Tally {
    if log == [] then Tally(0, 0)
    else
      var n := |log| - 1;
      if log[n].id == id then Count(LogTally(log[..n], id), log[n].outcome) else LogTally(log[..n], id)
  }

  lemma {:induction false} RunAppend(hash: string -> string, s: State, es: seq<Event>, e: Event)
    requires EnabledRun(hash, s, es) && Enabled(Run(hash, s, es), e)
    ensures EnabledRun(hash, s, es + [e]) && Run(hash, s, es + [e]) == Next(hash, Run(hash, s, es), e)
    ensures Log(hash, s, es + [e]) == Log(hash, s, es) + EntryOf(hash, Run(hash, s, es), e)
    decreases |es|
  {
    if es == [] {
      assert es + [e] == [e] && [e][1..] == [];
      assert Log(hash, Next(hash, s, e), []) == [];
    } else {
      assert (es + [e])[0] == es[0] && (es + [e])[1..] == es[1..] + [e];
      RunAppend(hash, Next(hash, s, es[0]), es[1..], e);
    }
  }

  lemma TallyStep(hash: string -> string, s: State, e: Event, log: seq<Entry>, id: string)
    requires TallyOf(s, id) == LogTally(log, id)
    ensures TallyOf(Next(hash, s, e), id) == LogTally(log + EntryOf(hash, s, e), id)
  {
    var longer := log + EntryOf(hash, s, e);
    if e.Attempt? {
      assert longer[..|longer| - 1] == log;
    } else {
      assert longer == log;
    }
  }

  lemma {:induction false} TallyIsLog(hash: string -> string, es: seq<Event>, id: string)
    requires EnabledRun(hash, START, es)
    ensures TallyOf(Run(hash, START, es), id) == LogTally(Log(hash, START, es), id)
    decreases |es|
  {
    if es != [] {
      var n := |es| - 1;
      var init, last := es[..n], es[n];
      assert es == init + [last];
      RunPrefix(hash, START, init, last);
      TallyIsLog(hash, init, id);
      RunAppend(hash, START, init, last);
      TallyStep(hash, Run(hash, START, init), last, Log(hash, START, init), id);
    }
  }

  lemma {:induction false} RunPrefix(hash: string -> string, s: State, es: seq<Event>, e: Event)
    requires EnabledRun(hash, s, es + [e])
    ensures EnabledRun(hash, s, es) && Enabled(Run(hash, s, es), e)
    decreases |es|
  {
    if es == [] {
      assert (es + [e])[0] == e;
    } else {
      assert (es + [e])[0] == es[0] && (es + [e])[1..] == es[1..] + [e];
      RunPrefix(hash, Next(hash, s, es[0]), es[1..], e);
    }
  }
}
