/** The same protocol with the steps of an issue and of each verifier apart, any number of
    verifiers, and eviction at any time: a verifier reads the cache, decides, reads the clock
    for the ttl, and writes the cache. */
module CaptchaInterleaved {
  import opened Text
  import opened Captcha

  /** Where a verifier stands. `Storing` keeps the clock reading behind its ttl. */
  datatype Verifier =
    | Asked(id: string, answer: string)
    | Loaded(id: string, answer: string, challenge: Challenge)
    | Deleting(id: string, outcome: Outcome)
    | Missed(id: string, challenge: Challenge)
    | Storing(id: string, challenge: Challenge, ttlSecs: nat, computedAt: int)
    | Finished(outcome: Outcome)
  {
    /** Between its cache read and its cache write. */
    predicate Busy() { Loaded? || Deleting? || Missed? || Storing? }
  }

  /** The record of an issue: the rendered answer, the policy and the clock at the expiry. */
  datatype Issuance = Issuance(answer: string, configuredAttempts: Option<nat>, ttlSecs: nat, issuedAt: int)

  /** `unpublished` ids have their challenge made but not yet written to the cache. */
  datatype World = World(
    now: int,
    cache: Cache,
    verifiers: map<nat, Verifier>,
    issued: map<string, Issuance>,
    unpublished: set<string>,
    log: seq<Entry>)

  datatype Step =
    | Tick(to: int)
    | Make(id: string, answer: string, configuredAttempts: Option<nat>, ttlSecs: nat)
    | Publish(id: string)
    | Begin(who: nat, id: string, answer: string)
    | Load(who: nat)
    | Judge(who: nat)
    | Measure(who: nat)
    | WriteBack(who: nat)
    | Drop(id: string)

  const START := World(0, map[], map[], map[], {}, [])

  function Made(hash: string -> string, i: Issuance): Challenge {
    Issued(hash, i.answer, MaxAttempts(i.configuredAttempts), i.ttlSecs, i.issuedAt)
  }

  predicate Enabled(w: World, step: Step) {
    match step
    case Tick(to) => w.now <= to
    case Make(id, _, _, _) => id !in w.issued
    case Publish(id) => id in w.unpublished && id in w.issued
    case Begin(who, _, _) => who !in w.verifiers
    case Load(who) => who in w.verifiers && w.verifiers[who].Asked?
    case Judge(who) => who in w.verifiers && w.verifiers[who].Loaded?
    case Measure(who) => who in w.verifiers && w.verifiers[who].Missed?
    case WriteBack(who) => who in w.verifiers && (w.verifiers[who].Deleting? || w.verifiers[who].Storing?)
    case Drop(_) => true
  }

  function Judged(hash: string -> string, v: Verifier, now: int): Verifier
    requires v.Loaded?
  {
    var (outcome, back) := Decide(hash, v.challenge, v.answer, now);
    match back
    case None => Deleting(v.id, outcome)
    case Some(c) => Missed(v.id, c)
  }

  function Next(hash: string -> string, w: World, step: Step): World
    requires Enabled(w, step)
  {
    match step
    case Tick(to) => w.(now := to)
    case Make(id, answer, configured, ttl) =>
      w.(issued := w.issued[id := Issuance(answer, configured, ttl, w.now)], unpublished := w.unpublished + {id})
    case Publish(id) =>
      w.(cache := Stored(w.cache, id, Made(hash, w.issued[id]), w.issued[id].ttlSecs, w.now),
         unpublished := w.unpublished - {id})
    case Begin(who, id, answer) => w.(verifiers := w.verifiers[who := Asked(id, answer)])
    case Load(who) =>
      var v := w.verifiers[who];
      if v.id in w.cache then w.(verifiers := w.verifiers[who := Loaded(v.id, v.answer, w.cache[v.id].challenge)])
      else
        w.(verifiers := w.verifiers[who := Finished(Expired)],
           log := w.log + [Entry(v.id, v.answer, w.now, Expired)])
    case Judge(who) =>
      var v := w.verifiers[who];
      w.(verifiers := w.verifiers[who := Judged(hash, v, w.now)],
         log := w.log + [Entry(v.id, v.answer, w.now, Decide(hash, v.challenge, v.answer, w.now).0)])
    case Measure(who) =>
      var v := w.verifiers[who];
      w.(verifiers := w.verifiers[who :=
           Storing(v.id, v.challenge, RemainingTtlSecs(v.challenge.expiresAt, w.now), w.now)])
    case WriteBack(who) =>
      (match w.verifiers[who]
       case Deleting(id, outcome) =>
         w.(cache := w.cache - {id}, verifiers := w.verifiers[who := Finished(outcome)])
       case Storing(id, c, ttl, _) =>
         w.(cache := Stored(w.cache, id, c, ttl, w.now), verifiers := w.verifiers[who := Finished(Invalid)])
       case _ => w)
    case Drop(id) => w.(cache := w.cache - {id})
  }

  predicate EnabledRun(hash: string -> string, w: World, steps: seq<Step>)
    decreases |steps|
  {
    steps == [] || (Enabled(w, steps[0]) && EnabledRun(hash, Next(hash, w, steps[0]), steps[1..]))
  }

  function Run(hash: string -> string, w: World, steps: seq<Step>): World
    requires EnabledRun(hash, w, steps)
    decreases |steps|
  {
    if steps == [] then w else Run(hash, Next(hash, w, steps[0]), steps[1..])
  }

  // ---- safety under any interleaving ------------------------------------------------

  predicate Published(w: World, id: string) { id in w.issued && id !in w.unpublished }

  /** A copy of a challenge differs from the issued one only in its count, which
      stays below the limit. */
  predicate Genuine(hash: string -> string, w: World, id: string, c: Challenge) {
    && Published(w, id)
    && c == Made(hash, w.issued[id]).(attempts := c.attempts)
    && c.attempts < c.maxAttempts
  }

  /** A verifier about to store computed its ttl from the issued expiry. */
  predicate GenuineVerifier(hash: string -> string, w: World, v: Verifier) {
    && (v.Loaded? || v.Missed? || v.Storing? ==> Genuine(hash, w, v.id, v.challenge))
    && (v.Deleting? ==> Published(w, v.id))
    && (v.Storing? ==> v.computedAt <= w.now && v.ttlSecs == RemainingTtlSecs(v.challenge.expiresAt, v.computedAt))
  }

  /** An acceptance had the issued answer's hash strictly before the issued expiry. */
  predicate GenuineEntry(hash: string -> string, w: World, e: Entry) {
    e.outcome == Accepted ==>
      && Published(w, e.id)
      && AnswerHash(hash, e.answer) == AnswerHash(hash, w.issued[e.id].answer)
      && e.at < Made(hash, w.issued[e.id]).expiresAt
  }

  ghost predicate Valid(hash: string -> string, w: World) {
    && (forall id :: id in w.unpublished ==> id in w.issued)
    && (forall id :: id in w.cache ==> Genuine(hash, w, id, w.cache[id].challenge))
    && (forall who :: who in w.verifiers ==> GenuineVerifier(hash, w, w.verifiers[who]))
    && (forall k :: 0 <= k < |w.log| ==> GenuineEntry(hash, w, w.log[k]))
  }

  lemma JudgedIsGenuine(hash: string -> string, w: World, v: Verifier)
    requires v.Loaded? && Genuine(hash, w, v.id, v.challenge)
    ensures GenuineVerifier(hash, w, Judged(hash, v, w.now))
    ensures GenuineEntry(hash, w, Entry(v.id, v.answer, w.now, Decide(hash, v.challenge, v.answer, w.now).0))
  {
  }

  /** Facts about published ids survive every step. */
  lemma StepKeepsPublished(hash: string -> string, w: World, step: Step, id: string)
    requires Enabled(w, step) && Published(w, id)
    ensures var n := Next(hash, w, step); Published(n, id) && n.issued[id] == w.issued[id]
  {
  }

  /** A verifier that did not move keeps what it knows. */
  lemma OthersStayGenuine(hash: string -> string, w: World, step: Step, v: Verifier)
    requires Enabled(w, step) && GenuineVerifier(hash, w, v)
    ensures GenuineVerifier(hash, Next(hash, w, step), v)
  {
    if !v.Finished? && Published(w, v.id) { StepKeepsPublished(hash, w, step, v.id); }
    assert w.now <= Next(hash, w, step).now;
  }

  lemma StepKeepsVerifier(hash: string -> string, w: World, step: Step, who: nat)
    requires Valid(hash, w) && Enabled(w, step) && who in Next(hash, w, step).verifiers
    ensures var n := Next(hash, w, step); GenuineVerifier(hash, n, n.verifiers[who])
  {
    var n := Next(hash, w, step);
    if who in w.verifiers {
      var v := w.verifiers[who];
      assert GenuineVerifier(hash, w, v);
      if n.verifiers[who] == v {
        OthersStayGenuine(hash, w, step, v);
      } else if step.Judge? {
        JudgedIsGenuine(hash, w, v);
        OthersStayGenuine(hash, w, step, n.verifiers[who]);
      } else if step.Load? {
        assert v.id in w.cache ==> Genuine(hash, w, v.id, w.cache[v.id].challenge);
        OthersStayGenuine(hash, w, step, n.verifiers[who]);
      } else if step.Measure? {
        OthersStayGenuine(hash, w, step, n.verifiers[who]);
      }
    }
  }

  lemma StepKeepsSlot(hash: string -> string, w: World, step: Step, id: string)
    requires Valid(hash, w) && Enabled(w, step) && id in Next(hash, w, step).cache
    ensures var n := Next(hash, w, step); Genuine(hash, n, id, n.cache[id].challenge)
  {
    if step.WriteBack? { assert GenuineVerifier(hash, w, w.verifiers[step.who]); }
    if Published(w, id) { StepKeepsPublished(hash, w, step, id); }
  }

  lemma StepKeepsEntry(hash: string -> string, w: World, step: Step, k: nat)
    requires Valid(hash, w) && Enabled(w, step) && k < |Next(hash, w, step).log|
    ensures var n := Next(hash, w, step); GenuineEntry(hash, n, n.log[k])
  {
    if k < |w.log| {
      assert GenuineEntry(hash, w, w.log[k]);
      if Published(w, w.log[k].id) { StepKeepsPublished(hash, w, step, w.log[k].id); }
    } else if step.Judge? {
      assert GenuineVerifier(hash, w, w.verifiers[step.who]);
      JudgedIsGenuine(hash, w, w.verifiers[step.who]);
    }
  }

  lemma StepKeepsValid(hash: string -> string, w: World, step: Step)
    requires Valid(hash, w) && Enabled(w, step)
    ensures Valid(hash, Next(hash, w, step))
  {
    var n := Next(hash, w, step);
    forall who | who in n.verifiers ensures GenuineVerifier(hash, n, n.verifiers[who]) {
      StepKeepsVerifier(hash, w, step, who);
    }
    forall id | id in n.cache ensures Genuine(hash, n, id, n.cache[id].challenge) {
      StepKeepsSlot(hash, w, step, id);
    }
    forall k | 0 <= k < |n.log| ensures GenuineEntry(hash, n, n.log[k]) {
      StepKeepsEntry(hash, w, step, k);
    }
  }

  /** Every stored challenge is its issued one with a count below the limit, and every
      acceptance gave the issued answer, up to case and whitespace, strictly before the
      issued expiry. */
  ghost predicate Safe(hash: string -> string, w: World) {
    && (forall id :: id in w.cache ==>
          && id in w.issued && w.cache[id].challenge.attempts < w.cache[id].challenge.maxAttempts <= 10
          && w.cache[id].challenge == Made(hash, w.issued[id]).(attempts := w.cache[id].challenge.attempts))
    && (forall k :: 0 <= k < |w.log| && w.log[k].outcome == Accepted ==>
          var e := w.log[k];
          && e.id in w.issued && e.at < Made(hash, w.issued[e.id]).expiresAt
          && SameInk(e.answer, w.issued[e.id].answer))
  }

  lemma ValidIsSafe(hash: string -> string, w: World)
    requires Injective(hash) && Valid(hash, w)
    ensures Safe(hash, w)
  {
    forall id | id in w.cache ensures Genuine(hash, w, id, w.cache[id].challenge) {}
    forall k | 0 <= k < |w.log| && w.log[k].outcome == Accepted
      ensures GenuineEntry(hash, w, w.log[k]) && SameInk(w.log[k].answer, w.issued[w.log[k].id].answer)
    {
      assert GenuineEntry(hash, w, w.log[k]);
      AnswersAgreeExactly(w.log[k].answer, w.issued[w.log[k].id].answer);
    }
  }

  lemma {:induction false} RunKeepsValid(hash: string -> string, w: World, steps: seq<Step>)
    requires Valid(hash, w) && EnabledRun(hash, w, steps)
    ensures Valid(hash, Run(hash, w, steps))
    decreases |steps|
  {
    if steps != [] {
      StepKeepsValid(hash, w, steps[0]);
      RunKeepsValid(hash, Next(hash, w, steps[0]), steps[1..]);
    }
  }

  /** Whatever the interleaving, every state reached from the empty cache is safe. */
  lemma InterleavingIsSafe(hash: string -> string, steps: seq<Step>)
    requires Injective(hash) && EnabledRun(hash, START, steps)
    ensures Safe(hash, Run(hash, START, steps))
  {
    RunKeepsValid(hash, START, steps);
    ValidIsSafe(hash, Run(hash, START, steps));
  }

  /** An issue is never rewritten by anything that follows. */
  lemma {:induction false} IssuesAreNeverRewritten(hash: string -> string, w: World, steps: seq<Step>, id: string)
    requires EnabledRun(hash, w, steps) && id in w.issued
    ensures id in Run(hash, w, steps).issued && Run(hash, w, steps).issued[id] == w.issued[id]
    decreases |steps|
  {
    if steps != [] {
      IssuesAreNeverRewritten(hash, Next(hash, w, steps[0]), steps[1..], id);
    }
  }

  /** A late re-store stretches the deadline by no more than the time that passed
      between computing the ttl and writing it. */
  lemma RestoreDeadline(hash: string -> string, w: World, who: nat)
    requires Valid(hash, w) && who in w.verifiers && w.verifiers[who].Storing?
    ensures var v := w.verifiers[who];
            var slot := Next(hash, w, WriteBack(who)).cache[v.id];
            var expiry := Made(hash, w.issued[v.id]).expiresAt;
            && slot.challenge.expiresAt == expiry
            && slot.deadline <= Latest(expiry, v.computedAt) + (w.now - v.computedAt)
  {
    assert GenuineVerifier(hash, w, w.verifiers[who]);
  }

  // ---- when the split steps act as whole attempts --------------------------------------

  ghost predicate BusyOn(w: World, id: string) {
    exists who :: who in w.verifiers && w.verifiers[who].Busy() && w.verifiers[who].id == id
  }

  /** A verifier reads the cache only while no other one is between its read and its write
      on the same challenge. */
  ghost predicate Alone(w: World, step: Step)
    requires Enabled(w, step)
  {
    step.Load? ==> !BusyOn(w, w.verifiers[step.who].id)
  }

  ghost predicate SerialRun(hash: string -> string, w: World, steps: seq<Step>)
    requires EnabledRun(hash, w, steps)
    decreases |steps|
  {
    steps == [] || (Alone(w, steps[0]) && SerialRun(hash, Next(hash, w, steps[0]), steps[1..]))
  }

  /** The whole operation that a step stands for: an attempt counts when it is decided, or
      when it finds nothing; an eviction while a verifier is busy has no effect, since that
      verifier will write or delete the slot. */
  ghost function WholeOf(w: World, step: Step): seq<Event>
    requires Enabled(w, step)
  {
    match step
    case Publish(id) =>
      var i := w.issued[id];
      [Issue(id, i.answer, i.configuredAttempts, i.ttlSecs, i.issuedAt, w.now)]
    case Load(who) =>
      var v := w.verifiers[who];
      if v.id in w.cache then [] else [Attempt(v.id, v.answer, w.now, w.now)]
    case Judge(who) => [Attempt(w.verifiers[who].id, w.verifiers[who].answer, w.now, w.now)]
    case Drop(id) => if BusyOn(w, id) then [] else [Evict(id)]
    case _ => []
  }

  function ChallengeOf(cache: Cache, id: string): Option<Challenge> {
    if id in cache then Some(cache[id].challenge) else None
  }

  /** What the cache of whole attempts holds for the challenge of a busy verifier. */
  function Held(v: Verifier): Option<Challenge>
    requires v.Busy()
  {
    if v.Deleting? then None else Some(v.challenge)
  }

  /** The interleaved world and the state of whole attempts agree: on busy challenges the
      verifier knows the challenge, on all others the cache does. */
  ghost predicate Matches(w: World, s: State) {
    && LimitsMatch(w, s)
    && (forall who :: who in w.verifiers && w.verifiers[who].Busy() ==>
          ChallengeOf(s.cache, w.verifiers[who].id) == Held(w.verifiers[who]))
    && (forall id :: !BusyOn(w, id) ==> ChallengeOf(w.cache, id) == ChallengeOf(s.cache, id))
  }

  ghost predicate LimitsMatch(w: World, s: State) {
    && (forall id :: id in s.limits <==> Published(w, id))
    && (forall id :: id in s.limits ==> s.limits[id] == MaxAttempts(w.issued[id].configuredAttempts))
  }

  /** Nothing but the challenge `id` changes, in the world or among whole attempts. */
  ghost predicate OnlyOn(w: World, n: World, s: State, s': State, id: string) {
    && (forall other :: other != id ==> ChallengeOf(n.cache, other) == ChallengeOf(w.cache, other))
    && (forall other :: other != id ==> ChallengeOf(s'.cache, other) == ChallengeOf(s.cache, other))
  }

  ghost predicate Exclusive(w: World) {
    forall a, b :: a in w.verifiers && b in w.verifiers && a != b && w.verifiers[a].Busy() && w.verifiers[b].Busy() ==>
      w.verifiers[a].id != w.verifiers[b].id
  }

  /** Changing one verifier changes who is busy on its id only. */
  lemma BusyElsewhere(w: World, n: World, who: nat, id: string)
    requires who in w.verifiers && who in n.verifiers && n.verifiers == w.verifiers[who := n.verifiers[who]]
    requires w.verifiers[who].Busy() ==> w.verifiers[who].id != id
    requires n.verifiers[who].Busy() ==> n.verifiers[who].id != id
    ensures BusyOn(n, id) <==> BusyOn(w, id)
  {
    if BusyOn(w, id) {
      var other :| other in w.verifiers && w.verifiers[other].Busy() && w.verifiers[other].id == id;
      assert n.verifiers[other] == w.verifiers[other];
    }
  }

  ghost function Advance(hash: string -> string, s: State, es: seq<Event>): State {
    if es == [] then s else Captcha.Next(hash, s, es[0])
  }

  /** A whole attempt changes the cache by what is decided on the challenge there. */
  lemma AttemptEffect(hash: string -> string, s: State, id: string, answer: string, now: int)
    ensures var n := Captcha.Next(hash, s, Attempt(id, answer, now, now));
            && n.limits == s.limits
            && (forall other :: other != id ==> ChallengeOf(n.cache, other) == ChallengeOf(s.cache, other))
            && ChallengeOf(n.cache, id) ==
                 if id in s.cache then Decide(hash, s.cache[id].challenge, answer, now).1 else None
  {
  }

  /** When the only verifier on a challenge moves on, agreement needs to be seen on that
      challenge only. */
  lemma VerifierMoved(w: World, n: World, who: nat, id: string, s: State, s': State)
    requires Exclusive(w) && Matches(w, s) && OnlyOn(w, n, s, s', id)
    requires who in w.verifiers && who in n.verifiers && n.verifiers == w.verifiers[who := n.verifiers[who]]
    requires if w.verifiers[who].Busy() then w.verifiers[who].id == id else !BusyOn(w, id)
    requires LimitsMatch(n, s')
    requires var v := n.verifiers[who];
             if v.Busy() then v.id == id && ChallengeOf(s'.cache, id) == Held(v)
             else ChallengeOf(s'.cache, id) == ChallengeOf(n.cache, id)
    ensures Exclusive(n) && Matches(n, s')
  {
    forall other | other != id ensures BusyOn(n, other) <==> BusyOn(w, other) {
      BusyElsewhere(w, n, who, other);
    }
    forall a | a in n.verifiers && a != who && n.verifiers[a].Busy() ensures n.verifiers[a].id != id {
      assert n.verifiers[a] == w.verifiers[a];
    }
    assert n.verifiers[who].Busy() ==> BusyOn(n, id);
  }

  lemma LoadMatches(hash: string -> string, w: World, who: nat, s: State)
    requires Valid(hash, w) && Enabled(w, Load(who)) && Alone(w, Load(who)) && Exclusive(w) && Matches(w, s)
    ensures Exclusive(Next(hash, w, Load(who)))
    ensures Matches(Next(hash, w, Load(who)), Advance(hash, s, WholeOf(w, Load(who))))
  {
    var n, v := Next(hash, w, Load(who)), w.verifiers[who];
    assert ChallengeOf(w.cache, v.id) == ChallengeOf(s.cache, v.id);
    AttemptEffect(hash, s, v.id, v.answer, w.now);
    VerifierMoved(w, n, who, v.id, s, Advance(hash, s, WholeOf(w, Load(who))));
  }

  lemma JudgeMatches(hash: string -> string, w: World, who: nat, s: State)
    requires Valid(hash, w) && Enabled(w, Judge(who)) && Exclusive(w) && Matches(w, s)
    ensures Exclusive(Next(hash, w, Judge(who)))
    ensures Matches(Next(hash, w, Judge(who)), Advance(hash, s, WholeOf(w, Judge(who))))
  {
    var n, v := Next(hash, w, Judge(who)), w.verifiers[who];
    assert ChallengeOf(s.cache, v.id) == Some(v.challenge);
    AttemptEffect(hash, s, v.id, v.answer, w.now);
    assert Held(n.verifiers[who]) == Decide(hash, v.challenge, v.answer, w.now).1;
    VerifierMoved(w, n, who, v.id, s, Advance(hash, s, WholeOf(w, Judge(who))));
  }

  lemma WriteBackMatches(hash: string -> string, w: World, who: nat, s: State)
    requires Valid(hash, w) && Enabled(w, WriteBack(who)) && Exclusive(w) && Matches(w, s)
    ensures Exclusive(Next(hash, w, WriteBack(who))) && Matches(Next(hash, w, WriteBack(who)), s)
  {
    var n, v := Next(hash, w, WriteBack(who)), w.verifiers[who];
    assert v.Busy() && ChallengeOf(s.cache, v.id) == Held(v) == ChallengeOf(n.cache, v.id);
    VerifierMoved(w, n, who, v.id, s, s);
  }

  lemma MeasureMatches(hash: string -> string, w: World, who: nat, s: State)
    requires Enabled(w, Measure(who)) && Exclusive(w) && Matches(w, s)
    ensures Exclusive(Next(hash, w, Measure(who))) && Matches(Next(hash, w, Measure(who)), s)
  {
    var n, v := Next(hash, w, Measure(who)), w.verifiers[who];
    VerifierMoved(w, n, who, v.id, s, s);
  }

  lemma BeginMatches(hash: string -> string, w: World, step: Step, s: State)
    requires step.Begin? && Enabled(w, step) && Exclusive(w) && Matches(w, s)
    ensures Exclusive(Next(hash, w, step)) && Matches(Next(hash, w, step), s)
  {
    var n := Next(hash, w, step);
    forall id | BusyOn(w, id) ensures BusyOn(n, id) {
      var who :| who in w.verifiers && w.verifiers[who].Busy() && w.verifiers[who].id == id;
      assert n.verifiers[who] == w.verifiers[who];
    }
  }

  /** When the cache changes on one challenge and no verifier moves. */
  lemma SlotMoved(w: World, n: World, id: string, s: State, s': State)
    requires Exclusive(w) && Matches(w, s) && OnlyOn(w, n, s, s', id)
    requires n.verifiers == w.verifiers && LimitsMatch(n, s')
    requires ChallengeOf(s'.cache, id) == if BusyOn(w, id) then ChallengeOf(s.cache, id) else ChallengeOf(n.cache, id)
    ensures Exclusive(n) && Matches(n, s')
  {
    assert forall other :: BusyOn(n, other) <==> BusyOn(w, other);
    forall who | who in n.verifiers && n.verifiers[who].Busy()
      ensures ChallengeOf(s'.cache, n.verifiers[who].id) == Held(n.verifiers[who])
    {
      assert BusyOn(w, n.verifiers[who].id);
    }
  }

  lemma PublishMatches(hash: string -> string, w: World, id: string, s: State)
    requires Valid(hash, w) && Enabled(w, Publish(id)) && Exclusive(w) && Matches(w, s)
    ensures id !in s.limits && Exclusive(Next(hash, w, Publish(id)))
    ensures Matches(Next(hash, w, Publish(id)), Advance(hash, s, WholeOf(w, Publish(id))))
  {
    NotBusyBeforePublished(hash, w, id);
    SlotMoved(w, Next(hash, w, Publish(id)), id, s, Advance(hash, s, WholeOf(w, Publish(id))));
  }

  lemma DropMatches(hash: string -> string, w: World, id: string, s: State)
    requires Exclusive(w) && Matches(w, s)
    ensures Exclusive(Next(hash, w, Drop(id)))
    ensures Matches(Next(hash, w, Drop(id)), Advance(hash, s, WholeOf(w, Drop(id))))
  {
    SlotMoved(w, Next(hash, w, Drop(id)), id, s, Advance(hash, s, WholeOf(w, Drop(id))));
  }

  lemma MakeMatches(hash: string -> string, w: World, step: Step, s: State)
    requires (step.Tick? || step.Make?) && Enabled(w, step) && Exclusive(w) && Matches(w, s)
    ensures Exclusive(Next(hash, w, step)) && Matches(Next(hash, w, step), s)
  {
    var n := Next(hash, w, step);
    assert forall other :: BusyOn(n, other) <==> BusyOn(w, other);
    assert forall id :: Published(n, id) <==> Published(w, id);
  }

  lemma NotBusyBeforePublished(hash: string -> string, w: World, id: string)
    requires Valid(hash, w) && !Published(w, id)
    ensures !BusyOn(w, id) && id !in w.cache
  {
  }

  lemma SerialStepMatches(hash: string -> string, w: World, step: Step, s: State)
    requires Valid(hash, w) && Enabled(w, step) && Alone(w, step) && Exclusive(w) && Matches(w, s)
    ensures Exclusive(Next(hash, w, step)) && Matches(Next(hash, w, step), Advance(hash, s, WholeOf(w, step)))
    ensures forall e :: e in WholeOf(w, step) ==> Captcha.Enabled(s, e)
  {
    match step
    case Load(who) => LoadMatches(hash, w, who, s);
    case Judge(who) => JudgeMatches(hash, w, who, s);
    case WriteBack(who) => WriteBackMatches(hash, w, who, s);
    case Measure(who) => MeasureMatches(hash, w, who, s);
    case Begin(_, _, _) => BeginMatches(hash, w, step, s);
    case Tick(_) => MakeMatches(hash, w, step, s);
    case Make(_, _, _, _) => MakeMatches(hash, w, step, s);
    case Publish(id) => PublishMatches(hash, w, id, s);
    case Drop(id) => DropMatches(hash, w, id, s);
  }

  /** A step and the whole operation it stands for write the same entries. */
  lemma SerialStepLogs(hash: string -> string, w: World, step: Step, s: State)
    requires Enabled(w, step) && Alone(w, step) && Matches(w, s)
    ensures var es := WholeOf(w, step);
            Next(hash, w, step).log == w.log + if es == [] then [] else EntryOf(hash, s, es[0])
  {
    if step.Load? {
      var id := w.verifiers[step.who].id;
      assert ChallengeOf(w.cache, id) == ChallengeOf(s.cache, id);
    } else if step.Judge? {
      var v := w.verifiers[step.who];
      assert ChallengeOf(s.cache, v.id) == Held(v) == Some(v.challenge);
    }
  }

  /** The whole operations of a run, one after another. */
  ghost function Wholes(hash: string -> string, w: World, steps: seq<Step>): seq<Event>
    requires EnabledRun(hash, w, steps)
    decreases |steps|
  {
    if steps == [] then [] else WholeOf(w, steps[0]) + Wholes(hash, Next(hash, w, steps[0]), steps[1..])
  }

  /** A state of whole attempts reached by `es` that agrees with the world. */
  ghost predicate Reflects(hash: string -> string, w: World, es: seq<Event>) {
    && Captcha.EnabledRun(hash, Captcha.START, es)
    && Exclusive(w) && Matches(w, Captcha.Run(hash, Captcha.START, es))
    && w.log == Log(hash, Captcha.START, es)
  }

  lemma SerialStepReflects(hash: string -> string, w: World, step: Step, es: seq<Event>)
    requires Valid(hash, w) && Enabled(w, step) && Alone(w, step) && Reflects(hash, w, es)
    ensures Reflects(hash, Next(hash, w, step), es + WholeOf(w, step))
  {
    var s, more := Captcha.Run(hash, Captcha.START, es), WholeOf(w, step);
    SerialStepMatches(hash, w, step, s);
    SerialStepLogs(hash, w, step, s);
    if more == [] {
      assert es + more == es && w.log + [] == w.log;
    } else {
      assert more == [more[0]] && more[0] in more;
      RunAppend(hash, Captcha.START, es, more[0]);
    }
  }

  lemma {:induction false} SerialRunReflects(hash: string -> string, w: World, steps: seq<Step>, es: seq<Event>)
    requires Valid(hash, w) && EnabledRun(hash, w, steps) && SerialRun(hash, w, steps) && Reflects(hash, w, es)
    ensures Reflects(hash, Run(hash, w, steps), es + Wholes(hash, w, steps))
    decreases |steps|
  {
    if steps == [] {
      assert es + [] == es;
    } else {
      var n, more := Next(hash, w, steps[0]), WholeOf(w, steps[0]);
      StepKeepsValid(hash, w, steps[0]);
      SerialStepReflects(hash, w, steps[0], es);
      SerialRunReflects(hash, n, steps[1..], es + more);
      assert es + more + Wholes(hash, n, steps[1..]) == es + (more + Wholes(hash, n, steps[1..]));
    }
  }

  /** If no two verifiers overlap on one challenge between cache read and cache write, the run
      is one of whole attempts: same answers at the same times with the same outcomes. */
  lemma SerialRunsAreWhole(hash: string -> string, steps: seq<Step>)
    requires EnabledRun(hash, START, steps) && SerialRun(hash, START, steps)
    ensures Captcha.EnabledRun(hash, Captcha.START, Wholes(hash, START, steps))
    ensures Run(hash, START, steps).log == Log(hash, Captcha.START, Wholes(hash, START, steps))
    ensures Matches(Run(hash, START, steps), Captcha.Run(hash, Captcha.START, Wholes(hash, START, steps)))
  {
    assert Reflects(hash, START, []);
    SerialRunReflects(hash, START, steps, []);
    assert [] + Wholes(hash, START, steps) == Wholes(hash, START, steps);
  }

  /** So the counting bounds of whole attempts hold of every such run. */
  lemma SerialAttemptsAreBounded(hash: string -> string, steps: seq<Step>, id: string)
    requires EnabledRun(hash, START, steps) && SerialRun(hash, START, steps)
    ensures var w := Run(hash, START, steps);
            var t := LogTally(w.log, id);
            && t.accepted <= 1
            && (if Published(w, id) then t.accepted + t.invalid <= MaxAttempts(w.issued[id].configuredAttempts)
                else t == Tally(0, 0))
  {
    var es := Wholes(hash, START, steps);
    SerialRunsAreWhole(hash, steps);
    AttemptsAreBounded(hash, es, id);
    TallyIsLog(hash, es, id);
  }

  lemma EntryCounts(log: seq<Entry>, e: Entry)
    ensures LogTally(log + [e], e.id) == Count(LogTally(log, e.id), e.outcome)
  {
    assert (log + [e])[..|log|] == log;
  }

  /** The condition is needed. Whenever two verifiers hold a copy of one challenge with the
      right answer before its expiry, both can be accepted. */
  lemma OverlapAcceptsTwice(hash: string -> string, w: World, a: nat, b: nat)
    requires Valid(hash, w) && a in w.verifiers && b in w.verifiers && a != b
    requires var v, u := w.verifiers[a], w.verifiers[b];
             && v.Loaded? && u.Loaded? && v.id == u.id && w.now < Made(hash, w.issued[v.id]).expiresAt
             && NormalizeAnswer(v.answer) == NormalizeAnswer(w.issued[v.id].answer) == NormalizeAnswer(u.answer)
    ensures var id, steps := w.verifiers[a].id, [Judge(a), WriteBack(a), Judge(b)];
            && EnabledRun(hash, w, steps)
            && LogTally(Run(hash, w, steps).log, id).accepted == LogTally(w.log, id).accepted + 2
  {
    var v, u := w.verifiers[a], w.verifiers[b];
    assert GenuineVerifier(hash, w, v) && GenuineVerifier(hash, w, u);
    RightAnswer(hash, w, a);
    var w1 := Next(hash, w, Judge(a));
    var w2 := Next(hash, w1, WriteBack(a));
    RightAnswer(hash, w2, b);
    var w3 := Next(hash, w2, Judge(b));
    StepThen(hash, w2, Judge(b), []);
    StepThen(hash, w1, WriteBack(a), [Judge(b)]);
    StepThen(hash, w, Judge(a), [WriteBack(a), Judge(b)]);
    assert Run(hash, w3, []) == w3;
    EntryCounts(w.log, Entry(v.id, v.answer, w.now, Accepted));
    EntryCounts(w2.log, Entry(u.id, u.answer, w.now, Accepted));
  }

  lemma RightAnswer(hash: string -> string, w: World, who: nat)
    requires who in w.verifiers && w.verifiers[who].Loaded? && w.now < w.verifiers[who].challenge.expiresAt
    requires w.verifiers[who].challenge.answerHash == AnswerHash(hash, w.verifiers[who].answer)
    ensures var v, n := w.verifiers[who], Next(hash, w, Judge(who));
            && n.verifiers == w.verifiers[who := Deleting(v.id, Accepted)]
            && n.log == w.log + [Entry(v.id, v.answer, w.now, Accepted)]
  {
  }

  lemma StepThen(hash: string -> string, w: World, step: Step, rest: seq<Step>)
    requires Enabled(w, step) && EnabledRun(hash, Next(hash, w, step), rest)
    ensures EnabledRun(hash, w, [step] + rest) && Run(hash, w, [step] + rest) == Run(hash, Next(hash, w, step), rest)
  {
    assert ([step] + rest)[1..] == rest;
  }

  /** Whenever two verifiers hold a copy with a wrong answer, both are told it was invalid
      and the stored count rises by one only. */
  lemma OverlapLosesCount(hash: string -> string, w: World, a: nat, b: nat)
    requires Injective(hash) && Valid(hash, w) && a in w.verifiers && b in w.verifiers && a != b
    requires w.verifiers[a].Loaded? && w.verifiers[b].Loaded? && w.verifiers[a].id == w.verifiers[b].id
    requires var v, u := w.verifiers[a], w.verifiers[b];
             && v.challenge == u.challenge && v.challenge.attempts + 1 < v.challenge.maxAttempts
             && w.now < v.challenge.expiresAt
             && NormalizeAnswer(v.answer) != NormalizeAnswer(w.issued[v.id].answer)
             && NormalizeAnswer(u.answer) != NormalizeAnswer(w.issued[v.id].answer)
    ensures var id := w.verifiers[a].id;
            var steps := [Judge(a), Measure(a), WriteBack(a), Judge(b), Measure(b), WriteBack(b)];
            && EnabledRun(hash, w, steps)
            && var n := Run(hash, w, steps);
               && LogTally(n.log, id).invalid == LogTally(w.log, id).invalid + 2
               && id in n.cache && n.cache[id].challenge.attempts == w.verifiers[a].challenge.attempts + 1
  {
    var id, v, u := w.verifiers[a].id, w.verifiers[a], w.verifiers[b];
    assert GenuineVerifier(hash, w, v) && GenuineVerifier(hash, w, u);
    var counted := v.challenge.(attempts := v.challenge.attempts + 1);
    var w3 := WrongAnswerTurn(hash, w, a, counted);
    var w6 := WrongAnswerTurn(hash, w3, b, counted);
    var first, second := [Judge(a), Measure(a), WriteBack(a)], [Judge(b), Measure(b), WriteBack(b)];
    RunsCompose(hash, w, first, second);
    assert first + second == [Judge(a), Measure(a), WriteBack(a), Judge(b), Measure(b), WriteBack(b)];
    EntryCounts(w.log, Entry(id, v.answer, w.now, Invalid));
    EntryCounts(w3.log, Entry(id, u.answer, w.now, Invalid));
  }

  /** A wrong answer's last three steps without interference. */
  ghost function WrongAnswerTurn(hash: string -> string, w: World, who: nat, counted: Challenge): (n: World)
    requires who in w.verifiers && w.verifiers[who].Loaded?
    requires Decide(hash, w.verifiers[who].challenge, w.verifiers[who].answer, w.now) == (Invalid, Some(counted))
    ensures var steps := [Judge(who), Measure(who), WriteBack(who)];
            EnabledRun(hash, w, steps) && Run(hash, w, steps) == n
    ensures var v := w.verifiers[who];
            && n.now == w.now && n.log == w.log + [Entry(v.id, v.answer, w.now, Invalid)]
            && n.verifiers == w.verifiers[who := Finished(Invalid)]
            && v.id in n.cache && n.cache[v.id].challenge == counted
  {
    var w1 := Next(hash, w, Judge(who));
    assert w1.verifiers[who] == Missed(w.verifiers[who].id, counted);
    var w2 := Next(hash, w1, Measure(who));
    assert w2.verifiers[who].Storing?;
    StepThen(hash, w2, WriteBack(who), []);
    StepThen(hash, w1, Measure(who), [WriteBack(who)]);
    StepThen(hash, w, Judge(who), [Measure(who), WriteBack(who)]);
    Next(hash, w2, WriteBack(who))
  }

  lemma {:induction false} RunsCompose(hash: string -> string, w: World, first: seq<Step>, second: seq<Step>)
    requires EnabledRun(hash, w, first) && EnabledRun(hash, Run(hash, w, first), second)
    ensures EnabledRun(hash, w, first + second)
    ensures Run(hash, w, first + second) == Run(hash, Run(hash, w, first), second)
    decreases |first|
  {
    if first == [] {
      assert first + second == second;
    } else {
      assert (first + second)[1..] == first[1..] + second;
      RunsCompose(hash, Next(hash, w, first[0]), first[1..], second);
    }
  }

  /** A verifier arrives and reads the cache. */
  lemma Arrives(hash: string -> string, w: World, who: nat, id: string, answer: string)
    requires who !in w.verifiers && id in w.cache
    ensures var steps := [Begin(who, id, answer), Load(who)];
            && EnabledRun(hash, w, steps)
            && Run(hash, w, steps) == w.(verifiers := w.verifiers[who := Loaded(id, answer, w.cache[id].challenge)])
  {
    var asked := Next(hash, w, Begin(who, id, answer));
    StepThen(hash, asked, Load(who), []);
    StepThen(hash, w, Begin(who, id, answer), [Load(who)]);
  }

  lemma Offered(hash: string -> string, id: string, answer: string, ttlSecs: nat)
    ensures var steps, i := [Make(id, answer, None, ttlSecs), Publish(id)], Issuance(answer, None, ttlSecs, 0);
            && EnabledRun(hash, START, steps)
            && Run(hash, START, steps) ==
                 World(0, map[id := Slot(Made(hash, i), ttlSecs * 1000)], map[], map[id := i], {}, [])
  {
    var made := Next(hash, START, Make(id, answer, None, ttlSecs));
    StepThen(hash, made, Publish(id), []);
    StepThen(hash, START, Make(id, answer, None, ttlSecs), [Publish(id)]);
  }

  /** Such a run from the empty cache, for any answer and ttl: one challenge, two verifiers,
      two acceptances. */
  lemma OneChallengeAcceptedTwice(hash: string -> string, id: string, answer: string, ttlSecs: nat)
    requires ttlSecs > 0
    ensures var steps := [Make(id, answer, None, ttlSecs), Publish(id)] + [Begin(1, id, answer), Load(1)]
                         + [Begin(2, id, answer), Load(2)] + [Judge(1), WriteBack(1), Judge(2)];
            EnabledRun(hash, START, steps) && LogTally(Run(hash, START, steps).log, id).accepted == 2
  {
    var offer := [Make(id, answer, None, ttlSecs), Publish(id)];
    var one, two := [Begin(1, id, answer), Load(1)], [Begin(2, id, answer), Load(2)];
    Offered(hash, id, answer, ttlSecs);
    var w1 := Run(hash, START, offer);
    Arrives(hash, w1, 1, id, answer);
    RunsCompose(hash, START, offer, one);
    var w2 := Run(hash, w1, one);
    Arrives(hash, w2, 2, id, answer);
    RunsCompose(hash, START, offer + one, two);
    var w3 := Run(hash, w2, two);
    RunKeepsValid(hash, START, offer + one + two);
    OverlapAcceptsTwice(hash, w3, 1, 2);
    RunsCompose(hash, START, offer + one + two, [Judge(1), WriteBack(1), Judge(2)]);
  }

  // ---- one verifier without interference ---------------------------------------------

  /** A verifier's steps taken one after another with nothing in between. */
  function Uninterrupted(hash: string -> string, w: World, who: nat): World
    requires Enabled(w, Load(who))
  {
    var loaded := Next(hash, w, Load(who));
    if loaded.verifiers[who].Finished? then loaded
    else
      var judged := Next(hash, loaded, Judge(who));
      var ready := if judged.verifiers[who].Missed? then Next(hash, judged, Measure(who)) else judged;
      Next(hash, ready, WriteBack(who))
  }

  /** Without interference the split steps do exactly what the whole operation does. */
  lemma UninterruptedIsAtomic(hash: string -> string, w: World, who: nat)
    requires who in w.verifiers && w.verifiers[who].Asked?
    ensures var v, end := w.verifiers[who], Uninterrupted(hash, w, who);
            var (cache, outcome) := Verified(hash, w.cache, v.id, v.answer, w.now, w.now);
            end.cache == cache && end.verifiers == w.verifiers[who := Finished(outcome)]
  {
    var v := w.verifiers[who];
    if v.id in w.cache {
      var loaded := Next(hash, w, Load(who));
      var judged := Next(hash, loaded, Judge(who));
      assert judged.verifiers[who] == Judged(hash, loaded.verifiers[who], w.now);
    }
  }
}
