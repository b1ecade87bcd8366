/**
 The shared key-set cache under any interleaving of `verify` calls.

 Each call steps through `_signing_key` and `_refresh_key_set` one field read, clock read, field
 write, lock operation or fetch at a time; a run is any sequence of such steps of any number of
 calls, with the monotonic clock moving between them. `attempts` is history: every refresh that
 stamped `_last_refresh_at`, and what its fetch answered.
 */
module KeySetCache {
  import opened Wrappers
  import opened KeySetDocument

  const KEY_SET_TTL_SECONDS := 3600.0
  const KEY_SET_REFRESH_COOLDOWN_SECONDS := 30.0

  type CallId = nat

  datatype KeySet = KeySet(keys: SigningKeys, fetchedAt: real)

  /** `NoDocument` is a fetch that raised `KeySetFetchError`. */
  datatype FetchAnswer = NoDocument | Fetched(document: Document)

  datatype RejectionReason = KeySetUnavailable | InvalidKeyId | UnknownKeyId

  /** One refresh: its stamp, and its fetch's answer once there is one. */
  datatype Attempt = Attempt(stamp: real, answer: Option<FetchAnswer>)

  // ----- the decisions both the interleaved and the sequential model take -----

  predicate IsCurrent(keySet: Option<KeySet>, now: real) {
    keySet.Some? && now - keySet.value.fetchedAt < KEY_SET_TTL_SECONDS
  }

  predicate LacksKey(keySet: Option<KeySet>, keyId: Option<string>) {
    keyId.Some? && keySet.Some? && keyId.value !in keySet.value.keys.named
  }

  predicate IsCoolingDown(lastRefreshAt: Option<real>, now: real) {
    lastRefreshAt.Some? && now - lastRefreshAt.value < KEY_SET_REFRESH_COOLDOWN_SECONDS
  }

  /** What a fetch's answer holds, or why it must not replace the cached set. */
  type Parser = FetchAnswer -> Result<SigningKeys, RefreshFailure>

  function ParsedAnswer(crypto: Crypto, answer: FetchAnswer): Result<SigningKeys, RefreshFailure> {
    match answer
    case NoDocument => Failure(FetchFailed)
    case Fetched(document) => Parse(crypto, document)
  }

  /** What a current snapshot answers, or `None` when its lacking the key needs explaining. */
  function KeyIn(keySet: KeySet, keyId: Option<string>): Option<Result<Key, RejectionReason>> {
    match keyId
    case None =>
      Some(if keySet.keys.sole.None? then Failure(InvalidKeyId) else Success(keySet.keys.sole.value))
    case Some(name) =>
      if name in keySet.keys.named then Some(Success(keySet.keys.named[name])) else None
  }

  /** An unknown key id is forged only if the last refresh succeeded. */
  function WhyUnknown(lastRefreshFailed: bool): RejectionReason {
    if lastRefreshFailed then KeySetUnavailable else UnknownKeyId
  }

  /** The answer that the latest set, what the flag tells and the last clock reading make. */
  function AnswerIn(latest: Option<KeySet>, failed: bool, keyId: Option<string>, now: real): Result<Key, RejectionReason> {
    if !IsCurrent(latest, now) then Failure(KeySetUnavailable)
    else
      match KeyIn(latest.value, keyId)
      case Some(found) => found
      case None => Failure(WhyUnknown(failed))
  }

  /**
   The answers of one set, told apart: the named key, the sole key of a set of one for a token without
   an id, and each refusal under its own condition.
   */
  lemma AnswerExactly(latest: Option<KeySet>, failed: bool, keyId: Option<string>, now: real)
    ensures var answer := AnswerIn(latest, failed, keyId, now);
            var isCurrent := latest.Some? && now - latest.value.fetchedAt < 3600.0;
            && (forall key :: answer == Success(key) <==>
                  isCurrent && match keyId
                               case Some(name) => name in latest.value.keys.named && key == latest.value.keys.named[name]
                               case None => latest.value.keys.sole == Some(key))
            && (answer == Failure(InvalidKeyId) <==> isCurrent && keyId.None? && latest.value.keys.sole.None?)
            && (answer == Failure(UnknownKeyId) <==>
                  isCurrent && keyId.Some? && keyId.value !in latest.value.keys.named && !failed)
            && (answer == Failure(KeySetUnavailable) <==>
                  !isCurrent || (keyId.Some? && keyId.value !in latest.value.keys.named && failed))
  {
  }

  // ----- history -----

  predicate Succeeded(parse: Parser, attempt: Attempt) {
    attempt.answer.Some? && parse(attempt.answer.value).Success?
  }

  function KeySetOf(parse: Parser, attempt: Attempt): KeySet
    requires Succeeded(parse, attempt)
  {
    KeySet(parse(attempt.answer.value).value, attempt.stamp)
  }

  /** The parse of the latest successful attempt. */
  function LatestSuccess(parse: Parser, attempts: seq<Attempt>): Option<KeySet> {
    if attempts == [] then None
    else if Succeeded(parse, attempts[|attempts| - 1]) then Some(KeySetOf(parse, attempts[|attempts| - 1]))
    else LatestSuccess(parse, attempts[..|attempts| - 1])
  }

  predicate LatestFailed(parse: Parser, attempts: seq<Attempt>) {
    attempts != [] && !Succeeded(parse, attempts[|attempts| - 1])
  }

  function LastStamp(attempts: seq<Attempt>): Option<real> {
    if attempts == [] then None else Some(attempts[|attempts| - 1].stamp)
  }

  predicate AreSpaced(attempts: seq<Attempt>) {
    forall i :: 0 < i < |attempts| ==>
      attempts[i].stamp - attempts[i - 1].stamp >= KEY_SET_REFRESH_COOLDOWN_SECONDS
  }

  ghost predicate WasPublished(parse: Parser, attempts: seq<Attempt>, keySet: KeySet) {
    exists i :: 0 <= i < |attempts| && Succeeded(parse, attempts[i]) && keySet == KeySetOf(parse, attempts[i])
  }

  // ----- the machine -----

  /** Where a call stands: the next atomic step it takes. */
  datatype Pc =
    | ReadSnapshot                                        // takes the shared set as its snapshot
    | CheckSnapshot(snapshot: Option<KeySet>)             // judges the snapshot's age and looks the id up
    | Acquire                                             // tries the lock, without waiting
    | ReadClock                                           // holds the lock, reads the clock
    | ReadLast(now: real)                                 // reads whether there was an attempt
    | CheckCooldown(now: real)                            // compares the last stamp with the cooldown
    | StampAttempt(now: real)                             // writes this attempt's stamp
    | Fetching(now: real)                                 // awaits the document, parsed when it comes
    | Publish(now: real, keys: SigningKeys)               // writes the new shared set
    | ClearFailed                                         // writes that the attempt succeeded
    | MarkFailed                                          // writes that the attempt failed
    | Release                                             // gives the lock back
    | Reread                                              // takes the shared set again
    | Recheck(snapshot: Option<KeySet>)                   // judges its age and looks the id up
    | ReadFailed(held: KeySet, checkedAt: real)           // reads how the latest attempt ended
    | Done(answer: Result<Key, RejectionReason>, evidence: Evidence)

  /** History kept with an answer: the snapshot and clock reading it rests on, when it was given,
      and how many attempts there had been. */
  datatype Evidence = Evidence(snapshot: Option<KeySet>, checkedAt: real, answeredAt: real, attempts: nat)

  datatype Call = Call(keyId: Option<string>, startedAt: real, pc: Pc)

  /** The verifier's fields, the clock, and the history of its refreshes. */
  datatype Verifier = Verifier(
    keySet: Option<KeySet>,
    lastRefreshAt: Option<real>,
    lastRefreshFailed: bool,
    clock: real,
    attempts: seq<Attempt>)

  datatype State = State(verifier: Verifier, lock: Option<CallId>, calls: map<CallId, Call>)

  /** What may happen next; the fetch's answer matters only to the call that is fetching. */
  datatype Action =
    | Tick(seconds: real)
    | Begin(call: CallId, keyId: Option<string>)
    | Step(call: CallId, answer: FetchAnswer)

  function Initial(clock: real): State {
    State(Verifier(None, None, false, clock, []), None, map[])
  }

  predicate IsRefreshing(pc: Pc) {
    pc.ReadClock? || pc.ReadLast? || pc.CheckCooldown? || pc.StampAttempt? || pc.Fetching? || pc.Publish? ||
    pc.ClearFailed? || pc.MarkFailed? || pc.Release?
  }

  function Answered(attempts: seq<Attempt>, answer: FetchAnswer): seq<Attempt> {
    if attempts == [] then []
    else attempts[..|attempts| - 1] + [attempts[|attempts| - 1].(answer := Some(answer))]
  }

  /** One step of `_refresh_key_set` under its lock. */
  function RefreshStep(parse: Parser, v: Verifier, pc: Pc, answer: FetchAnswer): (Verifier, Pc)
    requires IsRefreshing(pc)
  {
    match pc
    case ReadClock => (v, ReadLast(v.clock))
    case ReadLast(now) => (v, if v.lastRefreshAt.None? then StampAttempt(now) else CheckCooldown(now))
    case CheckCooldown(now) => (v, if IsCoolingDown(v.lastRefreshAt, now) then Release else StampAttempt(now))
    case StampAttempt(now) =>
      (v.(lastRefreshAt := Some(now), attempts := v.attempts + [Attempt(now, None)]), Fetching(now))
    case Fetching(now) =>
      (v.(attempts := Answered(v.attempts, answer)),
       match parse(answer) case Failure(_) => MarkFailed case Success(keys) => Publish(now, keys))
    case Publish(now, keys) => (v.(keySet := Some(KeySet(keys, now))), ClearFailed)
    case ClearFailed => (v.(lastRefreshFailed := false), Release)
    case MarkFailed => (v.(lastRefreshFailed := true), Release)
    case Release => (v, Reread)
  }

  /** One step of `_signing_key` outside the refresh; `locked` is whether another call refreshes. */
  function LookupStep(v: Verifier, locked: bool, call: Call): Pc
    requires !IsRefreshing(call.pc)
  {
    match call.pc
    case ReadSnapshot => CheckSnapshot(v.keySet)
    case CheckSnapshot(snapshot) =>
      if !IsCurrent(snapshot, v.clock) || LacksKey(snapshot, call.keyId) then Acquire else Recheck(snapshot)
    case Acquire => if locked then Reread else ReadClock
    case Reread => Recheck(v.keySet)
    case Recheck(snapshot) =>
      var evidence := Evidence(snapshot, v.clock, v.clock, |v.attempts|);
      if !IsCurrent(snapshot, v.clock) then Done(Failure(KeySetUnavailable), evidence)
      else
        (match KeyIn(snapshot.value, call.keyId)
         case Some(found) => Done(found, evidence)
         case None => ReadFailed(snapshot.value, v.clock))
    case ReadFailed(held, checkedAt) =>
      Done(Failure(WhyUnknown(v.lastRefreshFailed)), Evidence(Some(held), checkedAt, v.clock, |v.attempts|))
    case Done(_, _) => call.pc
  }

  function StepCall(parse: Parser, s: State, id: CallId, answer: FetchAnswer): State
    requires id in s.calls
  {
    var call := s.calls[id];
    if IsRefreshing(call.pc) then
      var (v, pc) := RefreshStep(parse, s.verifier, call.pc, answer);
      State(v, if call.pc.Release? then None else s.lock, s.calls[id := call.(pc := pc)])
    else
      var pc := LookupStep(s.verifier, s.lock.Some?, call);
      State(s.verifier, if pc.ReadClock? then Some(id) else s.lock, s.calls[id := call.(pc := pc)])
  }

  /** An action that cannot happen changes nothing, so every sequence of actions is a run. */
  function Act(parse: Parser, s: State, action: Action): State {
    match action
    case Tick(seconds) =>
      if seconds < 0.0 then s else s.(verifier := s.verifier.(clock := s.verifier.clock + seconds))
    case Begin(id, keyId) =>
      if id in s.calls then s
      else s.(calls := s.calls[id := Call(keyId, s.verifier.clock, ReadSnapshot)])
    case Step(id, answer) => if id in s.calls then StepCall(parse, s, id, answer) else s
  }

  function RunFrom(parse: Parser, s: State, actions: seq<Action>): State {
    if actions == [] then s
    else Act(parse, RunFrom(parse, s, actions[..|actions| - 1]), actions[|actions| - 1])
  }

  function Run(parse: Parser, clock: real, actions: seq<Action>): State {
    RunFrom(parse, Initial(clock), actions)
  }

  // ----- the invariant -----

  /** Where the lock's holder stands; `Reread` stands for nobody refreshing. */
  function Phase(s: State): Pc {
    if s.lock.Some? && s.lock.value in s.calls then s.calls[s.lock.value].pc else Reread
  }

  function AllButLast(attempts: seq<Attempt>): seq<Attempt> {
    if attempts == [] then [] else attempts[..|attempts| - 1]
  }

  /** The attempts whose outcome `_last_refresh_failed` already tells. */
  function Settled(v: Verifier, phase: Pc): seq<Attempt> {
    if phase.Fetching? || phase.Publish? || phase.ClearFailed? || phase.MarkFailed?
    then AllButLast(v.attempts) else v.attempts
  }

  /** The attempts whose success `_key_set` already shows. */
  function Shown(v: Verifier, phase: Pc): seq<Attempt> {
    if phase.Fetching? || phase.Publish? then AllButLast(v.attempts) else v.attempts
  }

  ghost predicate FieldsTellHistory(parse: Parser, v: Verifier, phase: Pc) {
    && v.lastRefreshAt == LastStamp(v.attempts)
    && v.keySet == LatestSuccess(parse, Shown(v, phase))
    && v.lastRefreshFailed == LatestFailed(parse, Settled(v, phase))
    && AreSpaced(v.attempts)
    && (v.attempts != [] ==> v.attempts[|v.attempts| - 1].stamp <= v.clock)
    && (forall i :: 0 <= i < |v.attempts| ==>
          (v.attempts[i].answer.None? <==> phase.Fetching? && i == |v.attempts| - 1))
  }

  ghost predicate RefresherKnows(parse: Parser, v: Verifier, phase: Pc) {
    var last := |v.attempts| - 1;
    match phase
    case ReadLast(now) => now <= v.clock && (last >= 0 ==> v.attempts[last].stamp <= now)
    case CheckCooldown(now) => now <= v.clock && last >= 0 && v.attempts[last].stamp <= now
    case StampAttempt(now) =>
      now <= v.clock && (last >= 0 ==> now - v.attempts[last].stamp >= KEY_SET_REFRESH_COOLDOWN_SECONDS)
    case Fetching(now) => last >= 0 && v.attempts[last] == Attempt(now, None)
    case Publish(now, keys) =>
      last >= 0 && Succeeded(parse, v.attempts[last]) && KeySetOf(parse, v.attempts[last]) == KeySet(keys, now)
    case ClearFailed => last >= 0 && Succeeded(parse, v.attempts[last])
    case MarkFailed => last >= 0 && !Succeeded(parse, v.attempts[last])
    case _ => true
  }

  ghost predicate VerifierIsSound(parse: Parser, v: Verifier, phase: Pc) {
    FieldsTellHistory(parse, v, phase) && RefresherKnows(parse, v, phase)
  }

  ghost predicate LockIsHeldByTheRefresher(s: State) {
    && (s.lock.Some? ==> s.lock.value in s.calls)
    && (forall id :: id in s.calls ==> (IsRefreshing(s.calls[id].pc) <==> s.lock == Some(id)))
  }

  /** What a key handed out, or a refusal, rests on. */
  ghost predicate AnswerIsJustified(parse: Parser, v: Verifier, call: Call)
    requires call.pc.Done?
  {
    var evidence := call.pc.evidence;
    && call.startedAt <= evidence.checkedAt <= evidence.answeredAt <= v.clock
    && evidence.attempts <= |v.attempts|
    && (evidence.snapshot.Some? ==> WasPublished(parse, v.attempts, evidence.snapshot.value))
    && (call.pc.answer.Success? ==>
          && IsCurrent(evidence.snapshot, evidence.checkedAt)
          && KeyIn(evidence.snapshot.value, call.keyId) == Some(call.pc.answer))
    && (call.pc.answer == Failure(UnknownKeyId) ==>
          IsCurrent(evidence.snapshot, evidence.checkedAt) && LacksKey(evidence.snapshot, call.keyId))
  }

  ghost predicate CallIsSound(parse: Parser, v: Verifier, call: Call) {
    && call.startedAt <= v.clock
    && match call.pc
       case CheckSnapshot(snapshot) => snapshot.Some? ==> WasPublished(parse, v.attempts, snapshot.value)
       case Recheck(snapshot) => snapshot.Some? ==> WasPublished(parse, v.attempts, snapshot.value)
       case ReadFailed(held, checkedAt) =>
         && call.startedAt <= checkedAt <= v.clock
         && WasPublished(parse, v.attempts, held)
         && IsCurrent(Some(held), checkedAt)
         && LacksKey(Some(held), call.keyId)
       case Done(_, _) => AnswerIsJustified(parse, v, call)
       case _ => true
  }

  ghost predicate Inv(parse: Parser, s: State) {
    && LockIsHeldByTheRefresher(s)
    && VerifierIsSound(parse, s.verifier, Phase(s))
    && (forall id :: id in s.calls ==> CallIsSound(parse, s.verifier, s.calls[id]))
  }

  // ----- preservation -----

  /** What a call's soundness rests on survives: the clock and the answered attempts. */
  ghost predicate Extends(v: Verifier, w: Verifier) {
    && v.clock <= w.clock
    && |v.attempts| <= |w.attempts|
    && (forall i :: 0 <= i < |v.attempts| ==> w.attempts[i].stamp == v.attempts[i].stamp)
    && (forall i :: 0 <= i < |v.attempts| && v.attempts[i].answer.Some? ==> w.attempts[i] == v.attempts[i])
  }

  lemma SoundnessLasts(parse: Parser, v: Verifier, w: Verifier, call: Call)
    requires Extends(v, w) && CallIsSound(parse, v, call)
    ensures CallIsSound(parse, w, call)
  {
    forall keySet | WasPublished(parse, v.attempts, keySet) ensures WasPublished(parse, w.attempts, keySet) {
      var i :| 0 <= i < |v.attempts| && Succeeded(parse, v.attempts[i]) && keySet == KeySetOf(parse, v.attempts[i]);
      assert w.attempts[i] == v.attempts[i];
    }
  }

  lemma {:induction false} LatestSuccessWasPublished(parse: Parser, attempts: seq<Attempt>)
    ensures LatestSuccess(parse, attempts).Some? ==>
              WasPublished(parse, attempts, LatestSuccess(parse, attempts).value)
  {
    if attempts != [] && !Succeeded(parse, attempts[|attempts| - 1]) {
      LatestSuccessWasPublished(parse, attempts[..|attempts| - 1]);
    }
  }

  lemma ShownWasPublished(parse: Parser, v: Verifier, phase: Pc)
    requires FieldsTellHistory(parse, v, phase) && v.keySet.Some?
    ensures WasPublished(parse, v.attempts, v.keySet.value)
  {
    var shown := Shown(v, phase);
    LatestSuccessWasPublished(parse, shown);
    var i :| 0 <= i < |shown| && Succeeded(parse, shown[i]) && v.keySet.value == KeySetOf(parse, shown[i]);
    assert v.attempts[i] == shown[i];
  }

  lemma ReadingStepIsSound(parse: Parser, v: Verifier, phase: Pc, answer: FetchAnswer)
    requires phase.ReadClock? || phase.ReadLast? || phase.CheckCooldown? || phase.Release?
    requires VerifierIsSound(parse, v, phase)
    ensures VerifierIsSound(parse, v, RefreshStep(parse, v, phase, answer).1)
  {
  }

  lemma StampIsSound(parse: Parser, v: Verifier, phase: Pc)
    requires phase.StampAttempt? && VerifierIsSound(parse, v, phase)
    ensures VerifierIsSound(parse, RefreshStep(parse, v, phase, NoDocument).0, Fetching(phase.now))
  {
    var w := RefreshStep(parse, v, phase, NoDocument).0;
    assert AllButLast(w.attempts) == v.attempts;
  }

  lemma FetchIsSound(parse: Parser, v: Verifier, phase: Pc, answer: FetchAnswer)
    requires phase.Fetching? && VerifierIsSound(parse, v, phase)
    ensures var (w, next) := RefreshStep(parse, v, phase, answer); VerifierIsSound(parse, w, next)
  {
    AnsweredAttempts(v.attempts, answer);
    LatestOfAnswered(parse, v.attempts, answer);
    assert v.lastRefreshFailed == LatestFailed(parse, AllButLast(v.attempts));
    assert v.keySet == LatestSuccess(parse, AllButLast(v.attempts));
  }

  /** A fetch that yields no set leaves the latest success as it was. */
  lemma LatestOfAnswered(parse: Parser, attempts: seq<Attempt>, answer: FetchAnswer)
    requires attempts != []
    ensures parse(answer).Failure? ==>
              LatestSuccess(parse, Answered(attempts, answer)) == LatestSuccess(parse, AllButLast(attempts))
  {
    AnsweredAttempts(attempts, answer);
  }

  /** An answer changes the last attempt alone, and that only by its answer. */
  lemma AnsweredAttempts(attempts: seq<Attempt>, answer: FetchAnswer)
    requires attempts != []
    ensures var answered, last := Answered(attempts, answer), |attempts| - 1;
            && |answered| == |attempts| && AllButLast(answered) == AllButLast(attempts)
            && answered[last] == attempts[last].(answer := Some(answer))
            && (forall i :: 0 <= i < last ==> answered[i] == attempts[i])
            && (AreSpaced(attempts) ==> AreSpaced(answered))
  {
  }

  lemma WriteIsSound(parse: Parser, v: Verifier, phase: Pc, answer: FetchAnswer)
    requires phase.Publish? || phase.ClearFailed? || phase.MarkFailed?
    requires VerifierIsSound(parse, v, phase)
    ensures var (w, next) := RefreshStep(parse, v, phase, answer); VerifierIsSound(parse, w, next)
  {
  }

  lemma RefreshStepExtends(parse: Parser, v: Verifier, phase: Pc, answer: FetchAnswer)
    requires IsRefreshing(phase) && VerifierIsSound(parse, v, phase)
    ensures Extends(v, RefreshStep(parse, v, phase, answer).0)
  {
  }

  lemma RefreshStepIsSound(parse: Parser, v: Verifier, phase: Pc, answer: FetchAnswer)
    requires IsRefreshing(phase) && VerifierIsSound(parse, v, phase)
    ensures var (w, next) := RefreshStep(parse, v, phase, answer);
            && VerifierIsSound(parse, w, next)
            && Extends(v, w)
            && (if phase.Release? then next == Reread else IsRefreshing(next))
  {
    RefreshStepExtends(parse, v, phase, answer);
    match phase {
      case StampAttempt(_) => StampIsSound(parse, v, phase);
      case Fetching(_) => FetchIsSound(parse, v, phase, answer);
      case Publish(_, _) => WriteIsSound(parse, v, phase, answer);
      case ClearFailed => WriteIsSound(parse, v, phase, answer);
      case MarkFailed => WriteIsSound(parse, v, phase, answer);
      case _ => ReadingStepIsSound(parse, v, phase, answer);
    }
  }

  lemma LookupStepIsSound(parse: Parser, v: Verifier, phase: Pc, locked: bool, call: Call)
    requires !IsRefreshing(call.pc) && FieldsTellHistory(parse, v, phase) && CallIsSound(parse, v, call)
    ensures CallIsSound(parse, v, call.(pc := LookupStep(v, locked, call)))
  {
    if v.keySet.Some? {
      ShownWasPublished(parse, v, phase);
    }
  }

  lemma StepKeepsTheLock(parse: Parser, s: State, id: CallId, answer: FetchAnswer)
    requires id in s.calls && LockIsHeldByTheRefresher(s)
    requires var call := s.calls[id];
             IsRefreshing(call.pc) ==>
               (var next := RefreshStep(parse, s.verifier, call.pc, answer).1;
                if call.pc.Release? then next == Reread else IsRefreshing(next))
    ensures var t := StepCall(parse, s, id, answer);
            && LockIsHeldByTheRefresher(t)
            && Phase(t) == if s.lock == Some(id) || t.lock == Some(id) then t.calls[id].pc else Phase(s)
  {
  }

  /** Every call stays sound when the fields move on. */
  lemma CallsLast(parse: Parser, s: State, w: Verifier)
    requires (forall id :: id in s.calls ==> CallIsSound(parse, s.verifier, s.calls[id])) && Extends(s.verifier, w)
    ensures forall id :: id in s.calls ==> CallIsSound(parse, w, s.calls[id])
  {
    forall id | id in s.calls ensures CallIsSound(parse, w, s.calls[id]) {
      SoundnessLasts(parse, s.verifier, w, s.calls[id]);
    }
  }

  lemma RefresherKeepsTheVerifier(parse: Parser, s: State, id: CallId, answer: FetchAnswer)
    requires id in s.calls && LockIsHeldByTheRefresher(s) && IsRefreshing(s.calls[id].pc)
    requires VerifierIsSound(parse, s.verifier, s.calls[id].pc)
    ensures var t := StepCall(parse, s, id, answer);
            && LockIsHeldByTheRefresher(t)
            && VerifierIsSound(parse, t.verifier, Phase(t))
            && Extends(s.verifier, t.verifier)
  {
    RefreshStepIsSound(parse, s.verifier, s.calls[id].pc, answer);
    StepKeepsTheLock(parse, s, id, answer);
  }

  lemma RefresherKeepsTheCalls(parse: Parser, s: State, id: CallId, answer: FetchAnswer)
    requires id in s.calls && IsRefreshing(s.calls[id].pc)
    requires forall other :: other in s.calls ==> CallIsSound(parse, s.verifier, s.calls[other])
    requires var next := RefreshStep(parse, s.verifier, s.calls[id].pc, answer).1; IsRefreshing(next) || next == Reread
    requires Extends(s.verifier, RefreshStep(parse, s.verifier, s.calls[id].pc, answer).0)
    ensures var t := StepCall(parse, s, id, answer);
            forall other :: other in t.calls ==> CallIsSound(parse, t.verifier, t.calls[other])
  {
    CallsLast(parse, s, RefreshStep(parse, s.verifier, s.calls[id].pc, answer).0);
  }

  lemma RefresherKeepsInv(parse: Parser, s: State, id: CallId, answer: FetchAnswer)
    requires id in s.calls && Inv(parse, s) && IsRefreshing(s.calls[id].pc)
    ensures Inv(parse, StepCall(parse, s, id, answer))
    ensures Extends(s.verifier, StepCall(parse, s, id, answer).verifier)
  {
    assert Phase(s) == s.calls[id].pc;
    RefresherKeepsTheVerifier(parse, s, id, answer);
    RefreshStepMovesOn(parse, s.verifier, s.calls[id].pc, answer);
    RefresherKeepsTheCalls(parse, s, id, answer);
  }

  lemma RefreshStepMovesOn(parse: Parser, v: Verifier, phase: Pc, answer: FetchAnswer)
    requires IsRefreshing(phase)
    ensures var next := RefreshStep(parse, v, phase, answer).1; IsRefreshing(next) || next == Reread
  {
  }

  lemma LookupKeepsInv(parse: Parser, s: State, id: CallId, answer: FetchAnswer)
    requires id in s.calls && Inv(parse, s) && !IsRefreshing(s.calls[id].pc)
    ensures Inv(parse, StepCall(parse, s, id, answer))
    ensures StepCall(parse, s, id, answer).verifier == s.verifier
  {
    StepKeepsTheLock(parse, s, id, answer);
    LookupStepIsSound(parse, s.verifier, Phase(s), s.lock.Some?, s.calls[id]);
  }

  lemma StepKeepsInv(parse: Parser, s: State, id: CallId, answer: FetchAnswer)
    requires id in s.calls && Inv(parse, s)
    ensures Inv(parse, StepCall(parse, s, id, answer))
    ensures Extends(s.verifier, StepCall(parse, s, id, answer).verifier)
  {
    if IsRefreshing(s.calls[id].pc) {
      RefresherKeepsInv(parse, s, id, answer);
    } else {
      LookupKeepsInv(parse, s, id, answer);
    }
  }

  lemma ActKeepsInv(parse: Parser, s: State, action: Action)
    requires Inv(parse, s)
    ensures Inv(parse, Act(parse, s, action))
    ensures Extends(s.verifier, Act(parse, s, action).verifier)
  {
    match action {
      case Step(id, answer) =>
        if id in s.calls {
          StepKeepsInv(parse, s, id, answer);
        }
      case Begin(_, _) => BeginKeepsInv(parse, s, action);
      case Tick(_) => TickKeepsInv(parse, s, action);
    }
  }

  lemma TickKeepsInv(parse: Parser, s: State, action: Action)
    requires Inv(parse, s) && action.Tick?
    ensures Inv(parse, Act(parse, s, action)) && Extends(s.verifier, Act(parse, s, action).verifier)
  {
    var t := Act(parse, s, action);
    CallsLast(parse, s, t.verifier);
    assert Phase(t) == Phase(s);
  }

  lemma BeginKeepsInv(parse: Parser, s: State, action: Action)
    requires Inv(parse, s) && action.Begin?
    ensures Inv(parse, Act(parse, s, action)) && Act(parse, s, action).verifier == s.verifier
  {
    assert Phase(Act(parse, s, action)) == Phase(s);
  }

  lemma {:induction false} EveryRunKeepsInv(parse: Parser, clock: real, actions: seq<Action>)
    ensures Inv(parse, Run(parse, clock, actions))
  {
    if actions != [] {
      EveryRunKeepsInv(parse, clock, actions[..|actions| - 1]);
      ActKeepsInv(parse, Run(parse, clock, actions[..|actions| - 1]), actions[|actions| - 1]);
    }
  }

  // ----- one refresh at a time, spaced -----

  /** In every interleaving at most one call is inside the fetch, or anywhere in the refresh. */
  lemma OneRefreshAtATime(parse: Parser, clock: real, actions: seq<Action>, one: CallId, other: CallId)
    requires var calls := Run(parse, clock, actions).calls;
             one in calls && other in calls && IsRefreshing(calls[one].pc) && IsRefreshing(calls[other].pc)
    ensures one == other
  {
    EveryRunKeepsInv(parse, clock, actions);
  }

  function AttemptsWithin(attempts: seq<Attempt>, from: real, to: real): nat {
    if attempts == [] then 0
    else AttemptsWithin(attempts[..|attempts| - 1], from, to) +
         if from <= attempts[|attempts| - 1].stamp <= to then 1 else 0
  }

  lemma {:induction false} SpacedApart(attempts: seq<Attempt>, i: nat, j: nat)
    requires AreSpaced(attempts) && i < j < |attempts|
    ensures attempts[j].stamp - attempts[i].stamp >= KEY_SET_REFRESH_COOLDOWN_SECONDS
    decreases j
  {
    if i + 1 < j {
      SpacedApart(attempts, i, j - 1);
    }
  }

  /** The newest attempt inside the interval stands a full cooldown per earlier one from its start. */
  lemma {:induction false} NewestWithin(attempts: seq<Attempt>, from: real, to: real) returns (newest: nat)
    requires AreSpaced(attempts) && AttemptsWithin(attempts, from, to) >= 1
    ensures newest < |attempts| && from <= attempts[newest].stamp <= to
    ensures attempts[newest].stamp - from >=
            KEY_SET_REFRESH_COOLDOWN_SECONDS * (AttemptsWithin(attempts, from, to) - 1) as real
  {
    var before, last := attempts[..|attempts| - 1], |attempts| - 1;
    if !(from <= attempts[last].stamp <= to) {
      newest := NewestWithin(before, from, to);
    } else {
      newest := last;
      if AttemptsWithin(before, from, to) >= 1 {
        var earlier := NewestWithin(before, from, to);
        SpacedApart(attempts, earlier, last);
      }
    }
  }

  /**
   Whatever the fetches answer, consecutive attempts are stamped at least 30 s apart, and any
   clock interval of length T holds at most T / 30 + 1 of them.
   */
  lemma FetchesAreRateLimited(parse: Parser, clock: real, actions: seq<Action>, from: real, to: real)
    requires from <= to
    ensures var attempts := Run(parse, clock, actions).verifier.attempts;
            forall i :: 0 < i < |attempts| ==> attempts[i].stamp - attempts[i - 1].stamp >= 30.0
    ensures AttemptsWithin(Run(parse, clock, actions).verifier.attempts, from, to) as real
            <= (to - from) / 30.0 + 1.0
  {
    EveryRunKeepsInv(parse, clock, actions);
    var attempts := Run(parse, clock, actions).verifier.attempts;
    if AttemptsWithin(attempts, from, to) >= 1 {
      var newest := NewestWithin(attempts, from, to);
    }
  }

  // ----- what is published, and what is handed out -----

  lemma {:induction false} LatestSuccessIsOneOf(parse: Parser, attempts: seq<Attempt>) returns (i: nat)
    requires LatestSuccess(parse, attempts).Some?
    ensures i < |attempts| && Succeeded(parse, attempts[i])
    ensures LatestSuccess(parse, attempts) == Some(KeySetOf(parse, attempts[i]))
    ensures forall j :: i < j < |attempts| ==> !Succeeded(parse, attempts[j])
  {
    if Succeeded(parse, attempts[|attempts| - 1]) {
      i := |attempts| - 1;
    } else {
      i := LatestSuccessIsOneOf(parse, attempts[..|attempts| - 1]);
    }
  }

  /**
   Outside a refresh that has yet to publish, the shared set is the parse of the latest
   successful fetch, under that fetch's stamp: every later attempt failed or was refused.
   */
  lemma PublishedIsTheLatestSuccess(parse: Parser, clock: real, actions: seq<Action>)
    ensures var s := Run(parse, clock, actions);
            !Phase(s).Fetching? && !Phase(s).Publish? ==>
              s.verifier.keySet == LatestSuccess(parse, s.verifier.attempts)
  {
    EveryRunKeepsInv(parse, clock, actions);
  }

  /** One action replaces the shared set only by publishing a success, under a later stamp. */
  lemma OnlyASuccessReplacesTheKeySet(parse: Parser, s: State, action: Action)
    requires Inv(parse, s)
    ensures var before, after := s.verifier.keySet, Act(parse, s, action).verifier.keySet;
            after != before ==>
              && action.Step? && action.call in s.calls && s.calls[action.call].pc.Publish?
              && after == LatestSuccess(parse, s.verifier.attempts)
              && after.Some?
              && (before.Some? ==> before.value.fetchedAt < after.value.fetchedAt)
  {
    if action.Step? && action.call in s.calls && s.calls[action.call].pc.Publish? && s.verifier.keySet.Some? {
      var attempts := s.verifier.attempts;
      var earlier := LatestSuccessIsOneOf(parse, AllButLast(attempts));
      SpacedApart(attempts, earlier, |attempts| - 1);
    }
  }

  lemma {:induction false} RunOnFromInv(parse: Parser, s: State, actions: seq<Action>)
    requires Inv(parse, s)
    ensures Inv(parse, RunFrom(parse, s, actions))
    ensures var before, after := s.verifier.keySet, RunFrom(parse, s, actions).verifier.keySet;
            before.Some? ==> after.Some? && before.value.fetchedAt <= after.value.fetchedAt
  {
    if actions != [] {
      var butLast := actions[..|actions| - 1];
      RunOnFromInv(parse, s, butLast);
      ActKeepsInv(parse, RunFrom(parse, s, butLast), actions[|actions| - 1]);
      OnlyASuccessReplacesTheKeySet(parse, RunFrom(parse, s, butLast), actions[|actions| - 1]);
    }
  }

  /** However a run goes on, the shared set's stamp never decreases and the set is never lost. */
  lemma StampNeverDecreases(parse: Parser, clock: real, actions: seq<Action>, more: seq<Action>)
    ensures var s := Run(parse, clock, actions);
            var t := RunFrom(parse, s, more);
            s.verifier.keySet.Some? ==>
              t.verifier.keySet.Some? && s.verifier.keySet.value.fetchedAt <= t.verifier.keySet.value.fetchedAt
  {
    EveryRunKeepsInv(parse, clock, actions);
    RunOnFromInv(parse, Run(parse, clock, actions), more);
  }

  /**
   Every key handed out is the one its id names in a set some successful fetch published, and
   that set was less than 3600 s old at a clock reading taken inside the call.
   */
  lemma HandedOutKeysAreFresh(parse: Parser, clock: real, actions: seq<Action>, id: CallId)
    requires var calls := Run(parse, clock, actions).calls;
             id in calls && calls[id].pc.Done? && calls[id].pc.answer.Success?
    ensures var s := Run(parse, clock, actions);
            var call := s.calls[id];
            var evidence := call.pc.evidence;
            && evidence.snapshot.Some?
            && WasPublished(parse, s.verifier.attempts, evidence.snapshot.value)
            && call.startedAt <= evidence.checkedAt <= evidence.answeredAt <= s.verifier.clock
            && evidence.checkedAt - evidence.snapshot.value.fetchedAt < 3600.0
            && var keys, key := evidence.snapshot.value.keys, call.pc.answer.value;
               match call.keyId
               case Some(name) => name in keys.named && key == keys.named[name]
               case None => keys.sole == Some(key)
  {
    EveryRunKeepsInv(parse, clock, actions);
  }

  // ----- sequential runs: what an unknown key id proves -----

  predicate IsIdle(s: State) {
    forall id :: id in s.calls ==> s.calls[id].pc.Done?
  }

  /** No call begins before the one before it has answered. */
  predicate IsSequential(parse: Parser, clock: real, actions: seq<Action>) {
    forall i :: 0 <= i < |actions| && actions[i].Begin? ==> IsIdle(Run(parse, clock, actions[..i]))
  }

  /** What a refused lookup in a current set tells of the attempts there had been. */
  ghost predicate RefusalTellsTheLatestAttempt(parse: Parser, v: Verifier, call: Call) {
    call.pc.Done? && LacksKey(call.pc.evidence.snapshot, call.keyId) &&
    IsCurrent(call.pc.evidence.snapshot, call.pc.evidence.checkedAt) ==>
      var n := call.pc.evidence.attempts;
      && 1 <= n <= |v.attempts|
      && v.attempts[n - 1].answer.Some?
      && (call.pc.answer == Failure(UnknownKeyId) <==> Succeeded(parse, v.attempts[n - 1]))
      && (call.pc.answer == Failure(KeySetUnavailable) <==> !Succeeded(parse, v.attempts[n - 1]))
      && (Succeeded(parse, v.attempts[n - 1]) ==>
            call.pc.evidence.snapshot == Some(KeySetOf(parse, v.attempts[n - 1])))
  }

  ghost predicate SequentialInv(parse: Parser, s: State) {
    && (forall i, j :: i in s.calls && j in s.calls && !s.calls[i].pc.Done? && !s.calls[j].pc.Done? ==> i == j)
    && (forall id :: id in s.calls ==> SequentialCall(parse, s.verifier, s.calls[id]))
  }

  lemma UnknownKeyStep(parse: Parser, s: State, id: CallId, answer: FetchAnswer)
    requires id in s.calls && Inv(parse, s) && SequentialInv(parse, s)
    requires s.calls[id].pc.ReadFailed? || s.calls[id].pc.Recheck?
    ensures RefusalTellsTheLatestAttempt(parse, s.verifier, StepCall(parse, s, id, answer).calls[id])
  {
    assert s.lock.None?;
    assert s.verifier.keySet == LatestSuccess(parse, s.verifier.attempts);
  }

  ghost predicate SequentialCall(parse: Parser, v: Verifier, call: Call) {
    match call.pc
    case CheckSnapshot(snapshot) => snapshot == v.keySet
    case Recheck(snapshot) => snapshot == v.keySet
    case ReadFailed(held, _) => Some(held) == v.keySet
    case _ => RefusalTellsTheLatestAttempt(parse, v, call)
  }

  lemma RefusalStillTells(parse: Parser, v: Verifier, w: Verifier, call: Call)
    requires call.pc.Done? && Extends(v, w) && RefusalTellsTheLatestAttempt(parse, v, call)
    ensures RefusalTellsTheLatestAttempt(parse, w, call)
  {
  }

  lemma SteppedCallIsSequential(parse: Parser, s: State, id: CallId, answer: FetchAnswer)
    requires id in s.calls && Inv(parse, s) && SequentialInv(parse, s)
    ensures var t := StepCall(parse, s, id, answer); SequentialCall(parse, t.verifier, t.calls[id])
  {
    var call := s.calls[id];
    if call.pc.ReadFailed? || call.pc.Recheck? {
      UnknownKeyStep(parse, s, id, answer);
    } else if IsRefreshing(call.pc) {
      RefreshStepMovesOn(parse, s.verifier, call.pc, answer);
    } else {
      ReadIsSequential(parse, s.verifier, s.lock.Some?, call);
    }
  }

  /** A read of the shared set holds what is shared. */
  lemma ReadIsSequential(parse: Parser, v: Verifier, locked: bool, call: Call)
    requires !IsRefreshing(call.pc) && !call.pc.ReadFailed? && !call.pc.Recheck? && SequentialCall(parse, v, call)
    ensures SequentialCall(parse, v, call.(pc := LookupStep(v, locked, call)))
  {
  }

  lemma StepKeepsSequentialInv(parse: Parser, s: State, id: CallId, answer: FetchAnswer)
    requires id in s.calls && Inv(parse, s) && SequentialInv(parse, s)
    ensures SequentialInv(parse, StepCall(parse, s, id, answer))
  {
    var t, call := StepCall(parse, s, id, answer), s.calls[id];
    if call.pc.Done? {
      assert t.calls == s.calls;
    } else {
      StepKeepsInv(parse, s, id, answer);
      SteppedCallIsSequential(parse, s, id, answer);
      forall other | other in t.calls && other != id
        ensures t.calls[other].pc.Done? && SequentialCall(parse, t.verifier, t.calls[other])
      {
        RefusalStillTells(parse, s.verifier, t.verifier, s.calls[other]);
      }
    }
  }

  lemma {:induction false} SequentialRunKeepsInv(parse: Parser, clock: real, actions: seq<Action>)
    requires IsSequential(parse, clock, actions)
    ensures SequentialInv(parse, Run(parse, clock, actions))
  {
    if actions != [] {
      var butLast := actions[..|actions| - 1];
      SequentialPrefix(parse, clock, actions, |actions| - 1);
      SequentialRunKeepsInv(parse, clock, butLast);
      EveryRunKeepsInv(parse, clock, butLast);
      ActKeepsSequentialInv(parse, Run(parse, clock, butLast), actions[|actions| - 1]);
    }
  }

  lemma ActKeepsSequentialInv(parse: Parser, s: State, action: Action)
    requires Inv(parse, s) && SequentialInv(parse, s) && (action.Begin? ==> IsIdle(s))
    ensures SequentialInv(parse, Act(parse, s, action))
  {
    if action.Step? && action.call in s.calls {
      StepKeepsSequentialInv(parse, s, action.call, action.answer);
    }
  }

  /**
   In a sequential run a call answers UNKNOWN_KEY_ID exactly when its set is current, lacks the
   key id, and the latest attempt succeeded; that attempt's set is then the one lacking the key.
   When the latest attempt failed it answers KEY_SET_UNAVAILABLE instead.
   */
  lemma UnknownKeyIdIsForgedInSequence(parse: Parser, clock: real, actions: seq<Action>, id: CallId)
    requires IsSequential(parse, clock, actions)
    requires id in Run(parse, clock, actions).calls && Run(parse, clock, actions).calls[id].pc.Done?
    ensures var s := Run(parse, clock, actions);
            var call := s.calls[id];
            var evidence := call.pc.evidence;
            var lacksInCurrent := IsCurrent(evidence.snapshot, evidence.checkedAt) && LacksKey(evidence.snapshot, call.keyId);
            && evidence.attempts <= |s.verifier.attempts|
            && var attempts := s.verifier.attempts[..evidence.attempts];
               && (call.pc.answer == Failure(UnknownKeyId) <==>
                     lacksInCurrent && attempts != [] && Succeeded(parse, attempts[|attempts| - 1]))
               && (lacksInCurrent && LatestFailed(parse, attempts) ==> call.pc.answer == Failure(KeySetUnavailable))
               && (call.pc.answer == Failure(UnknownKeyId) ==>
                     call.keyId.value !in KeySetOf(parse, attempts[|attempts| - 1]).keys.named)
  {
    EveryRunKeepsInv(parse, clock, actions);
    SequentialRunKeepsInv(parse, clock, actions);
    var s := Run(parse, clock, actions);
    assert RefusalTellsTheLatestAttempt(parse, s.verifier, s.calls[id]);
    assert AnswerIsJustified(parse, s.verifier, s.calls[id]);
  }

  // ----- overlapping calls: exactly when it proves as much -----

  /** The action that brought a call to where it stands. */
  lemma {:induction false} LastStepOfCall(parse: Parser, clock: real, actions: seq<Action>, id: CallId) returns (k: nat)
    requires id in Run(parse, clock, actions).calls && Run(parse, clock, actions).calls[id].pc != ReadSnapshot
    ensures k < |actions| && actions[k].Step? && actions[k].call == id
    ensures var before, now := Run(parse, clock, actions[..k]), Run(parse, clock, actions).calls[id];
            && id in before.calls && !before.calls[id].pc.Done?
            && now == StepCall(parse, before, id, actions[k].answer).calls[id]
  {
    var butLast, last := actions[..|actions| - 1], actions[|actions| - 1];
    var before := Run(parse, clock, butLast);
    if last.Step? && last.call == id && id in before.calls && !before.calls[id].pc.Done? {
      k := |actions| - 1;
    } else {
      k := LastStepOfCall(parse, clock, butLast, id);
      assert butLast[..k] == actions[..k];
    }
  }

  /** The action replaces the shared set. */
  predicate Publishes(s: State, action: Action) {
    action.Step? && action.call in s.calls && s.calls[action.call].pc.Publish?
  }

  predicate PublishesBetween(parse: Parser, clock: real, actions: seq<Action>, from: nat, until: nat)
    requires until <= |actions|
  {
    exists i :: from <= i < until && Publishes(Run(parse, clock, actions[..i]), actions[i])
  }

  /** A set that replaced an older one, or none. */
  predicate IsOlder(before: Option<KeySet>, after: Option<KeySet>) {
    after.Some? && (before.Some? ==> before.value.fetchedAt < after.value.fetchedAt)
  }

  /** The shared set is the same, or newer, as it was published in between or not. */
  predicate IsKeptOrNewer(before: Option<KeySet>, after: Option<KeySet>, published: bool) {
    if published then IsOlder(before, after) else after == before
  }

  lemma KeptOrNewerStill(before: Option<KeySet>, between: Option<KeySet>, after: Option<KeySet>, first: bool, second: bool)
    requires IsKeptOrNewer(before, between, first) && IsKeptOrNewer(between, after, second)
    ensures IsKeptOrNewer(before, after, first || second)
  {
  }

  lemma PublishingRaisesTheStamp(parse: Parser, s: State, action: Action)
    requires Inv(parse, s)
    ensures IsKeptOrNewer(s.verifier.keySet, Act(parse, s, action).verifier.keySet, Publishes(s, action))
  {
    if Publishes(s, action) && s.verifier.keySet.Some? {
      var attempts := s.verifier.attempts;
      var earlier := LatestSuccessIsOneOf(parse, AllButLast(attempts));
      SpacedApart(attempts, earlier, |attempts| - 1);
    }
  }

  function KeySetAt(parse: Parser, clock: real, actions: seq<Action>, k: nat): Option<KeySet>
    requires k <= |actions|
  {
    Run(parse, clock, actions[..k]).verifier.keySet
  }

  lemma {:induction false} KeySetBetween(parse: Parser, clock: real, actions: seq<Action>, from: nat, until: nat)
    requires from <= until <= |actions|
    ensures IsKeptOrNewer(KeySetAt(parse, clock, actions, from), KeySetAt(parse, clock, actions, until),
                          PublishesBetween(parse, clock, actions, from, until))
    decreases until
  {
    if from < until {
      KeySetBetween(parse, clock, actions, from, until - 1);
      KeySetAfterOneMore(parse, clock, actions, until - 1);
      KeptOrNewerStill(KeySetAt(parse, clock, actions, from), KeySetAt(parse, clock, actions, until - 1),
                       KeySetAt(parse, clock, actions, until), PublishesBetween(parse, clock, actions, from, until - 1),
                       Publishes(Run(parse, clock, actions[..until - 1]), actions[until - 1]));
      OneMoreBetween(parse, clock, actions, from, until);
    }
  }

  lemma KeySetAfterOneMore(parse: Parser, clock: real, actions: seq<Action>, k: nat)
    requires k < |actions|
    ensures IsKeptOrNewer(KeySetAt(parse, clock, actions, k), KeySetAt(parse, clock, actions, k + 1),
                          Publishes(Run(parse, clock, actions[..k]), actions[k]))
  {
    EveryRunKeepsInv(parse, clock, actions[..k]);
    PublishingRaisesTheStamp(parse, Run(parse, clock, actions[..k]), actions[k]);
    RunOfOneMore(parse, clock, actions, k);
  }

  lemma RunOfOneMore(parse: Parser, clock: real, actions: seq<Action>, k: nat)
    requires k < |actions|
    ensures Run(parse, clock, actions[..k + 1]) == Act(parse, Run(parse, clock, actions[..k]), actions[k])
  {
    assert actions[..k + 1][..k] == actions[..k];
  }

  lemma OneMoreBetween(parse: Parser, clock: real, actions: seq<Action>, from: nat, until: nat)
    requires from < until <= |actions|
    ensures PublishesBetween(parse, clock, actions, from, until) <==>
            || PublishesBetween(parse, clock, actions, from, until - 1)
            || Publishes(Run(parse, clock, actions[..until - 1]), actions[until - 1])
  {
  }

  /** A refusal of an unknown key id: in a current set that lacks it. */
  predicate IsRefusedLookup(call: Call) {
    && call.pc.Done?
    && IsCurrent(call.pc.evidence.snapshot, call.pc.evidence.checkedAt)
    && LacksKey(call.pc.evidence.snapshot, call.keyId)
  }

  /** Where a call about to read the failure flag read the set it holds. */
  lemma ReadOfTheHeldSet(parse: Parser, clock: real, actions: seq<Action>, id: CallId) returns (read: nat)
    requires id in Run(parse, clock, actions).calls && Run(parse, clock, actions).calls[id].pc.ReadFailed?
    ensures read < |actions| && actions[read].Step? && actions[read].call == id
    ensures var before := Run(parse, clock, actions[..read]);
            && id in before.calls && before.calls[id].pc.Reread?
            && before.verifier.keySet == Some(Run(parse, clock, actions).calls[id].pc.held)
  {
    var recheck := LastStepOfCall(parse, clock, actions, id);
    var toRead := actions[..recheck];
    read := LastStepOfCall(parse, clock, toRead, id);
    assert toRead[..read] == actions[..read];
  }

  /** Where such a call read the set it rests on, and where it read the failure flag. */
  lemma ReadsOfARefusedLookup(parse: Parser, clock: real, actions: seq<Action>, id: CallId)
    returns (read: nat, told: nat)
    requires id in Run(parse, clock, actions).calls && IsRefusedLookup(Run(parse, clock, actions).calls[id])
    ensures read < told < |actions|
    ensures actions[read].Step? && actions[read].call == id && actions[told].Step? && actions[told].call == id
    ensures var call := Run(parse, clock, actions).calls[id];
            var at := Run(parse, clock, actions[..told]);
            && call.pc.evidence.snapshot == Run(parse, clock, actions[..read]).verifier.keySet
            && id in Run(parse, clock, actions[..read]).calls && Run(parse, clock, actions[..read]).calls[id].pc.Reread?
            && id in at.calls && at.calls[id].pc.ReadFailed?
            && call.pc.answer == Failure(WhyUnknown(at.verifier.lastRefreshFailed))
            && call.pc.evidence.attempts == |at.verifier.attempts|
  {
    told := LastStepOfCall(parse, clock, actions, id);
    read := ReadOfTheHeldSet(parse, clock, actions[..told], id);
    assert actions[..told][..read] == actions[..read];
  }

  /** No attempt's outcome is outstanding: none is being fetched, and each is published or counted as failed. */
  predicate NoneIsOutstanding(s: State) {
    !Phase(s).Fetching? && !Phase(s).Publish? && !Phase(s).MarkFailed?
  }

  /** The refusal rests on the latest attempt: it succeeded, and its set is the one held. */
  predicate RestsOnTheLatest(parse: Parser, held: Option<KeySet>, attempts: seq<Attempt>) {
    && attempts != [] && Succeeded(parse, attempts[|attempts| - 1])
    && held == Some(KeySetOf(parse, attempts[|attempts| - 1]))
  }

  /** What the flag tells: whether the latest attempt whose outcome was recorded failed. */
  lemma FlagTellsTheRecorded(parse: Parser, s: State)
    requires Inv(parse, s) && s.verifier.keySet.Some? && !s.verifier.lastRefreshFailed
    ensures NoneIsOutstanding(s) ==> RestsOnTheLatest(parse, s.verifier.keySet, s.verifier.attempts)
    ensures !NoneIsOutstanding(s) ==>
              var attempts := s.verifier.attempts;
              attempts != [] && (Succeeded(parse, attempts[|attempts| - 1]) ==> IsOlder(s.verifier.keySet, Some(KeySetOf(parse, attempts[|attempts| - 1]))))
  {
    var attempts := s.verifier.attempts;
    if Phase(s).Publish? {
      var earlier := LatestSuccessIsOneOf(parse, AllButLast(attempts));
      SpacedApart(attempts, earlier, |attempts| - 1);
    }
  }

  /**
   In every interleaving a call that finds the key id lacking in a current set answers UNKNOWN_KEY_ID
   exactly when the latest attempt recorded by then had succeeded. That answer rests on the latest
   attempt of all, whose set is then the one lacking the key id, exactly when no call published
   between the read of the set and the read of the flag and no attempt's outcome was outstanding.
   */
  lemma UnknownKeyIdExactly(parse: Parser, clock: real, actions: seq<Action>, id: CallId)
    returns (read: nat, told: nat)
    requires id in Run(parse, clock, actions).calls && IsRefusedLookup(Run(parse, clock, actions).calls[id])
    ensures read < told < |actions|
    ensures actions[read].Step? && actions[read].call == id && actions[told].Step? && actions[told].call == id
    ensures var call := Run(parse, clock, actions).calls[id];
            var at := Run(parse, clock, actions[..told]);
            && call.pc.evidence.snapshot == Run(parse, clock, actions[..read]).verifier.keySet
            && call.pc.answer.Failure?
            && (call.pc.answer.error == UnknownKeyId <==> !LatestFailed(parse, Settled(at.verifier, Phase(at))))
            && (call.pc.answer.error != UnknownKeyId ==> call.pc.answer.error == KeySetUnavailable)
            && (call.pc.answer.error == UnknownKeyId ==>
                  (RestsOnTheLatest(parse, call.pc.evidence.snapshot, at.verifier.attempts) <==>
                   NoneIsOutstanding(at) && !PublishesBetween(parse, clock, actions, read, told)))
  {
    read, told := ReadsOfARefusedLookup(parse, clock, actions, id);
    var at := Run(parse, clock, actions[..told]);
    EveryRunKeepsInv(parse, clock, actions[..told]);
    KeySetBetween(parse, clock, actions, read, told);
    if !at.verifier.lastRefreshFailed {
      FlagTellsTheRecorded(parse, at);
      RestsExactly(parse, at, Run(parse, clock, actions).calls[id].pc.evidence.snapshot,
                   PublishesBetween(parse, clock, actions, read, told));
    }
  }

  lemma RestsExactly(parse: Parser, at: State, held: Option<KeySet>, published: bool)
    requires Inv(parse, at) && held.Some? && at.verifier.keySet.Some? && !at.verifier.lastRefreshFailed
    requires IsKeptOrNewer(held, at.verifier.keySet, published)
    ensures RestsOnTheLatest(parse, held, at.verifier.attempts) <==> NoneIsOutstanding(at) && !published
  {
    FlagTellsTheRecorded(parse, at);
  }

  // ----- sequential calls answer as one object -----

  lemma SequentialPrefix(parse: Parser, clock: real, actions: seq<Action>, k: nat)
    requires IsSequential(parse, clock, actions) && k <= |actions|
    ensures IsSequential(parse, clock, actions[..k])
  {
    forall i | 0 <= i < k && actions[..k][i].Begin? ensures IsIdle(Run(parse, clock, actions[..k][..i])) {
      assert actions[..k][..i] == actions[..i];
    }
  }

  /**
   In a sequential run every call, whatever its outcome, answers from the attempts made by then and
   its last clock reading alone, as the object does whose calls are methods.
   */
  lemma SequentialCallsAnswerFromTheAttempts(parse: Parser, clock: real, actions: seq<Action>, id: CallId)
    returns (told: nat)
    requires IsSequential(parse, clock, actions)
    requires id in Run(parse, clock, actions).calls && Run(parse, clock, actions).calls[id].pc.Done?
    ensures told < |actions| && actions[told].Step? && actions[told].call == id
    ensures var call, attempts := Run(parse, clock, actions).calls[id], Run(parse, clock, actions[..told]).verifier.attempts;
            && call.pc.evidence.attempts == |attempts|
            && call.pc.answer == AnswerIn(LatestSuccess(parse, attempts), LatestFailed(parse, attempts), call.keyId,
                                          call.pc.evidence.checkedAt)
  {
    told := LastStepOfCall(parse, clock, actions, id);
    var at := Run(parse, clock, actions[..told]);
    SequentialPrefix(parse, clock, actions, told);
    EveryRunKeepsInv(parse, clock, actions[..told]);
    SequentialRunKeepsInv(parse, clock, actions[..told]);
    LastReadAnswers(parse, at, id, actions[told].answer);
  }

  lemma LastReadAnswers(parse: Parser, s: State, id: CallId, answer: FetchAnswer)
    requires id in s.calls && Inv(parse, s) && SequentialInv(parse, s) && !s.calls[id].pc.Done?
    requires StepCall(parse, s, id, answer).calls[id].pc.Done?
    ensures var call := StepCall(parse, s, id, answer).calls[id];
            && call.pc.evidence.attempts == |s.verifier.attempts|
            && call.pc.answer == AnswerIn(LatestSuccess(parse, s.verifier.attempts), LatestFailed(parse, s.verifier.attempts),
                                          call.keyId, call.pc.evidence.checkedAt)
  {
    if IsRefreshing(s.calls[id].pc) {
      RefreshStepMovesOn(parse, s.verifier, s.calls[id].pc, answer);
    } else {
      assert s.lock.None?;
    }
  }

  // ----- a run in which it proves less -----

  ghost predicate IsReached(parse: Parser, s: State) {
    exists actions :: Run(parse, 0.0, actions) == s
  }

  lemma OneMore(parse: Parser, s: State, action: Action) returns (t: State)
    requires IsReached(parse, s)
    ensures t == Act(parse, s, action) && IsReached(parse, t)
  {
    t := Act(parse, s, action);
    var actions :| Run(parse, 0.0, actions) == s;
    assert (actions + [action])[..|actions|] == actions;
    assert Run(parse, 0.0, actions + [action]) == t;
  }

  function OneCall(v: Verifier, lock: Option<CallId>, keyId: string, pc: Pc): State {
    State(v, lock, map[0 := Call(Some(keyId), 0.0, pc)])
  }

  /** The first call of all, up to its fetch. */
  lemma CallAtItsFetch(parse: Parser, keyId: string) returns (s: State)
    ensures IsReached(parse, s)
    ensures s == OneCall(Verifier(None, Some(0.0), false, 0.0, [Attempt(0.0, None)]), Some(0), keyId, Fetching(0.0))
  {
    s := Initial(0.0);
    var v, step := s.verifier, Step(0, NoDocument);
    assert Run(parse, 0.0, []) == s;
    s := OneMore(parse, s, Begin(0, Some(keyId)));
    assert s == OneCall(v, None, keyId, ReadSnapshot);
    s := OneMore(parse, s, step);
    assert s == OneCall(v, None, keyId, CheckSnapshot(None));
    s := OneMore(parse, s, step);
    assert s == OneCall(v, None, keyId, Acquire);
    s := OneMore(parse, s, step);
    assert s == OneCall(v, Some(0), keyId, ReadClock);
    s := OneMore(parse, s, step);
    assert s == OneCall(v, Some(0), keyId, ReadLast(0.0));
    s := OneMore(parse, s, step);
    assert s == OneCall(v, Some(0), keyId, StampAttempt(0.0));
    s := OneMore(parse, s, step);
    assert v.attempts + [Attempt(0.0, None)] == [Attempt(0.0, None)];
  }

  /** ... and on to the read of the failure flag, holding a set that lacks the key. */
  lemma CallAtItsLastRead(parse: Parser, keyId: string, answer: FetchAnswer) returns (s: State)
    requires parse(answer).Success? && keyId !in parse(answer).value.named
    ensures IsReached(parse, s)
    ensures var held := KeySet(parse(answer).value, 0.0);
            s == OneCall(Verifier(Some(held), Some(0.0), false, 0.0, [Attempt(0.0, Some(answer))]), None, keyId,
                         ReadFailed(held, 0.0))
  {
    s := CallReleasing(parse, keyId, answer);
    var published, held, step := s.verifier, KeySet(parse(answer).value, 0.0), Step(0, answer);
    s := OneMore(parse, s, step);
    assert s == OneCall(published, None, keyId, Reread);
    s := OneMore(parse, s, step);
    assert s == OneCall(published, None, keyId, Recheck(Some(held)));
    s := OneMore(parse, s, step);
  }

  lemma CallReleasing(parse: Parser, keyId: string, answer: FetchAnswer) returns (s: State)
    requires parse(answer).Success?
    ensures IsReached(parse, s)
    ensures var held := KeySet(parse(answer).value, 0.0);
            s == OneCall(Verifier(Some(held), Some(0.0), false, 0.0, [Attempt(0.0, Some(answer))]), Some(0), keyId, Release)
  {
    var keys := parse(answer).value;
    s := CallAtItsFetch(parse, keyId);
    var fetched := Verifier(None, Some(0.0), false, 0.0, [Attempt(0.0, Some(answer))]);
    s := OneMore(parse, s, Step(0, answer));
    assert s == OneCall(fetched, Some(0), keyId, Publish(0.0, keys));
    s := OneMore(parse, s, Step(0, answer));
    assert s == OneCall(fetched.(keySet := Some(KeySet(keys, 0.0))), Some(0), keyId, ClearFailed);
    s := OneMore(parse, s, Step(0, answer));
  }

  function TwoCalls(v: Verifier, lock: Option<CallId>, keyId: string, first: Pc, second: Pc): State {
    State(v, lock, map[0 := Call(Some(keyId), 0.0, first), 1 := Call(Some(keyId), 30.0, second)])
  }

  /** ... while a second call begins 30 s later, comes to refresh ... */
  lemma SecondCallRefreshes(parse: Parser, keyId: string, answer: FetchAnswer) returns (s: State)
    requires parse(answer).Success? && keyId !in parse(answer).value.named
    ensures IsReached(parse, s)
    ensures var held := KeySet(parse(answer).value, 0.0);
            s == TwoCalls(Verifier(Some(held), Some(0.0), false, 30.0, [Attempt(0.0, Some(answer))]),
                          Some(1), keyId, ReadFailed(held, 0.0), ReadClock)
  {
    s := SecondCallBegins(parse, keyId, answer);
    var v, first, step := s.verifier, s.calls[0].pc, Step(1, answer);
    s := OneMore(parse, s, step);
    assert s == TwoCalls(v, None, keyId, first, CheckSnapshot(v.keySet));
    s := OneMore(parse, s, step);
    assert s == TwoCalls(v, None, keyId, first, Acquire);
    s := OneMore(parse, s, step);
  }

  lemma SecondCallBegins(parse: Parser, keyId: string, answer: FetchAnswer) returns (s: State)
    requires parse(answer).Success? && keyId !in parse(answer).value.named
    ensures IsReached(parse, s)
    ensures var held := KeySet(parse(answer).value, 0.0);
            s == TwoCalls(Verifier(Some(held), Some(0.0), false, 30.0, [Attempt(0.0, Some(answer))]),
                          None, keyId, ReadFailed(held, 0.0), ReadSnapshot)
  {
    s := CallAtItsLastRead(parse, keyId, answer);
    s := OneMore(parse, s, Tick(30.0));
    s := OneMore(parse, s, Begin(1, Some(keyId)));
  }

  /** ... and has fetched again. */
  lemma SecondCallFetched(parse: Parser, keyId: string, answer: FetchAnswer, rotated: FetchAnswer)
    returns (s: State)
    requires parse(answer).Success? && keyId !in parse(answer).value.named && parse(rotated).Success?
    ensures IsReached(parse, s)
    ensures var held := KeySet(parse(answer).value, 0.0);
            s == TwoCalls(Verifier(Some(held), Some(30.0), false, 30.0,
                                   [Attempt(0.0, Some(answer)), Attempt(30.0, Some(rotated))]),
                          Some(1), keyId, ReadFailed(held, 0.0), Publish(30.0, parse(rotated).value))
  {
    s := SecondCallRefreshes(parse, keyId, answer);
    var v, first, step := s.verifier, s.calls[0].pc, Step(1, rotated);
    s := OneMore(parse, s, step);
    assert s == TwoCalls(v, Some(1), keyId, first, ReadLast(30.0));
    s := OneMore(parse, s, step);
    assert s == TwoCalls(v, Some(1), keyId, first, CheckCooldown(30.0));
    s := OneMore(parse, s, step);
    assert s == TwoCalls(v, Some(1), keyId, first, StampAttempt(30.0));
    s := OneMore(parse, s, step);
    var stamped := v.(lastRefreshAt := Some(30.0), attempts := [Attempt(0.0, Some(answer)), Attempt(30.0, None)]);
    assert v.attempts + [Attempt(30.0, None)] == stamped.attempts;
    assert s == TwoCalls(stamped, Some(1), keyId, first, Fetching(30.0));
    s := OneMore(parse, s, step);
    assert stamped.attempts[..1] == [Attempt(0.0, Some(answer))];
  }

  /**
   Between overlapping calls the answer no longer rests on the latest attempt: a call can answer
   UNKNOWN_KEY_ID when the latest fetch has succeeded and its set holds the very key id.
   */
  lemma OverlappingCallsMissTheLatestSet(parse: Parser, keyId: string, answer: FetchAnswer, rotated: FetchAnswer)
    returns (s: State)
    requires parse(answer).Success? && keyId !in parse(answer).value.named
    requires parse(rotated).Success? && keyId in parse(rotated).value.named
    ensures IsReached(parse, s)
    ensures 0 in s.calls && s.calls[0].keyId == Some(keyId)
    ensures && s.calls[0].pc.Done? && s.calls[0].pc.answer == Failure(UnknownKeyId)
            && s.calls[0].pc.evidence.attempts == |s.verifier.attempts| > 0
            && var latest := s.verifier.attempts[|s.verifier.attempts| - 1];
               Succeeded(parse, latest) && keyId in KeySetOf(parse, latest).keys.named
  {
    s := SecondCallFetched(parse, keyId, answer, rotated);
    s := OneMore(parse, s, Step(0, NoDocument));
  }

  // ----- the parser the verifier is built with -----

  function ParserOf(crypto: Crypto): Parser {
    answer => ParsedAnswer(crypto, answer)
  }

  /** In every interleaving the shared set is what one fetched, acceptable document holds. */
  lemma SharedSetIsAcceptable(crypto: Crypto, clock: real, actions: seq<Action>)
    ensures var v := Run(ParserOf(crypto), clock, actions).verifier;
            v.keySet.Some? ==>
              exists i ::
                && 0 <= i < |v.attempts|
                && v.attempts[i].stamp == v.keySet.value.fetchedAt
                && v.attempts[i].answer.Some? && v.attempts[i].answer.value.Fetched?
                && (var document := v.attempts[i].answer.value.document;
                    && Parse(crypto, document) == Success(v.keySet.value.keys)
                    && IsAcceptable(crypto, Get(document.content.value, "keys", JOther).items))
  {
    var parse := ParserOf(crypto);
    EveryRunKeepsInv(parse, clock, actions);
    var s := Run(parse, clock, actions);
    if s.verifier.keySet.Some? {
      var i := LatestSuccessIsOneOf(parse, Shown(s.verifier, Phase(s)));
      assert s.verifier.attempts[i] == Shown(s.verifier, Phase(s))[i];
      ParsedExactly(crypto, s.verifier.attempts[i].answer.value.document);
    }
  }
}
