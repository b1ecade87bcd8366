/**
 Admissions and grants over one session store, under any interleaving with each other and with
 sign-ins, logouts, back-channel logouts and pruning. Clock readings are arbitrary: nothing here
 rests on a clock that keeps time.
 */
module SessionProtocol {
  import opened Wrappers
  import opened SessionLifetime
  import opened SessionStore
  import G = RefreshGrant
  import R = RelyingParty

  type CallId = nat

  /** One `admit_session`: load, decide by one clock reading, touch. */
  datatype AdmissionPc =
    | Load
    | Judge(record: Option<Row>)
    | Touch(judged: Row, expiresAt: int)
    | Done(admitted: Option<UserId>)

  datatype Admission = Admission(session: SessionId, pc: AdmissionPc)

  datatype State = State(
    rows: Rows,
    minted: nat,
    admissions: map<CallId, Admission>,
    grants: map<CallId, G.Grant>)

  const INITIAL := State(map[], 0, map[], map[])

  datatype Action =
    | SignIn(user: UserId, now: int, refreshToken: Option<Token>, idToken: Option<string>)
    | Delete(session: SessionId)
    | DeleteForUser(user: UserId)
    | Prune(ended: set<SessionId>)          // whichever sessions `prune_overflow` ends
    | BeginAdmission(call: CallId, session: SessionId)
    | StepAdmission(call: CallId, now: int)
    | BeginGrant(call: CallId, session: SessionId, purpose: G.Purpose)
    | StepGrant(call: CallId, input: G.Input)

  datatype World = World(config: R.ClientConfig, lifetime: Lifetime)

  function AdmissionStep(lifetime: Lifetime, rows: Rows, admission: Admission, now: int): (Rows, AdmissionPc) {
    var id := admission.session;
    match admission.pc
    case Load => (rows, Judge(Loaded(rows, id)))
    case Judge(record) =>
      (rows,
       if record.None? || !Admits(lifetime, record.value, now) then Done(None)
       else Touch(record.value, RenewedExpiry(lifetime, now, record.value.createdAt)))
    case Touch(record, expiresAt) =>
      (Touched(rows, id, expiresAt), Done(if id in rows then Some(record.user) else None))
    case Done(_) => (rows, admission.pc)
  }

  /** An action that cannot happen changes nothing, so every sequence of actions is a run. */
  function Act(w: World, s: State, action: Action): State {
    match action
    case SignIn(user, now, refreshToken, idToken) =>
      var row := Row(user, now, RenewedExpiry(w.lifetime, now, now), refreshToken, idToken);
      s.(rows := s.rows[s.minted := row], minted := s.minted + 1)
    case Delete(id) => s.(rows := Without(s.rows, {id}))
    case DeleteForUser(user) => s.(rows := Without(s.rows, OfUser(s.rows, user)))
    case Prune(ended) => s.(rows := Without(s.rows, ended))
    case BeginAdmission(call, id) =>
      if call in s.admissions then s else s.(admissions := s.admissions[call := Admission(id, Load)])
    case StepAdmission(call, now) =>
      if call !in s.admissions then s
      else
        var (rows, pc) := AdmissionStep(w.lifetime, s.rows, s.admissions[call], now);
        s.(rows := rows, admissions := s.admissions[call := s.admissions[call].(pc := pc)])
    case BeginGrant(call, id, purpose) =>
      if call in s.grants then s else s.(grants := s.grants[call := G.Grant(id, purpose, G.Load)])
    case StepGrant(call, input) =>
      if call !in s.grants then s
      else
        var (rows, pc) := G.Step(w.config, w.lifetime, s.rows, s.grants[call], input);
        s.(rows := rows, grants := s.grants[call := s.grants[call].(pc := pc)])
  }

  function RunFrom(w: World, s: State, actions: seq<Action>): State {
    if actions == [] then s
    else Act(w, RunFrom(w, s, actions[..|actions| - 1]), actions[|actions| - 1])
  }

  function Run(w: World, actions: seq<Action>): State {
    RunFrom(w, INITIAL, actions)
  }

  // ----- the invariant -----

  /** A loaded record still describes the login of its row, if the row is there. */
  ghost predicate IsOfSession(s: State, id: SessionId, record: Row) {
    id < s.minted && (id in s.rows ==> SameLogin(s.rows[id], record))
  }

  ghost predicate AdmissionIsSound(w: World, s: State, admission: Admission) {
    match admission.pc
    case Judge(Some(record)) => IsOfSession(s, admission.session, record)
    case Touch(record, expiresAt) =>
      IsOfSession(s, admission.session, record) && expiresAt <= record.createdAt + w.lifetime.cap
    case _ => true
  }

  ghost predicate Inv(w: World, s: State) {
    && (forall id :: id in s.rows ==> id < s.minted)
    && (forall id :: id in s.rows ==> s.rows[id].expiresAt <= s.rows[id].createdAt + w.lifetime.cap)
    && (forall call :: call in s.admissions ==> AdmissionIsSound(w, s, s.admissions[call]))
  }

  lemma AdmissionKeepsInv(w: World, s: State, action: Action)
    requires Inv(w, s) && action.StepAdmission? && action.call in s.admissions
    ensures Inv(w, Act(w, s, action))
  {
    var admission := s.admissions[action.call];
    if admission.pc.Judge? && admission.pc.record.Some? {
      RenewalStaysWithinTheCap(w.lifetime, action.now, admission.pc.record.value.createdAt);
    }
  }

  lemma ActKeepsInv(w: World, s: State, action: Action)
    requires Inv(w, s)
    ensures Inv(w, Act(w, s, action))
  {
    if action.StepAdmission? && action.call in s.admissions {
      AdmissionKeepsInv(w, s, action);
    }
  }

  lemma {:induction false} RunKeepsInv(w: World, s: State, actions: seq<Action>)
    requires Inv(w, s)
    ensures Inv(w, RunFrom(w, s, actions))
  {
    if actions != [] {
      RunKeepsInv(w, s, actions[..|actions| - 1]);
      ActKeepsInv(w, RunFrom(w, s, actions[..|actions| - 1]), actions[|actions| - 1]);
    }
  }

  lemma EveryRunKeepsInv(w: World, actions: seq<Action>)
    ensures Inv(w, Run(w, actions))
  {
    RunKeepsInv(w, INITIAL, actions);
  }

  // ----- sessions -----

  /** In every interleaving no stored session reaches past its cap. */
  lemma NoSessionOutlivesItsCap(w: World, actions: seq<Action>, id: SessionId)
    requires id in Run(w, actions).rows
    ensures var row := Run(w, actions).rows[id]; row.expiresAt <= row.createdAt + w.lifetime.cap
  {
    EveryRunKeepsInv(w, actions);
  }

  lemma {:induction false} EndedStaysEndedFrom(w: World, s: State, actions: seq<Action>, id: SessionId)
    requires id < s.minted && id !in s.rows
    ensures id < RunFrom(w, s, actions).minted && id !in RunFrom(w, s, actions).rows
  {
    if actions != [] {
      EndedStaysEndedFrom(w, s, actions[..|actions| - 1], id);
    }
  }

  /**
   A session that stood at some point of a run and is gone later never comes back, whatever
   admissions and grants that loaded it earlier still do.
   */
  lemma DeletedSessionNeverReappears(w: World, actions: seq<Action>, more: seq<Action>, evenMore: seq<Action>, id: SessionId)
    requires id in Run(w, actions).rows
    requires id !in RunFrom(w, Run(w, actions), more).rows
    ensures id !in RunFrom(w, RunFrom(w, Run(w, actions), more), evenMore).rows
  {
    EveryRunKeepsInv(w, actions);
    MintingNeverGoesBack(w, Run(w, actions), more);
    EndedStaysEndedFrom(w, RunFrom(w, Run(w, actions), more), evenMore, id);
  }

  lemma {:induction false} MintingNeverGoesBack(w: World, s: State, actions: seq<Action>)
    ensures s.minted <= RunFrom(w, s, actions).minted
  {
    if actions != [] {
      MintingNeverGoesBack(w, s, actions[..|actions| - 1]);
    }
  }

  // ----- what an admitted request rests on -----

  /** The action that brought an admission to where it stands. */
  lemma {:induction false} LastStepOfAdmission(w: World, actions: seq<Action>, call: CallId) returns (k: nat)
    requires call in Run(w, actions).admissions && Run(w, actions).admissions[call].pc != Load
    ensures k < |actions| && actions[k].StepAdmission? && actions[k].call == call
    ensures var before, now := Run(w, actions[..k]), Run(w, actions).admissions[call];
            && call in before.admissions
            && before.admissions[call].session == now.session
            && !before.admissions[call].pc.Done?
            && now.pc == AdmissionStep(w.lifetime, before.rows, before.admissions[call], actions[k].now).1
  {
    var butLast, last := actions[..|actions| - 1], actions[|actions| - 1];
    var before := Run(w, butLast);
    if last.StepAdmission? && last.call == call && call in before.admissions && !before.admissions[call].pc.Done? {
      k := |actions| - 1;
    } else {
      k := LastStepOfAdmission(w, butLast, call);
      assert butLast[..k] == actions[..k];
    }
  }

  /**
   Whoever is admitted was admitted by a row that stood at the call's touch, that belongs to them,
   and that had been inside its lifetime at the call's one clock reading when it was loaded.
   */
  lemma AdmittedMeansTheRowStood(w: World, actions: seq<Action>, call: CallId)
    returns (load: nat, judge: nat, touch: nat)
    requires call in Run(w, actions).admissions
    requires Run(w, actions).admissions[call].pc.Done? && Run(w, actions).admissions[call].pc.admitted.Some?
    ensures load < judge < touch < |actions|
    ensures var id := Run(w, actions).admissions[call].session;
            && id in Run(w, actions[..load]).rows && id in Run(w, actions[..touch]).rows
            && actions[judge].StepAdmission? && actions[judge].call == call
            && Admits(w.lifetime, Run(w, actions[..load]).rows[id], actions[judge].now)
            && Run(w, actions[..touch]).rows[id].user == Run(w, actions).admissions[call].pc.admitted.value
            && id in Run(w, actions[..touch + 1]).rows
            && Run(w, actions[..touch + 1]).rows[id].expiresAt ==
               RenewedExpiry(w.lifetime, actions[judge].now, Run(w, actions[..touch]).rows[id].createdAt)
  {
    touch := LastStepOfAdmission(w, actions, call);
    assert actions[..touch + 1][..touch] == actions[..touch];
    EveryRunKeepsInv(w, actions[..touch]);
    judge := LastStepOfAdmission(w, actions[..touch], call);
    assert actions[..touch][..judge] == actions[..judge];
    load := LastStepOfAdmission(w, actions[..judge], call);
    assert actions[..judge][..load] == actions[..load];
  }

  /**
   With nothing in between, the three steps of an admission answer and renew as one: the row's account
   exactly when it stands, at most 60 s ahead of the clock, inside its idle window and cap.
   */
  lemma UndisturbedAdmission(w: World, rows: Rows, id: SessionId, now: int)
    ensures var judge := AdmissionStep(w.lifetime, rows, Admission(id, Load), now).1;
            var touch := AdmissionStep(w.lifetime, rows, Admission(id, judge), now).1;
            var (after, pc) := AdmissionStep(w.lifetime, rows, Admission(id, touch), now);
            var stands := id in rows && var row := rows[id];
                          && row.createdAt <= now + 60 && now <= row.expiresAt <= now + w.lifetime.idle + 60
                          && row.expiresAt <= row.createdAt + w.lifetime.cap;
            && pc == Done(if stands then Some(rows[id].user) else None)
            && after == if stands
                        then rows[id := rows[id].(expiresAt := Min(now + w.lifetime.idle, rows[id].createdAt + w.lifetime.cap))]
                        else rows
  {
  }

  // ----- what a grant hands out and writes -----

  /** The action that brought a grant to where it stands. */
  lemma {:induction false} LastStepOfGrant(w: World, actions: seq<Action>, call: CallId) returns (k: nat)
    requires call in Run(w, actions).grants && Run(w, actions).grants[call].pc != G.Load
    ensures k < |actions| && actions[k].StepGrant? && actions[k].call == call
    ensures var before, now := Run(w, actions[..k]), Run(w, actions).grants[call];
            && call in before.grants
            && before.grants[call].session == now.session
            && before.grants[call].purpose == now.purpose
            && !before.grants[call].pc.Done?
            && now.pc == G.Step(w.config, w.lifetime, before.rows, before.grants[call], actions[k].input).1
  {
    var butLast, last := actions[..|actions| - 1], actions[|actions| - 1];
    var before := Run(w, butLast);
    if last.StepGrant? && last.call == call && call in before.grants && !before.grants[call].pc.Done? {
      k := |actions| - 1;
    } else {
      k := LastStepOfGrant(w, butLast, call);
      assert butLast[..k] == actions[..k];
    }
  }

  /** The call sends its grant request at this point of the run. */
  ghost predicate AsksTheIssuer(w: World, actions: seq<Action>, call: CallId, ask: nat)
    requires ask < |actions|
  {
    var before := Run(w, actions[..ask]);
    && call in before.grants && before.grants[call].pc.Ask?
    && actions[ask].StepGrant? && actions[ask].call == call
  }

  /** The row stood at a load and was inside its lifetime at the call's clock reading that followed. */
  ghost predicate StoodAtLoad(
      w: World, actions: seq<Action>, id: SessionId, call: CallId, load: nat, judge: nat)
    requires load < judge < |actions|
  {
    && id in Run(w, actions[..load]).rows
    && actions[judge].StepGrant? && actions[judge].call == call
    && Admits(w.lifetime, Run(w, actions[..load]).rows[id], actions[judge].input.now)
  }

  /** The token a call sends is the one its row held at a load, and that row was inside its lifetime
      at the clock reading that followed. */
  lemma AskSendsTheTokenOfAStandingRow(w: World, actions: seq<Action>, call: CallId) returns (load: nat, judge: nat)
    requires call in Run(w, actions).grants && Run(w, actions).grants[call].pc.Ask?
    ensures load < judge < |actions|
    ensures var grant := Run(w, actions).grants[call];
            && StoodAtLoad(w, actions, grant.session, call, load, judge)
            && Run(w, actions[..load]).rows[grant.session].refreshToken == Some(grant.pc.sent)
            && Run(w, actions[..load]).rows[grant.session].user == grant.pc.subject
  {
    judge := LastStepOfGrant(w, actions, call);
    load := LastStepOfGrant(w, actions[..judge], call);
    assert actions[..judge][..load] == actions[..load];
  }

  /** How a grant came to the judgement of its second load. */
  lemma TraceToRejudge(w: World, actions: seq<Action>, call: CallId) returns (ask: nat, reload: nat)
    requires call in Run(w, actions).grants && Run(w, actions).grants[call].pc.Rejudge?
    ensures ask < reload < |actions|
    ensures AsksTheIssuer(w, actions, call, ask)
    ensures var grant := Run(w, actions).grants[call];
            var asked := Run(w, actions[..ask]).grants[call];
            var granted := G.GrantOf(w.config, grant.purpose, asked.pc.sent, asked.pc.subject, actions[ask].input);
            && grant.pc.record == Loaded(Run(w, actions[..reload]).rows, grant.session)
            && grant.pc.sent == asked.pc.sent
            && granted == Success(R.Granted(grant.pc.rotated, grant.pc.held))
            && asked.session == grant.session && asked.purpose == grant.purpose
  {
    reload := LastStepOfGrant(w, actions, call);
    ask := LastStepOfGrant(w, actions[..reload], call);
    assert actions[..reload][..ask] == actions[..ask];
  }

  /** A judgement that found the session standing, traced back to the grant it follows. */
  lemma TraceOfStandingJudgement(w: World, actions: seq<Action>, call: CallId, judge: nat) returns (ask: nat, reload: nat)
    requires judge < |actions| && actions[judge].StepGrant? && actions[judge].call == call
    requires call in Run(w, actions[..judge]).grants && Run(w, actions[..judge]).grants[call].pc.Rejudge?
    requires var pc := Run(w, actions[..judge]).grants[call].pc;
             pc.record.Some? && Admits(w.lifetime, pc.record.value, actions[judge].input.now)
    ensures ask < reload < judge
    ensures AsksTheIssuer(w, actions, call, ask)
    ensures var grant, asked := Run(w, actions[..judge]).grants[call], Run(w, actions[..ask]).grants[call];
            && asked.session == grant.session
            && StoodAtLoad(w, actions, grant.session, call, reload, judge)
            && grant.pc.sent == asked.pc.sent
            && G.GrantOf(w.config, asked.purpose, asked.pc.sent, asked.pc.subject, actions[ask].input)
            == Success(R.Granted(grant.pc.rotated, grant.pc.held))
  {
    ask, reload := TraceToRejudge(w, actions[..judge], call);
    assert actions[..judge][..ask] == actions[..ask] && actions[..judge][..reload] == actions[..reload];
  }

  /** A step that ends a write handing something out stored its token in a row that stood. */
  lemma StoredBeforeHandedOut(w: World, actions: seq<Action>, call: CallId, last: nat)
    requires last < |actions| && actions[last].StepGrant? && actions[last].call == call
    requires call in Run(w, actions[..last]).grants && Run(w, actions[..last]).grants[call].pc.Replace?
    requires Run(w, actions[..last]).grants[call].session in Run(w, actions[..last]).rows
    ensures var grant := Run(w, actions[..last]).grants[call];
            && grant.session in Run(w, actions[..last + 1]).rows
            && Run(w, actions[..last + 1]).rows[grant.session].refreshToken == Some(grant.pc.replacement)
  {
    assert actions[..last + 1][..last] == actions[..last];
  }

  /**
   A token or a group list is handed out only if the row stood at the load after the grant and was
   inside its lifetime at the clock reading that followed; the token is the answer's own bearer token,
   the groups those of an ID token that verified as the session's own; and a rotation was first stored
   in a row that still stood.
   */
  lemma HandedOutMeansTheSessionStood(w: World, actions: seq<Action>, call: CallId)
    returns (ask: nat, reload: nat, judge: nat, replace: Option<nat>)
    requires call in Run(w, actions).grants
    requires Run(w, actions).grants[call].pc.Done? && Run(w, actions).grants[call].pc.outcome.HandedOut?
    ensures ask < reload < judge < |actions|
    ensures AsksTheIssuer(w, actions, call, ask)
    ensures var id := Run(w, actions).grants[call].session;
            && StoodAtLoad(w, actions, id, call, reload, judge)
            && var asked := Run(w, actions[..ask]).grants[call];
               var granted := G.GrantOf(w.config, asked.purpose, asked.pc.sent, asked.pc.subject, actions[ask].input);
               && granted.Success?
               && granted.value.result == Success(Run(w, actions).grants[call].pc.outcome.result)
               && IsTheAnswers(w, Run(w, actions).grants[call].pc.outcome.result, asked, actions[ask].input)
               && (match G.Replacement(asked.pc.sent, granted.value.rotated)
                   case None => replace.None?
                   case Some(token) =>
                     && replace.Some? && judge < replace.value < |actions|
                     && id in Run(w, actions[..replace.value]).rows
                     && id in Run(w, actions[..replace.value + 1]).rows
                     && Run(w, actions[..replace.value + 1]).rows[id].refreshToken == Some(token))
  {
    var last := LastStepOfGrant(w, actions, call);
    if Run(w, actions[..last]).grants[call].pc.Replace? {
      replace := Some(last);
      StoredBeforeHandedOut(w, actions, call, last);
      judge := LastStepOfGrant(w, actions[..last], call);
      assert actions[..last][..judge] == actions[..judge];
    } else {
      replace := None;
      judge := last;
    }
    ask, reload := TraceOfStandingJudgement(w, actions, call, judge);
    YieldIsTheAnswers(w, Run(w, actions[..ask]).grants[call], actions[ask].input);
  }

  /** What a call is handed out is its answer's own access token, or the groups of its own subject's ID token. */
  ghost predicate IsTheAnswers(w: World, yielded: G.Yield, asked: G.Grant, input: G.Input)
    requires asked.pc.Ask?
  {
    match yielded
    case AccessToken(token) =>
      && input.answer.Answer? && input.answer.status == 200
      && input.answer.document.accessToken == R.Text(token) && R.IsBearerToken(token)
    case GroupPaths(groups) =>
      && input.answer.Answer? && input.answer.status == 200 && input.answer.document.idToken.Text?
      && input.verdict.Some?
      && var claims := input.verdict.value;
         && claims.subject == Some(asked.pc.subject) && !claims.hasNonce && claims.groups == Some(groups)
         && (claims.azp == R.Text(w.config.clientId) || (claims.azp == R.Absent && claims.audiences == 1))
         && input.now <= claims.issuedAt + w.config.leewaySeconds
  }

  lemma YieldIsTheAnswers(w: World, asked: G.Grant, input: G.Input)
    requires asked.pc.Ask?
    ensures var granted := G.GrantOf(w.config, asked.purpose, asked.pc.sent, asked.pc.subject, input);
            granted.Success? && granted.value.result.Success? ==> IsTheAnswers(w, granted.value.result.value, asked, input)
  {
    R.AccessExactly(asked.pc.sent, input.answer);
    R.GroupsExactly(w.config, asked.pc.sent, input.answer, input.verdict, asked.pc.subject, input.now);
  }

  /**
   A grant writes a row only to store a refresh token the issuer answered this very call with, and
   only one that differs from the token the call sent: an echoed or omitted token, even in a call
   overtaken by others, never overwrites what they stored.
   */
  lemma OnlyARotationIsWritten(w: World, actions: seq<Action>, call: CallId, input: G.Input) returns (ask: nat)
    requires Act(w, Run(w, actions), StepGrant(call, input)).rows != Run(w, actions).rows
    ensures ask < |actions| && AsksTheIssuer(w, actions, call, ask)
    ensures var asked := Run(w, actions[..ask]).grants[call];
            var granted := G.GrantOf(w.config, asked.purpose, asked.pc.sent, asked.pc.subject, actions[ask].input);
            && granted.Success? && granted.value.rotated.Some?
            && granted.value.rotated.value != asked.pc.sent
            && asked.session in Run(w, actions).rows
            && Act(w, Run(w, actions), StepGrant(call, input)).rows ==
               Rotated(Run(w, actions).rows, asked.session, granted.value.rotated.value)
  {
    var judge := LastStepOfGrant(w, actions, call);
    var reload: nat;
    ask, reload := TraceToRejudge(w, actions[..judge], call);
    assert actions[..judge][..ask] == actions[..ask];
  }

  predicate IsOfGrants(actions: seq<Action>) {
    forall i :: 0 <= i < |actions| ==> actions[i].BeginGrant? || actions[i].StepGrant?
  }

  /** However many grants run, and however they interleave, they create no row, end none and change
      nothing but refresh tokens. */
  lemma {:induction false} GrantsChangeOnlyRefreshTokens(w: World, s: State, actions: seq<Action>)
    requires IsOfGrants(actions)
    ensures var t := RunFrom(w, s, actions);
            && t.rows.Keys == s.rows.Keys
            && (forall id :: id in s.rows ==> t.rows[id] == s.rows[id].(refreshToken := t.rows[id].refreshToken))
  {
    if actions != [] {
      GrantsChangeOnlyRefreshTokens(w, s, actions[..|actions| - 1]);
    }
  }
}
