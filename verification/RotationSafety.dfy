/**
 Grants against an issuer that revokes a refresh token on use (section 6 of RFC 6749) and answers
 each grant with well-formed tokens: does the session's row keep the token the issuer honours?

 Per session the calls do not overlap, admissions and endings are atomic, and the clock never goes
 back; everything else interleaves step by step, whatever verdict the new ID tokens meet.
 */
module RotationSafety {
  import opened Wrappers
  import opened SessionLifetime
  import opened SessionStore
  import opened RefreshGrant
  import R = RelyingParty

  type CallId = nat

  /**
   `honoured` maps every refresh token the issuer now honours to the sign-in it descends from;
   `issued` are all it ever issued. `overtaken` is history: the sessions whose rotation a call
   dropped because it judged a row that an admission had renewed since the call loaded it.
   */
  datatype State = State(
    rows: Rows,
    minted: nat,
    clock: int,
    calls: map<CallId, Grant>,
    honoured: map<Token, SessionId>,
    issued: set<Token>,
    overtaken: set<SessionId>)

  function Initial(clock: int): State {
    State(map[], 0, clock, map[], map[], {}, {})
  }

  datatype Event =
    | SignIn(user: UserId, now: int, refreshToken: Option<Token>, idToken: Option<string>)
    | Admit(session: SessionId, now: int)
    | End(ended: set<SessionId>)
    | Begin(call: CallId, session: SessionId, purpose: Purpose)
    | Go(call: CallId, input: Input)

  datatype World = World(config: R.ClientConfig, lifetime: Lifetime)

  // ----- the issuer -----

  /** An answer any caller can use, carrying `rotated` as the new refresh token. */
  predicate IsWellFormed(answer: R.TokenAnswer, rotated: Token) {
    && answer.Answer? && answer.status == 200
    && answer.document.refreshToken == R.Text(rotated) && R.IsRefreshToken(rotated)
    && R.BearerAccessToken(answer.document).Success?
  }

  /** The refresh token an answer carries; meaningful for a usable answer. */
  function RotatedBy(answer: R.TokenAnswer): Token {
    if answer.Answer? && answer.document.refreshToken.Text? then answer.document.refreshToken.text else ""
  }

  /** A token it honours is rotated to one it never issued before, or the request never reached it;
      any other token is refused. */
  predicate AnswersStrictly(s: State, sent: Token, answer: R.TokenAnswer) {
    if sent in s.honoured then
      answer.NoAnswer? || (IsWellFormed(answer, RotatedBy(answer)) && RotatedBy(answer) !in s.issued)
    else
      answer.Answer? && answer.status == 400 && answer.document.error == R.Text(INVALID_GRANT)
  }

  function AfterGrant(s: State, sent: Token, answer: R.TokenAnswer): State {
    if sent in s.honoured && answer.Answer? then
      s.(honoured := (s.honoured - {sent})[RotatedBy(answer) := s.honoured[sent]],
         issued := s.issued + {RotatedBy(answer)})
    else s
  }

  // ----- runs -----

  /** What the assumptions allow next. */
  predicate Allows(s: State, event: Event) {
    match event
    case SignIn(_, now, refreshToken, _) =>
      s.clock <= now && (refreshToken.Some? ==> R.IsRefreshToken(refreshToken.value) && refreshToken.value !in s.issued)
    case Admit(_, now) => s.clock <= now
    case End(_) => true
    case Begin(call, id, _) =>
      call !in s.calls && (forall other :: other in s.calls && s.calls[other].session == id ==> s.calls[other].pc.Done?)
    case Go(call, input) =>
      && call in s.calls
      && s.clock <= input.now
      && (s.calls[call].pc.Ask? ==> AnswersStrictly(s, s.calls[call].pc.sent, input.answer))
  }

  /** A judgement after the grant that refuses a row which, renewed since, is still admissible. */
  predicate Overtakes(w: World, s: State, call: CallId, now: int)
    requires call in s.calls
  {
    var grant := s.calls[call];
    && grant.pc.Rejudge? && grant.pc.record.Some? && !Admits(w.lifetime, grant.pc.record.value, now)
    && grant.session in s.rows && Admits(w.lifetime, s.rows[grant.session], now)
    && Replacement(grant.pc.sent, grant.pc.rotated).Some?
  }

  /** An event the assumptions rule out changes nothing, so every sequence of events is a run. */
  function Act(w: World, s: State, event: Event): State {
    if Allows(s, event) then Happens(w, s, event) else s
  }

  function Happens(w: World, s: State, event: Event): State
    requires Allows(s, event)
  {
    match event
    case SignIn(user, now, refreshToken, idToken) =>
      var row := Row(user, now, RenewedExpiry(w.lifetime, now, now), refreshToken, idToken);
      var begun := s.(rows := s.rows[s.minted := row], minted := s.minted + 1, clock := now);
      if refreshToken.None? then begun
      else begun.(honoured := s.honoured[refreshToken.value := s.minted], issued := s.issued + {refreshToken.value})
    case Admit(id, now) => s.(rows := AfterAdmission(w.lifetime, s.rows, id, now), clock := now)
    case End(ended) => s.(rows := Without(s.rows, ended))
    case Begin(call, id, purpose) => s.(calls := s.calls[call := Grant(id, purpose, Load)])
    case Go(call, input) =>
      var grant := s.calls[call];
      var (rows, pc) := Step(w.config, w.lifetime, s.rows, grant, input);
      var t := if grant.pc.Ask? then AfterGrant(s, grant.pc.sent, input.answer) else s;
      t.(rows := rows, clock := input.now, calls := s.calls[call := grant.(pc := pc)],
         overtaken := if Overtakes(w, s, call, input.now) then s.overtaken + {grant.session} else s.overtaken)
  }

  function Run(w: World, clock: int, events: seq<Event>): State {
    if events == [] then Initial(clock)
    else Act(w, Run(w, clock, events[..|events| - 1]), events[|events| - 1])
  }

  // ----- the invariant -----

  /** The row can still be admitted, now or later. */
  predicate IsAlive(s: State, id: SessionId) {
    id in s.rows && s.clock <= s.rows[id].expiresAt
  }

  /** The call holds a rotation its row does not. */
  predicate IsCarrying(pc: Pc) {
    pc.Reload? || pc.Rejudge? || pc.Replace?
  }

  ghost predicate RowIsSound(w: World, s: State, id: SessionId)
    requires id in s.rows
  {
    var row := s.rows[id];
    && id < s.minted
    && row.createdAt <= s.clock
    && row.expiresAt <= s.clock + w.lifetime.idle
    && row.expiresAt <= row.createdAt + w.lifetime.cap
    && (row.refreshToken.Some? ==> Descends(s, row.refreshToken.value, id))
  }

  ghost predicate IssuerIsSound(s: State) {
    && (forall t :: t in s.honoured ==> t in s.issued && s.honoured[t] < s.minted)
    && (forall t :: t in s.issued ==> R.IsRefreshToken(t))
    && (forall t, u :: t in s.honoured && u in s.honoured && s.honoured[t] == s.honoured[u] ==> t == u)
  }

  /** `token` is the one the issuer honours for the session. */
  predicate IsHonouredFor(s: State, token: Token, id: SessionId) {
    token in s.honoured && s.honoured[token] == id
  }

  /** Issued, and if it is honoured at all then for this session. */
  ghost predicate Descends(s: State, token: Token, id: SessionId) {
    token in s.issued && (token in s.honoured ==> s.honoured[token] == id)
  }

  ghost predicate CallIsSound(w: World, s: State, grant: Grant) {
    var id := grant.session;
    match grant.pc
    case Judge(Some(record)) =>
      && id < s.minted
      && (record.refreshToken.Some? ==> Descends(s, record.refreshToken.value, id))
      && (id in s.rows ==> s.rows[id].refreshToken == record.refreshToken)
    case Ask(sent, _) =>
      id < s.minted && Descends(s, sent, id) && (id in s.rows ==> s.rows[id].refreshToken == Some(sent))
    case Reload(sent, rotated, _) =>
      && id < s.minted
      && rotated.Some? && Descends(s, rotated.value, id)
      && (IsAlive(s, id) ==> Carries(s, id, sent, rotated.value))
    case Rejudge(sent, rotated, _, record) =>
      && id < s.minted
      && rotated.Some? && Descends(s, rotated.value, id)
      && (IsAlive(s, id) ==>
            && Carries(s, id, sent, rotated.value)
            && record.Some?
            && SameLogin(record.value, s.rows[id])
            && record.value.expiresAt <= s.rows[id].expiresAt)
    case Replace(token, _, _) =>
      id < s.minted && Descends(s, token, id) && (IsAlive(s, id) ==> id !in s.overtaken && IsHonouredFor(s, token, id))
    case _ => true
  }

  /** The call brings home the honoured token, the row still holds the one it sent. */
  ghost predicate Carries(s: State, id: SessionId, sent: Token, rotated: Token)
    requires id in s.rows
  {
    id !in s.overtaken && rotated != sent && IsHonouredFor(s, rotated, id) && s.rows[id].refreshToken == Some(sent)
  }

  ghost predicate HasCarrier(s: State, id: SessionId) {
    exists call :: call in s.calls && s.calls[call].session == id && IsCarrying(s.calls[call].pc)
  }

  /** A row with a refresh token holds the honoured one, unless a call carries it or was overtaken. */
  ghost predicate TokenIsKept(s: State, id: SessionId)
    requires id in s.rows && s.rows[id].refreshToken.Some?
  {
    var token := s.rows[id].refreshToken.value;
    if id in s.overtaken then token !in s.honoured
    else HasCarrier(s, id) || IsHonouredFor(s, token, id)
  }

  predicate AreInFlightTogether(a: Grant, b: Grant) {
    a.session == b.session && !a.pc.Done? && !b.pc.Done?
  }

  ghost predicate Inv(w: World, s: State) {
    && IssuerIsSound(s)
    && (forall id :: id in s.overtaken ==> id < s.minted)
    && (forall id :: id in s.rows ==> RowIsSound(w, s, id))
    && (forall call :: call in s.calls ==> CallIsSound(w, s, s.calls[call]))
    && (forall c, d :: c in s.calls && d in s.calls && AreInFlightTogether(s.calls[c], s.calls[d]) ==> c == d)
    && (forall id :: IsAlive(s, id) && s.rows[id].refreshToken.Some? ==> TokenIsKept(s, id))
    && (forall id :: id in s.overtaken && id in s.rows ==> s.rows[id].refreshToken.Some?)
  }

  /** For a sound row only the passed expiry can refuse. */
  lemma AliveMeansAdmissible(w: World, s: State, id: SessionId, now: int)
    requires id in s.rows && RowIsSound(w, s, id) && s.clock <= now
    ensures Admits(w.lifetime, s.rows[id], now) <==> now <= s.rows[id].expiresAt
  {
  }

  lemma SignInKeepsInv(w: World, s: State, event: Event)
    requires Inv(w, s) && Allows(s, event) && event.SignIn?
    ensures Inv(w, Happens(w, s, event))
  {
    var t := Happens(w, s, event);
    forall id | id in t.rows ensures RowIsSound(w, t, id) {
      RowStaysSoundAfterSignIn(w, s, event, id);
    }
    forall call | call in t.calls ensures CallIsSound(w, t, t.calls[call]) {
      CallStaysSoundAfterSignIn(w, s, event, s.calls[call]);
    }
    forall id | IsAlive(t, id) && t.rows[id].refreshToken.Some? ensures TokenIsKept(t, id) {
      if id != s.minted {
        assert IsAlive(s, id) && TokenIsKept(s, id);
        assert HasCarrier(s, id) ==> HasCarrier(t, id);
      }
    }
  }

  lemma RowStaysSoundAfterSignIn(w: World, s: State, event: Event, id: SessionId)
    requires IssuerIsSound(s) && Allows(s, event) && event.SignIn? && id in Happens(w, s, event).rows
    requires id in s.rows ==> RowIsSound(w, s, id)
    ensures RowIsSound(w, Happens(w, s, event), id)
    ensures id in s.rows ==> id != s.minted
  {
  }

  /** A sign-in mints a session and a token of its own, so no call notices. */
  lemma CallStaysSoundAfterSignIn(w: World, s: State, event: Event, grant: Grant)
    requires IssuerIsSound(s) && Allows(s, event) && event.SignIn? && CallIsSound(w, s, grant)
    ensures CallIsSound(w, Happens(w, s, event), grant)
  {
    var t := Happens(w, s, event);
    assert grant.session < s.minted ==> (IsAlive(t, grant.session) ==> IsAlive(s, grant.session));
  }

  lemma AdmitKeepsInv(w: World, s: State, event: Event)
    requires Inv(w, s) && Allows(s, event) && event.Admit?
    ensures Inv(w, Happens(w, s, event))
  {
    var t := Happens(w, s, event);
    forall id | id in t.rows ensures RowIsSound(w, t, id) {
      assert RowIsSound(w, s, id);
    }
    forall call | call in t.calls ensures CallIsSound(w, t, t.calls[call]) {
      CallStaysSoundAfterAdmission(w, s, event, s.calls[call]);
    }
    forall id | IsAlive(t, id) && t.rows[id].refreshToken.Some? ensures TokenIsKept(t, id) {
      AdmissionOnlyRenews(w, s, event, id);
      assert TokenIsKept(s, id);
      assert HasCarrier(s, id) ==> HasCarrier(t, id);
    }
  }

  /** A row that lives after an admission lived before it, and differs in a later expiry at most. */
  lemma AdmissionOnlyRenews(w: World, s: State, event: Event, id: SessionId)
    requires Allows(s, event) && event.Admit? && IsAlive(Happens(w, s, event), id)
    requires id in s.rows ==> RowIsSound(w, s, id)
    ensures var t := Happens(w, s, event);
            && IsAlive(s, id) && t.rows[id] == s.rows[id].(expiresAt := t.rows[id].expiresAt)
            && s.rows[id].expiresAt <= t.rows[id].expiresAt
  {
  }

  lemma CallStaysSoundAfterAdmission(w: World, s: State, event: Event, grant: Grant)
    requires Allows(s, event) && event.Admit? && CallIsSound(w, s, grant)
    requires grant.session in s.rows ==> RowIsSound(w, s, grant.session)
    ensures CallIsSound(w, Happens(w, s, event), grant)
  {
    if IsAlive(Happens(w, s, event), grant.session) {
      AdmissionOnlyRenews(w, s, event, grant.session);
    }
  }

  lemma EndKeepsInv(w: World, s: State, event: Event)
    requires Inv(w, s) && Allows(s, event) && event.End?
    ensures Inv(w, Happens(w, s, event))
  {
    var t := Happens(w, s, event);
    forall id | id in t.rows ensures RowIsSound(w, t, id) {}
    forall call | call in t.calls ensures CallIsSound(w, t, t.calls[call]) {}
    forall id | IsAlive(t, id) && t.rows[id].refreshToken.Some? ensures TokenIsKept(t, id) {}
  }

  lemma BeginKeepsInv(w: World, s: State, event: Event)
    requires Inv(w, s) && Allows(s, event) && event.Begin?
    ensures Inv(w, Happens(w, s, event))
  {
    var t := Happens(w, s, event);
    forall id | id in t.rows ensures RowIsSound(w, t, id) {
      assert RowIsSound(w, s, id);
    }
    forall call | call in t.calls ensures CallIsSound(w, t, t.calls[call]) {
      if call in s.calls {
        OtherCallsDoNotMatter(w, s, t, s.calls[call]);
      }
    }
    forall id | IsAlive(t, id) && t.rows[id].refreshToken.Some? ensures TokenIsKept(t, id) {
      MoreCallsStillKeep(s, t, id);
    }
  }

  lemma MoreCallsStillKeep(s: State, t: State, id: SessionId)
    requires t == s.(calls := t.calls) && forall call :: call in s.calls ==> call in t.calls && t.calls[call] == s.calls[call]
    requires id in s.rows && s.rows[id].refreshToken.Some? && TokenIsKept(s, id)
    ensures TokenIsKept(t, id)
  {
    if HasCarrier(s, id) {
      var call :| call in s.calls && s.calls[call].session == id && IsCarrying(s.calls[call].pc);
      assert t.calls[call] == s.calls[call];
    }
  }

  lemma OtherCallsDoNotMatter(w: World, s: State, t: State, grant: Grant)
    requires t == s.(calls := t.calls) && CallIsSound(w, s, grant)
    ensures CallIsSound(w, t, grant)
  {
  }

  // ----- a step of a call -----

  /** All that a step of one call needs to keep for the rest of the state. */
  ghost predicate LeavesTheRestAlone(s: State, t: State, call: CallId)
    requires call in s.calls
  {
    && t.minted == s.minted && s.clock <= t.clock && s.issued <= t.issued && s.overtaken <= t.overtaken
    && (forall id :: id in t.overtaken && id !in s.overtaken ==> id == s.calls[call].session)
    && t.calls.Keys == s.calls.Keys
    && (forall other :: other in s.calls && other != call ==> t.calls[other] == s.calls[other])
    && t.rows.Keys == s.rows.Keys
    && (forall id :: id in s.rows && id != s.calls[call].session ==> t.rows[id] == s.rows[id])
    && (forall u :: u in s.issued && u in t.honoured ==> u in s.honoured && t.honoured[u] == s.honoured[u])
    && (forall u :: u in s.honoured && s.honoured[u] != s.calls[call].session ==> u in t.honoured)
  }

  lemma RestStaysSound(w: World, s: State, t: State, call: CallId)
    requires Inv(w, s) && call in s.calls && !s.calls[call].pc.Done? && LeavesTheRestAlone(s, t, call)
    ensures forall id :: id in s.rows && id != s.calls[call].session ==> RowIsSound(w, t, id)
    ensures forall other :: other in s.calls && other != call ==> CallIsSound(w, t, s.calls[other])
    ensures forall id :: id != s.calls[call].session && IsAlive(t, id) && t.rows[id].refreshToken.Some? ==> TokenIsKept(t, id)
  {
    forall other | other in s.calls && other != call ensures CallIsSound(w, t, s.calls[other]) {
      if !s.calls[other].pc.Done? {
        assert !AreInFlightTogether(s.calls[call], s.calls[other]);
      }
    }
    forall id | id != s.calls[call].session && IsAlive(t, id) && t.rows[id].refreshToken.Some? ensures TokenIsKept(t, id) {
      assert IsAlive(s, id) && TokenIsKept(s, id);
      if id !in s.overtaken && HasCarrier(s, id) {
        var other :| other in s.calls && s.calls[other].session == id && IsCarrying(s.calls[other].pc);
        assert t.calls[other] == s.calls[other];
      }
    }
  }

  /** A usable answer to a well-formed token always yields its rotation, whatever the ID token. */
  lemma WellFormedAnswerRotates(w: World, grant: Grant, input: Input)
    requires grant.pc.Ask? && R.IsRefreshToken(grant.pc.sent) && IsWellFormed(input.answer, RotatedBy(input.answer))
    ensures var granted := GrantOf(w.config, grant.purpose, grant.pc.sent, grant.pc.subject, input);
            granted.Success? && granted.value.rotated == Some(RotatedBy(input.answer))
  {
    R.RotationSurvivesTheIdToken(w.config, grant.pc.sent, input.answer, input.verdict, grant.pc.subject, input.now);
  }

  lemma RefusedAnswerRotatesNothing(w: World, grant: Grant, input: Input)
    requires grant.pc.Ask?
    requires input.answer.NoAnswer? || input.answer.status != 200
    ensures GrantOf(w.config, grant.purpose, grant.pc.sent, grant.pc.subject, input).Failure?
  {
  }

  /** A grant the issuer did not perform, or refused, leaves every token as it was. */
  lemma UngrantedAskKeepsInv(w: World, s: State, event: Event)
    requires Inv(w, s) && Allows(s, event) && event.Go? && s.calls[event.call].pc.Ask?
    requires s.calls[event.call].pc.sent !in s.honoured || event.input.answer.NoAnswer?
    ensures Inv(w, Happens(w, s, event))
  {
    var t, call := Happens(w, s, event), event.call;
    var grant := s.calls[call];
    RefusedAnswerRotatesNothing(w, grant, event.input);
    assert t == s.(clock := event.input.now, calls := s.calls[call := t.calls[call]]) && t.calls[call].pc.Done?;
    CallEndsKeepingInv(w, s, t, call);
  }

  /** A call that ends, changing no row and no token, keeps the invariant if its session loses nothing. */
  lemma CallEndsKeepingInv(w: World, s: State, t: State, call: CallId)
    requires Inv(w, s) && call in s.calls && s.clock <= t.clock
    requires call in t.calls && t == s.(clock := t.clock, calls := s.calls[call := t.calls[call]])
    requires t.calls[call].session == s.calls[call].session && t.calls[call].pc.Done?
    requires !IsAlive(t, s.calls[call].session) || !IsCarrying(s.calls[call].pc)
    ensures Inv(w, t)
  {
    forall other | other in t.calls ensures CallIsSound(w, t, t.calls[other]) {}
    forall id | id in t.rows ensures RowIsSound(w, t, id) {}
    forall id | IsAlive(t, id) && t.rows[id].refreshToken.Some? ensures TokenIsKept(t, id) {
      assert IsAlive(s, id) && TokenIsKept(s, id);
      if id !in s.overtaken && HasCarrier(s, id) {
        var other :| other in s.calls && s.calls[other].session == id && IsCarrying(s.calls[other].pc);
        assert t.calls[other] == s.calls[other];
      }
    }
  }

  lemma OnlyCallInFlight(w: World, s: State, call: CallId)
    requires Inv(w, s) && call in s.calls && !s.calls[call].pc.Done?
    ensures forall other :: other in s.calls && other != call && s.calls[other].session == s.calls[call].session ==>
              s.calls[other].pc.Done?
    ensures HasCarrier(s, s.calls[call].session) ==> IsCarrying(s.calls[call].pc)
  {
    forall other | other in s.calls && other != call && s.calls[other].session == s.calls[call].session
      ensures s.calls[other].pc.Done?
    {
      assert !AreInFlightTogether(s.calls[call], s.calls[other]);
    }
  }

  /** A performed grant moves the honoured token from the row's to the one the call now carries. */
  lemma GrantedAskKeepsInv(w: World, s: State, event: Event)
    requires Inv(w, s) && Allows(s, event) && event.Go? && s.calls[event.call].pc.Ask?
    requires s.calls[event.call].pc.sent in s.honoured && event.input.answer.Answer?
    ensures Inv(w, Happens(w, s, event))
  {
    var t, call := Happens(w, s, event), event.call;
    var grant := s.calls[call];
    var id, sent, rotated := grant.session, grant.pc.sent, RotatedBy(event.input.answer);
    WellFormedAnswerRotates(w, grant, event.input);
    assert t.calls[call].pc.Reload? && t.calls[call].pc.sent == sent && t.calls[call].pc.rotated == Some(rotated);
    assert s.honoured[sent] == id;
    assert t == s.(honoured := (s.honoured - {sent})[rotated := id], issued := s.issued + {rotated},
                   clock := event.input.now, calls := s.calls[call := t.calls[call]]);
    RotatedTokenKeepsInv(w, s, t, call, rotated);
  }

  lemma RotatedTokenKeepsInv(w: World, s: State, t: State, call: CallId, rotated: Token)
    requires Inv(w, s) && call in s.calls && s.calls[call].pc.Ask? && s.clock <= t.clock
    requires call in t.calls && t.calls[call].session == s.calls[call].session && t.calls[call].pc.Reload?
    requires t.calls[call].pc.sent == s.calls[call].pc.sent && t.calls[call].pc.rotated == Some(rotated)
    requires rotated !in s.issued && R.IsRefreshToken(rotated)
    requires var id, sent := s.calls[call].session, s.calls[call].pc.sent;
             && sent in s.honoured && s.honoured[sent] == id
             && t == s.(honoured := (s.honoured - {sent})[rotated := id], issued := s.issued + {rotated},
                        clock := t.clock, calls := s.calls[call := t.calls[call]])
    ensures Inv(w, t)
  {
    var id, sent := s.calls[call].session, s.calls[call].pc.sent;
    OnlyCallInFlight(w, s, call);
    assert CallIsSound(w, s, s.calls[call]);
    RotatedIssuerIsSound(s, t, sent, rotated, id);
    assert IsAlive(t, id) ==> IsAlive(s, id) && TokenIsKept(s, id);
    assert CallIsSound(w, t, t.calls[call]);
    assert HasCarrier(t, id);
    assert id in s.rows ==> RowIsSound(w, s, id);
    OneCallKeepsInv(w, s, t, call);
  }

  /** Honouring a token never issued before in place of the one sent. */
  lemma RotatedIssuerIsSound(s: State, t: State, sent: Token, rotated: Token, id: SessionId)
    requires IssuerIsSound(s) && sent in s.honoured && s.honoured[sent] == id
    requires rotated !in s.issued && R.IsRefreshToken(rotated) && t.minted == s.minted
    requires t.honoured == (s.honoured - {sent})[rotated := id] && t.issued == s.issued + {rotated}
    ensures IssuerIsSound(t)
  {
  }

  /** A call that moves on, changing no row and no token, carries on what it carried. */
  lemma CallMovesOnKeepingInv(w: World, s: State, t: State, call: CallId)
    requires Inv(w, s) && call in s.calls && !s.calls[call].pc.Done? && s.clock <= t.clock
    requires call in t.calls && t == s.(clock := t.clock, calls := s.calls[call := t.calls[call]])
    requires t.calls[call].session == s.calls[call].session && CallIsSound(w, t, t.calls[call])
    requires IsCarrying(s.calls[call].pc) ==> IsCarrying(t.calls[call].pc)
    ensures Inv(w, t)
  {
    OnlyCallInFlight(w, s, call);
    var id := s.calls[call].session;
    if IsAlive(t, id) && t.rows[id].refreshToken.Some? {
      assert IsAlive(s, id) && TokenIsKept(s, id);
      if HasCarrier(s, id) {
        assert HasCarrier(t, id);
      }
    }
    assert id in s.rows ==> RowIsSound(w, s, id);
    OneCallKeepsInv(w, s, t, call);
  }

  lemma FirstTransactionKeepsInv(w: World, s: State, event: Event)
    requires Inv(w, s) && Allows(s, event) && event.Go?
    requires s.calls[event.call].pc.Load? || s.calls[event.call].pc.Judge?
    ensures Inv(w, Happens(w, s, event))
  {
    var t, call := Happens(w, s, event), event.call;
    if t.calls[call].pc.Done? {
      CallEndsKeepingInv(w, s, t, call);
    } else {
      CallMovesOnKeepingInv(w, s, t, call);
    }
  }

  /** The second judgement: whatever stands moves on to its write; what does not has lost its rotation. */
  lemma SecondLoadKeepsInv(w: World, s: State, event: Event)
    requires Inv(w, s) && Allows(s, event) && event.Go?
    requires s.calls[event.call].pc.Reload? || s.calls[event.call].pc.Rejudge?
    requires !Overtakes(w, s, event.call, event.input.now)
    ensures Inv(w, Happens(w, s, event))
  {
    var t, call := Happens(w, s, event), event.call;
    var id := s.calls[call].session;
    if s.calls[call].pc.Rejudge? && id in s.rows {
      AliveMeansAdmissible(w, s, id, event.input.now);
    }
    if t.calls[call].pc.Done? {
      CallEndsKeepingInv(w, s, t, call);
    } else {
      CallMovesOnKeepingInv(w, s, t, call);
    }
  }

  /** All that a step of one call has to show for its own session. */
  ghost predicate SessionIsSound(w: World, s: State, id: SessionId) {
    && (id in s.overtaken ==> id < s.minted)
    && (id in s.rows ==> RowIsSound(w, s, id))
    && (IsAlive(s, id) && s.rows[id].refreshToken.Some? ==> TokenIsKept(s, id))
    && (id in s.overtaken && id in s.rows ==> s.rows[id].refreshToken.Some?)
  }

  /** A step of one call keeps the invariant if it does for its own session and leaves the rest alone. */
  lemma OneCallKeepsInv(w: World, s: State, t: State, call: CallId)
    requires Inv(w, s) && call in s.calls && !s.calls[call].pc.Done? && LeavesTheRestAlone(s, t, call)
    requires t.calls[call].session == s.calls[call].session
    requires IssuerIsSound(t) && CallIsSound(w, t, t.calls[call]) && SessionIsSound(w, t, s.calls[call].session)
    ensures Inv(w, t)
  {
    RestStaysSound(w, s, t, call);
    forall c, d | c in t.calls && d in t.calls && AreInFlightTogether(t.calls[c], t.calls[d]) ensures c == d {
      assert AreInFlightTogether(if c == call then s.calls[call] else t.calls[c], if d == call then s.calls[call] else t.calls[d]);
    }
  }

  /** The row still holds the token its call sent, and the issuer honours another for the session. */
  lemma SentIsRevoked(w: World, s: State, id: SessionId, sent: Token, rotated: Token)
    requires IssuerIsSound(s) && id in s.rows && RowIsSound(w, s, id) && Carries(s, id, sent, rotated)
    ensures sent !in s.honoured
  {
  }

  lemma OvertakenKeepsInv(w: World, s: State, event: Event)
    requires Inv(w, s) && Allows(s, event) && event.Go?
    requires Overtakes(w, s, event.call, event.input.now)
    ensures Inv(w, Happens(w, s, event))
  {
    var t, call := Happens(w, s, event), event.call;
    var id := s.calls[call].session;
    AliveMeansAdmissible(w, s, id, event.input.now);
    assert CallIsSound(w, s, s.calls[call]);
    SentIsRevoked(w, s, id, s.calls[call].pc.sent, s.calls[call].pc.rotated.value);
    assert t == s.(clock := event.input.now, calls := s.calls[call := t.calls[call]], overtaken := s.overtaken + {id});
    DroppedRotationKeepsInv(w, s, t, call);
  }

  /** A call that ends dropping its rotation keeps the invariant, its session overtaken. */
  lemma DroppedRotationKeepsInv(w: World, s: State, t: State, call: CallId)
    requires Inv(w, s) && call in s.calls && !s.calls[call].pc.Done? && s.clock <= t.clock
    requires call in t.calls && t.calls[call].session == s.calls[call].session && t.calls[call].pc.Done?
    requires var id := s.calls[call].session;
             && id in s.rows && id < s.minted && s.rows[id].refreshToken.Some? && s.rows[id].refreshToken.value !in s.honoured
             && t == s.(clock := t.clock, calls := s.calls[call := t.calls[call]], overtaken := s.overtaken + {id})
    ensures Inv(w, t)
  {
    OneCallKeepsInv(w, s, t, call);
  }

  lemma ReplaceKeepsInv(w: World, s: State, event: Event)
    requires Inv(w, s) && Allows(s, event) && event.Go? && s.calls[event.call].pc.Replace?
    ensures Inv(w, Happens(w, s, event))
  {
    var t, call := Happens(w, s, event), event.call;
    var id := s.calls[call].session;
    if id !in s.rows {
      CallEndsKeepingInv(w, s, t, call);
    } else {
      var token := s.calls[call].pc.replacement;
      assert t == s.(rows := s.rows[id := s.rows[id].(refreshToken := Some(token))], clock := event.input.now,
                     calls := s.calls[call := t.calls[call]]);
      WrittenTokenKeepsInv(w, s, t, call, token);
    }
  }

  /** A call that ends writing the token it carries keeps the invariant. */
  lemma WrittenTokenKeepsInv(w: World, s: State, t: State, call: CallId, token: Token)
    requires Inv(w, s) && call in s.calls && s.calls[call].session in s.rows && s.clock <= t.clock
    requires s.calls[call].pc.Replace? && s.calls[call].pc.replacement == token
    requires call in t.calls && t.calls[call].session == s.calls[call].session && t.calls[call].pc.Done?
    requires var id := s.calls[call].session;
             t == s.(rows := s.rows[id := s.rows[id].(refreshToken := Some(token))], clock := t.clock,
                     calls := s.calls[call := t.calls[call]])
    ensures Inv(w, t)
  {
    var id := s.calls[call].session;
    OnlyCallInFlight(w, s, call);
    assert CallIsSound(w, s, s.calls[call]) && RowIsSound(w, s, id);
    assert IsAlive(t, id) ==> IsAlive(s, id);
    OneCallKeepsInv(w, s, t, call);
  }

  lemma ActKeepsInv(w: World, s: State, event: Event)
    requires Inv(w, s)
    ensures Inv(w, Act(w, s, event))
  {
    if Allows(s, event) {
      match event {
        case SignIn(_, _, _, _) => SignInKeepsInv(w, s, event);
        case Admit(_, _) => AdmitKeepsInv(w, s, event);
        case End(_) => EndKeepsInv(w, s, event);
        case Begin(_, _, _) => BeginKeepsInv(w, s, event);
        case Go(call, input) =>
          var pc := s.calls[call].pc;
          if pc.Load? || pc.Judge? {
            FirstTransactionKeepsInv(w, s, event);
          } else if pc.Ask? && pc.sent in s.honoured && input.answer.Answer? {
            GrantedAskKeepsInv(w, s, event);
          } else if pc.Ask? {
            UngrantedAskKeepsInv(w, s, event);
          } else if Overtakes(w, s, call, input.now) {
            OvertakenKeepsInv(w, s, event);
          } else if pc.Reload? || pc.Rejudge? {
            SecondLoadKeepsInv(w, s, event);
          } else if pc.Replace? {
            ReplaceKeepsInv(w, s, event);
          } else {
            CallEndsKeepingInv(w, s, Happens(w, s, event), call);
          }
      }
    }
  }

  lemma {:induction false} EveryRunKeepsInv(w: World, clock: int, events: seq<Event>)
    ensures Inv(w, Run(w, clock, events))
  {
    if events != [] {
      EveryRunKeepsInv(w, clock, events[..|events| - 1]);
      ActKeepsInv(w, Run(w, clock, events[..|events| - 1]), events[|events| - 1]);
    }
  }

  // ----- the result -----

  ghost predicate IsAtRest(s: State, id: SessionId) {
    forall call :: call in s.calls && s.calls[call].session == id ==> s.calls[call].pc.Done?
  }

  /**
   In every run, a session that can still be admitted, with no call of its own under way, holds the
   refresh token the issuer honours for it if and only if no call judged a stale load of it.
   */
  lemma RotationIsKeptExactly(w: World, clock: int, events: seq<Event>, id: SessionId)
    requires var s := Run(w, clock, events);
             IsAlive(s, id) && s.rows[id].refreshToken.Some? && IsAtRest(s, id)
    ensures var s := Run(w, clock, events);
            IsHonouredFor(s, s.rows[id].refreshToken.value, id) <==> id !in s.overtaken
  {
    EveryRunKeepsInv(w, clock, events);
  }

  /** The event renews a session between a call's load after the grant and its judgement of it. */
  predicate Splits(s: State, event: Event) {
    event.Admit? &&
    exists call :: call in s.calls && s.calls[call].session == event.session && s.calls[call].pc.Rejudge?
  }

  predicate IsUnsplit(w: World, clock: int, events: seq<Event>) {
    forall i :: 0 <= i < |events| ==> !Splits(Run(w, clock, events[..i]), events[i])
  }

  ghost predicate JudgesWhatItLoaded(s: State) {
    forall call :: call in s.calls && s.calls[call].pc.Rejudge? && s.calls[call].session in s.rows ==>
      s.calls[call].pc.record == Some(s.rows[s.calls[call].session])
  }

  lemma UnsplitEventOvertakesNothing(w: World, s: State, event: Event)
    requires Inv(w, s) && Allows(s, event) && JudgesWhatItLoaded(s) && !Splits(s, event)
    ensures Happens(w, s, event).overtaken == s.overtaken
    ensures JudgesWhatItLoaded(Happens(w, s, event))
  {
    var t := Happens(w, s, event);
    forall call | call in t.calls && t.calls[call].pc.Rejudge? && t.calls[call].session in t.rows
      ensures t.calls[call].pc.record == Some(t.rows[t.calls[call].session])
    {
      if event.Go? && !s.calls[event.call].pc.Done? {
        OnlyCallInFlight(w, s, event.call);
      }
    }
  }

  lemma {:induction false} UnsplitRunOvertakesNothing(w: World, clock: int, events: seq<Event>)
    requires IsUnsplit(w, clock, events)
    ensures Run(w, clock, events).overtaken == {}
    ensures JudgesWhatItLoaded(Run(w, clock, events))
  {
    if events != [] {
      var butLast, event := events[..|events| - 1], events[|events| - 1];
      assert forall i :: 0 <= i < |butLast| ==> butLast[..i] == events[..i];
      UnsplitRunOvertakesNothing(w, clock, butLast);
      EveryRunKeepsInv(w, clock, butLast);
      if Allows(Run(w, clock, butLast), event) {
        UnsplitEventOvertakesNothing(w, Run(w, clock, butLast), event);
      }
    }
  }

  /**
   So when the second transaction's load and judgement are not split by a renewal of the same
   session, every session that can still be admitted and is at rest holds the honoured token,
   whatever the new ID tokens' verdicts were.
   */
  lemma RotationIsKept(w: World, clock: int, events: seq<Event>, id: SessionId)
    requires IsUnsplit(w, clock, events)
    requires var s := Run(w, clock, events);
             IsAlive(s, id) && s.rows[id].refreshToken.Some? && IsAtRest(s, id)
    ensures var s := Run(w, clock, events);
            IsHonouredFor(s, s.rows[id].refreshToken.value, id)
  {
    UnsplitRunOvertakesNothing(w, clock, events);
    RotationIsKeptExactly(w, clock, events, id);
  }

  // ----- the condition is needed -----

  const ROTATED_TO_B := R.Answer(200, R.TokenDocument(R.Absent, R.Text("b"), R.Text("bearer"), R.Text("t"), R.Absent))

  lemma RotatedToBIsWellFormed()
    ensures RotatedBy(ROTATED_TO_B) == "b" && IsWellFormed(ROTATED_TO_B, "b") && R.IsRefreshToken("a")
  {
    assert R.Unpadded("t") == "t";
    assert R.IsBearer("bearer");
  }

  lemma OneMore(w: World, clock: int, events: seq<Event>, event: Event) returns (more: seq<Event>)
    ensures Run(w, clock, more) == Act(w, Run(w, clock, events), event)
  {
    more := events + [event];
    assert more[..|more| - 1] == events;
  }

  /** One session signed in, and its one call about to ask the issuer. */
  lemma CallAboutToAsk(w: World) returns (events: seq<Event>)
    ensures Run(w, 0, events) ==
            State(map[0 := Row("u", 0, w.lifetime.idle, Some("a"), None)], 1, 0,
                  map[0 := Grant(0, ForAccessToken, Ask("a", "u"))], map["a" := 0], {"a"}, {})
  {
    RotatedToBIsWellFormed();
    var row := Row("u", 0, w.lifetime.idle, Some("a"), None);
    events := OneMore(w, 0, [], SignIn("u", 0, Some("a"), None));
    events := OneMore(w, 0, events, Begin(0, 0, ForAccessToken));
    assert Run(w, 0, events) == State(map[0 := row], 1, 0, map[0 := Grant(0, ForAccessToken, Load)], map["a" := 0], {"a"}, {});
    events := OneMore(w, 0, events, Go(0, Input(0, R.NoAnswer, None)));
    events := OneMore(w, 0, events, Go(0, Input(0, R.NoAnswer, None)));
  }

  /** ... and the call holding its rotation and its second load of the row. */
  lemma CallHoldingARotation(w: World) returns (events: seq<Event>)
    ensures Run(w, 0, events) ==
            State(map[0 := Row("u", 0, w.lifetime.idle, Some("a"), None)], 1, w.lifetime.idle,
                  map[0 := Grant(0, ForAccessToken,
                                 Rejudge("a", Some("b"), Success(AccessToken("t")),
                                         Some(Row("u", 0, w.lifetime.idle, Some("a"), None))))],
                  map["b" := 0], {"a", "b"}, {})
  {
    RotatedToBIsWellFormed();
    events := CallAboutToAsk(w);
    events := OneMore(w, 0, events, Go(0, Input(0, ROTATED_TO_B, None)));
    var s := Run(w, 0, events);
    assert s.calls[0].pc == Reload("a", Some("b"), Success(AccessToken("t")));
    assert s.honoured == map["b" := 0] && s.issued == {"a", "b"};
    events := OneMore(w, 0, events, Go(0, Input(w.lifetime.idle, R.NoAnswer, None)));
  }

  /**
   Without the condition it fails, for every lifetime whose cap exceeds its idle window: a renewal
   at the last second between load and judgement leaves a live session, at rest, with a refresh
   token the issuer has revoked.
   */
  lemma SplitTransactionLosesTheRotation(w: World) returns (events: seq<Event>, id: SessionId)
    requires w.lifetime.idle < w.lifetime.cap
    ensures var s := Run(w, 0, events);
            && IsAlive(s, id) && s.rows[id].refreshToken.Some? && IsAtRest(s, id)
            && s.rows[id].refreshToken.value !in s.honoured
  {
    id := 0;
    events := CallHoldingARotation(w);
    events := OneMore(w, 0, events, Admit(0, w.lifetime.idle));
    var renewed := Run(w, 0, events);
    assert renewed.rows[0].expiresAt > w.lifetime.idle;
    events := OneMore(w, 0, events, Go(0, Input(w.lifetime.idle + 1, R.NoAnswer, None)));
  }

  // ----- the condition on the configuration -----

  /** At the end of this run the session, if it lives on at rest, holds the honoured token. */
  ghost predicate KeepsTheRotation(w: World, clock: int, events: seq<Event>, id: SessionId) {
    var s := Run(w, clock, events);
    IsAlive(s, id) && s.rows[id].refreshToken.Some? && IsAtRest(s, id) ==>
      IsHonouredFor(s, s.rows[id].refreshToken.value, id)
  }

  /** Every row expires at its cap, as where the idle window is no shorter. */
  ghost predicate ExpiresAtTheCap(w: World, s: State) {
    forall id :: id in s.rows ==> s.rows[id].expiresAt == s.rows[id].createdAt + w.lifetime.cap
  }

  /** An admission then renews a row to the expiry it has. */
  lemma AdmissionChangesNoRow(w: World, s: State, event: Event)
    requires w.lifetime.idle == w.lifetime.cap && Inv(w, s) && ExpiresAtTheCap(w, s) && Allows(s, event) && event.Admit?
    ensures Happens(w, s, event) == s.(clock := event.now)
  {
    var rows := Happens(w, s, event).rows;
    if event.session in s.rows {
      assert RowIsSound(w, s, event.session);
      assert rows[event.session] == s.rows[event.session];
    }
    assert rows == s.rows;
  }

  lemma RowsStayAtTheCap(w: World, s: State, event: Event)
    requires w.lifetime.idle == w.lifetime.cap && Inv(w, s) && ExpiresAtTheCap(w, s) && Allows(s, event)
    ensures ExpiresAtTheCap(w, Happens(w, s, event))
  {
    if event.Admit? {
      AdmissionChangesNoRow(w, s, event);
    }
  }

  lemma {:induction false} RunAtTheCapOvertakesNothing(w: World, clock: int, events: seq<Event>)
    requires w.lifetime.idle == w.lifetime.cap
    ensures var s := Run(w, clock, events);
            ExpiresAtTheCap(w, s) && s.overtaken == {} && JudgesWhatItLoaded(s)
  {
    if events != [] {
      var s, event := Run(w, clock, events[..|events| - 1]), events[|events| - 1];
      RunAtTheCapOvertakesNothing(w, clock, events[..|events| - 1]);
      EveryRunKeepsInv(w, clock, events[..|events| - 1]);
      if Allows(s, event) {
        RowsStayAtTheCap(w, s, event);
        if event.Admit? {
          AdmissionChangesNoRow(w, s, event);
        } else {
          UnsplitEventOvertakesNothing(w, s, event);
        }
      }
    }
  }

  /**
   No run loses a rotation of a live session if and only if the configured idle window is as long as
   the cap, so that no admission ever renews a row.
   */
  lemma RotationIsAlwaysKeptExactly(w: World)
    ensures (forall clock, events, id :: KeepsTheRotation(w, clock, events, id)) <==> w.lifetime.idle == w.lifetime.cap
  {
    if w.lifetime.idle == w.lifetime.cap {
      forall clock, events, id ensures KeepsTheRotation(w, clock, events, id) {
        RunAtTheCapOvertakesNothing(w, clock, events);
        EveryRunKeepsInv(w, clock, events);
      }
    } else {
      var events, id := SplitTransactionLosesTheRotation(w);
      assert !KeepsTheRotation(w, 0, events, id);
    }
  }
}
