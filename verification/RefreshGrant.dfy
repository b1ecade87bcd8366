/**
 A call for a fresh access token or for the current groups: transaction, call to the issuer with
 nothing held open, transaction. Each store call and clock reading is a step of its own, so that
 anything may happen to the session in between.
 */
module RefreshGrant {
  import opened Wrappers
  import opened SessionLifetime
  import opened SessionStore
  import opened RelyingParty

  datatype Purpose = ForAccessToken | ForGroups

  datatype Yield = AccessToken(token: string) | GroupPaths(groups: seq<string>)

  datatype Outcome =
    | HandedOut(result: Yield)
    | SessionEnded
    | SignInAgain
    | IssuerUnavailable(refusal: OidcRefusal)

  const INVALID_GRANT := "invalid_grant"

  function RefusalOfGrant(refusal: OidcRefusal): Outcome {
    if refusal.reason == TokenRequestRefused && refusal.idpError == Some(INVALID_GRANT) then SignInAgain
    else IssuerUnavailable(refusal)
  }

  /** What the grant itself was for, kept until the session is known to stand. */
  type Held = Result<Yield, OidcRefusal>

  function OutcomeOf(held: Held): Outcome {
    match held
    case Success(result) => HandedOut(result)
    case Failure(refusal) => RefusalOfGrant(refusal)
  }

  /** What the issuer's answer makes of the grant: its rotation and what it yields, or a refusal. */
  function GrantOf(config: ClientConfig, purpose: Purpose, sent: Token, subject: UserId, input: Input)
    : Result<Granted<Held>, OidcRefusal>
  {
    match purpose
    case ForAccessToken =>
      (match RenewedAccess(sent, input.answer)
       case Failure(refusal) => Failure(refusal)
       case Success(granted) => Success(Granted(granted.rotated, Success(AccessToken(granted.result)))))
    case ForGroups =>
      match RefreshedGroups(config, sent, input.answer, input.verdict, subject, input.now)
      case Failure(refusal) => Failure(refusal)
      case Success(granted) =>
        var held := match granted.result
                    case Success(groups) => Success(GroupPaths(groups))
                    case Failure(refusal) => Failure(refusal);
        Success(Granted(granted.rotated, held))
  }

  /** The store write a rotation asks for: none when the issuer echoed or omitted the token. */
  function Replacement(sent: Token, rotated: Option<Token>): Option<Token> {
    if rotated.Some? && rotated.value != sent then rotated else None
  }

  /** The next step of a call. */
  datatype Pc =
    | Load
    | Judge(record: Option<Row>)
    | Ask(sent: Token, subject: UserId)
    | Reload(sent: Token, rotated: Option<Token>, held: Held)
    | Rejudge(sent: Token, rotated: Option<Token>, held: Held, record: Option<Row>)
    | Replace(replacement: Token, held: Held, standing: Standing)
    | Done(outcome: Outcome, evidence: Option<Evidence>)

  /** The row loaded after the grant, and the clock reading that judged it. */
  datatype Standing = Standing(row: Row, now: int)

  /** History kept with an answer given after the grant: what stood, and what the replace call said. */
  datatype Evidence = Evidence(standing: Standing, stored: Option<bool>)

  datatype Grant = Grant(session: SessionId, purpose: Purpose, pc: Pc)

  /** The clock reading, the issuer's answer and the ID token's verdict, for the step that needs them. */
  datatype Input = Input(now: int, answer: TokenAnswer, verdict: Verdict)

  function Step(config: ClientConfig, lifetime: Lifetime, rows: Rows, grant: Grant, input: Input): (Rows, Pc) {
    var id := grant.session;
    match grant.pc
    case Load => (rows, Judge(Loaded(rows, id)))
    case Judge(record) =>
      (rows,
       if record.None? || !Admits(lifetime, record.value, input.now) then Done(SessionEnded, None)
       else if record.value.refreshToken.None? then Done(SignInAgain, None)
       else Ask(record.value.refreshToken.value, record.value.user))
    case Ask(sent, subject) =>
      (rows,
       match GrantOf(config, grant.purpose, sent, subject, input)
       case Failure(refusal) => Done(RefusalOfGrant(refusal), None)
       case Success(granted) => Reload(sent, granted.rotated, granted.result))
    case Reload(sent, rotated, held) => (rows, Rejudge(sent, rotated, held, Loaded(rows, id)))
    case Rejudge(sent, rotated, held, record) =>
      (rows,
       if record.None? || !Admits(lifetime, record.value, input.now) then Done(SessionEnded, None)
       else
         var standing := Standing(record.value, input.now);
         match Replacement(sent, rotated)
         case None => Done(OutcomeOf(held), Some(Evidence(standing, None)))
         case Some(token) => Replace(token, held, standing))
    case Replace(token, held, standing) =>
      (Rotated(rows, id, token),
       if id in rows then Done(OutcomeOf(held), Some(Evidence(standing, Some(true))))
       else Done(SessionEnded, Some(Evidence(standing, Some(false)))))
    case Done(_, _) => (rows, grant.pc)
  }

  // ----- the two transactions, each undisturbed -----

  /** What a standing session sends to the issuer, and for whom. */
  datatype StandingEvidence = StandingEvidence(refreshToken: Token, subject: UserId)

  method EvidenceOfStandingSession(store: SessionStore, lifetime: Lifetime, id: SessionId, now: int)
    returns (r: Result<StandingEvidence, Outcome>)
    ensures r == Failure(SessionEnded) <==> !(id in store.rows && Admits(lifetime, store.rows[id], now))
    ensures r.Failure? && r.error != SessionEnded ==> r.error == SignInAgain && store.rows[id].refreshToken.None?
    ensures r.Success? ==> store.rows[id].refreshToken == Some(r.value.refreshToken) && store.rows[id].user == r.value.subject
  {
    var record := store.Load(id);
    if record.None? || !Admits(lifetime, record.value, now) {
      return Failure(SessionEnded);
    }
    if record.value.refreshToken.None? {
      return Failure(SignInAgain);
    }
    return Success(StandingEvidence(record.value.refreshToken.value, record.value.user));
  }

  /** The second transaction keeps a rotation exactly when the session stands and the token is new. */
  method KeptAfterGrant(
      store: SessionStore, lifetime: Lifetime, id: SessionId, now: int, sent: Token, rotated: Option<Token>)
    returns (stands: bool)
    requires store.Valid()
    modifies store`rows
    ensures store.Valid()
    ensures stands <==> id in old(store.rows) && Admits(lifetime, old(store.rows)[id], now)
    ensures store.rows ==
            if stands && Replacement(sent, rotated).Some? then Rotated(old(store.rows), id, rotated.value)
            else old(store.rows)
  {
    var record := store.Load(id);
    stands := record.Some? && Admits(lifetime, record.value, now);
    if stands && rotated.Some? && rotated.value != sent {
      stands := store.ReplaceRefreshToken(id, rotated.value);
    }
  }

  // ----- a whole call, undisturbed -----

  /** The store and the outcome after the steps of one call with nothing in between. */
  function Undisturbed(
      config: ClientConfig, lifetime: Lifetime, rows: Rows, id: SessionId, purpose: Purpose,
      first: Input, asked: Input, second: Input): (Rows, Pc)
  {
    var judge := Step(config, lifetime, rows, Grant(id, purpose, Load), first).1;
    var ask := Step(config, lifetime, rows, Grant(id, purpose, judge), first).1;
    var reload := Step(config, lifetime, rows, Grant(id, purpose, ask), asked).1;
    var rejudge := Step(config, lifetime, rows, Grant(id, purpose, reload), second).1;
    var replace := Step(config, lifetime, rows, Grant(id, purpose, rejudge), second).1;
    Step(config, lifetime, rows, Grant(id, purpose, replace), second)
  }

  /** The session's row is there, and inside its lifetime. */
  predicate Stands(lifetime: Lifetime, rows: Rows, id: SessionId, now: int) {
    id in rows && Admits(lifetime, rows[id], now)
  }

  /** The session stands when the call begins, and holds a refresh token to send. */
  predicate Asks(lifetime: Lifetime, rows: Rows, id: SessionId, first: Input) {
    Stands(lifetime, rows, id, first.now) && rows[id].refreshToken.Some?
  }

  /** `fresh_access_token`: the two transactions around the grant. */
  method FreshAccessToken(
      store: SessionStore, config: ClientConfig, lifetime: Lifetime, id: SessionId, first: Input, asked: Input, second: Input)
    returns (outcome: Outcome)
    requires store.Valid()
    modifies store`rows
    ensures store.Valid()
    ensures var (rows, pc) := Undisturbed(config, lifetime, old(store.rows), id, ForAccessToken, first, asked, second);
            pc.Done? && store.rows == rows && outcome == pc.outcome
  {
    var held := EvidenceOfStandingSession(store, lifetime, id, first.now);
    if held.Failure? {
      return held.error;
    }
    var sent := held.value.refreshToken;
    var renewed := RenewedAccess(sent, asked.answer);
    if renewed.Failure? {
      return RefusalOfGrant(renewed.error);
    }
    var stands := KeptAfterGrant(store, lifetime, id, second.now, sent, renewed.value.rotated);
    return if stands then HandedOut(AccessToken(renewed.value.result)) else SessionEnded;
  }

  /** `current_groups`: the same around a grant whose new ID token may be refused once the rotation is stored. */
  method CurrentGroups(
      store: SessionStore, config: ClientConfig, lifetime: Lifetime, id: SessionId, first: Input, asked: Input, second: Input)
    returns (outcome: Outcome)
    requires store.Valid()
    modifies store`rows
    ensures store.Valid()
    ensures var (rows, pc) := Undisturbed(config, lifetime, old(store.rows), id, ForGroups, first, asked, second);
            pc.Done? && store.rows == rows && outcome == pc.outcome
  {
    var held := EvidenceOfStandingSession(store, lifetime, id, first.now);
    if held.Failure? {
      return held.error;
    }
    var sent := held.value.refreshToken;
    var refreshed := RefreshedGroups(config, sent, asked.answer, asked.verdict, held.value.subject, asked.now);
    if refreshed.Failure? {
      return RefusalOfGrant(refreshed.error);
    }
    var stands := KeptAfterGrant(store, lifetime, id, second.now, sent, refreshed.value.rotated);
    if !stands {
      return SessionEnded;
    }
    match refreshed.value.result {
      case Failure(refusal) => return RefusalOfGrant(refusal);
      case Success(groups) => return HandedOut(GroupPaths(groups));
    }
  }

  /** A usable answer that gives an access token, and the rotation that comes with it. */
  predicate YieldsAccess(sent: Token, answer: TokenAnswer, rotated: Option<Token>, token: string) {
    && IsAnsweredGrant(sent, answer, rotated)
    && answer.document.tokenType.Text? && IsBearer(answer.document.tokenType.text)
    && answer.document.accessToken == Text(token) && IsBearerToken(token)
  }

  /** The rows with the rotation stored, if it is one. */
  predicate HoldsTheRotation(before: Rows, after: Rows, id: SessionId, sent: Token, rotated: Option<Token>)
    requires id in before
  {
    && after.Keys == before.Keys
    && (forall other :: other in before && other != id ==> after[other] == before[other])
    && after[id] == before[id].(refreshToken := if rotated.Some? then rotated else Some(sent))
  }

  /** The frame of a call that asks: a refused grant ends it, a usable one is kept where the row still stands. */
  lemma UndisturbedGrant(
      config: ClientConfig, lifetime: Lifetime, rows: Rows, id: SessionId, purpose: Purpose,
      first: Input, asked: Input, second: Input)
    ensures var (after, pc) := Undisturbed(config, lifetime, rows, id, purpose, first, asked, second);
            && pc.Done?
            && (!Stands(lifetime, rows, id, first.now) ==> pc.outcome == SessionEnded && after == rows)
            && (Stands(lifetime, rows, id, first.now) && rows[id].refreshToken.None? ==> pc.outcome == SignInAgain && after == rows)
            && (Asks(lifetime, rows, id, first) ==>
                  var sent := rows[id].refreshToken.value;
                  match GrantOf(config, purpose, sent, rows[id].user, asked)
                  case Failure(refusal) => pc.outcome == RefusalOfGrant(refusal) && after == rows
                  case Success(granted) =>
                    if Stands(lifetime, rows, id, second.now)
                    then pc.outcome == OutcomeOf(granted.result) && HoldsTheRotation(rows, after, id, sent, granted.rotated)
                    else pc.outcome == SessionEnded && after == rows)
  {
  }

  /** Only the issuer's `invalid_grant` sends the person to sign in again. */
  lemma RefusalExactly(sent: Token, answer: TokenAnswer, refusal: OidcRefusal)
    requires refusal.reason == TokenRequestRefused ==> IsRefusedGrant(sent, answer, refusal.idpError)
    requires forall idpError :: IsRefusedGrant(sent, answer, idpError) ==> refusal == OidcRefusal(TokenRequestRefused, idpError)
    ensures RefusalOfGrant(refusal)
         == if IsRefusedGrant(sent, answer, Some("invalid_grant")) then SignInAgain else IssuerUnavailable(refusal)
  {
  }

  /**
   Exactly what an undisturbed call for an access token answers and stores: the session ended, sign in
   again, the issuer unavailable, or the token of the answer; and no row but the session's own changes,
   in nothing but a refresh token that the answer carried.
   */
  lemma FreshAccessTokenExactly(
      config: ClientConfig, lifetime: Lifetime, rows: Rows, id: SessionId, first: Input, asked: Input, second: Input)
    requires Asks(lifetime, rows, id, first)
    ensures var (after, pc) := Undisturbed(config, lifetime, rows, id, ForAccessToken, first, asked, second);
            var sent, answer := rows[id].refreshToken.value, asked.answer;
            && pc.Done?
            && (IsRefusedGrant(sent, answer, Some("invalid_grant")) ==> pc.outcome == SignInAgain && after == rows)
            && (forall rotated, token :: YieldsAccess(sent, answer, rotated, token) ==>
                  if Stands(lifetime, rows, id, second.now)
                  then pc.outcome == HandedOut(AccessToken(token)) && HoldsTheRotation(rows, after, id, sent, rotated)
                  else pc.outcome == SessionEnded && after == rows)
            && (!IsRefusedGrant(sent, answer, Some("invalid_grant"))
                && !(exists rotated, token :: YieldsAccess(sent, answer, rotated, token)) ==>
                  pc.outcome.IssuerUnavailable? && after == rows)
  {
    var sent := rows[id].refreshToken.value;
    UndisturbedGrant(config, lifetime, rows, id, ForAccessToken, first, asked, second);
    AccessExactly(sent, asked.answer);
    match RenewedAccess(sent, asked.answer) {
      case Failure(refusal) => RefusalExactly(sent, asked.answer, refusal);
      case Success(granted) => assert YieldsAccess(sent, asked.answer, granted.rotated, granted.result);
    }
  }

  /**
   Exactly what an undisturbed call for the groups answers and stores: a usable answer's rotation is
   stored where the session still stands, whatever becomes of its ID token, whose groups are handed out
   only if it verifies as the session's own.
   */
  lemma CurrentGroupsExactly(
      config: ClientConfig, lifetime: Lifetime, rows: Rows, id: SessionId, first: Input, asked: Input, second: Input)
    requires Asks(lifetime, rows, id, first)
    ensures var (after, pc) := Undisturbed(config, lifetime, rows, id, ForGroups, first, asked, second);
            var sent, answer := rows[id].refreshToken.value, asked.answer;
            && pc.Done?
            && (IsRefusedGrant(sent, answer, Some("invalid_grant")) ==> pc.outcome == SignInAgain && after == rows)
            && (forall rotated :: IsAnsweredGrant(sent, answer, rotated) ==>
                  if Stands(lifetime, rows, id, second.now)
                  then HoldsTheRotation(rows, after, id, sent, rotated)
                    && (forall groups :: pc.outcome == HandedOut(GroupPaths(groups)) <==>
                          YieldsGroups(config, answer.document.idToken, asked.verdict, rows[id].user, asked.now, groups))
                    && (forall reason :: pc.outcome == IssuerUnavailable(Refused(reason)) <==>
                          IsRefusedAs(config, answer.document.idToken, asked.verdict, rows[id].user, asked.now, reason))
                  else pc.outcome == SessionEnded && after == rows)
            && (!IsRefusedGrant(sent, answer, Some("invalid_grant"))
                && !(exists rotated :: IsAnsweredGrant(sent, answer, rotated)) ==>
                  pc.outcome.IssuerUnavailable? && after == rows)
  {
    var sent := rows[id].refreshToken.value;
    UndisturbedGrant(config, lifetime, rows, id, ForGroups, first, asked, second);
    GroupsExactly(config, sent, asked.answer, asked.verdict, rows[id].user, asked.now);
    match RefreshedGroups(config, sent, asked.answer, asked.verdict, rows[id].user, asked.now) {
      case Failure(refusal) => RefusalExactly(sent, asked.answer, refusal);
      case Success(granted) => assert IsAnsweredGrant(sent, asked.answer, granted.rotated);
    }
  }
}
