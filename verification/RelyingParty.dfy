/**
 What a refresh grant's answer yields (section 6 of RFC 6749): the new access token or the groups
 of the new ID token, and the refresh token the issuer rotated to.

 The POST, the JSON text and the ID token's verification are foreign: an answer is a status with
 the members of its document, and the verifier's verdict on the ID token comes with it.
 */
module RelyingParty {
  import opened Wrappers

  datatype Reason =
    | StateMismatch | PendingLoginExpired | IssuerMismatch | AuthorizationDenied | MalformedCallback
    | TokenRequestRefused | TokenEndpointFailed | IdTokenRejected | NonceMismatch
    | AuthorizedPartyMismatch | InvalidIdentityClaim | SubjectMismatch | StaleIdToken

  datatype OidcRefusal = OidcRefusal(reason: Reason, idpError: Option<string>)

  function Refused(reason: Reason): OidcRefusal { OidcRefusal(reason, None) }

  /** One member of a JSON object: absent, a string, or anything else. */
  datatype Member = Absent | Text(text: string) | NotText

  datatype TokenDocument = TokenDocument(
    error: Member, refreshToken: Member, tokenType: Member, accessToken: Member, idToken: Member)

  /** A document too large, not JSON or not an object is one whose members are all absent. */
  datatype TokenAnswer = NoAnswer | Answer(status: nat, document: TokenDocument)

  /** What the verifier read from an ID token that held; `groups` is `None` for a claim that is no
      list of strings, and an absent claim is the empty list. */
  datatype Claims = Claims(
    subject: Option<string>,
    hasNonce: bool,
    azp: Member,
    audiences: nat,
    issuedAt: int,
    groups: Option<seq<string>>)

  /** `None` is an ID token the verifier rejected. */
  type Verdict = Option<Claims>

  datatype ClientConfig = ClientConfig(clientId: string, leewaySeconds: nat)

  predicate IsPrintable(c: char) { ' ' <= c <= '~' }

  /** `1*VSCHAR`. */
  predicate IsRefreshToken(value: string) {
    value != "" && forall i :: 0 <= i < |value| ==> IsPrintable(value[i])
  }

  predicate IsErrorCodeCharacter(c: char) {
    'A' <= c <= 'Z' || 'a' <= c <= 'z' || '0' <= c <= '9' || c == '_' || c == '.' || c == '-'
  }

  function IdpErrorCode(error: string): Option<string> {
    if 1 <= |error| <= 64 && forall i :: 0 <= i < |error| ==> IsErrorCodeCharacter(error[i])
    then Some(error) else None
  }

  predicate IsTokenCharacter(c: char) {
    'A' <= c <= 'Z' || 'a' <= c <= 'z' || '0' <= c <= '9' || c in "-._~+/"
  }

  function Unpadded(value: string): string {
    if value != "" && value[|value| - 1] == '=' then Unpadded(value[..|value| - 1]) else value
  }

  /** One or more token characters, then only padding. */
  predicate IsBearerToken(value: string) {
    var token := Unpadded(value);
    token != "" && forall i :: 0 <= i < |token| ==> IsTokenCharacter(token[i])
  }

  function Lower(c: char): char { if 'A' <= c <= 'Z' then c - 'A' + 'a' else c }

  predicate IsBearer(tokenType: string) {
    |tokenType| == 6 && forall i :: 0 <= i < 6 ==> Lower(tokenType[i]) == "bearer"[i]
  }

  /** The document of an answer that is not a refusal. */
  function TokenAnswerDocument(answer: TokenAnswer): Result<TokenDocument, OidcRefusal> {
    match answer
    case NoAnswer => Failure(Refused(TokenEndpointFailed))
    case Answer(status, document) =>
      if status == 200 then Success(document)
      else if (status == 400 || status == 401) && document.error.Text? then
        Failure(OidcRefusal(TokenRequestRefused, IdpErrorCode(document.error.text)))
      else Failure(Refused(TokenEndpointFailed))
  }

  function IssuedRefreshToken(document: TokenDocument): Result<Option<string>, OidcRefusal> {
    if document.refreshToken.Absent? then Success(None)
    else if document.refreshToken.Text? && IsRefreshToken(document.refreshToken.text) then
      Success(Some(document.refreshToken.text))
    else Failure(Refused(TokenEndpointFailed))
  }

  function BearerAccessToken(document: TokenDocument): Result<string, OidcRefusal> {
    if document.tokenType.Text? && IsBearer(document.tokenType.text) &&
       document.accessToken.Text? && IsBearerToken(document.accessToken.text)
    then Success(document.accessToken.text)
    else Failure(Refused(TokenEndpointFailed))
  }

  /** The rotation, kept apart from what the grant was for. */
  datatype Granted<+T> = Granted(rotated: Option<string>, result: T)

  /** A refresh token outside `1*VSCHAR` reaches no request. */
  function RefreshAnswer(sent: string, answer: TokenAnswer): Result<TokenDocument, OidcRefusal> {
    if !IsRefreshToken(sent) then Failure(Refused(TokenEndpointFailed)) else TokenAnswerDocument(answer)
  }

  function RenewedAccess(sent: string, answer: TokenAnswer): Result<Granted<string>, OidcRefusal> {
    match RefreshAnswer(sent, answer)
    case Failure(refusal) => Failure(refusal)
    case Success(document) =>
      match BearerAccessToken(document)
      case Failure(refusal) => Failure(refusal)
      case Success(accessToken) =>
        match IssuedRefreshToken(document)
        case Failure(refusal) => Failure(refusal)
        case Success(rotated) => Success(Granted(rotated, accessToken))
  }

  predicate IsAuthorizedParty(config: ClientConfig, claims: Claims) {
    if claims.azp.Absent? then claims.audiences == 1 else claims.azp == Text(config.clientId)
  }

  function RefreshedIdTokenGroups(
      config: ClientConfig, document: TokenDocument, verdict: Verdict, subject: string, startedAt: int)
    : Result<seq<string>, OidcRefusal>
  {
    if !document.idToken.Text? then Failure(Refused(TokenEndpointFailed))
    else if verdict.None? then Failure(Refused(IdTokenRejected))
    else if verdict.value.hasNonce then Failure(Refused(NonceMismatch))
    else if !IsAuthorizedParty(config, verdict.value) then Failure(Refused(AuthorizedPartyMismatch))
    else if verdict.value.subject != Some(subject) then Failure(Refused(SubjectMismatch))
    else if verdict.value.issuedAt + config.leewaySeconds < startedAt then Failure(Refused(StaleIdToken))
    else if verdict.value.groups.None? then Failure(Refused(InvalidIdentityClaim))
    else Success(verdict.value.groups.value)
  }

  function RefreshedGroups(
      config: ClientConfig, sent: string, answer: TokenAnswer, verdict: Verdict, subject: string, startedAt: int)
    : Result<Granted<Result<seq<string>, OidcRefusal>>, OidcRefusal>
  {
    match RefreshAnswer(sent, answer)
    case Failure(refusal) => Failure(refusal)
    case Success(document) =>
      match IssuedRefreshToken(document)
      case Failure(refusal) => Failure(refusal)
      case Success(rotated) =>
        Success(Granted(rotated, RefreshedIdTokenGroups(config, document, verdict, subject, startedAt)))
  }

  /**
   The rotation does not hang on the ID token: whatever the verifier says of it, and whether there
   is one at all, the grant for groups keeps exactly the refresh token the answer carries. The
   grant for an access token loses it exactly when the access token is unusable.
   */
  lemma RotationSurvivesTheIdToken(
      config: ClientConfig, sent: string, answer: TokenAnswer, verdict: Verdict, subject: string, startedAt: int)
    requires RefreshAnswer(sent, answer).Success?
    requires IssuedRefreshToken(RefreshAnswer(sent, answer).value).Success?
    ensures var document := RefreshAnswer(sent, answer).value;
            var rotated := if document.refreshToken.Text? then Some(document.refreshToken.text) else None;
            var groups := RefreshedGroups(config, sent, answer, verdict, subject, startedAt);
            var access := RenewedAccess(sent, answer);
            && groups.Success? && groups.value.rotated == rotated
            && (access.Success? <==> BearerAccessToken(document).Success?)
            && (access.Success? ==> access.value.rotated == rotated)
  {
  }

  // ----- exactly what a grant yields, and each refusal under its own condition -----

  predicate IsTokenThenPadding(value: string, k: nat) {
    && 0 < k <= |value|
    && (forall i :: 0 <= i < k ==> IsTokenCharacter(value[i]))
    && (forall i :: k <= i < |value| ==> value[i] == '=')
  }

  /** The shape of a bearer token, section 2.1 of RFC 6750. */
  lemma {:induction false} BearerTokenExactly(value: string)
    ensures IsBearerToken(value) <==> exists k :: IsTokenThenPadding(value, k)
    ensures Unpadded(value) <= value && (Unpadded(value) != "" ==> Unpadded(value)[|Unpadded(value)| - 1] != '=')
    ensures forall i :: |Unpadded(value)| <= i < |value| ==> value[i] == '='
  {
    if value != "" && value[|value| - 1] == '=' {
      BearerTokenExactly(value[..|value| - 1]);
    }
    var token := Unpadded(value);
    if IsBearerToken(value) {
      assert IsTokenThenPadding(value, |token|);
    }
    forall k | IsTokenThenPadding(value, k) ensures IsBearerToken(value) {
      assert k == |token| by {
        assert IsTokenCharacter(value[k - 1]);
      }
    }
  }

  /** `bearer` in any case. */
  lemma BearerExactly(tokenType: string)
    ensures IsBearer(tokenType) <==>
            |tokenType| == 6 && forall i :: 0 <= i < 6 ==> tokenType[i] == "bearer"[i] || tokenType[i] == "BEARER"[i]
  {
  }

  /** The issuer's own refusal of a grant, with its error code where that is safe to show. */
  predicate IsRefusedGrant(sent: string, answer: TokenAnswer, idpError: Option<string>) {
    && IsRefreshToken(sent) && answer.Answer? && (answer.status == 400 || answer.status == 401)
    && answer.document.error.Text?
    && var error := answer.document.error.text;
       var isSafe := 1 <= |error| <= 64 && forall i :: 0 <= i < |error| ==> IsErrorCodeCharacter(error[i]);
       idpError == if isSafe then Some(error) else None
  }

  /** A usable answer: the new refresh token is absent or printable text. */
  predicate IsAnsweredGrant(sent: string, answer: TokenAnswer, rotated: Option<string>) {
    && IsRefreshToken(sent) && answer.Answer? && answer.status == 200
    && match rotated
       case None => answer.document.refreshToken.Absent?
       case Some(token) => answer.document.refreshToken == Text(token) && IsRefreshToken(token)
  }

  /** An access token is yielded exactly from a usable answer of the bearer type, and it is the answer's own. */
  lemma AccessExactly(sent: string, answer: TokenAnswer)
    ensures var access := RenewedAccess(sent, answer);
            && (forall rotated, token :: access == Success(Granted(rotated, token)) <==>
                  && IsAnsweredGrant(sent, answer, rotated)
                  && answer.document.tokenType.Text? && IsBearer(answer.document.tokenType.text)
                  && answer.document.accessToken == Text(token) && IsBearerToken(token))
            && (forall idpError :: access == Failure(OidcRefusal(TokenRequestRefused, idpError)) <==>
                  IsRefusedGrant(sent, answer, idpError))
            && (access.Failure? && access.error.reason != TokenRequestRefused ==> access.error == Refused(TokenEndpointFailed))
  {
  }

  /** The token's claims name this client as the party it was issued to, where it is for several at all. */
  predicate IsForThisClient(config: ClientConfig, claims: Claims) {
    claims.azp == Text(config.clientId) || (claims.azp == Absent && claims.audiences == 1)
  }

  /** The verified claims are the session's own, fresh, for this client and without a nonce. */
  predicate ClaimsHoldFor(config: ClientConfig, claims: Claims, subject: string, startedAt: int) {
    && !claims.hasNonce
    && IsForThisClient(config, claims)
    && claims.subject == Some(subject)
    && startedAt <= claims.issuedAt + config.leewaySeconds
  }

  /** Why a verified ID token yields no groups: the first of these that applies. */
  predicate AreRefusedAs(config: ClientConfig, claims: Claims, subject: string, startedAt: int, reason: Reason) {
    match reason
    case NonceMismatch => claims.hasNonce
    case AuthorizedPartyMismatch => !claims.hasNonce && !IsForThisClient(config, claims)
    case SubjectMismatch => !claims.hasNonce && IsForThisClient(config, claims) && claims.subject != Some(subject)
    case StaleIdToken =>
      && !claims.hasNonce && IsForThisClient(config, claims) && claims.subject == Some(subject)
      && claims.issuedAt + config.leewaySeconds < startedAt
    case InvalidIdentityClaim => ClaimsHoldFor(config, claims, subject, startedAt) && claims.groups.None?
    case _ => false
  }

  /** ... and an ID token that is missing or does not verify. */
  predicate IsRefusedAs(
      config: ClientConfig, idToken: Member, verdict: Verdict, subject: string, startedAt: int, reason: Reason) {
    if !idToken.Text? then reason == TokenEndpointFailed
    else if verdict.None? then reason == IdTokenRejected
    else AreRefusedAs(config, verdict.value, subject, startedAt, reason)
  }

  /** The ID token is a text that verifies as the session's own, and these are its groups. */
  predicate YieldsGroups(
      config: ClientConfig, idToken: Member, verdict: Verdict, subject: string, startedAt: int, groups: seq<string>) {
    idToken.Text? && verdict.Some? && ClaimsHoldFor(config, verdict.value, subject, startedAt) && verdict.value.groups == Some(groups)
  }

  lemma IdTokenExactly(
      config: ClientConfig, document: TokenDocument, verdict: Verdict, subject: string, startedAt: int)
    ensures var r := RefreshedIdTokenGroups(config, document, verdict, subject, startedAt);
            && (forall groups :: r == Success(groups) <==> YieldsGroups(config, document.idToken, verdict, subject, startedAt, groups))
            && (forall refusal :: r == Failure(refusal) <==>
                  && refusal.idpError == None
                  && IsRefusedAs(config, document.idToken, verdict, subject, startedAt, refusal.reason))
  {
  }

  /**
   Groups are yielded exactly from a usable answer whose ID token is a text that verifies as the
   session's own; they are the token's. Every refusal has its own condition, and a refusal of the ID
   token keeps the rotation.
   */
  lemma GroupsExactly(
      config: ClientConfig, sent: string, answer: TokenAnswer, verdict: Verdict, subject: string, startedAt: int)
    ensures var granted := RefreshedGroups(config, sent, answer, verdict, subject, startedAt);
            && (forall rotated :: granted.Success? && granted.value.rotated == rotated <==> IsAnsweredGrant(sent, answer, rotated))
            && (granted.Success? ==>
                  && (forall groups :: granted.value.result == Success(groups) <==>
                        YieldsGroups(config, answer.document.idToken, verdict, subject, startedAt, groups))
                  && (forall refusal :: granted.value.result == Failure(refusal) <==>
                        && refusal.idpError == None
                        && IsRefusedAs(config, answer.document.idToken, verdict, subject, startedAt, refusal.reason)))
            && (forall idpError :: granted == Failure(OidcRefusal(TokenRequestRefused, idpError)) <==>
                  IsRefusedGrant(sent, answer, idpError))
            && (granted.Failure? && granted.error.reason != TokenRequestRefused ==>
                  granted.error == Refused(TokenEndpointFailed))
  {
    if answer.Answer? {
      IdTokenExactly(config, answer.document, verdict, subject, startedAt);
    }
  }
}
