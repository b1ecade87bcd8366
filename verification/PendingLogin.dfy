/**
 The pending-login cookie: a versioned, dotted, bounded and signed value, and the session cookie
 whose signature must not pass for it.

 The signature is an arbitrary function of the prefixed text under the host's one key, of 64
 lower-case hexadecimal characters; that one kind of cookie passes for the other is reduced to a
 collision of that function on two differing texts. A return path is its UTF-8 bytes.
 */
module PendingLogin {
  import opened Wrappers
  import opened Base64Url
  import opened Text

  datatype PendingLogin = PendingLogin(
    state: string, nonce: string, codeVerifier: string, issuedAt: int, returnTo: Option<seq<Byte>>)

  const MAX_PENDING_LOGIN_COOKIE_CHARS := 896
  const MAX_SESSION_COOKIE_CHARS := 200
  const MAX_RETURN_PATH_BYTES := 512
  const PENDING_SECRET_CHARS := (4 * 32 + 2) / 3
  const RETURN_PATH_FIELD_CHARS := (4 * MAX_RETURN_PATH_BYTES + 2) / 3
  const SIGNATURE_CHARS := 64
  const VERSION := "v2"
  const PENDING_LOGIN_PREFIX := "oidc-pending:"
  const SESSION_PREFIX := "session:"

  // ----- signatures -----

  type Mac = string -> string

  predicate IsHexDigit(c: char) { '0' <= c <= '9' || 'a' <= c <= 'f' }

  predicate IsSignature(s: string) {
    |s| == SIGNATURE_CHARS && forall i :: 0 <= i < |s| ==> IsHexDigit(s[i])
  }

  ghost predicate IsMac(mac: Mac) {
    forall message :: IsSignature(mac(message))
  }

  // ----- whole numbers in decimal -----

  predicate IsDigit(c: char) { '0' <= c <= '9' }

  function Digit(n: int): char
    requires 0 <= n < 10
  {
    '0' + n as char
  }

  function DigitValue(c: char): nat
    requires IsDigit(c)
  {
    c as int - '0' as int
  }

  function NatText(n: nat): (s: string)
    ensures s != "" && forall i :: 0 <= i < |s| ==> IsDigit(s[i])
  {
    if n < 10 then [Digit(n)] else NatText(n / 10) + [Digit(n % 10)]
  }

  /** `str(n)`. */
  function IntText(n: int): string {
    if n >= 0 then NatText(n) else "-" + NatText(-n)
  }

  /** `int(s)` on digits. */
  function NatOf(s: string): nat
    requires forall i :: 0 <= i < |s| ==> IsDigit(s[i])
  {
    if s == "" then 0 else NatOf(s[..|s| - 1]) * 10 + DigitValue(s[|s| - 1])
  }

  function TenTo(k: nat): nat {
    if k == 0 then 1 else 10 * TenTo(k - 1)
  }

  /** `0|[1-9][0-9]{0,11}`. */
  predicate IsInstantField(s: string) {
    && 1 <= |s| <= 12
    && (forall i :: 0 <= i < |s| ==> IsDigit(s[i]))
    && (s[0] == '0' ==> s == "0")
  }

  lemma {:induction false} NatTextReadsBack(n: nat)
    ensures NatOf(NatText(n)) == n
    ensures NatText(n)[0] == '0' ==> NatText(n) == "0"
  {
    if n >= 10 {
      NatTextReadsBack(n / 10);
      assert NatText(n)[..|NatText(n)| - 1] == NatText(n / 10);
    }
  }

  lemma {:induction false} NatTextLength(n: nat, k: nat)
    requires k > 0
    ensures |NatText(n)| <= k <==> n < TenTo(k)
  {
    if n < 10 {
      TenToGrows(k);
    } else if k > 1 {
      NatTextLength(n / 10, k - 1);
    }
  }

  lemma {:induction false} TenToGrows(k: nat)
    requires k > 0
    ensures TenTo(k) >= 10
  {
    if k > 1 {
      TenToGrows(k - 1);
    }
  }

  lemma {:induction false} NatOfWritesBack(s: string)
    requires s != "" && (forall i :: 0 <= i < |s| ==> IsDigit(s[i])) && (s[0] == '0' ==> s == "0")
    ensures NatText(NatOf(s)) == s
    ensures s != "0" ==> NatOf(s) > 0
  {
    var before, last := s[..|s| - 1], DigitValue(s[|s| - 1]);
    assert s == before + [Digit(last)];
    if |s| > 1 {
      assert before[0] == s[0];
      NatOfWritesBack(before);
      var tens := NatOf(before);
      assert tens > 0 && (tens * 10 + last) / 10 == tens && (tens * 10 + last) % 10 == last;
    }
  }

  const INSTANT_BOUND := 1_000_000_000_000

  lemma InstantFieldExactly(n: int)
    ensures IsInstantField(IntText(n)) <==> 0 <= n < INSTANT_BOUND
    ensures 0 <= n ==> '.' !in IntText(n)
  {
    assert TenTo(12) == INSTANT_BOUND;
    if n >= 0 {
      NatTextLength(n, 12);
      NatTextReadsBack(n);
    } else {
      assert IntText(n)[0] == '-';
    }
  }

  // ----- the payload -----

  predicate IsSecretField(s: string) {
    |s| == PENDING_SECRET_CHARS && IsSpelling(s)
  }

  predicate IsReturnField(s: string) {
    |s| <= RETURN_PATH_FIELD_CHARS && IsSpelling(s)
  }

  function EncodedReturnTo(returnTo: Option<seq<Byte>>): string {
    match returnTo
    case None => ""
    case Some(path) => Encode(path)
  }

  function FieldsOf(p: PendingLogin): seq<string> {
    [VERSION, p.state, p.nonce, p.codeVerifier, IntText(p.issuedAt), EncodedReturnTo(p.returnTo)]
  }

  predicate AreWellFormed(fields: seq<string>) {
    && |fields| == 6
    && fields[0] == VERSION
    && IsSecretField(fields[1]) && IsSecretField(fields[2]) && IsSecretField(fields[3])
    && IsInstantField(fields[4])
    && IsReturnField(fields[5])
  }

  /** The full match of the payload's shape: no field can hold a dot, so its fields are its parts. */
  predicate IsPayload(payload: string) {
    AreWellFormed(Split(payload, '.'))
  }

  function Payload(p: PendingLogin): string {
    Join(FieldsOf(p), '.')
  }

  /** The signed cookie value, or `None` where signing raises. */
  function Sign(mac: Mac, p: PendingLogin): Option<string> {
    var payload := Payload(p);
    if !IsPayload(payload) then None else Some(payload + "." + mac(PENDING_LOGIN_PREFIX + payload))
  }

  datatype Verification = Verified(login: PendingLogin) | NotVerified | Raised

  function LastDot(s: string): (i: int)
    ensures -1 <= i < |s|
    ensures i >= 0 ==> s[i] == '.' && '.' !in s[i + 1..]
    ensures i < 0 ==> '.' !in s
  {
    if s == "" then -1
    else if s[|s| - 1] == '.' then |s| - 1
    else
      var i := LastDot(s[..|s| - 1]);
      assert i >= 0 ==> s[i + 1..] == s[..|s| - 1][i + 1..] + [s[|s| - 1]];
      assert s == s[..|s| - 1] + [s[|s| - 1]];
      i
  }

  /** What a payload's fields say; decoding a return path of an impossible length raises. */
  function LoginOf(fields: seq<string>): Verification
    requires AreWellFormed(fields)
  {
    var login := PendingLogin(fields[1], fields[2], fields[3], NatOf(fields[4]), None);
    if fields[5] == "" then Verified(login)
    else
      match Decode(fields[5])
      case None => Raised
      case Some(path) => Verified(login.(returnTo := Some(path)))
  }

  function Verify(mac: Mac, cookie: string): Verification {
    if |cookie| > MAX_PENDING_LOGIN_COOKIE_CHARS then NotVerified
    else
      var i := LastDot(cookie);
      if i < 0 then NotVerified
      else
        var payload, signature := cookie[..i], cookie[i + 1..];
        if !IsPayload(payload) || !IsSignature(signature) then NotVerified
        else if signature != mac(PENDING_LOGIN_PREFIX + payload) then NotVerified
        else LoginOf(Split(payload, '.'))
  }

  // ----- the session cookie -----

  function SignSessionId(mac: Mac, id: string): Option<string> {
    var signed := id + "." + mac(SESSION_PREFIX + id);
    if id == "" || |signed| > MAX_SESSION_COOKIE_CHARS then None else Some(signed)
  }

  function VerifySessionCookie(mac: Mac, cookie: string): Option<string> {
    var i := LastDot(cookie);
    if i < 0 then None
    else
      var id, signature := cookie[..i], cookie[i + 1..];
      if id == "" || signature == "" || signature != mac(SESSION_PREFIX + id) then None else Some(id)
  }

  // ----- the codec -----

  lemma SpellingHasNoDot(s: string)
    requires IsSpelling(s)
    ensures '.' !in s
  {
    forall i | 0 <= i < |s| ensures s[i] != '.' {
      assert IsSymbol(s[i]);
    }
  }

  lemma WellFormedFieldsHaveNoDot(fields: seq<string>)
    requires AreWellFormed(fields)
    ensures forall field :: field in fields ==> '.' !in field
  {
    SpellingHasNoDot(fields[1]);
    SpellingHasNoDot(fields[2]);
    SpellingHasNoDot(fields[3]);
    SpellingHasNoDot(fields[5]);
    assert fields == [fields[0], fields[1], fields[2], fields[3], fields[4], fields[5]];
  }

  /** Joining adds one dot per seam to those of the parts. */
  lemma {:induction false} JoinedPartCount(parts: seq<string>)
    requires |parts| > 0
    ensures |Split(Join(parts, '.'), '.')| >= |parts|
    ensures |Split(Join(parts, '.'), '.')| == |parts| ==> Split(Join(parts, '.'), '.') == parts
  {
    if |parts| > 1 {
      JoinedPartCount(parts[1..]);
      SplitAcross(parts[0], Join(parts[1..], '.'), '.');
      var head, tail := Split(parts[0], '.'), Split(Join(parts[1..], '.'), '.');
      if |head + tail| == |parts| {
        JoinUndoesSplit(parts[0], '.');
        assert head == [parts[0]];
      }
    } else if |Split(parts[0], '.')| == 1 {
      JoinUndoesSplit(parts[0], '.');
    }
  }

  /** The payload matches exactly when its six fields do. */
  lemma PayloadExactly(p: PendingLogin)
    ensures IsPayload(Payload(p)) <==> AreWellFormed(FieldsOf(p))
    ensures IsPayload(Payload(p)) ==> Split(Payload(p), '.') == FieldsOf(p)
  {
    if AreWellFormed(FieldsOf(p)) {
      WellFormedFieldsHaveNoDot(FieldsOf(p));
      SplitUndoesJoin(FieldsOf(p), '.');
    }
    JoinedPartCount(FieldsOf(p));
  }

  /** The signed value, letter by letter: the version, the login's five fields and the signature of all before it, dotted. */
  lemma SignedText(mac: Mac, p: PendingLogin)
    requires Sign(mac, p).Some?
    ensures var payload := "v2" + "." + p.state + "." + p.nonce + "." + p.codeVerifier + "." + IntText(p.issuedAt) + "."
                           + (if p.returnTo.Some? then Encode(p.returnTo.value) else "");
            Sign(mac, p).value == payload + "." + mac("oidc-pending:" + payload)
  {
    JoinedSix("v2", p.state, p.nonce, p.codeVerifier, IntText(p.issuedAt), EncodedReturnTo(p.returnTo));
  }

  lemma JoinedSix(a: string, b: string, c: string, d: string, e: string, f: string)
    ensures Join([a, b, c, d, e, f], '.') == a + "." + b + "." + c + "." + d + "." + e + "." + f
  {
    assert [a, b, c, d, e, f][1..] == [b, c, d, e, f] && [b, c, d, e, f][1..] == [c, d, e, f];
    assert [c, d, e, f][1..] == [d, e, f] && [d, e, f][1..] == [e, f] && [e, f][1..] == [f];
    assert Join([e, f], '.') == e + "." + f;
    assert Join([d, e, f], '.') == d + "." + (e + "." + f);
    assert Join([c, d, e, f], '.') == c + "." + (d + "." + (e + "." + f));
    assert Join([b, c, d, e, f], '.') == b + "." + (c + "." + (d + "." + (e + "." + f)));
    assert Join([a, b, c, d, e, f], '.') == a + "." + (b + "." + (c + "." + (d + "." + (e + "." + f))));
  }

  predicate IsMintable(p: PendingLogin) {
    && IsSecretField(p.state) && IsSecretField(p.nonce) && IsSecretField(p.codeVerifier)
    && 0 <= p.issuedAt < 1_000_000_000_000
    && (p.returnTo.Some? ==> |p.returnTo.value| <= 512)
  }

  /**
   Signing succeeds exactly for three 43-character base64url secrets, an instant from 0 below
   10^12, and a return path of at most 512 bytes.
   */
  lemma SigningSucceedsExactly(mac: Mac, p: PendingLogin)
    ensures Sign(mac, p).Some? <==> IsMintable(p)
  {
    PayloadExactly(p);
    InstantFieldExactly(p.issuedAt);
  }

  lemma PayloadLength(p: PendingLogin)
    requires IsMintable(p)
    ensures |Payload(p)| == 136 + |IntText(p.issuedAt)| + |EncodedReturnTo(p.returnTo)|
    ensures |Payload(p)| <= 831
  {
    InstantFieldExactly(p.issuedAt);
    var fields := FieldsOf(p);
    assert Join(fields[5..], '.') == fields[5];
    assert fields[4..][1..] == fields[5..] && fields[3..][1..] == fields[4..] && fields[2..][1..] == fields[3..]
        && fields[1..][1..] == fields[2..];
    assert |Join(fields[4..], '.')| == |fields[4]| + 1 + |fields[5]|;
    assert |Join(fields[3..], '.')| == |fields[3]| + 1 + |Join(fields[4..], '.')|;
    assert |Join(fields[2..], '.')| == |fields[2]| + 1 + |Join(fields[3..], '.')|;
    assert |Join(fields[1..], '.')| == |fields[1]| + 1 + |Join(fields[2..], '.')|;
  }

  lemma {:induction false} LastDotBefore(payload: string, signature: string)
    requires '.' !in signature
    ensures LastDot(payload + "." + signature) == |payload|
  {
    var s := payload + "." + signature;
    if signature != "" {
      LastDotBefore(payload, signature[..|signature| - 1]);
      assert s[..|s| - 1] == payload + "." + signature[..|signature| - 1];
    }
  }

  lemma SignatureHasNoDot(signature: string)
    requires IsSignature(signature)
    ensures '.' !in signature
  {
    forall i | 0 <= i < |signature| ensures signature[i] != '.' {
      assert IsHexDigit(signature[i]);
    }
  }

  /** The login a browser brings back: the empty return path is no return path. */
  function Carried(p: PendingLogin): PendingLogin {
    if p.returnTo == Some([]) then p.(returnTo := None) else p
  }

  /** Every signed value fits 896 characters, and verifying it gives the pending login back. */
  lemma VerifyUndoesSign(mac: Mac, p: PendingLogin)
    requires IsMac(mac) && Sign(mac, p).Some?
    ensures |Sign(mac, p).value| <= 896
    ensures Verify(mac, Sign(mac, p).value) == Verified(Carried(p))
    ensures Verify(mac, Sign(mac, p).value) == Verified(p) <==> p.returnTo != Some([])
  {
    var payload := Payload(p);
    var signature := mac(PENDING_LOGIN_PREFIX + payload);
    var cookie := payload + "." + signature;
    assert IsSignature(signature);
    SigningSucceedsExactly(mac, p);
    PayloadLength(p);
    PayloadExactly(p);
    SignatureHasNoDot(signature);
    LastDotBefore(payload, signature);
    assert cookie[..|payload|] == payload && cookie[|payload| + 1..] == signature;
    NatTextReadsBack(p.issuedAt);
    if p.returnTo.Some? {
      DecodeUndoesEncode(p.returnTo.value);
    }
    assert LoginOf(FieldsOf(p)) == Verified(Carried(p));
  }

  /** The return path's spelling in a value is the one spelling of its bytes. */
  predicate IsCanonical(cookie: string) {
    var i := LastDot(cookie);
    i >= 0 && IsPayload(cookie[..i]) &&
    var field := Split(cookie[..i], '.')[5];
    Decode(field).Some? && Encode(Decode(field).value) == field
  }

  /**
   Nothing else verifies: an accepted value is what signing some login produces exactly when its
   return path is canonically spelled, and then it is what signing the login it carries produces. Any
   other accepted value, which only the key's holder can have made, differs from that in the spelling
   of its return path.
   */
  lemma OnlySignedValuesVerify(mac: Mac, cookie: string)
    requires Verify(mac, cookie).Verified?
    ensures IsCanonical(cookie) <==> exists login :: Sign(mac, login) == Some(cookie)
    ensures IsCanonical(cookie) ==>
              && Sign(mac, Verify(mac, cookie).login) == Some(cookie)
              && IsMintable(Verify(mac, cookie).login)
              && Verify(mac, cookie).login.returnTo != Some([])
    ensures !IsCanonical(cookie) ==>
              && Verify(mac, cookie).login.returnTo.Some?
              && EncodedReturnTo(Verify(mac, cookie).login.returnTo) != Split(cookie[..LastDot(cookie)], '.')[5]
  {
    var i := LastDot(cookie);
    var payload, login := cookie[..i], Verify(mac, cookie).login;
    if IsCanonical(cookie) {
      CanonicalIsSigned(mac, cookie);
    } else if exists signed :: Sign(mac, signed) == Some(cookie) {
      var signed :| Sign(mac, signed) == Some(cookie);
      SignedIsCanonical(mac, signed, cookie);
    }
  }

  lemma CanonicalIsSigned(mac: Mac, cookie: string)
    requires Verify(mac, cookie).Verified? && IsCanonical(cookie)
    ensures Sign(mac, Verify(mac, cookie).login) == Some(cookie)
    ensures IsMintable(Verify(mac, cookie).login)
    ensures Verify(mac, cookie).login.returnTo != Some([])
  {
    var i := LastDot(cookie);
    var payload, login := cookie[..i], Verify(mac, cookie).login;
    var fields := Split(payload, '.');
    NatOfWritesBack(fields[4]);
    assert EncodedReturnTo(login.returnTo) == fields[5];
    assert FieldsOf(login) == fields;
    JoinUndoesSplit(payload, '.');
    assert Payload(login) == payload;
    assert cookie == payload + "." + cookie[i + 1..];
    SigningSucceedsExactly(mac, login);
  }

  lemma {:induction false} NoDotIsLater(s: string, k: nat)
    requires k < |s| && s[k] == '.'
    ensures LastDot(s) >= k
  {
    if s[|s| - 1] != '.' {
      NoDotIsLater(s[..|s| - 1], k);
    }
  }

  /** A payload followed by a dot and more is no payload. */
  lemma NoLongerPayload(payload: string, more: string)
    requires IsPayload(payload)
    ensures !IsPayload(payload + ['.'] + more)
  {
    SplitAcross(payload, more, '.');
  }

  /** What verification takes for the payload of a signed value is its payload. */
  lemma DotOfSigned(mac: Mac, login: PendingLogin, cookie: string)
    requires Sign(mac, login) == Some(cookie) && Verify(mac, cookie).Verified?
    ensures LastDot(cookie) == |Payload(login)| && cookie[..LastDot(cookie)] == Payload(login)
  {
    var payload, i := Payload(login), LastDot(cookie);
    assert cookie[|payload|] == '.' && cookie[..|payload|] == payload;
    NoDotIsLater(cookie, |payload|);
    if i > |payload| {
      assert cookie[..i] == payload + ['.'] + cookie[|payload| + 1..i];
      NoLongerPayload(payload, cookie[|payload| + 1..i]);
      assert false;
    }
  }

  /** What signing produces, and verification accepts, is canonical. */
  lemma SignedIsCanonical(mac: Mac, login: PendingLogin, cookie: string)
    requires Sign(mac, login) == Some(cookie) && Verify(mac, cookie).Verified?
    ensures IsCanonical(cookie)
  {
    DotOfSigned(mac, login, cookie);
    PayloadExactly(login);
    if login.returnTo.Some? {
      DecodeUndoesEncode(login.returnTo.value);
    }
  }

  // ----- two prefixes, two kinds of cookie -----

  /** Two different texts with one signature: what a forger would have to find. */
  predicate Collide(mac: Mac, a: string, b: string) {
    a != b && mac(a) == mac(b)
  }

  lemma PrefixesDiffer(id: string, payload: string)
    ensures SESSION_PREFIX + id != PENDING_LOGIN_PREFIX + payload
  {
    assert (SESSION_PREFIX + id)[0] == 's' && (PENDING_LOGIN_PREFIX + payload)[0] == 'o';
  }

  /**
   A session's signature under a payload passes as a pending login exactly when the payload is one,
   fits, and its text and the session's are two different texts with one signature.
   */
  lemma SessionSignatureIsNoPendingLogin(mac: Mac, id: string, payload: string)
    requires IsMac(mac)
    ensures Verify(mac, payload + "." + mac(SESSION_PREFIX + id)) != NotVerified <==>
            && IsPayload(payload) && |payload| <= MAX_PENDING_LOGIN_COOKIE_CHARS - SIGNATURE_CHARS - 1
            && Collide(mac, SESSION_PREFIX + id, PENDING_LOGIN_PREFIX + payload)
  {
    var signature := mac(SESSION_PREFIX + id);
    assert IsSignature(signature);
    SignatureHasNoDot(signature);
    LastDotBefore(payload, signature);
    var cookie := payload + "." + signature;
    assert cookie[..|payload|] == payload && cookie[|payload| + 1..] == signature;
    PrefixesDiffer(id, payload);
  }

  /** A pending login's signature under an id passes as a session exactly on such a collision. */
  lemma PendingLoginSignatureIsNoSession(mac: Mac, payload: string, id: string)
    requires IsMac(mac)
    ensures VerifySessionCookie(mac, id + "." + mac(PENDING_LOGIN_PREFIX + payload)) != None <==>
            id != "" && Collide(mac, SESSION_PREFIX + id, PENDING_LOGIN_PREFIX + payload)
  {
    var signature := mac(PENDING_LOGIN_PREFIX + payload);
    assert IsSignature(signature);
    SignatureHasNoDot(signature);
    LastDotBefore(id, signature);
    var cookie := id + "." + signature;
    assert cookie[..|id|] == id && cookie[|id| + 1..] == signature;
    PrefixesDiffer(id, payload);
  }

  /** No session's text shares its signature with a pending login's. */
  ghost predicate KeepsKindsApart(mac: Mac) {
    forall id, payload :: !Collide(mac, SESSION_PREFIX + id, PENDING_LOGIN_PREFIX + payload)
  }

  /** Where the kinds are kept apart, neither's signature ever passes for the other's. */
  lemma KindsNeverMix(mac: Mac, id: string, payload: string)
    requires IsMac(mac) && KeepsKindsApart(mac)
    ensures Verify(mac, payload + "." + mac(SESSION_PREFIX + id)) == NotVerified
    ensures VerifySessionCookie(mac, id + "." + mac(PENDING_LOGIN_PREFIX + payload)) == None
  {
    SessionSignatureIsNoPendingLogin(mac, id, payload);
    PendingLoginSignatureIsNoSession(mac, payload, id);
  }

  /** A signature that tells the kinds apart by their first character alone. */
  function ByKind(message: string): string {
    seq(SIGNATURE_CHARS, i => if message != "" && message[0] == 's' then '0' else '1')
  }

  lemma SomeMacKeepsKindsApart()
    ensures IsMac(ByKind) && KeepsKindsApart(ByKind)
  {
    forall id, payload ensures !Collide(ByKind, SESSION_PREFIX + id, PENDING_LOGIN_PREFIX + payload) {
      assert (SESSION_PREFIX + id)[0] == 's' && (PENDING_LOGIN_PREFIX + payload)[0] == 'o';
      assert ByKind(SESSION_PREFIX + id)[0] == '0' && ByKind(PENDING_LOGIN_PREFIX + payload)[0] == '1';
    }
  }

  /** A session cookie is accepted, as an id, exactly when it is that id and a dot before the id's own signature. */
  lemma OnlySignedSessionsVerify(mac: Mac, cookie: string, id: string)
    requires IsMac(mac)
    ensures VerifySessionCookie(mac, cookie) == Some(id) <==> id != "" && cookie == id + "." + mac("session:" + id)
  {
    var signature := mac(SESSION_PREFIX + id);
    assert IsSignature(signature);
    SignatureHasNoDot(signature);
    LastDotBefore(id, signature);
    var signed := id + "." + signature;
    assert signed[..|id|] == id && signed[|id| + 1..] == signature;
    var i := LastDot(cookie);
    if i >= 0 {
      assert cookie == cookie[..i] + "." + cookie[i + 1..];
    }
  }

  /** A session id fits its cookie exactly from 1 to 135 characters, dots included, and reads back. */
  lemma SessionCookieReadsBack(mac: Mac, id: string)
    requires IsMac(mac)
    ensures SignSessionId(mac, id).Some? <==> 1 <= |id| <= 135
    ensures SignSessionId(mac, id).Some? ==> VerifySessionCookie(mac, SignSessionId(mac, id).value) == Some(id)
  {
    var signature := mac(SESSION_PREFIX + id);
    assert IsSignature(signature);
    SignatureHasNoDot(signature);
    LastDotBefore(id, signature);
    var cookie := id + "." + signature;
    assert cookie[..|id|] == id && cookie[|id| + 1..] == signature;
  }
}
