/**
 The two readers of one callback query: a lenient one names the pending login the callback ends, a
 strict one gives the parameters the login is completed with.

 Decoding one name or value is an arbitrary pair of functions: the strict one fails where the lenient
 one substitutes, and agrees with it where it succeeds.
 */
module CallbackQuery {
  import opened Wrappers
  import T = Text
  import R = ReturnPath
  import O = RelyingParty
  import P = PendingLogin
  import J = CookieJar

  type Text = seq<R.CodePoint>

  const MAX_AUTHORIZATION_CODE_CHARS := 2048
  const PENDING_LOGIN_MAX_AGE_SECONDS := 600.0

  predicate IsUtf8(t: Text) {
    forall i :: 0 <= i < |t| ==> !R.IsSurrogate(t[i])
  }

  datatype Codec = Codec(lenient: Text -> Text, strict: Text -> Option<Text>)

  ghost predicate IsCodec(c: Codec) {
    && (forall t :: c.strict(t).Some? ==> c.lenient(t) == c.strict(t).value)
    && (forall t :: IsUtf8(t) && c.strict(t).Some? ==> IsUtf8(c.strict(t).value))
  }

  /** Plain text as the program's text, and back. */
  function Characters(s: string): Text { R.CodePoints(s) }

  function Plain(t: Text): string
    requires IsUtf8(t)
  {
    if t == [] then "" else [t[0] as char] + Plain(t[1..])
  }

  // ----- parsing -----

  datatype Pair = Pair(name: Text, value: Text)

  const AMPERSAND: R.CodePoint := 0x26
  const EQUALS: R.CodePoint := 0x3D

  /** Where the first equals sign of a piece is, or its length. */
  function FirstEquals(piece: Text): (i: nat)
    ensures i <= |piece|
    ensures EQUALS !in piece[..i]
    ensures i < |piece| ==> piece[i] == EQUALS
  {
    if piece == [] || piece[0] == EQUALS then 0
    else
      var i := FirstEquals(piece[1..]);
      assert piece[..i + 1] == [piece[0]] + piece[1..][..i];
      i + 1
  }

  function RawName(piece: Text): Text {
    piece[..FirstEquals(piece)]
  }

  /** What follows the first equals sign; a piece without one has a blank value. */
  function RawValue(piece: Text): Text {
    var i := FirstEquals(piece);
    if i == |piece| then [] else piece[i + 1..]
  }

  function Pieces(query: Text): seq<Text> {
    if query == [] then [] else T.Split(query, AMPERSAND)
  }

  /** Empty pieces are passed over, and a piece without an equals sign is a name. */
  function LenientPairs(c: Codec, pieces: seq<Text>): seq<Pair> {
    if pieces == [] then []
    else
      (if pieces[0] == [] then [] else [Pair(c.lenient(RawName(pieces[0])), c.lenient(RawValue(pieces[0])))])
      + LenientPairs(c, pieces[1..])
  }

  /** Every piece needs an equals sign and decodes, or the query is malformed. */
  function StrictPairs(c: Codec, pieces: seq<Text>): Option<seq<Pair>> {
    if pieces == [] then Some([])
    else if EQUALS !in pieces[0] then None
    else
      match (c.strict(RawName(pieces[0])), c.strict(RawValue(pieces[0])), StrictPairs(c, pieces[1..]))
      case (Some(name), Some(value), Some(rest)) => Some([Pair(name, value)] + rest)
      case _ => None
  }

  function ToMap(pairs: seq<Pair>): map<Text, Text> {
    if pairs == [] then map[] else ToMap(pairs[..|pairs| - 1])[pairs[|pairs| - 1].name := pairs[|pairs| - 1].value]
  }

  /** The callback's parameters, each named once. */
  function Parameters(c: Codec, query: Text): Result<map<Text, Text>, O.OidcRefusal> {
    if !IsUtf8(query) then Failure(O.Refused(O.MalformedCallback))
    else
      match StrictPairs(c, Pieces(query))
      case None => Failure(O.Refused(O.MalformedCallback))
      case Some(pairs) => if |ToMap(pairs)| != |pairs| then Failure(O.Refused(O.MalformedCallback)) else Success(ToMap(pairs))
  }

  function ValuesNamed(pairs: seq<Pair>, name: Text): seq<Text> {
    if pairs == [] then []
    else (if pairs[0].name == name then [pairs[0].value] else []) + ValuesNamed(pairs[1..], name)
  }

  function STATE(): Text { Characters("state") }
  function ISS(): Text { Characters("iss") }
  function ERROR(): Text { Characters("error") }
  function CODE(): Text { Characters("code") }

  predicate NamesAState(states: seq<Text>) {
    |states| == 1 && states[0] != [] && IsUtf8(states[0])
  }

  /** The state the query names once, non-empty and decodable, or the refusal the callback gets. */
  function State(c: Codec, query: Text): Result<Text, O.OidcRefusal> {
    var states := ValuesNamed(LenientPairs(c, Pieces(query)), STATE());
    if NamesAState(states) then Success(states[0])
    else
      match Parameters(c, query)
      case Failure(refusal) => Failure(refusal)
      case Success(_) => Failure(O.Refused(O.StateMismatch))
  }

  // ----- completing the login -----

  predicate IsSameSecret(received: Option<Text>, expected: string) {
    expected != "" && received.Some? && IsUtf8(received.value) && received.value == Characters(expected)
  }

  function Lookup(parameters: map<Text, Text>, name: Text): Option<Text> {
    if name in parameters then Some(parameters[name]) else None
  }

  /** The issuer's error code, kept only in a shape that is safe to show. */
  function IdpErrorCode(error: Text): Option<string> {
    if IsUtf8(error) then O.IdpErrorCode(Plain(error)) else None
  }

  /** The code to exchange, or the first refusal in the order the program decides them. */
  function AuthorizationCode(
      pending: P.PendingLogin, parameters: map<Text, Text>, issuer: Text, now: real): Result<Text, O.OidcRefusal> {
    var age := now - pending.issuedAt as real;
    if !IsSameSecret(Lookup(parameters, STATE()), pending.state) then Failure(O.Refused(O.StateMismatch))
    else if !(0.0 <= age <= PENDING_LOGIN_MAX_AGE_SECONDS) then Failure(O.Refused(O.PendingLoginExpired))
    else if ISS() in parameters && parameters[ISS()] != issuer then Failure(O.Refused(O.IssuerMismatch))
    else if ERROR() in parameters then Failure(O.OidcRefusal(O.AuthorizationDenied, IdpErrorCode(parameters[ERROR()])))
    else if CODE() !in parameters then Failure(O.Refused(O.MalformedCallback))
    else
      var code := parameters[CODE()];
      if code == [] || |code| > MAX_AUTHORIZATION_CODE_CHARS then Failure(O.Refused(O.MalformedCallback)) else Success(code)
  }

  /** How `complete_login` goes on: a refusal, or the one token request that exchanges a code. */
  datatype Next = Refused(refusal: O.OidcRefusal) | TokenRequest(code: Text, codeVerifier: string)

  function CompleteLogin(c: Codec, pending: P.PendingLogin, query: Text, issuer: Text, now: real): Next {
    match Parameters(c, query)
    case Failure(refusal) => Refused(refusal)
    case Success(parameters) =>
      match AuthorizationCode(pending, parameters, issuer, now)
      case Failure(refusal) => Refused(refusal)
      case Success(code) => TokenRequest(code, pending.codeVerifier)
  }

  // ----- the readers agree -----

  lemma {:induction false} StrictAgreesWithLenient(c: Codec, pieces: seq<Text>)
    requires IsCodec(c) && StrictPairs(c, pieces).Some?
    ensures StrictPairs(c, pieces).value == LenientPairs(c, pieces)
  {
    if pieces != [] {
      StrictAgreesWithLenient(c, pieces[1..]);
    }
  }

  lemma {:induction false} RawTextIsUtf8(piece: Text)
    requires IsUtf8(piece)
    ensures IsUtf8(RawName(piece)) && IsUtf8(RawValue(piece))
  {
  }

  ghost predicate AllUtf8(parts: seq<Text>) {
    forall i :: 0 <= i < |parts| ==> IsUtf8(parts[i])
  }

  lemma {:induction false} PiecesAreUtf8(query: Text)
    requires IsUtf8(query)
    ensures AllUtf8(T.Split(query, AMPERSAND))
  {
    if query != [] {
      PiecesAreUtf8(query[1..]);
    }
  }

  lemma {:induction false} StrictPairsAreUtf8(c: Codec, pieces: seq<Text>)
    requires IsCodec(c) && AllUtf8(pieces) && StrictPairs(c, pieces).Some?
    ensures forall i :: 0 <= i < |StrictPairs(c, pieces).value| ==> IsUtf8(StrictPairs(c, pieces).value[i].value)
  {
    if pieces != [] {
      StrictPairsAreUtf8(c, pieces[1..]);
      RawTextIsUtf8(pieces[0]);
    }
  }

  predicate HasDistinctNames(pairs: seq<Pair>) {
    forall i, j :: 0 <= i < j < |pairs| ==> pairs[i].name != pairs[j].name
  }

  /** The parameters are as many as the pairs exactly when no name repeats. */
  lemma {:induction false} ToMapCounts(pairs: seq<Pair>)
    ensures |ToMap(pairs)| <= |pairs|
    ensures |ToMap(pairs)| == |pairs| <==> HasDistinctNames(pairs)
  {
    if pairs != [] {
      var before, last := pairs[..|pairs| - 1], pairs[|pairs| - 1];
      ToMapCounts(before);
      ToMapNames(before, last.name);
      OneMoreName(before, last);
      assert pairs == before + [last];
      OneMoreKey(ToMap(before), last.name, last.value);
    }
  }

  lemma OneMoreKey(all: map<Text, Text>, name: Text, value: Text)
    ensures |all[name := value]| == |all| + if name in all then 0 else 1
  {
    assert all[name := value].Keys == all.Keys + {name};
    assert name in all ==> all.Keys + {name} == all.Keys;
    assert |all| == |all.Keys| && |all[name := value]| == |all[name := value].Keys|;
  }

  lemma {:induction false} ToMapNames(pairs: seq<Pair>, name: Text)
    ensures name in ToMap(pairs) <==> exists i :: 0 <= i < |pairs| && pairs[i].name == name
  {
    if pairs != [] {
      var before, last := pairs[..|pairs| - 1], pairs[|pairs| - 1];
      ToMapNames(before, name);
      if name in ToMap(before) {
        var i :| 0 <= i < |before| && before[i].name == name;
        assert pairs[i].name == name;
      } else {
        assert last.name == name ==> pairs[|pairs| - 1].name == name;
        assert forall i :: 0 <= i < |before| ==> before[i] == pairs[i];
      }
    }
  }

  lemma OneMoreName(before: seq<Pair>, last: Pair)
    ensures HasDistinctNames(before + [last]) <==>
            HasDistinctNames(before) && forall i :: 0 <= i < |before| ==> before[i].name != last.name
  {
    var pairs := before + [last];
    assert forall i :: 0 <= i < |before| ==> pairs[i] == before[i];
    if HasDistinctNames(pairs) {
      forall i | 0 <= i < |before| ensures before[i].name != last.name {
        assert pairs[i].name != pairs[|before|].name;
      }
      forall i, j | 0 <= i < j < |before| ensures before[i].name != before[j].name {
        assert pairs[i].name != pairs[j].name;
      }
    }
  }

  lemma {:induction false} ToMapOfDistinct(pairs: seq<Pair>, name: Text)
    requires HasDistinctNames(pairs)
    ensures ValuesNamed(pairs, name) == if name in ToMap(pairs) then [ToMap(pairs)[name]] else []
  {
    if pairs != [] {
      var before, last := pairs[..|pairs| - 1], pairs[|pairs| - 1];
      assert pairs == before + [last];
      ToMapOfDistinct(before, name);
      ValuesNamedAcross(before, last, name);
      ToMapNames(before, last.name);
    }
  }

  lemma {:induction false} ValuesNamedAcross(pairs: seq<Pair>, last: Pair, name: Text)
    ensures ValuesNamed(pairs + [last], name)
         == ValuesNamed(pairs, name) + if last.name == name then [last.value] else []
  {
    if pairs == [] {
      assert pairs + [last] == [last];
      assert [last][1..] == [];
    } else {
      ValuesNamedAcross(pairs[1..], last, name);
      assert (pairs + [last])[1..] == pairs[1..] + [last];
    }
  }

  /** What the strict reader's parameters say of the states the lenient reader sees. */
  lemma StatesOfParameters(c: Codec, query: Text)
    requires IsCodec(c) && Parameters(c, query).Success?
    ensures var parameters := Parameters(c, query).value;
            && ValuesNamed(LenientPairs(c, Pieces(query)), STATE())
            == (if STATE() in parameters then [parameters[STATE()]] else [])
            && (STATE() in parameters ==> IsUtf8(parameters[STATE()]))
  {
    var pairs := StrictPairs(c, Pieces(query)).value;
    StrictAgreesWithLenient(c, Pieces(query));
    ToMapCounts(pairs);
    ToMapOfDistinct(pairs, STATE());
    if query != [] {
      PiecesAreUtf8(query);
    }
    StrictPairsAreUtf8(c, Pieces(query));
    if STATE() in ToMap(pairs) {
      ValueOfSomePair(pairs, STATE());
    }
  }

  lemma {:induction false} ValueOfSomePair(pairs: seq<Pair>, name: Text)
    requires name in ToMap(pairs)
    ensures exists i :: 0 <= i < |pairs| && pairs[i].value == ToMap(pairs)[name]
  {
    var before, last := pairs[..|pairs| - 1], pairs[|pairs| - 1];
    if last.name != name {
      ValueOfSomePair(before, name);
      var i :| 0 <= i < |before| && before[i].value == ToMap(before)[name];
      assert pairs[i].value == ToMap(pairs)[name];
    } else {
      assert pairs[|pairs| - 1].value == ToMap(pairs)[name];
    }
  }

  /** Whenever the strict reader accepts a query naming a non-empty state, the lenient one returns that state. */
  lemma StrictStateIsTheLenientState(c: Codec, query: Text)
    requires IsCodec(c) && Parameters(c, query).Success?
    ensures var parameters := Parameters(c, query).value;
            State(c, query) == if STATE() in parameters && parameters[STATE()] != [] then Success(parameters[STATE()])
                               else Failure(O.Refused(O.StateMismatch))
  {
    StatesOfParameters(c, query);
  }

  /** A state the lenient reader refuses is refused alike by `complete_login`, for every pending login. */
  lemma LenientRefusalIsTheStrictOne(
      c: Codec, query: Text, pending: P.PendingLogin, issuer: Text, now: real)
    requires IsCodec(c) && State(c, query).Failure?
    ensures CompleteLogin(c, pending, query, issuer, now) == Refused(State(c, query).error)
  {
    if Parameters(c, query).Success? {
      StrictStateIsTheLenientState(c, query);
      if pending.state != "" {
        CharactersOfNonEmpty(pending.state);
      }
    }
  }

  lemma CharactersOfNonEmpty(s: string)
    requires s != ""
    ensures Characters(s) != []
  {
  }

  /** The strict reader's state is the pending login's exactly when the lenient reader names it. */
  lemma SameSecretExactly(c: Codec, query: Text, expected: string)
    requires IsCodec(c) && Parameters(c, query).Success?
    ensures IsSameSecret(Lookup(Parameters(c, query).value, STATE()), expected)
       <==> State(c, query) == Success(Characters(expected))
  {
    StrictStateIsTheLenientState(c, query);
    StatesOfParameters(c, query);
    if expected != "" {
      CharactersOfNonEmpty(expected);
    }
  }

  /** The code is given out exactly when every check before it passes, and a denial is told only after the first three. */
  lemma CodeExactly(pending: P.PendingLogin, parameters: map<Text, Text>, issuer: Text, now: real)
    ensures var isSame := IsSameSecret(Lookup(parameters, STATE()), pending.state);
            var isInTime := 0.0 <= now - pending.issuedAt as real <= PENDING_LOGIN_MAX_AGE_SECONDS;
            var isIssuer := Lookup(parameters, ISS()) in {None, Some(issuer)};
            var code := AuthorizationCode(pending, parameters, issuer, now);
            && (code.Success? <==>
                  && isSame && isInTime && isIssuer && ERROR() !in parameters
                  && CODE() in parameters && 1 <= |parameters[CODE()]| <= MAX_AUTHORIZATION_CODE_CHARS)
            && (code.Failure? && code.error.reason in {O.AuthorizationDenied, O.IssuerMismatch, O.PendingLoginExpired} ==> isSame)
            && (code.Failure? && code.error.reason == O.AuthorizationDenied ==> isInTime && isIssuer && ERROR() in parameters)
  {
  }

  /**
   A token request is made exactly for a query that reads strictly, names the pending login's own
   state, comes 0 to 600 seconds after it began, names no other issuer and no error, and carries a
   code of 1 to 2048 characters; and then the lenient reader named that same state.
   */
  lemma TokenRequestExactly(
      c: Codec, query: Text, pending: P.PendingLogin, issuer: Text, now: real)
    requires IsCodec(c)
    ensures var parameters := Parameters(c, query);
            var age := now - pending.issuedAt as real;
            CompleteLogin(c, pending, query, issuer, now).TokenRequest? <==>
            && parameters.Success?
            && State(c, query) == Success(Characters(pending.state))
            && 0.0 <= age <= 600.0
            && Lookup(parameters.value, ISS()) in {None, Some(issuer)}
            && ERROR() !in parameters.value
            && CODE() in parameters.value && 1 <= |parameters.value[CODE()]| <= 2048
  {
    if Parameters(c, query).Success? {
      SameSecretExactly(c, query, pending.state);
      CodeExactly(pending, Parameters(c, query).value, issuer, now);
    }
  }

  /**
   An issuer's own refusal is believed only for a callback that names the pending login's state, in
   time and from the issuer it was sent to; the state is judged before anything else in the query.
   */
  lemma DenialIsBelievedOnlyForTheOwnState(
      c: Codec, query: Text, pending: P.PendingLogin, issuer: Text, now: real)
    requires IsCodec(c)
    ensures var next := CompleteLogin(c, pending, query, issuer, now);
            && (next.Refused? && next.refusal.reason in {O.AuthorizationDenied, O.IssuerMismatch, O.PendingLoginExpired} ==>
                  Parameters(c, query).Success? && State(c, query) == Success(Characters(pending.state)))
            && (next.Refused? && next.refusal.reason == O.AuthorizationDenied ==>
                  && 0.0 <= now - pending.issuedAt as real <= PENDING_LOGIN_MAX_AGE_SECONDS
                  && Lookup(Parameters(c, query).value, ISS()) in {None, Some(issuer)}
                  && ERROR() in Parameters(c, query).value)
  {
    if Parameters(c, query).Success? {
      SameSecretExactly(c, query, pending.state);
      CodeExactly(pending, Parameters(c, query).value, issuer, now);
    }
  }

  // ----- a query as an issuer spells it -----

  /** A name and a value as they stand in a query, still encoded. */
  predicate IsRaw(raw: Pair) {
    EQUALS !in raw.name && AMPERSAND !in raw.name && AMPERSAND !in raw.value
  }

  function PieceOf(raw: Pair): Text {
    raw.name + [EQUALS] + raw.value
  }

  function PiecesOf(raws: seq<Pair>): (pieces: seq<Text>)
    ensures |pieces| == |raws| && forall i :: 0 <= i < |raws| ==> pieces[i] == PieceOf(raws[i])
  {
    if raws == [] then [] else [PieceOf(raws[0])] + PiecesOf(raws[1..])
  }

  /** The names and values, an equals sign in each pair and an ampersand between two. */
  function QueryOf(raws: seq<Pair>): Text
    requires raws != []
  {
    T.Join(PiecesOf(raws), AMPERSAND)
  }

  lemma {:induction false} FirstEqualsOf(name: Text, value: Text)
    requires EQUALS !in name
    ensures FirstEquals(name + [EQUALS] + value) == |name|
  {
    if name != [] {
      FirstEqualsOf(name[1..], value);
      assert (name + [EQUALS] + value)[1..] == name[1..] + [EQUALS] + value;
    }
  }

  /** A piece splits at its first equals sign. */
  lemma PieceReadsBack(raw: Pair)
    requires IsRaw(raw)
    ensures RawName(PieceOf(raw)) == raw.name && RawValue(PieceOf(raw)) == raw.value
    ensures EQUALS in PieceOf(raw) && AMPERSAND !in PieceOf(raw)
  {
    FirstEqualsOf(raw.name, raw.value);
    assert PieceOf(raw)[|raw.name|] == EQUALS;
  }

  lemma PiecesReadBack(raws: seq<Pair>)
    requires raws != [] && forall i :: 0 <= i < |raws| ==> IsRaw(raws[i])
    ensures Pieces(QueryOf(raws)) == PiecesOf(raws)
  {
    PiecesLackAmpersands(raws);
    T.SplitUndoesJoin(PiecesOf(raws), AMPERSAND);
    assert QueryOf(raws) != [] by {
      QueryStartsWithItsFirstPiece(raws);
    }
  }

  lemma PiecesLackAmpersands(raws: seq<Pair>)
    requires forall i :: 0 <= i < |raws| ==> IsRaw(raws[i])
    ensures forall piece :: piece in PiecesOf(raws) ==> AMPERSAND !in piece
  {
    forall piece | piece in PiecesOf(raws) ensures AMPERSAND !in piece {
      var i :| 0 <= i < |raws| && PiecesOf(raws)[i] == piece;
      PieceReadsBack(raws[i]);
    }
  }

  lemma QueryStartsWithItsFirstPiece(raws: seq<Pair>)
    requires raws != []
    ensures PieceOf(raws[0]) <= QueryOf(raws) && QueryOf(raws) != []
  {
  }

  /** What the strict reader makes of a name or value, meaningful where it decodes. */
  function Decoded(c: Codec, t: Text): Text {
    if c.strict(t).Some? then c.strict(t).value else []
  }

  predicate Decodes(c: Codec, raw: Pair) {
    c.strict(raw.name).Some? && c.strict(raw.value).Some?
  }

  lemma {:induction false} LenientPairsReadBack(c: Codec, raws: seq<Pair>)
    requires forall i :: 0 <= i < |raws| ==> IsRaw(raws[i])
    ensures var pairs := LenientPairs(c, PiecesOf(raws));
            && |pairs| == |raws|
            && forall i :: 0 <= i < |raws| ==> pairs[i] == Pair(c.lenient(raws[i].name), c.lenient(raws[i].value))
  {
    if raws != [] {
      LenientPairsReadBack(c, raws[1..]);
      PieceReadsBack(raws[0]);
      assert PiecesOf(raws)[1..] == PiecesOf(raws[1..]);
    }
  }

  lemma {:induction false} StrictPairsReadBack(c: Codec, raws: seq<Pair>)
    requires forall i :: 0 <= i < |raws| ==> IsRaw(raws[i])
    ensures StrictPairs(c, PiecesOf(raws)).Some? <==> forall i :: 0 <= i < |raws| ==> Decodes(c, raws[i])
    ensures StrictPairs(c, PiecesOf(raws)).Some? ==>
              var pairs := StrictPairs(c, PiecesOf(raws)).value;
              && |pairs| == |raws|
              && forall i :: 0 <= i < |raws| ==> pairs[i] == Pair(Decoded(c, raws[i].name), Decoded(c, raws[i].value))
  {
    if raws != [] {
      StrictPairsReadBack(c, raws[1..]);
      PieceReadsBack(raws[0]);
      assert PiecesOf(raws)[1..] == PiecesOf(raws[1..]);
    }
  }

  /**
   Both readers give back, in order and each decoded, exactly the names and values a query was spelled
   from, whatever equals signs the values hold; the strict one succeeds exactly if it decodes them all.
   */
  lemma QueryReadsBack(c: Codec, raws: seq<Pair>)
    requires raws != [] && forall i :: 0 <= i < |raws| ==> IsRaw(raws[i])
    ensures var pairs := LenientPairs(c, Pieces(QueryOf(raws)));
            && |pairs| == |raws|
            && forall i :: 0 <= i < |raws| ==> pairs[i] == Pair(c.lenient(raws[i].name), c.lenient(raws[i].value))
    ensures var pairs := StrictPairs(c, Pieces(QueryOf(raws)));
            && (pairs.Some? <==> forall i :: 0 <= i < |raws| ==> Decodes(c, raws[i]))
            && (pairs.Some? ==>
                  && |pairs.value| == |raws|
                  && forall i :: 0 <= i < |raws| ==> pairs.value[i] == Pair(Decoded(c, raws[i].name), Decoded(c, raws[i].value)))
  {
    PiecesReadBack(raws);
    LenientPairsReadBack(c, raws);
    StrictPairsReadBack(c, raws);
  }

  /**
   A piece without an equals sign: the lenient reader passes over an empty one and reads any other as a
   name with a blank value, wherever it stands ...
   */
  lemma LenientWithoutEquals(c: Codec, before: seq<Text>, piece: Text, after: seq<Text>)
    requires EQUALS !in piece
    ensures LenientPairs(c, before + [piece] + after)
         == LenientPairs(c, before) + (if piece == [] then [] else [Pair(c.lenient(piece), c.lenient([]))]) + LenientPairs(c, after)
  {
    LenientAcross(c, before + [piece], after);
    LenientAcross(c, before, [piece]);
    assert FirstEquals(piece) == |piece| && RawName(piece) == piece;
    assert LenientPairs(c, [piece]) == if piece == [] then [] else [Pair(c.lenient(piece), c.lenient([]))];
  }

  lemma {:induction false} LenientAcross(c: Codec, a: seq<Text>, b: seq<Text>)
    ensures LenientPairs(c, a + b) == LenientPairs(c, a) + LenientPairs(c, b)
  {
    if a == [] {
      assert a + b == b;
    } else {
      LenientAcross(c, a[1..], b);
      assert (a + b)[1..] == a[1..] + b;
      Regrouped(LenientPairs(c, [a[0]]), LenientPairs(c, a[1..]), LenientPairs(c, b));
      LenientFirst(c, a);
      LenientFirst(c, a + b);
    }
  }

  lemma LenientFirst(c: Codec, pieces: seq<Text>)
    requires pieces != []
    ensures LenientPairs(c, pieces) == LenientPairs(c, [pieces[0]]) + LenientPairs(c, pieces[1..])
  {
    var first: seq<Text> := [pieces[0]];
    assert first[1..] == [];
  }

  lemma Regrouped(a: seq<Pair>, b: seq<Pair>, d: seq<Pair>)
    ensures (a + b) + d == a + (b + d)
  {
  }

  /** ... and the strict one refuses the whole query. */
  lemma {:induction false} StrictWithoutEquals(c: Codec, before: seq<Text>, piece: Text, after: seq<Text>)
    requires EQUALS !in piece
    ensures StrictPairs(c, before + [piece] + after) == None
  {
    var all := before + [piece] + after;
    if before == [] {
      assert all[0] == piece;
    } else {
      StrictWithoutEquals(c, before[1..], piece, after);
      assert all[0] == before[0] && all[1..] == before[1..] + [piece] + after;
    }
  }

  lemma {:induction false} ToMapHolds(pairs: seq<Pair>, i: nat)
    requires HasDistinctNames(pairs) && i < |pairs|
    ensures pairs[i].name in ToMap(pairs) && ToMap(pairs)[pairs[i].name] == pairs[i].value
  {
    if i < |pairs| - 1 {
      assert pairs[..|pairs| - 1][i] == pairs[i];
      ToMapHolds(pairs[..|pairs| - 1], i);
    }
  }

  /** No name repeats once decoded. */
  predicate HaveDistinctNames(c: Codec, raws: seq<Pair>) {
    forall i, j :: 0 <= i < j < |raws| ==> Decoded(c, raws[i].name) != Decoded(c, raws[j].name)
  }

  /** These names, each with its own value, and no others. */
  ghost predicate AreParameters(c: Codec, raws: seq<Pair>, parameters: map<Text, Text>) {
    && (forall i :: 0 <= i < |raws| ==>
          Decoded(c, raws[i].name) in parameters && parameters[Decoded(c, raws[i].name)] == Decoded(c, raws[i].value))
    && (forall name :: name in parameters ==> exists i :: 0 <= i < |raws| && Decoded(c, raws[i].name) == name)
  }

  lemma MapOfDecoded(c: Codec, raws: seq<Pair>, pairs: seq<Pair>)
    requires |pairs| == |raws|
    requires forall i :: 0 <= i < |raws| ==> pairs[i] == Pair(Decoded(c, raws[i].name), Decoded(c, raws[i].value))
    ensures |ToMap(pairs)| == |pairs| <==> HaveDistinctNames(c, raws)
    ensures HaveDistinctNames(c, raws) ==> AreParameters(c, raws, ToMap(pairs))
  {
    ToMapCounts(pairs);
    assert HasDistinctNames(pairs) <==> HaveDistinctNames(c, raws);
    if HaveDistinctNames(c, raws) {
      forall i | 0 <= i < |raws|
        ensures Decoded(c, raws[i].name) in ToMap(pairs)
        ensures ToMap(pairs)[Decoded(c, raws[i].name)] == Decoded(c, raws[i].value)
      {
        ToMapHolds(pairs, i);
      }
      forall name | name in ToMap(pairs) ensures exists i :: 0 <= i < |raws| && Decoded(c, raws[i].name) == name {
        ToMapNames(pairs, name);
        var i :| 0 <= i < |pairs| && pairs[i].name == name;
        assert Decoded(c, raws[i].name) == name;
      }
    }
  }

  /**
   A query spelled from names and values has parameters exactly if it is UTF-8, all of it decodes, and
   no decoded name repeats; they are then those names, each with its own value.
   */
  lemma ParametersExactly(c: Codec, raws: seq<Pair>)
    requires raws != [] && forall i :: 0 <= i < |raws| ==> IsRaw(raws[i])
    ensures var r := Parameters(c, QueryOf(raws));
            && (r.Success? <==>
                  && IsUtf8(QueryOf(raws)) && HaveDistinctNames(c, raws)
                  && (forall i :: 0 <= i < |raws| ==> Decodes(c, raws[i])))
            && (r.Failure? ==> r == Failure(O.Refused(O.MalformedCallback)))
            && (r.Success? ==> AreParameters(c, raws, r.value))
  {
    QueryReadsBack(c, raws);
    var strict := StrictPairs(c, Pieces(QueryOf(raws)));
    if strict.Some? {
      MapOfDecoded(c, raws, strict.value);
    }
  }

  /** Where a name stands among these, once read leniently. */
  predicate IsOnlyState(c: Codec, raws: seq<Pair>, i: int) {
    0 <= i < |raws| && forall j :: 0 <= j < |raws| ==> (c.lenient(raws[j].name) == Characters("state") <==> j == i)
  }

  /** The lenient reader names a state exactly when one pair, and no other, is called that and its value is non-empty UTF-8. */
  lemma StateExactly(c: Codec, raws: seq<Pair>, state: Text)
    requires raws != [] && forall i :: 0 <= i < |raws| ==> IsRaw(raws[i])
    ensures State(c, QueryOf(raws)) == Success(state) <==>
            && state != [] && IsUtf8(state)
            && exists i :: IsOnlyState(c, raws, i) && c.lenient(raws[i].value) == state
  {
    QueryReadsBack(c, raws);
    var pairs := LenientPairs(c, Pieces(QueryOf(raws)));
    assert forall i :: 0 <= i < |raws| ==> pairs[i] == Pair(c.lenient(raws[i].name), c.lenient(raws[i].value));
    forall i | IsOnlyState(c, raws, i) ensures ValuesNamed(pairs, STATE()) == [c.lenient(raws[i].value)] {
      OneNamed(pairs, STATE(), i);
    }
    if |ValuesNamed(pairs, STATE())| == 1 {
      var i := TheOneNamed(pairs, STATE());
      assert IsOnlyState(c, raws, i);
    }
  }

  lemma {:induction false} NoneNamed(pairs: seq<Pair>, name: Text)
    ensures ValuesNamed(pairs, name) == [] <==> forall j :: 0 <= j < |pairs| ==> pairs[j].name != name
  {
    if pairs != [] {
      NoneNamed(pairs[1..], name);
      assert forall j :: 1 <= j < |pairs| ==> pairs[j] == pairs[1..][j - 1];
    }
  }

  predicate IsOnlyNamed(pairs: seq<Pair>, name: Text, i: int) {
    0 <= i < |pairs| && forall j :: 0 <= j < |pairs| ==> (pairs[j].name == name <==> j == i)
  }

  lemma {:induction false} OneNamed(pairs: seq<Pair>, name: Text, i: int)
    requires IsOnlyNamed(pairs, name, i)
    ensures ValuesNamed(pairs, name) == [pairs[i].value]
  {
    if i == 0 {
      NoneNamed(pairs[1..], name);
    } else {
      assert pairs[0].name != name;
      assert forall j :: 1 <= j < |pairs| ==> pairs[j] == pairs[1..][j - 1];
      OneNamed(pairs[1..], name, i - 1);
    }
  }

  lemma {:induction false} TheOneNamed(pairs: seq<Pair>, name: Text) returns (i: int)
    requires |ValuesNamed(pairs, name)| == 1
    ensures IsOnlyNamed(pairs, name, i)
  {
    assert forall j :: 1 <= j < |pairs| ==> pairs[j] == pairs[1..][j - 1];
    if pairs[0].name == name {
      i := 0;
      NoneNamed(pairs[1..], name);
    } else {
      var later := TheOneNamed(pairs[1..], name);
      i := later + 1;
    }
  }

  // ----- an issuer's answer -----

  /** The values of an issuer's answer as they stand in its query: the state, the issuer, and a code or an error. */
  datatype RawAnswer = RawAnswer(state: Text, issuer: Text, last: Text)

  predicate IsRawValue(c: Codec, raw: Text, text: Text) {
    IsUtf8(raw) && AMPERSAND !in raw && c.strict(raw) == Some(text)
  }

  /** Names without a percent or plus sign decode to themselves. */
  ghost predicate ReadsPlainNames(c: Codec) {
    forall name :: name in {"state", "iss", "code", "error"} ==> c.strict(Characters(name)) == Some(Characters(name))
  }

  function RawPairs(last: string, raw: RawAnswer): seq<Pair> {
    [Pair(Characters("state"), raw.state), Pair(Characters("iss"), raw.issuer), Pair(Characters(last), raw.last)]
  }

  lemma {:induction false} JoinIsUtf8(parts: seq<Text>)
    requires parts != [] && AllUtf8(parts)
    ensures IsUtf8(T.Join(parts, AMPERSAND))
  {
    if |parts| > 1 {
      JoinIsUtf8(parts[1..]);
    }
  }

  lemma NamesAreApart()
    ensures Characters("state") != Characters("iss") && Characters("state") != Characters("code")
    ensures Characters("state") != Characters("error") && Characters("iss") != Characters("code")
    ensures Characters("iss") != Characters("error") && Characters("code") != Characters("error")
  {
    R.CodePointsAt("state");
    R.CodePointsAt("iss");
    R.CodePointsAt("code");
    R.CodePointsAt("error");
    assert Characters("state")[0] != Characters("error")[0];
  }

  predicate IsPlainName(name: string) {
    forall i :: 0 <= i < |name| ==> name[i] != '=' && name[i] != '&'
  }

  lemma AnswerNamesArePlain()
    ensures IsPlainName("state") && IsPlainName("iss") && IsPlainName("code") && IsPlainName("error")
  {
  }

  lemma PlainNameIsRaw(name: string, value: Text)
    requires IsPlainName(name) && IsUtf8(value) && AMPERSAND !in value
    ensures IsRaw(Pair(Characters(name), value)) && IsUtf8(PieceOf(Pair(Characters(name), value)))
  {
    R.CodePointsAt(name);
    PlainUndoesCharacters(name);
  }

  /** Three pairs whose decoded names differ are the parameters. */
  lemma ThreeParameters(c: Codec, a: Pair, b: Pair, d: Pair)
    requires IsRaw(a) && IsRaw(b) && IsRaw(d) && IsUtf8(PieceOf(a)) && IsUtf8(PieceOf(b)) && IsUtf8(PieceOf(d))
    requires Decodes(c, a) && Decodes(c, b) && Decodes(c, d)
    requires Decoded(c, a.name) != Decoded(c, b.name) && Decoded(c, a.name) != Decoded(c, d.name)
    requires Decoded(c, b.name) != Decoded(c, d.name)
    ensures var parameters := Parameters(c, QueryOf([a, b, d]));
            && parameters.Success?
            && Lookup(parameters.value, Decoded(c, a.name)) == Some(Decoded(c, a.value))
            && Lookup(parameters.value, Decoded(c, b.name)) == Some(Decoded(c, b.value))
            && Lookup(parameters.value, Decoded(c, d.name)) == Some(Decoded(c, d.value))
            && parameters.value.Keys == {Decoded(c, a.name), Decoded(c, b.name), Decoded(c, d.name)}
  {
    var raws := [a, b, d];
    assert IsUtf8(QueryOf(raws)) by {
      JoinIsUtf8(PiecesOf(raws));
    }
    ParametersExactly(c, raws);
    ThreeNamed(c, a, b, d, Parameters(c, QueryOf(raws)).value);
  }

  lemma ThreeNamed(c: Codec, a: Pair, b: Pair, d: Pair, parameters: map<Text, Text>)
    requires AreParameters(c, [a, b, d], parameters)
    ensures Lookup(parameters, Decoded(c, a.name)) == Some(Decoded(c, a.value))
    ensures Lookup(parameters, Decoded(c, b.name)) == Some(Decoded(c, b.value))
    ensures Lookup(parameters, Decoded(c, d.name)) == Some(Decoded(c, d.value))
    ensures parameters.Keys == {Decoded(c, a.name), Decoded(c, b.name), Decoded(c, d.name)}
  {
    var raws := [a, b, d];
    assert raws[0] == a && raws[1] == b && raws[2] == d;
  }

  /** What both readers make of an issuer's answer. */
  lemma AnswerIsRead(c: Codec, last: string, raw: RawAnswer, state: Text, issuer: Text, text: Text)
    requires last in {"code", "error"} && ReadsPlainNames(c)
    requires IsRawValue(c, raw.state, state) && IsRawValue(c, raw.issuer, issuer) && IsRawValue(c, raw.last, text)
    ensures var parameters := Parameters(c, QueryOf(RawPairs(last, raw)));
            && parameters.Success?
            && Lookup(parameters.value, Characters("state")) == Some(state)
            && Lookup(parameters.value, Characters("iss")) == Some(issuer)
            && Lookup(parameters.value, Characters(last)) == Some(text)
            && parameters.value.Keys == {Characters("state"), Characters("iss"), Characters(last)}
  {
    AnswerNamesArePlain();
    PlainNameIsRaw("state", raw.state);
    PlainNameIsRaw("iss", raw.issuer);
    PlainNameIsRaw(last, raw.last);
    NamesAreApart();
    ThreeParameters(c, Pair(Characters("state"), raw.state), Pair(Characters("iss"), raw.issuer), Pair(Characters(last), raw.last));
  }

  /**
   The answer of the pending login's own issuer, with its state and a code, brings about the one token
   request with that code and the login's verifier, when it comes from 0 to 600 s after the login began.
   */
  lemma IssuersCodeIsExchanged(
      c: Codec, raw: RawAnswer, pending: P.PendingLogin, issuer: Text, code: Text, now: real)
    requires IsCodec(c) && ReadsPlainNames(c) && pending.state != ""
    requires IsRawValue(c, raw.state, Characters(pending.state)) && IsRawValue(c, raw.issuer, issuer) && IsRawValue(c, raw.last, code)
    requires 0.0 <= now - pending.issuedAt as real <= 600.0 && 1 <= |code| <= 2048
    ensures CompleteLogin(c, pending, QueryOf(RawPairs("code", raw)), issuer, now) == TokenRequest(code, pending.codeVerifier)
  {
    AnswerIsRead(c, "code", raw, Characters(pending.state), issuer, code);
    CodeIsExchanged(c, QueryOf(RawPairs("code", raw)), pending, issuer, code, now);
  }

  lemma CodeIsExchanged(c: Codec, query: Text, pending: P.PendingLogin, issuer: Text, code: Text, now: real)
    requires Parameters(c, query).Success? && pending.state != ""
    requires var parameters := Parameters(c, query).value;
             && Lookup(parameters, Characters("state")) == Some(Characters(pending.state))
             && Lookup(parameters, Characters("iss")) == Some(issuer)
             && Lookup(parameters, Characters("code")) == Some(code)
             && parameters.Keys == {Characters("state"), Characters("iss"), Characters("code")}
    requires 0.0 <= now - pending.issuedAt as real <= 600.0 && 1 <= |code| <= 2048
    ensures CompleteLogin(c, pending, query, issuer, now) == TokenRequest(code, pending.codeVerifier)
  {
    NamesAreApart();
    PlainUndoesCharacters(pending.state);
  }

  /** ... and the lenient reader names that state, by which its cookie is taken. */
  lemma IssuersAnswerNamesItsState(c: Codec, last: string, raw: RawAnswer, state: string, issuer: Text, text: Text)
    requires last in {"code", "error"} && IsCodec(c) && ReadsPlainNames(c) && state != ""
    requires IsRawValue(c, raw.state, Characters(state)) && IsRawValue(c, raw.issuer, issuer) && IsRawValue(c, raw.last, text)
    ensures State(c, QueryOf(RawPairs(last, raw))) == Success(Characters(state))
  {
    AnswerIsRead(c, last, raw, Characters(state), issuer, text);
    CharactersOfNonEmpty(state);
    StrictStateIsTheLenientState(c, QueryOf(RawPairs(last, raw)));
  }

  /** ... and with an error is a denial, shown with the issuer's code where that is 1 to 64 safe characters. */
  lemma IssuersDenialIsShown(
      c: Codec, raw: RawAnswer, pending: P.PendingLogin, issuer: Text, error: string, now: real)
    requires IsCodec(c) && ReadsPlainNames(c) && pending.state != ""
    requires IsRawValue(c, raw.state, Characters(pending.state)) && IsRawValue(c, raw.issuer, issuer)
    requires IsRawValue(c, raw.last, Characters(error))
    requires 0.0 <= now - pending.issuedAt as real <= 600.0
    ensures CompleteLogin(c, pending, QueryOf(RawPairs("error", raw)), issuer, now) ==
            Refused(O.OidcRefusal(O.AuthorizationDenied,
              if 1 <= |error| <= 64 && forall i :: 0 <= i < |error| ==> O.IsErrorCodeCharacter(error[i])
              then Some(error) else None))
  {
    AnswerIsRead(c, "error", raw, Characters(pending.state), issuer, Characters(error));
    NamesAreApart();
    PlainUndoesCharacters(pending.state);
    PlainUndoesCharacters(error);
  }

  lemma {:induction false} PlainUndoesCharacters(s: string)
    ensures IsUtf8(Characters(s)) && Plain(Characters(s)) == s
  {
    R.CodePointsAt(s);
    if s != "" {
      PlainUndoesCharacters(s[1..]);
      assert R.CodePoints(s)[1..] == R.CodePoints(s[1..]);
      assert [s[0]] + s[1..] == s;
    }
  }

  // ----- the callback: state, cookie, completion -----

  /** What a callback does: the jar it leaves, and the refusal, token request or failure it ends in. */
  datatype Callback = Callback(jar: J.Jar, next: Option<Next>)

  /** The state is read, its cookie taken, and the login it carries completed; `None` is a server error. */
  function HandleCallback(c: Codec, host: J.Host, jar: J.Jar, query: Text, issuer: Text, now: real): Callback {
    match State(c, query)
    case Failure(refusal) => Callback(jar, Some(Refused(refusal)))
    case Success(state) =>
      if !IsUtf8(state) then Callback(jar, None)
      else
        var taken := J.TakenLogin(host, jar, Plain(state));
        var after := J.Take(host, jar, Plain(state));
        match taken
        case Verified(pending) => Callback(after, Some(CompleteLogin(c, pending, query, issuer, now)))
        case NotVerified => Callback(after, Some(Refused(O.Refused(O.StateMismatch))))
        case Raised => Callback(after, None)
  }

  predicate RequestsToken(callback: Callback) {
    callback.next.Some? && callback.next.value.TokenRequest?
  }

  /**
   A callback requests a token only for the login whose own state the query names, out of the one
   cookie of that state's name, with that login's verifier; and the same query again ends as it would
   with nothing but what the browser holds elsewhere.
   */
  lemma TokenIsRequestedForTheOwnState(
      c: Codec, host: J.Host, jar: J.Jar, query: Text, issuer: Text, now: real, later: real)
    requires IsCodec(c)
    ensures var callback := HandleCallback(c, host, jar, query, issuer, now);
            && (RequestsToken(callback) ==>
                  && State(c, query).Success? && IsUtf8(State(c, query).value)
                  && var taken := J.TakenLogin(host, jar, Plain(State(c, query).value));
                     && taken.Verified? && taken.login.state == Plain(State(c, query).value)
                     && callback.next.value.codeVerifier == taken.login.codeVerifier)
            && HandleCallback(c, host, callback.jar, query, issuer, later).next
            == HandleCallback(c, host, J.HeldElsewhere(jar), query, issuer, later).next
  {
    match State(c, query)
    case Failure(_) =>
    case Success(state) =>
      J.TakingLeavesTheOthers(host, jar, Plain(state), Plain(state));
      var taken := J.TakenLogin(host, jar, Plain(state));
      if taken.Verified? {
        TokenRequestExactly(c, query, taken.login, issuer, now);
        PlainUndoesCharacters(taken.login.state);
      }
  }

  /**
   The same query never requests a second token from a browser that holds no pending cookie
   elsewhere, as none can on a secure host.
   */
  lemma TokenIsRequestedOnce(
      c: Codec, host: J.Host, jar: J.Jar, query: Text, issuer: Text, now: real, later: real)
    requires IsCodec(c) && J.IsSound(host)
    requires J.PendingElsewhere(host, jar) == [] || (host.secure && J.IsBrowserJar(jar))
    ensures !RequestsToken(HandleCallback(c, host, HandleCallback(c, host, jar, query, issuer, now).jar, query, issuer, later))
  {
    if J.PendingElsewhere(host, jar) != [] {
      J.SecureHoldsNothingElsewhere(host, jar);
    }
    TokenIsRequestedForTheOwnState(c, host, jar, query, issuer, now, later);
    if State(c, query).Success? && IsUtf8(State(c, query).value) {
      J.NoValuesElsewhere(host, jar, Plain(State(c, query).value));
    }
  }

  /** A copy of the cookie under another path requests a token on every callback that comes in time. */
  lemma CopyRequestsAToken(
      c: Codec, host: J.Host, login: P.PendingLogin, query: Text, issuer: Text, now: real)
    requires IsCodec(c) && J.IsSound(host) && !host.secure && P.Sign(host.mac, login).Some?
    requires Parameters(c, query).Success?
    requires AuthorizationCode(login, Parameters(c, query).value, issuer, now).Success?
    ensures var jar := J.CopyElsewhere(host, login);
            && J.IsBrowserJar(jar)
            && HandleCallback(c, host, jar, query, issuer, now)
            == Callback(jar, Some(TokenRequest(Parameters(c, query).value[CODE()], login.codeVerifier)))
  {
    J.CopyIsTakenAgain(host, login);
    HeldLoginCompletes(c, host, J.CopyElsewhere(host, login), login, P.Carried(login), query, issuer, now);
  }

  /** A usable state beside a malformed rest still takes its cookie, and ends in a refusal. */
  lemma MalformedRestStillTakesTheCookie(
      c: Codec, host: J.Host, jar: J.Jar, query: Text, issuer: Text, now: real)
    requires IsCodec(c) && State(c, query).Success? && Parameters(c, query).Failure?
    ensures var callback := HandleCallback(c, host, jar, query, issuer, now);
            var state := State(c, query).value;
            && IsUtf8(state)
            && callback.jar == J.Take(host, jar, Plain(state))
            && !RequestsToken(callback)
            && (J.TakenLogin(host, jar, Plain(state)).Verified? ==> callback.next == Some(Refused(O.Refused(O.MalformedCallback))))
  {
  }

  /**
   A login just begun completes on the callback that brings its state and a code back in time,
   exactly when the browser holds no cookie of its name elsewhere; otherwise it is refused.
   */
  lemma BegunLoginCompletes(
      c: Codec, host: J.Host, jar: J.Jar, login: P.PendingLogin, query: Text, issuer: Text, now: real)
    requires IsCodec(c) && J.IsSound(host) && P.Sign(host.mac, login).Some?
    requires Parameters(c, query).Success?
    requires AuthorizationCode(login, Parameters(c, query).value, issuer, now).Success?
    ensures HandleCallback(c, host, J.Begin(host, jar, login), query, issuer, now).next
         == Some(if J.ValuesOf(J.HeldElsewhere(jar), J.NameOf(host, login.state)) == []
                 then TokenRequest(Parameters(c, query).value[CODE()], login.codeVerifier)
                 else Refused(O.Refused(O.StateMismatch)))
  {
    J.TakenOnce(host, jar, login);
    var started := J.Begin(host, jar, login);
    if J.ValuesOf(J.HeldElsewhere(jar), J.NameOf(host, login.state)) == [] {
      HeldLoginCompletes(c, host, started, login, P.Carried(login), query, issuer, now);
    } else {
      UntakenLoginIsRefused(c, host, started, login, query, issuer, now);
    }
  }

  lemma UntakenLoginIsRefused(
      c: Codec, host: J.Host, jar: J.Jar, login: P.PendingLogin, query: Text, issuer: Text, now: real)
    requires IsCodec(c) && Parameters(c, query).Success?
    requires AuthorizationCode(login, Parameters(c, query).value, issuer, now).Success?
    requires J.TakenLogin(host, jar, login.state) == P.NotVerified
    ensures HandleCallback(c, host, jar, query, issuer, now).next == Some(Refused(O.Refused(O.StateMismatch)))
  {
    QueryNamesItsLogin(c, login, query, issuer, now);
  }

  /** A query that completes a login names its state. */
  lemma QueryNamesItsLogin(c: Codec, login: P.PendingLogin, query: Text, issuer: Text, now: real)
    requires IsCodec(c) && Parameters(c, query).Success?
    requires AuthorizationCode(login, Parameters(c, query).value, issuer, now).Success?
    ensures State(c, query) == Success(Characters(login.state))
    ensures IsUtf8(Characters(login.state)) && Plain(Characters(login.state)) == login.state
  {
    TokenRequestExactly(c, query, login, issuer, now);
    PlainUndoesCharacters(login.state);
  }

  lemma HeldLoginCompletes(
      c: Codec, host: J.Host, jar: J.Jar, login: P.PendingLogin, held: P.PendingLogin, query: Text, issuer: Text,
      now: real)
    requires IsCodec(c) && Parameters(c, query).Success?
    requires AuthorizationCode(login, Parameters(c, query).value, issuer, now).Success?
    requires J.TakenLogin(host, jar, login.state) == P.Verified(held) && held == login.(returnTo := held.returnTo)
    ensures HandleCallback(c, host, jar, query, issuer, now)
         == Callback(J.Take(host, jar, login.state),
                     Some(TokenRequest(Parameters(c, query).value[CODE()], login.codeVerifier)))
  {
    QueryNamesItsLogin(c, login, query, issuer, now);
    assert CompleteLogin(c, held, query, issuer, now)
        == TokenRequest(Parameters(c, query).value[CODE()], login.codeVerifier);
  }
}
