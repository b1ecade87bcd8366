/**
 Reading a fetched key set (JWK Set, section 5 of RFC 7517).

 JSON text, RSA arithmetic and the standard library's lenient base64 decoder are foreign: a
 document is its size and its parsed content, and `Crypto` carries the decoder and the key
 constructor as arbitrary functions, so every lemma holds whatever they answer.
 */
module KeySetDocument {
  import opened Wrappers
  import opened Base64Url
  import opened Base64Number

  datatype Json =
    | JString(text: string)
    | JList(items: seq<Json>)
    | JObject(members: map<string, Json>)
    | JOther

  /** `content` is `None` for a document that is not one JSON object. */
  datatype Document = Document(size: nat, content: Option<map<string, Json>>)

  datatype Key = Key(exponent: nat, modulus: nat)

  datatype Crypto = Crypto(
    lenientDecode: string -> Option<seq<Byte>>, // `None` when the decoder raises
    keyBits: (nat, nat) -> Option<nat>)         // `None` when no RSA key has these numbers

  datatype RefreshFailure =
    | FetchFailed | TooLarge | NotJson | KeyCountOutOfRange | KeyNotAnObject | SecretKeyPublished
    | DuplicateKeyId | NoRs256SigningKey | MalformedKey | InvalidRsaKey | KeyTooShort

  datatype SigningKeys = SigningKeys(named: map<string, Key>, sole: Option<Key>)

  const MAX_KEY_SET_BYTES := 65536
  const MAX_KEY_SET_KEYS := 10
  const MAX_KEY_ID_CHARACTERS := 128
  const MIN_RSA_KEY_BITS := 2048
  const SECRET_KEY_MEMBERS := {"d", "p", "q", "dp", "dq", "qi", "oth", "k"}

  // ----- base64url numbers -----

  /** The canonical re-encode check around whatever the lenient decoder answers. */
  function Base64UrlDecode(crypto: Crypto, segment: string): Option<seq<Byte>> {
    match crypto.lenientDecode(segment)
    case None => None
    case Some(decoded) => if Encode(decoded) == segment then Some(decoded) else None
  }

  /**
   An accepted spelling is the one spelling of its bytes, whichever lenient decoder read it, and
   any other accepted spelling of the same bytes is the same text.
   */
  lemma AcceptedSpellingIsUnique(crypto: Crypto, other: Crypto, s: string, t: string)
    requires Base64UrlDecode(crypto, s).Some? && Base64UrlDecode(other, t).Some?
    ensures s == t <==> Base64UrlDecode(crypto, s) == Base64UrlDecode(other, t)
    ensures IsSpelling(s) && Decode(s) == Base64UrlDecode(crypto, s)
  {
    var a, b := Base64UrlDecode(crypto, s).value, Base64UrlDecode(other, t).value;
    DecodeUndoesEncode(a);
    DecodeUndoesEncode(b);
  }

  // ----- one entry -----

  predicate IsKeyId(value: Json) {
    value.JString? && 0 < |value.text| <= MAX_KEY_ID_CHARACTERS
  }

  function Get(jwk: map<string, Json>, name: string, default: Json): Json {
    if name in jwk then jwk[name] else default
  }

  predicate IsRs256VerificationKey(jwk: map<string, Json>) {
    var keyOperations := Get(jwk, "key_ops", JList([JString("verify")]));
    && Get(jwk, "kty", JOther) == JString("RSA")
    && Get(jwk, "alg", JString("RS256")) == JString("RS256")
    && Get(jwk, "use", JString("sig")) == JString("sig")
    && keyOperations.JList?
    && JString("verify") in keyOperations.items
  }

  function DeclaredKeyId(jwk: map<string, Json>): Result<Option<string>, RefreshFailure> {
    if "kid" !in jwk then Success(None)
    else if !IsKeyId(jwk["kid"]) then Failure(MalformedKey)
    else Success(Some(jwk["kid"].text))
  }

  function PublicSigningKey(crypto: Crypto, jwk: map<string, Json>)
    : Result<(Option<string>, Key), RefreshFailure>
  {
    match DeclaredKeyId(jwk)
    case Failure(failure) => Failure(failure)
    case Success(keyId) =>
      var modulus, exponent := Get(jwk, "n", JOther), Get(jwk, "e", JOther);
      if !modulus.JString? || !exponent.JString? then Failure(MalformedKey)
      else
        match (Base64UrlDecode(crypto, exponent.text), Base64UrlDecode(crypto, modulus.text))
        case (Some(e), Some(n)) =>
          (match crypto.keyBits(BigEndian(e), BigEndian(n))
           case None => Failure(InvalidRsaKey)
           case Some(bits) =>
             if bits < MIN_RSA_KEY_BITS then Failure(KeyTooShort)
             else Success((keyId, Key(BigEndian(e), BigEndian(n)))))
        case _ => Failure(InvalidRsaKey)
  }

  // ----- the loop over the entries -----

  datatype Progress = Progress(named: map<string, Key>, eligible: nat, lastKey: Option<Key>)

  /** What one entry makes of the keys read before it. */
  function ReadEntry(crypto: Crypto, read: Progress, jwk: Json): Result<Progress, RefreshFailure> {
    if !jwk.JObject? then Failure(KeyNotAnObject)
    else if !(jwk.members.Keys !! SECRET_KEY_MEMBERS) then Failure(SecretKeyPublished)
    else if !IsRs256VerificationKey(jwk.members) then Success(read)
    else if read.eligible == MAX_KEY_SET_KEYS then Failure(KeyCountOutOfRange)
    else
      match PublicSigningKey(crypto, jwk.members)
      case Failure(failure) => Failure(failure)
      case Success((None, key)) => Success(Progress(read.named, read.eligible + 1, Some(key)))
      case Success((Some(keyId), key)) =>
        if keyId in read.named then Failure(DuplicateKeyId)
        else Success(Progress(read.named[keyId := key], read.eligible + 1, Some(key)))
  }

  function ReadEntries(crypto: Crypto, jwks: seq<Json>): Result<Progress, RefreshFailure> {
    if jwks == [] then Success(Progress(map[], 0, None))
    else
      match ReadEntries(crypto, jwks[..|jwks| - 1])
      case Failure(failure) => Failure(failure)
      case Success(read) => ReadEntry(crypto, read, jwks[|jwks| - 1])
  }

  function VerificationKeys(crypto: Crypto, jwks: seq<Json>): Result<SigningKeys, RefreshFailure> {
    match ReadEntries(crypto, jwks)
    case Failure(failure) => Failure(failure)
    case Success(read) =>
      if read.eligible == 0 then Failure(NoRs256SigningKey)
      else Success(SigningKeys(read.named, if read.eligible == 1 then read.lastKey else None))
  }

  lemma {:induction false} FailureIsFinal(crypto: Crypto, jwks: seq<Json>, i: nat)
    requires i <= |jwks|
    requires ReadEntries(crypto, jwks[..i]).Failure?
    ensures ReadEntries(crypto, jwks) == ReadEntries(crypto, jwks[..i])
    decreases |jwks|
  {
    if i < |jwks| {
      assert jwks[..|jwks| - 1][..i] == jwks[..i];
      FailureIsFinal(crypto, jwks[..|jwks| - 1], i);
    } else {
      assert jwks[..i] == jwks;
    }
  }

  /** The loop as the program runs it, stopping at the first refusal. */
  method Rs256VerificationKeys(crypto: Crypto, jwks: seq<Json>)
    returns (r: Result<SigningKeys, RefreshFailure>)
    ensures r == VerificationKeys(crypto, jwks)
  {
    var named: map<string, Key> := map[];
    var eligible: nat := 0;
    var lastKey: Option<Key> := None;
    for i := 0 to |jwks|
      invariant ReadEntries(crypto, jwks[..i]) == Success(Progress(named, eligible, lastKey))
    {
      assert jwks[..i + 1][..i] == jwks[..i];
      match ReadEntry(crypto, Progress(named, eligible, lastKey), jwks[i]) {
        case Failure(failure) =>
          FailureIsFinal(crypto, jwks, i + 1);
          return Failure(failure);
        case Success(read) =>
          named, eligible, lastKey := read.named, read.eligible, read.lastKey;
      }
    }
    assert jwks[..|jwks|] == jwks;
    if eligible == 0 {
      return Failure(NoRs256SigningKey);
    }
    return Success(SigningKeys(named, if eligible == 1 then lastKey else None));
  }

  function Parse(crypto: Crypto, document: Document): Result<SigningKeys, RefreshFailure> {
    if document.size > MAX_KEY_SET_BYTES then Failure(TooLarge)
    else if document.content.None? then Failure(NotJson)
    else
      var jwks := Get(document.content.value, "keys", JOther);
      if !jwks.JList? || jwks.items == [] then Failure(KeyCountOutOfRange)
      else VerificationKeys(crypto, jwks.items)
  }

  // ----- the reference: which key sets are acceptable, and what they hold -----

  /** An entry that leaves the whole set trustworthy: an object with none of the members of a private or symmetric key. */
  predicate IsClean(jwk: Json) {
    && jwk.JObject?
    && "d" !in jwk.members && "p" !in jwk.members && "q" !in jwk.members && "dp" !in jwk.members
    && "dq" !in jwk.members && "qi" !in jwk.members && "oth" !in jwk.members && "k" !in jwk.members
  }

  /** An RSA key none of whose limits, where it names them, rules out verifying an RS256 signature. */
  predicate IsEligible(jwk: Json) {
    && jwk.JObject?
    && "kty" in jwk.members && jwk.members["kty"] == JString("RSA")
    && ("alg" in jwk.members ==> jwk.members["alg"] == JString("RS256"))
    && ("use" in jwk.members ==> jwk.members["use"] == JString("sig"))
    && ("key_ops" in jwk.members ==>
          jwk.members["key_ops"].JList? && JString("verify") in jwk.members["key_ops"].items)
  }

  /** The program's two tests of an object are these. */
  lemma EntryTestsExactly(members: map<string, Json>)
    ensures members.Keys !! SECRET_KEY_MEMBERS <==> IsClean(JObject(members))
    ensures IsRs256VerificationKey(members) <==> IsEligible(JObject(members))
  {
    assert JString("verify") in [JString("verify")];
    if members.Keys !! SECRET_KEY_MEMBERS {
      assert forall name :: name in SECRET_KEY_MEMBERS ==> name !in members;
    }
  }

  /** The entries that are RS256 verification keys, in order. */
  function Eligible(jwks: seq<Json>): (es: seq<Json>)
    ensures forall e :: e in es <==> e in jwks && IsEligible(e)
  {
    if jwks == [] then []
    else
      var before := Eligible(jwks[..|jwks| - 1]);
      var last := jwks[|jwks| - 1];
      assert jwks == jwks[..|jwks| - 1] + [last];
      if IsEligible(last) then before + [last] else before
  }

  /** A member that is base64url text the decoder reads and that spells its bytes canonically. */
  predicate IsNumber(crypto: Crypto, jwk: map<string, Json>, name: string) {
    name in jwk && jwk[name].JString? &&
    match crypto.lenientDecode(jwk[name].text)
    case None => false
    case Some(bytes) => jwk[name].text == Encode(bytes)
  }

  function NumberOf(crypto: Crypto, jwk: map<string, Json>, name: string): nat
    requires IsNumber(crypto, jwk, name)
  {
    BigEndian(crypto.lenientDecode(jwk[name].text).value)
  }

  /**
   A verification key: its id absent or 1 to 128 characters, its modulus and exponent canonical
   numbers, and an RSA key of at least 2048 bits made of them.
   */
  predicate IsWellFormed(crypto: Crypto, jwk: Json) {
    && jwk.JObject?
    && var members := jwk.members;
       && ("kid" in members ==> members["kid"].JString? && 1 <= |members["kid"].text| <= 128)
       && IsNumber(crypto, members, "n") && IsNumber(crypto, members, "e")
       && var bits := crypto.keyBits(NumberOf(crypto, members, "e"), NumberOf(crypto, members, "n"));
          bits.Some? && bits.value >= 2048
  }

  function KeyIdOf(crypto: Crypto, jwk: Json): Option<string> {
    if IsWellFormed(crypto, jwk) && "kid" in jwk.members then Some(jwk.members["kid"].text) else None
  }

  function KeyOf(crypto: Crypto, jwk: Json): Key
    requires IsWellFormed(crypto, jwk)
  {
    Key(NumberOf(crypto, jwk.members, "e"), NumberOf(crypto, jwk.members, "n"))
  }

  /** The reader of one entry succeeds exactly on a well-formed key, with its id and its numbers. */
  lemma OneKeyExactly(crypto: Crypto, jwk: Json)
    requires jwk.JObject?
    ensures PublicSigningKey(crypto, jwk.members).Success? <==> IsWellFormed(crypto, jwk)
    ensures IsWellFormed(crypto, jwk) ==>
              PublicSigningKey(crypto, jwk.members) == Success((KeyIdOf(crypto, jwk), KeyOf(crypto, jwk)))
  {
  }

  /** A decoder that reads every canonical spelling, as the standard library's does. */
  ghost predicate ReadsSpellings(crypto: Crypto) {
    forall bytes :: crypto.lenientDecode(Encode(bytes)) == Some(bytes)
  }

  lemma SomeDecoderReadsSpellings(crypto: Crypto)
    ensures ReadsSpellings(crypto.(lenientDecode := s => if IsSpelling(s) then Decode(s) else None))
  {
    forall bytes ensures Decode(Encode(bytes)) == Some(bytes) {
      DecodeUndoesEncode(bytes);
    }
  }

  /** With such a decoder the accepted numbers are exactly the canonical spellings of some bytes. */
  lemma NumbersAreTheSpellings(crypto: Crypto, s: string)
    requires ReadsSpellings(crypto)
    ensures Base64UrlDecode(crypto, s).Some? <==> exists bytes :: Encode(bytes) == s
  {
    if Base64UrlDecode(crypto, s).Some? {
      assert Encode(Base64UrlDecode(crypto, s).value) == s;
    }
  }

  /** What the reference reads of one entry, if it is a verification key. */
  datatype SigningKey = SigningKey(keyId: Option<string>, key: Key)

  type Reader = Json -> Option<SigningKey>

  function ReaderOf(crypto: Crypto): Reader {
    jwk => if IsWellFormed(crypto, jwk) then Some(SigningKey(KeyIdOf(crypto, jwk), KeyOf(crypto, jwk))) else None
  }

  function IdIn(reader: Reader, jwk: Json): Option<string> {
    if reader(jwk).Some? then reader(jwk).value.keyId else None
  }

  ghost predicate HaveDistinctKeyIds(reader: Reader, es: seq<Json>) {
    forall i, j :: 0 <= i < j < |es| && IdIn(reader, es[i]).Some? ==>
      IdIn(reader, es[i]) != IdIn(reader, es[j])
  }

  ghost predicate IsReadable(crypto: Crypto, jwks: seq<Json>) {
    && (forall e :: e in jwks ==> IsClean(e))
    && |Eligible(jwks)| <= 10
    && AreReadable(crypto, Eligible(jwks))
  }

  ghost predicate IsAcceptable(crypto: Crypto, jwks: seq<Json>) {
    IsReadable(crypto, jwks) && 1 <= |Eligible(jwks)|
  }

  /** `named` holds exactly the named eligible keys, each under its own id. */
  ghost predicate NamesExactly(reader: Reader, named: map<string, Key>, es: seq<Json>)
    requires forall e :: e in es ==> reader(e).Some?
  {
    && (forall e :: e in es && IdIn(reader, e).Some? ==>
          IdIn(reader, e).value in named && named[IdIn(reader, e).value] == reader(e).value.key)
    && (forall keyId :: keyId in named ==> exists e :: e in es && IdIn(reader, e) == Some(keyId))
  }

  ghost predicate Represents(reader: Reader, read: Progress, es: seq<Json>) {
    && (forall e :: e in es ==> reader(e).Some?)
    && read.eligible == |es|
    && NamesExactly(reader, read.named, es)
    && read.lastKey == if es == [] then None else Some(reader(es[|es| - 1]).value.key)
  }

  lemma NameIsFreshExactlyWhenDistinct(reader: Reader, named: map<string, Key>, es: seq<Json>, last: Json)
    requires forall e :: e in es ==> reader(e).Some?
    requires NamesExactly(reader, named, es) && HaveDistinctKeyIds(reader, es)
    ensures HaveDistinctKeyIds(reader, es + [last]) <==>
            (IdIn(reader, last).Some? ==> IdIn(reader, last).value !in named)
  {
    var all := es + [last];
    if IdIn(reader, last).Some? && IdIn(reader, last).value in named {
      var e :| e in es && IdIn(reader, e) == IdIn(reader, last);
      var i :| 0 <= i < |es| && es[i] == e;
      assert all[i] == e && all[|es|] == last;
    }
  }

  function Named(reader: Reader, named: map<string, Key>, last: Json): map<string, Key>
    requires reader(last).Some?
  {
    match IdIn(reader, last)
    case None => named
    case Some(keyId) => named[keyId := reader(last).value.key]
  }

  lemma NamesWithOneMore(reader: Reader, named: map<string, Key>, es: seq<Json>, last: Json)
    requires forall e :: e in es ==> reader(e).Some?
    requires reader(last).Some?
    requires NamesExactly(reader, named, es)
    requires IdIn(reader, last).Some? ==> IdIn(reader, last).value !in named
    ensures forall e :: e in es + [last] ==> reader(e).Some?
    ensures NamesExactly(reader, Named(reader, named, last), es + [last])
  {
    var all, now := es + [last], Named(reader, named, last);
    forall keyId | keyId in now ensures exists e :: e in all && IdIn(reader, e) == Some(keyId) {
      if keyId in named {
        var e :| e in es && IdIn(reader, e) == Some(keyId);
        assert e in all;
      } else {
        assert last in all;
      }
    }
  }

  /** An entry that is not clean ends the reading, a clean one that is not eligible is passed over. */
  lemma ReadOtherEntry(crypto: Crypto, read: Progress, jwk: Json)
    ensures !IsClean(jwk) ==> ReadEntry(crypto, read, jwk).Failure?
    ensures IsClean(jwk) && !IsEligible(jwk) ==> ReadEntry(crypto, read, jwk) == Success(read)
  {
    if jwk.JObject? {
      EntryTestsExactly(jwk.members);
    }
  }

  /** One eligible entry, read through the reference. */
  lemma ReadEligibleEntry(crypto: Crypto, read: Progress, jwk: Json)
    requires IsClean(jwk) && IsEligible(jwk)
    ensures var key := ReaderOf(crypto)(jwk);
            && (ReadEntry(crypto, read, jwk).Success? <==>
                  && read.eligible != MAX_KEY_SET_KEYS && key.Some?
                  && (key.value.keyId.Some? ==> key.value.keyId.value !in read.named))
            && (ReadEntry(crypto, read, jwk).Success? ==>
                  ReadEntry(crypto, read, jwk).value
                  == Progress(Named(ReaderOf(crypto), read.named, jwk), read.eligible + 1, Some(key.value.key)))
  {
    EntryTestsExactly(jwk.members);
    OneKeyExactly(crypto, jwk);
  }

  lemma OneMoreRepresented(reader: Reader, read: Progress, es: seq<Json>, last: Json)
    requires Represents(reader, read, es) && HaveDistinctKeyIds(reader, es) && reader(last).Some?
    ensures HaveDistinctKeyIds(reader, es + [last]) <==>
            (IdIn(reader, last).Some? ==> IdIn(reader, last).value !in read.named)
    ensures HaveDistinctKeyIds(reader, es + [last]) ==>
              Represents(reader, Progress(Named(reader, read.named, last), |es| + 1, Some(reader(last).value.key)), es + [last])
  {
    NameIsFreshExactlyWhenDistinct(reader, read.named, es, last);
    if HaveDistinctKeyIds(reader, es + [last]) {
      NamesWithOneMore(reader, read.named, es, last);
    }
  }

  lemma ReadingOneEligibleEntry(crypto: Crypto, read: Progress, es: seq<Json>, last: Json)
    requires Represents(ReaderOf(crypto), read, es)
    requires |es| <= MAX_KEY_SET_KEYS && HaveDistinctKeyIds(ReaderOf(crypto), es)
    requires IsClean(last) && IsEligible(last)
    ensures ReadEntry(crypto, read, last).Success? <==>
            && |es| < MAX_KEY_SET_KEYS && ReaderOf(crypto)(last).Some?
            && HaveDistinctKeyIds(ReaderOf(crypto), es + [last])
    ensures ReadEntry(crypto, read, last).Success? ==>
            Represents(ReaderOf(crypto), ReadEntry(crypto, read, last).value, es + [last])
  {
    ReadEligibleEntry(crypto, read, last);
    if ReaderOf(crypto)(last).Some? {
      OneMoreRepresented(ReaderOf(crypto), read, es, last);
    }
  }

  lemma EligibleOneMore(before: seq<Json>, last: Json)
    ensures Eligible(before + [last]) == Eligible(before) + if IsEligible(last) then [last] else []
  {
    assert (before + [last])[..|before|] == before;
    assert Eligible(before) + [] == Eligible(before);
  }

  /** The eligible entries are well formed, and no two share a key id. */
  ghost predicate AreReadable(crypto: Crypto, es: seq<Json>) {
    && (forall e :: e in es ==> IsWellFormed(crypto, e))
    && HaveDistinctKeyIds(ReaderOf(crypto), es)
  }

  lemma OneMoreReadable(crypto: Crypto, es: seq<Json>, last: Json)
    ensures AreReadable(crypto, es + [last]) <==>
            && AreReadable(crypto, es) && IsWellFormed(crypto, last) && HaveDistinctKeyIds(ReaderOf(crypto), es + [last])
  {
    if HaveDistinctKeyIds(ReaderOf(crypto), es + [last]) {
      FewerAreDistinct(ReaderOf(crypto), es, es + [last]);
    }
  }

  lemma ReadableOneEntryFurther(crypto: Crypto, before: seq<Json>, last: Json)
    ensures Eligible(before + [last]) == Eligible(before) + if IsEligible(last) then [last] else []
    ensures IsReadable(crypto, before + [last]) <==>
            && IsReadable(crypto, before)
            && IsClean(last)
            && (IsEligible(last) ==>
                  && |Eligible(before)| < MAX_KEY_SET_KEYS
                  && IsWellFormed(crypto, last)
                  && HaveDistinctKeyIds(ReaderOf(crypto), Eligible(before) + [last]))
  {
    EligibleOneMore(before, last);
    OneMoreReadable(crypto, Eligible(before), last);
    assert forall e :: e in before + [last] <==> e in before || e == last;
    assert Eligible(before) + [] == Eligible(before);
  }

  lemma FewerAreDistinct(reader: Reader, es: seq<Json>, all: seq<Json>)
    requires HaveDistinctKeyIds(reader, all) && es <= all
    ensures HaveDistinctKeyIds(reader, es)
  {
    forall i, j | 0 <= i < j < |es| && IdIn(reader, es[i]).Some? ensures IdIn(reader, es[i]) != IdIn(reader, es[j]) {
      assert all[i] == es[i] && all[j] == es[j];
    }
  }

  /** The loop succeeds exactly on the readable sets, and then holds exactly their keys. */
  lemma {:induction false} ReadingMatchesTheReference(crypto: Crypto, jwks: seq<Json>)
    ensures ReadEntries(crypto, jwks).Success? <==> IsReadable(crypto, jwks)
    ensures IsReadable(crypto, jwks) ==> Represents(ReaderOf(crypto), ReadEntries(crypto, jwks).value, Eligible(jwks))
  {
    if jwks != [] {
      var before, last := jwks[..|jwks| - 1], jwks[|jwks| - 1];
      assert jwks == before + [last];
      ReadingMatchesTheReference(crypto, before);
      if IsReadable(crypto, before) {
        ReadingOneEntry(crypto, before, last);
      }
      ReadableOneEntryFurther(crypto, before, last);
    }
  }

  lemma ReadingOneEntry(crypto: Crypto, before: seq<Json>, last: Json)
    requires IsReadable(crypto, before) && ReadEntries(crypto, before).Success?
    requires Represents(ReaderOf(crypto), ReadEntries(crypto, before).value, Eligible(before))
    ensures var read := ReadEntry(crypto, ReadEntries(crypto, before).value, last);
            && (read.Success? <==> IsReadable(crypto, before + [last]))
            && (read.Success? ==> Represents(ReaderOf(crypto), read.value, Eligible(before + [last])))
  {
    var read := ReadEntries(crypto, before).value;
    ReadableOneEntryFurther(crypto, before, last);
    ReadOtherEntry(crypto, read, last);
    if IsClean(last) && IsEligible(last) {
      ReadingOneEligibleEntry(crypto, read, Eligible(before), last);
    } else if IsClean(last) {
      assert Eligible(before) + [] == Eligible(before);
    }
  }

  /**
   A key set is accepted exactly when every entry is an object without a secret, one to ten
   entries are eligible, each of those is well formed, and no two share a key id. What it then
   holds is exactly the named eligible keys, and `sole` exactly for one eligible key.
   */
  lemma AcceptedExactly(crypto: Crypto, jwks: seq<Json>)
    ensures VerificationKeys(crypto, jwks).Success? <==> IsAcceptable(crypto, jwks)
    ensures IsAcceptable(crypto, jwks) ==>
              var keys, es := VerificationKeys(crypto, jwks).value, Eligible(jwks);
              && NamesExactly(ReaderOf(crypto), keys.named, es)
              && keys.sole == if |es| == 1 then Some(KeyOf(crypto, es[0])) else None
  {
    ReadingMatchesTheReference(crypto, jwks);
  }

  // ----- which refusal -----

  predicate IsText(jwk: map<string, Json>, name: string) {
    name in jwk && jwk[name].JString?
  }

  /** Its id, if any, is 1 to 128 characters, and both its numbers are texts. */
  predicate HasItsFields(members: map<string, Json>) {
    && ("kid" in members ==> members["kid"].JString? && 1 <= |members["kid"].text| <= 128)
    && IsText(members, "n") && IsText(members, "e")
  }

  /** ... and an RSA key is made of them. */
  predicate HasAKey(crypto: Crypto, members: map<string, Json>) {
    && HasItsFields(members) && IsNumber(crypto, members, "n") && IsNumber(crypto, members, "e")
    && crypto.keyBits(NumberOf(crypto, members, "e"), NumberOf(crypto, members, "n")).Some?
  }

  ghost predicate RepeatsAKeyId(crypto: Crypto, es: seq<Json>, jwk: Json) {
    KeyIdOf(crypto, jwk).Some? && exists e :: e in es && KeyIdOf(crypto, e) == KeyIdOf(crypto, jwk)
  }

  /** What refuses the whole set at an entry behind readable ones, the first cause that applies. */
  ghost predicate IsRefusedAs(crypto: Crypto, es: seq<Json>, jwk: Json, failure: RefreshFailure) {
    match failure
    case KeyNotAnObject => !jwk.JObject?
    case SecretKeyPublished => jwk.JObject? && !IsClean(jwk)
    case KeyCountOutOfRange => IsClean(jwk) && IsEligible(jwk) && |es| == 10
    case MalformedKey => IsClean(jwk) && IsEligible(jwk) && |es| < 10 && !HasItsFields(jwk.members)
    case InvalidRsaKey =>
      IsClean(jwk) && IsEligible(jwk) && |es| < 10 && HasItsFields(jwk.members) && !HasAKey(crypto, jwk.members)
    case KeyTooShort =>
      IsClean(jwk) && IsEligible(jwk) && |es| < 10 && HasAKey(crypto, jwk.members) && !IsWellFormed(crypto, jwk)
    case DuplicateKeyId =>
      IsClean(jwk) && IsEligible(jwk) && |es| < 10 && IsWellFormed(crypto, jwk) && RepeatsAKeyId(crypto, es, jwk)
    case _ => false
  }

  /** Why the reader of one entry refuses it. */
  lemma OneKeyRefusal(crypto: Crypto, jwk: Json)
    requires jwk.JObject? && !IsWellFormed(crypto, jwk)
    ensures PublicSigningKey(crypto, jwk.members)
         == Failure(if !HasItsFields(jwk.members) then MalformedKey
                    else if !HasAKey(crypto, jwk.members) then InvalidRsaKey else KeyTooShort)
  {
  }

  lemma RefusedEntry(crypto: Crypto, read: Progress, es: seq<Json>, jwk: Json, failure: RefreshFailure)
    requires Represents(ReaderOf(crypto), read, es) && |es| <= 10 && IsRefusedAs(crypto, es, jwk, failure)
    ensures ReadEntry(crypto, read, jwk) == Failure(failure)
  {
    if jwk.JObject? {
      EntryTestsExactly(jwk.members);
      if IsWellFormed(crypto, jwk) {
        OneKeyExactly(crypto, jwk);
        KeyIdsRead(crypto, read, es, jwk);
      } else {
        OneKeyRefusal(crypto, jwk);
      }
    }
  }

  lemma KeyIdsRead(crypto: Crypto, read: Progress, es: seq<Json>, jwk: Json)
    requires Represents(ReaderOf(crypto), read, es) && IsWellFormed(crypto, jwk)
    ensures RepeatsAKeyId(crypto, es, jwk) <==> KeyIdOf(crypto, jwk).Some? && KeyIdOf(crypto, jwk).value in read.named
  {
    var reader := ReaderOf(crypto);
    assert forall e :: e in es ==> IdIn(reader, e) == KeyIdOf(crypto, e);
    if KeyIdOf(crypto, jwk).Some? && KeyIdOf(crypto, jwk).value in read.named {
      var e :| e in es && IdIn(reader, e) == KeyIdOf(crypto, jwk);
      assert KeyIdOf(crypto, e) == KeyIdOf(crypto, jwk);
    }
  }

  lemma SomeRefusal(crypto: Crypto, read: Progress, es: seq<Json>, jwk: Json) returns (failure: RefreshFailure)
    requires Represents(ReaderOf(crypto), read, es) && |es| <= 10 && ReadEntry(crypto, read, jwk).Failure?
    ensures IsRefusedAs(crypto, es, jwk, failure)
  {
    if !jwk.JObject? {
      failure := KeyNotAnObject;
    } else {
      EntryTestsExactly(jwk.members);
      failure := if !IsClean(jwk) then SecretKeyPublished else if |es| == 10 then KeyCountOutOfRange
                 else if !HasItsFields(jwk.members) then MalformedKey
                 else if !HasAKey(crypto, jwk.members) then InvalidRsaKey
                 else if !IsWellFormed(crypto, jwk) then KeyTooShort else DuplicateKeyId;
      if IsWellFormed(crypto, jwk) {
        OneKeyExactly(crypto, jwk);
        KeyIdsRead(crypto, read, es, jwk);
      }
    }
  }

  /** What is read up to an entry behind readable ones. */
  lemma ReadUpTo(crypto: Crypto, before: seq<Json>, last: Json)
    requires IsReadable(crypto, before)
    ensures ReadEntries(crypto, before).Success? && |Eligible(before)| <= 10
    ensures Represents(ReaderOf(crypto), ReadEntries(crypto, before).value, Eligible(before))
    ensures ReadEntries(crypto, before + [last]) == ReadEntry(crypto, ReadEntries(crypto, before).value, last)
    ensures ReadEntries(crypto, before + [last]).Failure? <==> !IsReadable(crypto, before + [last])
  {
    ReadingMatchesTheReference(crypto, before);
    ReadingMatchesTheReference(crypto, before + [last]);
    ReadOneMore(crypto, before, last);
  }

  /** At the first entry that is refused the reading ends with just the failure that the entry is refused as. */
  lemma RefusalEndsTheReading(crypto: Crypto, before: seq<Json>, last: Json, failure: RefreshFailure)
    requires IsReadable(crypto, before)
    ensures IsRefusedAs(crypto, Eligible(before), last, failure) <==> ReadEntries(crypto, before + [last]) == Failure(failure)
  {
    ReadUpTo(crypto, before, last);
    var read := ReadEntries(crypto, before).value;
    if IsRefusedAs(crypto, Eligible(before), last, failure) {
      RefusedEntry(crypto, read, Eligible(before), last, failure);
    } else if ReadEntry(crypto, read, last).Failure? {
      var other := SomeRefusal(crypto, read, Eligible(before), last);
      RefusedEntry(crypto, read, Eligible(before), last, other);
    }
  }

  /**
   The first entry that is refused decides with which failure the whole set is, and which entry that is
   and which failure are told by the entries up to it.
   */
  lemma FirstRefusalDecides(crypto: Crypto, jwks: seq<Json>, k: nat, failure: RefreshFailure)
    requires k < |jwks| && IsReadable(crypto, jwks[..k])
    ensures IsRefusedAs(crypto, Eligible(jwks[..k]), jwks[k], failure) <==>
            !IsReadable(crypto, jwks[..k + 1]) && VerificationKeys(crypto, jwks) == Failure(failure)
  {
    assert jwks[..k + 1] == jwks[..k] + [jwks[k]];
    ReadUpTo(crypto, jwks[..k], jwks[k]);
    RefusalEndsTheReading(crypto, jwks[..k], jwks[k], failure);
    if ReadEntries(crypto, jwks[..k + 1]).Failure? {
      FailureIsFinal(crypto, jwks, k + 1);
    }
  }

  /** A readable set is refused only for holding no key. */
  lemma OnlyEmptyReadableSetsAreRefused(crypto: Crypto, jwks: seq<Json>)
    requires IsReadable(crypto, jwks)
    ensures VerificationKeys(crypto, jwks).Failure? <==> Eligible(jwks) == []
    ensures Eligible(jwks) == [] ==> VerificationKeys(crypto, jwks) == Failure(NoRs256SigningKey)
  {
    ReadingMatchesTheReference(crypto, jwks);
  }

  // ----- order and passed-over entries -----

  lemma {:induction false} EligibleCounts(jwks: seq<Json>, e: Json)
    ensures multiset(Eligible(jwks))[e] == if IsEligible(e) then multiset(jwks)[e] else 0
  {
    if jwks != [] {
      var before, last := jwks[..|jwks| - 1], jwks[|jwks| - 1];
      assert jwks == before + [last];
      EligibleCounts(before, e);
    }
  }

  lemma EligibleOfPermutation(a: seq<Json>, b: seq<Json>)
    requires multiset(a) == multiset(b)
    ensures multiset(Eligible(a)) == multiset(Eligible(b))
    ensures |Eligible(a)| == |Eligible(b)|
    ensures forall e :: e in Eligible(a) <==> e in Eligible(b)
  {
    forall e: Json ensures multiset(Eligible(a))[e] == multiset(Eligible(b))[e] {
      EligibleCounts(a, e);
      EligibleCounts(b, e);
    }
    assert |Eligible(a)| == |multiset(Eligible(a))| && |Eligible(b)| == |multiset(Eligible(b))|;
    assert forall e :: e in Eligible(a) <==> e in multiset(Eligible(a));
    assert forall e :: e in Eligible(b) <==> e in multiset(Eligible(b));
  }

  lemma TwoPositions(s: seq<Json>, e: Json) returns (i: nat, j: nat)
    requires multiset(s)[e] >= 2
    ensures i < j < |s| && s[i] == e && s[j] == e
  {
    i :| 0 <= i < |s| && s[i] == e;
    assert s == s[..i] + [e] + s[i + 1..];
    var rest := s[..i] + s[i + 1..];
    assert multiset(rest)[e] >= 1;
    var k :| 0 <= k < |rest| && rest[k] == e;
    j := if k < i then k else k + 1;
    assert s[j] == e;
    if j < i {
      i, j := j, i;
    }
  }

  lemma DistinctKeyIdsOfPermutation(reader: Reader, a: seq<Json>, b: seq<Json>)
    requires multiset(a) == multiset(b) && HaveDistinctKeyIds(reader, a)
    ensures HaveDistinctKeyIds(reader, b)
  {
    forall i, j | 0 <= i < j < |b| && IdIn(reader, b[i]).Some?
      ensures IdIn(reader, b[i]) != IdIn(reader, b[j])
    {
      if b[i] == b[j] {
        assert b == b[..i] + [b[i]] + b[i + 1..j] + [b[j]] + b[j + 1..];
        assert multiset(b)[b[i]] >= 2;
        var k, l := TwoPositions(a, b[i]);
        assert false;
      } else {
        assert b[i] in multiset(a) && b[j] in multiset(a);
        var k :| 0 <= k < |a| && a[k] == b[i];
        var l :| 0 <= l < |a| && a[l] == b[j];
        assert k < l || l < k;
      }
    }
  }

  lemma AcceptableInAnyOrder(crypto: Crypto, a: seq<Json>, b: seq<Json>)
    requires multiset(a) == multiset(b) && IsAcceptable(crypto, a)
    ensures IsAcceptable(crypto, b)
  {
    EligibleOfPermutation(a, b);
    DistinctKeyIdsOfPermutation(ReaderOf(crypto), Eligible(a), Eligible(b));
    forall e | e in b ensures IsClean(e) {
      assert e in multiset(a);
    }
  }

  lemma SameNames(reader: Reader, named: map<string, Key>, es: seq<Json>, other: map<string, Key>, fs: seq<Json>)
    requires forall e :: e in es <==> e in fs
    requires forall e :: e in es ==> reader(e).Some?
    requires NamesExactly(reader, named, es) && NamesExactly(reader, other, fs)
    ensures named == other
  {
    forall keyId | keyId in named ensures keyId in other && other[keyId] == named[keyId] {
      var e :| e in es && IdIn(reader, e) == Some(keyId);
    }
    forall keyId | keyId in other ensures keyId in named {
      var e :| e in fs && IdIn(reader, e) == Some(keyId);
    }
  }

  lemma SameKeysInAnyOrder(crypto: Crypto, a: seq<Json>, b: seq<Json>)
    requires multiset(a) == multiset(b) && IsAcceptable(crypto, a) && IsAcceptable(crypto, b)
    ensures VerificationKeys(crypto, a) == VerificationKeys(crypto, b)
  {
    AcceptedExactly(crypto, a);
    AcceptedExactly(crypto, b);
    EligibleOfPermutation(a, b);
    var es, fs := Eligible(a), Eligible(b);
    SameNames(ReaderOf(crypto), VerificationKeys(crypto, a).value.named, es, VerificationKeys(crypto, b).value.named, fs);
    assert es[0] in fs;
  }

  /** Whether a key set is accepted, and what it then holds, does not depend on its order. */
  lemma OrderDoesNotMatter(crypto: Crypto, a: seq<Json>, b: seq<Json>)
    requires multiset(a) == multiset(b)
    ensures VerificationKeys(crypto, a).Success? == VerificationKeys(crypto, b).Success?
    ensures VerificationKeys(crypto, a).Success? ==> VerificationKeys(crypto, a) == VerificationKeys(crypto, b)
  {
    AcceptedExactly(crypto, a);
    AcceptedExactly(crypto, b);
    if IsAcceptable(crypto, a) {
      AcceptableInAnyOrder(crypto, a, b);
      SameKeysInAnyOrder(crypto, a, b);
    } else if IsAcceptable(crypto, b) {
      AcceptableInAnyOrder(crypto, b, a);
    }
  }

  /**
   An object that publishes no secret and is no RS256 verification key may stand anywhere among
   the entries: the answer, failure code included, is the one without it.
   */
  lemma {:induction false} PassedOverEntriesDoNotMatter(crypto: Crypto, a: seq<Json>, passedOver: Json, b: seq<Json>)
    requires IsClean(passedOver) && !IsEligible(passedOver)
    ensures ReadEntries(crypto, a + [passedOver] + b) == ReadEntries(crypto, a + b)
    ensures VerificationKeys(crypto, a + [passedOver] + b) == VerificationKeys(crypto, a + b)
    decreases |b|
  {
    if b == [] {
      assert a + [passedOver] + b == a + [passedOver] && a + b == a;
      ReadOneMore(crypto, a, passedOver);
    } else {
      var butLast, last := b[..|b| - 1], b[|b| - 1];
      PassedOverEntriesDoNotMatter(crypto, a, passedOver, butLast);
      assert a + [passedOver] + b == (a + [passedOver] + butLast) + [last];
      assert a + b == (a + butLast) + [last];
      ReadOneMore(crypto, a + [passedOver] + butLast, last);
      ReadOneMore(crypto, a + butLast, last);
    }
  }

  lemma ReadOneMore(crypto: Crypto, jwks: seq<Json>, last: Json)
    ensures ReadEntries(crypto, jwks + [last])
         == if ReadEntries(crypto, jwks).Failure? then ReadEntries(crypto, jwks)
            else ReadEntry(crypto, ReadEntries(crypto, jwks).value, last)
  {
    assert (jwks + [last])[..|jwks|] == jwks;
  }

  /**
   A document is accepted exactly when it is small enough, one JSON object, and its key list is
   acceptable; it then holds what that list holds, and each refusal before that has its own condition.
   */
  lemma ParsedExactly(crypto: Crypto, document: Document)
    ensures Parse(crypto, document).Success? <==>
            && document.size <= 65536
            && document.content.Some?
            && Get(document.content.value, "keys", JOther).JList?
            && IsAcceptable(crypto, Get(document.content.value, "keys", JOther).items)
    ensures document.size > 65536 ==> Parse(crypto, document) == Failure(TooLarge)
    ensures document.size <= 65536 && document.content.None? ==> Parse(crypto, document) == Failure(NotJson)
    ensures document.size <= 65536 && document.content.Some? ==>
              var jwks := Get(document.content.value, "keys", JOther);
              Parse(crypto, document) ==
              if jwks.JList? && jwks.items != [] then VerificationKeys(crypto, jwks.items) else Failure(KeyCountOutOfRange)
  {
    if document.content.Some? {
      var jwks := Get(document.content.value, "keys", JOther);
      if jwks.JList? {
        AcceptedExactly(crypto, jwks.items);
      }
    }
  }
}
