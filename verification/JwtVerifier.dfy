/**
 The verifier as an object whose calls do not overlap. Under interleaving it is the machine of
 `KeySetCache`, whose sequential runs answer by the same function of the attempts made and the last
 clock reading; here the refresh lock is free at every call, so it is not a field. Clock readings
 and the fetch's answer are parameters.
 */
module JwtVerifier {
  import opened Wrappers
  import opened KeySetDocument
  import opened KeySetCache

  class JwtVerifier {
    const parse: Parser
    var keySet: Option<KeySet>
    var lastRefreshAt: Option<real>
    var lastRefreshFailed: bool
    ghost var attempts: seq<Attempt>

    ghost predicate Valid()
      reads this
    {
      && keySet == LatestSuccess(parse, attempts)
      && lastRefreshAt == LastStamp(attempts)
      && lastRefreshFailed == LatestFailed(parse, attempts)
      && AreSpaced(attempts)
    }

    constructor (parse: Parser)
      ensures Valid() && attempts == [] && this.parse == parse
    {
      this.parse := parse;
      keySet, lastRefreshAt, lastRefreshFailed, attempts := None, None, false, [];
    }

    /** An attempt is made unless the last one is younger than the cooldown, failed or not. */
    method RefreshKeySet(now: real, answer: FetchAnswer)
      requires Valid()
      modifies this
      ensures Valid()
      ensures attempts == old(attempts) +
              if IsCoolingDown(old(lastRefreshAt), now) then [] else [Attempt(now, Some(answer))]
    {
      if lastRefreshAt != None && now - lastRefreshAt.value < KEY_SET_REFRESH_COOLDOWN_SECONDS {
        return;
      }
      lastRefreshAt := Some(now);
      ghost var before := attempts;
      attempts := attempts + [Attempt(now, Some(answer))];
      assert attempts[..|attempts| - 1] == before;
      match parse(answer) {
        case Success(keys) =>
          keySet := Some(KeySet(keys, now));
          lastRefreshFailed := false;
        case Failure(_) =>
          lastRefreshFailed := true;
      }
    }

    /**
     `first`, `refreshing` and `second` are the call's clock readings in the order it takes them;
     `answer` is what its fetch answers if it makes one. What is refused, and why, is told by the
     attempts made so far and the last reading alone.
     */
    method SigningKey(keyId: Option<string>, first: real, refreshing: real, second: real, answer: FetchAnswer)
      returns (r: Result<Key, RejectionReason>)
      requires Valid() && first <= refreshing <= second
      modifies this
      ensures Valid()
      ensures attempts == old(attempts) +
              if (IsCurrent(old(keySet), first) && !LacksKey(old(keySet), keyId)) || IsCoolingDown(old(lastRefreshAt), refreshing)
              then [] else [Attempt(refreshing, Some(answer))]
      ensures r == AnswerIn(LatestSuccess(parse, attempts), LatestFailed(parse, attempts), keyId, second)
      ensures var latest := LatestSuccess(parse, attempts);
              && (forall key :: r == Success(key) <==>
                    IsCurrent(latest, second) &&
                    match keyId
                    case Some(name) => name in latest.value.keys.named && key == latest.value.keys.named[name]
                    case None => latest.value.keys.sole == Some(key))
              && (r == Failure(UnknownKeyId) <==>
                    IsCurrent(latest, second) && LacksKey(latest, keyId) && !LatestFailed(parse, attempts))
              && (r == Failure(InvalidKeyId) <==>
                    IsCurrent(latest, second) && keyId.None? && latest.value.keys.sole.None?)
              && (r == Failure(KeySetUnavailable) <==>
                    !IsCurrent(latest, second) || (LacksKey(latest, keyId) && LatestFailed(parse, attempts)))
    {
      var snapshot := keySet;
      if !IsCurrent(snapshot, first) || LacksKey(snapshot, keyId) {
        RefreshKeySet(refreshing, answer);
        snapshot := keySet;
      }
      if !IsCurrent(snapshot, second) {
        return Failure(KeySetUnavailable);
      }
      match keyId {
        case None =>
          if snapshot.value.keys.sole.None? {
            return Failure(InvalidKeyId);
          }
          return Success(snapshot.value.keys.sole.value);
        case Some(name) =>
          if name in snapshot.value.keys.named {
            return Success(snapshot.value.keys.named[name]);
          }
          if lastRefreshFailed {
            return Failure(KeySetUnavailable);
          }
          return Failure(UnknownKeyId);
      }
    }
  }
}
