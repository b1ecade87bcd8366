/**
 How long a session stands: the admission decision and the renewal, over whole seconds.
 Instants are integers; the wall clock is a reading cut to its whole second.
 */
module SessionLifetime {

  const EXPIRY_TOLERANCE := 60
  const MAX_SESSION_LIFETIME_SECONDS := 400 * 24 * 60 * 60

  datatype Bounds = Bounds(idle: int, cap: int)

  /** What the configuration accepts: both positive, the cap bounded, and no idling past the cap. */
  type Lifetime = b: Bounds | 0 < b.idle <= b.cap <= MAX_SESSION_LIFETIME_SECONDS witness Bounds(1, 1)

  function Min(a: int, b: int): int { if a <= b then a else b }

  function RenewedExpiry(lifetime: Lifetime, now: int, createdAt: int): int {
    now + Min(lifetime.idle, lifetime.cap - (now - createdAt))
  }

  predicate IsAdmitted(lifetime: Lifetime, createdAt: int, expiresAt: int, now: int) {
    && createdAt <= now + EXPIRY_TOLERANCE
    && now <= expiresAt
    && expiresAt - now <= lifetime.idle + EXPIRY_TOLERANCE
    && expiresAt - createdAt <= lifetime.cap
  }

  /** `int(reading)`, which cuts toward zero. */
  function WholeSecond(reading: real): int {
    if reading >= 0.0 then reading.Floor else -(-reading).Floor
  }

  lemma WholeSecondExactly(reading: real, n: int)
    ensures n == WholeSecond(reading) <==>
            if reading >= 0.0 then n as real <= reading < n as real + 1.0 else n as real - 1.0 < reading <= n as real
  {
  }

  // ----- one session over a run of requests -----

  /** The stored expiry after requests at these instants, the session created at `createdAt`. */
  function ExpiryAfter(lifetime: Lifetime, createdAt: int, requests: seq<int>): int {
    if requests == [] then RenewedExpiry(lifetime, createdAt, createdAt)
    else
      var now := requests[|requests| - 1];
      var expiresAt := ExpiryAfter(lifetime, createdAt, requests[..|requests| - 1]);
      if IsAdmitted(lifetime, createdAt, expiresAt, now) then RenewedExpiry(lifetime, now, createdAt) else expiresAt
  }

  predicate AdmitsRequest(lifetime: Lifetime, createdAt: int, requests: seq<int>, i: nat)
    requires i < |requests|
  {
    IsAdmitted(lifetime, createdAt, ExpiryAfter(lifetime, createdAt, requests[..i]), requests[i])
  }

  ghost predicate AdmitsAll(lifetime: Lifetime, createdAt: int, requests: seq<int>) {
    forall i :: 0 <= i < |requests| ==> AdmitsRequest(lifetime, createdAt, requests, i)
  }

  /** The instant before request `i`: the request before it, or the sign-in. */
  function Previous(createdAt: int, requests: seq<int>, i: nat): int
    requires i <= |requests|
  {
    if i == 0 then createdAt else requests[i - 1]
  }

  ghost predicate InOrder(createdAt: int, requests: seq<int>) {
    forall i :: 0 <= i < |requests| ==> Previous(createdAt, requests, i) <= requests[i]
  }

  ghost predicate NeverIdlesLonger(lifetime: Lifetime, createdAt: int, requests: seq<int>) {
    forall i :: 0 <= i < |requests| ==> requests[i] - Previous(createdAt, requests, i) <= lifetime.idle
  }

  lemma ButLast(createdAt: int, requests: seq<int>)
    requires requests != []
    ensures var before := requests[..|requests| - 1];
            && (forall i :: 0 <= i < |before| ==> before[..i] == requests[..i])
            && (forall i :: 0 <= i <= |before| ==> Previous(createdAt, before, i) == Previous(createdAt, requests, i))
            && (InOrder(createdAt, requests) ==> InOrder(createdAt, before))
  {
    var before := requests[..|requests| - 1];
    forall i | 0 <= i < |before| ensures before[..i] == requests[..i] {}
  }

  /** With requests in order, the stored expiry stays in reach and only its passing refuses one. */
  lemma {:induction false} OnlyPassedExpiryRefuses(lifetime: Lifetime, createdAt: int, requests: seq<int>)
    requires InOrder(createdAt, requests)
    ensures var expiresAt := ExpiryAfter(lifetime, createdAt, requests);
            && createdAt <= Previous(createdAt, requests, |requests|)
            && expiresAt <= createdAt + lifetime.cap
            && expiresAt <= Previous(createdAt, requests, |requests|) + lifetime.idle
            && createdAt < expiresAt
    ensures forall now :: now >= Previous(createdAt, requests, |requests|) ==>
              (IsAdmitted(lifetime, createdAt, ExpiryAfter(lifetime, createdAt, requests), now) <==>
               now <= ExpiryAfter(lifetime, createdAt, requests))
    decreases |requests|
  {
    if requests != [] {
      ButLast(createdAt, requests);
      OnlyPassedExpiryRefuses(lifetime, createdAt, requests[..|requests| - 1]);
    }
  }

  lemma {:induction false} ExpiryAfterAllAdmitted(lifetime: Lifetime, createdAt: int, requests: seq<int>)
    requires InOrder(createdAt, requests) && AdmitsAll(lifetime, createdAt, requests)
    ensures ExpiryAfter(lifetime, createdAt, requests) ==
            Min(Previous(createdAt, requests, |requests|) + lifetime.idle, createdAt + lifetime.cap)
  {
    if requests != [] {
      assert AdmitsRequest(lifetime, createdAt, requests, |requests| - 1);
    }
  }

  lemma OneRequestMore(lifetime: Lifetime, createdAt: int, requests: seq<int>)
    requires requests != []
    ensures var before, last := requests[..|requests| - 1], |requests| - 1;
            && (forall i :: 0 <= i < last ==>
                  AdmitsRequest(lifetime, createdAt, before, i) == AdmitsRequest(lifetime, createdAt, requests, i))
            && (AdmitsAll(lifetime, createdAt, requests) <==>
                  AdmitsAll(lifetime, createdAt, before) && AdmitsRequest(lifetime, createdAt, requests, last))
            && (NeverIdlesLonger(lifetime, createdAt, requests) <==>
                  && NeverIdlesLonger(lifetime, createdAt, before)
                  && requests[last] - Previous(createdAt, requests, last) <= lifetime.idle)
  {
    ButLast(createdAt, requests);
  }

  /**
   The exact lifetime: requests in order are all admitted if and only if no gap, the first one
   from the sign-in included, is longer than the idle window and the last lies within the cap.
   */
  lemma {:induction false} ExactLifetime(lifetime: Lifetime, createdAt: int, requests: seq<int>)
    requires InOrder(createdAt, requests)
    ensures AdmitsAll(lifetime, createdAt, requests) <==>
            && NeverIdlesLonger(lifetime, createdAt, requests)
            && Previous(createdAt, requests, |requests|) <= createdAt + lifetime.cap
    decreases |requests|
  {
    if requests != [] {
      var before, last := requests[..|requests| - 1], |requests| - 1;
      ButLast(createdAt, requests);
      ExactLifetime(lifetime, createdAt, before);
      OneRequestMore(lifetime, createdAt, requests);
      OnlyPassedExpiryRefuses(lifetime, createdAt, before);
      assert AdmitsRequest(lifetime, createdAt, requests, last) <==>
             requests[last] <= ExpiryAfter(lifetime, createdAt, before);
      if AdmitsAll(lifetime, createdAt, before) {
        ExpiryAfterAllAdmitted(lifetime, createdAt, before);
      }
    }
  }

  lemma InOrderUpTo(createdAt: int, requests: seq<int>, i: nat)
    requires InOrder(createdAt, requests) && i <= |requests|
    ensures InOrder(createdAt, requests[..i])
    ensures forall k :: 0 <= k <= i ==> Previous(createdAt, requests[..i], k) == Previous(createdAt, requests, k)
  {
    assert forall k :: 0 <= k <= i ==> Previous(createdAt, requests[..i], k) == Previous(createdAt, requests, k);
  }

  lemma {:induction false} Ordered(createdAt: int, requests: seq<int>, i: nat, j: nat)
    requires InOrder(createdAt, requests) && i <= j < |requests|
    ensures Previous(createdAt, requests, i) <= requests[i] <= requests[j]
    decreases j
  {
    if i < j {
      Ordered(createdAt, requests, i, j - 1);
      assert Previous(createdAt, requests, j) <= requests[j];
    }
  }

  /** An in-order request never lowers the stored expiry, and a refused one leaves it alone. */
  lemma RequestNeverLowersExpiry(lifetime: Lifetime, createdAt: int, requests: seq<int>, j: nat)
    requires InOrder(createdAt, requests) && j < |requests|
    ensures var before, after := ExpiryAfter(lifetime, createdAt, requests[..j]), ExpiryAfter(lifetime, createdAt, requests[..j + 1]);
            && before <= after
            && (AdmitsRequest(lifetime, createdAt, requests, j) <==> requests[j] <= before)
            && (requests[j] > before ==> after == before)
  {
    InOrderUpTo(createdAt, requests, j);
    OnlyPassedExpiryRefuses(lifetime, createdAt, requests[..j]);
    Ordered(createdAt, requests, j, j);
    assert requests[..j + 1][..j] == requests[..j];
  }

  /**
   Stored expiries never decrease, and once a request is refused the expiry stays as it is and
   every later request is refused too.
   */
  lemma {:induction false} RefusalIsFinal(lifetime: Lifetime, createdAt: int, requests: seq<int>, i: nat, j: nat)
    requires InOrder(createdAt, requests) && i <= j < |requests|
    ensures ExpiryAfter(lifetime, createdAt, requests[..i]) <= ExpiryAfter(lifetime, createdAt, requests[..j + 1])
    ensures !AdmitsRequest(lifetime, createdAt, requests, i) ==>
              && ExpiryAfter(lifetime, createdAt, requests[..j + 1]) == ExpiryAfter(lifetime, createdAt, requests[..i])
              && !AdmitsRequest(lifetime, createdAt, requests, j)
    decreases j
  {
    RequestNeverLowersExpiry(lifetime, createdAt, requests, i);
    RequestNeverLowersExpiry(lifetime, createdAt, requests, j);
    Ordered(createdAt, requests, i, j);
    if i < j {
      RefusalIsFinal(lifetime, createdAt, requests, i, j - 1);
    }
  }

  // ----- several processes with clocks of their own -----

  /** A request served by `process` at the real instant `at`. */
  datatype Visit = Visit(process: nat, at: real)

  type Clocks = (nat, real) -> real

  /** No clock goes back, and at any one instant any two differ by at most 60 s. */
  ghost predicate AgreeWithinTolerance(clocks: Clocks) {
    && (forall p, s, t :: s <= t ==> clocks(p, s) <= clocks(p, t))
    && (forall p, q, t :: clocks(p, t) - clocks(q, t) <= EXPIRY_TOLERANCE as real)
  }

  function NowAt(clocks: Clocks, visit: Visit): int {
    WholeSecond(clocks(visit.process, visit.at))
  }

  function Readings(clocks: Clocks, visits: seq<Visit>): (r: seq<int>)
    ensures |r| == |visits|
    ensures forall i :: 0 <= i < |visits| ==> r[i] == NowAt(clocks, visits[i])
  {
    seq(|visits|, i requires 0 <= i < |visits| => NowAt(clocks, visits[i]))
  }

  lemma LaterReadingIsNotMuchEarlier(clocks: Clocks, earlier: Visit, later: Visit)
    requires AgreeWithinTolerance(clocks) && earlier.at <= later.at
    ensures NowAt(clocks, earlier) <= NowAt(clocks, later) + EXPIRY_TOLERANCE
  {
    assert clocks(earlier.process, earlier.at) <= clocks(earlier.process, later.at);
    assert clocks(earlier.process, later.at) - clocks(later.process, later.at) <= EXPIRY_TOLERANCE as real;
  }

  /**
   Behind clocks that differ by at most 60 s, the tolerance does its work: whichever processes
   created and served the session, the clauses on skew and on the cap always hold, so a refused
   request's reading lies past the stored expiry.
   */
  lemma {:induction false} OnlyPassedExpiryRefusesBehindSkewedClocks(
      lifetime: Lifetime, clocks: Clocks, created: Visit, visits: seq<Visit>, next: Visit)
    requires AgreeWithinTolerance(clocks)
    requires forall i :: 0 <= i < |visits| ==> created.at <= visits[i].at <= next.at
    requires created.at <= next.at
    ensures var createdAt, now := NowAt(clocks, created), NowAt(clocks, next);
            var expiresAt := ExpiryAfter(lifetime, createdAt, Readings(clocks, visits));
            && expiresAt <= createdAt + lifetime.cap
            && (IsAdmitted(lifetime, createdAt, expiresAt, now) <==> now <= expiresAt)
    decreases |visits|
  {
    LaterReadingIsNotMuchEarlier(clocks, created, next);
    if visits != [] {
      var before, last := visits[..|visits| - 1], visits[|visits| - 1];
      OnlyPassedExpiryRefusesBehindSkewedClocks(lifetime, clocks, created, before, next);
      LaterReadingIsNotMuchEarlier(clocks, last, next);
      assert Readings(clocks, visits)[..|visits| - 1] == Readings(clocks, before);
    }
  }
}
