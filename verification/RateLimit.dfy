/**
 The sliding-window limiters against one plain log of every event ever allowed. Clocks are reals;
 a trace of checks carries the clock reading each of them is made at.
 */
module RateLimit {
  import opened Wrappers
  import opened Collections

  type Key = string

  /** `member` is the identifier the Redis backend records the event under, one per check. */
  datatype Check = Check(key: Key, limit: int, window: int, now: real, member: nat)

  const PRUNE_INTERVAL_SECONDS := 60.0

  /** The key was created with another window. */
  datatype WindowMismatch = WindowMismatch

  // ----- the log -----

  type Log = map<Key, seq<real>>

  /** The stamps later than the cutoff, in order. */
  function Newer(stamps: seq<real>, cutoff: real): seq<real> {
    if stamps == [] then []
    else
      var before, last := Newer(stamps[..|stamps| - 1], cutoff), stamps[|stamps| - 1];
      if last > cutoff then before + [last] else before
  }

  function EventsOf(log: Log, key: Key): seq<real> {
    if key in log then log[key] else []
  }

  function Cutoff(check: Check): real {
    check.now - check.window as real
  }

  /** Fewer than `limit` allowed events lie in (now - window, now]. */
  predicate FitsLog(log: Log, check: Check) {
    |Newer(EventsOf(log, check.key), Cutoff(check))| < check.limit
  }

  function LogAfterCheck(log: Log, check: Check): Log {
    if FitsLog(log, check) then log[check.key := EventsOf(log, check.key) + [check.now]] else log
  }

  function LogAfter(checks: seq<Check>): Log {
    if checks == [] then map[] else LogAfterCheck(LogAfter(checks[..|checks| - 1]), checks[|checks| - 1])
  }

  // ----- in this process -----

  datatype WindowedEvents = WindowedEvents(window: int, timestamps: seq<real>)

  datatype InProcess = InProcess(events: map<Key, WindowedEvents>, nextPruneAt: real)

  predicate HasAgedOut(entry: WindowedEvents, now: real) {
    entry.timestamps == [] || entry.timestamps[|entry.timestamps| - 1] + entry.window as real <= now
  }

  function Swept(s: InProcess, now: real): InProcess {
    if now < s.nextPruneAt then s
    else
      InProcess(map key | key in s.events && !HasAgedOut(s.events[key], now) :: s.events[key], now + PRUNE_INTERVAL_SECONDS)
  }

  function EntryFor(s: InProcess, check: Check): WindowedEvents {
    if check.key in s.events then s.events[check.key] else WindowedEvents(check.window, [])
  }

  function CheckSwept(s: InProcess, check: Check): (InProcess, Result<bool, WindowMismatch>) {
    var entry := EntryFor(s, check);
    if entry.window != check.window then (s, Failure(WindowMismatch))
    else
      var trimmed := Newer(entry.timestamps, Cutoff(check));
      if |trimmed| >= check.limit then
        (s.(events := s.events[check.key := entry.(timestamps := trimmed)]), Success(false))
      else
        (s.(events := s.events[check.key := entry.(timestamps := trimmed + [check.now])]), Success(true))
  }

  function InProcessCheck(s: InProcess, check: Check): (InProcess, Result<bool, WindowMismatch>) {
    CheckSwept(Swept(s, check.now), check)
  }

  function InProcessAfter(checks: seq<Check>): InProcess {
    if checks == [] then InProcess(map[], 0.0)
    else InProcessCheck(InProcessAfter(checks[..|checks| - 1]), checks[|checks| - 1]).0
  }

  class SingleProcessRateLimitBackend {
    var events: map<Key, WindowedEvents>
    var nextPruneAt: real

    function Abstraction(): InProcess
      reads this
    {
      InProcess(events, nextPruneAt)
    }

    constructor ()
      ensures Abstraction() == InProcessAfter([])
    {
      events, nextPruneAt := map[], 0.0;
    }

    method SweepExpiredWhenDue(now: real)
      modifies this
      ensures Abstraction() == Swept(old(Abstraction()), now)
    {
      if now < nextPruneAt {
        return;
      }
      nextPruneAt := now + PRUNE_INTERVAL_SECONDS;
      ghost var before := events;
      var expired := set key | key in events && HasAgedOut(events[key], now);
      var remaining := expired;
      while remaining != {}
        invariant remaining <= expired && events == before - (expired - remaining)
        invariant nextPruneAt == now + PRUNE_INTERVAL_SECONDS
        decreases remaining
      {
        var key :| key in remaining;
        events := events - {key};
        remaining := remaining - {key};
      }
      assert events == Swept(old(Abstraction()), now).events;
    }

    method Trim(timestamps: seq<real>, cutoff: real) returns (kept: seq<real>)
      ensures kept == Newer(timestamps, cutoff)
    {
      kept := [];
      for i := 0 to |timestamps|
        invariant kept == Newer(timestamps[..i], cutoff)
      {
        assert timestamps[..i + 1][..i] == timestamps[..i];
        if timestamps[i] > cutoff {
          kept := kept + [timestamps[i]];
        }
      }
      assert timestamps[..|timestamps|] == timestamps;
    }

    method IsAllowed(key: Key, limit: int, window: int, now: real) returns (r: Result<bool, WindowMismatch>)
      modifies this
      ensures (Abstraction(), r) == InProcessCheck(old(Abstraction()), Check(key, limit, window, now, 0))
    {
      SweepExpiredWhenDue(now);
      var entry := if key in events then events[key] else WindowedEvents(window, []);
      if entry.window != window {
        return Failure(WindowMismatch);
      }
      var trimmed := Trim(entry.timestamps, now - window as real);
      if |trimmed| >= limit {
        events := events[key := entry.(timestamps := trimmed)];
        return Success(false);
      }
      events := events[key := entry.(timestamps := trimmed + [now])];
      return Success(true);
    }
  }

  // ----- traces -----

  type Windows = Key -> int

  /** Positive budgets, one window per key, and a clock that never goes back. */
  predicate IsLawful(checks: seq<Check>, windowOf: Windows) {
    && (forall i :: 0 <= i < |checks| ==>
          checks[i].limit > 0 && checks[i].window == windowOf(checks[i].key) && checks[i].window > 0)
    && (forall i :: 0 < i < |checks| ==> checks[i - 1].now <= checks[i].now)
  }

  function Verdict(checks: seq<Check>): bool
    requires checks != []
  {
    FitsLog(LogAfter(checks[..|checks| - 1]), checks[|checks| - 1])
  }

  function InProcessVerdict(checks: seq<Check>): Result<bool, WindowMismatch>
    requires checks != []
  {
    InProcessCheck(InProcessAfter(checks[..|checks| - 1]), checks[|checks| - 1]).1
  }

  predicate IsAscending(stamps: seq<real>) {
    forall i, j :: 0 <= i <= j < |stamps| ==> stamps[i] <= stamps[j]
  }

  // ----- facts on trimming -----

  lemma {:induction false} NewerIsASuffix(stamps: seq<real>, cutoff: real)
    requires IsAscending(stamps)
    ensures |Newer(stamps, cutoff)| <= |stamps|
    ensures Newer(stamps, cutoff) == stamps[|stamps| - |Newer(stamps, cutoff)|..]
    ensures forall i :: 0 <= i < |stamps| ==> (stamps[i] > cutoff <==> i >= |stamps| - |Newer(stamps, cutoff)|)
  {
    if stamps != [] {
      var before, last := stamps[..|stamps| - 1], stamps[|stamps| - 1];
      NewerIsASuffix(before, cutoff);
      if last <= cutoff {
        NoneNewer(before, cutoff);
        assert Newer(stamps, cutoff) == [];
      } else {
        var kept := Newer(before, cutoff);
        assert Newer(stamps, cutoff) == kept + [last];
        assert stamps == before + [last];
      }
    }
  }

  lemma {:induction false} NoneNewer(stamps: seq<real>, cutoff: real)
    requires forall i :: 0 <= i < |stamps| ==> stamps[i] <= cutoff
    ensures Newer(stamps, cutoff) == []
  {
    if stamps != [] {
      NoneNewer(stamps[..|stamps| - 1], cutoff);
    }
  }

  /** Trimming to a later cutoff forgets an earlier trim. */
  lemma {:induction false} NewerTwice(stamps: seq<real>, earlier: real, later: real)
    requires earlier <= later
    ensures Newer(Newer(stamps, earlier), later) == Newer(stamps, later)
  {
    if stamps != [] {
      NewerTwice(stamps[..|stamps| - 1], earlier, later);
      if stamps[|stamps| - 1] > earlier {
        NewerOfOneMore(Newer(stamps[..|stamps| - 1], earlier), stamps[|stamps| - 1], later);
      }
    }
  }

  lemma NewerOfOneMore(stamps: seq<real>, stamp: real, cutoff: real)
    ensures Newer(stamps + [stamp], cutoff) == Newer(stamps, cutoff) + if stamp > cutoff then [stamp] else []
  {
    assert (stamps + [stamp])[..|stamps|] == stamps;
  }

  // ----- the in-process backend refines the log -----

  function StampsOf(s: InProcess, key: Key): seq<real> {
    if key in s.events then s.events[key].timestamps else []
  }

  /** These stamps, in order and none later than now, are what the log holds of the key's window. */
  ghost predicate Recalls(stamps: seq<real>, events: seq<real>, window: int, now: real) {
    && AscendsTo(stamps, now)
    && Newer(stamps, now - window as real) == Newer(events, now - window as real)
  }

  /** At `now`, what the store remembers of each key is what the log holds of its window. */
  ghost predicate Remembers(s: InProcess, log: Log, windowOf: Windows, now: real) {
    forall key :: RemembersKey(s, log, windowOf, now, key)
  }

  ghost predicate RemembersKey(s: InProcess, log: Log, windowOf: Windows, now: real, key: Key) {
    && (key in s.events ==> s.events[key].window == windowOf(key))
    && Recalls(StampsOf(s, key), EventsOf(log, key), windowOf(key), now)
  }

  lemma RecallsLater(stamps: seq<real>, events: seq<real>, window: int, now: real, later: real)
    requires Recalls(stamps, events, window, now) && now <= later
    ensures Recalls(stamps, events, window, later)
  {
    NewerAgreesLater(stamps, events, now - window as real, later - window as real);
    assert AscendsTo(stamps, later);
  }

  lemma NewerAgreesLater(a: seq<real>, b: seq<real>, earlier: real, later: real)
    requires Newer(a, earlier) == Newer(b, earlier) && earlier <= later
    ensures Newer(a, later) == Newer(b, later)
  {
    NewerTwice(a, earlier, later);
    NewerTwice(b, earlier, later);
  }

  lemma RemembersLater(s: InProcess, log: Log, windowOf: Windows, now: real, later: real)
    requires Remembers(s, log, windowOf, now) && now <= later
    ensures Remembers(s, log, windowOf, later)
  {
    forall key ensures RemembersKey(s, log, windowOf, later, key) {
      assert RemembersKey(s, log, windowOf, now, key);
      RecallsLater(StampsOf(s, key), EventsOf(log, key), windowOf(key), now, later);
    }
  }

  /** The sweep forgets only keys with nothing left in their window. */
  lemma SweepIsUnobservable(s: InProcess, log: Log, windowOf: Windows, now: real)
    requires Remembers(s, log, windowOf, now)
    ensures Remembers(Swept(s, now), log, windowOf, now)
  {
    forall key ensures RemembersKey(Swept(s, now), log, windowOf, now, key) {
      assert RemembersKey(s, log, windowOf, now, key);
      NewerIsASuffix(StampsOf(s, key), now - windowOf(key) as real);
    }
  }

  /** The window's stamps, with or without the new event, are again what the log holds of the window. */
  lemma TrimmedRecalls(stamps: seq<real>, events: seq<real>, window: int, now: real)
    requires Recalls(stamps, events, window, now) && window > 0
    ensures var trimmed := Newer(stamps, now - window as real);
            && trimmed == Newer(events, now - window as real)
            && Recalls(trimmed, events, window, now)
            && Recalls(trimmed + [now], events + [now], window, now)
  {
    var cutoff := now - window as real;
    TrimmedAscends(stamps, cutoff, now);
    NewerTwice(stamps, cutoff, cutoff);
    RecallsOneMore(Newer(stamps, cutoff), events, window, now);
  }

  /** In order, and none later than now. */
  predicate AscendsTo(stamps: seq<real>, now: real) {
    IsAscending(stamps) && (stamps != [] ==> stamps[|stamps| - 1] <= now)
  }

  lemma TrimmedAscends(stamps: seq<real>, cutoff: real, now: real)
    requires AscendsTo(stamps, now)
    ensures AscendsTo(Newer(stamps, cutoff), now)
  {
    NewerIsASuffix(stamps, cutoff);
    SuffixAscends(stamps, |stamps| - |Newer(stamps, cutoff)|, now);
  }

  lemma SuffixAscends(stamps: seq<real>, k: nat, now: real)
    requires AscendsTo(stamps, now) && k <= |stamps|
    ensures AscendsTo(stamps[k..], now)
  {
    forall i, j | 0 <= i <= j < |stamps[k..]| ensures stamps[k..][i] <= stamps[k..][j] {
      assert stamps[k + i] <= stamps[k + j];
    }
  }

  lemma OneMoreAscends(stamps: seq<real>, now: real)
    requires AscendsTo(stamps, now)
    ensures AscendsTo(stamps + [now], now)
  {
    forall i, j | 0 <= i <= j < |stamps + [now]| ensures (stamps + [now])[i] <= (stamps + [now])[j] {
      if i < |stamps| {
        assert stamps[i] <= stamps[if j < |stamps| then j else |stamps| - 1];
      }
    }
  }

  lemma RecallsOneMore(stamps: seq<real>, events: seq<real>, window: int, now: real)
    requires Recalls(stamps, events, window, now)
    ensures Recalls(stamps + [now], events + [now], window, now)
  {
    var more, moreEvents := stamps + [now], events + [now];
    assert AscendsTo(more, now) by {
      OneMoreAscends(stamps, now);
    }
    assert Newer(more, now - window as real) == Newer(moreEvents, now - window as real) by {
      NewerAgreesOneMore(stamps, events, now, now - window as real);
    }
  }

  lemma NewerAgreesOneMore(a: seq<real>, b: seq<real>, stamp: real, cutoff: real)
    requires Newer(a, cutoff) == Newer(b, cutoff)
    ensures Newer(a + [stamp], cutoff) == Newer(b + [stamp], cutoff)
  {
    NewerOfOneMore(a, stamp, cutoff);
    NewerOfOneMore(b, stamp, cutoff);
  }

  lemma StoringOneKey(s: InProcess, log: Log, after: Log, windowOf: Windows, key: Key, stamps: seq<real>, now: real)
    requires Remembers(s, log, windowOf, now)
    requires Recalls(stamps, EventsOf(after, key), windowOf(key), now)
    requires forall other :: other != key ==> EventsOf(after, other) == EventsOf(log, other)
    ensures Remembers(s.(events := s.events[key := WindowedEvents(windowOf(key), stamps)]), after, windowOf, now)
  {
    var t := s.(events := s.events[key := WindowedEvents(windowOf(key), stamps)]);
    forall other ensures RemembersKey(t, after, windowOf, now, other) {
      if other != key {
        assert RemembersKey(s, log, windowOf, now, other);
        assert StampsOf(t, other) == StampsOf(s, other);
      }
    }
  }

  /** The stamps a check stores for its key: those in the window, and its own if there is room. */
  function Kept(stamps: seq<real>, check: Check): seq<real> {
    var trimmed := Newer(stamps, Cutoff(check));
    if |trimmed| < check.limit then trimmed + [check.now] else trimmed
  }

  lemma CheckStoresKept(s: InProcess, check: Check)
    requires check.key in s.events ==> s.events[check.key].window == check.window
    ensures var stamps := StampsOf(s, check.key);
            CheckSwept(s, check) ==
            (s.(events := s.events[check.key := WindowedEvents(check.window, Kept(stamps, check))]),
             Success(|Newer(stamps, Cutoff(check))| < check.limit))
  {
  }

  lemma KeptIsRecalled(stamps: seq<real>, log: Log, check: Check)
    requires Recalls(stamps, EventsOf(log, check.key), check.window, check.now) && check.window > 0
    ensures Recalls(Kept(stamps, check), EventsOf(LogAfterCheck(log, check), check.key), check.window, check.now)
    ensures |Newer(stamps, Cutoff(check))| < check.limit <==> FitsLog(log, check)
  {
    TrimmedRecalls(stamps, EventsOf(log, check.key), check.window, check.now);
  }

  lemma CheckSweptRefinesTheLog(s: InProcess, log: Log, windowOf: Windows, check: Check)
    requires Remembers(s, log, windowOf, check.now)
    requires check.limit > 0 && check.window == windowOf(check.key) && check.window > 0
    ensures CheckSwept(s, check).1 == Success(FitsLog(log, check))
    ensures Remembers(CheckSwept(s, check).0, LogAfterCheck(log, check), windowOf, check.now)
  {
    var stamps := StampsOf(s, check.key);
    assert RemembersKey(s, log, windowOf, check.now, check.key);
    KeptIsRecalled(stamps, log, check);
    CheckStoresKept(s, check);
    StoringOneKey(s, log, LogAfterCheck(log, check), windowOf, check.key, Kept(stamps, check), check.now);
  }

  /** One check keeps the store and the log in step and gives the log's verdict. */
  lemma CheckRefinesTheLog(s: InProcess, log: Log, windowOf: Windows, check: Check)
    requires Remembers(s, log, windowOf, check.now)
    requires check.limit > 0 && check.window == windowOf(check.key) && check.window > 0
    ensures InProcessCheck(s, check).1 == Success(FitsLog(log, check))
    ensures Remembers(InProcessCheck(s, check).0, LogAfterCheck(log, check), windowOf, check.now)
  {
    SweepIsUnobservable(s, log, windowOf, check.now);
    CheckSweptRefinesTheLog(Swept(s, check.now), log, windowOf, check);
  }

  /**
   On every lawful trace the in-process backend never raises, and allows a check exactly when the
   log of all allowed events holds fewer than `limit` of its key in the window.
   */
  lemma {:induction false} InProcessRefinesTheLog(checks: seq<Check>, windowOf: Windows)
    requires IsLawful(checks, windowOf)
    ensures checks != [] ==> InProcessVerdict(checks) == Success(Verdict(checks))
    ensures checks != [] ==> Remembers(InProcessAfter(checks), LogAfter(checks), windowOf, checks[|checks| - 1].now)
  {
    if checks != [] {
      var butLast, check := checks[..|checks| - 1], checks[|checks| - 1];
      InProcessRefinesTheLog(butLast, windowOf);
      var s, log := InProcessAfter(butLast), LogAfter(butLast);
      if butLast != [] {
        RemembersLater(s, log, windowOf, butLast[|butLast| - 1].now, check.now);
      }
      CheckRefinesTheLog(s, log, windowOf, check);
    }
  }

  // ----- what the log's verdicts mean -----

  /** Which of the checks so far were allowed checks of the key, made after the cutoff. */
  ghost function AllowedSince(checks: seq<Check>, key: Key, cutoff: real): set<int> {
    set i | 0 <= i < |checks| && checks[i].key == key && Verdict(checks[..i + 1]) && checks[i].now > cutoff
  }

  lemma AllowedSinceOneMore(checks: seq<Check>, key: Key, cutoff: real)
    requires checks != []
    ensures var before, last := checks[..|checks| - 1], |checks| - 1;
            var counts := checks[last].key == key && Verdict(checks) && checks[last].now > cutoff;
            AllowedSince(checks, key, cutoff) == AllowedSince(before, key, cutoff) + if counts then {last} else {}
  {
    var before := checks[..|checks| - 1];
    assert checks[..|checks|] == checks;
    forall i | 0 <= i < |before| ensures before[..i + 1] == checks[..i + 1] && before[i] == checks[i] {}
  }

  /** The log's window holds as many events as there were allowed checks of the key in it. */
  lemma {:induction false} WindowCounts(checks: seq<Check>, key: Key, cutoff: real)
    ensures |Newer(EventsOf(LogAfter(checks), key), cutoff)| == |AllowedSince(checks, key, cutoff)|
  {
    if checks == [] {
      assert AllowedSince(checks, key, cutoff) == {};
    } else {
      var butLast, check := checks[..|checks| - 1], checks[|checks| - 1];
      WindowCounts(butLast, key, cutoff);
      AllowedSinceOneMore(checks, key, cutoff);
      NewerOfOneMore(EventsOf(LogAfter(butLast), key), check.now, cutoff);
    }
  }

  /** A check is allowed exactly when fewer than `limit` allowed checks of its key are less than `window` old. */
  lemma VerdictExactly(checks: seq<Check>)
    requires checks != []
    ensures var last := |checks| - 1;
            var check := checks[last];
            Verdict(checks) <==>
            |set i | 0 <= i < last && checks[i].key == check.key && Verdict(checks[..i + 1])
                     && check.now - checks[i].now < check.window as real| < check.limit
  {
    var last := |checks| - 1;
    var check := checks[last];
    WindowCounts(checks[..last], check.key, Cutoff(check));
    forall i | 0 <= i < last ensures checks[..last][..i + 1] == checks[..i + 1] && checks[..last][i] == checks[i] {}
    assert AllowedSince(checks[..last], check.key, Cutoff(check))
        == set i | 0 <= i < last && checks[i].key == check.key && Verdict(checks[..i + 1])
                   && check.now - checks[i].now < check.window as real;
  }

  /** A key under another window than it was created with is refused, unless the sweep has forgotten it; then nothing else changes. */
  lemma MismatchExactly(s: InProcess, check: Check)
    ensures InProcessCheck(s, check).1 == Failure(WindowMismatch) <==>
            && check.key in s.events && s.events[check.key].window != check.window
            && (check.now < s.nextPruneAt || !HasAgedOut(s.events[check.key], check.now))
    ensures InProcessCheck(s, check).1.Failure? ==> InProcessCheck(s, check).0 == Swept(s, check.now)
  {
  }

  // ----- what the log's verdicts promise -----

  lemma {:induction false} LogIsAscending(checks: seq<Check>, windowOf: Windows, key: Key)
    requires IsLawful(checks, windowOf)
    ensures IsAscending(EventsOf(LogAfter(checks), key))
    ensures var events := EventsOf(LogAfter(checks), key);
            events != [] ==> checks != [] && events[|events| - 1] <= checks[|checks| - 1].now
  {
    if checks != [] {
      LogIsAscending(checks[..|checks| - 1], windowOf, key);
    }
  }

  ghost predicate AreSpaced(events: seq<real>, limit: nat, window: int) {
    forall i :: 0 <= i < |events| - limit ==> events[i + limit] - events[i] >= window as real
  }

  lemma OneMoreSpaced(events: seq<real>, limit: nat, window: int, now: real)
    requires IsAscending(events) && AreSpaced(events, limit, window) && limit > 0
    requires |Newer(events, now - window as real)| < limit
    ensures AreSpaced(events + [now], limit, window)
  {
    NewerIsASuffix(events, now - window as real);
    var all := events + [now];
    forall i | 0 <= i < |all| - limit ensures all[i + limit] - all[i] >= window as real {
      if i + limit < |events| {
        assert all[i + limit] == events[i + limit] && all[i] == events[i];
      }
    }
  }

  /**
   While a key's checks keep one limit, its i-th and (i + limit)-th allowed events are at least one
   window apart: however checks fall, no window ever holds more than the limit.
   */
  lemma {:induction false} AllowedEventsAreSpaced(checks: seq<Check>, windowOf: Windows, key: Key, limit: nat)
    requires IsLawful(checks, windowOf) && limit > 0
    requires forall i :: 0 <= i < |checks| && checks[i].key == key ==> checks[i].limit == limit
    ensures AreSpaced(EventsOf(LogAfter(checks), key), limit, windowOf(key))
  {
    if checks != [] {
      var butLast, check := checks[..|checks| - 1], checks[|checks| - 1];
      AllowedEventsAreSpaced(butLast, windowOf, key, limit);
      LogIsAscending(butLast, windowOf, key);
      if check.key == key && FitsLog(LogAfter(butLast), check) {
        OneMoreSpaced(EventsOf(LogAfter(butLast), key), limit, windowOf(key), check.now);
      }
    }
  }

  /** A denied check neither extends nor consumes any budget: it could as well not have been made. */
  lemma {:induction false} DeniedChecksDoNotCount(before: seq<Check>, denied: Check, after: seq<Check>)
    requires !Verdict(before + [denied])
    ensures LogAfter(before + [denied] + after) == LogAfter(before + after)
    decreases |after|
  {
    if after == [] {
      assert before + [denied] + after == before + [denied] && before + after == before;
      LogAfterOneMore(before, denied);
      assert (before + [denied])[..|before|] == before;
    } else {
      var butLast, last := after[..|after| - 1], after[|after| - 1];
      DeniedChecksDoNotCount(before, denied, butLast);
      assert before + [denied] + after == (before + [denied] + butLast) + [last];
      assert before + after == (before + butLast) + [last];
      LogAfterOneMore(before + [denied] + butLast, last);
      LogAfterOneMore(before + butLast, last);
    }
  }

  lemma LogAfterOneMore(checks: seq<Check>, check: Check)
    ensures LogAfter(checks + [check]) == LogAfterCheck(LogAfter(checks), check)
  {
    assert (checks + [check])[..|checks|] == checks;
  }

  // ----- the store stays bounded -----

  /** The last sweep was due, and whatever it left or came since was in its window then. */
  ghost predicate WasSweptOnTime(s: InProcess, now: real) {
    && now < s.nextPruneAt <= now + PRUNE_INTERVAL_SECONDS
    && (forall key :: key in s.events ==> IsRecent(s.events[key], s.nextPruneAt))
  }

  lemma KeptEndsWithTheNewest(stamps: seq<real>, check: Check)
    requires IsAscending(stamps) && check.limit > 0
    ensures var kept := Kept(stamps, check);
            && kept != []
            && (kept[|kept| - 1] == check.now || (stamps != [] && kept[|kept| - 1] == stamps[|stamps| - 1]))
  {
    NewerIsASuffix(stamps, Cutoff(check));
  }

  lemma CheckSweptStaysOnTime(s: InProcess, log: Log, windowOf: Windows, check: Check)
    requires Remembers(s, log, windowOf, check.now) && WasSweptOnTime(s, check.now)
    requires check.limit > 0 && check.window == windowOf(check.key) && check.window > 0
    ensures WasSweptOnTime(CheckSwept(s, check).0, check.now)
  {
    var stamps := StampsOf(s, check.key);
    assert RemembersKey(s, log, windowOf, check.now, check.key);
    KeptEndsWithTheNewest(stamps, check);
    CheckStoresKept(s, check);
    StoringStaysOnTime(s, check.key, WindowedEvents(check.window, Kept(stamps, check)), check.now);
  }

  /** The entry's newest stamp was in its window at the last sweep, or is later. */
  predicate IsRecent(entry: WindowedEvents, nextPruneAt: real) {
    && entry.timestamps != []
    && entry.timestamps[|entry.timestamps| - 1] + entry.window as real > nextPruneAt - PRUNE_INTERVAL_SECONDS
  }

  lemma StoringStaysOnTime(s: InProcess, key: Key, entry: WindowedEvents, now: real)
    requires WasSweptOnTime(s, now) && IsRecent(entry, s.nextPruneAt)
    ensures WasSweptOnTime(s.(events := s.events[key := entry]), now)
  {
  }

  lemma SweepIsDueOrRecent(s: InProcess, earlier: real, now: real)
    requires earlier <= now && WasSweptOnTime(s, earlier)
    ensures WasSweptOnTime(Swept(s, now), now)
  {
  }

  lemma {:induction false} EveryCheckSweepsOnTime(checks: seq<Check>, windowOf: Windows)
    requires IsLawful(checks, windowOf) && checks != [] && checks[0].now >= 0.0
    ensures WasSweptOnTime(InProcessAfter(checks), checks[|checks| - 1].now)
  {
    var butLast, check := checks[..|checks| - 1], checks[|checks| - 1];
    InProcessRefinesTheLog(butLast, windowOf);
    if butLast != [] {
      EveryCheckSweepsOnTime(butLast, windowOf);
      RemembersLater(InProcessAfter(butLast), LogAfter(butLast), windowOf, butLast[|butLast| - 1].now, check.now);
      SweepIsDueOrRecent(InProcessAfter(butLast), butLast[|butLast| - 1].now, check.now);
    }
    SweepIsUnobservable(InProcessAfter(butLast), LogAfter(butLast), windowOf, check.now);
    CheckSweptStaysOnTime(Swept(InProcessAfter(butLast), check.now), LogAfter(butLast), windowOf, check);
  }

  /** After each check every stored key has an event newer than its window and one sweep interval. */
  lemma StoreHoldsOnlyRecentKeys(checks: seq<Check>, windowOf: Windows, key: Key)
    requires IsLawful(checks, windowOf) && checks != [] && checks[0].now >= 0.0
    requires key in InProcessAfter(checks).events
    ensures var stamps := StampsOf(InProcessAfter(checks), key);
            && stamps != []
            && stamps[|stamps| - 1] > checks[|checks| - 1].now - windowOf(key) as real - 60.0
  {
    EveryCheckSweepsOnTime(checks, windowOf);
    InProcessRefinesTheLog(checks, windowOf);
    SweptOnTimeMeansRecent(InProcessAfter(checks), LogAfter(checks), windowOf, checks[|checks| - 1].now, key);
  }

  lemma SweptOnTimeMeansRecent(s: InProcess, log: Log, windowOf: Windows, now: real, key: Key)
    requires WasSweptOnTime(s, now) && Remembers(s, log, windowOf, now) && key in s.events
    ensures var stamps := StampsOf(s, key);
            stamps != [] && stamps[|stamps| - 1] > now - windowOf(key) as real - PRUNE_INTERVAL_SECONDS
  {
    assert RemembersKey(s, log, windowOf, now, key);
  }

  // ----- the Lua script -----

  /** One key's sorted set of event identifiers by stamp, and when Redis drops the key. */
  datatype SortedSet = SortedSet(members: map<nat, real>, deadline: real)

  type Redis = map<Key, SortedSet>

  /** Redis may have dropped any key whose deadline has passed. */
  function WithoutDropped(redis: Redis, dropped: set<Key>, now: real): Redis {
    map key | key in redis && !(key in dropped && redis[key].deadline <= now) :: redis[key]
  }

  function MembersOf(redis: Redis, key: Key): map<nat, real> {
    if key in redis then redis[key].members else map[]
  }

  /** ZREMRANGEBYSCORE from 0 to the cutoff, both inclusive. */
  function TrimmedMembers(members: map<nat, real>, cutoff: real): map<nat, real> {
    map member | member in members && !(0.0 <= members[member] <= cutoff) :: members[member]
  }

  /** The script: trim, count, and only on admission add the event and set the key's expiry. */
  function LuaScript(redis: Redis, check: Check): (Redis, int) {
    var trimmed := TrimmedMembers(MembersOf(redis, check.key), Cutoff(check));
    if |trimmed| >= check.limit then
      (if check.key in redis then redis[check.key := redis[check.key].(members := trimmed)] else redis, |trimmed| + 1)
    else
      (redis[check.key := SortedSet(trimmed[check.member := check.now], check.now + check.window as real)], |trimmed| + 1)
  }

  function LuaCheck(redis: Redis, check: Check): (Redis, bool) {
    var (after, count) := LuaScript(redis, check);
    (after, count <= check.limit)
  }

  class RedisRateLimitBackend {
    var redis: Redis

    constructor ()
      ensures redis == map[]
    {
      redis := map[];
    }

    method Eval(check: Check) returns (count: int)
      modifies this
      ensures (redis, count) == LuaScript(old(redis), check)
      ensures var members := if check.key in old(redis) then old(redis)[check.key].members else map[];
              var inWindow := set member | member in members && !(0.0 <= members[member] <= check.now - check.window as real);
              && count == |inWindow| + 1
              && (forall other :: other != check.key ==>
                    (other in redis <==> other in old(redis)) && (other in redis ==> redis[other] == old(redis)[other]))
              && (count <= check.limit ==>
                    && check.key in redis && redis[check.key].deadline == check.now + check.window as real
                    && redis[check.key].members.Keys == inWindow + {check.member}
                    && redis[check.key].members[check.member] == check.now)
              && (count > check.limit ==>
                    && (check.key in redis <==> check.key in old(redis))
                    && (check.key in redis ==>
                          redis[check.key].members.Keys == inWindow && redis[check.key].deadline == old(redis)[check.key].deadline))
    {
      var members := if check.key in redis then redis[check.key].members else map[];
      var trimmed := TrimmedMembers(members, check.now - check.window as real);
      if check.key in redis {
        redis := redis[check.key := redis[check.key].(members := trimmed)];
      }
      count := |trimmed|;
      if count >= check.limit {
        return count + 1;
      }
      var recorded := SortedSet(trimmed[check.member := check.now], check.now + check.window as real);
      redis := redis[check.key := recorded];
      assert redis == old(redis)[check.key := recorded];
      return count + 1;
    }

    method IsAllowed(check: Check) returns (allowed: bool)
      modifies this
      ensures (redis, allowed) == LuaCheck(old(redis), check)
    {
      var count := Eval(check);
      allowed := count <= check.limit;
    }
  }

  /** What Redis drops of its own accord before each check of a trace. */
  type Drops = nat -> set<Key>

  function RedisAfter(checks: seq<Check>, drops: Drops): Redis
    decreases |checks|, 1
  {
    if checks == [] then map[]
    else LuaCheck(RedisBefore(checks, drops), checks[|checks| - 1]).0
  }

  /** What the last check of a trace finds. */
  function RedisBefore(checks: seq<Check>, drops: Drops): Redis
    requires checks != []
    decreases |checks|, 0
  {
    WithoutDropped(RedisAfter(checks[..|checks| - 1], drops), drops(|checks| - 1), checks[|checks| - 1].now)
  }

  function LuaVerdict(checks: seq<Check>, drops: Drops): bool
    requires checks != []
  {
    LuaCheck(RedisBefore(checks, drops), checks[|checks| - 1]).1
  }

  predicate HasDistinctMembers(checks: seq<Check>) {
    forall i, j :: 0 <= i < j < |checks| ==> checks[i].member != checks[j].member
  }

  // ----- the script refines the log -----

  /** The sorted set holds, under the identifiers they were recorded with, the key's events still in
      its window and none that were never recorded. */
  ghost predicate Records(members: map<nat, real>, ids: seq<nat>, events: seq<real>, window: int, now: real) {
    && |ids| == |events| && IsDistinct(ids) && IsAscending(events)
    && (forall i :: 0 <= i < |events| ==> 0.0 <= events[i] <= now)
    && (forall i :: 0 <= i < |events| && events[i] > now - window as real ==> ids[i] in members)
    && (forall i :: 0 <= i < |events| && ids[i] in members ==> members[ids[i]] == events[i])
    && (forall member :: member in members ==> member in ids)
  }

  /** The script's count is the log's. */
  lemma TrimmedCount(members: map<nat, real>, ids: seq<nat>, events: seq<real>, window: int, now: real)
    requires Records(members, ids, events, window, now)
    ensures |TrimmedMembers(members, now - window as real)| == |Newer(events, now - window as real)|
    ensures Records(TrimmedMembers(members, now - window as real), ids, events, window, now)
  {
    var cutoff := now - window as real;
    var trimmed := TrimmedMembers(members, cutoff);
    NewerIsASuffix(events, cutoff);
    var first := |events| - |Newer(events, cutoff)|;
    assert IsDistinct(ids[first..]);
    DistinctCount(ids[first..]);
    TrimmedKeys(members, ids, events, window, now, first);
  }

  /** What is left after the trim is what was recorded from the first event in the window on. */
  lemma TrimmedKeys(members: map<nat, real>, ids: seq<nat>, events: seq<real>, window: int, now: real, first: nat)
    requires Records(members, ids, events, window, now) && first <= |ids|
    requires forall i :: 0 <= i < |events| ==> (events[i] > now - window as real <==> i >= first)
    ensures TrimmedMembers(members, now - window as real).Keys == Elements(ids[first..])
  {
    var trimmed := TrimmedMembers(members, now - window as real);
    forall id | id in trimmed ensures id in ids[first..] {
      var i :| 0 <= i < |ids| && ids[i] == id;
      assert i >= first && ids[first..][i - first] == id;
    }
    forall id | id in ids[first..] ensures id in trimmed {
      var i :| 0 <= i < |ids[first..]| && ids[first..][i] == id;
      assert ids[first + i] == id && events[first + i] > now - window as real;
    }
  }

  type Ids = map<Key, seq<nat>>

  function IdsOf(ids: Ids, key: Key): seq<nat> {
    if key in ids then ids[key] else []
  }

  ghost predicate Mirrors(redis: Redis, ids: Ids, log: Log, windowOf: Windows, now: real) {
    forall key :: MirrorsKey(redis, ids, log, windowOf, now, key)
  }

  ghost predicate MirrorsKey(redis: Redis, ids: Ids, log: Log, windowOf: Windows, now: real, key: Key) {
    && Records(MembersOf(redis, key), IdsOf(ids, key), EventsOf(log, key), windowOf(key), now)
    && (key in redis ==> OutlivesItsEvents(redis[key].deadline, EventsOf(log, key), windowOf(key)))
  }

  /** By the time Redis may drop a key, none of its events is in the window: expiry is unobservable. */
  lemma ExpiryIsUnobservable(
      redis: Redis, ids: Ids, log: Log, windowOf: Windows, dropped: set<Key>, earlier: real, now: real)
    requires Mirrors(redis, ids, log, windowOf, earlier) && earlier <= now
    ensures Mirrors(WithoutDropped(redis, dropped, now), ids, log, windowOf, now)
  {
    var left := WithoutDropped(redis, dropped, now);
    forall key ensures MirrorsKey(left, ids, log, windowOf, now, key) {
      assert MirrorsKey(redis, ids, log, windowOf, earlier, key);
    }
  }

  lemma RecordingOneMore(members: map<nat, real>, ids: seq<nat>, events: seq<real>, window: int, now: real, member: nat)
    requires Records(members, ids, events, window, now) && member !in ids && 0.0 <= now
    ensures Records(members[member := now], ids + [member], events + [now], window, now)
  {
    var all := ids + [member];
    assert forall i :: 0 <= i < |ids| ==> all[i] == ids[i] && ids[i] in ids;
  }

  /** What one check makes of its own key's sorted set, deadline and log. */
  lemma ScriptOnItsKey(redis: Redis, ids: seq<nat>, log: Log, check: Check)
    requires Records(MembersOf(redis, check.key), ids, EventsOf(log, check.key), check.window, check.now)
    requires 0.0 <= check.now && check.limit > 0 && check.window > 0 && check.member !in ids
    ensures LuaCheck(redis, check).1 == FitsLog(log, check)
    ensures var recorded := ids + if FitsLog(log, check) then [check.member] else [];
            Records(MembersOf(LuaCheck(redis, check).0, check.key), recorded, EventsOf(LogAfterCheck(log, check), check.key),
                    check.window, check.now)
    ensures forall other :: other != check.key ==>
              (other in LuaCheck(redis, check).0 <==> other in redis) &&
              (other in redis ==> LuaCheck(redis, check).0[other] == redis[other])
    ensures check.key in LuaCheck(redis, check).0 && check.key !in redis ==> FitsLog(log, check)
    ensures check.key in LuaCheck(redis, check).0 ==>
              LuaCheck(redis, check).0[check.key].deadline ==
              if FitsLog(log, check) then check.now + check.window as real else redis[check.key].deadline
  {
    var members, events := MembersOf(redis, check.key), EventsOf(log, check.key);
    TrimmedCount(members, ids, events, check.window, check.now);
    RecordingOneMore(TrimmedMembers(members, Cutoff(check)), ids, events, check.window, check.now, check.member);
    assert ids + [] == ids;
  }

  /** Changing one key's sorted set, recorded ids and log together keeps the mirror. */
  lemma MirrorsAfterOneKey(
      redis: Redis, after: Redis, ids: Ids, log: Log, log': Log, windowOf: Windows, key: Key, recorded: seq<nat>, now: real)
    requires Mirrors(redis, ids, log, windowOf, now)
    requires Records(MembersOf(after, key), recorded, EventsOf(log', key), windowOf(key), now)
    requires key in after ==> OutlivesItsEvents(after[key].deadline, EventsOf(log', key), windowOf(key))
    requires forall other :: other != key ==> IsUntouched(redis, after, log, log', other)
    ensures Mirrors(after, ids[key := recorded], log', windowOf, now)
  {
    var ids' := ids[key := recorded];
    forall other ensures MirrorsKey(after, ids', log', windowOf, now, other) {
      if other != key {
        assert IsUntouched(redis, after, log, log', other);
        assert MirrorsKey(redis, ids, log, windowOf, now, other);
      }
    }
  }

  ghost predicate IsUntouched(redis: Redis, after: Redis, log: Log, log': Log, key: Key) {
    && (key in after <==> key in redis) && (key in redis ==> after[key] == redis[key])
    && EventsOf(log', key) == EventsOf(log, key)
  }

  /** When Redis drops the key, every event of it is out of its window. */
  ghost predicate OutlivesItsEvents(deadline: real, events: seq<real>, window: int) {
    forall i :: 0 <= i < |events| ==> events[i] + window as real <= deadline
  }

  function Recorded(ids: Ids, log: Log, check: Check): seq<nat> {
    IdsOf(ids, check.key) + if FitsLog(log, check) then [check.member] else []
  }

  lemma ScriptRefinesTheLog(redis: Redis, ids: Ids, log: Log, windowOf: Windows, check: Check)
    requires Mirrors(redis, ids, log, windowOf, check.now) && 0.0 <= check.now
    requires check.limit > 0 && check.window == windowOf(check.key) && check.window > 0
    requires check.member !in IdsOf(ids, check.key)
    ensures LuaCheck(redis, check).1 == FitsLog(log, check)
    ensures Mirrors(LuaCheck(redis, check).0, ids[check.key := Recorded(ids, log, check)], LogAfterCheck(log, check), windowOf, check.now)
  {
    assert MirrorsKey(redis, ids, log, windowOf, check.now, check.key);
    ScriptOnItsKey(redis, IdsOf(ids, check.key), log, check);
    MirrorsAfterOneKey(
      redis, LuaCheck(redis, check).0, ids, log, LogAfterCheck(log, check), windowOf, check.key,
      Recorded(ids, log, check), check.now);
  }

  ghost predicate WasUsed(checks: seq<Check>, id: nat) {
    exists i :: 0 <= i < |checks| && checks[i].member == id
  }

  ghost predicate AreOf(ids: Ids, checks: seq<Check>) {
    forall key, id :: id in IdsOf(ids, key) ==> WasUsed(checks, id)
  }

  lemma OneMoreMember(ids: Ids, log: Log, checks: seq<Check>)
    requires checks != [] && HasDistinctMembers(checks) && AreOf(ids, checks[..|checks| - 1])
    ensures var check := checks[|checks| - 1];
            check.member !in IdsOf(ids, check.key) && AreOf(ids[check.key := Recorded(ids, log, check)], checks)
  {
    var butLast, check := checks[..|checks| - 1], checks[|checks| - 1];
    assert WasUsed(checks, check.member);
    forall id | WasUsed(butLast, id) ensures id != check.member && WasUsed(checks, id) {
      var i :| 0 <= i < |butLast| && butLast[i].member == id;
      assert checks[i].member == id;
    }
    var ids' := ids[check.key := Recorded(ids, log, check)];
    forall key, id | id in IdsOf(ids', key) ensures WasUsed(checks, id) {
      assert id in IdsOf(ids, key) || id == check.member;
    }
  }

  /**
   On every lawful trace of server times, and whatever Redis drops of its own accord, the script's
   verdict is the log's.
   */
  lemma {:induction false} LuaRefinesTheLog(checks: seq<Check>, windowOf: Windows, drops: Drops) returns (ids: Ids)
    requires IsLawful(checks, windowOf) && HasDistinctMembers(checks)
    requires checks != [] ==> checks[0].now >= 0.0
    ensures AreOf(ids, checks)
    ensures checks != [] ==>
              && LuaVerdict(checks, drops) == Verdict(checks)
              && 0.0 <= checks[|checks| - 1].now
              && Mirrors(RedisAfter(checks, drops), ids, LogAfter(checks), windowOf, checks[|checks| - 1].now)
    ensures checks == [] ==> ids == map[]
  {
    if checks == [] {
      ids := map[];
    } else {
      var butLast, check := checks[..|checks| - 1], checks[|checks| - 1];
      ids := LuaRefinesTheLog(butLast, windowOf, drops);
      var log := LogAfter(butLast);
      var earlier := if butLast == [] then check.now else butLast[|butLast| - 1].now;
      assert Mirrors(RedisAfter(butLast, drops), ids, log, windowOf, earlier);
      OneMoreMember(ids, log, checks);
      OneMoreLuaCheck(RedisAfter(butLast, drops), drops(|butLast|), ids, log, windowOf, earlier, check);
      ids := ids[check.key := Recorded(ids, log, check)];
    }
  }

  /** One check against whatever Redis has left of its keys. */
  lemma OneMoreLuaCheck(
      redis: Redis, dropped: set<Key>, ids: Ids, log: Log, windowOf: Windows, earlier: real, check: Check)
    requires Mirrors(redis, ids, log, windowOf, earlier) && earlier <= check.now && 0.0 <= check.now
    requires check.limit > 0 && check.window == windowOf(check.key) && check.window > 0
    requires check.member !in IdsOf(ids, check.key)
    ensures var left := WithoutDropped(redis, dropped, check.now);
            && LuaCheck(left, check).1 == FitsLog(log, check)
            && Mirrors(LuaCheck(left, check).0, ids[check.key := Recorded(ids, log, check)], LogAfterCheck(log, check),
                       windowOf, check.now)
  {
    ExpiryIsUnobservable(redis, ids, log, windowOf, dropped, earlier, check.now);
    ScriptRefinesTheLog(WithoutDropped(redis, dropped, check.now), ids, log, windowOf, check);
  }

  /** The two backends and the log give one verdict on every check of every lawful trace. */
  lemma BackendsAgree(checks: seq<Check>, windowOf: Windows, drops: Drops)
    requires IsLawful(checks, windowOf) && HasDistinctMembers(checks)
    requires checks != [] && checks[0].now >= 0.0
    ensures Success(LuaVerdict(checks, drops)) == InProcessVerdict(checks) == Success(Verdict(checks))
  {
    InProcessRefinesTheLog(checks, windowOf);
    var ids := LuaRefinesTheLog(checks, windowOf, drops);
  }
}
