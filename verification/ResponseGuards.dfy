/**
 The three nested wrappers that may answer in an app's place: the route answer, the body-size limit
 and the security headers.

 An app is a strategy: what its awaited sends and receives gave so far decides what it does next.
 Any reply may be a failure, so every failing send, disconnect and cancellation is some history, and
 a property of every history is a property of every behaviour of the route and of the server.
 */
module ResponseGuards {
  import opened Wrappers

  datatype Header = Header(name: string, value: string)

  datatype Message = Start(status: nat, headers: seq<Header>) | Other(content: string)

  datatype Incoming = Request(bodyBytes: nat) | OtherIncoming(kind: string)

  /** A failure is the body-size one, any other exception, or a cancellation, which no handler here catches. */
  datatype Failure = TooLarge | Fault(name: string) | Cancelled

  predicate IsException(failure: Failure) { !failure.Cancelled? }

  datatype Action = Send(message: Message) | Receive | Return | Raise(failure: Failure)

  datatype Reply = Sent | Received(incoming: Incoming) | Failed(failure: Failure)

  type History = seq<Reply>

  type App = History -> Action

  predicate StartsAnswer(action: Action) {
    action.Send? && action.message.Start?
  }

  predicate Awaits(action: Action) {
    action.Send? || action.Receive?
  }

  /** Whether the app was still awaiting something at every reply of the history. */
  ghost predicate IsAlive(app: App, h: History) {
    forall k :: 0 <= k < |h| ==> Awaits(app(h[..k]))
  }

  /** How many response starts the app attempted before its last action. */
  function StartsBefore(app: App, h: History): nat {
    if h == [] then 0
    else StartsBefore(app, h[..|h| - 1]) + if StartsAnswer(app(h[..|h| - 1])) then 1 else 0
  }

  /** ... and with its last action. */
  function Starts(app: App, h: History): nat {
    StartsBefore(app, h) + if StartsAnswer(app(h)) then 1 else 0
  }

  ghost predicate SendsAtMostOneStart(app: App) {
    forall h :: IsAlive(app, h) ==> Starts(app, h) <= 1
  }

  // ----- one wrapper -----

  /** A fallback answer: its start, then its body. */
  datatype Answer = Answer(status: nat, headers: seq<Header>, content: string)

  /**
   What sets the wrappers apart: the failures they catch, how they rewrite a start's headers, how
   many body bytes they let in, the answer they fall back to, and how they end after that answer.
   A wrapper may hold a failure before its app ever runs.
   */
  datatype Wrapper = Wrapper(
    beforehand: Option<Failure>,
    catches: Failure -> bool,
    rewrite: seq<Header> -> seq<Header>,
    limit: Option<nat>,
    answer: Answer,
    afterAnswer: Failure -> Action,
    afterFailedAnswer: (Failure, Failure) -> Action)

  datatype Phase = Running | Answering(sent: nat, caught: Failure) | Done(end: Action)

  datatype State = State(inner: History, received: nat, started: bool, phase: Phase)

  function Rewritten(w: Wrapper, message: Message): Message {
    match message
    case Start(status, headers) => Start(status, w.rewrite(headers))
    case Other(_) => message
  }

  /** What the wrapper does once its app has gone one action further. */
  function Settled(w: Wrapper, app: App, s: State): State {
    match app(s.inner)
    case Return => s.(phase := Done(Return))
    case Raise(failure) =>
      if w.catches(failure) && !s.started then s.(phase := Answering(0, failure)) else s.(phase := Done(Raise(failure)))
    case _ => s.(phase := Running)
  }

  function Begun(w: Wrapper, app: App): State {
    match w.beforehand
    case Some(failure) => State([], 0, false, Answering(0, failure))
    case None => Settled(w, app, State([], 0, false, Running))
  }

  /** Counting one received message: the new count, and what the app is handed. */
  function Counted(limit: Option<nat>, received: nat, reply: Reply): (nat, Reply) {
    if limit.Some? && reply.Received? && reply.incoming.Request? then
      var count := received + reply.incoming.bodyBytes;
      (count, if count > limit.value then Failed(TooLarge) else reply)
    else (received, reply)
  }

  function Step(w: Wrapper, app: App, s: State, reply: Reply): State {
    match s.phase
    case Running =>
      var action := app(s.inner);
      if action.Receive? then
        var (count, handed) := Counted(w.limit, s.received, reply);
        Settled(w, app, s.(inner := s.inner + [handed], received := count))
      else
        Settled(w, app, s.(inner := s.inner + [reply], started := s.started || StartsAnswer(action)))
    case Answering(sent, caught) =>
      if reply.Failed? then s.(started := true, phase := Done(w.afterFailedAnswer(caught, reply.failure)))
      else if sent == 0 then s.(started := true, phase := Answering(1, caught))
      else s.(phase := Done(w.afterAnswer(caught)))
    case Done(_) => s
  }

  function After(w: Wrapper, app: App, h: History): State {
    if h == [] then Begun(w, app) else Step(w, app, After(w, app, h[..|h| - 1]), h[|h| - 1])
  }

  function ActionOf(w: Wrapper, app: App, s: State): Action {
    match s.phase
    case Running =>
      (match app(s.inner)
       case Send(message) => Send(Rewritten(w, message))
       case action => action)
    case Answering(sent, _) =>
      Send(if sent == 0 then Start(w.answer.status, w.rewrite(w.answer.headers)) else Other(w.answer.content))
    case Done(end) => end
  }

  /** The wrapped app is an app again. */
  function Wrapped(w: Wrapper, app: App): App {
    h => ActionOf(w, app, After(w, app, h))
  }

  /** A wrapper that ends by returning or raising. */
  ghost predicate IsWrapper(w: Wrapper) {
    && (forall failure :: !Awaits(w.afterAnswer(failure)))
    && (forall caught, failure :: !Awaits(w.afterFailedAnswer(caught, failure)))
  }

  // ----- one start -----

  lemma AliveWith(app: App, h: History, reply: Reply)
    requires IsAlive(app, h) && Awaits(app(h))
    ensures IsAlive(app, h + [reply])
    ensures StartsBefore(app, h + [reply]) == Starts(app, h)
  {
    assert (h + [reply])[..|h|] == h;
    assert forall k :: 0 <= k <= |h| ==> (h + [reply])[..k] == h[..k];
  }

  /** How many starts the wrapper attempted so far: those of its app, or its own one. */
  ghost predicate Tallies(app: App, attempted: nat, s: State) {
    && IsAlive(app, s.inner)
    && (s.started <==> attempted > 0)
    && (s.phase.Running? ==> Awaits(app(s.inner)) && attempted == StartsBefore(app, s.inner))
    && (s.phase.Answering? ==> s.phase.sent <= 1 && attempted == s.phase.sent)
    && (s.phase.Done? ==> attempted <= 1 && !Awaits(s.phase.end))
  }

  lemma SettledTallies(w: Wrapper, app: App, s: State)
    requires IsAlive(app, s.inner) && Starts(app, s.inner) <= 1
    requires s.started <==> StartsBefore(app, s.inner) > 0
    ensures Tallies(app, StartsBefore(app, s.inner), Settled(w, app, s))
  {
  }

  lemma StepTallies(w: Wrapper, app: App, attempted: nat, reply: Reply, s: State)
    requires IsWrapper(w) && SendsAtMostOneStart(app) && Tallies(app, attempted, s)
    ensures Tallies(app, attempted + if StartsAnswer(ActionOf(w, app, s)) then 1 else 0, Step(w, app, s, reply))
  {
    if s.phase.Running? {
      var action := app(s.inner);
      var (count, given) := Counted(w.limit, s.received, reply);
      var handed := if action.Receive? then given else reply;
      AliveWith(app, s.inner, handed);
      assert Starts(app, s.inner + [handed]) <= 1;
      if action.Receive? {
        SettledTallies(w, app, s.(inner := s.inner + [handed], received := count));
      } else {
        SettledTallies(w, app, s.(inner := s.inner + [handed], started := s.started || StartsAnswer(action)));
      }
    }
  }

  lemma {:induction false} WrapperTallies(w: Wrapper, app: App, h: History)
    requires IsWrapper(w) && SendsAtMostOneStart(app)
    ensures Tallies(app, StartsBefore(Wrapped(w, app), h), After(w, app, h))
  {
    if h == [] {
      assert Starts(app, []) <= 1;
      if w.beforehand.None? {
        SettledTallies(w, app, State([], 0, false, Running));
      }
    } else {
      var before := h[..|h| - 1];
      WrapperTallies(w, app, before);
      StepTallies(w, app, StartsBefore(Wrapped(w, app), before), h[|h| - 1], After(w, app, before));
    }
  }

  /** Around an app that sends at most one start, a wrapper's own answer included, at most one start leaves. */
  lemma WrapperSendsAtMostOneStart(w: Wrapper, app: App)
    requires IsWrapper(w) && SendsAtMostOneStart(app)
    ensures SendsAtMostOneStart(Wrapped(w, app))
  {
    forall h ensures Starts(Wrapped(w, app), h) <= 1 {
      WrapperTallies(w, app, h);
      var s := After(w, app, h);
      assert s.phase.Running? ==> Starts(app, s.inner) <= 1;
    }
  }

  // ----- the three wrappers -----

  /** `_RouteAnswer`: every start carries the cookies, and a failure is raised after the answer to it. */
  function RouteAnswer(cookies: seq<Header>, failed: Option<Failure>, answer: Answer): Wrapper {
    Wrapper(failed, failure => IsException(failure), headers => headers + cookies, None, answer,
            failure => Raise(failure), (caught, failure) => Raise(failure))
  }

  /** `BodySizeLimitMiddleware`: a body over the limit is answered, and nothing else is caught. */
  function BodySizeLimit(limit: nat, declaredOver: bool, answer: Answer): Wrapper {
    Wrapper(if declaredOver then Some(TooLarge) else None, (failure: Failure) => failure.TooLarge?,
            headers => headers, Some(limit), answer, failure => Return, (caught, failure) => Raise(failure))
  }

  /** `SecurityHeadersMiddleware`: every failure reaches the server, even where its answer could not be sent. */
  function SecurityHeaders(policy: Policy, cookieSecure: Option<bool>, answer: Answer): Wrapper {
    Wrapper(if cookieSecure.None? then Some(Fault("no configuration is installed")) else None,
            failure => IsException(failure), headers => ApplyPolicy(policy, cookieSecure == Some(true), headers), None,
            answer, failure => Raise(failure),
            (caught, failure) => Raise(if IsException(failure) then caught else failure))
  }

  datatype Request = Call(
    cookies: seq<Header>, routeFailed: Option<Failure>, routeAnswer: Answer,
    limit: nat, declaredOver: bool, tooLarge: Answer,
    policy: Policy, cookieSecure: Option<bool>, serverError: Answer)

  function Route(call: Request, outcome: App): App {
    Wrapped(RouteAnswer(call.cookies, call.routeFailed, call.routeAnswer), outcome)
  }

  function Limited(call: Request, outcome: App): App {
    Wrapped(BodySizeLimit(call.limit, call.declaredOver, call.tooLarge), Route(call, outcome))
  }

  function Stack(call: Request, outcome: App): App {
    Wrapped(SecurityHeaders(call.policy, call.cookieSecure, call.serverError), Limited(call, outcome))
  }

  /** What the replies at the server become for each layer further in. */
  function HistoryOfLimited(call: Request, outcome: App, h: History): History {
    After(SecurityHeaders(call.policy, call.cookieSecure, call.serverError), Limited(call, outcome), h).inner
  }

  function HistoryOfRoute(call: Request, outcome: App, h: History): History {
    After(BodySizeLimit(call.limit, call.declaredOver, call.tooLarge), Route(call, outcome),
          HistoryOfLimited(call, outcome, h)).inner
  }

  function HistoryOfOutcome(call: Request, outcome: App, h: History): History {
    After(RouteAnswer(call.cookies, call.routeFailed, call.routeAnswer), outcome,
          HistoryOfRoute(call, outcome, h)).inner
  }

  /** Whatever the route does and whichever sends fail, at most one response start reaches the server. */
  lemma StackSendsAtMostOneStart(call: Request, outcome: App)
    requires SendsAtMostOneStart(outcome)
    ensures SendsAtMostOneStart(Route(call, outcome))
    ensures SendsAtMostOneStart(Limited(call, outcome))
    ensures SendsAtMostOneStart(Stack(call, outcome))
  {
    WrapperSendsAtMostOneStart(RouteAnswer(call.cookies, call.routeFailed, call.routeAnswer), outcome);
    WrapperSendsAtMostOneStart(BodySizeLimit(call.limit, call.declaredOver, call.tooLarge), Route(call, outcome));
    WrapperSendsAtMostOneStart(SecurityHeaders(call.policy, call.cookieSecure, call.serverError), Limited(call, outcome));
  }

  /** A wrapper that catches every exception and answers it never ends in one without a start. */
  lemma {:induction false} ExceptionFollowsAStart(w: Wrapper, app: App, h: History)
    requires IsWrapper(w) && SendsAtMostOneStart(app)
    requires forall failure :: IsException(failure) ==> w.catches(failure)
    requires var action := Wrapped(w, app)(h); action.Raise? && IsException(action.failure)
    ensures StartsBefore(Wrapped(w, app), h) == 1
  {
    WrapperTallies(w, app, h);
    if h != [] {
      DoneMeansStarted(w, app, h);
    }
  }

  lemma {:induction false} DoneMeansStarted(w: Wrapper, app: App, h: History)
    requires forall failure :: IsException(failure) ==> w.catches(failure)
    ensures var s := After(w, app, h);
            s.phase.Done? && s.phase.end.Raise? && IsException(s.phase.end.failure) ==> s.started
    ensures var s := After(w, app, h); s.phase.Answering? && s.phase.sent > 0 ==> s.started
  {
    if h != [] {
      DoneMeansStarted(w, app, h[..|h| - 1]);
    }
  }

  /**
   When the stack ends in an exception, exactly one start was handed to the server: the app's, or
   the answer to the exception.
   */
  lemma ServerExceptionFollowsOneStart(call: Request, outcome: App, h: History)
    requires SendsAtMostOneStart(outcome)
    requires var action := Stack(call, outcome)(h); action.Raise? && IsException(action.failure)
    ensures StartsBefore(Stack(call, outcome), h) == 1
  {
    StackSendsAtMostOneStart(call, outcome);
    ExceptionFollowsAStart(SecurityHeaders(call.policy, call.cookieSecure, call.serverError), Limited(call, outcome), h);
  }

  // ----- no failure is lost -----

  /** The failure a wrapper answers: the one it held before, or one of its app's that it catches. */
  function Caught(w: Wrapper, app: App, inner: History): Option<Failure> {
    if w.beforehand.Some? then w.beforehand
    else
      match app(inner)
      case Raise(failure) => if w.catches(failure) then Some(failure) else None
      case _ => None
  }

  /** The app's own end, or what follows the answer to a failure, sent or not. */
  ghost predicate IsEndOf(w: Wrapper, app: App, inner: History, end: Action) {
    || (w.beforehand.None? && end == app(inner) && !Awaits(end))
    || (Caught(w, app, inner).Some? &&
        var caught := Caught(w, app, inner).value;
        end == w.afterAnswer(caught) || exists failure :: end == w.afterFailedAnswer(caught, failure))
  }

  ghost predicate IsExplained(w: Wrapper, app: App, s: State) {
    match s.phase
    case Running => w.beforehand.None?
    case Answering(_, caught) => Caught(w, app, s.inner) == Some(caught)
    case Done(end) => IsEndOf(w, app, s.inner, end)
  }

  lemma SettledIsExplained(w: Wrapper, app: App, s: State)
    requires w.beforehand.None?
    ensures IsExplained(w, app, Settled(w, app, s))
  {
  }

  lemma StepIsExplained(w: Wrapper, app: App, s: State, reply: Reply)
    requires IsExplained(w, app, s)
    ensures IsExplained(w, app, Step(w, app, s, reply))
  {
    if s.phase.Running? {
      var action := app(s.inner);
      var (count, handed) := Counted(w.limit, s.received, reply);
      if action.Receive? {
        SettledIsExplained(w, app, s.(inner := s.inner + [handed], received := count));
      } else {
        SettledIsExplained(w, app, s.(inner := s.inner + [reply], started := s.started || StartsAnswer(action)));
      }
    }
  }

  lemma {:induction false} EveryStateIsExplained(w: Wrapper, app: App, h: History)
    ensures IsExplained(w, app, After(w, app, h))
  {
    if h == [] {
      if w.beforehand.None? {
        SettledIsExplained(w, app, State([], 0, false, Running));
      }
    } else {
      EveryStateIsExplained(w, app, h[..|h| - 1]);
      StepIsExplained(w, app, After(w, app, h[..|h| - 1]), h[|h| - 1]);
    }
  }

  /** A wrapper that has ended did so for a reason its app, or what it held before, gave. */
  lemma EndIsExplained(w: Wrapper, app: App, h: History)
    requires !Awaits(Wrapped(w, app)(h))
    ensures IsEndOf(w, app, After(w, app, h).inner, Wrapped(w, app)(h))
  {
    EveryStateIsExplained(w, app, h);
    if After(w, app, h).phase.Running? {
      RunningAwaits(w, app, h);
    }
  }

  lemma {:induction false} RunningAwaits(w: Wrapper, app: App, h: History)
    ensures After(w, app, h).phase.Running? ==> Awaits(app(After(w, app, h).inner))
  {
    if h != [] {
      RunningAwaits(w, app, h[..|h| - 1]);
    }
  }

  /**
   The stack returns only if the route's outcome returned, or the body was over the limit; and an
   exception it raises is the one that came out of the layers inside it, unaltered.
   */
  lemma OnlyTheBodyLimitEndsAFailure(call: Request, outcome: App, h: History)
    requires call.cookieSecure.Some?
    ensures Stack(call, outcome)(h).Return? ==>
              || (call.routeFailed.None? && outcome(HistoryOfOutcome(call, outcome, h)).Return?)
              || call.declaredOver
              || Route(call, outcome)(HistoryOfRoute(call, outcome, h)) == Raise(TooLarge)
    ensures var action := Stack(call, outcome)(h);
            action.Raise? && IsException(action.failure) ==>
              Limited(call, outcome)(HistoryOfLimited(call, outcome, h)) == action
  {
    var security := SecurityHeaders(call.policy, call.cookieSecure, call.serverError);
    var limit := BodySizeLimit(call.limit, call.declaredOver, call.tooLarge);
    var answered := RouteAnswer(call.cookies, call.routeFailed, call.routeAnswer);
    if !Awaits(Stack(call, outcome)(h)) {
      EndIsExplained(security, Limited(call, outcome), h);
      if Stack(call, outcome)(h).Return? {
        var limitedHistory := HistoryOfLimited(call, outcome, h);
        assert Limited(call, outcome)(limitedHistory).Return?;
        EndIsExplained(limit, Route(call, outcome), limitedHistory);
        var routeHistory := HistoryOfRoute(call, outcome, h);
        if Route(call, outcome)(routeHistory).Return? {
          EndIsExplained(answered, outcome, routeHistory);
        }
      }
    }
  }

  // ----- the body -----

  /** The body bytes a reply, and a whole history, hands to an app. */
  function BytesOf(reply: Reply): nat {
    if reply.Received? && reply.incoming.Request? then reply.incoming.bodyBytes else 0
  }

  function BodyBytes(h: History): nat {
    if h == [] then 0 else BodyBytes(h[..|h| - 1]) + BytesOf(h[|h| - 1])
  }

  /** Within the limit every byte counted was handed over; past it no more is. */
  ghost predicate KeepsTheLimit(limit: nat, s: State) {
    && BodyBytes(s.inner) <= limit
    && (s.received <= limit ==> BodyBytes(s.inner) <= s.received)
  }

  lemma BodyBytesWith(h: History, reply: Reply)
    ensures BodyBytes(h + [reply]) == BodyBytes(h) + BytesOf(reply)
  {
    assert (h + [reply])[..|h|] == h;
  }

  /** A well-formed history: only a receive is answered with a message. */
  ghost predicate IsWellFormed(app: App, h: History) {
    forall k :: 0 <= k < |h| && h[k].Received? ==> app(h[..k]).Receive?
  }

  /** What one reply makes of a running wrapper's history, counter and flag. */
  lemma RunningStep(w: Wrapper, app: App, s: State, reply: Reply)
    requires s.phase.Running?
    ensures var t, counted := Step(w, app, s, reply), Counted(w.limit, s.received, reply);
            if app(s.inner).Receive? then
              t.inner == s.inner + [counted.1] && t.received == counted.0 && t.started == s.started
            else
              t.inner == s.inner + [reply] && t.received == s.received
              && t.started == (s.started || StartsAnswer(app(s.inner)))
  {
  }

  lemma StepKeepsTheLimit(w: Wrapper, app: App, s: State, reply: Reply)
    requires w.limit.Some? && KeepsTheLimit(w.limit.value, s)
    requires s.phase.Running? && reply.Received? ==> app(s.inner).Receive?
    ensures KeepsTheLimit(w.limit.value, Step(w, app, s, reply))
  {
    if s.phase.Running? {
      RunningStep(w, app, s, reply);
      if app(s.inner).Receive? {
        HandedWithinTheLimit(w.limit.value, s.inner, s.received, reply);
      } else {
        BodyBytesWith(s.inner, reply);
      }
    }
  }

  /** What counting a message lets through keeps the bytes handed over within the limit, and the counter true. */
  lemma HandedWithinTheLimit(limit: nat, inner: History, received: nat, reply: Reply)
    requires BodyBytes(inner) <= limit && (received <= limit ==> BodyBytes(inner) <= received)
    ensures var (count, handed) := Counted(Some(limit), received, reply);
            && BodyBytes(inner + [handed]) <= limit
            && (count <= limit ==> BodyBytes(inner + [handed]) <= count)
  {
    BodyBytesWith(inner, Counted(Some(limit), received, reply).1);
  }

  lemma {:induction false} BodyStaysWithinTheLimit(w: Wrapper, app: App, h: History)
    requires w.limit.Some? && IsWellFormed(Wrapped(w, app), h)
    ensures KeepsTheLimit(w.limit.value, After(w, app, h))
  {
    if h != [] {
      var before := h[..|h| - 1];
      LastIsWellFormed(w, app, h);
      BodyStaysWithinTheLimit(w, app, before);
      StepKeepsTheLimit(w, app, After(w, app, before), h[|h| - 1]);
    }
  }

  /** The last reply of a well-formed history fits what the wrapped app awaited. */
  lemma LastIsWellFormed(w: Wrapper, app: App, h: History)
    requires h != [] && IsWellFormed(Wrapped(w, app), h)
    ensures IsWellFormed(Wrapped(w, app), h[..|h| - 1])
    ensures var s := After(w, app, h[..|h| - 1]);
            s.phase.Running? && h[|h| - 1].Received? ==> app(s.inner).Receive?
  {
    var before := h[..|h| - 1];
    assert forall k :: 0 <= k < |before| ==> before[..k] == h[..k] && before[k] == h[k];
    assert h[|h| - 1].Received? ==> Wrapped(w, app)(before).Receive?;
  }

  /** A wrapper hands its app no more body than it was handed. */
  lemma {:induction false} WrapperAddsNoBody(w: Wrapper, app: App, h: History)
    ensures BodyBytes(After(w, app, h).inner) <= BodyBytes(h)
  {
    if h != [] {
      WrapperAddsNoBody(w, app, h[..|h| - 1]);
      StepAddsNoBody(w, app, After(w, app, h[..|h| - 1]), h[|h| - 1]);
    }
  }

  lemma StepAddsNoBody(w: Wrapper, app: App, s: State, reply: Reply)
    ensures BodyBytes(Step(w, app, s, reply).inner) <= BodyBytes(s.inner) + BytesOf(reply)
  {
    if s.phase.Running? {
      RunningStep(w, app, s, reply);
      BodyBytesWith(s.inner, if app(s.inner).Receive? then Counted(w.limit, s.received, reply).1 else reply);
    }
  }

  lemma WellFormedWith(app: App, h: History, reply: Reply)
    requires IsWellFormed(app, h) && (reply.Received? ==> app(h).Receive?)
    ensures IsWellFormed(app, h + [reply])
  {
    assert forall k :: 0 <= k <= |h| ==> (h + [reply])[..k] == h[..k];
  }

  lemma StepKeepsWellFormed(w: Wrapper, app: App, s: State, reply: Reply)
    requires IsWellFormed(app, s.inner)
    requires s.phase.Running? && reply.Received? ==> app(s.inner).Receive?
    ensures IsWellFormed(app, Step(w, app, s, reply).inner)
  {
    if s.phase.Running? {
      WellFormedWith(app, s.inner, if app(s.inner).Receive? then Counted(w.limit, s.received, reply).1 else reply);
    }
  }

  lemma {:induction false} InnerIsWellFormed(w: Wrapper, app: App, h: History)
    requires IsWellFormed(Wrapped(w, app), h)
    ensures IsWellFormed(app, After(w, app, h).inner)
  {
    if h != [] {
      var before := h[..|h| - 1];
      LastIsWellFormed(w, app, h);
      InnerIsWellFormed(w, app, before);
      StepKeepsWellFormed(w, app, After(w, app, before), h[|h| - 1]);
    }
  }

  /** Through the whole stack the app is never handed more than the limit, however often it reads on. */
  lemma AppIsHandedNoMoreThanTheLimit(call: Request, outcome: App, h: History)
    requires IsWellFormed(Stack(call, outcome), h)
    ensures BodyBytes(HistoryOfRoute(call, outcome, h)) <= call.limit
    ensures BodyBytes(HistoryOfOutcome(call, outcome, h)) <= call.limit
  {
    var security := SecurityHeaders(call.policy, call.cookieSecure, call.serverError);
    var limited := BodySizeLimit(call.limit, call.declaredOver, call.tooLarge);
    InnerIsWellFormed(security, Limited(call, outcome), h);
    BodyStaysWithinTheLimit(limited, Route(call, outcome), HistoryOfLimited(call, outcome, h));
    WrapperAddsNoBody(RouteAnswer(call.cookies, call.routeFailed, call.routeAnswer), outcome,
                      HistoryOfRoute(call, outcome, h));
  }

  // ----- the headers -----

  const SET_COOKIE := "set-cookie"
  const OWN_POLICY_HEADER := "webauth-own-policy"
  const CACHE_CONTROL := "cache-control"
  const CONTENT_SECURITY_POLICY := "content-security-policy"
  const STRICT_TRANSPORT_SECURITY := "strict-transport-security"
  const HSTS := "max-age=31536000; includeSubDomains"

  /** The deployment's policy for one path. */
  datatype Policy = Policy(cacheControl: Option<string>, contentSecurityPolicy: string, permissionsPolicy: string)

  function Named(headers: seq<Header>, name: string): seq<Header> {
    if headers == [] then []
    else (if headers[0].name == name then [headers[0]] else []) + Named(headers[1..], name)
  }

  function Deleted(headers: seq<Header>, name: string): seq<Header> {
    if headers == [] then []
    else (if headers[0].name == name then [] else [headers[0]]) + Deleted(headers[1..], name)
  }

  /** Replaces the first header of the name and drops the others, or appends. */
  function Assigned(headers: seq<Header>, name: string, value: string): seq<Header> {
    if headers == [] then [Header(name, value)]
    else if headers[0].name == name then [Header(name, value)] + Deleted(headers[1..], name)
    else [headers[0]] + Assigned(headers[1..], name, value)
  }

  function ApplyOwnPolicy(policy: Policy, headers: seq<Header>): seq<Header> {
    if Named(headers, OWN_POLICY_HEADER) != [] then Deleted(headers, OWN_POLICY_HEADER)
    else
      var cached := if policy.cacheControl.None? then headers
                    else Assigned(headers, CACHE_CONTROL, policy.cacheControl.value);
      Assigned(cached, CONTENT_SECURITY_POLICY, policy.contentSecurityPolicy)
  }

  function ApplyPolicy(policy: Policy, cookieSecure: bool, headers: seq<Header>): seq<Header> {
    var own := ApplyOwnPolicy(policy, headers);
    var typed := Assigned(own, "x-content-type-options", "nosniff");
    var framed := Assigned(typed, "x-frame-options", "DENY");
    var referred := Assigned(framed, "referrer-policy", "strict-origin-when-cross-origin");
    var permitted := Assigned(referred, "permissions-policy", policy.permissionsPolicy);
    if cookieSecure then Assigned(permitted, STRICT_TRANSPORT_SECURITY, HSTS)
    else Deleted(permitted, STRICT_TRANSPORT_SECURITY)
  }

  lemma {:induction false} NamedAfterDeleted(headers: seq<Header>, name: string, other: string)
    ensures Named(Deleted(headers, name), other) == if other == name then [] else Named(headers, other)
  {
    if headers != [] {
      NamedAfterDeleted(headers[1..], name, other);
      if headers[0].name == name {
        assert Deleted(headers, name) == Deleted(headers[1..], name);
      } else {
        assert Deleted(headers, name) == [headers[0]] + Deleted(headers[1..], name);
        NamedFirst(headers[0], Deleted(headers[1..], name), other);
      }
    }
  }

  lemma NamedFirst(first: Header, rest: seq<Header>, name: string)
    ensures Named([first] + rest, name) == (if first.name == name then [first] else []) + Named(rest, name)
  {
    assert ([first] + rest)[1..] == rest;
  }

  lemma {:induction false} NamedAfterAssigned(headers: seq<Header>, name: string, value: string, other: string)
    ensures Named(Assigned(headers, name, value), other)
         == if other == name then [Header(name, value)] else Named(headers, other)
  {
    if headers == [] {
      NamedFirst(Header(name, value), [], other);
    } else if headers[0].name == name {
      NamedFirst(Header(name, value), Deleted(headers[1..], name), other);
      NamedAfterDeleted(headers[1..], name, other);
    } else {
      NamedAfterAssigned(headers[1..], name, value, other);
      NamedFirst(headers[0], Assigned(headers[1..], name, value), other);
    }
  }

  lemma {:induction false} NamedAcross(a: seq<Header>, b: seq<Header>, name: string)
    ensures Named(a + b, name) == Named(a, name) + Named(b, name)
  {
    if a == [] {
      assert a + b == b;
    } else {
      NamedAcross(a[1..], b, name);
      NamedAcrossOneMore(a[0], a[1..], b, name);
      assert a + b == [a[0]] + (a[1..] + b) && a == [a[0]] + a[1..];
    }
  }

  lemma NamedAcrossOneMore(first: Header, rest: seq<Header>, b: seq<Header>, name: string)
    requires Named(rest + b, name) == Named(rest, name) + Named(b, name)
    ensures Named([first] + (rest + b), name) == Named([first] + rest, name) + Named(b, name)
  {
    NamedFirst(first, rest + b, name);
    NamedFirst(first, rest, name);
  }

  function OwnPolicyFor(policy: Policy, headers: seq<Header>, name: string): seq<Header> {
    var ownPolicy := Named(headers, "webauth-own-policy") != [];
    if name == "webauth-own-policy" then []
    else if name == "content-security-policy" && !ownPolicy then [Header(name, policy.contentSecurityPolicy)]
    else if name == "cache-control" && !ownPolicy && policy.cacheControl.Some? then
      [Header(name, policy.cacheControl.value)]
    else Named(headers, name)
  }

  /** What the policy leaves of the headers of one name. */
  function PolicyFor(policy: Policy, cookieSecure: bool, headers: seq<Header>, name: string): seq<Header> {
    if name == "x-content-type-options" then [Header(name, "nosniff")]
    else if name == "x-frame-options" then [Header(name, "DENY")]
    else if name == "referrer-policy" then [Header(name, "strict-origin-when-cross-origin")]
    else if name == "permissions-policy" then [Header(name, policy.permissionsPolicy)]
    else if name == "strict-transport-security" then
      if cookieSecure then [Header(name, "max-age=31536000; includeSubDomains")] else []
    else OwnPolicyFor(policy, headers, name)
  }

  lemma OwnPolicyExactly(policy: Policy, headers: seq<Header>, name: string)
    ensures Named(ApplyOwnPolicy(policy, headers), name) == OwnPolicyFor(policy, headers, name)
  {
    NamedAfterDeleted(headers, OWN_POLICY_HEADER, name);
    var cached := if policy.cacheControl.None? then headers
                  else Assigned(headers, CACHE_CONTROL, policy.cacheControl.value);
    if policy.cacheControl.Some? {
      NamedAfterAssigned(headers, CACHE_CONTROL, policy.cacheControl.value, name);
    }
    NamedAfterAssigned(cached, CONTENT_SECURITY_POLICY, policy.contentSecurityPolicy, name);
  }

  /**
   Name by name, the policy's headers stand once with its values, the marker never leaves, an answer
   with the marker keeps its own two, and every other header stays as it was.
   */
  lemma PolicyExactly(policy: Policy, cookieSecure: bool, headers: seq<Header>, name: string)
    ensures Named(ApplyPolicy(policy, cookieSecure, headers), name) == PolicyFor(policy, cookieSecure, headers, name)
  {
    OwnPolicyExactly(policy, headers, name);
    var own := ApplyOwnPolicy(policy, headers);
    NamedAfterAssigned(own, "x-content-type-options", "nosniff", name);
    var typed := Assigned(own, "x-content-type-options", "nosniff");
    NamedAfterAssigned(typed, "x-frame-options", "DENY", name);
    var framed := Assigned(typed, "x-frame-options", "DENY");
    NamedAfterAssigned(framed, "referrer-policy", "strict-origin-when-cross-origin", name);
    var referred := Assigned(framed, "referrer-policy", "strict-origin-when-cross-origin");
    NamedAfterAssigned(referred, "permissions-policy", policy.permissionsPolicy, name);
    var permitted := Assigned(referred, "permissions-policy", policy.permissionsPolicy);
    NamedAfterAssigned(permitted, STRICT_TRANSPORT_SECURITY, HSTS, name);
    NamedAfterDeleted(permitted, STRICT_TRANSPORT_SECURITY, name);
  }

  /** Every start a wrapper lets out, its app's or its own, has its headers rewritten once. */
  lemma StartIsRewritten(w: Wrapper, app: App, h: History)
    requires IsWrapper(w) && StartsAnswer(Wrapped(w, app)(h))
    ensures Wrapped(w, app)(h).message.headers == w.rewrite(GivenHeaders(w, app, h))
    ensures After(w, app, h).phase.Running? ==> StartsAnswer(app(After(w, app, h).inner))
  {
    DoneIsTheEnd(w, app, h);
    ActionIsRewritten(w, app, After(w, app, h));
  }

  lemma {:induction false} DoneIsTheEnd(w: Wrapper, app: App, h: History)
    requires IsWrapper(w)
    ensures After(w, app, h).phase.Done? ==> !Awaits(After(w, app, h).phase.end)
  {
    if h != [] {
      DoneIsTheEnd(w, app, h[..|h| - 1]);
    }
  }

  lemma ActionIsRewritten(w: Wrapper, app: App, s: State)
    requires StartsAnswer(ActionOf(w, app, s)) && !s.phase.Done?
    ensures ActionOf(w, app, s).message.headers == w.rewrite(HeadersOf(w, app, s))
    ensures s.phase.Running? ==> StartsAnswer(app(s.inner))
  {
  }

  /** The headers a start has before the wrapper rewrites them: those of its app's start, or its own answer's. */
  function HeadersOf(w: Wrapper, app: App, s: State): seq<Header> {
    if s.phase.Running? && StartsAnswer(app(s.inner)) then app(s.inner).message.headers else w.answer.headers
  }

  function GivenHeaders(w: Wrapper, app: App, h: History): seq<Header> {
    HeadersOf(w, app, After(w, app, h))
  }

  /** Every start that reaches the server carries the policy, the stack's own 413 and 500 included. */
  lemma EveryStartCarriesThePolicy(call: Request, outcome: App, h: History, name: string)
    requires StartsAnswer(Stack(call, outcome)(h))
    ensures var given := GivenHeaders(
                SecurityHeaders(call.policy, call.cookieSecure, call.serverError), Limited(call, outcome), h);
            Named(Stack(call, outcome)(h).message.headers, name)
            == PolicyFor(call.policy, call.cookieSecure == Some(true), given, name)
  {
    var security := SecurityHeaders(call.policy, call.cookieSecure, call.serverError);
    StartIsRewritten(security, Limited(call, outcome), h);
    var given := GivenHeaders(security, Limited(call, outcome), h);
    PolicyExactly(call.policy, call.cookieSecure == Some(true), given, name);
  }

  predicate EndsWith(headers: seq<Header>, cookies: seq<Header>) {
    |headers| >= |cookies| && headers[|headers| - |cookies|..] == cookies
  }

  lemma {:induction false} CookiesAreNamed(cookies: seq<Header>)
    requires forall i :: 0 <= i < |cookies| ==> cookies[i].name == SET_COOKIE
    ensures Named(cookies, SET_COOKIE) == cookies
  {
    if cookies != [] {
      CookiesAreNamed(cookies[1..]);
      assert [cookies[0]] + cookies[1..] == cookies;
    }
  }

  /** Whether the stack's action is one the route answer made, not a fallback around it. */
  predicate ComesFromTheRoute(call: Request, outcome: App, h: History) {
    && After(SecurityHeaders(call.policy, call.cookieSecure, call.serverError), Limited(call, outcome), h).phase.Running?
    && After(BodySizeLimit(call.limit, call.declaredOver, call.tooLarge), Route(call, outcome),
             HistoryOfLimited(call, outcome, h)).phase.Running?
  }

  /** A start of the route answer, as it reaches the server: its headers, its cookies, then the policy. */
  lemma HeadersOfARouteStart(call: Request, outcome: App, h: History)
    requires StartsAnswer(Stack(call, outcome)(h)) && ComesFromTheRoute(call, outcome, h)
    ensures var answered := RouteAnswer(call.cookies, call.routeFailed, call.routeAnswer);
            var given := GivenHeaders(answered, outcome, HistoryOfRoute(call, outcome, h));
            Stack(call, outcome)(h).message.headers
            == ApplyPolicy(call.policy, call.cookieSecure == Some(true), given + call.cookies)
  {
    var security := SecurityHeaders(call.policy, call.cookieSecure, call.serverError);
    var limit := BodySizeLimit(call.limit, call.declaredOver, call.tooLarge);
    var answered := RouteAnswer(call.cookies, call.routeFailed, call.routeAnswer);
    StartIsRewritten(security, Limited(call, outcome), h);
    StartIsRewritten(limit, Route(call, outcome), HistoryOfLimited(call, outcome, h));
    StartIsRewritten(answered, outcome, HistoryOfRoute(call, outcome, h));
  }

  /**
   Every start a route answer makes, for its outcome or for the failure in its place, reaches the
   server with the cookies last among all it sets: the body limit and the policy drop none.
   */
  lemma RouteCookiesReachTheServer(call: Request, outcome: App, h: History)
    requires forall i :: 0 <= i < |call.cookies| ==> call.cookies[i].name == SET_COOKIE
    requires StartsAnswer(Stack(call, outcome)(h)) && ComesFromTheRoute(call, outcome, h)
    ensures EndsWith(Named(Stack(call, outcome)(h).message.headers, SET_COOKIE), call.cookies)
  {
    HeadersOfARouteStart(call, outcome, h);
    var answered := RouteAnswer(call.cookies, call.routeFailed, call.routeAnswer);
    var given := GivenHeaders(answered, outcome, HistoryOfRoute(call, outcome, h));
    PolicyExactly(call.policy, call.cookieSecure == Some(true), given + call.cookies, SET_COOKIE);
    NamedAcross(given, call.cookies, SET_COOKIE);
    CookiesAreNamed(call.cookies);
  }

  // ----- what reaches the server, and what answers a failure -----

  /** A message as it was sent, the headers of a start aside. */
  predicate IsTheSame(given: Message, sent: Message) {
    match given
    case Start(status, _) => sent.Start? && sent.status == status
    case Other(_) => sent == given
  }

  /** A message of a fallback answer. */
  predicate IsOfAnswer(answer: Answer, sent: Message) {
    match sent
    case Start(status, _) => status == answer.status
    case Other(content) => content == answer.content
  }

  lemma SentIsTheAppsOrTheAnswers(w: Wrapper, app: App, h: History)
    requires IsWrapper(w) && Wrapped(w, app)(h).Send?
    ensures var s := After(w, app, h);
            if s.phase.Running? then app(s.inner).Send? && IsTheSame(app(s.inner).message, Wrapped(w, app)(h).message)
            else s.phase.Answering? && IsOfAnswer(w.answer, Wrapped(w, app)(h).message)
  {
    DoneIsTheEnd(w, app, h);
  }

  /**
   Every message that reaches the server is the outcome's own, status and content unaltered, or one of
   the route's failure answer, the 413 or the 500.
   */
  lemma EveryMessageIsDelivered(call: Request, outcome: App, h: History)
    requires Stack(call, outcome)(h).Send?
    ensures var sent := Stack(call, outcome)(h).message;
            || IsOfAnswer(call.serverError, sent) || IsOfAnswer(call.tooLarge, sent) || IsOfAnswer(call.routeAnswer, sent)
            || (&& ComesFromTheRoute(call, outcome, h)
                && outcome(HistoryOfOutcome(call, outcome, h)).Send?
                && IsTheSame(outcome(HistoryOfOutcome(call, outcome, h)).message, sent))
  {
    SentIsTheAppsOrTheAnswers(SecurityHeaders(call.policy, call.cookieSecure, call.serverError), Limited(call, outcome), h);
    if After(SecurityHeaders(call.policy, call.cookieSecure, call.serverError), Limited(call, outcome), h).phase.Running? {
      LimitedMessage(call, outcome, HistoryOfLimited(call, outcome, h));
    }
  }

  lemma LimitedMessage(call: Request, outcome: App, h: History)
    requires Limited(call, outcome)(h).Send?
    ensures var limit := After(BodySizeLimit(call.limit, call.declaredOver, call.tooLarge), Route(call, outcome), h);
            var route := After(RouteAnswer(call.cookies, call.routeFailed, call.routeAnswer), outcome, limit.inner);
            var sent := Limited(call, outcome)(h).message;
            || IsOfAnswer(call.tooLarge, sent)
            || (limit.phase.Running? && IsOfAnswer(call.routeAnswer, sent))
            || (limit.phase.Running? && outcome(route.inner).Send? && IsTheSame(outcome(route.inner).message, sent))
  {
    var limit := After(BodySizeLimit(call.limit, call.declaredOver, call.tooLarge), Route(call, outcome), h);
    SentIsTheAppsOrTheAnswers(BodySizeLimit(call.limit, call.declaredOver, call.tooLarge), Route(call, outcome), h);
    if limit.phase.Running? {
      SentIsTheAppsOrTheAnswers(RouteAnswer(call.cookies, call.routeFailed, call.routeAnswer), outcome, limit.inner);
    }
  }

  /** The app has just raised this, with no start handed on before. */
  predicate RaisesUnstarted(w: Wrapper, app: App, h: History, reply: Reply, failure: Failure) {
    var t := After(w, app, h + [reply]);
    && After(w, app, h).phase.Running?
    && app(t.inner) == Raise(failure) && !t.started
  }

  /** The two messages of an answer and what ends it, send by send. */
  ghost predicate AnswersWith(app: App, h: History, start: Message, content: string, end: Action) {
    && app(h) == Send(start)
    && app(h + [Sent]) == Send(Other(content))
    && app(h + [Sent] + [Sent]) == end
  }

  lemma AfterOneMore(w: Wrapper, app: App, h: History, reply: Reply)
    ensures After(w, app, h + [reply]) == Step(w, app, After(w, app, h), reply)
  {
    assert (h + [reply])[..|h|] == h;
  }

  lemma EntersItsAnswer(w: Wrapper, app: App, h: History, reply: Reply, failure: Failure)
    requires RaisesUnstarted(w, app, h, reply, failure)
    ensures After(w, app, h + [reply]).phase == if w.catches(failure) then Answering(0, failure) else Done(Raise(failure))
  {
    AfterOneMore(w, app, h, reply);
  }

  lemma RunsThroughItsAnswer(w: Wrapper, app: App, g: History, failure: Failure)
    requires After(w, app, g).phase == Answering(0, failure)
    ensures AnswersWith(Wrapped(w, app), g, Start(w.answer.status, w.rewrite(w.answer.headers)), w.answer.content,
                        w.afterAnswer(failure))
  {
    AnswerGoesOn(w, app, g, failure);
    AnswerEnds(w, app, g + [Sent], failure);
    ActionAt(w, app, g);
    ActionAt(w, app, g + [Sent]);
    ActionAt(w, app, g + [Sent] + [Sent]);
  }

  lemma ActionAt(w: Wrapper, app: App, h: History)
    ensures var phase, action := After(w, app, h).phase, Wrapped(w, app)(h);
            && (phase.Done? ==> action == phase.end)
            && (phase.Answering? && phase.sent == 0 ==> action == Send(Start(w.answer.status, w.rewrite(w.answer.headers))))
            && (phase.Answering? && phase.sent > 0 ==> action == Send(Other(w.answer.content)))
  {
  }

  lemma AnswerGoesOn(w: Wrapper, app: App, g: History, failure: Failure)
    requires After(w, app, g).phase == Answering(0, failure)
    ensures After(w, app, g + [Sent]).phase == Answering(1, failure)
  {
    AfterOneMore(w, app, g, Sent);
  }

  lemma AnswerEnds(w: Wrapper, app: App, g: History, failure: Failure)
    requires After(w, app, g).phase == Answering(1, failure)
    ensures After(w, app, g + [Sent]).phase == Done(w.afterAnswer(failure))
  {
    AfterOneMore(w, app, g, Sent);
  }

  lemma BreaksItsAnswerOff(w: Wrapper, app: App, g: History, failure: Failure, broken: Failure)
    requires After(w, app, g).phase == Answering(0, failure)
    ensures Wrapped(w, app)(g + [Failed(broken)]) == w.afterFailedAnswer(failure, broken)
  {
    AfterOneMore(w, app, g, Failed(broken));
  }

  /** A caught failure is answered, any other goes on, and an answer that cannot be sent ends as the wrapper says. */
  lemma RaisedUnstarted(w: Wrapper, app: App, h: History, reply: Reply, failure: Failure)
    requires RaisesUnstarted(w, app, h, reply, failure)
    ensures var g := h + [reply];
            && (!w.catches(failure) ==> Wrapped(w, app)(g) == Raise(failure))
            && (w.catches(failure) ==>
                  && AnswersWith(Wrapped(w, app), g, Start(w.answer.status, w.rewrite(w.answer.headers)), w.answer.content,
                                 w.afterAnswer(failure))
                  && (forall broken :: Wrapped(w, app)(g + [Failed(broken)]) == w.afterFailedAnswer(failure, broken)))
  {
    EntersItsAnswer(w, app, h, reply, failure);
    if w.catches(failure) {
      RunsThroughItsAnswer(w, app, h + [reply], failure);
      forall broken ensures Wrapped(w, app)(h + [reply] + [Failed(broken)]) == w.afterFailedAnswer(failure, broken) {
        BreaksItsAnswerOff(w, app, h + [reply], failure, broken);
      }
    }
  }

  /**
   What is known before an app runs is answered in its place: an outcome that is a failure, a declared
   length over the limit, a missing configuration; and, but for the length, raised after it.
   */
  lemma KnownBeforehandIsAnswered(call: Request, outcome: App)
    ensures call.routeFailed.Some? ==>
              AnswersWith(Route(call, outcome), [], Start(call.routeAnswer.status, call.routeAnswer.headers + call.cookies),
                          call.routeAnswer.content, Raise(call.routeFailed.value))
    ensures call.declaredOver ==>
              AnswersWith(Limited(call, outcome), [], Start(call.tooLarge.status, call.tooLarge.headers), call.tooLarge.content, Return)
    ensures call.cookieSecure.None? ==>
              exists failure :: IsException(failure) &&
                AnswersWith(Stack(call, outcome), [],
                            Start(call.serverError.status, ApplyPolicy(call.policy, false, call.serverError.headers)),
                            call.serverError.content, Raise(failure))
  {
    var route := RouteAnswer(call.cookies, call.routeFailed, call.routeAnswer);
    var limit := BodySizeLimit(call.limit, call.declaredOver, call.tooLarge);
    var security := SecurityHeaders(call.policy, call.cookieSecure, call.serverError);
    if call.routeFailed.Some? {
      RunsThroughItsAnswer(route, outcome, [], call.routeFailed.value);
    }
    if call.declaredOver {
      RunsThroughItsAnswer(limit, Route(call, outcome), [], TooLarge);
    }
    if call.cookieSecure.None? {
      RunsThroughItsAnswer(security, Limited(call, outcome), [], security.beforehand.value);
    }
  }

  /**
   An answer that raises before it starts is sent as the route's failure answer, cookies last, and the
   failure is raised after it; only a cancellation goes on unanswered.
   */
  lemma RouteFailureIsAnswered(call: Request, outcome: App, h: History, reply: Reply, failure: Failure)
    requires RaisesUnstarted(RouteAnswer(call.cookies, call.routeFailed, call.routeAnswer), outcome, h, reply, failure)
    ensures failure == Cancelled ==> Route(call, outcome)(h + [reply]) == Raise(Cancelled)
    ensures failure != Cancelled ==>
              && AnswersWith(Route(call, outcome), h + [reply],
                             Start(call.routeAnswer.status, call.routeAnswer.headers + call.cookies), call.routeAnswer.content,
                             Raise(failure))
              && (forall broken :: Route(call, outcome)(h + [reply] + [Failed(broken)]) == Raise(broken))
  {
    RaisedUnstarted(RouteAnswer(call.cookies, call.routeFailed, call.routeAnswer), outcome, h, reply, failure);
  }

  /** A body over the limit is answered with the 413 as it is, which ends the request; every other failure goes on. */
  lemma OversizeIsAnswered(call: Request, outcome: App, h: History, reply: Reply, failure: Failure)
    requires RaisesUnstarted(BodySizeLimit(call.limit, call.declaredOver, call.tooLarge), Route(call, outcome), h, reply, failure)
    ensures failure != TooLarge ==> Limited(call, outcome)(h + [reply]) == Raise(failure)
    ensures failure == TooLarge ==>
              AnswersWith(Limited(call, outcome), h + [reply], Start(call.tooLarge.status, call.tooLarge.headers),
                          call.tooLarge.content, Return)
  {
    RaisedUnstarted(BodySizeLimit(call.limit, call.declaredOver, call.tooLarge), Route(call, outcome), h, reply, failure);
  }

  /**
   An exception that comes through unstarted is answered with the 500 under the policy, and raised after
   it, even where the 500 could not be sent; a cancellation goes on, its own or of the 500.
   */
  lemma ServerErrorIsAnswered(call: Request, outcome: App, h: History, reply: Reply, failure: Failure)
    requires RaisesUnstarted(
               SecurityHeaders(call.policy, call.cookieSecure, call.serverError), Limited(call, outcome), h, reply, failure)
    ensures failure == Cancelled ==> Stack(call, outcome)(h + [reply]) == Raise(Cancelled)
    ensures failure != Cancelled ==>
              && AnswersWith(Stack(call, outcome), h + [reply],
                             Start(call.serverError.status,
                                   ApplyPolicy(call.policy, call.cookieSecure == Some(true), call.serverError.headers)),
                             call.serverError.content, Raise(failure))
              && (forall broken :: Stack(call, outcome)(h + [reply] + [Failed(broken)])
                                == Raise(if broken == Cancelled then Cancelled else failure))
  {
    RaisedUnstarted(SecurityHeaders(call.policy, call.cookieSecure, call.serverError), Limited(call, outcome), h, reply, failure);
  }

  // ----- the closures -----

  /** One message sent through the body-size limit. */
  lemma SendStep(limit: nat, app: App, answer: Answer, s: State, message: Message, reply: Reply)
    requires s.phase.Running? && app(s.inner) == Send(message) && !reply.Received? && KeepsTheLimit(limit, s)
    ensures var guard := BodySizeLimit(limit, false, answer);
            var t := Step(guard, app, s, reply);
            && t.received == s.received && t.started == (s.started || message.Start?) && KeepsTheLimit(limit, t)
            && ActionOf(guard, app, s) == Send(message)
  {
    RunningStep(BodySizeLimit(limit, false, answer), app, s, reply);
    StepKeepsTheLimit(BodySizeLimit(limit, false, answer), app, s, reply);
  }

  /**
   One call of the body-size middleware: the counter and the flag its two closures share, kept in
   step with the wrapper around `app` while the app runs.
   */
  class BodySizeCall {
    const limit: nat
    ghost const app: App
    ghost const answer: Answer
    var received: nat
    var startHandedOver: bool
    ghost var state: State

    ghost function Guard(): Wrapper
    {
      BodySizeLimit(limit, false, answer)
    }

    ghost predicate Valid()
      reads this
    {
      && received == state.received && startHandedOver == state.started
      && KeepsTheLimit(limit, state)
    }

    constructor (limit: nat, ghost app: App, ghost answer: Answer)
      ensures Valid() && this.limit == limit && this.app == app && this.answer == answer
      ensures state == Begun(Guard(), app)
    {
      this.limit, this.app, this.answer := limit, app, answer;
      received, startHandedOver := 0, false;
      state := Begun(BodySizeLimit(limit, false, answer), app);
    }

    /** Counts one message: it goes on, or the failure does once the bytes so far pass the limit. */
    method Count(reply: Reply) returns (handed: Reply)
      modifies this`received
      ensures (received, handed) == Counted(Some(limit), old(received), reply)
    {
      handed := reply;
      match reply {
        case Received(Request(bodyBytes)) =>
          received := received + bodyBytes;
          if received > limit {
            handed := Failed(TooLarge);
          }
        case _ =>
      }
    }

    /** `guarded_receive`: what the app is handed for what the server gave, the limit kept. */
    method GuardedReceive(reply: Reply) returns (handed: Reply)
      requires Valid() && state.phase.Running? && app(state.inner).Receive?
      modifies this`received, this`state
      ensures Valid() && state == Step(Guard(), app, old(state), reply)
      ensures state.inner == old(state).inner + [handed]
      ensures received == old(received) + BytesOf(reply)
      ensures handed == if reply.Received? && reply.incoming.Request? && received > limit then Failed(TooLarge) else reply
    {
      RunningStep(Guard(), app, state, reply);
      StepKeepsTheLimit(Guard(), app, state, reply);
      handed := Count(reply);
      state := Step(Guard(), app, state, reply);
    }

    /**
     `send_start_whole`: every message goes on as the wrapper lets it out, and a start is remembered
     whatever awaiting it then gives.
     */
    method SendStartWhole(message: Message, ghost reply: Reply) returns (sent: Message)
      requires Valid() && state.phase.Running? && app(state.inner) == Send(message) && !reply.Received?
      modifies this`startHandedOver, this`state
      ensures Valid() && state == Step(Guard(), app, old(state), reply)
      ensures Send(sent) == ActionOf(Guard(), app, old(state))
      ensures sent == message && startHandedOver == (old(startHandedOver) || message.Start?)
    {
      SendStep(limit, app, answer, state, message, reply);
      if message.Start? {
        startHandedOver := true;
      }
      sent := message;
      state := Step(Guard(), app, state, reply);
    }
  }

  /** One call of the security-headers middleware: the flag its closure keeps, in step with its wrapper. */
  class SecurityHeadersCall {
    const policy: Policy
    const cookieSecure: bool
    ghost const app: App
    ghost const answer: Answer
    var responseStarted: bool
    ghost var state: State

    ghost function Guard(): Wrapper
    {
      SecurityHeaders(policy, Some(cookieSecure), answer)
    }

    constructor (policy: Policy, cookieSecure: bool, ghost app: App, ghost answer: Answer)
      ensures this.policy == policy && this.cookieSecure == cookieSecure && this.app == app && this.answer == answer
      ensures state == Begun(Guard(), app) && responseStarted == state.started
    {
      this.policy, this.cookieSecure, this.app, this.answer := policy, cookieSecure, app, answer;
      responseStarted := false;
      state := Begun(SecurityHeaders(policy, Some(cookieSecure), answer), app);
    }

    /**
     `send_with_policy`: what leaves is what the wrapper lets out, and a start is remembered whatever
     awaiting it then gives.
     */
    method SendWithPolicy(message: Message, ghost reply: Reply) returns (sent: Message)
      requires responseStarted == state.started && state.phase.Running? && app(state.inner) == Send(message)
      modifies this`responseStarted, this`state
      ensures state == Step(Guard(), app, old(state), reply) && responseStarted == state.started
      ensures Send(sent) == ActionOf(Guard(), app, old(state))
      ensures responseStarted == (old(responseStarted) || message.Start?) && IsTheSame(message, sent)
      ensures message.Start? ==>
                forall name :: Named(sent.headers, name) == PolicyFor(policy, cookieSecure, message.headers, name)
    {
      sent := message;
      if message.Start? {
        sent := Start(message.status, ApplyPolicy(policy, cookieSecure, message.headers));
        forall name ensures Named(sent.headers, name) == PolicyFor(policy, cookieSecure, message.headers, name) {
          PolicyExactly(policy, cookieSecure, message.headers, name);
        }
        responseStarted := true;
      }
      RunningStep(Guard(), app, state, reply);
      state := Step(Guard(), app, state, reply);
    }
  }
}
