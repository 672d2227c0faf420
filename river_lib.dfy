/**
 * The River endpoint pipeline (packages/river/src/lib.ts): middlewares run one after the
 * other until one answers falsy; the handler runs only when all of them said go on; a throw
 * anywhere is turned into an `Error`, logged, and handed to the error handler unless the
 * response has already ended.
 *
 * Listeners are functions from the event to a `Behaviour`: how the call completed and what
 * it did to the response. The pipeline is run in order, one awaited call at a time.
 */
module RiverLib {
  import opened Wrappers
  import opened RiverUtils

  /** The event handed to every listener (the request object is not part of the model). */
  datatype Event = Event(params: map<string, string>, store: map<string, string>)

  /** What a listener did to the response before it completed. */
  datatype Effect = NoWrite | SendsHeaders | EndsResponse

  /** How a listener call completed: it returned a value, truthy or not, or it threw. */
  datatype Completion = Returned(truthy: bool) | Threw(thrown: Thrown)

  datatype Behaviour = Behaviour(completion: Completion, effect: Effect)

  /** The response after a listener's effect. */
  function Applied(s: ResponseState, effect: Effect): ResponseState
  {
    match effect
    case NoWrite => s
    case SendsHeaders => s.(headersSent := true)
    case EndsResponse => s.(headersSent := true, writableEnded := true)
  }

  /** A middleware: called with the event and the `next` callback. */
  type MiddlewareFn = (Event, () -> bool) -> Behaviour

  datatype MiddlewareDefinition = MiddlewareDefinition(listen: Event -> Behaviour)

  datatype HandlerDefinition = HandlerDefinition(listen: Event -> Behaviour)

  /**
   * An error handler: the package's `defaultErrorHandler`, whose effect on the response is
   * known, or one made by `createErrorHandler` from any function.
   */
  datatype ErrorHandlerDefinition =
    | DefaultErrorHandling
    | ErrorHandlerDefinition(listen: (Event, JsError) -> Behaviour)

  /** The `next` callback that `createMiddleware` hands to the middleware. */
  const NextCallback: () -> bool := () => NextFn()

  /** `createMiddleware(middleware)`: listening calls the middleware with the event and `nextFn`. */
  function CreateMiddleware(middleware: MiddlewareFn): (def: MiddlewareDefinition)
    ensures forall ev :: def.listen(ev) == middleware(ev, NextCallback)
  {
    MiddlewareDefinition(ev => middleware(ev, NextCallback))
  }

  /** The `next` a middleware receives always answers true. */
  lemma NextCallbackSaysGo()
    ensures NextCallback() == true
  {
    assert NextFn();
  }

  /** `createHandler(handler)`: listening forwards the event unchanged. */
  function CreateHandler(handler: Event -> Behaviour): (def: HandlerDefinition)
    ensures forall ev :: def.listen(ev) == handler(ev)
  {
    HandlerDefinition(ev => handler(ev))
  }

  /** `createErrorHandler(errorHandler)`: listening forwards the event and the error unchanged. */
  function CreateErrorHandler(errorHandler: (Event, JsError) -> Behaviour): (def: ErrorHandlerDefinition)
    ensures def.ErrorHandlerDefinition?
    ensures forall ev, err :: def.listen(ev, err) == errorHandler(ev, err)
  {
    ErrorHandlerDefinition((ev, err) => errorHandler(ev, err))
  }

  /** One entry of what a call of the endpoint did, in order. */
  datatype Call =
    | MiddlewareCalled(index: nat)
    | HandlerCalled
    | ErrorLogged(error: JsError)
    | ErrorHandlerCalled(error: JsError)

  /** Where the middleware loop stands: the last `next`, the calls so far, the response, a throw. */
  datatype RunState = RunState(next: bool, log: seq<Call>, state: ResponseState, raised: Option<Thrown>)

  /**
   * The loop of `runEndpointMiddlewares` from middleware `i` on: call it, apply its effect;
   * a throw leaves the loop, a falsy answer (`|| false`) breaks it, a truthy one goes on.
   */
  function RunFrom(ms: seq<MiddlewareDefinition>, ev: Event, i: nat, acc: RunState): RunState
    requires i <= |ms|
    decreases |ms| - i
  {
    if i == |ms| then acc
    else
      var b := ms[i].listen(ev);
      var log := acc.log + [MiddlewareCalled(i)];
      var s := Applied(acc.state, b.effect);
      match b.completion
      case Threw(t) => RunState(acc.next, log, s, Some(t))
      case Returned(v) =>
        if !v then RunState(false, log, s, None) else RunFrom(ms, ev, i + 1, RunState(true, log, s, None))
  }

  /** `runEndpointMiddlewares(event, middlewares)` from `next = true` and no calls. */
  function RunMiddlewares(ms: seq<MiddlewareDefinition>, ev: Event, s: ResponseState): (r: RunState)
    ensures |r.log| <= |ms| && r.log == CalledUpTo(|r.log|)
  {
    assert CalledUpTo(0) == [];
    RunFromCalls(ms, ev, 0, s);
    RunFrom(ms, ev, 0, RunState(true, [], s, None))
  }

  /** `runEndpointMiddlewares`: the loop with its `break`, over the response object. */
  method RunEndpointMiddlewares(ev: Event, ms: seq<MiddlewareDefinition>, res: Response)
      returns (next: bool, log: seq<Call>, raised: Option<Thrown>)
    modifies res
    ensures RunMiddlewares(ms, ev, old(res.State())) == RunState(next, log, res.State(), raised)
  {
    next := true;
    log := [];
    raised := None;
    var i := 0;
    while i < |ms|
      invariant i <= |ms|
      invariant RunMiddlewares(ms, ev, old(res.State())) == RunFrom(ms, ev, i, RunState(next, log, res.State(), None))
    {
      var b := ms[i].listen(ev);
      log := log + [MiddlewareCalled(i)];
      res.Become(Applied(res.State(), b.effect));
      if b.completion.Threw? {
        raised := Some(b.completion.thrown);
        return;
      }
      next := b.completion.truthy;
      if !next {
        break;
      }
      i := i + 1;
    }
  }

  /** The calls of middlewares `0 .. n - 1`, in order. */
  function CalledUpTo(n: nat): (log: seq<Call>)
    ensures |log| == n
    ensures forall j :: 0 <= j < n ==> log[j] == MiddlewareCalled(j)
  {
    seq(n, j requires 0 <= j => MiddlewareCalled(j))
  }

  /** The first middleware from `i` on that does not answer truthy, or `|ms|` if there is none. */
  function StopFrom(ms: seq<MiddlewareDefinition>, ev: Event, i: nat): (k: nat)
    requires i <= |ms|
    ensures i <= k <= |ms|
    ensures forall j :: i <= j < k ==> ms[j].listen(ev).completion == Returned(true)
    ensures k < |ms| ==> ms[k].listen(ev).completion != Returned(true)
    decreases |ms| - i
  {
    if i == |ms| || ms[i].listen(ev).completion != Returned(true) then i else StopFrom(ms, ev, i + 1)
  }

  /** The loop run from `i` with the calls before `i` in its log. */
  lemma {:induction false} RunFromCalls(ms: seq<MiddlewareDefinition>, ev: Event, i: nat, s: ResponseState)
    requires i <= |ms|
    ensures var k := StopFrom(ms, ev, i);
            var r := RunFrom(ms, ev, i, RunState(true, CalledUpTo(i), s, None));
            && r.log == CalledUpTo(if k < |ms| then k + 1 else |ms|)
            && (r.raised.None? && r.next <==> k == |ms|)
    decreases |ms| - i
  {
    if i < |ms| {
      var b := ms[i].listen(ev);
      assert CalledUpTo(i) + [MiddlewareCalled(i)] == CalledUpTo(i + 1);
      if b.completion == Returned(true) {
        RunFromCalls(ms, ev, i + 1, Applied(s, b.effect));
      }
    }
  }

  /**
   * Middlewares run in list order and the loop stops at the first one that does not answer
   * truthy (a throw included): no later middleware is called. The run answers true exactly
   * when every middleware answered truthy; an empty list answers true.
   */
  lemma MiddlewaresStopAtFirstFalsy(ms: seq<MiddlewareDefinition>, ev: Event, s: ResponseState)
    ensures var k := StopFrom(ms, ev, 0);
            var r := RunMiddlewares(ms, ev, s);
            && r.log == CalledUpTo(if k < |ms| then k + 1 else |ms|)
            && (r.raised.None? && r.next <==> forall j :: 0 <= j < |ms| ==> ms[j].listen(ev).completion == Returned(true))
  {
    RunFromCalls(ms, ev, 0, s);
    var k := StopFrom(ms, ev, 0);
    if k < |ms| {
      assert ms[k].listen(ev).completion != Returned(true);
    }
  }

  /** The endpoint `createEndpoint` builds: its options with the defaults filled in. */
  datatype EndpointOptions = EndpointOptions(
    handler: HandlerDefinition,
    middlewares: Option<seq<MiddlewareDefinition>>,
    errorHandler: Option<ErrorHandlerDefinition>)

  datatype Endpoint = Endpoint(
    handler: HandlerDefinition,
    middlewares: seq<MiddlewareDefinition>,
    errorHandler: ErrorHandlerDefinition)

  /** `createEndpoint(options)`: no middlewares means `[]`, no error handler means the default one. */
  function CreateEndpoint(options: EndpointOptions): (ep: Endpoint)
    ensures options.middlewares.None? ==> ep.middlewares == []
    ensures options.middlewares.Some? ==> ep.middlewares == options.middlewares.value
    ensures options.errorHandler.None? ==> ep.errorHandler == DefaultErrorHandling
    ensures options.errorHandler.Some? ==> ep.errorHandler == options.errorHandler.value
    ensures ep.handler == options.handler
  {
    Endpoint(
      options.handler,
      if options.middlewares.Some? then options.middlewares.value else [],
      if options.errorHandler.Some? then options.errorHandler.value else DefaultErrorHandling)
  }

  /** The `Error` the catch block works with: an `Error` as it is, anything else wrapped. */
  function Wrap(t: Thrown): (err: JsError)
    ensures t.ThrownError? ==> err == t.error
    ensures t.ThrownOther? ==> err.message == "Unknown error" && err.cause == Some(t)
  {
    match t
    case ThrownError(e) => e
    case ThrownOther(_) => JsError("Unknown error", Some(t))
  }

  /** The `try` block: the middlewares, then the handler when they said go on. */
  function Attempt(ep: Endpoint, ev: Event, s: ResponseState): RunState
  {
    var run := RunMiddlewares(ep.middlewares, ev, s);
    if run.raised.Some? || !run.next then run
    else
      var b := ep.handler.listen(ev);
      RunState(true, run.log + [HandlerCalled], Applied(run.state, b.effect),
               if b.completion.Threw? then Some(b.completion.thrown) else None)
  }

  /** What one call of the endpoint did: its calls, the response after it, and a rejection. */
  datatype EndpointRun = EndpointRun(log: seq<Call>, state: ResponseState, rejected: Option<Thrown>)

  /** The error handler's turn, on a response that has not ended. */
  function HandleError(h: ErrorHandlerDefinition, ev: Event, err: JsError, log: seq<Call>, s: ResponseState): (r: EndpointRun)
    ensures r.log == log + [ErrorHandlerCalled(err)]
    ensures h.DefaultErrorHandling? ==> r.state.statusCode == 500 && (r.rejected.None? <==> !s.headersSent)
  {
    var log' := log + [ErrorHandlerCalled(err)];
    match h
    case DefaultErrorHandling =>
      var r := DefaultHandled(s);
      EndpointRun(log', r.state, if r.thrown.Some? then Some(ThrownError(r.thrown.value)) else None)
    case ErrorHandlerDefinition(listen) =>
      var b := listen(ev, err);
      EndpointRun(log', Applied(s, b.effect), if b.completion.Threw? then Some(b.completion.thrown) else None)
  }

  /** One call of the endpoint: the `try` block, then the `catch` block when something threw. */
  function EndpointCall(ep: Endpoint, ev: Event, s: ResponseState): (r: EndpointRun)
    ensures var tried := Attempt(ep, ev, s);
            r.rejected.Some? ==> tried.raised.Some? && !tried.state.writableEnded
    ensures Attempt(ep, ev, s).raised.None? ==> r.state == Attempt(ep, ev, s).state
  {
    var tried := Attempt(ep, ev, s);
    if tried.raised.None? then EndpointRun(tried.log, tried.state, None)
    else
      var err := Wrap(tried.raised.value);
      var logged := tried.log + [ErrorLogged(err)];
      if tried.state.writableEnded then EndpointRun(logged, tried.state, None)
      else HandleError(ep.errorHandler, ev, err, logged, tried.state)
  }

  /** The event of a call: `params` and `store` default to empty maps. */
  function EventOf(params: Option<map<string, string>>, store: Option<map<string, string>>): Event
  {
    Event(if params.Some? then params.value else map[], if store.Some? then store.value else map[])
  }

  /** The function `createEndpoint` returns, called once on a response object. */
  method CallEndpoint(ep: Endpoint, params: Option<map<string, string>>, store: Option<map<string, string>>, res: Response)
      returns (log: seq<Call>, rejected: Option<Thrown>)
    modifies res
    ensures EndpointCall(ep, EventOf(params, store), old(res.State())) == EndpointRun(log, res.State(), rejected)
  {
    var ev := EventOf(params, store);
    var next, raised;
    next, log, raised := RunEndpointMiddlewares(ev, ep.middlewares, res);
    if raised.None? && next {
      var b := ep.handler.listen(ev);
      log := log + [HandlerCalled];
      res.Become(Applied(res.State(), b.effect));
      if b.completion.Threw? {
        raised := Some(b.completion.thrown);
      }
    }
    rejected := None;
    if raised.Some? {
      var err := Wrap(raised.value);
      log := log + [ErrorLogged(err)];
      if !res.writableEnded {
        log := log + [ErrorHandlerCalled(err)];
        match ep.errorHandler
        case DefaultErrorHandling =>
          var thrown := DefaultErrorHandler(res);
          if thrown.Some? {
            rejected := Some(ThrownError(thrown.value));
          }
        case ErrorHandlerDefinition(listen) =>
          var b := listen(ev, err);
          res.Become(Applied(res.State(), b.effect));
          if b.completion.Threw? {
            rejected := Some(b.completion.thrown);
          }
      }
    }
  }

  /** The handler is called exactly once when the middlewares all said go on, and never otherwise. */
  lemma HandlerOnceIffMiddlewaresPass(ep: Endpoint, ev: Event, s: ResponseState)
    ensures multiset(EndpointCall(ep, ev, s).log)[HandlerCalled] ==
            if forall j :: 0 <= j < |ep.middlewares| ==> ep.middlewares[j].listen(ev).completion == Returned(true)
            then 1 else 0
  {
    var run := RunMiddlewares(ep.middlewares, ev, s);
    var tried := Attempt(ep, ev, s);
    var log := EndpointCall(ep, ev, s).log;
    MiddlewaresStopAtFirstFalsy(ep.middlewares, ev, s);
    assert HandlerCalled !in run.log;
    var rest := CatchLog(ep, ev, s);
    assert HandlerCalled !in rest;
    assert multiset(log) == multiset(tried.log) + multiset(rest);
    if run.raised.None? && run.next {
      assert tried.log == run.log + [HandlerCalled];
    } else {
      assert tried.log == run.log;
    }
  }

  /** What the `catch` block adds to the log: the error logged, then maybe the error handler. */
  lemma CatchLog(ep: Endpoint, ev: Event, s: ResponseState) returns (rest: seq<Call>)
    ensures EndpointCall(ep, ev, s).log == Attempt(ep, ev, s).log + rest
    ensures forall c :: c in rest ==> c.ErrorLogged? || c.ErrorHandlerCalled?
  {
    var tried := Attempt(ep, ev, s);
    if tried.raised.None? {
      rest := [];
      assert tried.log + rest == tried.log;
    } else {
      var err := Wrap(tried.raised.value);
      rest := if tried.state.writableEnded then [ErrorLogged(err)] else [ErrorLogged(err), ErrorHandlerCalled(err)];
    }
  }

  /** The errors passed to `errorLogger`, in order. */
  function LoggedErrors(log: seq<Call>): seq<JsError>
  {
    if log == [] then []
    else (if log[0].ErrorLogged? then [log[0].error] else []) + LoggedErrors(log[1..])
  }

  lemma {:induction false} LoggedErrorsAppend(a: seq<Call>, b: seq<Call>)
    ensures LoggedErrors(a + b) == LoggedErrors(a) + LoggedErrors(b)
  {
    if a == [] {
      assert a + b == b;
    } else {
      var ab := a + b;
      assert ab[0] == a[0] && ab[1..] == a[1..] + b;
      var head := if a[0].ErrorLogged? then [a[0].error] else [];
      assert LoggedErrors(ab) == head + LoggedErrors(a[1..] + b);
      LoggedErrorsAppend(a[1..], b);
      assert LoggedErrors(a) == head + LoggedErrors(a[1..]);
    }
  }

  /** The `try` block logs nothing. */
  lemma AttemptLogsNothing(ep: Endpoint, ev: Event, s: ResponseState)
    ensures LoggedErrors(Attempt(ep, ev, s).log) == []
    ensures forall c :: c in Attempt(ep, ev, s).log ==> c.MiddlewareCalled? || c == HandlerCalled
  {
    MiddlewaresStopAtFirstFalsy(ep.middlewares, ev, s);
    var run := RunMiddlewares(ep.middlewares, ev, s);
    NoErrorsLogged(run.log);
    if !(run.raised.Some? || !run.next) {
      LoggedErrorsAppend(run.log, [HandlerCalled]);
    }
  }

  lemma {:induction false} NoErrorsLogged(log: seq<Call>)
    requires forall c :: c in log ==> c.MiddlewareCalled?
    ensures LoggedErrors(log) == []
  {
    if log != [] {
      assert log[0] in log;
      NoErrorsLogged(log[1..]);
    }
  }

  /**
   * Whatever throws in the `try` block reaches `errorLogger` exactly once, as an `Error`
   * (a thrown non-`Error` wrapped as `Error('Unknown error')`); nothing is logged otherwise.
   */
  lemma ThrowLoggedOnce(ep: Endpoint, ev: Event, s: ResponseState)
    ensures var tried := Attempt(ep, ev, s);
            LoggedErrors(EndpointCall(ep, ev, s).log) ==
              if tried.raised.Some? then [Wrap(tried.raised.value)] else []
  {
    var tried := Attempt(ep, ev, s);
    AttemptLogsNothing(ep, ev, s);
    if tried.raised.Some? {
      var err := Wrap(tried.raised.value);
      var logged := tried.log + [ErrorLogged(err)];
      LoggedErrorsAppend(tried.log, [ErrorLogged(err)]);
      if !tried.state.writableEnded {
        LoggedErrorsAppend(logged, [ErrorHandlerCalled(err)]);
      }
    }
  }

  /**
   * The error handler is called, once and last, exactly when something threw and the
   * response had not ended by then; it receives the error that was logged.
   */
  lemma ErrorHandlerOnlyWhenOpen(ep: Endpoint, ev: Event, s: ResponseState)
    ensures var tried := Attempt(ep, ev, s);
            var log := EndpointCall(ep, ev, s).log;
            && ((exists err :: ErrorHandlerCalled(err) in log) <==> tried.raised.Some? && !tried.state.writableEnded)
            && (tried.raised.Some? && !tried.state.writableEnded ==>
                  log == tried.log + [ErrorLogged(Wrap(tried.raised.value)), ErrorHandlerCalled(Wrap(tried.raised.value))])
  {
    var tried := Attempt(ep, ev, s);
    AttemptLogsNothing(ep, ev, s);
    var log := EndpointCall(ep, ev, s).log;
    if tried.raised.Some? && !tried.state.writableEnded {
      var err := Wrap(tried.raised.value);
      assert log == tried.log + [ErrorLogged(err), ErrorHandlerCalled(err)];
      assert ErrorHandlerCalled(err) in log;
    } else {
      if tried.raised.Some? {
        assert log == tried.log + [ErrorLogged(Wrap(tried.raised.value))];
      } else {
        assert log == tried.log;
      }
      assert forall err :: ErrorHandlerCalled(err) !in log;
    }
  }

  /** Without a `middlewares` option the handler is the first thing an endpoint calls. */
  lemma NoMiddlewaresRunsHandlerFirst(options: EndpointOptions, ev: Event, s: ResponseState)
    requires options.middlewares.None?
    ensures EndpointCall(CreateEndpoint(options), ev, s).log[0] == HandlerCalled
  {
    var ep := CreateEndpoint(options);
    assert RunMiddlewares(ep.middlewares, ev, s) == RunState(true, [], s, None);
  }

  /**
   * Without an `errorHandler` option, a throw on a response that is still open (headers not
   * sent) is answered with status 500, `text/plain` and the error text, and the response ends.
   */
  lemma DefaultErrorAnswer(options: EndpointOptions, ev: Event, s: ResponseState)
    requires options.errorHandler.None?
    requires var tried := Attempt(CreateEndpoint(options), ev, s);
             tried.raised.Some? && !tried.state.writableEnded && !tried.state.headersSent
    ensures var tried := Attempt(CreateEndpoint(options), ev, s);
            var r := EndpointCall(CreateEndpoint(options), ev, s);
            && r.rejected == None
            && r.state.writableEnded
            && r.state.statusCode == 500
            && r.state.headers == tried.state.headers["Content-Type" := "text/plain"]
            && r.state.body == tried.state.body + "Internal server error"
  {
    var tried := Attempt(CreateEndpoint(options), ev, s);
    DefaultHandlerAnswers500(tried.state);
  }

  /**
   * Without an `errorHandler` option, a throw after the headers went out reaches the default
   * handler, whose `setHeader` throws: the status is 500, the headers are as they were, the
   * response stays open and the endpoint's promise rejects with that error.
   */
  lemma DefaultErrorRejectsAfterHeaders(options: EndpointOptions, ev: Event, s: ResponseState)
    requires options.errorHandler.None?
    requires var tried := Attempt(CreateEndpoint(options), ev, s);
             tried.raised.Some? && !tried.state.writableEnded && tried.state.headersSent
    ensures var tried := Attempt(CreateEndpoint(options), ev, s);
            var r := EndpointCall(CreateEndpoint(options), ev, s);
            && r.rejected == Some(ThrownError(HeadersSentError))
            && !r.state.writableEnded
            && r.state.statusCode == 500
            && r.state.headers == tried.state.headers
            && r.state.body == tried.state.body
  {
    var tried := Attempt(CreateEndpoint(options), ev, s);
    DefaultHandlerThrowsAfterHeaders(tried.state);
  }
}
