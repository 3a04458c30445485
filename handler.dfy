/**
 * The request handler around the render (app/entry.server.tsx, lines 25-108):
 * the choice of the readiness callback, and the three callbacks that settle
 * the response promise, force the status code and decide what is logged.
 *
 * The renderer's calls into the handler are a trace of `RenderEvent`s.
 * `Step` and `Run` specify the handler's state after each of them;
 * `RequestHandler` holds that state in fields the callbacks update, as the
 * closure variables of the source are; `HandleRequest` replays a trace.
 */
module Handler {
  import opened Wrappers

  /** Which render callback starts the response (`readyOption`). */
  datatype ReadyOption = OnAllReady | OnShellReady

  /**
   * Bots and SPA-mode renders wait for the whole tree; everything else is
   * streamed from the shell on. A missing user agent and the empty one are
   * falsy, so the classifier is not consulted for them.
   */
  function ChooseReadyOption(userAgent: Option<string>, isBot: string -> bool, isSpaMode: bool): (r: ReadyOption)
    ensures isSpaMode ==> r == OnAllReady
    ensures !isSpaMode && (userAgent == None || userAgent == Some("")) ==> r == OnShellReady
    ensures !isSpaMode && userAgent.Some? && userAgent.value != "" ==> (r == OnAllReady <==> isBot(userAgent.value))
  {
    var botAgent := match userAgent
      case Some(ua) => ua != "" && isBot(ua)
      case None => false;
    if botAgent || isSpaMode then OnAllReady else OnShellReady
  }

  /** The value the renderer passes to the error callbacks. */
  datatype RenderError = RenderError(message: string)

  /** The calls the renderer makes, in the order it makes them. */
  datatype RenderEvent = ShellReady | AllReady | ShellError(error: RenderError) | Error(error: RenderError)

  /** Header names in lower case, as the platform's `Headers` keeps them. */
  type Headers = map<string, string>

  const ContentType: string := "content-type"

  /** The response as built in the ready callback: the status and headers at that moment. */
  datatype Response = Response(status: int, headers: Headers)

  /** The state of the promise `handleRequest` returns. */
  datatype Settlement = Pending | Resolved(response: Response) | Rejected(reason: RenderError)

  datatype HandlerState = HandlerState(
    shellRendered: bool,
    responseStatusCode: int,
    responseHeaders: Headers,
    settlement: Settlement,
    logged: seq<RenderError>)

  function Initial(status: int, headers: Headers): HandlerState {
    HandlerState(false, status, headers, Pending, [])
  }

  /** The event that fires the callback registered under `option`. */
  function ReadyEvent(option: ReadyOption): RenderEvent {
    if option == OnAllReady then AllReady else ShellReady
  }

  /** The ready callback: mark the shell as sent, set the content type, resolve with the current status. */
  function AtReady(st: HandlerState): HandlerState {
    var headers := st.responseHeaders[ContentType := "text/html"];
    st.(shellRendered := true,
        responseHeaders := headers,
        settlement := if st.settlement.Pending? then Resolved(Response(st.responseStatusCode, headers)) else st.settlement)
  }

  /**
   * One call from the renderer. Only the readiness event chosen by `option`
   * has a callback; a promise that is already settled ignores both `resolve`
   * and `reject`.
   */
  function Step(option: ReadyOption, st: HandlerState, e: RenderEvent): HandlerState {
    match e
    case ShellReady => if option == OnShellReady then AtReady(st) else st
    case AllReady => if option == OnAllReady then AtReady(st) else st
    case ShellError(err) =>
      st.(settlement := if st.settlement.Pending? then Rejected(err) else st.settlement)
    case Error(err) =>
      st.(responseStatusCode := 500, logged := if st.shellRendered then st.logged + [err] else st.logged)
  }

  /** The state after the whole trace. */
  function Run(option: ReadyOption, st: HandlerState, trace: seq<RenderEvent>): HandlerState
    decreases |trace|
  {
    if trace == [] then st else Run(option, Step(option, st, trace[0]), trace[1..])
  }

  predicate HasError(trace: seq<RenderEvent>) {
    exists i :: 0 <= i < |trace| && trace[i].Error?
  }

  /** An event after which the promise is no longer pending: the ready event or a shell error. */
  predicate Settles(option: ReadyOption, e: RenderEvent) {
    e == ReadyEvent(option) || e.ShellError?
  }

  /** The errors reported through the error callback, in order. */
  function ErrorsIn(trace: seq<RenderEvent>): (errors: seq<RenderError>)
    ensures |errors| <= |trace|
    ensures forall err :: err in errors <==> Error(err) in trace
  {
    if trace == [] then []
    else (if trace[0].Error? then [trace[0].error] else []) + ErrorsIn(trace[1..])
  }

  lemma {:induction false} RunAppend(option: ReadyOption, st: HandlerState, a: seq<RenderEvent>, b: seq<RenderEvent>)
    ensures Run(option, st, a + b) == Run(option, Run(option, st, a), b)
    decreases |a|
  {
    if a == [] {
      assert a + b == b;
    } else {
      assert (a + b)[0] == a[0] && (a + b)[1..] == a[1..] + b;
      RunAppend(option, Step(option, st, a[0]), a[1..], b);
    }
  }

  /** The shell flag is set exactly when the chosen readiness event has occurred, and is never cleared. */
  lemma {:induction false} ShellRenderedIffReady(option: ReadyOption, st: HandlerState, trace: seq<RenderEvent>)
    ensures Run(option, st, trace).shellRendered == (st.shellRendered || ReadyEvent(option) in trace)
    decreases |trace|
  {
    if trace != [] {
      ShellRenderedIffReady(option, Step(option, st, trace[0]), trace[1..]);
      assert trace == [trace[0]] + trace[1..];
    }
  }

  /** Any error event forces the status to 500; without one the status is left as it came in. */
  lemma {:induction false} StatusForcedByErrors(option: ReadyOption, st: HandlerState, trace: seq<RenderEvent>)
    ensures Run(option, st, trace).responseStatusCode == if HasError(trace) then 500 else st.responseStatusCode
    decreases |trace|
  {
    if trace != [] {
      StatusForcedByErrors(option, Step(option, st, trace[0]), trace[1..]);
      assert HasError(trace) <==> trace[0].Error? || HasError(trace[1..]) by {
        assert forall i :: 1 <= i < |trace| ==> trace[i] == trace[1..][i - 1];
      }
    }
  }

  /** Once the shell is sent, every error is logged, in order. */
  lemma {:induction false} LogsAllAfterShell(option: ReadyOption, st: HandlerState, trace: seq<RenderEvent>)
    requires st.shellRendered
    ensures Run(option, st, trace).logged == st.logged + ErrorsIn(trace)
    decreases |trace|
  {
    if trace == [] {
      assert st.logged + [] == st.logged;
    } else {
      var next := Step(option, st, trace[0]);
      var first := if trace[0].Error? then [trace[0].error] else [];
      assert next.shellRendered && next.logged == st.logged + first;
      LogsAllAfterShell(option, next, trace[1..]);
      assert ErrorsIn(trace) == first + ErrorsIn(trace[1..]);
      assert st.logged + first + ErrorsIn(trace[1..]) == st.logged + (first + ErrorsIn(trace[1..]));
    }
  }

  /**
   * Before the readiness event nothing settles except a shell error, and
   * nothing is logged: errors up to then only force the status.
   */
  lemma {:induction false} QuietBeforeReady(option: ReadyOption, st: HandlerState, trace: seq<RenderEvent>)
    requires !st.shellRendered && ReadyEvent(option) !in trace
    ensures Run(option, st, trace).logged == st.logged
    ensures Run(option, st, trace).responseHeaders == st.responseHeaders
    ensures (forall i :: 0 <= i < |trace| ==> !trace[i].ShellError?) ==> Run(option, st, trace).settlement == st.settlement
    decreases |trace|
  {
    if trace != [] {
      assert trace[1..] == trace[1..] && forall e :: e in trace[1..] ==> e in trace;
      QuietBeforeReady(option, Step(option, st, trace[0]), trace[1..]);
    }
  }

  /** A settled promise stays settled the same way, whatever the renderer does afterwards. */
  lemma {:induction false} SettlementIsFinal(option: ReadyOption, st: HandlerState, trace: seq<RenderEvent>)
    requires !st.settlement.Pending?
    ensures Run(option, st, trace).settlement == st.settlement
    decreases |trace|
  {
    if trace != [] {
      SettlementIsFinal(option, Step(option, st, trace[0]), trace[1..]);
    }
  }

  /**
   * The promise is settled by the first readiness-or-shell-error event: a
   * readiness event resolves it with a response carrying the HTML content
   * type and the status as it was then (500 when an error came first), a
   * shell error rejects it with that error. Later events change neither.
   */
  lemma SettledByFirstDecidingEvent(option: ReadyOption, status: int, headers: Headers,
                                    before: seq<RenderEvent>, e: RenderEvent, after: seq<RenderEvent>)
    requires forall i :: 0 <= i < |before| ==> !Settles(option, before[i])
    requires Settles(option, e)
    ensures Run(option, Initial(status, headers), before + [e] + after).settlement ==
      if e.ShellError? then Rejected(e.error)
      else Resolved(Response(if HasError(before) then 500 else status, headers[ContentType := "text/html"]))
  {
    var st0 := Initial(status, headers);
    assert ReadyEvent(option) !in before by {
      forall i | 0 <= i < |before| ensures before[i] != ReadyEvent(option) { assert !Settles(option, before[i]); }
    }
    QuietBeforeReady(option, st0, before);
    StatusForcedByErrors(option, st0, before);
    ShellRenderedIffReady(option, st0, before);
    var mid := Run(option, st0, before);
    RunAppend(option, st0, before + [e], after);
    RunAppend(option, st0, before, [e]);
    assert Run(option, mid, [e]) == Step(option, mid, e);
    SettlementIsFinal(option, Step(option, mid, e), after);
  }

  /** Without a deciding event the promise is still pending. */
  lemma {:induction false} PendingWithoutDecidingEvent(option: ReadyOption, st: HandlerState, trace: seq<RenderEvent>)
    requires st.settlement.Pending?
    requires forall i :: 0 <= i < |trace| ==> !Settles(option, trace[i])
    ensures Run(option, st, trace).settlement.Pending?
    decreases |trace|
  {
    if trace != [] {
      assert !Settles(option, trace[0]);
      PendingWithoutDecidingEvent(option, Step(option, st, trace[0]), trace[1..]);
    }
  }

  /**
   * No response without the chosen readiness event: in all-ready mode (bots,
   * SPA mode) the response waits for the whole tree, in shell-ready mode for
   * the shell.
   */
  lemma {:induction false} ResolvedOnlyAfterReady(option: ReadyOption, st: HandlerState, trace: seq<RenderEvent>)
    requires st.settlement.Pending?
    requires Run(option, st, trace).settlement.Resolved?
    ensures ReadyEvent(option) in trace
    decreases |trace|
  {
    if trace == [] {
      assert false;
    } else if trace[0] != ReadyEvent(option) {
      var next := Step(option, st, trace[0]);
      if next.settlement.Pending? {
        ResolvedOnlyAfterReady(option, next, trace[1..]);
        assert trace[1..] == trace[1..] && forall e :: e in trace[1..] ==> e in trace;
      } else {
        SettlementIsFinal(option, next, trace[1..]);
      }
    }
  }

  /**
   * Errors are logged exactly from the readiness event on: none when it
   * never came, and those after its first occurrence otherwise.
   */
  lemma LoggedErrorsAreThoseAfterReady(option: ReadyOption, status: int, headers: Headers,
                                       before: seq<RenderEvent>, after: seq<RenderEvent>)
    requires ReadyEvent(option) !in before
    ensures Run(option, Initial(status, headers), before).logged == []
    ensures Run(option, Initial(status, headers), before + [ReadyEvent(option)] + after).logged == ErrorsIn(after)
  {
    var st0 := Initial(status, headers);
    QuietBeforeReady(option, st0, before);
    var mid := Run(option, st0, before);
    RunAppend(option, st0, before + [ReadyEvent(option)], after);
    RunAppend(option, st0, before, [ReadyEvent(option)]);
    var ready := Step(option, mid, ReadyEvent(option));
    assert Run(option, mid, [ReadyEvent(option)]) == ready;
    LogsAllAfterShell(option, ready, after);
  }

  /**
   * Crawlers and SPA-mode renders get no response before the whole tree is
   * ready: a shell-ready event alone never resolves their promise.
   */
  lemma CrawlersWaitForAllReady(userAgent: Option<string>, isBot: string -> bool, isSpaMode: bool,
                                status: int, headers: Headers, trace: seq<RenderEvent>)
    requires (userAgent.Some? && userAgent.value != "" && isBot(userAgent.value)) || isSpaMode
    ensures Run(ChooseReadyOption(userAgent, isBot, isSpaMode), Initial(status, headers), trace).settlement.Resolved?
      ==> AllReady in trace
  {
    var option := ChooseReadyOption(userAgent, isBot, isSpaMode);
    if Run(option, Initial(status, headers), trace).settlement.Resolved? {
      ResolvedOnlyAfterReady(option, Initial(status, headers), trace);
    }
  }

  /**
   * Other requests are answered as soon as the shell is ready, whatever
   * all-ready or error events come before or after it: the response carries
   * the status at that moment (500 after an earlier error) and the HTML
   * content type.
   */
  lemma BrowsersStreamFromShell(userAgent: Option<string>, isBot: string -> bool, isSpaMode: bool,
                                status: int, headers: Headers, before: seq<RenderEvent>, after: seq<RenderEvent>)
    requires !isSpaMode && (userAgent.None? || userAgent.value == "" || !isBot(userAgent.value))
    requires forall i :: 0 <= i < |before| ==> before[i] != ShellReady && !before[i].ShellError?
    ensures Run(ChooseReadyOption(userAgent, isBot, isSpaMode), Initial(status, headers), before + [ShellReady] + after).settlement
      == Resolved(Response(if HasError(before) then 500 else status, headers[ContentType := "text/html"]))
  {
    SettledByFirstDecidingEvent(ChooseReadyOption(userAgent, isBot, isSpaMode), status, headers, before, ShellReady, after);
  }

  /** The per-request state of the handler: the closure variables of the source. */
  class RequestHandler {
    const readyOption: ReadyOption
    var shellRendered: bool
    var responseStatusCode: int
    var responseHeaders: Headers
    var settlement: Settlement
    var logged: seq<RenderError>
    ghost const Start: HandlerState
    ghost var Trace: seq<RenderEvent>

    ghost function State(): HandlerState
      reads this
    {
      HandlerState(shellRendered, responseStatusCode, responseHeaders, settlement, logged)
    }

    ghost predicate Valid()
      reads this
    {
      State() == Run(readyOption, Start, Trace)
    }

    /** Entry of `handleRequest`: the flag cleared, the promise pending, the callback chosen. */
    constructor (userAgent: Option<string>, isBot: string -> bool, isSpaMode: bool, status: int, headers: Headers)
      ensures readyOption == ChooseReadyOption(userAgent, isBot, isSpaMode)
      ensures Start == Initial(status, headers) && State() == Start
      ensures Valid() && Trace == []
    {
      readyOption := ChooseReadyOption(userAgent, isBot, isSpaMode);
      shellRendered := false;
      responseStatusCode := status;
      responseHeaders := headers;
      settlement := Pending;
      logged := [];
      Start := Initial(status, headers);
      Trace := [];
    }

    /** The callback registered under `readyOption`. */
    method OnReady()
      modifies this
      ensures shellRendered
      ensures responseHeaders == old(responseHeaders)[ContentType := "text/html"]
      ensures settlement == if old(settlement).Pending?
                            then Resolved(Response(old(responseStatusCode), responseHeaders))
                            else old(settlement)
      ensures responseStatusCode == old(responseStatusCode) && logged == old(logged) && Trace == old(Trace)
    {
      shellRendered := true;
      responseHeaders := responseHeaders[ContentType := "text/html"];
      if settlement.Pending? {
        settlement := Resolved(Response(responseStatusCode, responseHeaders));
      }
    }

    method OnShellError(error: RenderError)
      modifies this
      ensures settlement == if old(settlement).Pending? then Rejected(error) else old(settlement)
      ensures shellRendered == old(shellRendered) && responseStatusCode == old(responseStatusCode)
      ensures responseHeaders == old(responseHeaders) && logged == old(logged) && Trace == old(Trace)
    {
      if settlement.Pending? {
        settlement := Rejected(error);
      }
    }

    method OnError(error: RenderError)
      modifies this
      ensures responseStatusCode == 500
      ensures logged == if shellRendered then old(logged) + [error] else old(logged)
      ensures shellRendered == old(shellRendered) && responseHeaders == old(responseHeaders)
      ensures settlement == old(settlement) && Trace == old(Trace)
    {
      responseStatusCode := 500;
      if shellRendered {
        logged := logged + [error];
      }
    }

    /** The renderer's call for `e`: the matching callback, if one is registered. */
    method Notify(e: RenderEvent)
      requires Valid()
      modifies this
      ensures Valid() && Trace == old(Trace) + [e]
      ensures State() == Step(readyOption, old(State()), e)
    {
      match e {
        case ShellReady => if readyOption == OnShellReady { OnReady(); }
        case AllReady => if readyOption == OnAllReady { OnReady(); }
        case ShellError(err) => OnShellError(err);
        case Error(err) => OnError(err);
      }
      RunAppend(readyOption, Start, Trace, [e]);
      Trace := Trace + [e];
    }
  }

  /**
   * One request replayed against a trace of renderer events: the promise's
   * settlement, the final status code and what was logged.
   */
  method HandleRequest(userAgent: Option<string>, isBot: string -> bool, isSpaMode: bool,
                       status: int, headers: Headers, events: seq<RenderEvent>)
    returns (settlement: Settlement, finalStatus: int, logged: seq<RenderError>)
    ensures var final := Run(ChooseReadyOption(userAgent, isBot, isSpaMode), Initial(status, headers), events);
      settlement == final.settlement && finalStatus == final.responseStatusCode && logged == final.logged
    ensures finalStatus == if HasError(events) then 500 else status
    ensures settlement.Resolved? ==> ReadyEvent(ChooseReadyOption(userAgent, isBot, isSpaMode)) in events
  {
    var handler := new RequestHandler(userAgent, isBot, isSpaMode, status, headers);
    var i := 0;
    while i < |events|
      invariant 0 <= i <= |events|
      invariant handler.Valid() && handler.Trace == events[..i]
      invariant handler.Start == Initial(status, headers)
    {
      handler.Notify(events[i]);
      assert events[..i + 1] == events[..i] + [events[i]];
      i := i + 1;
    }
    assert events[..i] == events;
    settlement, finalStatus, logged := handler.settlement, handler.responseStatusCode, handler.logged;
    StatusForcedByErrors(handler.readyOption, Initial(status, headers), events);
    if settlement.Resolved? {
      ResolvedOnlyAfterReady(handler.readyOption, Initial(status, headers), events);
    }
  }
}
