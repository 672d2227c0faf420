/**
 * The response helpers of the River endpoint pipeline (packages/river/src/utils.ts), over
 * the part of a Node `ServerResponse` they touch: whether it has ended, whether its headers
 * have gone out, its status code, its headers and the body written so far.
 */
module RiverUtils {
  import opened Wrappers

  /** An `Error` object: its message and, for a wrapped value, the `cause`. */
  datatype JsError = JsError(message: string, cause: Option<Thrown>)

  /** A value thrown in JavaScript: an `Error` instance or anything else. */
  datatype Thrown = ThrownError(error: JsError) | ThrownOther(value: string)

  /** What Node throws from `setHeader` once the headers have been sent. */
  const HeadersSentError := JsError("ERR_HTTP_HEADERS_SENT", None)

  /** The observable state of a response. */
  datatype ResponseState = ResponseState(
    writableEnded: bool,
    headersSent: bool,
    statusCode: int,
    headers: map<string, string>,
    body: string)

  /** Node's `res.end(chunk)`: the headers go out, the chunk is written and the response ends. */
  function EndOf(s: ResponseState, chunk: string): ResponseState
  {
    s.(writableEnded := true, headersSent := true, body := s.body + chunk)
  }

  /** Node's `res.setHeader(name, value)`: refused (it throws) once the headers were sent. */
  function SetHeaderOf(s: ResponseState, name: string, value: string): Option<ResponseState>
  {
    if s.headersSent then None else Some(s.(headers := s.headers[name := value]))
  }

  /** The response object the helpers write to. */
  class Response {
    var writableEnded: bool
    var headersSent: bool
    var statusCode: int
    var headers: map<string, string>
    var body: string

    function State(): ResponseState
      reads this
    {
      ResponseState(writableEnded, headersSent, statusCode, headers, body)
    }

    constructor (s: ResponseState)
      ensures State() == s
    {
      writableEnded := s.writableEnded;
      headersSent := s.headersSent;
      statusCode := s.statusCode;
      headers := s.headers;
      body := s.body;
    }

    /** `res.end(chunk)`. */
    method End(chunk: string)
      modifies this
      ensures State() == EndOf(old(State()), chunk)
    {
      writableEnded := true;
      headersSent := true;
      body := body + chunk;
    }

    /** `res.setHeader(name, value)`; `ok` is false where Node throws. */
    method SetHeader(name: string, value: string) returns (ok: bool)
      modifies this
      ensures ok == !old(headersSent)
      ensures State() == if ok then SetHeaderOf(old(State()), name, value).value else old(State())
    {
      ok := !headersSent;
      if ok {
        headers := headers[name := value];
      }
    }

    /** Moves the response to `s`: the effect of code the pipeline only calls. */
    method Become(s: ResponseState)
      modifies this
      ensures State() == s
    {
      writableEnded := s.writableEnded;
      headersSent := s.headersSent;
      statusCode := s.statusCode;
      headers := s.headers;
      body := s.body;
    }
  }

  /** The two answers of `safeEndResponse`. */
  datatype EndStatus = Ended | Open

  datatype SafeEndResult = SafeEndResult(status: EndStatus, state: ResponseState)

  /**
   * `safeEndResponse(res)`: an ended response is left alone; a response whose headers are
   * out is ended, where `endThrows` says whether `end()` threw (the throw is swallowed);
   * any other response is open and left alone.
   */
  function SafeEnd(s: ResponseState, endThrows: bool): (r: SafeEndResult)
    ensures r.status == Open <==> !s.writableEnded && !s.headersSent
    ensures r.status == Open || s.writableEnded || endThrows ==> r.state == s
    ensures r.status == Ended && !endThrows ==> r.state.writableEnded
  {
    if s.writableEnded then SafeEndResult(Ended, s)
    else if s.headersSent then SafeEndResult(Ended, if endThrows then s else EndOf(s, ""))
    else SafeEndResult(Open, s)
  }

  /** `safeEndResponse` on the response object. */
  method SafeEndResponse(res: Response, endThrows: bool) returns (status: EndStatus)
    modifies res
    ensures SafeEnd(old(res.State()), endThrows) == SafeEndResult(status, res.State())
  {
    if res.writableEnded {
      return Ended;
    }
    if res.headersSent {
      if !endThrows {
        res.End("");
      }
      return Ended;
    }
    return Open;
  }

  /**
   * `safeEndResponse` never touches the status or the headers and writes no body; it
   * answers `'open'` exactly when the response is neither ended nor has sent its headers,
   * and then leaves it as it was; an ended response is left as it was too.
   */
  lemma SafeEndKeepsStatusAndHeaders(s: ResponseState, endThrows: bool)
    ensures var r := SafeEnd(s, endThrows);
            && r.state.statusCode == s.statusCode
            && r.state.headers == s.headers
            && r.state.body == s.body
            && (r.status == Open <==> !s.writableEnded && !s.headersSent)
            && (r.status == Open || s.writableEnded ==> r.state == s)
            && (!endThrows ==> r.state.writableEnded == (r.status == Ended))
  {
    if !s.writableEnded && s.headersSent && !endThrows {
      assert EndOf(s, "").body == s.body + "" == s.body;
    }
  }

  /** The status, header and body text of `defaultErrorHandler`. */
  const ErrorStatus := 500
  const ErrorContentType := "text/plain"
  const ErrorBody := "Internal server error"

  /** What an error handler leaves behind: the response, and what it threw, if anything. */
  datatype HandlerResult = HandlerResult(state: ResponseState, thrown: Option<JsError>)

  /**
   * `defaultErrorHandler` as written: status 500, then `setHeader` (which throws once the
   * headers are out, before anything else happens), then `end` with the error text.
   */
  function DefaultHandled(s: ResponseState): (r: HandlerResult)
    ensures r.state.statusCode == 500
    ensures r.thrown.None? <==> !s.headersSent
    ensures r.thrown.None? ==> r.state.writableEnded
    ensures r.thrown.Some? ==> r.state.writableEnded == s.writableEnded
  {
    var withStatus := s.(statusCode := ErrorStatus);
    match SetHeaderOf(withStatus, "Content-Type", ErrorContentType)
    case None => HandlerResult(withStatus, Some(HeadersSentError))
    case Some(withHeader) => HandlerResult(EndOf(withHeader, ErrorBody), None)
  }

  /** `defaultErrorHandler` on the response object. */
  method DefaultErrorHandler(res: Response) returns (thrown: Option<JsError>)
    modifies res
    ensures DefaultHandled(old(res.State())) == HandlerResult(res.State(), thrown)
  {
    res.statusCode := ErrorStatus;
    var ok := res.SetHeader("Content-Type", ErrorContentType);
    if !ok {
      return Some(HeadersSentError);
    }
    res.End(ErrorBody);
    return None;
  }

  /**
   * On a response whose headers are not out, the default handler leaves status 500, a
   * `text/plain` content type, the error text at the end of the body and the response ended.
   */
  lemma DefaultHandlerAnswers500(s: ResponseState)
    requires !s.headersSent
    ensures var r := DefaultHandled(s);
            && r.thrown == None
            && r.state.writableEnded && r.state.headersSent
            && r.state.statusCode == 500
            && r.state.headers == s.headers["Content-Type" := "text/plain"]
            && r.state.body == s.body + "Internal server error"
  {
  }

  /**
   * The default handler as written throws on a response whose headers are already out, and
   * leaves it open: `setHeader` is called without looking at `headersSent`.
   */
  lemma DefaultHandlerThrowsAfterHeaders(s: ResponseState)
    requires s.headersSent && !s.writableEnded
    ensures DefaultHandled(s).thrown == Some(HeadersSentError)
    ensures !DefaultHandled(s).state.writableEnded
    ensures DefaultHandled(s).state.headers == s.headers
  {
  }

  /**
   * The default handler guarded by `safeEndResponse`: a response that is ended, or whose
   * headers are out, is only ended; an open one gets the 500 answer.
   */
  function GuardedDefaultHandled(s: ResponseState): (r: HandlerResult)
    ensures r.thrown == None
    ensures s.writableEnded || s.headersSent ==> r.state.statusCode == s.statusCode
  {
    var guard := SafeEnd(s, false);
    if guard.status == Ended then HandlerResult(guard.state, None) else DefaultHandled(s)
  }

  /** The guarded default handler on the response object. */
  method GuardedDefaultErrorHandler(res: Response) returns (thrown: Option<JsError>)
    modifies res
    ensures GuardedDefaultHandled(old(res.State())) == HandlerResult(res.State(), thrown)
  {
    var status := SafeEndResponse(res, false);
    if status == Ended {
      return None;
    }
    thrown := DefaultErrorHandler(res);
  }

  /**
   * The guarded handler never throws and always leaves the response ended; it never
   * rewrites the headers of a response whose headers are out; on an open response it is
   * the default handler.
   */
  lemma GuardedHandlerAlwaysEnds(s: ResponseState)
    ensures var r := GuardedDefaultHandled(s);
            && r.thrown == None
            && r.state.writableEnded
            && (s.headersSent ==> r.state.headers == s.headers && r.state.statusCode == s.statusCode)
            && (!s.writableEnded && !s.headersSent ==> r == DefaultHandled(s))
  {
    SafeEndKeepsStatusAndHeaders(s, false);
    if !s.writableEnded && !s.headersSent {
      DefaultHandlerAnswers500(s);
    }
  }

  /** `nextFn`: the `next` callback handed to every middleware always says go on. */
  function NextFn(): (go: bool)
    ensures go
  {
    true
  }
}
