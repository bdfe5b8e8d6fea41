/**
 * The `/interact` endpoint (tutor-ai.py, lines 26-35 and 52-81): an event
 * handler records the sanitized text of each completed message while the
 * assistant's run stream is consumed, and the outcome is mapped to an HTTP
 * reply by the `try`/`except` around the whole request.
 *
 * The remote service is abstracted as the finite sequence of events its
 * stream delivers; a service failure (also one while the thread is being
 * created) is an `UpstreamError` event at the point where it is raised.
 */
module Interaction {
  import opened Wrappers
  import Citations

  /** One block of a message's content; only text blocks have `.text`. */
  datatype ContentBlock = TextBlock(value: string) | OtherBlock(typeName: string)

  datatype Message = Message(content: seq<ContentBlock>)

  /** What the run stream delivers to the handler, in order. */
  datatype Event =
    | MessageDone(message: Message)
    | Other
    | UpstreamError(reason: string)

  /** The exceptions the endpoint tells apart. */
  datatype Exception =
    | OpenAIError(reason: string)
    | HttpException(status: nat, detail: string)
    | RuntimeError(reason: string)

  const IndexErrorText: string := "list index out of range"
  const OpenAIErrorPrefix: string := "OpenAI Error: "
  const InternalErrorPrefix: string := "Internal Server Error: "
  const NoResponseDetail: string := "No hay respuesta del asistente"

  /** The decimal digits of `n`, most significant first, as `str(n)` writes them. */
  function Decimal(n: nat): (r: string)
    ensures Citations.IsNumber(r)
    ensures r[0] == '0' ==> n == 0
    decreases n
  {
    (if n < 10 then [] else Decimal(n / 10)) + [('0' as int + n % 10) as char]
  }

  /** The number a string of decimal digits denotes. */
  function DigitsValue(d: string): nat
    requires Citations.AllDigits(d)
    decreases |d|
  {
    if d == [] then 0
    else DigitsValue(d[..|d| - 1]) * 10 + (d[|d| - 1] as int - '0' as int)
  }

  /** Reading back the digits `Decimal` writes gives the number again. */
  lemma {:induction false} DecimalRoundTrip(n: nat)
    ensures DigitsValue(Decimal(n)) == n
    decreases n
  {
    var d := Decimal(n);
    if n >= 10 {
      DecimalRoundTrip(n / 10);
      assert d[..|d| - 1] == Decimal(n / 10);
    } else {
      assert d[..|d| - 1] == [];
    }
  }

  /**
   * `str(e)`: an SDK or runtime exception shows its message; an HTTP
   * exception shows its status in decimal, then ": ", then its detail.
   */
  function Str(e: Exception): (r: string)
    ensures !e.HttpException? ==> r == e.reason
    ensures e.HttpException? ==>
      var k := |r| - |e.detail| - 2;
      0 < k && Citations.IsNumber(r[..k]) && DigitsValue(r[..k]) == e.status
      && r[k..] == ": " + e.detail
  {
    match e
    case OpenAIError(reason) => reason
    case HttpException(status, detail) =>
      var d := Decimal(status);
      DecimalRoundTrip(status);
      assert (d + ": " + detail)[..|d|] == d;
      assert (d + ": " + detail)[|d|..] == ": " + detail;
      d + ": " + detail
    case RuntimeError(reason) => reason
  }

  /** `message.content[0].text.value`, or the exception reading it raises. */
  function FirstText(m: Message): (r: Result<string, Exception>)
    ensures r.Ok? <==> |m.content| > 0 && m.content[0].TextBlock?
    ensures r.Ok? ==> r.value == m.content[0].value
    ensures r.Err? ==> r.error.RuntimeError?
    ensures |m.content| == 0 ==> r == Err(RuntimeError(IndexErrorText))
  {
    if |m.content| == 0 then Err(RuntimeError(IndexErrorText))
    else match m.content[0]
      case TextBlock(value) => Ok(value)
      case OtherBlock(typeName) => Err(RuntimeError("'" + typeName + "' object has no attribute 'text'"))
  }

  class EventHandler {
    var response: Option<string>

    constructor ()
      ensures response == None
    {
      response := None;
    }

    /**
     * Replaces the response by the sanitized first content block. A message
     * whose first block cannot be read raises before anything is stored.
     */
    method OnMessageDone(message: Message) returns (raised: Option<Exception>)
      modifies this
      ensures match FirstText(message)
        case Ok(text) => response == Some(Citations.Strip(text)) && raised == None
        case Err(e) => response == old(response) && raised == Some(e)
    {
      match FirstText(message)
      case Ok(text) =>
        response := Some(Citations.Strip(text));
        raised := None;
      case Err(e) =>
        raised := Some(e);
    }
  }

  /** How consuming the stream ends: with the handler's response, or raising. */
  datatype StreamEnd = Finished(response: Option<string>) | Raised(error: Exception)

  /**
   * `stream.until_done()` for a handler whose response is `response`. A
   * response once captured is never cleared, and consuming never raises an
   * HTTP exception: that one comes only from the check after the stream.
   */
  function Consume(events: seq<Event>, response: Option<string>): (r: StreamEnd)
    ensures r.Finished? && response.Some? ==> r.response.Some?
    ensures r.Raised? ==> !r.error.HttpException?
  {
    if events == [] then Finished(response)
    else match events[0]
      case Other => Consume(events[1..], response)
      case UpstreamError(reason) => Raised(OpenAIError(reason))
      case MessageDone(m) =>
        match FirstText(m)
        case Ok(text) => Consume(events[1..], Some(Citations.Strip(text)))
        case Err(e) => Raised(e)
  }

  datatype Body = ResponseBody(response: string) | DetailBody(detail: string)

  datatype Reply = Reply(status: nat, body: Body)

  /**
   * The two `except` clauses, tried in order: an OpenAI error keeps its own
   * prefix, every other exception gets the generic one.
   */
  function Except(e: Exception): (r: Reply)
    ensures r.status == 500 && r.body.DetailBody?
    ensures OpenAIErrorPrefix <= r.body.detail <==> e.OpenAIError?
    ensures InternalErrorPrefix <= r.body.detail <==> !e.OpenAIError?
    ensures |Str(e)| <= |r.body.detail| && r.body.detail[|r.body.detail| - |Str(e)|..] == Str(e)
  {
    match e
    case OpenAIError(reason) =>
      var d := OpenAIErrorPrefix + reason;
      assert d[0] == 'O' != InternalErrorPrefix[0];
      assert d[|d| - |reason|..] == reason;
      Reply(500, DetailBody(d))
    case _ =>
      var d := InternalErrorPrefix + Str(e);
      assert d[0] == 'I' != OpenAIErrorPrefix[0];
      assert d[|d| - |Str(e)|..] == Str(e);
      Reply(500, DetailBody(d))
  }

  /** The reply to a request whose run stream delivers `events`. */
  function Respond(events: seq<Event>): (r: Reply)
    ensures r.status == 200 <==> r.body.ResponseBody?
    ensures r.status == 200 || r.status == 500
  {
    match Consume(events, None)
    case Raised(e) => Except(e)
    case Finished(None) => Except(HttpException(500, NoResponseDetail))
    case Finished(Some(text)) => Reply(200, ResponseBody(text))
  }

  /**
   * Handles one request: creates a handler, consumes the stream until it
   * is done or raises, checks that a response was captured, and maps what
   * was raised to an error reply.
   */
  method Interact(events: seq<Event>) returns (reply: Reply)
    ensures reply == Respond(events)
  {
    var handler := new EventHandler();
    var raised: Option<Exception> := None;
    var i := 0;
    while i < |events| && raised.None?
      invariant 0 <= i <= |events|
      invariant raised.None? ==> Consume(events, None) == Consume(events[i..], handler.response)
      invariant raised.Some? ==> Consume(events, None) == Raised(raised.value)
      decreases |events| - i
    {
      assert events[i..][1..] == events[i + 1..];
      match events[i] {
        case MessageDone(m) =>
          raised := handler.OnMessageDone(m);
        case Other =>
        case UpstreamError(reason) =>
          raised := Some(OpenAIError(reason));
      }
      i := i + 1;
    }
    if raised.Some? {
      reply := Except(raised.value);
    } else if handler.response.None? {
      // raised inside the `try`, so the generic clause catches it
      reply := Except(HttpException(500, NoResponseDetail));
    } else {
      reply := Reply(200, ResponseBody(handler.response.value));
    }
  }

  /** An event that makes the stream raise. */
  predicate Raises(e: Event) {
    e.UpstreamError? || (e.MessageDone? && FirstText(e.message).Err?)
  }

  /** The exception a raising event raises. */
  function RaisedBy(e: Event): Exception
    requires Raises(e)
  {
    if e.UpstreamError? then OpenAIError(e.reason) else FirstText(e.message).error
  }

  predicate Clean(events: seq<Event>) {
    forall k :: 0 <= k < |events| ==> !Raises(events[k])
  }

  predicate HasMessage(events: seq<Event>) {
    exists k :: 0 <= k < |events| && events[k].MessageDone?
  }

  lemma CleanTail(events: seq<Event>)
    requires events != [] && Clean(events)
    ensures !Raises(events[0]) && Clean(events[1..])
  {
    assert forall k :: 0 <= k < |events[1..]| ==> events[1..][k] == events[k + 1];
  }

  lemma HasMessageTail(events: seq<Event>)
    requires events != []
    ensures HasMessage(events) <==> events[0].MessageDone? || HasMessage(events[1..])
  {
    if HasMessage(events) && !events[0].MessageDone? {
      var k :| 0 <= k < |events| && events[k].MessageDone?;
      assert events[1..][k - 1] == events[k];
    }
    if HasMessage(events[1..]) {
      var k :| 0 <= k < |events[1..]| && events[1..][k].MessageDone?;
      assert events[k + 1] == events[1..][k];
    }
  }

  /**
   * A stream with no raising event runs to its end; the response stays the
   * initial one when no message arrives, and is set when one does.
   */
  lemma {:induction false} ConsumeClean(events: seq<Event>, response: Option<string>)
    requires Clean(events)
    ensures Consume(events, response).Finished?
    ensures !HasMessage(events) ==> Consume(events, response) == Finished(response)
    ensures HasMessage(events) ==> Consume(events, response).response.Some?
  {
    if events != [] {
      CleanTail(events);
      HasMessageTail(events);
      match events[0]
      case Other =>
        ConsumeClean(events[1..], response);
      case MessageDone(m) =>
        ConsumeClean(events[1..], Some(Citations.Strip(FirstText(m).value)));
    }
  }

  /** The first raising event ends the stream with its exception. */
  lemma {:induction false} ConsumeFirstRaise(pre: seq<Event>, e: Event, post: seq<Event>, response: Option<string>)
    requires Clean(pre) && Raises(e)
    ensures Consume(pre + [e] + post, response) == Raised(RaisedBy(e))
  {
    var s := pre + [e] + post;
    if pre == [] {
      assert s == [e] + post;
    } else {
      CleanTail(pre);
      assert s[0] == pre[0] && s[1..] == pre[1..] + [e] + post;
      match pre[0]
      case Other =>
        ConsumeFirstRaise(pre[1..], e, post, response);
      case MessageDone(m) =>
        ConsumeFirstRaise(pre[1..], e, post, Some(Citations.Strip(FirstText(m).value)));
    }
  }

  /** The stream raises exactly when one of its events raises. */
  lemma {:induction false} RaisesIff(events: seq<Event>, response: Option<string>)
    ensures Consume(events, response).Raised? <==> !Clean(events)
  {
    if events != [] {
      assert forall k :: 0 <= k < |events[1..]| ==> events[1..][k] == events[k + 1];
      assert Clean(events) <==> !Raises(events[0]) && Clean(events[1..]);
      match events[0]
      case Other =>
        RaisesIff(events[1..], response);
      case UpstreamError(_) =>
      case MessageDone(m) =>
        if FirstText(m).Ok? {
          RaisesIff(events[1..], Some(Citations.Strip(FirstText(m).value)));
        }
    }
  }

  /**
   * A request succeeds exactly when no event raises and at least one
   * message is completed.
   */
  lemma RespondSucceedsIff(events: seq<Event>)
    ensures Respond(events).status == 200 <==> Clean(events) && HasMessage(events)
  {
    RaisesIff(events, None);
    if Clean(events) {
      ConsumeClean(events, None);
    }
  }

  /**
   * Without any completed message no success body is returned: the
   * missing response is reported through the generic clause, not with the
   * bare detail raised inside the `try`.
   */
  lemma RespondNoMessage(events: seq<Event>)
    requires !HasMessage(events)
    ensures Respond(events).status == 500
    ensures Clean(events) ==>
      Respond(events).body == DetailBody(InternalErrorPrefix + "500: " + NoResponseDetail)
    ensures Respond(events).body != DetailBody(NoResponseDetail)
  {
    RespondSucceedsIff(events);
    if Clean(events) {
      ConsumeClean(events, None);
      NoResponseText();
    }
    var d := Respond(events).body.detail;
    assert d[0] == 'I' || d[0] == 'O';
    assert NoResponseDetail[0] == 'N';
  }

  lemma NoResponseText()
    ensures Str(HttpException(500, NoResponseDetail)) == "500: " + NoResponseDetail
  {
    assert Decimal(5) == "5";
    assert Decimal(50) == "50";
    assert Decimal(500) == "500";
  }

  /**
   * The last completed message wins: its sanitized first block is the
   * whole body of the success reply, whatever messages came before it.
   */
  lemma {:induction false} ConsumeLastMessage(pre: seq<Event>, m: Message, post: seq<Event>, response: Option<string>)
    requires Clean(pre) && FirstText(m).Ok? && Clean(post) && !HasMessage(post)
    ensures Consume(pre + [MessageDone(m)] + post, response) == Finished(Some(Citations.Strip(FirstText(m).value)))
  {
    var s := pre + [MessageDone(m)] + post;
    if pre == [] {
      assert s[1..] == post;
      ConsumeClean(post, Some(Citations.Strip(FirstText(m).value)));
    } else {
      CleanTail(pre);
      assert s[0] == pre[0] && s[1..] == pre[1..] + [MessageDone(m)] + post;
      match pre[0]
      case Other =>
        ConsumeLastMessage(pre[1..], m, post, response);
      case MessageDone(m0) =>
        ConsumeLastMessage(pre[1..], m, post, Some(Citations.Strip(FirstText(m0).value)));
    }
  }

  lemma RespondLastMessage(pre: seq<Event>, m: Message, post: seq<Event>, text: string)
    requires Clean(pre) && FirstText(m) == Ok(text) && Clean(post) && !HasMessage(post)
    ensures Respond(pre + [MessageDone(m)] + post) == Reply(200, ResponseBody(Citations.Strip(text)))
  {
    ConsumeLastMessage(pre, m, post, None);
  }

  /**
   * A service error ends the request with the OpenAI clause's reply,
   * even when a message was already captured, and the generic clause is
   * never reached for it.
   */
  lemma RespondUpstreamError(pre: seq<Event>, reason: string, post: seq<Event>)
    requires Clean(pre)
    ensures Respond(pre + [UpstreamError(reason)] + post) == Reply(500, DetailBody(OpenAIErrorPrefix + reason))
  {
    ConsumeFirstRaise(pre, UpstreamError(reason), post, None);
  }

  /** A message whose content cannot be read is an internal error. */
  lemma RespondUnreadableMessage(pre: seq<Event>, m: Message, post: seq<Event>, e: Exception)
    requires Clean(pre) && FirstText(m) == Err(e)
    ensures Respond(pre + [MessageDone(m)] + post) == Reply(500, DetailBody(InternalErrorPrefix + Str(e)))
  {
    ConsumeFirstRaise(pre, MessageDone(m), post, None);
  }
}
