# TutorAI `/interact` endpoint in Dafny

The TutorAI back end forwards a student's question to a hosted assistant and
returns the assistant's answer. It has one endpoint, `POST /interact`, and
the local logic behind it has three parts:

- **Citation stripping.** The assistant's answer carries citation markers of
  the form `【<digits>:<digits>†source】`. They are removed with one
  regular-expression substitution. `Citations.Strip` models that
  substitution as a left-to-right scan over the answer. At each position the
  scan either deletes the marker that starts there or keeps the character.
  The declarative marker (`Citations.Marker`, `Citations.MarkerAt`) is proved
  to match exactly what the scanner recognises (`Citations.MatchAtExact`).
- **Response capture.** An `EventHandler` object has one mutable field,
  `response`, which starts as `None`. Each completed message overwrites it
  with the sanitized text of the message's first content block. This is the
  class `Interaction.EventHandler`.
- **Request outcome.** `Interaction.Interact` creates a handler and consumes
  the run stream until it ends or raises. It then checks that a response was
  captured and maps any exception to an HTTP 500 reply, following the two
  `except` clauses. It is proved equal to the specification
  `Interaction.Respond`. `Respond` folds the handler over the stream
  (`Interaction.Consume`) and then applies the `except` mapping
  (`Interaction.Except`).

The remote service is modelled as the finite sequence of events its run
stream delivers: a completed message, any other event, or a service error.
A service error is raised at the point where it occurs in that sequence.
This includes an error while the conversation thread is being created,
which is a service error at the start of the sequence.

Two behaviours of the code are worth stating plainly:

- Citation removal is not idempotent. Deleting an inner marker can join the
  text around it into a new marker: `【1:【2:3†source】4†source】` becomes
  `【1:4†source】`, and a second pass deletes that
  (`Citations.StripNotIdempotent`).
- There is no separate "no response" reply. The `HTTPException` raised at
  tutor-ai.py:75 is inside the `try`, so the `except Exception` clause at
  line 80 re-wraps it with `Internal Server Error: `
  (`Interaction.RespondNoMessage`).

Files: `wrappers.dfy` (`Option`, `Result`), `citations.dfy` (module
`Citations`), `interaction.dfy` (module `Interaction`).

## Model

| member | source | states |
|---|---|---|
| `Citations.DigitsEnd` | tutor-ai.py:34 | `\d+` scanning: the result ends the longest run of digits starting at `i`. Everything before it is a digit and the character at it is not. |
| `Citations.MatchAt` | tutor-ai.py:34 | A match found by the scanner starts at `【`, is at least 12 characters long and fits in the rest of the input. |
| `Citations.MatchAtExact` | tutor-ai.py:34 | Both directions: a marker of length `len` starts at `i` exactly when the scanner returns `Some(len)`. So at most one marker length is possible at any position. |
| `Citations.Strip` | tutor-ai.py:34 | The replacement is empty, so the output is never longer than the input. |
| `Citations.StripIsSubsequence` | tutor-ai.py:34 | Stripping only deletes characters: the output is a subsequence of the input, in the same order. |
| `Citations.StripMarkerFree` | tutor-ai.py:34 | A string holding no marker passes through unchanged. |
| `Citations.StripShortens` | tutor-ai.py:34 | Any marker anywhere in the input makes the output strictly shorter. |
| `Citations.StripUnchangedIff` | tutor-ai.py:34 | Both directions: stripping leaves a string unchanged exactly when it holds no marker. |
| `Citations.StripLeadingMarker` | tutor-ai.py:34 | A marker at the start is deleted whole, whatever follows it. |
| `Citations.StripKeepsPrefix` | tutor-ai.py:34 | Text without `【` is copied to the output unchanged, whatever follows it. |
| `Citations.StripRemovesInserted` | tutor-ai.py:34 | Insert well-formed markers anywhere into a marker-free text, then strip: the result is exactly that text, in order. |
| `Citations.StripNested` | tutor-ai.py:34 | One pass with no rescan: for a marker whose second number is split by an inner marker, one pass leaves only the outer marker. |
| `Citations.StripNotIdempotent` | tutor-ai.py:34 | Stripping is not idempotent: stripping the nested example once leaves a marker, and stripping again deletes it. |
| `Citations.StripNotIdempotentExample` | tutor-ai.py:34 | For the concrete string `【1:【2:3†source】4†source】`, stripping twice differs from stripping once. |
| `Interaction.Decimal` | tutor-ai.py:81 | The status in `str()` of an HTTP exception is a non-empty run of decimal digits with no leading zero. |
| `Interaction.DecimalRoundTrip` | tutor-ai.py:81 | Reading those digits back gives the status again. |
| `Interaction.Str` | tutor-ai.py:79-81 | `str(e)` of an SDK or runtime exception is its message. For an HTTP exception it is the status in decimal digits (read back as the status), then `: `, then the detail. |
| `Interaction.FirstText` | tutor-ai.py:32 | Both directions: reading `message.content[0].text.value` succeeds exactly when the content is non-empty and its first block is text, and it yields that block's value. An empty content raises `IndexError` with Python's text. Every failure is a runtime error, never an OpenAI error. |
| `Interaction.Consume` | tutor-ai.py:66-72 | `stream.until_done()` driving the handler: a captured response is never cleared, and consuming never raises an HTTP exception. Its behaviour is stated by `ConsumeClean`, `ConsumeFirstRaise`, `RaisesIff` and `ConsumeLastMessage`. |
| `Interaction.EventHandler.constructor` | tutor-ai.py:27-29 | A new handler has no response. |
| `Interaction.EventHandler.OnMessageDone` | tutor-ai.py:31-35 | The response becomes the stripped text of the message's first content block. If that block cannot be read (an empty content list or a non-text block), the method raises and the response is unchanged. |
| `Interaction.Except` | tutor-ai.py:78-81 | Every exception gives status 500 with a detail body that ends with the exception's text. The detail starts with `OpenAI Error: ` exactly for an OpenAI error, and with `Internal Server Error: ` exactly for every other exception. |
| `Interaction.Respond` | tutor-ai.py:52-81 | Every reply is either 200 with a `response` body or 500 with a `detail` body. |
| `Interaction.Interact` | tutor-ai.py:52-81 | Consuming the stream with a fresh handler, checking the response and mapping the exceptions yields exactly `Respond(events)`. |
| `Interaction.ConsumeClean` | tutor-ai.py:66-72 | A stream in which no event raises runs to its end. The response keeps its initial value when no message completes, and is `Some(_)` when one does. |
| `Interaction.ConsumeFirstRaise` | tutor-ai.py:66-72 | The first raising event ends the stream with its own exception, whatever follows it. |
| `Interaction.RaisesIff` | tutor-ai.py:66-72 | Both directions: consuming the stream raises exactly when one of its events raises. |
| `Interaction.RespondSucceedsIff` | tutor-ai.py:66-81 | Both directions: a request succeeds exactly when no event raises and at least one message completes. |
| `Interaction.RespondNoMessage` | tutor-ai.py:74-81 | Without a completed message there is never a success reply. If nothing raised, the detail is `Internal Server Error: 500: No hay respuesta del asistente`, never the bare `No hay respuesta del asistente`. |
| `Interaction.NoResponseText` | tutor-ai.py:75 | The text of the "no response" exception is its status followed by its detail: `500: No hay respuesta del asistente`. |
| `Interaction.ConsumeLastMessage` | tutor-ai.py:31-35 | If nothing raises, the last completed message wins: the final response is the stripped text of its first block, whatever was captured before. |
| `Interaction.RespondLastMessage` | tutor-ai.py:77 | A successful reply has status 200, and its body is exactly the stripped text of the last completed message. |
| `Interaction.RespondUpstreamError` | tutor-ai.py:78-79 | A service error gives status 500 with detail `OpenAI Error: ` followed by the error's message. This holds even when a message was already captured. |
| `Interaction.RespondUnreadableMessage` | tutor-ai.py:32 | A completed message whose first block cannot be read gives status 500 with detail `Internal Server Error: ` followed by the exception's text. |

## Left out

- OpenAI client construction, the assistant update, thread creation and the run stream (tutor-ai.py:18-24, 55-72) are calls into the OpenAI SDK. They are replaced by the event sequence passed to `Interact`. The question is sent only to those calls, so `Interact` does not take it.
- Environment and `.env` loading (tutor-ai.py:9-15), the debug `print` of the thread (tutor-ai.py:64) and the uvicorn bootstrap (tutor-ai.py:87-89) are I/O.
- FastAPI app setup, CORS middleware and pydantic validation of the request body (tutor-ai.py:37-50) are framework configuration.
- The fixed `GET /` reply (tutor-ai.py:83-85) has no logic.
- Citations.IsDigit: accepts only ASCII `0`-`9`. Python's `\d` on `str` also matches other Unicode decimal digits.
- Interaction.Str: `str()` of SDK exceptions is taken to be their message. `str()` of Starlette's `HTTPException` is taken to be `"<status>: <detail>"`. Both are foreign types whose exact rendering is not part of this model.
- Interaction.FirstText: the Python messages for an empty content list (`IndexError`) and for a non-text block (`AttributeError`) are written out as Python phrases them. Any other failure inside the SDK's callback dispatch is not modelled.
- Concurrency across requests is not modelled. Each request builds its own handler and shares no mutable state.
