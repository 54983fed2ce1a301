# StoryScribe core, modelled in Dafny

StoryScribe is a browser extension. It takes a meeting transcript, asks a chat-completion service to extract tickets (bugs, stories, tasks) from it, and files those tickets as GitHub issues. This project models the logic of the extension's popup and content script as pure Dafny functions and three methods for the push handler, one of them with a loop, and proves properties about them.

- `capture.dfy` (`Capture`): `captureTranscript`, the script the popup injects into a meeting page. It tries six platform selectors in a fixed order, joins the texts of the first one that matches, and otherwise falls back to the first 5000 characters of a body longer than 100 characters.
- `analyze.dfy` (`Analyze`): the "Analyze" click handler.
  - The two input guards.
  - The request it builds: model, temperature, system instruction, user content and key.
  - The extraction of the greedy `\[[\s\S]*\]` match from the reply.
  - When the kept ticket list is replaced, and which status the handler ends in.
- `publish.dfy` (`Publish`): the "Push to GitHub" click handler.
  - One issue-creation call per ticket, in order, counting the calls whose response is ok.
  - A 300 ms pause after every call that returned.
  - A thrown exception is caught per ticket and does not stop the loop.
  - The handler is split in two: `Push` trims the settings fields and hands the trimmed values to `PushWith`, whose loop (`PushAll`) leaves a trace of events. The trace is proved to record, ticket by ticket, the attempt each ticket's outcome calls for. A `null` ticket is skipped. Any other ticket's request is sent. A returned fetch is answered and followed by the pause; a fetch that throws is caught with no pause.
  - The trace is also proved to hold exactly the requests a reference definition lists and one ok response per created issue. It is *paced*: every request is followed by its response or by the catch block, and every response is followed by the pause.
- `license.dfy` (`License`): the "Activate License" click handler. It accepts any trimmed key longer than ten characters.
- `content_buffer.dfy` (`ContentScript`): the content script's mutation observer and its `getTranscript` message listener.
  - The observer appends the text of every added element node whose text length is strictly between 10 and 500.
  - The listener answers with the buffer joined by newlines.
- `js_text.dfy` (`JsText`): string operations.
  - `trim` with the ECMAScript whitespace set, as the handlers call it.
  - `join('\n')`, as `captureTranscript` and the content script call it.
  - `IndexOf` and `LastIndexOf`, which the model uses to compute the match of the bracket regular expression. The source calls neither.
  - `Split`, the inverse used to state the join's round trip. The source never splits.
- `tickets.dfy` (`Tickets`): the parsed ticket elements.
- `wrappers.dfy` (`Wrappers`): `Option`.

Strings are sequences of Unicode scalar values. Outside effects are parameters:
- page contents are a `Page` snapshot;
- the chat service's answer is a `ChatReply`;
- `JSON.parse` is a `Decoder` function;
- the outcome of each GitHub call is a `CallOutcome`.

Behaviour of the code worth noting:
- The capture falls back to the page body when no selector matches, and also when the first matching selector yields an empty join (a single element with empty text). The fallback is taken only for a body longer than 100 characters.
- Parsed tickets are never validated: any type and any title, or none, is kept. A `null` element makes `renderTickets` throw after the list has already been replaced, so the list changes but the handler reports an error. It is the only render exception the model has (see "## Left out" for objects that cannot be converted to a string).
- A reply with no bracketed text shows no message and leaves the list unchanged.
- In the push loop, the 300 ms pause follows only calls whose fetch returned. A fetch that throws goes straight to the catch block with no pause. A `null` ticket throws while its request body is being built, so no call is made for it. Per-ticket error text is only logged; the handler reports the two counts.

## Model

| member | source | states |
|---|---|---|
| JsText.TrimFrame | extension/popup.js:53 | `trim` keeps a slice of its input that has only whitespace on either side and neither starts nor ends with whitespace |
| JsText.TrimUnique | extension/popup.js:139-140 | any slice framed by whitespace on both sides and without whitespace at its ends is exactly the trimmed text, so `trim` is determined by that description |
| JsText.TrimEmptyIff | extension/popup.js:142 | the trimmed input is empty exactly when the input is all whitespace, which is when the `!transcript` guard fires |
| JsText.TrimIdempotent | extension/popup.js:53-62 | trimming twice changes nothing more than trimming once: the license key is stored trimmed (line 62) and reloaded into the input (line 31), and trimming it again on the next click (line 53) gives back the stored key |
| JsText.SkipSpaceForward | extension/popup.js:139 | the leading-whitespace scan stops at the first non-whitespace character, with only whitespace before it |
| JsText.SkipSpaceBackward | extension/popup.js:140 | the trailing-whitespace scan stops just after the last non-whitespace character, with only whitespace after it |
| JsText.IndexOf | extension/popup.js:187 | the first position holding the character, or none exactly when the character does not occur |
| JsText.LastIndexOf | extension/popup.js:187 | the last position holding the character, or none exactly when the character does not occur |
| JsText.SplitJoin | extension/content.js:49 | splitting the newline join of newline-free strings on newlines gives the same strings back |
| JsText.JoinSplit | extension/content.js:49 | joining the pieces of a newline split with newlines restores the original text |
| JsText.JoinEmptyIff | extension/popup.js:121 | a newline join is empty only for no strings or a single empty string |
| Capture.FirstMatch | extension/popup.js:118-124 | the position of the first selector with at least one match, with no match before it; none only when no selector matches |
| Capture.Fallback | extension/popup.js:127-132 | the fallback is a prefix of the body of at most 5000 characters, non-empty exactly when the body is longer than 100 characters |
| Capture.CaptureTranscript | extension/popup.js:102-135 | with the six platform selectors: the first selector that matches decides, and its texts joined by newlines are the capture unless they join to `""`; whenever the selector loop yields `""` (no match, or a lone empty match) the capture is the bounded body prefix; an empty capture means the body is at most 100 characters long |
| Capture.CaptureWith | extension/popup.js:116-134 | the capture is either the selector join or a prefix of the body of at most 5000 characters |
| Capture.FirstMatchWins | extension/popup.js:104-124 | when selector `i` is the first to match and its join is non-empty, the capture is the newline join of its texts in document order |
| Capture.LaterSelectorsIgnored | extension/popup.js:118-124 | pages that agree on the body and on the selectors up to the first match capture the same text, whatever later selectors match |
| Capture.SelectorTextEmptyIff | extension/popup.js:116-127 | the selector loop yields `""` exactly when no selector matches or the first match is a single empty text |
| Capture.FallbackBound | extension/popup.js:127-134 | when the loop yields `""`, the capture is a body prefix of at most 5000 characters: `min(length, 5000)` characters when the body is longer than 100, empty otherwise |
| Capture.EmptyMatchFallsBack | extension/popup.js:120-131 | a first match that is a single empty text still leads to the body fallback |
| Analyze.ArraySpan | extension/popup.js:187 | the span found is the leftmost-longest `[`…`]` match, and there is none only when no `[` comes before a `]` |
| Analyze.ExtractArray | extension/popup.js:187-188 | a match exists exactly when some `[` precedes some `]`; it is the leftmost-longest such slice, starting with `[` and ending with `]` |
| Analyze.MatchUnique | extension/popup.js:187 | the leftmost-longest match of a text is unique |
| Analyze.ApplyReply | extension/popup.js:183-196 | the list is replaced exactly by a decoded array and kept otherwise; `Found` or the render failure occur exactly when the reply decodes; a decoded list without `null` ends in `Found` with its length, and one with a `null` element ends in the render failure |
| Analyze.AnalyzeClick | extension/popup.js:138-200 | empty trimmed transcript or key stop before any request; a request is sent exactly when both are non-empty and carries the trimmed inputs, `gpt-4o-mini`, temperature 0.3 and the fixed instruction; the list changes only to a decoded reply |
| Analyze.KeptOnFailure | extension/popup.js:183-196 | a reply that does not decode leaves the list unchanged and never reports `Found` |
| Analyze.NoArrayNoChange | extension/popup.js:186-193 | content without bracketed text leaves the list unchanged |
| Publish.PushAll | extension/popup.js:226-247 | the loop counts the ok calls, and its trace is exactly the record, in ticket order, of the expected attempt for every ticket: skipped for `null`, otherwise the request followed by the catch when the fetch threw, or by the response and the pause when it returned |
| Publish.RenderedTrace | extension/popup.js:227-247 | the record of the expected attempts sends exactly the reference requests, in order, and holds one ok response per call that succeeded |
| Publish.PushWith | extension/popup.js:217-249 | with an empty token or repository nothing is sent; otherwise every ticket is attempted, the created count equals the number of ok calls, and the trace is the record of each ticket's expected attempt |
| Publish.Push | extension/popup.js:213-249 | the settings are trimmed before the check; when it pushes, the created count equals both the number of ok calls and the ok responses in the trace, and the trace is exactly the record of each ticket's expected attempt under the trimmed settings, so it is paced and sends exactly the reference requests |
| Publish.AttemptsForAt | extension/popup.js:227-246 | there is one expected attempt per ticket, and the `i`-th is the one for the `i`-th ticket and its outcome |
| Publish.AttemptsOfRender | extension/popup.js:227-246 | reading the attempts back from the trace that records them gives the same attempts |
| Publish.RenderOfAttempts | extension/popup.js:227-246 | every paced trace is the record of the attempts read from it, so a paced trace is determined by its attempts |
| Publish.RenderPaced | extension/popup.js:227-246 | the record of any sequence of attempts is paced |
| Publish.PacedNeighbours | extension/popup.js:228-246 | in a paced trace every request is followed by its response or the catch, every response by the pause, and every pause follows a response |
| Publish.PacedAppend | extension/popup.js:227 | paced traces are closed under concatenation |
| Publish.TicketSegment | extension/popup.js:228-246 | one ticket contributes the paced segment of its attempt: its request when it is not `null`, one ok response exactly when its call succeeded, a non-ok response exactly when the call returned not ok, and the pause exactly when the fetch returned |
| Publish.RequestsAppend | extension/popup.js:227-240 | the requests of consecutive trace parts are the requests of each part, in order |
| Publish.OkResponsesAppend | extension/popup.js:242 | the ok responses of consecutive trace parts add up |
| Publish.OneRequestPerTicket | extension/popup.js:227-240 | when no ticket is `null`, exactly one request is sent per ticket, the `i`-th for the `i`-th ticket |
| Publish.CountOkBound | extension/popup.js:242-249 | the created count never exceeds the number of tickets |
| Publish.IssueShape | extension/popup.js:235-239 | each issue has the ticket's title, its description followed by the StoryScribe footer as body, and its type as the one label |
| License.Activate | extension/popup.js:52-71 | an empty trimmed key is ignored; the key is accepted and stored, making the popup licensed, exactly when its trimmed length exceeds 10; otherwise the state is unchanged |
| License.LicensedIff | extension/popup.js:52-71 | after any sequence of activations the popup is licensed exactly when it was before or some trimmed key was longer than 10 characters |
| ContentScript.OnMutations | extension/content.js:18-33 | a callback leaves the old buffer followed by the captured texts of all nodes its records added, record after record and node after node |
| ContentScript.Captured | extension/content.js:20-31 | what one record adds is no longer than its added nodes, and every added text is 11 to 499 characters long |
| ContentScript.CapturedSingle | extension/content.js:20-29 | one added node contributes its text exactly when it is an element whose text has an accepted length |
| ContentScript.CapturedAppend | extension/content.js:20-29 | nodes are handled in the order they were added: what `a` then `b` add is what `a` adds followed by what `b` adds |
| ContentScript.CapturedIff | extension/content.js:20-29 | a text is buffered from a record exactly when some added element node of accepted length has that text |
| ContentScript.UnbufferedIgnored | extension/content.js:19-31 | non-element nodes and texts of the wrong length never change the buffer |
| ContentScript.AppendOnly | extension/content.js:18-33 | the buffer after a batch is the old buffer followed by what the batch alone captures |
| ContentScript.AddedLengths | extension/content.js:24-28 | everything a batch appends is a text of accepted length, and the buffer never shrinks |
| ContentScript.BatchesCompose | extension/content.js:18-33 | handling two batches one after the other buffers the same as handling them as one batch |
| ContentScript.OnMessage | extension/content.js:47-51 | only a `getTranscript` request is answered; the answer is empty exactly when the buffer is empty or holds one empty text |
| ContentScript.TranscriptRoundTrip | extension/content.js:47-51 | splitting the answer on newlines gives back the buffered texts when none contains a newline |

## Left out

- The browser platform: tab queries, script injection, `chrome.storage`, `chrome.runtime` messaging and DOM rendering. Their inputs and results are parameters or are not modelled.
- The network. The chat-completion and GitHub calls are represented only by the request the handler builds and by the reply or outcome passed in.
- `JSON.parse` and `JSON.stringify`. Decoding is an arbitrary `Decoder` function. The request bodies are records, not serialised JSON, so `undefined` fields are kept as `Undefined`.
- A property whose JSON value is `null`, a number or a boolean is held as `Text` of its string form. So an `IssueRequest` title or label cannot tell it apart from a string, although `JSON.stringify` writes the two differently.
- Timing. The 300 ms `setTimeout` is a `Pause` event with no duration. The observer's `Date.now()` timestamps are dropped because only the texts are ever read back.
- Concurrency. Overlapping clicks and observer callbacks arriving while a handler awaits are not modelled; each handler runs to completion on its inputs.
- Lengths and slices count Unicode scalar values, not UTF-16 code units. Texts with characters outside the Basic Multilingual Plane have different lengths and `substring` cut points in JavaScript.
- `loadSettings`, the settings save handler, the tab switching, how `showStatus` displays and hides its message, and the button labels, are presentation and storage, so they are not modelled. `renderTickets` is modelled only by the exception it raises on a `null` element.
- The click handler around `captureTranscript` (it copies a truthy result into the text box) and the floating button of the content script are UI wiring, so they are not modelled.
- `extension/background.js` is not part of this model.
- Selector matching itself (`querySelectorAll`) and `innerText` are not modelled. Their results are given in the `Page` snapshot.
- Parsed elements that are numbers, strings or arrays are treated like records whose properties are all `undefined`.
- Properties whose value cannot be converted to a string. For a JSON object such as `{"toString": 0}`, the inherited `valueOf` is callable but returns the object itself, so string conversion falls through to the own `toString`. That `toString` is not callable, so the conversion throws. A `Field` is either `undefined` or text, so this case has no representation. In the source, such a `type` or `title` makes `renderTickets` throw (popup.js:206-207) and the handler report an error. Such a `description` makes building the issue body throw before `fetch` (popup.js:237), so that ticket ends in the catch with no request and no pause. The model reports `Found` and sends the request in those cases.
- Capture.CaptureWith: its own contract only says the result is the selector join or a short body prefix. Which of the two is chosen is stated by Capture.FirstMatchWins, Capture.SelectorTextEmptyIff and Capture.FallbackBound.
