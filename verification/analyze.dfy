/**
 The "Analyze Transcript" handler of the popup: the input guards, the chat
 completion request it builds, the extraction of the JSON array from the
 model's reply, and the rule for when the kept ticket list is replaced.
 */
module Analyze {
  import opened Wrappers
  import opened JsText
  import opened Tickets

  const ChatModel := "gpt-4o-mini"
  const Temperature: real := 0.3

  /** The system message sent with every request. */
  const Instruction :=
    "Extract actionable tickets from meeting transcripts. For each item:\n"
    + "- type: \"bug\", \"story\", or \"task\"\n"
    + "- title: Clear, concise title\n"
    + "- description: Detailed description\n"
    + "Return JSON array only: [{\"type\":\"bug\",\"title\":\"...\",\"description\":\"...\"}]"

  /** The chat completion request: the bearer key goes in the Authorization
      header, the rest in the JSON body. */
  datatype ChatRequest = ChatRequest(
    apiKey: string,
    model: string,
    temperature: real,
    system: string,
    user: string)

  /** What came back from the completion call, as far as the handler looks
      at it. `Unreachable` stands for every exception raised before the
      `error` property is read (the fetch rejected, or the body was not JSON
      or was JSON `null`). Otherwise `error` holds the message of a truthy `error`
      property, and `content` the string at `choices[0].message.content`
      (`None` when that path is missing or is not a string, so that reading
      it or calling `match` on it throws). */
  datatype ChatReply =
    | Unreachable
    | Reply(error: Option<string>, content: Option<string>)

  /** Why the handler ended in its catch block. */
  datatype Failure = Transport | ApiError(message: string) | MissingContent | BadJson | RenderFailed

  /** The status line the handler leaves behind. `Silent` is the path where
      the reply holds no bracketed text: no message at all is shown. */
  datatype Status =
    | AskForTranscript
    | AskForApiKey
    | Found(count: nat)
    | Failed(reason: Failure)
    | Silent

  /** One run of the handler: the request it sent (if any), the ticket list
      it leaves, and its status. */
  datatype Analysis = Analysis(request: Option<ChatRequest>, tickets: seq<Ticket>, status: Status)

  function BuildRequest(transcript: string, apiKey: string): ChatRequest {
    ChatRequest(apiKey, ChatModel, Temperature, Instruction, transcript)
  }

  /** A match of `/\[[\s\S]*\]/` could start at `i` and end at `k`. */
  ghost predicate IsMatchAt(s: string, i: int, k: int) {
    0 <= i < k < |s| && s[i] == '[' && s[k] == ']'
  }

  /** `(i, k)` is the match JavaScript's `String.prototype.match` reports: the
      leftmost start that has any match, and there the longest match, because
      `[\s\S]*` is greedy and backtracks only as far as needed. */
  ghost predicate LeftmostLongest(s: string, i: int, k: int) {
    && IsMatchAt(s, i, k)
    && (forall i', k' :: IsMatchAt(s, i', k') ==> i <= i')
    && (forall k' :: IsMatchAt(s, i, k') ==> k' <= k)
  }

  /** A pair of positions: the first and last characters of the match. */
  datatype Span = Span(start: nat, end: nat)

  /** The span of the match, found as the first `[` and the last `]`. */
  function ArraySpan(s: string): (r: Option<Span>)
    ensures r.Some? ==> LeftmostLongest(s, r.value.start, r.value.end)
    ensures r.None? ==> forall i, k :: !IsMatchAt(s, i, k)
  {
    match (IndexOf(s, '['), LastIndexOf(s, ']'))
    case (Some(i), Some(k)) => if i < k then Some(Span(i, k)) else None
    case _ => None
  }

  /** `content.match(/\[[\s\S]*\]/)[0]`: the text from the first `[` to the
      last `]`, both included, or `None` when no `[` comes before a `]`. */
  function ExtractArray(s: string): (r: Option<string>)
    ensures r.Some? <==> exists i, k :: IsMatchAt(s, i, k)
    ensures r.Some? ==> exists i, k :: LeftmostLongest(s, i, k) && r.value == s[i..k + 1]
    ensures r.Some? ==> |r.value| >= 2 && r.value[0] == '[' && r.value[|r.value| - 1] == ']'
  {
    match ArraySpan(s)
    case None => None
    case Some(span) =>
      assert LeftmostLongest(s, span.start, span.end);
      Some(s[span.start..span.end + 1])
  }

  /** The match is determined by the text alone: two spans that both meet
      the leftmost-longest description are the same span. */
  lemma MatchUnique(s: string, i: int, k: int, i': int, k': int)
    requires LeftmostLongest(s, i, k) && LeftmostLongest(s, i', k')
    ensures i == i' && k == k'
  {
    assert i <= i' && i' <= i;
  }

  /** The reply carries no error and a content string whose bracketed text
      decodes to `parsed`. */
  ghost predicate Decodes(reply: ChatReply, decode: Decoder, parsed: seq<Ticket>) {
    && reply.Reply? && reply.error.None? && reply.content.Some?
    && ExtractArray(reply.content.value).Some?
    && decode(ExtractArray(reply.content.value).value) == Some(parsed)
  }

  /** What the handler does with a reply once the request has been sent:
      the list is replaced by the decoded array when there is one and kept
      otherwise; a replaced list is reported as `Found` exactly when it holds
      no `null` element, whose rendering throws. */
  function ApplyReply(current: seq<Ticket>, reply: ChatReply, decode: Decoder): (r: (seq<Ticket>, Status))
    ensures forall parsed :: Decodes(reply, decode, parsed) ==> r.0 == parsed
    ensures r.0 == current || Decodes(reply, decode, r.0)
    ensures r.1.Found? || r.1 == Failed(RenderFailed) <==> Decodes(reply, decode, r.0)
    ensures r.1.Found? ==> r.1.count == |r.0| && NullTicket !in r.0
    ensures Decodes(reply, decode, r.0) && NullTicket !in r.0 ==> r.1 == Found(|r.0|)
    ensures Decodes(reply, decode, r.0) && NullTicket in r.0 ==> r.1 == Failed(RenderFailed)
  {
    match reply
    case Unreachable => (current, Failed(Transport))
    case Reply(Some(message), _) => (current, Failed(ApiError(message)))
    case Reply(None, None) => (current, Failed(MissingContent))
    case Reply(None, Some(content)) =>
      match ExtractArray(content)
      case None => (current, Silent)
      case Some(text) =>
        match decode(text)
        case None => (current, Failed(BadJson))
        case Some(parsed) =>
          // `renderTickets` reads `t.type` of every element after the
          // assignment, so a `null` element throws with the list replaced.
          (parsed, if NullTicket in parsed then Failed(RenderFailed) else Found(|parsed|))
  }

  /** The click handler. `transcriptField` and `keyField` are the raw input
      values, `current` the ticket list before the click, `reply` the
      service's answer (consulted only if a request is sent) and `decode`
      stands for `JSON.parse`. */
  function AnalyzeClick(current: seq<Ticket>, transcriptField: string, keyField: string,
                        reply: ChatReply, decode: Decoder): (a: Analysis)
    ensures Trim(transcriptField) == [] ==>
      a == Analysis(None, current, AskForTranscript)
    ensures Trim(transcriptField) != [] && Trim(keyField) == [] ==>
      a == Analysis(None, current, AskForApiKey)
    ensures a.request.Some? <==> Trim(transcriptField) != [] && Trim(keyField) != []
    ensures a.request.Some? ==>
      && a.request.value.user == Trim(transcriptField)
      && a.request.value.apiKey == Trim(keyField)
      && a.request.value.model == ChatModel
      && a.request.value.temperature == Temperature
      && a.request.value.system == Instruction
    ensures a.tickets == current || (a.request.Some? && Decodes(reply, decode, a.tickets))
    ensures forall parsed :: a.request.Some? && Decodes(reply, decode, parsed) ==> a.tickets == parsed
    ensures a.status.Found? ==> a.status.count == |a.tickets| && NullTicket !in a.tickets
  {
    var transcript := Trim(transcriptField);
    var key := Trim(keyField);
    if transcript == [] then
      Analysis(None, current, AskForTranscript)
    else if key == [] then
      Analysis(None, current, AskForApiKey)
    else
      var (tickets, status) := ApplyReply(current, reply, decode);
      Analysis(Some(BuildRequest(transcript, key)), tickets, status)
  }

  /** Tickets are kept on failure: unless a request went out and the reply
      decoded, the list after the click is the list before it, and the status
      is not `Found`. */
  lemma KeptOnFailure(current: seq<Ticket>, transcriptField: string, keyField: string,
                      reply: ChatReply, decode: Decoder)
    requires forall parsed :: !Decodes(reply, decode, parsed)
    ensures var a := AnalyzeClick(current, transcriptField, keyField, reply, decode);
      a.tickets == current && !a.status.Found?
  {
  }

  /** A reply without an error whose content holds no bracketed text leaves
      the ticket list alone. */
  lemma NoArrayNoChange(current: seq<Ticket>, transcriptField: string, keyField: string,
                        content: string, decode: Decoder)
    requires forall i, k :: !IsMatchAt(content, i, k)
    ensures AnalyzeClick(current, transcriptField, keyField, Reply(None, Some(content)), decode).tickets == current
  {
  }
}
