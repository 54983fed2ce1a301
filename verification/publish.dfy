/**
 The "Push to GitHub" handler of the popup: one issue-creation call per
 ticket, in order, counting the calls that came back ok, with a fixed pause
 after every call that returned.
 */
module Publish {
  import opened JsText
  import opened Tickets
  import opened Seqs

  /** Appended to every issue body. */
  const Footer := "\n\n---\n*Created by StoryScribe*"

  /** The issue-creation call: the repository goes into the URL, the token
      into the Authorization header, and title, body and labels into the
      JSON body. An `Undefined` title or label is what `JSON.stringify`
      drops or writes as `null`. */
  datatype IssueRequest = IssueRequest(repo: string, token: string, title: Field, body: string, labels: seq<Field>)

  /** How one creation call ended: the response was ok, it came back with a
      non-ok status, or the fetch threw. */
  datatype CallOutcome = Ok | NotOk | Threw

  /** The observable steps of a push. `Pause` is the 300 ms wait; `Caught`
      is the catch block logging an exception. */
  datatype Event = Request(issue: IssueRequest) | Response(ok: bool) | Pause | Caught

  /** What the handler reports: either it stops because the settings are
      incomplete, or it reports `created` out of `total` issues, together with
      the trace of what it did. */
  datatype PushReport = NotConfigured | Pushed(created: nat, total: nat, trace: seq<Event>)

  /** The request built for a ticket that is not `null`. */
  function IssueFor(t: Ticket, repo: string, token: string): IssueRequest
    requires t.Ticket?
  {
    IssueRequest(repo, token, t.title, FieldString(t.description) + Footer, [t.kind])
  }

  /** The requests a push should send for the first `n` tickets: one per
      non-`null` ticket, in order. */
  function IssuesFor(tickets: seq<Ticket>, n: nat, repo: string, token: string): seq<IssueRequest>
    requires n <= |tickets|
  {
    if n == 0 then []
    else
      IssuesFor(tickets, n - 1, repo, token)
        + (if tickets[n - 1].Ticket? then [IssueFor(tickets[n - 1], repo, token)] else [])
  }

  /** The number of the first `n` tickets whose call came back ok. */
  function CountOk(tickets: seq<Ticket>, outcomes: seq<CallOutcome>, n: nat): nat
    requires n <= |tickets| == |outcomes|
  {
    if n == 0 then 0
    else CountOk(tickets, outcomes, n - 1) + (if tickets[n - 1].Ticket? && outcomes[n - 1] == Ok then 1 else 0)
  }

  /** The requests recorded in a trace, in order. */
  function Requests(trace: seq<Event>): seq<IssueRequest> {
    if trace == [] then []
    else
      var last := trace[|trace| - 1];
      Requests(trace[..|trace| - 1]) + (if last.Request? then [last.issue] else [])
  }

  /** The number of ok responses recorded in a trace. */
  function OkResponses(trace: seq<Event>): nat {
    if trace == [] then 0
    else OkResponses(trace[..|trace| - 1]) + (if trace[|trace| - 1] == Response(true) then 1 else 0)
  }

  /** The shape of a push trace: a run of per-ticket segments, each of them
      `[Caught]` (the request could not be built), `[Request, Caught]` (the
      fetch threw) or `[Request, Response, Pause]` (the fetch returned). */
  ghost predicate Paced(trace: seq<Event>)
    decreases |trace|
  {
    if trace == [] then true
    else if trace[0] == Caught then Paced(trace[1..])
    else if trace[0].Request? && |trace| >= 2 && trace[1] == Caught then Paced(trace[2..])
    else if trace[0].Request? && |trace| >= 3 && trace[1].Response? && trace[2] == Pause then Paced(trace[3..])
    else false
  }

  /** The length of the first segment of a non-empty paced trace. */
  function SegmentLength(trace: seq<Event>): (n: nat)
    requires trace != [] && Paced(trace)
    ensures 1 <= n <= 3 && n <= |trace| && Paced(trace[n..])
  {
    if trace[0] == Caught then 1 else if trace[1] == Caught then 2 else 3
  }

  /** How one ticket's turn of the loop ended, as read off a trace: the
      request could not be built, or it was sent with the given outcome. */
  datatype Attempt = Skipped | Sent(issue: IssueRequest, outcome: CallOutcome)

  /** The outcome a response with the given `ok` flag stands for. */
  function Answered(ok: bool): CallOutcome {
    if ok then Ok else NotOk
  }

  /** The attempts a trace records, one per segment, in order. Reading stops
      at the first event that does not start a segment. */
  function Attempts(trace: seq<Event>): seq<Attempt>
    decreases |trace|
  {
    if trace == [] then []
    else if trace[0] == Caught then [Skipped] + Attempts(trace[1..])
    else if trace[0].Request? && |trace| >= 2 && trace[1] == Caught then
      [Sent(trace[0].issue, Threw)] + Attempts(trace[2..])
    else if trace[0].Request? && |trace| >= 3 && trace[1].Response? && trace[2] == Pause then
      [Sent(trace[0].issue, Answered(trace[1].ok))] + Attempts(trace[3..])
    else []
  }

  /** Pacing, stated on neighbouring events: every request is followed by its
      response or by the catch block; every response, ok or not, is followed
      by the pause; and a pause comes only right after a response, never
      after a fetch that threw. */
  lemma {:induction false} PacedNeighbours(trace: seq<Event>)
    requires Paced(trace)
    ensures forall k :: 0 <= k < |trace| && trace[k].Request? ==>
      k + 1 < |trace| && (trace[k + 1].Response? || trace[k + 1] == Caught)
    ensures forall k :: 0 <= k < |trace| && trace[k].Response? ==>
      k + 1 < |trace| && trace[k + 1] == Pause
    ensures forall k :: 0 <= k < |trace| && trace[k] == Pause ==>
      0 < k && trace[k - 1].Response?
    decreases |trace|
  {
    if trace != [] {
      var n := SegmentLength(trace);
      var rest := trace[n..];
      PacedNeighbours(rest);
      forall k | n <= k < |trace|
        ensures trace[k] == rest[k - n]
      {
      }
    }
  }

  lemma RequestsAppend(a: seq<Event>, b: seq<Event>)
    ensures Requests(a + b) == Requests(a) + Requests(b)
    decreases |b|
  {
    if b != [] {
      var n := |b| - 1;
      assert (a + b)[..|a + b| - 1] == a + b[..n];
      RequestsAppend(a, b[..n]);
    } else {
      assert a + b == a;
    }
  }

  lemma OkResponsesAppend(a: seq<Event>, b: seq<Event>)
    ensures OkResponses(a + b) == OkResponses(a) + OkResponses(b)
    decreases |b|
  {
    if b != [] {
      var n := |b| - 1;
      assert (a + b)[..|a + b| - 1] == a + b[..n];
      OkResponsesAppend(a, b[..n]);
    } else {
      assert a + b == a;
    }
  }

  lemma RequestsAfter(a: seq<Event>, b: seq<Event>, before: seq<IssueRequest>)
    requires Requests(a) == before
    ensures Requests(a + b) == before + Requests(b)
  {
    RequestsAppend(a, b);
  }

  lemma OkResponsesAfter(a: seq<Event>, b: seq<Event>, before: nat)
    requires OkResponses(a) == before
    ensures OkResponses(a + b) == before + OkResponses(b)
  {
    OkResponsesAppend(a, b);
  }

  /** The events one ticket contributes. A `null` ticket throws while its
      request is being built, before any fetch; otherwise the request is sent
      and, unless the fetch throws, its response is followed by the pause. */
  function TicketEvents(t: Ticket, outcome: CallOutcome, repo: string, token: string): seq<Event> {
    if t.NullTicket? then [Caught]
    else
      var issue := IssueFor(t, repo, token);
      match outcome
      case Threw => [Request(issue), Caught]
      case Ok => [Request(issue), Response(true), Pause]
      case NotOk => [Request(issue), Response(false), Pause]
  }

  /** The attempt the loop makes for one ticket: none for `null`, and
      otherwise its request with the outcome of the fetch. */
  function AttemptFor(t: Ticket, outcome: CallOutcome, repo: string, token: string): Attempt {
    if t.NullTicket? then Skipped else Sent(IssueFor(t, repo, token), outcome)
  }

  /** The attempts the loop should make for the first `n` tickets, one per
      ticket, in order. */
  function AttemptsFor(tickets: seq<Ticket>, outcomes: seq<CallOutcome>, n: nat, repo: string, token: string): seq<Attempt>
    requires n <= |tickets| == |outcomes|
  {
    if n == 0 then []
    else AttemptsFor(tickets, outcomes, n - 1, repo, token) + [AttemptFor(tickets[n - 1], outcomes[n - 1], repo, token)]
  }

  /** The `i`-th expected attempt is the one for the `i`-th ticket and its
      outcome; there is exactly one per ticket. */
  lemma {:induction false} AttemptsForAt(tickets: seq<Ticket>, outcomes: seq<CallOutcome>, n: nat, repo: string, token: string)
    requires n <= |tickets| == |outcomes|
    ensures |AttemptsFor(tickets, outcomes, n, repo, token)| == n
    ensures forall i :: 0 <= i < n ==>
      AttemptsFor(tickets, outcomes, n, repo, token)[i] == AttemptFor(tickets[i], outcomes[i], repo, token)
  {
    if n > 0 {
      AttemptsForAt(tickets, outcomes, n - 1, repo, token);
    }
  }

  /** One ticket's events form one paced segment that records its attempt.
      It holds the ticket's request, if it has one, and one ok response
      exactly when the call succeeded. The pause is there exactly when the
      request was sent and the fetch returned, ok or not. */
  lemma TicketSegment(t: Ticket, outcome: CallOutcome, repo: string, token: string)
    ensures var es := TicketEvents(t, outcome, repo, token);
      && es == SegmentOf(AttemptFor(t, outcome, repo, token))
      && Paced(es)
      && Attempts(es) == [AttemptFor(t, outcome, repo, token)]
      && Requests(es) == (if t.Ticket? then [IssueFor(t, repo, token)] else [])
      && OkResponses(es) == (if t.Ticket? && outcome == Ok then 1 else 0)
      && (Pause in es <==> t.Ticket? && outcome != Threw)
      && (Response(false) in es <==> t.Ticket? && outcome == NotOk)
  {
    var es := TicketEvents(t, outcome, repo, token);
    assert es[|es|..] == [];
    assert Paced(es[|es|..]);
    assert Attempts(es[|es|..]) == [];
    if t.Ticket? {
      var sent := [Request(IssueFor(t, repo, token))];
      assert sent[..0] == [];
      assert es[..1] == sent;
      assert Requests(es[..1]) == Requests(sent) && OkResponses(es[..1]) == 0;
      if |es| == 3 {
        assert es[..2][..1] == sent;
        assert Requests(es[..2]) == Requests(sent);
        assert es[1..][1..] == es[2..];
      }
    }
  }

  /** Paced traces are closed under concatenation. */
  lemma {:induction false} PacedAppend(a: seq<Event>, b: seq<Event>)
    requires Paced(a) && Paced(b)
    ensures Paced(a + b)
    decreases |a|
  {
    if a == [] {
      assert a + b == b;
    } else {
      var n := SegmentLength(a);
      PacedAppend(a[n..], b);
      var c := a + b;
      DropConcat(a, b, n);
      assert c[..n] == a[..n];
      assert Paced(c[n..]);
    }
  }

  /** The events that record one attempt. */
  function SegmentOf(x: Attempt): seq<Event> {
    match x
    case Skipped => [Caught]
    case Sent(issue, Threw) => [Request(issue), Caught]
    case Sent(issue, outcome) => [Request(issue), Response(outcome == Ok), Pause]
  }

  /** The attempt the first segment of a non-empty paced trace records. */
  function FirstAttempt(trace: seq<Event>): Attempt
    requires trace != [] && Paced(trace)
  {
    if trace[0] == Caught then Skipped
    else if trace[1] == Caught then Sent(trace[0].issue, Threw)
    else Sent(trace[0].issue, Answered(trace[1].ok))
  }

  /** Reading a recorded attempt followed by anything gives that attempt
      first. */
  lemma AttemptsCons(x: Attempt, rest: seq<Event>)
    ensures Attempts(SegmentOf(x) + rest) == [x] + Attempts(rest)
  {
    var c := SegmentOf(x) + rest;
    DropConcat(SegmentOf(x), rest, |SegmentOf(x)|);
    assert c[|SegmentOf(x)|..] == rest;
  }

  /** A non-empty paced trace is its first attempt's segment followed by a
      paced remainder. */
  lemma SegmentSplit(trace: seq<Event>)
    requires trace != [] && Paced(trace)
    ensures var n := SegmentLength(trace);
      && trace == SegmentOf(FirstAttempt(trace)) + trace[n..]
      && Attempts(trace) == [FirstAttempt(trace)] + Attempts(trace[n..])
  {
    var n := SegmentLength(trace);
    assert trace == trace[..n] + trace[n..];
    assert trace[..n] == SegmentOf(FirstAttempt(trace));
    AttemptsCons(FirstAttempt(trace), trace[n..]);
  }

  /** The trace that records `xs`: their segments, in order. */
  function Render(xs: seq<Attempt>): seq<Event> {
    if xs == [] then [] else SegmentOf(xs[0]) + Render(xs[1..])
  }

  lemma {:induction false} RenderAppend(xs: seq<Attempt>, x: Attempt)
    ensures Render(xs + [x]) == Render(xs) + SegmentOf(x)
  {
    if xs == [] {
      assert [x][1..] == [];
      assert Render([x]) == SegmentOf(x) + [];
    } else {
      var ys := xs + [x];
      assert ys[0] == xs[0] && ys[1..] == xs[1..] + [x];
      RenderAppend(xs[1..], x);
      assert Render(ys) == SegmentOf(xs[0]) + (Render(xs[1..]) + SegmentOf(x));
      Associative(SegmentOf(xs[0]), Render(xs[1..]), SegmentOf(x));
    }
  }

  /** Prefixing a segment keeps a trace paced. */
  lemma PacedCons(x: Attempt, rest: seq<Event>)
    requires Paced(rest)
    ensures Paced(SegmentOf(x) + rest)
  {
    var c := SegmentOf(x) + rest;
    DropConcat(SegmentOf(x), rest, |SegmentOf(x)|);
    assert c[|SegmentOf(x)|..] == rest;
  }

  /** The trace recording any attempts is paced. */
  lemma {:induction false} RenderPaced(xs: seq<Attempt>)
    ensures Paced(Render(xs))
  {
    if xs != [] {
      RenderPaced(xs[1..]);
      PacedCons(xs[0], Render(xs[1..]));
    }
  }

  /** Reading the attempts back from the trace that records them gives the
      same attempts. */
  lemma {:induction false} AttemptsOfRender(xs: seq<Attempt>)
    ensures Attempts(Render(xs)) == xs
  {
    if xs != [] {
      AttemptsOfRender(xs[1..]);
      AttemptsCons(xs[0], Render(xs[1..]));
      assert xs == [xs[0]] + xs[1..];
    }
  }

  /** Every paced trace is the record of the attempts read from it. So a
      paced trace is determined by its attempts: a pause follows exactly the
      calls whose fetch returned, and none follows a fetch that threw. */
  lemma {:induction false} RenderOfAttempts(trace: seq<Event>)
    requires Paced(trace)
    ensures Render(Attempts(trace)) == trace
    decreases |trace|
  {
    if trace != [] {
      var n := SegmentLength(trace);
      SegmentSplit(trace);
      RenderOfAttempts(trace[n..]);
      var xs := Attempts(trace);
      assert xs[0] == FirstAttempt(trace) && xs[1..] == Attempts(trace[n..]);
    }
  }

  /** One more turn of the loop sends the next ticket's request, if any. */
  lemma RequestsStep(tickets: seq<Ticket>, outcomes: seq<CallOutcome>, i: nat, repo: string, token: string, trace: seq<Event>)
    requires i < |tickets| == |outcomes|
    requires Requests(trace) == IssuesFor(tickets, i, repo, token)
    ensures Requests(trace + TicketEvents(tickets[i], outcomes[i], repo, token))
      == IssuesFor(tickets, i + 1, repo, token)
  {
    TicketSegment(tickets[i], outcomes[i], repo, token);
    RequestsAfter(trace, TicketEvents(tickets[i], outcomes[i], repo, token), IssuesFor(tickets, i, repo, token));
  }

  /** One more turn of the loop records an ok response exactly when the
      next ticket's call succeeds. */
  lemma OkResponsesStep(tickets: seq<Ticket>, outcomes: seq<CallOutcome>, i: nat, repo: string, token: string, trace: seq<Event>)
    requires i < |tickets| == |outcomes|
    requires OkResponses(trace) == CountOk(tickets, outcomes, i)
    ensures OkResponses(trace + TicketEvents(tickets[i], outcomes[i], repo, token))
      == CountOk(tickets, outcomes, i + 1)
  {
    TicketSegment(tickets[i], outcomes[i], repo, token);
    OkResponsesAfter(trace, TicketEvents(tickets[i], outcomes[i], repo, token), CountOk(tickets, outcomes, i));
  }

  /** One more turn of the loop records one more attempt. */
  lemma RecordStep(tickets: seq<Ticket>, outcomes: seq<CallOutcome>, i: nat, repo: string, token: string, trace: seq<Event>)
    requires i < |tickets| == |outcomes|
    requires trace == Render(AttemptsFor(tickets, outcomes, i, repo, token))
    ensures trace + TicketEvents(tickets[i], outcomes[i], repo, token)
      == Render(AttemptsFor(tickets, outcomes, i + 1, repo, token))
  {
    var x := AttemptFor(tickets[i], outcomes[i], repo, token);
    TicketSegment(tickets[i], outcomes[i], repo, token);
    assert AttemptsFor(tickets, outcomes, i + 1, repo, token) == AttemptsFor(tickets, outcomes, i, repo, token) + [x];
    RenderAppend(AttemptsFor(tickets, outcomes, i, repo, token), x);
  }

  /** The trace of the attempts for the first `n` tickets sends exactly the
      requests `IssuesFor` lists and holds one ok response per creation call
      that succeeded. */
  lemma RenderedTrace(tickets: seq<Ticket>, outcomes: seq<CallOutcome>, n: nat, repo: string, token: string)
    requires n <= |tickets| == |outcomes|
    ensures Requests(Render(AttemptsFor(tickets, outcomes, n, repo, token))) == IssuesFor(tickets, n, repo, token)
    ensures OkResponses(Render(AttemptsFor(tickets, outcomes, n, repo, token))) == CountOk(tickets, outcomes, n)
  {
    var trace: seq<Event> := [];
    var i := 0;
    while i < n
      invariant 0 <= i <= n
      invariant trace == Render(AttemptsFor(tickets, outcomes, i, repo, token))
      invariant Requests(trace) == IssuesFor(tickets, i, repo, token)
      invariant OkResponses(trace) == CountOk(tickets, outcomes, i)
    {
      RequestsStep(tickets, outcomes, i, repo, token, trace);
      OkResponsesStep(tickets, outcomes, i, repo, token, trace);
      RecordStep(tickets, outcomes, i, repo, token, trace);
      trace := trace + TicketEvents(tickets[i], outcomes[i], repo, token);
      i := i + 1;
    }
  }

  /** The `for` loop of the push handler: one creation call per ticket,
      in order, counting the calls that came back ok. A failing or throwing
      call never stops the loop. The trace it leaves records, segment by
      segment, the attempt `AttemptFor` expects for each ticket: so it is
      paced (`RenderPaced`), reads back as those attempts (`AttemptsOfRender`),
      sends exactly the requests `IssuesFor` lists and holds one ok response
      per created issue (`RenderedTrace`). */
  method PushAll(tickets: seq<Ticket>, outcomes: seq<CallOutcome>, repo: string, token: string)
    returns (created: nat, trace: seq<Event>)
    requires |outcomes| == |tickets|
    ensures created == CountOk(tickets, outcomes, |tickets|)
    ensures trace == Render(AttemptsFor(tickets, outcomes, |tickets|, repo, token))
  {
    created := 0;
    trace := [];
    var i := 0;
    while i < |tickets|
      invariant 0 <= i <= |tickets|
      invariant created == CountOk(tickets, outcomes, i)
      invariant trace == Render(AttemptsFor(tickets, outcomes, i, repo, token))
    {
      RecordStep(tickets, outcomes, i, repo, token, trace);
      // `if (response.ok) created++` for a ticket whose request was sent
      created := created + (if tickets[i].Ticket? && outcomes[i] == Ok then 1 else 0);
      trace := trace + TicketEvents(tickets[i], outcomes[i], repo, token);
      i := i + 1;
    }
  }

  /** The push handler once the settings are read: `token` and `repo` are
      the trimmed field values and `outcomes[i]` is how the creation call for
      `tickets[i]` ends, if it is made. Without a token or a repository
      nothing is sent; otherwise the created count is the number of ok calls
      and the trace records one attempt per ticket: skipped for `null`, and
      otherwise sent and, unless the fetch threw, answered and paused. */
  method PushWith(token: string, repo: string, tickets: seq<Ticket>, outcomes: seq<CallOutcome>)
    returns (report: PushReport)
    requires |outcomes| == |tickets|
    ensures report.NotConfigured? <==> token == [] || repo == []
    ensures report.Pushed? ==> report.total == |tickets|
    ensures report.Pushed? ==> report.created == CountOk(tickets, outcomes, |tickets|)
    ensures report.Pushed? ==> report.trace == Render(AttemptsFor(tickets, outcomes, |tickets|, repo, token))
  {
    if token == [] || repo == [] {
      return NotConfigured;
    }
    var created, trace := PushAll(tickets, outcomes, repo, token);
    report := Pushed(created, |tickets|, trace);
  }

  /** The push handler on the raw settings fields, which it trims first;
      `token` and `repo` are the trimmed values it goes on with. When it
      pushes, the trace is the record of each ticket's expected attempt;
      it is paced, sends exactly the requests `IssuesFor` lists, in order,
      and records one ok response per created issue. */
  method Push(tokenField: string, repoField: string, tickets: seq<Ticket>, outcomes: seq<CallOutcome>)
    returns (token: string, repo: string, report: PushReport)
    requires |outcomes| == |tickets|
    ensures token == Trim(tokenField) && repo == Trim(repoField)
    ensures report.NotConfigured? <==> token == [] || repo == []
    ensures report.Pushed? ==> report.total == |tickets|
    ensures report.Pushed? ==> report.created == CountOk(tickets, outcomes, |tickets|)
    ensures report.Pushed? ==> report.created == OkResponses(report.trace)
    ensures report.Pushed? ==> Requests(report.trace) == IssuesFor(tickets, |tickets|, repo, token)
    ensures report.Pushed? ==> Paced(report.trace)
    ensures report.Pushed? ==> report.trace == Render(AttemptsFor(tickets, outcomes, |tickets|, repo, token))
  {
    token := Trim(tokenField);
    repo := Trim(repoField);
    report := PushWith(token, repo, tickets, outcomes);
    if report.Pushed? {
      RenderedTrace(tickets, outcomes, |tickets|, repo, token);
      RenderPaced(AttemptsFor(tickets, outcomes, |tickets|, repo, token));
    }
  }

  /** When every element is a record, exactly one request is sent per
      ticket, the `i`-th for the `i`-th ticket. */
  lemma {:induction false} OneRequestPerTicket(tickets: seq<Ticket>, n: nat, repo: string, token: string)
    requires n <= |tickets|
    requires forall i :: 0 <= i < n ==> tickets[i].Ticket?
    ensures |IssuesFor(tickets, n, repo, token)| == n
    ensures forall i :: 0 <= i < n ==> IssuesFor(tickets, n, repo, token)[i] == IssueFor(tickets[i], repo, token)
  {
    if n > 0 {
      OneRequestPerTicket(tickets, n - 1, repo, token);
    }
  }

  /** The created count never exceeds the number of tickets. */
  lemma {:induction false} CountOkBound(tickets: seq<Ticket>, outcomes: seq<CallOutcome>, n: nat)
    requires n <= |tickets| == |outcomes|
    ensures CountOk(tickets, outcomes, n) <= n
  {
    if n > 0 {
      CountOkBound(tickets, outcomes, n - 1);
    }
  }

  /** Every issue body is the ticket's description followed by the footer,
      and every issue carries the ticket's type as its one label. */
  lemma IssueShape(t: Ticket, repo: string, token: string)
    requires t.Ticket?
    ensures var issue := IssueFor(t, repo, token);
      && issue.body[..|issue.body| - |Footer|] == FieldString(t.description)
      && issue.body[|issue.body| - |Footer|..] == Footer
      && issue.labels == [t.kind]
      && issue.title == t.title
  {
  }
}
