/**
 `captureTranscript` in the extension popup: the script injected into the
 meeting page that looks for caption or chat elements of known platforms and
 otherwise falls back to the beginning of the page's visible text.
 */
module Capture {
  import opened Wrappers
  import opened JsText

  /** The platform selectors, tried in this order: two for Teams, two for
      Zoom, two for Meet. */
  const Selectors: seq<string> := [
    "[data-tid=\"closed-caption-text\"]",
    ".ui-chat__message__content",
    ".transcript-message",
    ".meeting-chat-message",
    ".iOzk7",
    ".CNusmb"
  ]

  /** The fallback is used only for a body longer than this many characters. */
  const FallbackMinLength := 100

  /** The fallback keeps at most this many leading characters of the body. */
  const FallbackMaxLength := 5000

  /** A snapshot of the page. `matches` gives, per selector, the text content
      of every element `querySelectorAll` returns, in document order; a
      selector that is not a key matches nothing. `body` is the body's
      visible text. */
  datatype Page = Page(matches: map<string, seq<string>>, body: string)

  function Query(page: Page, selector: string): seq<string> {
    if selector in page.matches then page.matches[selector] else []
  }

  /** The position of the first selector in `sels`, at or after `from`, that
      matches at least one element; `None` when none of them does. */
  function FirstMatch(sels: seq<string>, page: Page, from: nat): (r: Option<nat>)
    requires from <= |sels|
    ensures r.Some? ==> from <= r.value < |sels| && Query(page, sels[r.value]) != []
    ensures r.Some? ==> forall j :: from <= j < r.value ==> Query(page, sels[j]) == []
    ensures r.None? ==> forall j :: from <= j < |sels| ==> Query(page, sels[j]) == []
    decreases |sels| - from
  {
    if from == |sels| then None
    else if Query(page, sels[from]) != [] then Some(from)
    else FirstMatch(sels, page, from + 1)
  }

  /** The loop over the selectors: the texts of the first matching selector
      joined by newlines, or `""` when no selector matches. */
  function SelectorText(sels: seq<string>, page: Page): string {
    match FirstMatch(sels, page, 0)
    case None => ""
    case Some(i) => Join(Query(page, sels[i]))
  }

  /** The fallback: the first 5000 characters of a body longer than 100
      characters, and nothing otherwise. */
  function Fallback(body: string): (r: string)
    ensures r <= body && |r| <= FallbackMaxLength
    ensures r != "" <==> |body| > FallbackMinLength
    ensures |body| > FallbackMinLength ==> |r| == Min(|body|, FallbackMaxLength)
  {
    if |body| > FallbackMinLength then body[..Min(|body|, FallbackMaxLength)] else ""
  }

  function Min(a: int, b: int): int {
    if a <= b then a else b
  }

  /** Capture with an arbitrary ordered selector list. The fallback is taken
      whenever the selector loop produced the empty string, which the source
      tests as `!transcript`. */
  function CaptureWith(sels: seq<string>, page: Page): (r: string)
    ensures r == SelectorText(sels, page) || (r <= page.body && |r| <= FallbackMaxLength)
  {
    var text := SelectorText(sels, page);
    if text != "" then text else Fallback(page.body)
  }

  /** `captureTranscript()` on a page: the texts of the first of the six
      platform selectors that matches, joined by newlines, unless they join
      to `""`; in that case (a lone empty match), and when nothing matches,
      the start of a long enough body. */
  function CaptureTranscript(page: Page): (r: string)
    ensures forall i ::
      (&& 0 <= i < |Selectors| && Query(page, Selectors[i]) != []
       && (forall j :: 0 <= j < i ==> Query(page, Selectors[j]) == [])
       && Join(Query(page, Selectors[i])) != "")
      ==> r == Join(Query(page, Selectors[i]))
    ensures (forall j :: 0 <= j < |Selectors| ==> Query(page, Selectors[j]) == []) ==> r == Fallback(page.body)
    ensures SelectorText(Selectors, page) == "" ==> r == Fallback(page.body)
    ensures r == "" ==> |page.body| <= FallbackMinLength
  {
    CaptureWith(Selectors, page)
  }

  /** First match wins: when selector `i` is the first one with any match
      and its texts do not join to `""`, the capture is exactly those texts
      joined by newlines, in document order. */
  lemma FirstMatchWins(sels: seq<string>, page: Page, i: nat)
    requires i < |sels| && Query(page, sels[i]) != []
    requires forall j :: 0 <= j < i ==> Query(page, sels[j]) == []
    requires Join(Query(page, sels[i])) != ""
    ensures CaptureWith(sels, page) == Join(Query(page, sels[i]))
  {
    var m := FirstMatch(sels, page, 0);
    assert m.Some?;
    assert m.value == i;
  }

  /** No later selector is consulted: two pages that agree on the body and on
      every selector up to and including the first one that matches give the
      same capture, whatever the later selectors would match. */
  lemma LaterSelectorsIgnored(sels: seq<string>, p: Page, q: Page, i: nat)
    requires i < |sels| && Query(p, sels[i]) != []
    requires forall j :: 0 <= j < i ==> Query(p, sels[j]) == []
    requires forall j :: 0 <= j <= i ==> Query(q, sels[j]) == Query(p, sels[j])
    requires q.body == p.body
    ensures CaptureWith(sels, q) == CaptureWith(sels, p)
  {
    var mp := FirstMatch(sels, p, 0);
    var mq := FirstMatch(sels, q, 0);
    assert mp.Some? && mp.value == i;
    assert Query(q, sels[i]) != [];
    assert mq.Some? && mq.value == i;
  }

  /** The selector loop yields `""` exactly when no selector matches or the
      first matching selector matches a single element whose text is empty.
      The second case is why a lone empty caption element still sends the
      capture to the fallback. */
  lemma SelectorTextEmptyIff(sels: seq<string>, page: Page)
    ensures SelectorText(sels, page) == "" <==>
      (forall j :: 0 <= j < |sels| ==> Query(page, sels[j]) == [])
      || (exists i :: 0 <= i < |sels| && Query(page, sels[i]) == [""]
            && forall j :: 0 <= j < i ==> Query(page, sels[j]) == [])
  {
    match FirstMatch(sels, page, 0)
    case None =>
    case Some(i) =>
      JoinEmptyIff(Query(page, sels[i]));
      if Query(page, sels[i]) != [""] {
        forall i' | 0 <= i' < |sels| && Query(page, sels[i']) == [""]
          ensures exists j :: 0 <= j < i' && Query(page, sels[j]) != []
        {
          assert Query(page, sels[i']) != [];
        }
      }
  }

  /** Fallback bound: whenever the selector loop yields `""`, the capture is
      the first 5000 characters of a body longer than 100 characters and
      `""` otherwise, so it is always a prefix of the body of at most 5000
      characters. */
  lemma FallbackBound(sels: seq<string>, page: Page)
    requires SelectorText(sels, page) == ""
    ensures var r := CaptureWith(sels, page);
      && r <= page.body && |r| <= FallbackMaxLength
      && (|page.body| > FallbackMinLength ==> |r| == Min(|page.body|, FallbackMaxLength))
      && (|page.body| <= FallbackMinLength ==> r == "")
  {
  }

  /** A page with no selector match and a long enough body captures the
      start of the body; a single empty match behaves the same way. */
  lemma EmptyMatchFallsBack(sels: seq<string>, page: Page, i: nat)
    requires i < |sels| && Query(page, sels[i]) == [""]
    requires forall j :: 0 <= j < i ==> Query(page, sels[j]) == []
    requires |page.body| > FallbackMinLength
    ensures CaptureWith(sels, page) == page.body[..Min(|page.body|, FallbackMaxLength)]
  {
    var m := FirstMatch(sels, page, 0);
    assert m.Some? && m.value == i;
    assert Join([""]) == "";
  }
}
