/**
 String operations over `string` (a sequence of Unicode scalar values):
 JavaScript's `trim` and `Array.prototype.join('\n')`, which the extension
 calls; `IndexOf` and `LastIndexOf`, which compute the match of the
 bracket regular expression; and a `split('\n')` that serves as the
 inverse of the join when stating its round trip.
 */
module JsText {
  import opened Wrappers

  /** The characters `String.prototype.trim` strips: the WhiteSpace and
      LineTerminator code points of ECMA-262 (sections 12.2 and 12.3), that
      is tab, line feed, vertical tab, form feed, carriage return, the space
      separators, the line and paragraph separators and the byte order mark. */
  predicate IsSpace(c: char) {
    || '\t' <= c <= '\r'
    || c == ' ' || c == '\U{A0}' || c == '\U{1680}'
    || '\U{2000}' <= c <= '\U{200A}'
    || c == '\U{2028}' || c == '\U{2029}' || c == '\U{202F}'
    || c == '\U{205F}' || c == '\U{3000}' || c == '\U{FEFF}'
  }

  /** Every character of `s` from position `lo` up to (excluding) `hi` is
      whitespace. */
  predicate SpaceBetween(s: string, lo: nat, hi: nat)
    requires lo <= hi <= |s|
  {
    forall k :: lo <= k < hi ==> IsSpace(s[k])
  }

  predicate AllSpace(s: string) {
    SpaceBetween(s, 0, |s|)
  }

  /** The first position at or after `i` that does not hold whitespace, or
      `|s|` when there is none. */
  function SkipSpace(s: string, i: nat): nat
    requires i <= |s|
    decreases |s| - i
  {
    if i < |s| && IsSpace(s[i]) then SkipSpace(s, i + 1) else i
  }

  /** The position just after the last non-whitespace character before `j`
      and not before `lo`, or `lo` when there is none. */
  function SkipSpaceBack(s: string, lo: nat, j: nat): nat
    requires lo <= j <= |s|
    decreases j
  {
    if lo < j && IsSpace(s[j - 1]) then SkipSpaceBack(s, lo, j - 1) else j
  }

  /** `String.prototype.trim`: `s` with the whitespace at both ends removed. */
  function Trim(s: string): string {
    SkipSpaceForward(s, 0);
    var i := SkipSpace(s, 0);
    SkipSpaceBackward(s, i, |s|);
    s[i..SkipSpaceBack(s, i, |s|)]
  }

  lemma {:induction false} SkipSpaceForward(s: string, i: nat)
    requires i <= |s|
    ensures var r := SkipSpace(s, i);
      && i <= r <= |s|
      && SpaceBetween(s, i, r)
      && (r < |s| ==> !IsSpace(s[r]))
    decreases |s| - i
  {
    if i < |s| && IsSpace(s[i]) {
      SkipSpaceForward(s, i + 1);
    }
  }

  lemma {:induction false} SkipSpaceBackward(s: string, lo: nat, j: nat)
    requires lo <= j <= |s|
    ensures var r := SkipSpaceBack(s, lo, j);
      && lo <= r <= j
      && SpaceBetween(s, r, j)
      && (lo < r ==> !IsSpace(s[r - 1]))
    decreases j
  {
    if lo < j && IsSpace(s[j - 1]) {
      SkipSpaceBackward(s, lo, j - 1);
    }
  }

  /** What `Trim` keeps is a slice `s[i..j]` of `s` with only whitespace
      before and after it, and it neither starts nor ends with whitespace. */
  lemma TrimFrame(s: string)
    ensures exists i, j ::
              && 0 <= i <= j <= |s| && Trim(s) == s[i..j]
              && SpaceBetween(s, 0, i) && SpaceBetween(s, j, |s|)
              && (i < j ==> !IsSpace(s[i]) && !IsSpace(s[j - 1]))
  {
    SkipSpaceForward(s, 0);
    var i := SkipSpace(s, 0);
    SkipSpaceBackward(s, i, |s|);
    var j := SkipSpaceBack(s, i, |s|);
    assert Trim(s) == s[i..j];
    assert i < j ==> !IsSpace(s[i]);
  }

  /** Any slice of `s` that is framed by whitespace and neither starts nor
      ends with whitespace is what `Trim` returns: `trim` is determined by
      this description alone. */
  lemma TrimUnique(s: string, i: nat, j: nat)
    requires i <= j <= |s|
    requires SpaceBetween(s, 0, i) && SpaceBetween(s, j, |s|)
    requires i < j ==> !IsSpace(s[i]) && !IsSpace(s[j - 1])
    ensures Trim(s) == s[i..j]
  {
    SkipSpaceForward(s, 0);
    var a := SkipSpace(s, 0);
    SkipSpaceBackward(s, a, |s|);
    var b := SkipSpaceBack(s, a, |s|);
    if i < j {
      // a is the first non-space position, as is i; b - 1 the last, as is j - 1.
      assert a <= i;
      assert a == i;
      assert j <= b;
      assert b == j;
    } else {
      assert a == b;
    }
  }

  /** Trimming leaves nothing exactly when the whole string is whitespace. */
  lemma TrimEmptyIff(s: string)
    ensures Trim(s) == [] <==> AllSpace(s)
  {
    SkipSpaceForward(s, 0);
    var a := SkipSpace(s, 0);
    SkipSpaceBackward(s, a, |s|);
    if AllSpace(s) {
      assert a == |s|;
    } else {
      assert a < |s|;
    }
  }

  /** Trimming twice is the same as trimming once. */
  lemma TrimIdempotent(s: string)
    ensures Trim(Trim(s)) == Trim(s)
  {
    TrimFrame(s);
    var r := Trim(s);
    TrimUnique(r, 0, |r|);
  }

  /** `s.indexOf(c)`: the first position holding `c`, or `None` (JavaScript's
      `-1`) when `c` does not occur. */
  function IndexOf(s: string, c: char): (r: Option<nat>)
    ensures r.Some? ==> r.value < |s| && s[r.value] == c
    ensures r.Some? ==> forall p :: 0 <= p < r.value ==> s[p] != c
    ensures r.None? <==> c !in s
  {
    if |s| == 0 then None
    else if s[0] == c then Some(0)
    else
      match IndexOf(s[1..], c)
      case None => None
      case Some(i) => Some(i + 1)
  }

  /** A position holding `c` with no `c` before it is what `IndexOf` finds. */
  lemma {:induction false} IndexOfFirst(s: string, c: char, p: nat)
    requires p < |s| && s[p] == c
    requires forall q :: 0 <= q < p ==> s[q] != c
    ensures IndexOf(s, c) == Some(p)
  {
    if s[0] != c {
      IndexOfFirst(s[1..], c, p - 1);
    }
  }

  /** `s.lastIndexOf(c)`: the last position holding `c`, or `None` when `c`
      does not occur. */
  function LastIndexOf(s: string, c: char): (r: Option<nat>)
    ensures r.Some? ==> r.value < |s| && s[r.value] == c
    ensures r.Some? ==> forall p :: r.value < p < |s| ==> s[p] != c
    ensures r.None? <==> c !in s
  {
    if |s| == 0 then None
    else if s[|s| - 1] == c then Some(|s| - 1)
    else
      var r := LastIndexOf(s[..|s| - 1], c);
      assert s == s[..|s| - 1] + [s[|s| - 1]];
      r
  }

  /** `xs.join('\n')`: the strings in order with one newline between
      neighbours; `""` for an empty array. */
  function Join(xs: seq<string>): string
  {
    if |xs| == 0 then ""
    else if |xs| == 1 then xs[0]
    else xs[0] + "\n" + Join(xs[1..])
  }

  /** `s.split('\n')`: the newline-free pieces between newlines, in order.
      There is always at least one piece. */
  function Split(s: string): (r: seq<string>)
    ensures |r| >= 1
    ensures forall k :: 0 <= k < |r| ==> '\n' !in r[k]
    decreases |s|
  {
    match IndexOf(s, '\n')
    case None => [s]
    case Some(i) => [s[..i]] + Split(s[i + 1..])
  }

  /** A join comes out empty only for no strings or a single empty string:
      two or more strings always leave at least one newline. */
  lemma {:induction false} JoinEmptyIff(xs: seq<string>)
    ensures Join(xs) == "" <==> xs == [] || xs == [""]
  {
    if |xs| >= 2 {
      assert |Join(xs)| >= 1;
    }
  }

  /** Splitting at the first newline: a newline-free head followed by a
      newline splits into the head and the pieces of the rest. */
  lemma SplitAfterFirst(x: string, rest: string)
    requires '\n' !in x
    ensures Split(x + "\n" + rest) == [x] + Split(rest)
  {
    var s := x + "\n" + rest;
    assert forall q :: 0 <= q < |x| ==> s[q] == x[q];
    assert s[|x|] == '\n';
    IndexOfFirst(s, '\n', |x|);
    assert s[..|x|] == x;
    assert s[|x| + 1..] == rest;
  }

  /** Splitting a joined text on newlines gives back the strings that were
      joined, provided none of them contains a newline itself. */
  lemma {:induction false} SplitJoin(xs: seq<string>)
    requires xs != []
    requires forall k :: 0 <= k < |xs| ==> '\n' !in xs[k]
    ensures Split(Join(xs)) == xs
  {
    if |xs| == 1 {
      assert IndexOf(xs[0], '\n') == None;
    } else {
      SplitAfterFirst(xs[0], Join(xs[1..]));
      SplitJoin(xs[1..]);
      assert xs == [xs[0]] + xs[1..];
    }
  }

  /** Joining the pieces of a split restores the original text. */
  lemma {:induction false} JoinSplit(s: string)
    ensures Join(Split(s)) == s
    decreases |s|
  {
    match IndexOf(s, '\n')
    case None =>
    case Some(i) =>
      var rest := Split(s[i + 1..]);
      var parts := [s[..i]] + rest;
      JoinSplit(s[i + 1..]);
      assert parts[0] == s[..i] && parts[1..] == rest;
      assert Join(parts) == s[..i] + "\n" + s[i + 1..];
      assert s == s[..i] + [s[i]] + s[i + 1..];
  }
}
