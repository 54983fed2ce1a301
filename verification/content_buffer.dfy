/**
 The content script injected into meeting pages: a mutation observer that
 buffers the text of added elements that look like transcript lines, and
 the message listener that answers `getTranscript` requests with the
 buffer.
 */
module ContentScript {
  import opened Wrappers
  import opened JsText
  import opened Seqs

  /** `Node.ELEMENT_NODE`. */
  const ElementNode := 1

  /** Text shorter than this or as long as `MaxTextLength` is not buffered:
      the length must be strictly between the two. */
  const MinTextLength := 10
  const MaxTextLength := 500

  /** The action of a `getTranscript` request, which reads the buffer. */
  const GetTranscript := "getTranscript"

  /** An added node: its `nodeType` and its `textContent`. */
  datatype Node = Node(nodeType: int, textContent: string)

  /** One mutation record, reduced to the nodes it added, in order. */
  datatype Mutation = Mutation(addedNodes: seq<Node>)

  /** The observer's test for transcript-like content. */
  predicate Buffered(n: Node) {
    n.nodeType == ElementNode && n.textContent != "" && MinTextLength < |n.textContent| < MaxTextLength
  }

  /** The texts of the buffered nodes among `nodes`, in order. */
  function Captured(nodes: seq<Node>): (r: seq<string>)
    ensures |r| <= |nodes|
    ensures forall k :: 0 <= k < |r| ==> MinTextLength < |r[k]| < MaxTextLength
  {
    if nodes == [] then []
    else (if Buffered(nodes[0]) then [nodes[0].textContent] else []) + Captured(nodes[1..])
  }

  /** Every node the records added, record after record, each record's in
      the order it added them. */
  function AddedNodes(mutations: seq<Mutation>): seq<Node>
    decreases |mutations|
  {
    if mutations == [] then [] else mutations[0].addedNodes + AddedNodes(mutations[1..])
  }

  /** The observer callback applied to a batch of mutation records, record
      by record and, within a record, added node by added node. The result
      is the old buffer followed by the captured texts of all added nodes
      taken as one list. */
  function OnMutations(buffer: seq<string>, mutations: seq<Mutation>): (r: seq<string>)
    ensures r == buffer + Captured(AddedNodes(mutations))
    decreases |mutations|
  {
    if mutations == [] then buffer
    else
      var c := Captured(mutations[0].addedNodes);
      CapturedAppend(mutations[0].addedNodes, AddedNodes(mutations[1..]));
      Associative(buffer, c, Captured(AddedNodes(mutations[1..])));
      OnMutations(buffer + c, mutations[1..])
  }

  /** The message listener: a `getTranscript` request is answered with the
      buffered texts joined by newlines; any other action gets no response. */
  function OnMessage(buffer: seq<string>, action: string): (r: Option<string>)
    ensures r.Some? <==> action == GetTranscript
    ensures r.Some? ==> (r.value == "" <==> buffer == [] || buffer == [""])
  {
    JoinEmptyIff(buffer);
    if action == GetTranscript then Some(Join(buffer)) else None
  }

  /** A text is captured exactly when some added node is an element whose
      text has the accepted length and equals it. */
  lemma {:induction false} CapturedIff(nodes: seq<Node>, t: string)
    ensures t in Captured(nodes) <==> exists k :: 0 <= k < |nodes| && Buffered(nodes[k]) && nodes[k].textContent == t
  {
    if nodes != [] {
      CapturedIff(nodes[1..], t);
      if exists k :: 0 <= k < |nodes| && Buffered(nodes[k]) && nodes[k].textContent == t {
        var k :| 0 <= k < |nodes| && Buffered(nodes[k]) && nodes[k].textContent == t;
        if k > 0 {
          assert nodes[1..][k - 1] == nodes[k];
        }
      }
      forall k | 0 <= k < |nodes[1..]| && Buffered(nodes[1..][k]) && nodes[1..][k].textContent == t
        ensures exists j :: 0 <= j < |nodes| && Buffered(nodes[j]) && nodes[j].textContent == t
      {
        assert nodes[1..][k] == nodes[k + 1];
      }
    }
  }

  /** A single added node contributes its text exactly when it passes the
      test. */
  lemma CapturedSingle(n: Node)
    ensures Captured([n]) == if Buffered(n) then [n.textContent] else []
  {
    assert [n][1..] == [];
  }

  lemma CapturedCons(n: Node, rest: seq<Node>)
    ensures Captured([n] + rest) == (if Buffered(n) then [n.textContent] else []) + Captured(rest)
  {
    assert ([n] + rest)[1..] == rest;
  }

  /** Nodes are handled in the order they were added: the texts captured from
      `a` followed by `b` are those of `a`, then those of `b`. With
      `CapturedSingle` this fixes the order and the number of the captured
      texts. */
  lemma {:induction false} CapturedAppend(a: seq<Node>, b: seq<Node>)
    ensures Captured(a + b) == Captured(a) + Captured(b)
    decreases |a|
  {
    if a == [] {
      assert a + b == b;
    } else {
      var head := if Buffered(a[0]) then [a[0].textContent] else [];
      CapturedAppend(a[1..], b);
      CapturedCons(a[0], a[1..] + b);
      CapturedCons(a[0], a[1..]);
      HeadTail(a, b);
      Associative(head, Captured(a[1..]), Captured(b));
    }
  }

  /** Added nodes that are not elements (text, comment, ...) never change the
      buffer, and neither do elements whose text has the wrong length. */
  lemma {:induction false} UnbufferedIgnored(buffer: seq<string>, mutations: seq<Mutation>)
    requires forall m, n :: m in mutations && n in m.addedNodes ==> !Buffered(n)
    ensures OnMutations(buffer, mutations) == buffer
    decreases |mutations|
  {
    if mutations != [] {
      NoneCaptured(mutations[0].addedNodes);
      assert buffer + [] == buffer;
      UnbufferedIgnored(buffer, mutations[1..]);
    }
  }

  lemma {:induction false} NoneCaptured(nodes: seq<Node>)
    requires forall n :: n in nodes ==> !Buffered(n)
    ensures Captured(nodes) == []
  {
    if nodes != [] {
      NoneCaptured(nodes[1..]);
    }
  }

  /** The buffer after a batch is the old buffer followed by what the batch
      alone captures: earlier entries are never removed or reordered. */
  lemma AppendOnly(buffer: seq<string>, mutations: seq<Mutation>)
    ensures OnMutations(buffer, mutations) == buffer + OnMutations([], mutations)
  {
    assert [] + Captured(AddedNodes(mutations)) == Captured(AddedNodes(mutations));
  }

  /** Everything a batch adds to the buffer is a text of the accepted
      length. */
  lemma AddedLengths(buffer: seq<string>, mutations: seq<Mutation>)
    ensures var b := OnMutations(buffer, mutations);
      && |buffer| <= |b|
      && forall k :: |buffer| <= k < |b| ==> MinTextLength < |b[k]| < MaxTextLength
  {
    var c := Captured(AddedNodes(mutations));
    var b := OnMutations(buffer, mutations);
    forall k | |buffer| <= k < |b|
      ensures MinTextLength < |b[k]| < MaxTextLength
    {
      assert b[k] == c[k - |buffer|];
    }
  }

  /** How the records are split into callbacks does not matter: handling
      `first` and then `second` buffers the same as handling them together. */
  lemma {:induction false} BatchesCompose(buffer: seq<string>, first: seq<Mutation>, second: seq<Mutation>)
    ensures OnMutations(OnMutations(buffer, first), second) == OnMutations(buffer, first + second)
  {
    AddedNodesAppend(first, second);
    CapturedAppend(AddedNodes(first), AddedNodes(second));
    Associative(buffer, Captured(AddedNodes(first)), Captured(AddedNodes(second)));
  }

  lemma {:induction false} AddedNodesAppend(first: seq<Mutation>, second: seq<Mutation>)
    ensures AddedNodes(first + second) == AddedNodes(first) + AddedNodes(second)
    decreases |first|
  {
    if first == [] {
      assert first + second == second;
    } else {
      AddedNodesAppend(first[1..], second);
      assert (first + second)[1..] == first[1..] + second;
      Associative(first[0].addedNodes, AddedNodes(first[1..]), AddedNodes(second));
    }
  }

  /** The buffered lines can be recovered from the answer to
      `getTranscript` by splitting on newlines, as long as no buffered text
      contains a newline itself. */
  lemma TranscriptRoundTrip(buffer: seq<string>)
    requires buffer != []
    requires forall k :: 0 <= k < |buffer| ==> '\n' !in buffer[k]
    ensures OnMessage(buffer, GetTranscript).Some?
    ensures Split(OnMessage(buffer, GetTranscript).value) == buffer
  {
    SplitJoin(buffer);
  }
}
