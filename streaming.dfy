/** `ChatStreamWrapper`: re-yields the text deltas of a response stream and remembers its ids. */
module Streaming {
  import opened Wrappers

  /**
   * A stream event, by its `type` and class. An event whose type string and class do not
   * match one of the four handled pairs is `OtherEvent`.
   */
  datatype StreamEvent =
    | OutputTextDelta(itemId: string, delta: string)   // "response.output_text.delta"
    | OutputTextDone(itemId: string)                   // "response.output_text.done"
    | ResponseCompleted(responseId: string)            // "response.completed", the id of `event.response`
    | TranscriptTextDelta(delta: string)               // "transcript.text.delta"
    | OtherEvent

  /** Python truthiness of an optional string: None and "" are false. */
  predicate Truthy(id: Option<string>) {
    id.Some? && id.value != ""
  }

  /** What one event yields. */
  function Yield(e: StreamEvent): seq<string> {
    match e
    case OutputTextDelta(_, d) => [d]
    case TranscriptTextDelta(d) => [d]
    case _ => []
  }

  /** How one event changes `item_id`. */
  function ItemStep(itemId: Option<string>, e: StreamEvent): Option<string> {
    match e
    case OutputTextDelta(x, _) => if Truthy(itemId) then itemId else Some(x)
    case OutputTextDone(x) => Some(x)
    case _ => itemId
  }

  /** How one event changes `response_id`. */
  function ResponseStep(responseId: Option<string>, e: StreamEvent): Option<string> {
    match e
    case ResponseCompleted(x) => if Truthy(responseId) then responseId else Some(x)
    case _ => responseId
  }

  /** Everything yielded while consuming `s`, in order. */
  function Deltas(s: seq<StreamEvent>): seq<string> {
    if s == [] then [] else Deltas(s[..|s| - 1]) + Yield(s[|s| - 1])
  }

  function ItemIdAfter(itemId: Option<string>, s: seq<StreamEvent>): Option<string> {
    if s == [] then itemId else ItemStep(ItemIdAfter(itemId, s[..|s| - 1]), s[|s| - 1])
  }

  function ResponseIdAfter(responseId: Option<string>, s: seq<StreamEvent>): Option<string> {
    if s == [] then responseId else ResponseStep(ResponseIdAfter(responseId, s[..|s| - 1]), s[|s| - 1])
  }

  /** The output is the concatenation of what each event yields: stream order is kept. */
  lemma {:induction false} DeltasAppend(a: seq<StreamEvent>, b: seq<StreamEvent>)
    ensures Deltas(a + b) == Deltas(a) + Deltas(b)
  {
    if b == [] {
      assert a + b == a;
    } else {
      assert (a + b)[..|a + b| - 1] == a + b[..|b| - 1];
      DeltasAppend(a, b[..|b| - 1]);
    }
  }

  /** Exactly the two delta kinds yield, one string each; every other event yields nothing. */
  lemma DeltasOfOne(e: StreamEvent)
    ensures |Deltas([e])| == (if e.OutputTextDelta? || e.TranscriptTextDelta? then 1 else 0)
    ensures e.OutputTextDelta? || e.TranscriptTextDelta? ==> Deltas([e]) == [e.delta]
  {
    assert [e][..0] == [];
  }

  lemma {:induction false} ResponseIdAfterAppend(r: Option<string>, a: seq<StreamEvent>, b: seq<StreamEvent>)
    ensures ResponseIdAfter(r, a + b) == ResponseIdAfter(ResponseIdAfter(r, a), b)
  {
    if b == [] {
      assert a + b == a;
    } else {
      assert (a + b)[..|a + b| - 1] == a + b[..|b| - 1];
      ResponseIdAfterAppend(r, a, b[..|b| - 1]);
    }
  }

  lemma {:induction false} ItemIdAfterAppend(r: Option<string>, a: seq<StreamEvent>, b: seq<StreamEvent>)
    ensures ItemIdAfter(r, a + b) == ItemIdAfter(ItemIdAfter(r, a), b)
  {
    if b == [] {
      assert a + b == a;
    } else {
      assert (a + b)[..|a + b| - 1] == a + b[..|b| - 1];
      ItemIdAfterAppend(r, a, b[..|b| - 1]);
    }
  }

  /** Events other than "response.completed" leave `response_id` alone; a truthy one is never replaced. */
  lemma {:induction false} ResponseIdKept(r: Option<string>, s: seq<StreamEvent>)
    requires Truthy(r) || forall k :: 0 <= k < |s| ==> !s[k].ResponseCompleted?
    ensures ResponseIdAfter(r, s) == r
  {
    if s != [] {
      ResponseIdKept(r, s[..|s| - 1]);
    }
  }

  /** Without "response.output_text.done" events, a truthy `item_id` is never replaced. */
  lemma {:induction false} ItemIdKept(r: Option<string>, s: seq<StreamEvent>)
    requires Truthy(r)
    requires forall k :: 0 <= k < |s| ==> !s[k].OutputTextDone?
    ensures ItemIdAfter(r, s) == r
  {
    if s != [] {
      ItemIdKept(r, s[..|s| - 1]);
    }
  }

  /**
   * Starting from None, `response_id` ends as the id of the first "response.completed" event
   * when that id is non-empty; later completions are ignored.
   */
  lemma FirstCompletionWins(a: seq<StreamEvent>, x: string, b: seq<StreamEvent>)
    requires forall k :: 0 <= k < |a| ==> !a[k].ResponseCompleted?
    requires x != ""
    ensures ResponseIdAfter(None, a + [ResponseCompleted(x)] + b) == Some(x)
  {
    ResponseIdKept(None, a);
    ResponseIdAfterAppend(None, a, [ResponseCompleted(x)]);
    assert (a + [ResponseCompleted(x)])[..|a|] == a;
    ResponseIdAfterAppend(None, a + [ResponseCompleted(x)], b);
    ResponseIdKept(Some(x), b);
  }

  /**
   * `item_id` ends as the id of the last "response.output_text.done" event when that id is
   * non-empty, whatever deltas follow it.
   */
  lemma LastDoneWins(init: Option<string>, a: seq<StreamEvent>, x: string, b: seq<StreamEvent>)
    requires forall k :: 0 <= k < |b| ==> !b[k].OutputTextDone?
    requires x != ""
    ensures ItemIdAfter(init, a + [OutputTextDone(x)] + b) == Some(x)
  {
    ItemIdAfterAppend(init, a, [OutputTextDone(x)]);
    assert (a + [OutputTextDone(x)])[..|a|] == a;
    ItemIdAfterAppend(init, a + [OutputTextDone(x)], b);
    ItemIdKept(Some(x), b);
  }

  class ChatStreamWrapper {
    /** The events of `_stream` not consumed yet; a stream can be iterated once. */
    var remaining: seq<StreamEvent>
    var itemId: Option<string>
    var responseId: Option<string>

    constructor (stream: seq<StreamEvent>)
      ensures remaining == stream && itemId == None && responseId == None
    {
      remaining := stream;
      itemId := None;
      responseId := None;
    }

    /**
     * `__iter__`, run to the end of the stream: the strings it yields, and the ids it
     * records on the way.
     */
    method Iterate() returns (yielded: seq<string>)
      modifies this
      ensures yielded == Deltas(old(remaining))
      ensures itemId == ItemIdAfter(old(itemId), old(remaining))
      ensures responseId == ResponseIdAfter(old(responseId), old(remaining))
      ensures remaining == []
    {
      var stream := remaining;
      yielded := [];
      var i := 0;
      while i < |stream|
        invariant 0 <= i <= |stream|
        invariant yielded == Deltas(stream[..i])
        invariant itemId == ItemIdAfter(old(itemId), stream[..i])
        invariant responseId == ResponseIdAfter(old(responseId), stream[..i])
      {
        var event := stream[i];
        assert stream[..i + 1][..i] == stream[..i];
        match event {
          case OutputTextDelta(id, delta) =>
            if !Truthy(itemId) {
              itemId := Some(id);
            }
            yielded := yielded + [delta];
          case OutputTextDone(id) =>
            itemId := Some(id);
          case ResponseCompleted(id) =>
            if !Truthy(responseId) {
              responseId := Some(id);
            }
          case TranscriptTextDelta(delta) =>
            yielded := yielded + [delta];
          case OtherEvent =>
        }
        i := i + 1;
      }
      assert stream[..i] == stream;
      remaining := [];
    }
  }
}
