/**
 What the decoder answers to the bytes of a request, however they have come in and whatever it has done with them.
 */
module Answers {
  import opened Octets
  import opened Framers
  import opened ChunkedGrammar
  import opened RequestHead
  import opened HeadStability
  import opened Delivery
  import opened Reception

  /** With MoreBytesNeeded may come an interim response that asks the client to go on. */
  datatype Result = MoreBytesNeeded(interim: bool) | InvalidSource | Succeeded(request: Request)

  /** The result of a step of the specification, and the state it leaves behind unless it is a rejection. */
  ghost predicate IsResultOf(result: Result, after: State, t: Step) {
    if t.Emit? then result == Succeeded(t.request) && after == t.next
    else if t.end.Waiting? then result.MoreBytesNeeded? && after == t.end.state
    else result.InvalidSource?
  }

  // ---- what comes of the bytes of a request, whatever the decoder has done with them so far

  /** The bytes of the request that is being read. */
  ghost function BytesOf(s: State): Bytes {
    (if s.body.Some? then s.body.value.raw + s.body.value.taken else []) + s.pending
  }

  /**
   What the decoder answers when it has been given these bytes of a request and of what follows it, and which of them
   it has not handed out.  Behind a complete head a body is as long as Content-Length says, or, with chunked coding,
   it is a message of the grammar.
   */
  ghost predicate IsAnswer(r: Rules, all: Bytes, result: Result, left: Bytes) {
    match HeadAt(r, all)
    case Invalid => result.InvalidSource?
    case More => result == MoreBytesNeeded(false) && left == all
    case Done(head, e) =>
      if head.framing.chunked then IsChunkedAnswer(head, all, e, result, left)
      else
        var n := head.framing.contentLength;
        if n == 0 then result == Succeeded(Request(all[..e], head, None)) && left == all[e..]
        else if |all| < e + n then result.MoreBytesNeeded? && left == all
        else result == Succeeded(Request(all[..e], head, Some(all[e..e + n]))) && left == all[e + n..]
  }

  ghost predicate IsChunkedAnswer(head: Head, all: Bytes, e: nat, result: Result, left: Bytes)
    requires e <= |all|
  {
    match result
    case Succeeded(q) =>
      exists k: nat | k <= |all| - e ::
        && IsChunkedBody(all[e..][..k]) && q == Request(all[..e], head, Some(all[e..][..k])) && left == all[e..][k..]
    case MoreBytesNeeded(_) => left == all && forall k: nat | k <= |all| - e :: !IsChunkedBody(all[e..][..k])
    case InvalidSource => forall more, k: nat | k <= |all[e..] + more| :: !IsChunkedBody((all[e..] + more)[..k])
  }

  /** The body is that of a complete head, and its framer has taken what has been taken. */
  ghost predicate IsUnderWay(r: Rules, body: Body) {
    && HeadAt(r, body.raw) == Done(body.head, |body.raw|) && body.head.framing.BodyExpected()
    && Feed(FramerOf(body.head.framing), body.taken) == (body.framer, |body.taken|)
  }

  lemma FramerStarts(framing: Framing)
    requires framing.BodyExpected()
    ensures var f := FramerOf(framing);
            && f.Valid() && !f.Stopped() && Feed(f, []) == (f, 0)
            && if framing.chunked then f == StartOfChunks else f == Raw(framing.contentLength, 0, false)
  {
  }

  /** All that a framer has been given, given to it at once. */
  lemma FedAtOnce(r: Rules, body: Body, pending: Bytes)
    requires IsUnderWay(r, body) && body.framer.Valid() && !body.framer.Stopped()
    ensures var (g, n) := Feed(body.framer, pending);
            Feed(FramerOf(body.head.framing), body.taken + pending) == (g, |body.taken| + n)
  {
    hide Feed, HeadAt;
    FramerStarts(body.head.framing);
    FeedConcat(FramerOf(body.head.framing), body.taken, pending);
  }

  /** A body by its length. */
  lemma LengthAnswers(r: Rules, body: Body, pending: Bytes)
    requires IsUnderWay(r, body) && body.framer.Valid() && !body.framer.Stopped() && !body.head.framing.chunked
    ensures var (g, k) := Feed(body.framer, pending); var x := body.taken + pending; var n := body.head.framing.contentLength;
            && !g.Broken() && (g.Done() <==> n <= |x|)
            && |body.taken| + k == if g.Done() then n else |x|
  {
    hide Feed, HeadAt;
    FramerStarts(body.head.framing);
    FedAtOnce(r, body, pending);
    RawTakesItsLength(FramerOf(body.head.framing), body.taken + pending);
  }

  /** A body in chunks. */
  lemma ChunksAnswer(r: Rules, body: Body, pending: Bytes)
    requires IsUnderWay(r, body) && body.framer.Valid() && !body.framer.Stopped() && body.head.framing.chunked
    ensures var (g, k) := Feed(body.framer, pending); var x := body.taken + pending;
            && (g.Done() ==> |body.taken| + k <= |x| && IsChunkedBody(x[..|body.taken| + k]))
            && (!g.Done() ==> forall m: nat | m <= |x| :: !IsChunkedBody(x[..m]))
            && (g.Broken() ==> forall more, m: nat | m <= |x + more| :: !IsChunkedBody((x + more)[..m]))
  {
    hide Feed, HeadAt, IsChunkedBody;
    FramerStarts(body.head.framing);
    FedAtOnce(r, body, pending);
    var x := body.taken + pending;
    var (g, k) := Feed(body.framer, pending);
    if g.Done() {
      CompletesExactly(x, |body.taken| + k);
    } else {
      forall m: nat | m <= |x| ensures !IsChunkedBody(x[..m]) {
        CompletesExactly(x, m);
      }
    }
    if g.Broken() {
      forall more, m: nat | m <= |x + more| ensures !IsChunkedBody((x + more)[..m]) {
        FeedConcat(StartOfChunks, x, more);
        CompletesExactly(x + more, m);
      }
    }
  }

  /** A step on a body answers for all the bytes of its request. */
  lemma BodyAnswers(r: Rules, body: Body, pending: Bytes, result: Result, after: State)
    requires IsUnderWay(r, body) && body.framer.Valid() && !body.framer.Stopped()
    requires IsResultOf(result, after, BodyStep(ReadingOf(r), pending, body))
    ensures IsAnswer(r, body.raw + body.taken + pending, result, BytesOf(after))
    ensures after.body.Some? && !result.InvalidSource? ==> IsUnderWay(r, after.body.value)
  {
    hide Feed, HeadAt, IsChunkedAnswer, BodyStep, BytesOf, ReadingOf, IsUnderWay, IsResultOf;
    HeadOfAll(r, body, pending);
    if body.head.framing.chunked {
      ChunkedStepAnswers(r, body, pending, result, after);
    } else {
      LengthStepAnswers(r, body, pending, result, after);
    }
    StaysUnderWay(r, body, pending, result, after);
  }

  lemma HeadOfAll(r: Rules, body: Body, pending: Bytes)
    requires IsUnderWay(r, body)
    ensures HeadAt(r, body.raw + body.taken + pending) == Done(body.head, |body.raw|)
    ensures body.head.framing.BodyExpected()
  {
    hide HeadAt, Feed;
    var all := body.raw + body.taken + pending;
    assert all == body.raw + (body.taken + pending);
    HeadStable(r, body.raw, all);
  }

  lemma StaysUnderWay(r: Rules, body: Body, pending: Bytes, result: Result, after: State)
    requires IsUnderWay(r, body) && body.framer.Valid() && !body.framer.Stopped()
    requires IsResultOf(result, after, BodyStep(ReadingOf(r), pending, body))
    ensures after.body.Some? && !result.InvalidSource? ==> IsUnderWay(r, after.body.value)
  {
    hide Feed, HeadAt, BodyStep;
    BodyStepFeeds(r, pending, body);
    FedAtOnce(r, body, pending);
    assert pending[..|pending|] == pending;
  }

  lemma LengthStepAnswers(r: Rules, body: Body, pending: Bytes, result: Result, after: State)
    requires IsUnderWay(r, body) && body.framer.Valid() && !body.framer.Stopped() && !body.head.framing.chunked
    requires IsResultOf(result, after, BodyStep(ReadingOf(r), pending, body))
    ensures var all, e, n := body.raw + body.taken + pending, |body.raw|, body.head.framing.contentLength;
            if |all| < e + n then result.MoreBytesNeeded? && BytesOf(after) == all
            else result == Succeeded(Request(all[..e], body.head, Some(all[e..e + n]))) && BytesOf(after) == all[e + n..]
  {
    hide Feed, HeadAt, BodyStep, BytesOf;
    LengthAnswers(r, body, pending);
    BodyStepFeeds(r, pending, body);
    StepIsAnswer(body, pending, result, after, BodyStep(ReadingOf(r), pending, body), Feed(body.framer, pending).1);
  }

  /** What is handed out and what is left, in terms of all the bytes. */
  lemma StepIsAnswer(body: Body, pending: Bytes, result: Result, after: State, t: Step, k: nat)
    requires k <= |pending| && IsResultOf(result, after, t)
    requires t.Halt? && t.end.Waiting? ==>
               k == |pending| && t.end.state.pending == [] && t.end.state.body.Some?
               && var b := t.end.state.body.value; b.raw == body.raw && b.taken == body.taken + pending[..k]
    requires t.Emit? ==>
               t.request == Request(body.raw, body.head, Some(body.taken + pending[..k])) && t.next == State(pending[k..], None)
    ensures var all, e, m := body.raw + body.taken + pending, |body.raw|, |body.taken| + k;
            && (result.MoreBytesNeeded? ==> BytesOf(after) == all)
            && (result.Succeeded? ==> result.request == Request(all[..e], body.head, Some(all[e..e + m]))
                                      && BytesOf(after) == all[e + m..])
  {
    Portions(body.raw, body.taken, pending, k);
    assert [] + pending[k..] == pending[k..];
  }

  lemma ChunkedStepAnswers(r: Rules, body: Body, pending: Bytes, result: Result, after: State)
    requires IsUnderWay(r, body) && body.framer.Valid() && !body.framer.Stopped() && body.head.framing.chunked
    requires IsResultOf(result, after, BodyStep(ReadingOf(r), pending, body))
    ensures IsChunkedAnswer(body.head, body.raw + body.taken + pending, |body.raw|, result, BytesOf(after))
  {
    hide Feed, HeadAt, IsChunkedBody, BodyStep, BytesOf, IsUnderWay;
    var k := Feed(body.framer, pending).1;
    BodyStepFeeds(r, pending, body);
    ChunksAnswer(r, body, pending);
    Portions(body.raw, body.taken, pending, k);
    StepIsAnswer(body, pending, result, after, BodyStep(ReadingOf(r), pending, body), k);
  }

  lemma Portions(raw: Bytes, taken: Bytes, pending: Bytes, k: nat)
    requires k <= |pending|
    ensures var all, e, m := raw + taken + pending, |raw|, |taken| + k;
            && all[..e] == raw && all[e..] == taken + pending && all[e..][..m] == taken + pending[..k] == all[e..e + m]
            && all[e..][m..] == pending[k..] == all[e + m..]
            && raw + (taken + pending[..k]) + [] == all[..e + m] && (k == |pending| ==> all[..e + m] == all)
  {
  }

  /** So does a step on a head. */
  lemma HeadAnswers(r: Rules, s: State, result: Result, after: State)
    requires s.body.None? && |s.pending| <= DECODING_BUFFER_SIZE
    requires IsResultOf(result, after, StepOf(ReadingOf(r), false, s))
    requires HeadAt(r, s.pending).More? ==> result == MoreBytesNeeded(false)
    ensures IsAnswer(r, s.pending, result, BytesOf(after))
    ensures after.body.Some? && !result.InvalidSource? ==> IsUnderWay(r, after.body.value)
  {
    hide Feed, HeadAt, IsChunkedBody, BodyStep;
    var o := HeadAt(r, s.pending);
    if o.Done? {
      var n := o.end;
      HeadIsComplete(r, s.pending[..n], s.pending);
      assert [] + s.pending[n..] == s.pending[n..];
      if o.value.framing.BodyExpected() {
        var body := Body(s.pending[..n], o.value, FramerOf(o.value.framing), []);
        FramerStarts(o.value.framing);
        BodyAnswers(r, body, s.pending[n..], result, after);
        assert s.pending[..n] + [] + s.pending[n..] == s.pending;
      }
    } else {
      assert [] + s.pending == s.pending;
    }
  }

  lemma BodyStepFeeds(rules: Rules, pending: Bytes, body: Body)
    requires body.framer.Valid() && !body.framer.Stopped()
    ensures var (framer, n) := Feed(body.framer, pending);
            var taken := body.taken + pending[..n];
            BodyStep(ReadingOf(rules), pending, body) ==
            if framer.Broken() then Halt(Rejected)
            else if framer.Done() then Emit(Request(body.raw, body.head, Some(taken)), State(pending[n..], None))
            else Halt(Waiting(State([], Some(Body(body.raw, body.head, framer, taken)))))
  {
    hide Feed, HeadAt;
  }
}
