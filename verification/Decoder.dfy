/**
 The decoder of one connection: a buffer of fixed size that is parsed from its start again whenever bytes have
 arrived, and shifted when a head or a piece of a body has been taken from it.
 */
module Decoder {
  import opened Octets
  import opened Framers
  import opened RequestHead
  import opened HeadStability
  import opened HeadParser
  import opened Answers
  import opened Delivery
  import opened Reception

  class Decoder {
    const rules: Rules
    const buffer: array<Octet>
    var off: nat
    /** The framer, what it has taken, and the head it belongs to, while a body is coming in. */
    var body: Option<Body>

    ghost predicate Valid()
      reads this
    {
      && buffer.Length == DECODING_BUFFER_SIZE && off <= DECODING_BUFFER_SIZE && State([], body).Valid()
      && (body.Some? ==> IsUnderWay(rules, body.value))
    }

    ghost function Value(): (s: State)
      reads this, buffer
      requires Valid()
      ensures s.Valid() && |s.pending| <= DECODING_BUFFER_SIZE
    {
      State(buffer[..off], body)
    }

    /** The bytes of the request that is being read, and of what is there behind it. */
    ghost function Received(): Bytes
      reads this, buffer
      requires Valid()
    {
      BytesOf(Value())
    }

    constructor (rules: Rules)
      ensures Valid() && fresh(buffer) && Value() == FRESH && this.rules == rules
    {
      this.rules := rules;
      buffer := new Octet[DECODING_BUFFER_SIZE];
      off, body := 0, None;
    }

    method Accumulate(input: Bytes) returns (n: nat)
      requires Valid()
      modifies this`off, buffer
      ensures Valid()
      ensures n == Min(DECODING_BUFFER_SIZE - old(off), |input|)
      ensures Value() == With(old(Value()), input[..n]) && Received() == old(Received()) + input[..n]
    {
      hide IsUnderWay;
      var spaceLeft := DECODING_BUFFER_SIZE - off;
      n := Min(spaceLeft, |input|);
      ghost var was := buffer[..off];
      forall k | 0 <= k < n {
        buffer[off + k] := input[k];
      }
      off := off + n;
      assert buffer[..off] == was + input[..n];
    }

    /** Removes the bytes that were used. */
    method Shift(n: nat)
      requires Valid() && n <= off
      modifies this`off, buffer
      ensures Valid() && Value() == old(Value()).(pending := old(buffer[..off])[n..])
    {
      forall k | 0 <= k < off - n {
        buffer[k] := buffer[n + k];
      }
      off := off - n;
    }

    method Deserialize() returns (result: Result)
      requires Valid()
      modifies this, buffer
      ensures Valid()
      ensures IsAnswer(rules, old(Received()), result, Received())
      ensures IsResultOf(result, Value(), StepOf(ReadingOf(rules), false, old(Value())))
      ensures result.MoreBytesNeeded? ==>
                (result.interim <==> old(body).None? && body.Some? && body.value.head.framing.expectsContinue)
      decreases if body.Some? then 1 else 4
    {
      hide Feed, HeadAt, IsAnswer, IsUnderWay, BodyStep, ReadingOf, IsResultOf;
      if body.Some? {
        result := ParseBody();
      } else {
        result := ParseCore();
      }
    }

    method ParseCore() returns (result: Result)
      requires Valid() && body.None?
      modifies this, buffer
      ensures Valid()
      ensures IsAnswer(rules, old(Received()), result, Received())
      ensures IsResultOf(result, Value(), StepOf(ReadingOf(rules), false, old(Value())))
      ensures result.MoreBytesNeeded? ==>
                (result.interim <==> body.Some? && body.value.head.framing.expectsContinue)
      decreases 3
    {
      ghost var before := Value();
      assert [] + before.pending == before.pending;
      result := TakeHead();
      HeadAnswers(rules, before, result, Value());
    }

    /** The head at the front of the buffer, and its body if it has one. */
    method TakeHead() returns (result: Result)
      requires Valid() && body.None?
      modifies this, buffer
      ensures Valid()
      ensures IsResultOf(result, Value(), StepOf(ReadingOf(rules), false, old(Value())))
      ensures HeadAt(rules, old(Value()).pending).More? ==> result == MoreBytesNeeded(false)
      ensures result.MoreBytesNeeded? ==>
                (result.interim <==> body.Some? && body.value.head.framing.expectsContinue)
      decreases 2
    {
      hide HeadAt, BodyStep, Feed;
      var sv := buffer[..off];
      var o := ParseHead(rules, sv);
      match o {
        case Invalid => return InvalidSource;
        case More => return MoreBytesNeeded(false);
        case Done(head, n) =>
          Shift(n);
          if !head.framing.BodyExpected() {
            return Succeeded(Request(sv[..n], head, None));
          }
          FramerStarts(head.framing);
          HeadIsComplete(rules, sv[..n], sv);
          body := Some(Body(sv[..n], head, FramerOf(head.framing), []));
          result := Deserialize();
          assert result.MoreBytesNeeded? ==> body.Some? && body.value.head == head by {
            BodyIsKept(rules, sv[n..], Body(sv[..n], head, FramerOf(head.framing), []));
          }
          if head.framing.expectsContinue && result.MoreBytesNeeded? {
            result := MoreBytesNeeded(true);
          }
      }
    }

    method ParseBody() returns (result: Result)
      requires Valid() && body.Some?
      modifies this, buffer
      ensures Valid()
      ensures IsAnswer(rules, old(Received()), result, Received())
      ensures IsResultOf(result, Value(), BodyStep(ReadingOf(rules), old(Value()).pending, old(body).value))
      ensures result.MoreBytesNeeded? ==> !result.interim
      decreases 0
    {
      ghost var before := Value();
      ghost var was := body.value;
      result := TakeBody();
      BodyAnswers(rules, was, before.pending, result, Value());
    }

    method TakeBody() returns (result: Result)
      requires Valid() && body.Some?
      modifies this, buffer
      ensures Valid()
      ensures IsResultOf(result, Value(), BodyStep(ReadingOf(rules), old(Value()).pending, old(body).value))
      ensures result.MoreBytesNeeded? ==> !result.interim
      decreases 0
    {
      hide Feed, ReadingOf, BodyStep, IsUnderWay;
      BodyStepFeeds(rules, buffer[..off], body.value);
      var input := buffer[..off];
      var b := body.value;
      var framer, consumed;
      if b.framer.Raw? {
        framer, consumed := WriteRaw(b.framer, input, false);
      } else {
        framer, consumed := WriteChunked(b.framer, input, |input|);
      }
      if framer.Broken() {
        return InvalidSource;
      }
      var taken := b.taken + input[..consumed];
      MoreIsTaken(rules, b, input);
      Shift(consumed);
      if !framer.Done() {
        body := Some(Body(b.raw, b.head, framer, taken));
        return MoreBytesNeeded(false);
      }
      body := None;
      return Succeeded(Request(b.raw, b.head, Some(taken)));
    }
  }

  lemma MoreIsTaken(rules: Rules, body: Body, input: Bytes)
    requires IsUnderWay(rules, body) && body.framer.Valid() && !body.framer.Stopped()
    ensures var (g, n) := Feed(body.framer, input);
            !g.Stopped() ==> IsUnderWay(rules, Body(body.raw, body.head, g, body.taken + input[..n]))
  {
    hide Feed, HeadAt;
    FedAtOnce(rules, body, input);
    assert input[..|input|] == input;
  }

  lemma BodyIsKept(rules: Rules, pending: Bytes, body: Body)
    requires body.framer.Valid() && !body.framer.Stopped()
    ensures var t := BodyStep(ReadingOf(rules), pending, body);
            t.Halt? && t.end.Waiting? ==> t.end.state.body.Some? && t.end.state.body.value.head == body.head
  {
  }

  // ---- what the transport does with it

  datatype Ending = Open | Refused | Closing | GivenUp

  /** Served to the end, or given up on the way, because a handler failed or the connection was closed. */
  ghost predicate IsServedAs(requests: seq<Request>, ending: Ending, after: State, v: Served) {
    if ending.GivenUp? then requests <= v.requests
    else
      && requests == v.requests
      && match v.end
         case Waiting(w) => ending.Open? && after == w
         case Rejected => ending.Refused?
         case Closed => ending.Closing?
  }

  /** What a step adds to the requests so far. */
  lemma ServeTurn(r: Reading, all: Served, requests: seq<Request>, s: State)
    requires s.Valid()
    requires var v := Serve(r, false, s); all == Served(requests + v.requests, v.end)
    ensures var t := StepOf(r, false, s);
            if t.Halt? then all == Served(requests, t.end)
            else if t.request.head.framing.close then all == Served(requests + [t.request], Closed)
            else var v := Serve(r, false, t.next); all == Served((requests + [t.request]) + v.requests, v.end)
  {
    hide StepOf, Serve;
    ServeUnfolds(r, false, s);
    var t := StepOf(r, false, s);
    assert requests + [] == requests;
    if t.Emit? {
      var rest := Serve(r, false, t.next).requests;
      assert requests + ([t.request] + rest) == (requests + [t.request]) + rest;
    }
  }

  /** Takes out requests until more bytes are needed, one is malformed, one asks to close, or after `turns` of the
      loop the connection takes no more. */
  method HandleDeserializedRequests(d: Decoder, turns: nat) returns (requests: seq<Request>, ending: Ending, left: nat)
    requires d.Valid()
    modifies d, d.buffer
    ensures d.Valid()
    ensures IsServedAs(requests, ending, d.Value(), Serve(ReadingOf(d.rules), false, old(d.Value())))
    ensures left <= turns && (ending.GivenUp? ==> left == 0) && (turns == 0 ==> ending.GivenUp?)
    ensures turns <= left + |requests| + (if ending.Open? || ending.Refused? then 1 else 0)
  {
    hide StepOf, Serve, ReadingOf, IsAnswer, IsUnderWay, BytesOf, HeadAt;
    requests, left := [], turns;
    ghost var all := Serve(ReadingOf(d.rules), false, d.Value());
    assert [] + all.requests == all.requests;
    while left > 0
      invariant d.Valid() && left <= turns == left + |requests|
      invariant var v := Serve(ReadingOf(d.rules), false, d.Value()); all == Served(requests + v.requests, v.end)
    {
      left := left - 1;
      ServeTurn(ReadingOf(d.rules), all, requests, d.Value());
      var result := d.Deserialize();
      match result {
        case MoreBytesNeeded(_) => return requests, Open, left;
        case InvalidSource => return requests, Refused, left;
        case Succeeded(request) =>
          requests := requests + [request];
          if request.head.framing.close {
            return requests, Closing, left;
          }
      }
    }
    ending := GivenUp;
  }

  /** One turn of the loop below: what fits is accumulated, and served. */
  method AccumulateAndServe(d: Decoder, rest: Bytes, turns: nat)
    returns (accepted: nat, requests: seq<Request>, ending: Ending, left: nat)
    requires d.Valid()
    modifies d, d.buffer
    ensures d.Valid()
    ensures accepted == Min(DECODING_BUFFER_SIZE - |old(d.Value().pending)|, |rest|)
    ensures IsServedAs(requests, ending, d.Value(), Serve(ReadingOf(d.rules), false, With(old(d.Value()), rest[..accepted])))
    ensures ending.Open? ==> IsDrained(ReadingOf(d.rules), d.Value())
    ensures left <= turns && (ending.GivenUp? ==> left == 0)
    ensures turns <= left + |requests| + (if ending.Open? || ending.Refused? then 1 else 0)
  {
    hide Serve, IsDrained, ReadingOf, IsSound;
    accepted := d.Accumulate(rest);
    WaitingFits(ReadingOf(d.rules), d.Value());
    requests, ending, left := HandleDeserializedRequests(d, turns);
  }

  /** A full buffer that has been served has nothing to give, and stays full. */
  method TryAgain(d: Decoder, rest: Bytes, turns: nat) returns (accepted: nat, requests: seq<Request>, ending: Ending)
    requires d.Valid() && IsDrained(ReadingOf(d.rules), d.Value())
    requires |d.Value().pending| == DECODING_BUFFER_SIZE || rest == []
    modifies d, d.buffer
    ensures d.Valid() && requests == [] && (ending.Open? || (ending.GivenUp? && turns == 0))
    ensures ending.Open? ==> accepted == 0 && d.Value() == old(d.Value())
  {
    hide Serve, IsDrained, ReadingOf, IsSound;
    ReadingIsSound(d.rules);
    DrainedGivesNothing(ReadingOf(d.rules), d.Value());
    var left;
    requests, ending, left := HandleDeserializedRequests(d, turns);
    accepted := 0;
    if ending.GivenUp? {
      return;
    }
    ghost var before := d.Value();
    accepted := d.Accumulate(rest);
    assert before.pending + [] == before.pending;
  }

  lemma FullConsumesNothing(r: Reading, s: State, rest: Bytes)
    requires s.Valid() && |s.pending| <= DECODING_BUFFER_SIZE && (|s.pending| == DECODING_BUFFER_SIZE || rest == [])
    ensures Consume(r, s, rest) == Served([], Rejected)
  {
  }

  /** What a turn adds to the requests so far, and what is left to be consumed. */
  lemma ConsumeTurn(r: Reading, all: Served, requests: seq<Request>, s: State, rest: Bytes)
    requires s.Valid() && |s.pending| < DECODING_BUFFER_SIZE && rest != []
    requires var u := Consume(r, s, rest); all == Served(requests + u.requests, u.end)
    ensures var n := Min(DECODING_BUFFER_SIZE - |s.pending|, |rest|);
            var v := Serve(r, false, With(s, rest[..n]));
            if v.end.Waiting? && n < |rest| then
              |v.end.state.pending| <= DECODING_BUFFER_SIZE ==>
                var u := Consume(r, v.end.state, rest[n..]);
                all == Served((requests + v.requests) + u.requests, u.end)
            else all == Served(requests + v.requests, v.end)
  {
    hide Serve, Consume;
    ConsumeUnfolds(r, s, rest);
    var n := Min(DECODING_BUFFER_SIZE - |s.pending|, |rest|);
    var v := Serve(r, false, With(s, rest[..n]));
    if v.end.Waiting? && n < |rest| && |v.end.state.pending| <= DECODING_BUFFER_SIZE {
      var u := Consume(r, v.end.state, rest[n..]);
      assert (requests + v.requests) + u.requests == requests + (v.requests + u.requests);
    }
  }

  /** What was served before the connection was given up is the front part of what would have been. */
  lemma TurnGivenUp(r: Reading, all: Served, requests: seq<Request>, s: State, rest: Bytes, served: seq<Request>, after: State)
    requires s.Valid() && |s.pending| < DECODING_BUFFER_SIZE && rest != []
    requires var u := Consume(r, s, rest); all == Served(requests + u.requests, u.end)
    requires var n := Min(DECODING_BUFFER_SIZE - |s.pending|, |rest|);
             IsServedAs(served, GivenUp, after, Serve(r, false, With(s, rest[..n])))
    ensures requests + served <= all.requests
  {
    hide Serve, Consume;
    ConsumeUnfolds(r, s, rest);
    var n := Min(DECODING_BUFFER_SIZE - |s.pending|, |rest|);
    var v := Serve(r, false, With(s, rest[..n]));
    assert v.requests <= Consume(r, s, rest).requests;
    assert requests + served == (requests + v.requests)[..|requests + served|];
  }

  /** One turn of the loop: what fits is accumulated and served, behind the requests so far. */
  method ConsumeSome(d: Decoder, rest: Bytes, turns: nat, before: seq<Request>, ghost all: Served)
    returns (accepted: nat, requests: seq<Request>, ending: Ending, left: nat)
    requires d.Valid() && IsDrained(ReadingOf(d.rules), d.Value()) && |d.Value().pending| < DECODING_BUFFER_SIZE && rest != []
    requires var u := Consume(ReadingOf(d.rules), d.Value(), rest); all == Served(before + u.requests, u.end)
    modifies d, d.buffer
    ensures d.Valid() && 0 < accepted <= |rest| && (ending.Open? ==> IsDrained(ReadingOf(d.rules), d.Value()))
    ensures if ending.Open? && accepted < |rest| then
              var u := Consume(ReadingOf(d.rules), d.Value(), rest[accepted..]);
              all == Served(requests + u.requests, u.end)
            else IsServedAs(requests, ending, d.Value(), all)
    ensures turns + |before| <= left + |requests| + if ending.Open? || ending.Refused? then 1 else 0
    ensures ending.GivenUp? ==> left == 0
  {
    hide Serve, Consume, ReadingOf, With;
    ghost var s := d.Value();
    ConsumeTurn(ReadingOf(d.rules), all, before, s, rest);
    var served;
    accepted, served, ending, left := AccumulateAndServe(d, rest, turns);
    requests := before + served;
    if ending.GivenUp? {
      TurnGivenUp(ReadingOf(d.rules), all, before, s, rest, served, d.Value());
    }
  }

  /** Nothing fits any more, or nothing is left, and the loop has been entered once more. */
  method RefuseMore(d: Decoder, rest: Bytes, turns: nat, requests: seq<Request>, ghost all: Served) returns (ending: Ending)
    requires d.Valid() && IsDrained(ReadingOf(d.rules), d.Value())
    requires |d.Value().pending| == DECODING_BUFFER_SIZE || rest == []
    requires var v := Consume(ReadingOf(d.rules), d.Value(), rest); all == Served(requests + v.requests, v.end)
    modifies d, d.buffer
    ensures d.Valid() && !ending.Open? && IsServedAs(requests, ending, d.Value(), all) && (ending.GivenUp? ==> turns == 0)
  {
    hide Serve, Consume, IsDrained, ReadingOf, With, IsServedAs;
    FullConsumesNothing(ReadingOf(d.rules), d.Value(), rest);
    var _, _, end := TryAgain(d, rest, turns);
    assert requests + [] == requests;
    ending := if end.GivenUp? then GivenUp else Refused;
    RefusedIsServed(requests, ending, d.Value());
  }

  lemma RefusedIsServed(requests: seq<Request>, ending: Ending, after: State)
    requires ending.GivenUp? || ending.Refused?
    ensures IsServedAs(requests, ending, after, Served(requests, Rejected))
  {
  }

  /**
   Feeds what the socket has delivered into the decoder, which may take several turns, until it is used up or
   the connection takes no more.  There are enough turns for everything when there are more than bytes and requests.
   */
  method ConsumeReceived(d: Decoder, chunk: Bytes, turns: nat) returns (requests: seq<Request>, ending: Ending)
    requires d.Valid() && IsDrained(ReadingOf(d.rules), d.Value())
    modifies d, d.buffer
    ensures d.Valid()
    ensures IsServedAs(requests, ending, d.Value(), Consume(ReadingOf(d.rules), old(d.Value()), chunk))
    ensures ending.Open? ==> IsDrained(ReadingOf(d.rules), d.Value())
    ensures |requests| + |chunk| < turns ==> !ending.GivenUp?
  {
    hide Serve, Consume, IsDrained, ReadingOf, With, IsServedAs;
    var consumed: nat, left: nat := 0, turns;
    requests, ending := [], Open;
    ghost var all := Consume(ReadingOf(d.rules), d.Value(), chunk);
    assert [] + all.requests == all.requests && chunk[0..] == chunk;
    while true
      invariant d.Valid() && IsDrained(ReadingOf(d.rules), d.Value()) && consumed <= |chunk|
      invariant var v := Consume(ReadingOf(d.rules), d.Value(), chunk[consumed..]);
                all == Served(requests + v.requests, v.end)
      invariant turns <= left + |requests| + consumed
      decreases |chunk| - consumed
    {
      ghost var rest := chunk[consumed..];
      if d.off == DECODING_BUFFER_SIZE || consumed == |chunk| {
        ending := RefuseMore(d, chunk[consumed..], left, requests, all);
        return;
      }
      var accepted, end, more;
      accepted, requests, end, more := ConsumeSome(d, chunk[consumed..], left, requests, all);
      assert rest[accepted..] == chunk[consumed + accepted..];
      consumed, left := consumed + accepted, more;
      if !end.Open? || consumed == |chunk| {
        return requests, end;
      }
    }
  }
}
