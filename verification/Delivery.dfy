/**
 How a stream of bytes becomes requests: heads and bodies in turn, from a buffer of fixed size that is filled
 by whatever pieces the transport delivers. The requests do not depend on the pieces.
 */
module Delivery {
  import opened Octets
  import opened Framers
  import opened RequestHead

  const DECODING_BUFFER_SIZE := 16384

  /** The head as it was received, what it says, and the body's wire bytes. */
  datatype Request = Request(raw: Bytes, head: Head, body: Option<Bytes>)

  /** A request whose body is still coming in. */
  datatype Body = Body(raw: Bytes, head: Head, framer: Framer, taken: Bytes)

  datatype State = State(pending: Bytes, body: Option<Body>)
  {
    predicate Valid() { body.Some? ==> body.value.framer.Valid() && !body.value.framer.Stopped() }
  }

  datatype End = Waiting(state: State) | Rejected | Closed

  /** The requests that were handed out, and how things stand after the last. */
  datatype Served = Served(requests: seq<Request>, end: End)

  datatype Step = Emit(request: Request, next: State) | Halt(end: End)

  // ---- how heads are read

  type Look = f: Bytes -> Outcome<Head> | forall b :: f(b).Done? ==> 0 < f(b).end <= |b|
    ghost witness _ => More

  /** What the decoder makes of the bytes of a head, and of those of a body. */
  datatype Reading = Reading(actual: Look, feed: Feeder)

  /** What a framer takes of the bytes it is given, and the framer afterwards. */
  type Feeder = g: (Framer, Bytes) -> (Framer, nat) | forall f: Framer, s: Bytes | f.Valid() && !f.Stopped() ::
      && g(f, s).0.Valid() && g(f, s).1 <= |s|
      && (if g(f, s).0.Stopped() then g(f, s).0.Done() ==> 0 < g(f, s).1 else g(f, s).1 == |s|)
    ghost witness (f: Framer, s: Bytes) => if s == [] then (Raw(1, 0, false), 0) else (Raw(1, 1, false), 1)

  /** A complete head stays, and it is complete as soon as its last byte is there. */
  predicate HeadStays(r: Reading, b: Bytes, d: Bytes) {
    b <= d ==>
      && (r.actual(b).Done? ==> r.actual(d) == r.actual(b))
      && (r.actual(d).Done? && r.actual(d).end <= |b| ==> r.actual(b) == r.actual(d))
  }

  /** A framer does not mind how it is fed. */
  predicate FeedSplits(r: Reading, f: Framer, a: Bytes, b: Bytes) {
    f.Valid() && !f.Stopped() ==>
      var x := r.feed(f, a);
      r.feed(f, a + b) == if x.0.Stopped() then x else (r.feed(x.0, b).0, |a| + r.feed(x.0, b).1)
  }

  ghost predicate IsSound(r: Reading) {
    && (forall b, d :: HeadStays(r, b, d))
    && (forall f, a, b :: FeedSplits(r, f, a, b))
    && (forall f :: r.feed(f, []) == (f, 0))
    && r.actual([]).More?
  }

  ghost predicate IsNoticedAt(r: Reading, b: Bytes, q: Bytes) { q <= b && q != [] && r.actual(q).Invalid? }

  /** At some point of its way, the head would be rejected if nothing more were there. */
  ghost predicate IsNoticed(r: Reading, b: Bytes) { exists q :: IsNoticedAt(r, b, q) }

  lemma Stays(r: Reading, b: Bytes, d: Bytes)
    requires IsSound(r) && b <= d
    ensures r.actual(b).Done? ==> r.actual(d) == r.actual(b)
    ensures r.actual(d).Done? && r.actual(d).end <= |b| ==> r.actual(b) == r.actual(d)
  {
    assert HeadStays(r, b, d);
  }

  /** What is noticed stays noticed, and is noticed of a complete head before it is complete. */
  lemma NoticedStays(r: Reading, b: Bytes, d: Bytes)
    requires IsSound(r) && b <= d
    ensures IsNoticed(r, b) ==> IsNoticed(r, d)
    ensures r.actual(b).Invalid? ==> IsNoticed(r, b)
    ensures r.actual(b).Done? && IsNoticed(r, d) ==> IsNoticed(r, b)
  {
    hide HeadStays, FeedSplits;
    if IsNoticed(r, b) {
      var q :| IsNoticedAt(r, b, q);
      assert IsNoticedAt(r, d, q);
    }
    if r.actual(b).Invalid? {
      assert IsNoticedAt(r, b, b);
    }
    if r.actual(b).Done? && IsNoticed(r, d) {
      var q :| IsNoticedAt(r, d, q);
      if |b| <= |q| {
        assert b <= q;
        Stays(r, b, q);
      }
      assert IsNoticedAt(r, b, q);
    }
  }

  lemma SplitsFeed(r: Reading, f: Framer, a: Bytes, b: Bytes)
    requires IsSound(r) && f.Valid() && !f.Stopped()
    ensures var x := r.feed(f, a);
            r.feed(f, a + b) == if x.0.Stopped() then x else (r.feed(x.0, b).0, |a| + r.feed(x.0, b).1)
  {
    assert FeedSplits(r, f, a, b);
  }

  lemma FeedsNothing(r: Reading, f: Framer)
    requires IsSound(r)
    ensures r.feed(f, []) == (f, 0)
  {
  }

  function FramerOf(framing: Framing): Framer
    requires framing.BodyExpected()
  {
    if framing.chunked then StartOfChunks else Raw(framing.contentLength, 0, false)
  }

  /** The bytes that are there go to the body. */
  function BodyStep(r: Reading, pending: Bytes, body: Body): (s: Step)
    requires body.framer.Valid() && !body.framer.Stopped()
    ensures s.Emit? ==> s.next.Valid() && |s.next.pending| < |pending|
    ensures s.Halt? && s.end.Waiting? ==> s.end.state.Valid() && s.end.state.pending == [] && s.end.state.body.Some?
    ensures s.Halt? ==> !s.end.Closed?
  {
    var (framer, n) := r.feed(body.framer, pending);
    var taken := body.taken + pending[..n];
    if framer.Broken() then Halt(Rejected)
    else if framer.Done() then Emit(Request(body.raw, body.head, Some(taken)), State(pending[n..], None))
    else Halt(Waiting(State([], Some(Body(body.raw, body.head, framer, taken)))))
  }

  /** A head is followed by its body, if it has one. */
  function AfterHead(r: Reading, pending: Bytes, head: Head, n: nat): (s: Step)
    requires 0 < n <= |pending|
    ensures s.Emit? ==> s.next.Valid() && |s.next.pending| < |pending|
    ensures s.Halt? && s.end.Waiting? ==> s.end.state.Valid() && s.end.state.pending == [] && s.end.state.body.Some?
    ensures s.Halt? ==> !s.end.Closed?
  {
    if head.framing.BodyExpected()
    then BodyStep(r, pending[n..], Body(pending[..n], head, FramerOf(head.framing), []))
    else Emit(Request(pending[..n], head, None), State(pending[n..], None))
  }

  /**
   What a buffer of this size can make of a head: one that does not fit is none. The `final` verdict is the one
   that more bytes cannot change: it rejects what is noticed at any point.
   */
  ghost function Verdict(r: Reading, final: bool, b: Bytes): (o: Outcome<Head>)
    ensures o.Done? ==> 0 < o.end <= |b|
  {
    if final && IsNoticed(r, b) then Invalid
    else match r.actual(b)
         case Invalid => Invalid
         case More => if |b| > DECODING_BUFFER_SIZE then Invalid else More
         case Done(head, n) => if n > DECODING_BUFFER_SIZE then Invalid else Done(head, n)
  }

  /** One step on the bytes at hand. */
  ghost function StepOf(r: Reading, final: bool, s: State): (t: Step)
    requires s.Valid()
    ensures t.Emit? ==> t.next.Valid() && |t.next.pending| < |s.pending|
    ensures t.Halt? && t.end.Waiting? ==> t.end.state.Valid()
    ensures t.Halt? ==> !t.end.Closed?
  {
    if s.body.Some? then BodyStep(r, s.pending, s.body.value)
    else match Verdict(r, final, s.pending)
         case Invalid => Halt(Rejected)
         case More => Halt(Waiting(s))
         case Done(head, n) => AfterHead(r, s.pending, head, n)
  }

  /** All the requests that the bytes at hand hold, up to one that closes the connection. */
  ghost function Serve(r: Reading, final: bool, s: State): (v: Served)
    requires s.Valid()
    ensures v.end.Waiting? ==> v.end.state.Valid()
    decreases |s.pending|
  {
    match StepOf(r, final, s)
    case Halt(end) => Served([], end)
    case Emit(request, next) =>
      if request.head.framing.close then Served([request], Closed)
      else var v := Serve(r, final, next); Served([request] + v.requests, v.end)
  }

  function With(s: State, x: Bytes): State { s.(pending := s.pending + x) }

  /** A complete head that would be rejected if it came in up to a certain point only. */
  ghost predicate IsDisputed(r: Reading, s: State) {
    s.body.None? && Verdict(r, false, s.pending).Done? && IsNoticed(r, s.pending)
  }

  /** No head on the way is disputed, unless it makes no difference because its body is broken. */
  ghost predicate IsPlainRun(r: Reading, s: State)
    requires s.Valid()
    decreases |s.pending|
  {
    var t := StepOf(r, false, s);
    && (IsDisputed(r, s) ==> t == Halt(Rejected))
    && (t.Emit? && !t.request.head.framing.close ==> IsPlainRun(r, t.next))
  }

  // ---- verdicts are final

  lemma VerdictStable(r: Reading, final: bool, b: Bytes, d: Bytes)
    requires IsSound(r) && b <= d
    ensures final && Verdict(r, final, b).Invalid? ==> Verdict(r, final, d).Invalid?
    ensures Verdict(r, final, b).Done? ==> Verdict(r, final, d) == Verdict(r, final, b)
    ensures Verdict(r, final, d).Done? && Verdict(r, final, d).end <= |b| ==> Verdict(r, final, b) == Verdict(r, final, d)
  {
    hide IsSound, IsNoticed;
    Stays(r, b, d);
    NoticedStays(r, b, d);
  }

  lemma BodyStepMore(r: Reading, x: Bytes, y: Bytes, body: Body)
    requires IsSound(r)
    requires body.framer.Valid() && !body.framer.Stopped()
    ensures match BodyStep(r, x, body)
            case Emit(q, next) => BodyStep(r, x + y, body) == Emit(q, With(next, y))
            case Halt(Waiting(w)) => w.body.Some? && BodyStep(r, x + y, body) == BodyStep(r, y, w.body.value)
            case Halt(end) => BodyStep(r, x + y, body) == Halt(end)
  {
    hide IsSound;
    SplitsFeed(r, body.framer, x, y);
    var (f, n) := r.feed(body.framer, x);
    if f.Stopped() {
      WithinFirst(x, y, n);
    } else {
      IntoSecond(body.taken, x, y, r.feed(f, y).1);
    }
  }

  lemma WithinFirst(x: Bytes, y: Bytes, n: nat)
    requires n <= |x|
    ensures (x + y)[..n] == x[..n] && (x + y)[n..] == x[n..] + y
  {
  }

  lemma IntoSecond(taken: Bytes, x: Bytes, y: Bytes, m: nat)
    requires m <= |y|
    ensures taken + (x + y)[..|x| + m] == (taken + x[..|x|]) + y[..m] && (x + y)[|x| + m..] == y[m..]
  {
  }

  /** The next step of a body that waits. */
  function Resume(r: Reading, s: State, y: Bytes): Step {
    if s.body.Some? && s.Valid() then BodyStep(r, y, s.body.value) else Halt(Rejected)
  }

  lemma AfterHeadMore(r: Reading, x: Bytes, y: Bytes, head: Head, n: nat)
    requires IsSound(r)
    requires 0 < n <= |x|
    ensures match AfterHead(r, x, head, n)
            case Emit(q, next) => AfterHead(r, x + y, head, n) == Emit(q, With(next, y))
            case Halt(Waiting(w)) => w.body.Some? && AfterHead(r, x + y, head, n) == Resume(r, w, y)
            case Halt(end) => AfterHead(r, x + y, head, n) == Halt(end)
  {
    hide IsSound, BodyStep;
    assert (x + y)[..n] == x[..n] && (x + y)[n..] == x[n..] + y;
    if head.framing.BodyExpected() {
      BodyStepMore(r, x[n..], y, Body(x[..n], head, FramerOf(head.framing), []));
    }
  }

  /** What a step does, it does with more bytes as well; a rejection, if it goes by final verdicts. */
  lemma StepMore(r: Reading, final: bool, s: State, y: Bytes)
    requires IsSound(r) && s.Valid()
    ensures match StepOf(r, final, s)
            case Emit(q, next) => StepOf(r, final, With(s, y)) == Emit(q, With(next, y))
            case Halt(Waiting(w)) =>
              w.Valid() && (w.body.None? ==> w == s) && StepOf(r, final, With(s, y)) == StepOf(r, final, With(w, y))
            case Halt(end) =>
              final || s.body.Some? || Verdict(r, false, s.pending).Done? ==> StepOf(r, final, With(s, y)) == Halt(end)
  {
    hide IsSound, Verdict, BodyStep, AfterHead;
    if s.body.Some? {
      BodyStepMore(r, s.pending, y, s.body.value);
      assert [] + y == y;
    } else {
      VerdictStable(r, final, s.pending, s.pending + y);
      var o := Verdict(r, final, s.pending);
      if o.Done? {
        AfterHeadMore(r, s.pending, y, o.value, o.end);
        assert [] + y == y;
      }
    }
  }

  lemma ServeUnfolds(r: Reading, final: bool, s: State)
    requires s.Valid()
    ensures var t := StepOf(r, final, s);
            && (t.Halt? ==> Serve(r, final, s) == Served([], t.end))
            && (t.Emit? && t.request.head.framing.close ==> Serve(r, final, s) == Served([t.request], Closed))
            && (t.Emit? && !t.request.head.framing.close ==>
                  Serve(r, final, s) ==
                  Served([t.request] + Serve(r, final, t.next).requests, Serve(r, final, t.next).end))
  {
    hide StepOf;
  }

  /** Serving in two pieces is serving in one. */
  lemma {:induction false} ServeWith(r: Reading, final: bool, s: State, y: Bytes)
    requires IsSound(r) && s.Valid()
    ensures var v := Serve(r, final, s);
            if v.end.Waiting? then
              var u := Serve(r, final, With(v.end.state, y));
              Serve(r, final, With(s, y)) == Served(v.requests + u.requests, u.end)
            else final ==> Serve(r, final, With(s, y)) == v
    decreases |s.pending|
  {
    hide IsSound, StepOf, Serve;
    StepMore(r, final, s, y);
    ServeUnfolds(r, final, s);
    ServeUnfolds(r, final, With(s, y));
    var t := StepOf(r, final, s);
    if t.Emit? {
      if !t.request.head.framing.close {
        ServeWith(r, final, t.next, y);
        var v := Serve(r, final, t.next);
        if v.end.Waiting? {
          var u := Serve(r, final, With(v.end.state, y));
          assert [t.request] + (v.requests + u.requests) == ([t.request] + v.requests) + u.requests;
        }
      }
    } else if t.end.Waiting? {
      ServeUnfolds(r, final, With(t.end.state, y));
      var u := Serve(r, final, With(t.end.state, y));
      assert [] + u.requests == u.requests;
    }
  }

  // ---- the decoder as it is, on a buffer that is never overfull

  /** The head in the buffer would have been rejected at some point of its way. */
  ghost predicate IsDoomed(r: Reading, s: State) { s.body.None? && IsNoticed(r, s.pending) }

  /** What the decoder does, against the verdicts that cannot change. */
  ghost predicate Agrees(r: Reading, actual: Served, final: Served) {
    && actual.requests == final.requests
    && (actual.end == final.end || (final.end.Rejected? && actual.end.Waiting? && IsDoomed(r, actual.end.state)))
  }

  /** Between two deliveries nothing is left to do: a head is incomplete, or all bytes went to a body. */
  ghost predicate IsDrained(r: Reading, s: State) {
    && s.Valid() && |s.pending| <= DECODING_BUFFER_SIZE
    && if s.body.None? then r.actual(s.pending).More? else s.pending == []
  }

  /** Nothing can come of what waits here: its head is doomed, or the rest of its body is broken. */
  ghost predicate IsLost(r: Reading, s: State, rest: Bytes) {
    s.Valid() && if s.body.None? then IsNoticed(r, s.pending) else StepOf(r, false, With(s, rest)) == Halt(Rejected)
  }

  /** What has been noticed is rejected, or lost. */
  lemma NoticedIsLost(r: Reading, s: State, y: Bytes)
    requires IsSound(r) && s.Valid() && IsDoomed(r, s) && IsPlainRun(r, With(s, y))
    ensures StepOf(r, true, s) == Halt(Rejected)
    ensures var t := StepOf(r, false, s);
            || t == Halt(Rejected)
            || (t.Halt? && t.end.Waiting? && IsLost(r, t.end.state, y) && IsPlainRun(r, With(t.end.state, y)))
  {
    hide IsSound, IsNoticed, BodyStep, AfterHead;
    StepMore(r, false, s, y);
    VerdictStable(r, false, s.pending, s.pending + y);
    NoticedStays(r, s.pending, s.pending + y);
  }

  /** Both kinds of verdict serve alike, except that what is doomed may not have been rejected yet. */
  lemma {:induction false} ServeAgrees(r: Reading, s: State, y: Bytes)
    requires IsSound(r) && s.Valid() && IsPlainRun(r, With(s, y))
    ensures var a, f := Serve(r, false, s), Serve(r, true, s);
            || a == f
            || (f == Served(a.requests, Rejected) && a.end.Waiting? && IsLost(r, a.end.state, y))
    ensures var a := Serve(r, false, s); a.end.Waiting? ==> IsPlainRun(r, With(a.end.state, y))
    decreases |s.pending|
  {
    hide IsSound, IsNoticed, StepOf, Serve, IsLost, IsPlainRun;
    ServeUnfolds(r, false, s);
    ServeUnfolds(r, true, s);
    if IsDoomed(r, s) {
      NoticedIsLost(r, s, y);
    } else {
      SameStep(r, s);
      StepMore(r, false, s, y);
      PlainUnfolds(r, With(s, y));
      var t := StepOf(r, false, s);
      if t.Emit? && !t.request.head.framing.close {
        ServeAgrees(r, t.next, y);
      } else if t.Halt? && t.end.Waiting? {
        PlainFrom(r, With(s, y), With(t.end.state, y));
      }
    }
  }

  lemma SameStep(r: Reading, s: State)
    requires s.Valid() && !IsDoomed(r, s)
    ensures StepOf(r, true, s) == StepOf(r, false, s)
  {
    hide IsNoticed, BodyStep, AfterHead;
  }

  lemma PlainUnfolds(r: Reading, s: State)
    requires s.Valid()
    ensures var t := StepOf(r, false, s);
            IsPlainRun(r, s) <==> && (IsDisputed(r, s) ==> t == Halt(Rejected))
                                  && (t.Emit? && !t.request.head.framing.close ==> IsPlainRun(r, t.next))
  {
    hide StepOf, IsDisputed;
  }

  lemma PlainFrom(r: Reading, s: State, t: State)
    requires s.Valid() && t.Valid() && StepOf(r, false, s) == StepOf(r, false, t) && (t.body.None? ==> t == s)
    ensures IsPlainRun(r, s) ==> IsPlainRun(r, t)
  {
    hide StepOf, IsPlainRun;
    PlainUnfolds(r, s);
    PlainUnfolds(r, t);
  }

  /** What is lost stays lost until it is rejected, and hands out nothing. */
  lemma LostServes(r: Reading, s: State, x: Bytes, y: Bytes)
    requires IsSound(r) && IsLost(r, s, x + y) && IsPlainRun(r, With(s, x + y))
    ensures var v := Serve(r, false, With(s, x));
            || v == Served([], Rejected)
            || (v.requests == [] && v.end.Waiting? && IsLost(r, v.end.state, y) && IsPlainRun(r, With(v.end.state, y)))
  {
    hide IsSound, IsNoticed, StepOf, Serve, IsPlainRun;
    assert With(With(s, x), y) == With(s, x + y) by { assert (s.pending + x) + y == s.pending + (x + y); }
    ServeUnfolds(r, false, With(s, x));
    if s.body.None? {
      NoticedStays(r, s.pending, s.pending + x);
      NoticedIsLost(r, With(s, x), y);
    } else {
      StepMore(r, false, With(s, x), y);
      var t := StepOf(r, false, With(s, x));
      if t.Halt? && t.end.Waiting? {
        PlainUnfolds(r, With(t.end.state, y));
        BodyStaysBody(r, With(s, x));
      }
    }
  }

  lemma BodyStaysBody(r: Reading, s: State)
    requires s.Valid() && s.body.Some?
    ensures var t := StepOf(r, false, s); t.Halt? && t.end.Waiting? ==> t.end.state.body.Some?
  {
    hide BodyStep;
  }

  /** A buffer that has nothing to give gives nothing. */
  lemma DrainedGivesNothing(r: Reading, s: State)
    requires IsSound(r)
    requires IsDrained(r, s)
    ensures Serve(r, false, s) == Served([], Waiting(s))
  {
    if s.body.Some? {
      FeedsNothing(r, s.body.value.framer);
      var b := s.body.value;
      assert b.taken + [] == b.taken;
    }
  }

  /** One delivery: as much as fits, then everything it completes, until it is used up or serving ends. */
  ghost function Consume(r: Reading, s: State, chunk: Bytes): (v: Served)
    requires s.Valid() && |s.pending| <= DECODING_BUFFER_SIZE
    decreases |chunk|
  {
    var n := Min(DECODING_BUFFER_SIZE - |s.pending|, |chunk|);
    if n == 0 then Served([], Rejected)
    else
      var v := Serve(r, false, With(s, chunk[..n]));
      if v.end.Waiting? && n < |chunk| && |v.end.state.pending| <= DECODING_BUFFER_SIZE then
        var u := Consume(r, v.end.state, chunk[n..]);
        Served(v.requests + u.requests, u.end)
      else v
  }

  /** What has been delivered so far is `base`, it was served as `requests`, as it would have been in one piece,
      `s` is left, and `rest` is still to come. */
  ghost predicate IsServed(r: Reading, base: State, requests: seq<Request>, s: State, rest: Bytes) {
    && base.Valid() && IsDrained(r, s) && IsPlainRun(r, With(s, rest))
    && Serve(r, false, base) == Served(requests, Waiting(s))
    && (|| Serve(r, true, base) == Served(requests, Waiting(s))
        || (Serve(r, true, base) == Served(requests, Rejected) && IsLost(r, s, rest)))
  }

  /** The result of a delivery, against what the final verdicts on everything so far say. */
  ghost predicate Follows(r: Reading, base: State, requests: seq<Request>, v: Served, rest: Bytes) {
    base.Valid()
    && if v.end.Waiting? then IsServed(r, base, requests + v.requests, v.end.state, rest)
       else Serve(r, true, base) == Served(requests + v.requests, v.end)
  }

  /** A delivery that fits the buffer. */
  lemma Deliver(r: Reading, base: State, requests: seq<Request>, s: State, x: Bytes, rest: Bytes)
    requires IsSound(r) && IsServed(r, base, requests, s, x + rest)
    ensures Follows(r, With(base, x), requests, Serve(r, false, With(s, x)), rest)
  {
    hide IsSound, Serve, IsPlainRun, IsLost, IsDrained;
    assert With(With(s, x), rest) == With(s, x + rest) by { assert (s.pending + x) + rest == s.pending + (x + rest); }
    DrainedIsValid(r, s);
    ServeWith(r, false, base, x);
    ServeWith(r, true, base, x);
    WaitingFits(r, With(s, x));
    if Serve(r, true, base).end.Rejected? {
      LostServes(r, s, x, rest);
      assert requests + [] == requests;
    } else {
      ServeAgrees(r, With(s, x), rest);
    }
  }

  lemma DrainedIsValid(r: Reading, s: State)
    requires IsDrained(r, s)
    ensures s.Valid() && |s.pending| <= DECODING_BUFFER_SIZE
  {
  }

  /** A full buffer without a complete head is rejected with the next byte. */
  lemma FullIsRejected(r: Reading, s: State, y: Bytes)
    requires IsSound(r)
    requires IsDrained(r, s) && |s.pending| == DECODING_BUFFER_SIZE && y != []
    ensures Serve(r, true, With(s, y)) == Served([], Rejected)
  {
    hide IsSound, IsNoticed;
    Stays(r, s.pending, s.pending + y);
  }

  lemma DeliverToFull(r: Reading, base: State, requests: seq<Request>, s: State, y: Bytes, rest: Bytes)
    requires IsSound(r) && IsServed(r, base, requests, s, y + rest)
    requires |s.pending| == DECODING_BUFFER_SIZE && y != []
    ensures Serve(r, true, With(base, y)) == Served(requests, Rejected)
  {
    hide IsSound, Serve, IsPlainRun, IsDoomed, IsLost;
    ServeWith(r, true, base, y);
    if Serve(r, true, base).end.Waiting? {
      FullIsRejected(r, s, y);
      assert requests + [] == requests;
    }
  }

  /** A delivery of any size. */
  lemma {:induction false} ConsumeAgrees(r: Reading, base: State, requests: seq<Request>, s: State, chunk: Bytes, rest: Bytes)
    requires IsSound(r) && IsServed(r, base, requests, s, chunk + rest) && chunk != []
    ensures Follows(r, With(base, chunk), requests, Consume(r, s, chunk), rest)
    decreases |chunk|
  {
    hide IsSound, Serve, IsPlainRun, IsDoomed, Consume, IsLost, IsDrained, IsServed;
    ServedIsDrained(r, base, requests, s, chunk + rest);
    ConsumeUnfolds(r, s, chunk);
    var n := Min(DECODING_BUFFER_SIZE - |s.pending|, |chunk|);
    if n == 0 {
      DeliverToFull(r, base, requests, s, chunk, rest);
      assert requests + [] == requests;
    } else {
      var x, y := chunk[..n], chunk[n..];
      assert With(With(base, x), y) == With(base, chunk) by { JoinsUp(base.pending, x, y, chunk); }
      assert chunk + rest == x + (y + rest);
      Deliver(r, base, requests, s, x, y + rest);
      var v := Serve(r, false, With(s, x));
      if !v.end.Waiting? {
        ServeWith(r, true, With(base, x), y);
      } else if n < |chunk| {
        ServedIsDrained(r, With(base, x), requests + v.requests, v.end.state, y + rest);
        ConsumeAgrees(r, With(base, x), requests + v.requests, v.end.state, y, rest);
        var u := Consume(r, v.end.state, y);
        assert (requests + v.requests) + u.requests == requests + (v.requests + u.requests);
      } else {
        assert x == chunk && y + rest == rest;
      }
    }
  }

  lemma JoinsUp(a: Bytes, x: Bytes, y: Bytes, all: Bytes)
    requires all == x + y
    ensures (a + x) + y == a + all
  {
  }

  lemma ServedIsDrained(r: Reading, base: State, requests: seq<Request>, s: State, rest: Bytes)
    requires IsServed(r, base, requests, s, rest)
    ensures base.Valid() && IsDrained(r, s) && s.Valid() && |s.pending| <= DECODING_BUFFER_SIZE
  {
  }

  lemma ConsumeUnfolds(r: Reading, s: State, chunk: Bytes)
    requires s.Valid() && |s.pending| <= DECODING_BUFFER_SIZE
    ensures var n := Min(DECODING_BUFFER_SIZE - |s.pending|, |chunk|);
            Consume(r, s, chunk) ==
            if n == 0 then Served([], Rejected)
            else
              var v := Serve(r, false, With(s, chunk[..n]));
              if v.end.Waiting? && n < |chunk| && |v.end.state.pending| <= DECODING_BUFFER_SIZE then
                var u := Consume(r, v.end.state, chunk[n..]);
                Served(v.requests + u.requests, u.end)
              else v
  {
    hide IsSound, Serve, StepOf;
  }

  // ---- a whole connection

  const FRESH := State([], None)

  /** What is delivered piece by piece, until serving ends. */
  ghost function Receive(r: Reading, s: State, chunks: seq<Bytes>): Served
    requires s.Valid() && |s.pending| <= DECODING_BUFFER_SIZE
    decreases |chunks|
  {
    if chunks == [] then Served([], Waiting(s))
    else
      var v := Consume(r, s, chunks[0]);
      if v.end.Waiting? && |v.end.state.pending| <= DECODING_BUFFER_SIZE && v.end.state.Valid() then
        var u := Receive(r, v.end.state, chunks[1..]);
        Served(v.requests + u.requests, u.end)
      else v
  }

  predicate NoneCloses(requests: seq<Request>) { forall i | 0 <= i < |requests| :: !requests[i].head.framing.close }

  /** Serving is over with the first request that closes the connection, and is closed by nothing else. */
  predicate ClosesBehind(v: Served) {
    if v.end.Closed? then
      var n := |v.requests|;
      n > 0 && v.requests[n - 1].head.framing.close && NoneCloses(v.requests[..n - 1])
    else NoneCloses(v.requests)
  }

  lemma NoneClosesFirst(first: seq<Request>, v: Served)
    requires NoneCloses(first) && ClosesBehind(v)
    ensures ClosesBehind(Served(first + v.requests, v.end))
  {
    var all, n := first + v.requests, |first + v.requests|;
    if v.end.Closed? {
      assert all[..n - 1] == first + v.requests[..|v.requests| - 1];
    }
  }

  lemma {:induction false} ServeCloses(r: Reading, final: bool, s: State)
    requires s.Valid()
    ensures ClosesBehind(Serve(r, final, s))
    decreases |s.pending|
  {
    hide StepOf, ClosesBehind;
    var t := StepOf(r, final, s);
    if t.Emit? && !t.request.head.framing.close {
      ServeCloses(r, final, t.next);
      NoneClosesFirst([t.request], Serve(r, final, t.next));
    } else {
      OneOrNone(t, Serve(r, final, s));
    }
  }

  lemma OneOrNone(t: Step, v: Served)
    requires if t.Emit? then t.request.head.framing.close && v == Served([t.request], Closed)
             else !t.end.Closed? && v == Served([], t.end)
    ensures ClosesBehind(v)
  {
  }

  lemma {:induction false} ConsumeCloses(r: Reading, s: State, chunk: Bytes)
    requires s.Valid() && |s.pending| <= DECODING_BUFFER_SIZE
    ensures ClosesBehind(Consume(r, s, chunk))
    decreases |chunk|
  {
    hide Serve;
    var n := Min(DECODING_BUFFER_SIZE - |s.pending|, |chunk|);
    if n > 0 {
      ServeCloses(r, false, With(s, chunk[..n]));
      var v := Serve(r, false, With(s, chunk[..n]));
      if v.end.Waiting? && n < |chunk| && |v.end.state.pending| <= DECODING_BUFFER_SIZE {
        ConsumeCloses(r, v.end.state, chunk[n..]);
        NoneClosesFirst(v.requests, Consume(r, v.end.state, chunk[n..]));
      }
    }
  }

  /** However the bytes of a connection arrive, nothing is served behind a request that closes it. */
  lemma {:induction false} ReceiveCloses(r: Reading, s: State, chunks: seq<Bytes>)
    requires s.Valid() && |s.pending| <= DECODING_BUFFER_SIZE
    ensures ClosesBehind(Receive(r, s, chunks))
    decreases |chunks|
  {
    hide Consume;
    if chunks != [] {
      ConsumeCloses(r, s, chunks[0]);
      var v := Consume(r, s, chunks[0]);
      if v.end.Waiting? && |v.end.state.pending| <= DECODING_BUFFER_SIZE && v.end.state.Valid() {
        ReceiveCloses(r, v.end.state, chunks[1..]);
        NoneClosesFirst(v.requests, Receive(r, v.end.state, chunks[1..]));
      }
    }
  }

  function Flatten(chunks: seq<Bytes>): Bytes { if chunks == [] then [] else chunks[0] + Flatten(chunks[1..]) }

  /** A stream and a way in which it may arrive: pieces of at least one byte. */
  predicate Cuts(chunks: seq<Bytes>, stream: Bytes) { Flatten(chunks) == stream && [] !in chunks }

  lemma {:induction false} ReceiveAgrees(r: Reading, base: State, requests: seq<Request>, s: State, chunks: seq<Bytes>)
    requires IsSound(r) && IsServed(r, base, requests, s, Flatten(chunks)) && [] !in chunks
    requires s.Valid() && |s.pending| <= DECODING_BUFFER_SIZE
    ensures Follows(r, With(base, Flatten(chunks)), requests, Receive(r, s, chunks), [])
    decreases |chunks|
  {
    hide IsSound, Serve, IsPlainRun, IsDoomed, Consume, IsLost, IsDrained, IsServed;
    ServedIsDrained(r, base, requests, s, Flatten(chunks));
    if chunks == [] {
      assert With(base, []) == base by { assert base.pending + [] == base.pending; }
      assert requests + [] == requests;
    } else {
      var x, y := chunks[0], Flatten(chunks[1..]);
      assert With(With(base, x), y) == With(base, Flatten(chunks)) by { JoinsUp(base.pending, x, y, Flatten(chunks)); }
      ConsumeAgrees(r, base, requests, s, x, y);
      var v := Consume(r, s, x);
      if v.end.Waiting? {
        ServedIsDrained(r, With(base, x), requests + v.requests, v.end.state, y);
        ReceiveAgrees(r, With(base, x), requests + v.requests, v.end.state, chunks[1..]);
        var u := Receive(r, v.end.state, chunks[1..]);
        assert (requests + v.requests) + u.requests == requests + (v.requests + u.requests);
      } else {
        ServeWith(r, true, With(base, x), y);
      }
    }
  }

  lemma FreshServesNothing(r: Reading, final: bool)
    requires IsSound(r)
    ensures Serve(r, final, FRESH) == Served([], Waiting(FRESH)) && !IsNoticed(r, [])
  {
    hide HeadStays, FeedSplits;
  }

  lemma FreshIsServed(r: Reading, stream: Bytes)
    requires IsSound(r) && IsPlainRun(r, With(FRESH, stream))
    ensures IsServed(r, FRESH, [], FRESH, stream)
  {
    hide HeadStays, FeedSplits, IsPlainRun, IsNoticed, Serve;
    FreshServesNothing(r, false);
    FreshServesNothing(r, true);
  }

  /** However a stream arrives, it is served as the final verdicts on the whole of it say. */
  lemma StreamAgrees(r: Reading, stream: Bytes, chunks: seq<Bytes>)
    requires IsSound(r) && IsPlainRun(r, State(stream, None)) && Cuts(chunks, stream)
    ensures Agrees(r, Receive(r, FRESH, chunks), Serve(r, true, State(stream, None)))
    ensures var v := Receive(r, FRESH, chunks); v.end.Waiting? ==> IsDrained(r, v.end.state)
  {
    hide IsSound, Serve, IsPlainRun, Receive, IsNoticed;
    assert [] + stream == stream;
    FreshIsServed(r, stream);
    ReceiveAgrees(r, FRESH, [], FRESH, chunks);
    var v := Receive(r, FRESH, chunks);
    assert [] + v.requests == v.requests;
    if v.end.Waiting? {
      LostAtTheEnd(r, v.end.state);
    }
  }

  /** A body that waits for more is not broken. */
  lemma LostAtTheEnd(r: Reading, s: State)
    requires IsSound(r) && IsDrained(r, s)
    ensures IsLost(r, s, []) ==> IsDoomed(r, s)
  {
    hide HeadStays, FeedSplits, IsNoticed;
    if s.body.Some? {
      assert With(s, []) == s;
      FeedsNothing(r, s.body.value.framer);
    }
  }

  // ---- nothing is lost, nothing is made up

  function WireOf(q: Request): Bytes { q.raw + if q.body.Some? then q.body.value else [] }

  function Wire(requests: seq<Request>): Bytes {
    if requests == [] then [] else WireOf(requests[0]) + Wire(requests[1..])
  }

  /** The bytes that have been received and not yet been handed out. */
  function Held(s: State): Bytes { (if s.body.Some? then s.body.value.raw + s.body.value.taken else []) + s.pending }

  lemma BodyStepConserves(r: Reading, pending: Bytes, body: Body)
    requires body.framer.Valid() && !body.framer.Stopped()
    ensures match BodyStep(r, pending, body)
            case Emit(q, next) => WireOf(q) + Held(next) == body.raw + body.taken + pending
            case Halt(Waiting(w)) => Held(w) == body.raw + body.taken + pending
            case Halt(_) => true
  {
    hide IsSound;
    var (framer, n) := r.feed(body.framer, pending);
    assert pending[..n] + pending[n..] == pending;
    assert body.raw + body.taken + pending == body.raw + (body.taken + pending[..n]) + pending[n..];
  }

  lemma StepConserves(r: Reading, final: bool, s: State)
    requires s.Valid()
    ensures match StepOf(r, final, s)
            case Emit(q, next) => WireOf(q) + Held(next) == Held(s)
            case Halt(Waiting(w)) => Held(w) == Held(s)
            case Halt(_) => true
  {
    hide IsSound, Verdict, BodyStep;
    if s.body.Some? {
      BodyStepConserves(r, s.pending, s.body.value);
    } else {
      var o := Verdict(r, final, s.pending);
      if o.Done? {
        var n := o.end;
        assert s.pending[..n] + s.pending[n..] == s.pending;
        if o.value.framing.BodyExpected() {
          BodyStepConserves(r, s.pending[n..], Body(s.pending[..n], o.value, FramerOf(o.value.framing), []));
          assert s.pending[..n] + [] + s.pending[n..] == s.pending;
        }
      }
    }
  }

  /** The bytes of the requests that came out, and those still held, are the bytes that went in. */
  lemma {:induction false} ServeConserves(r: Reading, final: bool, s: State)
    requires s.Valid()
    ensures var v := Serve(r, final, s); v.end.Waiting? ==> Wire(v.requests) + Held(v.end.state) == Held(s)
    decreases |s.pending|
  {
    hide IsSound, StepOf, WireOf, Held;
    StepConserves(r, final, s);
    var t := StepOf(r, final, s);
    if t.Emit? && !t.request.head.framing.close {
      ServeConserves(r, final, t.next);
      var v := Serve(r, final, t.next);
      if v.end.Waiting? {
        assert WireOf(t.request) + (Wire(v.requests) + Held(v.end.state))
            == (WireOf(t.request) + Wire(v.requests)) + Held(v.end.state);
        assert ([t.request] + v.requests)[1..] == v.requests;
      }
    }
  }

  // ---- a delivery that leaves the decoder waiting might as well have come in one piece

  lemma {:induction false} ConsumeIsWhole(r: Reading, base: State, requests: seq<Request>, s: State, chunk: Bytes)
    requires IsSound(r)
    requires base.Valid() && s.Valid() && |s.pending| <= DECODING_BUFFER_SIZE
    requires Serve(r, false, base) == Served(requests, Waiting(s))
    ensures var v := Consume(r, s, chunk);
            v.end.Waiting? ==> Serve(r, false, With(base, chunk)) == Served(requests + v.requests, v.end)
    decreases |chunk|
  {
    hide IsSound, Serve, Consume;
    ConsumeUnfolds(r, s, chunk);
    var n := Min(DECODING_BUFFER_SIZE - |s.pending|, |chunk|);
    if n > 0 {
      var x, y := chunk[..n], chunk[n..];
      assert With(With(base, x), y) == With(base, chunk) by { JoinsUp(base.pending, x, y, chunk); }
      ServeWith(r, false, base, x);
      var v := Serve(r, false, With(s, x));
      if n == |chunk| {
        assert x == chunk;
      } else if v.end.Waiting? && |v.end.state.pending| <= DECODING_BUFFER_SIZE {
        ConsumeIsWhole(r, With(base, x), requests + v.requests, v.end.state, y);
        var u := Consume(r, v.end.state, y);
        assert (requests + v.requests) + u.requests == requests + (v.requests + u.requests);
      } else {
        WaitingFits(r, With(s, x));
      }
    }
  }

  lemma {:induction false} WaitingFits(r: Reading, s: State)
    requires s.Valid()
    ensures var v := Serve(r, false, s); v.end.Waiting? ==> IsDrained(r, v.end.state)
    decreases |s.pending|
  {
    hide IsSound, AfterHead, BodyStep;
    var t := StepOf(r, false, s);
    if t.Emit? {
      WaitingFits(r, t.next);
    }
  }

  lemma {:induction false} ReceiveIsWhole(r: Reading, base: State, requests: seq<Request>, s: State, chunks: seq<Bytes>)
    requires IsSound(r)
    requires base.Valid() && s.Valid() && |s.pending| <= DECODING_BUFFER_SIZE
    requires Serve(r, false, base) == Served(requests, Waiting(s))
    ensures var v := Receive(r, s, chunks);
            v.end.Waiting? ==> Serve(r, false, With(base, Flatten(chunks))) == Served(requests + v.requests, v.end)
    decreases |chunks|
  {
    hide IsSound, Serve, Consume;
    if chunks == [] {
      assert With(base, []) == base by { assert base.pending + [] == base.pending; }
      assert requests + [] == requests;
    } else {
      var x, y := chunks[0], Flatten(chunks[1..]);
      assert With(With(base, x), y) == With(base, Flatten(chunks)) by { JoinsUp(base.pending, x, y, Flatten(chunks)); }
      ConsumeIsWhole(r, base, requests, s, x);
      var v := Consume(r, s, x);
      if v.end.Waiting? {
        WaitingFits(r, With(base, x));
        ReceiveIsWhole(r, With(base, x), requests + v.requests, v.end.state, chunks[1..]);
        var u := Receive(r, v.end.state, chunks[1..]);
        assert (requests + v.requests) + u.requests == requests + (v.requests + u.requests);
      }
    }
  }

  lemma WaitingCutIsWhole(r: Reading, stream: Bytes, chunks: seq<Bytes>)
    requires IsSound(r) && Flatten(chunks) == stream
    ensures var v := Receive(r, FRESH, chunks); v.end.Waiting? ==> Serve(r, false, State(stream, None)) == v
  {
    hide IsSound, Serve, Receive, IsNoticed;
    FreshServesNothing(r, false);
    assert [] + stream == stream;
    ReceiveIsWhole(r, FRESH, [], FRESH, chunks);
    var v := Receive(r, FRESH, chunks);
    assert [] + v.requests == v.requests;
  }

  /** However a stream was cut: as long as the decoder waits, what it handed out and what it holds is the stream. */
  lemma ReceiveConserves(r: Reading, stream: Bytes, chunks: seq<Bytes>)
    requires IsSound(r) && Flatten(chunks) == stream
    ensures var v := Receive(r, FRESH, chunks); v.end.Waiting? ==> Wire(v.requests) + Held(v.end.state) == stream
  {
    hide IsSound, Serve, Receive;
    WaitingCutIsWhole(r, stream, chunks);
    ServeConserves(r, false, State(stream, None));
    assert [] + stream == stream;
  }

  // ---- the requests without what stands behind them

  /** A step that leaves `y` untouched needs no `y`. */
  lemma StepTrims(r: Reading, s: State, y: Bytes)
    requires IsSound(r) && s.Valid()
    requires var t := StepOf(r, false, With(s, y)); t.Emit? && |y| <= |t.next.pending|
    ensures StepOf(r, false, s).Emit?
  {
    hide IsSound, BodyStep;
    StepMore(r, false, s, y);
    if s.body.None? {
      VerdictStable(r, false, s.pending, s.pending + y);
    }
  }

  /** The requests `front` in `s`, all of them undisputed, with `y` behind them. */
  ghost predicate IsFront(r: Reading, s: State) {
    s.Valid() && IsPlainRun(r, s) && Serve(r, false, s).end == Waiting(FRESH)
  }

  lemma FrontGrows(r: Reading, s: State, y: Bytes)
    requires IsSound(r) && s.Valid()
    requires var t := StepOf(r, false, With(s, y));
             t.Emit? && !t.request.head.framing.close && |y| <= |t.next.pending| && !IsDisputed(r, With(s, y))
             && IsFront(r, State(t.next.pending[..|t.next.pending| - |y|], None))
    ensures IsFront(r, s)
  {
    hide IsSound, StepOf, IsNoticed, Serve, IsPlainRun, Verdict;
    StepTrims(r, s, y);
    StepMore(r, false, s, y);
    EmitTakesBody(r, s);
    PlainUnfolds(r, s);
    ServeUnfolds(r, false, s);
    var t := StepOf(r, false, s);
    assert With(t.next, y).pending[..|t.next.pending|] == t.next.pending;
    if s.body.None? {
      VerdictStable(r, false, s.pending, s.pending + y);
      NoticedStays(r, s.pending, s.pending + y);
    }
  }

  /** The run of requests up to a head that is not complete. */
  lemma {:induction false} UpToTheHead(r: Reading, s: State) returns (front: Bytes)
    requires IsSound(r) && s.Valid() && IsPlainRun(r, s)
    requires var v := Serve(r, false, s); v.end.Waiting? && v.end.state.body.None?
    ensures s.pending == front + Serve(r, false, s).end.state.pending && IsFront(r, s.(pending := front))
    decreases |s.pending|
  {
    hide IsSound, StepOf, IsNoticed, Serve, IsPlainRun, Verdict, IsFront;
    PlainUnfolds(r, s);
    ServeUnfolds(r, false, s);
    var t := StepOf(r, false, s);
    if t.Emit? {
      var more := UpToTheHead(r, t.next);
      front := OneMore(r, s, t.next, more, Serve(r, false, s).end.state.pending);
    } else {
      HaltKeeps(r, s);
      front := [];
      FreshIsFront(r);
    }
  }

  lemma FreshIsFront(r: Reading)
    requires IsSound(r)
    ensures IsFront(r, FRESH)
  {
    hide IsSound, IsNoticed;
    FreshServesNothing(r, false);
    PlainUnfolds(r, FRESH);
  }

  lemma OneMore(r: Reading, s: State, next: State, more: Bytes, rest: Bytes) returns (front: Bytes)
    requires IsSound(r) && s.Valid() && !IsDisputed(r, s)
    requires var t := StepOf(r, false, s); t.Emit? && !t.request.head.framing.close && t.next == next
    requires next.pending == more + rest && IsFront(r, next.(pending := more))
    ensures s.pending == front + rest && IsFront(r, s.(pending := front))
  {
    hide IsSound, IsNoticed, Verdict, IsFront;
    EmitTakesBody(r, s);
    front := s.pending[..|s.pending| - |rest|];
    StepTakesFront(r, s);
    assert s.pending[|front|..] == rest by {
      assert next.pending[|more|..] == rest;
    }
    var small := s.(pending := front);
    assert With(small, rest) == s by { assert s.pending == front + rest; }
    assert next.pending[..|next.pending| - |rest|] == more;
    FrontGrows(r, small, rest);
  }

  /** A step takes bytes from the front. */
  lemma StepTakesFront(r: Reading, s: State)
    requires s.Valid() && StepOf(r, false, s).Emit?
    ensures var n := StepOf(r, false, s).next.pending; |n| <= |s.pending| && n == s.pending[|s.pending| - |n|..]
  {
    hide Verdict;
  }

  /** The run of requests up to the first head that is disputed. */
  lemma {:induction false} UpToTheDispute(r: Reading, s: State) returns (front: Bytes, rest: Bytes)
    requires IsSound(r) && s.Valid() && !IsPlainRun(r, s)
    ensures s.pending == front + rest && IsFront(r, s.(pending := front))
    ensures IsDisputed(r, State(rest, None)) && StepOf(r, false, State(rest, None)) != Halt(Rejected)
    decreases |s.pending|
  {
    hide IsSound, StepOf, IsNoticed, Serve, IsPlainRun, Verdict, IsFront, IsDisputed;
    PlainUnfolds(r, s);
    var t := StepOf(r, false, s);
    if IsDisputed(r, s) && t != Halt(Rejected) {
      DisputeHasNoBody(r, s);
      front, rest := [], s.pending;
      FreshIsFront(r);
    } else {
      var more;
      more, rest := UpToTheDispute(r, t.next);
      front := OneMore(r, s, t.next, more, rest);
    }
  }

  lemma DisputeHasNoBody(r: Reading, s: State)
    ensures IsDisputed(r, s) ==> s.body.None?
  {
  }

  lemma EmitTakesBody(r: Reading, s: State)
    requires s.Valid() && StepOf(r, false, s).Emit?
    ensures StepOf(r, false, s).next.body.None?
  {
    hide IsSound, Verdict;
  }

  lemma HaltKeeps(r: Reading, s: State)
    requires s.Valid() && StepOf(r, false, s).Halt?
    ensures var end := StepOf(r, false, s).end; end.Waiting? && end.state.body.None? ==> end.state == s
  {
    hide IsSound, Verdict;
  }

  // ---- when the cut matters, exactly

  lemma OnePiece(r: Reading, s: State, x: Bytes)
    requires s.Valid() && |s.pending| <= DECODING_BUFFER_SIZE
    ensures Receive(r, s, [x]) == Consume(r, s, x)
  {
    hide IsSound, Consume;
    var v := Consume(r, s, x);
    assert [x][1..] == [];
    assert v.requests + [] == v.requests;
  }

  lemma TwoPieces(x: Bytes, y: Bytes)
    requires x != []
    ensures [x, y][0] == x && [x, y][1..] == [y] && Flatten([x, y]) == x + y && Flatten([y]) == y
    ensures y != [] ==> [] !in [x, y]
  {
    assert [y][1..] == [];
    assert y + [] == y;
    assert Flatten([x, y][1..]) == y;
  }

  lemma OneCut(x: Bytes)
    requires x != []
    ensures Cuts([x], x)
  {
    assert [x][1..] == [] && x + [] == x;
  }

  lemma OnePieceWaits(r: Reading, head: Bytes)
    requires r.actual(head).More? && 0 < |head| <= DECODING_BUFFER_SIZE
    ensures Receive(r, FRESH, [head]).end == Waiting(State(head, None))
  {
    hide IsSound, Receive, Consume;
    OnePiece(r, FRESH, head);
    ConsumeUnfolds(r, FRESH, head);
    assert head[..|head|] == head && [] + head == head;
  }


  /** The whole stream at once leaves an unfinished head that is doomed. */
  ghost predicate LeavesDoomed(r: Reading, stream: Bytes) {
    var end := Serve(r, false, State(stream, None)).end; end.Waiting? && IsDoomed(r, end.state)
  }

  /** Whatever is delivered behind the requests in front comes out behind them. */
  lemma Behind(r: Reading, front: Bytes, rest: Bytes, chunks: seq<Bytes>) returns (all: seq<Bytes>)
    requires IsSound(r) && IsFront(r, State(front, None)) && Cuts(chunks, rest)
    ensures Cuts(all, front + rest)
    ensures var v := Receive(r, FRESH, chunks);
            Receive(r, FRESH, all) == Served(Serve(r, false, State(front, None)).requests + v.requests, v.end)
  {
    hide IsSound, Serve, IsPlainRun, Consume, IsNoticed;
    var v := Receive(r, FRESH, chunks);
    if front == [] {
      all := chunks;
      FreshServesNothing(r, false);
      assert front + rest == rest && [] + v.requests == v.requests;
    } else {
      all := [front] + chunks;
      assert all[1..] == chunks;
      OneCut(front);
      StreamAgrees(r, front, [front]);
      FrontAgrees(r, front);
      OnePiece(r, FRESH, front);
    }
  }

  lemma FrontAgrees(r: Reading, front: Bytes)
    requires IsSound(r) && IsFront(r, State(front, None))
    ensures Serve(r, true, State(front, None)) == Serve(r, false, State(front, None))
  {
    hide IsSound, Serve, IsPlainRun, IsNoticed;
    assert With(State(front, None), []) == State(front, None) by { assert front + [] == front; }
    ServeAgrees(r, State(front, None), []);
    FreshServesNothing(r, false);
  }

  /** Two ways in which what stands behind the requests comes to a different end. */
  lemma TwoCuts(r: Reading, front: Bytes, rest: Bytes, one: seq<Bytes>, other: seq<Bytes>)
    requires IsSound(r) && IsFront(r, State(front, None)) && Cuts(one, rest) && Cuts(other, rest)
    requires Receive(r, FRESH, one) != Receive(r, FRESH, other)
    ensures exists a, b :: Cuts(a, front + rest) && Cuts(b, front + rest) && Receive(r, FRESH, a) != Receive(r, FRESH, b)
  {
    hide IsSound, Serve, IsFront, Receive, Cuts;
    var a := Behind(r, front, rest, one);
    var b := Behind(r, front, rest, other);
    var requests := Serve(r, false, State(front, None)).requests;
    var u, v := Receive(r, FRESH, one), Receive(r, FRESH, other);
    SameBehind(requests, u.requests, v.requests);
  }

  lemma SameBehind(front: seq<Request>, a: seq<Request>, b: seq<Request>)
    ensures front + a == front + b ==> a == b
  {
    assert a == (front + a)[|front|..] && b == (front + b)[|front|..];
  }

  /** Cut behind a prefix that is rejected, all of it is rejected. */
  lemma CutAt(r: Reading, stream: Bytes, q: Bytes) returns (chunks: seq<Bytes>)
    requires IsNoticedAt(r, stream, q) && |q| <= DECODING_BUFFER_SIZE
    ensures Cuts(chunks, stream) && Receive(r, FRESH, chunks) == Served([], Rejected)
  {
    hide Consume;
    var y := stream[|q|..];
    assert stream == q + y;
    ConsumeUnfolds(r, FRESH, q);
    assert q[..|q|] == q && [] + q == q;
    if y == [] {
      chunks := [q];
      OneCut(q);
    } else {
      chunks := [q, y];
      TwoPieces(q, y);
    }
  }

  /** What the rest of a body makes, it makes in a delivery of any size: it is not rejected at once. */
  lemma {:induction false} BodyIsTaken(r: Reading, body: Body, chunk: Bytes)
    requires IsSound(r) && body.framer.Valid() && !body.framer.Stopped() && chunk != []
    requires BodyStep(r, chunk, body) != Halt(Rejected)
    ensures Consume(r, State([], Some(body)), chunk) != Served([], Rejected)
    decreases |chunk|
  {
    hide IsSound, Consume, BodyStep, Serve;
    var s := State([], Some(body));
    ConsumeUnfolds(r, s, chunk);
    var n := Min(DECODING_BUFFER_SIZE, |chunk|);
    var x, y := chunk[..n], chunk[n..];
    assert chunk == x + y && [] + x == x;
    BodyStepMore(r, x, y, body);
    ServeUnfolds(r, false, With(s, x));
    var t := BodyStep(r, x, body);
    if t.Halt? && t.end.Waiting? && n < |chunk| {
      BodyIsTaken(r, t.end.state.body.value, y);
    }
  }

  /** Cut behind its last byte, a complete head is taken. */
  lemma CutBehindHead(r: Reading, rest: Bytes) returns (chunks: seq<Bytes>)
    requires IsSound(r) && Verdict(r, false, rest).Done? && StepOf(r, false, State(rest, None)) != Halt(Rejected)
    ensures Cuts(chunks, rest) && Receive(r, FRESH, chunks) != Served([], Rejected)
  {
    hide IsSound, Consume, BodyStep, Serve;
    var o := Verdict(r, false, rest);
    var n := o.end;
    var h, y := rest[..n], rest[n..];
    assert rest == h + y;
    Stays(r, h, rest);
    ConsumeUnfolds(r, FRESH, h);
    assert h[..|h|] == h && [] + h == h;
    ServeUnfolds(r, false, State(h, None));
    OneCut(h);
    if y == [] {
      chunks := [h];
      assert h == rest;
      OnePiece(r, FRESH, h);
    } else {
      chunks := [h, y];
      TwoPieces(h, y);
      assert h[..n] == h && h[n..] == [];
      if o.value.framing.BodyExpected() {
        var body := Body(h, o.value, FramerOf(o.value.framing), []);
        NothingIsTaken(r, body);
        BodyIsTaken(r, body, y);
        OnePiece(r, State([], Some(body)), y);
      }
    }
  }

  lemma NothingIsTaken(r: Reading, body: Body)
    requires IsSound(r) && body.framer.Valid() && !body.framer.Stopped()
    ensures BodyStep(r, [], body) == Halt(Waiting(State([], Some(body))))
  {
    hide HeadStays, FeedSplits;
    FeedsNothing(r, body.framer);
    assert body.taken + [] == body.taken;
  }

  lemma CutsMatterForDoomed(r: Reading, stream: Bytes)
    requires IsSound(r) && IsPlainRun(r, State(stream, None)) && LeavesDoomed(r, stream)
    ensures exists one, other :: Cuts(one, stream) && Cuts(other, stream) && Receive(r, FRESH, one) != Receive(r, FRESH, other)
  {
    hide IsSound, Serve, IsPlainRun, Consume, IsFront, Receive, Cuts;
    var s := State(stream, None);
    var head := Serve(r, false, s).end.state.pending;
    var front := UpToTheHead(r, s);
    WaitingFits(r, s);
    var q :| IsNoticedAt(r, head, q);
    var one := CutAt(r, head, q);
    OneCut(head);
    OnePieceWaits(r, head);
    TwoCuts(r, front, head, one, [head]);
  }

  lemma CutsMatterForDisputed(r: Reading, stream: Bytes)
    requires IsSound(r) && !IsPlainRun(r, State(stream, None))
    ensures exists one, other :: Cuts(one, stream) && Cuts(other, stream) && Receive(r, FRESH, one) != Receive(r, FRESH, other)
  {
    hide IsSound, Serve, IsPlainRun, Consume, IsFront, Receive, Cuts, StepOf;
    var front, rest := UpToTheDispute(r, State(stream, None));
    var q :| IsNoticedAt(r, rest, q);
    Stays(r, q, rest);
    var one := CutAt(r, rest, q);
    var other := CutBehindHead(r, rest);
    TwoCuts(r, front, rest, one, other);
  }

  /**
   When the way a stream is cut does not show, exactly: when no complete head in it is disputed and, in one piece,
   it does not leave an unfinished head that is doomed. This is so of every stream.
   */
  lemma CutsMatterExactly(r: Reading, stream: Bytes)
    requires IsSound(r)
    ensures (forall one, other | Cuts(one, stream) && Cuts(other, stream) :: Receive(r, FRESH, one) == Receive(r, FRESH, other))
            <==> IsPlainRun(r, State(stream, None)) && !LeavesDoomed(r, stream)
  {
    hide IsSound, Serve, IsPlainRun, Receive, Cuts, LeavesDoomed;
    if !IsPlainRun(r, State(stream, None)) {
      CutsMatterForDisputed(r, stream);
    } else if LeavesDoomed(r, stream) {
      CutsMatterForDoomed(r, stream);
    } else {
      forall one, other | Cuts(one, stream) && Cuts(other, stream)
        ensures Receive(r, FRESH, one) == Receive(r, FRESH, other)
      {
        EndsAsItMust(r, stream, one);
        EndsAsItMust(r, stream, other);
      }
    }
  }

  lemma EndsAsItMust(r: Reading, stream: Bytes, chunks: seq<Bytes>)
    requires IsSound(r)
    requires IsPlainRun(r, State(stream, None)) && Cuts(chunks, stream) && !LeavesDoomed(r, stream)
    ensures Receive(r, FRESH, chunks) == Serve(r, true, State(stream, None))
  {
    hide IsSound, Serve, IsPlainRun, Receive, IsNoticed;
    StreamAgrees(r, stream, chunks);
    WaitingCutIsWhole(r, stream, chunks);
  }

  /**
   The requests that a stream holds are the same however it is cut into pieces. So is what becomes of the
   connection, except that a doomed head may have been noticed or not.
   */
  lemma CutsDoNotMatter(r: Reading, stream: Bytes, one: seq<Bytes>, other: seq<Bytes>)
    requires IsSound(r)
    requires IsPlainRun(r, State(stream, None)) && Cuts(one, stream) && Cuts(other, stream)
    ensures var v, u := Receive(r, FRESH, one), Receive(r, FRESH, other);
            && v.requests == u.requests
            && (v.end == u.end
                || (v.end.Rejected? && u.end.Waiting? && IsDoomed(r, u.end.state))
                || (u.end.Rejected? && v.end.Waiting? && IsDoomed(r, v.end.state)))
  {
    hide IsSound, Serve, IsPlainRun, Receive, IsDoomed;
    StreamAgrees(r, stream, one);
    StreamAgrees(r, stream, other);
    WaitingCutIsWhole(r, stream, one);
    WaitingCutIsWhole(r, stream, other);
  }
}
