/**
 The heads of HTTP/1.1 requests in a stream of bytes: what is true of delivery in general, for the decoder as it
 reads heads.
 */
module Reception {
  import opened Octets
  import opened Framers
  import opened RequestHead
  import opened HeadStability
  import opened Rejection
  import opened Delivery

  ghost function ReadingOf(r: Rules): Reading { Reading(HeadReader(r), BodyReader()) }

  ghost function HeadReader(r: Rules): Look { b => HeadAt(r, b) }

  function BodyReader(): Feeder { (f: Framer, s: Bytes) => FeedAny(f, s) }

  function FeedAny(f: Framer, s: Bytes): (r: (Framer, nat))
    ensures f.Valid() ==> r == Feed(f, s) && r.0.Valid() && r.1 <= |s| && (!r.0.Stopped() ==> r.1 == |s|)
    ensures f.Valid() && !f.Stopped() && r.0.Done() ==> 0 < r.1
  {
    if f.Valid() then Feed(f, s) else (f, 0)
  }

  lemma ReadHeadStays(r: Rules, b: Bytes, d: Bytes)
    ensures HeadStays(ReadingOf(r), b, d)
  {
    hide HeadAt, NulPending, AuthorityBroken;
    if b <= d {
      HeadStable(r, b, d);
      if HeadAt(r, d).Done? && HeadAt(r, d).end <= |b| {
        HeadIsComplete(r, b, d);
      }
    }
  }

  lemma FeedAnyConcat(f: Framer, x: Bytes, y: Bytes)
    requires f.Valid() && !f.Stopped()
    ensures var z := FeedAny(f, x);
            FeedAny(f, x + y) == if z.0.Stopped() then z else (FeedAny(z.0, y).0, |x| + FeedAny(z.0, y).1)
  {
    hide Feed;
    FeedConcat(f, x, y);
  }

  lemma ReaderFeeds(r: Rules, f: Framer, s: Bytes)
    ensures ReadingOf(r).feed(f, s) == FeedAny(f, s)
  {
    hide HeadAt, FeedAny;
  }

  lemma NothingIsFed(f: Framer)
    ensures FeedAny(f, []) == (f, 0)
  {
  }

  lemma ReadFeedSplits(r: Rules, f: Framer, x: Bytes, y: Bytes)
    ensures FeedSplits(ReadingOf(r), f, x, y)
  {
    hide ReadingOf, FeedAny;
    if f.Valid() && !f.Stopped() {
      FeedAnyConcat(f, x, y);
      ReaderFeeds(r, f, x);
      ReaderFeeds(r, f, x + y);
      ReaderFeeds(r, ReadingOf(r).feed(f, x).0, y);
    }
  }

  /** More bytes do not change what has been read of a head, whatever the rules. */
  lemma ReadingIsSound(r: Rules)
    ensures IsSound(ReadingOf(r))
  {
    hide HeadStays, FeedSplits, ReadingOf, FeedAny;
    EmptyNeedsMore(r);
    forall b: Bytes, d: Bytes ensures HeadStays(ReadingOf(r), b, d) {
      ReadHeadStays(r, b, d);
    }
    forall f: Framer, x: Bytes, y: Bytes ensures FeedSplits(ReadingOf(r), f, x, y) {
      ReadFeedSplits(r, f, x, y);
    }
    forall f: Framer ensures ReadingOf(r).feed(f, []) == (f, 0) {
      ReaderFeeds(r, f, []);
      NothingIsFed(f);
    }
  }

  lemma EmptyNeedsMore(r: Rules)
    ensures ReadingOf(r).actual([]).More?
  {
    hide TargetAt, RestAt;
  }

  // ---- what is noticed on the way, on the text

  /** What is there of the path stands for a NUL, the authority is bad as it stands, or the user information would
      not pass for a host and a port. */
  ghost predicate IsSuspect(b: Bytes) { NulPending(b) || AuthorityBroken(b) || !IsPlain(b) }

  /** Of the heads that are not rejected, these are the ones that would have been, had less of them been there. */
  lemma NoticedOnText(r: Rules, b: Bytes)
    requires !HeadAt(r, b).Invalid?
    ensures IsNoticed(ReadingOf(r), b) <==> IsSuspect(b)
  {
    hide HeadAt, NulPending, AuthorityBroken, IsPlain;
    if IsSuspect(b) {
      var q;
      if NulPending(b) {
        q := NulIsNoticed(r, b);
      } else if AuthorityBroken(b) {
        q := BrokenIsNoticed(r, b);
      } else {
        q := NotPlainShows(r, b);
      }
      assert IsNoticedAt(ReadingOf(r), b, q);
    }
    if IsNoticed(ReadingOf(r), b) && IsPlain(b) {
      var q :| IsNoticedAt(ReadingOf(r), b, q);
      HeadStable(r, q, b);
      PlainStays(q, b);
      DoomedHeadStays(q, b);
    }
  }

  /** Of complete heads it is only the user information. */
  lemma CompleteOnText(r: Rules, b: Bytes)
    requires HeadAt(r, b).Done?
    ensures IsSuspect(b) <==> !IsPlain(b)
  {
    hide HeadAt, NulPending, AuthorityBroken, IsPlain;
    if IsPlain(b) && IsSuspect(b) {
      DoomedIsNotDone(r, b);
    }
  }

  /** No complete head in the stream has user information that would not pass for a host and a port, unless it makes
      no difference because the body behind it is broken. */
  ghost predicate IsPlainStream(r: Rules, stream: Bytes) { AllPlain(r, State(stream, None)) }

  ghost predicate AllPlain(r: Rules, s: State)
    requires s.Valid()
    decreases |s.pending|
  {
    var t := StepOf(ReadingOf(r), false, s);
    && (s.body.None? && Verdict(ReadingOf(r), false, s.pending).Done? && !IsPlain(s.pending) ==> t == Halt(Rejected))
    && (t.Emit? && !t.request.head.framing.close ==> AllPlain(r, t.next))
  }

  lemma {:induction false} PlainOnText(r: Rules, s: State)
    requires s.Valid()
    ensures AllPlain(r, s) <==> IsPlainRun(ReadingOf(r), s)
    decreases |s.pending|
  {
    hide HeadAt, StepOf, IsNoticed, IsSuspect, IsPlain;
    var t := StepOf(ReadingOf(r), false, s);
    if t.Emit? && !t.request.head.framing.close {
      PlainOnText(r, t.next);
    }
    if HeadAt(r, s.pending).Done? {
      NoticedOnText(r, s.pending);
      CompleteOnText(r, s.pending);
    }
  }

  /** What the connection makes of a stream that arrives in these pieces. */
  ghost function Received(r: Rules, chunks: seq<Bytes>): Served { Receive(ReadingOf(r), FRESH, chunks) }

  /** The decoder waits for more of a head that it would have rejected, had less of it been there. */
  ghost predicate WaitsForASuspect(end: End) {
    end.Waiting? && end.state.body.None? && IsSuspect(end.state.pending)
  }

  lemma DoomedOnText(r: Rules, s: State)
    requires IsDrained(ReadingOf(r), s)
    ensures IsDoomed(ReadingOf(r), s) <==> WaitsForASuspect(Waiting(s))
  {
    hide HeadAt, IsNoticed, IsSuspect;
    if s.body.None? {
      NoticedOnText(r, s.pending);
    }
  }

  /**
   The requests that a stream holds are the same however it is cut into pieces. So is what becomes of the
   connection, except that what is suspect in an unfinished head may have been noticed or not.
   */
  lemma RequestsDoNotDependOnCuts(r: Rules, stream: Bytes, one: seq<Bytes>, other: seq<Bytes>)
    requires IsPlainStream(r, stream) && Cuts(one, stream) && Cuts(other, stream)
    ensures Received(r, one).requests == Received(r, other).requests
    ensures var v, u := Received(r, one).end, Received(r, other).end;
            v == u || (v.Rejected? && WaitsForASuspect(u)) || (u.Rejected? && WaitsForASuspect(v))
  {
    hide IsPlainRun, Receive, IsSound, HeadAt, AllPlain, IsDrained, IsDoomed, WaitsForASuspect, ReadingOf;
    ReadingIsSound(r);
    PlainOnText(r, State(stream, None));
    CutsDoNotMatter(ReadingOf(r), stream, one, other);
    var v, u := Received(r, one).end, Received(r, other).end;
    StreamAgrees(ReadingOf(r), stream, one);
    StreamAgrees(ReadingOf(r), stream, other);
    if v.Waiting? {
      DoomedOnText(r, v.state);
    }
    if u.Waiting? {
      DoomedOnText(r, u.state);
    }
  }

  /**
   When the cut does not show, exactly and for every stream: when no complete head in it has such user information
   and, in one piece, it does not leave the decoder waiting for a head that is suspect.
   */
  lemma WhenTheCutShows(r: Rules, stream: Bytes)
    ensures (forall one, other | Cuts(one, stream) && Cuts(other, stream) :: Received(r, one) == Received(r, other))
            <==> IsPlainStream(r, stream) && !WaitsForASuspect(Serve(ReadingOf(r), false, State(stream, None)).end)
  {
    hide IsPlainRun, Receive, IsSound, HeadAt, AllPlain, IsDrained, IsDoomed, WaitsForASuspect, ReadingOf, Cuts, Serve;
    ReadingIsSound(r);
    PlainOnText(r, State(stream, None));
    CutsMatterExactly(ReadingOf(r), stream);
    WaitingFits(ReadingOf(r), State(stream, None));
    var end := Serve(ReadingOf(r), false, State(stream, None)).end;
    if end.Waiting? {
      DoomedOnText(r, end.state);
    } else {
      assert !WaitsForASuspect(end) by { NotWaiting(end); }
    }
  }

  lemma NotWaiting(end: End)
    ensures WaitsForASuspect(end) ==> end.Waiting?
  {
  }

  /** As long as the decoder waits, what it has handed out and what it still holds is what it was given. */
  lemma NoByteIsLost(r: Rules, stream: Bytes, chunks: seq<Bytes>)
    requires Flatten(chunks) == stream
    ensures var v := Received(r, chunks); v.end.Waiting? ==> Wire(v.requests) + Held(v.end.state) == stream
  {
    hide Receive, IsSound, HeadAt, ReadingOf;
    ReadingIsSound(r);
    ReceiveConserves(ReadingOf(r), stream, chunks);
  }
}
