/**
 The response-ordering model that both transports share, without any queue in it.

 A connection is seen as the list of things that happened to it: ids handed out, replies accepted,
 the id range cut short, bytes moved to the send buffer, bytes put on the wire.  `Enabled` says
 which of these may happen; the theorems below hold of every run the rules allow.  The Linux and the
 Windows contexts each keep such a run as ghost state and so inherit the theorems.
 */
module ReplyOrder {
  import opened Octets

  datatype Event =
    | Allocate                          // an id is handed out
    | Accept(id: nat, reply: Bytes)     // the whole reply to `id` is taken
    | Truncate(keep: nat)               // every id from `keep` on is dropped
    | Close                             // no further id gets a slot
    | Pour(bytes: Bytes)                // bytes move to the send buffer
    | Send(count: nat)                  // buffered bytes reach the wire
    | Abort                             // everything not yet sent is given up
    | Shut                              // the socket is closed

  datatype Conn = Conn(
    issued: nat,
    kept: nat,                          // the ids below `kept` have, or had, a slot
    replies: map<nat, Bytes>,
    poured: Bytes,
    sent: nat,
    closing: bool,
    aborted: bool,
    shut: bool)
  {
    function Wire(): Bytes {
      if sent <= |poured| then poured[..sent] else poured
    }
  }

  const FRESH := Conn(0, 0, map[], [], 0, false, false, false)

  /** The replies to `from`, `from + 1`, ... up to the first missing one, and not beyond `to`. */
  function Ordered(replies: map<nat, Bytes>, from: nat, to: nat): Bytes
    decreases if from < to then to - from else 0
  {
    if from < to && from in replies then replies[from] + Ordered(replies, from + 1, to) else []
  }

  ghost predicate Answered(replies: map<nat, Bytes>, upTo: nat) {
    forall id: nat | id < upTo :: id in replies
  }

  predicate CanAccept(c: Conn, id: nat) {
    id < c.kept && id !in c.replies && !c.aborted && !c.shut
  }

  ghost predicate Drained(c: Conn) {
    && c.closing
    && Answered(c.replies, c.kept)
    && c.poured == Ordered(c.replies, 0, c.kept)
    && c.sent == |c.poured|
  }

  ghost predicate Enabled(c: Conn, e: Event) {
    match e
    case Allocate => true
    case Accept(id, _) => CanAccept(c, id)
    case Truncate(keep) => !c.aborted && !c.shut && keep <= c.kept && c.poured <= Ordered(c.replies, 0, keep)
    case Close => true
    case Pour(bytes) => !c.aborted && !c.shut && c.poured + bytes <= Ordered(c.replies, 0, c.kept)
    case Send(count) => c.sent + count <= |c.poured|
    case Abort => true
    case Shut => c.aborted || Drained(c)
  }

  function Apply(c: Conn, e: Event): Conn {
    match e
    case Allocate => c.(issued := c.issued + 1, kept := if c.closing then c.kept else c.kept + 1)
    case Accept(id, reply) => c.(replies := c.replies[id := reply])
    case Truncate(keep) => c.(kept := keep, closing := true)
    case Close => c.(closing := true)
    case Pour(bytes) => c.(poured := c.poured + bytes)
    case Send(count) => c.(sent := c.sent + count)
    case Abort => c.(aborted := true, closing := true)
    case Shut => c.(shut := true)
  }

  /** The state a run ends in. */
  function Run(log: seq<Event>): Conn {
    if log == [] then FRESH else Apply(Run(log[..|log| - 1]), log[|log| - 1])
  }

  /** Every step of the run was enabled when it was taken. */
  ghost predicate Legal(log: seq<Event>) {
    log != [] ==> Legal(log[..|log| - 1]) && Enabled(Run(log[..|log| - 1]), log[|log| - 1])
  }

  lemma RunStep(log: seq<Event>, e: Event)
    ensures Run(log + [e]) == Apply(Run(log), e)
    ensures Legal(log + [e]) <==> Legal(log) && Enabled(Run(log), e)
  {
    assert (log + [e])[..|log|] == log;
  }

  // ---- the shape of the id-ordered concatenation

  lemma {:induction false} OrderedAccept(replies: map<nat, Bytes>, from: nat, to: nat, id: nat, reply: Bytes)
    requires id !in replies
    ensures Ordered(replies, from, to) <= Ordered(replies[id := reply], from, to)
    decreases if from < to then to - from else 0
  {
    if from < to && from in replies {
      OrderedAccept(replies, from + 1, to, id, reply);
    }
  }

  lemma {:induction false} OrderedExtend(replies: map<nat, Bytes>, from: nat, mid: nat, to: nat)
    requires from <= mid <= to
    ensures Ordered(replies, from, mid) <= Ordered(replies, from, to)
    ensures (forall id: nat | from <= id < mid :: id in replies) ==>
              Ordered(replies, from, to) == Ordered(replies, from, mid) + Ordered(replies, mid, to)
    decreases if from < mid then mid - from else 0
  {
    if from < mid && from in replies {
      OrderedExtend(replies, from + 1, mid, to);
    }
  }

  lemma {:induction false} OrderedAgree(one: map<nat, Bytes>, two: map<nat, Bytes>, from: nat, to: nat)
    requires forall id: nat | from <= id < to :: id in one && id in two && one[id] == two[id]
    ensures Ordered(one, from, to) == Ordered(two, from, to)
    decreases if from < to then to - from else 0
  {
    if from < to {
      OrderedAgree(one, two, from + 1, to);
    }
  }

  // ---- what every run keeps

  ghost predicate Sound(c: Conn) {
    && c.kept <= c.issued
    && (!c.closing ==> c.kept == c.issued)
    && (forall id | id in c.replies :: id < c.issued)
    && c.sent <= |c.poured|
    && c.poured <= Ordered(c.replies, 0, c.kept)
    && ((c.aborted || c.shut) ==> c.closing)
  }

  lemma StepSound(c: Conn, e: Event)
    requires Sound(c) && Enabled(c, e)
    ensures Sound(Apply(c, e))
  {
    match e
    case Allocate => OrderedExtend(c.replies, 0, c.kept, c.kept + 1);
    case Accept(id, reply) => OrderedAccept(c.replies, 0, c.kept, id, reply);
    case _ =>
  }

  /**
   Safety over whole runs.  Whatever the order in which replies were accepted, however the sends were
   split, and wherever the run was cut short: the bytes on the wire are a prefix of the replies
   concatenated in id order, and an id never stands for another slot.
   */
  lemma {:induction false} RunSound(log: seq<Event>)
    requires Legal(log)
    ensures Sound(Run(log))
    ensures Run(log).Wire() <= Run(log).poured <= Ordered(Run(log).replies, 0, Run(log).kept)
  {
    if log != [] {
      RunSound(log[..|log| - 1]);
      StepSound(Run(log[..|log| - 1]), log[|log| - 1]);
    }
  }

  /** `c` is the state after the legal run `log`. */
  ghost predicate Recorded(log: seq<Event>, c: Conn) {
    Legal(log) && Run(log) == c && Sound(c)
  }

  /** Runs only grow: the wire is never rewritten, an accepted reply never replaced. */
  ghost predicate Extends(c: Conn, d: Conn) {
    && c.issued <= d.issued
    && c.sent <= d.sent
    && c.poured <= d.poured
    && (forall id | id in c.replies :: id in d.replies && d.replies[id] == c.replies[id])
    && (c.closing ==> d.closing && d.kept <= c.kept)
    && (c.closing ==> forall id | id in d.replies && c.kept <= id :: id in c.replies)
    && (c.shut ==> d.shut)
    && (c.aborted ==> d.aborted)
    && (c.shut || c.aborted ==> d.poured == c.poured && d.replies == c.replies && d.kept == c.kept)
  }

  lemma {:induction false} RunExtends(log: seq<Event>, more: seq<Event>)
    requires Legal(log + more)
    ensures Legal(log) && Extends(Run(log), Run(log + more))
  {
    if more == [] {
      assert log + more == log;
    } else {
      var most := more[..|more| - 1];
      assert (log + more)[..|log + more| - 1] == log + most;
      RunExtends(log, most);
      RunSound(log + most);
      StepExtends(Run(log), Run(log + most), (log + more)[|log + more| - 1]);
    }
  }

  lemma StepExtends(c: Conn, d: Conn, e: Event)
    requires Extends(c, d) && Enabled(d, e)
    requires d.shut || d.aborted ==> d.closing
    ensures Extends(c, Apply(d, e))
  {
  }

  /**
   Truncation is final and harmless.  No byte of a dropped id was poured, and however the run goes on
   no dropped id is ever answered or sent, and no new id gets a slot.
   */
  lemma TruncationIsFinal(log: seq<Event>, keep: nat, more: seq<Event>)
    requires Legal(log + [Truncate(keep)] + more)
    ensures Run(log).poured <= Ordered(Run(log).replies, 0, keep)
    ensures var c := Run(log); var d := Run(log + [Truncate(keep)] + more);
            && d.kept <= keep
            && d.Wire() <= Ordered(d.replies, 0, keep)
            && (forall id: nat | keep <= id :: !CanAccept(d, id) && (id in d.replies <==> id in c.replies))
  {
    RunExtends(log + [Truncate(keep)], more);
    RunStep(log, Truncate(keep));
    RunSound(log + [Truncate(keep)] + more);
    var d := Run(log + [Truncate(keep)] + more);
    OrderedExtend(d.replies, 0, d.kept, keep);
  }

  /**
   A run that closes its socket without an abort closes it only when every retained id has been
   answered and the wire holds all the answers, in id order; and nothing changes that afterwards.
   */
  lemma CleanShutdown(log: seq<Event>, more: seq<Event>)
    requires Legal(log + [Shut] + more)
    requires !Run(log).aborted
    ensures var d := Run(log + [Shut] + more);
            Answered(d.replies, d.kept) && d.Wire() == Ordered(d.replies, 0, d.kept)
  {
    RunExtends(log + [Shut], more);
    RunStep(log, Shut);
    RunSound(log + [Shut] + more);
  }

  /**
   The order of completion does not show.  Two runs that keep the same ids, accept the same replies
   to them and shut down without an abort put the same bytes on the wire, whichever thread finished
   first and however the sends were split.
   */
  lemma CompletionOrderIsInvisible(one: seq<Event>, two: seq<Event>)
    requires Legal(one + [Shut]) && Legal(two + [Shut])
    requires !Run(one).aborted && !Run(two).aborted
    requires Run(one).kept == Run(two).kept
    requires forall id: nat | id < Run(one).kept && id in Run(one).replies && id in Run(two).replies ::
               Run(one).replies[id] == Run(two).replies[id]
    ensures Run(one + [Shut]).Wire() == Run(two + [Shut]).Wire()
  {
    RunStep(one, Shut);
    RunStep(two, Shut);
    OrderedAgree(Run(one).replies, Run(two).replies, 0, Run(one).kept);
  }
}
