/**
 The reply a protocol hands to a transport, the slot that waits for it, and what the queue of slots
 has to do with the ordering model.
 */
module ReplySlots {
  import opened Octets
  import opened ReplyOrder

  const SEND_BUFFER_MAX: nat := 65536
  const SEND_CHUNK: nat := 8192

  /** How a streaming source behaves once its bytes are gone: it may know that it is done, or return nothing
      although it did not say so.  A faulty one fails at some read, with bytes or without, or returns more than
      it was asked for. */
  datatype Ending = AtEof | ZeroRead | Fault

  datatype Source = Source(rest: Bytes, ending: Ending) {
    predicate Eof() { rest == [] && ending.AtEof? }
  }

  /** A serialized reply: bytes already materialized, then what the source will yield. */
  datatype Reply = Reply(prefix: Bytes, source: Option<Source>) {
    function Streamed(): Bytes { if source.Some? then source.value.rest else [] }

    function Full(): Bytes { prefix + Streamed() }
  }

  datatype Slot = Slot(reply: Option<Reply>, prefixWritten: bool) {
    /** What is left to pour of a slot whose prefix is written. */
    function Unpoured(): Bytes { if reply.None? then [] else reply.value.Streamed() }

    /** Its source fails, sooner or later. */
    predicate HasFault() {
      reply.Some? && reply.value.source.Some? && reply.value.source.value.ending.Fault?
    }

    function Work(): nat {
      if reply.None? then 1
      else |reply.value.Streamed()| + (if prefixWritten then 0 else 1) + (if reply.value.source.Some? then 2 else 1)
    }
  }

  lemma DropMore(s: Bytes, i: nat, t: Bytes, j: nat, n: nat)
    requires i + n <= |s| && j + n <= |t| && s[i..] == t[j..]
    ensures s[i + n..] == t[j + n..]
  {
    assert s[i + n..] == s[i..][n..] && t[j + n..] == t[j..][n..];
  }

  /** What the pouring loop uses up: the slots, the stages of the front slot, the bytes of its source. */
  function Work(slots: seq<Slot>): nat {
    if slots == [] then 0 else slots[0].Work() + Work(slots[1..])
  }

  lemma SomeWork(slots: seq<Slot>)
    requires slots != []
    ensures Work(slots) > 0
  {
  }

  /** One of the replies that can be poured, because all in front of it are there, has a source that fails. */
  predicate LeadingFault(slots: seq<Slot>) {
    slots != [] && slots[0].reply.Some? && (slots[0].HasFault() || LeadingFault(slots[1..]))
  }

  /** With nothing ready in front, all that can be poured has been. */
  lemma AllIsPoured(slots: seq<Slot>, expected: nat, c: Conn, poured: Bytes)
    requires QueueAgrees(slots, expected, c.kept, c.replies, poured) && (slots == [] || slots[0].reply.None?)
    ensures poured == Ordered(c.replies, 0, c.kept)
  {
    OrderedExtend(c.replies, 0, expected, c.kept);
    assert slots != [] ==> expected !in c.replies;
    assert Ordered(c.replies, expected, c.kept) == [];
  }

  /** How many of the outcomes of a flush let it go on. */
  function Passing(script: seq<SendOutcome>): (n: nat)
    ensures n <= |script|
  {
    if script == [] then 0
    else if script[0].Interrupted? || (script[0].Sent? && script[0].count > 0) then 1 + Passing(script[1..])
    else 0
  }

  /** The socket fails, or takes an empty send, before it blocks. */
  predicate IsFatal(script: seq<SendOutcome>) { Passing(script) < |script| && !script[Passing(script)].WouldBlock? }

  /** These outcomes are enough to send the first `n` of `left` bytes in the buffer and `more` behind them, however much
      the buffer is filled with, as long as it is full or there are no more. */
  ghost predicate Covers(script: seq<SendOutcome>, left: nat, more: nat, n: nat)
    decreases |script|, if left == 0 then 1 else 0
  {
    n == 0
    || if left == 0 then
         more > 0
         && forall fill: nat, rest: nat | fill + rest == more && Min(more, SEND_BUFFER_MAX) <= fill :: Covers(script, fill, rest, n)
       else
         script != [] && match script[0]
                         case Interrupted => Covers(script[1..], left, more, n)
                         case Sent(count) =>
                           count > 0 && Covers(script[1..], left - Min(count, left), more, n - Min(n, Min(count, left)))
                         case _ => false
  }

  /** However the buffer has been filled, the rest of the script is enough. */
  lemma CoversRefill(script: seq<SendOutcome>, left: nat, more: nat, left': nat, more': nat, n: nat)
    requires if left > 0 then left' == left && more' == more
             else left' + more' == more && Min(more, SEND_BUFFER_MAX) <= left'
    ensures Covers(script, left, more, n) ==> Covers(script, left', more', n)
  {
  }

  predicate GoesOn(outcome: SendOutcome) { outcome.Interrupted? || (outcome.Sent? && outcome.count > 0) }

  /** What the next outcome means for the rest of the script. */
  lemma OneOutcome(script: seq<SendOutcome>, calls: nat, left: nat, more: nat, n: nat)
    requires calls <= |script| && 0 < left && Passing(script) == calls + Passing(script[calls..])
    ensures calls < |script| && GoesOn(script[calls]) ==>
              && Passing(script) == calls + 1 + Passing(script[calls + 1..])
              && var k := if script[calls].Sent? then Min(script[calls].count, left) else 0;
                 Covers(script[calls..], left, more, n) ==> Covers(script[calls + 1..], left - k, more, n - Min(n, k))
    ensures calls == |script| || !GoesOn(script[calls]) ==>
              && (IsFatal(script) <==> calls < |script| && !script[calls].WouldBlock?)
              && (Covers(script[calls..], left, more, n) ==> n == 0)
  {
    if calls < |script| {
      assert script[calls..][1..] == script[calls + 1..];
    }
  }

  lemma CoversNothing(script: seq<SendOutcome>, n: nat)
    ensures Covers(script, 0, 0, n) ==> n == 0
  {
  }

  function Sends(script: seq<SendOutcome>): nat {
    if script == [] then 0 else (if script[0].Sent? then 1 else 0) + Sends(script[1..])
  }

  /** Every send sends a byte at least, with any interruptions in between. */
  lemma {:induction false} EnoughSends(script: seq<SendOutcome>, left: nat, more: nat, n: nat)
    requires n <= Sends(script[..Passing(script)]) && n <= left + more
    ensures Covers(script, left, more, n)
    decreases |script|, if left == 0 then 1 else 0
  {
    if n > 0 && left == 0 {
      forall fill: nat, rest: nat | fill + rest == more && Min(more, SEND_BUFFER_MAX) <= fill
        ensures Covers(script, fill, rest, n)
      {
        EnoughSends(script, fill, rest, n);
      }
    } else if n > 0 {
      var k := Passing(script);
      assert script[..k] != [] && script[..k][1..] == script[1..][..k - 1];
      if script[0].Sent? {
        EnoughSends(script[1..], left - Min(script[0].count, left), more, n - Min(n, Min(script[0].count, left)));
      } else {
        EnoughSends(script[1..], left, more, n);
      }
    }
  }

  const EMPTY_SLOT := Slot(None, false)

  /** The outcomes of a send call that the environment may choose. */
  datatype SendOutcome = Sent(count: nat) | Interrupted | WouldBlock | Failed

  /** A bounded read: any non-empty part of what is left, in order; a faulty source fails at the end if not
      before. */
  method ReadSource(source: Source, room: nat) returns (chunk: Bytes, after: Source, failed: bool)
    requires !source.Eof() && 0 < room
    ensures !failed ==> chunk + after.rest == source.rest && |chunk| <= room && after.ending == source.ending
    ensures !failed && source.rest != [] ==> chunk != []
    ensures failed ==> source.ending.Fault?
    ensures source.rest == [] ==> (failed <==> source.ending.Fault?)
  {
    var now: bool :| now ==> source.ending.Fault?;
    if now || (source.rest == [] && source.ending.Fault?) {
      return [], source, true;
    }
    if source.rest == [] {
      return [], source, false;
    }
    var count: nat :| 1 <= count <= room && count <= |source.rest|;
    return source.rest[..count], source.(rest := source.rest[count..]), false;
  }

  /**
   The queue of slots agrees with the ordering model: slot `i` waits for id `expected + i`, only the
   front one may have contributed bytes, and the bytes poured so far together with the rest of a
   started front slot are exactly the leading replies in id order.
   */
  ghost predicate QueueAgrees(slots: seq<Slot>, expected: nat, kept: nat, replies: map<nat, Bytes>, poured: Bytes) {
    && kept == expected + |slots|
    && Answered(replies, expected)
    && (forall i | 0 <= i < |slots| :: slots[i].reply.Some? <==> expected + i in replies)
    && (forall i | 0 <= i < |slots| :: slots[i].prefixWritten ==> i == 0 && slots[i].reply.Some?)
    && (forall i | 0 <= i < |slots| && slots[i].reply.Some? && !slots[i].prefixWritten ::
          slots[i].reply.value.Full() == replies[expected + i])
    && FrontAgrees(slots, expected, replies, poured)
  }

  ghost predicate FrontAgrees(slots: seq<Slot>, expected: nat, replies: map<nat, Bytes>, poured: Bytes) {
    if slots != [] && slots[0].prefixWritten
    then poured + slots[0].Unpoured() == Ordered(replies, 0, expected + 1)
    else poured == Ordered(replies, 0, expected)
  }

  lemma QueuePrefix(slots: seq<Slot>, expected: nat, c: Conn, poured: Bytes)
    requires QueueAgrees(slots, expected, c.kept, c.replies, poured)
    ensures poured <= Ordered(c.replies, 0, c.kept)
  {
    OrderedExtend(c.replies, 0, expected, c.kept);
    if slots != [] {
      OrderedExtend(c.replies, 0, expected + 1, c.kept);
    }
  }

  lemma QueueAllocate(slots: seq<Slot>, expected: nat, c: Conn)
    requires QueueAgrees(slots, expected, c.kept, c.replies, c.poured) && Sound(c) && !c.closing
    ensures QueueAgrees(slots + [EMPTY_SLOT], expected, c.kept + 1, c.replies, c.poured)
  {
  }

  lemma QueueAccept(slots: seq<Slot>, expected: nat, c: Conn, offset: nat, reply: Reply)
    requires QueueAgrees(slots, expected, c.kept, c.replies, c.poured)
    requires offset < |slots| && slots[offset].reply.None?
    ensures QueueAgrees(slots[offset := slots[offset].(reply := Some(reply))], expected,
                        c.kept, c.replies[expected + offset := reply.Full()], c.poured)
  {
    var replies := c.replies[expected + offset := reply.Full()];
    var after := slots[offset := slots[offset].(reply := Some(reply))];
    assert after[offset].reply.value == reply;
    assert forall i | 0 <= i < |slots| && i != offset :: after[i] == slots[i];
    assert FrontAgrees(after, expected, replies, c.poured) by {
      OrderedAgree(c.replies, replies, 0, expected);
      if slots[0].prefixWritten {
        OrderedAgree(c.replies, replies, 0, expected + 1);
      }
    }
  }

  /** Cutting the queue anywhere behind a started slot is a legal truncation. */
  lemma QueueTruncate(slots: seq<Slot>, expected: nat, c: Conn, size: nat)
    requires QueueAgrees(slots, expected, c.kept, c.replies, c.poured)
    requires size <= |slots| && (size == 0 && slots != [] ==> !slots[0].prefixWritten)
    ensures c.poured <= Ordered(c.replies, 0, expected + size)
    ensures QueueAgrees(slots[..size], expected, expected + size, c.replies, c.poured)
  {
    QueuePrefix(slots[..size], expected, c.(kept := expected + size), c.poured);
  }

  /** With nothing ready in front, a drained connection has no slot left. */
  lemma DrainedLeavesNoSlot(slots: seq<Slot>, expected: nat, c: Conn)
    requires QueueAgrees(slots, expected, c.kept, c.replies, c.poured) && Drained(c)
    requires slots == [] || slots[0].reply.None?
    ensures slots == []
  {
  }

  // ---- the four moves of the pouring loop

  lemma OneOrdered(replies: map<nat, Bytes>, id: nat)
    requires id in replies
    ensures Ordered(replies, id, id + 1) == replies[id]
  {
    assert Ordered(replies, id + 1, id + 1) == [];
  }

  lemma PourPrefix(slots: seq<Slot>, expected: nat, c: Conn, poured: Bytes)
    requires QueueAgrees(slots, expected, c.kept, c.replies, poured)
    requires slots != [] && slots[0].reply.Some? && !slots[0].prefixWritten
    ensures QueueAgrees(slots[0 := slots[0].(prefixWritten := true)], expected, c.kept, c.replies,
                        poured + slots[0].reply.value.prefix)
  {
    OrderedExtend(c.replies, 0, expected, expected + 1);
    OneOrdered(c.replies, expected);
    hide Ordered;
    var after := slots[0].(prefixWritten := true);
    var prefix, rest := slots[0].reply.value.prefix, after.Unpoured();
    assert slots[0].reply.value.Full() == prefix + rest;
    assert poured + prefix + rest == poured + (prefix + rest);
  }

  lemma PourChunk(slots: seq<Slot>, expected: nat, c: Conn, poured: Bytes, chunk: Bytes, after: Source)
    requires QueueAgrees(slots, expected, c.kept, c.replies, poured)
    requires slots != [] && slots[0].reply.Some? && slots[0].prefixWritten && slots[0].reply.value.source.Some?
    requires chunk + after.rest == slots[0].reply.value.source.value.rest
    ensures QueueAgrees(slots[0 := slots[0].(reply := Some(slots[0].reply.value.(source := Some(after))))],
                        expected, c.kept, c.replies, poured + chunk)
  {
    assert poured + chunk + after.rest == poured + (chunk + after.rest);
  }

  lemma PourDetach(slots: seq<Slot>, expected: nat, c: Conn, poured: Bytes)
    requires QueueAgrees(slots, expected, c.kept, c.replies, poured)
    requires slots != [] && slots[0].reply.Some? && slots[0].prefixWritten && slots[0].reply.value.Streamed() == []
    ensures QueueAgrees(slots[0 := slots[0].(reply := Some(slots[0].reply.value.(source := None)))], expected, c.kept, c.replies, poured)
  {
  }

  lemma PourRetire(slots: seq<Slot>, expected: nat, c: Conn, poured: Bytes)
    requires QueueAgrees(slots, expected, c.kept, c.replies, poured)
    requires slots != [] && slots[0].reply.Some? && slots[0].prefixWritten && slots[0].Unpoured() == []
    ensures QueueAgrees(slots[1..], expected + 1, c.kept, c.replies, poured)
  {
    assert poured + slots[0].Unpoured() == poured;
  }

  /**
   One turn of the pouring loop on the front slot: its prefix, a chunk of its source, the end of the
   source, or the retirement of the slot.  Bytes only move from the queue to the buffer.
   */
  method PourFront(slots: seq<Slot>, buffer: Bytes, expected: nat, ghost c: Conn, ghost poured: Bytes)
      returns (slots': seq<Slot>, buffer': Bytes, expected': nat, failed: bool)
    requires QueueAgrees(slots, expected, c.kept, c.replies, poured + buffer)
    requires slots != [] && slots[0].reply.Some? && |buffer| < SEND_BUFFER_MAX
    ensures !failed ==> QueueAgrees(slots', expected', c.kept, c.replies, poured + buffer') && Work(slots') < Work(slots)
    ensures !failed ==> (LeadingFault(slots') <==> LeadingFault(slots))
    ensures failed ==> slots[0].prefixWritten && slots[0].HasFault() && LeadingFault(slots)
  {
    hide Ordered, Answered;
    slots', buffer', expected', failed := slots, buffer, expected, false;
    var reply := slots[0].reply.value;
    if !slots[0].prefixWritten {
      PourPrefix(slots, expected, c, poured + buffer);
      assert poured + buffer + reply.prefix == poured + (buffer + reply.prefix);
      buffer' := buffer + reply.prefix;
      slots' := slots[0 := slots[0].(prefixWritten := true)];
      return;
    }
    if reply.source.Some? && !reply.source.value.Eof() {
      var chunk, after, fault := ReadSource(reply.source.value, Min(SEND_BUFFER_MAX - |buffer|, SEND_CHUNK));
      if fault {
        failed := true;
        return;
      }
      if chunk == [] {
        PourDetach(slots, expected, c, poured + buffer);
        slots' := slots[0 := slots[0].(reply := Some(reply.(source := None)))];
        return;
      }
      PourChunk(slots, expected, c, poured + buffer, chunk, after);
      assert poured + buffer + chunk == poured + (buffer + chunk);
      buffer' := buffer + chunk;
      slots' := slots[0 := slots[0].(reply := Some(reply.(source := Some(after))))];
      return;
    }
    PourRetire(slots, expected, c, poured + buffer);
    expected' := expected + 1;
    slots' := slots[1..];
  }
}
