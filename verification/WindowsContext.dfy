/**
 The Windows connection context: each method is one critical section of `sending_mutex_`.

 At most one overlapped receive and one overlapped send are in flight.  As for Linux, `Valid` says
 that what happened so far is a legal run of the ordering model; it also says when the context is
 retired and that the disconnection is reported once.
 */
module WindowsContext {
  import opened Octets
  import opened ReplyOrder
  import opened ReplySlots

  /** The part of a context that the accept pipeline can see. */
  datatype Life = Life(open: bool, receiving: bool, sending: bool, retired: bool)

  /** What comes upon the sending: whether the system takes the send, and how many turns of the pouring loop go by
      before an exception comes out of one. */
  datatype Fate = Fate(posted: bool, turns: nat)

  const NEWBORN := Life(true, false, false, false)

  /** A context is retired as soon as its socket is closed and no operation is in flight. */
  predicate Settled(l: Life) {
    l.retired <==> !l.open && !l.receiving && !l.sending
  }

  /** Closed is for good, and no operation starts on a closed socket. */
  predicate Ages(before: Life, after: Life) {
    && (!before.open ==> !after.open && (after.receiving ==> before.receiving) && (after.sending ==> before.sending))
    && (before.retired ==> after.retired)
  }

  /** Every step of a context is of this kind, so over any number of them: closed is for good, no operation starts
      on a closed socket, and a retired context changes no more. */
  lemma {:induction false} AgesOverRuns(lives: seq<Life>, i: nat, j: nat)
    requires forall k | 0 <= k < |lives| :: Settled(lives[k])
    requires forall k | 0 < k < |lives| :: Ages(lives[k - 1], lives[k])
    requires i <= j < |lives|
    ensures Ages(lives[i], lives[j])
    ensures lives[i].retired ==> lives[j] == lives[i]
    decreases j - i
  {
    if i < j {
      AgesOverRuns(lives, i, j - 1);
      assert Ages(lives[j - 1], lives[j]);
    }
  }

  class Context {
    var open: bool                  // socket_ != INVALID_SOCKET
    var closing: bool
    var connected: bool
    var disconnected: bool
    var receiving: bool
    var sending: bool
    var retired: bool
    var buffer: Bytes
    var offset: nat
    var slots: seq<Slot>
    var expected: nat
    var next: nat

    ghost var log: seq<Event>       // everything that happened to the connection
    ghost var conn: Conn            // the state of the ordering model after it
    ghost var farewells: nat        // calls of on_disconnection_
    ghost var retirements: nat      // calls of on_retirement_

    function TheLife(): Life
      reads this
    {
      Life(open, receiving, sending, retired)
    }

    ghost predicate Linked()
      reads this
    {
      && Recorded(log, conn)
      && conn.issued == next && conn.closing == closing && conn.shut == !open
      && farewells == (if disconnected then 1 else 0)
      && retirements == (if retired then 1 else 0)
      && (disconnected ==> connected && !open)
    }

    ghost predicate Queued()
      reads this
    {
      && offset <= |buffer| && conn.sent <= |conn.poured|
      && (sending ==> offset < |buffer|)
      && (open ==> QueueAgrees(slots, expected, conn.kept, conn.replies, conn.poured))
      && (!open ==> slots == [] && closing)
      && (if open || sending then conn.poured[conn.sent..] == buffer[offset..] else buffer == [])
    }

    ghost predicate Valid()
      reads this
    {
      && Linked() && Queued() && Settled(TheLife())
      && (open ==> !conn.aborted)
      && (connected && !open ==> disconnected)
    }

    /** A closed context is as it has to be when nothing is queued, and what is being sent is what is left. */
    lemma ClosedIsValid()
      requires Linked() && Settled(TheLife()) && !open && slots == [] && (connected ==> disconnected)
      requires if sending then offset < |buffer| && conn.poured[conn.sent..] == buffer[offset..]
               else buffer == [] && offset == 0
      ensures Valid()
    {
    }

    lemma IsSettled()
      requires Valid()
      ensures Settled(TheLife())
    {
    }

    constructor ()
      ensures Valid() && log == [] && !connected && TheLife() == NEWBORN
    {
      open, closing, connected, disconnected := true, false, false, false;
      receiving, sending, retired := false, false, false;
      buffer, offset, slots, expected, next := [], 0, [], 0, 0;
      log, conn, farewells, retirements := [], FRESH, 0, 0;
    }

    ghost method Record(e: Event)
      requires Recorded(log, conn) && Enabled(conn, e)
      modifies `log, `conn
      ensures Recorded(log, conn) && log == old(log) + [e] && conn == Apply(old(conn), e)
    {
      RunStep(log, e);
      StepSound(conn, e);
      log, conn := log + [e], Apply(conn, e);
    }

    // ---- closing

    method NotifyDisconnection_()
      requires Linked()
      modifies `disconnected, `farewells
      ensures Linked()
      ensures connected && !open ==> disconnected
    {
      if !connected || disconnected || open {
        return;
      }
      disconnected := true;
      farewells := farewells + 1;
    }

    method Retire_()
      requires Linked() && (retired ==> Settled(TheLife()))
      modifies `retired, `retirements
      ensures Linked() && Settled(TheLife())
      ensures old(retired) ==> retired
    {
      if retired || open || receiving || sending {
        return;
      }
      retired := true;
      retirements := retirements + 1;
    }

    method CloseSocket_()
      requires Linked() && closing && (open ==> Drained(conn) || conn.aborted)
      modifies `open, `disconnected, `farewells, `log, `conn
      ensures Linked() && !open && (connected ==> disconnected)
      ensures log == if old(open) then old(log) + [Shut] else old(log)
      ensures conn == old(conn).(shut := true)
    {
      hide Legal, Run, Ordered, Answered, Sound;
      if open {
        Record(Shut);
        open := false;
      }
      NotifyDisconnection_();
    }

    /** Closes the socket of a closing context once nothing is left to send. */
    method CleanupResources_()
      requires Valid()
      modifies `open, `disconnected, `farewells, `log, `conn, `retired, `retirements, `buffer, `offset
      ensures Valid() && Ages(old(TheLife()), TheLife())
      ensures old(sending) ==> unchanged(this)
      ensures if old(open) && !open then log == old(log) + [Shut] && Drained(old(conn)) else log == old(log)
      ensures closing && open ==> sending || offset != |buffer| || slots != []
      ensures conn.aborted == old(conn.aborted)
      ensures open ==> unchanged(`buffer, `offset)
    {
      hide Legal, Run, Sound;
      if !closing {
        return;
      }
      if sending || offset != |buffer| || slots != [] {
        return;
      }
      buffer, offset := [], 0;
      CloseSocket_();
      Retire_();
    }

    /** Forgets everything that is not being sent. */
    method Forget_()
      requires Linked()
      modifies `closing, `slots, `buffer, `offset, `log, `conn
      ensures Linked() && closing && slots == []
      ensures if sending then unchanged(`buffer, `offset) else buffer == [] && offset == 0
      ensures log == old(log) + [Event.Abort] && conn == old(conn).(aborted := true, closing := true)
    {
      hide Legal, Run, Ordered, Answered;
      closing := true;
      slots := [];
      if !sending {
        buffer, offset := [], 0;
      }
      Record(Event.Abort);
    }

    method Abort_()
      requires Linked()
      requires retired ==> Settled(TheLife())
      requires sending ==> offset < |buffer| && conn.poured[conn.sent..] == buffer[offset..]
      modifies `closing, `slots, `buffer, `offset, `open, `disconnected, `farewells, `log, `conn, `retired, `retirements
      ensures Valid() && !open && Ages(old(TheLife()), TheLife())
      ensures sending ==> unchanged(`buffer, `offset)
      ensures log == if old(open) then old(log) + [Event.Abort] + [Shut] else old(log) + [Event.Abort]
    {
      hide Linked, Queued;
      Forget_();
      CloseSocket_();
      Retire_();
      ClosedIsValid();
    }

    // ---- replies

    method GetNextResponseId() returns (id: nat)
      requires Valid()
      modifies `next, `slots, `log, `conn
      ensures Valid() && id == old(next) && next == id + 1
      ensures log == old(log) + [Allocate]
      ensures slots == if old(closing) then old(slots) else old(slots) + [EMPTY_SLOT]
    {
      hide Legal, Run, Ordered, Answered;
      id := next;
      next := next + 1;
      if !closing {
        QueueAllocate(slots, expected, conn);
        slots := slots + [EMPTY_SLOT];
      }
      Record(Allocate);
    }

    method EnqueueResponse_(reply: Option<Reply>, id: nat) returns (ok: bool)
      requires Valid()
      modifies `slots, `log, `conn
      ensures Valid()
      ensures ok <==> reply.Some? && CanAccept(old(conn), id)
      ensures log == if ok then old(log) + [Accept(id, reply.value.Full())] else old(log)
      ensures ok ==> open && expected <= id < expected + |slots| && slots[id - expected].reply.Some?
      ensures !ok ==> slots == old(slots)
    {
      hide Legal, Run, Ordered;
      if reply.None? || id < expected {
        return false;
      }
      var offset := id - expected;
      if offset >= |slots| || slots[offset].reply.Some? {
        return false;
      }
      QueueAccept(slots, expected, conn, offset, reply.value);
      slots := slots[offset := slots[offset].(reply := reply)];
      Record(Accept(id, reply.value.Full()));
      return true;
    }

    /** `responses_.erase(first, end)` and no more input. */
    method Truncate_(size: nat)
      requires Valid() && open
      requires size <= |slots| && (size == 0 && slots != [] ==> !slots[0].prefixWritten)
      modifies `slots, `closing, `log, `conn
      ensures Valid() && closing && slots == old(slots)[..size]
      ensures log == old(log) + [Truncate(expected + size)]
    {
      hide Legal, Run, Ordered, Answered;
      QueueTruncate(slots, expected, conn, size);
      slots := slots[..size];
      closing := true;
      Record(Truncate(expected + size));
    }

    method EnqueueResponse(reply: Option<Reply>, id: nat)
      requires Valid()
      modifies `slots, `log, `conn
      ensures Valid()
      ensures log == if reply.Some? && CanAccept(old(conn), id) then old(log) + [Accept(id, reply.value.Full())]
                     else old(log)
      ensures reply.Some? && CanAccept(old(conn), id) && id == expected ==> slots != [] && slots[0].reply.Some?
    {
      var _ := EnqueueResponse_(reply, id);
    }

    // ---- sending

    ghost predicate Pouring()
      reads this
    {
      && Linked() && open && !conn.aborted && !sending && !retired && offset == 0
      && (connected && !open ==> disconnected)
      && QueueAgrees(slots, expected, conn.kept, conn.replies, conn.poured + buffer)
    }

    /** There is something to do on the open connection, and nothing in flight that would bring it about. */
    predicate Stalled()
      reads this
    {
      open && !sending && (buffer != [] || (if slots == [] then closing else slots[0].reply.Some?))
    }

    /** The buffer is used up and the reply in front is there. */
    predicate Ready()
      reads this
    {
      open && !sending && offset == |buffer| && slots != [] && slots[0].reply.Some?
    }

    /** Everything that was poured has been sent, and the reply to `id` is the next to be poured. */
    ghost predicate IsFirst(id: nat)
      reads this
    {
      open && !sending && offset == |buffer| && id == expected && CanAccept(conn, id)
    }

    /** Pours leading finished slots into the used-up buffer; a failed source ends the connection, an exception leaves
        it as it is. */
    method PourSendable_(turns: nat) returns (ok: bool, thrown: bool)
      requires Valid() && open && !sending && offset == |buffer|
      modifies `slots, `buffer, `offset, `expected, `closing, `open, `disconnected, `farewells, `log, `conn,
               `retired, `retirements
      ensures Valid() && ok == open && Ages(old(TheLife()), TheLife()) && (thrown ==> ok)
      ensures log == if ok then old(log) + [Pour(buffer)] else old(log) + [Event.Abort] + [Shut]
      ensures ok ==> offset == 0 && closing == old(closing)
      ensures ok && !thrown ==> SEND_BUFFER_MAX <= |buffer| || slots == [] || slots[0].reply.None?
      ensures thrown ==> Stalled() && old(Ready()) && turns < Work(old(slots))
      ensures turns == 0 && old(Ready()) ==> thrown
      ensures if ok then conn.aborted == old(conn.aborted) else LeadingFault(old(slots))
      ensures ok && !thrown ==> (LeadingFault(slots) <==> LeadingFault(old(slots)))
    {
      hide Legal, Run, Ordered, Answered, QueueAgrees, LeadingFault, Work, Sound;
      Clear_();
      var turn := 0;
      thrown := false;
      while slots != [] && |buffer| < SEND_BUFFER_MAX
        invariant Pouring()
        invariant turn == 0 ==> slots == old(slots) && buffer == []
        invariant 0 < turn ==> old(Ready()) && 0 < turns
        invariant turn + Work(slots) <= Work(old(slots))
        invariant LeadingFault(slots) <==> LeadingFault(old(slots))
        invariant unchanged(`log, `conn, `closing, `open, `disconnected, `farewells, `retired, `retirements)
        decreases Work(slots)
      {
        if slots[0].reply.None? {
          break;
        }
        if turn == turns {
          SomeWork(slots);
          thrown := true;
          break;
        }
        var slots', buffer', expected', failed := PourFront(slots, buffer, expected, conn, conn.poured);
        if failed {
          Abort_();
          return false, false;
        }
        slots, buffer, expected := slots', buffer', expected';
        turn := turn + 1;
      }
      Poured_();
      ok := true;
    }

    /** A used-up buffer is filled from the start. */
    method Clear_()
      requires Valid() && open && !sending && offset == |buffer|
      modifies `buffer, `offset
      ensures Pouring() && buffer == [] && conn.poured[conn.sent..] == []
    {
      hide Recorded;
      buffer, offset := [], 0;
      assert conn.poured + buffer == conn.poured;
    }

    /** What is in the buffer has been poured. */
    ghost method Poured_()
      requires Pouring() && conn.poured[conn.sent..] == []
      modifies `log, `conn
      ensures Valid() && log == old(log) + [Pour(buffer)]
    {
      hide Legal, Run, Ordered, Answered, QueueAgrees;
      QueuePrefix(slots, expected, conn, conn.poured + buffer);
      Record(Pour(buffer));
    }

    /** What arming a send may add to the run: poured bytes, and the end of the connection. */
    ghost predicate Grown(before: seq<Event>)
      reads this
    {
      && before <= log
      && (forall i | |before| <= i < |log| :: log[i].Pour? || log[i].Abort? || log[i].Shut?)
    }

    /**
     Keeps one send in flight while there is something to send.  Afterwards an open context has a send in flight,
     or waits for a handler or for input, exactly unless an exception came out of the pouring.
     */
    method ArmNextSendOperation_(fate: Fate) returns (thrown: bool)
      requires Valid()
      modifies this
      ensures Valid() && Ages(old(TheLife()), TheLife()) && Grown(old(log))
      ensures old(sending) ==> unchanged(this)
      ensures unchanged(`next, `connected, `receiving)
      ensures open ==> closing == old(closing)
      ensures conn.aborted ==> old(conn.aborted) || LeadingFault(old(slots)) || !fate.posted
      ensures sending ==> old(sending) || fate.posted
      ensures thrown <==> Stalled()
      ensures thrown ==> old(Ready()) && fate.turns < Work(old(slots))
      ensures fate.turns == 0 && old(Ready()) ==> thrown
    {
      hide Legal, Run, Ordered, Answered, QueueAgrees, Sound;
      if closing {
        CleanupResources_();
      }
      if !open || sending {
        return false;
      }
      thrown := StartSend_(fate);
    }

    /** Refills the send buffer if it is used up, and posts the send. */
    method StartSend_(fate: Fate) returns (thrown: bool)
      requires Valid() && open && !sending && (closing ==> buffer[offset..] != [] || slots != [])
      modifies this
      ensures Valid() && Ages(old(TheLife()), TheLife()) && Grown(old(log))
      ensures unchanged(`next, `connected, `receiving)
      ensures open ==> closing == old(closing)
      ensures conn.aborted ==> old(conn.aborted) || LeadingFault(old(slots)) || !fate.posted
      ensures sending ==> old(sending) || fate.posted
      ensures thrown <==> Stalled()
      ensures thrown ==> old(Ready()) && fate.turns < Work(old(slots))
      ensures fate.turns == 0 && old(Ready()) ==> thrown
    {
      hide Recorded, QueueAgrees, Drained;
      thrown := false;
      if offset == |buffer| {
        var poured;
        poured, thrown := PourSendable_(fate.turns);
        if !poured || thrown {
          return;
        }
      }
      if buffer == [] {
        CleanupResources_();
        return;
      }
      if !fate.posted {
        Abort_();
        return;
      }
      sending := true;
    }

    method ArmNextSendOperation(fate: Fate) returns (thrown: bool)
      requires Valid()
      modifies this
      ensures Valid() && Ages(old(TheLife()), TheLife()) && Grown(old(log))
      ensures old(sending) ==> unchanged(this)
      ensures open ==> closing == old(closing)
      ensures conn.aborted ==> old(conn.aborted) || LeadingFault(old(slots)) || !fate.posted
      ensures sending ==> old(sending) || fate.posted
      ensures thrown <==> Stalled()
      ensures thrown ==> old(Ready()) && fate.turns < Work(old(slots))
      ensures fate.turns == 0 && old(Ready()) ==> thrown
    {
      thrown := ArmNextSendOperation_(fate);
    }

    /** The send in flight completed: the system reports that `count` of its bytes reached the wire. */
    method CheckSendingBufferAndArm(count: nat, fate: Fate) returns (thrown: bool)
      requires Valid() && sending
      modifies this
      ensures Valid() && Ages(old(TheLife()), TheLife())
      ensures count <= old(|buffer| - offset) ==> Grown(old(log) + [Send(count)])
      ensures old(open) && (count == 0 || old(|buffer| - offset) < count) ==> !open
      ensures !old(open) ==> !open && !sending && (!receiving ==> retired)
      ensures conn.aborted ==> old(conn.aborted) || LeadingFault(old(slots)) || !fate.posted
                               || count == 0 || old(|buffer| - offset) < count
      ensures sending ==> fate.posted
      ensures thrown <==> Stalled()
      ensures receiving == old(receiving)
    {
      hide Legal, Run, Ordered, Answered, Linked, Queued;
      var goOn := TakeSent_(count);
      thrown := false;
      if goOn {
        thrown := ArmNextSendOperation_(fate);
      }
    }

    /** The bytes that are on the wire now. */
    ghost method Confirm_(count: nat)
      requires Valid() && sending && count <= |buffer| - offset
      modifies `log, `conn
      ensures Linked() && log == old(log) + [Send(count)] && conn == old(conn).(sent := old(conn).sent + count)
      ensures conn.sent <= |conn.poured| && conn.poured[conn.sent..] == buffer[offset + count..]
    {
      hide Legal, Run, Ordered, Answered, QueueAgrees;
      DropMore(conn.poured, conn.sent, buffer, offset, count);
      assert |conn.poured[conn.sent..]| == |buffer[offset..]|;
      Record(Send(count));
    }

    method TakeSent_(count: nat) returns (goOn: bool)
      requires Valid() && sending
      modifies this
      ensures Valid() && Ages(old(TheLife()), TheLife()) && !sending && receiving == old(receiving)
      ensures goOn ==> slots == old(slots)
      ensures conn.aborted ==> old(conn.aborted) || count == 0 || old(|buffer| - offset) < count
      ensures goOn == open
      ensures open <==> old(open) && 0 < count <= old(|buffer| - offset)
      ensures count <= old(|buffer| - offset) ==> Grown(old(log) + [Send(count)])
    {
      hide Recorded, QueueAgrees;
      if count <= |buffer| - offset {
        Confirm_(count);
      }
      sending := false;
      if !open {
        buffer, offset := [], 0;
        Retire_();
        return false;
      }
      if count == 0 || offset > |buffer| || count > |buffer| - offset {
        Abort_();
        return false;
      }
      offset := offset + count;
      return true;
    }

    method SendFailed()
      requires Valid() && sending
      modifies this
      ensures Valid() && !open && !sending && receiving == old(receiving) && Ages(old(TheLife()), TheLife())
      ensures buffer == [] && slots == []
      ensures log == if old(open) then old(log) + [Event.Abort] + [Shut] else old(log) + [Event.Abort]
    {
      hide Legal, Run, Ordered, Answered, QueueAgrees;
      sending := false;
      Abort_();
    }

    // ---- what the handlers and the other completions do

    method FailResponse_(id: nat, fate: Fate) returns (thrown: bool)
      requires Valid()
      modifies this
      ensures Valid() && Ages(old(TheLife()), TheLife())
      ensures if CanAccept(old(conn), id)
              then closing && Grown(old(log) + [Truncate(id)]) && (thrown <==> Stalled())
              else unchanged(this) && !thrown
      ensures old(sending) ==> sending && unchanged(`buffer, `offset)
    {
      hide Legal, Run, Ordered;
      if id < expected {
        return false;
      }
      var first := id - expected;
      if first >= |slots| || slots[first].reply.Some? {
        return false;
      }
      Truncate_(first);
      thrown := ArmNextSendOperation_(fate);
    }

    /** An exception that comes out of the pouring ends the connection. */
    method FailResponse(id: nat, fate: Fate)
      requires Valid()
      modifies this
      ensures Valid() && Ages(old(TheLife()), TheLife())
      ensures if CanAccept(old(conn), id) then closing && Grown(old(log) + [Truncate(id)]) && !Stalled()
              else unchanged(this)
      ensures old(sending) ==> sending && unchanged(`buffer, `offset)
    {
      hide Legal, Run, Ordered, Answered, QueueAgrees;
      var thrown := FailResponse_(id, fate);
      if thrown {
        Abort_();
      }
    }

    /** An error reply is the last one: everything behind it is dropped. */
    method EnqueueErrorResponse(reply: Option<Reply>, id: nat, fate: Fate) returns (thrown: bool)
      requires Valid()
      modifies this
      ensures Valid() && Ages(old(TheLife()), TheLife())
      ensures if !CanAccept(old(conn), id) then unchanged(this) && !thrown
              else && closing && (thrown <==> Stalled())
                   && Grown(old(log) + (if reply.None? then [Truncate(id)]
                                        else [Accept(id, reply.value.Full())] + [Truncate(id + 1)]))
      ensures old(sending) ==> sending && unchanged(`buffer, `offset)
    {
      hide Legal, Run, Ordered, Answered, QueueAgrees, Sound;
      var ok := EnqueueResponse_(reply, id);
      if !ok {
        thrown := FailResponse_(id, fate);
        return;
      }
      Truncate_(id - expected + 1);
      assert log == old(log) + ([Accept(id, reply.value.Full())] + [Truncate(id + 1)]);
      thrown := ArmNextSendOperation_(fate);
    }

    method ReportConnected()
      requires Valid()
      modifies `connected, `disconnected, `farewells
      ensures Valid() && connected && TheLife() == old(TheLife())
      ensures farewells == if open then 0 else 1
    {
      connected := true;
      NotifyDisconnection_();
    }

    method Close(fate: Fate) returns (thrown: bool)
      requires Valid()
      modifies this
      ensures Valid() && closing && Ages(old(TheLife()), TheLife()) && Grown(old(log) + [Event.Close])
      ensures old(sending) ==> sending && unchanged(`buffer, `offset)
      ensures conn.aborted ==> old(conn.aborted) || LeadingFault(old(slots)) || !fate.posted
      ensures thrown <==> Stalled()
    {
      hide Legal, Run, Ordered, Answered, QueueAgrees;
      closing := true;
      Record(Event.Close);
      thrown := ArmNextSendOperation_(fate);
    }

    method Abort()
      requires Valid()
      modifies this
      ensures Valid() && !open && Ages(old(TheLife()), TheLife()) && slots == []
      ensures sending == old(sending) && receiving == old(receiving)
      ensures if sending then unchanged(`buffer, `offset) else buffer == []
      ensures log == if old(open) then old(log) + [Event.Abort] + [Shut] else old(log) + [Event.Abort]
    {
      Abort_();
    }

    /** Starts the one receive; `posted` says whether the system takes it. */
    method ArmNextReceiveOperation(posted: bool) returns (armed: bool)
      requires Valid() && !receiving
      modifies this
      ensures Valid() && armed == receiving && Ages(old(TheLife()), TheLife())
      ensures armed <==> !old(closing) && posted
      ensures !old(open) ==> unchanged(this)
      ensures sending == old(sending) && (sending ==> unchanged(`buffer, `offset))
    {
      hide Legal, Run, Ordered, Answered, QueueAgrees;
      if closing {
        return false;
      }
      if posted {
        receiving := true;
        return true;
      }
      Abort_();
      return false;
    }

    method ReceiveCompleted() returns (goOn: bool)
      requires Valid() && receiving
      modifies `receiving, `retired, `retirements
      ensures Valid() && !receiving && goOn == (open && !closing) && Ages(old(TheLife()), TheLife())
      ensures !open && !sending ==> retired && retirements == 1
    {
      hide Legal, Run, Ordered, Answered, QueueAgrees;
      receiving := false;
      if !open {
        Retire_();
        return false;
      }
      return !closing;
    }

    method ReceiveFailed()
      requires Valid() && receiving
      modifies this
      ensures Valid() && !receiving && !open && sending == old(sending) && Ages(old(TheLife()), TheLife())
      ensures sending ==> unchanged(`buffer, `offset)
    {
      hide Legal, Run, Ordered, Answered, QueueAgrees;
      receiving := false;
      Abort_();
    }
  }

  // ---- what an exception out of the pouring leads to

  /** Pouring and closing take no reply and make no room for one. */
  lemma {:induction false} NoFurtherReply(before: seq<Event>, log: seq<Event>, id: nat)
    requires before <= log && Legal(log)
    requires forall i | |before| <= i < |log| :: log[i].Pour? || log[i].Abort? || log[i].Shut?
    ensures Legal(before) && (CanAccept(Run(log), id) ==> CanAccept(Run(before), id))
    decreases |log|
  {
    if before != log {
      NoFurtherReply(before, log[..|log| - 1], id);
    } else {
      assert before == log;
    }
  }

  /**
   What becomes of a response that a handler hands over, with nothing coming in between; `delayed` when it does so
   from a thread of its own.  FailResponse has nothing left to do there, so the exception stalls the connection.
   */
  method Respond(c: Context, reply: Option<Reply>, id: nat, delayed: bool, fate: Fate, again: Fate)
    returns (thrown: bool)
    requires c.Valid()
    modifies c
    ensures c.Valid() && Ages(old(c.TheLife()), c.TheLife())
    ensures reply.Some? && delayed ==> (thrown <==> c.Stalled())
    ensures reply.Some? && delayed && fate.turns == 0 && old(c.IsFirst(id)) ==> thrown
    ensures reply.Some? && CanAccept(old(c.conn), id) ==> old(c.log) + [Accept(id, reply.value.Full())] <= c.log
    ensures thrown ==> reply.Some? && delayed && !CanAccept(c.conn, id)
  {
    hide Legal, Run, Sound, Context.Queued;
    if reply.None? {
      c.FailResponse(id, fate);
      return false;
    }
    c.EnqueueResponse(reply, id);
    if !delayed {
      return false;
    }
    ghost var before := c.log;
    RunStep(old(c.log), Accept(id, reply.value.Full()));
    assert !CanAccept(c.conn, id);
    thrown := c.ArmNextSendOperation(fate);
    if thrown {
      NoFurtherReply(before, c.log, id);
      c.FailResponse(id, again);
    }
  }

  /**
   The error response to a request that could not be read, with nothing coming in between.  After the exception
   the connection is closing, and nothing is in flight that would ever close it.
   */
  method Refuse(c: Context, reply: Option<Reply>, id: nat, fate: Fate, again: Fate) returns (thrown: bool)
    requires c.Valid()
    modifies c
    ensures c.Valid() && Ages(old(c.TheLife()), c.TheLife())
    ensures CanAccept(old(c.conn), id) ==> c.closing && (thrown <==> c.Stalled())
    ensures !CanAccept(old(c.conn), id) ==> !thrown && unchanged(c)
  {
    hide Legal, Run, Sound, Context.Queued;
    if reply.None? {
      c.FailResponse(id, fate);
      return false;
    }
    var response := Accept(id, reply.value.Full());
    thrown := c.EnqueueErrorResponse(reply, id, fate);
    if thrown {
      RunStep(old(c.log), response);
      RunStep(old(c.log) + [response], Truncate(id + 1));
      assert old(c.log) + ([response] + [Truncate(id + 1)]) == old(c.log) + [response] + [Truncate(id + 1)];
      NoFurtherReply(old(c.log) + [response] + [Truncate(id + 1)], c.log, id);
      c.FailResponse(id, again);
    }
  }

  /** A handler's only response, of which no byte is ever sent. */
  method NeverSent() returns (c: Context)
    ensures c.Valid() && c.Stalled() && 0 in c.conn.replies
  {
    hide Sound, QueueAgrees, Legal, Run, Context.Queued;
    var reply := Reply("x", None);
    c := FirstRequest();
    var thrown := Respond(c, Some(reply), 0, true, Fate(true, 0), Fate(true, 0));
    var taken := [Allocate] + [Accept(0, reply.Full())];
    RunStep([Allocate], Accept(0, reply.Full()));
    assert taken + c.log[|taken|..] == c.log;
    RunExtends(taken, c.log[|taken|..]);
  }

  /** A connection with one request whose response is still to come. */
  method FirstRequest() returns (c: Context)
    ensures fresh(c) && c.Valid() && c.IsFirst(0) && c.log == [Allocate]
  {
    hide Sound;
    c := new Context();
    var id := c.GetNextResponseId();
    RunStep([], Allocate);
  }
}
