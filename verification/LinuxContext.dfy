/**
 The Linux connection context: each method up to `NotifyDisconnection` is one critical section of
 `sending_mutex_`, and the last ones are what the worker does in several of them, with the calls of handler
 threads in between.

 `Valid` says that what happened so far is a legal run of the ordering model and that the fields are
 its present state.  Every section keeps it, so it holds after any interleaving of worker and handler threads.
 The worker closes a socket only in a state with `Retirable`, and no section undoes that.
 */
module LinuxContext {
  import opened Octets
  import opened ReplyOrder
  import opened ReplySlots

  /** What the worker asks epoll to watch; `None` means that the context is done. */
  datatype Interest = Interest(readable: bool, writable: bool)

  /** What handler threads may do at any time: hand over a reply, or fail. */
  datatype HandlerCall = Complete(id: nat, reply: Option<Reply>) | GiveUp(id: nat)

  /** The handler calls that happen to come between two sections of the worker. */
  datatype Gaps = Gaps(behindFlush: seq<HandlerCall>, behindMask: seq<HandlerCall>,
                       behindAbort: seq<HandlerCall>, behindRetirement: seq<HandlerCall>)

  class Context {
    var open: bool                  // socket_ != -1
    var closing: bool
    var connected: bool
    var disconnected: bool
    var aborted: bool
    var buffer: Bytes
    var offset: nat
    var slots: seq<Slot>
    var expected: nat
    var next: nat

    ghost var log: seq<Event>       // everything that happened to the connection
    ghost var conn: Conn            // the state of the ordering model after it
    ghost var farewells: nat        // calls of on_disconnection_
    ghost var dropped: bool         // the socket was closed although there was something left to send

    ghost predicate Linked()
      reads this
    {
      && Recorded(log, conn)
      && conn.issued == next && conn.closing == closing && conn.aborted == (aborted || dropped) && conn.shut == !open
      && (dropped ==> !open)
      && farewells == (if disconnected then 1 else 0)
      && (disconnected ==> connected && !open)
    }

    ghost predicate Valid()
      reads this
    {
      && Linked()
      && offset <= |buffer|
      && (if aborted then slots == [] && buffer == []
          else !dropped ==>
            conn.poured[conn.sent..] == buffer[offset..] && QueueAgrees(slots, expected, conn.kept, conn.replies, conn.poured))
    }

    /** Nothing is left to send, and nothing that could still become sendable. */
    predicate Idle()
      reads this
    {
      slots == [] && offset == |buffer|
    }

    /** The socket may be closed, now or later: no section of any thread changes that. */
    predicate Retirable()
      reads this
    {
      !open || aborted || (closing && Idle())
    }

    constructor ()
      ensures Valid() && open && log == [] && !connected
    {
      open, closing, connected, disconnected, aborted := true, false, false, false, false;
      buffer, offset, slots, expected, next := [], 0, [], 0, 0;
      log, conn, farewells, dropped := [], FRESH, 0, false;
    }

    /** The bytes that can be poured and have not been. */
    ghost function Unpoured(): (n: nat)
      reads this
    {
      var n := |Ordered(conn.replies, 0, conn.kept)| - |conn.poured|;
      if n < 0 then 0 else n
    }

    ghost method Record(e: Event)
      requires Recorded(log, conn) && Enabled(conn, e)
      modifies `log, `conn
      ensures Recorded(log, conn) && log == old(log) + [e] && conn == Apply(old(conn), e)
    {
      RunStep(log, e);
      StepSound(conn, e);
      log, conn := log + [e], Apply(conn, e);
    }

    method GetNextResponseId() returns (id: nat)
      requires Valid()
      modifies this
      ensures Valid() && id == old(next) && next == id + 1
      ensures log == old(log) + [Allocate]
      ensures slots == if old(closing) then old(slots) else old(slots) + [EMPTY_SLOT]
      ensures unchanged(`buffer, `offset, `expected, `open, `closing, `aborted)
      ensures old(Retirable()) ==> Retirable()
    {
      hide Legal, Run, Ordered, Answered;
      id := next;
      next := next + 1;
      if !closing && open {
        QueueAllocate(slots, expected, conn);
        slots := slots + [EMPTY_SLOT];
      }
      Record(Allocate);
    }

    method EnqueueResponse_(reply: Option<Reply>, id: nat) returns (ok: bool)
      requires Valid()
      modifies `slots, `log, `conn
      ensures Valid()
      ensures ok <==> reply.Some? && CanAccept(old(conn), id)
      ensures log == if ok then old(log) + [Accept(id, reply.value.Full())] else old(log)
      ensures ok ==> open && !aborted && expected <= id < expected + |slots|
      ensures |slots| == |old(slots)|
      ensures !ok ==> slots == old(slots)
    {
      hide Legal, Run, Ordered;
      if reply.None? || !open || aborted || id < expected {
        return false;
      }
      var offset := id - expected;
      if offset >= |slots| || slots[offset].reply.Some? {
        return false;
      }
      QueueAccept(slots, expected, conn, offset, reply.value);
      slots := slots[offset := slots[offset].(reply := reply)];
      Record(Accept(id, reply.value.Full()));
      return true;
    }

    /** `responses_.erase(first, end)` and no more input. */
    method Truncate_(size: nat)
      requires Valid() && open && !aborted
      requires size <= |slots| && (size == 0 && slots != [] ==> !slots[0].prefixWritten)
      modifies `slots, `closing, `log, `conn
      ensures Valid() && closing && slots == old(slots)[..size]
      ensures log == old(log) + [Truncate(expected + size)]
    {
      hide Legal, Run, Ordered, Answered;
      QueueTruncate(slots, expected, conn, size);
      slots := slots[..size];
      closing := true;
      Record(Truncate(expected + size));
    }

    method FailResponse_(id: nat) returns (ok: bool)
      requires Valid()
      modifies `slots, `closing, `log, `conn
      ensures Valid()
      ensures ok <==> CanAccept(old(conn), id)
      ensures log == if ok then old(log) + [Truncate(id)] else old(log)
      ensures ok ==> open && !aborted && closing && expected + |slots| == id && slots < old(slots)
      ensures !ok ==> slots == old(slots) && closing == old(closing)
    {
      if !open || aborted || id < expected {
        return false;
      }
      var first := id - expected;
      if first >= |slots| || slots[first].reply.Some? {
        return false;
      }
      Truncate_(first);
      return true;
    }

    /** Takes a reply of any thread, in any order. */
    method EnqueueResponse(reply: Option<Reply>, id: nat) returns (ok: bool)
      requires Valid()
      modifies `slots, `log, `conn
      ensures Valid()
      ensures ok <==> reply.Some? && CanAccept(old(conn), id)
      ensures log == if ok then old(log) + [Accept(id, reply.value.Full())] else old(log)
      ensures !ok ==> slots == old(slots)
      ensures old(Retirable()) ==> Retirable() && !ok
    {
      ok := EnqueueResponse_(reply, id);
    }

    /** An error reply is the last one: everything behind it is dropped. */
    method EnqueueErrorResponse(reply: Option<Reply>, id: nat) returns (ok: bool)
      requires Valid()
      modifies `slots, `closing, `log, `conn
      ensures Valid()
      ensures ok <==> CanAccept(old(conn), id)
      ensures ok ==> closing
      ensures log == if !ok then old(log)
                     else if reply.None? then old(log) + [Truncate(id)]
                     else old(log) + [Accept(id, reply.value.Full())] + [Truncate(id + 1)]
      ensures old(Retirable()) ==> Retirable()
    {
      hide Legal, Run, Ordered, Answered, Sound;
      ok := EnqueueResponse_(reply, id);
      if !ok {
        ok := FailResponse_(id);
        return;
      }
      Truncate_(id - expected + 1);
    }

    method FailResponse(id: nat) returns (ok: bool)
      requires Valid()
      modifies `slots, `closing, `log, `conn
      ensures Valid()
      ensures ok <==> CanAccept(old(conn), id)
      ensures log == if ok then old(log) + [Truncate(id)] else old(log)
      ensures if ok then closing && slots < old(slots) else slots == old(slots) && closing == old(closing)
      ensures old(Retirable()) ==> Retirable() && !ok
    {
      ok := FailResponse_(id);
    }

    method Connected()
      requires Valid()
      modifies `connected
      ensures Valid() && connected
      ensures old(Retirable()) ==> Retirable()
    {
      connected := true;
    }

    method Close()
      requires Valid()
      modifies `closing, `log, `conn
      ensures Valid() && closing && log == old(log) + [Event.Close]
      ensures old(Retirable()) ==> Retirable()
    {
      closing := true;
      Record(Event.Close);
    }

    method Abort_()
      requires Linked()
      modifies `aborted, `closing, `slots, `buffer, `offset, `log, `conn
      ensures Valid() && aborted && closing && log == old(log) + [Event.Abort]
    {
      hide Legal, Run, Ordered, Answered, QueueAgrees;
      aborted, closing := true, true;
      slots, buffer, offset := [], [], 0;
      Record(Event.Abort);
    }

    method Abort()
      requires Valid()
      modifies `aborted, `closing, `slots, `buffer, `offset, `log, `conn
      ensures Valid() && aborted && closing && log == old(log) + [Event.Abort]
      ensures Retirable()
    {
      Abort_();
    }

    // ---- pouring: while it runs, the buffer holds bytes that the log does not know yet

    ghost predicate Pouring()
      reads this
    {
      && Linked() && open && !aborted && offset == 0
      && QueueAgrees(slots, expected, conn.kept, conn.replies, conn.poured + buffer)
    }

    /**
     Pours leading finished slots into the empty buffer.  `ok` is false exactly when a source failed,
     and then the connection is aborted.  The bytes poured are the next ones in id order, and pouring
     stops only at a full buffer or at a slot that has no reply yet.
     */
    method AppendSendableResponses_() returns (ok: bool)
      requires Valid() && open && !aborted && buffer == []
      modifies `slots, `buffer, `offset, `expected, `closing, `aborted, `log, `conn
      ensures Valid() && offset == 0
      ensures ok <==> !aborted
      ensures ok ==> log == old(log) + [Pour(buffer)] && closing == old(closing)
      ensures ok ==> conn == old(conn).(poured := old(conn).poured + buffer)
      ensures !ok ==> log == old(log) + [Event.Abort]
      ensures ok ==> SEND_BUFFER_MAX <= |buffer| || slots == [] || slots[0].reply.None?
      ensures old(slots) == [] ==> ok && slots == [] && buffer == []
      ensures if ok then LeadingFault(slots) <==> LeadingFault(old(slots)) else LeadingFault(old(slots))
    {
      hide Legal, Run, Ordered, Answered, QueueAgrees;
      assert conn.poured + buffer == conn.poured;
      while slots != [] && |buffer| < SEND_BUFFER_MAX
        invariant Pouring()
        invariant log == old(log) && conn == old(conn) && closing == old(closing)
        invariant old(slots) == [] ==> slots == [] && buffer == []
        invariant LeadingFault(slots) <==> LeadingFault(old(slots))
        decreases Work(slots)
      {
        if slots[0].reply.None? {
          break;
        }
        var slots', buffer', expected', failed := PourFront(slots, buffer, expected, conn, conn.poured);
        if failed {
          Abort_();
          return false;
        }
        slots, buffer, expected := slots', buffer', expected';
      }
      QueuePrefix(slots, expected, conn, conn.poured + buffer);
      Record(Pour(buffer));
      return true;
    }

    method Sent_(count: nat)
      requires Valid() && open && !aborted && offset + count <= |buffer|
      modifies `offset, `log, `conn
      ensures Valid() && offset == old(offset) + count && log == old(log) + [Send(count)]
      ensures conn == old(conn).(sent := old(conn).sent + count)
    {
      hide Legal, Run, Ordered, Answered;
      assert |conn.poured| - conn.sent == |buffer| - offset by {
        assert |conn.poured[conn.sent..]| == |buffer[offset..]|;
      }
      DropMore(conn.poured, conn.sent, buffer, offset, count);
      Record(Send(count));
      offset := offset + count;
    }

    /** Nothing but pouring, sending and an abort has happened since. */
    ghost predicate HasFlushed(before: seq<Event>)
      reads this
    {
      before <= log && forall i | |before| <= i < |log| :: log[i].Pour? || log[i].Send? || log[i].Abort?
    }

    lemma InBuffer()
      requires Valid()
      ensures offset <= |buffer|
    {
    }

    lemma NothingHappened()
      ensures HasFlushed(log)
    {
    }

    /** A buffer that is used up is filled again. */
    method Refill_(ghost before: seq<Event>) returns (ok: bool)
      requires Valid() && open && !aborted && HasFlushed(before)
      modifies `slots, `buffer, `offset, `expected, `closing, `aborted, `log, `conn
      ensures Valid() && ok == !aborted && HasFlushed(before) && offset <= |buffer|
      ensures old(offset < |buffer|) ==> unchanged(this)
      ensures ok ==> conn.sent == old(conn.sent)
      ensures ok ==> closing == old(closing) && (offset < |buffer| || (buffer == [] && offset == 0 && (slots == [] || slots[0].reply.None?)))
      ensures ok && old(offset == |buffer|) ==>
                |buffer| - offset + Unpoured() == old(Unpoured()) && Min(old(Unpoured()), SEND_BUFFER_MAX) <= |buffer| - offset
      ensures if ok then LeadingFault(slots) <==> LeadingFault(old(slots)) else LeadingFault(old(slots))
      ensures old(Retirable()) ==> Retirable()
      ensures old(slots == []) ==> ok && slots == [] && (old(offset == |buffer|) ==> buffer == [])
    {
      hide Legal, Run, Answered, QueueAgrees;
      ok := true;
      if offset == |buffer| {
        WithinOrdered();
        buffer, offset := [], 0;
        ok := AppendSendableResponses_();
        if ok {
          WithinOrdered();
          if |buffer| < SEND_BUFFER_MAX {
            AllPouredOrFull();
          }
        }
      }
    }

    /** What is poured is the front of what can be. */
    lemma WithinOrdered()
      requires Valid()
      ensures |conn.poured| + Unpoured() == |Ordered(conn.replies, 0, conn.kept)|
    {
      hide Legal, Run, Ordered, Answered, QueueAgrees;
    }

    lemma AllPouredOrFull()
      requires Valid() && open && !aborted && (slots == [] || slots[0].reply.None?)
      ensures Unpoured() == 0
    {
      hide Legal, Run, Ordered, Answered, QueueAgrees;
      AllIsPoured(slots, expected, conn, conn.poured);
    }

    lemma DrainedWire()
      requires Valid() && open && !aborted && offset == |buffer| && (slots == [] || slots[0].reply.None?)
      ensures conn.Wire() == Ordered(conn.replies, 0, conn.kept) && !LeadingFault(slots) && (Drained(conn) ==> slots == [])
      ensures Unpoured() == 0
    {
      hide Legal, Run, Ordered, Answered, QueueAgrees;
      if Drained(conn) {
        DrainedLeavesNoSlot(slots, expected, conn);
      }
      AllIsPoured(slots, expected, conn, conn.poured);
      assert conn.poured[conn.sent..] == [];
    }

    /** All that could be sent is on the wire, and nothing else is ready. */
    ghost predicate HasDrained()
      reads this
    {
      && buffer == [] && offset == 0 && (slots == [] || slots[0].reply.None?) && !LeadingFault(slots) && Unpoured() == 0
      && conn.Wire() == Ordered(conn.replies, 0, conn.kept) && (Drained(conn) ==> Idle())
    }

    /** One turn of the loop of a flush. */
    method FlushTurn_(script: seq<SendOutcome>, calls: nat, ghost before: seq<Event>, ghost n: nat)
      returns (goOn: bool, ok: bool)
      requires Valid() && open && !aborted && HasFlushed(before)
      requires calls <= |script| && Passing(script) == calls + Passing(script[calls..])
      modifies `slots, `buffer, `offset, `expected, `closing, `aborted, `log, `conn
      ensures Valid() && HasFlushed(before) && offset <= |buffer|
      ensures old(Retirable()) ==> Retirable()
      ensures old(closing && slots == []) ==> slots == []
      ensures aborted ==> !goOn && !ok && LeadingFault(old(slots))
      ensures !aborted ==>
                && closing == old(closing) && (LeadingFault(slots) <==> LeadingFault(old(slots))) && old(conn.sent) <= conn.sent
                && conn.sent + |buffer| - offset + Unpoured() == old(conn.sent + |buffer| - offset + Unpoured())
      ensures goOn ==>
                && calls < |script| && Passing(script) == calls + 1 + Passing(script[calls + 1..])
                && (old(Covers(script[calls..], |buffer| - offset, Unpoured(), n)) ==>
                      Covers(script[calls + 1..], |buffer| - offset, Unpoured(), n - Min(n, conn.sent - old(conn.sent))))
      ensures !goOn && !aborted ==>
                && (ok <==> offset == |buffer| || !IsFatal(script)) && (offset == |buffer| ==> HasDrained())
                && (old(Covers(script[calls..], |buffer| - offset, Unpoured(), n)) ==> n == 0)
    {
      hide Valid, Drained, Ordered, Covers, LeadingFault, HasFlushed, IsFatal, Passing, Unpoured, Retirable;
      InBuffer();
      ghost var left, more := |buffer| - offset, Unpoured();
      ok := Refill_(before);
      if !ok {
        return false, false;
      }
      CoversRefill(script[calls..], left, more, |buffer| - offset, Unpoured(), n);
      if buffer == [] {
        DrainedWire();
        CoversNothing(script[calls..], n);
        return false, true;
      }
      OneOutcome(script, calls, |buffer| - offset, Unpoured(), n);
      goOn, ok := SendOnce_(if calls < |script| then script[calls] else WouldBlock, before);
      InBuffer();
    }

    /**
     Sends what can be sent; `script` is what the successive send calls of this flush come back with, and behind it
     the socket takes no more.  A flush fails exactly when the socket is gone or the connection aborted, a source fails,
     or bytes are left and the socket does not just block.  When it drains, all that could be sent is on the wire; and
     it sends `n` bytes, for any `n`, if the script is enough for them.
     */
    method FlushSend(script: seq<SendOutcome>, ghost n: nat) returns (ok: bool)
      requires Valid()
      modifies `slots, `buffer, `offset, `expected, `closing, `aborted, `log, `conn
      ensures Valid() && HasFlushed(old(log))
      ensures old(!open || aborted) ==> !ok && log == old(log)
      ensures ok ==> open && !aborted && closing == old(closing)
      ensures ok ==> offset < |buffer| || (buffer == [] && (slots == [] || slots[0].reply.None?))
      ensures ok && offset == |buffer| && Drained(conn) ==> Idle()
      ensures old(closing && slots == []) ==> slots == []
      ensures old(Retirable()) ==> Retirable()
      ensures old(open && !aborted) && aborted ==> !ok && LeadingFault(old(slots))
      ensures old(open && !aborted) && !aborted ==> open && (ok <==> offset == |buffer| || !IsFatal(script))
      ensures old(open && !aborted) && !aborted && offset == |buffer| ==>
                conn.Wire() == Ordered(conn.replies, 0, conn.kept) && !LeadingFault(old(slots))
      ensures old(open && !aborted) && !aborted ==>
                && conn.sent + |buffer| - offset + Unpoured() == old(conn.sent + |buffer| - offset + Unpoured())
                && (old(Covers(script, |buffer| - offset, Unpoured(), n)) ==> old(conn.sent) + n <= conn.sent)
      ensures old(open && !aborted && !LeadingFault(slots) && Covers(script, |buffer| - offset, Unpoured(), n)
                  && n == |buffer| - offset + Unpoured()) ==>
                ok && conn.Wire() == Ordered(conn.replies, 0, conn.kept)
    {
      hide Valid, Drained, Ordered, Covers, LeadingFault, HasFlushed, IsFatal, Passing, Unpoured, Retirable;
      NothingHappened();
      InBuffer();
      if !open || aborted {
        return false;
      }
      var calls := 0;
      assert script[0..] == script;
      while true
        invariant Valid() && open && !aborted && closing == old(closing) && offset <= |buffer|
        invariant calls <= |script| && Passing(script) == calls + Passing(script[calls..])
        invariant old(closing && slots == []) ==> slots == []
        invariant old(Retirable()) ==> Retirable()
        invariant HasFlushed(old(log))
        invariant LeadingFault(slots) <==> LeadingFault(old(slots))
        invariant conn.sent + |buffer| - offset + Unpoured() == old(conn.sent + |buffer| - offset + Unpoured())
        invariant old(conn.sent) <= conn.sent
        invariant old(Covers(script, |buffer| - offset, Unpoured(), n)) ==>
                    Covers(script[calls..], |buffer| - offset, Unpoured(), n - Min(n, conn.sent - old(conn.sent)))
        decreases |script| - calls
      {
        var goOn;
        goOn, ok := FlushTurn_(script, calls, old(log), n - Min(n, conn.sent - old(conn.sent)));
        if !goOn {
          return;
        }
        calls := calls + 1;
      }
    }

    /** One send call of a flush, and whether to go on. */
    method SendOnce_(outcome: SendOutcome, ghost before: seq<Event>) returns (goOn: bool, ok: bool)
      requires Valid() && open && !aborted && offset < |buffer| && HasFlushed(before)
      modifies `offset, `log, `conn
      ensures Valid() && HasFlushed(before)
      ensures goOn <==> GoesOn(outcome)
      ensures !goOn ==> (ok <==> outcome.WouldBlock?)
      ensures goOn && outcome.Sent? ==>
                offset == old(offset) + Min(outcome.count, |buffer| - old(offset)) && log == old(log) + [Send(offset - old(offset))]
      ensures !(goOn && outcome.Sent?) ==> unchanged(this)
      ensures Unpoured() == old(Unpoured()) && (old(Retirable()) ==> Retirable())
      ensures conn.sent == old(conn.sent) + offset - old(offset)
    {
      hide Legal, Run, Ordered, Answered, QueueAgrees;
      goOn, ok := false, false;
      match outcome {
        case Sent(count) =>
          var sent := Min(count, |buffer| - offset);
          if sent == 0 {
            return;
          }
          Sent_(sent);
          goOn := true;
        case Interrupted =>
          goOn := true;
        case WouldBlock =>
          ok := true;
        case Failed =>
      }
    }

    /** `None` means that nothing is left to wait for. */
    method GetEventMask() returns (mask: Option<Interest>)
      requires Valid()
      ensures mask.None? <==> Retirable()
      ensures mask.None? ==> !open || aborted || Drained(conn)
      ensures mask.Some? ==> mask.value.readable == !closing
      ensures mask.Some? ==> (mask.value.writable <==> offset < |buffer| || (slots != [] && slots[0].reply.Some?))
    {
      if !open || aborted {
        return None;
      }
      if closing && offset == |buffer| && slots == [] {
        return None;
      }
      return Some(Interest(!closing, offset < |buffer| || (slots != [] && slots[0].reply.Some?)));
    }

    /** With nothing left in the queue and the buffer, closing is all that is missing. */
    lemma IdleIsDrained()
      requires Valid() && open && (aborted || Idle())
      ensures aborted || Drained(conn.(closing := true))
    {
      hide Legal, Run, Ordered;
    }

    /**
     Closes the socket.  The worker does so only after an abort or when nothing is left to send; anybody who did
     it earlier would drop the rest.
     */
    method RetireSocket() returns (wasOpen: bool)
      requires Valid()
      modifies `open, `closing, `dropped, `log, `conn
      ensures Valid() && !open && wasOpen == old(open)
      ensures log == if !wasOpen then old(log)
                     else old(log) + (if aborted || Idle() then [] else [Event.Abort]) + [Event.Close] + [Shut]
      ensures dropped == (old(dropped) || (wasOpen && !aborted && !Idle()))
      ensures wasOpen ==> aborted || dropped || Drained(conn)
    {
      hide Legal, Run, Ordered, Answered, QueueAgrees, Sound;
      if !open {
        return false;
      }
      if !aborted && !Idle() {
        Record(Event.Abort);
        dropped := true;
      } else {
        assert log == old(log) + [];
        IdleIsDrained();
      }
      Record(Event.Close);
      closing := true;
      Record(Shut);
      open := false;
      return true;
    }

    method NotifyDisconnection()
      requires Valid()
      modifies `disconnected, `farewells
      ensures Valid()
      ensures connected && !open ==> disconnected && farewells == 1
      ensures !connected || open ==> farewells == old(farewells)
    {
      if !connected || disconnected || open {
        return;
      }
      disconnected := true;
      farewells := farewells + 1;
    }

    // ---- several sections, with other threads in between

    /** Handler threads, in the order in which they get the mutex; `completed` when one of them got through, and
        then notifies the worker. */
    method Others(calls: seq<HandlerCall>) returns (completed: bool)
      requires Valid()
      modifies `slots, `closing, `log, `conn
      ensures Valid() && (old(Retirable()) ==> Retirable())
      ensures !completed ==> slots == old(slots) && closing == old(closing) && log == old(log) && conn == old(conn)
      ensures old(Retirable()) || calls == [] ==> !completed
      ensures old(closing) ==> closing
    {
      hide Legal, Run, Ordered, Answered, QueueAgrees, Sound;
      completed := false;
      for i := 0 to |calls|
        invariant Valid() && (old(Retirable()) ==> Retirable() && !completed) && (i == 0 ==> !completed)
        invariant !completed ==> slots == old(slots) && closing == old(closing) && log == old(log) && conn == old(conn)
        invariant old(closing) ==> closing
      {
        var ok;
        match calls[i] {
          case Complete(id, reply) => ok := EnqueueResponse(reply, id);
          case GiveUp(id) => ok := FailResponse(id);
        }
        completed := completed || ok;
      }
    }

    method CloseContext(gap: seq<HandlerCall>)
      requires Valid()
      modifies `open, `closing, `slots, `disconnected, `farewells, `dropped, `log, `conn
      ensures Valid() && !open
      ensures connected && old(open) ==> farewells == 1
      ensures !connected ==> farewells == old(farewells)
      ensures dropped == (old(dropped) || old(open && !aborted && !Idle()))
      ensures old(open) ==> aborted || dropped || Drained(conn)
    {
      hide Legal, Run, Ordered, Answered, QueueAgrees, Sound;
      var wasOpen := RetireSocket();
      if wasOpen {
        var late := Others(gap);
        NotifyDisconnection();
      }
    }

    /** A new connection: nobody but the worker knows the context yet. */
    method Register(watched: bool, welcomed: bool)
      requires Valid() && open && log == [] && !connected
      modifies this
      ensures Valid()
      ensures watched && welcomed ==> open && connected && !aborted
      ensures !(watched && welcomed) ==> !open && !connected && farewells == 0
    {
      if !watched {
        Abort();
        CloseContext([]);
        return;
      }
      if !welcomed {
        FreshIsIdle();
        CloseContext([]);
        return;
      }
      Connected();
    }

    lemma FreshIsIdle()
      requires Valid() && log == []
      ensures Idle() && farewells == 0
    {
    }

    /** The context waits for the socket, for a handler, or for more input. */
    predicate Waits()
      reads this
    {
      !aborted && (offset < |buffer| || (slots != [] && slots[0].reply.None?) || (slots == [] && !closing))
    }

    /**
     What the worker does with a context after input, a wake-up or writability: flush, then re-arm or close.
     One that is open afterwards waits, unless a handler got through behind the flush, and will notify the
     worker.  One that is closed had sent everything, or was aborted.
     */
    method Service(script: seq<SendOutcome>, armed: bool, gaps: Gaps) returns (late: bool)
      requires Valid() && open
      modifies this
      ensures Valid()
      ensures open && !late ==> Waits()
      ensures gaps.behindFlush == gaps.behindMask == [] ==> !late
      ensures !open ==> !dropped && (aborted || Drained(conn))
      ensures !open && connected ==> farewells == 1
      ensures aborted ==> old(aborted) || !armed || IsFatal(script) || LeadingFault(old(slots))
      ensures open ==> armed && !old(aborted) && (offset < |buffer| ==> !IsFatal(script))
    {
      hide Legal, Run, Ordered, Answered, QueueAgrees, Sound, Covers, Unpoured, HasFlushed, LeadingFault, IsFatal, Drained, Linked,
           Recorded;
      late := false;
      var flushed := FlushSend(script, 0);
      var behindFlush := Others(gaps.behindFlush);
      if !flushed {
        AbortContext(gaps);
        return;
      }
      var mask := GetEventMask();
      var behindMask := Others(gaps.behindMask);
      if mask.None? {
        OpenDroppedNothing();
        CloseContext(gaps.behindRetirement);
      } else if !armed {
        AbortContext(gaps);
      } else {
        late := behindFlush || behindMask;
      }
    }

    lemma OpenDroppedNothing()
      requires Valid()
      ensures open ==> !dropped
    {
    }

    method AbortContext(gaps: Gaps)
      requires Valid() && open
      modifies this
      ensures Valid() && !open && aborted && !dropped && connected == old(connected)
      ensures connected ==> farewells == 1
    {
      hide Legal, Run, Ordered, Answered, QueueAgrees, Sound;
      Abort();
      var late := Others(gaps.behindAbort);
      CloseContext(gaps.behindRetirement);
    }
  }
}
