/**
 The accept pipeline, the registered contexts and the shutdown wait of the Windows transport.

 Each method is one critical section of `lifecycle_mutex_` or one completion taken from the port.  Four
 more fields say what the system and the worker threads really have in hand; `Valid` ties the one
 counter of the source to them, after any interleaving.
 */
module AcceptPipeline {
  import opened Octets
  import opened ReplySlots
  import opened WindowsContext

  /** How far the handling of a completed accept has come. */
  datatype Stage =
    | Fresh                       // taken from the port
    | Replaced                    // has posted its replacement
    | Unreplaced                  // could not, or must not, post one

  /** The calls that workers, handlers and stop_() make on a context; `posted` is what the system makes of a receive,
      and the fate is that of a send. */
  datatype ContextCall =
    | NextId
    | Reply(reply: Option<ReplySlots.Reply>, id: nat)
    | ErrorReply(reply: Option<ReplySlots.Reply>, id: nat, fate: Fate)
    | Fail(id: nat, fate: Fate)
    | ArmSend(fate: Fate)
    | SendDone(count: nat, fate: Fate)
    | SendFault
    | ArmReceive(posted: bool)
    | ReceiveDone
    | ReceiveFault
    | Connected
    | CloseDown(fate: Fate)
    | GiveUp

  /** A completion comes in only for an operation in flight, and only one receive is armed at a time. */
  predicate CanCall(life: Life, call: ContextCall) {
    && (call.SendDone? || call.SendFault? ==> life.sending)
    && (call.ReceiveDone? || call.ReceiveFault? ==> life.receiving)
    && (call.ArmReceive? ==> !life.receiving)
  }

  /** Whether a send or a receive was in flight before the call and is over after it. */
  predicate IsOver(before: Life, call: ContextCall, after: Life) {
    && (call.SendFault? || (call.SendDone? && !before.open) ==> !after.sending)
    && (call.ReceiveDone? || call.ReceiveFault? ==> !after.receiving)
    && (call.GiveUp? ==> !after.open)
  }

  /** One critical section of the context; the caller of one that throws goes on with another call. */
  method Perform(c: Context, call: ContextCall)
    requires c.Valid() && CanCall(c.TheLife(), call)
    modifies c
    ensures c.Valid() && Settled(c.TheLife()) && Ages(old(c.TheLife()), c.TheLife())
    ensures IsOver(old(c.TheLife()), call, c.TheLife())
  {
    hide Context.Linked, Context.Queued, Context.Grown, Settled;
    var thrown := false;
    match call {
      case NextId => var _ := c.GetNextResponseId();
      case Reply(reply, id) => c.EnqueueResponse(reply, id);
      case ErrorReply(reply, id, fate) => thrown := c.EnqueueErrorResponse(reply, id, fate);
      case Fail(id, fate) => c.FailResponse(id, fate);
      case ArmSend(fate) => thrown := c.ArmNextSendOperation(fate);
      case SendDone(count, fate) => thrown := c.CheckSendingBufferAndArm(count, fate);
      case SendFault => c.SendFailed();
      case ArmReceive(posted) => var _ := c.ArmNextReceiveOperation(posted);
      case ReceiveDone => var _ := c.ReceiveCompleted();
      case ReceiveFault => c.ReceiveFailed();
      case Connected => c.ReportConnected();
      case CloseDown(fate) => thrown := c.Close(fate);
      case GiveUp => c.Abort();
    }
    c.IsSettled();
  }

  class Tcpip {
    var acceptDepth: nat
    var pendingAccepts: nat
    var listening: bool           // accept_socket_ != INVALID_SOCKET
    var stopping: bool
    var contexts: set<Context>

    var outstanding: nat              // AcceptEx operations the system still holds
    var handling: multiset<Stage>     // completed accepts in the hands of workers
    var lives: map<Context, Life>     // every context that was ever registered
    var waited: bool                  // the wait in stop_() has passed

    ghost predicate Valid()
      reads this
    {
      && pendingAccepts == outstanding + |handling|
      && pendingAccepts <= acceptDepth + handling[Replaced]
      && (stopping ==> !listening)
      && contexts <= lives.Keys
      && (forall c | c in lives :: Settled(lives[c]) && (!lives[c].retired ==> c in contexts))
      && (waited ==> stopping && Quiet())
    }

    /** Nothing of the transport is left in the hands of the system or of a worker. */
    ghost predicate Quiet()
      reads this
    {
      && outstanding == 0 && handling == multiset{}
      && (forall c | c in lives :: !lives[c].open && !lives[c].receiving && !lives[c].sending && lives[c].retired)
    }

    /** No context is between its retirement and its removal. */
    ghost predicate Removed()
      reads this
    {
      contexts <= lives.Keys && forall c | c in contexts :: !lives[c].retired
    }

    constructor (workers: nat)
      ensures Valid() && !waited
      ensures acceptDepth == (if workers < 2 then 2 else workers) && pendingAccepts == 0
    {
      acceptDepth := if workers < 2 then 2 else workers;
      pendingAccepts, listening, stopping, contexts := 0, true, false, {};
      outstanding, handling, lives, waited := 0, multiset{}, map[], false;
    }

    /** Never more operations outstanding than the pipeline is deep, replacements included. */
    lemma OutstandingIsBounded()
      requires Valid()
      ensures outstanding <= acceptDepth
      ensures pendingAccepts == outstanding + |handling|
    {
      MultisetCount(handling, Replaced);
    }

    /** The locked part of post_accept(false); `taken` says whether AcceptEx takes the operation. */
    method PostAccept(taken: bool) returns (ok: bool)
      requires Valid()
      modifies `pendingAccepts, `outstanding
      ensures Valid()
      ensures ok <==> !old(stopping) && listening && (acceptDepth <= old(pendingAccepts) || taken)
      ensures outstanding == old(outstanding) + (if ok && old(pendingAccepts) < acceptDepth then 1 else 0)
    {
      if stopping || !listening {
        return false;
      }
      if pendingAccepts >= acceptDepth {
        return true;
      }
      pendingAccepts := pendingAccepts + 1;
      if !taken {
        pendingAccepts := pendingAccepts - 1;
        return false;
      }
      outstanding := outstanding + 1;
      return true;
    }

    /** The locked part of post_accept(true): no look at the depth. */
    method PostReplacement(taken: bool) returns (ok: bool)
      requires Valid() && Fresh in handling
      modifies `pendingAccepts, `outstanding, `handling
      ensures Valid()
      ensures ok <==> !stopping && listening && taken
      ensures outstanding == old(outstanding) + (if ok then 1 else 0)
      ensures handling == old(handling) - multiset{Fresh} + multiset{if ok then Replaced else Unreplaced}
    {
      ok := false;
      if !stopping && listening {
        pendingAccepts := pendingAccepts + 1;
        if taken {
          outstanding := outstanding + 1;
          ok := true;
        } else {
          pendingAccepts := pendingAccepts - 1;
        }
      }
      MoveOn(handling, if ok then Replaced else Unreplaced);
      handling := handling - multiset{Fresh} + multiset{if ok then Replaced else Unreplaced};
    }

    /** A worker takes a completed (or failed) accept from the port. */
    method TakeCompletion()
      requires Valid() && 0 < outstanding
      modifies `outstanding, `handling
      ensures Valid()
      ensures outstanding == old(outstanding) - 1 && handling == old(handling) + multiset{Fresh}
    {
      outstanding, handling := outstanding - 1, handling + multiset{Fresh};
    }

    /** The locked part of finish_accept, which every path through the handling of an accept ends with. */
    method FinishAccept(stage: Stage) returns (replenish: bool)
      requires Valid() && stage in handling
      modifies `pendingAccepts, `handling
      ensures Valid()
      ensures pendingAccepts == old(pendingAccepts) - 1 && handling == old(handling) - multiset{stage}
      ensures replenish <==> !stopping && listening
    {
      if pendingAccepts > 0 {
        pendingAccepts := pendingAccepts - 1;
      }
      handling := handling - multiset{stage};
      replenish := !stopping && listening;
    }

    /** The loop that fills the pipeline; `taken` is what the system makes of the successive accepts. */
    method ReplenishAcceptPipeline(taken: seq<bool>) returns (ok: bool)
      requires Valid()
      modifies `pendingAccepts, `outstanding
      ensures Valid()
      ensures ok ==> listening && !stopping
      ensures ok ==> pendingAccepts == (if old(pendingAccepts) < acceptDepth then acceptDepth else old(pendingAccepts))
      ensures !ok ==> stopping || !listening || false in taken
      ensures outstanding - old(outstanding) == pendingAccepts - old(pendingAccepts) >= 0
    {
      var posts := 0;
      while true
        invariant Valid() && old(pendingAccepts) <= pendingAccepts
        invariant pendingAccepts <= acceptDepth || pendingAccepts == old(pendingAccepts)
        invariant outstanding - old(outstanding) == pendingAccepts - old(pendingAccepts)
        decreases acceptDepth - pendingAccepts
      {
        if stopping || !listening {
          return false;
        }
        if pendingAccepts >= acceptDepth {
          return true;
        }
        var posted := PostAccept(posts < |taken| ==> taken[posts]);
        if !posted {
          return false;
        }
        posts := posts + 1;
      }
    }

    /** Only the handler of an accept registers a context, and only a new one; `inserted` is what the registry
        makes of it. */
    method RegisterContext(c: Context, inserted: bool) returns (ok: bool)
      requires Valid() && handling != multiset{} && c !in lives && c.TheLife() == NEWBORN
      modifies `contexts, `lives
      ensures Valid()
      ensures ok <==> !stopping && inserted
      ensures contexts == old(contexts) + (if ok then {c} else {})
      ensures lives == if ok then old(lives)[c := NEWBORN] else old(lives)
    {
      if stopping || !inserted {
        return false;
      }
      contexts := contexts + {c};
      lives := lives[c := NEWBORN];
      return true;
    }

    /** Any call on a registered context, under the mutex of the context: it may retire, but the registry still
        has it. */
    method Call(c: Context, call: ContextCall)
      requires Valid() && c in lives && c.Valid() && lives[c] == c.TheLife() && CanCall(lives[c], call)
      modifies c, `lives
      ensures Valid() && c.Valid()
      ensures lives == old(lives)[c := c.TheLife()] && Ages(old(lives)[c], lives[c])
      ensures IsOver(old(lives)[c], call, lives[c])
    {
      hide Context.Valid, Settled;
      Perform(c, call);
      lives := lives[c := c.TheLife()];
    }

    /** A context that has just retired calls back and is removed from the registry, under the other mutex. */
    method RetireContext(c: Context)
      requires Valid() && c in contexts && lives[c].retired
      modifies `contexts
      ensures Valid()
      ensures contexts == old(contexts) - {c}
    {
      contexts := contexts - {c};
    }

    /** The first critical section of stop_(). */
    method BeginStop() returns (toAbort: set<Context>)
      requires Valid()
      modifies `stopping, `listening
      ensures Valid() && stopping && !listening
      ensures toAbort == contexts == old(contexts)
    {
      stopping := true;
      toAbort := contexts;
      listening := false;
    }

    /**
     The condition stop_() waits for, exactly: no accept is outstanding or being handled, every context that was
     ever registered is retired with no operation in flight, and has been removed.
     */
    method WaitPasses() returns (passed: bool)
      requires Valid() && stopping
      modifies `waited
      ensures Valid()
      ensures passed <==> pendingAccepts == 0 && contexts == {}
      ensures passed <==> Quiet() && Removed()
      ensures passed ==> waited
    {
      passed := pendingAccepts == 0 && contexts == {};
      if passed {
        waited := true;
      }
    }

    // ---- shutting down

    /** The contexts are as the registry knows them. */
    ghost predicate Watched()
      reads this, lives.Keys
    {
      forall c | c in lives :: c.Valid() && c.TheLife() == lives[c]
    }

    /** How much is in flight or waits to be removed. */
    ghost function Remaining(): nat
      reads this
    {
      2 * outstanding + |handling| + |contexts| + |Sending(lives)| + |Receiving(lives)|
    }

    /** A call on one context leaves the others as they are, and the end of an operation of a closed context is one
        operation less. */
    method Turn(c: Context, call: ContextCall)
      requires Valid() && Watched() && c in lives && CanCall(lives[c], call)
      modifies c, `lives
      ensures Valid() && Watched() && lives.Keys == old(lives.Keys)
      ensures forall d | d in lives && !old(lives)[d].open :: !lives[d].open
      ensures call.GiveUp? ==> !lives[c].open
      ensures !old(lives)[c].open && (call.SendFault? || call.SendDone? || call.ReceiveDone? || call.ReceiveFault?) ==>
                Remaining() < old(Remaining())
    {
      hide Context.Valid, Settled;
      ghost var before := lives;
      Call(c, call);
      if !before[c].open {
        InFlight(before, c, lives[c]);
      }
    }

    /** An operation of a closed context is in flight, an accept is, or a context waits to be removed. */
    predicate IsBusy()
      reads this
    {
      || outstanding > 0 || handling != multiset{}
      || (exists c :: c in lives && !lives[c].open && (lives[c].sending || lives[c].receiving))
      || (exists c :: c in contexts && c in lives && lives[c].retired)
    }

    /** With all contexts closed, nothing but what is in flight or waits to be removed is waited for. */
    lemma IsBusyOrPasses()
      requires Valid() && forall c | c in lives :: !lives[c].open
      ensures IsBusy() || (pendingAccepts == 0 && contexts == {})
    {
      if contexts != {} {
        var c :| c in contexts;
        assert Settled(lives[c]);
      }
    }

    /** A worker takes a completed accept or is done with one, or a retired context is removed. */
    method AdvanceAccept()
      requires Valid() && Watched()
      requires outstanding > 0 || handling != multiset{} || exists c :: c in contexts && c in lives && lives[c].retired
      modifies `outstanding, `handling, `pendingAccepts, `contexts
      ensures Valid() && Watched() && Remaining() < old(Remaining())
    {
      hide Context.Valid, Settled;
      if {
        case outstanding > 0 =>
          TakeCompletion();
        case handling != multiset{} =>
          var stage :| stage in handling;
          var _ := FinishAccept(stage);
        case exists c :: c in contexts && c in lives && lives[c].retired =>
          var c :| c in contexts && c in lives && lives[c].retired;
          RetireContext(c);
      }
    }

    /** One of these things goes on; an operation of a context may end in any way. */
    method Advance(count: nat, fate: Fate, fails: bool)
      requires Valid() && Watched() && IsBusy()
      modifies `outstanding, `handling, `pendingAccepts, `contexts, `lives, lives.Keys
      ensures Valid() && Watched() && lives.Keys == old(lives.Keys)
      ensures forall c | c in lives && !old(lives)[c].open :: !lives[c].open
      ensures Remaining() < old(Remaining())
    {
      hide Valid, Watched, Remaining, Context.Valid, Settled;
      if {
        case exists c :: c in lives && !lives[c].open && lives[c].sending =>
          var c :| c in lives && !lives[c].open && lives[c].sending;
          Turn(c, if fails then SendFault else SendDone(count, fate));
        case exists c :: c in lives && !lives[c].open && lives[c].receiving =>
          var c :| c in lives && !lives[c].open && lives[c].receiving;
          Turn(c, if fails then ReceiveFault else ReceiveDone);
        case outstanding > 0 || handling != multiset{} || exists c :: c in contexts && c in lives && lives[c].retired =>
          AdvanceAccept();
      }
    }

    /**
     What goes on while stop_() aborts the contexts and waits.  The operations in flight complete in any order and
     with any result, and `calls` come in on any of the contexts.  In the end nothing is left.
     */
    method Drain(contextsToAbort: set<Context>, calls: seq<ContextCall>)
      requires Valid() && Watched()
      requires contextsToAbort <= lives.Keys && forall c | c in lives :: c in contextsToAbort || !lives[c].open
      modifies `outstanding, `handling, `pendingAccepts, `contexts, `lives, lives.Keys
      ensures Valid() && Watched() && lives.Keys == old(lives.Keys)
      ensures pendingAccepts == 0 && contexts == {}
    {
      hide Valid, Watched, Remaining, IsBusy, Context.Valid, Settled;
      var toAbort, made := contextsToAbort, 0;
      while toAbort != {} || pendingAccepts != 0 || contexts != {}
        invariant Valid() && Watched() && lives.Keys == old(lives.Keys) && made <= |calls|
        invariant toAbort <= lives.Keys && forall c | c in lives :: c in toAbort || !lives[c].open
        decreases |calls| - made + |toAbort|, Remaining()
      {
        if toAbort == {} {
          IsBusyOrPasses();
        }
        if {
          case toAbort != {} =>
            var c :| c in toAbort;
            Turn(c, GiveUp);
            toAbort := toAbort - {c};
          case made < |calls| && exists c :: c in lives && CanCall(lives[c], calls[made]) =>
            var c :| c in lives && CanCall(lives[c], calls[made]);
            Turn(c, calls[made]);
            made := made + 1;
          case IsBusy() =>
            var count: nat, fate: Fate, fails: bool := *, *, *;
            Advance(count, fate, fails);
        }
      }
    }

    /** The whole of stop_(): it comes to an end, and what it waits for has come to pass. */
    method Stop(calls: seq<ContextCall>)
      requires Valid() && Watched()
      modifies this, lives.Keys
      ensures Valid() && Watched() && lives.Keys == old(lives.Keys)
      ensures waited && Quiet() && Removed()
    {
      hide Context.Valid;
      var toAbort := BeginStop();
      Drain(toAbort, calls);
      var passed := WaitPasses();
    }
  }

  ghost function Sending(lives: map<Context, Life>): set<Context> { set c | c in lives && lives[c].sending }

  ghost function Receiving(lives: map<Context, Life>): set<Context> { set c | c in lives && lives[c].receiving }

  /** Nothing is started on a closed context. */
  lemma InFlight(lives: map<Context, Life>, c: Context, after: Life)
    requires c in lives && !lives[c].open && Ages(lives[c], after)
    ensures |Sending(lives[c := after])| == |Sending(lives)| - (if lives[c].sending && !after.sending then 1 else 0)
    ensures |Receiving(lives[c := after])| == |Receiving(lives)| - (if lives[c].receiving && !after.receiving then 1 else 0)
  {
    var now := lives[c := after];
    assert Sending(now) == if lives[c].sending && !after.sending then Sending(lives) - {c} else Sending(lives);
    assert Receiving(now) == if lives[c].receiving && !after.receiving then Receiving(lives) - {c} else Receiving(lives);
  }

  /** An accept goes on to its next stage. */
  lemma MoveOn(m: multiset<Stage>, stage: Stage)
    requires Fresh in m && stage != Fresh
    ensures |m - multiset{Fresh} + multiset{stage}| == |m|
    ensures (m - multiset{Fresh} + multiset{stage})[Replaced] == m[Replaced] + (if stage.Replaced? then 1 else 0)
  {
  }

  lemma MultisetCount(m: multiset<Stage>, s: Stage)
    ensures m[s] <= |m|
  {
    assert m == (m - multiset{s}[s := m[s]]) + multiset{s}[s := m[s]];
    assert |multiset{s}[s := m[s]]| == m[s];
  }
}
