/**
 The wake-up protocol between handler threads and a Linux worker.

 A handler that completed a reply on another thread queues its context and, if the queue was empty,
 adds one to the eventfd counter.  The worker reads the counter, looks at the stop flag, swaps the
 queue out and flushes its contexts.  Each happening below is one step that no lock makes longer.
 */
module WakeUp {
  type ContextId = nat

  datatype Phase =
    | Waiting                          // in epoll_wait
    | Woken                            // has read the counter, has not looked at the stop flag
    | Checked                          // has seen the stop flag down, has not swapped the queue
    | Flushing(todo: seq<ContextId>)
    | Left                             // out of its loop

  datatype State = State(
    counter: nat,
    pending: seq<ContextId>,
    accepting: bool,
    stopping: bool,
    phase: Phase,
    told: seq<ContextId>,              // history: every notification that was accepted
    served: seq<ContextId>,            // history: every context that was flushed for one
    dropped: seq<ContextId>)           // history: what stop() cleared from the queue

  datatype Happening =
    | Notify(ctx: ContextId)
    | RaiseStop                        // stop(): stopping_ is set ...
    | Withdraw                         // ... and then, under the lock, notifications are refused
    | ReadCounter
    | LookAtStop
    | Swap
    | FlushOne
    | Leave                            // the worker sees the stop flag at the end of its loop
    | Break                            // epoll_wait fails, and the loop is left without a stop
    | Clear                            // stop() has joined the worker and empties the queue

  const START := State(0, [], true, false, Waiting, [], [], [])

  predicate Enabled(s: State, e: Happening) {
    match e
    case Notify(_) => true
    case RaiseStop => true
    case Withdraw => s.stopping
    case ReadCounter => s.phase.Waiting? && 0 < s.counter
    case LookAtStop => s.phase.Woken?
    case Swap => s.phase.Checked?
    case FlushOne => s.phase.Flushing?
    case Leave => s.phase.Waiting? && s.stopping
    case Break => s.phase.Waiting?
    case Clear => s.phase.Left? && !s.accepting
  }

  function Apply(s: State, e: Happening): State {
    match e
    case Notify(ctx) =>
      if !s.accepting then s
      else s.(counter := if s.pending == [] then s.counter + 1 else s.counter,
              pending := s.pending + [ctx],
              told := s.told + [ctx])
    case RaiseStop => s.(stopping := true)
    case Withdraw => s.(accepting := false, counter := s.counter + 1)
    case ReadCounter => s.(counter := 0, phase := Woken)
    case LookAtStop => s.(phase := if s.stopping then Left else Checked)
    case Swap => s.(phase := Flushing(s.pending), pending := [])
    case FlushOne =>
      if !s.phase.Flushing? || s.phase.todo == [] then s.(phase := Waiting)
      else s.(phase := Flushing(s.phase.todo[1..]), served := s.served + [s.phase.todo[0]])
    case Leave => s.(phase := Left)
    case Break => s.(phase := Left)
    case Clear => s.(pending := [], dropped := s.dropped + s.pending)
  }

  function Run(log: seq<Happening>): State {
    if log == [] then START else Apply(Run(log[..|log| - 1]), log[|log| - 1])
  }

  ghost predicate Legal(log: seq<Happening>) {
    log != [] ==> Legal(log[..|log| - 1]) && Enabled(Run(log[..|log| - 1]), log[|log| - 1])
  }

  lemma RunGrows(log: seq<Happening>, e: Happening)
    ensures Run(log + [e]) == Apply(Run(log), e)
    ensures Legal(log + [e]) <==> Legal(log) && Enabled(Run(log), e)
  {
    assert (log + [e])[..|log|] == log;
  }

  lemma LastStep(log: seq<Happening>, more: seq<Happening>)
    requires Legal(log + more) && more != []
    ensures var front, e := more[..|more| - 1], more[|more| - 1];
            Legal(log + front) && Enabled(Run(log + front), e) && Run(log + more) == Apply(Run(log + front), e)
  {
    assert (log + more)[..|log + more| - 1] == log + more[..|more| - 1];
  }

  function Todo(p: Phase): seq<ContextId> { if p.Flushing? then p.todo else [] }

  /** A queued context has a wake-up on its way: the counter is up and somebody will read it, or the worker is about
      to look at the queue. */
  predicate WakeOnItsWay(s: State) {
    s.accepting && s.pending != [] ==> s.phase.Woken? || s.phase.Checked? || (0 < s.counter && !s.phase.Left?)
  }

  ghost predicate Inv(s: State) {
    && (s.pending != [] ==> 0 < s.counter || s.phase.Woken? || s.phase.Checked? || s.phase.Left?)
    && (!s.accepting ==> s.stopping)
    && (!s.accepting ==> 0 < s.counter || s.phase.Woken? || s.phase.Left?)
    && (s.dropped != [] ==> s.phase.Left? && !s.accepting)
    && s.told == s.served + Todo(s.phase) + s.dropped + s.pending
  }

  lemma StepInv(s: State, e: Happening)
    requires Inv(s) && Enabled(s, e)
    ensures Inv(Apply(s, e))
  {
    var t := Apply(s, e);
    match e
    case Notify(ctx) =>
      var front := s.served + Todo(s.phase) + s.dropped;
      assert front + (s.pending + [ctx]) == front + s.pending + [ctx];
    case Clear => assert s.served + Todo(s.phase) + s.dropped + s.pending
                      == s.served + Todo(s.phase) + (s.dropped + s.pending) + [];
    case Swap => assert s.dropped == [];
    case FlushOne =>
      if s.phase.todo != [] {
        assert s.phase.todo == [s.phase.todo[0]] + s.phase.todo[1..];
        assert t.served + Todo(t.phase) == s.served + Todo(s.phase);
      }
    case _ =>
  }

  lemma {:induction false} RunInv(log: seq<Happening>)
    requires Legal(log)
    ensures Inv(Run(log))
  {
    if log != [] {
      RunInv(log[..|log| - 1]);
      StepInv(Run(log[..|log| - 1]), log[|log| - 1]);
    }
  }

  /** A worker that has left without a stop has met a failure of epoll_wait. */
  lemma {:induction false} LeftOrBroken(log: seq<Happening>)
    requires Legal(log) && Run(log).phase.Left? && !Run(log).stopping
    ensures Break in log
  {
    if log != [] {
      var front := log[..|log| - 1];
      if Run(front).phase.Left? {
        LeftOrBroken(front);
      }
    }
  }

  /**
   When a wake-up is lost, exactly: when something is queued while notifications are still accepted and the worker
   has left its loop.  Until somebody calls stop(), and unless epoll_wait fails, that is never.
   */
  lemma NoLostWakeUp(log: seq<Happening>)
    requires Legal(log)
    ensures var s := Run(log); !WakeOnItsWay(s) <==> s.phase.Left? && s.accepting && s.pending != []
    ensures !Run(log).stopping && Break !in log ==> WakeOnItsWay(Run(log))
  {
    RunInv(log);
    if Run(log).phase.Left? && !Run(log).stopping {
      LeftOrBroken(log);
    }
  }

  /** Notifications are served once each, in the order in which they were accepted, or dropped by stop(). */
  lemma NotificationsAreConserved(log: seq<Happening>)
    requires Legal(log)
    ensures var s := Run(log); s.told == s.served + Todo(s.phase) + s.dropped + s.pending
    ensures Run(log).dropped != [] ==> Run(log).phase.Left? && !Run(log).accepting
  {
    RunInv(log);
  }

  // ---- the window that stop() opens

  /** The next step of the worker on its way out. */
  function TowardsTheExit(s: State): Happening {
    match s.phase
    case Waiting => Break
    case Woken => LookAtStop
    case Checked => Swap
    case Flushing(_) => FlushOne
    case Left => RaiseStop
  }

  function StepsToTheExit(s: State): nat {
    match s.phase
    case Waiting => 1
    case Woken => |s.pending| + 4
    case Checked => |s.pending| + 3
    case Flushing(todo) => |todo| + 2
    case Left => 0
  }

  lemma StepTowardsTheExit(s: State)
    requires s.accepting && !s.phase.Left?
    ensures var e := TowardsTheExit(s);
            Enabled(s, e) && Apply(s, e).accepting && StepsToTheExit(Apply(s, e)) < StepsToTheExit(s)
  {
  }

  lemma NotifyStrands(s: State)
    requires s.accepting && s.phase.Left?
    ensures Enabled(s, Notify(0)) && !WakeOnItsWay(Apply(s, Notify(0)))
  {
  }

  lemma {:induction false} Strand(log: seq<Happening>) returns (more: seq<Happening>)
    requires Legal(log) && Run(log).accepting
    ensures Legal(log + more) && !WakeOnItsWay(Run(log + more))
    decreases StepsToTheExit(Run(log))
  {
    hide Legal, Run, Apply, Enabled;
    if Run(log).phase.Left? {
      NotifyStrands(Run(log));
      RunGrows(log, Notify(0));
      more := [Notify(0)];
    } else {
      var e := TowardsTheExit(Run(log));
      StepTowardsTheExit(Run(log));
      RunGrows(log, e);
      more := Strand(log + [e]);
      assert log + ([e] + more) == log + [e] + more;
      more := [e] + more;
    }
  }

  lemma RefusalStays(s: State, e: Happening)
    requires !s.accepting && Enabled(s, e)
    ensures !Apply(s, e).accepting
  {
  }

  lemma {:induction false} CannotStrand(log: seq<Happening>, more: seq<Happening>)
    requires Legal(log + more) && !Run(log).accepting
    ensures !Run(log + more).accepting
  {
    hide Legal, Run, Apply, Enabled;
    if more == [] {
      assert log + more == log;
    } else {
      LastStep(log, more);
      CannotStrand(log, more[..|more| - 1]);
      RefusalStays(Run(log + more[..|more| - 1]), more[|more| - 1]);
    }
  }

  /** From which points of a run a wake-up can still get lost, exactly: as long as notifications are accepted. */
  lemma WhenAWakeUpCanGetLost(log: seq<Happening>)
    requires Legal(log)
    ensures (exists more :: Legal(log + more) && !WakeOnItsWay(Run(log + more))) <==> Run(log).accepting
  {
    if Run(log).accepting {
      var more := Strand(log);
    }
    if more :| Legal(log + more) && !WakeOnItsWay(Run(log + more)) {
      if !Run(log).accepting {
        CannotStrand(log, more);
      }
    }
  }

  // ---- who is served

  /** The worker's next step, if it has one. */
  function WorkerStep(s: State): seq<Happening> {
    match s.phase
    case Waiting => if 0 < s.counter then [ReadCounter] else []
    case Woken => [LookAtStop]
    case Checked => [Swap]
    case Flushing(_) => [FlushOne]
    case Left => []
  }

  /** How far the worker is from blocking, if nobody else moves. */
  function Distance(s: State): nat {
    match s.phase
    case Waiting => if 0 < s.counter then |s.pending| + 4 else 0
    case Woken => |s.pending| + (if 0 < s.counter then 4 else 0) + 3
    case Checked => |s.pending| + (if 0 < s.counter then 4 else 0) + 2
    case Flushing(todo) => |todo| + (if 0 < s.counter then |s.pending| + 4 else 0) + 1
    case Left => 0
  }

  /** The worker runs on alone until it blocks. */
  function Alone(s: State): State
    decreases Distance(s)
  {
    if WorkerStep(s) == [] then s else Alone(Apply(s, WorkerStep(s)[0]))
  }

  /** Everything that has been accepted so far is served, or the worker will get to it. */
  predicate IsSafe(s: State) {
    s.dropped == [] && (s.pending != [] ==> !s.phase.Left? && (!s.stopping || s.phase.Checked?))
  }

  lemma StepServes(s: State)
    requires Inv(s) && IsSafe(s) && WorkerStep(s) != []
    ensures var t := Apply(s, WorkerStep(s)[0]); Enabled(s, WorkerStep(s)[0]) && Inv(t) && IsSafe(t) && t.told == s.told
    ensures Distance(Apply(s, WorkerStep(s)[0])) < Distance(s)
  {
    StepInv(s, WorkerStep(s)[0]);
  }

  lemma {:induction false} AloneServes(s: State)
    requires Inv(s) && IsSafe(s)
    ensures Alone(s).served == s.told
    ensures !s.stopping && !s.phase.Left? ==> Alone(s).pending == [] && Alone(s).phase.Waiting?
    decreases Distance(s)
  {
    if WorkerStep(s) != [] {
      StepServes(s);
      AloneServes(Apply(s, WorkerStep(s)[0]));
    }
  }

  lemma StepIsEnabled(s: State)
    requires WorkerStep(s) != []
    ensures Enabled(s, WorkerStep(s)[0]) && Distance(Apply(s, WorkerStep(s)[0])) < Distance(s)
  {
  }

  lemma {:induction false} AloneLeaves(s: State)
    requires Inv(s) && !s.accepting
    ensures Alone(s).phase.Left?
    decreases Distance(s)
  {
    if WorkerStep(s) != [] {
      StepInv(s, WorkerStep(s)[0]);
      AloneLeaves(Apply(s, WorkerStep(s)[0]));
    }
  }

  /** Once stop() refuses notifications, the worker is not left waiting: alone, it comes to the end of its loop. */
  lemma StopEndsTheLoop(log: seq<Happening>) returns (more: seq<Happening>)
    requires Legal(log) && !Run(log).accepting
    ensures Legal(log + more) && Run(log + more).phase.Left? && Run(log + more) == Alone(Run(log))
  {
    RunInv(log);
    AloneLeaves(Run(log));
    more := AloneIsARun(log);
  }

  lemma {:induction false} AloneIsARun(log: seq<Happening>) returns (more: seq<Happening>)
    requires Legal(log)
    ensures Legal(log + more) && Run(log + more) == Alone(Run(log))
    decreases Distance(Run(log))
  {
    hide Legal, Run, Apply, Enabled, IsSafe, Inv;
    var steps := WorkerStep(Run(log));
    if steps == [] {
      more := [];
      assert log + more == log;
    } else {
      StepIsEnabled(Run(log));
      RunGrows(log, steps[0]);
      more := AloneIsARun(log + [steps[0]]);
      assert log + ([steps[0]] + more) == log + [steps[0]] + more;
      more := [steps[0]] + more;
    }
  }

  /** No more than the first `n` of the accepted notifications will be served. */
  predicate ServesAtMost(s: State, n: nat) {
    |s.served| + |Todo(s.phase)| <= n && (s.phase.Left? || (s.stopping && !s.phase.Checked?))
  }

  lemma StepServesAtMost(s: State, e: Happening, n: nat)
    requires Enabled(s, e) && ServesAtMost(s, n)
    ensures ServesAtMost(Apply(s, e), n)
  {
  }

  lemma {:induction false} StaysServed(log: seq<Happening>, more: seq<Happening>, n: nat)
    requires Legal(log + more) && ServesAtMost(Run(log), n)
    ensures ServesAtMost(Run(log + more), n)
  {
    hide Legal, Run, Apply, Enabled, ServesAtMost;
    if more == [] {
      assert log + more == log;
    } else {
      LastStep(log, more);
      StaysServed(log, more[..|more| - 1], n);
      StepServesAtMost(Run(log + more[..|more| - 1]), more[|more| - 1], n);
    }
  }

  /**
   Who is served, exactly: everything accepted so far can still be served if and only if stop() has dropped nothing
   and, should something be queued, the worker is in its loop and no stop has been asked for, or it is just about to
   take the queue.  And then the worker does serve it, once and in order, left to itself.
   */
  lemma WhoIsServed(log: seq<Happening>)
    requires Legal(log)
    ensures (exists more :: Legal(log + more) && Run(log).told <= Run(log + more).served) <==> IsSafe(Run(log))
    ensures IsSafe(Run(log)) ==> Alone(Run(log)).served == Run(log).told
  {
    var s := Run(log);
    RunInv(log);
    if IsSafe(s) {
      AloneServes(s);
      var more := AloneIsARun(log);
    } else {
      var n := |s.served| + |Todo(s.phase)|;
      assert n < |s.told|;
      forall more | Legal(log + more) ensures !(s.told <= Run(log + more).served) {
        StaysServed(log, more, n);
      }
    }
  }

  /**
   After any run in which nobody asked the worker to stop and epoll_wait did not fail, the worker blocks again only
   after it has served every accepted notification, once and in order.
   */
  lemma EveryNotificationIsServed(log: seq<Happening>)
    requires Legal(log) && !Run(log).stopping && Break !in log
    ensures Alone(Run(log)).served == Run(log).told
    ensures Alone(Run(log)).pending == [] && Alone(Run(log)).phase.Waiting?
  {
    RunInv(log);
    if Run(log).phase.Left? {
      LeftOrBroken(log);
    }
    AloneServes(Run(log));
  }

  /** Once the worker is out, nobody serves what is queued: it stays there until stop() drops it. */
  lemma NobodyServesAfterwards(log: seq<Happening>, more: seq<Happening>)
    requires Legal(log + more) && Run(log).phase.Left?
    ensures var s, t := Run(log), Run(log + more);
            t.phase.Left? && t.served == s.served && t.told == s.served + t.dropped + t.pending
  {
    hide Legal, Run, Apply, Enabled;
    RunInv(log + more);
    LeftIsLeft(log, more);
  }

  lemma StepServesNobody(s: State, e: Happening)
    requires s.phase.Left? && Enabled(s, e)
    ensures Apply(s, e).phase.Left? && Apply(s, e).served == s.served
  {
  }

  lemma {:induction false} LeftIsLeft(log: seq<Happening>, more: seq<Happening>)
    requires Legal(log + more) && Run(log).phase.Left?
    ensures Run(log + more).phase.Left? && Run(log + more).served == Run(log).served
  {
    hide Legal, Run, Apply, Enabled;
    if more == [] {
      assert log + more == log;
    } else {
      LastStep(log, more);
      LeftIsLeft(log, more[..|more| - 1]);
      StepServesNobody(Run(log + more[..|more| - 1]), more[|more| - 1]);
    }
  }

  // ---- two ways to be stranded

  /** A worker that wakes up between the two halves of stop(). */
  lemma LeavesTheQueue()
    ensures var log := [Notify(7), RaiseStop, ReadCounter, LookAtStop];
            Legal(log) && !WakeOnItsWay(Run(log)) && Run(log).pending == [7] && !IsSafe(Run(log))
  {
    var a := [Notify(7)];
    var b := a + [RaiseStop];
    var c := b + [ReadCounter];
    RunGrows([], Notify(7));
    assert [] + [Notify(7)] == a;
    RunGrows(a, RaiseStop);
    RunGrows(b, ReadCounter);
    RunGrows(c, LookAtStop);
    assert c + [LookAtStop] == [Notify(7), RaiseStop, ReadCounter, LookAtStop];
  }

  /** A notification that is accepted when the worker has left: it even raises the counter. */
  lemma ComesTooLate()
    ensures var log := [RaiseStop, Leave, Notify(7)];
            Legal(log) && !WakeOnItsWay(Run(log)) && Run(log).counter == 1 && !IsSafe(Run(log))
  {
    var a := [RaiseStop];
    var b := a + [Leave];
    RunGrows([], RaiseStop);
    assert [] + [RaiseStop] == a;
    RunGrows(a, Leave);
    RunGrows(b, Notify(7));
    assert b + [Notify(7)] == [RaiseStop, Leave, Notify(7)];
  }
}
