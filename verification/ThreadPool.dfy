/**
 The pool that runs handlers. Every method below is one locked section, or one thing a worker does between two
 of them, so an interleaving of threads is an order of calls.
 */
module ThreadPool {
  /** What a worker is doing. */
  datatype Worker<Task> = AtTheQueue | Running(task: Task) | Returned

  function InHand<Task>(worker: Worker<Task>): multiset<Task> {
    if worker.Running? then multiset{worker.task} else multiset{}
  }

  function InHands<Task>(workers: seq<Worker<Task>>): multiset<Task> {
    if workers == [] then multiset{} else InHand(workers[0]) + InHands(workers[1..])
  }

  lemma {:induction false} InHandsAt<Task>(workers: seq<Worker<Task>>, i: nat, w: Worker<Task>)
    requires i < |workers|
    ensures InHands(workers[i := w]) == InHands(workers) - InHand(workers[i]) + InHand(w)
    ensures InHand(workers[i]) <= InHands(workers)
    decreases |workers|
  {
    hide InHand;
    var others := workers[i := w];
    var first, rest := InHand(workers[0]), InHands(workers[1..]);
    if i > 0 {
      assert others[0] == workers[0] && others[1..] == workers[1..][i - 1 := w];
      InHandsAt(workers[1..], i - 1, w);
      var was, now := InHand(workers[i]), InHand(w);
      assert workers[1..][i - 1] == workers[i];
      assert first + (rest - was + now) == first + rest - was + now;
    } else {
      assert others[0] == w && others[1..] == workers[1..];
      assert InHand(w) + rest == first + rest - first + InHand(w);
    }
  }

  lemma {:induction false} NothingInHands<Task>(workers: seq<Worker<Task>>)
    requires forall w | w in workers :: !w.Running?
    ensures InHands(workers) == multiset{}
  {
    if workers != [] {
      assert workers[0] in workers && forall w | w in workers[1..] :: w in workers;
      NothingInHands(workers[1..]);
    }
  }

  /** No worker has returned. */
  ghost predicate AllStay<Task>(workers: seq<Worker<Task>>) { forall w | w in workers :: !w.Returned? }

  lemma StaysAt<Task>(workers: seq<Worker<Task>>, i: nat, w: Worker<Task>)
    requires i < |workers| && !w.Returned?
    ensures AllStay(workers) ==> AllStay(workers[i := w])
    ensures AllStay(workers[i := w]) && !workers[i].Returned? ==> AllStay(workers)
  {
    var others := workers[i := w];
    if AllStay(others) && !workers[i].Returned? {
      forall v | v in workers ensures !v.Returned? {
        var k :| 0 <= k < |workers| && workers[k] == v;
        assert others[k] in others;
      }
    }
  }

  /** How much is left to do until all workers have returned. */
  function Weight<Task>(workers: seq<Worker<Task>>): nat {
    if workers == [] then 0
    else (match workers[0] case AtTheQueue => 1 case Running(_) => 2 case Returned => 0) + Weight(workers[1..])
  }

  lemma {:induction false} WeightAt<Task>(workers: seq<Worker<Task>>, i: nat, w: Worker<Task>)
    requires i < |workers|
    ensures Weight(workers[i := w]) + Weight([workers[i]]) == Weight(workers) + Weight([w])
    decreases |workers|
  {
    var others := workers[i := w];
    if i > 0 {
      assert others[1..] == workers[1..][i - 1 := w];
      WeightAt(workers[1..], i - 1, w);
    } else {
      assert others[1..] == workers[1..];
    }
  }

  lemma Regroup<Task>(a: seq<Task>, b: seq<Task>)
    requires b != []
    ensures a + b == (a + [b[0]]) + b[1..]
  {
  }

  /** What was taken from the queue is finished or in the hands of a worker. */
  ghost predicate IsAccounted<Task>(started: seq<Task>, finished: multiset<Task>, workers: seq<Worker<Task>>) {
    multiset(started) == finished + InHands(workers)
  }

  /** What is taken from the queue is in a worker's hands. */
  lemma TakeOver<Task>(started: seq<Task>, finished: multiset<Task>, workers: seq<Worker<Task>>, i: nat, task: Task)
    requires i < |workers| && workers[i].AtTheQueue?
    requires IsAccounted(started, finished, workers)
    ensures IsAccounted(started + [task], finished, workers[i := Running(task)])
  {
    InHandsAt(workers, i, Running(task));
    assert InHand(workers[i]) == multiset{} && InHand(Running(task)) == multiset{task};
    hide InHands, InHand;
    assert multiset(started + [task]) == multiset(started) + multiset{task};
  }

  lemma GoneAway<Task>(started: seq<Task>, finished: multiset<Task>, workers: seq<Worker<Task>>, i: nat)
    requires i < |workers| && workers[i].AtTheQueue? && IsAccounted(started, finished, workers)
    ensures IsAccounted(started, finished, workers[i := Returned])
  {
    InHandsAt(workers, i, Returned);
  }

  class ThreadPool<Task(==)> {
    const threads: nat
    var tasks: seq<Task>
    var workers: seq<Worker<Task>>
    var running: bool
    /** In the order in which they were enqueued, and in the order in which they were taken. */
    ghost var accepted: seq<Task>
    ghost var started: seq<Task>
    ghost var finished: multiset<Task>

    ghost predicate Valid()
      reads this
    {
      && threads > 0
      && accepted == started + tasks
      && IsAccounted(started, finished, workers)
      && (running ==> |workers| == threads && AllStay(workers))
      && (!AllStay(workers) || workers == [] ==> tasks == [])
    }

    constructor (threads: nat)
      ensures Valid() && running && accepted == [] && tasks == []
    {
      this.threads := if threads == 0 then 1 else threads;
      tasks, running := [], true;
      accepted, started, finished := [], [], multiset{};
      workers := seq(if threads == 0 then 1 else threads, _ => AtTheQueue);
      new;
      NothingInHands(workers);
    }

    /** Does nothing while the pool is running; workers of an earlier life must have been joined. */
    method Start()
      requires Valid() && (running || workers == [])
      modifies this
      ensures Valid() && running
      ensures accepted == old(accepted) && started == old(started) && finished == old(finished) && tasks == old(tasks)
      ensures old(running) ==> workers == old(workers)
    {
      if running {
        return;
      }
      running := true;
      workers := seq(threads, _ => AtTheQueue);
      NothingInHands(workers);
    }

    /** Accepted exactly while the pool is running. */
    method Enqueue(task: Task)
      requires Valid()
      modifies this
      ensures Valid() && running == old(running) && workers == old(workers)
      ensures accepted == if running then old(accepted) + [task] else old(accepted)
      ensures tasks == if running then old(tasks) + [task] else old(tasks)
      ensures started == old(started) && finished == old(finished)
    {
      if !running {
        return;
      }
      tasks := tasks + [task];
      accepted := accepted + [task];
    }

    /** A worker that is woken up takes the oldest task, or returns if there are none and will be none. */
    method Take(i: nat)
      requires Valid() && i < |workers| && workers[i].AtTheQueue?
      requires !running || tasks != []
      modifies this
      ensures Valid() && running == old(running) && accepted == old(accepted) && finished == old(finished)
      ensures if old(tasks) == [] then workers == old(workers)[i := Returned] && tasks == [] && started == old(started)
              else && workers == old(workers)[i := Running(old(tasks)[0])]
                   && tasks == old(tasks)[1..] && started == old(started) + [old(tasks)[0]]
    {
      hide IsAccounted, AllStay;
      if !running && tasks == [] {
        GoneAway(started, finished, workers, i);
        workers := workers[i := Returned];
        return;
      }
      var task := tasks[0];
      TakeOver(started, finished, workers, i, task);
      Regroup(started, tasks);
      StaysAt(workers, i, Running(task));
      workers := workers[i := Running(task)];
      tasks := tasks[1..];
      started := started + [task];
    }

    /** The task is over, whether or not it threw. */
    method Finish(i: nat)
      requires Valid() && i < |workers| && workers[i].Running?
      modifies this
      ensures Valid() && running == old(running) && accepted == old(accepted) && started == old(started)
      ensures tasks == old(tasks) && workers == old(workers)[i := AtTheQueue]
      ensures finished == old(finished) + multiset{old(workers)[i].task}
    {
      hide InHands, AllStay;
      InHandsAt(workers, i, AtTheQueue);
      finished := finished + multiset{workers[i].task};
      StaysAt(workers, i, AtTheQueue);
      workers := workers[i := AtTheQueue];
    }

    /** The first half of stop. */
    method BeginStop()
      requires Valid()
      modifies this
      ensures Valid() && !running && workers == old(workers) && tasks == old(tasks)
      ensures accepted == old(accepted) && started == old(started) && finished == old(finished)
    {
      running := false;
    }

    /** The second half: with all workers joined, every task that was accepted has run, and run once. */
    method Join()
      requires Valid() && !running && forall w | w in workers :: w.Returned?
      modifies this
      ensures Valid() && !running && workers == []
      ensures tasks == [] && started == accepted == old(accepted) && finished == multiset(accepted)
    {
      if workers != [] {
        assert workers[0] in workers;
      }
      NothingInHands(workers);
      workers := [];
      assert started + [] == started;
    }

    /** Any order in which the workers get on comes to an end, and then nothing is left undone. */
    method Stop()
      requires Valid()
      modifies this
      ensures Valid() && !running && workers == [] && tasks == []
      ensures accepted == old(accepted) == started && finished == multiset(accepted)
    {
      hide Valid;
      BeginStop();
      while exists i :: 0 <= i < |workers| && !workers[i].Returned?
        invariant Valid() && !running && accepted == old(accepted)
        decreases 3 * |tasks| + Weight(workers)
      {
        var i :| 0 <= i < |workers| && !workers[i].Returned?;
        GetOn(i);
      }
      Join();
    }

    /** A worker finishes its task, takes the next or returns: so much less is left to do. */
    method GetOn(i: nat)
      requires Valid() && !running && i < |workers| && !workers[i].Returned?
      modifies this
      ensures Valid() && !running && accepted == old(accepted)
      ensures 3 * |tasks| + Weight(workers) < 3 * old(|tasks|) + Weight(old(workers))
    {
      hide Valid;
      WeightAt(workers, i, AtTheQueue);
      WeightAt(workers, i, Returned);
      if tasks != [] {
        WeightAt(workers, i, Running(tasks[0]));
      }
      if workers[i].Running? {
        Finish(i);
      } else {
        Take(i);
      }
    }
  }
}
