/** The worker pool (cpp-httplib/include/cpp-httplib/httplib.h): jobs, workers, one mutex and one
    condition variable, in every interleaving of their critical sections. */
module WorkerPool {
  import opened Wrappers

  /** A worker waits on the condition variable, is about to lock the mutex, runs a job or is gone. */
  datatype Worker = Asleep | Awake | Running(job: nat) | Exited

  /** Jobs are numbered in the order they were enqueued: `count` is how many there were. `started`
      and `finished` are the histories, `late` is set by an enqueue after shutdown. */
  datatype Pool = Pool(jobs: seq<nat>, shutdown: bool, notified: bool, workers: seq<Worker>,
                       count: nat, started: seq<nat>, finished: seq<nat>, late: bool)

  datatype Step =
    | Enqueue(woken: nat)
    | Check(w: nat)
    | Finish(w: nat)
    | SetShutdown
    | NotifyAll
    | Spurious(w: nat)

  function Initial(n: nat): Pool
  {
    Pool([], false, false, seq(n, _ => Awake), 0, [], [], false)
  }

  /** notify_one wakes one sleeping worker, any of them, if there is one. */
  predicate Allowed(s: Pool, step: Step)
  {
    match step
    case Enqueue(woken) =>
      if AnyAsleep(s.workers) then woken < |s.workers| && s.workers[woken] == Asleep else woken == |s.workers|
    case Check(w) => w < |s.workers| && s.workers[w] == Awake
    case Finish(w) => w < |s.workers| && s.workers[w].Running?
    case SetShutdown => !s.shutdown
    case NotifyAll => s.shutdown && !s.notified
    case Spurious(w) => w < |s.workers| && s.workers[w] == Asleep
  }

  predicate AnyAsleep(workers: seq<Worker>)
  {
    exists w :: 0 <= w < |workers| && workers[w] == Asleep
  }

  function Woken(workers: seq<Worker>): (r: seq<Worker>)
    ensures |r| == |workers|
    ensures forall w :: 0 <= w < |workers| ==> r[w] == if workers[w] == Asleep then Awake else workers[w]
  {
    seq(|workers|, w requires 0 <= w < |workers| => if workers[w] == Asleep then Awake else workers[w])
  }

  function After(s: Pool, step: Step): Pool
    requires Allowed(s, step)
  {
    match step
    case Enqueue(woken) =>
      s.(jobs := s.jobs + [s.count], count := s.count + 1, late := s.late || s.shutdown,
         workers := if woken < |s.workers| then s.workers[woken := Awake] else s.workers)
    case Check(w) =>
      if s.jobs == [] then s.(workers := s.workers[w := if s.shutdown then Exited else Asleep])
      else s.(jobs := s.jobs[1..], started := s.started + [s.jobs[0]], workers := s.workers[w := Running(s.jobs[0])])
    case Finish(w) => s.(finished := s.finished + [s.workers[w].job], workers := s.workers[w := Awake])
    case SetShutdown => s.(shutdown := true)
    case NotifyAll => s.(notified := true, workers := Woken(s.workers))
    case Spurious(w) => s.(workers := s.workers[w := Awake])
  }

  // ---------- the invariant ----------

  function UpTo(n: nat): seq<nat>
  {
    seq(n, i => i)
  }

  /** How many workers run a job. */
  function RunCount(workers: seq<Worker>, job: nat): nat
  {
    if workers == [] then 0 else RunUnit(workers[0], job) + RunCount(workers[1..], job)
  }

  function RunUnit(w: Worker, job: nat): nat
  {
    if w == Running(job) then 1 else 0
  }

  function AwakeCount(workers: seq<Worker>): nat
  {
    if workers == [] then 0 else AwakeUnit(workers[0]) + AwakeCount(workers[1..])
  }

  function AwakeUnit(w: Worker): nat
  {
    if w == Awake then 1 else 0
  }

  /** FIFO: what was started and what is queued are all jobs, in the order they came.
      Each started job is running once or has finished once. A worker only sleeps while there are
      awake workers for all queued jobs, and none sleeps once all were notified. A worker only
      leaves when nothing is left, unless somebody enqueues after the shutdown. */
  ghost predicate Valid(s: Pool)
  {
    && Ordered(s) && Accounted(s.started, s.finished, s.workers) && Attended(s)
  }

  ghost predicate Ordered(s: Pool)
  {
    s.started + s.jobs == UpTo(s.count)
  }

  ghost predicate Accounted(started: seq<nat>, finished: seq<nat>, workers: seq<Worker>)
  {
    forall job :: multiset(started)[job] == multiset(finished)[job] + RunCount(workers, job)
  }

  ghost predicate Attended(s: Pool)
  {
    && (AnyAsleep(s.workers) ==> |s.jobs| <= AwakeCount(s.workers))
    && (s.notified ==> s.shutdown && !AnyAsleep(s.workers))
    && (!s.late && Exited in s.workers ==> s.shutdown && s.jobs == [])
  }

  lemma {:induction false} RunUpdate(workers: seq<Worker>, w: nat, x: Worker, job: nat)
    requires w < |workers|
    ensures RunCount(workers[w := x], job) + RunUnit(workers[w], job) == RunCount(workers, job) + RunUnit(x, job)
    decreases |workers|
  {
    var now := workers[w := x];
    if w == 0 {
      assert now[1..] == workers[1..];
    } else {
      assert now[1..] == workers[1..][w - 1 := x];
      RunUpdate(workers[1..], w - 1, x, job);
    }
  }

  lemma {:induction false} AwakeUpdate(workers: seq<Worker>, w: nat, x: Worker)
    requires w < |workers|
    ensures AwakeCount(workers[w := x]) + AwakeUnit(workers[w]) == AwakeCount(workers) + AwakeUnit(x)
    decreases |workers|
  {
    var now := workers[w := x];
    if w == 0 {
      assert now[1..] == workers[1..];
    } else {
      assert now[1..] == workers[1..][w - 1 := x];
      AwakeUpdate(workers[1..], w - 1, x);
    }
  }

  lemma {:induction false} WokenRunning(workers: seq<Worker>, job: nat)
    ensures RunCount(Woken(workers), job) == RunCount(workers, job)
    decreases |workers|
  {
    if workers != [] {
      assert Woken(workers)[1..] == Woken(workers[1..]);
      WokenRunning(workers[1..], job);
    }
  }

  /** A worker that runs nothing becomes one that runs nothing. */
  lemma IdleAccounted(started: seq<nat>, finished: seq<nat>, workers: seq<Worker>, w: nat, x: Worker)
    requires Accounted(started, finished, workers) && w < |workers| && !workers[w].Running? && !x.Running?
    ensures Accounted(started, finished, workers[w := x])
  {
    forall job
      ensures RunCount(workers[w := x], job) == RunCount(workers, job)
    {
      RunUpdate(workers, w, x, job);
    }
  }

  lemma TakenAccounted(started: seq<nat>, finished: seq<nat>, workers: seq<Worker>, w: nat, j: nat)
    requires Accounted(started, finished, workers) && w < |workers| && !workers[w].Running?
    ensures Accounted(started + [j], finished, workers[w := Running(j)])
  {
    forall job
      ensures multiset(started + [j])[job] == multiset(finished)[job] + RunCount(workers[w := Running(j)], job)
    {
      RunUpdate(workers, w, Running(j), job);
    }
  }

  lemma DoneAccounted(started: seq<nat>, finished: seq<nat>, workers: seq<Worker>, w: nat)
    requires Accounted(started, finished, workers) && w < |workers| && workers[w].Running?
    ensures Accounted(started, finished + [workers[w].job], workers[w := Awake])
  {
    forall job
      ensures multiset(started)[job] ==
              multiset(finished + [workers[w].job])[job] + RunCount(workers[w := Awake], job)
    {
      RunUpdate(workers, w, Awake, job);
    }
  }

  /** Other workers neither fall asleep nor leave. */
  lemma OthersStay(workers: seq<Worker>, w: nat, x: Worker)
    requires w < |workers|
    ensures x != Asleep && AnyAsleep(workers[w := x]) ==> AnyAsleep(workers)
    ensures x != Exited && Exited in workers[w := x] ==> Exited in workers
  {
    var now := workers[w := x];
    if x != Asleep && AnyAsleep(now) {
      var v :| 0 <= v < |now| && now[v] == Asleep;
      assert workers[v] == Asleep;
    }
    if x != Exited && Exited in now {
      var v :| 0 <= v < |now| && now[v] == Exited;
      assert workers[v] == Exited;
    }
  }

  lemma EnqueueKeeps(s: Pool, woken: nat)
    requires Valid(s) && Allowed(s, Enqueue(woken))
    ensures Valid(After(s, Enqueue(woken)))
  {
    var t := After(s, Enqueue(woken));
    OneMore(s.started, s.jobs, s.count);
    if woken < |s.workers| {
      IdleAccounted(s.started, s.finished, s.workers, woken, Awake);
      AwakeUpdate(s.workers, woken, Awake);
      OthersStay(s.workers, woken, Awake);
    }
  }

  lemma OneMore(started: seq<nat>, jobs: seq<nat>, count: nat)
    requires started + jobs == UpTo(count)
    ensures started + (jobs + [count]) == UpTo(count + 1)
  {
    Regroup(started, jobs, [count]);
    assert UpTo(count) + [count] == UpTo(count + 1);
  }

  lemma TakeKeeps(s: Pool, w: nat)
    requires Valid(s) && Allowed(s, Check(w)) && s.jobs != []
    ensures Valid(After(s, Check(w)))
  {
    var j := s.jobs[0];
    Regroup(s.started, [j], s.jobs[1..]);
    assert [j] + s.jobs[1..] == s.jobs;
    TakenAccounted(s.started, s.finished, s.workers, w, j);
    AwakeUpdate(s.workers, w, Running(j));
    OthersStay(s.workers, w, Running(j));
  }

  lemma LeaveKeeps(s: Pool, w: nat)
    requires Valid(s) && Allowed(s, Check(w)) && s.jobs == []
    ensures Valid(After(s, Check(w)))
  {
    var x := if s.shutdown then Exited else Asleep;
    IdleAccounted(s.started, s.finished, s.workers, w, x);
    OthersStay(s.workers, w, x);
  }

  lemma FinishKeeps(s: Pool, w: nat)
    requires Valid(s) && Allowed(s, Finish(w))
    ensures Valid(After(s, Finish(w)))
  {
    DoneAccounted(s.started, s.finished, s.workers, w);
    AwakeUpdate(s.workers, w, Awake);
    OthersStay(s.workers, w, Awake);
  }

  lemma SpuriousKeeps(s: Pool, w: nat)
    requires Valid(s) && Allowed(s, Spurious(w))
    ensures Valid(After(s, Spurious(w)))
  {
    IdleAccounted(s.started, s.finished, s.workers, w, Awake);
    AwakeUpdate(s.workers, w, Awake);
    OthersStay(s.workers, w, Awake);
  }

  lemma NotifyKeeps(s: Pool)
    requires Valid(s) && Allowed(s, NotifyAll)
    ensures Valid(After(s, NotifyAll))
  {
    var t := After(s, NotifyAll);
    forall job
      ensures RunCount(t.workers, job) == RunCount(s.workers, job)
    {
      WokenRunning(s.workers, job);
    }
    if Exited in t.workers {
      var w :| 0 <= w < |t.workers| && t.workers[w] == Exited;
      assert s.workers[w] == Exited;
    }
  }

  lemma StepKeeps(s: Pool, step: Step)
    requires Valid(s) && Allowed(s, step)
    ensures Valid(After(s, step))
  {
    match step {
      case Enqueue(woken) => EnqueueKeeps(s, woken);
      case Check(w) => if s.jobs == [] { LeaveKeeps(s, w); } else { TakeKeeps(s, w); }
      case Finish(w) => FinishKeeps(s, w);
      case SetShutdown =>
      case NotifyAll => NotifyKeeps(s);
      case Spurious(w) => SpuriousKeeps(s, w);
    }
  }

  // ---------- runs ----------

  predicate AllAllowed(s: Pool, run: seq<Step>)
    decreases |run|
  {
    run != [] ==> Allowed(s, run[0]) && AllAllowed(After(s, run[0]), run[1..])
  }

  function Run(s: Pool, run: seq<Step>): Pool
    requires AllAllowed(s, run)
    decreases |run|
  {
    if run == [] then s else Run(After(s, run[0]), run[1..])
  }

  lemma {:induction false} RunKeeps(s: Pool, run: seq<Step>)
    requires Valid(s) && AllAllowed(s, run)
    ensures Valid(Run(s, run))
    decreases |run|
  {
    if run != [] {
      StepKeeps(s, run[0]);
      RunKeeps(After(s, run[0]), run[1..]);
    }
  }

  lemma {:induction false} InitialValid(n: nat)
    ensures Valid(Initial(n))
  {
    forall job
      ensures RunCount(Initial(n).workers, job) == 0
    {
      NoneRunning(Initial(n).workers, job);
    }
  }

  lemma {:induction false} NoneRunning(workers: seq<Worker>, job: nat)
    requires forall w :: 0 <= w < |workers| ==> !workers[w].Running?
    ensures RunCount(workers, job) == 0
    decreases |workers|
  {
    if workers != [] {
      NoneRunning(workers[1..], job);
    }
  }

  /** In every interleaving each job is exactly one of queued, running and finished, and jobs start
      in the order in which they were enqueued. */
  lemma EveryRunFifo(n: nat, run: seq<Step>, job: nat)
    requires AllAllowed(Initial(n), run)
    ensures var s := Run(Initial(n), run);
            && s.started + s.jobs == UpTo(s.count)
            && multiset(s.jobs)[job] + RunCount(s.workers, job) + multiset(s.finished)[job] == if job < s.count then 1 else 0
  {
    InitialValid(n);
    RunKeeps(Initial(n), run);
    var s := Run(Initial(n), run);
    assert multiset(s.started + s.jobs)[job] == multiset(s.started)[job] + multiset(s.jobs)[job];
    OnceInUpTo(s.count, job);
  }

  lemma {:induction false} OnceInUpTo(n: nat, job: nat)
    ensures multiset(UpTo(n))[job] == if job < n then 1 else 0
    decreases n
  {
    if n > 0 {
      OnceInUpTo(n - 1, job);
      assert UpTo(n) == UpTo(n - 1) + [n - 1];
    }
  }

  /** Once all workers are gone, every job has run exactly once, unless one came after shutdown. */
  lemma AllDone(n: nat, run: seq<Step>, job: nat)
    requires n > 0 && AllAllowed(Initial(n), run)
    requires var s := Run(Initial(n), run); !s.late && forall w :: 0 <= w < |s.workers| ==> s.workers[w] == Exited
    ensures var s := Run(Initial(n), run);
            && s.started == UpTo(s.count)
            && multiset(s.finished)[job] == if job < s.count then 1 else 0
  {
    InitialValid(n);
    RunKeeps(Initial(n), run);
    WorkersStay(Initial(n), run);
    var s := Run(Initial(n), run);
    assert s.workers[0] in s.workers;
    EveryRunFifo(n, run, job);
    NoneRunning(s.workers, job);
    assert s.started + [] == s.started;
  }

  lemma {:induction false} WorkersStay(s: Pool, run: seq<Step>)
    requires AllAllowed(s, run)
    ensures |Run(s, run).workers| == |s.workers|
    decreases |run|
  {
    if run != [] {
      WorkersStay(After(s, run[0]), run[1..]);
    }
  }

  // ---------- nobody waits in vain ----------

  lemma {:induction false} SomeAwake(workers: seq<Worker>) returns (w: nat)
    requires AwakeCount(workers) > 0
    ensures w < |workers| && workers[w] == Awake
    decreases |workers|
  {
    if workers[0] == Awake {
      w := 0;
    } else {
      w := SomeAwake(workers[1..]);
      w := w + 1;
    }
  }

  /** No wakeup is lost: while a job is queued, or the shutdown was announced, some worker that is
      not gone can go on. */
  lemma Progress(s: Pool) returns (step: Step)
    requires Valid(s) && (s.jobs != [] || s.notified)
    requires exists w :: 0 <= w < |s.workers| && s.workers[w] != Exited
    ensures Allowed(s, step) && (step.Check? || step.Finish?)
  {
    if AnyAsleep(s.workers) {
      var w := SomeAwake(s.workers);
      step := Check(w);
    } else {
      var w :| 0 <= w < |s.workers| && s.workers[w] != Exited;
      assert s.workers[w] != Asleep;
      step := if s.workers[w] == Awake then Check(w) else Finish(w);
    }
  }

  /** What is left to do until all workers are gone. */
  function Work(s: Pool): nat
  {
    2 * |s.jobs| + Weights(s.workers)
  }

  function Weights(workers: seq<Worker>): nat
  {
    if workers == [] then 0 else Weight(workers[0]) + Weights(workers[1..])
  }

  function Weight(w: Worker): nat
  {
    match w
    case Running(_) => 2
    case Exited => 0
    case _ => 1
  }

  lemma {:induction false} WeightsUpdate(workers: seq<Worker>, w: nat, x: Worker)
    requires w < |workers|
    ensures Weights(workers[w := x]) + Weight(workers[w]) == Weights(workers) + Weight(x)
    decreases |workers|
  {
    var now := workers[w := x];
    if w == 0 {
      assert now[1..] == workers[1..];
    } else {
      assert now[1..] == workers[1..][w - 1 := x];
      WeightsUpdate(workers[1..], w - 1, x);
    }
  }

  /** After the shutdown every step of a worker brings the end nearer: joining the threads ends. */
  lemma ShutdownEnds(s: Pool, step: Step)
    requires Valid(s) && s.shutdown && Allowed(s, step) && (step.Check? || step.Finish?)
    ensures Work(After(s, step)) < Work(s)
  {
    match step {
      case Check(w) =>
        WeightsUpdate(s.workers, w, if s.jobs == [] then Exited else Running(s.jobs[0]));
      case Finish(w) =>
        WeightsUpdate(s.workers, w, Awake);
    }
  }

  // ---------- the pool ----------

  class ThreadPool {
    var jobs: seq<nat>
    var shutdown: bool
    var workers: seq<Worker>
    ghost var history: Pool

    /** The fields, and the history of the run. */
    ghost predicate Consistent()
      reads this
    {
      Valid(history) && history.jobs == jobs && history.shutdown == shutdown && history.workers == workers
    }

    constructor (n: nat)
      ensures Consistent() && history == Initial(n)
    {
      jobs, shutdown, workers := [], false, seq(n, _ => Awake);
      history := Initial(n);
      InitialValid(n);
    }

    /** The critical section of enqueue; the scheduler picks whom notify_one wakes. */
    method EnqueueJob(job: nat, woken: nat)
      requires Consistent() && Allowed(history, Enqueue(woken)) && job == history.count
      modifies this
      ensures Consistent() && history == After(old(history), Enqueue(woken))
    {
      StepKeeps(history, Enqueue(woken));
      jobs := jobs + [job];
      if woken < |workers| {
        workers := workers[woken := Awake];
      }
      history := After(history, Enqueue(woken));
    }

    /** The critical section of a worker: it waits, leaves, or takes the job at the front. */
    method WorkerCheck(w: nat) returns (job: Option<nat>)
      requires Consistent() && Allowed(history, Check(w))
      modifies this
      ensures Consistent() && history == After(old(history), Check(w))
      ensures job == if old(jobs) == [] then None else Some(old(jobs)[0])
    {
      StepKeeps(history, Check(w));
      history := After(history, Check(w));
      if jobs == [] && !shutdown {
        workers := workers[w := Asleep];
        return None;
      }
      if shutdown && jobs == [] {
        workers := workers[w := Exited];
        return None;
      }
      job := Some(jobs[0]);
      workers := workers[w := Running(jobs[0])];
      jobs := jobs[1..];
    }

    /** The job is done. */
    method WorkerFinish(w: nat)
      requires Consistent() && Allowed(history, Finish(w))
      modifies this
      ensures Consistent() && history == After(old(history), Finish(w))
    {
      StepKeeps(history, Finish(w));
      history := After(history, Finish(w));
      workers := workers[w := Awake];
    }

    /** shutdown sets the flag, and then wakes everybody. */
    method SetShutdownFlag()
      requires Consistent() && Allowed(history, SetShutdown)
      modifies this
      ensures Consistent() && history == After(old(history), SetShutdown)
    {
      StepKeeps(history, SetShutdown);
      history := After(history, SetShutdown);
      shutdown := true;
    }

    method NotifyEverybody()
      requires Consistent() && Allowed(history, NotifyAll)
      modifies this
      ensures Consistent() && history == After(old(history), NotifyAll)
    {
      StepKeeps(history, NotifyAll);
      ghost var sleeping := workers;
      for w := 0 to |workers|
        invariant |workers| == |sleeping| && jobs == old(jobs) && shutdown == old(shutdown) && history == old(history)
        invariant forall v :: 0 <= v < w ==> workers[v] == Woken(sleeping)[v]
        invariant forall v :: w <= v < |workers| ==> workers[v] == sleeping[v]
      {
        if workers[w] == Asleep {
          workers := workers[w := Awake];
        }
      }
      assert workers == Woken(sleeping);
      history := After(history, NotifyAll);
    }
  }
}
