/** What the flags of the pool say about its run (cpp-httplib/include/cpp-httplib/httplib.h). */
module WorkerRuns {
  import opened Wrappers
  import opened WorkerPool

  /** How many of the steps are enqueues. */
  function Enqueues(run: seq<Step>): nat
  {
    if run == [] then 0 else (if run[0].Enqueue? then 1 else 0) + Enqueues(run[1..])
  }

  /** In a state reached by a run from `s`: the shutdown flag is set exactly when shutdown was called, notify_all
      was called exactly when that is noted, the jobs are counted, and a worker is gone only after shutdown
      was called. */
  ghost predicate Noted(s: Pool, run: seq<Step>, t: Pool)
  {
    && (t.shutdown <==> s.shutdown || SetShutdown in run)
    && (t.notified <==> s.notified || NotifyAll in run)
    && t.count == s.count + Enqueues(run)
    && |t.workers| == |s.workers|
  }

  lemma InRun(first: Step, rest: seq<Step>, step: Step)
    ensures step in [first] + rest <==> step == first || step in rest
  {
  }

  lemma {:induction false} RunNoted(s: Pool, run: seq<Step>)
    requires AllAllowed(s, run)
    ensures Noted(s, run, Run(s, run))
    decreases |run|
  {
    if run != [] {
      assert run == [run[0]] + run[1..];
      InRun(run[0], run[1..], SetShutdown);
      InRun(run[0], run[1..], NotifyAll);
      RunNoted(After(s, run[0]), run[1..]);
    }
  }

  /** A worker that is gone has left at a check that found the flag set and no job. */
  lemma {:induction false} ExitedAfterShutdown(s: Pool, run: seq<Step>, w: nat)
    requires AllAllowed(s, run) && w < |s.workers| == |Run(s, run).workers|
    requires s.workers[w] != Exited && Run(s, run).workers[w] == Exited
    ensures Run(s, run).shutdown
    decreases |run|
  {
    var t := After(s, run[0]);
    WorkersStay(t, run[1..]);
    if t.workers[w] == Exited {
      RunNoted(t, run[1..]);
    } else {
      ExitedAfterShutdown(t, run[1..], w);
    }
  }

  /** Over every run from start: how the pool began and what was called is what its state says. */
  lemma EveryRunNoted(n: nat, run: seq<Step>)
    requires AllAllowed(Initial(n), run)
    ensures var t := Run(Initial(n), run);
            && |t.workers| == n && t.count == Enqueues(run)
            && (t.shutdown <==> SetShutdown in run) && (t.notified <==> NotifyAll in run)
            && forall w :: 0 <= w < n && t.workers[w] == Exited ==> t.shutdown
  {
    RunNoted(Initial(n), run);
    forall w | 0 <= w < n && Run(Initial(n), run).workers[w] == Exited
      ensures Run(Initial(n), run).shutdown
    {
      ExitedAfterShutdown(Initial(n), run, w);
    }
  }

  /** What a check does: wait, leave or take the job at the front. */
  lemma CheckExactly(s: Pool, w: nat)
    requires Allowed(s, Check(w))
    ensures var t := After(s, Check(w));
            && (t.workers[w] == Asleep <==> s.jobs == [] && !s.shutdown)
            && (t.workers[w] == Exited <==> s.jobs == [] && s.shutdown)
            && (s.jobs != [] ==> t.workers[w] == Running(s.jobs[0]) && t.jobs == s.jobs[1..])
            && (forall v :: 0 <= v < |s.workers| && v != w ==> t.workers[v] == s.workers[v])
  {
  }
}
