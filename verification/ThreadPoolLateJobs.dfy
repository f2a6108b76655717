/** Jobs accepted while the pool is shutting down: exactly which of them are run. */
module ThreadPoolLateJobs {
  import opened ThreadPool
  import opened ThreadPoolProperties

  // The condition ----------------------------------------------------------------------

  /** Some worker has not left its loop. */
  predicate SomeoneLeft(s: Pool)
  {
    exists w :: 0 <= w < |s.workers| && !s.workers[w].WExited?
  }

  /** A queued job, at whatever stage of a shutdown, is run by every run that comes
      to rest if and only if some worker has not exited yet. */
  lemma QueuedJobRunsIff(s: Pool, k: JobId)
    requires Inv(s) && k in s.jobs
    ensures (forall trace | Follows(s, trace) && Quiet(Run(s, trace)) :: Run(s, trace).ran[k] == 1) <==> SomeoneLeft(s)
  {
    if SomeoneLeft(s) {
      forall trace | Follows(s, trace) && Quiet(Run(s, trace))
        ensures Run(s, trace).ran[k] == 1
      {
        RunsInTheEnd(s, k, trace);
      }
    } else {
      var trace := ComesToRest(s);
      LeftForEver(s, k, trace);
    }
  }

  /** For a job about to be accepted, the same can be asked before. */
  lemma AcceptedJobRunsIff(s: Pool, c: nat)
    requires Inv(s) && Enabled(s, Client(c, 0)) && s.clients[c].CPush?
    requires s.limit > 0 ==> |s.jobs| < s.limit
    ensures var s' := Do(s, Client(c, 0));
            && s'.jobs == s.jobs + [s.accepted]
            && ((forall trace | Follows(s', trace) && Quiet(Run(s', trace)) :: Run(s', trace).ran[s.accepted] == 1)
                <==> SomeoneLeft(s))
  {
    var s' := Do(s, Client(c, 0));
    StepKeepsInv(s, Client(c, 0));
    assert s'.workers == s.workers && s'.jobs[|s.jobs|] == s.accepted;
    QueuedJobRunsIff(s', s.accepted);
  }

  // While a worker is left ---------------------------------------------------------------

  /** The job has been taken, or there is still somebody to take it. */
  predicate WillBeTaken(s: Pool, k: JobId)
  {
    k < s.accepted && (k < |s.taken| || SomeoneLeft(s))
  }

  /** A worker that is left, or else the queue was empty when the last one went. */
  lemma StepKeepsWillBeTaken(s: Pool, k: JobId, a: Action)
    requires Inv(s) && Enabled(s, a) && WillBeTaken(s, k)
    ensures WillBeTaken(Do(s, a), k)
  {
    var s' := Do(s, a);
    if |s.taken| <= k {
      var w :| 0 <= w < |s.workers| && !s.workers[w].WExited?;
      assert |s.taken + s.jobs| == |UpTo(s.accepted)|;
      assert !s'.workers[w].WExited?;
    }
  }

  lemma {:induction false} RunKeepsWillBeTaken(s: Pool, k: JobId, trace: seq<Action>)
    requires Inv(s) && Follows(s, trace) && WillBeTaken(s, k)
    ensures Inv(Run(s, trace)) && WillBeTaken(Run(s, trace), k)
    decreases |trace|
  {
    if trace != [] {
      StepKeepsInv(s, trace[0]);
      StepKeepsWillBeTaken(s, k, trace[0]);
      RunKeepsWillBeTaken(Do(s, trace[0]), k, trace[1..]);
    }
  }

  lemma RunsInTheEnd(s: Pool, k: JobId, trace: seq<Action>)
    requires Inv(s) && k in s.jobs && SomeoneLeft(s)
    requires Follows(s, trace) && Quiet(Run(s, trace))
    ensures Run(s, trace).ran[k] == 1
  {
    var end := Run(s, trace);
    LeftJobsAreAccepted(s);
    RunKeepsWillBeTaken(s, k, trace);
    RestIsComplete(end);
    StandstillMeansDone(end);
    QueueHoldsTheRest(end, k);
  }

  // When all have gone ---------------------------------------------------------------------

  /** Nobody is left to take the job. */
  predicate Abandoned(s: Pool, k: JobId)
  {
    |s.taken| <= k < s.accepted && !SomeoneLeft(s)
  }

  lemma StepKeepsAbandoned(s: Pool, k: JobId, a: Action)
    requires Inv(s) && Enabled(s, a) && Abandoned(s, k)
    ensures Abandoned(Do(s, a), k)
  {
    forall w | 0 <= w < |s.workers|
      ensures s.workers[w].WExited? && Do(s, a).workers[w].WExited?
    {
    }
  }

  lemma {:induction false} RunKeepsAbandoned(s: Pool, k: JobId, trace: seq<Action>)
    requires Inv(s) && Follows(s, trace) && Abandoned(s, k)
    ensures Inv(Run(s, trace)) && Abandoned(Run(s, trace), k)
    decreases |trace|
  {
    if trace != [] {
      StepKeepsInv(s, trace[0]);
      StepKeepsAbandoned(s, k, trace[0]);
      RunKeepsAbandoned(Do(s, trace[0]), k, trace[1..]);
    }
  }

  lemma AbandonedIsNotRun(s: Pool, k: JobId)
    requires Inv(s) && Abandoned(s, k)
    ensures k in s.jobs && s.ran[k] == 0
  {
    QueueHoldsTheRest(s, k);
    OnceUpTo(|s.taken|, k);
    NobodyRuns(s.workers, k);
    assert Excess(s, k) == 0;
  }

  /** Whatever happens from then on, later calls included, the job stays queued. */
  lemma LeftForEver(s: Pool, k: JobId, trace: seq<Action>)
    requires Inv(s) && k in s.jobs && !SomeoneLeft(s) && Follows(s, trace)
    ensures k in Run(s, trace).jobs && Run(s, trace).ran[k] == 0
  {
    LeftJobsAreAccepted(s);
    QueueHoldsTheRest(s, k);
    RunKeepsAbandoned(s, k, trace);
    AbandonedIsNotRun(Run(s, trace), k);
  }

  // Coming to rest ---------------------------------------------------------------------------

  lemma Leads(s: Pool, a: Action, next: Pool, rest: seq<Action>)
    requires Enabled(s, a) && Do(s, a) == next && Follows(next, rest)
    ensures Follows(s, [a] + rest) && Run(s, [a] + rest) == Run(next, rest)
  {
    assert ([a] + rest)[1..] == rest;
  }

  /** The pool's own steps lead to rest from everywhere. */
  lemma {:induction false} ComesToRest(s: Pool) returns (trace: seq<Action>)
    requires Inv(s)
    ensures Follows(s, trace) && Quiet(Run(s, trace))
    decreases Left(s) + 1
  {
    LeftIsNat(s);
    if Quiet(s) {
      trace := [];
    } else {
      var a :| Internal(a) && Enabled(s, a);
      StepDrains(s, a);
      StepKeepsInv(s, a);
      var rest := ComesToRest(Do(s, a));
      Leads(s, a, Do(s, a), rest);
      trace := [a] + rest;
    }
  }

  // A job that comes too late ---------------------------------------------------------------

  /** A pool of one worker and one client before its first job is taken. */
  function Small(w: WorkerPc, c: ClientPc, stopper: StopperPc, mutex: Owner, jobs: seq<JobId>): Pool
  {
    var shutdown := stopper.SNotify? || stopper.SJoin?;
    Pool(0, [w], [c], stopper, mutex, jobs, shutdown, |jobs|, [], multiset{}, 0)
  }

  /** With nobody left to take it, a job is queued for good. */
  lemma LateCall() returns (trace: seq<Action>)
    ensures var s := Small(WExited, CIdle, SJoin(1), Free, []);
            Follows(s, trace) && Run(s, trace) == Small(WExited, CIdle, SJoin(1), Free, [0])
  {
    var s0 := Small(WExited, CIdle, SJoin(1), Free, []);
    var s1 := Small(WExited, CLock, SJoin(1), Free, []);
    var s2 := Small(WExited, CPush, SJoin(1), HeldByClient(0), []);
    var s3 := Small(WExited, CNotify, SJoin(1), Free, [0]);
    var s4 := Small(WExited, CIdle, SJoin(1), Free, [0]);
    assert s0.clients[0 := CLock] == [CLock] && s1.clients[0 := CPush] == [CPush];
    assert s2.clients[0 := CNotify] == [CNotify] && s3.clients[0 := CIdle] == [CIdle];
    trace := [];
    Leads(s3, Client(0, 0), s4, trace);
    trace := [Client(0, 0)] + trace;
    Leads(s2, Client(0, 0), s3, trace);
    trace := [Client(0, 0)] + trace;
    Leads(s1, Client(0, 0), s2, trace);
    trace := [Client(0, 0)] + trace;
    Leads(s0, Call(0), s1, trace);
    trace := [Call(0)] + trace;
  }

  /** The shutdown sets the flag before the worker looks at it. */
  lemma EarlyShutdown(rest: seq<Action>) returns (trace: seq<Action>)
    requires Follows(Small(WLock, CIdle, SJoin(0), Free, []), rest)
    ensures var s := Small(WLock, CIdle, SIdle, Free, []);
            Follows(s, trace) && Run(s, trace) == Run(Small(WLock, CIdle, SJoin(0), Free, []), rest)
  {
    var s0 := Small(WLock, CIdle, SIdle, Free, []);
    var s1 := Small(WLock, CIdle, SLock, Free, []);
    var s2 := Small(WLock, CIdle, SSet, HeldByStopper, []);
    var s3 := Small(WLock, CIdle, SNotify, Free, []);
    var s4 := Small(WLock, CIdle, SJoin(0), Free, []);
    assert NotifyAll([WLock]) == [WLock];
    trace := rest;
    Leads(s3, Stop, s4, trace);
    trace := [Stop] + trace;
    Leads(s2, Stop, s3, trace);
    trace := [Stop] + trace;
    Leads(s1, Stop, s2, trace);
    trace := [Stop] + trace;
    Leads(s0, CallShutdown, s1, trace);
    trace := [CallShutdown] + trace;
  }

  lemma WorkerLeaves(rest: seq<Action>) returns (trace: seq<Action>)
    requires Follows(Small(WExited, CIdle, SJoin(1), Free, []), rest)
    ensures var s := Small(WLock, CIdle, SJoin(0), Free, []);
            Follows(s, trace) && Run(s, trace) == Run(Small(WExited, CIdle, SJoin(1), Free, []), rest)
  {
    var s0 := Small(WLock, CIdle, SJoin(0), Free, []);
    var s1 := Small(WTest, CIdle, SJoin(0), HeldByWorker(0), []);
    var s2 := Small(WDecide, CIdle, SJoin(0), HeldByWorker(0), []);
    var s3 := Small(WExited, CIdle, SJoin(0), Free, []);
    var s4 := Small(WExited, CIdle, SJoin(1), Free, []);
    assert s0.workers[0 := WTest] == [WTest] && s1.workers[0 := WDecide] == [WDecide];
    assert s2.workers[0 := WExited] == [WExited];
    trace := rest;
    Leads(s3, Stop, s4, trace);
    trace := [Stop] + trace;
    Leads(s2, Work(0), s3, trace);
    trace := [Work(0)] + trace;
    Leads(s1, Work(0), s2, trace);
    trace := [Work(0)] + trace;
    Leads(s0, Work(0), s1, trace);
    trace := [Work(0)] + trace;
  }

  /** One worker, one client: a run after which a job has been accepted that no
      continuation ever runs. */
  lemma ALateJobIsNeverRun() returns (trace: seq<Action>)
    ensures Reachable(1, 0, 1, trace)
    ensures var s := At(1, 0, 1, trace);
            && Quiet(s) && s.accepted == 1 && s.jobs == [0]
            && forall more | Follows(s, more) :: 0 in Run(s, more).jobs && 0 !in Run(s, more).ran
  {
    var start := Small(WLock, CIdle, SIdle, Free, []);
    assert ThreadPool.Initial(1, 0, 1) == start by {
      assert seq(1, _ => WLock) == [WLock] && seq(1, _ => CIdle) == [CIdle];
    }
    trace := LateCall();
    trace := WorkerLeaves(trace);
    trace := EarlyShutdown(trace);
    var s := At(1, 0, 1, trace);
    InitialInv(1, 0, 1);
    Always(start, trace);
    forall more | Follows(s, more)
      ensures 0 in Run(s, more).jobs && 0 !in Run(s, more).ran
    {
      LeftForEver(s, 0, more);
    }
  }
}
