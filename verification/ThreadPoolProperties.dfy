/** What holds of the pool in every state any interleaving can reach. */
module ThreadPoolProperties {
  import opened Common
  import opened ThreadPool

  // The invariant -------------------------------------------------------------------

  predicate WorkerInside(p: WorkerPc) { p.WTest? || p.WDecide? }

  /** Who is in a critical section, and who the mutex says it is. */
  predicate Exclusive(s: Pool)
  {
    && (forall w | 0 <= w < |s.workers| :: WorkerInside(s.workers[w]) <==> s.mutex == HeldByWorker(w))
    && (forall c | 0 <= c < |s.clients| :: s.clients[c].CPush? <==> s.mutex == HeldByClient(c))
    && (s.stopper.SSet? <==> s.mutex == HeldByStopper)
    && (s.mutex.HeldByWorker? ==> s.mutex.w < |s.workers|)
    && (s.mutex.HeldByClient? ==> s.mutex.c < |s.clients|)
  }

  function UpTo(n: nat): seq<JobId> { seq(n, i => i) }

  /** First in, first out, each accepted job once. */
  predicate Fifo(s: Pool)
  {
    s.taken + s.jobs == UpTo(s.accepted)
  }

  predicate Limited(s: Pool)
  {
    s.limit > 0 ==> |s.jobs| <= s.limit
  }

  /** Will test the wait predicate again without being notified. */
  predicate Alert(p: WorkerPc) { p.WLock? || p.WTest? || p.WDecide? }

  function Alerts(ws: seq<WorkerPc>): nat
  {
    if ws == [] then 0 else Alerts(ws[..|ws| - 1]) + B(Alert(ws[|ws| - 1]))
  }

  function Notifications(cs: seq<ClientPc>): nat
  {
    if cs == [] then 0 else Notifications(cs[..|cs| - 1]) + B(cs[|cs| - 1].CNotify?)
  }

  /** No lost wake-up: while somebody sleeps, every queued job is matched by a
      notification on its way or by a worker about to look at the queue. */
  predicate Answered(s: Pool)
  {
    !s.shutdown && SomeoneWaits(s) ==> |s.jobs| <= Notifications(s.clients) + Alerts(s.workers)
  }

  predicate Decided(s: Pool)
  {
    forall w | 0 <= w < |s.workers| :: s.workers[w].WDecide? ==> s.jobs != [] || s.shutdown
  }

  predicate Stopping(s: Pool)
  {
    && (s.shutdown <==> s.stopper.SNotify? || s.stopper.SJoin?)
    && (s.shutdown ==> s.acceptedAtShutdown <= s.accepted)
    && (forall w | 0 <= w < |s.workers| :: s.workers[w].WExited? ==> s.shutdown && s.acceptedAtShutdown <= |s.taken|)
    && (s.stopper.SJoin? ==>
          && s.stopper.joined <= |s.workers|
          && (forall w | 0 <= w < |s.workers| :: !s.workers[w].WWaiting?)
          && (forall w | 0 <= w < s.stopper.joined :: s.workers[w].WExited?))
  }

  /** How many workers are running a job. */
  function Runners(ws: seq<WorkerPc>, job: JobId): nat
  {
    if ws == [] then 0 else Runners(ws[..|ws| - 1], job) + B(ws[|ws| - 1] == WRun(job))
  }

  /** How many times a job has been run or is being run, over what it should be. */
  ghost function Excess(s: Pool, job: JobId): int
  {
    s.ran[job] + Runners(s.workers, job) - multiset(s.taken)[job]
  }

  /** Every taken job has been run once or is being run by one worker, never both,
      and no other job is. */
  ghost predicate RunOnce(s: Pool)
  {
    forall job: JobId :: Excess(s, job) == 0
  }

  ghost predicate Inv(s: Pool)
  {
    && s.workers != []
    && Exclusive(s)
    && Fifo(s)
    && Limited(s)
    && Answered(s)
    && Decided(s)
    && Stopping(s)
    && RunOnce(s)
  }

  // Counting ----------------------------------------------------------------------------

  lemma {:induction false} AlertsUpdate(ws: seq<WorkerPc>, w: nat, p: WorkerPc)
    requires w < |ws|
    ensures Alerts(ws[w := p]) == Alerts(ws) - B(Alert(ws[w])) + B(Alert(p))
  {
    var n := |ws| - 1;
    if w == n {
      assert ws[w := p][..n] == ws[..n];
    } else {
      AlertsUpdate(ws[..n], w, p);
      assert ws[w := p][..n] == ws[..n][w := p];
    }
  }

  lemma {:induction false} NotificationsUpdate(cs: seq<ClientPc>, c: nat, p: ClientPc)
    requires c < |cs|
    ensures Notifications(cs[c := p]) == Notifications(cs) - B(cs[c].CNotify?) + B(p.CNotify?)
  {
    var n := |cs| - 1;
    if c == n {
      assert cs[c := p][..n] == cs[..n];
    } else {
      NotificationsUpdate(cs[..n], c, p);
      assert cs[c := p][..n] == cs[..n][c := p];
    }
  }

  lemma {:induction false} NoAlerts(ws: seq<WorkerPc>)
    requires forall w | 0 <= w < |ws| :: !Alert(ws[w])
    ensures Alerts(ws) == 0
  {
    if ws != [] {
      NoAlerts(ws[..|ws| - 1]);
    }
  }

  lemma {:induction false} NoNotifications(cs: seq<ClientPc>)
    requires forall c | 0 <= c < |cs| :: !cs[c].CNotify?
    ensures Notifications(cs) == 0
  {
    if cs != [] {
      NoNotifications(cs[..|cs| - 1]);
    }
  }

  // Preservation -------------------------------------------------------------------------

  lemma InitialInv(n: nat, limit: nat, clients: nat)
    requires n > 0
    ensures Inv(ThreadPool.Initial(n, limit, clients))
  {
    assert UpTo(0) == [];
    var s := ThreadPool.Initial(n, limit, clients);
    forall job: JobId
      ensures Excess(s, job) == 0
    {
      NobodyRuns(s.workers, job);
    }
  }

  lemma StepKeepsExclusive(s: Pool, a: Action)
    requires Exclusive(s) && Enabled(s, a)
    ensures Exclusive(Do(s, a))
  {
    match a
    case Work(w) => WorkKeepsExclusive(s, w);
    case Client(c, wake) => ClientKeepsExclusive(s, c, wake);
    case _ =>
  }

  lemma WorkKeepsExclusive(s: Pool, w: nat)
    requires Exclusive(s) && Enabled(s, Work(w))
    ensures Exclusive(WorkerStep(s, w))
  {
  }

  lemma ClientKeepsExclusive(s: Pool, c: nat, wake: nat)
    requires Exclusive(s) && Enabled(s, Client(c, wake))
    ensures Exclusive(ClientStep(s, c, wake))
  {
  }

  lemma WorkKeepsFifo(s: Pool, w: nat)
    requires Fifo(s) && Limited(s) && Enabled(s, Work(w))
    ensures Fifo(WorkerStep(s, w)) && Limited(WorkerStep(s, w))
  {
    if s.workers[w].WDecide? && s.jobs != [] {
      assert s.taken + [s.jobs[0]] + s.jobs[1..] == s.taken + s.jobs;
    }
  }

  lemma PushKeepsFifo(s: Pool, c: nat)
    requires Fifo(s) && Limited(s) && c < |s.clients|
    ensures Fifo(Push(s, c)) && Limited(Push(s, c))
  {
    Reassociate(s.taken, s.jobs, [s.accepted]);
    assert UpTo(s.accepted) + [s.accepted] == UpTo(s.accepted + 1);
  }

  lemma StepKeepsFifo(s: Pool, a: Action)
    requires Fifo(s) && Limited(s) && Enabled(s, a)
    ensures Fifo(Do(s, a)) && Limited(Do(s, a))
  {
    match a
    case Work(w) => WorkKeepsFifo(s, w);
    case Client(c, _) => PushKeepsFifo(s, c);
    case _ =>
  }

  lemma WorkKeepsAnswered(s: Pool, w: nat)
    requires Inv(s) && Enabled(s, Work(w))
    ensures Answered(WorkerStep(s, w))
  {
    var s' := WorkerStep(s, w);
    AlertsUpdate(s.workers, w, s'.workers[w]);
    if SomeoneWaits(s') && s'.jobs != [] {
      var v :| 0 <= v < |s'.workers| && s'.workers[v].WWaiting?;
      assert s.workers[v].WWaiting?;
    }
  }

  lemma WakeKeepsAnswered(s: Pool, w: nat)
    requires Answered(s) && w < |s.workers| && s.workers[w].WWaiting?
    ensures var s' := s.(workers := s.workers[w := WLock]);
            !s.shutdown && SomeoneWaits(s') ==> |s.jobs| + 1 <= Notifications(s.clients) + Alerts(s'.workers)
  {
    AlertsUpdate(s.workers, w, WLock);
  }

  lemma ClientKeepsAnswered(s: Pool, c: nat, wake: nat)
    requires Answered(s) && Enabled(s, Client(c, wake))
    ensures Answered(ClientStep(s, c, wake))
  {
    var s' := ClientStep(s, c, wake);
    NotificationsUpdate(s.clients, c, s'.clients[c]);
    if s.clients[c].CNotify? && SomeoneWaits(s) {
      WakeKeepsAnswered(s, wake);
    }
  }

  lemma StepKeepsAnswered(s: Pool, a: Action)
    requires Inv(s) && Enabled(s, a)
    ensures Answered(Do(s, a))
  {
    match a
    case Work(w) => WorkKeepsAnswered(s, w);
    case Spurious(w) => WakeKeepsAnswered(s, w);
    case Call(c) => NotificationsUpdate(s.clients, c, CLock);
    case Client(c, wake) => ClientKeepsAnswered(s, c, wake);
    case CallShutdown =>
    case Stop =>
  }

  lemma StepKeepsDecided(s: Pool, a: Action)
    requires Inv(s) && Enabled(s, a)
    ensures Decided(Do(s, a))
  {
    if a.Client? && s.clients[a.c].CPush? {
      assert forall w | 0 <= w < |s.workers| :: !s.workers[w].WDecide?;
    }
  }

  lemma StepKeepsStopping(s: Pool, a: Action)
    requires Inv(s) && Enabled(s, a)
    ensures Stopping(Do(s, a))
  {
    if a.Work? && s.workers[a.w].WDecide? && s.jobs == [] {
      assert |s.taken| == |s.taken + s.jobs| == |UpTo(s.accepted)|;
    }
  }

  lemma {:induction false} RunnersUpdate(ws: seq<WorkerPc>, w: nat, p: WorkerPc, job: JobId)
    requires w < |ws|
    ensures Runners(ws[w := p], job) == Runners(ws, job) - B(ws[w] == WRun(job)) + B(p == WRun(job))
  {
    var n := |ws| - 1;
    if w == n {
      assert ws[w := p][..n] == ws[..n];
    } else {
      RunnersUpdate(ws[..n], w, p, job);
      assert ws[w := p][..n] == ws[..n][w := p];
    }
  }

  lemma {:induction false} WakingRunsNothing(ws: seq<WorkerPc>, job: JobId)
    ensures Runners(NotifyAll(ws), job) == Runners(ws, job)
  {
    if ws != [] {
      WakingRunsNothing(ws[..|ws| - 1], job);
      assert NotifyAll(ws)[..|ws| - 1] == NotifyAll(ws[..|ws| - 1]);
    }
  }

  lemma TakenOnceMore(taken: seq<JobId>, next: JobId, job: JobId)
    ensures multiset(taken + [next])[job] == multiset(taken)[job] + B(next == job)
  {
  }

  lemma WorkKeepsExcess(s: Pool, w: nat, job: JobId)
    requires Enabled(s, Work(w))
    ensures Excess(WorkerStep(s, w), job) == Excess(s, job)
  {
    RunnersUpdate(s.workers, w, WorkerStep(s, w).workers[w], job);
    if s.workers[w].WDecide? && s.jobs != [] {
      TakenOnceMore(s.taken, s.jobs[0], job);
    }
  }

  lemma ClientKeepsExcess(s: Pool, c: nat, wake: nat, job: JobId)
    requires Enabled(s, Client(c, wake))
    ensures Excess(ClientStep(s, c, wake), job) == Excess(s, job)
  {
    if wake < |s.workers| {
      RunnersUpdate(s.workers, wake, WLock, job);
    }
  }

  lemma StepKeepsExcess(s: Pool, a: Action, job: JobId)
    requires Enabled(s, a)
    ensures Excess(Do(s, a), job) == Excess(s, job)
  {
    match a
    case Work(w) => WorkKeepsExcess(s, w, job);
    case Spurious(w) => RunnersUpdate(s.workers, w, WLock, job);
    case Client(c, wake) => ClientKeepsExcess(s, c, wake, job);
    case Stop => WakingRunsNothing(s.workers, job);
    case _ =>
  }

  lemma StepKeepsRunOnce(s: Pool, a: Action)
    requires RunOnce(s) && Enabled(s, a)
    ensures RunOnce(Do(s, a))
  {
    forall job: JobId
      ensures Excess(Do(s, a), job) == 0
    {
      assert Excess(s, job) == 0;
      StepKeepsExcess(s, a, job);
    }
  }

  lemma StepKeepsInv(s: Pool, a: Action)
    requires Inv(s) && Enabled(s, a)
    ensures Inv(Do(s, a))
  {
    StepKeepsExclusive(s, a);
    StepKeepsFifo(s, a);
    StepKeepsAnswered(s, a);
    StepKeepsDecided(s, a);
    StepKeepsStopping(s, a);
    StepKeepsRunOnce(s, a);
  }

  /** Every state any interleaving reaches satisfies the invariant. */
  lemma {:induction false} Always(s: Pool, trace: seq<Action>)
    requires Inv(s) && Follows(s, trace)
    ensures Inv(Run(s, trace))
    decreases |trace|
  {
    if trace != [] {
      StepKeepsInv(s, trace[0]);
      Always(Do(s, trace[0]), trace[1..]);
    }
  }

  ghost predicate Reachable(n: nat, limit: nat, clients: nat, trace: seq<Action>)
  {
    n > 0 && Follows(ThreadPool.Initial(n, limit, clients), trace)
  }

  ghost function At(n: nat, limit: nat, clients: nat, trace: seq<Action>): Pool
    requires Reachable(n, limit, clients, trace)
  {
    Run(ThreadPool.Initial(n, limit, clients), trace)
  }

  // What a user of the pool relies on --------------------------------------------------------

  /** Jobs leave the queue in the order in which they were accepted, each once,
      and a positive limit is never exceeded. */
  lemma JobsAreTakenInOrderAndOnce(n: nat, limit: nat, clients: nat, trace: seq<Action>)
    requires Reachable(n, limit, clients, trace)
    ensures var s := At(n, limit, clients, trace);
            && s.taken + s.jobs == UpTo(s.accepted)
            && (s.limit > 0 ==> |s.jobs| <= s.limit)
            && RunOnce(s)
  {
    InitialInv(n, limit, clients);
    Always(ThreadPool.Initial(n, limit, clients), trace);
  }

  /** By the time any worker exits, every job accepted before the shutdown has
      been taken. */
  lemma NoWorkerExitsEarly(n: nat, limit: nat, clients: nat, trace: seq<Action>, w: nat)
    requires Reachable(n, limit, clients, trace)
    requires w < |At(n, limit, clients, trace).workers|
    requires At(n, limit, clients, trace).workers[w].WExited?
    ensures var s := At(n, limit, clients, trace);
            s.shutdown && UpTo(s.acceptedAtShutdown) <= s.taken
  {
    InitialInv(n, limit, clients);
    Always(ThreadPool.Initial(n, limit, clients), trace);
    var s := At(n, limit, clients, trace);
    assert s.taken == UpTo(s.accepted)[..|s.taken|];
  }

  /** Before the shutdown, as long as a worker sleeps there are no more queued
      jobs than notifications on their way and workers about to look; in
      particular a queued job never lies there with every worker asleep. */
  lemma NoLostWakeUp(n: nat, limit: nat, clients: nat, trace: seq<Action>)
    requires Reachable(n, limit, clients, trace)
    ensures var s := At(n, limit, clients, trace);
            && Answered(s)
            && (!s.shutdown && s.jobs != [] ==>
                  || (exists w :: 0 <= w < |s.workers| && !s.workers[w].WWaiting? && !s.workers[w].WExited?)
                  || (exists c :: 0 <= c < |s.clients| && s.clients[c].CNotify?))
  {
    InitialInv(n, limit, clients);
    Always(ThreadPool.Initial(n, limit, clients), trace);
    var s := At(n, limit, clients, trace);
    if !s.shutdown && s.jobs != [] && forall w | 0 <= w < |s.workers| :: s.workers[w].WWaiting? {
      assert s.workers[0].WWaiting?;
      NoAlerts(s.workers);
      if forall c | 0 <= c < |s.clients| :: !s.clients[c].CNotify? {
        NoNotifications(s.clients);
      }
    }
  }

  /** A step of the pool's own code, as opposed to a new call or a wake-up for no
      reason. */
  predicate Internal(a: Action) { a.Work? || a.Client? || a.Stop? }

  ghost predicate Quiet(s: Pool)
  {
    forall a | Internal(a) :: !Enabled(s, a)
  }

  /** Whoever holds the mutex can move. */
  lemma HolderMoves(s: Pool)
    requires Exclusive(s)
    ensures s.mutex.Free? || exists a :: Internal(a) && Enabled(s, a)
  {
    match s.mutex
    case Free =>
    case HeldByWorker(w) =>
      assert WorkerInside(s.workers[w]);
      assert Enabled(s, Work(w)) && Internal(Work(w));
    case HeldByClient(c) =>
      assert s.clients[c].CPush?;
      assert Enabled(s, Client(c, 0)) && Internal(Client(c, 0));
    case HeldByStopper =>
      assert Enabled(s, Stop) && Internal(Stop);
  }

  lemma ClientsAreIdle(s: Pool, c: nat)
    requires Inv(s) && Quiet(s) && c < |s.clients|
    ensures s.clients[c].CIdle?
  {
    HolderMoves(s);
    if SomeoneWaits(s) {
      var w :| 0 <= w < |s.workers| && s.workers[w].WWaiting?;
      assert !Enabled(s, Client(c, w));
    } else {
      assert !Enabled(s, Client(c, 0));
    }
  }

  /** If nothing inside the pool can move then nothing is left to be done: no
      caller is stuck, before a shutdown the queue is empty, and after one every
      worker has exited and has been joined. */
  lemma StandstillMeansDone(s: Pool)
    requires Inv(s) && Quiet(s)
    ensures s.mutex.Free? && forall c | 0 <= c < |s.clients| :: s.clients[c].CIdle?
    ensures s.stopper.SIdle? ==> s.jobs == [] && forall w | 0 <= w < |s.workers| :: s.workers[w].WWaiting?
    ensures !s.stopper.SIdle? ==>
              s.stopper == SJoin(|s.workers|) && forall w | 0 <= w < |s.workers| :: s.workers[w].WExited?
  {
    HolderMoves(s);
    forall c | 0 <= c < |s.clients|
      ensures s.clients[c].CIdle?
    {
      ClientsAreIdle(s, c);
    }
    forall w | 0 <= w < |s.workers|
      ensures s.workers[w].WWaiting? || s.workers[w].WExited?
    {
      assert !Enabled(s, Work(w));
    }
    assert !Enabled(s, Stop);
    if s.stopper.SIdle? {
      assert s.workers[0].WWaiting?;
      NoAlerts(s.workers);
      NoNotifications(s.clients);
    }
  }

  // Left alone, the pool comes to rest --------------------------------------------------------

  function WorkerRank(p: WorkerPc): nat
  {
    match p
    case WLock => 3
    case WTest => 2
    case WWaiting => 0
    case WDecide => 1
    case WRun(_) => 4
    case WExited => 0
  }

  function ClientRank(p: ClientPc): nat
  {
    match p
    case CIdle => 0
    case CLock => 11
    case CPush => 10
    case CNotify => 4
  }

  function WorkerRanks(ws: seq<WorkerPc>): nat
  {
    if ws == [] then 0 else WorkerRanks(ws[..|ws| - 1]) + WorkerRank(ws[|ws| - 1])
  }

  function ClientRanks(cs: seq<ClientPc>): nat
  {
    if cs == [] then 0 else ClientRanks(cs[..|cs| - 1]) + ClientRank(cs[|cs| - 1])
  }

  lemma {:induction false} WorkerRanksUpdate(ws: seq<WorkerPc>, w: nat, p: WorkerPc)
    requires w < |ws|
    ensures WorkerRanks(ws[w := p]) == WorkerRanks(ws) - WorkerRank(ws[w]) + WorkerRank(p)
  {
    var n := |ws| - 1;
    if w == n {
      assert ws[w := p][..n] == ws[..n];
    } else {
      WorkerRanksUpdate(ws[..n], w, p);
      assert ws[w := p][..n] == ws[..n][w := p];
    }
  }

  lemma {:induction false} ClientRanksUpdate(cs: seq<ClientPc>, c: nat, p: ClientPc)
    requires c < |cs|
    ensures ClientRanks(cs[c := p]) == ClientRanks(cs) - ClientRank(cs[c]) + ClientRank(p)
  {
    var n := |cs| - 1;
    if c == n {
      assert cs[c := p][..n] == cs[..n];
    } else {
      ClientRanksUpdate(cs[..n], c, p);
      assert cs[c := p][..n] == cs[..n][c := p];
    }
  }

  function StopperRank(p: StopperPc, n: nat): int
  {
    match p
    case SIdle => 0
    case SLock => 4 * n + 3
    case SSet => 4 * n + 2
    case SNotify => 4 * n + 1
    case SJoin(joined) => n - joined
  }

  /** What is left to do if nobody calls the pool any more. */
  function Left(s: Pool): int
  {
    WorkerRanks(s.workers) + ClientRanks(s.clients) + 5 * |s.jobs| + StopperRank(s.stopper, |s.workers|)
  }

  /** Each step of the pool's own code brings the rest nearer. */
  lemma StepDrains(s: Pool, a: Action)
    requires Inv(s) && Internal(a) && Enabled(s, a)
    ensures 0 <= Left(Do(s, a)) < Left(s)
  {
    StepKeepsInv(s, a);
    match a
    case Work(w) => WorkDrains(s, w);
    case Client(c, wake) => ClientDrains(s, c, wake);
    case Stop => StopDrains(s);
  }

  lemma WorkDrains(s: Pool, w: nat)
    requires Inv(s) && Enabled(s, Work(w))
    ensures Left(WorkerStep(s, w)) < Left(s)
  {
    WorkerRanksUpdate(s.workers, w, WorkerStep(s, w).workers[w]);
  }

  lemma ClientDrains(s: Pool, c: nat, wake: nat)
    requires Inv(s) && Enabled(s, Client(c, wake))
    ensures Left(ClientStep(s, c, wake)) < Left(s)
  {
    ClientRanksUpdate(s.clients, c, ClientStep(s, c, wake).clients[c]);
    if wake < |s.workers| {
      WorkerRanksUpdate(s.workers, wake, WLock);
    }
  }

  lemma StopDrains(s: Pool)
    requires Inv(s) && Enabled(s, Stop)
    ensures Left(StopperStep(s)) < Left(s)
  {
    WakingAll(s.workers);
  }

  lemma {:induction false} WakingAll(ws: seq<WorkerPc>)
    ensures WorkerRanks(NotifyAll(ws)) <= WorkerRanks(ws) + 3 * |ws|
  {
    if ws != [] {
      WakingAll(ws[..|ws| - 1]);
      assert NotifyAll(ws)[..|ws| - 1] == NotifyAll(ws[..|ws| - 1]);
    }
  }

  lemma {:induction false} NobodyRuns(ws: seq<WorkerPc>, job: JobId)
    requires forall w | 0 <= w < |ws| :: !ws[w].WRun?
    ensures Runners(ws, job) == 0
  {
    if ws != [] {
      NobodyRuns(ws[..|ws| - 1], job);
    }
  }

  /** An accepted job has run once unless it is still queued, and none has run
      twice.  Before a shutdown nothing is queued; after one all workers have been
      joined and what is queued was accepted after the shutdown. */
  predicate Complete(s: Pool)
  {
    && (forall k | 0 <= k < s.accepted :: s.ran[k] == if k in s.jobs then 0 else 1)
    && if s.stopper.SIdle? then s.jobs == []
       else s.stopper == SJoin(|s.workers|) && forall k | k in s.jobs :: s.acceptedAtShutdown <= k
  }

  lemma {:induction false} OnceUpTo(n: nat, k: nat)
    ensures multiset(UpTo(n))[k] == B(k < n)
  {
    if n > 0 {
      assert UpTo(n) == UpTo(n - 1) + [n - 1];
      OnceUpTo(n - 1, k);
      TakenOnceMore(UpTo(n - 1), n - 1, k);
    }
  }

  /** The queue holds the accepted jobs that have not been taken. */
  lemma QueueHoldsTheRest(s: Pool, k: nat)
    requires Fifo(s) && k < s.accepted
    ensures s.taken == UpTo(|s.taken|)
    ensures k in s.jobs <==> |s.taken| <= k
  {
    var all := s.taken + s.jobs;
    assert |all| == s.accepted;
    assert s.taken == all[..|s.taken|] && s.jobs == all[|s.taken|..];
    assert forall i | 0 <= i < |all| :: all[i] == i;
    if |s.taken| <= k {
      assert s.jobs[k - |s.taken|] == all[k];
    }
  }

  lemma RestIsComplete(s: Pool)
    requires Inv(s) && Quiet(s)
    ensures Complete(s)
  {
    StandstillMeansDone(s);
    assert s.workers[0].WWaiting? || s.workers[0].WExited?;
    forall k | 0 <= k < s.accepted
      ensures s.ran[k] == (if k in s.jobs then 0 else 1)
      ensures k in s.jobs <==> |s.taken| <= k
    {
      QueueHoldsTheRest(s, k);
      OnceUpTo(|s.taken|, k);
      NobodyRuns(s.workers, k);
      assert Excess(s, k) == 0;
    }
    LeftJobsAreAccepted(s);
  }

  lemma LeftJobsAreAccepted(s: Pool)
    requires Fifo(s)
    ensures forall k | k in s.jobs :: k < s.accepted
  {
    forall i | 0 <= i < |s.jobs|
      ensures s.jobs[i] < s.accepted
    {
      assert (s.taken + s.jobs)[|s.taken| + i] == s.jobs[i];
    }
  }

  /** From any reachable state, in the middle of calls or of a shutdown, the
      pool's own steps come to an end after at most `Left(s)` of them, and when
      none is possible any more the jobs that have not run are those left in the
      queue: none without a shutdown, only later ones after it. */
  lemma {:induction false} LeftAloneComesToRest(s: Pool, trace: seq<Action>)
    requires Inv(s) && Follows(s, trace)
    requires forall i | 0 <= i < |trace| :: Internal(trace[i])
    ensures |trace| <= Left(s)
    ensures Quiet(Run(s, trace)) ==> Complete(Run(s, trace))
    decreases |trace|
  {
    if trace == [] {
      LeftIsNat(s);
      if Quiet(s) {
        RestIsComplete(s);
      }
    } else {
      StepDrains(s, trace[0]);
      StepKeepsInv(s, trace[0]);
      LeftAloneComesToRest(Do(s, trace[0]), trace[1..]);
    }
  }

  lemma LeftIsNat(s: Pool)
    requires Stopping(s)
    ensures Left(s) >= 0
  {
  }
}
