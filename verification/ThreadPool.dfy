/** The worker pool: any number of clients calling `enqueue`, n workers, and one
    caller of `shutdown`, interleaving at every operation on the mutex and the
    condition variable.  Waiting workers may also wake for no reason. */
module ThreadPool {

  /** Jobs are told apart by the order in which they were accepted. */
  type JobId = nat

  datatype WorkerPc =
    | WLock                // about to take the mutex, or woken and taking it back
    | WTest                // holds the mutex, about to test the wait predicate
    | WWaiting             // asleep on the condition variable
    | WDecide              // holds the mutex, the wait is over
    | WRun(job: JobId)
    | WExited

  datatype ClientPc = CIdle | CLock | CPush | CNotify

  datatype StopperPc = SIdle | SLock | SSet | SNotify | SJoin(joined: nat)

  datatype Owner = Free | HeldByWorker(w: nat) | HeldByClient(c: nat) | HeldByStopper

  /** `accepted`, `taken`, `ran` and `acceptedAtShutdown` record what happened; no
      step looks at them except to name the next job. */
  datatype Pool = Pool(
    limit: nat,
    workers: seq<WorkerPc>,
    clients: seq<ClientPc>,
    stopper: StopperPc,
    mutex: Owner,
    jobs: seq<JobId>,
    shutdown: bool,
    accepted: nat,
    taken: seq<JobId>,
    ran: multiset<JobId>,
    acceptedAtShutdown: nat)

  function Initial(n: nat, limit: nat, clients: nat): Pool
  {
    Pool(limit, seq(n, _ => WLock), seq(clients, _ => CIdle), SIdle, Free, [], false, 0, [], multiset{}, 0)
  }

  /** `wake` is the waiting worker that a notification wakes, if there is one. */
  datatype Action =
    | Work(w: nat)
    | Spurious(w: nat)
    | Call(c: nat)
    | Client(c: nat, wake: nat)
    | CallShutdown
    | Stop

  predicate SomeoneWaits(s: Pool)
  {
    exists w :: 0 <= w < |s.workers| && s.workers[w].WWaiting?
  }

  ghost predicate Enabled(s: Pool, a: Action)
  {
    match a
    case Work(w) =>
      && w < |s.workers|
      && !s.workers[w].WWaiting? && !s.workers[w].WExited?
      && (s.workers[w].WLock? ==> s.mutex.Free?)
    case Spurious(w) => w < |s.workers| && s.workers[w].WWaiting?
    case Call(c) => c < |s.clients| && s.clients[c].CIdle?
    case Client(c, wake) =>
      && c < |s.clients| && !s.clients[c].CIdle?
      && (s.clients[c].CLock? ==> s.mutex.Free?)
      && (s.clients[c].CNotify? && SomeoneWaits(s) ==> wake < |s.workers| && s.workers[wake].WWaiting?)
    case CallShutdown => s.stopper.SIdle?
    case Stop =>
      && !s.stopper.SIdle?
      && (s.stopper.SLock? ==> s.mutex.Free?)
      && (s.stopper.SJoin? ==> s.stopper.joined < |s.workers| && s.workers[s.stopper.joined].WExited?)
  }

  function WorkerStep(s: Pool, w: nat): Pool
    requires w < |s.workers|
  {
    match s.workers[w]
    case WLock => s.(mutex := HeldByWorker(w), workers := s.workers[w := WTest])
    case WTest =>
      if s.jobs != [] || s.shutdown then s.(workers := s.workers[w := WDecide])
      else s.(mutex := Free, workers := s.workers[w := WWaiting])
    case WDecide =>
      if s.shutdown && s.jobs == [] then s.(mutex := Free, workers := s.workers[w := WExited])
      else if s.jobs == [] then s
      else
        s.(mutex := Free, workers := s.workers[w := WRun(s.jobs[0])],
           jobs := s.jobs[1..], taken := s.taken + [s.jobs[0]])
    case WRun(job) => s.(workers := s.workers[w := WLock], ran := s.ran + multiset{job})
    case WWaiting => s
    case WExited => s
  }

  /** A full queue turns the job away. */
  function Push(s: Pool, c: nat): Pool
    requires c < |s.clients|
  {
    if s.limit > 0 && |s.jobs| >= s.limit then s.(mutex := Free, clients := s.clients[c := CIdle])
    else
      s.(mutex := Free, clients := s.clients[c := CNotify], jobs := s.jobs + [s.accepted], accepted := s.accepted + 1)
  }

  function NotifyOne(s: Pool, wake: nat): Pool
  {
    if wake < |s.workers| && s.workers[wake].WWaiting? then s.(workers := s.workers[wake := WLock]) else s
  }

  function NotifyAll(workers: seq<WorkerPc>): seq<WorkerPc>
  {
    seq(|workers|, i requires 0 <= i < |workers| => if workers[i].WWaiting? then WLock else workers[i])
  }

  function ClientStep(s: Pool, c: nat, wake: nat): Pool
    requires c < |s.clients|
  {
    match s.clients[c]
    case CIdle => s
    case CLock => s.(mutex := HeldByClient(c), clients := s.clients[c := CPush])
    case CPush => Push(s, c)
    case CNotify => NotifyOne(s, wake).(clients := s.clients[c := CIdle])
  }

  function StopperStep(s: Pool): Pool
  {
    match s.stopper
    case SIdle => s
    case SLock => s.(mutex := HeldByStopper, stopper := SSet)
    case SSet => s.(mutex := Free, shutdown := true, acceptedAtShutdown := s.accepted, stopper := SNotify)
    case SNotify => s.(workers := NotifyAll(s.workers), stopper := SJoin(0))
    case SJoin(k) => s.(stopper := SJoin(k + 1))
  }

  ghost function Do(s: Pool, a: Action): Pool
    requires Enabled(s, a)
  {
    match a
    case Work(w) => WorkerStep(s, w)
    case Spurious(w) => s.(workers := s.workers[w := WLock])
    case Call(c) => s.(clients := s.clients[c := CLock])
    case Client(c, wake) => ClientStep(s, c, wake)
    case CallShutdown => s.(stopper := SLock)
    case Stop => StopperStep(s)
  }

  ghost predicate Follows(s: Pool, trace: seq<Action>)
    decreases |trace|
  {
    trace == [] || (Enabled(s, trace[0]) && Follows(Do(s, trace[0]), trace[1..]))
  }

  ghost function Run(s: Pool, trace: seq<Action>): Pool
    requires Follows(s, trace)
    decreases |trace|
  {
    if trace == [] then s else Run(Do(s, trace[0]), trace[1..])
  }
}
