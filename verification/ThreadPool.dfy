/**
  The thread pool's protocol as a state machine.

  Workers, the threads that call enqueue, and the owner that destroys the pool
  take steps in any order; a step is what one of them does between two points at
  which another may act.  The mutex, the condition variable with its spurious
  wakeups, the stop flag and the task queue are the shared state.  The histories
  of tasks accepted, started and finished are recorded beside it.
 */
module ThreadPools {

  type Task = nat

  /** Where a worker's loop is; Locking is before the lock, at first or after being woken. */
  datatype Worker = Locking | Testing | Sleeping | Chosen | Popped(task: Task) | Running(task: Task) | Leaving | Exited

  /** Where a call of enqueue is. */
  datatype Client = Away | Entering(task: Task) | Submitting(task: Task) | Submitted | Notifying

  /** Where the destructor is; Using is before it. */
  datatype Owner = Using | Closing | SettingStop | StopSet | Broadcasting | Joining(joined: nat)

  datatype Holder = Free | ByWorker(w: nat) | ByClient(c: nat) | ByOwner

  datatype State = State(
    stop: bool, queue: seq<Task>, holder: Holder,
    workers: seq<Worker>, clients: seq<Client>, owner: Owner,
    accepted: seq<Task>, refused: seq<Task>, started: seq<Task>, finished: multiset<Task>)

  datatype Action =
    | WorkerLock(w: nat) | WorkerTest(w: nat) | WorkerTake(w: nat) | WorkerUnlock(w: nat) | WorkerFinish(w: nat)
    | WakeSpuriously(w: nat)
    | ClientBegin(c: nat, task: Task) | ClientLock(c: nat) | ClientPush(c: nat) | ClientUnlock(c: nat)
    | ClientNotify(c: nat, w: nat)
    | OwnerBegin | OwnerLock | OwnerStop | OwnerUnlock | OwnerNotify | OwnerJoin

  function Initial(workers: nat, clients: nat): State {
    State(false, [], Free, seq(workers, _ => Locking), seq(clients, _ => Away), Using, [], [], [], multiset{})
  }

  ghost predicate SomeSleeper(workers: seq<Worker>) {
    exists w :: 0 <= w < |workers| && workers[w].Sleeping?
  }

  /**
    notify_one wakes one sleeper, any one, if there is any.  A worker that has
    found something to do takes from the queue only if it has stopped or there is
    a task, since front and pop demand one; that it always does is invariant.
   */
  ghost predicate Enabled(s: State, a: Action) {
    match a
    case WorkerLock(w) => w < |s.workers| && s.workers[w].Locking? && s.holder.Free?
    case WorkerTest(w) => w < |s.workers| && s.workers[w].Testing?
    case WorkerTake(w) => w < |s.workers| && s.workers[w].Chosen? && (s.stop || s.queue != [])
    case WorkerUnlock(w) => w < |s.workers| && (s.workers[w].Popped? || s.workers[w].Leaving?)
    case WorkerFinish(w) => w < |s.workers| && s.workers[w].Running?
    case WakeSpuriously(w) => w < |s.workers| && s.workers[w].Sleeping?
    case ClientBegin(c, _) => c < |s.clients| && s.clients[c].Away?
    case ClientLock(c) => c < |s.clients| && s.clients[c].Entering? && s.holder.Free?
    case ClientPush(c) => c < |s.clients| && s.clients[c].Submitting?
    case ClientUnlock(c) => c < |s.clients| && s.clients[c].Submitted?
    case ClientNotify(c, w) =>
      && c < |s.clients| && s.clients[c].Notifying?
      && ((w < |s.workers| && s.workers[w].Sleeping?) || (w == 0 && !SomeSleeper(s.workers)))
    case OwnerBegin => s.owner.Using?
    case OwnerLock => s.owner.Closing? && s.holder.Free?
    case OwnerStop => s.owner.SettingStop?
    case OwnerUnlock => s.owner.StopSet?
    case OwnerNotify => s.owner.Broadcasting?
    case OwnerJoin => s.owner.Joining? && s.owner.joined < |s.workers| && s.workers[s.owner.joined].Exited?
  }

  function Notified(worker: Worker): Worker {
    if worker.Sleeping? then Locking else worker
  }

  /** The state after an enabled action; the guards on queue and stop are those of the source. */
  ghost function Step(s: State, a: Action): State
    requires Enabled(s, a)
  {
    match a
    case WorkerLock(w) => s.(workers := s.workers[w := Testing], holder := ByWorker(w))
    case WorkerTest(w) =>
      if s.stop || s.queue != [] then s.(workers := s.workers[w := Chosen])
      else s.(workers := s.workers[w := Sleeping], holder := Free)
    case WorkerTake(w) =>
      if s.stop && s.queue == [] then s.(workers := s.workers[w := Leaving])
      else s.(workers := s.workers[w := Popped(s.queue[0])], queue := s.queue[1..], started := s.started + [s.queue[0]])
    case WorkerUnlock(w) =>
      var next := if s.workers[w].Popped? then Running(s.workers[w].task) else Exited;
      s.(workers := s.workers[w := next], holder := Free)
    case WorkerFinish(w) =>
      s.(workers := s.workers[w := Locking], finished := s.finished + multiset{s.workers[w].task})
    case WakeSpuriously(w) => s.(workers := s.workers[w := Locking])
    case ClientBegin(c, task) => s.(clients := s.clients[c := Entering(task)])
    case ClientLock(c) => s.(clients := s.clients[c := Submitting(s.clients[c].task)], holder := ByClient(c))
    case ClientPush(c) =>
      var task, clients := s.clients[c].task, s.clients[c := Submitted];
      if s.stop then s.(clients := clients, refused := s.refused + [task])
      else s.(clients := clients, queue := s.queue + [task], accepted := s.accepted + [task])
    case ClientUnlock(c) => s.(clients := s.clients[c := Notifying], holder := Free)
    case ClientNotify(c, w) =>
      var s' := s.(clients := s.clients[c := Away]);
      if w < |s.workers| then s'.(workers := s.workers[w := Notified(s.workers[w])]) else s'
    case OwnerBegin => s.(owner := Closing)
    case OwnerLock => s.(owner := SettingStop, holder := ByOwner)
    case OwnerStop => s.(owner := StopSet, stop := true)
    case OwnerUnlock => s.(owner := Broadcasting, holder := Free)
    case OwnerNotify =>
      s.(owner := Joining(0), workers := seq(|s.workers|, w requires 0 <= w < |s.workers| => Notified(s.workers[w])))
    case OwnerJoin => s.(owner := Joining(s.owner.joined + 1))
  }

  /** The actions can be taken one after another from s. */
  ghost predicate Possible(s: State, run: seq<Action>)
    decreases |run|
  {
    run == [] || (Enabled(s, run[0]) && Possible(Step(s, run[0]), run[1..]))
  }

  ghost function After(s: State, run: seq<Action>): State
    requires Possible(s, run)
    decreases |run|
  {
    if run == [] then s else After(Step(s, run[0]), run[1..])
  }

  // ----- what every step keeps

  predicate InCritical(worker: Worker) {
    worker.Testing? || worker.Chosen? || worker.Popped? || worker.Leaving?
  }

  /** The mutex is held by whoever is in a critical section, and by no one else. */
  ghost predicate Exclusive(s: State) {
    && (forall w :: 0 <= w < |s.workers| ==> (InCritical(s.workers[w]) <==> s.holder == ByWorker(w)))
    && (forall c :: 0 <= c < |s.clients| ==>
          (s.clients[c].Submitting? || s.clients[c].Submitted? <==> s.holder == ByClient(c)))
    && (s.owner.SettingStop? || s.owner.StopSet? <==> s.holder == ByOwner)
    && (s.holder.ByWorker? ==> s.holder.w < |s.workers|)
    && (s.holder.ByClient? ==> s.holder.c < |s.clients|)
  }

  /** Stopping: the flag follows the destructor, and a worker leaves only when it is set and the queue drained. */
  ghost predicate Stopping(s: State) {
    && s.stop == (s.owner.StopSet? || s.owner.Broadcasting? || s.owner.Joining?)
    && (s.refused != [] ==> s.stop)
    && (forall w :: 0 <= w < |s.workers| ==>
          && (s.workers[w].Leaving? || s.workers[w].Exited? ==> s.stop && s.queue == [])
          && (s.workers[w].Chosen? ==> s.stop || s.queue != [])
          && (s.workers[w].Sleeping? ==> !s.owner.Joining?))
    && (s.owner.Joining? ==>
          s.owner.joined <= |s.workers| && forall w :: 0 <= w < s.owner.joined ==> s.workers[w].Exited?)
  }

  /** The sum of a measure over all workers, or over all clients. */
  function Total<T>(measure: T -> nat, all: seq<T>): nat
    decreases |all|
  {
    if all == [] then 0 else Total(measure, all[..|all| - 1]) + measure(all[|all| - 1])
  }

  lemma {:induction false} TotalUpdate<T>(measure: T -> nat, all: seq<T>, i: nat, one: T)
    requires i < |all|
    ensures Total(measure, all[i := one]) == Total(measure, all) - measure(all[i]) + measure(one)
    decreases |all|
  {
    var n := |all| - 1;
    if i < n {
      assert all[i := one][..n] == all[..n][i := one];
      TotalUpdate(measure, all[..n], i, one);
    } else {
      assert all[i := one][..n] == all[..n];
    }
  }

  lemma {:induction false} TotalOfSame<T>(measure: T -> nat, all: seq<T>, k: nat)
    requires forall i :: 0 <= i < |all| ==> measure(all[i]) == k
    ensures Total(measure, all) == k * |all|
    decreases |all|
  {
    if all != [] {
      TotalOfSame(measure, all[..|all| - 1], k);
      assert k * |all| == k * (|all| - 1) + k;
    }
  }

  /** Some one counts if the total is not zero. */
  lemma {:induction false} TotalWitness<T>(measure: T -> nat, all: seq<T>) returns (i: nat)
    requires Total(measure, all) > 0
    ensures i < |all| && measure(all[i]) > 0
    decreases |all|
  {
    i := |all| - 1;
    if measure(all[i]) == 0 {
      i := TotalWitness(measure, all[..i]);
    }
  }

  /** A worker that will look at the queue before it sleeps or runs a task. */
  function Looks(worker: Worker): nat {
    if worker.Locking? || worker.Testing? || worker.Chosen? then 1 else 0
  }

  /** A call that has a notification to make. */
  function Notifies(client: Client): nat {
    if client.Submitted? || client.Notifying? then 1 else 0
  }

  /**
    While a worker sleeps, no task waits without a notification for it to come
    or another worker about to look at the queue.
   */
  ghost predicate EnoughAwake(s: State) {
    SomeSleeper(s.workers) ==> |s.queue| <= Total(Notifies, s.clients) + Total(Looks, s.workers)
  }

  predicate Awake(worker: Worker) {
    !worker.Sleeping? && !worker.Exited?
  }

  /** No lost wakeup: while a task waits, a notification is on its way or a worker is awake. */
  ghost predicate NoLostWakeup(s: State) {
    s.queue != [] ==>
      || (exists c :: 0 <= c < |s.clients| && (s.clients[c].Submitted? || s.clients[c].Notifying?))
      || (exists w :: 0 <= w < |s.workers| && Awake(s.workers[w]))
  }

  function InHand(worker: Worker): multiset<Task> {
    if worker.Popped? || worker.Running? then multiset{worker.task} else multiset{}
  }

  function AllInHand(workers: seq<Worker>): multiset<Task>
    decreases |workers|
  {
    if workers == [] then multiset{} else AllInHand(workers[..|workers| - 1]) + InHand(workers[|workers| - 1])
  }

  /** Tasks are started first in, first out; each start is of one accepted task, in hand or finished. */
  ghost predicate TasksKept(s: State) {
    && s.accepted == s.started + s.queue
    && multiset(s.started) == AllInHand(s.workers) + s.finished
  }

  ghost predicate Inv(s: State) {
    Exclusive(s) && Stopping(s) && EnoughAwake(s) && TasksKept(s) && s.workers != []
  }

  predicate OfWorker(a: Action) {
    a.WorkerLock? || a.WorkerTest? || a.WorkerTake? || a.WorkerUnlock? || a.WorkerFinish? || a.WakeSpuriously?
  }

  lemma ExclusiveWorkerStep(s: State, a: Action)
    requires Exclusive(s) && Enabled(s, a) && OfWorker(a)
    ensures Exclusive(Step(s, a))
  {
  }

  lemma ExclusiveOtherStep(s: State, a: Action)
    requires Exclusive(s) && Enabled(s, a) && !OfWorker(a)
    ensures Exclusive(Step(s, a))
  {
  }

  lemma ExclusiveStep(s: State, a: Action)
    requires Exclusive(s) && Enabled(s, a)
    ensures Exclusive(Step(s, a))
  {
    hide *;
    if OfWorker(a) {
      ExclusiveWorkerStep(s, a);
    } else {
      ExclusiveOtherStep(s, a);
    }
  }

  lemma StoppingWorkerStep(s: State, a: Action)
    requires Exclusive(s) && Stopping(s) && Enabled(s, a) && OfWorker(a)
    ensures Stopping(Step(s, a))
  {
  }

  lemma StoppingOtherStep(s: State, a: Action)
    requires Exclusive(s) && Stopping(s) && Enabled(s, a) && !OfWorker(a)
    ensures Stopping(Step(s, a))
  {
  }

  lemma StoppingStep(s: State, a: Action)
    requires Exclusive(s) && Stopping(s) && Enabled(s, a)
    ensures Stopping(Step(s, a))
  {
    hide *;
    if OfWorker(a) {
      StoppingWorkerStep(s, a);
    } else {
      StoppingOtherStep(s, a);
    }
  }

  lemma WakeupWorkerStep(s: State, a: Action)
    requires EnoughAwake(s) && Enabled(s, a) && OfWorker(a)
    ensures EnoughAwake(Step(s, a))
  {
    hide Total;
    TotalUpdate(Looks, s.workers, a.w, Step(s, a).workers[a.w]);
    if SomeSleeper(Step(s, a).workers) && !Step(s, a).workers[a.w].Sleeping? {
      var w :| 0 <= w < |s.workers| && Step(s, a).workers[w].Sleeping?;
      assert s.workers[w].Sleeping?;
    }
  }

  /** The step at which a wakeup could be lost: waking one sleeper, when others sleep on. */
  lemma WakeupNotify(s: State, c: nat, w: nat)
    requires EnoughAwake(s) && Enabled(s, ClientNotify(c, w))
    ensures EnoughAwake(Step(s, ClientNotify(c, w)))
  {
    hide Total;
    TotalUpdate(Notifies, s.clients, c, Away);
    if w < |s.workers| {
      TotalUpdate(Looks, s.workers, w, Notified(s.workers[w]));
    }
  }

  lemma WakeupClientStep(s: State, a: Action)
    requires EnoughAwake(s) && Enabled(s, a)
    requires a.ClientBegin? || a.ClientLock? || a.ClientPush? || a.ClientUnlock?
    ensures EnoughAwake(Step(s, a))
  {
    hide Total;
    TotalUpdate(Notifies, s.clients, a.c, Step(s, a).clients[a.c]);
  }

  lemma WakeupStep(s: State, a: Action)
    requires EnoughAwake(s) && Enabled(s, a)
    ensures EnoughAwake(Step(s, a))
  {
    hide Total;
    if OfWorker(a) {
      WakeupWorkerStep(s, a);
    } else if a.ClientNotify? {
      WakeupNotify(s, a.c, a.w);
    } else if a.ClientBegin? || a.ClientLock? || a.ClientPush? || a.ClientUnlock? {
      WakeupClientStep(s, a);
    }
  }

  lemma NoneLost(s: State)
    requires Stopping(s) && EnoughAwake(s) && s.workers != []
    ensures NoLostWakeup(s)
  {
    hide Total;
    if s.queue != [] {
      if !SomeSleeper(s.workers) {
        assert Awake(s.workers[0]);
      } else if Total(Notifies, s.clients) > 0 {
        var c := TotalWitness(Notifies, s.clients);
        assert s.clients[c].Submitted? || s.clients[c].Notifying?;
      } else {
        var w := TotalWitness(Looks, s.workers);
        assert Awake(s.workers[w]);
      }
    }
  }

  lemma {:induction false} InHandUpdate(workers: seq<Worker>, w: nat, worker: Worker, t: Task)
    requires w < |workers|
    ensures AllInHand(workers[w := worker])[t] + InHand(workers[w])[t] == AllInHand(workers)[t] + InHand(worker)[t]
    decreases |workers|
  {
    hide InHand;
    var n := |workers| - 1;
    if w < n {
      assert workers[w := worker][..n] == workers[..n][w := worker];
      assert workers[..n][w] == workers[w] && workers[w := worker][n] == workers[n];
      InHandUpdate(workers[..n], w, worker, t);
    } else {
      assert workers[w := worker][..n] == workers[..n];
    }
  }

  lemma {:induction false} InHandSame(workers: seq<Worker>, workers': seq<Worker>)
    requires |workers| == |workers'|
    requires forall w :: 0 <= w < |workers| ==> SameHand(workers[w], workers'[w])
    ensures AllInHand(workers) == AllInHand(workers')
    decreases |workers|
  {
    if workers != [] {
      InHandSame(workers[..|workers| - 1], workers'[..|workers| - 1]);
    }
  }

  /** What a step may do to the counts of started, held and finished tasks. */
  lemma TasksBalance(s: State, s': State, w: nat, worker: Worker)
    requires multiset(s.started) == AllInHand(s.workers) + s.finished
    requires w < |s.workers| && s'.workers == s.workers[w := worker]
    requires multiset(s'.started) + InHand(s.workers[w]) + s.finished == multiset(s.started) + InHand(worker)
             + s'.finished
    ensures multiset(s'.started) == AllInHand(s'.workers) + s'.finished
  {
    hide AllInHand, InHand;
    forall t: Task
      ensures multiset(s'.started)[t] == (AllInHand(s'.workers) + s'.finished)[t]
    {
      InHandUpdate(s.workers, w, worker, t);
      var left := multiset(s'.started) + InHand(s.workers[w]) + s.finished;
      assert left[t] == (multiset(s.started) + InHand(worker) + s'.finished)[t];
      assert multiset(s.started)[t] == (AllInHand(s.workers) + s.finished)[t];
    }
  }

  lemma TasksTake(s: State, w: nat)
    requires TasksKept(s) && Enabled(s, WorkerTake(w))
    ensures TasksKept(Step(s, WorkerTake(w)))
  {
    hide AllInHand;
    var s' := Step(s, WorkerTake(w));
    if s.queue == [] {
      TasksBalance(s, s', w, Leaving);
    } else {
      OneMoreStarted(s, s', w);
      TasksBalance(s, s', w, Popped(s.queue[0]));
    }
  }

  lemma OneMoreStarted(s: State, s': State, w: nat)
    requires w < |s.workers| && s.workers[w].Chosen? && s.queue != []
    requires s'.queue == s.queue[1..] && s'.started == s.started + [s.queue[0]] && s'.finished == s.finished
    ensures multiset(s'.started) + InHand(s.workers[w]) + s.finished
         == multiset(s.started) + InHand(Popped(s.queue[0])) + s'.finished
    ensures s'.started + s'.queue == s.started + s.queue
  {
  }

  lemma TasksFinish(s: State, w: nat)
    requires TasksKept(s) && Enabled(s, WorkerFinish(w))
    ensures TasksKept(Step(s, WorkerFinish(w)))
  {
    hide AllInHand;
    TasksBalance(s, Step(s, WorkerFinish(w)), w, Locking);
  }

  lemma TasksStep(s: State, a: Action)
    requires TasksKept(s) && Enabled(s, a)
    ensures TasksKept(Step(s, a))
  {
    hide AllInHand;
    if a.WorkerTake? {
      TasksTake(s, a.w);
    } else if a.WorkerFinish? {
      TasksFinish(s, a.w);
    } else {
      TasksElsewhere(s, a);
    }
  }

  /** No other step changes what workers have in hand. */
  lemma HandsStill(s: State, a: Action, w: nat)
    requires Enabled(s, a) && !a.WorkerTake? && !a.WorkerFinish? && w < |s.workers|
    ensures |Step(s, a).workers| == |s.workers| && SameHand(s.workers[w], Step(s, a).workers[w])
  {
  }

  predicate SameHand(worker: Worker, worker': Worker) {
    if worker.Popped? || worker.Running? then
      (worker'.Popped? || worker'.Running?) && worker'.task == worker.task
    else
      !worker'.Popped? && !worker'.Running?
  }

  lemma TasksElsewhere(s: State, a: Action)
    requires TasksKept(s) && Enabled(s, a) && !a.WorkerTake? && !a.WorkerFinish?
    ensures TasksKept(Step(s, a))
  {
    hide AllInHand, SameHand, Step, Enabled;
    HistoriesStill(s, a);
    var s' := Step(s, a);
    forall w | 0 <= w < |s.workers|
      ensures SameHand(s.workers[w], s'.workers[w])
    {
      HandsStill(s, a, w);
    }
    InHandSame(s.workers, s'.workers);
  }

  lemma HistoriesStill(s: State, a: Action)
    requires Enabled(s, a) && !a.WorkerTake? && !a.WorkerFinish?
    ensures |Step(s, a).workers| == |s.workers|
    ensures Step(s, a).started == s.started && Step(s, a).finished == s.finished
    ensures s.accepted == s.started + s.queue ==> Step(s, a).accepted == s.started + Step(s, a).queue
  {
  }

  lemma {:induction false} NoneInHand(workers: seq<Worker>)
    requires forall w :: 0 <= w < |workers| ==> InHand(workers[w]) == multiset{}
    ensures AllInHand(workers) == multiset{}
    decreases |workers|
  {
    if workers != [] {
      NoneInHand(workers[..|workers| - 1]);
    }
  }

  lemma InvInitially(workers: nat, clients: nat)
    requires workers > 0
    ensures Inv(Initial(workers, clients))
  {
    NoneInHand(Initial(workers, clients).workers);
  }

  lemma InvStep(s: State, a: Action)
    requires Inv(s) && Enabled(s, a)
    ensures Inv(Step(s, a))
  {
    hide Exclusive, Stopping, EnoughAwake, TasksKept;
    ExclusiveStep(s, a);
    StoppingStep(s, a);
    WakeupStep(s, a);
    TasksStep(s, a);
  }

  /** The invariant holds throughout every run. */
  lemma {:induction false} InvAlways(s: State, run: seq<Action>)
    requires Inv(s) && Possible(s, run)
    ensures Inv(After(s, run))
    decreases |run|
  {
    hide Inv, Step, Enabled;
    if run != [] {
      InvStep(s, run[0]);
      InvAlways(Step(s, run[0]), run[1..]);
    }
  }

  // ----- what that means for the pool's users

  predicate AllExited(workers: seq<Worker>) {
    forall w :: 0 <= w < |workers| ==> workers[w].Exited?
  }

  /**
    Safety, over every run of a pool with at least one worker and any number of
    clients: no wakeup is lost, and no worker sleeps while more tasks wait than
    there are notifications to come and workers about to look; none sleeps once
    the stop has been broadcast.  Tasks start in the order they were accepted in,
    none is turned away before the stop, no worker takes from an empty queue, and
    when all workers have left every accepted task has run to its end exactly
    once.
   */
  lemma PoolIsSafe(workers: nat, clients: nat, run: seq<Action>)
    requires workers > 0 && Possible(Initial(workers, clients), run)
    ensures
      var s := After(Initial(workers, clients), run);
      && NoLostWakeup(s) && EnoughAwake(s)
      && (s.owner.Joining? ==> forall w :: 0 <= w < |s.workers| ==> !s.workers[w].Sleeping?)
      && (forall w :: 0 <= w < |s.workers| && s.workers[w].Chosen? ==> Enabled(s, WorkerTake(w)))
      && s.started <= s.accepted
      && (s.refused != [] ==> s.stop)
      && (AllExited(s.workers) ==>
            s.queue == [] && s.started == s.accepted && s.finished == multiset(s.accepted))
      && (s.owner == Joining(|s.workers|) ==> AllExited(s.workers))
  {
    InvInitially(workers, clients);
    InvAlways(Initial(workers, clients), run);
    var s := After(Initial(workers, clients), run);
    NoneLost(s);
    if AllExited(s.workers) {
      NoneInHand(s.workers);
      assert s.workers[0].Exited?;
    }
  }

  /** A call is accepted before the stop, at the end of the queue, and turned away after it. */
  lemma PushAccepts(s: State, c: nat)
    requires Enabled(s, ClientPush(c))
    ensures
      var s', task := Step(s, ClientPush(c)), s.clients[c].task;
      && s'.accepted == (if s.stop then s.accepted else s.accepted + [task])
      && s'.queue == (if s.stop then s.queue else s.queue + [task])
      && s'.refused == if s.stop then s.refused + [task] else s.refused
  {
  }

  /** So nothing is accepted any more once the pool has been stopped. */
  lemma {:induction false} NothingAfterStop(s: State, run: seq<Action>)
    requires s.stop && Possible(s, run)
    ensures After(s, run).stop && After(s, run).accepted == s.accepted && |After(s, run).queue| <= |s.queue|
    decreases |run|
  {
    hide Step, Enabled;
    if run != [] {
      StopStays(s, run[0]);
      NothingAfterStop(Step(s, run[0]), run[1..]);
    }
  }

  lemma StopStays(s: State, a: Action)
    requires s.stop && Enabled(s, a)
    ensures Step(s, a).stop && Step(s, a).accepted == s.accepted && |Step(s, a).queue| <= |s.queue|
  {
  }

  // ----- progress

  /** Actions that the pool does not decide on: calls beginning, and spurious wakeups. */
  predicate FromOutside(a: Action) {
    a.ClientBegin? || a.OwnerBegin? || a.WakeSpuriously?
  }

  /** Nothing can happen unless something comes from outside. */
  ghost predicate Quiescent(s: State) {
    forall a :: Enabled(s, a) ==> FromOutside(a)
  }

  /**
    The pool never gets stuck: it comes to rest only with every accepted task finished, and
    destruction, once begun, complete.
   */
  lemma RestMeansDone(s: State)
    requires Inv(s) && Quiescent(s)
    ensures s.queue == [] && s.started == s.accepted && s.finished == multiset(s.accepted)
    ensures forall c :: 0 <= c < |s.clients| ==> s.clients[c].Away?
    ensures s.owner.Using? || s.owner == Joining(|s.workers|)
    ensures s.owner.Using? ==> forall w :: 0 <= w < |s.workers| ==> s.workers[w].Sleeping?
    ensures s.owner.Joining? ==> AllExited(s.workers)
  {
    hide AllInHand, Quiescent, Total;
    NoneLost(s);
    if !s.holder.Free? {
      var a := HolderCanAct(s);
      NotQuiescent(s, a);
    }
    forall w | 0 <= w < |s.workers|
      ensures s.workers[w].Sleeping? || s.workers[w].Exited?
    {
      WorkerAtRest(s, w);
    }
    forall c | 0 <= c < |s.clients|
      ensures s.clients[c].Away?
    {
      ClientAtRest(s, c);
    }
    OwnerAtRest(s);
    NoneInHand(s.workers);
  }

  lemma NotQuiescent(s: State, a: Action)
    requires Enabled(s, a) && !FromOutside(a)
    ensures !Quiescent(s)
  {
  }

  /** Whoever holds the mutex can go on. */
  lemma HolderCanAct(s: State) returns (a: Action)
    requires Exclusive(s) && Stopping(s) && !s.holder.Free?
    ensures Enabled(s, a) && !FromOutside(a)
  {
    match s.holder
    case ByWorker(w) =>
      a := if s.workers[w].Testing? then WorkerTest(w) else if s.workers[w].Chosen? then WorkerTake(w)
          else WorkerUnlock(w);
    case ByClient(c) =>
      a := if s.clients[c].Submitting? then ClientPush(c) else ClientUnlock(c);
    case ByOwner =>
      a := if s.owner.SettingStop? then OwnerStop else OwnerUnlock;
  }

  /** Whoever is to notify can, sleepers or none. */
  lemma NotifierCanAct(s: State, c: nat) returns (a: Action)
    requires c < |s.clients| && s.clients[c].Notifying?
    ensures Enabled(s, a) && !FromOutside(a)
  {
    a := ClientNotify(c, 0);
    if w :| 0 <= w < |s.workers| && s.workers[w].Sleeping? {
      a := ClientNotify(c, w);
    }
  }

  lemma ClientAtRest(s: State, c: nat)
    requires Quiescent(s) && s.holder.Free? && c < |s.clients|
    ensures !s.clients[c].Notifying? && !s.clients[c].Entering?
  {
    if s.clients[c].Notifying? {
      var a := NotifierCanAct(s, c);
      NotQuiescent(s, a);
    }
    var lock := ClientLock(c);
    assert Enabled(s, lock) ==> FromOutside(lock);
  }

  lemma WorkerAtRest(s: State, w: nat)
    requires Quiescent(s) && s.holder.Free? && w < |s.workers|
    ensures !s.workers[w].Locking? && !s.workers[w].Running?
  {
    assert Enabled(s, WorkerLock(w)) ==> FromOutside(WorkerLock(w));
    assert Enabled(s, WorkerFinish(w)) ==> FromOutside(WorkerFinish(w));
  }

  lemma OwnerAtRest(s: State)
    requires Quiescent(s) && s.holder.Free?
    ensures !s.owner.Closing? && !s.owner.Broadcasting?
    ensures s.owner.Joining? && s.owner.joined < |s.workers| ==> !s.workers[s.owner.joined].Exited?
  {
    assert Enabled(s, OwnerLock) ==> FromOutside(OwnerLock);
    assert Enabled(s, OwnerNotify) ==> FromOutside(OwnerNotify);
    assert Enabled(s, OwnerJoin) ==> FromOutside(OwnerJoin);
  }

  // ----- termination

  /** Steps a worker may take before it sleeps or leaves, not counting those a further task costs. */
  function WorkerRank(worker: Worker): nat {
    match worker
    case Sleeping => 0
    case Exited => 0
    case Leaving => 1
    case Chosen => 2
    case Testing => 3
    case Locking => 4
    case Running(_) => 5
    case Popped(_) => 6
  }

  /** A call may wake a worker, and add a task. */
  function ClientRank(client: Client): nat {
    match client
    case Away => 0
    case Notifying => 5
    case Submitted => 6
    case Submitting(_) => 12
    case Entering(_) => 13
  }

  /** Destruction may wake all n workers. */
  function OwnerRank(owner: Owner, n: nat): int {
    match owner
    case Using => 5 * n + 5
    case Closing => 5 * n + 4
    case SettingStop => 5 * n + 3
    case StopSet => 5 * n + 2
    case Broadcasting => 5 * n + 1
    case Joining(joined) => n - joined
  }

  function Rank(s: State): int {
    5 * |s.queue| + Total(WorkerRank, s.workers) + Total(ClientRank, s.clients) + OwnerRank(s.owner, |s.workers|)
  }

  lemma {:induction false} BroadcastRank(workers: seq<Worker>, woken: seq<Worker>)
    requires |woken| == |workers| && forall w :: 0 <= w < |workers| ==> woken[w] == Notified(workers[w])
    ensures Total(WorkerRank, woken) <= Total(WorkerRank, workers) + 4 * |workers|
    decreases |workers|
  {
    if workers != [] {
      BroadcastRank(workers[..|workers| - 1], woken[..|workers| - 1]);
    }
  }

  lemma RankWorkerStep(s: State, a: Action, w: nat)
    requires Enabled(s, a)
    requires a in [WorkerLock(w), WorkerTest(w), WorkerTake(w), WorkerUnlock(w), WorkerFinish(w), WakeSpuriously(w)]
    ensures Rank(Step(s, a)) <= Rank(s) + if FromOutside(a) then 13 else -1
  {
    hide Total;
    TotalUpdate(WorkerRank, s.workers, w, Step(s, a).workers[w]);
  }

  lemma RankClientStep(s: State, a: Action)
    requires Enabled(s, a)
    requires a.ClientBegin? || a.ClientLock? || a.ClientPush? || a.ClientUnlock?
    ensures Rank(Step(s, a)) <= Rank(s) + if FromOutside(a) then 13 else -1
  {
    hide Total;
    TotalUpdate(ClientRank, s.clients, a.c, Step(s, a).clients[a.c]);
  }

  lemma RankNotify(s: State, c: nat, w: nat)
    requires Enabled(s, ClientNotify(c, w))
    ensures Rank(Step(s, ClientNotify(c, w))) <= Rank(s) - 1
  {
    hide Total;
    TotalUpdate(ClientRank, s.clients, c, Away);
    if w < |s.workers| {
      TotalUpdate(WorkerRank, s.workers, w, Notified(s.workers[w]));
    }
  }

  /** Every action of the pool's own brings it nearer to rest; one from outside sets it back by at most 13. */
  lemma RankStep(s: State, a: Action)
    requires Enabled(s, a)
    ensures Rank(Step(s, a)) <= Rank(s) + if FromOutside(a) then 13 else -1
  {
    hide Total;
    if OfWorker(a) {
      RankWorkerStep(s, a, a.w);
    } else if a.ClientNotify? {
      RankNotify(s, a.c, a.w);
    } else if a.OwnerNotify? {
      BroadcastRank(s.workers, Step(s, a).workers);
    } else if a.ClientBegin? || a.ClientLock? || a.ClientPush? || a.ClientUnlock? {
      RankClientStep(s, a);
    }
  }

  function CountOutside(run: seq<Action>): nat {
    if run == [] then 0 else (if FromOutside(run[0]) then 1 else 0) + CountOutside(run[1..])
  }

  lemma RankIsNat(s: State)
    requires Inv(s)
    ensures 0 <= Rank(s)
  {
  }

  /** A run cannot go on unless calls or spurious wakeups keep coming: its length is bounded by their number. */
  lemma {:induction false} RunsAreBounded(s: State, run: seq<Action>)
    requires Inv(s) && Possible(s, run)
    ensures |run| <= Rank(s) + 14 * CountOutside(run)
    decreases |run|
  {
    hide Inv, Step, Enabled, Rank, FromOutside;
    RankIsNat(s);
    if run != [] {
      InvStep(s, run[0]);
      RankStep(s, run[0]);
      RunsAreBounded(Step(s, run[0]), run[1..]);
    }
  }

  /**
    The pool drains: however a run continues once the destructor has begun, if
    it cannot continue by itself it has finished every task ever accepted, in
    the order of acceptance, and all workers have left.
   */
  lemma PoolDrains(workers: nat, clients: nat, run: seq<Action>)
    requires workers > 0 && Possible(Initial(workers, clients), run)
    ensures
      var s := After(Initial(workers, clients), run);
      && |run| <= 9 * workers + 5 + 14 * CountOutside(run)
      && (Quiescent(s) ==>
            && s.started == s.accepted && s.finished == multiset(s.accepted)
            && (!s.owner.Using? ==> s.owner == Joining(workers) && AllExited(s.workers)))
  {
    hide Possible, After, Step, Enabled, Rank, Inv, Quiescent;
    var s0 := Initial(workers, clients);
    InvInitially(workers, clients);
    InvAlways(s0, run);
    RunsAreBounded(s0, run);
    RankInitially(workers, clients);
    SameWorkers(s0, run);
    if Quiescent(After(s0, run)) {
      RestMeansDone(After(s0, run));
    }
  }

  lemma RankInitially(workers: nat, clients: nat)
    ensures Rank(Initial(workers, clients)) == 9 * workers + 5
  {
    var s := Initial(workers, clients);
    TotalOfSame(WorkerRank, s.workers, 4);
    TotalOfSame(ClientRank, s.clients, 0);
  }

  lemma {:induction false} SameWorkers(s: State, run: seq<Action>)
    requires Possible(s, run)
    ensures |After(s, run).workers| == |s.workers|
    decreases |run|
  {
    if run != [] {
      SameWorkers(Step(s, run[0]), run[1..]);
    }
  }
}
