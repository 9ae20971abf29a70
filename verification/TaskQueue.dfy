/** The bounded task queue and the thread pool on top of it, as a transition system.

    Any number of producers (callers of ThreadPool::AddTask), any number of workers
    (ThreadPool::ThreadFunc) and one stopper (ThreadPool::Stop) take turns. One step is one
    program action between two points where another thread can be scheduled: taking the mutex,
    evaluating a loop condition, going to sleep on a condition variable, changing the queue,
    signalling, releasing the mutex. Sleeping threads may also wake for no reason. */
module TaskQueue {
  type Task = nat

  /** Where a producer is inside AddTask/Push. Testing, FullSeen, Pushed and Signalled hold the mutex. */
  datatype Producer = Idle | Wants | Testing | FullSeen | Asleep | Woken | Pushed | Signalled {
    predicate Holds() { Testing? || FullSeen? || Pushed? || Signalled? }
  }

  /** Where a worker is inside ThreadFunc/Pop. EmptySeen is the point after the loop condition was
      found true and before Wait; Ready is the point after the loop and before `if(_flag)`. */
  datatype Worker =
    | AtLoop | WantsLock | Checking | EmptySeen | Sleeping | Notified | Ready
    | Popped(task: Task) | Holding(task: Task) | Nothing | Running(task: Task) | Exited
  {
    predicate Holds() { Checking? || EmptySeen? || Ready? || Popped? || Holding? || Nothing? }
    predicate HasTask() { Popped? || Holding? || Running? }
  }

  /** Where Stop is. FlagDown is between the two statements of TaskQueue::Wakeup. */
  datatype Stopper = Off | Polling | SawEmpty | ExitSet | FlagDown | Joining(joined: nat) | Stopped {
    /** Wakeup has run to its end. */
    predicate Broadcast() { Joining? || Stopped? }
  }

  datatype Owner = Free | P(i: nat) | W(i: nat)

  datatype State = State(
    cap: nat, queue: seq<Task>, flag: bool, exit: bool, lock: Owner,
    producers: seq<Producer>, args: seq<Task>, workers: seq<Worker>, stopper: Stopper,
    accepted: seq<Task>,    // history: tasks in the order Push appended them
    dispatched: seq<Task>,  // history: tasks in the order Pop removed them
    finished: seq<Task>,    // history: tasks in the order they finished running
    late: bool,             // history: a producer was inside AddTask at some time after Stop began
    missed: bool)           // history: NotifyAll ran while some worker was at EmptySeen

  function Init(cap: nat, producers: nat, workers: nat): State {
    State(cap, [], true, false, Free, seq(producers, _ => Idle), seq(producers, _ => 0), seq(workers, _ => AtLoop), Off,
          [], [], [], false, false)
  }

  // ----- steps -----

  /** What a step leads to; Stuck when it cannot be taken. */
  datatype Outcome = Stuck | To(state: State)

  datatype Step =
    | Begin(i: nat, task: Task)         // producer i calls AddTask with a non-empty task
    | Produce(i: nat, woken: nat)       // producer i's next action; `woken` is the worker a Notify picks
    | Work(i: nat, woken: nat)          // worker i's next action; `woken` is the producer a Notify picks
    | Stop                              // the stopper's next action
    | SpuriousProducer(i: nat)
    | SpuriousWorker(i: nat)

  predicate AnySleeping(ws: seq<Worker>) { exists i :: 0 <= i < |ws| && ws[i] == Sleeping }

  predicate AnyAsleep(ps: seq<Producer>) { exists i :: 0 <= i < |ps| && ps[i] == Asleep }

  /** pthread_cond_signal on _not_empty: it wakes one sleeper of the scheduler's choice if there is any. */
  predicate CanSignalWorker(ws: seq<Worker>, choice: nat) {
    AnySleeping(ws) ==> choice < |ws| && ws[choice] == Sleeping
  }

  function SignalWorker(ws: seq<Worker>, choice: nat): seq<Worker> {
    if AnySleeping(ws) && choice < |ws| then ws[choice := Notified] else ws
  }

  predicate CanSignalProducer(ps: seq<Producer>, choice: nat) {
    AnyAsleep(ps) ==> choice < |ps| && ps[choice] == Asleep
  }

  function SignalProducer(ps: seq<Producer>, choice: nat): seq<Producer> {
    if AnyAsleep(ps) && choice < |ps| then ps[choice := Woken] else ps
  }

  function ProduceStep(s: State, i: nat, woken: nat): Outcome
    requires i < |s.producers| == |s.args|
  {
    match s.producers[i]
    case Idle => Stuck
    case Wants => if s.lock == Free then To(s.(lock := P(i), producers := s.producers[i := Testing])) else Stuck
    case Woken => if s.lock == Free then To(s.(lock := P(i), producers := s.producers[i := Testing])) else Stuck
    case Testing =>
      if |s.queue| == s.cap then To(s.(producers := s.producers[i := FullSeen]))
      else To(s.(queue := s.queue + [s.args[i]], accepted := s.accepted + [s.args[i]],
                 producers := s.producers[i := Pushed]))
    case FullSeen => To(s.(lock := Free, producers := s.producers[i := Asleep]))
    case Asleep => Stuck
    case Pushed =>
      if CanSignalWorker(s.workers, woken)
      then To(s.(workers := SignalWorker(s.workers, woken), producers := s.producers[i := Signalled]))
      else Stuck
    case Signalled => To(s.(lock := Free, producers := s.producers[i := Idle]))
  }

  function WorkStep(s: State, i: nat, woken: nat): Outcome
    requires i < |s.workers|
  {
    match s.workers[i]
    case AtLoop => To(s.(workers := s.workers[i := if s.exit then Exited else WantsLock]))
    case WantsLock => if s.lock == Free then To(s.(lock := W(i), workers := s.workers[i := Checking])) else Stuck
    case Notified => if s.lock == Free then To(s.(lock := W(i), workers := s.workers[i := Checking])) else Stuck
    case Checking => To(s.(workers := s.workers[i := if s.flag && s.queue == [] then EmptySeen else Ready]))
    case EmptySeen => To(s.(lock := Free, workers := s.workers[i := Sleeping]))
    case Sleeping => Stuck
    case Ready =>
      if !s.flag then To(s.(workers := s.workers[i := Nothing]))
      else if s.queue == [] then Stuck  // front() of an empty queue: never reached, see PopFindsATask
      else To(s.(queue := s.queue[1..], dispatched := s.dispatched + [s.queue[0]],
                 workers := s.workers[i := Popped(s.queue[0])]))
    case Popped(t) =>
      if CanSignalProducer(s.producers, woken)
      then To(s.(producers := SignalProducer(s.producers, woken), workers := s.workers[i := Holding(t)]))
      else Stuck
    case Holding(t) => To(s.(lock := Free, workers := s.workers[i := Running(t)]))
    case Nothing => To(s.(lock := Free, workers := s.workers[i := AtLoop]))
    case Running(t) => To(s.(finished := s.finished + [t], workers := s.workers[i := AtLoop]))
    case Exited => Stuck
  }

  predicate AllIdle(s: State) { forall i :: 0 <= i < |s.producers| ==> s.producers[i] == Idle }

  function WakeAll(ws: seq<Worker>): (r: seq<Worker>)
    ensures |r| == |ws|
    ensures forall i :: 0 <= i < |ws| ==> r[i] == if ws[i] == Sleeping then Notified else ws[i]
  {
    if ws == [] then [] else [if ws[0] == Sleeping then Notified else ws[0]] + WakeAll(ws[1..])
  }

  function StopStep(s: State): Outcome {
    match s.stopper
    case Off => To(s.(stopper := Polling, late := !AllIdle(s)))
    case Polling => if s.queue == [] then To(s.(stopper := SawEmpty)) else To(s)  // sleep_for, then poll again
    case SawEmpty => To(s.(exit := true, stopper := ExitSet))
    case ExitSet => To(s.(flag := false, stopper := FlagDown))
    case FlagDown =>
      To(s.(workers := WakeAll(s.workers), missed := AnyEmptySeen(s.workers), stopper := Joining(0)))
    case Joining(k) =>
      if k >= |s.workers| then To(s.(stopper := Stopped))
      else if s.workers[k] == Exited then To(s.(stopper := Joining(k + 1)))
      else Stuck
    case Stopped => Stuck
  }

  /** What a producer's step changes: itself, and when it has pushed, one sleeping worker. */
  lemma ProduceShape(s: State, i: nat, woken: nat)
    requires i < |s.producers| == |s.args| && ProduceStep(s, i, woken).To?
    ensures var s' := ProduceStep(s, i, woken).state;
      && |s'.producers| == |s.producers| && s'.producers == s.producers[i := s'.producers[i]]
      && SameRest(s, s') && s'.finished == s.finished && s'.dispatched == s.dispatched
      && (if s.producers[i] == Pushed && AnySleeping(s.workers)
          then woken < |s.workers| && s.workers[woken] == Sleeping && s'.workers == s.workers[woken := Notified]
          else s'.workers == s.workers)
  {
    if s.producers[i] == Pushed {
      SignalShape(s, i, woken);
      hide ProduceStep;
    }
    hide SignalWorker, CanSignalWorker, AnySleeping;
    match s.producers[i]
    case Idle => case Wants => case Woken => case Testing => case FullSeen => case Asleep => case Pushed =>
    case Signalled =>
  }

  lemma SignalShape(s: State, i: nat, woken: nat)
    requires i < |s.producers| == |s.args| && s.producers[i] == Pushed && ProduceStep(s, i, woken).To?
    ensures var s' := ProduceStep(s, i, woken).state;
      && |s'.producers| == |s.producers| && s'.producers == s.producers[i := s'.producers[i]]
      && SameRest(s, s') && s'.finished == s.finished && s'.dispatched == s.dispatched
      && (if AnySleeping(s.workers)
          then woken < |s.workers| && s.workers[woken] == Sleeping && s'.workers == s.workers[woken := Notified]
          else s'.workers == s.workers)
  {
  }

  /** What only Stop changes, and what nothing does. */
  predicate SameRest(s: State, s': State) {
    && s'.cap == s.cap && s'.flag == s.flag && s'.exit == s.exit && s'.args == s.args
    && s'.stopper == s.stopper && s'.late == s.late && s'.missed == s.missed
  }

  /** What a worker's step changes: itself, and when it has popped a task, one sleeping producer. */
  lemma WorkShape(s: State, i: nat, woken: nat)
    requires i < |s.workers| && WorkStep(s, i, woken).To?
    ensures var s' := WorkStep(s, i, woken).state;
      && |s'.workers| == |s.workers| && s'.workers == s.workers[i := s'.workers[i]]
      && SameRest(s, s') && s'.accepted == s.accepted && |s'.queue| <= |s.queue|
      && (if s.workers[i].Popped? && AnyAsleep(s.producers)
          then woken < |s.producers| && s.producers[woken] == Asleep && s'.producers == s.producers[woken := Woken]
          else s'.producers == s.producers)
  {
    if s.workers[i].Popped? {
      WakeShape(s, i, woken);
    } else {
      QuietShape(s, i, woken);
      QuietRest(s, i, woken);
    }
    hide WorkStep, SameRest, AnyAsleep;
  }

  lemma QuietShape(s: State, i: nat, woken: nat)
    requires i < |s.workers| && !s.workers[i].Popped? && WorkStep(s, i, woken).To?
    ensures var s' := WorkStep(s, i, woken).state;
      |s'.workers| == |s.workers| && s'.workers == s.workers[i := s'.workers[i]] && s'.producers == s.producers
  {
    hide SignalProducer, CanSignalProducer;
    match s.workers[i]
    case AtLoop => case WantsLock => case Notified => case Checking => case EmptySeen => case Sleeping =>
    case Ready => case Popped(_) => case Holding(_) => case Nothing => case Running(_) => case Exited =>
  }

  lemma QuietRest(s: State, i: nat, woken: nat)
    requires i < |s.workers| && !s.workers[i].Popped? && WorkStep(s, i, woken).To?
    ensures var s' := WorkStep(s, i, woken).state;
      SameRest(s, s') && s'.accepted == s.accepted && |s'.queue| <= |s.queue|
  {
    hide SignalProducer, CanSignalProducer;
    match s.workers[i]
    case AtLoop => case WantsLock => case Notified => case Checking => case EmptySeen => case Sleeping =>
    case Ready => case Popped(_) => case Holding(_) => case Nothing => case Running(_) => case Exited =>
  }

  lemma WakeShape(s: State, i: nat, woken: nat)
    requires i < |s.workers| && s.workers[i].Popped? && WorkStep(s, i, woken).To?
    ensures var s' := WorkStep(s, i, woken).state;
      && |s'.workers| == |s.workers| && s'.workers == s.workers[i := s'.workers[i]]
      && SameRest(s, s') && s'.accepted == s.accepted && s'.queue == s.queue
      && (if AnyAsleep(s.producers)
          then woken < |s.producers| && s.producers[woken] == Asleep && s'.producers == s.producers[woken := Woken]
          else s'.producers == s.producers)
  {
  }

  predicate AnyEmptySeen(ws: seq<Worker>) { exists i :: 0 <= i < |ws| && ws[i] == EmptySeen }

  function Next(s: State, step: Step): Outcome
    requires |s.producers| == |s.args|
  {
    match step
    case Begin(i, t) =>
      if i < |s.producers| && s.producers[i] == Idle
      then To(s.(producers := s.producers[i := Wants], args := s.args[i := t], late := s.late || s.stopper != Off))
      else Stuck
    case Produce(i, woken) => if i < |s.producers| then ProduceStep(s, i, woken) else Stuck
    case Work(i, woken) => if i < |s.workers| then WorkStep(s, i, woken) else Stuck
    case Stop => StopStep(s)
    case SpuriousProducer(i) =>
      if i < |s.producers| && s.producers[i] == Asleep then To(s.(producers := s.producers[i := Woken])) else Stuck
    case SpuriousWorker(i) =>
      if i < |s.workers| && s.workers[i] == Sleeping then To(s.(workers := s.workers[i := Notified])) else Stuck
  }

  /** Where a whole run ends; Stuck when one of its steps cannot be taken. */
  function Exec(s: State, run: seq<Step>): Outcome
    decreases |run|
  {
    if run == [] then To(s)
    else if |s.producers| != |s.args| then Stuck
    else match Next(s, run[0]) { case Stuck => Stuck case To(s') => Exec(s', run[1..]) }
  }

  // ----- counting -----

  function Count<T(==)>(s: seq<T>, x: T): nat {
    if s == [] then 0 else (if s[0] == x then 1 else 0) + Count(s[1..], x)
  }

  lemma {:induction false} CountUpdate<T>(s: seq<T>, i: nat, v: T, x: T)
    requires i < |s|
    ensures Count(s[i := v], x) == Count(s, x) - (if s[i] == x then 1 else 0) + (if v == x then 1 else 0)
  {
    if i == 0 {
      assert s[0 := v][1..] == s[1..];
    } else {
      assert s[i := v][1..] == s[1..][i - 1 := v];
      CountUpdate(s[1..], i - 1, v, x);
    }
  }

  lemma {:induction false} CountAppend<T>(s: seq<T>, t: seq<T>, x: T)
    ensures Count(s + t, x) == Count(s, x) + Count(t, x)
  {
    if s == [] {
      assert s + t == t;
    } else {
      assert (s + t)[1..] == s[1..] + t;
      CountAppend(s[1..], t, x);
    }
  }

  lemma {:induction false} CountNone<T>(s: seq<T>, x: T)
    requires forall i :: 0 <= i < |s| ==> s[i] != x
    ensures Count(s, x) == 0
  {
    if s != [] { CountNone(s[1..], x); }
  }

  predicate Has(w: Worker, t: Task) { w.HasTask() && w.task == t }

  /** How many workers have popped, or are running, task t. */
  function Hands(ws: seq<Worker>, t: Task): nat {
    if ws == [] then 0 else (if Has(ws[0], t) then 1 else 0) + Hands(ws[1..], t)
  }

  lemma {:induction false} HandsUpdate(ws: seq<Worker>, i: nat, v: Worker, t: Task)
    requires i < |ws|
    ensures Hands(ws[i := v], t) == Hands(ws, t) - (if Has(ws[i], t) then 1 else 0) + (if Has(v, t) then 1 else 0)
  {
    if i == 0 {
      assert ws[0 := v][1..] == ws[1..];
    } else {
      assert ws[i := v][1..] == ws[1..][i - 1 := v];
      HandsUpdate(ws[1..], i - 1, v, t);
    }
  }

  lemma {:induction false} HandsSame(ws: seq<Worker>, vs: seq<Worker>, t: Task)
    requires |ws| == |vs| && forall i :: 0 <= i < |ws| ==> (Has(ws[i], t) <==> Has(vs[i], t))
    ensures Hands(ws, t) == Hands(vs, t)
  {
    if ws != [] { HandsSame(ws[1..], vs[1..], t); }
  }

  lemma {:induction false} HandsNone(ws: seq<Worker>, t: Task)
    requires forall i :: 0 <= i < |ws| ==> !Has(ws[i], t)
    ensures Hands(ws, t) == 0
  {
    if ws != [] { HandsNone(ws[1..], t); }
  }

  // ----- the invariant -----

  /** The mutex is held by exactly the thread whose program point lies inside a critical section. */
  predicate LockInv(s: State) {
    && |s.producers| == |s.args|
    && (forall i :: 0 <= i < |s.producers| ==> (s.producers[i].Holds() <==> s.lock == P(i)))
    && (forall i :: 0 <= i < |s.workers| ==> (s.workers[i].Holds() <==> s.lock == W(i)))
    && (s.lock.P? ==> s.lock.i < |s.producers|)
    && (s.lock.W? ==> s.lock.i < |s.workers|)
  }

  /** Nothing is lost or reordered, and what a thread has tested still holds while it has the mutex. */
  predicate QueueInv(s: State) {
    && |s.queue| <= s.cap
    && s.accepted == s.dispatched + s.queue
    && (forall i :: 0 <= i < |s.workers| && s.workers[i] == EmptySeen ==> s.queue == [])
    && (forall i :: 0 <= i < |s.workers| && s.workers[i] == Ready && s.flag ==> s.queue != [])
    && (forall i :: 0 <= i < |s.producers| && s.producers[i] == FullSeen ==> |s.queue| == s.cap)
  }

  /** A wake-up that is owed but does not show in the count of notified workers. */
  function WorkerCredit(s: State): nat {
    match s.lock
    case W(i) => if i < |s.workers| && (s.workers[i] == Checking || s.workers[i] == Ready) then 1 else 0
    case P(i) => if i < |s.producers| && s.producers[i] == Pushed then 1 else 0
    case Free => 0
  }

  function ProducerCredit(s: State): nat {
    match s.lock
    case P(i) => if i < |s.producers| && s.producers[i] == Testing then 1 else 0
    case W(i) => if i < |s.workers| && s.workers[i].Popped? then 1 else 0
    case Free => 0
  }

  predicate WakeInv(s: State) {
    && (s.flag && AnySleeping(s.workers) ==> |s.queue| <= Count(s.workers, Notified) + WorkerCredit(s))
    && (AnyAsleep(s.producers) ==> s.cap - |s.queue| <= Count(s.producers, Woken) + ProducerCredit(s))
  }

  predicate StopInv(s: State) {
    && (s.exit <==> !(s.stopper.Off? || s.stopper.Polling? || s.stopper.SawEmpty?))
    && (s.flag <==> !(s.stopper.FlagDown? || s.stopper.Broadcast()))
    && (forall i :: 0 <= i < |s.workers| && s.workers[i] == Exited ==> s.exit)
    && (!s.late && !s.stopper.Off? ==> AllIdle(s))
    && (!s.late && !s.stopper.Off? && !s.stopper.Polling? ==> s.queue == [])
    && (s.stopper.Off? ==> !s.late)
    && (s.stopper.Broadcast() && !s.missed ==> !AnyEmptySeen(s.workers) && !AnySleeping(s.workers))
    && (s.stopper.Joining? ==> forall i :: 0 <= i < s.stopper.joined && i < |s.workers| ==> s.workers[i] == Exited)
    && (s.stopper.Stopped? ==> forall i :: 0 <= i < |s.workers| ==> s.workers[i] == Exited)
  }

  predicate Inv(s: State) { LockInv(s) && QueueInv(s) && WakeInv(s) && StopInv(s) }

  // ----- every step keeps the invariant, one lemma per kind of action -----

  lemma ProducerLocks(s: State, i: nat)
    requires Inv(s) && i < |s.producers| && (s.producers[i] == Wants || s.producers[i] == Woken) && s.lock == Free
    ensures Inv(s.(lock := P(i), producers := s.producers[i := Testing]))
  {
    CountUpdate(s.producers, i, Testing, Woken);
  }

  lemma ProducerSeesFull(s: State, i: nat)
    requires Inv(s) && i < |s.producers| && s.producers[i] == Testing && |s.queue| == s.cap
    ensures Inv(s.(producers := s.producers[i := FullSeen]))
  {
    CountUpdate(s.producers, i, FullSeen, Woken);
  }

  lemma ProducerPushes(s: State, i: nat)
    requires Inv(s) && i < |s.producers| && s.producers[i] == Testing && |s.queue| != s.cap
    ensures Inv(s.(queue := s.queue + [s.args[i]], accepted := s.accepted + [s.args[i]],
                   producers := s.producers[i := Pushed]))
  {
    CountUpdate(s.producers, i, Pushed, Woken);
  }

  lemma ProducerSleeps(s: State, i: nat)
    requires Inv(s) && i < |s.producers| && s.producers[i] == FullSeen
    ensures Inv(s.(lock := Free, producers := s.producers[i := Asleep]))
  {
    CountUpdate(s.producers, i, Asleep, Woken);
  }

  lemma ProducerSignals(s: State, i: nat, woken: nat)
    requires Inv(s) && i < |s.producers| && s.producers[i] == Pushed && CanSignalWorker(s.workers, woken)
    ensures Inv(s.(workers := SignalWorker(s.workers, woken), producers := s.producers[i := Signalled]))
  {
    CountUpdate(s.producers, i, Signalled, Woken);
    hide Count;
    if AnySleeping(s.workers) { CountUpdate(s.workers, woken, Notified, Notified); }
  }

  lemma ProducerLeaves(s: State, i: nat)
    requires Inv(s) && i < |s.producers| && s.producers[i] == Signalled
    ensures Inv(s.(lock := Free, producers := s.producers[i := Idle]))
  {
    CountUpdate(s.producers, i, Idle, Woken);
  }

  lemma WorkerLoops(s: State, i: nat)
    requires Inv(s) && i < |s.workers| && s.workers[i] == AtLoop
    ensures Inv(s.(workers := s.workers[i := if s.exit then Exited else WantsLock]))
  {
    CountUpdate(s.workers, i, if s.exit then Exited else WantsLock, Notified);
  }

  lemma WorkerLocks(s: State, i: nat)
    requires Inv(s) && i < |s.workers| && (s.workers[i] == WantsLock || s.workers[i] == Notified) && s.lock == Free
    ensures Inv(s.(lock := W(i), workers := s.workers[i := Checking]))
  {
    CountUpdate(s.workers, i, Checking, Notified);
  }

  lemma WorkerChecks(s: State, i: nat)
    requires Inv(s) && i < |s.workers| && s.workers[i] == Checking
    ensures Inv(s.(workers := s.workers[i := if s.flag && s.queue == [] then EmptySeen else Ready]))
  {
    CountUpdate(s.workers, i, if s.flag && s.queue == [] then EmptySeen else Ready, Notified);
  }

  lemma WorkerSleeps(s: State, i: nat)
    requires Inv(s) && i < |s.workers| && s.workers[i] == EmptySeen
    ensures Inv(s.(lock := Free, workers := s.workers[i := Sleeping]))
  {
    CountUpdate(s.workers, i, Sleeping, Notified);
  }

  lemma WorkerPops(s: State, i: nat)
    requires Inv(s) && i < |s.workers| && s.workers[i] == Ready && s.flag
    ensures s.queue != []
    ensures Inv(s.(queue := s.queue[1..], dispatched := s.dispatched + [s.queue[0]],
                   workers := s.workers[i := Popped(s.queue[0])]))
  {
    CountUpdate(s.workers, i, Popped(s.queue[0]), Notified);
  }

  lemma WorkerSignals(s: State, i: nat, woken: nat)
    requires Inv(s) && i < |s.workers| && s.workers[i].Popped? && CanSignalProducer(s.producers, woken)
    ensures Inv(s.(producers := SignalProducer(s.producers, woken),
                   workers := s.workers[i := Holding(s.workers[i].task)]))
  {
    CountUpdate(s.workers, i, Holding(s.workers[i].task), Notified);
    if AnyAsleep(s.producers) { CountUpdate(s.producers, woken, Woken, Woken); }
  }

  /** Leaving Pop with a task or with nullptr, finding the flag down, finishing a task. */
  predicate Moves(s: State, i: nat, lock: Owner, w: Worker)
    requires i < |s.workers|
  {
    || (s.workers[i] == Ready && !s.flag && lock == s.lock && w == Nothing)
    || (s.workers[i].Holding? && lock == Free && w.Running?)
    || (s.workers[i] == Nothing && lock == Free && w == AtLoop)
    || (s.workers[i].Running? && lock == s.lock && w == AtLoop)
  }

  lemma WorkerMoves(s: State, i: nat, lock: Owner, w: Worker, finished: seq<Task>)
    requires Inv(s) && i < |s.workers| && Moves(s, i, lock, w)
    ensures Inv(s.(lock := lock, finished := finished, workers := s.workers[i := w]))
  {
    MoveKeepsWake(s, i, lock, w, finished);
    hide WakeInv;
  }

  lemma MoveKeepsWake(s: State, i: nat, lock: Owner, w: Worker, finished: seq<Task>)
    requires Inv(s) && i < |s.workers| && Moves(s, i, lock, w)
    ensures WakeInv(s.(lock := lock, finished := finished, workers := s.workers[i := w]))
  {
    CountUpdate(s.workers, i, w, Notified);
    hide Count, StopInv, QueueInv;
  }

  lemma StopperPolls(s: State)
    requires Inv(s) && (s.stopper.Off? || s.stopper.Polling?)
    ensures Inv(StopStep(s).state)
  {
  }

  lemma StopperLowers(s: State)
    requires Inv(s) && (s.stopper.SawEmpty? || s.stopper.ExitSet?)
    ensures Inv(StopStep(s).state)
  {
  }

  lemma StopperJoins(s: State)
    requires Inv(s) && StopStep(s).To? && s.stopper.Joining?
    ensures Inv(StopStep(s).state)
  {
    OnlyStopper(s, StopStep(s).state.stopper);
    hide LockInv, QueueInv, WakeInv;
  }

  lemma OnlyStopper(s: State, stopper: Stopper)
    requires LockInv(s) && QueueInv(s) && WakeInv(s)
    ensures var s' := s.(stopper := stopper); LockInv(s') && QueueInv(s') && WakeInv(s')
  {
  }

  lemma StopperBroadcasts(s: State)
    requires Inv(s) && s.stopper.FlagDown?
    ensures Inv(s.(workers := WakeAll(s.workers), missed := AnyEmptySeen(s.workers), stopper := Joining(0)))
  {
    hide Count;
  }

  lemma ProducerBegins(s: State, i: nat, t: Task)
    requires Inv(s) && i < |s.producers| && s.producers[i] == Idle
    ensures Inv(s.(producers := s.producers[i := Wants], args := s.args[i := t], late := s.late || s.stopper != Off))
  {
    CountUpdate(s.producers, i, Wants, Woken);
  }

  lemma ProducerWakes(s: State, i: nat)
    requires Inv(s) && i < |s.producers| && s.producers[i] == Asleep
    ensures Inv(s.(producers := s.producers[i := Woken]))
  {
    CountUpdate(s.producers, i, Woken, Woken);
  }

  lemma WorkerWakes(s: State, i: nat)
    requires Inv(s) && i < |s.workers| && s.workers[i] == Sleeping
    ensures Inv(s.(workers := s.workers[i := Notified]))
  {
    CountUpdate(s.workers, i, Notified, Notified);
  }

  lemma StepKeepsInv(s: State, step: Step)
    requires Inv(s) && Next(s, step).To?
    ensures Inv(Next(s, step).state)
  {
    match step
    case Begin(i, t) => ProducerBegins(s, i, t);
    case Produce(i, woken) => ProduceKeepsInv(s, i, woken);
    case Work(i, woken) => WorkKeepsInv(s, i, woken);
    case Stop =>
      if s.stopper.FlagDown? { StopperBroadcasts(s); }
      else if s.stopper.Joining? { StopperJoins(s); }
      else if s.stopper.SawEmpty? || s.stopper.ExitSet? { StopperLowers(s); }
      else { StopperPolls(s); }
    case SpuriousProducer(i) => ProducerWakes(s, i);
    case SpuriousWorker(i) => WorkerWakes(s, i);
  }

  lemma ProduceKeepsInv(s: State, i: nat, woken: nat)
    requires Inv(s) && i < |s.producers| && ProduceStep(s, i, woken).To?
    ensures Inv(ProduceStep(s, i, woken).state)
  {
    match s.producers[i]
    case Wants => ProducerLocks(s, i);
    case Woken => ProducerLocks(s, i);
    case Testing => if |s.queue| == s.cap { ProducerSeesFull(s, i); } else { ProducerPushes(s, i); }
    case FullSeen => ProducerSleeps(s, i);
    case Pushed => ProducerSignals(s, i, woken);
    case Signalled => ProducerLeaves(s, i);
  }

  lemma WorkKeepsInv(s: State, i: nat, woken: nat)
    requires Inv(s) && i < |s.workers| && WorkStep(s, i, woken).To?
    ensures Inv(WorkStep(s, i, woken).state)
  {
    match s.workers[i]
    case AtLoop => WorkerLoops(s, i);
    case WantsLock => WorkerLocks(s, i);
    case Notified => WorkerLocks(s, i);
    case Checking => WorkerChecks(s, i);
    case EmptySeen => WorkerSleeps(s, i);
    case Ready => if s.flag { WorkerPops(s, i); } else { WorkerMoves(s, i, s.lock, Nothing, s.finished); }
    case Popped(t) => WorkerSignals(s, i, woken);
    case Holding(t) => WorkerMoves(s, i, Free, Running(t), s.finished);
    case Nothing => WorkerMoves(s, i, Free, AtLoop, s.finished);
    case Running(t) => WorkerMoves(s, i, s.lock, AtLoop, s.finished + [t]);
  }

  lemma {:induction false} RunKeepsInv(s: State, run: seq<Step>)
    requires Inv(s) && Exec(s, run).To?
    ensures Inv(Exec(s, run).state)
    decreases |run|
  {
    if run != [] {
      StepKeepsInv(s, run[0]);
      RunKeepsInv(Next(s, run[0]).state, run[1..]);
    }
  }

  // ----- exactly once -----

  /** Task t has been popped as often as it has been finished or is in some worker's hands. */
  predicate Balanced(s: State, t: Task) {
    Count(s.dispatched, t) == Count(s.finished, t) + Hands(s.workers, t)
  }

  lemma PopKeepsBalance(s: State, i: nat, t: Task)
    requires i < |s.workers| && s.workers[i] == Ready && s.queue != [] && Balanced(s, t)
    ensures Balanced(s.(queue := s.queue[1..], dispatched := s.dispatched + [s.queue[0]],
                        workers := s.workers[i := Popped(s.queue[0])]), t)
  {
    HandsUpdate(s.workers, i, Popped(s.queue[0]), t);
    CountAppend(s.dispatched, [s.queue[0]], t);
  }

  lemma FinishKeepsBalance(s: State, i: nat, t: Task)
    requires i < |s.workers| && s.workers[i].Running? && Balanced(s, t)
    ensures Balanced(s.(finished := s.finished + [s.workers[i].task], workers := s.workers[i := AtLoop]), t)
  {
    HandsUpdate(s.workers, i, AtLoop, t);
    CountAppend(s.finished, [s.workers[i].task], t);
  }

  /** A step that pops and finishes nothing keeps the balance when it leaves every worker's hands as they were. */
  lemma SameHandsKeepBalance(s: State, s': State, t: Task)
    requires Balanced(s, t) && SameHands(s, s', t)
    ensures Balanced(s', t)
  {
    HandsSame(s.workers, s'.workers, t);
  }

  predicate SameHands(s: State, s': State, t: Task) {
    && s'.dispatched == s.dispatched && s'.finished == s.finished && |s'.workers| == |s.workers|
    && forall i :: 0 <= i < |s.workers| ==> (Has(s.workers[i], t) <==> Has(s'.workers[i], t))
  }

  lemma ProduceKeepsHands(s: State, i: nat, woken: nat, t: Task)
    requires i < |s.producers| == |s.args| && ProduceStep(s, i, woken).To?
    ensures SameHands(s, ProduceStep(s, i, woken).state, t)
  {
    ProduceShape(s, i, woken);
    hide ProduceStep, AnySleeping;
  }

  lemma WorkKeepsHands(s: State, i: nat, woken: nat, t: Task)
    requires i < |s.workers| && WorkStep(s, i, woken).To?
    requires !(s.workers[i] == Ready && s.flag) && !s.workers[i].Running?
    ensures SameHands(s, WorkStep(s, i, woken).state, t)
  {
    hide SignalProducer, CanSignalProducer;
    match s.workers[i]
    case AtLoop => case WantsLock => case Notified => case Checking => case EmptySeen => case Sleeping =>
    case Ready => case Popped(_) => case Holding(_) => case Nothing => case Running(_) => case Exited =>
  }

  lemma StepKeepsHands(s: State, step: Step, t: Task)
    requires |s.producers| == |s.args| && Next(s, step).To?
    requires step.Work? ==> !(s.workers[step.i] == Ready && s.flag) && !s.workers[step.i].Running?
    ensures SameHands(s, Next(s, step).state, t)
  {
    hide WorkStep, ProduceStep;
    match step
    case Work(i, woken) => WorkKeepsHands(s, i, woken, t);
    case Produce(i, woken) => ProduceKeepsHands(s, i, woken, t);
    case Stop => StopKeepsHands(s, t);
    case Begin(_, _) => case SpuriousProducer(_) => case SpuriousWorker(_) =>
  }

  lemma StopKeepsHands(s: State, t: Task)
    requires StopStep(s).To?
    ensures SameHands(s, StopStep(s).state, t)
  {
    match s.stopper
    case Off => case Polling => case SawEmpty => case ExitSet => case FlagDown => case Joining(_) => case Stopped =>
  }

  lemma StepKeepsBalance(s: State, step: Step, t: Task)
    requires |s.producers| == |s.args| && Next(s, step).To? && Balanced(s, t)
    ensures Balanced(Next(s, step).state, t)
  {
    if step.Work? && s.workers[step.i] == Ready && s.flag {
      PopKeepsBalance(s, step.i, t);
    } else if step.Work? && s.workers[step.i].Running? {
      FinishKeepsBalance(s, step.i, t);
    } else {
      StepKeepsHands(s, step, t);
      SameHandsKeepBalance(s, Next(s, step).state, t);
    }
  }

  lemma {:induction false} RunKeepsBalance(s: State, run: seq<Step>, t: Task)
    requires Exec(s, run).To? && Balanced(s, t)
    ensures Balanced(Exec(s, run).state, t)
    decreases |run|
  {
    if run != [] {
      StepKeepsBalance(s, run[0], t);
      RunKeepsBalance(Next(s, run[0]).state, run[1..], t);
    }
  }

  // ----- what holds of every run -----

  /** s is where some run of the program from its start ends. */
  ghost predicate Reached(s: State, cap: nat, producers: nat, workers: nat, run: seq<Step>) {
    Exec(Init(cap, producers, workers), run) == To(s)
  }

  lemma ReachedInv(s: State, cap: nat, producers: nat, workers: nat, run: seq<Step>)
    requires Reached(s, cap, producers, workers, run)
    ensures Inv(s)
  {
    RunKeepsInv(Init(cap, producers, workers), run);
  }

  /** No lost wake-up. While the flag is up, a worker sleeps on _not_empty only if every queued task has a
      notified worker on its way, or a wake-up still owed by the mutex holder; dually for producers. So nobody
      sleeps beside work with no one on the way to do it. */
  lemma NoLostWakeup(s: State, cap: nat, producers: nat, workers: nat, run: seq<Step>)
    requires Reached(s, cap, producers, workers, run)
    ensures s.flag && s.lock == Free && AnySleeping(s.workers) ==> |s.queue| <= Count(s.workers, Notified)
    ensures s.lock == Free && AnyAsleep(s.producers) ==> s.cap - |s.queue| <= Count(s.producers, Woken)
    ensures s.flag && |s.workers| > 0 && (forall i :: 0 <= i < |s.workers| ==> s.workers[i] == Sleeping)
      ==> |s.queue| <= (if s.lock != Free then 1 else 0)
    ensures s.flag && s.queue != [] && s.lock == Free && |s.workers| > 0
      ==> exists i :: 0 <= i < |s.workers| && s.workers[i] != Sleeping
  {
    ReachedInv(s, cap, producers, workers, run);
    if forall i :: 0 <= i < |s.workers| ==> s.workers[i] == Sleeping {
      CountNone(s.workers, Notified);
      if |s.workers| > 0 { assert s.workers[0] == Sleeping; }
    }
  }

  /** A step of the program itself: no new call of AddTask, no wake-up out of nowhere, not the stopper. */
  predicate Internal(step: Step) { step.Produce? || step.Work? }

  predicate Drained(s: State) {
    && s.queue == [] && AllIdle(s)
    && (forall i :: 0 <= i < |s.workers| ==> s.workers[i] == Sleeping)
  }

  lemma MutexHolderCanStep(s: State) returns (step: Step)
    requires Inv(s) && s.lock != Free
    ensures Internal(step) && Next(s, step).To?
    ensures s.lock.P? ==> step.Produce? && step.i == s.lock.i
    ensures s.lock.W? ==> step.Work? && step.i == s.lock.i
  {
    match s.lock
    case P(i) =>
      var k: nat := 0;
      if AnySleeping(s.workers) { k :| 0 <= k < |s.workers| && s.workers[k] == Sleeping; }
      step := Produce(i, k);
    case W(i) =>
      var k: nat := 0;
      if AnyAsleep(s.producers) { k :| 0 <= k < |s.producers| && s.producers[k] == Asleep; }
      step := Work(i, k);
  }

  /** No deadlock. With room for a task and a worker, until Stop has seen the queue empty and sets its flag, either the
      program can take a step of its own or there is nothing left to do: no task queued, no call of AddTask under
      way. */
  lemma NoDeadlock(s: State, cap: nat, producers: nat, workers: nat, run: seq<Step>)
    requires Reached(s, cap, producers, workers, run) && |s.workers| > 0 && s.cap > 0 && !s.exit
    ensures |s.producers| == |s.args| && ((exists step :: Internal(step) && Next(s, step).To?) || Drained(s))
  {
    ReachedInv(s, cap, producers, workers, run);
    CanAct(s);
  }

  lemma CanAct(s: State)
    requires Inv(s) && |s.workers| > 0 && s.cap > 0 && !s.exit
    ensures (exists step :: Internal(step) && Next(s, step).To?) || Drained(s)
  {
    if s.lock != Free {
      var step := MutexHolderCanStep(s);
    } else if i :| 0 <= i < |s.workers| && s.workers[i] != Sleeping {
      assert Next(s, Work(i, 0)).To?;
    } else if i :| 0 <= i < |s.producers| && (s.producers[i] == Wants || s.producers[i] == Woken) {
      assert Next(s, Produce(i, 0)).To?;
    } else {
      CountNone(s.workers, Notified);
      CountNone(s.producers, Woken);
      assert s.workers[0] == Sleeping;
    }
  }

  /** Every accepted task is popped once, in the order of acceptance, the queue never overflows, and what is
      accepted is, task by task, finished, in a worker's hands, or still queued. */
  lemma ExactlyOnceInOrder(s: State, cap: nat, producers: nat, workers: nat, run: seq<Step>, t: Task)
    requires Reached(s, cap, producers, workers, run)
    ensures s.accepted == s.dispatched + s.queue && |s.queue| <= s.cap
    ensures Count(s.accepted, t) == Count(s.finished, t) + Hands(s.workers, t) + Count(s.queue, t)
  {
    ReachedInv(s, cap, producers, workers, run);
    var s0 := Init(cap, producers, workers);
    HandsNone(s0.workers, t);
    RunKeepsBalance(s0, run, t);
    CountAppend(s.dispatched, s.queue, t);
  }

  /** Pop never takes the front of an empty queue. */
  lemma PopFindsATask(s: State, cap: nat, producers: nat, workers: nat, run: seq<Step>, i: nat, woken: nat)
    requires Reached(s, cap, producers, workers, run)
    requires i < |s.workers| && s.workers[i] == Ready
    ensures WorkStep(s, i, woken).To?
    ensures WorkStep(s, i, woken).state.workers[i] == if s.flag then Popped(s.queue[0]) else Nothing
  {
    ReachedInv(s, cap, producers, workers, run);
  }

  // ----- shutdown -----

  /** When Stop has returned, every worker has exited, and each accepted task has been finished or is left in the
      queue. All are finished exactly when the queue is empty; that is so whenever no call of AddTask was under
      way when Stop began and none was made later. */
  lemma CleanShutdown(s: State, cap: nat, producers: nat, workers: nat, run: seq<Step>, t: Task)
    requires Reached(s, cap, producers, workers, run) && s.stopper.Stopped?
    ensures forall i :: 0 <= i < |s.workers| ==> s.workers[i] == Exited
    ensures Count(s.accepted, t) == Count(s.finished, t) + Count(s.queue, t)
    ensures !s.late ==> s.queue == [] && s.dispatched == s.accepted && Count(s.finished, t) == Count(s.accepted, t)
  {
    ReachedInv(s, cap, producers, workers, run);
    ExactlyOnceInOrder(s, cap, producers, workers, run, t);
    HandsNone(s.workers, t);
  }

  lemma {:induction false} ExecAppend(s: State, first: seq<Step>, second: seq<Step>)
    requires Exec(s, first).To?
    ensures Exec(s, first + second) == Exec(Exec(s, first).state, second)
    decreases |first|
  {
    if first == [] {
      assert first + second == second;
    } else {
      assert (first + second)[1..] == first[1..] + second;
      ExecAppend(Next(s, first[0]).state, first[1..], second);
    }
  }

  lemma ExecStep(s: State, run: seq<Step>, s': State)
    requires run != [] && |s.producers| == |s.args| && Next(s, run[0]) == To(s')
    ensures Exec(s, run) == Exec(s', run[1..])
  {
  }

  /** Wakeup does not take the mutex, so it can run while a worker is between its test and its Wait. It reaches
      every worker exactly when none is there: then no worker sleeps from now on. */
  lemma BroadcastReachesAll(s: State, cap: nat, producers: nat, workers: nat, run: seq<Step>)
    requires Reached(s, cap, producers, workers, run) && s.stopper.Broadcast() && !s.missed
    ensures !AnySleeping(s.workers) && !AnyEmptySeen(s.workers)
  {
    ReachedInv(s, cap, producers, workers, run);
  }

  predicate NotSpurious(step: Step) { !step.SpuriousWorker? }

  /** Worker i is asleep, or about to be, and Wakeup has already run. */
  predicate Stranded(s: State, i: nat) {
    && i < |s.workers| && (s.workers[i] == EmptySeen || s.workers[i] == Sleeping)
    && s.stopper.Joining? && AllIdle(s)
  }

  lemma {:induction false} StrandedForGood(s: State, run: seq<Step>, i: nat)
    requires Stranded(s, i) && Inv(s) && Exec(s, run).To?
    requires forall k :: 0 <= k < |run| ==> NotSpurious(run[k]) && !run[k].Begin?
    ensures Stranded(Exec(s, run).state, i)
    decreases |run|
  {
    if run != [] {
      StepKeepsInv(s, run[0]);
      StrandedStep(s, run[0], i);
      StrandedForGood(Next(s, run[0]).state, run[1..], i);
    }
  }

  lemma StrandedStep(s: State, step: Step, i: nat)
    requires Stranded(s, i) && Inv(s) && Next(s, step).To? && NotSpurious(step) && !step.Begin?
    ensures Stranded(Next(s, step).state, i)
  {
  }

  /** If a worker is in that window when NotifyAll runs, and no more tasks come, Stop never returns unless the
      worker wakes for no reason: in every continuation the worker has not exited and Stop has not returned. */
  lemma MissedWorkerHangsStop(s: State, cap: nat, producers: nat, workers: nat, run: seq<Step>, i: nat, more: seq<Step>)
    requires Reached(s, cap, producers, workers, run) && s.stopper.FlagDown? && AllIdle(s)
    requires i < |s.workers| && s.workers[i] == EmptySeen
    requires Exec(s, [Stop] + more).To?
    requires forall k :: 0 <= k < |more| ==> NotSpurious(more[k]) && !more[k].Begin?
    ensures var e := Exec(s, [Stop] + more).state; !e.stopper.Stopped? && i < |e.workers| && e.workers[i] != Exited
  {
    ReachedInv(s, cap, producers, workers, run);
    StepKeepsInv(s, Stop);
    assert ([Stop] + more)[1..] == more;
    StrandedForGood(StopStep(s).state, more, i);
  }

  /** How many actions a worker has left before it exits once Wakeup has run. */
  function ToExit(w: Worker): nat {
    match w
    case WantsLock => 5 case Notified => 5 case Checking => 4 case Ready => 3 case Nothing => 2
    case Popped(_) => 4 case Holding(_) => 3 case Running(_) => 2
    case AtLoop => 1 case Exited => 0
    case EmptySeen => 7 case Sleeping => 6
  }

  function TotalToExit(ws: seq<Worker>): nat { if ws == [] then 0 else ToExit(ws[0]) + TotalToExit(ws[1..]) }

  lemma {:induction false} TotalUpdate(ws: seq<Worker>, i: nat, v: Worker)
    requires i < |ws|
    ensures TotalToExit(ws[i := v]) == TotalToExit(ws) - ToExit(ws[i]) + ToExit(v)
  {
    if i == 0 {
      assert ws[0 := v][1..] == ws[1..];
    } else {
      assert ws[i := v][1..] == ws[1..][i - 1 := v];
      TotalUpdate(ws[1..], i - 1, v);
    }
  }

  /** Stop returns: once Wakeup has reached every worker, each worker action brings the pool strictly closer to all
      workers having exited, and with nobody in AddTask some worker can always act until they have. */
  lemma ShutdownProgress(s: State, cap: nat, producers: nat, workers: nat, run: seq<Step>, i: nat, woken: nat)
    requires Reached(s, cap, producers, workers, run) && s.stopper.Broadcast() && !s.missed
    ensures i < |s.workers| && WorkStep(s, i, woken).To?
      ==> TotalToExit(WorkStep(s, i, woken).state.workers) < TotalToExit(s.workers)
    ensures AllIdle(s) && (exists j :: 0 <= j < |s.workers| && s.workers[j] != Exited)
      ==> exists j :: 0 <= j < |s.workers| && WorkStep(s, j, 0).To?
    ensures |s.producers| == |s.args|
    ensures (exists j :: 0 <= j < |s.workers| && s.workers[j] != Exited)
      ==> exists step :: Internal(step) && Next(s, step).To?
  {
    ReachedInv(s, cap, producers, workers, run);
    if j :| 0 <= j < |s.workers| && s.workers[j] != Exited { SomeThreadCanAct(s, j); }
    if i < |s.workers| && WorkStep(s, i, woken).To? {
      WorkNearsExit(s, i, woken);
    }
    if AllIdle(s) && exists j :: 0 <= j < |s.workers| && s.workers[j] != Exited {
      SomeWorkerCanAct(s);
    }
  }

  lemma WorkNearsExit(s: State, i: nat, woken: nat)
    requires i < |s.workers| && WorkStep(s, i, woken).To? && s.exit && !s.flag
    ensures TotalToExit(WorkStep(s, i, woken).state.workers) < TotalToExit(s.workers)
  {
    var w := WorkStep(s, i, woken).state.workers[i];
    WorkShape(s, i, woken);
    WorkerNearsExit(s, i, woken);
    hide WorkStep, ToExit;
    TotalUpdate(s.workers, i, w);
  }

  lemma WorkerNearsExit(s: State, i: nat, woken: nat)
    requires i < |s.workers| && WorkStep(s, i, woken).To? && s.exit && !s.flag
    ensures |WorkStep(s, i, woken).state.workers| == |s.workers|
    ensures ToExit(WorkStep(s, i, woken).state.workers[i]) < ToExit(s.workers[i])
  {
    hide SignalProducer, CanSignalProducer;
    match s.workers[i]
    case AtLoop => case WantsLock => case Notified => case Checking => case EmptySeen => case Sleeping =>
    case Ready => case Popped(_) => case Holding(_) => case Nothing => case Running(_) => case Exited =>
  }

  lemma SomeThreadCanAct(s: State, j: nat)
    requires Inv(s) && s.stopper.Broadcast() && !s.missed && j < |s.workers| && s.workers[j] != Exited
    ensures exists step :: Internal(step) && Next(s, step).To?
  {
    if s.lock != Free {
      var step := MutexHolderCanStep(s);
    } else {
      assert WorkStep(s, j, 0).To? && Next(s, Work(j, 0)).To?;
    }
  }

  lemma SomeWorkerCanAct(s: State)
    requires Inv(s) && s.stopper.Broadcast() && !s.missed && AllIdle(s)
    requires exists j :: 0 <= j < |s.workers| && s.workers[j] != Exited
    ensures exists j :: 0 <= j < |s.workers| && WorkStep(s, j, 0).To?
  {
    var j :| 0 <= j < |s.workers| && s.workers[j] != Exited;
    match s.lock
    case W(i) => assert WorkStep(s, i, 0).To?;
    case P(i) => assert false;
    case Free => assert WorkStep(s, j, 0).To?;
  }
}
