/** What Stop loses and when: the tasks that are left in the queue, and the calls of AddTask that put them there. */
module Shutdown {
  import opened TaskQueue

  // ----- runs put together -----

  /** No new call of AddTask. */
  predicate NoCalls(run: seq<Step>) { forall k :: 0 <= k < |run| ==> !run[k].Begin? }

  /** The run leads from s to e without a new call of AddTask. */
  ghost predicate Leads(s: State, run: seq<Step>, e: State) { Exec(s, run) == To(e) && NoCalls(run) }

  lemma FirstStep(s: State, step: Step, s': State, run: seq<Step>, e: State)
    requires |s.producers| == |s.args| && !step.Begin? && Next(s, step) == To(s') && Leads(s', run, e)
    ensures Leads(s, [step] + run, e)
  {
    assert ([step] + run)[1..] == run;
    ExecStep(s, [step] + run, s');
  }

  lemma Join(s: State, first: seq<Step>, m: State, second: seq<Step>, e: State)
    requires Leads(s, first, m) && Leads(m, second, e)
    ensures Leads(s, first + second, e)
  {
    ExecAppend(s, first, second);
  }

  // ----- once the flag is down -----

  /** Nothing is popped any more: the queue only grows, by what is accepted. */
  ghost predicate OnlyGrows(s: State, e: State) {
    && e.dispatched == s.dispatched && !e.flag && |e.producers| == |e.args|
    && s.accepted <= e.accepted && e.queue == s.queue + e.accepted[|s.accepted|..]
  }

  lemma ProduceOnlyGrows(s: State, i: nat, woken: nat)
    requires i < |s.producers| == |s.args| && !s.flag && ProduceStep(s, i, woken).To?
    ensures OnlyGrows(s, ProduceStep(s, i, woken).state)
  {
  }

  lemma WorkOnlyGrows(s: State, i: nat, woken: nat)
    requires i < |s.workers| && |s.producers| == |s.args| && !s.flag && WorkStep(s, i, woken).To?
    ensures OnlyGrows(s, WorkStep(s, i, woken).state)
  {
  }

  lemma StepOnlyGrows(s: State, step: Step)
    requires |s.producers| == |s.args| && !s.flag && Next(s, step).To?
    ensures OnlyGrows(s, Next(s, step).state)
  {
    if step.Produce? {
      ProduceOnlyGrows(s, step.i, step.woken);
    } else if step.Work? {
      WorkOnlyGrows(s, step.i, step.woken);
    }
    hide ProduceStep, WorkStep;
  }

  lemma GrowsOn(s: State, m: State, e: State)
    requires OnlyGrows(s, m) && OnlyGrows(m, e)
    ensures OnlyGrows(s, e)
  {
    var a, b, c := s.accepted, m.accepted, e.accepted;
    assert c[|a|..] == b[|a|..] + c[|b|..];
  }

  lemma {:induction false} NoPopAfterFlag(s: State, run: seq<Step>)
    requires |s.producers| == |s.args| && !s.flag && Exec(s, run).To?
    ensures OnlyGrows(s, Exec(s, run).state)
    decreases |run|
  {
    if run != [] {
      var m := Next(s, run[0]).state;
      StepOnlyGrows(s, run[0]);
      NoPopAfterFlag(m, run[1..]);
      GrowsOn(s, m, Exec(s, run).state);
    }
  }

  /** The step of a run at which the flag falls. */
  lemma {:induction false} FlagFalls(s: State, run: seq<Step>) returns (k: nat, f: State)
    requires s.flag && Exec(s, run).To? && !Exec(s, run).state.flag
    ensures k < |run| && Exec(s, run[..k]) == To(f) && f.flag && |f.producers| == |f.args|
    ensures Next(f, run[k]).To? && !Next(f, run[k]).state.flag
    ensures Exec(Next(f, run[k]).state, run[k + 1..]) == Exec(s, run)
    decreases |run|
  {
    var m := Next(s, run[0]).state;
    if !m.flag {
      k, f := 0, s;
      assert run[..0] == [];
    } else {
      k, f := FlagFalls(m, run[1..]);
      k := k + 1;
      assert run[..k][1..] == run[1..][..k - 1] && run[1..][k - 1] == run[k] && run[1..][k..] == run[k + 1..];
      ExecStep(s, run[..k], m);
    }
  }

  lemma FallChangesNothingElse(f: State, step: Step)
    requires |f.producers| == |f.args| && f.flag && Next(f, step).To? && !Next(f, step).state.flag
    ensures step == Stop && Next(f, step).state == f.(flag := false, stopper := FlagDown)
  {
  }

  /** The tasks lost when Stop has returned, those left in the queue, are exactly the ones queued when Wakeup lowered
      the flag and the ones accepted afterwards. */
  lemma LostTasks(s: State, cap: nat, producers: nat, workers: nat, run: seq<Step>) returns (k: nat, f: State)
    requires Reached(s, cap, producers, workers, run) && s.stopper.Stopped?
    ensures k < |run| && Reached(f, cap, producers, workers, run[..k]) && f.flag && run[k] == Stop
    ensures s.dispatched == f.dispatched && f.accepted <= s.accepted
    ensures s.queue == f.queue + s.accepted[|f.accepted|..]
    ensures forall t :: Count(s.accepted, t) == Count(s.finished, t) + Count(s.queue, t)
  {
    FlagIsDown(s, cap, producers, workers, run);
    NoneElseLost(s, cap, producers, workers, run);
    k, f := FlagFalls(Init(cap, producers, workers), run);
    FallChangesNothingElse(f, run[k]);
    hide Exec, Count, Next;
    NoPopAfterFlag(f.(flag := false, stopper := FlagDown), run[k + 1..]);
  }

  lemma FlagIsDown(s: State, cap: nat, producers: nat, workers: nat, run: seq<Step>)
    requires Reached(s, cap, producers, workers, run) && s.stopper.Stopped?
    ensures !s.flag
  {
    ReachedInv(s, cap, producers, workers, run);
  }

  lemma NoneElseLost(s: State, cap: nat, producers: nat, workers: nat, run: seq<Step>)
    requires Reached(s, cap, producers, workers, run) && s.stopper.Stopped?
    ensures forall t :: Count(s.accepted, t) == Count(s.finished, t) + Count(s.queue, t)
  {
    forall t ensures Count(s.accepted, t) == Count(s.finished, t) + Count(s.queue, t) {
      CleanShutdown(s, cap, producers, workers, run, t);
    }
  }

  predicate AllExited(s: State) { forall i :: 0 <= i < |s.workers| ==> s.workers[i] == Exited }

  /** And they are lost for good: whatever happens after Stop has returned, no task is finished, and none leaves the
      queue. */
  lemma {:induction false} LostForGood(s: State, run: seq<Step>)
    requires |s.producers| == |s.args| && AllExited(s) && !s.flag && Exec(s, run).To?
    ensures var e := Exec(s, run).state; e.finished == s.finished && s.queue <= e.queue
    decreases |run|
  {
    if run != [] {
      var m := Next(s, run[0]).state;
      StepOnlyGrows(s, run[0]);
      ExitedStay(s, run[0]);
      LostForGood(m, run[1..]);
    }
  }

  lemma ExitedStay(s: State, step: Step)
    requires |s.producers| == |s.args| && AllExited(s) && Next(s, step).To?
    ensures AllExited(Next(s, step).state) && Next(s, step).state.finished == s.finished
  {
    forall i: nat, woken: nat | i < |s.workers| ensures WorkStep(s, i, woken).Stuck? { ExitedIsStuck(s, i, woken); }
    hide WorkStep, ProduceStep;
    match step
    case Produce(i, woken) => ProduceShape(s, i, woken);
    case Stop => StopKeepsExited(s);
    case Work(_, _) => case Begin(_, _) => case SpuriousProducer(_) => case SpuriousWorker(_) =>
  }

  lemma StopKeepsExited(s: State)
    requires AllExited(s) && StopStep(s).To?
    ensures AllExited(StopStep(s).state) && StopStep(s).state.finished == s.finished
  {
  }

  lemma ExitedIsStuck(s: State, i: nat, woken: nat)
    requires i < |s.workers| && s.workers[i] == Exited
    ensures WorkStep(s, i, woken).Stuck?
  {
  }

  // ----- when Stop is safe -----

  /** A call of AddTask that has not appended its task yet. */
  predicate BeforePush(p: Producer) { p == Wants || p == Testing || p == FullSeen || p == Asleep || p == Woken }

  /** Some call of AddTask is under way and may append its task after Stop has seen the queue empty. The one that has
      the mutex, room, and tasks in front of its own cannot: it appends before the queue can be emptied. */
  predicate AtRisk(s: State) {
    exists i :: 0 <= i < |s.producers| && BeforePush(s.producers[i]) &&
      !(s.producers[i] == Testing && 0 < |s.queue| < s.cap)
  }

  predicate StillPolls(s: State) { s.stopper.Off? || s.stopper.Polling? }

  predicate Harmless(s: State) {
    && (forall i :: 0 <= i < |s.producers| && BeforePush(s.producers[i]) ==>
          s.producers[i] == Testing && 0 < |s.queue| < s.cap && StillPolls(s))
    && (!StillPolls(s) ==> s.queue == [])
  }

  lemma ProduceKeepsHarmless(s: State, i: nat, woken: nat)
    requires LockInv(s) && Harmless(s) && i < |s.producers| && ProduceStep(s, i, woken).To?
    ensures Harmless(ProduceStep(s, i, woken).state)
  {
    if BeforePush(s.producers[i]) {
      assert forall j :: 0 <= j < |s.producers| && j != i ==> !BeforePush(s.producers[j]);
    }
  }

  lemma OutsideKeepsHarmless(s: State, i: nat, woken: nat)
    requires Harmless(s) && i < |s.workers| && !s.workers[i].Holds() && WorkStep(s, i, woken).To?
    ensures Harmless(WorkStep(s, i, woken).state)
  {
  }

  lemma WorkKeepsHarmless(s: State, i: nat, woken: nat)
    requires LockInv(s) && Harmless(s) && i < |s.workers| && WorkStep(s, i, woken).To?
    ensures Harmless(WorkStep(s, i, woken).state)
  {
    if s.workers[i].Holds() {
      NoneBeforePush(s, i);
      WorkShape(s, i, woken);
      hide LockInv, WorkStep;
    } else {
      OutsideKeepsHarmless(s, i, woken);
      hide WorkStep, Harmless;
    }
  }

  lemma NoneBeforePush(s: State, i: nat)
    requires LockInv(s) && Harmless(s) && i < |s.workers| && s.workers[i].Holds()
    ensures !AnyAsleep(s.producers) && forall j :: 0 <= j < |s.producers| ==> !BeforePush(s.producers[j])
  {
  }

  lemma StopKeepsHarmless(s: State)
    requires Harmless(s) && StopStep(s).To?
    ensures Harmless(StopStep(s).state)
  {
  }

  lemma StepKeepsHarmless(s: State, step: Step)
    requires LockInv(s) && Harmless(s) && !step.Begin? && Next(s, step).To?
    ensures Harmless(Next(s, step).state)
  {
    match step
    case Produce(i, woken) => ProduceKeepsHarmless(s, i, woken);
    case Work(i, woken) => WorkKeepsHarmless(s, i, woken);
    case Stop => StopKeepsHarmless(s);
    case SpuriousProducer(i) =>
    case SpuriousWorker(i) =>
  }

  lemma {:induction false} RunKeepsHarmless(s: State, run: seq<Step>)
    requires Inv(s) && Harmless(s) && NoCalls(run) && Exec(s, run).To?
    ensures Harmless(Exec(s, run).state)
    decreases |run|
  {
    if run != [] {
      StepKeepsInv(s, run[0]);
      StepKeepsHarmless(s, run[0]);
      RunKeepsHarmless(Next(s, run[0]).state, run[1..]);
    }
  }

  lemma SafeStop(s: State, run: seq<Step>, e: State)
    requires Inv(s) && s.stopper.Off? && !AtRisk(s) && Leads(s, run, e) && e.stopper.Stopped?
    ensures e.queue == []
  {
    assert Harmless(s);
    RunKeepsHarmless(s, run);
  }

  // ----- a run in which Stop loses a task -----

  /** The producer is before its push and outside the critical section. */
  predicate Awaits(p: Producer) { p == Wants || p == Asleep || p == Woken }

  /** Producer p, if it was before its push, still is, with the same task. */
  predicate StillWaits(s: State, e: State, p: nat) {
    && |e.producers| == |s.producers| == |s.args| && e.args == s.args
    && (p < |s.producers| && Awaits(s.producers[p]) ==> Awaits(e.producers[p]))
  }

  /** Everything but the producers, the workers, the mutex and the queue is as it was, and producer p waits. */
  predicate Kept(s: State, e: State, p: nat) {
    && e.cap == s.cap && e.flag == s.flag && e.exit == s.exit && e.stopper == s.stopper
    && |e.workers| == |s.workers| && p < |s.producers| && StillWaits(s, e, p)
  }

  /** How many actions the holder of the mutex still has inside. */
  function Inside(s: State): nat {
    match s.lock
    case Free => 0
    case P(i) =>
      if i >= |s.producers| then 0 else
        (match s.producers[i] case Testing => 4 case FullSeen => 1 case Pushed => 2 case Signalled => 1 case _ => 0)
    case W(i) =>
      if i >= |s.workers| then 0 else
        (match s.workers[i]
         case Checking => 5 case EmptySeen => 1 case Ready => 4 case Popped(_) => 2
         case Holding(_) => 1 case Nothing => 1
         case _ => 0)
  }

  /** The holder of the mutex takes a step; producer p does not hold it. */
  lemma HolderSteps(s: State, p: nat) returns (step: Step, s': State)
    requires Inv(s) && s.lock != Free && p < |s.producers| && Awaits(s.producers[p])
    ensures Internal(step) && Next(s, step) == To(s') && Inv(s') && Kept(s, s', p) && Inside(s') < Inside(s)
    ensures s.lock.W? ==> |s'.queue| <= |s.queue|
  {
    hide WakeInv, QueueInv, StopInv, Kept, Inside, WorkStep, ProduceStep;
    step := MutexHolderCanStep(s);
    s' := Next(s, step).state;
    StepKeepsInv(s, step);
    if s.lock.P? { ProducerNears(s, step.i, step.woken, p); } else { WorkerNears(s, step.i, step.woken, p); }
  }

  lemma ProducerKeeps(s: State, i: nat, woken: nat, p: nat)
    requires LockInv(s) && s.lock == P(i) && p < |s.producers| && Awaits(s.producers[p]) && ProduceStep(s, i, woken).To?
    ensures Kept(s, ProduceStep(s, i, woken).state, p)
  {
    ProduceShape(s, i, woken);
    assert i != p;
    hide ProduceStep;
  }

  lemma ProducerNears(s: State, i: nat, woken: nat, p: nat)
    requires LockInv(s) && s.lock == P(i) && p < |s.producers| && Awaits(s.producers[p]) && ProduceStep(s, i, woken).To?
    ensures var s' := ProduceStep(s, i, woken).state; Kept(s, s', p) && Inside(s') < Inside(s)
  {
    ProducerKeeps(s, i, woken, p);
    hide Kept, SignalWorker, CanSignalWorker;
  }

  lemma WorkerKeeps(s: State, i: nat, woken: nat, p: nat)
    requires i < |s.workers| && p < |s.producers| == |s.args| && Awaits(s.producers[p]) && WorkStep(s, i, woken).To?
    ensures var s' := WorkStep(s, i, woken).state; Kept(s, s', p) && |s'.queue| <= |s.queue|
  {
    WorkShape(s, i, woken);
    hide WorkStep, AnyAsleep;
  }

  lemma WorkerNears(s: State, i: nat, woken: nat, p: nat)
    requires LockInv(s) && s.lock == W(i) && p < |s.producers| && Awaits(s.producers[p]) && WorkStep(s, i, woken).To?
    ensures var s' := WorkStep(s, i, woken).state; Kept(s, s', p) && Inside(s') < Inside(s) && |s'.queue| <= |s.queue|
  {
    WorkerKeeps(s, i, woken, p);
    hide Kept, SignalProducer, CanSignalProducer;
  }

  /** The mutex gets free. */
  lemma {:induction false} Release(s: State, p: nat) returns (run: seq<Step>, e: State)
    requires Inv(s) && p < |s.producers| && Awaits(s.producers[p])
    ensures Leads(s, run, e) && Inv(e) && Kept(s, e, p) && e.lock == Free
    ensures s.lock.W? ==> |e.queue| <= |s.queue|
    ensures s.lock == Free ==> e == s
    decreases Inside(s)
  {
    hide WakeInv, QueueInv, StopInv;
    if s.lock == Free {
      run, e := [], s;
    } else {
      var step, m := HolderSteps(s, p);
      run, e := Release(m, p);
      FirstStep(s, step, m, run, e);
      run := [step] + run;
    }
  }

  /** How far worker 0 is from popping the next task. */
  function ToPop(w: Worker): nat {
    match w
    case Ready => 1 case Checking => 3 case WantsLock => 4 case Notified => 4 case AtLoop => 5
    case Sleeping => 6 case Running(_) => 6 case Nothing => 6 case Holding(_) => 7 case Popped(_) => 8
    case EmptySeen => 7 case Exited => 0
  }

  function ToDrain(s: State): nat
    requires s.workers != []
  {
    |s.queue| * 20 + ToPop(s.workers[0])
  }

  /** Worker 0 alone works off the queue, the other threads being left where they are. */
  predicate Draining(s: State, p: nat) {
    && s.flag && !s.exit && s.workers != [] && (s.lock == Free || s.lock == W(0))
    && p < |s.producers| && Awaits(s.producers[p])
  }

  lemma WorkerZeroSteps(s: State, woken: nat, p: nat)
    requires LockInv(s) && Draining(s, p) && s.queue != [] && WorkStep(s, 0, woken).To?
    requires s.workers[0] != EmptySeen && s.workers[0] != Exited
    ensures var s' := WorkStep(s, 0, woken).state; Kept(s, s', p) && Draining(s', p) && ToDrain(s') < ToDrain(s)
  {
  }

  lemma DrainStep(s: State, p: nat) returns (step: Step, s': State)
    requires Inv(s) && Draining(s, p) && s.queue != []
    ensures !step.Begin? && Next(s, step) == To(s')
    ensures Inv(s') && Kept(s, s', p) && Draining(s', p) && ToDrain(s') < ToDrain(s)
  {
    if s.workers[0] == Sleeping {
      step := SpuriousWorker(0);
    } else {
      var k: nat := 0;
      if AnyAsleep(s.producers) { k :| 0 <= k < |s.producers| && s.producers[k] == Asleep; }
      step := Work(0, k);
      assert s.workers[0] != EmptySeen && s.workers[0] != Exited;
      WorkerZeroSteps(s, k, p);
    }
    s' := Next(s, step).state;
    StepKeepsInv(s, step);
    hide WakeInv, QueueInv, StopInv, WorkStep;
  }

  lemma {:induction false} Drain(s: State, p: nat) returns (run: seq<Step>, e: State)
    requires Inv(s) && Draining(s, p)
    ensures Leads(s, run, e) && Inv(e) && Kept(s, e, p) && Draining(e, p) && e.queue == []
    decreases ToDrain(s)
  {
    hide WakeInv, QueueInv, StopInv, ToDrain;
    if s.queue == [] {
      run, e := [], s;
    } else {
      var step, m := DrainStep(s, p);
      run, e := Drain(m, p);
      FirstStep(s, step, m, run, e);
      run := [step] + run;
    }
  }

  /** The queue is emptied and the mutex free, while producer p still waits to push. */
  lemma Empty(s: State, p: nat) returns (run: seq<Step>, e: State)
    requires Inv(s) && s.flag && !s.exit && s.workers != [] && p < |s.producers| && Awaits(s.producers[p])
    ensures Leads(s, run, e) && Inv(e) && Kept(s, e, p) && e.lock == Free && e.queue == []
  {
    hide Inv;
    var run1, s1 := Release(s, p);
    var run2, s2 := Drain(s1, p);
    var run3, s3 := Release(s2, p);
    Join(s, run1, s1, run2, s2);
    Join(s, run1 + run2, s2, run3, s3);
    run, e := run1 + run2 + run3, s3;
  }

  /** Stop goes on up to Wakeup's NotifyAll. */
  lemma {:induction false} Lower(s: State) returns (run: seq<Step>, e: State)
    requires Inv(s) && (StillPolls(s) ==> s.queue == [])
    ensures Leads(s, run, e) && Inv(e) && e.stopper.Broadcast()
    ensures e == s.(stopper := e.stopper, exit := e.exit, flag := e.flag, workers := e.workers, late := e.late,
      missed := e.missed)
    ensures |e.workers| == |s.workers|
    decreases match s.stopper
              case Off => 5 case Polling => 4 case SawEmpty => 3 case ExitSet => 2 case FlagDown => 1
              case Joining(_) => 0 case Stopped => 0
  {
    hide WakeInv, QueueInv, StopInv;
    if s.stopper.Broadcast() {
      run, e := [], s;
    } else {
      var m := StopStep(s).state;
      StepKeepsInv(s, Stop);
      run, e := Lower(m);
      FirstStep(s, Stop, m, run, e);
      run := [Stop] + run;
    }
  }

  /** Producer p is on its way to append t to the empty queue, or has done so. */
  predicate Pushing(s: State, p: nat, t: Task) {
    && p < |s.producers| == |s.args|
    && match s.producers[p]
       case Idle => s.lock == Free && s.queue == [t]
       case Pushed => s.lock == P(p) && s.queue == [t]
       case Signalled => s.lock == P(p) && s.queue == [t]
       case Testing => s.lock == P(p) && s.queue == [] && s.args[p] == t
       case FullSeen => false
       case _ => s.lock == Free && s.queue == [] && s.args[p] == t
  }

  function ToLeave(p: Producer): nat {
    match p
    case Asleep => 6 case Wants => 5 case Woken => 5 case Testing => 4 case FullSeen => 3 case Pushed => 2
    case Signalled => 1 case Idle => 0
  }

  predicate SameStop(s: State, e: State) {
    e.stopper == s.stopper && e.flag == s.flag && e.exit == s.exit && e.cap == s.cap && |e.workers| == |s.workers|
  }

  lemma CanPush(s: State, p: nat, t: Task) returns (woken: nat)
    requires Pushing(s, p, t) && s.producers[p] != Idle && s.producers[p] != Asleep
    ensures ProduceStep(s, p, woken).To?
  {
    woken := 0;
    if AnySleeping(s.workers) { woken :| 0 <= woken < |s.workers| && s.workers[woken] == Sleeping; }
  }

  lemma PushingOn(s: State, p: nat, t: Task, woken: nat)
    requires Pushing(s, p, t) && s.cap > 0 && ProduceStep(s, p, woken).To?
    ensures var s' := ProduceStep(s, p, woken).state;
      Pushing(s', p, t) && SameStop(s, s') && ToLeave(s'.producers[p]) < ToLeave(s.producers[p])
  {
    ProduceShape(s, p, woken);
    hide SignalWorker, CanSignalWorker, AnySleeping;
  }

  lemma PushStep(s: State, p: nat, t: Task) returns (step: Step, s': State)
    requires Pushing(s, p, t) && s.cap > 0 && s.producers[p] != Idle
    ensures !step.Begin? && Next(s, step) == To(s')
    ensures Pushing(s', p, t) && SameStop(s, s') && ToLeave(s'.producers[p]) < ToLeave(s.producers[p])
  {
    hide ProduceStep;
    if s.producers[p] == Asleep {
      step := SpuriousProducer(p);
    } else {
      var k := CanPush(s, p, t);
      step := Produce(p, k);
      PushingOn(s, p, t, k);
    }
    s' := Next(s, step).state;
  }

  lemma {:induction false} Push(s: State, p: nat, t: Task) returns (run: seq<Step>, e: State)
    requires Inv(s) && Pushing(s, p, t) && s.cap > 0
    ensures Leads(s, run, e) && Inv(e) && SameStop(s, e) && e.lock == Free && e.queue == [t]
    decreases ToLeave(s.producers[p])
  {
    hide WakeInv, QueueInv, StopInv;
    if s.producers[p] == Idle {
      run, e := [], s;
    } else {
      var step, m := PushStep(s, p, t);
      StepKeepsInv(s, step);
      run, e := Push(m, p, t);
      FirstStep(s, step, m, run, e);
      run := [step] + run;
    }
  }

  /** Wakeup is done and only workers take the mutex. */
  predicate Ending(s: State) { s.exit && !s.flag && !s.lock.P? }

  lemma EndingWork(s: State, i: nat, woken: nat, p: nat)
    requires Ending(s) && |s.producers| == |s.args| && i < |s.workers| && WorkStep(s, i, woken).To?
    ensures var s' := WorkStep(s, i, woken).state;
      Ending(s') && s'.stopper == s.stopper && s'.queue == s.queue && StillWaits(s, s', p)
  {
    WorkShape(s, i, woken);
    assert WorkStep(s, i, woken).state.queue == s.queue && !WorkStep(s, i, woken).state.lock.P?;
    hide WorkStep, AnyAsleep;
  }

  lemma CanEnd(s: State, i: nat) returns (woken: nat)
    requires LockInv(s) && Ending(s) && i < |s.workers| && s.workers[i] != Exited && s.workers[i] != Sleeping
    requires s.lock == Free || s.lock == W(i)
    ensures WorkStep(s, i, woken).To?
  {
    woken := 0;
    if AnyAsleep(s.producers) { woken :| 0 <= woken < |s.producers| && s.producers[woken] == Asleep; }
  }

  lemma EndStep(s: State, p: nat) returns (step: Step, s': State)
    requires Inv(s) && Ending(s) && !AllExited(s)
    ensures !step.Begin? && Next(s, step) == To(s')
    ensures Ending(s') && s'.stopper == s.stopper && s'.queue == s.queue && StillWaits(s, s', p)
    ensures TotalToExit(s'.workers) < TotalToExit(s.workers)
  {
    hide WakeInv, QueueInv, StopInv, WorkStep;
    var i: nat := 0;
    if s.lock.W? {
      i := s.lock.i;
    } else {
      i :| 0 <= i < |s.workers| && s.workers[i] != Exited;
    }
    if s.workers[i] == Sleeping {
      step := SpuriousWorker(i);
      TotalUpdate(s.workers, i, Notified);
    } else {
      var k := CanEnd(s, i);
      step := Work(i, k);
      WorkNearsExit(s, i, k);
      EndingWork(s, i, k, p);
    }
    s' := Next(s, step).state;
  }

  /** All workers exit. */
  lemma {:induction false} Finish(s: State, p: nat) returns (run: seq<Step>, e: State)
    requires Inv(s) && Ending(s)
    ensures Leads(s, run, e) && Inv(e) && AllExited(e) && e.stopper == s.stopper && e.queue == s.queue
    ensures StillWaits(s, e, p)
    decreases TotalToExit(s.workers)
  {
    hide WakeInv, QueueInv, StopInv;
    if AllExited(s) {
      run, e := [], s;
    } else {
      var step, m := EndStep(s, p);
      StepKeepsInv(s, step);
      run, e := Finish(m, p);
      FirstStep(s, step, m, run, e);
      run := [step] + run;
    }
  }

  /** Stop joins them and returns. */
  lemma {:induction false} JoinAll(s: State) returns (run: seq<Step>, e: State)
    requires Inv(s) && AllExited(s) && s.stopper.Broadcast()
    ensures Leads(s, run, e) && e.stopper.Stopped?
    ensures e.queue == s.queue && e.producers == s.producers && e.args == s.args
    decreases match s.stopper case Joining(k) => (if k < |s.workers| then |s.workers| - k else 0) + 1 case _ => 0
  {
    hide WakeInv, QueueInv, StopInv;
    if s.stopper.Stopped? {
      run, e := [], s;
    } else {
      var m := StopStep(s).state;
      StepKeepsInv(s, Stop);
      run, e := JoinAll(m);
      FirstStep(s, Stop, m, run, e);
      run := [Stop] + run;
    }
  }

  /** Once the flag is down, Stop can return, and what is in the queue stays there. */
  lemma Return(s: State, p: nat) returns (run: seq<Step>, e: State)
    requires Inv(s) && s.stopper.Broadcast() && !s.lock.P?
    ensures Leads(s, run, e) && e.stopper.Stopped? && e.queue == s.queue && StillWaits(s, e, p)
  {
    assert Ending(s);
    hide Inv;
    var run1, s1 := Finish(s, p);
    var run2, s2 := JoinAll(s1);
    Join(s, run1, s1, run2, s2);
    run, e := run1 + run2, s2;
  }

  /** The call of producer p with task t is lost: t is left in the queue, or is still to be appended. */
  predicate Lost(e: State, p: nat, t: Task) {
    && e.stopper.Stopped? && e.queue != []
    && (e.queue == [t] || (p < |e.producers| == |e.args| && Awaits(e.producers[p]) && e.args[p] == t))
  }

  lemma LoseNow(s: State, p: nat) returns (run: seq<Step>, e: State)
    requires Inv(s) && s.cap > 0 && p < |s.producers| == |s.args| && (StillPolls(s) ==> s.queue == [])
    requires (Awaits(s.producers[p]) && s.lock == Free) || (s.producers[p] == Testing && s.queue == [])
    ensures Leads(s, run, e) && Lost(e, p, s.args[p])
  {
    var run1, s1 := Lower(s);
    if s1.queue == [] {
      assert s.producers[p] == Testing ==> s.lock == P(p);
      assert Pushing(s1, p, s1.args[p]);
      hide Inv;
      var run2, s2 := Push(s1, p, s1.args[p]);
      var run3, s3 := Return(s2, p);
      Join(s, run1, s1, run2, s2);
      Join(s, run1 + run2, s2, run3, s3);
      run, e := run1 + run2 + run3, s3;
    } else {
      hide Inv;
      var run2, s2 := Return(s1, p);
      Join(s, run1, s1, run2, s2);
      run, e := run1 + run2, s2;
    }
  }

  lemma LoseAwaiting(s: State, p: nat) returns (run: seq<Step>, e: State)
    requires Inv(s) && s.cap > 0 && s.workers != [] && p < |s.producers| == |s.args| && Awaits(s.producers[p])
    ensures Leads(s, run, e) && Lost(e, p, s.args[p])
  {
    var run1, s1;
    if StillPolls(s) {
      assert s.flag && !s.exit;
      run1, s1 := Empty(s, p);
    } else {
      run1, s1 := Release(s, p);
    }
    hide Inv;
    var run2, s2 := LoseNow(s1, p);
    Join(s, run1, s1, run2, s2);
    run, e := run1 + run2, s2;
  }

  lemma LoseAfter(s: State, p: nat) returns (run: seq<Step>, e: State)
    requires Inv(s) && s.cap > 0 && s.workers != [] && p < |s.producers| == |s.args| && s.producers[p] == FullSeen
    ensures Leads(s, run, e) && Lost(e, p, s.args[p])
  {
    var m := ProduceStep(s, p, 0).state;
    StepKeepsInv(s, Produce(p, 0));
    run, e := LoseAwaiting(m, p);
    FirstStep(s, Produce(p, 0), m, run, e);
    run := [Produce(p, 0)] + run;
  }

  /** Whatever else goes on, the task of a call at risk can be left behind. */
  lemma Lose(s: State, p: nat) returns (run: seq<Step>, e: State)
    requires Inv(s) && s.cap > 0 && s.workers != [] && p < |s.producers| == |s.args|
    requires BeforePush(s.producers[p]) && !(s.producers[p] == Testing && 0 < |s.queue| < s.cap)
    ensures Leads(s, run, e) && Lost(e, p, s.args[p])
  {
    if Awaits(s.producers[p]) {
      run, e := LoseAwaiting(s, p);
    } else if s.producers[p] == FullSeen {
      run, e := LoseAfter(s, p);
    } else if s.queue == [] {
      run, e := LoseNow(s, p);
    } else {
      var m := ProduceStep(s, p, 0).state;
      StepKeepsInv(s, Produce(p, 0));
      run, e := LoseAfter(m, p);
      FirstStep(s, Produce(p, 0), m, run, e);
      run := [Produce(p, 0)] + run;
    }
  }

  /** Every way in which Stop, called now, can return without new calls of AddTask leaves the queue empty. */
  ghost predicate NeverLoses(s: State) {
    forall run, e :: Leads(s, run, e) && e.stopper.Stopped? ==> e.queue == []
  }

  /** When Stop is called, no task can be lost, new calls apart, if and only if no call of AddTask is at risk. */
  lemma StopIsSafeIff(s: State, cap: nat, producers: nat, workers: nat, run: seq<Step>)
    requires Reached(s, cap, producers, workers, run) && s.stopper.Off? && s.cap > 0 && s.workers != []
    ensures NeverLoses(s) <==> !AtRisk(s)
  {
    ReachedInv(s, cap, producers, workers, run);
    assert |s.producers| == |s.args|;
    hide Inv, BeforePush;
    if AtRisk(s) {
      var p :| 0 <= p < |s.producers| && BeforePush(s.producers[p]) &&
        !(s.producers[p] == Testing && 0 < |s.queue| < s.cap);
      var more, e := Lose(s, p);
    } else {
      forall more, e | Leads(s, more, e) && e.stopper.Stopped? ensures e.queue == [] { SafeStop(s, more, e); }
    }
  }

  /** And the task of a call of AddTask that begins once Stop has been called can always be lost, be it before Stop
      returns or after: at the end it is left in the queue, or the call is still before its push. No worker runs it
      whatever happens then. */
  lemma LateCallCanBeLost(s: State, cap: nat, producers: nat, workers: nat, run: seq<Step>, i: nat, t: Task)
    returns (m: State, more: seq<Step>, e: State)
    requires Reached(s, cap, producers, workers, run) && !s.stopper.Off? && s.cap > 0 && s.workers != []
    requires i < |s.producers| == |s.args| && s.producers[i] == Idle
    ensures Next(s, Begin(i, t)) == To(m) && Leads(m, more, e) && Lost(e, i, t)
    ensures forall later :: Exec(e, later).To? ==> Exec(e, later).state.finished == e.finished
  {
    ReachedInv(s, cap, producers, workers, run);
    m := Next(s, Begin(i, t)).state;
    StepKeepsInv(s, Begin(i, t));
    more, e := Lose(m, i);
    RunKeepsInv(m, more);
    hide WakeInv, QueueInv, Lost;
    forall later | Exec(e, later).To? ensures Exec(e, later).state.finished == e.finished { LostForGood(e, later); }
  }

  // ----- runs of one producer and one worker -----

  /** A task accepted between Stop's look at the queue and its return is left behind. */
  lemma LateTaskIsLost() returns (run: seq<Step>, s: State)
    ensures Reached(s, 1, 1, 1, run) && s.stopper.Stopped?
    ensures |run| > 2 && run[2] == Begin(0, 7)
    ensures Exec(Init(1, 1, 1), run[..2]) == To(Init(1, 1, 1).(stopper := SawEmpty))
    ensures s.accepted == [7] && s.finished == [] && s.queue == [7]
    ensures forall more :: Exec(s, more).To? ==> Exec(s, more).state.finished == []
  {
    var first, second: seq<Step> := [Stop, Stop], [Begin(0, 7), Stop, Stop, Stop, Work(0, 0)];
    var third: seq<Step> := [Produce(0, 0), Produce(0, 0), Stop, Stop];
    var s2 := SeesEmpty(first);
    var s7 := BeginsLate(s2, second);
    s := PushesLate(s7, third);
    run := first + (second + third);
    ExecAppend(s2, second, third);
    ExecAppend(Init(1, 1, 1), first, second + third);
    assert run[..2] == first;
    forall more | Exec(s, more).To? ensures Exec(s, more).state.finished == [] { LostForGood(s, more); }
  }

  lemma SeesEmpty(run: seq<Step>) returns (s: State)
    requires run == [Stop, Stop]
    ensures s == Init(1, 1, 1).(stopper := SawEmpty) && Exec(Init(1, 1, 1), run) == To(s)
  {
    var s0 := Init(1, 1, 1);
    s := s0.(stopper := SawEmpty);
    ExecStep(s0, run, s0.(stopper := Polling));
    ExecStep(s0.(stopper := Polling), run[1..], s);
  }

  lemma BeginsLate(s: State, run: seq<Step>) returns (e: State)
    requires s == Init(1, 1, 1).(stopper := SawEmpty) && run == [Begin(0, 7), Stop, Stop, Stop, Work(0, 0)]
    ensures e == s.(producers := [Wants], args := [7], late := true, exit := true, flag := false, stopper := Joining(0),
                    missed := false, workers := [Exited])
    ensures Exec(s, run) == To(e)
  {
    var s1 := s.(producers := [Wants], args := [7], late := true);
    var s2 := s1.(exit := true, stopper := ExitSet);
    var s3 := s2.(flag := false, stopper := FlagDown);
    var s4 := s3.(stopper := Joining(0), missed := false);
    e := s4.(workers := [Exited]);
    assert s.workers == [AtLoop] && WakeAll([AtLoop]) == [AtLoop];
    ExecStep(s, run, s1);
    ExecStep(s1, run[1..], s2);
    ExecStep(s2, run[2..], s3);
    ExecStep(s3, run[3..], s4);
    ExecStep(s4, run[4..], e);
  }

  lemma PushesLate(s: State, run: seq<Step>) returns (e: State)
    requires s.producers == [Wants] && s.args == [7] && s.workers == [Exited] && s.queue == [] == s.accepted
    requires s.cap == 1 && s.lock == Free && s.stopper == Joining(0)
    requires run == [Produce(0, 0), Produce(0, 0), Stop, Stop]
    ensures e == s.(producers := [Pushed], lock := P(0), queue := [7], accepted := [7], stopper := Stopped)
    ensures Exec(s, run) == To(e)
  {
    var s1 := s.(producers := [Testing], lock := P(0));
    var s2 := s1.(producers := [Pushed], queue := [7], accepted := [7]);
    var s3 := s2.(stopper := Joining(1));
    e := s3.(stopper := Stopped);
    ExecStep(s, run, s1);
    ExecStep(s1, run[1..], s2);
    ExecStep(s2, run[2..], s3);
    ExecStep(s3, run[3..], e);
  }

  /** A worker between its test and its Wait when Stop has lowered the flag. */
  lemma MissedWindow() returns (run: seq<Step>, s: State)
    ensures Reached(s, 1, 1, 1, run) && s.stopper.FlagDown? && AllIdle(s) && s.workers == [EmptySeen]
  {
    var s0 := Init(1, 1, 1);
    var test, lower: seq<Step> := [Work(0, 0), Work(0, 0), Work(0, 0)], [Stop, Stop, Stop, Stop];
    run := test + lower;
    var s1 := s0.(workers := [WantsLock]);
    var s2 := s0.(workers := [Checking], lock := W(0));
    var s3 := s0.(workers := [EmptySeen], lock := W(0));
    assert s0.workers == [AtLoop];
    ExecStep(s0, test, s1);
    ExecStep(s1, test[1..], s2);
    ExecStep(s2, test[2..], s3);
    s := s3.(stopper := FlagDown, exit := true, flag := false);
    ExecStep(s3, lower, s3.(stopper := Polling));
    ExecStep(s3.(stopper := Polling), lower[1..], s3.(stopper := SawEmpty));
    ExecStep(s3.(stopper := SawEmpty), lower[2..], s3.(stopper := ExitSet, exit := true));
    ExecStep(s3.(stopper := ExitSet, exit := true), lower[3..], s);
    ExecAppend(s0, test, lower);
  }

  /** No new call of AddTask and no wake-up for no reason. */
  predicate Ordinary(run: seq<Step>) { NoCalls(run) && forall k :: 0 <= k < |run| ==> NotSpurious(run[k]) }

  /** Stop hangs in a run of the program: after it, Stop returns in no continuation without a new task or a wake-up for
      no reason. */
  lemma StopHangs() returns (run: seq<Step>, s: State)
    ensures Reached(s, 1, 1, 1, run) && s.stopper.FlagDown?
    ensures forall more ::
      Ordinary(more) && Exec(s, [Stop] + more).To? ==> !Exec(s, [Stop] + more).state.stopper.Stopped?
  {
    hide Reached, Exec;
    run, s := MissedWindow();
    forall more | Ordinary(more) && Exec(s, [Stop] + more).To?
      ensures !Exec(s, [Stop] + more).state.stopper.Stopped?
    {
      MissedWorkerHangsStop(s, 1, 1, 1, run, 0, more);
    }
  }

  // ----- Stop returns -----

  /** A step of a thread of the program: no new call and no wake-up for no reason. */
  predicate OwnStep(step: Step) { step.Produce? || step.Work? || step.Stop? }

  function Weight<T>(weigh: T -> nat, ts: seq<T>): nat { if ts == [] then 0 else weigh(ts[0]) + Weight(weigh, ts[1..]) }

  lemma {:induction false} WeightUpdate<T>(weigh: T -> nat, ts: seq<T>, i: nat, v: T)
    requires i < |ts|
    ensures Weight(weigh, ts[i := v]) == Weight(weigh, ts) - weigh(ts[i]) + weigh(v)
  {
    if i == 0 {
      assert ts[0 := v][1..] == ts[1..];
    } else {
      assert ts[i := v][1..] == ts[1..][i - 1 := v];
      WeightUpdate(weigh, ts[1..], i - 1, v);
    }
  }

  /** How many actions a producer has left at most, once no worker sleeps and it is woken no more. */
  function ToSettle(p: Producer): nat {
    match p
    case Wants => 4 case Woken => 4 case Testing => 3 case Pushed => 2 case Signalled => 1 case FullSeen => 1
    case Asleep => 0 case Idle => 0
  }

  function StopsLeft(s: State): nat {
    match s.stopper case Joining(k) => (if k < |s.workers| then |s.workers| - k else 0) + 1 case _ => 0
  }

  /** How many own steps are left at most. A worker that has popped a task may still wake a producer. */
  function Remaining(s: State): nat { 6 * TotalToExit(s.workers) + Weight(ToSettle, s.producers) + StopsLeft(s) }

  /** The flag is down and Wakeup has reached all workers. */
  predicate Leaving(s: State) { s.stopper.Broadcast() && !s.missed }

  lemma ProduceSettles(s: State, i: nat, woken: nat)
    requires i < |s.producers| == |s.args| && !AnySleeping(s.workers) && ProduceStep(s, i, woken).To?
    ensures var s' := ProduceStep(s, i, woken).state;
      && s'.workers == s.workers && s'.stopper == s.stopper && s'.missed == s.missed
      && Weight(ToSettle, s'.producers) < Weight(ToSettle, s.producers)
  {
    ProduceShape(s, i, woken);
    var p := ProduceStep(s, i, woken).state.producers[i];
    assert ToSettle(p) < ToSettle(s.producers[i]);
    hide ProduceStep, ToSettle, AnySleeping;
    WeightUpdate(ToSettle, s.producers, i, p);
  }

  /** What a worker's step does to the producers: it wakes one at most, and only when it has popped a task. */
  lemma WorkWakes(s: State, i: nat, woken: nat)
    requires i < |s.workers| && WorkStep(s, i, woken).To?
    ensures var s' := WorkStep(s, i, woken).state;
      && s'.stopper == s.stopper && s'.missed == s.missed && |s'.workers| == |s.workers|
      && Weight(ToSettle, s'.producers) <= Weight(ToSettle, s.producers) + 4
  {
    WorkShape(s, i, woken);
    hide WorkStep, AnyAsleep;
    if s.workers[i].Popped? && AnyAsleep(s.producers) { WeightUpdate(ToSettle, s.producers, woken, Woken); }
  }

  lemma OwnStepNears(s: State, step: Step)
    requires Inv(s) && Leaving(s) && OwnStep(step) && Next(s, step).To?
    ensures Leaving(Next(s, step).state) && Remaining(Next(s, step).state) < Remaining(s)
  {
    assert s.exit && !s.flag && !AnySleeping(s.workers);
    hide Inv, TotalToExit, Weight;
    match step
    case Produce(i, woken) =>
      ProduceSettles(s, i, woken);
      hide ProduceStep;
    case Work(i, woken) =>
      WorkNearsExit(s, i, woken);
      WorkWakes(s, i, woken);
      hide WorkStep;
    case Stop =>
  }

  lemma OwnStepExists(s: State)
    requires Inv(s) && Leaving(s) && !s.stopper.Stopped?
    ensures exists step :: OwnStep(step) && Next(s, step).To?
  {
    if AllExited(s) {
      assert StopStep(s).To? && Next(s, Stop).To?;
    } else {
      var j :| 0 <= j < |s.workers| && s.workers[j] != Exited;
      SomeThreadCanAct(s, j);
      var step :| Internal(step) && Next(s, step).To?;
      assert OwnStep(step);
    }
  }

  lemma {:induction false} OwnRunEnds(s: State, run: seq<Step>)
    requires Inv(s) && Leaving(s) && Exec(s, run).To? && forall k :: 0 <= k < |run| ==> OwnStep(run[k])
    ensures |run| <= Remaining(s)
    ensures var e := Exec(s, run).state;
      |e.producers| == |e.args| && (e.stopper.Stopped? || exists step :: OwnStep(step) && Next(e, step).To?)
    decreases |run|
  {
    hide WakeInv, QueueInv, StopInv, Leaving;
    if run == [] {
      if !s.stopper.Stopped? { OwnStepExists(s); }
    } else {
      var m := Next(s, run[0]).state;
      StepKeepsInv(s, run[0]);
      OwnStepNears(s, run[0]);
      OwnRunEnds(m, run[1..]);
    }
  }

  /** Once Wakeup has reached all workers, Stop returns, whatever calls of AddTask are under way: the threads can take
      only so many steps, and as long as Stop has not returned one of them can take one. */
  lemma StopReturns(s: State, cap: nat, producers: nat, workers: nat, run: seq<Step>, more: seq<Step>)
    requires Reached(s, cap, producers, workers, run) && s.stopper.Broadcast() && !s.missed
    requires Exec(s, more).To? && forall k :: 0 <= k < |more| ==> OwnStep(more[k])
    ensures |more| <= Remaining(s)
    ensures var e := Exec(s, more).state;
      |e.producers| == |e.args| && (e.stopper.Stopped? || exists step :: OwnStep(step) && Next(e, step).To?)
  {
    ReachedInv(s, cap, producers, workers, run);
    OwnRunEnds(s, more);
  }
}
