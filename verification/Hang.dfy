/** When Stop can hang: exactly when it is called before all threads have come to rest. */
module Hang {
  import opened TaskQueue
  import opened Shutdown

  // ----- hanging -----

  /** The run leads from s to e with no new call and no wake-up for no reason. */
  ghost predicate OrdinarilyLeads(s: State, run: seq<Step>, e: State) { Exec(s, run) == To(e) && Ordinary(run) }

  /** However the program goes on, Stop does not return. */
  ghost predicate Hung(s: State) { forall more, e :: OrdinarilyLeads(s, more, e) ==> !e.stopper.Stopped? }

  ghost predicate MayHang(s: State) { exists run, e :: OrdinarilyLeads(s, run, e) && Hung(e) }

  lemma FirstOrdinary(s: State, step: Step, s': State, run: seq<Step>, e: State)
    requires |s.producers| == |s.args| && !step.Begin? && NotSpurious(step) && Next(s, step) == To(s')
    requires OrdinarilyLeads(s', run, e)
    ensures OrdinarilyLeads(s, [step] + run, e)
  {
    assert ([step] + run)[1..] == run;
    ExecStep(s, [step] + run, s');
  }

  lemma JoinOrdinary(s: State, first: seq<Step>, m: State, second: seq<Step>, e: State)
    requires OrdinarilyLeads(s, first, m) && OrdinarilyLeads(m, second, e)
    ensures OrdinarilyLeads(s, first + second, e)
  {
    ExecAppend(s, first, second);
  }

  // ----- a producer that has pushed leaves a task in the queue -----

  predicate Supplied(s: State) {
    forall i :: 0 <= i < |s.producers| && (s.producers[i] == Pushed || s.producers[i] == Signalled) ==> s.queue != []
  }

  lemma ProduceKeepsSupplied(s: State, i: nat, woken: nat)
    requires i < |s.producers| == |s.args| && Supplied(s) && ProduceStep(s, i, woken).To?
    ensures Supplied(ProduceStep(s, i, woken).state)
  {
  }

  lemma WorkKeepsSupplied(s: State, i: nat, woken: nat)
    requires i < |s.workers| && LockInv(s) && Supplied(s) && WorkStep(s, i, woken).To?
    ensures Supplied(WorkStep(s, i, woken).state)
  {
    if s.workers[i] == Ready {
      assert forall j :: 0 <= j < |s.producers| ==> s.producers[j] != Pushed && s.producers[j] != Signalled;
    }
    hide LockInv;
  }

  lemma StepKeepsSupplied(s: State, step: Step)
    requires LockInv(s) && Supplied(s) && Next(s, step).To?
    ensures Supplied(Next(s, step).state)
  {
    hide ProduceStep, WorkStep, StopStep;
    match step
    case Produce(i, woken) => ProduceKeepsSupplied(s, i, woken);
    case Work(i, woken) => WorkKeepsSupplied(s, i, woken);
    case Stop => StopKeepsSupplied(s);
    case Begin(_, _) => case SpuriousProducer(_) => case SpuriousWorker(_) =>
  }

  lemma StopKeepsSupplied(s: State)
    requires Supplied(s) && StopStep(s).To?
    ensures Supplied(StopStep(s).state)
  {
  }

  lemma {:induction false} RunKeepsSupplied(s: State, run: seq<Step>)
    requires Inv(s) && Supplied(s) && Exec(s, run).To?
    ensures Supplied(Exec(s, run).state)
    decreases |run|
  {
    hide Supplied;
    if run != [] {
      StepKeepsInv(s, run[0]);
      StepKeepsSupplied(s, run[0]);
      RunKeepsSupplied(Next(s, run[0]).state, run[1..]);
    }
  }

  // ----- coming to rest -----

  /** How many actions a worker has left before it sleeps, and with the task it has popped it may wake a producer. */
  function WorkerLoad(w: Worker): nat {
    match w
    case Sleeping => 0 case Exited => 0 case EmptySeen => 1 case Ready => 1 case Checking => 2 case WantsLock => 3
    case Notified => 3 case AtLoop => 4 case Running(_) => 5 case Nothing => 5 case Holding(_) => 6 case Popped(_) => 10
  }

  /** The same for a producer, whose task is one more in the queue and wakes a worker. */
  function ProducerLoad(p: Producer): nat {
    match p
    case Idle => 0 case Signalled => 1 case Pushed => 5 case Asleep => 14 case FullSeen => 15 case Testing => 16
    case Woken => 17 case Wants => 17
  }

  /** How much there is to do until all threads rest, as long as the flag is up and no new calls come. */
  function Load(s: State): nat { Weight(WorkerLoad, s.workers) + Weight(ProducerLoad, s.producers) + 10 * |s.queue| }

  lemma ProduceLightens(s: State, i: nat, woken: nat)
    requires i < |s.producers| == |s.args| && ProduceStep(s, i, woken).To?
    ensures var s' := ProduceStep(s, i, woken).state; Load(s') < Load(s) && s'.stopper == s.stopper && s'.cap == s.cap
    ensures |ProduceStep(s, i, woken).state.workers| == |s.workers|
  {
    ProduceShape(s, i, woken);
    ProducerLightens(s, i, woken);
    hide ProduceStep, ProducerLoad, AnySleeping;
    WeightUpdate(ProducerLoad, s.producers, i, ProduceStep(s, i, woken).state.producers[i]);
    if s.producers[i] == Pushed && AnySleeping(s.workers) { WeightUpdate(WorkerLoad, s.workers, woken, Notified); }
    hide Weight;
  }

  lemma ProducerLightens(s: State, i: nat, woken: nat)
    requires i < |s.producers| == |s.args| && ProduceStep(s, i, woken).To?
    ensures var s' := ProduceStep(s, i, woken).state;
      && |s'.producers| == |s.producers|
      && ProducerLoad(s'.producers[i]) + 10 * |s'.queue| + (if s.producers[i] == Pushed then 3 else 0)
         < ProducerLoad(s.producers[i]) + 10 * |s.queue|
  {
    hide SignalWorker, CanSignalWorker;
    match s.producers[i]
    case Idle => case Wants => case Woken => case Testing => case FullSeen => case Asleep => case Pushed =>
    case Signalled =>
  }

  lemma WorkLightens(s: State, i: nat, woken: nat)
    requires i < |s.workers| && s.flag && !s.exit && WorkStep(s, i, woken).To?
    ensures var s' := WorkStep(s, i, woken).state; Load(s') < Load(s) && s'.stopper == s.stopper && s'.cap == s.cap
    ensures |WorkStep(s, i, woken).state.workers| == |s.workers|
  {
    WorkShape(s, i, woken);
    WorkerLightens(s, i, woken);
    hide WorkStep, WorkerLoad, AnyAsleep;
    WeightUpdate(WorkerLoad, s.workers, i, WorkStep(s, i, woken).state.workers[i]);
    if s.workers[i].Popped? && AnyAsleep(s.producers) { WeightUpdate(ProducerLoad, s.producers, woken, Woken); }
    hide Weight;
  }

  lemma WorkerLightens(s: State, i: nat, woken: nat)
    requires i < |s.workers| && s.flag && !s.exit && WorkStep(s, i, woken).To?
    ensures var s' := WorkStep(s, i, woken).state;
      && |s'.workers| == |s.workers|
      && WorkerLoad(s'.workers[i]) + 10 * |s'.queue| + (if s.workers[i].Popped? then 3 else 0)
         < WorkerLoad(s.workers[i]) + 10 * |s.queue|
  {
    hide SignalProducer, CanSignalProducer;
    match s.workers[i]
    case AtLoop => case WantsLock => case Notified => case Checking => case EmptySeen => case Sleeping =>
    case Ready => case Popped(_) => case Holding(_) => case Nothing => case Running(_) => case Exited =>
  }

  /** The last thing a worker does before all threads rest is to test the empty queue. */
  predicate AboutToRest(s: State) { AllIdle(s) && s.queue == [] && AnyEmptySeen(s.workers) }

  lemma LastStep(s: State, step: Step)
    requires LockInv(s) && Supplied(s) && Internal(step) && Next(s, step).To? && Drained(Next(s, step).state)
    ensures AboutToRest(s)
  {
    match step
    case Produce(i, woken) => NoLastProduce(s, i, woken);
    case Work(i, woken) => LastWork(s, i, woken);
  }

  lemma NoLastProduce(s: State, i: nat, woken: nat)
    requires i < |s.producers| == |s.args| && Supplied(s) && ProduceStep(s, i, woken).To?
    ensures !Drained(ProduceStep(s, i, woken).state)
  {
    ProduceKeepsSupplied(s, i, woken);
    var s' := ProduceStep(s, i, woken).state;
    assert s'.queue == [] ==> s'.producers[i] != Idle;
    hide ProduceStep;
  }

  lemma LastWork(s: State, i: nat, woken: nat)
    requires i < |s.workers| && WorkStep(s, i, woken).To? && Drained(WorkStep(s, i, woken).state)
    ensures AboutToRest(s)
  {
    WorkShape(s, i, woken);
    var s' := WorkStep(s, i, woken).state;
    assert s'.workers[i] == Sleeping ==> s.workers[i] == EmptySeen && s'.queue == s.queue;
    hide WorkStep;
  }

  /** Left alone, the threads come to the point before they rest, unless they rest already. */
  lemma {:induction false} ComeToRest(s: State) returns (run: seq<Step>, e: State)
    requires Inv(s) && Supplied(s) && s.stopper.Off? && s.cap > 0 && s.workers != [] && !Drained(s)
    ensures OrdinarilyLeads(s, run, e) && Inv(e) && e.stopper.Off? && AboutToRest(e)
    decreases Load(s)
  {
    assert s.flag && !s.exit;
    CanAct(s);
    hide WakeInv, QueueInv, StopInv, Supplied, Load, Drained, AboutToRest, WorkStep, ProduceStep;
    var step :| Internal(step) && Next(s, step).To?;
    var m := Next(s, step).state;
    if step.Produce? { ProduceLightens(s, step.i, step.woken); } else { WorkLightens(s, step.i, step.woken); }
    StepKeepsInv(s, step);
    StepKeepsSupplied(s, step);
    if Drained(m) {
      LastStep(s, step);
      run, e := [], s;
    } else {
      run, e := ComeToRest(m);
      FirstOrdinary(s, step, m, run, e);
      run := [step] + run;
    }
  }

  // ----- and Stop passing by -----

  /** Stop goes through Wakeup while a worker is about to sleep. */
  lemma {:induction false} PassBy(s: State, i: nat) returns (run: seq<Step>, e: State)
    requires Inv(s) && AllIdle(s) && s.queue == [] && i < |s.workers| && s.workers[i] == EmptySeen
    requires !s.stopper.Broadcast()
    ensures OrdinarilyLeads(s, run, e) && Inv(e) && Stranded(e, i)
    decreases match s.stopper
              case Off => 5 case Polling => 4 case SawEmpty => 3 case ExitSet => 2 case FlagDown => 1 case _ => 0
  {
    hide WakeInv, QueueInv, StopInv;
    StopPasses(s, i);
    hide StopStep;
    var m := StopStep(s).state;
    StepKeepsInv(s, Stop);
    if s.stopper.FlagDown? {
      run, e := [], m;
    } else {
      run, e := PassBy(m, i);
    }
    FirstOrdinary(s, Stop, m, run, e);
    run := [Stop] + run;
  }

  lemma StopPasses(s: State, i: nat)
    requires AllIdle(s) && s.queue == [] && i < |s.workers| && s.workers[i] == EmptySeen && !s.stopper.Broadcast()
    ensures StopStep(s).To?
    ensures var m := StopStep(s).state;
      && AllIdle(m) && m.queue == [] && |m.workers| == |s.workers| && m.workers[i] == EmptySeen
      && m.stopper == match s.stopper
                      case Off => Polling case Polling => SawEmpty case SawEmpty => ExitSet case ExitSet => FlagDown
                      case FlagDown => Joining(0)
  {
  }

  lemma StrandedHangs(s: State, i: nat)
    requires Inv(s) && Stranded(s, i)
    ensures Hung(s)
  {
    forall more, e | OrdinarilyLeads(s, more, e) ensures !e.stopper.Stopped? { StrandedForGood(s, more, i); }
  }

  lemma CanHang(s: State)
    requires Inv(s) && Supplied(s) && s.stopper.Off? && s.cap > 0 && s.workers != [] && !Drained(s)
    ensures MayHang(s)
  {
    var run1, s1 := ComeToRest(s);
    var i :| 0 <= i < |s1.workers| && s1.workers[i] == EmptySeen;
    var run2, s2 := PassBy(s1, i);
    StrandedHangs(s2, i);
    JoinOrdinary(s, run1, s1, run2, s2);
  }

  // ----- when all threads rest already -----

  /** Nobody calls AddTask, and until Wakeup reaches them all workers sleep. */
  predicate AtRest(s: State) {
    && AllIdle(s) && s.queue == []
    && if s.stopper.Broadcast() then !s.missed else forall i :: 0 <= i < |s.workers| ==> s.workers[i] == Sleeping
  }

  lemma StepKeepsRest(s: State, step: Step)
    requires Inv(s) && AtRest(s) && !step.Begin? && NotSpurious(step) && Next(s, step).To?
    ensures AtRest(Next(s, step).state)
  {
    hide WakeInv;
  }

  lemma {:induction false} RunKeepsRest(s: State, run: seq<Step>)
    requires Inv(s) && AtRest(s) && Ordinary(run) && Exec(s, run).To?
    ensures Inv(Exec(s, run).state) && AtRest(Exec(s, run).state)
    decreases |run|
  {
    hide WakeInv, QueueInv, StopInv, AtRest;
    if run != [] {
      StepKeepsInv(s, run[0]);
      StepKeepsRest(s, run[0]);
      RunKeepsRest(Next(s, run[0]).state, run[1..]);
    }
  }

  /** Stop can return from here. */
  lemma {:induction false} OwnReturn(s: State) returns (run: seq<Step>, e: State)
    requires Inv(s) && Leaving(s)
    ensures OrdinarilyLeads(s, run, e) && e.stopper.Stopped?
    decreases Remaining(s)
  {
    hide WakeInv, QueueInv, StopInv, Remaining, Leaving;
    if s.stopper.Stopped? {
      run, e := [], s;
    } else {
      OwnStepExists(s);
      var step :| OwnStep(step) && Next(s, step).To?;
      OwnStepNears(s, step);
      StepKeepsInv(s, step);
      run, e := OwnReturn(Next(s, step).state);
      FirstOrdinary(s, step, Next(s, step).state, run, e);
      run := [step] + run;
    }
  }

  lemma {:induction false} ReturnFromRest(s: State) returns (run: seq<Step>, e: State)
    requires Inv(s) && AtRest(s)
    ensures OrdinarilyLeads(s, run, e) && e.stopper.Stopped?
    decreases match s.stopper
              case Off => 5 case Polling => 4 case SawEmpty => 3 case ExitSet => 2 case FlagDown => 1 case _ => 0
  {
    hide WakeInv, QueueInv, StopInv;
    if s.stopper.Broadcast() {
      run, e := OwnReturn(s);
    } else {
      var m := StopStep(s).state;
      StepKeepsInv(s, Stop);
      StepKeepsRest(s, Stop);
      run, e := ReturnFromRest(m);
      FirstOrdinary(s, Stop, m, run, e);
      run := [Stop] + run;
    }
  }

  lemma CannotHang(s: State)
    requires Inv(s) && AtRest(s)
    ensures !MayHang(s)
  {
    hide Inv, AtRest;
    forall run, e | OrdinarilyLeads(s, run, e) ensures !Hung(e) {
      RunKeepsRest(s, run);
      var more, f := ReturnFromRest(e);
    }
  }

  /** Stop, called now, can hang without new calls and wake-ups for no reason if and only if the threads do not all rest
      yet: some task is queued, a call of AddTask is under way, or a worker is awake. */
  lemma StopMayHangIff(s: State, cap: nat, producers: nat, workers: nat, run: seq<Step>)
    requires Reached(s, cap, producers, workers, run) && s.stopper.Off? && s.cap > 0 && s.workers != []
    ensures MayHang(s) <==> !Drained(s)
  {
    ReachedInv(s, cap, producers, workers, run);
    if Drained(s) {
      assert AtRest(s);
      CannotHang(s);
    } else {
      RunKeepsSupplied(Init(cap, producers, workers), run);
      CanHang(s);
    }
  }
}
