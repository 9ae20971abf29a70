/** From the calls of AddTask to the tasks that are run: what is accepted are the tasks of the calls, each once. */
module Calls {
  import opened TaskQueue
  import opened Shutdown

  function CalledBy(step: Step): seq<Task> { if step.Begin? then [step.task] else [] }

  /** The tasks that a run calls AddTask with. */
  function Called(run: seq<Step>): seq<Task> { if run == [] then [] else CalledBy(run[0]) + Called(run[1..]) }

  function One(p: Producer, arg: Task, t: Task): nat { if BeforePush(p) && arg == t then 1 else 0 }

  /** How many calls with task t have not appended it yet. */
  function Waiting(ps: seq<Producer>, args: seq<Task>, t: Task): nat
    requires |ps| == |args|
  {
    if ps == [] then 0 else One(ps[0], args[0], t) + Waiting(ps[1..], args[1..], t)
  }

  lemma {:induction false} WaitingUpdate(ps: seq<Producer>, args: seq<Task>, i: nat, p: Producer, arg: Task, t: Task)
    requires i < |ps| == |args|
    ensures Waiting(ps[i := p], args[i := arg], t) ==
      Waiting(ps, args, t) - One(ps[i], args[i], t) + One(p, arg, t)
  {
    if i == 0 {
      assert ps[0 := p][1..] == ps[1..] && args[0 := arg][1..] == args[1..];
    } else {
      assert ps[i := p][1..] == ps[1..][i - 1 := p] && args[i := arg][1..] == args[1..][i - 1 := arg];
      WaitingUpdate(ps[1..], args[1..], i - 1, p, arg, t);
    }
  }

  lemma {:induction false} NoneWaiting(ps: seq<Producer>, args: seq<Task>, t: Task)
    requires |ps| == |args| && forall i :: 0 <= i < |ps| ==> ps[i] == Idle
    ensures Waiting(ps, args, t) == 0
  {
    if ps != [] { NoneWaiting(ps[1..], args[1..], t); }
  }

  /** The calls with task t that are still to be accepted, and the acceptances. */
  function Balance(s: State, t: Task): nat
    requires |s.producers| == |s.args|
  {
    Waiting(s.producers, s.args, t) + Count(s.accepted, t)
  }

  lemma ProduceBalances(s: State, i: nat, woken: nat, t: Task)
    requires i < |s.producers| == |s.args| && ProduceStep(s, i, woken).To?
    ensures var s' := ProduceStep(s, i, woken).state;
      |s'.producers| == |s'.args| && Balance(s', t) == Balance(s, t)
  {
    var s' := ProduceStep(s, i, woken).state;
    ProduceShape(s, i, woken);
    assert s.args[i := s.args[i]] == s.args;
    WaitingUpdate(s.producers, s.args, i, s'.producers[i], s.args[i], t);
    PushAccepts(s, i, woken);
    hide ProduceStep, Waiting, Count;
    if s.producers[i] == Testing && |s.queue| != s.cap {
      CountAppend(s.accepted, [s.args[i]], t);
      CountOne(s.args[i], t);
    }
  }

  /** A producer's step changes the accepted tasks only when it appends its own. */
  lemma PushAccepts(s: State, i: nat, woken: nat)
    requires i < |s.producers| == |s.args| && ProduceStep(s, i, woken).To?
    ensures var s' := ProduceStep(s, i, woken).state;
      && |s'.producers| == |s.producers|
      && if s.producers[i] == Testing && |s.queue| != s.cap
         then s'.accepted == s.accepted + [s.args[i]] && !BeforePush(s'.producers[i])
         else s'.accepted == s.accepted && (BeforePush(s'.producers[i]) <==> BeforePush(s.producers[i]))
  {
    hide SignalWorker, CanSignalWorker;
    match s.producers[i]
    case Idle => case Wants => case Woken => case Testing => case FullSeen => case Asleep => case Pushed =>
    case Signalled =>
  }

  lemma CountOne(x: Task, t: Task)
    ensures Count([x], t) == if x == t then 1 else 0
  {
    assert [x][1..] == [];
  }

  lemma WorkBalances(s: State, i: nat, woken: nat, t: Task)
    requires i < |s.workers| && |s.producers| == |s.args| && WorkStep(s, i, woken).To?
    ensures var s' := WorkStep(s, i, woken).state;
      |s'.producers| == |s'.args| && Balance(s', t) == Balance(s, t)
  {
    WorkShape(s, i, woken);
    hide WorkStep, AnyAsleep, Waiting, Count;
    if s.workers[i].Popped? && AnyAsleep(s.producers) {
      assert s.args[woken := s.args[woken]] == s.args;
      WaitingUpdate(s.producers, s.args, woken, Woken, s.args[woken], t);
    }
  }

  lemma StepBalances(s: State, step: Step, t: Task)
    requires |s.producers| == |s.args| && Next(s, step).To?
    ensures var s' := Next(s, step).state;
      |s'.producers| == |s'.args| && Balance(s', t) == Balance(s, t) + Count(CalledBy(step), t)
  {
    hide ProduceStep, WorkStep, Waiting;
    match step
    case Begin(i, task) =>
      WaitingUpdate(s.producers, s.args, i, Wants, task, t);
      CountOne(task, t);
    case Produce(i, woken) => ProduceBalances(s, i, woken, t);
    case Work(i, woken) => WorkBalances(s, i, woken, t);
    case Stop =>
    case SpuriousProducer(i) =>
      assert s.args[i := s.args[i]] == s.args;
      WaitingUpdate(s.producers, s.args, i, Woken, s.args[i], t);
    case SpuriousWorker(_) =>
  }

  lemma {:induction false} RunBalances(s: State, run: seq<Step>, t: Task)
    requires |s.producers| == |s.args| && Exec(s, run).To?
    ensures var e := Exec(s, run).state;
      |e.producers| == |e.args| && Balance(e, t) == Balance(s, t) + Count(Called(run), t)
    decreases |run|
  {
    hide Balance;
    if run != [] {
      StepBalances(s, run[0], t);
      RunBalances(Next(s, run[0]).state, run[1..], t);
      CountAppend(CalledBy(run[0]), Called(run[1..]), t);
    }
  }

  /** Every call of AddTask is accounted for once: its task is still to be appended, or queued, or in one worker's
      hands, or finished; and no other task ever gets into the pool. */
  lemma EachCallOnce(s: State, cap: nat, producers: nat, workers: nat, run: seq<Step>, t: Task)
    requires Reached(s, cap, producers, workers, run)
    ensures |s.producers| == |s.args|
    ensures Count(Called(run), t) ==
      Waiting(s.producers, s.args, t) + Count(s.queue, t) + Hands(s.workers, t) + Count(s.finished, t)
  {
    var s0 := Init(cap, producers, workers);
    NoneWaiting(s0.producers, s0.args, t);
    RunBalances(s0, run, t);
    ExactlyOnceInOrder(s, cap, producers, workers, run, t);
  }
}
