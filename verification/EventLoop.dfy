/** Callbacks deferred to the event loop (EventLoop::RunInLoop and the eventfd branch of WaitEpollFd) as a
    transition system. Any number of threads post callbacks; one loop thread runs them. The push and the swap of
    the pending list are each one statement under the mutex, so each is one step here; the write to the eventfd
    comes after the mutex is released and is a step of its own. */
module EventLoop {
  type Callback = nat

  /** Pushed: the callback is in the pending list and WakeUp has not written yet. */
  datatype Poster = Out | Pushed

  /** The loop thread: in epoll_wait; told that the eventfd is readable; after HandleRead; in DoPengingFunctors
      after the swap; there, inside a callback that has itself pushed a callback and not yet written. */
  datatype Loop = Waiting | Reported | HasRead | Running | RunningPushed

  datatype State = State(
    pending: seq<Callback>,  // _pengings_callback
    counter: nat,            // the eventfd's counter
    posters: seq<Poster>,
    loop: Loop,
    hand: seq<Callback>,     // what is left of the swapped-out vector
    ran: seq<Callback>)      // history: every callback started, in order

  /** The largest value an eventfd holds; a write that would pass it blocks. */
  const MAX_COUNTER: nat := 0xFFFF_FFFF_FFFF_FFFE

  /** CreateEventFd makes the eventfd with the initial value 10. */
  function Init(posters: nat): State {
    State([], 10, seq(posters, _ => Out), Waiting, [], [])
  }

  datatype Step =
    | Push(i: nat, cb: Callback)   // poster i: push_back under the mutex
    | Write(i: nat)                // poster i: WakeUp
    | LoopPush(cb: Callback)       // a running callback calls RunInLoop: its push_back
    | LoopStep                     // the loop's next action
    | OtherEvent                   // epoll_wait times out or reports other descriptors

  datatype Outcome = Stuck | To(state: State)

  /** What the loop thread does next of its own accord. Stuck in epoll_wait while the counter is 0, and in a read
      or write that blocks. */
  function LoopNext(s: State): Outcome {
    match s.loop
    case Waiting => if s.counter > 0 then To(s.(loop := Reported)) else Stuck
    case Reported => if s.counter > 0 then To(s.(counter := 0, loop := HasRead)) else Stuck
    case HasRead => To(s.(hand := s.pending, pending := [], loop := Running))
    case Running =>
      if s.hand == [] then To(s.(loop := Waiting))
      else To(s.(ran := s.ran + [s.hand[0]], hand := s.hand[1..]))
    case RunningPushed => if s.counter < MAX_COUNTER then To(s.(counter := s.counter + 1, loop := Running)) else Stuck
  }

  function Next(s: State, step: Step): Outcome {
    match step
    case Push(i, cb) =>
      if i < |s.posters| && s.posters[i] == Out
      then To(s.(pending := s.pending + [cb], posters := s.posters[i := Pushed]))
      else Stuck
    case Write(i) =>
      if i < |s.posters| && s.posters[i] == Pushed && s.counter < MAX_COUNTER
      then To(s.(counter := s.counter + 1, posters := s.posters[i := Out]))
      else Stuck
    case LoopPush(cb) =>
      if s.loop == Running
      then To(s.(pending := s.pending + [cb], loop := RunningPushed))
      else Stuck
    case LoopStep => LoopNext(s)
    case OtherEvent => if s.loop == Waiting then To(s) else Stuck
  }

  function Exec(s: State, run: seq<Step>): Outcome
    decreases |run|
  {
    if run == [] then To(s)
    else match Next(s, run[0]) { case Stuck => Stuck case To(s') => Exec(s', run[1..]) }
  }

  function PostedBy(step: Step): seq<Callback> {
    match step case Push(_, cb) => [cb] case LoopPush(cb) => [cb] case _ => []
  }

  /** The callbacks that a run posts, in the order of the pushes. */
  function Posted(run: seq<Step>): seq<Callback> {
    if run == [] then [] else PostedBy(run[0]) + Posted(run[1..])
  }

  /** The callbacks that were run, then those that will be, in order. */
  function Order(s: State): seq<Callback> { s.ran + s.hand + s.pending }

  predicate AnyPushed(posters: seq<Poster>) { exists i :: 0 <= i < |posters| && posters[i] == Pushed }

  predicate Inv(s: State) {
    && (s.hand != [] ==> s.loop == Running || s.loop == RunningPushed)
    && (s.pending != [] ==> s.counter > 0 || AnyPushed(s.posters) || s.loop == HasRead || s.loop == RunningPushed)
    && (s.loop == Reported ==> s.counter > 0)
  }

  lemma StepKeepsInv(s: State, step: Step)
    requires Inv(s) && Next(s, step).To?
    ensures Inv(Next(s, step).state)
  {
    var s' := Next(s, step).state;
    match step
    case Push(i, cb) => assert s'.posters[i] == Pushed;
    case Write(_) =>
    case LoopPush(_) =>
    case LoopStep =>
    case OtherEvent =>
  }

  /** A step puts what it posts at the end, and moves nothing else. */
  lemma StepKeepsOrder(s: State, step: Step)
    requires Inv(s) && Next(s, step).To?
    ensures Order(Next(s, step).state) == Order(s) + PostedBy(step)
  {
    match step
    case Push(_, cb) => Associates(s.ran + s.hand, s.pending, [cb]);
    case LoopPush(cb) => Associates(s.ran + s.hand, s.pending, [cb]);
    case Write(_) =>
    case LoopStep => LoopKeepsOrder(s);
    case OtherEvent =>
  }

  lemma LoopKeepsOrder(s: State)
    requires Inv(s) && LoopNext(s).To?
    ensures Order(LoopNext(s).state) == Order(s)
  {
    match s.loop
    case HasRead => Associates(s.ran, [], s.pending);
    case Running => if s.hand != [] { NextInHand(s.ran, s.hand); }
    case _ =>
  }

  lemma NextInHand(ran: seq<Callback>, hand: seq<Callback>)
    requires hand != []
    ensures ran + [hand[0]] + hand[1..] == ran + hand
  {
    assert hand == [hand[0]] + hand[1..];
  }

  lemma Associates(a: seq<Callback>, b: seq<Callback>, c: seq<Callback>)
    ensures a + (b + c) == a + b + c
  {
  }

  lemma {:induction false} RunKeepsInv(s: State, run: seq<Step>)
    requires Inv(s) && Exec(s, run).To?
    ensures Inv(Exec(s, run).state) && Order(Exec(s, run).state) == Order(s) + Posted(run)
    decreases |run|
  {
    hide Inv, Order;
    if run != [] {
      StepKeepsInv(s, run[0]);
      StepKeepsOrder(s, run[0]);
      RunKeepsInv(Next(s, run[0]).state, run[1..]);
      Associates(Order(s), PostedBy(run[0]), Posted(run[1..]));
    }
  }

  /** In every reachable state: every callback that the run has posted has been run, is about to be run, or is pending,
      each once and in the order of posting; and a pending callback always has a wake-up on its way. */
  lemma NeverStranded(s: State, posters: nat, run: seq<Step>)
    requires Exec(Init(posters), run) == To(s)
    ensures Posted(run) == s.ran + s.hand + s.pending
    ensures s.pending != [] ==>
      s.counter > 0 || AnyPushed(s.posters) || s.loop == HasRead || s.loop == RunningPushed
    ensures s.loop == Reported ==> LoopNext(s).To?  // HandleRead never blocks
  {
    RunKeepsInv(Init(posters), run);
  }

  /** The first epoll_wait returns at once, whatever has been posted by then: the initial value of the eventfd counts as
      a wake-up. */
  lemma WakesAtStart(s: State, posters: nat, run: seq<Step>)
    requires Exec(Init(posters), run) == To(s) && LoopStep !in run
    ensures s.loop == Waiting && s.counter >= 10 && LoopNext(s).To?
  {
    OnlyGrows(s, Init(posters), run);
  }

  lemma {:induction false} OnlyGrows(e: State, s: State, run: seq<Step>)
    requires Exec(s, run) == To(e) && LoopStep !in run && s.loop == Waiting
    ensures e.loop == Waiting && e.counter >= s.counter && e.ran == s.ran
    decreases |run|
  {
    if run != [] {
      assert run[0] in run && forall step :: step in run[1..] ==> step in run;
      OnlyGrows(e, Next(s, run[0]).state, run[1..]);
    }
  }

  // ----- delivery -----

  /** How far the loop is from being back in epoll_wait with nothing to read. */
  function Distance(s: State): nat {
    match s.loop
    case Waiting => if s.counter > 0 then 5 + |s.pending| else 0
    case Reported => 4 + |s.pending|
    case HasRead => 3 + |s.pending| + (if s.counter > 0 then 5 else 0)
    case Running => 1 + |s.hand| + (if s.counter > 0 then 5 + |s.pending| else 0)
    case RunningPushed => 7 + |s.hand| + |s.pending|
  }

  lemma LoopNears(s: State)
    requires LoopNext(s).To?
    ensures Distance(LoopNext(s).state) < Distance(s)
  {
  }

  /** The state after the loop has gone on alone until it blocks. */
  function Settle(s: State): State
    decreases Distance(s)
  {
    match LoopNext(s)
    case Stuck => s
    case To(s') => LoopNears(s); Settle(s')
  }

  lemma {:induction false} SettleKeeps(s: State)
    requires Inv(s) && (s.loop == RunningPushed ==> s.counter < MAX_COUNTER)
    ensures Order(Settle(s)) == Order(s) && Settle(s).posters == s.posters && Inv(Settle(s))
    ensures Settle(s).loop == Waiting && Settle(s).counter == 0
    decreases Distance(s)
  {
    if LoopNext(s).To? {
      StepKeepsInv(s, LoopStep);
      StepKeepsOrder(s, LoopStep);
      LoopNears(s);
      SettleKeeps(LoopNext(s).state);
    }
  }

  /** Once no thread is between its push and its write, the loop by itself runs every callback that was posted, in
      the order of posting, before it blocks in epoll_wait; unless it is blocked writing to a full eventfd from
      within a callback. */
  lemma AllCallbacksRun(s: State, posters: nat, run: seq<Step>)
    requires Exec(Init(posters), run) == To(s) && !AnyPushed(s.posters)
    requires s.loop == RunningPushed ==> s.counter < MAX_COUNTER
    ensures Settle(s).ran == Posted(run) && Settle(s).pending == [] && Settle(s).hand == []
    ensures Settle(s).loop == Waiting
  {
    RunKeepsInv(Init(posters), run);
    SettleKeeps(s);
    assert Order(Init(posters)) + Posted(run) == Posted(run);
    assert Order(Settle(s)) == Settle(s).ran;
  }
}
