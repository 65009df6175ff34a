/** The functor queue of an event loop, shared with other threads, and its wakeup pipe.  A
    step is one queue operation, one byte written to or read from the pipe, or one move of
    the loop between its phases. */
module EventLoops {
  /** Who queued a functor: another thread, the loop's thread before the loop started, an
      event handler or period functor, a running functor, or a timer callback. */
  datatype Origin = OtherThread | Startup | Handler | Running | TimerCallback

  datatype Functor = Functor(id: nat, origin: Origin)

  datatype Phase =
    | NotStarted
    | Polling                          // blocked, or about to block, in the poller
    | Handling(wakeupReady: bool)      // event handlers; the pipe may be among the ready channels
    | Calling(batch: seq<Functor>)     // running the functors swapped out
    | Timing                           // timer callbacks

  /** `writers` counts other threads between their push and their write to the pipe; `owes`
      says that the loop's own thread is between the two.  `queued`, `executed` and `swapped`
      record what was ever queued, what has run, and what was queued up to the last swap. */
  datatype State = State(
    phase: Phase, functors: seq<Functor>, pipe: nat, writers: nat, owes: bool,
    queued: seq<Functor>, executed: seq<Functor>, swapped: seq<Functor>)

  datatype Step =
    | PushFromOther(id: nat)
    | WakeFromOther
    | PushFromLoop(id: nat)
    | WakeFromLoop
    | Start
    | PollReturns(wakeupReady: bool)
    | ProcessWakeUp
    | SwapFunctors
    | RunFunctor
    | FunctorsDone
    | TimersDone

  const INITIAL := State(NotStarted, [], 0, 0, false, [], [], [])

  function OriginIn(phase: Phase): Origin {
    match phase
    case NotStarted => Startup
    case Calling(_) => Running
    case Timing => TimerCallback
    case _ => Handler
  }

  /** The loop's own thread wakes the loop up only while functors run or before the start. */
  predicate WakesItself(phase: Phase) {
    phase.NotStarted? || phase.Calling?
  }

  predicate Enabled(s: State, step: Step) {
    match step
    case PushFromOther(_) => true
    case WakeFromOther => s.writers > 0
    case PushFromLoop(_) => !s.phase.Polling? && !s.owes
    case WakeFromLoop => s.owes
    case Start => s.phase.NotStarted? && !s.owes
    case PollReturns(ready) => s.phase.Polling? && (ready ==> s.pipe > 0)
    case ProcessWakeUp => s.phase.Handling? && s.phase.wakeupReady && s.pipe > 0
    case SwapFunctors => s.phase.Handling? && !s.phase.wakeupReady
    case RunFunctor => s.phase.Calling? && s.phase.batch != [] && !s.owes
    case FunctorsDone => s.phase.Calling? && s.phase.batch == [] && !s.owes
    case TimersDone => s.phase.Timing?
  }

  function Push(s: State, f: Functor): State {
    s.(functors := s.functors + [f], queued := s.queued + [f])
  }

  function Apply(s: State, step: Step): State
    requires Enabled(s, step)
  {
    match step
    case PushFromOther(id) => Push(s, Functor(id, OtherThread)).(writers := s.writers + 1)
    case WakeFromOther => s.(writers := s.writers - 1, pipe := s.pipe + 1)
    case PushFromLoop(id) => Push(s, Functor(id, OriginIn(s.phase))).(owes := WakesItself(s.phase))
    case WakeFromLoop => s.(owes := false, pipe := s.pipe + 1)
    case Start => s.(phase := Polling)
    case PollReturns(ready) => s.(phase := Handling(ready))
    case ProcessWakeUp => s.(phase := Handling(false), pipe := s.pipe - 1)
    case SwapFunctors => s.(phase := Calling(s.functors), functors := [], swapped := s.queued)
    case RunFunctor => s.(phase := Calling(s.phase.batch[1..]), executed := s.executed + [s.phase.batch[0]])
    case FunctorsDone => s.(phase := Timing)
    case TimersDone => s.(phase := Polling)
  }

  function Batch(s: State): seq<Functor> {
    if s.phase.Calling? then s.phase.batch else []
  }

  ghost predicate WokenOrTimer(s: State) {
    (exists f :: f in s.functors && f.origin != TimerCallback) ==> s.pipe > 0 || s.writers > 0 || s.owes
  }

  ghost predicate Inv(s: State) {
    // nothing is lost, doubled or reordered
    && s.queued == s.executed + Batch(s) + s.functors
    // a round runs what was queued up to its swap
    && s.executed + Batch(s) == s.swapped
    // nothing is left without a wakeup once the functors of this round are swapped out
    && (!s.phase.Handling? ==> WokenOrTimer(s))
    && (s.owes ==> WakesItself(s.phase))
    // a pipe reported ready stays ready: only the loop reads it
    && (s.phase.Handling? && s.phase.wakeupReady ==> s.pipe > 0)
  }

  lemma StepKeepsInv(s: State, step: Step)
    requires Inv(s) && Enabled(s, step)
    ensures Inv(Apply(s, step))
  {
    StepKeepsOrder(s, step);
    hide Batch;
    if step.PushFromLoop? && !s.phase.Handling? {
      PushFromLoopKeepsWakeup(s, step.id);
    }
  }

  lemma StepKeepsOrder(s: State, step: Step)
    requires Inv(s) && Enabled(s, step)
    ensures var s' := Apply(s, step);
            s'.queued == s'.executed + Batch(s') + s'.functors && s'.executed + Batch(s') == s'.swapped
  {
    hide WokenOrTimer;
    if step.RunFunctor? {
      var batch := s.phase.batch;
      assert s.executed + batch == s.executed + [batch[0]] + batch[1..];
    }
  }

  lemma PushFromLoopKeepsWakeup(s: State, id: nat)
    requires Inv(s) && Enabled(s, PushFromLoop(id)) && !s.phase.Handling?
    ensures WokenOrTimer(Apply(s, PushFromLoop(id)))
  {
    var s' := Apply(s, PushFromLoop(id));
    if !s'.owes && exists f :: f in s'.functors && f.origin != TimerCallback {
      var f :| f in s'.functors && f.origin != TimerCallback;
      assert f in s.functors;
    }
  }

  // ---- every run ----

  ghost predicate IsRun(s: State, steps: seq<Step>)
    decreases |steps|
  {
    steps == [] || (Enabled(s, steps[0]) && IsRun(Apply(s, steps[0]), steps[1..]))
  }

  ghost function Outcome(s: State, steps: seq<Step>): State
    requires IsRun(s, steps)
    decreases |steps|
  {
    if steps == [] then s else Outcome(Apply(s, steps[0]), steps[1..])
  }

  lemma {:induction false} RunKeepsInv(s: State, steps: seq<Step>)
    requires Inv(s) && IsRun(s, steps)
    ensures Inv(Outcome(s, steps))
    decreases |steps|
  {
    if steps != [] {
      StepKeepsInv(s, steps[0]);
      RunKeepsInv(Apply(s, steps[0]), steps[1..]);
    }
  }

  // ---- what runs, read off the steps ----

  /** The ids that the steps push, from other threads and from the loop's own. */
  function PushedIds(steps: seq<Step>): seq<nat> {
    if steps == [] then []
    else
      (match steps[0]
       case PushFromOther(id) => [id]
       case PushFromLoop(id) => [id]
       case _ => [])
      + PushedIds(steps[1..])
  }

  /** How many ids had been pushed before the last swap, of `n` before these steps. */
  function PushedBeforeSwap(steps: seq<Step>, n: nat, swapped: nat): nat
    decreases |steps|
  {
    if steps == [] then swapped
    else PushedBeforeSwap(steps[1..], n + |PushedIds([steps[0]])|, if steps[0].SwapFunctors? then n else swapped)
  }

  function Ids(fs: seq<Functor>): seq<nat> {
    seq(|fs|, i requires 0 <= i < |fs| => fs[i].id)
  }

  lemma PushedIdsByOne(steps: seq<Step>)
    requires steps != []
    ensures PushedIds(steps) == PushedIds([steps[0]]) + PushedIds(steps[1..])
  {
    assert [steps[0]][1..] == [];
  }

  lemma StepQueuesItsPush(s: State, step: Step)
    requires Enabled(s, step)
    ensures Ids(Apply(s, step).queued) == Ids(s.queued) + PushedIds([step])
    ensures |Apply(s, step).swapped| == if step.SwapFunctors? then |s.queued| else |s.swapped|
  {
    assert [step][1..] == [];
  }

  lemma {:induction false} RunQueuesItsPushes(s: State, steps: seq<Step>)
    requires IsRun(s, steps)
    ensures Ids(Outcome(s, steps).queued) == Ids(s.queued) + PushedIds(steps)
    ensures |Outcome(s, steps).swapped| == PushedBeforeSwap(steps, |s.queued|, |s.swapped|)
    decreases |steps|
  {
    hide Ids, Apply, Enabled;
    IdsKeepLength(s.queued);
    if steps == [] {
      assert Ids(s.queued) + [] == Ids(s.queued);
    } else {
      var s1 := Apply(s, steps[0]);
      StepQueuesItsPush(s, steps[0]);
      IdsKeepLength(s1.queued);
      PushedIdsByOne(steps);
      RunQueuesItsPushes(s1, steps[1..]);
      assert Ids(s.queued) + PushedIds([steps[0]]) + PushedIds(steps[1..]) == Ids(s.queued) + PushedIds(steps);
    }
  }

  lemma IdsKeepLength(fs: seq<Functor>)
    ensures |Ids(fs)| == |fs|
  {
  }

  lemma IdsOfConcat(a: seq<Functor>, b: seq<Functor>)
    ensures Ids(a + b) == Ids(a) + Ids(b)
  {
  }

  /** Functors run in the order in which they were pushed, none twice and none skipped, and
      what has not run is still waiting, in this order. */
  lemma FunctorsRunInOrder(steps: seq<Step>)
    requires IsRun(INITIAL, steps)
    ensures var s := Outcome(INITIAL, steps);
            PushedIds(steps) == Ids(s.executed) + Ids(Batch(s) + s.functors)
  {
    hide Ids;
    RunKeepsInv(INITIAL, steps);
    RunQueuesItsPushes(INITIAL, steps);
    IdsKeepLength([]);
    var s := Outcome(INITIAL, steps);
    assert s.queued == s.executed + (Batch(s) + s.functors);
    IdsOfConcat(s.executed, Batch(s) + s.functors);
  }

  /** When a round is over, exactly the functors pushed before its swap have run; functors
      pushed while they ran wait for the next round. */
  lemma RoundRunsWhatWasQueued(steps: seq<Step>)
    requires IsRun(INITIAL, steps)
    ensures var s, n := Outcome(INITIAL, steps), PushedBeforeSwap(steps, 0, 0);
            !s.phase.Calling? ==>
              n <= |PushedIds(steps)| && Ids(s.executed) == PushedIds(steps)[..n] && Ids(s.functors) == PushedIds(steps)[n..]
  {
    hide Ids, PushedBeforeSwap;
    RunKeepsInv(INITIAL, steps);
    RunQueuesItsPushes(INITIAL, steps);
    var s := Outcome(INITIAL, steps);
    if !s.phase.Calling? {
      assert s.executed + Batch(s) == s.executed && Batch(s) + s.functors == s.functors;
      FunctorsRunInOrder(steps);
      IdsKeepLength(s.executed);
    }
  }

  // ---- a round ----

  function Repeat(step: Step, n: nat): seq<Step> {
    seq(n, _ => step)
  }

  lemma {:induction false} BatchRuns(s: State, n: nat)
    requires s.phase.Calling? && n == |s.phase.batch| && !s.owes
    ensures IsRun(s, Repeat(RunFunctor, n))
    ensures Outcome(s, Repeat(RunFunctor, n)) == s.(phase := Calling([]), executed := s.executed + s.phase.batch)
    decreases n
  {
    if n > 0 {
      var s1 := Apply(s, RunFunctor);
      BatchRuns(s1, n - 1);
      assert Repeat(RunFunctor, n) == [RunFunctor] + Repeat(RunFunctor, n - 1);
      OneStep(s, RunFunctor, Repeat(RunFunctor, n - 1));
      assert s.executed + s.phase.batch == s1.executed + s1.phase.batch;
    }
  }

  /** The steps of a round in which nobody interferes. */
  function Round(woken: bool, n: nat): seq<Step> {
    [PollReturns(woken)] + ((if woken then [ProcessWakeUp] else []) + ([SwapFunctors] + (Repeat(RunFunctor, n) + [FunctorsDone])))
  }

  /** Whenever the loop is in the poller, a round is possible, woken up if a byte is in the
      pipe, and after it everything that was waiting has run. */
  lemma RoundRunsEverything(steps: seq<Step>)
    requires IsRun(INITIAL, steps) && Outcome(INITIAL, steps).phase.Polling?
    ensures var s := Outcome(INITIAL, steps);
            var round := Round(s.pipe > 0, |s.functors|);
            IsRun(s, round) && Ids(Outcome(s, round).executed) == PushedIds(steps) && Outcome(s, round).functors == []
  {
    hide Ids;
    RunKeepsInv(INITIAL, steps);
    FunctorsRunInOrder(steps);
    var s := Outcome(INITIAL, steps);
    assert Batch(s) + s.functors == s.functors;
    IdsOfConcat(s.executed, s.functors);
    RoundFrom(s);
  }

  lemma RoundFrom(s: State)
    requires s.phase.Polling? && !s.owes
    ensures var round := Round(s.pipe > 0, |s.functors|);
            IsRun(s, round) && Outcome(s, round).executed == s.executed + s.functors && Outcome(s, round).functors == []
  {
    var n, woken := |s.functors|, s.pipe > 0;
    var tail := [SwapFunctors] + (Repeat(RunFunctor, n) + [FunctorsDone]);
    var s1 := Apply(s, PollReturns(woken));
    var s2 := if woken then Apply(s1, ProcessWakeUp) else s1;
    var s3 := Apply(s2, SwapFunctors);
    BatchRuns(s3, n);
    RunsCompose(s3, Repeat(RunFunctor, n), [FunctorsDone]);
    OneStep(s2, SwapFunctors, Repeat(RunFunctor, n) + [FunctorsDone]);
    if woken {
      OneStep(s1, ProcessWakeUp, tail);
    } else {
      assert [] + tail == tail;
    }
    OneStep(s, PollReturns(woken), (if woken then [ProcessWakeUp] else []) + tail);
  }

  lemma {:induction false} RunsCompose(s: State, a: seq<Step>, b: seq<Step>)
    requires IsRun(s, a) && IsRun(Outcome(s, a), b)
    ensures IsRun(s, a + b) && Outcome(s, a + b) == Outcome(Outcome(s, a), b)
    decreases |a|
  {
    hide Apply, Enabled;
    if a == [] {
      assert a + b == b;
    } else {
      RunsCompose(Apply(s, a[0]), a[1..], b);
      assert a + b == [a[0]] + (a[1..] + b);
      OneStep(s, a[0], a[1..] + b);
    }
  }

  /** Whether a timer callback has queued a functor since the last swap, given whether one
      had at the start. */
  ghost predicate TimerPushed(s: State, steps: seq<Step>, before: bool)
    requires IsRun(s, steps)
    decreases |steps|
  {
    if steps == [] then before
    else
      TimerPushed(Apply(s, steps[0]), steps[1..],
                  !steps[0].SwapFunctors? && (before || (steps[0].PushFromLoop? && s.phase.Timing?)))
  }

  ghost predicate TimerFunctorWaits(s: State) {
    exists f :: f in s.functors && f.origin == TimerCallback
  }

  lemma StepTracksTimerFunctors(s: State, step: Step)
    requires Enabled(s, step)
    ensures TimerFunctorWaits(Apply(s, step))
            <==> !step.SwapFunctors? && (TimerFunctorWaits(s) || (step.PushFromLoop? && s.phase.Timing?))
  {
    var s' := Apply(s, step);
    if step.PushFromOther? || step.PushFromLoop? {
      assert s'.functors == s.functors + [s'.functors[|s.functors|]];
      assert forall f :: f in s'.functors <==> f in s.functors || f == s'.functors[|s.functors|];
    }
  }

  lemma {:induction false} RunTracksTimerFunctors(s: State, steps: seq<Step>)
    requires IsRun(s, steps)
    ensures TimerPushed(s, steps, TimerFunctorWaits(s)) <==> TimerFunctorWaits(Outcome(s, steps))
    decreases |steps|
  {
    hide TimerFunctorWaits;
    if steps != [] {
      StepTracksTimerFunctors(s, steps[0]);
      RunTracksTimerFunctors(Apply(s, steps[0]), steps[1..]);
    }
  }

  /** When the loop blocks with nothing in the pipe and no writer on the way, a functor waits
      if and only if a timer callback has queued one since the last swap, and all that wait
      come from timer callbacks. */
  lemma SleepsExactlyOnTimerFunctors(steps: seq<Step>)
    requires IsRun(INITIAL, steps)
    ensures var s := Outcome(INITIAL, steps);
            s.phase.Polling? && s.pipe == 0 && s.writers == 0
            ==> (s.functors != [] <==> TimerPushed(INITIAL, steps, false))
                && forall f :: f in s.functors ==> f.origin == TimerCallback
  {
    RunKeepsInv(INITIAL, steps);
    RunTracksTimerFunctors(INITIAL, steps);
    var s := Outcome(INITIAL, steps);
    assert s.functors != [] ==> s.functors[0] in s.functors;
  }

  /** And any functor that a timer callback queues can be slept on. */
  lemma TimerFunctorsAreSleptOn(id: nat)
    ensures var steps := [Start, PollReturns(false), SwapFunctors, FunctorsDone, PushFromLoop(id), TimersDone];
            IsRun(INITIAL, steps)
            && var s := Outcome(INITIAL, steps);
               s.phase.Polling? && s.pipe == 0 && s.writers == 0 && s.functors == [Functor(id, TimerCallback)]
  {
    var s1 := Apply(INITIAL, Start);
    var s2 := Apply(s1, PollReturns(false));
    var s3 := Apply(s2, SwapFunctors);
    var s4 := Apply(s3, FunctorsDone);
    var s5 := Apply(s4, PushFromLoop(id));
    var s6 := Apply(s5, TimersDone);
    OneStep(s5, TimersDone, []);
    OneStep(s4, PushFromLoop(id), [TimersDone]);
    OneStep(s3, FunctorsDone, [PushFromLoop(id), TimersDone]);
    OneStep(s2, SwapFunctors, [FunctorsDone, PushFromLoop(id), TimersDone]);
    OneStep(s1, PollReturns(false), [SwapFunctors, FunctorsDone, PushFromLoop(id), TimersDone]);
    OneStep(INITIAL, Start, [PollReturns(false), SwapFunctors, FunctorsDone, PushFromLoop(id), TimersDone]);
  }

  lemma OneStep(s: State, step: Step, rest: seq<Step>)
    requires Enabled(s, step) && IsRun(Apply(s, step), rest)
    ensures IsRun(s, [step] + rest) && Outcome(s, [step] + rest) == Outcome(Apply(s, step), rest)
  {
    assert ([step] + rest)[1..] == rest;
  }

  /** The loop never waits on a pipe that was reported ready: its byte is still there. */
  lemma ReadyPipeHasByte(steps: seq<Step>)
    requires IsRun(INITIAL, steps)
    ensures var s := Outcome(INITIAL, steps); s.phase.Handling? && s.phase.wakeupReady ==> Enabled(s, ProcessWakeUp)
  {
    RunKeepsInv(INITIAL, steps);
  }
}
