/** The hierarchical timer wheel: five rings of slots, two copies of the hands, a map from
    ids to timers and a queue of deadlines.  `live` and `origin` are the plain plan that the
    rest of the object indexes. */
module TimerWheels {
  import opened Options
  import opened MixedRadix
  import opened TimerPlan
  import opened DeadlineQueue
  import opened TimerRuns
  import opened TimerRings
  import opened TimerSplice
  import opened TimerRequests

  datatype SlotPos = SlotPos(wheel: nat, slot: nat)

  /** Where the sum `t` of the hands `v` and an interval is placed.  A sum of 2^31 or more
      overflows: it is placed at the highest non-zero hand of the wrapped sum, and a sum of
      exactly 2^31 has no such hand. */
  ghost predicate PositionOfSum(v: nat, t: nat, pos: Option<SlotPos>, overflow: bool)
    requires v < RANGE
  {
    && (overflow <==> t >= RANGE)
    && (!overflow ==> pos == Some(SlotPos(Level(t, v), Digit(t, Level(t, v)))))
    && (overflow ==> HighestHand(Digits(t), pos) && (pos.None? <==> t == RANGE))
  }

  ghost predicate HighestHand(hands: seq<nat>, pos: Option<SlotPos>)
    requires |hands| == WHEEL_COUNT
  {
    match pos
    case None => forall k :: 0 <= k < WHEEL_COUNT ==> hands[k] == 0
    case Some(SlotPos(w, s)) => w < WHEEL_COUNT && hands[w] == s != 0 && forall k :: w < k < WHEEL_COUNT ==> hands[k] == 0
  }

  /** Adds `interval` to the hands digit by digit, up to the first wheel without a carry. */
  method AddToHands(hands: seq<nat>, interval: nat) returns (newHands: seq<nat>, pos: Option<SlotPos>, overflow: bool)
    requires HandsInRange(hands) && interval < RANGE
    ensures Value(hands) < RANGE
    ensures newHands == Digits(Value(hands) + interval)
    ensures PositionOfSum(Value(hands), Value(hands) + interval, pos, overflow)
  {
    hide Value, Digit, High, HighestHand;
    ghost var v := Value(hands);
    ghost var t := v + interval;
    ghost var sum := Digits(t);
    DigitsOfValue(hands);
    HighAtZero(v);
    HighAtZero(t);
    newHands := hands;
    var addend: nat := interval;
    var idx := 0;
    while idx != WHEEL_COUNT
      invariant 0 <= idx <= WHEEL_COUNT && |newHands| == WHEEL_COUNT
      invariant addend + High(v, idx) == High(t, idx)
      invariant idx > 0 ==> addend != 0
      invariant forall k :: 0 <= k < idx ==> newHands[k] == sum[k]
      invariant forall k :: idx <= k < WHEEL_COUNT ==> newHands[k] == hands[k]
    {
      CarryStep(v, t, idx, addend);
      var count := SlotCount(idx);
      var mod, res := addend % count, addend / count;
      var hand := mod + hands[idx];
      if hand >= count {
        hand := hand - count;
        res := res + 1;
      }
      newHands := newHands[idx := hand];
      if res == 0 {
        SumStopsAt(v, t, idx);
        return newHands, Some(SlotPos(idx, newHands[idx])), false;
      }
      addend := res;
      idx := idx + 1;
    }
    RangeByHigh(v);
    RangeByHigh(t);
    overflow := true;
    assert newHands == sum;
    pos := FindHighestHand(newHands);
    OnlyRangeHasNoHand(t, pos);
  }

  lemma OnlyRangeHasNoHand(t: nat, pos: Option<SlotPos>)
    requires RANGE <= t < 2 * RANGE && HighestHand(Digits(t), pos)
    ensures pos.None? <==> t == RANGE
  {
    ZeroDigits(t);
  }

  method FindHighestHand(hands: seq<nat>) returns (pos: Option<SlotPos>)
    requires |hands| == WHEEL_COUNT
    ensures HighestHand(hands, pos)
  {
    var idx := 0;
    while idx != WHEEL_COUNT
      invariant 0 <= idx <= WHEEL_COUNT
      invariant forall k :: WHEEL_COUNT - idx <= k < WHEEL_COUNT ==> hands[k] == 0
    {
      var wheelIdx := WHEEL_COUNT - idx - 1;
      if hands[wheelIdx] != 0 {
        return Some(SlotPos(wheelIdx, hands[wheelIdx]));
      }
      idx := idx + 1;
    }
    return None;
  }

  lemma SumStopsAt(v: nat, t: nat, idx: nat)
    requires v < RANGE && idx < WHEEL_COUNT
    requires High(v, idx + 1) == High(t, idx + 1) && (idx == 0 || High(v, idx) != High(t, idx))
    ensures t < RANGE && Level(t, v) == idx
    ensures forall k :: idx < k < WHEEL_COUNT ==> Digit(v, k) == Digit(t, k)
  {
    RangeByHigh(v);
    HighAgreesAbove(v, t, idx + 1, WHEEL_COUNT);
    RangeByHigh(t);
    LevelUnique(t, v, idx);
    forall k | idx < k < WHEEL_COUNT ensures Digit(v, k) == Digit(t, k) {
      SameDigitsAbove(v, t, idx + 1, k);
    }
  }

  /** The three redundant structures that stand for the plan. */
  ghost predicate Represents(wheels: Rings, timers: map<nat, Timer>, queue: seq<nat>, p: Plan) {
    && ValidPlan(p)
    && Indexes(wheels, p.live, p.origin, p.last - p.origin)
    && MapsIds(timers, p.live)
    && Tracks(queue, p.live)
  }

  class TimerWheel {
    const handsCopy: array2<nat>
    var handsIdx: nat
    var lastTimerId: nat
    var lastExpireTime: nat
    var wheels: Rings
    var timers: map<nat, Timer>
    var expireTimeQueue: seq<nat>
    ghost var live: seq<Timer>
    ghost var origin: int

    ghost predicate Shape()
      reads this
    {
      handsCopy.Length0 == 2 && handsCopy.Length1 == WHEEL_COUNT
      && handsIdx < 2
    }

    ghost function HandsRow(row: nat): (r: seq<nat>)
      requires Shape() && row < 2
      reads this, handsCopy
      ensures |r| == WHEEL_COUNT
    {
      [handsCopy[row, 0], handsCopy[row, 1], handsCopy[row, 2], handsCopy[row, 3], handsCopy[row, 4]]
    }

    /** The time that the current hands show. */
    ghost function Shown(): nat
      requires Shape()
      reads this, handsCopy
    {
      Value(HandsRow(handsIdx))
    }

    ghost predicate HandsOk()
      reads this, handsCopy
    {
      Shape() && HandsInRange(HandsRow(handsIdx))
    }

    ghost function ThePlan(): Plan
      reads this
    {
      Plan(live, lastTimerId, lastExpireTime, origin)
    }

    ghost predicate Valid()
      reads this, handsCopy
    {
      && HandsOk() && Shown() == lastExpireTime - origin
      && Represents(wheels, timers, expireTimeQueue, ThePlan())
    }

    constructor (now: nat)
      ensures Valid() && ThePlan() == Plan([], 0, now, now)
      ensures fresh(handsCopy)
    {
      handsCopy := new nat[2, WHEEL_COUNT]((i, j) => 0);
      wheels := EmptyRings();
      handsIdx, lastTimerId, lastExpireTime := 0, 0, now;
      timers, expireTimeQueue := map[], [];
      live, origin := [], now;
    }

    /** Only the time of the last step moves, so the wheel must be empty. */
    method Start(now: nat)
      requires Valid() && live == []
      modifies this`lastExpireTime, this`origin
      ensures Valid() && ThePlan() == Restarted(old(ThePlan()), now)
    {
      lastExpireTime := now;
      origin := now - Shown();
    }

    /** Finds the slot for `interval` from now; with `updateHands` the other copy of the
        hands is set to that time. */
    method FindPos(interval: nat, updateHands: bool) returns (pos: Option<SlotPos>, overflow: bool)
      requires HandsOk() && interval < RANGE
      modifies if updateHands then {handsCopy} else {}
      ensures HandsOk() && HandsRow(handsIdx) == old(HandsRow(handsIdx))
      ensures updateHands ==> HandsRow(1 - handsIdx) == Digits(Shown() + interval)
      ensures PositionOfSum(Shown(), Shown() + interval, pos, overflow)
    {
      var hands := [handsCopy[handsIdx, 0], handsCopy[handsIdx, 1], handsCopy[handsIdx, 2], handsCopy[handsIdx, 3], handsCopy[handsIdx, 4]];
      var newHands;
      newHands, pos, overflow := AddToHands(hands, interval);
      if updateHands {
        StoreHands(newHands);
      }
    }

    method StoreHands(newHands: seq<nat>)
      requires Shape() && |newHands| == WHEEL_COUNT
      modifies handsCopy
      ensures HandsRow(1 - handsIdx) == newHands
      ensures HandsRow(handsIdx) == old(HandsRow(handsIdx))
    {
      var row := 1 - handsIdx;
      handsCopy[row, 0], handsCopy[row, 1], handsCopy[row, 2], handsCopy[row, 3], handsCopy[row, 4] :=
        newHands[0], newHands[1], newHands[2], newHands[3], newHands[4];
    }

    method NextTimeout(now: nat) returns (wait: int)
      requires Valid()
      ensures IsWait(live, now, wait)
    {
      DeadlinesMembers(live);
      if expireTimeQueue == [] {
        assert multiset(Deadlines(live)) == multiset{};
        return -1;
      }
      var next := expireTimeQueue[0];
      EarliestIsOnTop(expireTimeQueue, live);
      if next <= now {
        return 0;
      }
      return next - now;
    }

    method RunAfter(interval: nat, cb: nat) returns (id: nat)
      requires Valid() && Shown() + interval < RANGE
      modifies this
      ensures Valid() && ThePlan() == Created(old(ThePlan()), interval, cb)
      ensures id == lastTimerId
    {
      hide Represents, Value, High;
      var pos, _ := FindPos(interval, false);
      var w, s := pos.value.wheel, pos.value.slot;
      lastTimerId := lastTimerId + 1;
      var p := Timer(lastTimerId, interval + lastExpireTime, cb);
      CreateRepresents(wheels, timers, expireTimeQueue, old(ThePlan()), interval, cb);
      wheels := Put(wheels, w, s, At(wheels, w, s) + [p]);
      timers := timers[p.id := p];
      expireTimeQueue := Push(expireTimeQueue, p.expireTime);
      live := live + [p];
      id := p.id;
    }

    method RunAt(expireTime: nat, cb: nat) returns (id: nat)
      requires Valid() && Shown() + IntervalUntil(lastExpireTime, expireTime) < RANGE
      modifies this
      ensures Valid()
      ensures ThePlan() == Created(old(ThePlan()), IntervalUntil(old(lastExpireTime), expireTime), cb)
      ensures id == lastTimerId
    {
      hide Represents, Value;
      var interval := 0;
      if lastExpireTime < expireTime {
        interval := expireTime - lastExpireTime;
      }
      id := RunAfter(interval, cb);
    }

    method RemoveTimer(id: nat)
      requires Valid() && id in timers
      modifies this
      ensures Valid() && ThePlan() == Canceled(old(ThePlan()), id)
    {
      hide Represents, Value;
      var t := timers[id];
      DeadlineIsQueued(wheels, timers, expireTimeQueue, ThePlan(), id);
      var tmp := WithoutOne(expireTimeQueue, t.expireTime);
      CancelRepresents(wheels, timers, expireTimeQueue, ThePlan(), id, tmp);
      wheels := Unlinked(wheels, id);
      timers := timers - {id};
      expireTimeQueue := tmp;
      live := Filter(live, NotId(id));
    }

    method Step(now: nat, callbacks: seq<nat>) returns (callbacks': seq<nat>)
      requires Valid() && lastExpireTime <= now && now - origin < RANGE
      modifies this, handsCopy
      ensures Valid() && ThePlan() == Stepped(old(ThePlan()), now)
      ensures callbacks' == callbacks + Callbacks(old(Fires(ThePlan(), now)))
      ensures forall i :: 0 <= i < |old(Fires(ThePlan(), now))| ==> callbacks'[|callbacks| + i] == old(Fires(ThePlan(), now))[i].cb
    {
      hide Represents, Value, High, Digit, Digits, Indexes, Cascaded, AllInRange, InCreationOrder, ValidPlan, MapsIds, Retired, DistinctFrom, FiringOrder, Tracks, Pending, HandsInRange, Shaped, IsSlot, At, Slot, DueBefore, Callbacks;
      ghost var p := ThePlan();
      ghost var turn := Turn(live, origin, Shown(), now);
      OpenPlan(wheels, timers, expireTimeQueue, p, now);
      CallbacksAt(Fires(p, now));
      var endWheel, slot, l := AdvanceTo(now, turn);
      expireTimeQueue := PopExpired(expireTimeQueue, now, live);
      timers, callbacks' := Retire(l, timers, callbacks, live);
      Cascade(endWheel, slot, now, turn);
      StepRepresents(wheels, old(timers), timers, expireTimeQueue, p, now);
      lastExpireTime := now;
      live := Pending(live, now);
    }

    /** Moves the hands to `now`, and all due timers out of the rings. */
    method AdvanceTo(now: nat, ghost turn: Turn) returns (endWheel: nat, slot: nat, l: seq<Timer>)
      requires HandsOk() && Shown() == lastExpireTime - origin && lastExpireTime <= now && now - origin < RANGE
      requires turn == Turn(live, origin, Shown(), now) && turn.Ok()
      requires Indexes(wheels, live, origin, Shown()) && MapsIds(timers, live)
      modifies this`wheels, this`handsIdx, handsCopy
      ensures HandsOk() && Shown() == now - origin
      ensures endWheel == turn.StopWheel() && slot == turn.StopSlot()
      ensures Cascaded(wheels, turn, 0)
      ensures l == FiringOrder(live, origin, turn.v, now)
    {
      hide Value, High, Digit, Indexes, Cascaded, MapsIds, FiringOrder, HandsInRange;
      var hand;
      endWheel, slot, hand := StopAt(now);
      wheels, l := SpliceDue(wheels, endWheel, hand, slot, timers, now, turn);
      SwitchHands();
    }

    /** Sets the other copy of the hands to `now` and says where they stop. */
    method StopAt(now: nat) returns (endWheel: nat, slot: nat, hand: nat)
      requires HandsOk() && Shown() == lastExpireTime - origin && lastExpireTime <= now && now - origin < RANGE
      modifies handsCopy
      ensures HandsOk() && HandsRow(handsIdx) == old(HandsRow(handsIdx))
      ensures HandsInRange(HandsRow(1 - handsIdx)) && Value(HandsRow(1 - handsIdx)) == now - origin
      ensures endWheel == Level(now - origin, Shown()) && slot == Digit(now - origin, endWheel)
      ensures hand == Digit(Shown(), endWheel)
    {
      hide Value, High, Digit, HighestHand;
      DigitsOfValue(HandsRow(handsIdx));
      ValueOfDigits(now - origin);
      var interval := 0;
      if lastExpireTime < now {
        interval := now - lastExpireTime;
      }
      var pos, overflow := FindPos(interval, true);
      endWheel, slot := pos.value.wheel, pos.value.slot;
      hand := handsCopy[handsIdx, endWheel];
      assert hand == HandsRow(handsIdx)[endWheel];
    }

    method SwitchHands()
      requires Shape()
      modifies this`handsIdx
      ensures handsIdx == 1 - old(handsIdx)
    {
      handsIdx := 1 - handsIdx;
    }

    /** Moves the timers left in the slot where the hands stopped to lower wheels. */
    method Cascade(endWheel: nat, slot: nat, now: nat, ghost turn: Turn)
      requires HandsOk() && turn.Ok() && now == turn.now && Shown() == now - turn.origin
      requires endWheel == turn.StopWheel() && slot == turn.StopSlot()
      requires Cascaded(wheels, turn, 0)
      modifies this`wheels
      ensures Indexes(wheels, Pending(turn.live, now), turn.origin, now - turn.origin)
    {
      hide Cascaded, Value, Digit, High, Indexes;
      CascadeShape(wheels, turn, 0);
      var toAdjust := At(wheels, endWheel, slot);
      var i := 0;
      while i != |toAdjust|
        invariant 0 <= i <= |toAdjust| && Cascaded(wheels, turn, i)
      {
        var t := toAdjust[i];
        CascadeStep(wheels, turn, i);
        assert t.expireTime > now;
        var interval := t.expireTime - now;
        var pos, _ := FindPos(interval, false);
        wheels := Put(wheels, endWheel, slot, Filter(At(wheels, endWheel, slot), NotId(t.id)));
        var w, s := pos.value.wheel, pos.value.slot;
        wheels := Put(wheels, w, s, At(wheels, w, s) + [t]);
        i := i + 1;
      }
      CascadeEnds(wheels, turn);
    }
  }

  /** Performs one operation on a wheel, keeping the callbacks that steps hand out. */
  method Perform(wheel: TimerWheel, op: Op, callbacks: seq<nat>, ghost h: History) returns (callbacks': seq<nat>)
    requires wheel.Valid() && h.plan == wheel.ThePlan() && Allowed(h.plan, op)
    requires callbacks == Callbacks(FiredTimers(h.fired))
    modifies wheel, wheel.handsCopy
    ensures wheel.Valid() && wheel.ThePlan() == After(h, op).plan
    ensures callbacks' == Callbacks(FiredTimers(After(h, op).fired))
  {
    hide Represents, Value, High, Digit, InCreationOrder, AllInRange, Pending, FiringOrder, HandsInRange, ValidPlan;
    PlanOpens(wheel.wheels, wheel.timers, wheel.expireTimeQueue, h.plan, op);
    callbacks' := callbacks;
    match op {
      case RunAfter(interval, cb) =>
        var _ := wheel.RunAfter(interval, cb);
      case RunAt(expireTime, cb) =>
        var _ := wheel.RunAt(expireTime, cb);
      case RemoveTimer(id) =>
        wheel.RemoveTimer(id);
      case Step(now) =>
        callbacks' := wheel.Step(now, callbacks);
        assert Callbacks(FiredTimers(After(h, op).fired)) == callbacks + Callbacks(Fires(h.plan, now));
    }
  }

  lemma PlanOpens(wheels: Rings, timers: map<nat, Timer>, queue: seq<nat>, p: Plan, op: Op)
    requires Represents(wheels, timers, queue, p) && Allowed(p, op)
    ensures ValidPlan(p) && p.last >= p.origin
    ensures op.RemoveTimer? ==> op.id in timers
  {
  }

  /** Every run of operations leaves the wheel with the plan, and hands out the callbacks,
      that the plain list of timers gives. */
  method Execute(wheel: TimerWheel, ops: seq<Op>, ghost h: History) returns (callbacks: seq<nat>)
    requires wheel.Valid() && h.plan == wheel.ThePlan() && h.fired == [] && AllowedRun(h, ops)
    modifies wheel, wheel.handsCopy
    ensures wheel.Valid() && wheel.ThePlan() == AfterRun(h, ops).plan
    ensures callbacks == Callbacks(FiredTimers(AfterRun(h, ops).fired))
  {
    callbacks := [];
    ghost var now := h;
    var i := 0;
    assert ops[0..] == ops;
    while i < |ops|
      invariant 0 <= i <= |ops| && wheel.Valid() && now.plan == wheel.ThePlan()
      invariant AllowedRun(now, ops[i..]) && AfterRun(now, ops[i..]) == AfterRun(h, ops)
      invariant callbacks == Callbacks(FiredTimers(now.fired))
    {
      callbacks := Perform(wheel, ops[i], callbacks, now);
      assert ops[i..][0] == ops[i] && ops[i..][1..] == ops[i + 1..];
      now := After(now, ops[i]);
      i := i + 1;
    }
  }

  /** The callbacks of the timers fired in a run are those that the operations gave. */
  lemma HandedOutAsAsked(now: nat, ops: seq<Op>)
    requires AllowedRun(Started(now), ops)
    ensures var h := AfterRun(Started(now), ops);
            var callbacks := Callbacks(FiredTimers(h.fired));
            |callbacks| == |h.fired|
            && forall i :: 0 <= i < |callbacks| ==>
                 var id := h.fired[i].timer.id;
                 1 <= id <= |CreatedBy(now, 0, ops)| && callbacks[i] == CreatedBy(now, 0, ops)[id - 1].cb
  {
    hide AllowedRun, AfterRun, CreatedBy, Callbacks;
    var h := AfterRun(Started(now), ops);
    CallbacksAt(FiredTimers(h.fired));
    forall i | 0 <= i < |h.fired|
      ensures var t := h.fired[i].timer; 1 <= t.id <= |CreatedBy(now, 0, ops)| && t == CreatedBy(now, 0, ops)[t.id - 1]
    {
      FiredAsAsked(now, ops, i);
    }
  }

  /** The life of a new wheel, from its start on: every run hands out the callbacks of the
      plain list, and every timer created in it is accounted for. */
  method LiveThrough(created: nat, started: nat, ops: seq<Op>) returns (wheel: TimerWheel, callbacks: seq<nat>)
    requires AllowedRun(Started(started), ops)
    ensures wheel.Valid()
    ensures var h := AfterRun(Started(started), ops);
            Accounted(h) && InOrder(h) && wheel.ThePlan() == h.plan && |callbacks| == |h.fired|
            && forall i :: 0 <= i < |callbacks| ==>
                 var id := h.fired[i].timer.id;
                 1 <= id <= |CreatedBy(started, 0, ops)| && callbacks[i] == CreatedBy(started, 0, ops)[id - 1].cb
  {
    hide AllowedRun, AfterRun, Represents, Accounted, InOrder, CreatedBy, Callbacks;
    wheel := new TimerWheel(created);
    wheel.Start(started);
    callbacks := Execute(wheel, ops, Started(started));
    NewRunsAccountForEveryTimer(started, ops);
    RunsFireInOrder(started, ops);
    HandedOutAsAsked(started, ops);
  }

  lemma IndexesAreShaped(wheels: Rings, live: seq<Timer>, origin: int, v: nat)
    requires Indexes(wheels, live, origin, v)
    ensures Shaped(wheels)
  {
  }

  lemma CreateRepresents(wheels: Rings, timers: map<nat, Timer>, queue: seq<nat>, p: Plan, interval: nat, cb: nat)
    requires Represents(wheels, timers, queue, p) && p.last - p.origin + interval < RANGE
    ensures var t := Timer(p.lastId + 1, p.last + interval, cb);
            var v: nat := p.last - p.origin;
            var w := Level(v + interval, v);
            var s := Digit(v + interval, w);
            Shaped(wheels) && IsSlot(w, s)
            && Represents(Put(wheels, w, s, At(wheels, w, s) + [t]), timers[t.id := t], Push(queue, t.expireTime), Created(p, interval, cb))
  {
    hide Tracks, Indexes, AllInRange, Digit, Deadlines;
    var t := Timer(p.lastId + 1, p.last + interval, cb);
    var v: nat := p.last - p.origin;
    var w := Level(v + interval, v);
    IndexesAreShaped(wheels, p.live, p.origin, v);
    InsertKeepsIndex(wheels, p.live, p.origin, v, t, w, Digit(v + interval, w));
    TracksPush(queue, p.live, t);
    CreatedIsValid(p, interval, cb);
    InsertKeepsMap(timers, p.live, t);
  }

  lemma InsertKeepsMap(timers: map<nat, Timer>, live: seq<Timer>, t: Timer)
    requires MapsIds(timers, live) && t.id !in timers
    ensures MapsIds(timers[t.id := t], live + [t])
  {
  }

  lemma CancelRepresents(wheels: Rings, timers: map<nat, Timer>, queue: seq<nat>, p: Plan, id: nat, queue': seq<nat>)
    requires Represents(wheels, timers, queue, p) && id in timers
    requires Sorted(queue') && multiset(queue) == multiset(queue') + multiset{timers[id].expireTime}
    ensures Shaped(wheels) && Represents(Unlinked(wheels, id), timers - {id}, queue', Canceled(p, id))
  {
    hide Tracks, Indexes, AllInRange, Filter, Deadlines;
    TracksWithout(queue, queue', p.live, timers[id]);
    IndexesAreShaped(wheels, p.live, p.origin, p.last - p.origin);
    UnlinkKeepsIndex(wheels, p.live, p.origin, p.last - p.origin, id);
    CanceledIsValid(p, id);
    RemoveKeepsMap(timers, p.live, id);
  }

  lemma DeadlineIsQueued(wheels: Rings, timers: map<nat, Timer>, queue: seq<nat>, p: Plan, id: nat)
    requires Represents(wheels, timers, queue, p) && id in timers
    ensures timers[id].expireTime in queue && Sorted(queue)
  {
    DeadlinesMembers(p.live);
    assert timers[id].expireTime in Deadlines(p.live);
    assert timers[id].expireTime in multiset(queue);
  }

  lemma OpenPlan(wheels: Rings, timers: map<nat, Timer>, queue: seq<nat>, p: Plan, now: nat)
    requires Represents(wheels, timers, queue, p) && p.last <= now && now - p.origin < RANGE
    ensures 0 <= p.last - p.origin < RANGE && ValidPlan(p)
    ensures Turn(p.live, p.origin, p.last - p.origin, now).Ok()
    ensures Indexes(wheels, p.live, p.origin, p.last - p.origin) && Shaped(wheels)
    ensures MapsIds(timers, p.live) && Tracks(queue, p.live)
    ensures DistinctFrom(Fires(p, now), p.live)
  {
    FiringOrderIsExact(p.live, p.origin, p.last - p.origin, now);
  }

  lemma StepRepresents(wheels: Rings, timers: map<nat, Timer>, left: map<nat, Timer>, queue: seq<nat>, p: Plan, now: nat)
    requires ValidPlan(p) && p.last <= now && now - p.origin < RANGE && MapsIds(timers, p.live)
    requires Indexes(wheels, Pending(p.live, now), p.origin, now - p.origin)
    requires Retired(timers, left, Fires(p, now))
    requires Tracks(queue, Pending(p.live, now))
    ensures Represents(wheels, left, queue, Stepped(p, now))
  {
    hide Indexes, Tracks, AllInRange, InCreationOrder;
    SteppedIsValid(p, now);
    FiringOrderMembers(p, now);
    FilterMembers(p.live, IsPending(now));
  }

  lemma FiringOrderMembers(p: Plan, now: nat)
    requires ValidPlan(p)
    ensures forall t :: t in Fires(p, now) <==> t in p.live && Due(t, now)
  {
    FiringOrderIsExact(p.live, p.origin, p.last - p.origin, now);
  }

  lemma RemoveKeepsMap(timers: map<nat, Timer>, live: seq<Timer>, id: nat)
    requires MapsIds(timers, live)
    ensures MapsIds(timers - {id}, Filter(live, NotId(id)))
  {
    FilterMembers(live, NotId(id));
  }

  /** Rebuilds the queue without one occurrence of `x`. */
  method WithoutOne(q: seq<nat>, x: nat) returns (tmp: seq<nat>)
    requires Sorted(q) && x in q
    ensures Sorted(tmp) && multiset(q) == multiset(tmp) + multiset{x}
  {
    hide Sorted, Push;
    NothingIsSorted();
    var removed := false;
    tmp := [];
    var i := 0;
    while i != |q|
      invariant 0 <= i <= |q| && Sorted(tmp)
      invariant removed ==> multiset(q[..i]) == multiset(tmp) + multiset{x}
      invariant !removed ==> multiset(q[..i]) == multiset(tmp) && x !in q[..i]
    {
      var ts := q[i];
      assert q[..i + 1] == q[..i] + [ts];
      if ts == x && !removed {
        removed := true;
      } else {
        PushSorts(tmp, ts);
        tmp := Push(tmp, ts);
      }
      i := i + 1;
    }
    assert q[..i] == q;
  }

  lemma NothingIsSorted()
    ensures Sorted([])
  {
  }

  lemma EarliestIsOnTop(q: seq<nat>, live: seq<Timer>)
    requires Tracks(q, live) && q != []
    ensures exists t :: t in live && t.expireTime == q[0] && forall u :: u in live ==> t.expireTime <= u.expireTime
  {
    DeadlinesMembers(live);
    assert q[0] in multiset(q);
    assert q[0] in Deadlines(live);
    forall u | u in live ensures q[0] <= u.expireTime {
      assert u.expireTime in Deadlines(live);
      assert u.expireTime in multiset(q);
    }
  }

  lemma ZeroDigits(t: nat)
    requires RANGE <= t < 2 * RANGE
    ensures t == RANGE <==> forall k :: 0 <= k < WHEEL_COUNT ==> Digits(t)[k] == 0
  {
    ValueOfDigits(t);
    var ds := Digits(t);
    HighUnfold(t);
    if t == RANGE {
      assert Digit(t, 0) == 0 && Digit(t, 1) == 0 && Digit(t, 2) == 0 && Digit(t, 3) == 0 && Digit(t, 4) == 0;
    } else if forall k :: 0 <= k < WHEEL_COUNT ==> ds[k] == 0 {
      assert ds[0] == 0 && ds[1] == 0 && ds[2] == 0 && ds[3] == 0 && ds[4] == 0;
    }
  }
}
