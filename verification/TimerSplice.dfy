/** The loops of one wheel step, each on the rings as they are when it starts. */
module TimerSplice {
  import opened MixedRadix
  import opened TimerPlan
  import opened TimerCascade
  import opened DeadlineQueue
  import opened TimerRings

  /** The situation in which a step to `now` starts: the live timers, the origin of the
      hands and the time `v` that they show. */
  datatype Turn = Turn(live: seq<Timer>, origin: int, v: nat, now: nat) {
    ghost predicate Ok() {
      v <= now - origin < RANGE && AllInRange(live, origin, v) && InCreationOrder(live)
    }

    /** The wheel where the hands stop. */
    ghost function StopWheel(): nat
      requires v <= now - origin < RANGE
    {
      Level(now - origin, v)
    }

    /** The slot where the hands stop; it is split. */
    ghost function StopSlot(): (s: nat)
      requires v <= now - origin < RANGE
      ensures IsSlot(StopWheel(), s)
    {
      Digit(now - origin, StopWheel())
    }

    /** The timers of the split slot that are not due. */
    ghost function Rest(): seq<Timer>
      requires v <= now - origin < RANGE
    {
      Leftover(live, origin, v, now, StopWheel(), StopSlot())
    }

    ghost function Before(w: nat, s: nat): seq<Timer> {
      DueBefore(live, origin, v, now, w, s)
    }

    ghost function Old(w: nat, s: nat): seq<Timer> {
      Slot(live, origin, v, w, s)
    }
  }

  /** Empties all wheels below `endWheel` into one list. */
  method SpliceLowerWheels(rings: Rings, endWheel: nat, ghost turn: Turn)
    returns (r: Rings, l: seq<Timer>)
    requires turn.Ok() && Indexes(rings, turn.live, turn.origin, turn.v)
    requires endWheel == turn.StopWheel()
    ensures Shaped(r)
    ensures forall w, s :: IsSlot(w, s) ==> At(r, w, s) == if w < endWheel then [] else At(rings, w, s)
    ensures l == turn.Before(endWheel, 0)
  {
    r, l := rings, [];
    var w := 0;
    while w != endWheel
      invariant 0 <= w <= endWheel && Shaped(r)
      invariant forall w', s' :: IsSlot(w', s') ==> At(r, w', s') == if w' < w then [] else At(rings, w', s')
      invariant l == turn.Before(w, 0)
    {
      r, l := SpliceSlots(r, w, 0, SlotCount(w), l, turn);
      w := w + 1;
    }
  }

  /** Empties the slots `from` to `to - 1` of wheel `w` onto the list. */
  method SpliceSlots(rings: Rings, w: nat, from: nat, to: nat, l0: seq<Timer>,
                     ghost turn: Turn)
    returns (r: Rings, l: seq<Timer>)
    requires Shaped(rings) && w < WHEEL_COUNT && from <= to <= SlotCount(w)
    requires turn.Ok()
    requires w < turn.StopWheel() || (w == turn.StopWheel() && to <= turn.StopSlot())
    requires forall s :: from <= s < to ==> At(rings, w, s) == turn.Old(w, s)
    requires l0 == turn.Before(w, from)
    ensures Shaped(r)
    ensures forall w', s' :: IsSlot(w', s') ==> At(r, w', s') == if w' == w && from <= s' < to then [] else At(rings, w', s')
    ensures l == turn.Before(w, to)
  {
    r, l := rings, l0;
    var s := from;
    while s != to
      invariant from <= s <= to && Shaped(r)
      invariant forall w', s' :: IsSlot(w', s') ==> At(r, w', s') == if w' == w && from <= s' < s then [] else At(rings, w', s')
      invariant l == turn.Before(w, s)
    {
      SlotFiresWhole(turn.live, turn.origin, turn.v, turn.now, w, s);
      if At(r, w, s) != [] {
        l := l + At(r, w, s);
        r := Put(r, w, s, []);
      }
      s := s + 1;
    }
  }

  /** Moves the due timers of one slot onto the list; the others stay. */
  method SplitSlot(rings: Rings, w: nat, s: nat, timers: map<nat, Timer>, l0: seq<Timer>,
                   ghost live: seq<Timer>, ghost origin: int, ghost v: nat, now: nat)
    returns (r: Rings, l: seq<Timer>)
    requires Shaped(rings) && IsSlot(w, s) && InCreationOrder(live)
    requires At(rings, w, s) == Slot(live, origin, v, w, s)
    requires MapsIds(timers, live)
    ensures Shaped(r) && At(r, w, s) == Leftover(live, origin, v, now, w, s)
    ensures forall w', s' :: IsSlot(w', s') && (w' != w || s' != s) ==> At(r, w', s') == At(rings, w', s')
    ensures l == l0 + DueSlot(live, origin, v, now, w, s)
  {
    hide Filter, Leftover, DueSlot, Slot, InCreationOrder, InSlot, HalfSplit;
    var slot := At(rings, w, s);
    SlotFromLive(live, origin, v, w, s);
    SplitStarts(slot, now);
    SlotSplits(live, origin, v, now, w, s);
    var ids := seq(|slot|, i requires 0 <= i < |slot| => slot[i].id);
    r, l := rings, l0;
    var i := 0;
    while i != |ids|
      invariant 0 <= i <= |ids| && Shaped(r)
      invariant forall w', s' :: IsSlot(w', s') && (w' != w || s' != s) ==> At(r, w', s') == At(rings, w', s')
      invariant At(r, w, s) == HalfSplit(slot, i, now)
      invariant l == l0 + Filter(slot[..i], IsDue(now))
    {
      var id := ids[i];
      assert slot[i] in slot && id in timers;
      var t := timers[id];
      SplitAdvances(slot, i, now);
      if t.expireTime <= now {
        r := Put(r, w, s, Filter(At(r, w, s), NotId(id)));
        l := l + [t];
      }
      i := i + 1;
    }
    SplitEnds(slot, now);
  }

  lemma SlotFromLive(live: seq<Timer>, origin: int, v: nat, w: nat, s: nat)
    requires InCreationOrder(live)
    ensures InCreationOrder(Slot(live, origin, v, w, s))
    ensures forall t :: t in Slot(live, origin, v, w, s) ==> t in live
  {
    FilterMembers(live, SitsIn(origin, v, w, s));
    FilterKeepsOrder(live, SitsIn(origin, v, w, s));
  }

  function IsDue(now: nat): Timer -> bool {
    (t: Timer) => Due(t, now)
  }

  /** The slot after its first `i` timers have been looked at. */
  ghost function HalfSplit(slot: seq<Timer>, i: nat, now: nat): seq<Timer>
    requires i <= |slot|
  {
    Filter(slot[..i], IsPending(now)) + slot[i..]
  }

  lemma SplitStarts(slot: seq<Timer>, now: nat)
    ensures HalfSplit(slot, 0, now) == slot && Filter(slot[..0], IsDue(now)) == []
  {
  }

  lemma SplitEnds(slot: seq<Timer>, now: nat)
    ensures HalfSplit(slot, |slot|, now) == Filter(slot, IsPending(now)) && slot[..|slot|] == slot
  {
    assert slot[..|slot|] == slot;
  }

  lemma SplitAdvances(slot: seq<Timer>, i: nat, now: nat)
    requires InCreationOrder(slot) && i < |slot|
    ensures HalfSplit(slot, i + 1, now)
            == if Due(slot[i], now) then Filter(HalfSplit(slot, i, now), NotId(slot[i].id)) else HalfSplit(slot, i, now)
    ensures Filter(slot[..i + 1], IsDue(now))
            == Filter(slot[..i], IsDue(now)) + if Due(slot[i], now) then [slot[i]] else []
  {
    hide Filter, InCreationOrder;
    assert slot[..i + 1] == slot[..i] + [slot[i]];
    FilterAppend(slot[..i], slot[i], IsDue(now));
    FilterAppend(slot[..i], slot[i], IsPending(now));
    SlotRestInOrder(slot, i, now);
    UnlinkOne(Filter(slot[..i], IsPending(now)), slot[i], slot[i + 1..]);
    var f := Filter(slot[..i], IsPending(now));
    assert f + slot[i..] == f + [slot[i]] + slot[i + 1..];
  }

  lemma SlotRestInOrder(slot: seq<Timer>, i: nat, now: nat)
    requires InCreationOrder(slot) && i < |slot|
    ensures InCreationOrder(Filter(slot[..i], IsPending(now)) + [slot[i]] + slot[i + 1..])
  {
    var f := Filter(slot[..i], IsPending(now));
    FilterMembers(slot[..i], IsPending(now));
    FilterKeepsOrder(slot[..i], IsPending(now));
    forall t | t in f ensures forall k :: i <= k < |slot| ==> t.id < slot[k].id {
      assert t in slot[..i];
      var j :| 0 <= j < i && slot[..i][j] == t;
    }
    forall j | 0 <= j < |f| ensures forall k :: i <= k < |slot| ==> f[j].id < slot[k].id {
      assert f[j] in f;
    }
  }

  lemma SlotSplits(live: seq<Timer>, origin: int, v: nat, now: nat, w: nat, s: nat)
    ensures Filter(Slot(live, origin, v, w, s), IsPending(now)) == Leftover(live, origin, v, now, w, s)
    ensures Filter(Slot(live, origin, v, w, s), IsDue(now)) == DueSlot(live, origin, v, now, w, s)
  {
    var sits, isDue := SitsIn(origin, v, w, s), IsDue(now);
    FilterTwice(live, sits, IsPending(now));
    FilterTwice(live, sits, isDue);
    FilterAgrees(live, t => sits(t) && IsPending(now)(t), PendingIn(origin, v, now, w, s));
    FilterAgrees(live, t => sits(t) && isDue(t), DueIn(origin, v, now, w, s));
  }

  /** Pops every deadline up to `now`. */
  method PopExpired(queue: seq<nat>, now: nat, ghost live: seq<Timer>) returns (q: seq<nat>)
    requires Tracks(queue, live)
    ensures Tracks(q, Pending(live, now))
  {
    q := queue;
    ghost var k := 0;
    while q != [] && now >= q[0]
      invariant k <= |queue| && q == queue[k..]
      invariant forall i :: 0 <= i < k ==> queue[i] <= now
      decreases |q|
    {
      q := q[1..];
      k := k + 1;
    }
    TracksPending(queue, k, live, now);
  }

  /** A selection from a list of timers that takes none twice. */
  ghost predicate DistinctFrom(fired: seq<Timer>, live: seq<Timer>) {
    (forall t :: t in fired ==> t in live)
    && forall i, j :: 0 <= i < j < |fired| ==> fired[i].id != fired[j].id
  }

  /** `left` is `timers` without the fired ones. */
  ghost predicate Retired(timers: map<nat, Timer>, left: map<nat, Timer>, fired: seq<Timer>) {
    (forall id :: id in left <==> id in timers && timers[id] !in fired)
    && forall id :: id in left ==> left[id] == timers[id]
  }

  /** Collects the callbacks and forgets the fired timers. */
  method Retire(fired: seq<Timer>, timers: map<nat, Timer>, callbacks0: seq<nat>, ghost live: seq<Timer>)
    returns (left: map<nat, Timer>, callbacks: seq<nat>)
    requires MapsIds(timers, live) && DistinctFrom(fired, live)
    ensures Retired(timers, left, fired)
    ensures callbacks == callbacks0 + Callbacks(fired)
  {
    var removedIds: seq<nat> := [];
    callbacks := callbacks0;
    for i := 0 to |fired|
      invariant |removedIds| == i && forall k :: 0 <= k < i ==> removedIds[k] == fired[k].id
      invariant callbacks == callbacks0 + Callbacks(fired)[..i]
    {
      removedIds := removedIds + [fired[i].id];
      callbacks := callbacks + [fired[i].cb];
    }
    left := timers;
    for i := 0 to |removedIds|
      invariant forall id :: id in left <==> id in timers && timers[id] !in fired[..i]
      invariant forall id :: id in left ==> left[id] == timers[id]
    {
      var t := fired[i];
      assert t in fired && t !in fired[..i];
      assert removedIds[i] in left;
      left := left - {removedIds[i]};
      forall id | id in timers ensures id in left <==> timers[id] !in fired[..i + 1] {
        assert fired[..i + 1] == fired[..i] + [t];
      }
    }
    assert fired[..|fired|] == fired;
  }

  function Callbacks(ts: seq<Timer>): seq<nat> {
    seq(|ts|, i requires 0 <= i < |ts| => ts[i].cb)
  }

  lemma CallbacksAt(ts: seq<Timer>)
    ensures |Callbacks(ts)| == |ts| && forall i :: 0 <= i < |ts| ==> Callbacks(ts)[i] == ts[i].cb
  {
  }

  /** The rings after the first `i` timers of the split slot have moved to lower wheels. */
  ghost predicate Cascaded(r: Rings, turn: Turn, i: nat)
    requires turn.Ok()
  {
    Shaped(r) && i <= |turn.Rest()| && forall w, s :: IsSlot(w, s) ==> At(r, w, s) == HalfCascaded(turn, i, w, s)
  }

  ghost function HalfCascaded(turn: Turn, i: nat, w: nat, s: nat): seq<Timer>
    requires turn.Ok() && i <= |turn.Rest()|
  {
    if w < turn.StopWheel() then Filter(turn.Rest()[..i], SitsIn(turn.origin, turn.now - turn.origin, w, s))
    else if w == turn.StopWheel() && s < turn.StopSlot() then []
    else if w == turn.StopWheel() && s == turn.StopSlot() then turn.Rest()[i..]
    else turn.Old(w, s)
  }

  lemma CascadeShape(r: Rings, turn: Turn, i: nat)
    requires turn.Ok() && Cascaded(r, turn, i)
    ensures Shaped(r) && At(r, turn.StopWheel(), turn.StopSlot()) == turn.Rest()[i..]
  {
  }

  /** Takes everything that is due out of the rings, in firing order. */
  method SpliceDue(rings: Rings, endWheel: nat, hand: nat, slot: nat, timers: map<nat, Timer>, now: nat, ghost turn: Turn)
    returns (r: Rings, l: seq<Timer>)
    requires turn.Ok() && now == turn.now && Indexes(rings, turn.live, turn.origin, turn.v)
    requires MapsIds(timers, turn.live)
    requires endWheel == turn.StopWheel() && slot == turn.StopSlot() && hand == Digit(turn.v, endWheel)
    ensures Cascaded(r, turn, 0)
    ensures l == FiringOrder(turn.live, turn.origin, turn.v, turn.now)
  {
    hide Slot, DueBefore, DueSlot, InCreationOrder, AllInRange, High, Digit, Filter;
    HandBeforeStop(turn);
    r, l := SpliceLowerWheels(rings, endWheel, turn);
    NothingBehindHand(turn.live, turn.origin, turn.v, now, endWheel, hand);
    r, l := SpliceSlots(r, endWheel, hand, slot, l, turn);
    r, l := SplitSlot(r, endWheel, slot, timers, l, turn.live, turn.origin, turn.v, now);
    DueWithSplit(turn);
    forall s | 0 <= s < hand ensures turn.Old(endWheel, s) == [] {
      SlotBehindHand(turn.live, turn.origin, turn.v, endWheel, s);
    }
    NothingMovedYet(turn);
    forall w, s | IsSlot(w, s) ensures At(r, w, s) == HalfCascaded(turn, 0, w, s) {
      assert At(rings, w, s) == turn.Old(w, s);
    }
  }

  lemma HandBeforeStop(turn: Turn)
    requires turn.Ok()
    ensures Digit(turn.v, turn.StopWheel()) <= turn.StopSlot()
  {
    PositionDecides(turn.now - turn.origin, turn.v, turn.now - turn.origin);
  }

  lemma DueWithSplit(turn: Turn)
    requires turn.Ok()
    ensures turn.Before(turn.StopWheel(), turn.StopSlot()) + DueSlot(turn.live, turn.origin, turn.v, turn.now, turn.StopWheel(), turn.StopSlot())
            == FiringOrder(turn.live, turn.origin, turn.v, turn.now)
  {
    NothingDueBeyond(turn.live, turn.origin, turn.v, turn.now, WHEEL_COUNT, 0);
  }

  lemma NothingMovedYet(turn: Turn)
    requires turn.Ok()
    ensures forall w, s :: IsSlot(w, s) && w < turn.StopWheel() ==> HalfCascaded(turn, 0, w, s) == []
    ensures HalfCascaded(turn, 0, turn.StopWheel(), turn.StopSlot()) == turn.Rest()
  {
  }

  /** One round of the cascade: the next timer goes to its new position. */
  lemma CascadeStep(r: Rings, turn: Turn, i: nat)
    requires turn.Ok() && Cascaded(r, turn, i) && i < |turn.Rest()|
    ensures var t := turn.Rest()[i];
            var u := turn.now - turn.origin;
            t.expireTime > turn.now && t.expireTime - turn.origin < RANGE
            && var w := Level(t.expireTime - turn.origin, u);
               var s := Digit(t.expireTime - turn.origin, w);
               w < turn.StopWheel() && Shaped(r)
               && var r1 := Put(r, turn.StopWheel(), turn.StopSlot(), Filter(At(r, turn.StopWheel(), turn.StopSlot()), NotId(t.id)));
                  Cascaded(Put(r1, w, s, At(r1, w, s) + [t]), turn, i + 1)
  {
    hide Filter, High, Digit, InCreationOrder, AllInRange, Leftover, SitsIn;
    var t, u := turn.Rest()[i], turn.now - turn.origin;
    RestMoves(turn, i);
    var w := Level(t.expireTime - turn.origin, u);
    var s := Digit(t.expireTime - turn.origin, w);
    var r1 := Put(r, turn.StopWheel(), turn.StopSlot(), Filter(At(r, turn.StopWheel(), turn.StopSlot()), NotId(t.id)));
    var r2 := Put(r1, w, s, At(r1, w, s) + [t]);
    forall w', s' | IsSlot(w', s') ensures At(r2, w', s') == HalfCascaded(turn, i + 1, w', s') {
      HalfCascadeAdvances(turn, i, w', s');
    }
  }

  lemma RestMoves(turn: Turn, i: nat)
    requires turn.Ok() && i < |turn.Rest()|
    ensures var t := turn.Rest()[i];
            var u := turn.now - turn.origin;
            t.expireTime > turn.now && t.expireTime - turn.origin < RANGE
            && Level(t.expireTime - turn.origin, u) < turn.StopWheel()
  {
    LeftoverMovesDown(turn.live, turn.origin, turn.v, turn.now);
    assert turn.Rest()[i] in turn.Rest();
  }

  lemma HalfCascadeAdvances(turn: Turn, i: nat, w: nat, s: nat)
    requires turn.Ok() && i < |turn.Rest()| && IsSlot(w, s)
    ensures var t := turn.Rest()[i];
            HalfCascaded(turn, i + 1, w, s)
            == if w == turn.StopWheel() && s == turn.StopSlot() then Filter(HalfCascaded(turn, i, w, s), NotId(t.id))
               else if w < turn.StopWheel() && InSlot(t.expireTime - turn.origin, turn.now - turn.origin, w, s)
                 then HalfCascaded(turn, i, w, s) + [t]
               else HalfCascaded(turn, i, w, s)
  {
    hide Filter, High, Digit, InCreationOrder, AllInRange, Leftover, Slot;
    var t, rest := turn.Rest()[i], turn.Rest();
    RestUnlinks(turn, i);
    assert rest[..i + 1] == rest[..i] + [t];
    FilterAppend(rest[..i], t, SitsIn(turn.origin, turn.now - turn.origin, w, s));
  }

  lemma RestUnlinks(turn: Turn, i: nat)
    requires turn.Ok() && i < |turn.Rest()|
    ensures Filter(turn.Rest()[i..], NotId(turn.Rest()[i].id)) == turn.Rest()[i + 1..]
  {
    var t, rest := turn.Rest()[i], turn.Rest();
    LeftoverMovesDown(turn.live, turn.origin, turn.v, turn.now);
    assert rest[i..] == [] + [t] + rest[i + 1..];
    UnlinkOne([], t, rest[i + 1..]);
    assert [] + rest[i + 1..] == rest[i + 1..];
  }

  lemma CascadeEnds(r: Rings, turn: Turn)
    requires turn.Ok() && Cascaded(r, turn, |turn.Rest()|)
    ensures Indexes(r, Pending(turn.live, turn.now), turn.origin, turn.now - turn.origin)
  {
    hide Filter, High, Digit, InCreationOrder, Leftover, SitsIn, Slot;
    assert turn.Rest()[..|turn.Rest()|] == turn.Rest();
    forall w, s | IsSlot(w, s) ensures At(r, w, s) == Slot(Pending(turn.live, turn.now), turn.origin, turn.now - turn.origin, w, s) {
      if w < turn.StopWheel() {
        LowerSlotsRefill(turn.live, turn.origin, turn.v, turn.now, w, s);
      } else if w == turn.StopWheel() && s <= turn.StopSlot() {
        SlotBehindEmpties(turn.live, turn.origin, turn.v, turn.now, s);
      } else {
        SlotBeyondStays(turn.live, turn.origin, turn.v, turn.now, w, s);
      }
    }
  }
}
