/** What one step of the time from `v` to `u` does to every slot of the wheels, said on the
    plain list of timers: which slots fire whole, which slot is split, where its rest goes. */
module TimerCascade {
  import opened MixedRadix
  import opened TimerPlan

  ghost function PendingIn(origin: int, v: nat, now: nat, w: nat, s: nat): Timer -> bool {
    (t: Timer) => InSlot(t.expireTime - origin, v, w, s) && !Due(t, now)
  }

  /** The timers of slot `s` of wheel `w` that are not due yet. */
  ghost function Leftover(live: seq<Timer>, origin: int, v: nat, now: nat, w: nat, s: nat): seq<Timer> {
    Filter(live, PendingIn(origin, v, now, w, s))
  }

  /** Slots before the position where the hands stop hold due timers only. */
  lemma SlotFiresWhole(live: seq<Timer>, origin: int, v: nat, now: nat, w: nat, s: nat)
    requires v <= now - origin < RANGE && AllInRange(live, origin, v)
    requires var e := Level(now - origin, v); w < e || (w == e && s < Digit(now - origin, e))
    ensures Slot(live, origin, v, w, s) == DueSlot(live, origin, v, now, w, s)
  {
    forall t | t in live ensures SitsIn(origin, v, w, s)(t) == DueIn(origin, v, now, w, s)(t) {
      PositionDecides(t.expireTime - origin, v, now - origin);
    }
    FilterAgrees(live, SitsIn(origin, v, w, s), DueIn(origin, v, now, w, s));
  }

  /** Slots behind a hand are empty. */
  lemma {:induction false} NothingBehindHand(live: seq<Timer>, origin: int, v: nat, now: nat, w: nat, s: nat)
    requires v < RANGE && AllInRange(live, origin, v) && s <= Digit(v, w)
    ensures DueBefore(live, origin, v, now, w, s) == DueBefore(live, origin, v, now, w, 0)
  {
    if s > 0 {
      NothingBehindHand(live, origin, v, now, w, s - 1);
      forall t | t in live ensures !DueIn(origin, v, now, w, s - 1)(t) {
        PositionDecides(t.expireTime - origin, v, v);
      }
      FilterNothing(live, DueIn(origin, v, now, w, s - 1));
    }
  }

  lemma SlotBehindHand(live: seq<Timer>, origin: int, v: nat, w: nat, s: nat)
    requires v < RANGE && AllInRange(live, origin, v) && s < Digit(v, w)
    ensures Slot(live, origin, v, w, s) == []
  {
    forall t | t in live ensures !SitsIn(origin, v, w, s)(t) {
      PositionDecides(t.expireTime - origin, v, v);
    }
    FilterNothing(live, SitsIn(origin, v, w, s));
  }

  /** Nothing is due beyond the slot where the hands stop. */
  lemma {:induction false} NothingDueBeyond(live: seq<Timer>, origin: int, v: nat, now: nat, w: nat, s: nat)
    requires v <= now - origin < RANGE && AllInRange(live, origin, v)
    requires var e, u := Level(now - origin, v), now - origin;
             (w == e && Digit(u, e) < s <= SlotCount(e)) || (e < w < WHEEL_COUNT && s <= SlotCount(w)) || (w == WHEEL_COUNT && s == 0)
    ensures DueBefore(live, origin, v, now, w, s)
            == DueBefore(live, origin, v, now, Level(now - origin, v), Digit(now - origin, Level(now - origin, v)) + 1)
    decreases w, s
  {
    hide Digit, DueSlot, AllInRange;
    var u := now - origin;
    var e := Level(u, v);
    if w > e && s == 0 {
      NothingDueBeyond(live, origin, v, now, w - 1, SlotCount(w - 1));
    } else if w > e || s > Digit(u, e) + 1 {
      NothingDueBeyond(live, origin, v, now, w, s - 1);
      SlotBeyondIsNotDue(live, origin, v, now, w, s - 1);
    }
  }

  lemma SlotBeyondIsNotDue(live: seq<Timer>, origin: int, v: nat, now: nat, w: nat, s: nat)
    requires v <= now - origin < RANGE && AllInRange(live, origin, v)
    requires var e := Level(now - origin, v); e < w || (w == e && Digit(now - origin, e) < s)
    ensures DueSlot(live, origin, v, now, w, s) == []
  {
    hide Digit, Filter;
    forall t | t in live ensures !DueIn(origin, v, now, w, s)(t) {
      PositionDecides(t.expireTime - origin, v, now - origin);
    }
    FilterNothing(live, DueIn(origin, v, now, w, s));
  }

  /** Slots untouched by the step already hold what they must hold afterwards. */
  lemma SlotBeyondStays(live: seq<Timer>, origin: int, v: nat, now: nat, w: nat, s: nat)
    requires v <= now - origin < RANGE && AllInRange(live, origin, v)
    requires var e := Level(now - origin, v); e < w || (w == e && Digit(now - origin, e) < s)
    ensures Slot(Pending(live, now), origin, now - origin, w, s) == Slot(live, origin, v, w, s)
  {
    var u := now - origin;
    FilterTwice(live, IsPending(now), SitsIn(origin, u, w, s));
    var both := (t: Timer) => IsPending(now)(t) && SitsIn(origin, u, w, s)(t);
    forall t | t in live ensures both(t) == SitsIn(origin, v, w, s)(t) {
      var d: nat := t.expireTime - origin;
      PositionDecides(d, v, u);
      if d > u {
        PositionAfter(d, v, u);
      }
    }
    FilterAgrees(live, both, SitsIn(origin, v, w, s));
  }

  /** Slots of the stopped wheel up to its hand are empty afterwards. */
  lemma SlotBehindEmpties(live: seq<Timer>, origin: int, v: nat, now: nat, s: nat)
    requires v <= now - origin < RANGE && AllInRange(live, origin, v)
    requires s <= Digit(now - origin, Level(now - origin, v))
    ensures Slot(Pending(live, now), origin, now - origin, Level(now - origin, v), s) == []
  {
    var u := now - origin;
    var e := Level(u, v);
    FilterMembers(live, IsPending(now));
    forall t | t in Pending(live, now) ensures !SitsIn(origin, u, e, s)(t) {
      PositionAfter(t.expireTime - origin, v, u);
    }
    FilterNothing(Pending(live, now), SitsIn(origin, u, e, s));
  }

  /** Slots of the lower wheels are refilled from the split slot alone. */
  lemma LowerSlotsRefill(live: seq<Timer>, origin: int, v: nat, now: nat, w: nat, s: nat)
    requires v <= now - origin < RANGE && AllInRange(live, origin, v)
    requires w < Level(now - origin, v)
    ensures Slot(Pending(live, now), origin, now - origin, w, s)
            == Filter(Leftover(live, origin, v, now, Level(now - origin, v), Digit(now - origin, Level(now - origin, v))),
                      SitsIn(origin, now - origin, w, s))
  {
    hide Filter, High, Digit;
    var u := now - origin;
    var e := Level(u, v);
    var p, q, r := IsPending(now), SitsIn(origin, u, w, s), PendingIn(origin, v, now, e, Digit(u, e));
    FilterTwice(live, p, q);
    FilterTwice(live, r, q);
    var pq, rq := (t: Timer) => p(t) && q(t), (t: Timer) => r(t) && q(t);
    forall t | t in live ensures pq(t) == rq(t) {
      var d: nat := t.expireTime - origin;
      if d > u {
        PositionAfter(d, v, u);
      }
    }
    FilterAgrees(live, pq, rq);
  }

  /** A timer left over in the split slot moves to a lower wheel. */
  lemma LeftoverMovesDown(live: seq<Timer>, origin: int, v: nat, now: nat)
    requires v <= now - origin < RANGE && AllInRange(live, origin, v) && InCreationOrder(live)
    ensures var u := now - origin; var e := Level(u, v);
            var rest := Leftover(live, origin, v, now, e, Digit(u, e));
            InCreationOrder(rest)
            && forall t :: t in rest ==> t in live && now < t.expireTime
                                         && t.expireTime - origin < RANGE && Level(t.expireTime - origin, u) < e
  {
    var u := now - origin;
    var e := Level(u, v);
    FilterMembers(live, PendingIn(origin, v, now, e, Digit(u, e)));
    FilterKeepsOrder(live, PendingIn(origin, v, now, e, Digit(u, e)));
    forall t | t in Leftover(live, origin, v, now, e, Digit(u, e))
      ensures Level(t.expireTime - origin, u) < e
    {
      PositionAfter(t.expireTime - origin, v, u);
    }
  }
}
