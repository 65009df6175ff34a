/** What a timer wheel stands for: a plain list of timers in creation order.  The wheel is
    an index over this list, so everything the wheel holds or fires is a filter of it. */
module TimerPlan {
  import opened MixedRadix

  datatype Timer = Timer(id: nat, expireTime: nat, cb: nat)

  // ---- filters ----

  function Filter(ts: seq<Timer>, keep: Timer -> bool): seq<Timer> {
    if ts == [] then []
    else
      var front := Filter(ts[..|ts| - 1], keep);
      if keep(ts[|ts| - 1]) then front + [ts[|ts| - 1]] else front
  }

  lemma {:induction false} FilterMembers(ts: seq<Timer>, keep: Timer -> bool)
    ensures forall t :: t in Filter(ts, keep) <==> t in ts && keep(t)
    ensures |Filter(ts, keep)| <= |ts|
  {
    if ts != [] {
      FilterMembers(ts[..|ts| - 1], keep);
      assert ts == ts[..|ts| - 1] + [ts[|ts| - 1]];
    }
  }

  lemma {:induction false} FilterAgrees(ts: seq<Timer>, p: Timer -> bool, q: Timer -> bool)
    requires forall t :: t in ts ==> p(t) == q(t)
    ensures Filter(ts, p) == Filter(ts, q)
  {
    if ts != [] {
      FilterAgrees(ts[..|ts| - 1], p, q);
    }
  }

  lemma {:induction false} FilterTwice(ts: seq<Timer>, p: Timer -> bool, q: Timer -> bool)
    ensures Filter(Filter(ts, p), q) == Filter(ts, t => p(t) && q(t))
  {
    if ts != [] {
      FilterTwice(ts[..|ts| - 1], p, q);
      if p(ts[|ts| - 1]) {
        var f := Filter(ts[..|ts| - 1], p);
        assert (f + [ts[|ts| - 1]])[..|f|] == f;
      }
    }
  }

  lemma FilterAppend(ts: seq<Timer>, t: Timer, keep: Timer -> bool)
    ensures Filter(ts + [t], keep) == if keep(t) then Filter(ts, keep) + [t] else Filter(ts, keep)
  {
    assert (ts + [t])[..|ts|] == ts;
  }

  lemma {:induction false} FilterNothing(ts: seq<Timer>, keep: Timer -> bool)
    requires forall t :: t in ts ==> !keep(t)
    ensures Filter(ts, keep) == []
  {
    if ts != [] {
      FilterNothing(ts[..|ts| - 1], keep);
    }
  }

  lemma {:induction false} FilterAll(ts: seq<Timer>, keep: Timer -> bool)
    requires forall t :: t in ts ==> keep(t)
    ensures Filter(ts, keep) == ts
  {
    if ts != [] {
      FilterAll(ts[..|ts| - 1], keep);
      assert ts == ts[..|ts| - 1] + [ts[|ts| - 1]];
    }
  }

  // ---- creation order ----

  /** Ids grow along the list: the list is in creation order and no id occurs twice. */
  ghost predicate InCreationOrder(ts: seq<Timer>) {
    forall i, j :: 0 <= i < j < |ts| ==> ts[i].id < ts[j].id
  }

  lemma {:induction false} FilterKeepsOrder(ts: seq<Timer>, keep: Timer -> bool)
    requires InCreationOrder(ts)
    ensures InCreationOrder(Filter(ts, keep))
  {
    if ts != [] {
      FilterKeepsOrder(ts[..|ts| - 1], keep);
      FilterMembers(ts[..|ts| - 1], keep);
      var f := Filter(ts[..|ts| - 1], keep);
      forall i | 0 <= i < |f| ensures f[i].id < ts[|ts| - 1].id {
        assert f[i] in f;
      }
    }
  }

  lemma SameIdSameTimer(ts: seq<Timer>, a: Timer, b: Timer)
    requires InCreationOrder(ts) && a in ts && b in ts && a.id == b.id
    ensures a == b
  {
  }

  // ---- slots and firing order ----

  predicate Due(t: Timer, now: nat) { t.expireTime <= now }

  /** Whether a deadline that is `d` after the origin belongs in slot `s` of wheel `w`
      while the hands show `v`. */
  ghost predicate InSlot(d: int, v: nat, w: nat, s: nat) {
    0 <= d < RANGE && v < RANGE && Level(d, v) == w && Digit(d, w) == s
  }

  ghost function SitsIn(origin: int, v: nat, w: nat, s: nat): Timer -> bool {
    (t: Timer) => InSlot(t.expireTime - origin, v, w, s)
  }

  ghost function DueIn(origin: int, v: nat, now: nat, w: nat, s: nat): Timer -> bool {
    (t: Timer) => InSlot(t.expireTime - origin, v, w, s) && Due(t, now)
  }

  function IsPending(now: nat): Timer -> bool {
    (t: Timer) => !Due(t, now)
  }

  /** The list that slot `s` of wheel `w` holds while the hands show `v`. */
  ghost function Slot(live: seq<Timer>, origin: int, v: nat, w: nat, s: nat): seq<Timer> {
    Filter(live, SitsIn(origin, v, w, s))
  }

  ghost function DueSlot(live: seq<Timer>, origin: int, v: nat, now: nat, w: nat, s: nat): seq<Timer> {
    Filter(live, DueIn(origin, v, now, w, s))
  }

  /** The due timers of all slots before slot `s` of wheel `w`, slot after slot. */
  ghost function DueBefore(live: seq<Timer>, origin: int, v: nat, now: nat, w: nat, s: nat): seq<Timer> {
    if s > 0 then DueBefore(live, origin, v, now, w, s - 1) + DueSlot(live, origin, v, now, w, s - 1)
    else if w > 0 then DueBefore(live, origin, v, now, w - 1, SlotCount(w - 1))
    else []
  }

  /** The timers that fire at `now`, in firing order. */
  ghost function FiringOrder(live: seq<Timer>, origin: int, v: nat, now: nat): seq<Timer> {
    DueBefore(live, origin, v, now, WHEEL_COUNT, 0)
  }

  function Pending(live: seq<Timer>, now: nat): seq<Timer> {
    Filter(live, IsPending(now))
  }

  predicate InRange(t: Timer, origin: int, v: nat) {
    v <= t.expireTime - origin < RANGE
  }

  /** Timers fire by wheel, then by slot, then in creation order. */
  ghost predicate FiresBefore(a: Timer, b: Timer, origin: int, v: nat)
    requires v < RANGE
  {
    InRange(a, origin, v) && InRange(b, origin, v) &&
    var da, db := a.expireTime - origin, b.expireTime - origin;
    PositionBefore(da, db, v) || (SamePosition(da, db, v) && a.id < b.id)
  }

  ghost predicate FiringSorted(f: seq<Timer>, origin: int, v: nat)
    requires v < RANGE
  {
    forall i, j :: 0 <= i < j < |f| ==> FiresBefore(f[i], f[j], origin, v)
  }

  ghost predicate AllInRange(live: seq<Timer>, origin: int, v: nat) {
    forall t :: t in live ==> InRange(t, origin, v)
  }

  /** Before slot `s` of wheel `w`. */
  ghost predicate Precedes(d: nat, v: nat, w: nat, s: nat)
    requires d < RANGE && v < RANGE
  {
    Level(d, v) < w || (Level(d, v) == w && Digit(d, w) < s)
  }

  lemma {:induction false} DueBeforeMembers(live: seq<Timer>, origin: int, v: nat, now: nat, w: nat, s: nat)
    requires v < RANGE && AllInRange(live, origin, v) && w <= WHEEL_COUNT && s <= SlotCount(w)
    ensures forall t :: t in DueBefore(live, origin, v, now, w, s)
                        <==> t in live && Due(t, now) && Precedes(t.expireTime - origin, v, w, s)
    decreases w, s
  {
    if s > 0 {
      DueBeforeMembers(live, origin, v, now, w, s - 1);
      FilterMembers(live, DueIn(origin, v, now, w, s - 1));
    } else if w > 0 {
      DueBeforeMembers(live, origin, v, now, w - 1, SlotCount(w - 1));
    }
  }

  lemma FiringSortedConcat(f: seq<Timer>, g: seq<Timer>, origin: int, v: nat)
    requires v < RANGE && FiringSorted(f, origin, v) && FiringSorted(g, origin, v)
    requires forall a, b :: a in f && b in g ==> FiresBefore(a, b, origin, v)
    ensures FiringSorted(f + g, origin, v)
  {
    forall i, j | 0 <= i < j < |f + g| ensures FiresBefore((f + g)[i], (f + g)[j], origin, v) {
      if i < |f| <= j {
        assert f[i] in f && g[j - |f|] in g;
      }
    }
  }

  lemma DueSlotSorted(live: seq<Timer>, origin: int, v: nat, now: nat, w: nat, s: nat)
    requires v < RANGE && AllInRange(live, origin, v) && InCreationOrder(live)
    ensures FiringSorted(DueSlot(live, origin, v, now, w, s), origin, v)
    ensures forall t :: t in DueSlot(live, origin, v, now, w, s)
                        <==> t in live && InSlot(t.expireTime - origin, v, w, s) && Due(t, now)
  {
    FilterMembers(live, DueIn(origin, v, now, w, s));
    FilterKeepsOrder(live, DueIn(origin, v, now, w, s));
    var g := DueSlot(live, origin, v, now, w, s);
    forall i, j | 0 <= i < j < |g| ensures FiresBefore(g[i], g[j], origin, v) {
      assert g[i] in g && g[j] in g;
    }
  }

  lemma {:induction false} DueBeforeSorted(live: seq<Timer>, origin: int, v: nat, now: nat, w: nat, s: nat)
    requires v < RANGE && AllInRange(live, origin, v) && InCreationOrder(live)
    requires w <= WHEEL_COUNT && s <= SlotCount(w)
    ensures FiringSorted(DueBefore(live, origin, v, now, w, s), origin, v)
    decreases w, s
  {
    if s > 0 {
      DueBeforeSorted(live, origin, v, now, w, s - 1);
      DueBeforeMembers(live, origin, v, now, w, s - 1);
      DueSlotSorted(live, origin, v, now, w, s - 1);
      FiringSortedConcat(DueBefore(live, origin, v, now, w, s - 1), DueSlot(live, origin, v, now, w, s - 1), origin, v);
    } else if w > 0 {
      DueBeforeSorted(live, origin, v, now, w - 1, SlotCount(w - 1));
    }
  }

  /** The firing order holds exactly the due timers, each once, by wheel, slot and age. */
  lemma FiringOrderIsExact(live: seq<Timer>, origin: int, v: nat, now: nat)
    requires v < RANGE && AllInRange(live, origin, v) && InCreationOrder(live)
    ensures var f := FiringOrder(live, origin, v, now);
            (forall t :: t in f <==> t in live && Due(t, now))
            && FiringSorted(f, origin, v)
            && (forall i, j :: 0 <= i < j < |f| ==> f[i].id != f[j].id)
  {
    DueBeforeMembers(live, origin, v, now, WHEEL_COUNT, 0);
    DueBeforeSorted(live, origin, v, now, WHEEL_COUNT, 0);
    var f := FiringOrder(live, origin, v, now);
    forall i, j | 0 <= i < j < |f|
      ensures f[i].id != f[j].id
    {
      assert f[i] in f && f[j] in f && FiresBefore(f[i], f[j], origin, v);
      if f[i].id == f[j].id {
        SameIdSameTimer(live, f[i], f[j]);
      }
    }
  }

  /** Equal deadlines fire in creation order. */
  lemma EqualDeadlinesFireInCreationOrder(live: seq<Timer>, origin: int, v: nat, now: nat, i: nat, j: nat)
    requires v < RANGE && AllInRange(live, origin, v) && InCreationOrder(live)
    requires i < j < |FiringOrder(live, origin, v, now)|
    requires FiringOrder(live, origin, v, now)[i].expireTime == FiringOrder(live, origin, v, now)[j].expireTime
    ensures FiringOrder(live, origin, v, now)[i].id < FiringOrder(live, origin, v, now)[j].id
  {
    FiringOrderIsExact(live, origin, v, now);
    var f := FiringOrder(live, origin, v, now);
    assert FiresBefore(f[i], f[j], origin, v);
  }

  /** A timer that fires before an earlier deadline comes from the same slot of a wheel
      above wheel 0, so the two deadlines are closer than that slot is wide. */
  ghost predicate SameSlotOvertaking(a: Timer, b: Timer, origin: int, v: nat)
    requires v < RANGE && InRange(a, origin, v) && InRange(b, origin, v)
  {
    var da, db := a.expireTime - origin, b.expireTime - origin;
    SamePosition(da, db, v) && Level(da, v) > 0
    && a.expireTime < b.expireTime + SlotWidth(Level(da, v))
    && a.id < b.id
  }

  lemma OvertakingStaysInSlot(a: Timer, b: Timer, origin: int, v: nat)
    requires v < RANGE && FiresBefore(a, b, origin, v) && a.expireTime > b.expireTime
    ensures SameSlotOvertaking(a, b, origin, v)
  {
    InversionSharesSlot(v, b.expireTime - origin, a.expireTime - origin);
  }

  lemma DisorderIsBounded(live: seq<Timer>, origin: int, v: nat, now: nat, i: nat, j: nat)
    requires v < RANGE && AllInRange(live, origin, v) && InCreationOrder(live)
    requires i < j < |FiringOrder(live, origin, v, now)|
    ensures var a, b := FiringOrder(live, origin, v, now)[i], FiringOrder(live, origin, v, now)[j];
            a in live && b in live
            && (a.expireTime > b.expireTime ==> SameSlotOvertaking(a, b, origin, v))
  {
    FiringOrderIsExact(live, origin, v, now);
    var f := FiringOrder(live, origin, v, now);
    assert f[i] in f && f[j] in f && FiresBefore(f[i], f[j], origin, v);
    if f[i].expireTime > f[j].expireTime {
      OvertakingStaysInSlot(f[i], f[j], origin, v);
    }
  }
}
