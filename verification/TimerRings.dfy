/** The rings of slots as a value, and when they index a list of timers. */
module TimerRings {
  import opened MixedRadix
  import opened TimerPlan
  import opened DeadlineQueue

  type Rings = seq<seq<seq<Timer>>>

  ghost predicate Shaped(r: Rings) {
    |r| == WHEEL_COUNT && forall w :: 0 <= w < WHEEL_COUNT ==> |r[w]| == SlotCount(w)
  }

  predicate IsSlot(w: int, s: int) {
    0 <= w < WHEEL_COUNT && 0 <= s < SlotCount(w)
  }

  function At(r: Rings, w: nat, s: nat): seq<Timer>
    requires Shaped(r) && IsSlot(w, s)
  {
    r[w][s]
  }

  function Put(r: Rings, w: nat, s: nat, ts: seq<Timer>): (r': Rings)
    requires Shaped(r) && IsSlot(w, s)
    ensures Shaped(r') && At(r', w, s) == ts
    ensures forall w', s' :: IsSlot(w', s') && (w' != w || s' != s) ==> At(r', w', s') == At(r, w', s')
  {
    r[w := r[w][s := ts]]
  }

  function EmptyRings(): (r: Rings)
    ensures Shaped(r) && forall w, s :: IsSlot(w, s) ==> At(r, w, s) == []
  {
    seq(WHEEL_COUNT, w requires 0 <= w => seq(SlotCount(w), s => []))
  }

  /** Unlinking a timer takes it out of whichever list it is in. */
  function Unlinked(r: Rings, id: nat): (r': Rings)
    requires Shaped(r)
    ensures Shaped(r')
    ensures forall w, s :: IsSlot(w, s) ==> At(r', w, s) == Filter(At(r, w, s), NotId(id))
  {
    seq(WHEEL_COUNT, w requires 0 <= w < WHEEL_COUNT => seq(SlotCount(w), s requires 0 <= s < SlotCount(w) => Filter(At(r, w, s), NotId(id))))
  }

  /** Every slot holds exactly the timers that belong there, in creation order. */
  ghost predicate Indexes(r: Rings, live: seq<Timer>, origin: int, v: nat) {
    Shaped(r) && forall w, s :: IsSlot(w, s) ==> At(r, w, s) == Slot(live, origin, v, w, s)
  }

  /** A live timer sits in the wheel of the highest digit in which its deadline differs from
      the hands, in the slot that this digit names, and nowhere else. */
  lemma CanonicalPlacement(r: Rings, live: seq<Timer>, origin: int, v: nat, t: Timer, w: nat, s: nat)
    requires Indexes(r, live, origin, v) && v < RANGE && AllInRange(live, origin, v) && IsSlot(w, s)
    ensures t in At(r, w, s) <==> t in live && w == Level(t.expireTime - origin, v) && s == Digit(t.expireTime - origin, w)
  {
    FilterMembers(live, SitsIn(origin, v, w, s));
  }

  /** The rings depend on the live timers and the hands only, not on how timers came to
      their slots. */
  lemma RingsAreCanonical(a: Rings, b: Rings, live: seq<Timer>, origin: int, v: nat)
    requires Indexes(a, live, origin, v) && Indexes(b, live, origin, v)
    ensures a == b
  {
    forall w | 0 <= w < WHEEL_COUNT ensures a[w] == b[w] {
      forall s | 0 <= s < SlotCount(w) ensures a[w][s] == b[w][s] {
        assert At(a, w, s) == At(b, w, s);
      }
    }
  }

  lemma InsertKeepsIndex(r: Rings, live: seq<Timer>, origin: int, v: nat, t: Timer, w: nat, s: nat)
    requires Indexes(r, live, origin, v) && v < RANGE && InRange(t, origin, v)
    requires w == Level(t.expireTime - origin, v) && s == Digit(t.expireTime - origin, w)
    ensures IsSlot(w, s) && Indexes(Put(r, w, s, At(r, w, s) + [t]), live + [t], origin, v)
  {
    hide Digit, Filter, SlotCount;
    forall w', s' | IsSlot(w', s')
      ensures At(Put(r, w, s, At(r, w, s) + [t]), w', s') == Slot(live + [t], origin, v, w', s')
    {
      FilterAppend(live, t, SitsIn(origin, v, w', s'));
    }
  }

  lemma FiltersCommute(ts: seq<Timer>, p: Timer -> bool, q: Timer -> bool)
    ensures Filter(Filter(ts, p), q) == Filter(Filter(ts, q), p)
  {
    FilterTwice(ts, p, q);
    FilterTwice(ts, q, p);
    FilterAgrees(ts, t => p(t) && q(t), t => q(t) && p(t));
  }

  lemma UnlinkKeepsIndex(r: Rings, live: seq<Timer>, origin: int, v: nat, id: nat)
    requires Indexes(r, live, origin, v)
    ensures Indexes(Unlinked(r, id), Filter(live, NotId(id)), origin, v)
  {
    forall w, s | IsSlot(w, s)
      ensures At(Unlinked(r, id), w, s) == Slot(Filter(live, NotId(id)), origin, v, w, s)
    {
      FiltersCommute(live, SitsIn(origin, v, w, s), NotId(id));
    }
  }

  lemma {:induction false} FilterConcat(a: seq<Timer>, b: seq<Timer>, keep: Timer -> bool)
    ensures Filter(a + b, keep) == Filter(a, keep) + Filter(b, keep)
  {
    if b == [] {
      assert a + b == a;
    } else {
      FilterConcat(a, b[..|b| - 1], keep);
      assert (a + b)[..|a + b| - 1] == a + b[..|b| - 1];
    }
  }

  /** Unlinking one timer of a list in creation order leaves the others. */
  lemma UnlinkOne(a: seq<Timer>, x: Timer, b: seq<Timer>)
    requires InCreationOrder(a + [x] + b)
    ensures Filter(a + [x] + b, NotId(x.id)) == a + b
  {
    var ts := a + [x] + b;
    assert ts[|a|] == x;
    forall t | t in a ensures t.id != x.id {
      var i :| 0 <= i < |a| && a[i] == t;
      assert ts[i] == t;
    }
    forall t | t in b ensures t.id != x.id {
      var i :| 0 <= i < |b| && b[i] == t;
      assert ts[|a| + 1 + i] == t;
    }
    FilterAll(a, NotId(x.id));
    FilterAll(b, NotId(x.id));
    FilterConcat(a + [x], b, NotId(x.id));
    FilterAppend(a, x, NotId(x.id));
  }

  /** The map from ids holds exactly the live timers. */
  ghost predicate MapsIds(timers: map<nat, Timer>, live: seq<Timer>) {
    (forall t :: t in live ==> t.id in timers && timers[t.id] == t)
    && (forall id :: id in timers ==> timers[id] in live && timers[id].id == id)
  }
}
