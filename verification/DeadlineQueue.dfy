/** The priority queue of deadlines, smallest on top: a sorted sequence. */
module DeadlineQueue {
  import opened TimerPlan

  predicate Sorted(q: seq<nat>) {
    forall i, j :: 0 <= i < j < |q| ==> q[i] <= q[j]
  }

  function Rank(q: seq<nat>, x: nat): (k: nat)
    ensures k <= |q|
    ensures forall i :: 0 <= i < k ==> q[i] < x
    ensures k < |q| ==> x <= q[k]
  {
    if q == [] || x <= q[0] then 0 else 1 + Rank(q[1..], x)
  }

  function Push(q: seq<nat>, x: nat): seq<nat> {
    q[..Rank(q, x)] + [x] + q[Rank(q, x)..]
  }

  lemma PushSorts(q: seq<nat>, x: nat)
    requires Sorted(q)
    ensures Sorted(Push(q, x)) && multiset(Push(q, x)) == multiset(q) + multiset{x}
  {
    hide Sorted;
    var k := Rank(q, x);
    assert q == q[..k] + q[k..];
    PutBetweenSorts(q, x, k);
  }

  lemma PutBetweenSorts(q: seq<nat>, x: nat, k: nat)
    requires Sorted(q) && k <= |q| && (forall i :: 0 <= i < k ==> q[i] < x) && (k < |q| ==> x <= q[k])
    ensures Sorted(q[..k] + [x] + q[k..])
  {
    var r := q[..k] + [x] + q[k..];
    forall i, j | 0 <= i < j < |r| ensures r[i] <= r[j] {
      assert k < j ==> q[k] <= q[j - 1];
    }
  }

  /** The deadlines of a list of timers. */
  function Deadlines(ts: seq<Timer>): seq<nat> {
    if ts == [] then [] else Deadlines(ts[..|ts| - 1]) + [ts[|ts| - 1].expireTime]
  }

  lemma NoDeadlines()
    ensures Deadlines([]) == []
  {
  }

  lemma DeadlinesAppend(ts: seq<Timer>, t: Timer)
    ensures Deadlines(ts + [t]) == Deadlines(ts) + [t.expireTime]
    ensures multiset(Deadlines(ts + [t])) == multiset(Deadlines(ts)) + multiset{t.expireTime}
  {
    assert (ts + [t])[..|ts|] == ts;
  }

  /** The queue holds one entry per timer. */
  ghost predicate Tracks(q: seq<nat>, ts: seq<Timer>) {
    Sorted(q) && multiset(q) == multiset(Deadlines(ts))
  }

  lemma TracksPush(q: seq<nat>, ts: seq<Timer>, t: Timer)
    requires Tracks(q, ts)
    ensures Tracks(Push(q, t.expireTime), ts + [t])
  {
    PushSorts(q, t.expireTime);
    assert (ts + [t])[..|ts|] == ts;
  }

  lemma {:induction false} DeadlinesMembers(ts: seq<Timer>)
    ensures forall x :: x in Deadlines(ts) <==> exists t :: t in ts && t.expireTime == x
    ensures |Deadlines(ts)| == |ts|
  {
    if ts != [] {
      DeadlinesMembers(ts[..|ts| - 1]);
      assert ts == ts[..|ts| - 1] + [ts[|ts| - 1]];
      forall x | x in Deadlines(ts) ensures exists t :: t in ts && t.expireTime == x {
        if x in Deadlines(ts[..|ts| - 1]) {
          var t :| t in ts[..|ts| - 1] && t.expireTime == x;
          assert t in ts;
        } else {
          assert ts[|ts| - 1] in ts;
        }
      }
    }
  }

  lemma {:induction false} DeadlinesAgree(ts: seq<Timer>, now: nat, due: bool)
    requires forall t :: t in ts ==> Due(t, now) == due
    ensures forall x :: x in Deadlines(ts) ==> (x <= now) == due
  {
    if ts != [] {
      DeadlinesAgree(ts[..|ts| - 1], now, due);
      assert ts[|ts| - 1] in ts;
    }
  }

  /** The deadlines split as the timers do. */
  lemma {:induction false} DeadlinesSplit(ts: seq<Timer>, p: Timer -> bool, q: Timer -> bool)
    requires forall t :: t in ts ==> p(t) != q(t)
    ensures multiset(Deadlines(ts)) == multiset(Deadlines(Filter(ts, p))) + multiset(Deadlines(Filter(ts, q)))
  {
    hide Filter, Deadlines;
    if ts == [] {
      FilterNothing(ts, p);
      FilterNothing(ts, q);
      NoDeadlines();
    } else {
      var front, t := ts[..|ts| - 1], ts[|ts| - 1];
      assert ts == front + [t] && t in ts;
      DeadlinesSplit(front, p, q);
      FilterAppend(front, t, p);
      FilterAppend(front, t, q);
      DeadlinesAppend(front, t);
      DeadlinesAppend(Filter(front, p), t);
      DeadlinesAppend(Filter(front, q), t);
    }
  }

  /** Popping every deadline up to `now` leaves exactly the pending timers' deadlines. */
  lemma TracksPending(q: seq<nat>, k: nat, ts: seq<Timer>, now: nat)
    requires Tracks(q, ts) && k <= |q|
    requires forall i :: 0 <= i < k ==> q[i] <= now
    requires k == |q| || q[k] > now
    ensures Tracks(q[k..], Pending(ts, now))
  {
    hide Filter, Deadlines;
    var isDue := (t: Timer) => Due(t, now);
    DeadlinesSplit(ts, isDue, IsPending(now));
    FilterMembers(ts, isDue);
    FilterMembers(ts, IsPending(now));
    DeadlinesAgree(Filter(ts, isDue), now, true);
    DeadlinesAgree(Pending(ts, now), now, false);
    assert q == q[..k] + q[k..];
    forall x | x in q[..k] ensures x <= now {
    }
    forall x | x in q[k..] ensures now < x {
      var i :| 0 <= i < |q| - k && q[k..][i] == x;
      assert q[k] <= q[k + i];
    }
    SplitIsUnique(q[..k], q[k..], Deadlines(Filter(ts, isDue)), Deadlines(Pending(ts, now)), now);
  }

  lemma SplitIsUnique(a: seq<nat>, b: seq<nat>, low: seq<nat>, high: seq<nat>, now: nat)
    requires multiset(a) + multiset(b) == multiset(low) + multiset(high)
    requires forall x :: x in a || x in low ==> x <= now
    requires forall x :: x in b || x in high ==> now < x
    ensures multiset(b) == multiset(high)
  {
    forall x: nat ensures multiset(b)[x] == multiset(high)[x] {
      assert (multiset(a) + multiset(b))[x] == (multiset(low) + multiset(high))[x];
      if x <= now {
        assert x !in b && x !in high;
      } else {
        assert x !in a && x !in low;
      }
    }
  }

  function NotId(id: nat): Timer -> bool {
    (t: Timer) => t.id != id
  }

  /** Dropping one timer drops one occurrence of its deadline. */
  lemma {:induction false} DeadlinesWithout(ts: seq<Timer>, t: Timer)
    requires InCreationOrder(ts) && t in ts
    ensures multiset(Deadlines(ts)) == multiset(Deadlines(Filter(ts, NotId(t.id)))) + multiset{t.expireTime}
  {
    var front, last := ts[..|ts| - 1], ts[|ts| - 1];
    assert ts == front + [last];
    if last == t {
      FilterAll(front, NotId(t.id));
    } else {
      DeadlinesWithout(front, t);
      var f := Filter(front, NotId(t.id));
      assert last.id != t.id;
      assert (f + [last])[..|f|] == f;
    }
  }

  lemma TracksWithout(q: seq<nat>, q': seq<nat>, ts: seq<Timer>, t: Timer)
    requires Tracks(q, ts) && InCreationOrder(ts) && t in ts
    requires Sorted(q') && multiset(q) == multiset(q') + multiset{t.expireTime}
    ensures Tracks(q', Filter(ts, NotId(t.id)))
  {
    hide Filter, Deadlines, InCreationOrder;
    DeadlinesWithout(ts, t);
    SameWithout(multiset(q'), multiset(Deadlines(Filter(ts, NotId(t.id)))), t.expireTime);
  }

  lemma SameWithout(a: multiset<nat>, b: multiset<nat>, x: nat)
    requires a + multiset{x} == b + multiset{x}
    ensures a == b
  {
    assert a == a + multiset{x} - multiset{x};
    assert b == b + multiset{x} - multiset{x};
  }
}
