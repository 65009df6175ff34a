/** Timers over time: the plain plan that a timer wheel refines, and what holds over every
    run of its operations. */
module TimerRuns {
  import opened MixedRadix
  import opened TimerPlan
  import opened DeadlineQueue
  import opened TimerSplice

  /** `origin` is the time at which all hands would show zero. */
  datatype Plan = Plan(live: seq<Timer>, lastId: nat, last: nat, origin: int)

  ghost predicate ValidPlan(p: Plan) {
    && 0 <= p.last - p.origin < RANGE
    && InCreationOrder(p.live)
    && AllInRange(p.live, p.origin, p.last - p.origin)
    && forall t :: t in p.live ==> 1 <= t.id <= p.lastId
  }

  function Created(p: Plan, interval: nat, cb: nat): Plan {
    p.(live := p.live + [Timer(p.lastId + 1, p.last + interval, cb)], lastId := p.lastId + 1)
  }

  function Canceled(p: Plan, id: nat): Plan {
    p.(live := Filter(p.live, NotId(id)))
  }

  function Stepped(p: Plan, now: nat): Plan {
    p.(live := Pending(p.live, now), last := now)
  }

  ghost function Fires(p: Plan, now: nat): seq<Timer>
    requires ValidPlan(p)
  {
    FiringOrder(p.live, p.origin, p.last - p.origin, now)
  }

  /** Before anything is live, starting moves the time but not the hands. */
  function Restarted(p: Plan, now: nat): Plan {
    p.(last := now, origin := p.origin + now - p.last)
  }

  /** The interval that `RunAt` computes: deadlines in the past run as soon as possible. */
  function IntervalUntil(last: nat, expireTime: nat): nat {
    if last < expireTime then expireTime - last else 0
  }

  lemma CreatedIsValid(p: Plan, interval: nat, cb: nat)
    requires ValidPlan(p) && p.last - p.origin + interval < RANGE
    ensures ValidPlan(Created(p, interval, cb))
  {
  }

  lemma CanceledIsValid(p: Plan, id: nat)
    requires ValidPlan(p)
    ensures ValidPlan(Canceled(p, id))
  {
    FilterMembers(p.live, NotId(id));
    FilterKeepsOrder(p.live, NotId(id));
  }

  lemma SteppedIsValid(p: Plan, now: nat)
    requires ValidPlan(p) && p.last <= now && now - p.origin < RANGE
    ensures ValidPlan(Stepped(p, now))
  {
    FilterMembers(p.live, IsPending(now));
    FilterKeepsOrder(p.live, IsPending(now));
  }

  // ---- whole runs ----

  datatype Op =
    | RunAfter(interval: nat, cb: nat)
    | RunAt(expireTime: nat, cb: nat)
    | RemoveTimer(id: nat)
    | Step(now: nat)

  /** A timer fired by the step at time `at`; the step before it was at time `since`, when the
      ids up to `known` had been given out. */
  datatype Firing = Firing(timer: Timer, since: nat, known: nat, at: nat)

  /** `known` is the last id that had been given out at the last step. */
  datatype History = History(plan: Plan, known: nat, created: seq<Timer>, fired: seq<Firing>, removed: seq<Timer>)

  /** Clocks do not run backwards, deadlines stay within 2^31 ms of the origin of the hands,
      and only live timers are removed. */
  ghost predicate Allowed(p: Plan, op: Op) {
    match op
    case RunAfter(interval, _) => p.last - p.origin + interval < RANGE
    case RunAt(expireTime, _) => p.last - p.origin + IntervalUntil(p.last, expireTime) < RANGE
    case RemoveTimer(id) => exists t :: t in p.live && t.id == id
    case Step(now) => p.last <= now && now - p.origin < RANGE
  }

  function PlanAfter(p: Plan, op: Op): Plan {
    match op
    case RunAfter(interval, cb) => Created(p, interval, cb)
    case RunAt(expireTime, cb) => Created(p, IntervalUntil(p.last, expireTime), cb)
    case RemoveTimer(id) => Canceled(p, id)
    case Step(now) => Stepped(p, now)
  }

  ghost function Firings(ts: seq<Timer>, since: nat, known: nat, at: nat): seq<Firing> {
    seq(|ts|, i requires 0 <= i < |ts| => Firing(ts[i], since, known, at))
  }

  function FiredTimers(fs: seq<Firing>): seq<Timer> {
    seq(|fs|, i requires 0 <= i < |fs| => fs[i].timer)
  }

  /** What a step at `now` adds to the fired timers. */
  ghost function Fired(h: History, now: nat): seq<Firing>
    requires ValidPlan(h.plan)
  {
    Firings(Fires(h.plan, now), h.plan.last, h.known, now)
  }

  function HasId(id: nat): Timer -> bool {
    (t: Timer) => t.id == id
  }

  ghost function After(h: History, op: Op): History
    requires ValidPlan(h.plan)
  {
    var p := PlanAfter(h.plan, op);
    match op
    case RunAfter(_, _) => h.(plan := p, created := h.created + [p.live[|p.live| - 1]])
    case RunAt(_, _) => h.(plan := p, created := h.created + [p.live[|p.live| - 1]])
    case RemoveTimer(id) => h.(plan := p, removed := h.removed + Filter(h.plan.live, HasId(id)))
    case Step(now) => h.(plan := p, known := p.lastId, fired := h.fired + Fired(h, now))
  }

  ghost predicate AllowedRun(h: History, ops: seq<Op>)
    decreases |ops|
  {
    ops == [] || (ValidPlan(h.plan) && Allowed(h.plan, ops[0]) && AllowedRun(After(h, ops[0]), ops[1..]))
  }

  ghost function AfterRun(h: History, ops: seq<Op>): History
    requires AllowedRun(h, ops)
    decreases |ops|
  {
    if ops == [] then h else AfterRun(After(h, ops[0]), ops[1..])
  }

  /** What holds at every moment: ids count the created timers; every created timer is live,
      fired or removed and only one of these, once; a live timer that was there at the last
      step is still ahead of it; and every fired timer fired at the first step, since it was
      created, at or after its deadline. */
  ghost predicate Accounted(h: History) {
    && ValidPlan(h.plan)
    && |h.created| == h.plan.lastId
    && (forall i :: 0 <= i < |h.created| ==> h.created[i].id == i + 1)
    && multiset(h.created) == multiset(h.plan.live) + multiset(FiredTimers(h.fired)) + multiset(h.removed)
    && h.known <= h.plan.lastId
    && (forall t :: t in h.plan.live && t.id <= h.known ==> h.plan.last < t.expireTime)
    && forall i :: 0 <= i < |h.fired| ==> OnTime(h.fired[i]) && h.fired[i].at <= h.plan.last
  }

  /** Not early, and not due at the step before if it was there at that step. */
  predicate OnTime(f: Firing) {
    f.since <= f.timer.expireTime <= f.at && (f.timer.id <= f.known ==> f.since < f.timer.expireTime)
  }

  ghost function Started(now: nat): History {
    History(Plan([], 0, now, now), 0, [], [], [])
  }

  /** Every timer created in a run is accounted for, whatever the run. */
  lemma {:induction false} RunsAccountForEveryTimer(h: History, ops: seq<Op>)
    requires Accounted(h) && AllowedRun(h, ops)
    ensures Accounted(AfterRun(h, ops))
    decreases |ops|
  {
    if ops != [] {
      OpAccounts(h, ops[0]);
      RunsAccountForEveryTimer(After(h, ops[0]), ops[1..]);
    }
  }

  /** From the start of a new wheel on, therefore, in every run. */
  lemma NewRunsAccountForEveryTimer(now: nat, ops: seq<Op>)
    requires AllowedRun(Started(now), ops)
    ensures Accounted(AfterRun(Started(now), ops))
  {
    hide AllowedRun, AfterRun;
    RunsAccountForEveryTimer(Started(now), ops);
  }

  /** In every run timers with equal deadlines fire in creation order, whichever steps fire
      them, and a later deadline overtakes an earlier one within a single step only. */
  lemma RunsFireInOrder(now: nat, ops: seq<Op>)
    requires AllowedRun(Started(now), ops)
    ensures InOrder(AfterRun(Started(now), ops))
  {
    hide AllowedRun, AfterRun;
    RunsKeepOrder(Started(now), ops);
  }

  lemma {:induction false} RunsKeepOrder(h: History, ops: seq<Op>)
    requires Accounted(h) && InOrder(h) && AllowedRun(h, ops)
    ensures InOrder(AfterRun(h, ops))
    decreases |ops|
  {
    hide Accounted, InOrder;
    if ops != [] {
      OpAccounts(h, ops[0]);
      OpKeepsOrder(h, ops[0]);
      RunsKeepOrder(After(h, ops[0]), ops[1..]);
    }
  }

  lemma OpKeepsOrder(h: History, op: Op)
    requires Accounted(h) && InOrder(h)
    ensures InOrder(After(h, op))
  {
    match op
    case Step(now) => StepKeepsOrder(h, now);
    case RemoveTimer(id) => FilterMembers(h.plan.live, NotId(id));
    case _ => CreationKeepsOrder(h, op);
  }

  lemma OpAccounts(h: History, op: Op)
    requires Accounted(h) && Allowed(h.plan, op)
    ensures Accounted(After(h, op))
  {
    hide Accounted, ValidPlan, PlanAfter;
    AccountedIsValid(h);
    match op
    case RunAfter(interval, cb) => CreateAccounts(h, interval, cb); CreationIsAccounted(h, op, interval, cb);
    case RunAt(expireTime, cb) =>
      var interval := IntervalUntil(h.plan.last, expireTime);
      CreateAccounts(h, interval, cb);
      CreationIsAccounted(h, op, interval, cb);
    case RemoveTimer(id) => RemoveAccounts(h, id);
    case Step(now) => StepAccounts(h, now);
  }

  lemma AccountedIsValid(h: History)
    requires Accounted(h)
    ensures ValidPlan(h.plan)
  {
  }

  lemma CreationIsAccounted(h: History, op: Op, interval: nat, cb: nat)
    requires ValidPlan(h.plan)
    requires op == RunAfter(interval, cb) || (op.RunAt? && op.cb == cb && interval == IntervalUntil(h.plan.last, op.expireTime))
    ensures var p := Created(h.plan, interval, cb);
            After(h, op) == h.(plan := p, created := h.created + [p.live[|p.live| - 1]])
  {
  }

  lemma RemoveAccounts(h: History, id: nat)
    requires Accounted(h)
    ensures Accounted(After(h, RemoveTimer(id)))
  {
    CanceledIsValid(h.plan, id);
    FilterMembers(h.plan.live, NotId(id));
    SplitByFilter(h.plan.live, NotId(id), HasId(id));
  }

  lemma CreateAccounts(h: History, interval: nat, cb: nat)
    requires Accounted(h) && h.plan.last - h.plan.origin + interval < RANGE
    ensures var p := Created(h.plan, interval, cb);
            Accounted(h.(plan := p, created := h.created + [p.live[|p.live| - 1]]))
  {
    hide ValidPlan, OnTime;
    AccountedIsValid(h);
    CreatedIsValid(h.plan, interval, cb);
  }

  lemma StepAccounts(h: History, now: nat)
    requires Accounted(h) && h.plan.last <= now && now - h.plan.origin < RANGE
    ensures Accounted(After(h, Step(now)))
  {
    hide ValidPlan, Fires, Pending, OnTime;
    AccountedIsValid(h);
    FiresExactlyOnce(h.plan, now);
    SteppedIsValid(h.plan, now);
    PendingIsAhead(h.plan, now);
    FiredIsOnTime(h, now);
    assert FiredTimers(h.fired + Fired(h, now)) == FiredTimers(h.fired) + Fires(h.plan, now);
  }

  lemma FiredIsOnTime(h: History, now: nat)
    requires Accounted(h)
    ensures forall f :: f in Fired(h, now) ==> OnTime(f) && f.at == now
  {
    hide ValidPlan, Fires;
    AccountedIsValid(h);
    FiresExactlyOnce(h.plan, now);
    var f := Fires(h.plan, now);
    forall i | 0 <= i < |f| ensures f[i] in h.plan.live {
      assert f[i] in multiset(h.plan.live);
    }
  }

  lemma PendingIsAhead(p: Plan, now: nat)
    ensures forall t :: t in Stepped(p, now).live ==> now < t.expireTime
  {
    FilterMembers(p.live, IsPending(now));
  }

  // ---- order over runs ----

  /** Earlier deadline, or the same one and created earlier. */
  predicate Before(a: Timer, b: Timer) {
    a.expireTime < b.expireTime || (a.expireTime == b.expireTime && a.id < b.id)
  }

  /** Everything fired comes before everything live, and the timers fired come one before the
      other, except that one step may fire a later deadline before an earlier one. */
  ghost predicate InOrder(h: History) {
    && (forall i, t :: 0 <= i < |h.fired| && t in h.plan.live ==> Before(h.fired[i].timer, t))
    && forall i, j :: 0 <= i < j < |h.fired| ==> FiresInOrder(h.fired[i], h.fired[j])
  }

  predicate FiresInOrder(f: Firing, g: Firing) {
    Before(f.timer, g.timer) || (f.since == g.since && f.at == g.at && f.timer.expireTime > g.timer.expireTime)
  }

  lemma OneStepFiresInOrder(h: History, now: nat)
    requires ValidPlan(h.plan)
    ensures var f := Fired(h, now);
            (forall i, j :: 0 <= i < j < |f| ==> FiresInOrder(f[i], f[j]))
            && forall i :: 0 <= i < |f| ==> f[i].timer in h.plan.live && Due(f[i].timer, now)
  {
    var p, f, ts := h.plan, Fired(h, now), Fires(h.plan, now);
    FiringOrderIsExact(p.live, p.origin, p.last - p.origin, now);
    forall i | 0 <= i < |f| ensures f[i].timer in p.live && Due(f[i].timer, now) {
      assert ts[i] in ts;
    }
    forall i, j | 0 <= i < j < |f| ensures FiresInOrder(f[i], f[j]) {
      if ts[i].expireTime == ts[j].expireTime {
        EqualDeadlinesFireInCreationOrder(p.live, p.origin, p.last - p.origin, now, i, j);
      }
    }
  }

  lemma StepKeepsOrder(h: History, now: nat)
    requires ValidPlan(h.plan) && InOrder(h)
    ensures InOrder(After(h, Step(now)))
  {
    hide Fires, ValidPlan, Before, FiresInOrder;
    var f, h' := Fired(h, now), After(h, Step(now));
    OneStepFiresInOrder(h, now);
    FilterMembers(h.plan.live, IsPending(now));
    forall i, t | 0 <= i < |h'.fired| && t in h'.plan.live ensures Before(h'.fired[i].timer, t) {
      if i >= |h.fired| {
        DueIsBefore(f[i - |h.fired|].timer, t, now);
      }
    }
    forall i, j | 0 <= i < j < |h'.fired| ensures FiresInOrder(h'.fired[i], h'.fired[j]) {
      if i < |h.fired| <= j {
        BeforeIsInOrder(h.fired[i], f[j - |h.fired|]);
      }
    }
  }

  lemma DueIsBefore(a: Timer, b: Timer, now: nat)
    requires Due(a, now) && !Due(b, now)
    ensures Before(a, b)
  {
  }

  lemma BeforeIsInOrder(f: Firing, g: Firing)
    requires Before(f.timer, g.timer)
    ensures FiresInOrder(f, g)
  {
  }

  lemma FiredIsCreated(h: History, i: nat)
    requires Accounted(h) && i < |h.fired|
    ensures h.fired[i].timer.id <= h.plan.lastId && h.fired[i].timer.expireTime <= h.plan.last
  {
    var t := FiredTimers(h.fired)[i];
    assert t in multiset(FiredTimers(h.fired));
    assert t in multiset(h.created);
  }

  lemma CreationKeepsOrder(h: History, op: Op)
    requires Accounted(h) && InOrder(h) && (op.RunAfter? || op.RunAt?)
    ensures InOrder(After(h, op))
  {
    var h' := After(h, op);
    var t := h'.plan.live[|h.plan.live|];
    assert h'.plan.live == h.plan.live + [t];
    forall i | 0 <= i < |h.fired| ensures Before(h.fired[i].timer, t) {
      FiredIsCreated(h, i);
    }
  }

  /** A step moves exactly the due timers, each once, from the live to the fired ones. */
  lemma FiresExactlyOnce(p: Plan, now: nat)
    requires ValidPlan(p)
    ensures multiset(p.live) == multiset(Stepped(p, now).live) + multiset(Fires(p, now))
    ensures forall i :: 0 <= i < |Fires(p, now)| ==> p.last <= Fires(p, now)[i].expireTime <= now
  {
    var f := Fires(p, now);
    FiringOrderIsExact(p.live, p.origin, p.last - p.origin, now);
    SplitByFilter(p.live, IsPending(now), IsDue(now));
    FilterMembers(p.live, IsDue(now));
    FilterKeepsOrder(p.live, IsDue(now));
    SameMembersSameMultiset(f, Filter(p.live, IsDue(now)));
    forall i | 0 <= i < |f| ensures p.last <= f[i].expireTime <= now {
      assert f[i] in f;
    }
  }

  lemma {:induction false} SplitByFilter(ts: seq<Timer>, p: Timer -> bool, q: Timer -> bool)
    requires forall t :: t in ts ==> p(t) != q(t)
    ensures multiset(ts) == multiset(Filter(ts, p)) + multiset(Filter(ts, q))
  {
    if ts != [] {
      SplitByFilter(ts[..|ts| - 1], p, q);
      assert ts == ts[..|ts| - 1] + [ts[|ts| - 1]];
      assert ts[|ts| - 1] in ts;
    }
  }

  lemma {:induction false} DistinctCount(ts: seq<Timer>, t: Timer)
    requires forall i, j :: 0 <= i < j < |ts| ==> ts[i].id != ts[j].id
    ensures multiset(ts)[t] == if t in ts then 1 else 0
  {
    if ts != [] {
      var front, last := ts[..|ts| - 1], ts[|ts| - 1];
      DistinctCount(front, t);
      assert ts == front + [last];
      if last == t {
        forall i | 0 <= i < |front| ensures front[i] != t {
          assert ts[i].id != last.id;
        }
        assert t !in front;
      }
    }
  }

  lemma SameMembersSameMultiset(a: seq<Timer>, b: seq<Timer>)
    requires forall i, j :: 0 <= i < j < |a| ==> a[i].id != a[j].id
    requires forall i, j :: 0 <= i < j < |b| ==> b[i].id != b[j].id
    requires forall t :: t in a <==> t in b
    ensures multiset(a) == multiset(b)
  {
    forall t: Timer ensures multiset(a)[t] == multiset(b)[t] {
      DistinctCount(a, t);
      DistinctCount(b, t);
    }
  }

  // ---- waiting ----

  /** How long the poller may sleep: -1 when nothing is live, otherwise until the earliest
      deadline. */
  ghost predicate IsWait(live: seq<Timer>, now: nat, wait: int) {
    if live == [] then wait == -1
    else exists t :: t in live && (forall u :: u in live ==> t.expireTime <= u.expireTime)
                     && wait == if t.expireTime <= now then 0 else t.expireTime - now
  }

  /** A step before the wait is over fires nothing; a step right when it is over fires the
      timers with the earliest deadline, and if there was any wait, only these. */
  lemma WaitIsExact(p: Plan, now: nat, wait: int, at: nat)
    requires ValidPlan(p) && p.last <= now && IsWait(p.live, now, wait) && p.live != []
    ensures 0 <= wait < RANGE
    ensures now <= at < now + wait ==> Fires(p, at) == []
    ensures at == now + wait ==> forall t :: t in p.live && (forall u :: u in p.live ==> t.expireTime <= u.expireTime) ==> t in Fires(p, at)
    ensures at == now + wait && wait > 0 ==> forall t :: t in Fires(p, at) ==> forall u :: u in p.live ==> t.expireTime <= u.expireTime
  {
    FiringOrderIsExact(p.live, p.origin, p.last - p.origin, at);
    var f := Fires(p, at);
    var t :| t in p.live && (forall u :: u in p.live ==> t.expireTime <= u.expireTime)
             && wait == if t.expireTime <= now then 0 else t.expireTime - now;
    assert |f| > 0 ==> f[0] in f;
  }
}
