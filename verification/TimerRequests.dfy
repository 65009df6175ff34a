/** What a run of timer operations asks for, read off the operations alone, and that a plan
    does what it is asked. */
module TimerRequests {
  import opened TimerPlan
  import opened TimerRuns

  /** The timers that operations create after `n` others, when the last step was at `last`:
      the deadline counts from the last step, or is given and not before it. */
  function CreatedBy(last: nat, n: nat, ops: seq<Op>): seq<Timer>
    decreases |ops|
  {
    if ops == [] then []
    else match ops[0]
      case RunAfter(interval, cb) => [Timer(n + 1, last + interval, cb)] + CreatedBy(last, n + 1, ops[1..])
      case RunAt(expireTime, cb) =>
        [Timer(n + 1, if last < expireTime then expireTime else last, cb)] + CreatedBy(last, n + 1, ops[1..])
      case RemoveTimer(_) => CreatedBy(last, n, ops[1..])
      case Step(now) => CreatedBy(now, n, ops[1..])
  }

  /** The ids that operations remove. */
  function RemovedBy(ops: seq<Op>): seq<nat> {
    if ops == [] then [] else (if ops[0].RemoveTimer? then [ops[0].id] else []) + RemovedBy(ops[1..])
  }

  function LastStep(last: nat, ops: seq<Op>): nat
    decreases |ops|
  {
    if ops == [] then last else LastStep(if ops[0].Step? then ops[0].now else last, ops[1..])
  }

  /** A step: when it was, when the one before it was, and how many timers there were then. */
  datatype Round = Round(since: nat, known: nat, at: nat)

  function Rounds(since: nat, known: nat, n: nat, ops: seq<Op>): seq<Round>
    decreases |ops|
  {
    if ops == [] then []
    else match ops[0]
      case RemoveTimer(_) => Rounds(since, known, n, ops[1..])
      case Step(now) => [Round(since, known, now)] + Rounds(now, n, n, ops[1..])
      case _ => Rounds(since, known, n + 1, ops[1..])
  }

  function Ids(ts: seq<Timer>): seq<nat> {
    seq(|ts|, i requires 0 <= i < |ts| => ts[i].id)
  }

  /** `r` goes on from `h` as the operations ask. */
  ghost predicate Follows(h: History, ops: seq<Op>, r: History) {
    && r.created == h.created + CreatedBy(h.plan.last, h.plan.lastId, ops)
    && Ids(r.removed) == Ids(h.removed) + RemovedBy(ops)
    && r.plan.last == LastStep(h.plan.last, ops)
    && |h.fired| <= |r.fired| && r.fired[..|h.fired|] == h.fired
    && forall i :: |h.fired| <= i < |r.fired| ==> RoundOf(r.fired[i]) in Rounds(h.plan.last, h.known, h.plan.lastId, ops)
  }

  function RoundOf(f: Firing): Round {
    Round(f.since, f.known, f.at)
  }

  lemma OnlyOneHasId(live: seq<Timer>, id: nat)
    requires InCreationOrder(live) && exists t :: t in live && t.id == id
    ensures Ids(Filter(live, HasId(id))) == [id]
  {
    hide Filter, InCreationOrder, Ids;
    FilterMembers(live, HasId(id));
    FilterKeepsOrder(live, HasId(id));
    var t :| t in live && t.id == id;
    assert t in Filter(live, HasId(id));
    EqualIdsAreOne(Filter(live, HasId(id)), id);
  }

  lemma EqualIdsAreOne(ts: seq<Timer>, id: nat)
    requires InCreationOrder(ts) && ts != [] && forall t :: t in ts ==> t.id == id
    ensures Ids(ts) == [id]
  {
    assert |ts| > 1 ==> ts[0].id < ts[1].id;
    assert ts[0] in ts;
  }

  lemma CreationFollows(h: History, op: Op)
    requires Accounted(h) && (op.RunAfter? || op.RunAt?)
    ensures var r := After(h, op);
            r.created == h.created + CreatedBy(h.plan.last, h.plan.lastId, [op]) && |CreatedBy(h.plan.last, h.plan.lastId, [op])| == 1
            && r.plan.lastId == h.plan.lastId + 1 && r.plan.last == h.plan.last
            && r.known == h.known && r.fired == h.fired && r.removed == h.removed
  {
    assert [op][1..] == [];
  }

  lemma CreatedByOne(last: nat, n: nat, ops: seq<Op>)
    requires ops != []
    ensures var last' := if ops[0].Step? then ops[0].now else last;
            CreatedBy(last, n, ops)
            == CreatedBy(last, n, [ops[0]]) + CreatedBy(last', n + |CreatedBy(last, n, [ops[0]])|, ops[1..])
  {
    assert [ops[0]][1..] == [];
  }

  lemma OthersByOne(last: nat, known: nat, n: nat, ops: seq<Op>)
    requires ops != []
    ensures RemovedBy(ops) == RemovedBy([ops[0]]) + RemovedBy(ops[1..])
    ensures LastStep(last, ops) == LastStep(if ops[0].Step? then ops[0].now else last, ops[1..])
    ensures Rounds(last, known, n, ops)
            == (if ops[0].Step? then [Round(last, known, ops[0].now)] else [])
               + var m := n + |CreatedBy(last, n, [ops[0]])|;
                 if ops[0].Step? then Rounds(ops[0].now, n, m, ops[1..]) else Rounds(last, known, m, ops[1..])
  {
    assert [ops[0]][1..] == [];
  }

  lemma {:induction false} RunFollows(h: History, ops: seq<Op>)
    requires Accounted(h) && AllowedRun(h, ops)
    ensures Follows(h, ops, AfterRun(h, ops))
    decreases |ops|
  {
    hide Accounted, CreatedBy, After;
    if ops == [] {
      NothingFollows(h);
    } else {
      var op, h1, r := ops[0], After(h, ops[0]), AfterRun(h, ops);
      OpAccounts(h, op);
      RunFollows(h1, ops[1..]);
      OpFollows(h, op);
      CreatedByOne(h.plan.last, h.plan.lastId, ops);
      assert r == AfterRun(h1, ops[1..]);
      GoesOn(h, h1, ops, r);
    }
  }

  lemma NothingFollows(h: History)
    ensures Follows(h, [], h)
  {
  }

  lemma OpFollows(h: History, op: Op)
    requires Accounted(h) && Allowed(h.plan, op)
    ensures var h1 := After(h, op);
            && h1.created == h.created + CreatedBy(h.plan.last, h.plan.lastId, [op])
            && Ids(h1.removed) == Ids(h.removed) + RemovedBy([op])
            && h1.plan.last == (if op.Step? then op.now else h.plan.last)
            && h1.plan.lastId == h.plan.lastId + |CreatedBy(h.plan.last, h.plan.lastId, [op])|
            && h1.known == (if op.Step? then h.plan.lastId else h.known)
            && |h.fired| <= |h1.fired| && h1.fired[..|h.fired|] == h.fired
            && (!op.Step? ==> h1.fired == h.fired)
            && forall i :: |h.fired| <= i < |h1.fired| ==> op.Step? && RoundOf(h1.fired[i]) == Round(h.plan.last, h.known, op.now)
  {
    hide ValidPlan, Fires, Ids;
    assert [op][1..] == [];
    match op
    case RemoveTimer(id) => RemovalFollows(h, id);
    case Step(now) =>
    case _ => CreationFollows(h, op);
  }

  lemma RemovalFollows(h: History, id: nat)
    requires Accounted(h) && Allowed(h.plan, RemoveTimer(id))
    ensures Ids(After(h, RemoveTimer(id)).removed) == Ids(h.removed) + [id]
  {
    var gone := Filter(h.plan.live, HasId(id));
    OnlyOneHasId(h.plan.live, id);
    assert Ids(h.removed + gone) == Ids(h.removed) + Ids(gone);
  }

  lemma GoesOn(h: History, h1: History, ops: seq<Op>, r: History)
    requires ops != [] && Follows(h1, ops[1..], r)
    requires var op := ops[0];
             && h1.created == h.created + CreatedBy(h.plan.last, h.plan.lastId, [op])
             && Ids(h1.removed) == Ids(h.removed) + RemovedBy([op])
             && h1.plan.last == (if op.Step? then op.now else h.plan.last)
             && h1.plan.lastId == h.plan.lastId + |CreatedBy(h.plan.last, h.plan.lastId, [op])|
             && h1.known == (if op.Step? then h.plan.lastId else h.known)
             && |h.fired| <= |h1.fired| && h1.fired[..|h.fired|] == h.fired
             && forall i :: |h.fired| <= i < |h1.fired| ==> op.Step? && RoundOf(h1.fired[i]) == Round(h.plan.last, h.known, op.now)
    ensures Follows(h, ops, r)
  {
    hide Ids, CreatedBy, Rounds, LastStep, RemovedBy;
    CreatedByOne(h.plan.last, h.plan.lastId, ops);
    OthersByOne(h.plan.last, h.known, h.plan.lastId, ops);
    assert r.created == h.created + (CreatedBy(h.plan.last, h.plan.lastId, [ops[0]]) + CreatedBy(h1.plan.last, h1.plan.lastId, ops[1..]));
    forall i | |h.fired| <= i < |r.fired| ensures RoundOf(r.fired[i]) in Rounds(h.plan.last, h.known, h.plan.lastId, ops) {
      if i < |h1.fired| {
        assert r.fired[i] == r.fired[..|h1.fired|][i];
      }
    }
  }

  /** From its start on a run creates the timers, removes the ids and makes the steps that its
      operations say, and every firing belongs to one of these steps. */
  lemma RunsDoAsAsked(now: nat, ops: seq<Op>)
    requires AllowedRun(Started(now), ops)
    ensures var h := AfterRun(Started(now), ops);
            && h.created == CreatedBy(now, 0, ops)
            && Ids(h.removed) == RemovedBy(ops)
            && h.plan.last == LastStep(now, ops)
            && forall i :: 0 <= i < |h.fired| ==> RoundOf(h.fired[i]) in Rounds(now, 0, 0, ops)
  {
    hide AllowedRun, AfterRun, CreatedBy, Rounds;
    RunFollows(Started(now), ops);
  }

  /** A fired timer is the one that the operations created under its id. */
  lemma FiredAsAsked(now: nat, ops: seq<Op>, i: nat)
    requires AllowedRun(Started(now), ops) && i < |AfterRun(Started(now), ops).fired|
    ensures var t := AfterRun(Started(now), ops).fired[i].timer;
            1 <= t.id <= |CreatedBy(now, 0, ops)| && t == CreatedBy(now, 0, ops)[t.id - 1]
  {
    hide AllowedRun, AfterRun, CreatedBy;
    var h := AfterRun(Started(now), ops);
    RunsDoAsAsked(now, ops);
    NewRunsAccountForEveryTimer(now, ops);
    var t := FiredTimers(h.fired)[i];
    assert t in multiset(FiredTimers(h.fired));
    assert t in multiset(h.created);
  }
}
