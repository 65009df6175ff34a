/** What the records of `ConnectionLifetime` say about the steps of a run: a connection is as
    its steps have made it, and a whole life of one is possible. */
module ConnectionTraces {
  import opened TcpConnections
  import opened ConnectionLifetime

  /** What the steps alone say about a connection. */
  datatype Seen = Unknown | Known(fd: nat, loop: nat, handling: bool, closes: nat, freed: bool)

  function SeenNext(seen: Seen, step: Step, id: nat): Seen {
    match step
    case Accept(i, fd, loop) => if i == id then Known(fd, loop, false, 0, false) else seen
    case BeginEvents(i) => if i == id && seen.Known? then seen.(handling := true) else seen
    case EndEvents(i) => if i == id && seen.Known? then seen.(handling := false) else seen
    case Close(i) => if i == id && seen.Known? then seen.(closes := seen.closes + 1) else seen
    case Free(i) => if i == id && seen.Known? then seen.(freed := true) else seen
    case _ => seen
  }

  function SeenAfter(seen: Seen, steps: seq<Step>, id: nat): Seen
    decreases |steps|
  {
    if steps == [] then seen else SeenAfter(SeenNext(seen, steps[0], id), steps[1..], id)
  }

  /** The record of a connection, as far as steps about it alone determine it. */
  function Recorded(s: State, id: nat): Seen {
    if id !in s.conns then Unknown
    else
      var c := s.conns[id];
      Known(c.fd, c.loop, c.handling, c.closeCalls, c.freed)
  }

  lemma TaskIsRecorded(s: State, loop: nat, id: nat)
    requires Enabled(s, RunTask(loop))
    ensures Recorded(Apply(s, RunTask(loop)), id) == Recorded(s, id)
  {
    hide NobodyHandles, Referenced, ThreadFree, MayClose, InMap;
  }

  lemma StepIsRecorded(s: State, step: Step, id: nat)
    requires Enabled(s, step)
    ensures Recorded(Apply(s, step), id) == SeenNext(Recorded(s, id), step, id)
  {
    hide Enabled, Apply, Recorded;
    if step.RunTask? {
      TaskIsRecorded(s, step.loop, id);
    } else {
      OtherIsRecorded(s, step, id);
    }
  }

  lemma OtherIsRecorded(s: State, step: Step, id: nat)
    requires Enabled(s, step) && !step.RunTask?
    ensures Recorded(Apply(s, step), id) == SeenNext(Recorded(s, id), step, id)
  {
    hide NobodyHandles, Referenced, Tasks, ThreadFree, MayClose, InMap;
  }

  lemma {:induction false} RunIsRecorded(s: State, steps: seq<Step>, id: nat)
    requires IsRun(s, steps)
    ensures Recorded(Outcome(s, steps), id) == SeenAfter(Recorded(s, id), steps, id)
    decreases |steps|
  {
    hide Apply, Enabled, Recorded, SeenNext;
    if steps != [] {
      StepIsRecorded(s, steps[0], id);
      RunIsRecorded(Apply(s, steps[0]), steps[1..], id);
    }
  }

  /** A connection exists from the step that accepts it on, with the descriptor and the loop
      it was given; it handles events exactly between the steps that begin and end this; its
      close callback ran as often as it was closed; and it is freed by the step that frees
      it and no other. */
  lemma RecordsFollowSteps(steps: seq<Step>, id: nat)
    requires IsRun(INITIAL, steps)
    ensures Recorded(Outcome(INITIAL, steps), id) == SeenAfter(Unknown, steps, id)
  {
    hide SeenAfter, Outcome, IsRun;
    RunIsRecorded(INITIAL, steps, id);
  }

  // ---- a whole life ----

  ghost predicate Moves(s: State, step: Step, t: State) {
    Enabled(s, step) && Apply(s, step) == t
  }

  lemma Prepend(s: State, step: Step, t: State, rest: seq<Step>)
    requires Moves(s, step, t) && IsRun(t, rest)
    ensures IsRun(s, [step] + rest) && Outcome(s, [step] + rest) == Outcome(t, rest)
  {
    hide Apply, Enabled;
    assert ([step] + rest)[1..] == rest;
  }

  /** A state with a single connection. */
  function Only(id: nat, c: Conn, known: bool, tasks: map<nat, seq<Task>>, calls: seq<Call>): State {
    State(map[id := c], if known then map[c.fd := id] else map[], tasks, if c.freed then {} else {c.fd}, calls)
  }

  function Opened(fd: nat, loop: nat): Conn {
    Conn(fd, loop, Connected, true, true, 0, 0, 0, false, false)
  }

  function Closed(fd: nat, loop: nat): Conn {
    Opened(fd, loop).(state := Disconnected, closeCalls := 1)
  }

  /** From the call of `HandleConnectionClose` on. */
  function Ending(id: nat, loop: nat): seq<Step> {
    [QueueDestroy] + ([LeaveHandleClose] + ((if loop == BASE then [EndEvents(id)] else []) + ([RunTask(loop)] + [Free(id)])))
  }

  lemma DestroyIsQueued(id: nat, c: Conn, tasks: map<nat, seq<Task>>)
    requires c.erased == 1 && c.queued == 0 && !c.freed && (c.loop in tasks ==> tasks[c.loop] == [])
    ensures Moves(Only(id, c, false, tasks, [Erased(id)]), QueueDestroy,
                  Only(id, c.(queued := 1), false, tasks[c.loop := [Destroy(id)]], [Queued(id)]))
  {
    var s, q := Only(id, c, false, tasks, [Erased(id)]), c.(queued := 1);
    assert Last(s) == Erased(id) && Outer(s) + [Queued(id)] == [Queued(id)];
    var s1 := Update(s, id, q).(calls := [Queued(id)]);
    assert s1 == Only(id, q, false, tasks, [Queued(id)]) by {
      assert map[id := c][id := q] == map[id := q];
    }
    assert Tasks(s1, c.loop) + [Destroy(id)] == [Destroy(id)];
  }

  lemma HandleCloseIsLeft(id: nat, c: Conn, tasks: map<nat, seq<Task>>)
    ensures Moves(Only(id, c, false, tasks, [Queued(id)]), LeaveHandleClose, Only(id, c, false, tasks, []))
  {
    assert Outer(Only(id, c, false, tasks, [Queued(id)])) == [];
  }

  lemma EventsEnd(id: nat, c: Conn, known: bool, tasks: map<nat, seq<Task>>)
    requires c.handling
    ensures Moves(Only(id, c, known, tasks, []), EndEvents(id), Only(id, c.(handling := false), known, tasks, []))
  {
  }

  lemma DestroyRuns(id: nat, c: Conn, tasks: map<nat, seq<Task>>)
    requires !c.handling && !c.freed && c.loop in tasks && tasks[c.loop] == [Destroy(id)]
    ensures var d := c.(registered := false, destroyed := true);
            Moves(Only(id, c, false, tasks, []), RunTask(c.loop), Only(id, d, false, tasks[c.loop := []], []))
            && Moves(Only(id, d, false, tasks[c.loop := []], []), Free(id), Only(id, d.(freed := true), false, tasks[c.loop := []], []))
  {
    assert [Destroy(id)][1..] == [];
  }

  /** What is left when a connection is gone. */
  ghost predicate Gone(s: State, id: nat) {
    id in s.conns && s.conns[id].freed && s.conns[id].destroyed && s.openFds == {} && Quiet(s)
  }

  lemma EndingRuns(id: nat, c: Conn, tasks: map<nat, seq<Task>>)
    requires c.erased == 1 && c.queued == 0 && !c.freed && c.handling == (c.loop == BASE)
    requires forall loop :: loop in tasks ==> tasks[loop] == []
    ensures var s := Only(id, c, false, tasks, [Erased(id)]);
            IsRun(s, Ending(id, c.loop)) && Gone(Outcome(s, Ending(id, c.loop)), id)
  {
    hide Moves, IsRun, Outcome, Only;
    var queued := c.(queued := 1);
    var idle := queued.(handling := false);
    var tasks1 := tasks[c.loop := [Destroy(id)]];
    var tasks2 := tasks1[c.loop := []];
    DestroyIsQueued(id, c, tasks);
    HandleCloseIsLeft(id, queued, tasks1);
    DestroyRuns(id, idle, tasks1);
    var end := Only(id, idle.(registered := false, destroyed := true, freed := true), false, tasks2, []);
    var last := [RunTask(c.loop)] + [Free(id)];
    NoStep(end);
    assert [Free(id)] + [] == [Free(id)];
    Prepend(Only(id, idle.(registered := false, destroyed := true), false, tasks2, []), Free(id), end, []);
    Prepend(Only(id, idle, false, tasks1, []), RunTask(c.loop), Only(id, idle.(registered := false, destroyed := true), false, tasks2, []), [Free(id)]);
    var back := (if c.loop == BASE then [EndEvents(id)] else []) + last;
    if c.loop == BASE {
      EventsEnd(id, queued, false, tasks1);
      Prepend(Only(id, queued, false, tasks1, []), EndEvents(id), Only(id, idle, false, tasks1, []), last);
    } else {
      assert back == last;
    }
    Prepend(Only(id, queued, false, tasks1, [Queued(id)]), LeaveHandleClose, Only(id, queued, false, tasks1, []), back);
    Prepend(Only(id, c, false, tasks, [Erased(id)]), QueueDestroy, Only(id, queued, false, tasks1, [Queued(id)]), [LeaveHandleClose] + back);
    GoneAtEnd(id, idle.(registered := false, destroyed := true, freed := true), tasks2);
  }

  lemma NoStep(s: State)
    ensures IsRun(s, []) && Outcome(s, []) == s
  {
  }

  lemma GoneAtEnd(id: nat, c: Conn, tasks: map<nat, seq<Task>>)
    requires c.freed && c.destroyed && forall loop :: loop in tasks ==> tasks[loop] == []
    ensures Gone(Only(id, c, false, tasks, []), id)
  {
  }

  /** On the base loop a connection is accepted, handles events, is closed, destroyed and
      freed; then its descriptor is closed and nothing is left to do. */
  lemma LifeOnBaseLoop(id: nat, fd: nat)
    ensures var life := [Accept(id, fd, BASE)] + ([BeginEvents(id)] + ([Close(id)] + Ending(id, BASE)));
            IsRun(INITIAL, life) && Gone(Outcome(INITIAL, life), id)
  {
    hide IsRun, Outcome, Ending;
    var o, c := Opened(fd, BASE), Closed(fd, BASE).(erased := 1);
    var s1 := Only(id, o.(handling := false), true, map[], []);
    var s2 := Only(id, o, true, map[], []);
    var s3 := Only(id, c, false, map[], [Erased(id)]);
    assert Moves(INITIAL, Accept(id, fd, BASE), s1);
    assert Moves(s1, BeginEvents(id), s2);
    assert Moves(s2, Close(id), s3) by {
      assert map[fd := id] - {fd} == map[];
    }
    hide Moves;
    EndingRuns(id, c, map[]);
    Prepend(s2, Close(id), s3, Ending(id, BASE));
    Prepend(s1, BeginEvents(id), s2, [Close(id)] + Ending(id, BASE));
    Prepend(INITIAL, Accept(id, fd, BASE), s1, [BeginEvents(id)] + ([Close(id)] + Ending(id, BASE)));
  }

  /** So it is on an IO loop, where the base loop and the IO loop hand the connection to each
      other. */
  lemma LifeOnIoLoop(id: nat, fd: nat, loop: nat)
    requires loop != BASE
    ensures var life := [Accept(id, fd, loop)] + ([RunTask(loop)] + ([BeginEvents(id)] + ([Close(id)]
                        + ([EndEvents(id)] + ([RunTask(BASE)] + Ending(id, loop))))));
            IsRun(INITIAL, life) && Gone(Outcome(INITIAL, life), id)
  {
    hide IsRun, Outcome, Ending, Moves;
    var o, c := Opened(fd, loop), Closed(fd, loop);
    var erased := c.(handling := false, erased := 1);
    var toClose := map[loop := [], BASE := [HandleClose(fd)]];
    var s1 := Only(id, o.(handling := false, registered := false), true, map[loop := [StartReading(id)]], []);
    var s2 := Only(id, o.(handling := false), true, map[loop := []], []);
    var s3 := Only(id, o, true, map[loop := []], []);
    var s4 := Only(id, c, true, toClose, []);
    var s5 := Only(id, c.(handling := false), true, toClose, []);
    var s6 := Only(id, erased, false, map[loop := [], BASE := []], [Erased(id)]);
    IoLoopStarts(id, fd, loop);
    IoLoopCloses(id, fd, loop);
    EventsEnd(id, c, true, toClose);
    EndingRuns(id, erased, map[loop := [], BASE := []]);
    var r5 := [RunTask(BASE)] + Ending(id, loop);
    var r4 := [EndEvents(id)] + r5;
    var r3 := [Close(id)] + r4;
    Prepend(s5, RunTask(BASE), s6, Ending(id, loop));
    Prepend(s4, EndEvents(id), s5, r5);
    Prepend(s3, Close(id), s4, r4);
    Prepend(s2, BeginEvents(id), s3, r3);
    Prepend(s1, RunTask(loop), s2, [BeginEvents(id)] + r3);
    Prepend(INITIAL, Accept(id, fd, loop), s1, [RunTask(loop)] + ([BeginEvents(id)] + r3));
  }

  lemma IoLoopStarts(id: nat, fd: nat, loop: nat)
    requires loop != BASE
    ensures var o := Opened(fd, loop);
            var s1 := Only(id, o.(handling := false, registered := false), true, map[loop := [StartReading(id)]], []);
            var s2 := Only(id, o.(handling := false), true, map[loop := []], []);
            && Moves(INITIAL, Accept(id, fd, loop), s1)
            && Moves(s1, RunTask(loop), s2)
            && Moves(s2, BeginEvents(id), Only(id, o, true, map[loop := []], []))
  {
    assert [StartReading(id)][1..] == [];
    assert [] + [StartReading(id)] == [StartReading(id)];
  }

  lemma IoLoopCloses(id: nat, fd: nat, loop: nat)
    requires loop != BASE
    ensures var o, c := Opened(fd, loop), Closed(fd, loop);
            var toClose := map[loop := [], BASE := [HandleClose(fd)]];
            && Moves(Only(id, o, true, map[loop := []], []), Close(id), Only(id, c, true, toClose, []))
            && Moves(Only(id, c.(handling := false), true, toClose, []), RunTask(BASE),
                     Only(id, c.(handling := false, erased := 1), false, map[loop := [], BASE := []], [Erased(id)]))
  {
    assert [HandleClose(fd)][1..] == [];
    assert [] + [HandleClose(fd)] == [HandleClose(fd)];
    assert map[fd := id] - {fd} == map[];
  }
}
