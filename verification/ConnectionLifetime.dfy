/** The life of connections across the threads of a server: the base loop accepts and
    forgets them, each IO loop handles their events and runs the functors queued to it in
    order.  A step is one action of one thread.  The kernel hands out only descriptors that
    are not open. */
module ConnectionLifetime {
  import opened TcpConnections

  const BASE: nat := 0

  datatype Conn = Conn(
    fd: nat, loop: nat, state: ConnectionState,
    registered: bool,   // its channel is with the poller
    handling: bool,     // its channel is handling events
    closeCalls: nat,    // calls of the close callback
    erased: nat,        // erasures from the server's map
    queued: nat,        // times Destroy was queued
    destroyed: bool,    // Destroy has run
    freed: bool)        // the destructor has run and closed the descriptor

  datatype Task = StartReading(id: nat) | HandleClose(fd: nat) | Destroy(id: nat)

  /** One call of `HandleConnectionClose` on the base loop's thread: before or after it has
      queued Destroy.  The callback that runs in between may close other connections of the
      base loop, so calls nest; the innermost is the last. */
  datatype Call = Erased(id: nat) | Queued(id: nat)

  datatype State = State(
    conns: map<nat, Conn>, connections: map<nat, nat>, tasks: map<nat, seq<Task>>, openFds: set<nat>, calls: seq<Call>)

  datatype Step =
    | Accept(id: nat, fd: nat, loop: nat)  // OnNewConnection
    | BeginEvents(id: nat)
    | EndEvents(id: nat)
    | Close(id: nat)                       // ActiveClose, or PassiveClose of an open connection
    | RunTask(loop: nat)
    | QueueDestroy                         // in HandleConnectionClose
    | LeaveHandleClose
    | Free(id: nat)                        // the last reference is dropped

  const INITIAL := State(map[], map[], map[], {}, [])

  function Tasks(s: State, loop: nat): seq<Task> {
    if loop in s.tasks then s.tasks[loop] else []
  }

  function Enqueue(s: State, loop: nat, t: Task): State {
    s.(tasks := s.tasks[loop := Tasks(s, loop) + [t]])
  }

  predicate InMap(s: State, id: nat)
    requires id in s.conns
  {
    s.conns[id].fd in s.connections && s.connections[s.conns[id].fd] == id
  }

  predicate Referenced(s: State, id: nat)
    requires id in s.conns
  {
    InMap(s, id) || Destroy(id) in Tasks(s, s.conns[id].loop) || Erased(id) in s.calls || Queued(id) in s.calls
  }

  /** The base loop's thread is free to do something else. */
  predicate ThreadFree(s: State, loop: nat) {
    loop == BASE ==> s.calls == []
  }

  /** The base loop's thread is free, or runs the callback of a connection of its own that
      `HandleConnectionClose` calls before it queues Destroy. */
  predicate MayClose(s: State, loop: nat) {
    loop == BASE ==> s.calls == [] || (Last(s).Erased? && Last(s).id in s.conns && s.conns[Last(s).id].loop == BASE)
  }

  function Last(s: State): Call
    requires s.calls != []
  {
    s.calls[|s.calls| - 1]
  }

  predicate NobodyHandles(s: State, loop: nat) {
    forall id :: id in s.conns && s.conns[id].loop == loop ==> !s.conns[id].handling
  }

  predicate Enabled(s: State, step: Step) {
    match step
    case Accept(id, fd, loop) => id !in s.conns && fd !in s.openFds && ThreadFree(s, BASE)
    case BeginEvents(id) => id in s.conns && s.conns[id].registered && ThreadFree(s, s.conns[id].loop) && NobodyHandles(s, s.conns[id].loop)
    case EndEvents(id) => id in s.conns && s.conns[id].handling && ThreadFree(s, s.conns[id].loop)
    case Close(id) => id in s.conns && s.conns[id].state == Connected && MayClose(s, s.conns[id].loop)
    case RunTask(loop) => Tasks(s, loop) != [] && ThreadFree(s, loop) && NobodyHandles(s, loop)
    case QueueDestroy => s.calls != [] && Last(s).Erased? && Last(s).id in s.conns
    case LeaveHandleClose => s.calls != [] && Last(s).Queued?
    case Free(id) => id in s.conns && !s.conns[id].freed && !Referenced(s, id)
  }

  /** The calls around the innermost. */
  function Outer(s: State): seq<Call>
    requires s.calls != []
  {
    s.calls[..|s.calls| - 1]
  }

  function Update(s: State, id: nat, c: Conn): State {
    s.(conns := s.conns[id := c])
  }

  /** `HandleConnectionClose` up to the erasure; a missing entry changes nothing here, and
      `LookupsHold` shows that it is never missing. */
  function EraseEntry(s: State, fd: nat): State {
    if fd in s.connections && s.connections[fd] in s.conns then
      var id := s.connections[fd];
      Update(s, id, s.conns[id].(erased := s.conns[id].erased + 1)).(connections := s.connections - {fd}, calls := s.calls + [Erased(id)])
    else s
  }

  function Apply(s: State, step: Step): State
    requires Enabled(s, step)
  {
    match step
    case Accept(id, fd, loop) =>
      var c := Conn(fd, loop, Connected, loop == BASE, false, 0, 0, 0, false, false);
      var s1 := Update(s, id, c).(connections := s.connections[fd := id], openFds := s.openFds + {fd});
      if loop == BASE then s1 else Enqueue(s1, loop, StartReading(id))
    case BeginEvents(id) => Update(s, id, s.conns[id].(handling := true))
    case EndEvents(id) => Update(s, id, s.conns[id].(handling := false))
    case Close(id) =>
      var c := s.conns[id];
      var s1 := Update(s, id, c.(state := Disconnected, closeCalls := c.closeCalls + 1));
      if c.loop == BASE then EraseEntry(s1, c.fd) else Enqueue(s1, BASE, HandleClose(c.fd))
    case RunTask(loop) =>
      var s1 := s.(tasks := s.tasks[loop := Tasks(s, loop)[1..]]);
      (match Tasks(s, loop)[0]
       case StartReading(id) => if id in s.conns then Update(s1, id, s.conns[id].(registered := true)) else s1
       case HandleClose(fd) => EraseEntry(s1, fd)
       case Destroy(id) => if id in s.conns then Update(s1, id, s.conns[id].(registered := false, destroyed := true)) else s1)
    case QueueDestroy =>
      var id := Last(s).id;
      Enqueue(Update(s, id, s.conns[id].(queued := s.conns[id].queued + 1)).(calls := Outer(s) + [Queued(id)]), s.conns[id].loop, Destroy(id))
    case LeaveHandleClose => s.(calls := Outer(s))
    case Free(id) => Update(s, id, s.conns[id].(freed := true)).(openFds := s.openFds - {s.conns[id].fd})
  }

  // ---- the invariant ----

  function Count(s: State, loop: nat, t: Task): nat {
    multiset(Tasks(s, loop))[t]
  }

  /** Reading is started, if at all, before the connection is destroyed. */
  ghost predicate StartsBeforeDestroy(q: seq<Task>, id: nat) {
    forall i, j :: 0 <= i < |q| && 0 <= j < |q| && q[i] == StartReading(id) && q[j] == Destroy(id) ==> i < j
  }

  /** All that concerns one connection: its record, whether the map holds it, how often the
      queues mention it, and whether the base loop is busy with it. */
  datatype View = View(
    c: Conn, inMap: bool, toClose: nat, toDestroy: nat, toStart: nat, startsFirst: bool,
    waiting: bool, leaving: bool, fdOpen: bool)

  ghost function ViewOf(s: State, id: nat): View
    requires id in s.conns
  {
    var c := s.conns[id];
    View(c, InMap(s, id), Count(s, BASE, HandleClose(c.fd)), Count(s, c.loop, Destroy(id)),
         Count(s, c.loop, StartReading(id)), StartsBeforeDestroy(Tasks(s, c.loop), id),
         Erased(id) in s.calls, Queued(id) in s.calls, c.fd in s.openFds)
  }

  ghost predicate ViewOk(v: View) {
    && v.c.state != Connecting
    && v.c.closeCalls == (if v.c.state == Disconnected then 1 else 0)
    && v.c.erased == (if v.inMap then 0 else 1)
    && v.c.queued == (if v.inMap || v.waiting then 0 else 1)
    && !(v.waiting && v.leaving)
    && (v.inMap ==> v.toClose == v.c.closeCalls && v.toDestroy == 0 && !v.c.destroyed && !v.waiting && !v.leaving)
    && (!v.inMap ==> v.c.state == Disconnected && v.toDestroy == (if v.waiting || v.c.destroyed then 0 else 1) && !(v.waiting && v.c.destroyed))
    && (v.c.freed ==> v.c.destroyed && !v.leaving)
    && (v.c.handling || v.c.registered || v.toStart > 0 ==> !v.c.destroyed)
    && (!v.c.destroyed ==> v.c.registered || v.toStart > 0)
    && (!v.c.freed ==> v.fdOpen)
    && v.startsFirst
  }

  ghost predicate ConnsOk(s: State) {
    forall id :: id in s.conns ==> ViewOk(ViewOf(s, id))
  }

  ghost predicate MapOk(s: State) {
    forall fd :: fd in s.connections ==> s.connections[fd] in s.conns && s.conns[s.connections[fd]].fd == fd
  }

  /** Connections that still have their descriptor have different ones. */
  ghost predicate FdsDistinct(s: State) {
    forall a, b :: a in s.conns && b in s.conns && a != b && !s.conns[a].freed && !s.conns[b].freed ==> s.conns[a].fd != s.conns[b].fd
  }

  ghost predicate TaskOk(s: State, loop: nat, t: Task) {
    match t
    case StartReading(id) => id in s.conns && s.conns[id].loop == loop
    case HandleClose(fd) => loop == BASE && fd in s.connections
    case Destroy(id) => id in s.conns && s.conns[id].loop == loop
  }

  ghost predicate TasksOk(s: State) {
    forall loop, t :: t in Tasks(s, loop) ==> TaskOk(s, loop, t)
  }

  /** Each call is about a connection of its own. */
  ghost predicate CallsOk(s: State) {
    (forall i :: 0 <= i < |s.calls| ==> s.calls[i].id in s.conns)
    && forall i, j :: 0 <= i < j < |s.calls| ==> s.calls[i].id != s.calls[j].id
  }

  ghost predicate Inv(s: State) {
    ConnsOk(s) && MapOk(s) && FdsDistinct(s) && TasksOk(s) && CallsOk(s)
  }

  // ---- queues ----

  lemma EnqueueCounts(s: State, loop: nat, t: Task, loop': nat, t': Task)
    ensures Count(Enqueue(s, loop, t), loop', t') == Count(s, loop', t') + if loop' == loop && t' == t then 1 else 0
  {
  }

  lemma PopCounts(s: State, loop: nat, loop': nat, t: Task)
    requires Tasks(s, loop) != []
    ensures Count(Pop(s, loop), loop', t) == Count(s, loop', t) - if loop' == loop && t == Tasks(s, loop)[0] then 1 else 0
  {
    var q := Tasks(s, loop);
    assert q == [q[0]] + q[1..];
  }

  lemma EnqueueKeepsStarts(q: seq<Task>, t: Task, id: nat)
    requires StartsBeforeDestroy(q, id) && (t == StartReading(id) ==> Destroy(id) !in q)
    ensures StartsBeforeDestroy(q + [t], id)
  {
  }

  lemma PopKeepsStarts(q: seq<Task>, id: nat)
    requires q != [] && StartsBeforeDestroy(q, id)
    ensures StartsBeforeDestroy(q[1..], id)
    ensures q[0] == Destroy(id) ==> StartReading(id) !in q
  {
    assert q == [q[0]] + q[1..];
  }

  /** Queueing a task changes the view of the connection it names and of no other. */
  lemma EnqueueView(s: State, loop: nat, t: Task, id: nat)
    requires id in s.conns && StartsBeforeDestroy(Tasks(s, s.conns[id].loop), id)
    requires t == StartReading(id) ==> Destroy(id) !in Tasks(s, loop)
    ensures var v := ViewOf(s, id);
            ViewOf(Enqueue(s, loop, t), id)
            == v.(toClose := v.toClose + (if loop == BASE && t == HandleClose(v.c.fd) then 1 else 0),
                  toDestroy := v.toDestroy + (if loop == v.c.loop && t == Destroy(id) then 1 else 0),
                  toStart := v.toStart + (if loop == v.c.loop && t == StartReading(id) then 1 else 0))
  {
    var c := s.conns[id];
    EnqueueCounts(s, loop, t, BASE, HandleClose(c.fd));
    EnqueueCounts(s, loop, t, c.loop, Destroy(id));
    EnqueueCounts(s, loop, t, c.loop, StartReading(id));
    if loop == c.loop {
      EnqueueKeepsStarts(Tasks(s, loop), t, id);
    }
  }

  function Pop(s: State, loop: nat): State
    requires Tasks(s, loop) != []
  {
    s.(tasks := s.tasks[loop := Tasks(s, loop)[1..]])
  }

  /** So does running one. */
  lemma PopView(s: State, loop: nat, id: nat)
    requires id in s.conns && StartsBeforeDestroy(Tasks(s, s.conns[id].loop), id) && Tasks(s, loop) != []
    ensures var v, t := ViewOf(s, id), Tasks(s, loop)[0];
            (loop == BASE && t == HandleClose(v.c.fd) ==> v.toClose > 0)
            && (loop == v.c.loop && t == Destroy(id) ==> v.toDestroy > 0 && v.toStart == 0)
            && (loop == v.c.loop && t == StartReading(id) ==> v.toStart > 0)
            && ViewOf(Pop(s, loop), id)
               == v.(toClose := v.toClose - (if loop == BASE && t == HandleClose(v.c.fd) then 1 else 0),
                     toDestroy := v.toDestroy - (if loop == v.c.loop && t == Destroy(id) then 1 else 0),
                     toStart := v.toStart - (if loop == v.c.loop && t == StartReading(id) then 1 else 0))
  {
    hide Count, StartsBeforeDestroy;
    var c, q := s.conns[id], Tasks(s, loop);
    PopCounts(s, loop, BASE, HandleClose(c.fd));
    PopCounts(s, loop, c.loop, Destroy(id));
    PopCounts(s, loop, c.loop, StartReading(id));
    if loop == c.loop {
      PopKeepsStarts(q, id);
      CountIsMembership(s, loop, StartReading(id));
    }
  }

  lemma CountIsMembership(s: State, loop: nat, t: Task)
    ensures Count(s, loop, t) > 0 <==> t in Tasks(s, loop)
  {
  }

  lemma EnqueueTasksOk(s: State, loop: nat, t: Task)
    requires TasksOk(s) && TaskOk(s, loop, t)
    ensures TasksOk(Enqueue(s, loop, t))
  {
    var s' := Enqueue(s, loop, t);
    forall l, u | u in Tasks(s', l) ensures TaskOk(s', l, u) {
      if u !in Tasks(s, l) {
        assert l == loop && u == t;
      }
    }
  }

  lemma PopTasksOk(s: State, loop: nat)
    requires TasksOk(s) && Tasks(s, loop) != []
    ensures TasksOk(Pop(s, loop)) && TaskOk(s, loop, Tasks(s, loop)[0])
  {
    var s' := Pop(s, loop);
    forall l, u | u in Tasks(s', l) ensures TaskOk(s', l, u) {
      assert u in Tasks(s, l);
    }
  }

  // ---- the pieces of the steps ----

  /** Changing flags of a record that the rest of the state does not depend on. */
  lemma UpdateKeepsRest(s: State, id: nat, c: Conn)
    requires Inv(s) && id in s.conns && c.fd == s.conns[id].fd && c.loop == s.conns[id].loop
    requires s.conns[id].freed ==> c.freed
    requires ViewOk(ViewOf(s, id).(c := c))
    ensures Inv(Update(s, id, c))
  {
    hide ViewOk, ViewOf, TaskOk;
    var s' := Update(s, id, c);
    forall other | other in s'.conns ensures ViewOk(ViewOf(s', other)) {
      UpdateView(s, id, c, other);
    }
    UpdateTasksOk(s, id, c);
  }

  lemma UpdateView(s: State, id: nat, c: Conn, other: nat)
    requires id in s.conns && other in s.conns && c.fd == s.conns[id].fd && c.loop == s.conns[id].loop
    ensures ViewOf(Update(s, id, c), other) == if other == id then ViewOf(s, id).(c := c) else ViewOf(s, other)
  {
  }

  lemma UpdateTasksOk(s: State, id: nat, c: Conn)
    requires TasksOk(s) && id in s.conns && c.loop == s.conns[id].loop
    ensures TasksOk(Update(s, id, c))
  {
    var s' := Update(s, id, c);
    forall l, u | u in Tasks(s', l) ensures TaskOk(s', l, u) {
      assert u in Tasks(s, l);
    }
  }

  /** Erasing an entry concerns the connection in it and no other. */
  lemma EraseView(s: State, fd: nat, other: nat)
    requires MapOk(s) && fd in s.connections && other in s.conns
    ensures var s', v := EraseEntry(s, fd), ViewOf(s, other);
            other in s'.conns
            && ViewOf(s', other)
               == if other == s.connections[fd] then v.(c := v.c.(erased := v.c.erased + 1), inMap := false, waiting := true)
                  else v
  {
    var s', id := EraseEntry(s, fd), s.connections[fd];
    hide StartsBeforeDestroy, Count;
    assert s'.tasks == s.tasks;
    SameTasks(s, s', BASE, HandleClose(s.conns[other].fd));
    SameTasks(s, s', s.conns[other].loop, Destroy(other));
    SameTasks(s, s', s.conns[other].loop, StartReading(other));
  }

  lemma SameTasks(s: State, s': State, loop: nat, t: Task)
    requires s'.tasks == s.tasks
    ensures Count(s', loop, t) == Count(s, loop, t) && Tasks(s', loop) == Tasks(s, loop)
  {
  }

  /** Erasing an entry for which no close is left in the queue keeps the queues in order. */
  lemma EraseTasksOk(s: State, fd: nat)
    requires MapOk(s) && TasksOk(s) && fd in s.connections && Count(s, BASE, HandleClose(fd)) == 0
    ensures TasksOk(EraseEntry(s, fd))
  {
    var s' := EraseEntry(s, fd);
    CountIsMembership(s, BASE, HandleClose(fd));
    forall l, u | u in Tasks(s', l) ensures TaskOk(s', l, u) {
      assert u in Tasks(s, l) && TaskOk(s, l, u);
    }
  }

  lemma EraseKeepsRest(s: State, fd: nat)
    requires MapOk(s) && FdsDistinct(s) && CallsOk(s) && fd in s.connections
    requires Erased(s.connections[fd]) !in s.calls && Queued(s.connections[fd]) !in s.calls
    ensures MapOk(EraseEntry(s, fd)) && FdsDistinct(EraseEntry(s, fd)) && CallsOk(EraseEntry(s, fd))
  {
  }

  // ---- every step keeps the invariant ----

  lemma EventsKeepInv(s: State, step: Step)
    requires Inv(s) && Enabled(s, step) && (step.BeginEvents? || step.EndEvents?)
    ensures Inv(Apply(s, step))
  {
    hide ViewOf, Referenced, NobodyHandles;
    ViewShowsConn(s, step.id);
    UpdateKeepsRest(s, step.id, s.conns[step.id].(handling := step.BeginEvents?));
  }

  lemma ViewShowsConn(s: State, id: nat)
    requires id in s.conns && ConnsOk(s)
    ensures ViewOk(ViewOf(s, id)) && ViewOf(s, id).c == s.conns[id] && ViewOf(s, id).inMap == InMap(s, id)
    ensures ViewOf(s, id).waiting == (Erased(id) in s.calls) && ViewOf(s, id).leaving == (Queued(id) in s.calls)
    ensures ViewOf(s, id).toClose == Count(s, BASE, HandleClose(s.conns[id].fd))
    ensures ViewOf(s, id).toDestroy == Count(s, s.conns[id].loop, Destroy(id))
    ensures ViewOf(s, id).toStart == Count(s, s.conns[id].loop, StartReading(id))
  {
  }

  lemma CloseKeepsViews(s: State, id: nat, other: nat)
    requires Inv(s) && Enabled(s, Close(id)) && other in s.conns
    ensures other in Apply(s, Close(id)).conns && ViewOk(ViewOf(Apply(s, Close(id)), other))
  {
    hide ViewOf, Count, Tasks, TasksOk, FdsDistinct, CallsOk, StartsBeforeDestroy, EraseEntry, MayClose;
    var c := s.conns[id];
    var c1 := c.(state := Disconnected, closeCalls := c.closeCalls + 1);
    var s1 := Update(s, id, c1);
    ViewShowsConn(s, id);
    ViewShowsConn(s, other);
    UpdateView(s, id, c1, other);
    StartsFirst(s, other);
    if c.loop == BASE {
      EraseView(s1, c.fd, other);
    } else {
      SameTasks(s, s1, s.conns[other].loop, HandleClose(c.fd));
      EnqueueView(s1, BASE, HandleClose(c.fd), other);
    }
  }

  lemma StartsFirst(s: State, id: nat)
    requires ConnsOk(s) && id in s.conns
    ensures StartsBeforeDestroy(Tasks(s, s.conns[id].loop), id)
  {
    assert ViewOk(ViewOf(s, id));
  }

  lemma CloseKeepsInv(s: State, id: nat)
    requires Inv(s) && Enabled(s, Close(id))
    ensures Inv(Apply(s, Close(id)))
  {
    hide ViewOf, ViewOk, Count, StartsBeforeDestroy, TaskOk;
    var c := s.conns[id];
    var c1 := c.(state := Disconnected, closeCalls := c.closeCalls + 1);
    var s1, s' := Update(s, id, c1), Apply(s, Close(id));
    forall other | other in s'.conns ensures ViewOk(ViewOf(s', other)) {
      CloseKeepsViews(s, id, other);
    }
    OpenIsInMap(s, id);
    UpdateTasksOk(s, id, c1);
    if c.loop == BASE {
      SameTasks(s, s1, BASE, HandleClose(c.fd));
      EraseTasksOk(s1, c.fd);
      EraseKeepsRest(s1, c.fd);
    } else {
      CloseTaskOk(s1, c.fd);
      EnqueueTasksOk(s1, BASE, HandleClose(c.fd));
    }
  }

  lemma CloseTaskOk(s: State, fd: nat)
    requires fd in s.connections
    ensures TaskOk(s, BASE, HandleClose(fd))
  {
  }

  /** An open connection is in the map and nobody is closing it. */
  lemma OpenIsInMap(s: State, id: nat)
    requires ConnsOk(s) && id in s.conns && s.conns[id].state == Connected
    ensures InMap(s, id) && Count(s, BASE, HandleClose(s.conns[id].fd)) == 0
    ensures Erased(id) !in s.calls && Queued(id) !in s.calls
  {
    assert ViewOk(ViewOf(s, id));
  }

  lemma QueueDestroyKeepsInv(s: State)
    requires Inv(s) && Enabled(s, QueueDestroy)
    ensures Inv(Apply(s, QueueDestroy))
  {
    hide ViewOf, ViewOk, Count, StartsBeforeDestroy, TaskOk;
    var id := Last(s).id;
    var c1 := s.conns[id].(queued := s.conns[id].queued + 1);
    var s1 := Update(s, id, c1);
    var s2, s' := s1.(calls := Outer(s) + [Queued(id)]), Apply(s, QueueDestroy);
    forall other | other in s'.conns ensures ViewOk(ViewOf(s', other)) {
      QueueDestroyKeepsViews(s, other);
    }
    UpdateTasksOk(s, id, c1);
    CallsKeepTasksOk(s1, Outer(s) + [Queued(id)]);
    DestroyTaskOk(s2, id);
    EnqueueTasksOk(s2, s2.conns[id].loop, Destroy(id));
  }

  lemma DestroyTaskOk(s: State, id: nat)
    requires id in s.conns
    ensures TaskOk(s, s.conns[id].loop, Destroy(id))
  {
  }

  lemma CallsKeepTasksOk(s: State, calls: seq<Call>)
    requires TasksOk(s)
    ensures TasksOk(s.(calls := calls))
  {
    var s' := s.(calls := calls);
    forall loop, t | t in Tasks(s', loop) ensures TaskOk(s', loop, t) {
      assert t in Tasks(s, loop) && TaskOk(s, loop, t);
    }
  }

  lemma CallsView(s: State, calls: seq<Call>, id: nat)
    requires id in s.conns
    ensures ViewOf(s.(calls := calls), id) == ViewOf(s, id).(waiting := Erased(id) in calls, leaving := Queued(id) in calls)
  {
    var s' := s.(calls := calls);
    SameTasks(s, s', BASE, HandleClose(s.conns[id].fd));
    SameTasks(s, s', s.conns[id].loop, Destroy(id));
    SameTasks(s, s', s.conns[id].loop, StartReading(id));
  }

  /** The innermost call is the only one about its connection. */
  lemma LastCall(s: State, id: nat)
    requires CallsOk(s) && s.calls != []
    ensures var call := Last(s);
            if id == call.id then Erased(id) !in Outer(s) && Queued(id) !in Outer(s) && call in s.calls
            else (Erased(id) in Outer(s) <==> Erased(id) in s.calls) && (Queued(id) in Outer(s) <==> Queued(id) in s.calls)
  {
    assert s.calls == Outer(s) + [Last(s)];
  }

  lemma QueueDestroyKeepsViews(s: State, other: nat)
    requires Inv(s) && Enabled(s, QueueDestroy) && other in s.conns
    ensures ViewOk(ViewOf(Apply(s, QueueDestroy), other))
  {
    hide ViewOf, Count, TasksOk, FdsDistinct, StartsBeforeDestroy;
    var id := Last(s).id;
    var c1 := s.conns[id].(queued := s.conns[id].queued + 1);
    var s1 := Update(s, id, c1);
    var calls := Outer(s) + [Queued(id)];
    LastCall(s, other);
    ViewShowsConn(s, other);
    UpdateView(s, id, c1, other);
    CallsView(s1, calls, other);
    StartsFirst(s, other);
    EnqueueView(s1.(calls := calls), s.conns[id].loop, Destroy(id), other);
  }

  lemma LeaveKeepsInv(s: State)
    requires Inv(s) && Enabled(s, LeaveHandleClose)
    ensures Inv(Apply(s, LeaveHandleClose))
  {
    hide ViewOf, Count, StartsBeforeDestroy, TaskOk;
    var s' := Apply(s, LeaveHandleClose);
    forall other | other in s'.conns ensures ViewOk(ViewOf(s', other)) {
      ViewShowsConn(s, other);
      LastCall(s, other);
      CallsView(s, Outer(s), other);
    }
    CallsKeepTasksOk(s, Outer(s));
  }

  lemma UnreferencedIsDestroyed(s: State, id: nat)
    requires ConnsOk(s) && id in s.conns && !Referenced(s, id)
    ensures s.conns[id].destroyed && !s.conns[id].handling && !s.conns[id].registered && s.conns[id].state == Disconnected
    ensures ViewOk(ViewOf(s, id)) && !ViewOf(s, id).leaving
  {
    ViewShowsConn(s, id);
    CountIsMembership(s, s.conns[id].loop, Destroy(id));
  }

  lemma FreeView(s: State, id: nat, other: nat)
    requires id in s.conns && other in s.conns
    ensures var c1 := s.conns[id].(freed := true);
            var s' := Update(s, id, c1).(openFds := s.openFds - {s.conns[id].fd});
            var v := if other == id then ViewOf(s, id).(c := c1) else ViewOf(s, other);
            ViewOf(s', other) == v.(fdOpen := v.fdOpen && s.conns[other].fd != s.conns[id].fd)
  {
    var c1 := s.conns[id].(freed := true);
    var s' := Update(s, id, c1).(openFds := s.openFds - {s.conns[id].fd});
    hide Count, StartsBeforeDestroy;
    SameTasks(s, s', BASE, HandleClose(s.conns[other].fd));
    SameTasks(s, s', s.conns[other].loop, Destroy(other));
    SameTasks(s, s', s.conns[other].loop, StartReading(other));
  }

  lemma FreeKeepsInv(s: State, id: nat)
    requires Inv(s) && Enabled(s, Free(id))
    ensures Inv(Apply(s, Free(id)))
  {
    hide ViewOf, Count, StartsBeforeDestroy, TaskOk, Referenced, InMap;
    var c1 := s.conns[id].(freed := true);
    var s' := Apply(s, Free(id));
    UnreferencedIsDestroyed(s, id);
    forall other | other in s'.conns ensures ViewOk(ViewOf(s', other)) {
      ViewShowsConn(s, other);
      ViewShowsConn(s, id);
      FreeView(s, id, other);
    }
    FreeTasksOk(s, id, c1);
  }

  lemma FreeTasksOk(s: State, id: nat, c: Conn)
    requires TasksOk(s) && id in s.conns && c.loop == s.conns[id].loop
    ensures forall fds :: TasksOk(Update(s, id, c).(openFds := fds))
  {
    forall fds ensures TasksOk(Update(s, id, c).(openFds := fds)) {
      var s' := Update(s, id, c).(openFds := fds);
      forall l, u | u in Tasks(s', l) ensures TaskOk(s', l, u) {
        assert u in Tasks(s, l) && TaskOk(s, l, u);
      }
    }
  }

  /** The connection that the first task of a queue is about. */
  ghost function Subject(s: State, loop: nat): nat
    requires TasksOk(s) && MapOk(s) && Tasks(s, loop) != []
    ensures Subject(s, loop) in s.conns
  {
    assert TaskOk(s, loop, Tasks(s, loop)[0]);
    match Tasks(s, loop)[0]
    case StartReading(id) => id
    case HandleClose(fd) => s.connections[fd]
    case Destroy(id) => id
  }

  /** What the assertions in the tasks demand, and what running them changes. */
  lemma FirstTask(s: State, loop: nat)
    requires Inv(s) && Enabled(s, RunTask(loop))
    ensures var t, id := Tasks(s, loop)[0], Subject(s, loop);
            && (t.StartReading? ==> s.conns[id].loop == loop && !s.conns[id].destroyed)
            && (t.HandleClose? ==> loop == BASE && t.fd in s.connections && s.conns[id].fd == t.fd && s.conns[id].state == Disconnected
                                   && Count(s, BASE, t) == 1)
            && (t.Destroy? ==> s.conns[id].loop == loop && s.conns[id].state == Disconnected && !s.conns[id].handling && !s.conns[id].destroyed)
  {
    var t, id := Tasks(s, loop)[0], Subject(s, loop);
    assert TaskOk(s, loop, t) && ViewOk(ViewOf(s, id));
    CountIsMembership(s, loop, t);
    hide StartsBeforeDestroy, Count;
  }

  lemma StartKeepsViews(s: State, loop: nat, other: nat)
    requires Inv(s) && Enabled(s, RunTask(loop)) && other in s.conns && Tasks(s, loop)[0].StartReading?
    ensures other in Apply(s, RunTask(loop)).conns && ViewOk(ViewOf(Apply(s, RunTask(loop)), other))
  {
    hide ViewOf, Count, FdsDistinct, CallsOk, StartsBeforeDestroy, EraseEntry, NobodyHandles, TasksOk, TaskOk;
    var id, s1 := Subject(s, loop), Pop(s, loop);
    FirstTask(s, loop);
    ViewShowsConn(s, other);
    StartsFirst(s, other);
    PopView(s, loop, other);
    UpdateView(s1, id, s.conns[id].(registered := true), other);
  }

  lemma HandleCloseKeepsViews(s: State, loop: nat, other: nat)
    requires Inv(s) && Enabled(s, RunTask(loop)) && other in s.conns && Tasks(s, loop)[0].HandleClose?
    ensures other in Apply(s, RunTask(loop)).conns && ViewOk(ViewOf(Apply(s, RunTask(loop)), other))
  {
    hide ViewOf, Count, FdsDistinct, CallsOk, StartsBeforeDestroy, EraseEntry, NobodyHandles, TasksOk, TaskOk;
    var id, s1 := Subject(s, loop), Pop(s, loop);
    FirstTask(s, loop);
    ViewShowsConn(s, other);
    StartsFirst(s, other);
    PopView(s, loop, other);
    EraseView(s1, Tasks(s, loop)[0].fd, other);
  }

  lemma DestroyKeepsViews(s: State, loop: nat, other: nat)
    requires Inv(s) && Enabled(s, RunTask(loop)) && other in s.conns && Tasks(s, loop)[0].Destroy?
    ensures other in Apply(s, RunTask(loop)).conns && ViewOk(ViewOf(Apply(s, RunTask(loop)), other))
  {
    hide ViewOf, Count, FdsDistinct, CallsOk, StartsBeforeDestroy, EraseEntry, NobodyHandles, TasksOk, TaskOk;
    var id, s1 := Subject(s, loop), Pop(s, loop);
    FirstTask(s, loop);
    ViewShowsConn(s, other);
    StartsFirst(s, other);
    PopView(s, loop, other);
    UpdateView(s1, id, s.conns[id].(registered := false, destroyed := true), other);
  }

  lemma RunTaskKeepsViews(s: State, loop: nat, other: nat)
    requires Inv(s) && Enabled(s, RunTask(loop)) && other in s.conns
    ensures other in Apply(s, RunTask(loop)).conns && ViewOk(ViewOf(Apply(s, RunTask(loop)), other))
  {
    hide Inv, ViewOf, ViewOk, Apply;
    match Tasks(s, loop)[0]
    case StartReading(_) => StartKeepsViews(s, loop, other);
    case HandleClose(_) => HandleCloseKeepsViews(s, loop, other);
    case Destroy(_) => DestroyKeepsViews(s, loop, other);
  }

  lemma RunTaskKeepsInv(s: State, loop: nat)
    requires Inv(s) && Enabled(s, RunTask(loop))
    ensures Inv(Apply(s, RunTask(loop)))
  {
    hide ViewOf, ViewOk, Count, StartsBeforeDestroy, TaskOk;
    var t, id, s1, s' := Tasks(s, loop)[0], Subject(s, loop), Pop(s, loop), Apply(s, RunTask(loop));
    FirstTask(s, loop);
    forall other | other in s'.conns ensures ViewOk(ViewOf(s', other)) {
      RunTaskKeepsViews(s, loop, other);
    }
    PopTasksOk(s, loop);
    match t
    case StartReading(_) => UpdateTasksOk(s1, id, s.conns[id].(registered := true));
    case Destroy(_) => UpdateTasksOk(s1, id, s.conns[id].(registered := false, destroyed := true));
    case HandleClose(fd) =>
      PopCounts(s, loop, BASE, t);
      EraseTasksOk(s1, fd);
      EraseKeepsRest(s1, fd);
  }

  /** A descriptor that the kernel hands out is in no entry of the map and in no queue. */
  lemma NewDescriptorIsUnknown(s: State, fd: nat)
    requires Inv(s) && fd !in s.openFds
    ensures fd !in s.connections && Count(s, BASE, HandleClose(fd)) == 0
    ensures forall id :: id in s.conns && !s.conns[id].freed ==> s.conns[id].fd != fd
  {
    hide Count, StartsBeforeDestroy;
    forall id | id in s.conns && !s.conns[id].freed ensures s.conns[id].fd != fd {
      assert ViewOk(ViewOf(s, id));
    }
    assert fd in s.connections ==> ViewOk(ViewOf(s, s.connections[fd]));
    CountIsMembership(s, BASE, HandleClose(fd));
    assert HandleClose(fd) in Tasks(s, BASE) ==> TaskOk(s, BASE, HandleClose(fd));
  }

  /** The state with the new connection in, before its reading is started. */
  function Accepted(s: State, id: nat, fd: nat, loop: nat): State {
    Update(s, id, Conn(fd, loop, Connected, loop == BASE, false, 0, 0, 0, false, false))
      .(connections := s.connections[fd := id], openFds := s.openFds + {fd})
  }

  lemma AcceptedOldView(s: State, id: nat, fd: nat, loop: nat, other: nat)
    requires Inv(s) && id !in s.conns && fd !in s.openFds && other in s.conns
    ensures ViewOf(Accepted(s, id, fd, loop), other) == ViewOf(s, other).(fdOpen := ViewOf(s, other).fdOpen || s.conns[other].fd == fd)
  {
    hide Count, StartsBeforeDestroy, Inv;
    var s' := Accepted(s, id, fd, loop);
    NewDescriptorIsUnknown(s, fd);
    SameTasks(s, s', BASE, HandleClose(s.conns[other].fd));
    SameTasks(s, s', s.conns[other].loop, Destroy(other));
    SameTasks(s, s', s.conns[other].loop, StartReading(other));
  }

  lemma AcceptedNewView(s: State, id: nat, fd: nat, loop: nat)
    requires Inv(s) && id !in s.conns && fd !in s.openFds
    ensures ViewOf(Accepted(s, id, fd, loop), id)
            == View(Conn(fd, loop, Connected, loop == BASE, false, 0, 0, 0, false, false), true, 0, 0, 0, true, false, false, true)
  {
    hide Count;
    var s' := Accepted(s, id, fd, loop);
    NewDescriptorIsUnknown(s, fd);
    SameTasks(s, s', BASE, HandleClose(fd));
    SameTasks(s, s', loop, Destroy(id));
    SameTasks(s, s', loop, StartReading(id));
    UnknownHasNoTasks(s, id, loop);
    CountIsMembership(s, loop, Destroy(id));
    CountIsMembership(s, loop, StartReading(id));
  }

  lemma UnknownHasNoTasks(s: State, id: nat, loop: nat)
    requires TasksOk(s) && id !in s.conns
    ensures Destroy(id) !in Tasks(s, loop) && StartReading(id) !in Tasks(s, loop)
  {
    assert Destroy(id) in Tasks(s, loop) ==> TaskOk(s, loop, Destroy(id));
    assert StartReading(id) in Tasks(s, loop) ==> TaskOk(s, loop, StartReading(id));
  }

  lemma AcceptKeepsViews(s: State, id: nat, fd: nat, loop: nat, other: nat)
    requires Inv(s) && Enabled(s, Accept(id, fd, loop)) && (other in s.conns || other == id)
    ensures ViewOk(ViewOf(Apply(s, Accept(id, fd, loop)), other))
  {
    hide ViewOf, Count, FdsDistinct, TasksOk, StartsBeforeDestroy;
    var s1 := Accepted(s, id, fd, loop);
    if other == id {
      AcceptedNewView(s, id, fd, loop);
    } else {
      ViewShowsConn(s, other);
      AcceptedOldView(s, id, fd, loop, other);
    }
    var v := ViewOf(s1, other);
    assert other != id || loop == BASE ==> ViewOk(v);
    ViewParts(s1, other);
    if loop != BASE {
      CountIsMembership(s1, loop, Destroy(id));
      EnqueueView(s1, loop, StartReading(id), other);
    }
  }

  lemma ViewParts(s: State, id: nat)
    requires id in s.conns
    ensures ViewOf(s, id).c == s.conns[id]
    ensures ViewOf(s, id).startsFirst == StartsBeforeDestroy(Tasks(s, s.conns[id].loop), id)
    ensures ViewOf(s, id).toDestroy == Count(s, s.conns[id].loop, Destroy(id))
  {
  }

  lemma AcceptKeepsInv(s: State, id: nat, fd: nat, loop: nat)
    requires Inv(s) && Enabled(s, Accept(id, fd, loop))
    ensures Inv(Apply(s, Accept(id, fd, loop)))
  {
    hide ViewOf, ViewOk, Count, StartsBeforeDestroy;
    var s1, s' := Accepted(s, id, fd, loop), Apply(s, Accept(id, fd, loop));
    NewDescriptorIsUnknown(s, fd);
    forall other | other in s'.conns ensures ViewOk(ViewOf(s', other)) {
      AcceptKeepsViews(s, id, fd, loop, other);
    }
    AcceptedTasksOk(s, id, fd, loop);
    if loop != BASE {
      EnqueueTasksOk(s1, loop, StartReading(id));
    }
  }

  lemma AcceptedTasksOk(s: State, id: nat, fd: nat, loop: nat)
    requires TasksOk(s) && id !in s.conns
    ensures TasksOk(Accepted(s, id, fd, loop))
  {
    var s' := Accepted(s, id, fd, loop);
    forall l, u | u in Tasks(s', l) ensures TaskOk(s', l, u) {
      assert u in Tasks(s, l) && TaskOk(s, l, u);
    }
  }

  lemma StepKeepsInv(s: State, step: Step)
    requires Inv(s) && Enabled(s, step)
    ensures Inv(Apply(s, step))
  {
    hide Inv, Apply, Enabled;
    match step
    case Accept(id, fd, loop) => AcceptKeepsInv(s, id, fd, loop);
    case Close(id) => CloseKeepsInv(s, id);
    case RunTask(loop) => RunTaskKeepsInv(s, loop);
    case QueueDestroy => QueueDestroyKeepsInv(s);
    case LeaveHandleClose => LeaveKeepsInv(s);
    case Free(id) => FreeKeepsInv(s, id);
    case _ => EventsKeepInv(s, step);
  }

  // ---- every interleaving ----

  ghost predicate IsRun(s: State, steps: seq<Step>)
    decreases |steps|
  {
    steps == [] || (Enabled(s, steps[0]) && IsRun(Apply(s, steps[0]), steps[1..]))
  }

  ghost function Outcome(s: State, steps: seq<Step>): State
    requires IsRun(s, steps)
    decreases |steps|
  {
    if steps == [] then s else Outcome(Apply(s, steps[0]), steps[1..])
  }

  lemma {:induction false} RunKeepsInv(s: State, steps: seq<Step>)
    requires Inv(s) && IsRun(s, steps)
    ensures Inv(Outcome(s, steps))
    decreases |steps|
  {
    hide Inv;
    if steps != [] {
      StepKeepsInv(s, steps[0]);
      RunKeepsInv(Apply(s, steps[0]), steps[1..]);
    }
  }

  lemma ReachableIsOk(steps: seq<Step>)
    requires IsRun(INITIAL, steps)
    ensures Inv(Outcome(INITIAL, steps))
  {
    RunKeepsInv(INITIAL, steps);
  }

  /** In every interleaving the close callback, the erasure from the map and the queueing of
      Destroy each happen at most once per connection, in this order, and a connection is
      freed only after all three. */
  lemma EachOnceAndInOrder(steps: seq<Step>, id: nat)
    requires IsRun(INITIAL, steps) && id in Outcome(INITIAL, steps).conns
    ensures var c := Outcome(INITIAL, steps).conns[id];
            c.queued <= c.erased <= c.closeCalls <= 1
            && (c.closeCalls == 1 <==> c.state == Disconnected)
            && (c.destroyed ==> c.queued == 1)
            && (c.freed ==> c.destroyed)
  {
    ReachableIsOk(steps);
    ViewShowsConn(Outcome(INITIAL, steps), id);
  }

  /** Nothing is left to do: no functor is queued and no call is under way. */
  ghost predicate Quiet(s: State) {
    s.calls == [] && forall loop :: Tasks(s, loop) == []
  }

  /** Whenever nothing is left to do, a connection is either open, known to the server and
      read from, with nothing done to it, or the close callback, the erasure and the queueing
      of Destroy have each happened exactly once, it is destroyed, and it is freed or may be. */
  lemma ExactlyOnceWhenQuiet(steps: seq<Step>, id: nat)
    requires IsRun(INITIAL, steps) && id in Outcome(INITIAL, steps).conns && Quiet(Outcome(INITIAL, steps))
    ensures var s := Outcome(INITIAL, steps);
            var c := s.conns[id];
            if c.state == Connected then
              InMap(s, id) && c.registered && c.closeCalls == c.erased == c.queued == 0 && !c.destroyed && !c.freed
            else
              c.state == Disconnected && !InMap(s, id) && c.closeCalls == c.erased == c.queued == 1 && c.destroyed
              && (c.freed || Enabled(s, Free(id)))
  {
    ReachableIsOk(steps);
    QuietViewIsSettled(Outcome(INITIAL, steps), id);
  }

  lemma QuietViewIsSettled(s: State, id: nat)
    requires ConnsOk(s) && Quiet(s) && id in s.conns
    ensures var v := ViewOf(s, id);
            ViewOk(v) && v.c == s.conns[id] && v.inMap == InMap(s, id)
            && v.toClose == v.toDestroy == v.toStart == 0 && !v.waiting && !v.leaving
    ensures !InMap(s, id) ==> !Referenced(s, id)
  {
    ViewShowsConn(s, id);
    assert Tasks(s, s.conns[id].loop) == [] == Tasks(s, BASE);
  }

  /** Nothing happens to a connection that is handling events: it is not destroyed, not freed,
      and no step destroys or frees it. */
  lemma NoDestructionDuringEvents(steps: seq<Step>, step: Step, id: nat)
    requires IsRun(INITIAL, steps) && id in Outcome(INITIAL, steps).conns && Outcome(INITIAL, steps).conns[id].handling
    requires Enabled(Outcome(INITIAL, steps), step)
    ensures var s := Outcome(INITIAL, steps);
            !s.conns[id].destroyed && !s.conns[id].freed && id in Apply(s, step).conns
            && !Apply(s, step).conns[id].destroyed && !Apply(s, step).conns[id].freed
  {
    ReachableIsOk(steps);
    var s := Outcome(INITIAL, steps);
    ViewShowsConn(s, id);
    StepKeepsConn(s, step, id);
    StepKeepsInv(s, step);
    if step.EndEvents? && step.id == id {
    } else {
      StepKeepsHandling(s, step, id);
      ViewShowsConn(Apply(s, step), id);
    }
  }

  lemma StepKeepsConn(s: State, step: Step, id: nat)
    requires Enabled(s, step) && id in s.conns
    ensures id in Apply(s, step).conns
    ensures Progress(Apply(s, step).conns[id].state) >= Progress(s.conns[id].state)
  {
    hide NobodyHandles, Referenced, Tasks, ThreadFree, MayClose, InMap;
  }

  lemma StepKeepsHandling(s: State, step: Step, id: nat)
    requires Enabled(s, step) && id in s.conns && s.conns[id].handling && step != EndEvents(id)
    ensures id in Apply(s, step).conns && Apply(s, step).conns[id].handling
  {
    hide NobodyHandles, Referenced, Tasks, ThreadFree, MayClose, InMap;
  }

  /** The lookups that the server asserts: a new descriptor is not in the map, a closed one
      is, with the connection that was closed; Destroy finds its connection closed and idle;
      and reading is started on a connection that still exists. */
  lemma LookupsHold(steps: seq<Step>, step: Step)
    requires IsRun(INITIAL, steps) && Enabled(Outcome(INITIAL, steps), step)
    ensures var s := Outcome(INITIAL, steps);
            match step {
              case Accept(_, fd, _) => fd !in s.connections
              case RunTask(loop) =>
                (match Tasks(s, loop)[0] {
                   case HandleClose(fd) =>
                     fd in s.connections && s.connections[fd] in s.conns && s.conns[s.connections[fd]].fd == fd
                     && s.conns[s.connections[fd]].state == Disconnected
                   case Destroy(id) => id in s.conns && s.conns[id].state == Disconnected && !s.conns[id].handling
                   case StartReading(id) => id in s.conns && !s.conns[id].freed
                 })
              case Close(id) => s.conns[id].fd in s.connections && s.connections[s.conns[id].fd] == id
              case _ => true
            }
  {
    ReachableIsOk(steps);
    var s := Outcome(INITIAL, steps);
    match step
    case Accept(_, fd, _) => NewDescriptorIsUnknown(s, fd);
    case RunTask(loop) =>
      FirstTask(s, loop);
      ViewShowsConn(s, Subject(s, loop));
    case Close(id) => OpenIsInMap(s, id);
    case _ =>
  }

  /** The state of a connection only moves forward. */
  lemma {:induction false} StateMovesForward(s: State, steps: seq<Step>, id: nat)
    requires Inv(s) && IsRun(s, steps) && id in s.conns
    ensures id in Outcome(s, steps).conns
    ensures Progress(Outcome(s, steps).conns[id].state) >= Progress(s.conns[id].state)
    decreases |steps|
  {
    hide Inv, Progress, Apply, Enabled;
    if steps != [] {
      StepKeepsInv(s, steps[0]);
      StepKeepsConn(s, steps[0], id);
      StateMovesForward(Apply(s, steps[0]), steps[1..], id);
    }
  }
}
