/** One producer and one consumer on the same ring at the same time.  A step is one read of a
    shared offset, one byte copied, or one offset stored; a copy may move its bytes in any
    order.  The producer stays in the domain of the queue: it leaves room for the header and
    starts no header that would cross the end. */
module SpscRing {
  import opened ByteRing

  datatype Producer =
    | Idle
    | WantsFront(m: Message)                       // about to read the front offset
    | WantsBack(m: Message, f: nat)                // about to read the back offset
    | Writing(m: Message, b: nat, done: set<nat>)  // copying the frame

  datatype Consumer =
    | Resting
    | Checking(f: nat, check: nat)                 // about to read the back offset for the first, second or third check
    | Header(f: nat, got: map<nat, byte>)
    | Body(f: nat, len: nat, got: map<nat, byte>)
    | Confused                                     // a later check found the queue empty

  datatype State = State(mem: seq<byte>, front: nat, back: nat, producer: Producer, consumer: Consumer,
                         pushed: seq<Message>, popped: seq<Message>)

  datatype Step =
    | StartPush(m: Message)
    | LoadFront
    | LoadBackAndDecide
    | WriteByte(k: nat)
    | StoreBack
    | StartPop
    | LoadBackAndCheck
    | ReadHeaderByte(k: nat)
    | DecodeLength
    | ReadBodyByte(k: nat)
    | StoreFront

  predicate InBounds(s: State) {
    |s.mem| > 0 && s.front <= |s.mem| && s.back <= |s.mem|
  }

  /** Free space as the producer computes it from a front offset it has read. */
  function Space(s: State, f: nat): int
    requires InBounds(s) && f <= |s.mem|
  {
    |s.mem| - Used(|s.mem|, f, s.back) - 1
  }

  predicate Fits(s: State, m: Message, f: nat)
    requires InBounds(s) && f <= |s.mem|
  {
    |m| + HEADER <= Space(s, f) && s.back + HEADER <= |s.mem|
  }

  predicate Enabled(s: State, step: Step)
    requires InBounds(s)
  {
    match step
    case StartPush(m) => s.producer.Idle? && 0 < |m| <= MAX_BODY
    case LoadFront => s.producer.WantsFront?
    case LoadBackAndDecide =>
      s.producer.WantsBack? && s.producer.f <= |s.mem|
      && (|s.producer.m| > Space(s, s.producer.f) || Fits(s, s.producer.m, s.producer.f))
    case WriteByte(k) =>
      s.producer.Writing? && k < HEADER + |s.producer.m| <= |s.mem| && k !in s.producer.done && s.producer.b <= |s.mem|
    case StoreBack =>
      s.producer.Writing? && HEADER + |s.producer.m| <= |s.mem| && s.producer.b <= |s.mem|
      && forall k :: 0 <= k < HEADER + |s.producer.m| ==> k in s.producer.done
    case StartPop => s.consumer.Resting?
    case LoadBackAndCheck => s.consumer.Checking?
    case ReadHeaderByte(k) => s.consumer.Header? && k < HEADER <= |s.mem| && k !in s.consumer.got && s.consumer.f <= |s.mem|
    case DecodeLength => s.consumer.Header? && forall k :: 0 <= k < HEADER ==> k in s.consumer.got
    case ReadBodyByte(k) =>
      s.consumer.Body? && k < s.consumer.len && HEADER + k < |s.mem| && k !in s.consumer.got && s.consumer.f <= |s.mem|
    case StoreFront =>
      s.consumer.Body? && HEADER + s.consumer.len <= |s.mem| && s.consumer.f <= |s.mem|
      && forall k :: 0 <= k < s.consumer.len ==> k in s.consumer.got
  }

  function Apply(s: State, step: Step): State
    requires InBounds(s) && Enabled(s, step)
  {
    match step
    case StartPush(m) => s.(producer := WantsFront(m))
    case LoadFront => s.(producer := WantsBack(s.producer.m, s.front))
    case LoadBackAndDecide =>
      if |s.producer.m| > Space(s, s.producer.f) then s.(producer := Idle)
      else s.(producer := Writing(s.producer.m, s.back, {}))
    case WriteByte(k) =>
      s.(mem := s.mem[Cell(|s.mem|, s.producer.b, k) := Encode(s.producer.m)[k]],
         producer := s.producer.(done := s.producer.done + {k}))
    case StoreBack =>
      s.(back := NextPos(|s.mem|, s.producer.b, |s.producer.m|), pushed := s.pushed + [s.producer.m], producer := Idle)
    case StartPop => s.(consumer := Checking(s.front, 0))
    case LoadBackAndCheck =>
      if s.consumer.f == s.back then s.(consumer := if s.consumer.check == 0 then Resting else Confused)
      else if s.consumer.check < 2 then s.(consumer := s.consumer.(check := s.consumer.check + 1))
      else s.(consumer := Header(s.consumer.f, map[]))
    case ReadHeaderByte(k) =>
      s.(consumer := Header(s.consumer.f, s.consumer.got[k := s.mem[Cell(|s.mem|, s.consumer.f, k)]]))
    case DecodeLength =>
      s.(consumer := Body(s.consumer.f, FromLe32(seq(HEADER, k requires 0 <= k < HEADER => s.consumer.got[k])), map[]))
    case ReadBodyByte(k) =>
      s.(consumer := Body(s.consumer.f, s.consumer.len, s.consumer.got[k := s.mem[Cell(|s.mem|, s.consumer.f, HEADER + k)]]))
    case StoreFront =>
      s.(front := NextPos(|s.mem|, s.consumer.f, s.consumer.len),
         popped := s.popped + [seq(s.consumer.len, k requires 0 <= k < s.consumer.len => s.consumer.got[k])],
         consumer := Resting)
  }

  function Initial(capacity: nat): State
    requires capacity > 0
  {
    State(seq(capacity, _ => 0), 0, 0, Idle, Resting, [], [])
  }

  // ---- the invariant ----

  ghost predicate QueueOk(s: State, q: seq<Message>) {
    && InBounds(s) && (s.back == 0 ==> s.front == 0)
    && s.pushed == s.popped + q
    && (forall i :: 0 <= i < |q| ==> 0 < |q[i]| <= MAX_BODY)
    && Used(|s.mem|, s.front, s.back) < |s.mem|
    && Window(s.mem, s.front, Used(|s.mem|, s.front, s.back)) == EncodeAll(q)
    && NoneCrosses(|s.mem|, s.front, q)
  }

  /** No header of the queued messages crosses the end. */
  ghost predicate NoneCrosses(capacity: nat, pos: nat, q: seq<Message>)
    requires pos <= capacity
    decreases |q|
  {
    q == []
    || (pos + HEADER <= capacity && HEADER + |q[0]| <= capacity && NoneCrosses(capacity, NextPos(capacity, pos, |q[0]|), q[1..]))
  }

  /** What the producer knows: the front it has read leaves no more room than there is, and
      what it has copied so far lies behind the queue. */
  ghost predicate ProducerOk(s: State)
    requires InBounds(s)
  {
    match s.producer
    case Idle => true
    case WantsFront(m) => 0 < |m| <= MAX_BODY
    case WantsBack(m, f) =>
      0 < |m| <= MAX_BODY && f <= |s.mem| && Used(|s.mem|, s.front, s.back) <= Used(|s.mem|, f, s.back)
    case Writing(m, b, done) =>
      && 0 < |m| <= MAX_BODY && b == s.back && s.back + HEADER <= |s.mem|
      && Used(|s.mem|, s.front, s.back) + HEADER + |m| < |s.mem|
      && forall k :: k in done ==> k < HEADER + |m| && s.mem[Cell(|s.mem|, b, k)] == Encode(m)[k]
  }

  ghost predicate ConsumerOk(s: State, q: seq<Message>)
    requires InBounds(s)
  {
    match s.consumer
    case Resting => true
    case Checking(f, check) => f == s.front && (check > 0 ==> q != [])
    case Header(f, got) =>
      f == s.front && q != [] && forall k :: k in got ==> k < HEADER && got[k] == Le32(|q[0]|)[k]
    case Body(f, len, got) =>
      f == s.front && q != [] && len == |q[0]| && forall k :: k in got ==> k < len && got[k] == q[0][k]
    case Confused => false
  }

  /** Messages pushed and not yet popped. */
  function Queue(s: State): seq<Message> {
    if |s.popped| <= |s.pushed| then s.pushed[|s.popped|..] else []
  }

  ghost predicate Inv(s: State) {
    QueueOk(s, Queue(s)) && ProducerOk(s) && ConsumerOk(s, Queue(s))
  }

  lemma InitialIsSafe(capacity: nat)
    requires capacity > 0
    ensures Inv(Initial(capacity))
  {
  }

  // ---- every step keeps it ----

  /** A cell behind the used ones is none of the used ones. */
  lemma FreeCellIsUnread(capacity: nat, front: nat, back: nat, k: nat, j: nat)
    requires front <= capacity && back <= capacity && (back == 0 ==> front == 0)
    requires j < Used(capacity, front, back) && Used(capacity, front, back) + k < capacity
    ensures Cell(capacity, front, j) != Cell(capacity, back, k)
  {
  }

  lemma WriteByteIsSafe(s: State, k: nat)
    requires Inv(s) && Enabled(s, WriteByte(k))
    ensures Inv(Apply(s, WriteByte(k)))
  {
    hide NoneCrosses, EncodeAll, Encode;
    var s' := Apply(s, WriteByte(k));
    var used := Used(|s.mem|, s.front, s.back);
    forall j | 0 <= j < used ensures s'.mem[Cell(|s.mem|, s.front, j)] == s.mem[Cell(|s.mem|, s.front, j)] {
      FreeCellIsUnread(|s.mem|, s.front, s.back, k, j);
    }
    assert Window(s'.mem, s.front, used) == Window(s.mem, s.front, used);
  }

  lemma {:induction false} NoneCrossesAppend(capacity: nat, front: nat, back: nat, q: seq<Message>, m: Message)
    requires front <= capacity && back <= capacity && (back == 0 ==> front == 0)
    requires Used(capacity, front, back) == |EncodeAll(q)| && |EncodeAll(q)| + HEADER + |m| < capacity
    requires NoneCrosses(capacity, front, q) && back + HEADER <= capacity
    ensures NoneCrosses(capacity, front, q + [m])
    decreases |q|
  {
    if q == [] {
      assert EncodeAll([]) == [];
      assert [m][1..] == [];
      assert q + [m] == [m];
    } else {
      assert |EncodeAll(q)| == HEADER + |q[0]| + |EncodeAll(q[1..])|;
      NoneCrossesAppend(capacity, NextPos(capacity, front, |q[0]|), back, q[1..], m);
      assert (q + [m])[1..] == q[1..] + [m];
    }
  }

  lemma FrameIsWritten(s: State)
    requires Inv(s) && Enabled(s, StoreBack)
    ensures Window(s.mem, s.back, HEADER + |s.producer.m|) == Encode(s.producer.m)
  {
    hide NoneCrosses, EncodeAll, Encode;
    var w := Window(s.mem, s.back, HEADER + |s.producer.m|);
    forall k | 0 <= k < |w| ensures w[k] == Encode(s.producer.m)[k] {
      assert k in s.producer.done;
    }
  }

  lemma QueueGrows(s: State, s': State, m: Message)
    requires s.pushed == s.popped + Queue(s) && s'.popped == s.popped && s'.pushed == s.pushed + [m]
    ensures Queue(s') == Queue(s) + [m] && s'.pushed == s'.popped + Queue(s')
  {
  }

  /** The frame that the producer has copied becomes the last one of the queue. */
  lemma StoreBackAppends(s: State)
    requires Inv(s) && Enabled(s, StoreBack)
    ensures var s', q := Apply(s, StoreBack), Queue(s) + [s.producer.m];
            Queue(s') == q && QueueOk(s', q)
  {
    hide NoneCrosses, EncodeAll, Encode, Window, ConsumerOk, Queue;
    var q, m := Queue(s), s.producer.m;
    QueueGrows(s, Apply(s, StoreBack), m);
    NoneCrossesAppend(|s.mem|, s.front, s.back, q, m);
    EncodeAllAppend(q, m);
    FrameIsWritten(s);
    WindowGoesOn(s.mem, s.front, s.back, HEADER + |m|);
    UsedAfterFrame(|s.mem|, s.front, s.back, |m|);
  }

  lemma StoreBackIsSafe(s: State)
    requires Inv(s) && Enabled(s, StoreBack)
    ensures Inv(Apply(s, StoreBack))
  {
    hide QueueOk, Queue, Le32, EncodeAll, Encode, Window, Used, NextPos;
    StoreBackAppends(s);
    var q := Queue(s);
    assert q != [] ==> (q + [s.producer.m])[0] == q[0];
  }

  lemma LoadStepsAreSafe(s: State, step: Step)
    requires Inv(s) && Enabled(s, step)
    requires step.StartPush? || step.LoadFront? || step.LoadBackAndDecide? || step.StartPop?
    ensures Inv(Apply(s, step))
  {
    hide NoneCrosses, EncodeAll, Window;
  }

  lemma CheckIsSafe(s: State)
    requires Inv(s) && Enabled(s, LoadBackAndCheck)
    ensures Inv(Apply(s, LoadBackAndCheck))
  {
    hide NoneCrosses, Window, Encode, EncodeAll;
    EmptyShows(s);
  }

  /** Equal offsets tell the empty queue. */
  lemma EmptyShows(s: State)
    requires QueueOk(s, Queue(s))
    ensures s.front == s.back <==> Queue(s) == []
  {
    hide NoneCrosses, Window, Encode;
    var q := Queue(s);
    if q == [] {
      assert EncodeAll(q) == [];
    } else {
      DropFrame(s.mem, s.front, s.back, q);
    }
  }

  /** What the consumer reads is the frame of the oldest message. */
  lemma OldestFrame(s: State)
    requires Inv(s) && Queue(s) != []
    ensures InBounds(s)
    ensures var m := Queue(s)[0];
            HEADER + |m| < |s.mem| && |m| <= MAX_BODY
            && (forall k :: 0 <= k < HEADER ==> s.mem[Cell(|s.mem|, s.front, k)] == Le32(|m|)[k])
            && (forall k :: 0 <= k < |m| ==> s.mem[Cell(|s.mem|, s.front, HEADER + k)] == m[k])
  {
    hide NoneCrosses, EncodeAll, Le32;
    var m := Queue(s)[0];
    DropFrame(s.mem, s.front, s.back, Queue(s));
    var w := Window(s.mem, s.front, HEADER + |m|);
    forall k | 0 <= k < HEADER ensures s.mem[Cell(|s.mem|, s.front, k)] == Le32(|m|)[k] {
      assert w[k] == Encode(m)[k];
    }
    forall k | 0 <= k < |m| ensures s.mem[Cell(|s.mem|, s.front, HEADER + k)] == m[k] {
      assert w[HEADER + k] == Encode(m)[HEADER + k];
    }
  }

  lemma ReadStepsAreSafe(s: State, step: Step)
    requires Inv(s) && Enabled(s, step)
    requires step.ReadHeaderByte? || step.ReadBodyByte? || step.DecodeLength?
    ensures Inv(Apply(s, step))
  {
    hide QueueOk, Queue, Encode, Le32, FromLe32, Used, Cell;
    OldestFrame(s);
    if step.DecodeLength? {
      HeaderIsLength(s.consumer.got, |Queue(s)[0]|);
    }
    SameQueue(s, Apply(s, step));
  }

  lemma HeaderIsLength(got: map<nat, byte>, n: nat)
    requires n < INT_RANGE && forall k :: 0 <= k < HEADER ==> k in got && got[k] == Le32(n)[k]
    ensures FromLe32(seq(HEADER, k requires 0 <= k < HEADER => got[k])) == n
  {
    hide Le32, FromLe32;
    LengthRoundTrip(n);
    assert seq(HEADER, k requires 0 <= k < HEADER => got[k]) == Le32(n);
  }

  /** The queue does not depend on what producer and consumer are doing. */
  lemma SameQueue(s: State, s': State)
    requires s' == s.(producer := s'.producer, consumer := s'.consumer)
    ensures Queue(s') == Queue(s) && forall q :: QueueOk(s', q) == QueueOk(s, q)
  {
  }

  lemma StoreFrontIsSafe(s: State)
    requires Inv(s) && Enabled(s, StoreFront)
    ensures Inv(Apply(s, StoreFront))
  {
    hide EncodeAll, Encode, Window;
    var q, s' := Queue(s), Apply(s, StoreFront);
    DropFrame(s.mem, s.front, s.back, q);
    var read := seq(s.consumer.len, k requires 0 <= k < s.consumer.len => s.consumer.got[k]);
    assert read == q[0];
    assert s.pushed == s.popped + [q[0]] + q[1..];
    assert Queue(s') == q[1..];
  }

  lemma StepIsSafe(s: State, step: Step)
    requires Inv(s) && Enabled(s, step)
    ensures Inv(Apply(s, step))
  {
    hide Inv, Apply, Enabled;
    match step
    case WriteByte(k) => WriteByteIsSafe(s, k);
    case StoreBack => StoreBackIsSafe(s);
    case StoreFront => StoreFrontIsSafe(s);
    case LoadBackAndCheck => CheckIsSafe(s);
    case ReadHeaderByte(_) => ReadStepsAreSafe(s, step);
    case ReadBodyByte(_) => ReadStepsAreSafe(s, step);
    case DecodeLength => ReadStepsAreSafe(s, step);
    case _ => LoadStepsAreSafe(s, step);
  }

  // ---- every interleaving ----

  ghost predicate Interleaving(s: State, steps: seq<Step>)
    decreases |steps|
  {
    InBounds(s) && (steps == [] || (Enabled(s, steps[0]) && Interleaving(Apply(s, steps[0]), steps[1..])))
  }

  ghost function Outcome(s: State, steps: seq<Step>): (r: State)
    requires Interleaving(s, steps)
    ensures InBounds(r) && |r.mem| == |s.mem|
    decreases |steps|
  {
    if steps == [] then s else Outcome(Apply(s, steps[0]), steps[1..])
  }

  lemma {:induction false} InterleavingsAreSafe(s: State, steps: seq<Step>)
    requires Inv(s) && Interleaving(s, steps)
    ensures Inv(Outcome(s, steps))
    decreases |steps|
  {
    hide Inv;
    if steps != [] {
      StepIsSafe(s, steps[0]);
      InterleavingsAreSafe(Apply(s, steps[0]), steps[1..]);
    }
  }

  /** Under every interleaving the messages popped are the first messages pushed, byte for
      byte and in order, and the consumer never finds the queue empty after finding it not. */
  lemma PoppedIsPrefixOfPushed(capacity: nat, steps: seq<Step>)
    requires capacity > 0 && Interleaving(Initial(capacity), steps)
    ensures var s := Outcome(Initial(capacity), steps);
            s.popped <= s.pushed && !s.consumer.Confused?
  {
    InitialIsSafe(capacity);
    InterleavingsAreSafe(Initial(capacity), steps);
  }

  /** Under every interleaving no byte is written over one still to be read. */
  lemma WritesMissUnreadBytes(capacity: nat, steps: seq<Step>, k: nat, j: nat)
    requires capacity > 0 && Interleaving(Initial(capacity), steps)
    requires Enabled(Outcome(Initial(capacity), steps), WriteByte(k))
    requires j < Used(capacity, Outcome(Initial(capacity), steps).front, Outcome(Initial(capacity), steps).back)
    ensures var s := Outcome(Initial(capacity), steps);
            Cell(capacity, s.producer.b, k) != Cell(capacity, s.front, j)
  {
    InitialIsSafe(capacity);
    InterleavingsAreSafe(Initial(capacity), steps);
    var s := Outcome(Initial(capacity), steps);
    FreeCellIsUnread(capacity, s.front, s.back, k, j);
  }
}
