/** Producer and consumer get on: a message for which there is room can be pushed, and a queued
    message can be popped, each by its thread alone and in any safe state. */
module SpscProgress {
  import opened ByteRing
  import opened SpscRing

  lemma OneStep(s: State, step: Step, rest: seq<Step>)
    requires InBounds(s) && Enabled(s, step) && Interleaving(Apply(s, step), rest)
    ensures Interleaving(s, [step] + rest) && Outcome(s, [step] + rest) == Outcome(Apply(s, step), rest)
  {
    hide Apply, Enabled;
    assert ([step] + rest)[1..] == rest;
  }

  lemma {:induction false} RunsCompose(s: State, a: seq<Step>, b: seq<Step>)
    requires Interleaving(s, a) && Interleaving(Outcome(s, a), b)
    ensures Interleaving(s, a + b) && Outcome(s, a + b) == Outcome(Outcome(s, a), b)
    decreases |a|
  {
    hide Apply, Enabled;
    if a == [] {
      assert a + b == b;
    } else {
      RunsCompose(Apply(s, a[0]), a[1..], b);
      assert a + b == [a[0]] + (a[1..] + b);
      OneStep(s, a[0], a[1..] + b);
    }
  }

  function Below(k: nat): (r: set<nat>)
    ensures forall j: nat :: j in r <==> j < k
  {
    if k == 0 then {} else Below(k - 1) + {k - 1}
  }

  lemma BelowGrows(k: nat)
    ensures Below(0) == {} && Below(k + 1) == Below(k) + {k}
  {
  }

  // ---- pushing ----

  function Writes(k: nat, n: nat): seq<Step>
    requires k <= n
  {
    seq(n - k, i requires 0 <= i < n - k => WriteByte(k + i))
  }

  function PushRun(m: Message): seq<Step> {
    [StartPush(m)] + ([LoadFront] + ([LoadBackAndDecide] + (Writes(0, HEADER + |m|) + [StoreBack])))
  }

  /** All of a frame but its first `k` bytes can be copied; nothing but memory changes. */
  lemma {:induction false} WritesRun(s: State, m: Message, k: nat)
    requires InBounds(s) && s.producer.Writing? && s.producer.m == m && s.producer.b <= |s.mem|
    requires k <= HEADER + |m| <= |s.mem| && s.producer.done == Below(k)
    ensures Interleaving(s, Writes(k, HEADER + |m|))
    ensures var r := Outcome(s, Writes(k, HEADER + |m|));
            r == s.(mem := r.mem, producer := Writing(m, s.producer.b, Below(HEADER + |m|)))
    decreases HEADER + |m| - k
  {
    hide Encode, Below;
    var n := HEADER + |m|;
    if k == n {
      assert Writes(k, n) == [];
    } else {
      var s1 := Apply(s, WriteByte(k));
      BelowGrows(k);
      WritesRun(s1, m, k + 1);
      assert Writes(k, n) == [WriteByte(k)] + Writes(k + 1, n);
      OneStep(s, WriteByte(k), Writes(k + 1, n));
    }
  }

  /** A message for which there is room, header included, is pushed. */
  lemma MessageIsPushed(s: State, m: Message)
    requires Inv(s) && s.producer.Idle? && 0 < |m| <= MAX_BODY
    requires Used(|s.mem|, s.front, s.back) + HEADER + |m| < |s.mem| && s.back + HEADER <= |s.mem|
    ensures Interleaving(s, PushRun(m))
    ensures var r := Outcome(s, PushRun(m));
            r.pushed == s.pushed + [m] && r.popped == s.popped && r.producer.Idle? && r.consumer == s.consumer
  {
    hide Encode, Window, EncodeAll, Below;
    var n := HEADER + |m|;
    var s1 := Apply(s, StartPush(m));
    var s2 := Apply(s1, LoadFront);
    var s3 := Apply(s2, LoadBackAndDecide);
    assert s3 == s.(producer := Writing(m, s.back, {}));
    BelowGrows(0);
    WritesRun(s3, m, 0);
    var s4 := Outcome(s3, Writes(0, n));
    var tail := Writes(0, n) + [StoreBack];
    LastStep(s3, Writes(0, n), StoreBack);
    OneStep(s2, LoadBackAndDecide, tail);
    OneStep(s1, LoadFront, [LoadBackAndDecide] + tail);
    OneStep(s, StartPush(m), [LoadFront] + ([LoadBackAndDecide] + tail));
  }

  lemma LastStep(s: State, steps: seq<Step>, last: Step)
    requires Interleaving(s, steps) && Enabled(Outcome(s, steps), last) && InBounds(Apply(Outcome(s, steps), last))
    ensures Interleaving(s, steps + [last]) && Outcome(s, steps + [last]) == Apply(Outcome(s, steps), last)
  {
    hide Apply, Enabled;
    var r := Outcome(s, steps);
    assert [last] + [] == [last];
    OneStep(r, last, []);
    RunsCompose(s, steps, [last]);
  }

  /** A message longer than the free space is refused, and only the attempt is made. */
  lemma MessageIsRefused(s: State, m: Message)
    requires Inv(s) && s.producer.Idle? && 0 < |m| <= MAX_BODY
    requires Used(|s.mem|, s.front, s.back) + |m| >= |s.mem|
    ensures Interleaving(s, [StartPush(m), LoadFront, LoadBackAndDecide])
    ensures Outcome(s, [StartPush(m), LoadFront, LoadBackAndDecide]) == s
  {
    hide Encode, Window, EncodeAll, NoneCrosses;
    var s1 := Apply(s, StartPush(m));
    var s2 := Apply(s1, LoadFront);
    assert Apply(s2, LoadBackAndDecide) == s;
    OneStep(s2, LoadBackAndDecide, []);
    OneStep(s1, LoadFront, [LoadBackAndDecide]);
    OneStep(s, StartPush(m), [LoadFront, LoadBackAndDecide]);
  }

  // ---- popping ----

  function HeaderReads(k: nat): seq<Step>
    requires k <= HEADER
  {
    seq(HEADER - k, i requires 0 <= i < HEADER - k => ReadHeaderByte(k + i))
  }

  function BodyReads(k: nat, n: nat): seq<Step>
    requires k <= n
  {
    seq(n - k, i requires 0 <= i < n - k => ReadBodyByte(k + i))
  }

  function PopRun(len: nat): seq<Step> {
    [StartPop, LoadBackAndCheck, LoadBackAndCheck, LoadBackAndCheck]
    + (HeaderReads(0) + ([DecodeLength] + (BodyReads(0, len) + [StoreFront])))
  }

  lemma {:induction false} HeaderReadsRun(s: State, k: nat)
    requires InBounds(s) && s.consumer.Header? && s.consumer.f <= |s.mem| && k <= HEADER <= |s.mem|
    requires s.consumer.got.Keys == Below(k)
    ensures Interleaving(s, HeaderReads(k))
    ensures var r := Outcome(s, HeaderReads(k));
            r == s.(consumer := r.consumer) && r.consumer.Header? && r.consumer.f == s.consumer.f
            && r.consumer.got.Keys == Below(HEADER)
    decreases HEADER - k
  {
    hide Below;
    if k == HEADER {
      assert HeaderReads(k) == [];
    } else {
      var s1 := Apply(s, ReadHeaderByte(k));
      BelowGrows(k);
      assert s1.consumer.got.Keys == Below(k) + {k};
      HeaderReadsRun(s1, k + 1);
      assert HeaderReads(k) == [ReadHeaderByte(k)] + HeaderReads(k + 1);
      OneStep(s, ReadHeaderByte(k), HeaderReads(k + 1));
    }
  }

  lemma {:induction false} BodyReadsRun(s: State, k: nat)
    requires InBounds(s) && s.consumer.Body? && s.consumer.f <= |s.mem| && k <= s.consumer.len && HEADER + s.consumer.len <= |s.mem|
    requires s.consumer.got.Keys == Below(k)
    ensures Interleaving(s, BodyReads(k, s.consumer.len))
    ensures var r := Outcome(s, BodyReads(k, s.consumer.len));
            r == s.(consumer := r.consumer) && r.consumer.Body? && r.consumer.f == s.consumer.f && r.consumer.len == s.consumer.len
            && r.consumer.got.Keys == Below(s.consumer.len)
    decreases s.consumer.len - k
  {
    hide Below;
    var n := s.consumer.len;
    if k == n {
      assert BodyReads(k, n) == [];
    } else {
      var s1 := Apply(s, ReadBodyByte(k));
      BelowGrows(k);
      assert s1.consumer.got.Keys == Below(k) + {k};
      BodyReadsRun(s1, k + 1);
      assert BodyReads(k, n) == [ReadBodyByte(k)] + BodyReads(k + 1, n);
      OneStep(s, ReadBodyByte(k), BodyReads(k + 1, n));
    }
  }

  /** The three checks find the queue not empty. */
  lemma ChecksRun(s: State)
    requires Inv(s) && s.consumer.Resting? && Queue(s) != []
    ensures var run := [StartPop, LoadBackAndCheck, LoadBackAndCheck, LoadBackAndCheck];
            Interleaving(s, run) && Outcome(s, run) == s.(consumer := Header(s.front, map[]))
  {
    hide NoneCrosses, Encode, EncodeAll, Window, Queue;
    EmptyShows(s);
    var s1 := Apply(s, StartPop);
    var s2 := Apply(s1, LoadBackAndCheck);
    var s3 := Apply(s2, LoadBackAndCheck);
    OneStep(s3, LoadBackAndCheck, []);
    OneStep(s2, LoadBackAndCheck, [LoadBackAndCheck]);
    OneStep(s1, LoadBackAndCheck, [LoadBackAndCheck, LoadBackAndCheck]);
    OneStep(s, StartPop, [LoadBackAndCheck, LoadBackAndCheck, LoadBackAndCheck]);
  }

  /** Header, length and body of the oldest message are read, and the front offset stored. */
  lemma ReadsRun(s: State)
    requires Inv(s) && Queue(s) != [] && s.consumer == Header(s.front, map[])
    ensures var run := HeaderReads(0) + ([DecodeLength] + (BodyReads(0, |Queue(s)[0]|) + [StoreFront]));
            Interleaving(s, run)
            && var r := Outcome(s, run); |r.popped| == |s.popped| + 1 && r.pushed == s.pushed && r.consumer.Resting? && r.producer == s.producer
  {
    hide Inv, Queue, Below, NoneCrosses, Encode, EncodeAll, Window, QueueOk, FromLe32;
    OldestFrame(s);
    BelowGrows(0);
    HeaderReadsRun(s, 0);
    InterleavingsAreSafe(s, HeaderReads(0));
    var s1 := Outcome(s, HeaderReads(0));
    var s2 := Apply(s1, DecodeLength);
    StepIsSafe(s1, DecodeLength);
    DecodedLength(s, s2);
    BodyReadsRun(s2, 0);
    LastStep(s2, BodyReads(0, |Queue(s)[0]|), StoreFront);
    OneStep(s1, DecodeLength, BodyReads(0, |Queue(s)[0]|) + [StoreFront]);
    RunsCompose(s, HeaderReads(0), [DecodeLength] + (BodyReads(0, |Queue(s)[0]|) + [StoreFront]));
  }

  lemma DecodedLength(s: State, s2: State)
    requires Inv(s2) && s2 == s.(consumer := s2.consumer) && s2.consumer.Body? && Queue(s) != []
    ensures s2.consumer.len == |Queue(s)[0]| && s2.consumer.f == s.front
  {
  }

  /** From every safe state in which a message is queued, the consumer alone pops it. */
  lemma MessageIsPopped(s: State)
    requires Inv(s) && s.consumer.Resting? && Queue(s) != []
    ensures var run := PopRun(|Queue(s)[0]|);
            Interleaving(s, run)
            && var r := Outcome(s, run);
               r.popped == s.popped + [Queue(s)[0]] && r.pushed == s.pushed && r.consumer.Resting? && r.producer == s.producer
  {
    hide Apply, Enabled, NoneCrosses, Encode, EncodeAll, Window;
    var checks := [StartPop, LoadBackAndCheck, LoadBackAndCheck, LoadBackAndCheck];
    ChecksRun(s);
    InterleavingsAreSafe(s, checks);
    var s1 := Outcome(s, checks);
    SameQueue(s, s1);
    ReadsRun(s1);
    var rest := HeaderReads(0) + ([DecodeLength] + (BodyReads(0, |Queue(s)[0]|) + [StoreFront]));
    RunsCompose(s, checks, rest);
    var r := Outcome(s1, rest);
    InterleavingsAreSafe(s1, rest);
    NextIsOldest(s, r);
  }

  lemma NextIsOldest(s: State, r: State)
    requires Inv(s) && Inv(r) && Queue(s) != [] && r.pushed == s.pushed && |r.popped| == |s.popped| + 1
    ensures r.popped == s.popped + [Queue(s)[0]]
  {
    var n := |s.popped|;
    assert s.pushed == s.popped + Queue(s) && r.pushed == r.popped + Queue(r);
    assert r.popped == s.pushed[..n + 1];
    assert s.popped == s.pushed[..n] && Queue(s)[0] == s.pushed[n];
  }
}
