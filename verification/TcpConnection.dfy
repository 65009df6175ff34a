/** A TCP connection: its state, its two buffers and what it has handed to the peer.  The
    kernel's answers to `write`, `sendfile` and `readv` are inputs. */
module TcpConnections {
  import opened Buffers

  datatype ConnectionState = Connecting | Connected | Disconnected

  /** States only move forward. */
  function Progress(s: ConnectionState): nat {
    match s
    case Connecting => 1
    case Connected => 2
    case Disconnected => 3
  }

  /** What the kernel answers to one attempt to write: it takes some bytes, it would block,
      or the attempt fails. */
  datatype Answer = Takes(n: nat) | WouldBlock | Fails

  /** What the kernel answers to a read: bytes, of which none mean the end of the stream; it
      would block; or the read fails. */
  datatype ReadAnswer = Arrives(bytes: string) | ReadWouldBlock | ReadFails

  const LOCAL_BUF_LEN: nat := 0x1_0000
  const SIZE_RANGE: nat := 0x1_0000_0000_0000_0000

  predicate Positive(answers: seq<Answer>) {
    forall i :: 0 <= i < |answers| ==> answers[i].Takes? ==> answers[i].n > 0
  }

  /** How one round of writing ends. */
  datatype Pumped = Pumped(sent: string, rest: string, unused: seq<Answer>, failed: bool)

  /** Offers the pending bytes until they are gone or the kernel refuses; when there are no
      more answers the kernel would block. */
  ghost function Pump(pending: string, answers: seq<Answer>): Pumped
    requires Positive(answers)
    decreases |answers|
  {
    if pending == [] || answers == [] then Pumped([], pending, answers, false)
    else match answers[0]
      case WouldBlock => Pumped([], pending, answers[1..], false)
      case Fails => Pumped([], pending, answers[1..], true)
      case Takes(n) =>
        var k := if n < |pending| then n else |pending|;
        var p := Pump(pending[k..], answers[1..]);
        p.(sent := pending[..k] + p.sent)
  }

  /** How a round of `sendfile` ends: `left` bytes of the file remain. */
  datatype FileSent = FileSent(left: nat, failed: bool)

  /** Offers the file until it is sent or the kernel refuses. */
  ghost function SendAll(left: nat, answers: seq<Answer>): FileSent
    requires Positive(answers)
    decreases |answers|
  {
    if left == 0 || answers == [] then FileSent(left, false)
    else match answers[0]
      case WouldBlock => FileSent(left, false)
      case Fails => FileSent(left, true)
      case Takes(n) => SendAll(if n < left then left - n else 0, answers[1..])
  }

  /** Sending from the `next`th answer on. */
  ghost function SendFrom(left: nat, answers: seq<Answer>, next: nat): FileSent
    requires Positive(answers) && next <= |answers|
  {
    SendAll(left, answers[next..])
  }

  lemma SendOne(left: nat, answers: seq<Answer>, next: nat)
    requires Positive(answers) && next <= |answers|
    ensures next == 0 ==> SendFrom(left, answers, next) == SendAll(left, answers)
    ensures left == 0 || next == |answers| ==> SendFrom(left, answers, next) == FileSent(left, false)
    ensures left != 0 && next < |answers| ==>
              SendFrom(left, answers, next)
              == match answers[next]
                 case WouldBlock => FileSent(left, false)
                 case Fails => FileSent(left, true)
                 case Takes(n) => SendFrom(if n < left then left - n else 0, answers, next + 1)
  {
    assert answers[0..] == answers;
    if next < |answers| {
      assert answers[next..][1..] == answers[next + 1..];
    }
  }

  /** Answers that take something send the whole file; what they do not take is left. */
  lemma {:induction false} FileDrains(left: nat, answers: seq<Answer>)
    requires Positive(answers) && forall i :: 0 <= i < |answers| ==> answers[i].Takes?
    ensures SendAll(left, answers).left == (if Taken(answers) < left then left - Taken(answers) else 0) && !SendAll(left, answers).failed
    ensures |answers| >= left ==> SendAll(left, answers).left == 0
    decreases |answers|
  {
    if answers != [] {
      var n := answers[0].n;
      FileDrains(if n < left then left - n else 0, answers[1..]);
    }
  }

  function Taken(answers: seq<Answer>): nat {
    if answers == [] then 0 else (if answers[0].Takes? then answers[0].n else 0) + Taken(answers[1..])
  }

  lemma PositiveAt(answers: seq<Answer>, i: nat)
    requires Positive(answers) && i < |answers|
    ensures answers[i].Takes? ==> answers[i].n > 0
  {
  }

  /** Pumping from the `next`th answer on. */
  ghost function PumpFrom(pending: string, answers: seq<Answer>, next: nat): Pumped
    requires Positive(answers) && next <= |answers|
  {
    Pump(pending, answers[next..])
  }

  lemma PumpOne(pending: string, answers: seq<Answer>, next: nat)
    requires Positive(answers) && next <= |answers|
    ensures next == 0 ==> PumpFrom(pending, answers, next) == Pump(pending, answers)
    ensures pending == [] || next == |answers| ==> var p := PumpFrom(pending, answers, next); p.sent == [] && p.rest == pending && !p.failed
    ensures pending != [] && next < |answers| ==>
              var p := PumpFrom(pending, answers, next);
              match answers[next] {
                case WouldBlock => p.sent == [] && p.rest == pending && !p.failed
                case Fails => p.sent == [] && p.rest == pending && p.failed
                case Takes(n) =>
                  var k := if n < |pending| then n else |pending|;
                  var q := PumpFrom(pending[k..], answers, next + 1);
                  p.sent == pending[..k] + q.sent && p.rest == q.rest && p.failed == q.failed
              }
  {
    assert answers[0..] == answers;
    if next < |answers| {
      assert answers[next..][1..] == answers[next + 1..];
    }
  }

  /** `p` is what is left of the round `all` after `done` has been sent. */
  ghost predicate Continues(all: Pumped, done: string, p: Pumped) {
    all.sent == done + p.sent && all.rest == p.rest && all.failed == p.failed
  }

  lemma PumpStarts(pending: string, answers: seq<Answer>)
    requires Positive(answers)
    ensures Continues(Pump(pending, answers), [], PumpFrom(pending, answers, 0))
  {
    PumpOne(pending, answers, 0);
  }

  lemma PumpGoesOn(all: Pumped, done: string, pending: string, answers: seq<Answer>, next: nat)
    requires Positive(answers) && next <= |answers| && Continues(all, done, PumpFrom(pending, answers, next))
    ensures pending == [] || next == |answers| || !answers[next].Takes? ==> all.sent == done && all.rest == pending
    ensures pending != [] && next < |answers| && answers[next] == Fails <==> (all.failed && (pending == [] || next == |answers| || !answers[next].Takes?))
    ensures pending != [] && next < |answers| && answers[next].Takes? ==>
              var k := if answers[next].n < |pending| then answers[next].n else |pending|;
              Continues(all, done + pending[..k], PumpFrom(pending[k..], answers, next + 1))
  {
    hide Pump, Positive;
    PumpOne(pending, answers, next);
    if pending != [] && next < |answers| && answers[next].Takes? {
      var k := if answers[next].n < |pending| then answers[next].n else |pending|;
      assert done + (pending[..k] + PumpFrom(pending[k..], answers, next + 1).sent)
             == (done + pending[..k]) + PumpFrom(pending[k..], answers, next + 1).sent;
    }
  }

  /** Pumping loses and reorders nothing, however the kernel cuts the bytes. */
  lemma {:induction false} PumpConserves(pending: string, answers: seq<Answer>)
    requires Positive(answers)
    ensures Pump(pending, answers).sent + Pump(pending, answers).rest == pending
    decreases |answers|
  {
    if pending != [] && answers != [] && answers[0].Takes? {
      var n := answers[0].n;
      var k := if n < |pending| then n else |pending|;
      PumpConserves(pending[k..], answers[1..]);
      assert pending == pending[..k] + pending[k..];
    }
  }

  /** Answers that take everything drain the buffer. */
  lemma {:induction false} PumpDrains(pending: string, answers: seq<Answer>)
    requires Positive(answers) && |answers| >= |pending|
    requires forall i :: 0 <= i < |answers| ==> answers[i].Takes?
    ensures Pump(pending, answers).rest == [] && !Pump(pending, answers).failed
    decreases |answers|
  {
    if pending != [] {
      var n := answers[0].n;
      PumpDrains(pending[if n < |pending| then n else |pending|..], answers[1..]);
    }
  }

  lemma Regroup(a: string, b: string, k: nat)
    requires k <= |b|
    ensures a + b[..k] + b[k..] == a + b
  {
  }

  class TcpConnection {
    var state: ConnectionState
    const readBuf: Buffer
    const writeBuf: Buffer
    var zeroCopyFd: int
    var zeroCopyLen: nat
    var zeroCopyWrited: nat
    var reading: bool   // the channel waits for readable
    var writing: bool   // the channel waits for writable
    var closeCalls: nat // how often the close callback ran
    var readCalls: nat  // how often the read callback ran
    var doneCalls: nat  // how often the write-done callback ran
    ghost var written: string
    ghost var sent: string

    ghost predicate Valid()
      reads this, readBuf, readBuf.data, writeBuf, writeBuf.data
    {
      && readBuf.Valid() && writeBuf.Valid() && readBuf != writeBuf && readBuf.data != writeBuf.data
      && zeroCopyWrited <= zeroCopyLen
      && sent + writeBuf.Contents() == written
      && closeCalls == (if state == Disconnected then 1 else 0)
    }

    constructor (initial: ConnectionState)
      requires initial != Disconnected
      ensures Valid() && state == initial && written == sent == []
    {
      state := initial;
      readBuf := new Buffer();
      writeBuf := new Buffer();
      zeroCopyFd, zeroCopyLen, zeroCopyWrited := -1, 0, 0;
      reading, writing := false, initial == Connecting;
      closeCalls, readCalls, doneCalls := 0, 0, 0;
      written, sent := [], [];
    }

    method Write(bytes: string)
      requires Valid()
      modifies this`writing, this`written, writeBuf, writeBuf.data
      ensures Valid() && written == old(written) + bytes && writing
      ensures writeBuf.Contents() == old(writeBuf.Contents()) + bytes
      ensures writeBuf.data == old(writeBuf.data) || fresh(writeBuf.data)
    {
      writeBuf.Append(bytes);
      written := written + bytes;
      writing := true;
    }

    method ZeroCopyWrite(fd: int, len: nat)
      requires Valid()
      modifies this`zeroCopyFd, this`zeroCopyLen, this`zeroCopyWrited
      ensures Valid() && zeroCopyFd == fd && zeroCopyLen == len && zeroCopyWrited == 0
    {
      zeroCopyFd, zeroCopyLen, zeroCopyWrited := fd, len, 0;
    }

    /** Must not be called on a closed connection. */
    method ActiveClose()
      requires Valid() && state != Disconnected
      modifies this`state, this`closeCalls, this`reading, this`writing
      ensures Valid() && state == Disconnected
      ensures reading == (old(reading) && old(state) == Connecting)
      ensures writing == (old(writing) && old(state) == Connected)
    {
      if state == Connected {
        reading := false;
      } else if state == Connecting {
        writing := false;
      }
      state := Disconnected;
      closeCalls := closeCalls + 1;
    }

    method PassiveClose()
      requires Valid()
      modifies this`state, this`closeCalls, this`reading, this`writing
      ensures Valid() && state == Disconnected
      ensures old(state) != Disconnected ==> !reading && !writing
      ensures old(state) == Disconnected ==> reading == old(reading) && writing == old(writing)
    {
      if state == Disconnected {
        return;
      }
      state := Disconnected;
      reading, writing := false, false;
      closeCalls := closeCalls + 1;
    }

    method ConnectedToPeer(soError: int)
      requires Valid() && state == Connecting
      modifies this`state, this`closeCalls, this`reading, this`writing
      ensures Valid() && !writing
      ensures state == if soError != 0 then Disconnected else Connected
      ensures reading == (soError == 0 || old(reading))
    {
      if soError != 0 {
        ActiveClose();
      } else {
        state := Connected;
        reading := true;
        writing := false;
      }
    }

    /** Bytes that arrive are queued behind those not yet consumed; first the free part of
        the buffer is filled, the others are appended from the local block.  No bytes, or an
        error, close.  A read that would block counts as the largest size: it takes over the
        free part as it is, and asks for more of the local block than there is.  It is the
        only answer for which the copy is not safe, and the call is not followed further. */
    method ReadFromPeer(answer: ReadAnswer) returns (safe: bool)
      requires Valid() && readBuf.BytesCanWrite() + LOCAL_BUF_LEN < SIZE_RANGE - 1
      requires answer.Arrives? ==> |answer.bytes| <= readBuf.BytesCanWrite() + LOCAL_BUF_LEN
      modifies this`state, this`closeCalls, this`reading, this`writing, this`readCalls, readBuf, readBuf.data
      ensures Valid() && (safe <==> answer != ReadWouldBlock)
      ensures answer == ReadFails || answer == Arrives([]) ==> state == Disconnected && readBuf.Contents() == old(readBuf.Contents())
      ensures answer == ReadFails || answer == Arrives([]) ==> old(state) != Disconnected ==> !reading && !writing
      ensures readCalls == old(readCalls) + if answer.Arrives? && answer.bytes != [] then 1 else 0
      ensures answer.Arrives? && answer.bytes != [] ==> reading == old(reading) && writing == old(writing)
      ensures answer.Arrives? && answer.bytes != [] ==> state == old(state) && readBuf.Contents() == old(readBuf.Contents()) + answer.bytes
      ensures !safe ==> state == old(state) && readBuf.Contents() == old(readBuf.data[readBuf.readIndex..])
    {
      if answer == ReadFails || answer == Arrives([]) {
        PassiveClose();
        return true;
      }
      safe := QueueArrived(answer);
      if safe {
        readCalls := readCalls + 1;
      }
    }

    /** Fills the free part of the read buffer and appends the rest from the local block. */
    method QueueArrived(answer: ReadAnswer) returns (safe: bool)
      requires Valid() && readBuf.BytesCanWrite() + LOCAL_BUF_LEN < SIZE_RANGE - 1 && answer != ReadFails
      requires answer.Arrives? ==> |answer.bytes| <= readBuf.BytesCanWrite() + LOCAL_BUF_LEN
      modifies readBuf, readBuf.data
      ensures Valid() && (safe <==> answer != ReadWouldBlock)
      ensures safe ==> readBuf.Contents() == old(readBuf.Contents()) + answer.bytes
      ensures !safe ==> readBuf.Contents() == old(readBuf.data[readBuf.readIndex..])
    {
      hide Max;
      var bytesLeft := readBuf.BytesCanWrite();
      var bytesRead := if answer.Arrives? then |answer.bytes| else SIZE_RANGE - 1;
      if bytesRead > bytesLeft {
        var localBufBytes := bytesRead - bytesLeft;
        if answer.Arrives? {
          Regroup(readBuf.Contents(), answer.bytes, bytesLeft);
          readBuf.Fill(answer.bytes[..bytesLeft]);
        } else {
          assert readBuf.data[readBuf.readIndex..] == readBuf.Contents() + readBuf.data[readBuf.writeIndex..];
          readBuf.AddBytes(bytesLeft);
        }
        if localBufBytes > LOCAL_BUF_LEN {
          return false;
        }
        readBuf.Append(answer.bytes[bytesLeft..]);
      } else {
        readBuf.Fill(answer.bytes);
      }
      return true;
    }

    /** What a file that is being sent has left. */
    function FileLeft(): nat
      requires zeroCopyWrited <= zeroCopyLen
      reads this
    {
      if zeroCopyFd == -1 then 0 else zeroCopyLen - zeroCopyWrited
    }

    /** Neither buffered nor zero-copy bytes are pending. */
    ghost predicate AllSent()
      requires Valid()
      reads this, readBuf, readBuf.data, writeBuf, writeBuf.data
    {
      writeBuf.Contents() == [] && FileLeft() == 0
    }

    /** Writes as much as the kernel takes.  The bytes sent followed by the bytes still
        pending are always the bytes written; a failure of either kind closes the connection
        and nothing else does; the done callback runs, and writability is no longer waited
        for, exactly when neither buffered nor zero-copy bytes are pending. */
    method WriteToPeer(answers: seq<Answer>, fileAnswers: seq<Answer>)
      requires Valid() && Positive(answers) && Positive(fileAnswers)
      modifies this, writeBuf`readIndex, writeBuf`writeIndex
      ensures Valid() && written == old(written)
      ensures var p, f := Pump(old(writeBuf.Contents()), answers), SendAll(old(FileLeft()), fileAnswers);
              sent == old(sent) + p.sent && writeBuf.Contents() == p.rest && FileLeft() == f.left
              && state == (if p.failed || f.failed then Disconnected else old(state))
              && reading == (old(reading) && !((p.failed || f.failed) && old(state) == Connected))
              && writing == (old(writing) && !((p.failed || f.failed) && old(state) == Connecting) && !AllSent())
      ensures doneCalls == old(doneCalls) + if AllSent() then 1 else 0
      ensures AllSent() ==> sent == written && zeroCopyFd == -1
      ensures !AllSent() ==> zeroCopyFd == old(zeroCopyFd) && zeroCopyLen == old(zeroCopyLen)
    {
      hide Pump, SendAll, Positive;
      SendBuffered(answers);
      SendFile(fileAnswers);
      if writeBuf.BytesToRead() == 0 && (zeroCopyFd == -1 || zeroCopyLen == zeroCopyWrited) {
        FinishWriting();
      }
    }

    /** Everything is sent: waits for nothing more to write and calls back. */
    method FinishWriting()
      requires Valid() && writeBuf.Contents() == [] && FileLeft() == 0
      modifies this`zeroCopyFd, this`zeroCopyLen, this`zeroCopyWrited, this`writing, this`doneCalls
      ensures Valid() && FileLeft() == 0 && zeroCopyFd == -1
      ensures !writing && sent == written && doneCalls == old(doneCalls) + 1
    {
      if zeroCopyFd != -1 {
        zeroCopyFd, zeroCopyLen, zeroCopyWrited := -1, 0, 0;
      }
      writing := false;
      doneCalls := doneCalls + 1;
    }

    method SendBuffered(answers: seq<Answer>)
      requires Valid() && Positive(answers)
      modifies this`state, this`closeCalls, this`reading, this`writing, this`sent, writeBuf`readIndex, writeBuf`writeIndex
      ensures Valid()
      ensures var p := Pump(old(writeBuf.Contents()), answers);
              sent == old(sent) + p.sent && writeBuf.Contents() == p.rest
              && FlagsAfter(p.failed, old(state), old(reading), old(writing))
    {
      hide Pump, PumpFrom, Positive, Continues, Max;
      ghost var all := Pump(writeBuf.Contents(), answers);
      var bytesToRead := writeBuf.BytesToRead();
      var next := 0;
      PumpStarts(writeBuf.Contents(), answers);
      ghost var done: string := [];
      while bytesToRead != 0
        invariant 0 <= next <= |answers| && Valid() && bytesToRead == |writeBuf.Contents()|
        invariant state == old(state) && reading == old(reading) && writing == old(writing) && sent == old(sent) + done
        invariant Continues(all, done, PumpFrom(writeBuf.Contents(), answers, next))
        decreases bytesToRead
      {
        PumpGoesOn(all, done, writeBuf.Contents(), answers, next);
        if next == |answers| {
          break;
        }
        var answer := answers[next];
        if answer == WouldBlock {
          break;
        }
        if answer == Fails {
          CloseAfterFailure();
          break;
        }
        done := HandOver(answers, next, all, old(sent), done);
        next := next + 1;
        bytesToRead := writeBuf.BytesToRead();
      }
      if bytesToRead == 0 {
        PumpGoesOn(all, done, writeBuf.Contents(), answers, next);
      }
    }

    /** What a failure changes: the state, and the interest that the state had. */
    predicate FlagsAfter(failed: bool, oldState: ConnectionState, oldReading: bool, oldWriting: bool)
      reads this
    {
      && state == (if failed then Disconnected else oldState)
      && reading == (oldReading && !(failed && oldState == Connected))
      && writing == (oldWriting && !(failed && oldState == Connecting))
    }

    /** A failed write closes the connection unless it is closed already. */
    method CloseAfterFailure()
      requires Valid()
      modifies this`state, this`closeCalls, this`reading, this`writing
      ensures Valid() && FlagsAfter(true, old(state), old(reading), old(writing))
    {
      if state != Disconnected {
        ActiveClose();
      }
    }

    /** The first pending bytes, as many as the kernel takes, are now the peer's. */
    method HandOver(answers: seq<Answer>, next: nat, ghost all: Pumped, ghost before: string, ghost done: string)
      returns (ghost done': string)
      requires Valid() && writeBuf.Contents() != [] && sent == before + done
      requires Positive(answers) && next < |answers| && answers[next].Takes?
      requires Continues(all, done, PumpFrom(writeBuf.Contents(), answers, next))
      modifies this`sent, writeBuf`readIndex, writeBuf`writeIndex
      ensures Valid() && sent == before + done' && |writeBuf.Contents()| < old(|writeBuf.Contents()|)
      ensures Continues(all, done', PumpFrom(writeBuf.Contents(), answers, next + 1))
    {
      hide Pump, PumpFrom, Positive, Continues, Max;
      ghost var pending := writeBuf.Contents();
      PumpGoesOn(all, done, pending, answers, next);
      PositiveAt(answers, next);
      var bytesToRead := writeBuf.BytesToRead();
      var taken := if answers[next].n < bytesToRead then answers[next].n else bytesToRead;
      Regroup(sent, pending, taken);
      writeBuf.ConsumeBytes(taken);
      sent := sent + pending[..taken];
      done' := done + pending[..taken];
    }

    method SendFile(answers: seq<Answer>)
      requires Valid() && Positive(answers)
      modifies this`state, this`closeCalls, this`reading, this`writing, this`zeroCopyWrited
      ensures Valid()
      ensures var f := SendAll(old(FileLeft()), answers);
              FileLeft() == f.left && FlagsAfter(f.failed, old(state), old(reading), old(writing))
    {
      hide SendAll, SendFrom, Positive;
      var next := 0;
      SendOne(FileLeft(), answers, 0);
      while zeroCopyFd != -1 && zeroCopyWrited != zeroCopyLen
        invariant 0 <= next <= |answers| && Valid() && state == old(state) && reading == old(reading) && writing == old(writing)
        invariant SendFrom(FileLeft(), answers, next) == SendAll(old(FileLeft()), answers)
        decreases zeroCopyLen - zeroCopyWrited
      {
        SendOne(FileLeft(), answers, next);
        if next == |answers| {
          break;
        }
        var answer := answers[next];
        assert answer.Takes? ==> answer.n > 0 by { PositiveAt(answers, next); }
        next := next + 1;
        if answer == WouldBlock {
          break;
        }
        if answer == Fails {
          CloseAfterFailure();
          break;
        }
        var bytesLeft := zeroCopyLen - zeroCopyWrited;
        zeroCopyWrited := zeroCopyWrited + if answer.n < bytesLeft then answer.n else bytesLeft;
      }
      if FileLeft() == 0 {
        SendOne(0, answers, next);
      }
    }

    /** The last call in the life of a connection. */
    method Destroy()
      requires Valid() && state == Disconnected
      modifies this`reading, this`writing
      ensures Valid() && !reading && !writing
    {
      reading, writing := false, false;
    }
  }

  /** A kernel that takes something whenever it is asked, and does not fail. */
  predicate KeepsTaking(answers: seq<Answer>) {
    answers != [] && answers[0].Takes? && Positive(answers) && forall i :: 0 <= i < |answers| ==> answers[i] != Fails
  }

  lemma {:induction false} NothingFails(pending: string, answers: seq<Answer>)
    requires Positive(answers) && forall i :: 0 <= i < |answers| ==> answers[i] != Fails
    ensures !Pump(pending, answers).failed && |Pump(pending, answers).rest| <= |pending|
    decreases |answers|
  {
    if pending != [] && answers != [] && answers[0].Takes? {
      var n := answers[0].n;
      NothingFails(pending[if n < |pending| then n else |pending|..], answers[1..]);
    }
  }

  lemma TakingProgresses(pending: string, answers: seq<Answer>)
    requires KeepsTaking(answers)
    ensures !Pump(pending, answers).failed && |Pump(pending, answers).rest| <= if pending == [] then 0 else |pending| - 1
  {
    if pending != [] {
      var n := answers[0].n;
      NothingFails(pending[if n < |pending| then n else |pending|..], answers[1..]);
    }
  }

  /** One write, and then the poller, which calls whenever writability is waited for: if the
      kernel keeps taking bytes, everything is sent, the done callback runs once, and then
      the poller is left alone. */
  method Deliver(conn: TcpConnection, bytes: string, rounds: seq<seq<Answer>>)
    requires conn.Valid() && conn.state == Connected && conn.zeroCopyFd == -1
    requires forall i :: 0 <= i < |rounds| ==> KeepsTaking(rounds[i])
    requires |rounds| > |conn.writeBuf.Contents()| + |bytes|
    modifies conn, conn.writeBuf, conn.writeBuf.data
    ensures conn.Valid() && conn.state == Connected && !conn.writing && conn.reading == old(conn.reading)
    ensures conn.sent == conn.written == old(conn.written) + bytes
    ensures conn.doneCalls == old(conn.doneCalls) + 1
  {
    hide Pump, SendAll, KeepsTaking;
    conn.Write(bytes);
    var i := 0;
    while i < |rounds|
      invariant 0 <= i <= |rounds| && conn.Valid() && conn.state == Connected && conn.zeroCopyFd == -1
      invariant conn.writeBuf.data == old(conn.writeBuf.data) || fresh(conn.writeBuf.data)
      invariant conn.written == old(conn.written) + bytes && conn.reading == old(conn.reading)
      invariant if conn.writing then |conn.writeBuf.Contents()| < |rounds| - i && conn.doneCalls == old(conn.doneCalls)
                else conn.sent == conn.written && conn.doneCalls == old(conn.doneCalls) + 1
    {
      if conn.writing {
        TakingProgresses(conn.writeBuf.Contents(), rounds[i]);
        NoFileNoAnswers();
        assert Positive(rounds[i]) by { PositiveIfTaking(rounds[i]); }
        conn.WriteToPeer(rounds[i], []);
      }
      i := i + 1;
    }
  }

  lemma PositiveIfTaking(answers: seq<Answer>)
    requires KeepsTaking(answers)
    ensures Positive(answers)
  {
  }

  lemma NoFileNoAnswers()
    ensures SendAll(0, []) == FileSent(0, false)
  {
  }
}
