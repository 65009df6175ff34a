/** A queue of messages in a fixed piece of memory.  Offsets may stand at either name of the
    first cell, 0 or the capacity; `queue` holds the messages accepted and not yet returned. */
module RingBuffers {
  import opened Options
  import opened ByteRing

  class RingBuffer {
    const data: array<byte>
    var frontOffset: nat
    var backOffset: nat
    var elementSize: nat
    ghost var queue: seq<Message>

    ghost predicate Bounds()
      reads this
    {
      data.Length > 0 && frontOffset <= data.Length && backOffset <= data.Length
    }

    /** The bytes between the offsets are the frames of the queue. */
    ghost predicate Valid()
      reads this, data
    {
      Bounds() && (backOffset == 0 ==> frontOffset == 0)
      && Window(data[..], frontOffset, Used(data.Length, frontOffset, backOffset)) == EncodeAll(queue)
      && (forall i :: 0 <= i < |queue| ==> 0 < |queue[i]| < INT_RANGE)
      && elementSize == |queue|
    }

    constructor (capacity: nat)
      requires capacity > 0
      ensures Valid() && queue == [] && fresh(data) && data.Length == capacity
      ensures frontOffset == backOffset == 0
    {
      data := new byte[capacity](_ => 0);
      frontOffset, backOffset, elementSize := 0, 0, 0;
      queue := [];
    }

    function SpaceLeft(): (n: int)
      requires Bounds()
      reads this
      ensures n == data.Length - Used(data.Length, frontOffset, backOffset) - 1
    {
      if backOffset >= frontOffset then data.Length - backOffset + frontOffset - 1
      else frontOffset - backOffset - 1
    }

    predicate Empty()
      reads this
    {
      frontOffset == backOffset
    }

    /** Nothing else is needed to tell the empty queue. */
    lemma EmptyMeansNoMessage()
      requires Valid()
      ensures Empty() <==> queue == []
      ensures queue != [] ==> Used(data.Length, frontOffset, backOffset) >= HEADER + |queue[0]|
    {
      if queue != [] {
        assert EncodeAll(queue) == Encode(queue[0]) + EncodeAll(queue[1..]);
      }
    }

    /** The bytes in use are the frames of the queued messages and nothing else. */
    lemma SpaceIsAccounted()
      requires Valid()
      ensures |EncodeAll(queue)| == data.Length - 1 - SpaceLeft()
    {
    }

    /** The length check leaves out the header.  What it accepts is copied inside the memory
        unless the ring is empty and the frame would wrap twice; such a call is followed up to
        the copy that leaves the memory.  What is copied is queued, and all queued messages
        stay readable, exactly when the frame fits. */
    method Push(buf: Message) returns (ok: bool, safe: bool)
      requires Valid() && 0 < |buf| < INT_RANGE
      modifies this, data
      ensures ok <==> |buf| <= old(SpaceLeft())
      ensures safe <==> !(ok && old(Empty()) && old(backOffset) + HEADER + |buf| > 2 * data.Length)
      ensures Valid() <==> !ok || !safe || FrameFits(data.Length, old(frontOffset), old(backOffset), |buf|)
      ensures queue == if ok && safe then old(queue) + [buf] else old(queue)
      ensures elementSize == |queue| && frontOffset == old(frontOffset)
      ensures backOffset == if ok && safe then NextPos(data.Length, old(backOffset), |buf|) else old(backOffset)
      ensures ok && HEADER + |buf| <= data.Length ==> data[..] == Written(old(data[..]), old(backOffset), Encode(buf))
      ensures !ok ==> data[..] == old(data[..])
    {
      hide Window, Written, Encode, EncodeAll;
      if |buf| > SpaceLeft() {
        return false, true;
      }
      CopiesStayInside(|buf|);
      if HEADER + |buf| <= data.Length {
        FramesAppendExactly(data[..], frontOffset, backOffset, queue, buf);
      }
      safe := Write(buf);
      if !safe {
        NothingIsInUse(data[..], frontOffset);
        return true, false;
      }
      elementSize := 1 + elementSize;
      if HEADER + |buf| > data.Length {
        LongFramesAreLost(data[..], frontOffset, backOffset, queue, buf);
      }
      queue := queue + [buf];
      return true, true;
    }

    /** A message that passes the length check is copied past the end of the memory exactly
        when the ring is empty and the frame reaches further than twice the memory. */
    lemma CopiesStayInside(len: nat)
      requires Valid() && 0 < len <= SpaceLeft()
      ensures CopyEnd(data.Length, backOffset, len) > data.Length <==> Empty() && backOffset + HEADER + len > 2 * data.Length
      ensures backOffset + HEADER + len > 2 * data.Length ==> Empty() && queue == []
    {
      EmptyMeansNoMessage();
    }

    method CopyIn(at: nat, bytes: seq<byte>)
      requires at + |bytes| <= data.Length
      modifies data
      ensures data[..] == CopiedIn(old(data[..]), at, bytes)
    {
      for i := 0 to |bytes|
        invariant forall k :: 0 <= k < data.Length ==> data[k] == if at <= k < at + i then bytes[k - at] else old(data[k])
      {
        data[at + i] := bytes[i];
      }
    }

    /** Writes header and body, each around the end if it has to, whichever of them crosses;
        stops before a copy that would leave the memory. */
    method Write(buf: Message) returns (safe: bool)
      requires Bounds() && |buf| > 0
      modifies data, this`backOffset
      ensures safe <==> CopyEnd(data.Length, old(backOffset), |buf|) <= data.Length
      ensures HEADER + |buf| <= data.Length ==> safe && data[..] == Written(old(data[..]), old(backOffset), Encode(buf))
      ensures backOffset == if safe then NextPos(data.Length, old(backOffset), |buf|) else old(backOffset)
    {
      hide Le32, Encode, Written, CopiedIn;
      var back, end := backOffset, data.Length;
      var header := Le32(|buf|);
      ghost var mem := data[..];
      if back + |buf| + HEADER <= end {
        CopyStraight(mem, back, buf);
        CopyIn(back, header);
        back := back + HEADER;
        CopyIn(back, buf);
        back := back + |buf|;
      } else if back + HEADER <= end {
        if HEADER + |buf| <= end {
          CopyBodyAround(mem, back, buf, end - back - HEADER);
        }
        CopyIn(back, header);
        back := back + HEADER;
        var first := end - back;
        CopyIn(back, buf[..first]);
        if |buf| - first > end {
          return false;
        }
        CopyIn(0, buf[first..]);
        back := |buf| - first;
      } else {
        var first := end - back;
        if HEADER + |buf| <= end {
          CopyHeaderAround(mem, back, buf, first);
        }
        CopyIn(back, header[..first]);
        if HEADER - first > end {
          return false;
        }
        CopyIn(0, header[first..]);
        back := HEADER - first;
        if back + |buf| > end {
          return false;
        }
        CopyIn(back, buf);
        back := back + |buf|;
      }
      backOffset := back;
      return true;
    }

    function NextBufferLength(): nat
      requires Bounds() && HEADER <= data.Length
      reads this, data
    {
      if frontOffset + HEADER <= data.Length then FromLe32(data[frontOffset..frontOffset + HEADER])
      else
        var offset := data.Length - frontOffset;
        FromLe32(data[frontOffset..] + data[..HEADER - offset])
    }

    /** Copies the message at the front out and moves the front offset. */
    method Read(ghost m: Message) returns (buf: Message)
      requires Bounds() && 0 < |m| <= MAX_BODY && HEADER + |m| <= data.Length
      requires Window(data[..], frontOffset, HEADER + |m|) == Encode(m)
      modifies this`frontOffset
      ensures buf == m
      ensures frontOffset == if old(frontOffset) + HEADER <= data.Length then NextPos(data.Length, old(frontOffset), |m|)
                             else old(frontOffset) + HEADER - data.Length
    {
      hide Window, Le32, FromLe32, Encode;
      ghost var mem := data[..];
      FrameParts(mem, frontOffset, m);
      WindowIsSlices(mem, frontOffset, HEADER);
      LengthRoundTrip(|m|);
      var length := NextBufferLength();
      assert length == |m|;
      assert 0 < length <= MAX_BODY;
      var end, content := data.Length, frontOffset + HEADER;
      WindowIsSlices(mem, Cell(end, frontOffset, HEADER), length);
      if content > end {
        var offset := content - end;
        buf := data[offset..offset + length];
        frontOffset := offset;
      } else if content + length > end {
        var tail := end - content;
        buf := data[content..] + data[..length - tail];
        frontOffset := length - tail;
      } else {
        buf := data[content..content + length];
        frontOffset := content + length;
      }
    }

    /** Takes out the oldest message; none if the ring looks empty.  The message is right
        wherever its header lies.  The front offset passes the whole message, and the rest
        of the queue stays intact, exactly when the header does not cross the end. */
    method Pop() returns (msg: Option<Message>)
      requires Bounds() && (Empty() || (Valid() && (queue != [] ==> |queue[0]| <= MAX_BODY)))
      modifies this
      ensures msg == None <==> old(Empty())
      ensures old(Empty()) ==> queue == old(queue) && frontOffset == old(frontOffset) && elementSize == old(elementSize)
      ensures old(Valid()) ==> (msg == None <==> old(queue) == [])
      ensures msg != None ==>
                && old(queue) != [] && msg == Some(old(queue)[0]) && queue == old(queue)[1..] && elementSize == |queue|
                && (Valid() <==> old(frontOffset) + HEADER <= data.Length)
                && frontOffset == if old(frontOffset) + HEADER <= data.Length then NextPos(data.Length, old(frontOffset), |msg.value|)
                                  else old(frontOffset) + HEADER - data.Length
      ensures backOffset == old(backOffset)
    {
      hide Window, Encode, Le32;
      if Empty() {
        if Valid() {
          EmptyMeansNoMessage();
        }
        return None;
      }
      EmptyMeansNoMessage();
      DropFrame(data[..], frontOffset, backOffset, queue);
      var buf := Read(queue[0]);
      elementSize := elementSize - 1;
      queue := queue[1..];
      return Some(buf);
    }
  }

  /** A ring that accepts a message and then looks empty. */
  method LoseAMessage() returns (ring: RingBuffer, accepted: bool, popped: Option<Message>)
    ensures accepted && |ring.queue| == 1 == ring.elementSize && popped == None
  {
    var safe;
    ring := new RingBuffer(12);
    var _, _ := ring.Push([1]);
    var _ := ring.Pop();
    accepted, safe := ring.Push([1, 2, 3, 4, 5, 6, 7, 8]);
    popped := ring.Pop();
  }

  /** A ring that accepts a message and copies it past its end. */
  method CopyPastTheEnd() returns (ring: RingBuffer, popped: Option<Message>, accepted: bool, safe: bool)
    ensures popped == Some([1, 2, 3, 4, 5, 6, 7, 8]) && accepted && !safe
  {
    ring := new RingBuffer(12);
    var _, _ := ring.Push([1, 2, 3, 4, 5, 6, 7, 8]);
    popped := ring.Pop();
    accepted, safe := ring.Push([1, 2, 3, 4, 5, 6, 7, 8, 9]);
  }

  /** A ring that returns its only message and is then not empty: the header of the message
      crossed the end, and the front offset stopped inside the message. */
  method StopInsideAMessage() returns (ring: RingBuffer, popped: Option<Message>)
    ensures popped == Some([3]) && ring.queue == [] && ring.elementSize == 0
    ensures !ring.Empty() && !ring.Valid()
  {
    ring := new RingBuffer(12);
    var _, _ := ring.Push([1]);
    var _ := ring.Pop();
    var _, _ := ring.Push([2]);
    var _ := ring.Pop();
    var _, _ := ring.Push([3]);
    popped := ring.Pop();
  }
}
