/** Length-framed messages and circular memory, as values. */
module ByteRing {
  type byte = x: int | 0 <= x < 256
  type Message = seq<byte>

  const HEADER: nat := 4
  const MAX_BODY: nat := 0x1_0000
  const INT_RANGE: nat := 0x8000_0000

  // ---- frames ----

  /** The four bytes of a non-negative int, least significant first. */
  function Le32(n: nat): (s: seq<byte>)
    ensures |s| == HEADER
  {
    [n % 0x100, n / 0x100 % 0x100, n / 0x1_0000 % 0x100, n / 0x100_0000 % 0x100]
  }

  function FromLe32(s: seq<byte>): nat
    requires |s| == HEADER
  {
    s[0] as int + 0x100 * s[1] as int + 0x1_0000 * s[2] as int + 0x100_0000 * s[3] as int
  }

  lemma LengthRoundTrip(n: nat)
    requires n < INT_RANGE
    ensures FromLe32(Le32(n)) == n
  {
    var a := n / 0x100;
    var b := a / 0x100;
    var c := b / 0x100;
    assert n / 0x1_0000 == b && n / 0x100_0000 == c;
    assert n == 0x100 * a + n % 0x100 && a == 0x100 * b + a % 0x100 && b == 0x100 * c + b % 0x100;
  }

  function Encode(m: Message): (s: seq<byte>)
    ensures |s| == HEADER + |m|
  {
    Le32(|m|) + m
  }

  function EncodeAll(q: seq<Message>): seq<byte> {
    if q == [] then [] else Encode(q[0]) + EncodeAll(q[1..])
  }

  lemma {:induction false} EncodeAllAppend(q: seq<Message>, m: Message)
    ensures EncodeAll(q + [m]) == EncodeAll(q) + Encode(m)
  {
    if q == [] {
      assert [m][1..] == [] && q + [m] == [m];
      assert EncodeAll([m]) == Encode(m) + EncodeAll([]);
    } else {
      EncodeAllAppend(q[1..], m);
      assert (q + [m])[1..] == q[1..] + [m];
    }
  }

  // ---- circular memory ----

  /** The cell `k` places after offset `from`.  Offsets run from 0 to the capacity inclusive;
      the last one names the first cell again. */
  function Cell(capacity: nat, from: nat, k: nat): nat
    requires from <= capacity && k < capacity
  {
    if from + k < capacity then from + k else from + k - capacity
  }

  function Window(mem: seq<byte>, from: nat, n: nat): (s: seq<byte>)
    requires from <= |mem| && n <= |mem|
    ensures |s| == n
  {
    seq(n, k requires 0 <= k < n => mem[Cell(|mem|, from, k)])
  }

  /** How many cells lie from `front` to `back`. */
  function Used(capacity: nat, front: nat, back: nat): nat
    requires front <= capacity && back <= capacity
  {
    if back >= front then back - front else capacity - (front - back)
  }

  /** Where the message after one of `len` bytes at `pos` starts. */
  function NextPos(capacity: nat, pos: nat, len: nat): nat
    requires pos <= capacity && pos + HEADER + len <= 2 * capacity
  {
    if pos + HEADER + len <= capacity then pos + HEADER + len else pos + HEADER + len - capacity
  }

  /** `mem` with `bytes` written from offset `at` on, around the end. */
  function Written(mem: seq<byte>, at: nat, bytes: seq<byte>): (r: seq<byte>)
    requires at <= |mem| && |bytes| <= |mem|
    ensures |r| == |mem|
  {
    seq(|mem|, x requires 0 <= x < |mem| =>
      var k := if at == |mem| then x else if x >= at then x - at else x + |mem| - at;
      if k < |bytes| then bytes[k] else mem[x])
  }

  /** Appending behind the used cells keeps them and adds the bytes. */
  lemma AppendToWindow(mem: seq<byte>, front: nat, back: nat, bytes: seq<byte>)
    requires front <= |mem| && back <= |mem|
    requires Used(|mem|, front, back) + |bytes| <= |mem|
    requires back == 0 ==> front == 0
    ensures Window(Written(mem, back, bytes), front, Used(|mem|, front, back) + |bytes|)
            == Window(mem, front, Used(|mem|, front, back)) + bytes
  {
  }

  /** Behind the used cells the window of a frame goes on. */
  lemma WindowGoesOn(mem: seq<byte>, front: nat, back: nat, n: nat)
    requires front <= |mem| && back <= |mem| && (back == 0 ==> front == 0)
    requires Used(|mem|, front, back) + n < |mem|
    ensures Window(mem, front, Used(|mem|, front, back) + n) == Window(mem, front, Used(|mem|, front, back)) + Window(mem, back, n)
  {
  }

  /** A window splits where it is cut. */
  lemma WindowSplits(mem: seq<byte>, from: nat, n: nat, k: nat)
    requires from <= |mem| && k <= n <= |mem| && k < |mem|
    ensures Window(mem, from, n) == Window(mem, from, k) + Window(mem, Cell(|mem|, from, k), n - k)
  {
  }

  /** Both offsets of the first cell show the same window. */
  lemma WindowAtEnd(mem: seq<byte>, n: nat)
    requires n <= |mem|
    ensures Window(mem, |mem|, n) == Window(mem, 0, n)
  {
  }

  /** A window that does not reach the end is a slice; one that does is two. */
  lemma WindowIsSlices(mem: seq<byte>, from: nat, n: nat)
    requires from <= |mem| && n <= |mem|
    ensures from + n <= |mem| ==> Window(mem, from, n) == mem[from..from + n]
    ensures from + n > |mem| ==> Window(mem, from, n) == mem[from..] + mem[..from + n - |mem|]
  {
  }

  /** A linear copy into memory. */
  function CopiedIn(mem: seq<byte>, at: nat, bytes: seq<byte>): (r: seq<byte>)
    requires at + |bytes| <= |mem|
    ensures |r| == |mem|
  {
    mem[..at] + bytes + mem[at + |bytes|..]
  }

  lemma CopyStraight(mem: seq<byte>, at: nat, buf: Message)
    requires at + HEADER + |buf| <= |mem|
    ensures CopiedIn(CopiedIn(mem, at, Le32(|buf|)), at + HEADER, buf) == Written(mem, at, Encode(buf))
  {
  }

  lemma CopiedInAt(mem: seq<byte>, at: nat, bytes: seq<byte>, x: nat)
    requires at + |bytes| <= |mem| && x < |mem|
    ensures CopiedIn(mem, at, bytes)[x] == if at <= x < at + |bytes| then bytes[x - at] else mem[x]
  {
  }

  lemma WrittenAt(mem: seq<byte>, at: nat, buf: Message, x: nat)
    requires at <= |mem| && HEADER + |buf| <= |mem| && x < |mem|
    ensures var k := if at == |mem| then x else if x >= at then x - at else x + |mem| - at;
            Written(mem, at, Encode(buf))[x] == if k < HEADER then Le32(|buf|)[k] else if k < HEADER + |buf| then buf[k - HEADER] else mem[x]
  {
    hide Le32;
  }

  lemma CopyBodyAround(mem: seq<byte>, at: nat, buf: Message, first: nat)
    requires HEADER + |buf| <= |mem| && at + HEADER <= |mem| < at + HEADER + |buf| && first == |mem| - at - HEADER
    ensures CopiedIn(CopiedIn(CopiedIn(mem, at, Le32(|buf|)), at + HEADER, buf[..first]), 0, buf[first..])
            == Written(mem, at, Encode(buf))
  {
    hide Le32, CopiedIn, Written, Encode;
    var a := CopiedIn(mem, at, Le32(|buf|));
    var b := CopiedIn(a, at + HEADER, buf[..first]);
    var c := CopiedIn(b, 0, buf[first..]);
    forall x | 0 <= x < |mem| ensures c[x] == Written(mem, at, Encode(buf))[x] {
      CopiedInAt(mem, at, Le32(|buf|), x);
      CopiedInAt(a, at + HEADER, buf[..first], x);
      CopiedInAt(b, 0, buf[first..], x);
      WrittenAt(mem, at, buf, x);
    }
  }

  lemma CopyHeaderAround(mem: seq<byte>, at: nat, buf: Message, first: nat)
    requires HEADER + |buf| <= |mem| && at <= |mem| < at + HEADER && first == |mem| - at
    ensures var h := Le32(|buf|);
            CopiedIn(CopiedIn(CopiedIn(mem, at, h[..first]), 0, h[first..]), HEADER - first, buf)
            == Written(mem, at, Encode(buf))
  {
    hide Le32, CopiedIn, Written, Encode;
    var h := Le32(|buf|);
    var a := CopiedIn(mem, at, h[..first]);
    var b := CopiedIn(a, 0, h[first..]);
    var c := CopiedIn(b, HEADER - first, buf);
    forall x | 0 <= x < |mem| ensures c[x] == Written(mem, at, Encode(buf))[x] {
      CopiedInAt(mem, at, h[..first], x);
      CopiedInAt(a, 0, h[first..], x);
      CopiedInAt(b, HEADER - first, buf, x);
      WrittenAt(mem, at, buf, x);
    }
  }

  /** A frame that starts at `front` shows its header and its body. */
  lemma FrameParts(mem: seq<byte>, front: nat, m: Message)
    requires front <= |mem| && HEADER < HEADER + |m| <= |mem|
    requires Window(mem, front, HEADER + |m|) == Encode(m)
    ensures Window(mem, front, HEADER) == Le32(|m|)
    ensures Window(mem, Cell(|mem|, front, HEADER), |m|) == m
  {
    hide Window, Le32;
    WindowSplits(mem, front, HEADER + |m|, HEADER);
    var a, b := Window(mem, front, HEADER), Window(mem, Cell(|mem|, front, HEADER), |m|);
    assert (a + b)[..HEADER] == a && (a + b)[HEADER..] == b;
    assert Encode(m)[..HEADER] == Le32(|m|) && Encode(m)[HEADER..] == m;
  }

  /** The oldest frame of a queue lies at the front, the others behind it. */
  lemma DropFrame(mem: seq<byte>, front: nat, back: nat, q: seq<Message>)
    requires front <= |mem| && back <= |mem| && (back == 0 ==> front == 0)
    requires q != [] && Window(mem, front, Used(|mem|, front, back)) == EncodeAll(q)
    ensures var len := HEADER + |q[0]|;
            len <= Used(|mem|, front, back)
            && Window(mem, front, len) == Encode(q[0])
            && var next := NextPos(|mem|, front, |q[0]|);
               Used(|mem|, next, back) == Used(|mem|, front, back) - len
               && Window(mem, next, Used(|mem|, next, back)) == EncodeAll(q[1..])
  {
    hide Window, Encode;
    var used, len := Used(|mem|, front, back), HEADER + |q[0]|;
    assert EncodeAll(q) == Encode(q[0]) + EncodeAll(q[1..]);
    assert EncodeAll(q)[..len] == Encode(q[0]) && EncodeAll(q)[len..] == EncodeAll(q[1..]);
    WindowAtEnd(mem, used - len);
    if len < |mem| {
      WindowSplits(mem, front, used, len);
      var a, b := Window(mem, front, len), Window(mem, Cell(|mem|, front, len), used - len);
      assert (a + b)[..len] == a && (a + b)[len..] == b;
    } else {
      assert EncodeAll(q) == EncodeAll(q)[..len];
    }
  }

  // ---- room for a frame ----

  /** A frame behind the used cells leaves one cell to spare, or ends with the memory of a
      ring whose front is at its start. */
  predicate FrameFits(capacity: nat, front: nat, back: nat, len: nat)
    requires front <= capacity && back <= capacity
  {
    var used := Used(capacity, front, back) + HEADER + len;
    used < capacity || (front == 0 && used == capacity)
  }

  /** How the offsets see a frame that was written: all of it if it fits, and otherwise less
      than there is. */
  lemma UsedAfterFrame(capacity: nat, front: nat, back: nat, len: nat)
    requires front <= capacity && back <= capacity && (back == 0 ==> front == 0)
    requires back + HEADER + len <= 2 * capacity
    ensures var used, next := Used(capacity, front, back) + HEADER + len, Used(capacity, front, NextPos(capacity, back, len));
            next <= used && (next == used <==> FrameFits(capacity, front, back, len))
  {
  }

  /** Writing a frame of any length behind a queue appends its message to the queue exactly
      when the frame fits. */
  lemma FramesAppendExactly(mem: seq<byte>, front: nat, back: nat, q: seq<Message>, m: Message)
    requires front <= |mem| && back <= |mem| && (back == 0 ==> front == 0) && HEADER + |m| <= |mem|
    requires Window(mem, front, Used(|mem|, front, back)) == EncodeAll(q)
    ensures Window(Written(mem, back, Encode(m)), front, Used(|mem|, front, NextPos(|mem|, back, |m|))) == EncodeAll(q + [m])
            <==> FrameFits(|mem|, front, back, |m|)
  {
    hide Window, Written, Encode;
    UsedAfterFrame(|mem|, front, back, |m|);
    EncodeAllAppend(q, m);
    if FrameFits(|mem|, front, back, |m|) {
      AppendToWindow(mem, front, back, Encode(m));
    }
  }

  /** Where the furthest of the copies of a frame ends.  If body or header is cut in two, one
      copy fills the memory to its end and the last one goes on from its start. */
  function CopyEnd(capacity: nat, back: nat, len: nat): nat
    requires back <= capacity
  {
    var end := back + HEADER + len;
    if end <= capacity then end else if end - capacity <= capacity then capacity else end - capacity
  }

  lemma NothingIsInUse(mem: seq<byte>, front: nat)
    requires front <= |mem|
    ensures Window(mem, front, 0) == EncodeAll([])
  {
  }

  /** A frame longer than the memory is in no ring at all, whatever was written. */
  lemma {:induction false} LongFramesAreLost(mem: seq<byte>, front: nat, back: nat, q: seq<Message>, m: Message)
    requires front <= |mem| && back <= |mem| && |mem| < HEADER + |m|
    ensures Window(mem, front, Used(|mem|, front, back)) != EncodeAll(q + [m])
  {
    EncodeAllAppend(q, m);
  }
}
