/** A byte queue in one growing block: bytes are written at the write index and read from the
    read index; when everything is read both go back to the start. */
module Buffers {
  const DEFAULT_RESERVED: nat := 0x1_0000

  function Max(a: nat, b: nat): (m: nat)
    ensures a <= m && b <= m
  {
    if a < b then b else a
  }

  class Buffer {
    var data: array<char>
    var readIndex: nat
    var writeIndex: nat
    ghost var reserved: nat  // size at construction
    ghost var peak: nat      // highest write index so far

    ghost predicate Valid()
      reads this, data
    {
      readIndex <= writeIndex <= data.Length && (readIndex == writeIndex ==> writeIndex == 0)
      && writeIndex <= peak && data.Length <= Max(reserved, 2 * peak) && reserved <= data.Length
    }

    /** The bytes written and not yet consumed. */
    function Contents(): string
      requires readIndex <= writeIndex <= data.Length
      reads this, data
    {
      data[readIndex..writeIndex]
    }

    constructor (reservedSize: nat := DEFAULT_RESERVED)
      ensures Valid() && Contents() == [] && fresh(data) && ByteSize() == reservedSize
      ensures reserved == reservedSize && peak == 0
    {
      data := new char[reservedSize](_ => '\0');
      readIndex, writeIndex := 0, 0;
      reserved, peak := reservedSize, 0;
    }

    function BytesCanWrite(): nat
      requires writeIndex <= data.Length
      reads this
    {
      data.Length - writeIndex
    }

    function BytesToRead(): (n: nat)
      requires readIndex <= writeIndex <= data.Length
      reads this, data
      ensures n == |Contents()|
    {
      writeIndex - readIndex
    }

    function ByteSize(): nat
      reads this
    {
      data.Length
    }

    /** Takes over `len` bytes that were stored behind the write index. */
    method AddBytes(len: nat)
      requires Valid() && len <= BytesCanWrite()
      modifies this`writeIndex, this`peak
      ensures Valid() && Contents() == old(Contents()) + old(data[writeIndex..writeIndex + len])
    {
      writeIndex := writeIndex + len;
      peak := Max(peak, writeIndex);
    }

    /** Stores bytes behind the write index and takes them over. */
    method Fill(bytes: string)
      requires Valid() && |bytes| <= BytesCanWrite()
      modifies this`writeIndex, this`peak, data
      ensures Valid() && Contents() == old(Contents()) + bytes
    {
      CopyBehind(bytes);
      AddBytes(|bytes|);
    }

    method ConsumeBytes(len: nat)
      requires Valid() && len <= BytesToRead()
      modifies this`readIndex, this`writeIndex
      ensures Valid() && Contents() == old(Contents())[len..]
      ensures if Contents() == [] then readIndex == writeIndex == 0
              else readIndex == old(readIndex) + len && writeIndex == old(writeIndex)
    {
      readIndex := readIndex + len;
      if readIndex == writeIndex {
        Clear();
      }
    }

    method Append(bytes: string)
      requires Valid()
      modifies this, data
      ensures Valid() && Contents() == old(Contents()) + bytes
      ensures data == old(data) || fresh(data)
      ensures reserved == old(reserved) && peak == Max(old(peak), old(writeIndex) + |bytes|)
      ensures writeIndex == old(writeIndex) + |bytes|
    {
      hide Max;
      ghost var before := Contents();
      EnsureSpace(|bytes|);
      assert Contents() == before;
      CopyBehind(bytes);
      assert data[readIndex..writeIndex + |bytes|] == before + bytes;
      writeIndex := writeIndex + |bytes|;
      peak := Max(peak, writeIndex);
    }

    method CopyBehind(bytes: string)
      requires readIndex <= writeIndex <= data.Length && |bytes| <= BytesCanWrite()
      modifies data
      ensures data[..writeIndex] == old(data[..writeIndex])
      ensures data[writeIndex..writeIndex + |bytes|] == bytes
      ensures data[readIndex..writeIndex + |bytes|] == old(Contents()) + bytes
    {
      for i := 0 to |bytes|
        modifies data
        invariant data[..writeIndex] == old(data[..writeIndex])
        invariant forall k :: 0 <= k < i ==> data[writeIndex + k] == bytes[k]
      {
        data[writeIndex + i] := bytes[i];
      }
      assert data[readIndex..writeIndex] == old(data[..writeIndex])[readIndex..];
      assert data[writeIndex..writeIndex + |bytes|] == bytes;
      assert data[readIndex..writeIndex + |bytes|] == data[readIndex..writeIndex] + data[writeIndex..writeIndex + |bytes|];
    }

    method Clear()
      modifies this`readIndex, this`writeIndex
      ensures readIndex == writeIndex == 0
    {
      readIndex, writeIndex := 0, 0;
    }

    method ReadAndClear() returns (tmp: string)
      requires Valid()
      modifies this`readIndex, this`writeIndex
      ensures Valid() && tmp == old(Contents()) && Contents() == []
    {
      tmp := data[readIndex..writeIndex];
      Clear();
    }

    /** Grows by twice what is missing. */
    method EnsureSpace(len: nat)
      requires Valid()
      modifies this`data
      ensures readIndex <= writeIndex <= data.Length && Contents() == old(Contents())
      ensures data == old(data) || fresh(data)
      ensures BytesCanWrite() >= len && reserved <= data.Length <= Max(reserved, 2 * Max(peak, writeIndex + len))
      ensures old(BytesCanWrite()) >= len ==> data == old(data)
      ensures old(BytesCanWrite()) < len ==> data.Length == old(data.Length) + 2 * (len - old(BytesCanWrite()))
    {
      var bytesLeft := BytesCanWrite();
      if bytesLeft < len {
        var spaceNeed := len - bytesLeft;
        var bigger := new char[data.Length + spaceNeed * 2](_ => '\0');
        for i := 0 to data.Length
          modifies bigger
          invariant forall k :: 0 <= k < i ==> bigger[k] == data[k]
        {
          bigger[i] := data[i];
        }
        assert bigger[readIndex..writeIndex] == data[readIndex..writeIndex];
        data := bigger;
      }
    }
  }

  // ---- over a run ----

  datatype Op = Put(bytes: string) | Take(n: nat)

  /** What operations leave in a queue: bytes put and not taken, in order. */
  function Left(pending: string, ops: seq<Op>): string
    requires Takes(pending, ops)
    decreases |ops|
  {
    if ops == [] then pending
    else match ops[0]
      case Put(bytes) => Left(pending + bytes, ops[1..])
      case Take(n) => Left(pending[n..], ops[1..])
  }

  /** Nothing is taken that is not there. */
  predicate Takes(pending: string, ops: seq<Op>)
    decreases |ops|
  {
    ops == [] || match ops[0]
      case Put(bytes) => Takes(pending + bytes, ops[1..])
      case Take(n) => n <= |pending| && Takes(pending[n..], ops[1..])
  }

  /** The largest number of bytes put into the queue between two moments at which it is
      empty; `burst` have been put since it was last. */
  function LargestBurst(pending: nat, burst: nat, ops: seq<Op>): nat
    decreases |ops|
  {
    if ops == [] then burst
    else match ops[0]
      case Put(bytes) => LargestBurst(pending + |bytes|, burst + |bytes|, ops[1..])
      case Take(n) =>
        if n < pending then LargestBurst(pending - n, burst, ops[1..]) else Max(burst, LargestBurst(0, 0, ops[1..]))
  }

  lemma {:induction false} BurstGrows(pending: nat, burst: nat, ops: seq<Op>)
    ensures burst <= LargestBurst(pending, burst, ops)
    decreases |ops|
  {
    if ops != [] {
      match ops[0]
      case Put(bytes) => BurstGrows(pending + |bytes|, burst + |bytes|, ops[1..]);
      case Take(n) =>
        if n < pending {
          BurstGrows(pending - n, burst, ops[1..]);
        }
    }
  }

  /** Over every run the block stays within its reserved size or twice the largest burst,
      however many bytes pass through it. */
  method Run(buf: Buffer, ops: seq<Op>)
    requires buf.Valid() && buf.Contents() == [] && buf.peak == 0 && Takes([], ops)
    modifies buf, buf.data
    ensures buf.Valid() && buf.Contents() == Left([], ops)
    ensures buf.ByteSize() <= Max(old(buf.reserved), 2 * LargestBurst(0, 0, ops))
  {
    hide Left, LargestBurst, Takes;
    ghost var largest := LargestBurst(0, 0, ops);
    var i := 0;
    assert ops[0..] == ops;
    while i < |ops|
      invariant 0 <= i <= |ops| && buf.Valid() && (buf.data == old(buf.data) || fresh(buf.data))
      invariant buf.reserved == old(buf.reserved) && buf.peak <= largest
      invariant Takes(buf.Contents(), ops[i..]) && Left(buf.Contents(), ops[i..]) == Left([], ops)
      invariant LargestBurst(|buf.Contents()|, buf.writeIndex, ops[i..]) <= largest
    {
      OneOp(buf.Contents(), buf.writeIndex, ops, i);
      match ops[i] {
        case Put(bytes) => buf.Append(bytes);
        case Take(n) => buf.ConsumeBytes(n);
      }
      BurstGrows(|buf.Contents()|, buf.writeIndex, ops[i + 1..]);
      i := i + 1;
    }
    NoOp(buf.Contents(), ops);
  }

  lemma OneOp(pending: string, burst: nat, ops: seq<Op>, i: nat)
    requires i < |ops| && Takes(pending, ops[i..])
    ensures match ops[i] {
              case Put(bytes) =>
                Takes(pending + bytes, ops[i + 1..]) && Left(pending, ops[i..]) == Left(pending + bytes, ops[i + 1..])
                && LargestBurst(|pending|, burst, ops[i..]) == LargestBurst(|pending + bytes|, burst + |bytes|, ops[i + 1..])
              case Take(n) =>
                n <= |pending| && Takes(pending[n..], ops[i + 1..]) && Left(pending, ops[i..]) == Left(pending[n..], ops[i + 1..])
                && LargestBurst(|pending|, burst, ops[i..]) >= LargestBurst(|pending[n..]|, if pending[n..] == [] then 0 else burst, ops[i + 1..])
            }
  {
    assert ops[i..][0] == ops[i] && ops[i..][1..] == ops[i + 1..];
  }

  lemma NoOp(pending: string, ops: seq<Op>)
    ensures Takes(pending, ops[|ops|..]) && Left(pending, ops[|ops|..]) == pending
  {
  }
}
