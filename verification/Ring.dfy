/** The circular receive buffer of the simulated radio, refining a bounded queue. */
module Ring {
  import opened Bytes

  /** The queued elements of a circular buffer, oldest first. */
  function Live<T>(buffer: seq<T>, head: nat, tail: nat): seq<T>
    requires head < |buffer| && tail < |buffer|
  {
    if head >= tail then buffer[tail..head] else buffer[tail..] + buffer[..head]
  }

  /** The code's next index. */
  function Next(i: nat, size: nat): nat
    requires i < size
  {
    (i + 1) % size
  }

  lemma NextIs(i: nat, size: nat)
    requires i < size
    ensures Next(i, size) == if i + 1 < size then i + 1 else 0
  {
  }

  /** The code's element count, from the two indices alone. */
  function Count(head: nat, tail: nat, size: nat): nat
    requires head < size && tail < size
  {
    if head >= tail then head - tail else size - tail + head
  }

  lemma CountIsLength<T>(buffer: seq<T>, head: nat, tail: nat)
    requires head < |buffer| && tail < |buffer|
    ensures |Live(buffer, head, tail)| == Count(head, tail, |buffer|) < |buffer|
  {
  }

  lemma Push<T>(buffer: seq<T>, head: nat, tail: nat, x: T)
    requires head < |buffer| && tail < |buffer|
    requires Count(head, tail, |buffer|) + 1 < |buffer|
    ensures Live(buffer[head := x], Next(head, |buffer|), tail) == Live(buffer, head, tail) + [x]
  {
    NextIs(head, |buffer|);
    var b := buffer[head := x];
    if head >= tail && head + 1 == |buffer| {
      assert b[tail..] == buffer[tail..head] + [x];
      assert b[..0] == [];
    }
  }

  lemma Pop<T>(buffer: seq<T>, head: nat, tail: nat)
    requires head < |buffer| && tail < |buffer| && head != tail
    ensures Live(buffer, head, tail) == [buffer[tail]] + Live(buffer, head, Next(tail, |buffer|))
  {
    NextIs(tail, |buffer|);
  }

  function Overwritten<T>(d: seq<T>, at: nat, with: seq<T>): seq<T>
    requires at + |with| <= |d|
  {
    d[..at] + with + d[at + |with|..]
  }

  lemma OverwriteOne<T>(d: seq<T>, at: nat, q: seq<T>, i: nat)
    requires i < |q| && at + i < |d|
    ensures Overwritten(d, at, q[..i])[at + i := q[i]] == Overwritten(d, at, q[..i + 1])
  {
  }

  class RxRing {
    const buffer: array<byte>
    var head: nat
    var tail: nat

    ghost predicate Valid()
      reads this
    {
      0 < buffer.Length < 0x1_0000_0000 && head < buffer.Length && tail < buffer.Length
    }

    ghost function Contents(): seq<byte>
      requires Valid()
      reads this, buffer
    {
      Live(buffer[..], head, tail)
    }

    constructor (size: nat)
      requires 0 < size < 0x1_0000_0000
      ensures Valid() && fresh(buffer) && buffer.Length == size && Contents() == []
    {
      buffer := new byte[size](_ => 0);
      head, tail := 0, 0;
    }

    function GetCount(): (n: nat)
      requires Valid()
      reads this, buffer
      ensures n == |Contents()| < buffer.Length
    {
      CountIsLength(buffer[..], head, tail);
      Count(head, tail, buffer.Length)
    }

    method WriteOne(x: byte)
      requires Valid() && |Contents()| + 1 < buffer.Length
      modifies this`head, buffer
      ensures Valid()
      ensures Contents() == old(Contents()) + [x]
    {
      CountIsLength(buffer[..], head, tail);
      Push(buffer[..], head, tail, x);
      buffer[head] := x;
      head := (head + 1) % buffer.Length;
    }

    /** Appends the longest prefix of `data` that fits; one slot always stays free. */
    method Write(data: seq<byte>) returns (written: nat)
      requires Valid()
      modifies this, buffer
      ensures Valid()
      ensures written == Min(|data|, buffer.Length - 1 - |old(Contents())|)
      ensures Contents() == old(Contents()) + data[..written]
    {
      var availableSpace := buffer.Length - GetCount() - 1;
      var length := |data|;
      if length > availableSpace {
        length := availableSpace;
      }
      for i := 0 to length
        invariant Valid()
        invariant Contents() == old(Contents()) + data[..i]
      {
        WriteOne(data[i]);
        assert data[..i + 1] == data[..i] + [data[i]];
      }
      return length;
    }

    method ReadOne(data: array<byte>, at: nat)
      requires Valid() && data != buffer && head != tail && at < data.Length
      modifies this`tail, data
      ensures Valid() && |old(Contents())| > 0
      ensures Contents() == old(Contents())[1..]
      ensures data[..] == old(data[..])[at := old(Contents())[0]]
    {
      Pop(buffer[..], head, tail);
      data[at] := buffer[tail];
      tail := (tail + 1) % buffer.Length;
    }

    /** Moves the first `min(max, count)` queued bytes to `data[at..]`. */
    method Read(data: array<byte>, at: nat, max: nat) returns (count: nat)
      requires Valid() && data != buffer
      requires at + max <= data.Length
      modifies this`tail, data
      ensures Valid()
      ensures count == Min(max, |old(Contents())|)
      ensures Contents() == old(Contents())[count..]
      ensures data[..] == Overwritten(old(data[..]), at, old(Contents())[..count])
    {
      var available := GetCount();
      var toRead := if max < available then max else available;
      ghost var queue, d := Contents(), data[..];
      for i := 0 to toRead
        invariant Valid() && |queue| == available
        invariant Contents() == queue[i..]
        invariant data[..] == Overwritten(d, at, queue[..i])
      {
        CountIsLength(buffer[..], head, tail);
        ReadOne(data, at + i);
        OverwriteOne(d, at, queue, i);
      }
      return toRead;
    }

    method Flush()
      requires Valid()
      modifies this
      ensures Valid() && Contents() == []
    {
      head, tail := 0, 0;
    }
  }
}
