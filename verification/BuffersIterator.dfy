/**
 * asio's random-access iterator over the bytes of a sequence of buffers, some of which may
 * be empty. It stands for an index into the bytes of all the buffers laid end to end.
 */
module BuffersIterator {
  import opened Bytes
  import opened FlatBuffers

  /** The buffer that holds byte p and where p is in it; past the last byte, the end. */
  function Locate(bufs: Buffers, p: nat): (r: (nat, nat))
    requires p <= |Flat(bufs)|
  {
    if bufs == [] then (0, 0)
    else if p < |bufs[0]| then (0, p)
    else
      var (i, o) := Locate(bufs[1..], p - |bufs[0]|);
      (i + 1, o)
  }

  /** Position o of buffer i is byte p, or p is the end. */
  ghost predicate At(bufs: Buffers, p: int, i: nat, o: nat) {
    && i <= |bufs|
    && p == Offset(bufs, i) + o
    && (i < |bufs| ==> o < |bufs[i]|)
    && (i == |bufs| ==> o == 0)
  }

  /** A position names one place and a place one position: the iterator is an index. */
  lemma {:induction false} AtIsLocate(bufs: Buffers, p: int, i: nat, o: nat)
    ensures At(bufs, p, i, o) <==> 0 <= p <= |Flat(bufs)| && Locate(bufs, p) == (i, o)
  {
    if bufs != [] {
      var tail := bufs[1..];
      if i > 0 {
        AtIsLocate(tail, p - |bufs[0]|, i - 1, o);
        assert i <= |bufs| ==> At(bufs, p, i, o) == At(tail, p - |bufs[0]|, i - 1, o);
      }
    }
  }

  class BuffersIterator {
    const bufs: Buffers
    var currentBuffer: seq<byte>
    var currentPosition: nat
    var current: nat
    var position: nat

    ghost predicate Valid()
      reads this
    {
      At(bufs, position, current, currentPosition) && (current < |bufs| ==> currentBuffer == bufs[current])
    }

    ghost function Place(): (nat, nat)
      reads this
    {
      (current, currentPosition)
    }

    constructor Begin(buffers: Buffers)
      ensures Valid() && bufs == buffers && position == 0
    {
      bufs, currentBuffer, currentPosition, current, position := buffers, [], 0, 0, 0;
      new;
      while current != |bufs|
        invariant current <= |bufs| && Offset(bufs, current) == 0 && currentPosition == 0 && position == 0
      {
        currentBuffer := bufs[current];
        if |currentBuffer| > 0 {
          break;
        }
        OffsetNext(bufs, current);
        current := current + 1;
      }
    }

    constructor End(buffers: Buffers)
      ensures Valid() && bufs == buffers && position == |Flat(bufs)|
    {
      bufs, currentBuffer, currentPosition, current, position := buffers, [], 0, 0, 0;
      new;
      while current != |bufs|
        invariant current <= |bufs| && position == Offset(bufs, current) && currentPosition == 0
      {
        OffsetNext(bufs, current);
        position := position + |bufs[current]|;
        current := current + 1;
      }
      OffsetEnd(bufs);
    }

    constructor Copy(other: BuffersIterator)
      requires other.Valid()
      ensures Valid() && bufs == other.bufs && position == other.position && Place() == other.Place()
    {
      bufs, currentBuffer, currentPosition := other.bufs, other.currentBuffer, other.currentPosition;
      current, position := other.current, other.position;
    }

    /** Every valid iterator stands exactly where its position says. */
    lemma StandsAtPosition()
      requires Valid()
      ensures position <= |Flat(bufs)| && Place() == Locate(bufs, position)
      ensures current == |bufs| <==> position == |Flat(bufs)|
    {
      AtIsLocate(bufs, position, current, currentPosition);
      OffsetEnd(bufs);
      if current < |bufs| {
        FlatAt(bufs, current, currentPosition);
      }
    }

    method Dereference() returns (b: byte)
      requires Valid() && position < |Flat(bufs)|
      ensures b == Flat(bufs)[position]
    {
      StandsAtPosition();
      FlatAt(bufs, current, currentPosition);
      b := currentBuffer[currentPosition];
    }

    function DistanceTo(other: BuffersIterator): int
      reads this, other
    {
      other.position - position
    }

    predicate Equal(other: BuffersIterator)
      reads this, other
    {
      position == other.position
    }

    method Increment()
      requires Valid() && current != |bufs|
      modifies this
      ensures Valid() && position == old(position) + 1
    {
      position := position + 1;
      currentPosition := currentPosition + 1;
      if currentPosition != |currentBuffer| {
        return;
      }
      OffsetNext(bufs, current);
      current := current + 1;
      currentPosition := 0;
      while current != |bufs|
        invariant current <= |bufs| && position == Offset(bufs, current) && currentPosition == 0
        invariant position == old(position) + 1
      {
        currentBuffer := bufs[current];
        if |currentBuffer| > 0 {
          return;
        }
        OffsetNext(bufs, current);
        current := current + 1;
      }
    }

    /** The last non-empty buffer before the current one, if bytes come before it. */
    method PreviousBuffer() returns (iter: nat)
      requires current <= |bufs| && Offset(bufs, current) > 0
      ensures iter < current && |bufs[iter]| > 0
      ensures Offset(bufs, iter) + |bufs[iter]| == Offset(bufs, current)
    {
      iter := current;
      while iter != 0
        invariant 0 <= iter <= current && Offset(bufs, iter) == Offset(bufs, current)
        decreases iter
      {
        iter := iter - 1;
        OffsetNext(bufs, iter);
        if |bufs[iter]| > 0 {
          return;
        }
      }
      assert false;
    }

    method Decrement()
      requires Valid() && position > 0
      modifies this
      ensures Valid() && position == old(position) - 1
    {
      position := position - 1;
      if currentPosition != 0 {
        currentPosition := currentPosition - 1;
        return;
      }
      var iter := PreviousBuffer();
      current := iter;
      currentBuffer := bufs[iter];
      currentPosition := |currentBuffer| - 1;
    }

    method Advance(n: int)
      requires Valid() && 0 <= position + n <= |Flat(bufs)|
      modifies this
      ensures Valid() && position == old(position) + n
    {
      if n > 0 {
        AdvanceForward(n);
      } else if n < 0 {
        AdvanceBackward(-n);
      }
    }

    method AdvanceForward(distance: nat)
      requires Valid() && distance > 0 && position + distance <= |Flat(bufs)|
      modifies this
      ensures Valid() && position == old(position) + distance
    {
      StandsAtPosition();
      var n := distance;
      while true
        invariant current < |bufs| && currentBuffer == bufs[current] && currentPosition <= |currentBuffer|
        invariant position == Offset(bufs, current) + currentPosition
        invariant n >= 0 && position + n == old(position) + distance
        decreases |bufs| - current
      {
        var balance := |currentBuffer| - currentPosition;
        if balance > n {
          position := position + n;
          currentPosition := currentPosition + n;
          return;
        }
        OffsetNext(bufs, current);
        OffsetWithin(bufs, current + 1);
        n := n - balance;
        position := position + balance;
        current := current + 1;
        if current == |bufs| {
          OffsetEnd(bufs);
          currentBuffer := [];
          currentPosition := 0;
          return;
        }
        currentBuffer := bufs[current];
        currentPosition := 0;
      }
    }

    method AdvanceBackward(distance: nat)
      requires Valid() && distance > 0 && position >= distance
      modifies this
      ensures Valid() && position == old(position) - distance
    {
      var absN := distance;
      while true
        invariant current <= |bufs| && absN > 0 && position >= absN
        invariant position == Offset(bufs, current) + currentPosition
        invariant current < |bufs| ==> currentBuffer == bufs[current] && currentPosition <= |currentBuffer|
        invariant current == |bufs| ==> currentPosition == 0
        invariant position - absN == old(position) - distance
        decreases current
      {
        if currentPosition >= absN {
          position := position - absN;
          currentPosition := currentPosition - absN;
          return;
        }
        absN := absN - currentPosition;
        position := position - currentPosition;
        if current == 0 {
          assert false;
        }
        var iter := PreviousBuffer();
        current := iter;
        currentBuffer := bufs[iter];
        currentPosition := |currentBuffer|;
      }
    }

    /** it + n. */
    method Plus(n: int) returns (r: BuffersIterator)
      requires Valid() && 0 <= position + n <= |Flat(bufs)|
      ensures fresh(r) && r.Valid() && r.bufs == bufs && r.position == position + n
      ensures r.Place() == Locate(bufs, position + n)
    {
      r := new BuffersIterator.Copy(this);
      r.Advance(n);
      r.StandsAtPosition();
    }

    /** operator[]: the byte n places on. */
    method Element(n: int) returns (b: byte)
      requires Valid() && 0 <= position + n < |Flat(bufs)|
      ensures b == Flat(bufs)[position + n]
    {
      var r := Plus(n);
      b := r.Dereference();
    }

    /** n increments and one advance by n end in the same place. */
    method IncrementTimes(n: nat) returns (jump: BuffersIterator)
      requires Valid() && position + n <= |Flat(bufs)|
      modifies this
      ensures Valid() && position == old(position) + n
      ensures fresh(jump) && jump.bufs == bufs && jump.Place() == Place() && jump.Equal(this)
    {
      jump := Plus(n);
      for i := 0 to n
        invariant Valid() && position == old(position) + i
        invariant jump != this && jump.position == old(position) + n && jump.Place() == Locate(bufs, old(position) + n)
      {
        StandsAtPosition();
        Increment();
      }
      StandsAtPosition();
    }

    /** Going n on and n back, either way round, ends where it began. */
    method ThereAndBack(n: int)
      requires Valid() && 0 <= position + n <= |Flat(bufs)|
      modifies this
      ensures Valid() && position == old(position) && Place() == old(Place())
    {
      StandsAtPosition();
      Advance(n);
      Advance(-n);
      StandsAtPosition();
    }
  }

  /** end - begin is the number of bytes, and walking between them reads them all in order. */
  method WholeRange(bufs: Buffers) returns (bytes: seq<byte>, distance: int)
    ensures distance == |Flat(bufs)| && bytes == Flat(bufs)
  {
    var begin := new BuffersIterator.Begin(bufs);
    var end := new BuffersIterator.End(bufs);
    distance := begin.DistanceTo(end);
    bytes := [];
    while !begin.Equal(end)
      invariant begin.Valid() && begin.bufs == bufs && fresh(begin)
      invariant end.position == |Flat(bufs)| && begin != end
      invariant begin.position <= |Flat(bufs)| && bytes == Flat(bufs)[..begin.position]
      decreases |Flat(bufs)| - begin.position
    {
      begin.StandsAtPosition();
      var b := begin.Dereference();
      bytes := bytes + [b];
      begin.Increment();
    }
  }
}
