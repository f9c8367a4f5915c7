/**
 * asio's basic_streambuf and the BufferAdaptor around it: one array, cut by the get, put
 * and end positions into bytes already consumed, bytes to read, and room to write.
 */
module StreamBuf {
  import opened Common
  import opened Bytes

  const BUFFER_DELTA: nat := 128

  class StreamBuf {
    const maxSize: nat
    var buffer: array<byte>
    var gptr: nat    // where reading goes on
    var egptr: nat   // end of what the get area knows of; data() and size() go by pptr instead
    var pptr: nat    // end of the input sequence, start of the output sequence
    var epptr: nat   // end of the output sequence

    ghost predicate Valid()
      reads this
    {
      gptr <= egptr <= pptr <= epptr <= buffer.Length && epptr <= maxSize
    }

    /** The input sequence. */
    ghost function Contents(): seq<byte>
      reads this, buffer
      requires Valid()
    {
      buffer[gptr..pptr]
    }

    /** The output sequence. */
    ghost function Room(): seq<byte>
      reads this, buffer
      requires Valid()
    {
      buffer[pptr..epptr]
    }

    constructor (maximumSize: nat)
      ensures Valid() && Contents() == [] && maxSize == maximumSize && fresh(buffer)
    {
      maxSize := maximumSize;
      var pend := Min(maximumSize, BUFFER_DELTA);
      buffer := new byte[Max(pend, 1)](_ => 0);
      gptr, egptr, pptr, epptr := 0, 0, 0, pend;
    }

    function Size(): (n: nat)
      reads this, buffer
      requires Valid()
      ensures n == |Contents()|
    {
      pptr - gptr
    }

    method Data() returns (d: seq<byte>)
      requires Valid()
      ensures d == Contents()
    {
      d := buffer[gptr..pptr];
    }

    /**
     * Make the output sequence at least n long: shift what is left to read down, then grow. Beyond
     * maxSize that fails, which stands for length_error; the bytes have then been shifted already.
     */
    method Reserve(n: nat) returns (ok: bool)
      requires Valid()
      modifies this, buffer
      ensures Valid() && (buffer == old(buffer) || fresh(buffer))
      ensures ok <==> old(Size()) + n <= maxSize
      ensures ok ==> Contents() == old(Contents()) && epptr - pptr >= n
      ensures !ok ==> buffer == old(buffer) && gptr == old(gptr) && pptr == old(pptr) && epptr == old(epptr)
      ensures !ok ==> buffer[..Size()] == old(Contents())
    {
      var gnext, pnext, pend := gptr, pptr, epptr;
      if n <= pend - pnext {
        return true;
      }
      ghost var input := Contents();
      pnext := pnext - gnext;
      ShiftDown(gnext, pnext);
      ghost var shifted := buffer[..];
      assert shifted[..pnext] == input;
      if n > pend - pnext {
        if n <= maxSize && pnext <= maxSize - n {
          pend := pnext + n;
          Resize(Max(pend, 1));
          SamePrefix(buffer[..], shifted, Min(buffer.Length, |shifted|), pnext);
        } else {
          return false;
        }
      }
      gptr, egptr, pptr, epptr := 0, pnext, pnext, pend;
      ok := true;
    }

    /** memmove of n bytes from gnext to the front. */
    method ShiftDown(gnext: nat, n: nat)
      requires gnext + n <= buffer.Length
      modifies buffer
      ensures buffer[..n] == old(buffer[gnext..gnext + n])
    {
      if gnext > 0 {
        forall i | 0 <= i < n {
          buffer[i] := buffer[gnext + i];
        }
      }
    }

    /** vector::resize: the bytes that still fit are kept, new ones are zero. */
    method Resize(n: nat)
      modifies this`buffer
      ensures fresh(buffer) && buffer.Length == n
      ensures buffer[..][..Min(n, old(buffer.Length))] == old(buffer[..])[..Min(n, old(buffer.Length))]
    {
      var was := buffer;
      var now := new byte[n](i requires i >= 0 reads was => if i < was.Length then was[i] else 0);
      buffer := now;
    }

    /** n writable bytes begin at the returned position of buffer, if they do not exceed maxSize. */
    method Prepare(n: nat) returns (ok: bool, at: nat)
      requires Valid()
      modifies this, buffer
      ensures Valid() && (buffer == old(buffer) || fresh(buffer))
      ensures ok <==> old(Size()) + n <= maxSize
      ensures ok ==> Contents() == old(Contents()) && at == pptr && at + n <= epptr
    {
      ok := Reserve(n);
      at := pptr;
    }

    /** n bytes, or all the room there is, go from the output to the input sequence. */
    method Commit(n: nat)
      requires Valid()
      modifies this
      ensures Valid() && buffer == old(buffer)
      ensures Contents() == old(Contents()) + old(Room())[..Min(n, |old(Room())|)]
      ensures Room() == old(Room())[Min(n, |old(Room())|)..]
    {
      var m := Min(n, epptr - pptr);
      pptr := pptr + m;
      egptr := pptr;
      assert buffer[gptr..pptr] == buffer[gptr..old(pptr)] + buffer[old(pptr)..pptr];
    }

    /** n bytes, or all there are, leave the front of the input sequence. */
    method Consume(n: nat)
      requires Valid()
      modifies this
      ensures Valid() && buffer == old(buffer)
      ensures Contents() == old(Contents())[Min(n, |old(Contents())|)..]
      ensures Room() == old(Room())
    {
      if egptr < pptr {
        egptr := pptr;
      }
      var m := if gptr + n > pptr then pptr - gptr else n;
      gptr := gptr + m;
    }

    /** One character written through the stream interface, or its end of file, which changes nothing. */
    method Overflow(c: Option<byte>) returns (ok: bool)
      requires Valid()
      modifies this, buffer
      ensures Valid() && (buffer == old(buffer) || fresh(buffer))
      ensures ok <==> c.None? || old(Size()) < maxSize
      ensures ok ==> Contents() == if c.Some? then old(Contents()) + [c.value] else old(Contents())
    {
      if c.None? {
        return true;
      }
      if pptr == epptr {
        var bufferSize := pptr - gptr;
        if bufferSize < maxSize && maxSize - bufferSize < BUFFER_DELTA {
          ok := Reserve(maxSize - bufferSize);
        } else {
          ok := Reserve(BUFFER_DELTA);
        }
        if !ok {
          return;
        }
      }
      buffer[pptr] := c.value;
      pptr := pptr + 1;
      ok := true;
    }
  }

  lemma SamePrefix(a: seq<byte>, b: seq<byte>, m: nat, k: nat)
    requires k <= m <= |a| && m <= |b| && a[..m] == b[..m]
    ensures a[..k] == b[..k]
  {
    assert a[..m][..k] == a[..k] && b[..m][..k] == b[..k];
  }

  // ----- Whole runs: the buffer is a byte queue -----

  /** A receive that fills a prepared buffer and commits n of its bytes, or a consume. */
  datatype Op = Feed(bytes: seq<byte>, n: nat) | Drop(n: nat)

  function QueueAfter(q: seq<byte>, op: Op): seq<byte> {
    match op
    case Feed(bytes, n) => q + bytes[..Min(n, |bytes|)]
    case Drop(n) => q[Min(n, |q|)..]
  }

  function QueueRun(q: seq<byte>, ops: seq<Op>): seq<byte> {
    if ops == [] then q else QueueAfter(QueueRun(q, ops[..|ops| - 1]), ops[|ops| - 1])
  }

  /** All the bytes a run commits, in order. */
  function FedBytes(ops: seq<Op>): seq<byte> {
    if ops == [] then []
    else
      var last := ops[|ops| - 1];
      FedBytes(ops[..|ops| - 1]) + if last.Feed? then last.bytes[..Min(last.n, |last.bytes|)] else []
  }

  /** All the bytes a run takes out again, in order. */
  function DroppedBytes(q: seq<byte>, ops: seq<Op>): seq<byte> {
    if ops == [] then []
    else
      var last, before := ops[|ops| - 1], QueueRun(q, ops[..|ops| - 1]);
      DroppedBytes(q, ops[..|ops| - 1]) + if last.Drop? then before[..Min(last.n, |before|)] else []
  }

  /** No byte is lost, repeated or moved: what came in is what went out and what is still there. */
  lemma {:induction false} QueueConserves(q: seq<byte>, ops: seq<Op>)
    ensures q + FedBytes(ops) == DroppedBytes(q, ops) + QueueRun(q, ops)
  {
    if ops != [] {
      var n := |ops| - 1;
      var before, dropped := QueueRun(q, ops[..n]), DroppedBytes(q, ops[..n]);
      QueueConserves(q, ops[..n]);
      match ops[n] {
        case Feed(bytes, k) =>
          Regroup(q, FedBytes(ops[..n]), bytes[..Min(k, |bytes|)]);
          Regroup(dropped, before, bytes[..Min(k, |bytes|)]);
        case Drop(k) =>
          var m := Min(k, |before|);
          Regroup(dropped, before[..m], before[m..]);
          assert before[..m] + before[m..] == before;
      }
    }
  }

  /** One receive as the sessions do it: prepare, let the bytes arrive, commit. */
  method Receive(sb: StreamBuf, bytes: seq<byte>, n: nat) returns (ok: bool)
    requires sb.Valid() && n <= |bytes|
    modifies sb, sb.buffer
    ensures sb.Valid() && (sb.buffer == old(sb.buffer) || fresh(sb.buffer))
    ensures ok <==> old(sb.Size()) + |bytes| <= sb.maxSize
    ensures ok ==> sb.Contents() == old(sb.Contents()) + bytes[..n]
  {
    ghost var was := sb.Contents();
    var at;
    ok, at := sb.Prepare(|bytes|);
    if !ok {
      return;
    }
    forall i | 0 <= i < |bytes| {
      sb.buffer[at + i] := bytes[i];
    }
    ghost var room := sb.Room();
    assert sb.Contents() == was;
    assert forall i :: 0 <= i < n ==> room[i] == sb.buffer[at + i] == bytes[i];
    sb.Commit(n);
    assert room[..n] == bytes[..n];
  }

  /** The bytes prepared for this operation, on top of what the queue holds, exceed maxSize. */
  predicate TooLong(q: seq<byte>, op: Op, maxSize: nat) {
    op.Feed? && |q| + |op.bytes| > maxSize
  }

  /** One of the two, on the buffer. */
  method Perform(sb: StreamBuf, op: Op) returns (ok: bool)
    requires sb.Valid() && (op.Feed? ==> op.n <= |op.bytes|)
    modifies sb, sb.buffer
    ensures sb.Valid() && (sb.buffer == old(sb.buffer) || fresh(sb.buffer))
    ensures ok <==> !TooLong(old(sb.Contents()), op, sb.maxSize)
    ensures ok ==> sb.Contents() == QueueAfter(old(sb.Contents()), op)
  {
    match op {
      case Feed(bytes, n) => ok := Receive(sb, bytes, n);
      case Drop(n) =>
        sb.Consume(n);
        ok := true;
    }
  }

  /** q is the queue before operation i, and none of those before exceeded maxSize. */
  ghost predicate Reached(start: seq<byte>, ops: seq<Op>, i: nat, q: seq<byte>, maxSize: nat) {
    && i <= |ops| && q == QueueRun(start, ops[..i])
    && forall k :: 0 <= k < i ==> !TooLong(QueueRun(start, ops[..k]), ops[k], maxSize)
  }

  lemma ReachedNext(start: seq<byte>, ops: seq<Op>, i: nat, q: seq<byte>, maxSize: nat)
    requires Reached(start, ops, i, q, maxSize) && i < |ops| && !TooLong(q, ops[i], maxSize)
    ensures Reached(start, ops, i + 1, QueueAfter(q, ops[i]), maxSize)
  {
    assert ops[..i + 1][..i] == ops[..i];
  }

  lemma ReachedEnd(start: seq<byte>, ops: seq<Op>, i: nat, q: seq<byte>, maxSize: nat)
    requires Reached(start, ops, i, q, maxSize)
    ensures i == |ops| ==> q == QueueRun(start, ops)
  {
    assert ops[..|ops|] == ops;
  }

  /**
   * Any run of receives and consumes on the buffer is that run on a queue, up to the first
   * receive that would exceed maxSize; no other operation fails.
   */
  method Replay(sb: StreamBuf, ops: seq<Op>) returns (done: nat)
    requires sb.Valid() && forall i :: 0 <= i < |ops| && ops[i].Feed? ==> ops[i].n <= |ops[i].bytes|
    modifies sb, sb.buffer
    ensures sb.Valid() && (sb.buffer == old(sb.buffer) || fresh(sb.buffer)) && done <= |ops|
    ensures Reached(old(sb.Contents()), ops, done, QueueRun(old(sb.Contents()), ops[..done]), sb.maxSize)
    ensures done < |ops| ==> TooLong(QueueRun(old(sb.Contents()), ops[..done]), ops[done], sb.maxSize)
    ensures done == |ops| ==> sb.Contents() == QueueRun(old(sb.Contents()), ops)
  {
    ghost var start := sb.Contents();
    assert Reached(start, ops, 0, start, sb.maxSize);
    hide QueueAfter, TooLong, QueueRun;
    done := 0;
    while done < |ops|
      invariant done <= |ops| && sb.Valid() && (sb.buffer == old(sb.buffer) || fresh(sb.buffer))
      invariant Reached(start, ops, done, sb.Contents(), sb.maxSize)
    {
      ghost var q := sb.Contents();
      var ok := Perform(sb, ops[done]);
      if !ok {
        return;
      }
      ReachedNext(start, ops, done, q, sb.maxSize);
      done := done + 1;
    }
    ReachedEnd(start, ops, done, sb.Contents(), sb.maxSize);
  }
}
