/** Sequences of buffers, seen as the bytes they hold laid end to end. */
module FlatBuffers {
  import opened Bytes

  type Buffers = seq<seq<byte>>

  /** All the bytes, end to end. */
  function Flat(bufs: Buffers): seq<byte> {
    if bufs == [] then [] else bufs[0] + Flat(bufs[1..])
  }

  /** How many bytes come before buffer i. */
  function Offset(bufs: Buffers, i: nat): nat
    requires i <= |bufs|
  {
    if i == 0 then 0 else |bufs[0]| + Offset(bufs[1..], i - 1)
  }

  lemma {:induction false} OffsetNext(bufs: Buffers, i: nat)
    requires i < |bufs|
    ensures Offset(bufs, i + 1) == Offset(bufs, i) + |bufs[i]|
  {
    if i > 0 {
      OffsetNext(bufs[1..], i - 1);
    } else {
      assert Offset(bufs[1..], 0) == 0;
    }
  }

  lemma {:induction false} OffsetEnd(bufs: Buffers)
    ensures Offset(bufs, |bufs|) == |Flat(bufs)|
  {
    if bufs != [] {
      OffsetEnd(bufs[1..]);
    }
  }

  lemma {:induction false} OffsetWithin(bufs: Buffers, i: nat)
    requires i <= |bufs|
    ensures Offset(bufs, i) <= |Flat(bufs)|
    decreases |bufs| - i
  {
    if i == |bufs| {
      OffsetEnd(bufs);
    } else {
      OffsetNext(bufs, i);
      OffsetWithin(bufs, i + 1);
    }
  }

  lemma {:induction false} FlatAt(bufs: Buffers, i: nat, o: nat)
    requires i < |bufs| && o < |bufs[i]|
    ensures Offset(bufs, i) + o < |Flat(bufs)| && Flat(bufs)[Offset(bufs, i) + o] == bufs[i][o]
  {
    if i > 0 {
      FlatAt(bufs[1..], i - 1, o);
    }
  }

  /** A stretch inside one buffer is a stretch of the whole. */
  lemma {:induction false} FlatStretch(bufs: Buffers, i: nat, o: nat, k: nat)
    requires i < |bufs| && o + k <= |bufs[i]|
    ensures Offset(bufs, i) + o + k <= |Flat(bufs)|
    ensures Flat(bufs)[Offset(bufs, i) + o..Offset(bufs, i) + o + k] == bufs[i][o..o + k]
  {
    if i > 0 {
      FlatStretch(bufs[1..], i - 1, o, k);
      SliceBehind(bufs[0], Flat(bufs[1..]), Offset(bufs[1..], i - 1) + o, k);
    } else {
      SliceBefore(bufs[0], Flat(bufs[1..]), o, k);
    }
  }

  lemma SliceBehind(a: seq<byte>, s: seq<byte>, at: nat, k: nat)
    requires at + k <= |s|
    ensures (a + s)[|a| + at..|a| + at + k] == s[at..at + k]
  {
  }

  lemma SliceBefore(s: seq<byte>, b: seq<byte>, at: nat, k: nat)
    requires at + k <= |s|
    ensures (s + b)[at..at + k] == s[at..at + k]
  {
  }

  /** Writing inside one buffer is writing inside the whole. */
  lemma {:induction false} FlatPatch(bufs: Buffers, i: nat, o: nat, w: seq<byte>)
    requires i < |bufs| && o + |w| <= |bufs[i]|
    ensures Offset(bufs, i) + o + |w| <= |Flat(bufs)|
    ensures Flat(bufs[i := Patch(bufs[i], o, w)]) == Patch(Flat(bufs), Offset(bufs, i) + o, w)
  {
    var now := bufs[i := Patch(bufs[i], o, w)];
    if i > 0 {
      FlatPatch(bufs[1..], i - 1, o, w);
      assert now[1..] == bufs[1..][i - 1 := Patch(bufs[i], o, w)] && now[0] == bufs[0];
      PatchBehind(bufs[0], Flat(bufs[1..]), Offset(bufs[1..], i - 1) + o, w);
    } else {
      assert now[1..] == bufs[1..];
      PatchBefore(bufs[0], Flat(bufs[1..]), o, w);
    }
  }

  lemma PatchBehind(a: seq<byte>, s: seq<byte>, at: nat, w: seq<byte>)
    requires at + |w| <= |s|
    ensures a + Patch(s, at, w) == Patch(a + s, |a| + at, w)
  {
  }

  lemma PatchBefore(s: seq<byte>, b: seq<byte>, at: nat, w: seq<byte>)
    requires at + |w| <= |s|
    ensures Patch(s, at, w) + b == Patch(s + b, at, w)
  {
  }
}
