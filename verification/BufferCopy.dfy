/** asio::buffer_copy between single buffers and sequences of buffers, written in place. */
module BufferCopy {
  import opened Common
  import opened Bytes
  import opened FlatBuffers

  /** asio::buffer(b, max): the front of b, at most max bytes of it. */
  function Front(s: seq<byte>, max: nat): seq<byte> {
    s[..Min(|s|, max)]
  }

  // ----- Targets: stretches of one memory -----

  /** A mutable_buffer: where it begins in memory, and its size. */
  datatype Region = Region(at: nat, size: nat)

  ghost predicate Inside(rs: seq<Region>, length: nat) {
    forall i :: 0 <= i < |rs| ==> rs[i].at + rs[i].size <= length
  }

  ghost predicate Apart(rs: seq<Region>) {
    forall i, j :: 0 <= i < |rs| && 0 <= j < |rs| && i != j ==>
      || rs[i].size == 0 || rs[j].size == 0
      || rs[i].at + rs[i].size <= rs[j].at || rs[j].at + rs[j].size <= rs[i].at
  }

  ghost predicate Covers(rs: seq<Region>, p: nat) {
    exists i :: 0 <= i < |rs| && rs[i].at <= p < rs[i].at + rs[i].size
  }

  /** What the target buffers hold in memory m. */
  ghost function View(m: seq<byte>, rs: seq<Region>): (c: Buffers)
    requires Inside(rs, |m|)
  {
    seq(|rs|, i requires 0 <= i < |rs| => m[rs[i].at..rs[i].at + rs[i].size])
  }

  ghost function FlatView(m: seq<byte>, rs: seq<Region>): seq<byte>
    requires Inside(rs, |m|)
  {
    Flat(View(m, rs))
  }

  ghost function TargetOffset(rs: seq<Region>, i: nat): nat
    requires i <= |rs|
  {
    if i == 0 then 0 else rs[0].size + TargetOffset(rs[1..], i - 1)
  }

  lemma {:induction false} TargetOffsetIsOffset(m: seq<byte>, rs: seq<Region>, i: nat)
    requires Inside(rs, |m|) && i <= |rs|
    ensures Offset(View(m, rs), i) == TargetOffset(rs, i)
  {
    if i > 0 {
      assert View(m, rs)[1..] == View(m, rs[1..]);
      TargetOffsetIsOffset(m, rs[1..], i - 1);
    }
  }

  lemma TargetTotal(m: seq<byte>, rs: seq<Region>)
    requires Inside(rs, |m|)
    ensures |FlatView(m, rs)| == TargetOffset(rs, |rs|)
  {
    TargetOffsetIsOffset(m, rs, |rs|);
    OffsetEnd(View(m, rs));
  }

  lemma {:induction false} TargetOffsetNext(rs: seq<Region>, i: nat)
    requires i < |rs|
    ensures TargetOffset(rs, i + 1) == TargetOffset(rs, i) + rs[i].size
    ensures TargetOffset(rs, i + 1) <= TargetOffset(rs, |rs|)
    decreases |rs|
  {
    if i > 0 {
      TargetOffsetNext(rs[1..], i - 1);
    } else {
      assert TargetOffset(rs[1..], 0) == 0;
    }
  }

  lemma WriteView(m: seq<byte>, rs: seq<Region>, i: nat, o: nat, w: seq<byte>)
    requires Inside(rs, |m|) && Apart(rs) && i < |rs| && o + |w| <= rs[i].size
    ensures View(Patch(m, rs[i].at + o, w), rs) == View(m, rs)[i := Patch(View(m, rs)[i], o, w)]
  {
    hide Patch;
    var m' := Patch(m, rs[i].at + o, w);
    forall k | 0 <= k < |rs| && k != i ensures View(m', rs)[k] == View(m, rs)[k] {
      PatchElsewhere(m, rs[i].at + o, w, rs[k].at, rs[k].at + rs[k].size);
    }
    PatchWithin(m, rs[i].at, o, w, rs[i].size);
  }

  lemma WriteCovered(m: seq<byte>, rs: seq<Region>, i: nat, o: nat, w: seq<byte>)
    requires Inside(rs, |m|) && i < |rs| && o + |w| <= rs[i].size
    ensures forall p :: 0 <= p < |m| && !Covers(rs, p) ==> Patch(m, rs[i].at + o, w)[p] == m[p]
  {
    forall p | 0 <= p < |m| && !Covers(rs, p) ensures Patch(m, rs[i].at + o, w)[p] == m[p] {
      assert !(rs[i].at <= p < rs[i].at + rs[i].size);
    }
  }

  lemma WriteFlat(m: seq<byte>, rs: seq<Region>, i: nat, o: nat, w: seq<byte>)
    requires Inside(rs, |m|) && Apart(rs) && i < |rs| && o + |w| <= rs[i].size
    ensures TargetOffset(rs, i) + o + |w| <= |FlatView(m, rs)|
    ensures FlatView(Patch(m, rs[i].at + o, w), rs) == Patch(FlatView(m, rs), TargetOffset(rs, i) + o, w)
  {
    hide View, Patch, Flat, Offset, TargetOffset, Apart;
    TargetOffsetIsOffset(m, rs, i);
    ViewSize(m, rs, i);
    WriteView(m, rs, i, o, w);
    FlatPatched(View(m, rs), View(Patch(m, rs[i].at + o, w), rs), i, o, w, TargetOffset(rs, i) + o);
  }

  lemma FlatPatched(was: Buffers, now: Buffers, i: nat, o: nat, w: seq<byte>, at: nat)
    requires i < |was| && o + |w| <= |was[i]| && now == was[i := Patch(was[i], o, w)] && at == Offset(was, i) + o
    ensures at + |w| <= |Flat(was)| && Flat(now) == Patch(Flat(was), at, w)
  {
    FlatPatch(was, i, o, w);
  }

  /** A write inside one target buffer changes that stretch of the whole, and no other memory. */
  lemma WriteRegion(m: seq<byte>, rs: seq<Region>, i: nat, o: nat, w: seq<byte>, at: nat, m': seq<byte>)
    requires Inside(rs, |m|) && Apart(rs) && i < |rs| && o + |w| <= rs[i].size
    requires at == TargetOffset(rs, i) + o && m' == Patch(m, rs[i].at + o, w)
    ensures |m'| == |m| && at + |w| <= |FlatView(m, rs)|
    ensures FlatView(m', rs) == Patch(FlatView(m, rs), at, w)
    ensures forall p :: 0 <= p < |m| && !Covers(rs, p) ==> m'[p] == m[p]
  {
    WriteCovered(m, rs, i, o, w);
    hide Patch, FlatView, Covers, Apart, TargetOffset;
    WriteFlat(m, rs, i, o, w);
  }

  lemma ViewSize(m: seq<byte>, rs: seq<Region>, i: nat)
    requires Inside(rs, |m|) && i < |rs|
    ensures |View(m, rs)| == |rs| && |View(m, rs)[i]| == rs[i].size
  {
  }

  // ----- What every overload does -----

  /** The front of the source is over the front of the target, and no other memory has changed. */
  ghost predicate Copied(m: seq<byte>, m': seq<byte>, rs: seq<Region>, source: seq<byte>, n: nat, max: nat)
    requires Inside(rs, |m|)
  {
    n == Min(Min(|FlatView(m, rs)|, |source|), max) && SoFar(m, m', rs, source, n)
  }

  /** The first n bytes are over. */
  ghost predicate SoFar(m: seq<byte>, m': seq<byte>, rs: seq<Region>, source: seq<byte>, n: nat)
    requires Inside(rs, |m|)
  {
    && |m'| == |m| && n <= |FlatView(m, rs)| && n <= |source|
    && FlatView(m', rs) == Patch(FlatView(m, rs), 0, source[..n])
    && forall p :: 0 <= p < |m| && !Covers(rs, p) ==> m'[p] == m[p]
  }

  /** Which means: equal prefixes of that length, and the rest of the target as it was. */
  lemma CopiedMeans(m: seq<byte>, m': seq<byte>, rs: seq<Region>, source: seq<byte>, n: nat, max: nat)
    requires Inside(rs, |m|) && Copied(m, m', rs, source, n, max)
    ensures n == max || n == TargetOffset(rs, |rs|) || n == |source|
    ensures n <= max && |m'| == |m| && n <= |FlatView(m, rs)| == |FlatView(m', rs)|
    ensures FlatView(m', rs)[..n] == source[..n]
    ensures FlatView(m', rs)[n..] == FlatView(m, rs)[n..]
  {
    TargetTotal(m, rs);
  }

  lemma NothingSoFar(m: seq<byte>, rs: seq<Region>, source: seq<byte>)
    requires Inside(rs, |m|)
    ensures SoFar(m, m, rs, source, 0)
  {
    PatchEmpty(FlatView(m, rs), 0);
  }

  /** One more stretch behind what has been copied. */
  lemma CopyOn(was: seq<byte>, source: seq<byte>, n: nat, k: nat, piece: seq<byte>)
    requires n + k <= |was| && n + k <= |source| && piece == source[n..n + k]
    ensures Patch(Patch(was, 0, source[..n]), n, piece) == Patch(was, 0, source[..n + k])
  {
    PatchTwice(was, 0, source[..n], piece);
    assert source[..n] + piece == source[..n + k];
  }

  lemma SoFarOn(m0: seq<byte>, m: seq<byte>, m': seq<byte>, rs: seq<Region>, i: nat, o: nat,
                source: seq<byte>, total: nat, piece: seq<byte>)
    requires Inside(rs, |m0|) && Apart(rs) && SoFar(m0, m, rs, source, total)
    requires i < |rs| && total == TargetOffset(rs, i) + o && o + |piece| <= rs[i].size
    requires total + |piece| <= |source| && piece == source[total..total + |piece|]
    requires m' == Patch(m, rs[i].at + o, piece)
    ensures SoFar(m0, m', rs, source, total + |piece|)
  {
    WriteRegion(m, rs, i, o, piece, total, m');
    hide FlatView, TargetOffset, Patch;
    CopyOn(FlatView(m0, rs), source, total, |piece|, piece);
  }

  // ----- Cursors -----

  /** A position inside the target buffers, or behind the last; offset o may be a buffer's end. */
  ghost predicate TargetCursor(rs: seq<Region>, i: nat, o: nat, total: nat) {
    && i <= |rs| && total == TargetOffset(rs, i) + o && total <= TargetOffset(rs, |rs|)
    && (if i == |rs| then o == 0 else o <= rs[i].size)
  }

  ghost predicate SourceCursor(ss: Buffers, i: nat, o: nat, total: nat) {
    && i <= |ss| && total == Offset(ss, i) + o && total <= |Flat(ss)|
    && (if i == |ss| then o == 0 else o <= |ss[i]|)
  }

  lemma CursorsAtStart(rs: seq<Region>, ss: Buffers)
    ensures TargetCursor(rs, 0, 0, 0) && SourceCursor(ss, 0, 0, 0)
  {
  }

  /** The target cursor after n more bytes: a buffer that is full makes way for the next. */
  method MoveTarget(rs: seq<Region>, i: nat, o: nat, n: nat, ghost total: nat) returns (i': nat, o': nat)
    requires TargetCursor(rs, i, o, total) && i < |rs| && o + n <= rs[i].size
    ensures TargetCursor(rs, i', o', total + n) && i' <= |rs| && (i' < |rs| ==> o' <= rs[i'].size)
    ensures n == rs[i].size - o ==> i' == i + 1 && o' == 0
    ensures n != rs[i].size - o ==> i' == i && o' == o + n
  {
    TargetOffsetNext(rs, i);
    if n == rs[i].size - o {
      i', o' := i + 1, 0;
    } else {
      i', o' := i, o + n;
    }
  }

  method MoveSource(ss: Buffers, i: nat, o: nat, n: nat, ghost total: nat) returns (i': nat, o': nat)
    requires SourceCursor(ss, i, o, total) && i < |ss| && o + n <= |ss[i]|
    ensures SourceCursor(ss, i', o', total + n) && i' <= |ss| && (i' < |ss| ==> o' <= |ss[i']|)
    ensures n == |ss[i]| - o ==> i' == i + 1 && o' == 0
    ensures n != |ss[i]| - o ==> i' == i && o' == o + n
  {
    OffsetNext(ss, i);
    OffsetWithin(ss, i + 1);
    if n == |ss[i]| - o {
      i', o' := i + 1, 0;
    } else {
      i', o' := i, o + n;
    }
  }

  /** A piece of one source buffer is the source's stretch from position total on. */
  lemma SourcePiece(ss: Buffers, i: nat, o: nat, total: nat, piece: seq<byte>)
    requires SourceCursor(ss, i, o, total) && i < |ss| && o + |piece| <= |ss[i]|
    requires piece == ss[i][o..o + |piece|]
    ensures total + |piece| <= |Flat(ss)| && piece == Flat(ss)[total..total + |piece|]
  {
    FlatStretch(ss, i, o, |piece|);
  }

  /** Where copying stops, as much has been copied as there can be. */
  lemma AllCopied(rs: seq<Region>, ti: nat, to: nat, ss: Buffers, si: nat, so: nat, total: nat, max: nat,
                  m: seq<byte>, m': seq<byte>)
    requires Inside(rs, |m|) && Progress(m, m', rs, ss, ti, to, si, so, total)
    requires total <= max || max == |Flat(ss)|
    requires total == max || ti == |rs| || si == |ss|
    ensures Copied(m, m', rs, Flat(ss), total, max)
  {
    OffsetEnd(ss);
    TargetTotal(m, rs);
  }

  // ----- The overloads -----

  /** buffer_copy_1: into size bytes of memory from position at on. */
  method BufferCopy1(mem: array<byte>, at: nat, size: nat, source: seq<byte>) returns (n: nat)
    requires at + size <= mem.Length
    modifies mem
    ensures n == Min(size, |source|)
    ensures mem[..] == Patch(old(mem[..]), at, source[..n])
  {
    n := if size < |source| then size else |source|;
    if n > 0 {
      forall i | 0 <= i < n {
        mem[at + i] := source[i];
      }
    }
  }

  /** buffer_copy_1 from where the source cursor stands to where the target cursor stands. */
  method CopyPiece(mem: array<byte>, rs: seq<Region>, ti: nat, to: nat, ss: Buffers, si: nat, so: nat,
                   room: nat, ghost total: nat, ghost m: seq<byte>)
    returns (n: nat)
    requires Inside(rs, |m|) && Apart(rs) && |m| == mem.Length
    requires TargetCursor(rs, ti, to, total) && ti < |rs| && to <= rs[ti].size
    requires SourceCursor(ss, si, so, total) && si < |ss| && so <= |ss[si]|
    requires SoFar(m, mem[..], rs, Flat(ss), total)
    modifies mem
    ensures n <= rs[ti].size - to && n <= |ss[si]| - so && n <= room
    ensures n == rs[ti].size - to || n == |ss[si]| - so || n == room
    ensures SoFar(m, mem[..], rs, Flat(ss), total + n)
  {
    ghost var was := mem[..];
    var source := Front(ss[si][so..], room);
    n := BufferCopy1(mem, rs[ti].at + to, rs[ti].size - to, source);
    ghost var piece := source[..n];
    assert |piece| == n && piece == ss[si][so..so + n];
    hide Flat, Patch, Offset, FlatView, SoFar, Front, Apart;
    SourcePiece(ss, si, so, total, piece);
    SoFarOn(m, was, mem[..], rs, ti, to, Flat(ss), total, piece);
  }

  /** One buffer into one: both overloads, the limit being no limit where there is none. */
  method CopyOneOne(mem: array<byte>, target: Region, source: seq<byte>, max: nat) returns (n: nat)
    requires target.at + target.size <= mem.Length
    modifies mem
    ensures Copied(old(mem[..]), mem[..], [target], source, n, max)
  {
    ghost var m := mem[..];
    var rs, ss := [target], [source];
    OneSource(source);
    OneTarget(rs);
    CursorsAtStart(rs, ss);
    NothingSoFar(m, rs, Flat(ss));
    TargetTotal(m, rs);
    n := CopyPiece(mem, rs, 0, 0, ss, 0, 0, max, 0, m);
  }

  lemma OneSource(source: seq<byte>)
    ensures Flat([source]) == source
  {
    assert Flat([source]) == source + Flat([]) == source;
  }

  /** Both cursors stand behind the total bytes that have been copied. */
  ghost predicate Progress(m: seq<byte>, m': seq<byte>, rs: seq<Region>, ss: Buffers,
                           ti: nat, to: nat, si: nat, so: nat, total: nat)
    requires Inside(rs, |m|)
  {
    TargetCursor(rs, ti, to, total) && SourceCursor(ss, si, so, total) && SoFar(m, m', rs, Flat(ss), total)
  }

  lemma ProgressAtStart(m: seq<byte>, rs: seq<Region>, ss: Buffers)
    requires Inside(rs, |m|)
    ensures Progress(m, m, rs, ss, 0, 0, 0, 0, 0)
  {
    NothingSoFar(m, rs, Flat(ss));
  }

  /** One pass of the loop: copy what both current buffers allow, then move the cursors on. */
  method CopyStep(mem: array<byte>, rs: seq<Region>, ti: nat, to: nat, ss: Buffers, si: nat, so: nat,
                  room: nat, ghost total: nat, ghost m: seq<byte>)
    returns (n: nat, ti': nat, to': nat, si': nat, so': nat)
    requires Inside(rs, |m|) && Apart(rs) && |m| == mem.Length && ti < |rs| && si < |ss|
    requires Progress(m, mem[..], rs, ss, ti, to, si, so, total)
    modifies mem
    ensures n <= room && n <= |ss[si]| && Progress(m, mem[..], rs, ss, ti', to', si', so', total + n)
    ensures ti <= ti' <= |rs| && si <= si' <= |ss| && (n == room || ti' + si' > ti + si)
    ensures n == rs[ti].size - to || n == |ss[si]| - so || n == room
    ensures if n == rs[ti].size - to then ti' == ti + 1 && to' == 0 else ti' == ti && to' == to + n
    ensures if n == |ss[si]| - so then si' == si + 1 && so' == 0 else si' == si && so' == so + n
  {
    n := CopyPiece(mem, rs, ti, to, ss, si, so, room, total, m);
    hide *;
    ti', to' := MoveTarget(rs, ti, to, n, total);
    si', so' := MoveSource(ss, si, so, n, total);
    ProgressMade(m, mem[..], rs, ss, ti', to', si', so', total + n);
  }

  lemma ProgressMade(m: seq<byte>, m': seq<byte>, rs: seq<Region>, ss: Buffers,
                     ti: nat, to: nat, si: nat, so: nat, total: nat)
    requires Inside(rs, |m|)
    requires TargetCursor(rs, ti, to, total) && SourceCursor(ss, si, so, total) && SoFar(m, m', rs, Flat(ss), total)
    ensures Progress(m, m', rs, ss, ti, to, si, so, total)
  {
  }

  lemma OneTarget(rs: seq<Region>)
    requires |rs| == 1
    ensures TargetOffset(rs, 1) == rs[0].size
  {
    assert TargetOffset(rs, 1) == rs[0].size + TargetOffset(rs[1..], 0) == rs[0].size;
  }

  /** The loop over the source buffers stands before buffer i, and the one target has room left. */
  ghost predicate Filling(m: seq<byte>, m': seq<byte>, rs: seq<Region>, ss: Buffers, i: nat, total: nat, size: nat) {
    && Inside(rs, |m|) && Apart(rs) && |m| == |m'|
    && exists ti: nat, to: nat, si: nat, so: nat ::
         Progress(m, m', rs, ss, ti, to, si, so, total)
         && (total < size ==> ti == 0 && to == total && si == i && so == 0)
  }

  method FillStep(mem: array<byte>, rs: seq<Region>, ss: Buffers, i: nat, total: nat, size: nat, ghost m: seq<byte>)
    returns (n: nat)
    requires Filling(m, mem[..], rs, ss, i, total, size) && i < |ss| && |rs| == 1 && total < size <= rs[0].size
    modifies mem
    ensures n <= size - total && Filling(m, mem[..], rs, ss, i + 1, total + n, size)
  {
    hide Progress, Inside, Apart;
    var t, o, u, v;
    n, t, o, u, v := CopyStep(mem, rs, 0, total, ss, i, 0, size - total, total, m);
    assert Progress(m, mem[..], rs, ss, t, o, u, v, total + n);
  }

  /** One buffer, at most max bytes of it, filled from many. */
  method CopyOneMany(mem: array<byte>, rs: seq<Region>, ss: Buffers, max: nat) returns (total: nat)
    requires |rs| == 1 && Inside(rs, mem.Length)
    modifies mem
    ensures Copied(old(mem[..]), mem[..], rs, Flat(ss), total, max)
  {
    ghost var m := mem[..];
    var size := if rs[0].size < max then rs[0].size else max;
    total := 0;
    var i := 0;
    ProgressAtStart(m, rs, ss);
    assert Filling(m, mem[..], rs, ss, i, total, size);
    hide *;
    while size - total > 0 && i < |ss|
      invariant i <= |ss| && total <= size && Filling(m, mem[..], rs, ss, i, total, size)
    {
      var n := FillStep(mem, rs, ss, i, total, size, m);
      total := total + n;
      i := i + 1;
    }
    Filled(rs, ss, i, total, size, max, m, mem[..]);
  }

  lemma Filled(rs: seq<Region>, ss: Buffers, i: nat, total: nat, size: nat, max: nat, m: seq<byte>, m': seq<byte>)
    requires |rs| == 1 && Filling(m, m', rs, ss, i, total, size) && total <= size
    requires size == (if rs[0].size < max then rs[0].size else max)
    requires total == size || i == |ss|
    ensures Copied(m, m', rs, Flat(ss), total, max)
  {
    hide Progress, Copied;
    var ti: nat, to: nat, si: nat, so: nat :|
      Progress(m, m', rs, ss, ti, to, si, so, total) && (total < size ==> ti == 0 && to == total && si == i && so == 0);
    AllCopiedTo(rs, ss, ti, to, si, so, total, size, max, m, m');
  }

  lemma AllCopiedTo(rs: seq<Region>, ss: Buffers, ti: nat, to: nat, si: nat, so: nat,
                    total: nat, size: nat, max: nat, m: seq<byte>, m': seq<byte>)
    requires |rs| == 1 && Inside(rs, |m|) && Progress(m, m', rs, ss, ti, to, si, so, total)
    requires size == (if rs[0].size < max then rs[0].size else max) && total <= size
    requires total == size || si == |ss|
    ensures Copied(m, m', rs, Flat(ss), total, max)
  {
    OneTarget(rs);
    TargetTotal(m, rs);
    OffsetEnd(ss);
  }

  /** The loop over the target buffers stands before buffer i, and the one source has bytes left. */
  ghost predicate Emptying(m: seq<byte>, m': seq<byte>, rs: seq<Region>, front: seq<byte>, i: nat, total: nat) {
    && Inside(rs, |m|) && Apart(rs) && |m| == |m'|
    && exists ti: nat, to: nat, si: nat, so: nat ::
         Progress(m, m', rs, [front], ti, to, si, so, total)
         && (total < |front| ==> ti == i && to == 0 && si == 0 && so == total)
  }

  method EmptyStep(mem: array<byte>, rs: seq<Region>, front: seq<byte>, i: nat, total: nat, ghost m: seq<byte>)
    returns (n: nat)
    requires Emptying(m, mem[..], rs, front, i, total) && i < |rs| && total < |front|
    modifies mem
    ensures n <= |front| - total && Emptying(m, mem[..], rs, front, i + 1, total + n)
  {
    hide Progress, Inside, Apart;
    var t, o, u, v;
    n, t, o, u, v := CopyStep(mem, rs, i, 0, [front], 0, total, |front| - total, total, m);
    assert Progress(m, mem[..], rs, [front], t, o, u, v, total + n);
  }

  /** Many buffers filled from one, at most max bytes of it. */
  method CopyManyOne(mem: array<byte>, rs: seq<Region>, source: seq<byte>, max: nat) returns (total: nat)
    requires Inside(rs, mem.Length) && Apart(rs)
    modifies mem
    ensures Copied(old(mem[..]), mem[..], rs, source, total, max)
  {
    ghost var m := mem[..];
    var front := Front(source, max);
    total := 0;
    var i := 0;
    ProgressAtStart(m, rs, [front]);
    assert Emptying(m, mem[..], rs, front, i, total);
    hide *;
    while |front| - total > 0 && i < |rs|
      invariant i <= |rs| && total <= |front| && Emptying(m, mem[..], rs, front, i, total)
    {
      var n := EmptyStep(mem, rs, front, i, total, m);
      total := total + n;
      i := i + 1;
    }
    Emptied(rs, source, front, i, total, max, m, mem[..]);
  }

  lemma Emptied(rs: seq<Region>, source: seq<byte>, front: seq<byte>, i: nat,
                total: nat, max: nat, m: seq<byte>, m': seq<byte>)
    requires front == Front(source, max) && Emptying(m, m', rs, front, i, total) && total <= |front|
    requires total == |front| || i == |rs|
    ensures Copied(m, m', rs, source, total, max)
  {
    hide Progress, Copied;
    var ti: nat, to: nat, si: nat, so: nat :|
      Progress(m, m', rs, [front], ti, to, si, so, total)
      && (total < |front| ==> ti == i && to == 0 && si == 0 && so == total);
    AllCopiedFrom(rs, source, front, [front], ti, to, si, so, total, max, m, m');
  }

  lemma AllCopiedFrom(rs: seq<Region>, source: seq<byte>, front: seq<byte>, ss: Buffers,
                      ti: nat, to: nat, si: nat, so: nat,
                      total: nat, max: nat, m: seq<byte>, m': seq<byte>)
    requires front == Front(source, max) && ss == [front] && total <= |front|
    requires Inside(rs, |m|) && Progress(m, m', rs, ss, ti, to, si, so, total)
    requires total == |front| || ti == |rs|
    ensures Copied(m, m', rs, source, total, max)
  {
    OneSource(front);
    TargetTotal(m, rs);
    assert front[..total] == source[..total];
  }

  /** A cursor in each sequence; whichever buffer is used up makes way for the next. */
  method CopyManyMany(mem: array<byte>, rs: seq<Region>, ss: Buffers) returns (total: nat)
    requires Inside(rs, mem.Length) && Apart(rs)
    modifies mem
    ensures Copied(old(mem[..]), mem[..], rs, Flat(ss), total, |Flat(ss)|)
  {
    ghost var m := mem[..];
    total := 0;
    var ti: nat, to: nat, si: nat, so: nat := 0, 0, 0, 0;
    ProgressAtStart(m, rs, ss);
    hide *;
    while ti != |rs| && si != |ss|
      invariant ti <= |rs| && si <= |ss| && Progress(m, mem[..], rs, ss, ti, to, si, so, total)
      decreases |rs| - ti + (|ss| - si)
    {
      var n;
      n, ti, to, si, so := CopyStep(mem, rs, ti, to, ss, si, so, |ss[si]| + 1, total, m);
      total := total + n;
    }
    AllCopied(rs, ti, to, ss, si, so, total, |Flat(ss)|, m, mem[..]);
  }

  /** One pass under a limit that has not been reached. */
  method LimitedStep(mem: array<byte>, rs: seq<Region>, ti: nat, to: nat, ss: Buffers, si: nat, so: nat,
                     total: nat, max: nat, ghost m: seq<byte>)
    returns (total': nat, ti': nat, to': nat, si': nat, so': nat)
    requires Inside(rs, |m|) && Apart(rs) && |m| == mem.Length && ti < |rs| && si < |ss| && total < max
    requires Progress(m, mem[..], rs, ss, ti, to, si, so, total)
    modifies mem
    ensures Progress(m, mem[..], rs, ss, ti', to', si', so', total')
    ensures total' <= max && ti' <= |rs| && si' <= |ss|
    ensures (|rs| - ti') + (|ss| - si') + (max - total') < (|rs| - ti) + (|ss| - si) + (max - total)
  {
    hide *;
    var n;
    n, ti', to', si', so' := CopyStep(mem, rs, ti, to, ss, si, so, max - total, total, m);
    total' := total + n;
  }

  /** The same with a limit, which can stop both cursors in the middle of their buffers. */
  method CopyManyManyMax(mem: array<byte>, rs: seq<Region>, ss: Buffers, max: nat) returns (total: nat)
    requires Inside(rs, mem.Length) && Apart(rs)
    modifies mem
    ensures Copied(old(mem[..]), mem[..], rs, Flat(ss), total, max)
  {
    ghost var m := mem[..];
    total := 0;
    var ti: nat, to: nat, si: nat, so: nat := 0, 0, 0, 0;
    ProgressAtStart(m, rs, ss);
    hide *;
    while total != max && ti != |rs| && si != |ss|
      invariant total <= max && ti <= |rs| && si <= |ss|
      invariant Progress(m, mem[..], rs, ss, ti, to, si, so, total)
      decreases (|rs| - ti) + (|ss| - si) + (max - total)
    {
      total, ti, to, si, so := LimitedStep(mem, rs, ti, to, ss, si, so, total, max, m);
    }
    AllCopied(rs, ti, to, ss, si, so, total, max, m, mem[..]);
  }
}
