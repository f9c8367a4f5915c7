/**
 * Chaos counting a report: the visitor adds every I32 field it is shown to a counter by the
 * field's name and returns 0, at which the walk of a store stops.
 */
module Reports {
  import opened Bytes
  import opened BladeValues
  import opened Walking

  type Counts = map<Name, int>

  function CountField(c: Counts, r: Record): Counts {
    if r.value.VI32? then c[r.name := (if r.name in c then c[r.name] else 0) + r.value.i] else c
  }

  function CountAll(c: Counts, rs: seq<Record>): Counts
    decreases rs
  {
    if rs == [] then c else CountAll(CountField(c, rs[0]), rs[1..])
  }

  lemma {:induction false} CountConcat(c: Counts, a: seq<Record>, b: seq<Record>)
    ensures CountAll(c, a + b) == CountAll(CountAll(c, a), b)
    decreases a
  {
    if a == [] {
      assert a + b == b;
    } else {
      assert (a + b)[1..] == a[1..] + b;
      CountConcat(CountField(c, a[0]), a[1..], b);
    }
  }

  ghost predicate NoI32(rs: seq<Record>) {
    forall i :: 0 <= i < |rs| ==> !rs[i].value.VI32?
  }

  lemma {:induction false} NothingToCount(c: Counts, rs: seq<Record>)
    requires NoI32(rs)
    ensures CountAll(c, rs) == c
  {
    if rs != [] {
      NothingToCount(c, rs[1..]);
    }
  }

  ghost predicate AllI32(rs: seq<Record>) {
    forall i :: 0 <= i < |rs| ==> rs[i].value.VI32?
  }

  /** Every name is counted once, and no other changes. */
  lemma {:induction false} CountedOnce(c: Counts, rs: seq<Record>)
    requires Distinct(rs) && AllI32(rs)
    ensures forall n :: (forall i :: 0 <= i < |rs| ==> rs[i].name != n) ==>
              (n in CountAll(c, rs) <==> n in c) && (n in c ==> CountAll(c, rs)[n] == c[n])
    ensures forall i :: 0 <= i < |rs| ==>
              && rs[i].name in CountAll(c, rs)
              && CountAll(c, rs)[rs[i].name] == (if rs[i].name in c then c[rs[i].name] else 0) + rs[i].value.i
    decreases rs
  {
    if rs != [] {
      var c1, tail := CountField(c, rs[0]), rs[1..];
      CountedOnce(c1, tail);
      assert forall i :: 0 < i < |rs| ==> rs[i] == tail[i - 1];
      assert forall i :: 0 <= i < |tail| ==> tail[i].name != rs[0].name;
    }
  }

  /** The I32 store holds I32 values, and no other store does. */
  ghost predicate Typed(st: Stores) {
    && (forall k :: k in st.i32s ==> st.i32s[k].VI32?)
    && (forall k :: k in st.bytes ==> !st.bytes[k].VI32?) && (forall k :: k in st.i64s ==> !st.i64s[k].VI32?)
    && (forall k :: k in st.f64s ==> !st.f64s[k].VI32?) && (forall k :: k in st.strings ==> !st.strings[k].VI32?)
  }

  lemma OnlyI32Count(c: Counts, w: Walk)
    requires NoI32(w.bytes) && NoI32(w.i64s) && NoI32(w.f64s) && NoI32(w.strings)
    ensures CountAll(c, w.All()) == CountAll(c, w.i32s)
  {
    hide CountAll, NoI32;
    CountWalk(c, w);
    NothingToCount(c, w.bytes);
    var counted := CountAll(c, w.i32s);
    NothingToCount(counted, w.i64s);
    NothingToCount(counted, w.f64s);
    NothingToCount(counted, w.strings);
  }

  /** A visitor that returns 0 sees the first field of a store, where there is one. */
  lemma SeenFirst(rs: seq<Record>, f: (Name, Value) -> int)
    requires forall n, v :: f(n, v) == 0
    ensures Visited(rs, f) == if rs == [] then [] else [rs[0]]
    ensures NoI32(rs) ==> NoI32(Visited(rs, f))
  {
  }

  lemma ListedNoI32(m: Fields, rs: seq<Record>)
    requires IsListing(m, rs) && forall k :: k in m ==> !m[k].VI32?
    ensures NoI32(rs)
  {
  }

  lemma ListedI32(m: Fields, rs: seq<Record>)
    requires IsListing(m, rs) && forall k :: k in m ==> m[k].VI32?
    ensures AllI32(rs) && Distinct(rs) && |rs| == |m|
  {
    ListingLength(m, rs);
  }

  /** What such a visitor counts of a report: its first I32 field. */
  lemma SeenCounts(c: Counts, st: Stores, w: Walk, f: (Name, Value) -> int)
    requires Typed(st) && w.Of(st) && forall n, v :: f(n, v) == 0
    ensures CountAll(c, w.All()) == CountAll(c, w.i32s) && AllI32(w.i32s) && Distinct(w.i32s) && |w.i32s| == |st.i32s|
    ensures w.Seen(f).i32s == if w.i32s == [] then [] else [w.i32s[0]]
    ensures CountAll(c, w.Seen(f).All()) == CountAll(c, w.Seen(f).i32s)
  {
    ListedI32(st.i32s, w.i32s);
    ListedNoI32(st.bytes, w.bytes);
    ListedNoI32(st.i64s, w.i64s);
    ListedNoI32(st.f64s, w.f64s);
    ListedNoI32(st.strings, w.strings);
    hide CountAll, Visited, IsListing, NoI32, AllI32, Distinct;
    SeenFirst(w.bytes, f);
    SeenFirst(w.i32s, f);
    SeenFirst(w.i64s, f);
    SeenFirst(w.f64s, f);
    SeenFirst(w.strings, f);
    OnlyI32Count(c, w);
    OnlyI32Count(c, w.Seen(f));
  }

  /** The field leaves the counters as they are. */
  ghost predicate Idle(c: Counts, r: Record) {
    r.name in c && r.value == VI32(0)
  }

  ghost predicate AllIdle(c: Counts, rs: seq<Record>) {
    forall i :: 0 <= i < |rs| ==> Idle(c, rs[i])
  }

  lemma {:induction false} IdleCount(c: Counts, rs: seq<Record>)
    requires AllIdle(c, rs)
    ensures CountAll(c, rs) == c
  {
    if rs != [] {
      assert Idle(c, rs[0]);
      assert AllIdle(c, rs[1..]) by {
        assert forall i :: 0 <= i < |rs[1..]| ==> rs[1..][i] == rs[i + 1];
      }
      assert CountField(c, rs[0]) == c;
      IdleCount(c, rs[1..]);
    }
  }

  /** Fields of distinct names that count for nothing together count for nothing each. */
  lemma CountIdle(c: Counts, rs: seq<Record>)
    requires Distinct(rs) && AllI32(rs)
    ensures CountAll(c, rs) == c <==> AllIdle(c, rs)
  {
    CountedOnce(c, rs);
    if CountAll(c, rs) == c {
      forall i | 0 <= i < |rs| ensures Idle(c, rs[i]) {
      }
    } else if AllIdle(c, rs) {
      IdleCount(c, rs);
    }
  }

  lemma FirstCountsAll(c: Counts, rs: seq<Record>)
    requires Distinct(rs) && AllI32(rs) && rs != []
    ensures CountAll(c, [rs[0]]) == CountAll(c, rs) <==> AllIdle(c, rs[1..])
  {
    var first, tail := rs[0], rs[1..];
    var c1 := CountField(c, first);
    assert CountAll(c, [first]) == c1 && rs == [first] + tail;
    hide CountAll;
    CountConcat(c, [first], tail);
    forall i | 0 <= i < |tail| ensures tail[i] == rs[i + 1] && tail[i].name != first.name {
      assert rs[0].name != rs[i + 1].name;
    }
    CountIdle(c1, tail);
    assert forall i :: 0 <= i < |tail| ==> (Idle(c, tail[i]) <==> Idle(c1, tail[i]));
  }

  /** A walk's counts are complete exactly when its unseen fields would have changed nothing. */
  lemma WalkCountedExactly(c: Counts, st: Stores, w: Walk, f: (Name, Value) -> int)
    requires Typed(st) && w.Of(st) && forall n, v :: f(n, v) == 0
    ensures CountAll(c, w.Seen(f).All()) == CountAll(c, w.All())
            <==> w.i32s == [] || AllIdle(c, w.i32s[1..])
  {
    SeenCounts(c, st, w, f);
    hide CountAll, Visited, IsListing;
    if w.i32s != [] {
      FirstCountsAll(c, w.i32s);
    }
  }

  /**
   * A report is counted completely, whatever order its stores are walked in, exactly when its I32
   * store holds at most one field, or none but zeros of names that have been counted before.
   */
  lemma ReportCountedExactly(c: Counts, st: Stores, f: (Name, Value) -> int)
    requires Typed(st) && forall n, v :: f(n, v) == 0
    ensures (forall w: Walk :: w.Of(st) ==> CountAll(c, w.Seen(f).All()) == CountAll(c, w.All()))
            <==> |st.i32s| <= 1 || forall k :: k in st.i32s ==> k in c && st.i32s[k] == VI32(0)
  {
    hide CountAll, Visited;
    if |st.i32s| <= 1 || forall k :: k in st.i32s ==> k in c && st.i32s[k] == VI32(0) {
      forall w: Walk | w.Of(st) ensures CountAll(c, w.Seen(f).All()) == CountAll(c, w.All()) {
        WalkCountedExactly(c, st, w, f);
        ListingLength(st.i32s, w.i32s);
        assert forall i :: 1 <= i < |w.i32s| ==> w.i32s[i] == w.i32s[1..][i - 1];
      }
    } else {
      var k :| k in st.i32s && !(k in c && st.i32s[k] == VI32(0));
      var w, i := SomethingFirst(st, k);
      WalkCountedExactly(c, st, w, f);
      assert !Idle(c, w.i32s[1..][i - 1]);
    }
  }

  /** A walk in which k is not the first I32 field. */
  lemma SomethingFirst(st: Stores, k: Name) returns (w: Walk, i: nat)
    requires k in st.i32s && |st.i32s| > 1
    ensures w.Of(st) && 1 <= i < |w.i32s| && w.i32s[i] == Record(k, st.i32s[k])
  {
    assert |st.i32s.Keys - {k}| > 0;
    var other :| other in st.i32s.Keys - {k};
    var rs := FirstThenAny(st.i32s, st.i32s.Keys, other);
    assert Left(st.i32s, st.i32s.Keys) == st.i32s;
    i :| 0 <= i < |rs| && rs[i] == Record(k, st.i32s[k]);
    w := Walk(AnyListing(st.bytes), rs, AnyListing(st.i64s), AnyListing(st.f64s), AnyListing(st.strings));
  }

  /** It happens to any report of two services not counted before: one of them is not counted. */
  lemma UncountedReport(x: i32, y: i32, f: (Name, Value) -> int) returns (st: Stores, w: Walk)
    requires forall n, v :: f(n, v) == 0
    ensures Typed(st) && w.Of(st) && st.i32s == map[[0] := VI32(x), [1] := VI32(y)]
    ensures |w.Seen(f).i32s| == 1 && !IsListing(st.i32s, w.Seen(f).i32s)
    ensures CountAll(map[], w.Seen(f).All()) != CountAll(map[], w.All())
  {
    st := Stores(map[], map[[0] := VI32(x), [1] := VI32(y)], map[], map[], map[]);
    assert st.i32s.Keys == {[0], [1]} && |st.i32s.Keys| == 2;
    var i;
    w, i := SomethingFirst(st, [0]);
    WalkCountedExactly(map[], st, w, f);
    assert !Idle(map[], w.i32s[1..][i - 1]);
    SeenCounts(map[], st, w, f);
    if IsListing(st.i32s, w.Seen(f).i32s) {
      ListingLength(st.i32s, w.Seen(f).i32s);
      assert false;
    }
  }

  /** One counter of Chaos by service name. */
  class Counter {
    var counts: Counts

    /** operator[] starts a new name at 0. */
    method Add(name: Name, times: int)
      modifies this
      ensures counts == old(counts)[name := (if name in old(counts) then old(counts)[name] else 0) + times]
    {
      counts := counts[name := (if name in counts then counts[name] else 0) + times];
    }

    /** One store's walk with a visitor that counts each field it is shown and returns f's value. */
    method CountStore(members: Fields, f: (Name, Value) -> int) returns (ret: int, ghost order: seq<Record>)
      modifies this
      ensures IsListing(members, order) && ret == Total(Visited(order, f), f)
      ensures counts == CountAll(old(counts), Visited(order, f))
    {
      ret := 0;
      var left := members.Keys;
      ghost var done: seq<Record> := [];
      WalkedNone(members, f);
      assert CountAll(counts, []) == counts && Total([], f) == 0;
      hide *;
      while left != {}
        invariant left <= members.Keys && Walked(members, left, done, f)
        invariant ret == Total(done, f) && counts == CountAll(old(counts), done)
      {
        var k :| k in left;
        Visit(k, members[k], old(counts), done);
        var thisRet := f(k, members[k]);
        if thisRet == 0 {
          order := WalkedToStop(members, left, done, k, f, old(counts));
          return;
        }
        WalkedOneMore(members, left, done, k, f);
        ret := ret + thisRet;
        done, left := done + [Record(k, members[k])], left - {k};
      }
      order := done;
      WalkedToEnd(members, done, f);
    }

    /** The visitor on one field. */
    method Visit(name: Name, v: Value, ghost was: Counts, ghost done: seq<Record>)
      requires counts == CountAll(was, done)
      modifies this
      ensures counts == CountAll(was, done + [Record(name, v)])
    {
      CountConcat(was, done, [Record(name, v)]);
      if v.VI32? {
        Add(name, v.i);
      }
    }

    /** A report, store by store, with a visitor that returns 0. */
    method CountReport(st: Stores) returns (ret: int, ghost walk: Walk)
      requires Typed(st)
      modifies this
      ensures walk.Of(st) && ret == 0
      ensures counts == CountAll(old(counts), walk.Seen((n, v) => 0).All())
      ensures |st.i32s| <= 1 ==> counts == CountAll(old(counts), walk.All())
    {
      var f := (n: Name, v: Value) => 0;
      ghost var was := counts;
      ghost var b, i, l, d, s;
      var r1, r2, r3, r4, r5;
      hide CountAll, Visited, Total, IsListing;
      r1, b := CountStore(st.bytes, f);
      r2, i := CountStore(st.i32s, f);
      r3, l := CountStore(st.i64s, f);
      r4, d := CountStore(st.f64s, f);
      r5, s := CountStore(st.strings, f);
      walk := Walk(b, i, l, d, s);
      CountWalk(was, walk.Seen(f));
      ret := r1 + r2 + r3 + r4 + r5;
      ZeroTotal(Visited(b, f), f);
      ZeroTotal(Visited(i, f), f);
      ZeroTotal(Visited(l, f), f);
      ZeroTotal(Visited(d, f), f);
      ZeroTotal(Visited(s, f), f);
      if |st.i32s| <= 1 {
        ListingLength(st.i32s, i);
        WalkCountedExactly(was, st, walk, f);
      }
    }
  }

  /** The visitor has seen the records in done, returning 0 for none, and left is still to come. */
  ghost predicate Walked(members: Fields, left: set<Name>, done: seq<Record>, f: (Name, Value) -> int) {
    && left <= members.Keys && IsListing(members - left, done)
    && forall i :: 0 <= i < |done| ==> f(done[i].name, done[i].value) != 0
  }

  lemma WalkedNone(members: Fields, f: (Name, Value) -> int)
    ensures Walked(members, members.Keys, [], f)
  {
    assert members - members.Keys == map[];
  }

  lemma WalkedOneMore(members: Fields, left: set<Name>, done: seq<Record>, k: Name, f: (Name, Value) -> int)
    requires Walked(members, left, done, f) && k in left && f(k, members[k]) != 0
    ensures Walked(members, left - {k}, done + [Record(k, members[k])], f)
    ensures Total(done + [Record(k, members[k])], f) == Total(done, f) + f(k, members[k])
  {
    ListingStep(members, left, done, k);
    WalkOn(done, Record(k, members[k]), f);
  }

  /** The walk stops at k, which is the last record the visitor has seen. */
  lemma WalkedToStop(members: Fields, left: set<Name>, done: seq<Record>, k: Name, f: (Name, Value) -> int, c: Counts)
    returns (order: seq<Record>)
    requires Walked(members, left, done, f) && k in left && f(k, members[k]) == 0
    ensures IsListing(members, order) && Total(Visited(order, f), f) == Total(done, f)
    ensures CountAll(c, Visited(order, f)) == CountAll(c, done + [Record(k, members[k])])
  {
    hide IsListing, CountAll;
    var rest := FirstThenAny(members, left, k);
    order := done + rest;
    ListingFinish(members, left, done, rest);
    WalkStops(done, rest, f);
    VisitedAppend(done, rest, f);
    assert Visited(rest, f) == [Record(k, members[k])];
  }

  lemma WalkedToEnd(members: Fields, done: seq<Record>, f: (Name, Value) -> int)
    requires Walked(members, {}, done, f)
    ensures IsListing(members, done) && Visited(done, f) == done
  {
    assert members - {} == members && done + [] == done;
    VisitedAppend(done, [], f);
  }

  lemma CountWalk(c: Counts, w: Walk)
    ensures CountAll(c, w.All())
            == CountAll(CountAll(CountAll(CountAll(CountAll(c, w.bytes), w.i32s), w.i64s), w.f64s), w.strings)
  {
    CountConcat(c, w.bytes, w.i32s);
    CountConcat(c, w.bytes + w.i32s, w.i64s);
    CountConcat(c, w.bytes + w.i32s + w.i64s, w.f64s);
    CountConcat(c, w.bytes + w.i32s + w.i64s + w.f64s, w.strings);
  }

  lemma {:induction false} ZeroTotal(rs: seq<Record>, f: (Name, Value) -> int)
    requires forall n, v :: f(n, v) == 0
    ensures Total(rs, f) == 0
  {
    if rs != [] {
      ZeroTotal(rs[1..], f);
    }
  }
}
