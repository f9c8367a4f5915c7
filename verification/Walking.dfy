/** Walking the stores of a blade object: any order inside a store, stopping at the first 0. */
module Walking {
  import opened Bytes
  import opened BladeValues

  /** The records a visitor sees: a store's walk stops after the first record it returns 0 for. */
  function Visited(rs: seq<Record>, f: (Name, Value) -> int): seq<Record> {
    if rs == [] then []
    else if f(rs[0].name, rs[0].value) == 0 then [rs[0]]
    else [rs[0]] + Visited(rs[1..], f)
  }

  function Total(rs: seq<Record>, f: (Name, Value) -> int): int {
    if rs == [] then 0 else f(rs[0].name, rs[0].value) + Total(rs[1..], f)
  }

  lemma {:induction false} VisitedAppend(a: seq<Record>, b: seq<Record>, f: (Name, Value) -> int)
    requires forall i :: 0 <= i < |a| ==> f(a[i].name, a[i].value) != 0
    ensures Visited(a + b, f) == a + Visited(b, f)
  {
    if a == [] {
      assert a + b == b;
    } else {
      VisitedAppend(a[1..], b, f);
      assert (a + b)[1..] == a[1..] + b;
    }
  }

  lemma {:induction false} TotalAppend(a: seq<Record>, b: seq<Record>, f: (Name, Value) -> int)
    ensures Total(a + b, f) == Total(a, f) + Total(b, f)
  {
    if a == [] {
      assert a + b == b;
    } else {
      TotalAppend(a[1..], b, f);
      assert (a + b)[1..] == a[1..] + b;
    }
  }

  lemma {:induction false} TotalOfSizes(rs: seq<Record>, f: (Name, Value) -> int)
    requires forall n, v :: f(n, v) == RecordSize(n, v)
    ensures Visited(rs, f) == rs && Total(rs, f) == RecordsSize(rs)
  {
    if rs != [] {
      TotalOfSizes(rs[1..], f);
    }
  }

  // ----- Listings, taken apart and put together -----

  lemma ListingConcat(m1: Fields, a: seq<Record>, m2: Fields, b: seq<Record>)
    requires IsListing(m1, a) && IsListing(m2, b) && m1.Keys !! m2.Keys
    ensures IsListing(m1 + m2, a + b)
  {
    forall i, j | 0 <= i < j < |a + b| ensures (a + b)[i].name != (a + b)[j].name {
      if i < |a| && |a| <= j {
        assert a[i].name in m1 && b[j - |a|].name in m2;
      }
    }
  }

  lemma ListingOne(k: Name, v: Value)
    ensures IsListing(map[k := v], [Record(k, v)])
  {
  }

  lemma ListingCons(m: Fields, k: Name, rest: seq<Record>)
    requires k in m && IsListing(m - {k}, rest)
    ensures IsListing(m, [Record(k, m[k])] + rest)
  {
    ListingOne(k, m[k]);
    ListingConcat(map[k := m[k]], [Record(k, m[k])], m - {k}, rest);
    assert map[k := m[k]] + (m - {k}) == m;
  }

  ghost function AnyListing(m: Fields): (rs: seq<Record>)
    ensures IsListing(m, rs)
    decreases |m|
  {
    if m == map[] then []
    else
      var k :| k in m;
      var rest := AnyListing(m - {k});
      ListingCons(m, k, rest);
      [Record(k, m[k])] + rest
  }

  /** The part of m the walk has left. */
  ghost function Left(m: Fields, keys: set<Name>): Fields {
    map k | k in m && k in keys :: m[k]
  }

  /** The walk takes k out of keys after the records in done. */
  lemma ListingStep(m: Fields, keys: set<Name>, done: seq<Record>, k: Name)
    requires k in keys && k in m && IsListing(m - keys, done)
    ensures IsListing(m - (keys - {k}), done + [Record(k, m[k])])
  {
    ListingOne(k, m[k]);
    ListingConcat(m - keys, done, map[k := m[k]], [Record(k, m[k])]);
    assert m - keys + map[k := m[k]] == m - (keys - {k});
  }

  lemma ListingFinish(m: Fields, keys: set<Name>, done: seq<Record>, rest: seq<Record>)
    requires IsListing(m - keys, done) && IsListing(Left(m, keys), rest)
    ensures IsListing(m, done + rest)
  {
    ListingConcat(m - keys, done, Left(m, keys), rest);
    assert m - keys + Left(m, keys) == m;
  }

  // ----- The five stores, one after the other -----

  /** The five stores of an object, each field tagged with its store's type. */
  datatype Stores = Stores(bytes: Fields, i32s: Fields, i64s: Fields, f64s: Fields, strings: Fields)
  {
    /** No name is in two stores, and together they hold m. */
    ghost predicate Partition(m: Fields) {
      && bytes.Keys !! i32s.Keys !! i64s.Keys !! f64s.Keys !! strings.Keys
      && bytes + i32s + i64s + f64s + strings == m
    }
  }

  /** The order each store happened to be walked in. */
  datatype Walk = Walk(bytes: seq<Record>, i32s: seq<Record>,
                       i64s: seq<Record>, f64s: seq<Record>, strings: seq<Record>)
  {
    ghost predicate Of(st: Stores) {
      && IsListing(st.bytes, bytes) && IsListing(st.i32s, i32s) && IsListing(st.i64s, i64s)
      && IsListing(st.f64s, f64s) && IsListing(st.strings, strings)
    }

    function All(): seq<Record> {
      bytes + i32s + i64s + f64s + strings
    }

    /** The records a visitor sees: a 0 ends the walk of one store, not of the others. */
    function Seen(f: (Name, Value) -> int): Walk {
      Walk(Visited(bytes, f), Visited(i32s, f), Visited(i64s, f), Visited(f64s, f), Visited(strings, f))
    }
  }

  /** Walking the stores one after the other lists every field of the object once. */
  lemma WalkLists(m: Fields, st: Stores, w: Walk)
    requires st.Partition(m) && w.Of(st)
    ensures IsListing(m, w.All())
  {
    ListingConcat(st.bytes, w.bytes, st.i32s, w.i32s);
    ListingConcat(st.bytes + st.i32s, w.bytes + w.i32s, st.i64s, w.i64s);
    ListingConcat(st.bytes + st.i32s + st.i64s, w.bytes + w.i32s + w.i64s, st.f64s, w.f64s);
    ListingConcat(st.bytes + st.i32s + st.i64s + st.f64s, w.bytes + w.i32s + w.i64s + w.f64s, st.strings, w.strings);
  }

  lemma WalkTotal(w: Walk, f: (Name, Value) -> int)
    ensures Total(w.All(), f)
            == Total(w.bytes, f) + Total(w.i32s, f) + Total(w.i64s, f) + Total(w.f64s, f) + Total(w.strings, f)
  {
    TotalAppend(w.bytes, w.i32s, f);
    TotalAppend(w.bytes + w.i32s, w.i64s, f);
    TotalAppend(w.bytes + w.i32s + w.i64s, w.f64s, f);
    TotalAppend(w.bytes + w.i32s + w.i64s + w.f64s, w.strings, f);
  }

  lemma WalkOfSizes(w: Walk, f: (Name, Value) -> int)
    requires forall n, v :: f(n, v) == RecordSize(n, v)
    ensures w.Seen(f) == w && Total(w.All(), f) == RecordsSize(w.All())
  {
    TotalOfSizes(w.All(), f);
    TotalOfSizes(w.bytes, f);
    TotalOfSizes(w.i32s, f);
    TotalOfSizes(w.i64s, f);
    TotalOfSizes(w.f64s, f);
    TotalOfSizes(w.strings, f);
  }

  /** A visitor that returns the size of each record adds up to the size of the whole map. */
  lemma WalkSize(m: Fields, st: Stores, w: Walk, f: (Name, Value) -> int)
    requires st.Partition(m) && w.Of(st)
    requires forall n, v :: f(n, v) == RecordSize(n, v)
    ensures Total(w.Seen(f).All(), f) == FieldsSize(m)
  {
    WalkOfSizes(w, f);
    WalkLists(m, st, w);
    ListingSize(m, w.All());
  }

  lemma NothingListed(m: Fields)
    ensures IsListing(m, []) ==> m == map[]
  {
    if m != map[] {
      var k :| k in m;
      assert Record(k, m[k]) !in [];
    }
  }

  lemma {:induction false} ListingLength(m: Fields, rs: seq<Record>)
    requires IsListing(m, rs)
    ensures |rs| == |m|
    decreases rs
  {
    if rs == [] {
      NothingListed(m);
    } else {
      ListingTail(m, rs);
      ListingLength(m - {rs[0].name}, rs[1..]);
      assert m.Keys == (m - {rs[0].name}).Keys + {rs[0].name};
    }
  }

  // ----- The loop over one store -----

  lemma WalkOn(done: seq<Record>, r: Record, f: (Name, Value) -> int)
    ensures Total(done + [r], f) == Total(done, f) + f(r.name, r.value)
  {
    TotalAppend(done, [r], f);
  }

  lemma WalkStops(done: seq<Record>, rest: seq<Record>, f: (Name, Value) -> int)
    requires forall i :: 0 <= i < |done| ==> f(done[i].name, done[i].value) != 0
    requires rest == [] || f(rest[0].name, rest[0].value) == 0
    ensures Total(Visited(done + rest, f), f) == Total(done, f)
  {
    VisitedAppend(done, rest, f);
    TotalAppend(done, Visited(rest, f), f);
  }

  /** One store's part of Iterate. */
  method IterateStore(members: Fields, f: (Name, Value) -> int) returns (ret: int, ghost order: seq<Record>)
    ensures IsListing(members, order) && ret == Total(Visited(order, f), f)
    ensures exists rs :: IsListing(members, rs) && ret == Total(Visited(rs, f), f)
  {
    ret := 0;
    var left := members.Keys;
    ghost var done: seq<Record> := [];
    assert members - left == map[];
    while left != {}
      invariant left <= members.Keys && IsListing(members - left, done)
      invariant forall i :: 0 <= i < |done| ==> f(done[i].name, done[i].value) != 0
      invariant ret == Total(done, f)
    {
      var k :| k in left;
      var thisRet := f(k, members[k]);
      if thisRet == 0 {
        ghost var rest := FirstThenAny(members, left, k);
        order := done + rest;
        ListingFinish(members, left, done, rest);
        WalkStops(done, rest, f);
        return;
      }
      ListingStep(members, left, done, k);
      WalkOn(done, Record(k, members[k]), f);
      ret := ret + thisRet;
      done, left := done + [Record(k, members[k])], left - {k};
    }
    order := done;
    assert members - left == members && done + [] == done;
    WalkStops(done, [], f);
  }

  ghost function FirstThenAny(m: Fields, keys: set<Name>, k: Name): (rs: seq<Record>)
    requires k in keys && k in m
    ensures IsListing(Left(m, keys), rs) && rs != [] && rs[0] == Record(k, m[k])
  {
    var all := Left(m, keys);
    ListingCons(all, k, AnyListing(all - {k}));
    [Record(k, m[k])] + AnyListing(all - {k})
  }
}
