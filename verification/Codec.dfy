/** The codec as it runs: encoders that write into a buffer, a cursor that reads one. */
module Codec {
  import opened Bytes
  import opened BladeValues
  import opened Wire
  import opened WireTheorems
  import opened Walking
  import opened Blade

  // ----- Encoding -----

  function NameExpectedSize(name: Name): nat {
    2 + (|name| + 4)
  }

  function ValueExpectedSize(v: Value): nat {
    match v
    case VByte(_) => 2 + 1
    case VI32(_) => 2 + 4
    case VI64(_) => 2 + 8
    case VF64(_) => 2 + 8
    case VString(s) => 2 + (|s| + 4)
  }

  function HeaderExpectedSize(service: seq<byte>): nat {
    HEADER_SIZE + 4 + |service|
  }

  /** What the two encoders of a field announce is what its record takes on the wire. */
  lemma ExpectedSizes(name: Name, v: Value)
    ensures NameExpectedSize(name) + ValueExpectedSize(v) == RecordSize(name, v) == |RecordBytes(Record(name, v))|
  {
  }

  class Encoder {
    var destOffset: nat

    constructor ()
      ensures destOffset == 0
    {
      destOffset := 0;
    }

    method Put(dest: array<byte>, base: nat, val: seq<byte>)
      requires base + destOffset + |val| <= dest.Length
      modifies this, dest
      ensures destOffset == old(destOffset) + |val|
      ensures dest[..] == Patch(old(dest[..]), base + old(destOffset), val)
    {
      forall i | 0 <= i < |val| {
        dest[base + destOffset + i] := val[i];
      }
      destOffset := destOffset + |val|;
    }

    method PutTwo(dest: array<byte>, base: nat, x: seq<byte>, y: seq<byte>)
      requires base + destOffset + |x| + |y| <= dest.Length
      modifies this, dest
      ensures destOffset == old(destOffset) + |x| + |y|
      ensures dest[..] == Patch(old(dest[..]), base + old(destOffset), x + y)
    {
      Put(dest, base, x);
      Put(dest, base, y);
      PatchTwice(old(dest[..]), base + old(destOffset), x, y);
    }

    /** A length as a u32, then the characters. */
    method PutString(dest: array<byte>, base: nat, s: seq<byte>)
      requires base + destOffset + 4 + |s| <= dest.Length
      modifies this, dest
      ensures destOffset == old(destOffset) + 4 + |s|
      ensures dest[..] == Patch(old(dest[..]), base + old(destOffset), StringBytes(s))
    {
      PutTwo(dest, base, LE(|s|, 4), s);
    }

    method EncodeName(dest: array<byte>, base: nat, name: Name)
      requires destOffset == 0 && base + NameExpectedSize(name) <= dest.Length
      modifies this, dest
      ensures destOffset == NameExpectedSize(name)
      ensures dest[..] == Patch(old(dest[..]), base, LE(NAME_TAG, 2) + StringBytes(name))
    {
      Put(dest, base, LE(NAME_TAG, 2));
      PutString(dest, base, name);
      PatchTwice(old(dest[..]), base, LE(NAME_TAG, 2), StringBytes(name));
    }

    method EncodeValue(dest: array<byte>, base: nat, v: Value)
      requires destOffset == 0 && base + ValueExpectedSize(v) <= dest.Length
      modifies this, dest
      ensures destOffset == ValueExpectedSize(v)
      ensures dest[..] == Patch(old(dest[..]), base, LE(Tag(v.Type()), 2) + PayloadBytes(v))
    {
      ghost var tag := LE(Tag(v.Type()), 2);
      Put(dest, base, LE(Tag(v.Type()), 2));
      hide Patch, LE, Tag;
      PutPayload(dest, base, v);
      PatchTwice(old(dest[..]), base, tag, PayloadBytes(v));
    }

    method PutPayload(dest: array<byte>, base: nat, v: Value)
      requires base + destOffset + ValueSize(v) <= dest.Length
      modifies this, dest
      ensures destOffset == old(destOffset) + ValueSize(v)
      ensures dest[..] == Patch(old(dest[..]), base + old(destOffset), PayloadBytes(v))
    {
      hide Patch;
      match v {
        case VByte(b) => Put(dest, base, [b]);
        case VI32(i) => Put(dest, base, I32Bytes(i));
        case VI64(l) => Put(dest, base, I64Bytes(l));
        case VF64(d) => Put(dest, base, d);
        case VString(s) => PutString(dest, base, s);
      }
    }

    method EncodeHeader(dest: array<byte>, base: nat, header: Header, service: seq<byte>)
      requires destOffset == 0 && base + HeaderExpectedSize(service) <= dest.Length
      modifies this, dest
      ensures destOffset == HeaderExpectedSize(service)
      ensures dest[..] == Patch(old(dest[..]), base, HeaderBytes(header) + StringBytes(service))
    {
      Put(dest, base, HeaderBytes(header));
      PutString(dest, base, service);
      PatchTwice(old(dest[..]), base, HeaderBytes(header), StringBytes(service));
    }
  }

  /** The visitor's work on one field: the name encoder, then the value encoder behind it. */
  method EncodeField(name: Name, v: Value, dest: array<byte>, at: nat) returns (n: nat)
    requires at + RecordSize(name, v) <= dest.Length
    modifies dest
    ensures n == NameExpectedSize(name) + ValueExpectedSize(v) == RecordSize(name, v)
    ensures dest[..] == Patch(old(dest[..]), at, RecordBytes(Record(name, v)))
  {
    ExpectedSizes(name, v);
    hide Patch, LE, StringBytes, PayloadBytes, RecordSize, ValueSize;
    var nameEnc := new Encoder();
    nameEnc.EncodeName(dest, at, name);
    n := NameExpectedSize(name);
    var enc := new Encoder();
    enc.EncodeValue(dest, at + n, v);
    n := n + ValueExpectedSize(v);
    ghost var x, y := LE(NAME_TAG, 2) + StringBytes(name), LE(Tag(v.Type()), 2) + PayloadBytes(v);
    PatchTwice(old(dest[..]), at, x, y);
    assert x + y == RecordBytes(Record(name, v));
  }

  /** The records of one store that are written: all before the first that is larger than remain. */
  function Emitted(rs: seq<Record>, remain: int): seq<Record> {
    if rs == [] || RecordSize(rs[0].name, rs[0].value) > remain then []
    else [rs[0]] + Emitted(rs[1..], remain)
  }

  ghost predicate AllWithin(rs: seq<Record>, remain: int) {
    forall i :: 0 <= i < |rs| ==> RecordSize(rs[i].name, rs[i].value) <= remain
  }

  lemma {:induction false} EmittedSplit(done: seq<Record>, rest: seq<Record>, remain: int)
    requires AllWithin(done, remain)
    ensures Emitted(done + rest, remain) == done + Emitted(rest, remain)
  {
    if done != [] {
      assert (done + rest)[1..] == done[1..] + rest;
      assert AllWithin(done[1..], remain);
      EmittedSplit(done[1..], rest, remain);
    } else {
      assert done + rest == rest;
    }
  }

  // ----- The room encoding may take -----

  /** The fields that are small enough to be written. */
  ghost function Fitting(m: Fields, remain: int): Fields {
    map k | k in m && RecordSize(k, m[k]) <= remain :: m[k]
  }

  /** No order of the fields writes more than all those that fit. */
  lemma {:induction false} EmittedBound(m: Fields, rs: seq<Record>, remain: int)
    requires IsListing(m, rs)
    ensures RecordsSize(Emitted(rs, remain)) <= FieldsSize(Fitting(m, remain))
    decreases rs
  {
    if rs != [] && RecordSize(rs[0].name, rs[0].value) <= remain {
      var k, all := rs[0].name, Fitting(m, remain);
      EmittedFirst(rs, remain);
      assert k in all && all[k] == rs[0].value && all - {k} == Fitting(m - {k}, remain);
      ListingTail(m, rs);
      hide IsListing, Emitted, Fitting, RecordSize, RecordsSize, FieldsSize;
      EmittedBound(m - {k}, rs[1..], remain);
      FieldsSizeRemove(all, k);
    }
  }

  lemma EmittedFirst(rs: seq<Record>, remain: int)
    requires rs != [] && RecordSize(rs[0].name, rs[0].value) <= remain
    ensures RecordsSize(Emitted(rs, remain))
            == RecordSize(rs[0].name, rs[0].value) + RecordsSize(Emitted(rs[1..], remain))
  {
    assert Emitted(rs, remain)[1..] == Emitted(rs[1..], remain);
  }

  lemma NoneFits(rs: seq<Record>, remain: int)
    requires forall i :: 0 <= i < |rs| ==> RecordSize(rs[i].name, rs[i].value) > remain
    ensures Emitted(rs, remain) == []
  {
  }

  lemma FittingSplit(m: Fields, remain: int)
    ensures var all := Fitting(m, remain);
            all + (m - all.Keys) == m && all.Keys !! (m - all.Keys).Keys
    ensures forall k :: k in m - Fitting(m, remain).Keys ==> RecordSize(k, m[k]) > remain
  {
  }

  /** An order that writes all those that fit: they come first. */
  lemma FittingFirst(m: Fields, remain: int) returns (rs: seq<Record>)
    ensures IsListing(m, rs) && RecordsSize(Emitted(rs, remain)) == FieldsSize(Fitting(m, remain))
    ensures FieldsSize(Fitting(m, remain)) <= RecordsSize(rs) == FieldsSize(m)
  {
    var all := Fitting(m, remain);
    var done, rest := AnyListing(all), AnyListing(m - all.Keys);
    assert AllWithin(done, remain);
    FittingSplit(m, remain);
    NoneFits(rest, remain);
    hide Emitted, Fitting, RecordSize, AllWithin;
    ListingConcat(all, done, m - all.Keys, rest);
    hide IsListing;
    rs := done + rest;
    EmittedSplit(done, rest, remain);
    assert done + [] == done;
    ListingSize(all, done);
    ListingSize(m, rs);
    RecordsSizeConcat(done, rest);
  }

  lemma {:induction false} RecordsBytesSnoc(rs: seq<Record>, r: Record)
    ensures RecordsBytes(rs + [r]) == RecordsBytes(rs) + RecordBytes(r)
  {
    if rs == [] {
      assert [r][1..] == [] && rs + [r] == [r];
    } else {
      RecordsBytesSnoc(rs[1..], r);
      assert (rs + [r])[1..] == rs[1..] + [r];
      Regroup(RecordBytes(rs[0]), RecordsBytes(rs[1..]), RecordBytes(r));
    }
  }

  /** What has been walked, with one field more, takes no more room than all fields that fit. */
  lemma RoomFor(items: Fields, left: set<Name>, done: seq<Record>, k: Name, remain: int)
    requires left <= items.Keys && k in left && IsListing(items - left, done)
    requires AllWithin(done, remain) && RecordSize(k, items[k]) <= remain
    ensures RecordsSize(done) + RecordSize(k, items[k]) <= FieldsSize(Fitting(items, remain))
  {
    var r, rest := Record(k, items[k]), AnyListing(Left(items, left - {k}));
    ListingStep(items, left, done, k);
    ListingFinish(items, left - {k}, done + [r], rest);
    EmittedBound(items, done + [r] + rest, remain);
    EmittedSplit(done + [r], rest, remain);
    RecordsSizeConcat(done + [r], Emitted(rest, remain));
    RecordsSizeConcat(done, [r]);
    assert RecordsSize([r]) == RecordSize(k, items[k]) + RecordsSize([]);
  }

  lemma OneMoreWritten(s: seq<byte>, at: nat, done: seq<Record>, r: Record)
    requires at + RecordsSize(done) + RecordSize(r.name, r.value) <= |s|
    ensures RecordsSize(done + [r]) == RecordsSize(done) + RecordSize(r.name, r.value)
    ensures Patch(Patch(s, at, RecordsBytes(done)), at + RecordsSize(done), RecordBytes(r))
            == Patch(s, at, RecordsBytes(done + [r]))
  {
    hide Patch, RecordBytes, RecordsBytes, PayloadBytes;
    RecordsBytesSnoc(done, r);
    PatchTwice(s, at, RecordsBytes(done), RecordBytes(r));
  }

  /** The visitor has written the records in done, all small enough, and left is still to come. */
  ghost predicate Walked(items: Fields, left: set<Name>, done: seq<Record>, remain: int) {
    && left <= items.Keys && IsListing(items - left, done)
    && AllWithin(done, remain) && RecordsSize(done) <= FieldsSize(Fitting(items, remain))
  }

  lemma WalkedNone(items: Fields, remain: int)
    ensures Walked(items, items.Keys, [], remain)
  {
    assert items - items.Keys == map[];
  }

  lemma WalkedOneMore(items: Fields, left: set<Name>, done: seq<Record>, k: Name, remain: int)
    requires Walked(items, left, done, remain) && k in left && RecordSize(k, items[k]) <= remain
    ensures Walked(items, left - {k}, done + [Record(k, items[k])], remain)
    ensures RecordsSize(done + [Record(k, items[k])]) == RecordsSize(done) + RecordSize(k, items[k])
    ensures RecordsSize(done + [Record(k, items[k])]) <= FieldsSize(Fitting(items, remain))
  {
    var r := Record(k, items[k]);
    RoomFor(items, left, done, k, remain);
    ListingStep(items, left, done, k);
    RecordsSizeConcat(done, [r]);
    assert RecordsSize([r]) == RecordSize(k, items[k]) + RecordsSize([]);
  }

  /** The walk ends after done: nothing is left, or the next field does not fit. */
  lemma WalkedToEnd(items: Fields, left: set<Name>, done: seq<Record>, remain: int) returns (order: seq<Record>)
    requires Walked(items, left, done, remain)
    requires left == {} || exists k :: k in left && RecordSize(k, items[k]) > remain
    ensures IsListing(items, order) && Emitted(order, remain) == done
  {
    hide AllWithin, IsListing;
    if left == {} {
      assert items - left == items && done + [] == done;
      order := done;
      EmittedSplit(done, [], remain);
    } else {
      var k :| k in left && RecordSize(k, items[k]) > remain;
      var rest := FirstThenAny(items, left, k);
      order := done + rest;
      ListingFinish(items, left, done, rest);
      EmittedSplit(done, rest, remain);
      assert done + [] == done;
    }
  }

  /** The visitor on a field that fits: its record goes behind those already written. */
  method EncodeNext(name: Name, v: Value, dest: array<byte>, at: nat, written: nat,
                    ghost was: seq<byte>, ghost done: seq<Record>)
    returns (n: nat)
    requires written == RecordsSize(done) && at + written + RecordSize(name, v) <= dest.Length == |was|
    requires dest[..] == Patch(was, at, RecordsBytes(done))
    modifies dest
    ensures n == written + RecordSize(name, v) == RecordsSize(done + [Record(name, v)])
    ensures dest[..] == Patch(was, at, RecordsBytes(done + [Record(name, v)]))
  {
    hide Patch, RecordsBytes, RecordBytes, RecordSize, RecordsSize;
    n := EncodeField(name, v, dest, at + written);
    OneMoreWritten(was, at, done, Record(name, v));
    n := written + n;
  }

  /** One store's part of the encoding visitor's walk. */
  method EncodeStore(items: Fields, dest: array<byte>, at: nat, remain: int)
    returns (ret: nat, ghost order: seq<Record>)
    requires at + FieldsSize(Fitting(items, remain)) <= dest.Length
    modifies dest
    ensures IsListing(items, order)
    ensures ret == RecordsSize(Emitted(order, remain)) <= FieldsSize(Fitting(items, remain))
    ensures dest[..] == Patch(old(dest[..]), at, RecordsBytes(Emitted(order, remain)))
  {
    ghost var was := dest[..];
    ghost var done: seq<Record> := [];
    var left := items.Keys;
    ret := 0;
    WalkedNone(items, remain);
    PatchEmpty(was, at);
    assert RecordsBytes(done) == [] && RecordsSize(done) == 0;
    hide *;
    while left != {}
      invariant left <= items.Keys && Walked(items, left, done, remain)
      invariant ret == RecordsSize(done) <= FieldsSize(Fitting(items, remain))
      invariant dest[..] == Patch(was, at, RecordsBytes(done))
    {
      var k :| k in left;
      ExpectedSizes(k, items[k]);
      if NameExpectedSize(k) + ValueExpectedSize(items[k]) > remain {
        break;
      }
      WalkedOneMore(items, left, done, k, remain);
      ret := EncodeNext(k, items[k], dest, at, ret, was, done);
      done, left := done + [Record(k, items[k])], left - {k};
    }
    order := WalkedToEnd(items, left, done, remain);
  }

  function EmittedWalk(w: Walk, remain: int): Walk {
    Walk(Emitted(w.bytes, remain), Emitted(w.i32s, remain), Emitted(w.i64s, remain),
         Emitted(w.f64s, remain), Emitted(w.strings, remain))
  }

  /** Every byte Encode writes; the room left is never reduced while the fields are walked. */
  function EncodedBytes(h: Header, service: seq<byte>, w: Walk, limit: nat): seq<byte> {
    if HeaderExpectedSize(service) > limit then []
    else HeaderBytes(h) + StringBytes(service)
         + RecordsBytes(EmittedWalk(w, limit - HeaderExpectedSize(service)).All())
  }

  lemma EmittedAll(rs: seq<Record>, remain: int)
    requires AllWithin(rs, remain)
    ensures Emitted(rs, remain) == rs
  {
    EmittedSplit(rs, [], remain);
    assert rs + [] == rs;
  }

  /** With room for the whole object, every field is written: the bytes are the message. */
  lemma EncodedInFull(o: Obj, st: Stores, w: Walk, limit: nat)
    requires WellSized(o) && st.Partition(o.fields) && w.Of(st)
    requires limit >= EncodedSize(o)
    ensures IsListing(o.fields, w.All())
    ensures EncodedBytes(o.header, o.service, w, limit) == Message(o.header, o.service, w.All())
    ensures |EncodedBytes(o.header, o.service, w, limit)| == EncodedSize(o)
  {
    hide HeaderBytes, StringBytes, RecordBytes, RecordsBytes, RecordsSize, IsListing, FieldsSize, Emitted, RecordSize;
    var remain := limit - HeaderExpectedSize(o.service);
    WalkLists(o.fields, st, w);
    ListingSize(o.fields, w.All());
    AllWithinListing(o.fields, w.All());
    WalkIn(w, remain);
    EmittedAll(w.bytes, remain);
    EmittedAll(w.i32s, remain);
    EmittedAll(w.i64s, remain);
    EmittedAll(w.f64s, remain);
    EmittedAll(w.strings, remain);
    Regroup(HeaderBytes(o.header), StringBytes(o.service), RecordsBytes(w.All()));
  }

  lemma AllWithinListing(m: Fields, rs: seq<Record>)
    requires IsListing(m, rs)
    ensures forall remain :: remain >= FieldsSize(m) ==> AllWithin(rs, remain)
  {
    forall i | 0 <= i < |rs| ensures RecordSize(rs[i].name, rs[i].value) <= FieldsSize(m) {
      RecordFits(m, rs, i);
    }
  }

  lemma WalkIn(w: Walk, remain: int)
    requires AllWithin(w.All(), remain)
    ensures AllWithin(w.bytes, remain) && AllWithin(w.i32s, remain) && AllWithin(w.i64s, remain)
    ensures AllWithin(w.f64s, remain) && AllWithin(w.strings, remain)
  {
    var all := w.All();
    var n1 := |w.bytes|;
    var n2 := n1 + |w.i32s|;
    var n3 := n2 + |w.i64s|;
    var n4 := n3 + |w.f64s|;
    assert forall i :: 0 <= i < |w.bytes| ==> w.bytes[i] == all[i];
    assert forall i :: 0 <= i < |w.i32s| ==> w.i32s[i] == all[n1 + i];
    assert forall i :: 0 <= i < |w.i64s| ==> w.i64s[i] == all[n2 + i];
    assert forall i :: 0 <= i < |w.f64s| ==> w.f64s[i] == all[n3 + i];
    assert forall i :: 0 <= i < |w.strings| ==> w.strings[i] == all[n4 + i];
  }

  lemma {:induction false} RecordsBytesConcat(a: seq<Record>, b: seq<Record>)
    ensures RecordsBytes(a + b) == RecordsBytes(a) + RecordsBytes(b)
  {
    if a == [] {
      assert a + b == b;
    } else {
      assert (a + b)[1..] == a[1..] + b;
      RecordsBytesConcat(a[1..], b);
      Regroup(RecordBytes(a[0]), RecordsBytes(a[1..]), RecordsBytes(b));
    }
  }

  ghost function StoresSize(st: Stores): nat {
    FieldsSize(st.bytes) + FieldsSize(st.i32s) + FieldsSize(st.i64s) + FieldsSize(st.f64s) + FieldsSize(st.strings)
  }

  lemma PartitionSize(m: Fields, st: Stores)
    requires st.Partition(m)
    ensures FieldsSize(m) == StoresSize(st)
  {
    var w := AnyWalk(st);
    WalkLists(m, st, w);
    ListingSize(m, w.All());
    ListingSize(st.bytes, w.bytes);
    ListingSize(st.i32s, w.i32s);
    ListingSize(st.i64s, w.i64s);
    ListingSize(st.f64s, w.f64s);
    ListingSize(st.strings, w.strings);
    AllSize(w);
  }

  lemma AllSize(w: Walk)
    ensures RecordsSize(w.All()) == RecordsSize(w.bytes) + RecordsSize(w.i32s) + RecordsSize(w.i64s)
                                    + RecordsSize(w.f64s) + RecordsSize(w.strings)
  {
    RecordsSizeConcat(w.bytes, w.i32s);
    RecordsSizeConcat(w.bytes + w.i32s, w.i64s);
    RecordsSizeConcat(w.bytes + w.i32s + w.i64s, w.f64s);
    RecordsSizeConcat(w.bytes + w.i32s + w.i64s + w.f64s, w.strings);
  }

  ghost function AnyWalk(st: Stores): (w: Walk)
    ensures w.Of(st)
  {
    Walk(AnyListing(st.bytes), AnyListing(st.i32s), AnyListing(st.i64s), AnyListing(st.f64s), AnyListing(st.strings))
  }

  ghost function FittingStores(st: Stores, remain: int): Stores {
    Stores(Fitting(st.bytes, remain), Fitting(st.i32s, remain), Fitting(st.i64s, remain),
           Fitting(st.f64s, remain), Fitting(st.strings, remain))
  }

  lemma FittingUnion(a: Fields, b: Fields, remain: int)
    requires a.Keys !! b.Keys
    ensures Fitting(a + b, remain) == Fitting(a, remain) + Fitting(b, remain)
    ensures Fitting(a, remain).Keys !! Fitting(b, remain).Keys
  {
  }

  lemma FittingPartition(m: Fields, st: Stores, remain: int)
    requires st.Partition(m)
    ensures FittingStores(st, remain).Partition(Fitting(m, remain))
  {
    var f := FittingStores(st, remain);
    FittingUnion(st.bytes, st.i32s, remain);
    FittingUnion(st.bytes + st.i32s, st.i64s, remain);
    FittingUnion(st.bytes + st.i32s + st.i64s, st.f64s, remain);
    FittingUnion(st.bytes + st.i32s + st.i64s + st.f64s, st.strings, remain);
    hide Fitting;
  }

  /** The most that is written with this limit: nothing, or the header and every field that fits. */
  ghost function MostWritten(service: seq<byte>, fitting: Stores, limit: nat): nat {
    if HeaderExpectedSize(service) > limit then 0 else HeaderExpectedSize(service) + StoresSize(fitting)
  }

  /** The same for an object: the room its encoding asks for. */
  ghost function RoomNeeded(o: Obj, limit: nat): nat {
    if HeaderExpectedSize(o.service) > limit then 0
    else HeaderExpectedSize(o.service) + FieldsSize(Fitting(o.fields, limit - HeaderExpectedSize(o.service)))
  }

  lemma RoomOfStores(o: Obj, st: Stores, limit: nat)
    requires st.Partition(o.fields)
    ensures MostWritten(o.service, FittingStores(st, limit - HeaderExpectedSize(o.service)), limit)
            == RoomNeeded(o, limit)
  {
    var remain := limit - HeaderExpectedSize(o.service);
    FittingPartition(o.fields, st, remain);
    PartitionSize(Fitting(o.fields, remain), FittingStores(st, remain));
  }

  lemma EncodedLength(h: Header, service: seq<byte>, w: Walk, limit: nat)
    ensures HeaderExpectedSize(service) > limit ==> |EncodedBytes(h, service, w, limit)| == 0
    ensures HeaderExpectedSize(service) <= limit ==>
              var remain := limit - HeaderExpectedSize(service);
              |EncodedBytes(h, service, w, limit)|
              == HeaderExpectedSize(service) + RecordsSize(Emitted(w.bytes, remain))
                 + RecordsSize(Emitted(w.i32s, remain)) + RecordsSize(Emitted(w.i64s, remain))
                 + RecordsSize(Emitted(w.f64s, remain)) + RecordsSize(Emitted(w.strings, remain))
  {
    hide Emitted, RecordsSize, HeaderBytes, StringBytes, RecordsBytes;
    AllSize(EmittedWalk(w, limit - HeaderExpectedSize(service)));
  }

  lemma RoomLength(o: Obj, st: Stores, limit: nat)
    requires st.Partition(o.fields)
    ensures HeaderExpectedSize(o.service) > limit ==> RoomNeeded(o, limit) == 0
    ensures HeaderExpectedSize(o.service) <= limit ==>
              var remain := limit - HeaderExpectedSize(o.service);
              RoomNeeded(o, limit)
              == HeaderExpectedSize(o.service) + FieldsSize(Fitting(st.bytes, remain))
                 + FieldsSize(Fitting(st.i32s, remain)) + FieldsSize(Fitting(st.i64s, remain))
                 + FieldsSize(Fitting(st.f64s, remain)) + FieldsSize(Fitting(st.strings, remain))
  {
    RoomOfStores(o, st, limit);
    RoomByStore(st, limit - HeaderExpectedSize(o.service));
    hide Fitting, FieldsSize, RoomNeeded, Stores.Partition, FittingStores, StoresSize;
  }

  /** That room is enough for every order the fields may be walked in. */
  lemma RoomIsEnough(o: Obj, st: Stores, w: Walk, limit: nat)
    requires st.Partition(o.fields) && w.Of(st)
    ensures |EncodedBytes(o.header, o.service, w, limit)| <= RoomNeeded(o, limit)
  {
    hide EncodedBytes, RoomNeeded, Emitted, Fitting, FieldsSize, RecordsSize, Stores.Partition, IsListing, Walk.Of;
    EmittedBounds(st, w, limit - HeaderExpectedSize(o.service));
    EncodedLength(o.header, o.service, w, limit);
    RoomLength(o, st, limit);
  }

  lemma EmittedBounds(st: Stores, w: Walk, remain: int)
    requires w.Of(st)
    ensures RecordsSize(Emitted(w.bytes, remain)) <= FieldsSize(Fitting(st.bytes, remain))
    ensures RecordsSize(Emitted(w.i32s, remain)) <= FieldsSize(Fitting(st.i32s, remain))
    ensures RecordsSize(Emitted(w.i64s, remain)) <= FieldsSize(Fitting(st.i64s, remain))
    ensures RecordsSize(Emitted(w.f64s, remain)) <= FieldsSize(Fitting(st.f64s, remain))
    ensures RecordsSize(Emitted(w.strings, remain)) <= FieldsSize(Fitting(st.strings, remain))
  {
    hide Emitted, Fitting, FieldsSize, RecordsSize;
    EmittedBound(st.bytes, w.bytes, remain);
    EmittedBound(st.i32s, w.i32s, remain);
    EmittedBound(st.i64s, w.i64s, remain);
    EmittedBound(st.f64s, w.f64s, remain);
    EmittedBound(st.strings, w.strings, remain);
  }

  /** And some order takes all of it. */
  lemma RoomIsTaken(o: Obj, st: Stores, limit: nat) returns (w: Walk)
    requires st.Partition(o.fields)
    ensures w.Of(st) && |EncodedBytes(o.header, o.service, w, limit)| == RoomNeeded(o, limit)
  {
    hide EncodedBytes, RoomNeeded, Emitted, Fitting, FieldsSize, RecordsSize, IsListing, Stores.Partition;
    var remain := limit - HeaderExpectedSize(o.service);
    var b := FittingFirst(st.bytes, remain);
    var i := FittingFirst(st.i32s, remain);
    var l := FittingFirst(st.i64s, remain);
    var d := FittingFirst(st.f64s, remain);
    var s := FittingFirst(st.strings, remain);
    w := Walk(b, i, l, d, s);
    EncodedLength(o.header, o.service, w, limit);
    RoomLength(o, st, limit);
  }

  /**
   * The limit bounds each field and not their sum: every order writes at most limit bytes
   * exactly when the header and all fields that fit do, taken together.
   */
  lemma LimitKeptExactly(o: Obj, st: Stores, limit: nat)
    requires st.Partition(o.fields)
    ensures (forall w: Walk :: w.Of(st) ==> |EncodedBytes(o.header, o.service, w, limit)| <= limit)
            <==> RoomNeeded(o, limit) <= limit
  {
    hide EncodedBytes, RoomNeeded;
    var most := RoomIsTaken(o, st, limit);
    forall w: Walk | w.Of(st) ensures |EncodedBytes(o.header, o.service, w, limit)| <= RoomNeeded(o, limit) {
      RoomIsEnough(o, st, w, limit);
    }
  }

  /** No more is ever taken than the whole object takes. */
  lemma RoomWithinSize(o: Obj, limit: nat)
    ensures RoomNeeded(o, limit) <= EncodedSize(o)
  {
    var rs := FittingFirst(o.fields, limit - HeaderExpectedSize(o.service));
  }

  /** Two fields that fit one by one and not together, and an order in which they exceed the limit. */
  lemma LimitExceeded(h: Header) returns (o: Obj, st: Stores, w: Walk, limit: nat)
    ensures o.header == h && |o.fields| == 2 && st.Partition(o.fields) && w.Of(st)
    ensures forall k :: k in o.fields ==> HeaderExpectedSize(o.service) + RecordSize(k, o.fields[k]) <= limit
    ensures |EncodedBytes(o.header, o.service, w, limit)| > limit
  {
    var fields := TwoBytes();
    o, st, limit := Obj(h, [], fields), Stores(fields, map[], map[], map[], map[]), 54;
    assert HeaderExpectedSize([]) == 44;
    assert fields + map[] + map[] + map[] + map[] == fields;
    assert RoomNeeded(o, limit) == 63 by {
      assert Fitting(fields, 10) == fields;
    }
    hide EncodedBytes, RoomNeeded;
    w := RoomIsTaken(o, st, limit);
  }

  /** Two byte fields, of nine and of ten bytes on the wire. */
  ghost function TwoBytes(): (m: Fields)
    ensures |m| == 2 && FieldsSize(m) == 19
    ensures forall k :: k in m ==> 9 <= RecordSize(k, m[k]) <= 10
  {
    var a, b: Name := [], [0];
    var m: Fields := map[a := VByte(0), b := VByte(0)];
    assert m.Keys == {a, b} && |m.Keys| == 2;
    FieldsSizeRemove(m, a);
    FieldsSizeRemove(m - {a}, b);
    assert m - {a} - {b} == map[];
    m
  }

  /** The two patches of consecutive record lists are one patch of both. */
  lemma MoreWritten(s: seq<byte>, at: nat, a: seq<Record>, b: seq<Record>)
    requires at + RecordsSize(a) + RecordsSize(b) <= |s|
    ensures RecordsSize(a + b) == RecordsSize(a) + RecordsSize(b)
    ensures Patch(Patch(s, at, RecordsBytes(a)), at + RecordsSize(a), RecordsBytes(b))
            == Patch(s, at, RecordsBytes(a + b))
  {
    hide *;
    RecordsBytesConcat(a, b);
    RecordsSizeConcat(a, b);
    PatchTwice(s, at, RecordsBytes(a), RecordsBytes(b));
  }

  /** One store more, behind the records of those before it. */
  method EncodeStoreAfter(items: Fields, dest: array<byte>, at: nat, written: nat, remain: int,
                          ghost was: seq<byte>, ghost all: seq<Record>)
    returns (ret: nat, ghost order: seq<Record>)
    requires |was| == dest.Length && written == RecordsSize(all)
    requires at + written + FieldsSize(Fitting(items, remain)) <= dest.Length
    requires dest[..] == Patch(was, at, RecordsBytes(all))
    modifies dest
    ensures IsListing(items, order)
    ensures ret == RecordsSize(all + Emitted(order, remain)) <= written + FieldsSize(Fitting(items, remain))
    ensures dest[..] == Patch(was, at, RecordsBytes(all + Emitted(order, remain)))
  {
    var n;
    hide Patch, Emitted, RecordsBytes, RecordsSize, IsListing, FieldsSize, Fitting;
    n, order := EncodeStore(items, dest, at + written, remain);
    MoreWritten(was, at, all, Emitted(order, remain));
    ret := written + n;
  }

  /** The encoding visitor over the five stores. */
  method EncodeStores(st: Stores, dest: array<byte>, at: nat, remain: int) returns (ret: nat, ghost walk: Walk)
    requires at + StoresSize(FittingStores(st, remain)) <= dest.Length
    modifies dest
    ensures walk.Of(st)
    ensures ret == RecordsSize(EmittedWalk(walk, remain).All()) && at + ret <= dest.Length
    ensures dest[..] == Patch(old(dest[..]), at, RecordsBytes(EmittedWalk(walk, remain).All()))
  {
    ghost var was, b, i, l, d, s := dest[..], [], [], [], [], [];
    RoomByStore(st, remain);
    NothingWritten(was, at);
    hide *;
    ret, b := EncodeStoreAfter(st.bytes, dest, at, 0, remain, was, []);
    ghost var all := [] + Emitted(b, remain);
    ret, i := EncodeStoreAfter(st.i32s, dest, at, ret, remain, was, all);
    all := all + Emitted(i, remain);
    ret, l := EncodeStoreAfter(st.i64s, dest, at, ret, remain, was, all);
    all := all + Emitted(l, remain);
    ret, d := EncodeStoreAfter(st.f64s, dest, at, ret, remain, was, all);
    all := all + Emitted(d, remain);
    ret, s := EncodeStoreAfter(st.strings, dest, at, ret, remain, was, all);
    walk := Walk(b, i, l, d, s);
    AllEmitted(walk, remain);
  }

  lemma RoomByStore(st: Stores, remain: int)
    ensures StoresSize(FittingStores(st, remain))
            == FieldsSize(Fitting(st.bytes, remain)) + FieldsSize(Fitting(st.i32s, remain))
               + FieldsSize(Fitting(st.i64s, remain)) + FieldsSize(Fitting(st.f64s, remain))
               + FieldsSize(Fitting(st.strings, remain))
  {
  }

  lemma NothingWritten(s: seq<byte>, at: nat)
    ensures RecordsSize([]) == 0 && (at <= |s| ==> s == Patch(s, at, RecordsBytes([])))
  {
  }

  lemma AllEmitted(w: Walk, remain: int)
    ensures [] + Emitted(w.bytes, remain) + Emitted(w.i32s, remain) + Emitted(w.i64s, remain)
            + Emitted(w.f64s, remain) + Emitted(w.strings, remain) == EmittedWalk(w, remain).All()
  {
  }

  /** o's message, its fields in the order rs, has been written over was at position at; nothing else changed. */
  ghost predicate IsMessageAt(now: seq<byte>, was: seq<byte>, at: nat, size: nat, o: Obj, rs: seq<Record>) {
    var m := Message(o.header, o.service, rs);
    && IsListing(o.fields, rs) && size == |m| == EncodedSize(o)
    && at + |m| <= |was| && now == Patch(was, at, m)
  }

  lemma MessageIsAt(now: seq<byte>, was: seq<byte>, at: nat, o: Obj, st: Stores, w: Walk, limit: nat)
    requires WellSized(o) && st.Partition(o.fields) && w.Of(st) && limit >= EncodedSize(o)
    requires at + |EncodedBytes(o.header, o.service, w, limit)| <= |was|
    requires now == Patch(was, at, EncodedBytes(o.header, o.service, w, limit))
    ensures IsMessageAt(now, was, at, |EncodedBytes(o.header, o.service, w, limit)|, o, w.All())
  {
    EncodedInFull(o, st, w, limit);
  }

  /** The header, then whatever fields there is room for, once the header is up to date. */
  method EncodeUpdated(header: Header, service: seq<byte>, st: Stores, dest: array<byte>, at: nat, limit: nat)
    returns (ret: nat, ghost walk: Walk)
    requires |service| < 0x1_0000_0000
    requires at + MostWritten(service, FittingStores(st, limit - HeaderExpectedSize(service)), limit) <= dest.Length
    modifies dest
    ensures walk.Of(st)
    ensures ret == |EncodedBytes(header, service, walk, limit)| && at + ret <= dest.Length
    ensures dest[..] == Patch(old(dest[..]), at, EncodedBytes(header, service, walk, limit))
  {
    hide Patch, HeaderBytes, StringBytes, RecordsBytes, RecordsSize, IsListing, FieldsSize, Emitted, EmittedWalk;
    hide FittingStores, StoresSize;
    ret := 0;
    var headerSize := HeaderExpectedSize(service);
    if headerSize > limit {
      walk := AnyWalk(st);
      PatchEmpty(dest[..], at);
      return;
    }
    var enc := new Encoder();
    enc.EncodeHeader(dest, at, header, service);
    ghost var head := HeaderBytes(header) + StringBytes(service);
    var n;
    n, walk := EncodeStores(st, dest, at + headerSize, limit - headerSize);
    ret := headerSize + n;
    PatchTwice(old(dest[..]), at, head, RecordsBytes(EmittedWalk(walk, limit - headerSize).All()));
  }

  /** Encode into dest from position at on; the object's header is brought up to date first. */
  method Encode(obj: BladeObject, dest: array<byte>, at: nat, limit: nat) returns (ret: nat, ghost walk: Walk)
    requires obj.Valid() && WellSized(obj.Value())
    requires at + RoomNeeded(obj.Value(), limit) <= dest.Length
    modifies obj`header, dest
    ensures obj.Valid() && obj.Value() == Updated(old(obj.Value()))
    ensures walk.Of(obj.Snapshot().TypedStores())
    ensures ret == |EncodedBytes(obj.header, obj.serviceName, walk, limit)| && at + ret <= dest.Length
    ensures dest[..] == Patch(old(dest[..]), at, EncodedBytes(obj.header, obj.serviceName, walk, limit))
    ensures limit >= EncodedSize(obj.Value()) ==> IsMessageAt(dest[..], old(dest[..]), at, ret, obj.Value(), walk.All())
  {
    hide EncodedBytes, Patch, Message, IsMessageAt, IsListing, FieldsSize, Tables.Valid, Tables.FieldMap, Walk.Of;
    hide Fitting, FittingStores, MostWritten;
    obj.UpdateHeaderField();
    ghost var o := obj.Value();
    var st := obj.GetTypedStores();
    obj.Snapshot().StoresHoldFields();
    RoomOfStores(o, st, limit);
    ret, walk := EncodeUpdated(obj.header, obj.serviceName, st, dest, at, limit);
    if limit >= EncodedSize(o) {
      MessageIsAt(dest[..], old(dest[..]), at, o, st, walk, limit);
    }
  }
}
