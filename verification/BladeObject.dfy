/**
 * The values a blade object is made of and what it means as a value: a header, a
 * service name, and one typed value per field name.
 */
module BladeValues {
  import opened Bytes

  type Name = seq<byte>

  datatype FieldType = NoType | ByteType | I32Type | I64Type | F64Type | StringType

  datatype Value =
    | VByte(b: byte)
    | VI32(i: i32)
    | VI64(l: i64)
    | VF64(d: f64)
    | VString(s: seq<byte>)
  {
    function Type(): FieldType {
      match this
      case VByte(_) => ByteType
      case VI32(_) => I32Type
      case VI64(_) => I64Type
      case VF64(_) => F64Type
      case VString(_) => StringType
    }
  }

  datatype Record = Record(name: Name, value: Value)

  type Fields = map<Name, Value>

  datatype Header = Header(
    magic: i32, id: u32, traceId: u32, msgType: u32,
    payloadLength: u32, contentOffset: u32,
    extra0: u32, extra1: u32, extra2: u32, extra3: u32)

  datatype Obj = Obj(header: Header, service: seq<byte>, fields: Fields)

  // ----- Sizes on the wire -----

  const HEADER_SIZE: nat := 40

  function ValueSize(v: Value): (n: nat)
    ensures n >= 1
  {
    match v
    case VByte(_) => 1
    case VI32(_) => 4
    case VI64(_) => 8
    case VF64(_) => 8
    case VString(s) => 4 + |s|
  }

  /** Two field-type tags, the name with its length, and the value. */
  function RecordSize(name: Name, v: Value): (n: nat)
    ensures n >= 9
  {
    2 + 4 + |name| + 2 + ValueSize(v)
  }

  function RecordsSize(rs: seq<Record>): nat {
    if rs == [] then 0 else RecordSize(rs[0].name, rs[0].value) + RecordsSize(rs[1..])
  }

  ghost function FieldsSize(m: Fields): nat {
    if m == map[] then 0
    else
      var k :| k in m;
      RecordSize(k, m[k]) + FieldsSize(m - {k})
  }

  ghost function EncodedSize(o: Obj): nat {
    HEADER_SIZE + 4 + |o.service| + FieldsSize(o.fields)
  }

  /** All lengths and totals stay below 2^31, so no size computed in an int wraps. */
  ghost predicate WellSized(o: Obj) {
    EncodedSize(o) < 0x8000_0000
  }

  /** The header with the length of the body and the start of its fields, which take fieldsLength bytes. */
  function WithLengths(h: Header, service: seq<byte>, fieldsLength: nat): Header
    requires HEADER_SIZE + 4 + |service| + fieldsLength < 0x1_0000_0000
  {
    h.(payloadLength := fieldsLength + 4 + |service|, contentOffset := HEADER_SIZE + 4 + |service|)
  }

  /** The object UpdateHeaderField leaves behind. */
  ghost function Updated(o: Obj): Obj
    requires WellSized(o)
  {
    o.(header := o.header.(payloadLength := EncodedSize(o) - HEADER_SIZE,
                           contentOffset := HEADER_SIZE + 4 + |o.service|))
  }

  // ----- Listings: the orders in which a field map may be walked -----

  ghost predicate Distinct(rs: seq<Record>) {
    forall i, j :: 0 <= i < j < |rs| ==> rs[i].name != rs[j].name
  }

  ghost predicate IsListing(m: Fields, rs: seq<Record>) {
    && Distinct(rs)
    && (forall i :: 0 <= i < |rs| ==> rs[i].name in m && m[rs[i].name] == rs[i].value)
    && (forall k :: k in m ==> Record(k, m[k]) in rs)
  }

  /** The sum does not depend on which field is taken out first. */
  lemma {:induction false} FieldsSizeRemove(m: Fields, k: Name)
    requires k in m
    ensures FieldsSize(m) == RecordSize(k, m[k]) + FieldsSize(m - {k})
    decreases |m|
  {
    var k' :| k' in m && FieldsSize(m) == RecordSize(k', m[k']) + FieldsSize(m - {k'});
    if k' != k {
      FieldsSizeRemove(m - {k'}, k);
      FieldsSizeRemove(m - {k}, k');
      assert m - {k'} - {k} == m - {k} - {k'};
    }
  }

  lemma ListingTail(m: Fields, rs: seq<Record>)
    requires IsListing(m, rs) && rs != []
    ensures IsListing(m - {rs[0].name}, rs[1..])
  {
    var m' := m - {rs[0].name};
    forall k | k in m' ensures Record(k, m'[k]) in rs[1..] {
      var i :| 0 <= i < |rs| && rs[i] == Record(k, m[k]);
      assert rs[1..][i - 1] == rs[i];
    }
  }

  /** Whatever order a field map is walked in, the sizes add up to the same total. */
  lemma {:induction false} ListingSize(m: Fields, rs: seq<Record>)
    requires IsListing(m, rs)
    ensures RecordsSize(rs) == FieldsSize(m)
    decreases rs
  {
    if rs == [] {
      assert forall k :: k in m ==> Record(k, m[k]) in rs;
      assert m == map[];
    } else {
      ListingTail(m, rs);
      ListingSize(m - {rs[0].name}, rs[1..]);
      FieldsSizeRemove(m, rs[0].name);
    }
  }

  lemma {:induction false} RecordsSizeConcat(a: seq<Record>, b: seq<Record>)
    ensures RecordsSize(a + b) == RecordsSize(a) + RecordsSize(b)
  {
    if a == [] {
      assert a + b == b;
    } else {
      assert (a + b)[1..] == a[1..] + b;
      RecordsSizeConcat(a[1..], b);
    }
  }

  // ----- Adding fields: the first value given to a name stays -----

  function AddField(m: Fields, r: Record): Fields {
    if r.name in m then m else m[r.name := r.value]
  }

  function AddAll(m: Fields, rs: seq<Record>): Fields
    decreases rs
  {
    if rs == [] then m else AddAll(AddField(m, rs[0]), rs[1..])
  }

  ghost predicate IsFirst(rs: seq<Record>, i: int) {
    0 <= i < |rs| && forall j :: 0 <= j < i ==> rs[j].name != rs[i].name
  }

  /** A name already present keeps its value; every other name gets its first record's. */
  lemma {:induction false} AddAllKeepsFirst(m: Fields, rs: seq<Record>)
    ensures forall k :: k in m ==> k in AddAll(m, rs) && AddAll(m, rs)[k] == m[k]
    ensures forall i {:trigger rs[i]} :: IsFirst(rs, i) && rs[i].name !in m ==>
              rs[i].name in AddAll(m, rs) && AddAll(m, rs)[rs[i].name] == rs[i].value
    ensures forall k :: k in AddAll(m, rs) ==> k in m || exists i :: IsFirst(rs, i) && rs[i].name == k
    decreases rs
  {
    if rs != [] {
      var m1, tail := AddField(m, rs[0]), rs[1..];
      AddAllKeepsFirst(m1, tail);
      forall i {:trigger rs[i]} | IsFirst(rs, i) && rs[i].name !in m
        ensures rs[i].name in AddAll(m, rs) && AddAll(m, rs)[rs[i].name] == rs[i].value
      {
        if i > 0 {
          assert tail[i - 1] == rs[i] && rs[i].name != rs[0].name;
          assert IsFirst(tail, i - 1) by {
            forall j | 0 <= j < i - 1 ensures tail[j].name != tail[i - 1].name {
              assert tail[j] == rs[j + 1];
            }
          }
        }
      }
      forall k | k in AddAll(m, rs) && k !in m ensures exists i :: IsFirst(rs, i) && rs[i].name == k {
        if k == rs[0].name {
          assert IsFirst(rs, 0);
        } else {
          var i :| IsFirst(tail, i) && tail[i].name == k;
          assert IsFirst(rs, i + 1) by {
            forall j | 0 <= j < i + 1 ensures rs[j].name != rs[i + 1].name {
              if j > 0 { assert rs[j] == tail[j - 1]; }
            }
          }
        }
      }
    }
  }

  /** Adding the records of any listing rebuilds the map, whatever the order. */
  lemma AddAllOfListing(m: Fields, rs: seq<Record>)
    requires IsListing(m, rs)
    ensures AddAll(map[], rs) == m
  {
    AddAllKeepsFirst(map[], rs);
    var r := AddAll(map[], rs);
    forall k | k in m ensures k in r && r[k] == m[k] {
      var i :| 0 <= i < |rs| && rs[i] == Record(k, m[k]);
      assert IsFirst(rs, i);
    }
    forall k | k in r ensures k in m {
      var i :| IsFirst(rs, i) && rs[i].name == k;
    }
    assert r.Keys == m.Keys;
  }

  /** No name of rs is in m, and none comes twice. */
  ghost predicate AllNew(m: Fields, rs: seq<Record>) {
    Distinct(rs) && forall i :: 0 <= i < |rs| ==> rs[i].name !in m
  }

  lemma AllNewTail(m: Fields, rs: seq<Record>)
    requires rs != []
    ensures AllNew(m, rs) <==> rs[0].name !in m && AllNew(AddField(m, rs[0]), rs[1..])
  {
    var m1, tail := AddField(m, rs[0]), rs[1..];
    assert forall i :: 0 < i < |rs| ==> rs[i] == tail[i - 1];
    if AllNew(m, rs) {
      assert forall i :: 0 <= i < |tail| ==> tail[i].name == rs[i + 1].name && tail[i].name !in m1;
    }
  }

  /**
   * Keeping only the first record per name never makes the records longer, and keeps
   * their length exactly when no name was repeated.
   */
  lemma {:induction false} AddAllSize(m: Fields, rs: seq<Record>)
    ensures FieldsSize(AddAll(m, rs)) <= FieldsSize(m) + RecordsSize(rs)
    ensures FieldsSize(AddAll(m, rs)) == FieldsSize(m) + RecordsSize(rs) <==> AllNew(m, rs)
    decreases rs
  {
    if rs != [] {
      var m1 := AddField(m, rs[0]);
      AddAllSize(m1, rs[1..]);
      AllNewTail(m, rs);
      if rs[0].name !in m {
        FieldsSizeRemove(m1, rs[0].name);
        assert m1 - {rs[0].name} == m;
      }
    }
  }

  lemma RecordFits(m: Fields, rs: seq<Record>, i: nat)
    requires IsListing(m, rs) && i < |rs|
    ensures RecordSize(rs[i].name, rs[i].value) <= FieldsSize(m)
  {
    FieldsSizeRemove(m, rs[i].name);
  }
}
