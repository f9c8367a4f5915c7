/** The mutable blade object: five typed stores and the name index that must agree with them. */
module Blade {
  import opened Bytes
  import opened BladeValues
  import opened Walking

  /** The index name_ and the five member stores, as values. */
  datatype Tables = Tables(
    names: map<Name, FieldType>, bytes: map<Name, byte>, i32s: map<Name, i32>,
    i64s: map<Name, i64>, f64s: map<Name, f64>, strings: map<Name, seq<byte>>)
  {
    ghost function TypeOf(k: Name): FieldType {
      if k in names then names[k] else NoType
    }

    /** What the index says of a name is what the stores hold of it, and nothing else. */
    ghost predicate Agree(k: Name) {
      && (k in names ==> names[k] != NoType)
      && (k in bytes <==> TypeOf(k) == ByteType)
      && (k in i32s <==> TypeOf(k) == I32Type)
      && (k in i64s <==> TypeOf(k) == I64Type)
      && (k in f64s <==> TypeOf(k) == F64Type)
      && (k in strings <==> TypeOf(k) == StringType)
    }

    ghost predicate Valid() {
      forall k :: Agree(k)
    }

    ghost function Field(k: Name): (v: Value)
      requires k in names && Agree(k)
      ensures v.Type() == names[k]
    {
      match names[k]
      case ByteType => VByte(bytes[k])
      case I32Type => VI32(i32s[k])
      case I64Type => VI64(i64s[k])
      case F64Type => VF64(f64s[k])
      case StringType => VString(strings[k])
    }

    ghost function FieldMap(): Fields
      requires Valid()
    {
      map k | k in names :: assert Agree(k); Field(k)
    }

    /** The stores in the order Iterate walks them, every value tagged with its type. */
    function TypedStores(): Stores {
      Stores(map k | k in bytes :: VByte(bytes[k]), map k | k in i32s :: VI32(i32s[k]),
             map k | k in i64s :: VI64(i64s[k]), map k | k in f64s :: VF64(f64s[k]),
             map k | k in strings :: VString(strings[k]))
    }

    lemma StoresAreDisjoint()
      requires Valid()
      ensures bytes.Keys !! i32s.Keys !! i64s.Keys !! f64s.Keys !! strings.Keys
    {
      forall k
        ensures !(k in bytes && k in i32s) && !((k in bytes || k in i32s) && k in i64s)
        ensures !((k in bytes || k in i32s || k in i64s) && k in f64s)
        ensures !((k in bytes || k in i32s || k in i64s || k in f64s) && k in strings)
      {
        assert Agree(k);
      }
    }

    lemma UnionAt(k: Name)
      requires Valid()
      ensures var st := TypedStores();
              var u := st.bytes + st.i32s + st.i64s + st.f64s + st.strings;
              (k in u <==> k in FieldMap()) && (k in u ==> u[k] == FieldMap()[k])
    {
      assert Agree(k);
    }

    /** The five stores are pairwise disjoint and hold exactly the fields. */
    lemma StoresHoldFields()
      requires Valid()
      ensures TypedStores().Partition(FieldMap())
    {
      var st := TypedStores();
      StoresAreDisjoint();
      assert st.bytes.Keys == bytes.Keys && st.i32s.Keys == i32s.Keys && st.i64s.Keys == i64s.Keys;
      assert st.f64s.Keys == f64s.Keys && st.strings.Keys == strings.Keys;
      var u := st.bytes + st.i32s + st.i64s + st.f64s + st.strings;
      forall k ensures (k in u <==> k in FieldMap()) && (k in u ==> u[k] == FieldMap()[k]) {
        UnionAt(k);
      }
    }
  }

  /** Apart from k, the two agree about everything. */
  ghost predicate SameBut(was: Tables, now: Tables, k: Name) {
    && was.bytes - {k} == now.bytes - {k} && was.i32s - {k} == now.i32s - {k} && was.i64s - {k} == now.i64s - {k}
    && was.f64s - {k} == now.f64s - {k} && was.strings - {k} == now.strings - {k} && was.names - {k} == now.names - {k}
  }

  lemma SameElsewhere(was: Tables, now: Tables, k: Name, n: Name)
    requires SameBut(was, now, k) && n != k && was.Agree(n)
    ensures now.Agree(n) && (n in now.names <==> n in was.names)
    ensures n in was.names ==> now.Field(n) == was.Field(n)
  {
    assert n in now.names <==> n in now.names - {k};
    assert n in now.bytes <==> n in now.bytes - {k};
    assert n in now.i32s <==> n in now.i32s - {k};
    assert n in now.i64s <==> n in now.i64s - {k};
    assert n in now.f64s <==> n in now.f64s - {k};
    assert n in now.strings <==> n in now.strings - {k};
    assert n in now.names ==> now.names[n] == (now.names - {k})[n] == was.names[n];
    assert n in now.bytes ==> now.bytes[n] == (now.bytes - {k})[n] == was.bytes[n];
    assert n in now.i32s ==> now.i32s[n] == (now.i32s - {k})[n] == was.i32s[n];
    assert n in now.i64s ==> now.i64s[n] == (now.i64s - {k})[n] == was.i64s[n];
    assert n in now.f64s ==> now.f64s[n] == (now.f64s - {k})[n] == was.f64s[n];
    assert n in now.strings ==> now.strings[n] == (now.strings - {k})[n] == was.strings[n];
  }

  lemma Added(was: Tables, now: Tables, key: Name, v: Value)
    requires was.Valid() && SameBut(was, now, key)
    requires key !in was.names && key in now.names && now.Agree(key) && now.Field(key) == v
    ensures now.Valid() && now.FieldMap() == AddField(was.FieldMap(), Record(key, v))
  {
    forall n ensures now.Agree(n) && (n != key ==> (n in now.names <==> n in was.names)) {
      if n != key { SameElsewhere(was, now, key, n); }
    }
    forall n | n in now.names && n != key ensures now.Field(n) == was.Field(n) {
      SameElsewhere(was, now, key, n);
    }
  }

  lemma Removed(was: Tables, now: Tables, key: Name)
    requires was.Valid() && SameBut(was, now, key)
    requires key !in now.names && now.Agree(key)
    ensures now.Valid() && now.FieldMap() == was.FieldMap() - {key}
  {
    forall n ensures now.Agree(n) && (n != key ==> (n in now.names <==> n in was.names)) {
      if n != key { SameElsewhere(was, now, key, n); }
    }
    forall n | n in now.names ensures now.Field(n) == was.Field(n) {
      SameElsewhere(was, now, key, n);
    }
  }

  /** RemoveField's effect on the tables: the index entry, and the one store it points to. */
  lemma RemovedFrom(was: Tables, now: Tables, key: Name)
    requires was.Valid() && key in was.names && now.names == was.names - {key}
    requires now.bytes == if was.names[key] == ByteType then was.bytes - {key} else was.bytes
    requires now.i32s == if was.names[key] == I32Type then was.i32s - {key} else was.i32s
    requires now.i64s == if was.names[key] == I64Type then was.i64s - {key} else was.i64s
    requires now.f64s == if was.names[key] == F64Type then was.f64s - {key} else was.f64s
    requires now.strings == if was.names[key] == StringType then was.strings - {key} else was.strings
    ensures now.Valid() && now.FieldMap() == was.FieldMap() - {key}
  {
    assert was.Agree(key);
    Removed(was, now, key);
  }

  class BladeObject {
    var header: Header
    var serviceName: seq<byte>

    var names: map<Name, FieldType>
    var memberByte: map<Name, byte>
    var memberI32: map<Name, i32>
    var memberI64: map<Name, i64>
    var memberF64: map<Name, f64>
    var memberString: map<Name, seq<byte>>

    ghost function Snapshot(): Tables
      reads this
    {
      Tables(names, memberByte, memberI32, memberI64, memberF64, memberString)
    }

    ghost predicate Valid()
      reads this
    {
      Snapshot().Valid()
    }

    ghost function FieldMap(): Fields
      reads this
      requires Valid()
    {
      Snapshot().FieldMap()
    }

    ghost function Value(): Obj
      reads this
      requires Valid()
    {
      Obj(header, serviceName, FieldMap())
    }

    constructor ()
      ensures Valid() && FieldMap() == map[] && serviceName == []
      ensures header == Header(0x01E0ADB1, 0, 0, 0, 0, 0, 0, 0, 0, 0)
    {
      header := Header(0x01E0ADB1, 0, 0, 0, 0, 0, 0, 0, 0, 0);
      serviceName := [];
      names, memberByte, memberI32, memberI64, memberF64, memberString := map[], map[], map[], map[], map[], map[];
    }

    predicate Contains(name: Name)
      reads this
    {
      name in names
    }

    function GetFieldType(name: Name): (t: FieldType)
      reads this
      requires Valid()
      ensures t == if name in FieldMap() then FieldMap()[name].Type() else NoType
    {
      assert Snapshot().Agree(name);
      if name in names then names[name] else NoType
    }

    method AddByte(key: Name, val: byte) returns (ok: bool)
      requires Valid()
      modifies this
      ensures Valid() && header == old(header) && serviceName == old(serviceName)
      ensures ok <==> key !in old(FieldMap())
      ensures FieldMap() == AddField(old(FieldMap()), Record(key, VByte(val)))
    {
      ghost var was := Snapshot();
      assert was.Agree(key);
      if Contains(key) {
        return false;
      }
      names := names[key := ByteType];
      memberByte := memberByte[key := val];
      Added(was, Snapshot(), key, VByte(val));
      return true;
    }

    method AddI32(key: Name, val: i32) returns (ok: bool)
      requires Valid()
      modifies this
      ensures Valid() && header == old(header) && serviceName == old(serviceName)
      ensures ok <==> key !in old(FieldMap())
      ensures FieldMap() == AddField(old(FieldMap()), Record(key, VI32(val)))
    {
      ghost var was := Snapshot();
      assert was.Agree(key);
      if Contains(key) {
        return false;
      }
      names := names[key := I32Type];
      memberI32 := memberI32[key := val];
      Added(was, Snapshot(), key, VI32(val));
      return true;
    }

    method AddI64(key: Name, val: i64) returns (ok: bool)
      requires Valid()
      modifies this
      ensures Valid() && header == old(header) && serviceName == old(serviceName)
      ensures ok <==> key !in old(FieldMap())
      ensures FieldMap() == AddField(old(FieldMap()), Record(key, VI64(val)))
    {
      ghost var was := Snapshot();
      assert was.Agree(key);
      if Contains(key) {
        return false;
      }
      names := names[key := I64Type];
      memberI64 := memberI64[key := val];
      Added(was, Snapshot(), key, VI64(val));
      return true;
    }

    method AddF64(key: Name, val: f64) returns (ok: bool)
      requires Valid()
      modifies this
      ensures Valid() && header == old(header) && serviceName == old(serviceName)
      ensures ok <==> key !in old(FieldMap())
      ensures FieldMap() == AddField(old(FieldMap()), Record(key, VF64(val)))
    {
      ghost var was := Snapshot();
      assert was.Agree(key);
      if Contains(key) {
        return false;
      }
      names := names[key := F64Type];
      memberF64 := memberF64[key := val];
      Added(was, Snapshot(), key, VF64(val));
      return true;
    }

    method AddString(key: Name, val: seq<byte>) returns (ok: bool)
      requires Valid()
      modifies this
      ensures Valid() && header == old(header) && serviceName == old(serviceName)
      ensures ok <==> key !in old(FieldMap())
      ensures FieldMap() == AddField(old(FieldMap()), Record(key, VString(val)))
    {
      ghost var was := Snapshot();
      assert was.Agree(key);
      if Contains(key) {
        return false;
      }
      names := names[key := StringType];
      memberString := memberString[key := val];
      Added(was, Snapshot(), key, VString(val));
      return true;
    }

    method RemoveField(key: Name) returns (ok: bool)
      requires Valid()
      modifies this
      ensures Valid() && header == old(header) && serviceName == old(serviceName)
      ensures ok <==> key in old(FieldMap())
      ensures FieldMap() == old(FieldMap()) - {key}
    {
      if !Contains(key) {
        return false;
      }
      ghost var was := Snapshot();
      assert was.Agree(key);
      var fieldType := GetFieldType(key);
      hide Tables.Valid, Tables.FieldMap;
      match fieldType {
        case ByteType => memberByte := memberByte - {key};
        case I32Type => memberI32 := memberI32 - {key};
        case I64Type => memberI64 := memberI64 - {key};
        case F64Type => memberF64 := memberF64 - {key};
        case StringType => memberString := memberString - {key};
        case NoType => assert false;
      }
      names := names - {key};
      RemovedFrom(was, Snapshot(), key);
      return true;
    }

    // ----- Walking the fields -----

    function GetTypedStores(): Stores
      reads this
    {
      Tables(names, memberByte, memberI32, memberI64, memberF64, memberString).TypedStores()
    }

    method Iterate(f: (Name, Value) -> int) returns (ret: int, ghost walk: Walk)
      requires Valid()
      ensures walk.Of(Snapshot().TypedStores()) && ret == Total(walk.Seen(f).All(), f)
      ensures exists w: Walk :: w.Of(Snapshot().TypedStores()) && ret == Total(w.Seen(f).All(), f)
    {
      hide Visited, Total, IsListing, Tables.Valid, Tables.TypedStores;
      var st := GetTypedStores();
      ghost var b, i, l, d, s;
      var r1, r2, r3, r4, r5;
      r1, b := IterateStore(st.bytes, f);
      r2, i := IterateStore(st.i32s, f);
      r3, l := IterateStore(st.i64s, f);
      r4, d := IterateStore(st.f64s, f);
      r5, s := IterateStore(st.strings, f);
      ret, walk := r1 + r2 + r3 + r4 + r5, Walk(b, i, l, d, s);
      WalkTotal(walk.Seen(f), f);
    }

    /** The sum of the record sizes that UpdateHeaderField's visitor returns. */
    method FieldsLength() returns (n: int)
      requires Valid()
      ensures n == FieldsSize(FieldMap())
    {
      var f := (name, v) => RecordSize(name, v);
      ghost var walk;
      n, walk := Iterate(f);
      Snapshot().StoresHoldFields();
      WalkSize(FieldMap(), Snapshot().TypedStores(), walk, f);
    }

    /** The header learns the body's length and where the fields begin. */
    method UpdateHeaderField()
      requires Valid() && WellSized(Value())
      modifies this`header
      ensures Valid() && Value() == Updated(old(Value()))
    {
      var payload := FieldsLength();
      header := WithLengths(header, serviceName, payload);
    }

    method GetEncodedSize() returns (n: nat)
      requires Valid() && WellSized(Value())
      modifies this`header
      ensures Valid() && Value() == Updated(old(Value()))
      ensures n == EncodedSize(Value()) == EncodedSize(old(Value()))
    {
      UpdateHeaderField();
      n := HEADER_SIZE + header.payloadLength;
    }

    method Clone() returns (o: BladeObject)
      requires Valid()
      ensures fresh(o) && o.Valid() && o.Value() == Value()
    {
      o := new BladeObject();
      o.header, o.serviceName, o.names := header, serviceName, names;
      o.memberByte, o.memberI32, o.memberI64 := memberByte, memberI32, memberI64;
      o.memberF64, o.memberString := memberF64, memberString;
    }
  }
}
