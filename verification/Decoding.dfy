/** The decoder as it runs: a cursor over a buffer that never reads past its raw length. */
module Decoding {
  import opened Bytes
  import opened BladeValues
  import opened Wire
  import opened Blade

  /** What Decode returns: a pointer to an object, a null pointer, or an exception thrown. */
  datatype DecodeResult = Pointer(obj: BladeObject) | NullPtr | Throws(e: Exn)

  ghost predicate Means(r: DecodeResult, out: Outcome)
    reads if r.Pointer? then {r.obj} else {}
  {
    match out
    case Decoded(o) => r.Pointer? && r.obj.Valid() && r.obj.Value() == o
    case Null => r == NullPtr
    case Threw(e) => r == Throws(e)
  }

  lemma SliceOfSlice(s: seq<byte>, a: nat, b: nat, c: nat, d: nat)
    requires a <= b <= |s| && c <= d <= b - a
    ensures s[a..b][c..d] == s[a + c..a + d]
  {
    var t := s[a..b];
    assert forall i :: 0 <= i < d - c ==> t[c..d][i] == t[c + i] == s[a + c + i];
    assert |t[c..d]| == |s[a + c..a + d]|;
  }

  class Decoder {
    const origin: array<byte>
    const start: nat
    const rawLength: nat
    var cur: nat
    var remainLength: nat

    /** Consumed and remaining bytes always make up the raw length. */
    ghost predicate Valid()
      reads this
    {
      cur + remainLength == start + rawLength <= origin.Length && start <= cur
    }

    ghost function Rest(): seq<byte>
      reads this, origin
      requires Valid()
    {
      origin[cur..cur + remainLength]
    }

    constructor (origin: array<byte>, start: nat, rawLength: nat)
      requires start + rawLength <= origin.Length
      ensures Valid() && this.origin == origin && this.start == start && this.rawLength == rawLength
      ensures Rest() == origin[start..start + rawLength]
    {
      this.origin, this.start, this.rawLength := origin, start, rawLength;
      cur, remainLength := start, rawLength;
    }

    predicate NotEnd()
      reads this
    {
      remainLength > 0
    }

    /** need bytes at the cursor; without enough of them nothing moves, which stands for the exception. */
    method Take(need: nat) returns (p: Parsed<seq<byte>>)
      requires Valid()
      modifies this
      ensures Valid() && p == TakeN(old(Rest()), need)
      ensures Rest() == if p.Got? then p.rest else old(Rest())
    {
      if remainLength >= need {
        ghost var was := Rest();
        var value := origin[cur..cur + need];
        remainLength := remainLength - need;
        cur := cur + need;
        p := Got(value, origin[cur..cur + remainLength]);
        assert value == was[..need] && Rest() == was[need..];
      } else {
        p := Short;
      }
    }

    method TakeBladeString() returns (p: Parsed<seq<byte>>)
      requires Valid()
      modifies this
      ensures Valid() && p == TakeString(old(Rest()))
      ensures p.Got? ==> Rest() == p.rest
    {
      var length := Take(4);
      match length {
        case Short => p := Short;
        case Got(l, _) => p := Take(U32Of(l));
      }
    }

    method TakeHeader() returns (h: Header)
      requires Valid() && remainLength >= HEADER_SIZE
      modifies this
      ensures Valid() && h == HeaderOf(old(Rest())[..HEADER_SIZE]) && Rest() == old(Rest())[HEADER_SIZE..]
    {
      var header := Take(HEADER_SIZE);
      h := HeaderOf(header.value);
    }

    method TakePayload(t: FieldType) returns (p: Parsed<Value>)
      requires Valid() && t != NoType
      modifies this
      ensures Valid() && p == Wire.TakePayload(t, old(Rest()))
      ensures p.Got? ==> Rest() == p.rest
    {
      var b;
      match t {
        case ByteType =>
          b := Take(1);
          p := if b.Got? then Got(VByte(b.value[0]), b.rest) else Short;
        case I32Type =>
          b := Take(4);
          p := if b.Got? then Got(VI32(I32Of(b.value)), b.rest) else Short;
        case I64Type =>
          b := Take(8);
          p := if b.Got? then Got(VI64(I64Of(b.value)), b.rest) else Short;
        case F64Type =>
          b := Take(8);
          p := if b.Got? then Got(VF64(b.value), b.rest) else Short;
        case StringType =>
          b := TakeBladeString();
          p := if b.Got? then Got(VString(b.value), b.rest) else Short;
      }
    }

    /** The size check of Decode, done before anything is taken. */
    method MinSizeSatisfied(size: nat) returns (ok: bool)
      requires Valid() && size == rawLength && cur == start
      ensures ok == Wire.MinSizeSatisfied(Rest())
    {
      if size < HEADER_SIZE + 4 {
        return false;
      }
      var at := start + HEADER_SIZE;
      SliceOfSlice(origin[..], start, start + rawLength, HEADER_SIZE, HEADER_SIZE + 4);
      ok := size - HEADER_SIZE - 4 >= U32Of(origin[at..at + 4]);
    }

    /** The body of the decoding loop up to the value: a field's name and its value. */
    method TakeField() returns (p: Parse<(Record, seq<byte>)>)
      requires Valid()
      modifies this
      ensures Valid() && p == TakeRecord(old(Rest()))
      ensures p.Parsed? ==> Rest() == p.value.1
    {
      var tag := Take(2);
      if tag.Short? || FromLE(tag.value) != NAME_TAG {
        return NullParse;
      }
      var name := TakeBladeString();
      if name.Short? {
        return NullParse;
      }
      var valueTag := Take(2);
      if valueTag.Short? {
        return NullParse;
      }
      var t := TypeOfTag(FromLE(valueTag.value));
      if t == NoType {
        return ThrowParse;
      }
      var v := TakePayload(t);
      if v.Short? {
        return NullParse;
      }
      p := Parsed((Record(name.value, v.value), v.rest));
    }
  }

  method AddRecord(obj: BladeObject, r: Record)
    requires obj.Valid()
    modifies obj
    ensures obj.Valid() && obj.header == old(obj.header) && obj.serviceName == old(obj.serviceName)
    ensures obj.FieldMap() == AddField(old(obj.FieldMap()), r)
  {
    var added;
    match r.value {
      case VByte(b) => added := obj.AddByte(r.name, b);
      case VI32(i) => added := obj.AddI32(r.name, i);
      case VI64(l) => added := obj.AddI64(r.name, l);
      case VF64(d) => added := obj.AddF64(r.name, d);
      case VString(s) => added := obj.AddString(r.name, s);
    }
  }

  /** The decoding loop: fields go into obj until the bytes run out or one is not accepted. */
  method FillFields(dec: Decoder, obj: BladeObject) returns (p: Parse<bool>)
    requires dec.Valid() && obj.Valid()
    modifies dec, obj
    ensures obj.Valid() && obj.header == old(obj.header) && obj.serviceName == old(obj.serviceName)
    ensures match DecodeFields(old(dec.Rest()), old(obj.FieldMap()))
            case NullParse => p == NullParse
            case ThrowParse => p == ThrowParse
            case Parsed(m) => p.Parsed? && obj.FieldMap() == m
  {
    hide TakeRecord, DecodeFields, AddField, Tables.Valid, Tables.FieldMap;
    while dec.NotEnd()
      invariant dec.Valid() && obj.Valid() && obj.header == old(obj.header) && obj.serviceName == old(obj.serviceName)
      invariant DecodeFields(dec.Rest(), obj.FieldMap()) == DecodeFields(old(dec.Rest()), old(obj.FieldMap()))
      decreases dec.remainLength
    {
      DecodeFieldsPass(dec.Rest(), obj.FieldMap());
      var field := dec.TakeField();
      match field {
        case NullParse => return NullParse;
        case ThrowParse => return ThrowParse;
        case Parsed((rec, _)) => AddRecord(obj, rec);
      }
    }
    DecodeFieldsPass(dec.Rest(), obj.FieldMap());
    p := Parsed(true);
  }

  method DecodeWithHeader(header: Header, origin: array<byte>, at: nat, rawLength: nat) returns (r: DecodeResult)
    requires at + rawLength <= origin.Length
    ensures r.Pointer? ==> fresh(r.obj)
    ensures Means(r, DecodeBody(header, origin[at..at + rawLength]))
  {
    hide TakeString, DecodeFields, Tables.Valid, Tables.FieldMap;
    if rawLength < header.payloadLength {
      return NullPtr;
    }
    var dec := new Decoder(origin, at, rawLength);
    var ret := new BladeObject();
    ret.header := header;
    var serviceName := dec.TakeBladeString();
    if serviceName.Short? {
      return Throws(RemainLengthNotEnough);
    }
    ret.serviceName := serviceName.value;
    var filled := FillFields(dec, ret);
    match filled {
      case NullParse => r := NullPtr;
      case ThrowParse => r := Throws(UnreachableCode);
      case Parsed(_) => r := Pointer(ret);
    }
  }

  method Decode(origin: array<byte>, at: nat, rawLength: nat) returns (r: DecodeResult)
    requires at + rawLength <= origin.Length
    ensures r.Pointer? ==> fresh(r.obj)
    ensures Means(r, DecodeMessage(origin[at..at + rawLength]))
  {
    ghost var bytes := origin[at..at + rawLength];
    var dec := new Decoder(origin, at, rawLength);
    var enough := dec.MinSizeSatisfied(rawLength);
    hide *;
    if !enough {
      TooShortMeansNull(bytes);
      return NullPtr;
    }
    var header := TakeHeaderOf(dec, bytes);
    ghost var body := BodyPart(origin[..], at, rawLength);
    assert body == bytes[HEADER_SIZE..];
    r := DecodeRest(header, origin, at + HEADER_SIZE, rawLength - HEADER_SIZE, body);
  }

  lemma TooShortMeansNull(bytes: seq<byte>)
    requires !Wire.MinSizeSatisfied(bytes)
    ensures Means(NullPtr, DecodeMessage(bytes))
  {
  }

  /** The header at the front of a buffer that is long enough. */
  method TakeHeaderOf(dec: Decoder, ghost bytes: seq<byte>) returns (header: Header)
    requires dec.Valid() && dec.Rest() == bytes && Wire.MinSizeSatisfied(bytes)
    modifies dec
    ensures |bytes| >= HEADER_SIZE && DecodeMessage(bytes) == DecodeBody(header, bytes[HEADER_SIZE..])
  {
    hide DecodeBody, HeaderOf;
    header := dec.TakeHeader();
  }

  /** What follows the header, which is body. */
  method DecodeRest(header: Header, origin: array<byte>, at: nat, rawLength: nat, ghost body: seq<byte>)
    returns (r: DecodeResult)
    requires at + rawLength <= origin.Length && body == origin[at..at + rawLength]
    ensures r.Pointer? ==> fresh(r.obj)
    ensures Means(r, DecodeBody(header, body))
  {
    r := DecodeWithHeader(header, origin, at, rawLength);
  }

  ghost function BodyPart(s: seq<byte>, at: nat, n: nat): (body: seq<byte>)
    requires at + n <= |s| && n >= HEADER_SIZE
    ensures body == s[at..at + n][HEADER_SIZE..]
  {
    SliceOfSlice(s, at, at + n, HEADER_SIZE, n);
    s[at + HEADER_SIZE..(at + HEADER_SIZE) + (n - HEADER_SIZE)]
  }
}
