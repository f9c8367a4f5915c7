/**
 * The wire format as functions on byte sequences: what an encoded object looks like,
 * what the decoder makes of any bytes, and the theorems that tie the two together.
 */
module Wire {
  import opened Bytes
  import opened BladeValues

  const NAME_TAG: nat := 0x00A1

  // ----- Printing -----

  function Tag(t: FieldType): nat {
    match t
    case NoType => 0x0000
    case ByteType => 0x0002
    case I32Type => 0x0012
    case I64Type => 0x0013
    case F64Type => 0x0021
    case StringType => 0x00A0
  }

  function StringBytes(s: seq<byte>): (r: seq<byte>)
    ensures |r| == 4 + |s|
  {
    LE(|s|, 4) + s
  }

  function PayloadBytes(v: Value): (r: seq<byte>)
    ensures |r| == ValueSize(v)
  {
    match v
    case VByte(b) => [b]
    case VI32(i) => I32Bytes(i)
    case VI64(l) => I64Bytes(l)
    case VF64(d) => d
    case VString(s) => StringBytes(s)
  }

  function RecordBytes(r: Record): (b: seq<byte>)
    ensures |b| == RecordSize(r.name, r.value)
  {
    LE(NAME_TAG, 2) + StringBytes(r.name) + LE(Tag(r.value.Type()), 2) + PayloadBytes(r.value)
  }

  function RecordsBytes(rs: seq<Record>): (b: seq<byte>)
    ensures |b| == RecordsSize(rs)
  {
    if rs == [] then [] else RecordBytes(rs[0]) + RecordsBytes(rs[1..])
  }

  function WordBytes(ws: seq<u32>): (b: seq<byte>)
    ensures |b| == 4 * |ws|
  {
    if ws == [] then [] else LE(ws[0], 4) + WordBytes(ws[1..])
  }

  function HeaderBytes(h: Header): (b: seq<byte>)
    ensures |b| == HEADER_SIZE
  {
    I32Bytes(h.magic) + WordBytes([h.id, h.traceId, h.msgType, h.payloadLength, h.contentOffset,
                                   h.extra0, h.extra1, h.extra2, h.extra3])
  }

  function BodyBytes(service: seq<byte>, rs: seq<Record>): (b: seq<byte>)
    ensures |b| == 4 + |service| + RecordsSize(rs)
  {
    StringBytes(service) + RecordsBytes(rs)
  }

  /** A whole message: header, service name, then the fields in the order rs. */
  function Message(h: Header, service: seq<byte>, rs: seq<Record>): (b: seq<byte>)
    ensures |b| == HEADER_SIZE + 4 + |service| + RecordsSize(rs)
  {
    HeaderBytes(h) + BodyBytes(service, rs)
  }

  // ----- Parsing -----

  datatype Parsed<+T> = Got(value: T, rest: seq<byte>) | Short

  datatype Exn = RemainLengthNotEnough | UnreachableCode

  datatype Parse<+T> = Parsed(value: T) | NullParse | ThrowParse

  /** What Decode hands its caller: an object, a null pointer, or an exception. */
  datatype Outcome = Decoded(o: Obj) | Null | Threw(e: Exn)

  function Words(s: seq<byte>): (ws: seq<u32>)
    requires |s| % 4 == 0
    ensures 4 * |ws| == |s|
  {
    if s == [] then [] else [U32Of(s[..4])] + Words(s[4..])
  }

  function HeaderOf(s: seq<byte>): Header
    requires |s| == HEADER_SIZE
  {
    var w := Words(s[4..]);
    Header(I32Of(s[..4]), w[0], w[1], w[2], w[3], w[4], w[5], w[6], w[7], w[8])
  }

  /** n bytes from the front of s, or too few of them. */
  function TakeN(s: seq<byte>, n: nat): (p: Parsed<seq<byte>>)
    ensures p.Got? <==> n <= |s|
    ensures p.Got? ==> |p.value| == n && s == p.value + p.rest
  {
    if n <= |s| then Got(s[..n], s[n..]) else Short
  }

  function TakeString(s: seq<byte>): (p: Parsed<seq<byte>>)
    ensures p.Got? ==> |p.rest| + 4 + |p.value| == |s|
  {
    match TakeN(s, 4)
    case Short => Short
    case Got(l, rest) => TakeN(rest, U32Of(l))
  }

  function TakePayload(t: FieldType, s: seq<byte>): (p: Parsed<Value>)
    requires t != NoType
    ensures p.Got? ==> p.value.Type() == t && |p.rest| + ValueSize(p.value) == |s|
  {
    match t
    case ByteType => (match TakeN(s, 1) case Short => Short case Got(b, r) => Got(VByte(b[0]), r))
    case I32Type => (match TakeN(s, 4) case Short => Short case Got(b, r) => Got(VI32(I32Of(b)), r))
    case I64Type => (match TakeN(s, 8) case Short => Short case Got(b, r) => Got(VI64(I64Of(b)), r))
    case F64Type => (match TakeN(s, 8) case Short => Short case Got(b, r) => Got(VF64(b), r))
    case StringType => (match TakeString(s) case Short => Short case Got(b, r) => Got(VString(b), r))
  }

  /** The field type a value tag stands for; NoType for a tag no case of the switch handles. */
  function TypeOfTag(n: nat): FieldType {
    if n == 0x0002 then ByteType
    else if n == 0x0012 then I32Type
    else if n == 0x0013 then I64Type
    else if n == 0x0021 then F64Type
    else if n == 0x00A0 then StringType
    else NoType
  }

  /** One pass of the decoding loop; a record takes at least nine bytes. */
  function TakeRecord(s: seq<byte>): (p: Parse<(Record, seq<byte>)>)
    ensures p.Parsed? ==> |p.value.1| + RecordSize(p.value.0.name, p.value.0.value) == |s|
  {
    match TakeN(s, 2)
    case Short => NullParse
    case Got(t0, s0) =>
      if FromLE(t0) != NAME_TAG then NullParse
      else match TakeString(s0)
        case Short => NullParse
        case Got(name, s1) =>
          match TakeN(s1, 2)
          case Short => NullParse
          case Got(t1, s2) =>
            var t := TypeOfTag(FromLE(t1));
            if t == NoType then ThrowParse
            else match TakePayload(t, s2)
              case Short => NullParse
              case Got(v, s3) => Parsed((Record(name, v), s3))
  }

  function TakeRecords(s: seq<byte>): (p: Parse<seq<Record>>)
    decreases |s|
  {
    if s == [] then Parsed([])
    else match TakeRecord(s)
      case NullParse => NullParse
      case ThrowParse => ThrowParse
      case Parsed((r, rest)) =>
        match TakeRecords(rest)
        case NullParse => NullParse
        case ThrowParse => ThrowParse
        case Parsed(rs) => Parsed([r] + rs)
  }

  /** The decoding loop: every record is added as soon as it is read. */
  function DecodeFields(s: seq<byte>, m: Fields): (p: Parse<Fields>)
    decreases |s|
  {
    if s == [] then Parsed(m)
    else match TakeRecord(s)
      case NullParse => NullParse
      case ThrowParse => ThrowParse
      case Parsed((r, rest)) => DecodeFields(rest, AddField(m, r))
  }

  /** One pass of the loop, and its end. */
  lemma DecodeFieldsPass(s: seq<byte>, m: Fields)
    ensures s == [] ==> DecodeFields(s, m) == Parsed(m)
    ensures s != [] && TakeRecord(s) == NullParse ==> DecodeFields(s, m) == NullParse
    ensures s != [] && TakeRecord(s) == ThrowParse ==> DecodeFields(s, m) == ThrowParse
    ensures s != [] && TakeRecord(s).Parsed? ==>
              DecodeFields(s, m) == DecodeFields(TakeRecord(s).value.1, AddField(m, TakeRecord(s).value.0))
  {
  }

  function DecodeBody(h: Header, body: seq<byte>): Outcome {
    if |body| < h.payloadLength then Null
    else match TakeString(body)
      case Short => Threw(RemainLengthNotEnough)
      case Got(service, rest) =>
        match DecodeFields(rest, map[])
        case NullParse => Null
        case ThrowParse => Threw(UnreachableCode)
        case Parsed(m) => Decoded(Obj(h, service, m))
  }

  predicate MinSizeSatisfied(s: seq<byte>) {
    |s| >= HEADER_SIZE + 4 && |s| - HEADER_SIZE - 4 >= U32Of(s[HEADER_SIZE..HEADER_SIZE + 4])
  }

  function DecodeMessage(s: seq<byte>): Outcome {
    if !MinSizeSatisfied(s) then Null else DecodeBody(HeaderOf(s[..HEADER_SIZE]), s[HEADER_SIZE..])
  }

  // ----- Parsing inverts printing, and printing inverts parsing -----

  lemma TagOfType(t: FieldType)
    requires t != NoType
    ensures TypeOfTag(Tag(t)) == t && Tag(t) < 0x1_0000
  {
  }

  lemma TypeOfTagOf(n: nat)
    requires TypeOfTag(n) != NoType
    ensures Tag(TypeOfTag(n)) == n
  {
  }

  lemma TagBytesRead(n: nat, rest: seq<byte>)
    requires n < 0x1_0000
    ensures TakeN(LE(n, 2) + rest, 2) == Got(LE(n, 2), rest) && FromLE(LE(n, 2)) == n
  {
    Widths();
    FromLEOfLE(n, 2);
  }

  lemma StringRead(s: seq<byte>, rest: seq<byte>)
    requires |s| < 0x1_0000_0000
    ensures TakeString(StringBytes(s) + rest) == Got(s, rest)
  {
    U32Inverse(|s|, LE(|s|, 4));
    assert (StringBytes(s) + rest)[..4] == LE(|s|, 4);
    assert (StringBytes(s) + rest)[4..] == s + rest;
    assert (s + rest)[..|s|] == s && (s + rest)[|s|..] == rest;
  }

  lemma StringWritten(s: seq<byte>)
    requires TakeString(s).Got?
    ensures s == StringBytes(TakeString(s).value) + TakeString(s).rest
    ensures |TakeString(s).value| < 0x1_0000_0000
  {
    var Got(l, rest) := TakeN(s, 4);
    U32Inverse(0, l);
  }

  lemma PayloadRead(v: Value, rest: seq<byte>)
    requires v.VString? ==> |v.s| < 0x1_0000_0000
    ensures TakePayload(v.Type(), PayloadBytes(v) + rest) == Got(v, rest)
  {
    var p := PayloadBytes(v);
    assert (p + rest)[..|p|] == p && (p + rest)[|p|..] == rest;
    match v
    case VByte(_) =>
    case VI32(i) => I32Inverse(i, p);
    case VI64(l) => I64Inverse(l, p);
    case VF64(_) =>
    case VString(s) => StringRead(s, rest);
  }

  lemma PayloadWritten(t: FieldType, s: seq<byte>)
    requires t != NoType && TakePayload(t, s).Got?
    ensures s == PayloadBytes(TakePayload(t, s).value) + TakePayload(t, s).rest
    ensures var v := TakePayload(t, s).value; v.VString? ==> |v.s| < 0x1_0000_0000
  {
    match t
    case ByteType => assert s[..1] == [s[0]];
    case I32Type => I32Inverse(0, s[..4]);
    case I64Type => I64Inverse(0, s[..8]);
    case F64Type =>
    case StringType => StringWritten(s);
  }

  /** Every length in the record fits the u32 that announces it. */
  ghost predicate Fits(r: Record) {
    |r.name| < 0x1_0000_0000 && (r.value.VString? ==> |r.value.s| < 0x1_0000_0000)
  }

  lemma FourParts(a: seq<byte>, b: seq<byte>, c: seq<byte>, d: seq<byte>, e: seq<byte>)
    ensures a + b + c + d + e == a + (b + (c + (d + e)))
  {
  }

  lemma RecordRead(r: Record, rest: seq<byte>)
    requires Fits(r)
    ensures TakeRecord(RecordBytes(r) + rest) == Parsed((r, rest))
  {
    var t := r.value.Type();
    var s2 := PayloadBytes(r.value) + rest;
    var s1 := LE(Tag(t), 2) + s2;
    var s0 := StringBytes(r.name) + s1;
    FourParts(LE(NAME_TAG, 2), StringBytes(r.name), LE(Tag(t), 2), PayloadBytes(r.value), rest);
    assert RecordBytes(r) + rest == LE(NAME_TAG, 2) + s0;
    hide LE, FromLE, StringBytes, PayloadBytes, TakeString, TakePayload, TakeN, RecordBytes;
    TagBytesRead(NAME_TAG, s0);
    StringRead(r.name, s1);
    TagOfType(t);
    TagBytesRead(Tag(t), s2);
    PayloadRead(r.value, rest);
  }

  lemma RecordWritten(s: seq<byte>)
    requires TakeRecord(s).Parsed?
    ensures var (r, rest) := TakeRecord(s).value; s == RecordBytes(r) + rest && Fits(r)
  {
    var (r, rest) := TakeRecord(s).value;
    var Got(t0, s0) := TakeN(s, 2);
    var Got(name, s1) := TakeString(s0);
    var Got(t1, s2) := TakeN(s1, 2);
    LEOfFromLE(t0);
    LEOfFromLE(t1);
    StringWritten(s0);
    PayloadWritten(TypeOfTag(FromLE(t1)), s2);
    TypeOfTagOf(FromLE(t1));
    FourParts(LE(NAME_TAG, 2), StringBytes(name), LE(Tag(r.value.Type()), 2), PayloadBytes(r.value), rest);
  }

  ghost predicate AllFit(rs: seq<Record>) {
    forall i :: 0 <= i < |rs| ==> Fits(rs[i])
  }

  lemma TakeRecordsStep(s: seq<byte>, r: Record, rest: seq<byte>, rs: seq<Record>)
    requires TakeRecord(s) == Parsed((r, rest)) && TakeRecords(rest) == Parsed(rs)
    ensures TakeRecords(s) == Parsed([r] + rs)
  {
    assert s != [];
  }

  lemma {:induction false} RecordsRead(rs: seq<Record>)
    requires AllFit(rs)
    ensures TakeRecords(RecordsBytes(rs)) == Parsed(rs)
  {
    if rs != [] {
      var rest := RecordsBytes(rs[1..]);
      RecordRead(rs[0], rest);
      RecordsRead(rs[1..]);
      TakeRecordsStep(RecordsBytes(rs), rs[0], rest, rs[1..]);
      assert [rs[0]] + rs[1..] == rs;
    }
  }

  lemma {:induction false} RecordsWritten(s: seq<byte>)
    requires TakeRecords(s).Parsed?
    ensures RecordsBytes(TakeRecords(s).value) == s && AllFit(TakeRecords(s).value)
    decreases |s|
  {
    if s != [] {
      var (r, rest) := TakeRecord(s).value;
      RecordWritten(s);
      RecordsWritten(rest);
      var rs := TakeRecords(rest).value;
      assert ([r] + rs)[1..] == rs;
    }
  }

  /** How many fields the loop completes before it ends, be it at the end, in null or in an exception. */
  function Completed(s: seq<byte>): nat
    decreases |s|
  {
    if s == [] || !TakeRecord(s).Parsed? then 0 else 1 + Completed(TakeRecord(s).value.1)
  }

  /** On any bytes, at least nine go into every completed field; where all are accepted, these are all. */
  lemma {:induction false} RecordCountBound(s: seq<byte>)
    ensures 9 * Completed(s) <= |s|
    ensures TakeRecords(s).Parsed? ==> |TakeRecords(s).value| == Completed(s)
    decreases |s|
  {
    if s != [] && TakeRecord(s).Parsed? {
      RecordCountBound(TakeRecord(s).value.1);
    }
  }

  /** Reading and adding record by record is reading them all and adding them in order. */
  lemma {:induction false} DecodeFieldsIsAddAll(s: seq<byte>, m: Fields)
    ensures DecodeFields(s, m) == match TakeRecords(s)
                                  case NullParse => NullParse
                                  case ThrowParse => ThrowParse
                                  case Parsed(rs) => Parsed(AddAll(m, rs))
    decreases |s|
  {
    if s != [] && TakeRecord(s).Parsed? {
      var (r, rest) := TakeRecord(s).value;
      DecodeFieldsIsAddAll(rest, AddField(m, r));
      if TakeRecords(rest).Parsed? {
        var rs := TakeRecords(rest).value;
        assert ([r] + rs)[0] == r && ([r] + rs)[1..] == rs;
      }
    }
  }

  lemma {:induction false} WordsRead(ws: seq<u32>)
    ensures Words(WordBytes(ws)) == ws
  {
    if ws != [] {
      U32Inverse(ws[0], LE(ws[0], 4));
      assert WordBytes(ws)[..4] == LE(ws[0], 4) && WordBytes(ws)[4..] == WordBytes(ws[1..]);
      WordsRead(ws[1..]);
    }
  }

  lemma {:induction false} WordsWritten(s: seq<byte>)
    requires |s| % 4 == 0
    ensures WordBytes(Words(s)) == s
  {
    if s != [] {
      U32Inverse(0, s[..4]);
      WordsWritten(s[4..]);
      assert Words(s)[1..] == Words(s[4..]);
    }
  }

  lemma HeaderRead(h: Header)
    ensures HeaderOf(HeaderBytes(h)) == h
  {
    var ws := [h.id, h.traceId, h.msgType, h.payloadLength, h.contentOffset, h.extra0, h.extra1, h.extra2, h.extra3];
    WordsRead(ws);
    I32Inverse(h.magic, I32Bytes(h.magic));
    assert HeaderBytes(h)[..4] == I32Bytes(h.magic) && HeaderBytes(h)[4..] == WordBytes(ws);
  }

  lemma NineWords(w: seq<u32>)
    requires |w| == 9
    ensures w == [w[0], w[1], w[2], w[3], w[4], w[5], w[6], w[7], w[8]]
  {
  }

  lemma HeaderWritten(s: seq<byte>)
    requires |s| == HEADER_SIZE
    ensures HeaderBytes(HeaderOf(s)) == s
  {
    I32Inverse(0, s[..4]);
    WordsWritten(s[4..]);
    var w := Words(s[4..]);
    hide I32Of, U32Of, LE, I32Bytes, Words, WordBytes;
    NineWords(w);
  }
}
