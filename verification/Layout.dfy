/**
 * The wire format byte by byte: which bytes stand where, and what they mean, said with the
 * format's own numbers and apart from the printing and parsing functions.
 */
module Layout {
  import opened Bytes
  import opened BladeValues
  import opened Wire
  import opened Walking
  import opened Blade

  // ----- Strings and fields -----

  /** A length of four bytes, lowest first, then the characters. */
  lemma StringLayout(s: seq<byte>)
    ensures StringBytes(s)
            == [|s| % 256, |s| / 0x100 % 256, |s| / 0x1_0000 % 256, |s| / 0x100_0000 % 256] + s
  {
    U32Digits(|s|);
  }

  lemma TagLayout()
    ensures LE(NAME_TAG, 2) == [0xA1, 0x00]
    ensures LE(Tag(ByteType), 2) == [0x02, 0x00] && LE(Tag(I32Type), 2) == [0x12, 0x00]
    ensures LE(Tag(I64Type), 2) == [0x13, 0x00] && LE(Tag(F64Type), 2) == [0x21, 0x00]
    ensures LE(Tag(StringType), 2) == [0xA0, 0x00]
  {
    U16Digits(NAME_TAG);
    U16Digits(Tag(ByteType));
    U16Digits(Tag(I32Type));
    U16Digits(Tag(I64Type));
    U16Digits(Tag(F64Type));
    U16Digits(Tag(StringType));
  }

  /** A field is printed as these bytes, and these bytes are read as that field. */
  ghost predicate LaidOut(r: Record, bytes: seq<byte>) {
    RecordBytes(r) == bytes && forall rest :: TakeRecord(bytes + rest) == Parsed((r, rest))
  }

  lemma LaidOutAs(r: Record, bytes: seq<byte>)
    requires Fits(r) && RecordBytes(r) == bytes
    ensures LaidOut(r, bytes)
  {
    forall rest ensures TakeRecord(bytes + rest) == Parsed((r, rest)) {
      RecordRead(r, rest);
    }
  }

  lemma ByteField(name: Name, b: byte)
    requires |name| < 0x1_0000_0000
    ensures LaidOut(Record(name, VByte(b)), [0xA1, 0x00] + StringBytes(name) + [0x02, 0x00] + [b])
  {
    TagLayout();
    hide LE, StringBytes;
    LaidOutAs(Record(name, VByte(b)), [0xA1, 0x00] + StringBytes(name) + [0x02, 0x00] + [b]);
  }

  lemma I32Field(name: Name, i: i32)
    requires |name| < 0x1_0000_0000
    ensures LaidOut(Record(name, VI32(i)), [0xA1, 0x00] + StringBytes(name) + [0x12, 0x00] + I32Bytes(i))
  {
    TagLayout();
    hide LE, StringBytes, I32Bytes;
    LaidOutAs(Record(name, VI32(i)), [0xA1, 0x00] + StringBytes(name) + [0x12, 0x00] + I32Bytes(i));
  }

  lemma I64Field(name: Name, l: i64)
    requires |name| < 0x1_0000_0000
    ensures LaidOut(Record(name, VI64(l)), [0xA1, 0x00] + StringBytes(name) + [0x13, 0x00] + I64Bytes(l))
  {
    TagLayout();
    hide LE, StringBytes, I64Bytes;
    LaidOutAs(Record(name, VI64(l)), [0xA1, 0x00] + StringBytes(name) + [0x13, 0x00] + I64Bytes(l));
  }

  lemma F64Field(name: Name, d: f64)
    requires |name| < 0x1_0000_0000
    ensures LaidOut(Record(name, VF64(d)), [0xA1, 0x00] + StringBytes(name) + [0x21, 0x00] + d)
  {
    TagLayout();
    hide LE, StringBytes;
    LaidOutAs(Record(name, VF64(d)), [0xA1, 0x00] + StringBytes(name) + [0x21, 0x00] + d);
  }

  lemma StringField(name: Name, s: seq<byte>)
    requires |name| < 0x1_0000_0000 && |s| < 0x1_0000_0000
    ensures LaidOut(Record(name, VString(s)), [0xA1, 0x00] + StringBytes(name) + [0xA0, 0x00] + StringBytes(s))
  {
    TagLayout();
    hide LE, StringBytes;
    LaidOutAs(Record(name, VString(s)), [0xA1, 0x00] + StringBytes(name) + [0xA0, 0x00] + StringBytes(s));
  }

  /** Anything but the name's tag in front makes the decoder return null. */
  lemma OtherFirstTag(s: seq<byte>)
    ensures |s| < 2 || s[..2] != [0xA1, 0x00] ==> TakeRecord(s) == NullParse
  {
    if |s| >= 2 {
      TagLayout();
      LEOfFromLE(s[..2]);
    }
  }

  /** After a name, any tag but the five makes it throw, whatever follows. */
  lemma OtherValueTag(name: Name, low: byte, high: byte, rest: seq<byte>)
    requires |name| < 0x1_0000_0000
    requires [low, high] !in {[0x02, 0x00], [0x12, 0x00], [0x13, 0x00], [0x21, 0x00], [0xA0, 0x00]}
    ensures TakeRecord([0xA1, 0x00] + StringBytes(name) + [low, high] + rest) == ThrowParse
  {
    TagLayout();
    var s1 := [low, high] + rest;
    var s0 := StringBytes(name) + s1;
    var s := [0xA1, 0x00] + StringBytes(name) + [low, high] + rest;
    assert s == [0xA1, 0x00] + s0;
    StringRead(name, s1);
    LEOfFromLE([low, high]);
    LEOfFromLE([0xA1, 0x00]);
    FromLEOfLE(NAME_TAG, 2);
    assert TakeN(s, 2) == Got([0xA1, 0x00], s0) && TakeN(s1, 2) == Got([low, high], rest);
    hide LE, StringBytes, TakeString;
  }

  // ----- The header -----

  /** Ten words of four bytes: where each lies. */
  lemma HeaderLayout(h: Header)
    ensures HeaderBytes(h)[0..4] == I32Bytes(h.magic)
    ensures HeaderBytes(h)[4..8] == LE(h.id, 4) && HeaderBytes(h)[8..12] == LE(h.traceId, 4)
    ensures HeaderBytes(h)[12..16] == LE(h.msgType, 4)
    ensures HeaderBytes(h)[16..20] == LE(h.payloadLength, 4) && HeaderBytes(h)[20..24] == LE(h.contentOffset, 4)
    ensures HeaderBytes(h)[24..28] == LE(h.extra0, 4) && HeaderBytes(h)[28..32] == LE(h.extra1, 4)
    ensures HeaderBytes(h)[32..36] == LE(h.extra2, 4) && HeaderBytes(h)[36..40] == LE(h.extra3, 4)
  {
    var ws := [h.id, h.traceId, h.msgType, h.payloadLength, h.contentOffset, h.extra0, h.extra1, h.extra2, h.extra3];
    var m, w := I32Bytes(h.magic), WordBytes(ws);
    assert HeaderBytes(h) == m + w;
    hide HeaderBytes, WordBytes, LE, I32Bytes;
    WordBehind(m, ws, 0, 4);
    WordBehind(m, ws, 1, 8);
    WordBehind(m, ws, 2, 12);
    WordBehind(m, ws, 3, 16);
    WordBehind(m, ws, 4, 20);
    WordBehind(m, ws, 5, 24);
    WordBehind(m, ws, 6, 28);
    WordBehind(m, ws, 7, 32);
    WordBehind(m, ws, 8, 36);
  }

  lemma WordBehind(m: seq<byte>, ws: seq<u32>, k: nat, at: nat)
    requires |m| == 4 && k < |ws| && at == 4 + 4 * k
    ensures at + 4 <= 4 + |WordBytes(ws)| && (m + WordBytes(ws))[at..at + 4] == LE(ws[k], 4)
  {
    WordAt(ws, k);
    var w, b := WordBytes(ws), LE(ws[k], 4);
    hide *;
    WordIn(m, w, at - 4, b);
  }

  lemma WordIn(m: seq<byte>, w: seq<byte>, at: nat, b: seq<byte>)
    requires |m| == 4 && at + 4 <= |w| && w[at..at + 4] == b
    ensures (m + w)[at + 4..at + 8] == b
  {
  }

  lemma Behind(a: seq<byte>, s: seq<byte>, from: nat, to: nat)
    requires from <= to <= |s|
    ensures (a + s)[|a| + from..|a| + to] == s[from..to]
  {
  }

  lemma {:induction false} WordAt(ws: seq<u32>, k: nat)
    requires k < |ws|
    ensures WordBytes(ws)[4 * k..4 * k + 4] == LE(ws[k], 4)
  {
    var head, tail := LE(ws[0], 4), WordBytes(ws[1..]);
    assert WordBytes(ws) == head + tail;
    if k > 0 {
      WordAt(ws[1..], k - 1);
      hide LE, WordBytes;
      Behind(head, tail, 4 * (k - 1), 4 * (k - 1) + 4);
    }
  }

  /** The same words, read. */
  lemma HeaderMeaning(s: seq<byte>)
    requires |s| == 40
    ensures var h := HeaderOf(s);
            && h.magic == I32Of(s[0..4]) && h.id == U32Of(s[4..8]) && h.traceId == U32Of(s[8..12])
            && h.msgType == U32Of(s[12..16]) && h.payloadLength == U32Of(s[16..20])
            && h.contentOffset == U32Of(s[20..24]) && h.extra0 == U32Of(s[24..28]) && h.extra1 == U32Of(s[28..32])
            && h.extra2 == U32Of(s[32..36]) && h.extra3 == U32Of(s[36..40])
  {
    var h := HeaderOf(s);
    HeaderWritten(s);
    HeaderLayout(h);
    hide HeaderOf, HeaderBytes, LE, I32Bytes, I32Of, U32Of;
    I32Inverse(h.magic, s[0..4]);
    U32Inverse(h.id, s[4..8]);
    U32Inverse(h.traceId, s[8..12]);
    U32Inverse(h.msgType, s[12..16]);
    U32Inverse(h.payloadLength, s[16..20]);
    U32Inverse(h.contentOffset, s[20..24]);
    U32Inverse(h.extra0, s[24..28]);
    U32Inverse(h.extra1, s[28..32]);
    U32Inverse(h.extra2, s[32..36]);
    U32Inverse(h.extra3, s[36..40]);
  }

  // ----- The message -----

  /**
   * In what is sent for an object, the content offset is where the fields begin and the payload
   * length what follows the forty bytes of the header; every other word of it is the object's own.
   */
  lemma UpdatedLayout(o: Obj, rs: seq<Record>)
    requires WellSized(o) && IsListing(o.fields, rs)
    ensures var h, m := Updated(o).header, Message(Updated(o).header, o.service, rs);
            && h.contentOffset <= |m| && m[h.contentOffset..] == RecordsBytes(rs)
            && m[40..h.contentOffset] == StringBytes(o.service) && h.payloadLength == |m| - 40
    ensures var h := Updated(o).header;
            && h.magic == o.header.magic && h.id == o.header.id && h.traceId == o.header.traceId
            && h.msgType == o.header.msgType && h.extra0 == o.header.extra0 && h.extra1 == o.header.extra1
            && h.extra2 == o.header.extra2 && h.extra3 == o.header.extra3
    ensures Updated(o).service == o.service && Updated(o).fields == o.fields
  {
    UpdatedHeader(o);
    ListingSize(o.fields, rs);
    var h := Updated(o).header;
    hide HeaderBytes, StringBytes, RecordsBytes, FieldsSize, RecordsSize, Updated, EncodedSize, IsListing;
    ThreeParts(HeaderBytes(h), StringBytes(o.service), RecordsBytes(rs));
  }

  lemma UpdatedHeader(o: Obj)
    requires WellSized(o)
    ensures var h := Updated(o).header;
            && h.magic == o.header.magic && h.id == o.header.id && h.traceId == o.header.traceId
            && h.msgType == o.header.msgType && h.extra0 == o.header.extra0 && h.extra1 == o.header.extra1
            && h.extra2 == o.header.extra2 && h.extra3 == o.header.extra3
    ensures Updated(o).service == o.service && Updated(o).fields == o.fields
    ensures Updated(o).header.contentOffset == 44 + |o.service|
    ensures Updated(o).header.payloadLength == 4 + |o.service| + FieldsSize(o.fields)
  {
  }

  lemma ThreeParts(a: seq<byte>, b: seq<byte>, c: seq<byte>)
    ensures (a + (b + c))[|a|..|a| + |b|] == b && (a + (b + c))[|a| + |b|..] == c
  {
  }

  /** The fields come by type: bytes, 32-bit, 64-bit, floating point, strings. */
  function Rank(v: Value): nat {
    match v
    case VByte(_) => 0
    case VI32(_) => 1
    case VI64(_) => 2
    case VF64(_) => 3
    case VString(_) => 4
  }

  ghost predicate AllOfRank(rs: seq<Record>, rank: nat) {
    forall i :: 0 <= i < |rs| ==> Rank(rs[i].value) == rank
  }

  ghost predicate Sorted(rs: seq<Record>) {
    forall i, j :: 0 <= i < j < |rs| ==> Rank(rs[i].value) <= Rank(rs[j].value)
  }

  lemma SortedBehind(a: seq<Record>, b: seq<Record>, rank: nat)
    requires Sorted(a) && AllOfRank(b, rank) && forall i :: 0 <= i < |a| ==> Rank(a[i].value) <= rank
    ensures Sorted(a + b) && forall i :: 0 <= i < |a + b| ==> Rank((a + b)[i].value) <= rank
  {
  }

  /** Whatever order the stores themselves are walked in, an object's fields come sorted by type. */
  lemma FieldsComeByType(t: Tables, w: Walk)
    requires w.Of(t.TypedStores())
    ensures Sorted(w.All())
  {
    var st := t.TypedStores();
    ListedRank(st.bytes, w.bytes, 0);
    ListedRank(st.i32s, w.i32s, 1);
    ListedRank(st.i64s, w.i64s, 2);
    ListedRank(st.f64s, w.f64s, 3);
    ListedRank(st.strings, w.strings, 4);
    hide IsListing, AllOfRank, Sorted;
    FirstSorted(w.bytes, 0);
    SortedBehind(w.bytes, w.i32s, 1);
    SortedBehind(w.bytes + w.i32s, w.i64s, 2);
    SortedBehind(w.bytes + w.i32s + w.i64s, w.f64s, 3);
    SortedBehind(w.bytes + w.i32s + w.i64s + w.f64s, w.strings, 4);
  }

  lemma ListedRank(m: Fields, rs: seq<Record>, rank: nat)
    requires IsListing(m, rs) && forall k :: k in m ==> Rank(m[k]) == rank
    ensures AllOfRank(rs, rank)
  {
  }

  lemma FirstSorted(a: seq<Record>, rank: nat)
    requires AllOfRank(a, rank)
    ensures Sorted(a) && forall i :: 0 <= i < |a| ==> Rank(a[i].value) <= rank
  {
  }
}
