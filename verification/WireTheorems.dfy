/** What encoding and decoding promise together, over every object and every buffer. */
module WireTheorems {
  import opened Bytes
  import opened BladeValues
  import opened Wire

  lemma ListingFits(o: Obj, rs: seq<Record>)
    requires WellSized(o) && IsListing(o.fields, rs)
    ensures AllFit(rs) && |o.service| < 0x8000_0000
  {
    forall i | 0 <= i < |rs| ensures Fits(rs[i]) {
      RecordFits(o.fields, rs, i);
    }
  }

  /** A body made of any records decodes to the first record of every name. */
  lemma BodyDecodes(h: Header, service: seq<byte>, rs: seq<Record>)
    requires AllFit(rs) && |service| < 0x1_0000_0000
    requires h.payloadLength <= |BodyBytes(service, rs)|
    ensures DecodeBody(h, BodyBytes(service, rs)) == Decoded(Obj(h, service, AddAll(map[], rs)))
  {
    StringRead(service, RecordsBytes(rs));
    RecordsRead(rs);
    DecodeFieldsIsAddAll(RecordsBytes(rs), map[]);
  }

  lemma MessageParts(h: Header, service: seq<byte>, rs: seq<Record>)
    requires |service| < 0x1_0000_0000
    ensures MinSizeSatisfied(Message(h, service, rs))
    ensures DecodeMessage(Message(h, service, rs)) == DecodeBody(h, BodyBytes(service, rs))
  {
    var s, body := Message(h, service, rs), BodyBytes(service, rs);
    assert s[..HEADER_SIZE] == HeaderBytes(h) && s[HEADER_SIZE..] == body;
    HeaderRead(h);
    assert s[HEADER_SIZE..HEADER_SIZE + 4] == body[..4] == LE(|service|, 4);
    U32Inverse(|service|, LE(|service|, 4));
  }

  /**
   * Encoding an object, in whatever order its fields are walked, takes exactly EncodedSize
   * bytes, announces the length of its body, and decodes to the same object.
   */
  lemma RoundTrip(o: Obj, rs: seq<Record>)
    requires WellSized(o) && IsListing(o.fields, rs)
    ensures |Message(Updated(o).header, o.service, rs)| == EncodedSize(o)
    ensures |BodyBytes(o.service, rs)| == Updated(o).header.payloadLength
    ensures DecodeBody(Updated(o).header, BodyBytes(o.service, rs)) == Decoded(Updated(o))
    ensures DecodeMessage(Message(Updated(o).header, o.service, rs)) == Decoded(Updated(o))
  {
    var h := Updated(o).header;
    ListingSize(o.fields, rs);
    ListingFits(o, rs);
    BodyDecodes(h, o.service, rs);
    AddAllOfListing(o.fields, rs);
    MessageParts(h, o.service, rs);
  }

  /** On any accepted list of records, the first record of each name is the one kept. */
  lemma FirstRecordWins(h: Header, service: seq<byte>, rs: seq<Record>)
    requires AllFit(rs) && |service| < 0x1_0000_0000
    requires h.payloadLength <= |BodyBytes(service, rs)|
    ensures var r := DecodeMessage(Message(h, service, rs));
            && r.Decoded? && r.o.header == h && r.o.service == service
            && (forall k :: k in r.o.fields <==> exists i :: IsFirst(rs, i) && rs[i].name == k)
            && (forall i {:trigger rs[i]} :: IsFirst(rs, i) ==> r.o.fields[rs[i].name] == rs[i].value)
  {
    MessageParts(h, service, rs);
    BodyDecodes(h, service, rs);
    AddAllKeepsFirst(map[], rs);
  }

  ghost predicate IsMessage(s: seq<byte>, h: Header, service: seq<byte>, rs: seq<Record>) {
    && s == Message(h, service, rs)
    && |service| < 0x1_0000_0000 && AllFit(rs)
    && h.payloadLength <= |s| - HEADER_SIZE
  }

  /** The records in a body, in the order they stand there. */
  function RecordsIn(body: seq<byte>): seq<Record>
    requires TakeString(body).Got? && TakeRecords(TakeString(body).rest).Parsed?
  {
    TakeRecords(TakeString(body).rest).value
  }

  lemma DecodedBody(h: Header, body: seq<byte>)
    requires DecodeBody(h, body).Decoded?
    ensures h.payloadLength <= |body|
    ensures TakeString(body).Got? && TakeRecords(TakeString(body).rest).Parsed?
    ensures var (service, rs) := (TakeString(body).value, RecordsIn(body));
            && body == BodyBytes(service, rs) && AllFit(rs) && |service| < 0x1_0000_0000
            && DecodeBody(h, body).o == Obj(h, service, AddAll(map[], rs))
  {
    var Got(service, rest) := TakeString(body);
    StringWritten(body);
    DecodeFieldsIsAddAll(rest, map[]);
    RecordsWritten(rest);
  }

  /**
   * The decoder accepts exactly the buffers that some header, service name and record list
   * print, with a payload length no larger than what follows the header.
   */
  lemma AcceptsExactlyMessages(s: seq<byte>)
    ensures DecodeMessage(s).Decoded? <==> exists h, service, rs :: IsMessage(s, h, service, rs)
  {
    if DecodeMessage(s).Decoded? {
      var h, body := HeaderOf(s[..HEADER_SIZE]), s[HEADER_SIZE..];
      DecodedBody(h, body);
      HeaderWritten(s[..HEADER_SIZE]);
      assert s == s[..HEADER_SIZE] + s[HEADER_SIZE..];
      assert IsMessage(s, h, TakeString(body).value, RecordsIn(body));
    }
    if exists h, service, rs :: IsMessage(s, h, service, rs) {
      var h, service, rs :| IsMessage(s, h, service, rs);
      MessageParts(h, service, rs);
      BodyDecodes(h, service, rs);
    }
  }

  /**
   * Normalisation: re-encoding a decoded object never takes more bytes than it was decoded
   * from, takes as many exactly when no name was repeated, and decodes to that object again
   * but for the two header fields that are recomputed.
   */
  lemma Normalisation(s: seq<byte>, rs: seq<Record>)
    requires DecodeMessage(s).Decoded? && |s| < 0x8000_0000
    requires IsListing(DecodeMessage(s).o.fields, rs)
    ensures TakeString(s[HEADER_SIZE..]).Got? && TakeRecords(TakeString(s[HEADER_SIZE..]).rest).Parsed?
    ensures var o := DecodeMessage(s).o;
            && WellSized(o)
            && var again := Message(Updated(o).header, o.service, rs);
            && |again| <= |s|
            && (|again| == |s| <==> Distinct(RecordsIn(s[HEADER_SIZE..])))
            && DecodeMessage(again) == Decoded(Updated(o))
            && Updated(Updated(o)) == Updated(o)
  {
    var h, body, o := HeaderOf(s[..HEADER_SIZE]), s[HEADER_SIZE..], DecodeMessage(s).o;
    hide Message, BodyBytes, TakeRecords, TakeString, IsListing, FieldsSize, DecodeBody;
    DecodedBody(h, body);
    AddAllSize(map[], RecordsIn(body));
    ListingSize(o.fields, rs);
    RoundTrip(o, rs);
  }

  /** Decode itself never lets the missing-bytes exception out: MinSizeSatisfied saw to it. */
  lemma MissingBytesNeverEscape(s: seq<byte>)
    ensures DecodeMessage(s) != Threw(RemainLengthNotEnough)
  {
    if MinSizeSatisfied(s) {
      assert s[HEADER_SIZE..][..4] == s[HEADER_SIZE..HEADER_SIZE + 4];
    }
  }

  /** The service name, or the length before it, is longer than what there is. */
  predicate CutShort(body: seq<byte>) {
    |body| < 4 || |body| - 4 < U32Of(body[..4])
  }

  /** Decoding a body on its own, as a session does, throws it exactly when the name is cut short. */
  lemma BodyMissingBytes(h: Header, body: seq<byte>)
    ensures DecodeBody(h, body) == Threw(RemainLengthNotEnough) <==> h.payloadLength <= |body| && CutShort(body)
  {
  }

  // ----- When the decoder throws for a value tag it does not know -----

  function NameAndTag(name: Name, tag: nat): seq<byte> {
    LE(NAME_TAG, 2) + StringBytes(name) + LE(tag, 2)
  }

  ghost predicate UnknownTagAfter(s: seq<byte>, rs: seq<Record>, name: Name, tag: nat, rest: seq<byte>) {
    && s == RecordsBytes(rs) + NameAndTag(name, tag) + rest
    && AllFit(rs) && |name| < 0x1_0000_0000
    && tag < 0x1_0000 && TypeOfTag(tag) == NoType
  }

  lemma Reassociate(a: seq<byte>, b: seq<byte>, c: seq<byte>, d: seq<byte>)
    ensures a + (b + c + d) == (a + b) + c + d
  {
  }

  lemma UnknownTagThrows(name: Name, tag: nat, rest: seq<byte>)
    requires |name| < 0x1_0000_0000 && tag < 0x1_0000 && TypeOfTag(tag) == NoType
    ensures TakeRecord(NameAndTag(name, tag) + rest) == ThrowParse
  {
    var s1 := LE(tag, 2) + rest;
    var s0 := StringBytes(name) + s1;
    assert NameAndTag(name, tag) + rest == LE(NAME_TAG, 2) + s0;
    hide LE, FromLE, StringBytes, TakeString, TakeN, NameAndTag;
    TagBytesRead(NAME_TAG, s0);
    StringRead(name, s1);
    TagBytesRead(tag, rest);
  }

  lemma ThrowsLater(s: seq<byte>, r: Record, rest: seq<byte>)
    requires TakeRecord(s) == Parsed((r, rest)) && TakeRecords(rest) == ThrowParse
    ensures TakeRecords(s) == ThrowParse
  {
    assert s != [];
  }

  lemma {:induction false} UnknownTagLaterThrows(rs: seq<Record>, name: Name, tag: nat, rest: seq<byte>)
    requires AllFit(rs) && |name| < 0x1_0000_0000 && tag < 0x1_0000 && TypeOfTag(tag) == NoType
    ensures TakeRecords(RecordsBytes(rs) + NameAndTag(name, tag) + rest) == ThrowParse
  {
    var bad := NameAndTag(name, tag) + rest;
    if rs == [] {
      assert RecordsBytes(rs) + NameAndTag(name, tag) + rest == bad;
      UnknownTagThrows(name, tag, rest);
    } else {
      var later := RecordsBytes(rs[1..]) + NameAndTag(name, tag) + rest;
      Reassociate(RecordBytes(rs[0]), RecordsBytes(rs[1..]), NameAndTag(name, tag), rest);
      hide RecordBytes, NameAndTag, TakeRecord, TakeRecords;
      RecordRead(rs[0], later);
      UnknownTagLaterThrows(rs[1..], name, tag, rest);
      ThrowsLater(RecordBytes(rs[0]) + later, rs[0], later);
    }
  }

  lemma ThreeParts(s: seq<byte>, a: seq<byte>, s0: seq<byte>,
                   b: seq<byte>, s1: seq<byte>, c: seq<byte>, rest: seq<byte>)
    requires s == a + s0 && s0 == b + s1 && s1 == c + rest
    ensures s == [] + (a + b + c) + rest
  {
  }

  lemma ThrowingRecord(s: seq<byte>) returns (name: Name, tag: nat, rest: seq<byte>)
    requires TakeRecord(s) == ThrowParse
    ensures UnknownTagAfter(s, [], name, tag, rest)
  {
    var Got(t0, s0) := TakeN(s, 2);
    var Got(n, s1) := TakeString(s0);
    var Got(t1, s2) := TakeN(s1, 2);
    hide LE, FromLE, StringBytes, TakeString, TakeRecord, Pow256;
    LEOfFromLE(t0);
    LEOfFromLE(t1);
    Widths();
    StringWritten(s0);
    name, tag, rest := n, FromLE(t1), s2;
    ThreeParts(s, LE(NAME_TAG, 2), s0, StringBytes(name), s1, LE(tag, 2), rest);
  }

  lemma UnknownTagOneLater(r: Record, s: seq<byte>, rs: seq<Record>, name: Name, tag: nat, rest: seq<byte>)
    requires Fits(r) && UnknownTagAfter(s, rs, name, tag, rest)
    ensures UnknownTagAfter(RecordBytes(r) + s, [r] + rs, name, tag, rest)
  {
    assert ([r] + rs)[1..] == rs;
    Reassociate(RecordBytes(r), RecordsBytes(rs), NameAndTag(name, tag), rest);
  }

  lemma {:induction false} ThrowingRecords(s: seq<byte>)
    returns (rs: seq<Record>, name: Name, tag: nat, rest: seq<byte>)
    requires TakeRecords(s) == ThrowParse
    ensures UnknownTagAfter(s, rs, name, tag, rest)
    decreases |s|
  {
    if TakeRecord(s) == ThrowParse {
      rs := [];
      name, tag, rest := ThrowingRecord(s);
    } else {
      var (r, later) := TakeRecord(s).value;
      RecordWritten(s);
      var rs';
      rs', name, tag, rest := ThrowingRecords(later);
      rs := [r] + rs';
      UnknownTagOneLater(r, later, rs', name, tag, rest);
    }
  }

  /** The fields throw exactly when complete records are followed by a name and an unknown tag. */
  lemma ThrowsExactlyOnUnknownTag(s: seq<byte>)
    ensures TakeRecords(s) == ThrowParse
            <==> exists rs, name, tag, rest :: UnknownTagAfter(s, rs, name, tag, rest)
  {
    if TakeRecords(s) == ThrowParse {
      var rs, name, tag, rest := ThrowingRecords(s);
    }
    if exists rs, name, tag, rest :: UnknownTagAfter(s, rs, name, tag, rest) {
      var rs, name, tag, rest :| UnknownTagAfter(s, rs, name, tag, rest);
      UnknownTagLaterThrows(rs, name, tag, rest);
    }
  }

  // ----- What a body decodes to, told from its bytes -----

  /** Some service name and some records, printed. */
  ghost predicate IsBody(body: seq<byte>) {
    exists service, rs :: body == BodyBytes(service, rs) && AllFit(rs) && |service| < 0x1_0000_0000
  }

  ghost predicate NameThenFields(body: seq<byte>, service: seq<byte>, fields: seq<byte>) {
    body == StringBytes(service) + fields && |service| < 0x1_0000_0000
  }

  /** After the service name and complete records, a name is followed by a tag no case handles. */
  ghost predicate UnknownTagIn(body: seq<byte>) {
    exists service, fields ::
      NameThenFields(body, service, fields)
      && exists rs, name, tag, rest :: UnknownTagAfter(fields, rs, name, tag, rest)
  }

  lemma UnknownTagBody(h: Header, body: seq<byte>)
    requires h.payloadLength <= |body|
    ensures DecodeBody(h, body) == Threw(UnreachableCode) <==> UnknownTagIn(body)
  {
    hide UnknownTagAfter, StringBytes, TakeString;
    if UnknownTagIn(body) {
      var service, fields :|
        NameThenFields(body, service, fields)
        && exists rs, name, tag, rest :: UnknownTagAfter(fields, rs, name, tag, rest);
      StringRead(service, fields);
      ThrowsExactlyOnUnknownTag(fields);
      DecodeFieldsIsAddAll(fields, map[]);
    }
    if DecodeBody(h, body) == Threw(UnreachableCode) {
      var Got(service, fields) := TakeString(body);
      StringWritten(body);
      DecodeFieldsIsAddAll(fields, map[]);
      ThrowsExactlyOnUnknownTag(fields);
      assert NameThenFields(body, service, fields);
    }
  }

  lemma AcceptsExactlyBodies(h: Header, body: seq<byte>)
    requires h.payloadLength <= |body|
    ensures DecodeBody(h, body).Decoded? <==> IsBody(body)
  {
    hide BodyBytes, DecodeBody;
    if DecodeBody(h, body).Decoded? {
      DecodedBody(h, body);
    }
    if IsBody(body) {
      var service, rs :| body == BodyBytes(service, rs) && AllFit(rs) && |service| < 0x1_0000_0000;
      BodyDecodes(h, service, rs);
    }
  }

  /** Which of the four ways a complete body goes depends on its bytes alone, and on these conditions. */
  lemma BodyOutcome(h: Header, body: seq<byte>)
    requires h.payloadLength <= |body|
    ensures DecodeBody(h, body).Decoded? <==> IsBody(body)
    ensures DecodeBody(h, body) == Threw(RemainLengthNotEnough) <==> CutShort(body)
    ensures DecodeBody(h, body) == Threw(UnreachableCode) <==> UnknownTagIn(body)
    ensures DecodeBody(h, body) == Null <==> !IsBody(body) && !CutShort(body) && !UnknownTagIn(body)
  {
    AcceptsExactlyBodies(h, body);
    BodyMissingBytes(h, body);
    UnknownTagBody(h, body);
    hide DecodeBody, IsBody, CutShort, UnknownTagIn;
    OnlyTwoExceptions(DecodeBody(h, body));
  }

  lemma OnlyTwoExceptions(out: Outcome)
    ensures out.Decoded? || out == Null || out == Threw(RemainLengthNotEnough) || out == Threw(UnreachableCode)
  {
    match out
    case Decoded(_) =>
    case Null =>
    case Threw(RemainLengthNotEnough) =>
    case Threw(UnreachableCode) =>
  }
}
