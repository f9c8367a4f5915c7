/**
 * A session reads its socket a header and then a body at a time. The socket is a stream of
 * bytes whose reads give exactly what was asked for, or fail after some of it.
 */
module Session {
  import opened Common
  import opened Bytes
  import opened BladeValues
  import opened Wire
  import opened WireTheorems
  import opened Blade
  import opened StreamBuf
  import opened Decoding
  import Codec

  // ----- What a run of reads makes of a stream -----

  /** How many bytes the connection would let through during each of the two reads of a message. */
  datatype Cut = Cut(header: nat, body: nat)

  function Arriving(s: seq<byte>, n: nat, cut: nat): nat {
    Min(n, Min(|s|, cut))
  }

  /** How a read of one message ends: in which callback of the policy, or with what exception. */
  datatype Delivery = HeaderError | BodyError | Delivered(o: Obj) | DeliveredNull | Escaped(e: Exn)

  function OutcomeDelivery(out: Outcome): Delivery {
    match out
    case Decoded(o) => Delivered(o)
    case Null => DeliveredNull
    case Threw(e) => Escaped(e)
  }

  function ReadOnce(s: seq<byte>, cut: Cut): (Delivery, seq<byte>) {
    var k := Arriving(s, HEADER_SIZE, cut.header);
    if k < HEADER_SIZE then (HeaderError, s[k..])
    else
      var h := HeaderOf(s[..HEADER_SIZE]);
      var m := Arriving(s[HEADER_SIZE..], h.payloadLength, cut.body);
      if m < h.payloadLength then (BodyError, s[HEADER_SIZE..][m..])
      else (OutcomeDelivery(DecodeBody(h, s[HEADER_SIZE..][..m])), s[HEADER_SIZE..][m..])
  }

  function ReadAll(s: seq<byte>, cuts: seq<Cut>): (ds: seq<Delivery>)
    ensures |ds| == |cuts|
    decreases |cuts|
  {
    if cuts == [] then [] else [ReadOnce(s, cuts[0]).0] + ReadAll(ReadOnce(s, cuts[0]).1, cuts[1..])
  }

  /** b is what writing o sends, in one of the orders its fields may be walked in. */
  ghost predicate Encodes(o: Obj, b: seq<byte>) {
    && WellSized(o)
    && exists rs :: IsListing(o.fields, rs) && b == Message(Updated(o).header, o.service, rs)
  }

  lemma ReadParts(head: seq<byte>, h: Header, body: seq<byte>, tail: seq<byte>, cut: Cut)
    requires |head| == HEADER_SIZE && HeaderOf(head) == h && h.payloadLength == |body|
    ensures var r := ReadOnce(head + body + tail, cut);
            && (cut.header < HEADER_SIZE ==> r.0 == HeaderError)
            && (cut.header >= HEADER_SIZE && cut.body < |body| ==> r.0 == BodyError)
            && (cut.header >= HEADER_SIZE && cut.body >= |body| ==> r == (OutcomeDelivery(DecodeBody(h, body)), tail))
  {
    hide HeaderOf, DecodeBody;
    var s := head + body + tail;
    assert s[..HEADER_SIZE] == head;
    assert s[HEADER_SIZE..] == body + tail;
    assert (body + tail)[..|body|] == body && (body + tail)[|body|..] == tail;
  }

  /** Reading what was sent for o: the object, or an error when the bytes are cut short. */
  lemma OneMessage(o: Obj, b: seq<byte>, tail: seq<byte>, cut: Cut)
    requires Encodes(o, b)
    ensures |b| == EncodedSize(o) >= HEADER_SIZE
    ensures var r := ReadOnce(b + tail, cut);
            && (cut.header < HEADER_SIZE ==> r.0 == HeaderError)
            && (cut.header >= HEADER_SIZE && cut.body < |b| - HEADER_SIZE ==> r.0 == BodyError)
            && (cut.header >= HEADER_SIZE && cut.body >= |b| - HEADER_SIZE ==> r == (Delivered(Updated(o)), tail))
  {
    var rs :| IsListing(o.fields, rs) && b == Message(Updated(o).header, o.service, rs);
    var h, body := Updated(o).header, BodyBytes(o.service, rs);
    RoundTrip(o, rs);
    HeaderRead(h);
    assert b + tail == HeaderBytes(h) + body + tail && |b| == HEADER_SIZE + |body|;
    hide *;
    ReadParts(HeaderBytes(h), h, body, tail, cut);
    hide ReadOnce;
    DecodedIsDelivered(Updated(o));
  }

  lemma DecodedIsDelivered(o: Obj)
    ensures OutcomeDelivery(Decoded(o)) == Delivered(o)
  {
  }

  /** A message of which the last bytes never come is not delivered. */
  lemma PartOfAMessage(o: Obj, b: seq<byte>, k: nat, cut: Cut)
    requires Encodes(o, b) && k < |b|
    ensures ReadOnce(b[..k], cut).0 in {HeaderError, BodyError}
  {
    var rs :| IsListing(o.fields, rs) && b == Message(Updated(o).header, o.service, rs);
    var h, body := Updated(o).header, BodyBytes(o.service, rs);
    RoundTrip(o, rs);
    HeaderRead(h);
    assert b == HeaderBytes(h) + body;
    hide *;
    ReadPart(HeaderBytes(h), h, body, k, cut);
  }

  lemma ReadPart(head: seq<byte>, h: Header, body: seq<byte>, k: nat, cut: Cut)
    requires |head| == HEADER_SIZE && HeaderOf(head) == h && h.payloadLength == |body| && k < |head + body|
    ensures ReadOnce((head + body)[..k], cut).0 in {HeaderError, BodyError}
  {
    hide HeaderOf, DecodeBody;
    var s := (head + body)[..k];
    if k >= HEADER_SIZE {
      assert s[..HEADER_SIZE] == head;
    }
  }

  function Concat(bs: seq<seq<byte>>): seq<byte> {
    if bs == [] then [] else bs[0] + Concat(bs[1..])
  }

  ghost predicate AllEncode(os: seq<Obj>, bs: seq<seq<byte>>) {
    |os| == |bs| && AllWellSized(os) && forall i :: 0 <= i < |os| ==> Encodes(os[i], bs[i])
  }

  ghost predicate PartOf(o: Obj, b: seq<byte>, part: seq<byte>) {
    Encodes(o, b) && |part| < |b| && part == b[..|part|]
  }

  predicate IsError(d: Delivery) {
    d == HeaderError || d == BodyError
  }

  /** What is delivered before the first read that reports an error. */
  function BeforeError(ds: seq<Delivery>): seq<Delivery> {
    if ds == [] || IsError(ds[0]) then [] else [ds[0]] + BeforeError(ds[1..])
  }

  ghost predicate AllWellSized(os: seq<Obj>) {
    forall i :: 0 <= i < |os| ==> WellSized(os[i])
  }

  ghost function Objects(os: seq<Obj>): (ds: seq<Delivery>)
    requires AllWellSized(os)
    ensures |ds| == |os|
  {
    if os == [] then [] else [Delivered(Updated(os[0]))] + Objects(os[1..])
  }

  ghost predicate Starts(ds: seq<Delivery>, all: seq<Delivery>) {
    |ds| <= |all| && ds == all[..|ds|]
  }

  lemma StartsOneMore(d: Delivery, ds: seq<Delivery>, all: seq<Delivery>)
    requires Starts(ds, all)
    ensures Starts([d] + ds, [d] + all)
  {
  }

  lemma ReadAllStep(s: seq<byte>, cuts: seq<Cut>)
    requires cuts != []
    ensures ReadAll(s, cuts)[0] == ReadOnce(s, cuts[0]).0
            && ReadAll(s, cuts)[1..] == ReadAll(ReadOnce(s, cuts[0]).1, cuts[1..])
  {
  }

  /**
   * Framing. Whatever is written after one another, in whatever field orders, and wherever
   * the connection breaks off, reading delivers those objects in that order and, up to the
   * first read that reports an error, nothing else.
   */
  lemma {:induction false} Framing(os: seq<Obj>, bs: seq<seq<byte>>,
                                   last: Obj, b: seq<byte>, part: seq<byte>, cuts: seq<Cut>)
    requires AllEncode(os, bs) && PartOf(last, b, part)
    ensures Starts(BeforeError(ReadAll(Concat(bs) + part, cuts)), Objects(os))
    decreases |cuts|
  {
    hide Encodes, ReadOnce, ReadAll;
    var s := Concat(bs) + part;
    var ds := ReadAll(s, cuts);
    if cuts != [] {
      ReadAllStep(s, cuts);
      if os == [] {
        assert s == part;
        PartOfAMessage(last, b, |part|, cuts[0]);
      } else {
        var rest := Concat(bs[1..]) + part;
        Regroup(bs[0], Concat(bs[1..]), part);
        OneMessage(os[0], bs[0], rest, cuts[0]);
        if !IsError(ds[0]) {
          Framing(os[1..], bs[1..], last, b, part, cuts[1..]);
          StartsOneMore(ds[0], BeforeError(ds[1..]), Objects(os[1..]));
        }
      }
    }
  }

  /** No read cuts a message short that is no longer than these many bytes. */
  ghost predicate Uncut(cuts: seq<Cut>, bs: seq<seq<byte>>) {
    |cuts| == |bs| && forall i :: 0 <= i < |cuts| ==> cuts[i].header >= HEADER_SIZE && cuts[i].body >= |bs[i]|
  }

  /** While the connection holds, every object written is delivered, whatever follows. */
  lemma {:induction false} EverythingArrives(os: seq<Obj>, bs: seq<seq<byte>>, tail: seq<byte>, cuts: seq<Cut>)
    requires AllEncode(os, bs) && Uncut(cuts, bs)
    ensures ReadAll(Concat(bs) + tail, cuts) == Objects(os)
    decreases |os|
  {
    hide Encodes, ReadOnce;
    if os != [] {
      Regroup(bs[0], Concat(bs[1..]), tail);
      OneMessage(os[0], bs[0], Concat(bs[1..]) + tail, cuts[0]);
      EverythingArrives(os[1..], bs[1..], tail, cuts[1..]);
    }
  }

  // ----- The session -----

  class Socket {
    var incoming: seq<byte>   // what the peer has sent and nobody has read
    var outgoing: seq<byte>   // what has been sent to the peer

    /** async_read into a prepared buffer, up to its completion. */
    method AsyncRead(dest: array<byte>, at: nat, n: nat, cut: nat) returns (ec: bool, bytes: nat)
      requires at + n <= dest.Length
      modifies this`incoming, dest
      ensures bytes == Arriving(old(incoming), n, cut) && (ec <==> bytes < n)
      ensures incoming == old(incoming)[bytes..]
      ensures dest[..] == Patch(old(dest[..]), at, old(incoming)[..bytes])
    {
      bytes := Arriving(incoming, n, cut);
      ec := bytes < n;
      forall i | 0 <= i < bytes {
        dest[at + i] := incoming[i];
      }
      incoming := incoming[bytes..];
    }

    /** async_write, up to its completion. */
    method AsyncWrite(data: seq<byte>, cut: nat) returns (ec: bool, bytes: nat)
      modifies this`outgoing
      ensures bytes == Min(|data|, cut) && (ec <==> bytes < |data|)
      ensures outgoing == old(outgoing) + data[..bytes]
    {
      bytes := Min(|data|, cut);
      ec := bytes < |data|;
      outgoing := outgoing + data[..bytes];
    }
  }

  /** The policy callback a read ends in, or the exception that leaves it. */
  datatype Callback = OnErrorWhenReadingHeader | OnErrorWhenReadingBody | OnRecvWholeBladeObject | Exception(e: Exn)

  /** The callback, with the object it is given, is the delivery. */
  ghost predicate Reports(call: Callback, nowObj: BladeObject?, d: Delivery)
    reads nowObj
  {
    match d
    case HeaderError => call == OnErrorWhenReadingHeader
    case BodyError => call == OnErrorWhenReadingBody
    case Delivered(o) => call == OnRecvWholeBladeObject && nowObj != null && nowObj.Valid() && nowObj.Value() == o
    case DeliveredNull => call == OnRecvWholeBladeObject && nowObj == null
    case Escaped(e) => call == Exception(e) && nowObj == null
  }

  const SIZE_MAX: nat := 0xFFFF_FFFF_FFFF_FFFF

  class BladeSession {
    const recvBuf: StreamBuf
    const sendBuf: StreamBuf
    var nowHeader: Option<Header>
    var nowObj: BladeObject?

    /** Between two operations both buffers are empty. */
    ghost predicate Idle()
      reads this, recvBuf, recvBuf.buffer, sendBuf, sendBuf.buffer
    {
      && recvBuf.Valid() && sendBuf.Valid() && recvBuf != sendBuf && recvBuf.buffer != sendBuf.buffer
      && recvBuf.maxSize == sendBuf.maxSize == SIZE_MAX
      && recvBuf.Contents() == [] && sendBuf.Contents() == []
    }

    constructor ()
      ensures Idle() && nowHeader == None && nowObj == null
      ensures fresh(recvBuf) && fresh(sendBuf) && fresh(recvBuf.buffer) && fresh(sendBuf.buffer)
    {
      recvBuf := new StreamBuf(SIZE_MAX);
      sendBuf := new StreamBuf(SIZE_MAX);
      nowHeader, nowObj := None, null;
    }

    /** Prepare room for n bytes and read into it; nothing is committed yet. */
    method ReadIntoRoom(socket: Socket, n: nat, cut: nat) returns (ec: bool, bytes: nat)
      requires Idle() && n < 0x1_0000_0000
      modifies recvBuf, recvBuf.buffer, socket`incoming
      ensures Idle() && (recvBuf.buffer == old(recvBuf.buffer) || fresh(recvBuf.buffer))
      ensures bytes == Arriving(old(socket.incoming), n, cut) && (ec <==> bytes < n)
      ensures socket.incoming == old(socket.incoming)[bytes..]
      ensures bytes <= |recvBuf.Room()| && recvBuf.Room()[..bytes] == old(socket.incoming)[..bytes]
    {
      var fits, at := recvBuf.Prepare(n);
      ghost var was := recvBuf.buffer[..];
      hide Patch;
      ec, bytes := socket.AsyncRead(recvBuf.buffer, at, n, cut);
      PatchedRoom(recvBuf.buffer[..], was, recvBuf.gptr, at, recvBuf.epptr, old(socket.incoming)[..bytes]);
    }

    /** The guard's commit: the bytes read become the input sequence. */
    method Produce(n: nat, ghost bytes: seq<byte>)
      requires Idle() && n <= |recvBuf.Room()| && recvBuf.Room()[..n] == bytes
      modifies recvBuf
      ensures recvBuf.Valid() && recvBuf.buffer == old(recvBuf.buffer) && recvBuf.Contents() == bytes
    {
      recvBuf.Commit(n);
    }

    /** The guard's consume, on whichever way its block is left. */
    method Release(n: nat)
      requires recvBuf.Valid() && recvBuf.Size() <= n && recvBuf != sendBuf
      requires sendBuf.Valid() && recvBuf.buffer != sendBuf.buffer && sendBuf.Contents() == []
      requires recvBuf.maxSize == sendBuf.maxSize == SIZE_MAX
      modifies recvBuf
      ensures Idle() && recvBuf.buffer == old(recvBuf.buffer)
    {
      recvBuf.Consume(n);
    }

    /** Takes the header out of the receive buffer; the guard around the call consumes again. */
    method SetBladeHeader()
      requires recvBuf.Valid()
      modifies this`nowHeader, this`nowObj, recvBuf
      ensures recvBuf.Valid() && recvBuf.buffer == old(recvBuf.buffer) && recvBuf.Room() == old(recvBuf.Room())
      ensures nowObj == null
      ensures if old(recvBuf.Size()) < HEADER_SIZE
              then nowHeader == old(nowHeader) && recvBuf.Contents() == old(recvBuf.Contents())
              else nowHeader == Some(HeaderOf(old(recvBuf.Contents())[..HEADER_SIZE]))
                   && recvBuf.Contents() == old(recvBuf.Contents())[HEADER_SIZE..]
    {
      nowObj := null;
      if recvBuf.Size() < HEADER_SIZE {
        return;
      }
      var data := recvBuf.Data();
      recvBuf.Consume(HEADER_SIZE);
      nowHeader := Some(HeaderOf(data[..HEADER_SIZE]));
    }

    method DoReadHeader(socket: Socket, cut: nat) returns (ok: bool)
      requires Idle()
      modifies this`nowHeader, this`nowObj, recvBuf, recvBuf.buffer, socket`incoming
      ensures Idle() && (recvBuf.buffer == old(recvBuf.buffer) || fresh(recvBuf.buffer))
      ensures var k := Arriving(old(socket.incoming), HEADER_SIZE, cut);
              ok == (k == HEADER_SIZE) && socket.incoming == old(socket.incoming)[k..]
      ensures ok ==> nowHeader == Some(HeaderOf(old(socket.incoming)[..HEADER_SIZE])) && nowObj == null
    {
      var ec, bytes := ReadIntoRoom(socket, HEADER_SIZE, cut);
      if ec || bytes != HEADER_SIZE {
        return false;
      }
      ghost var read := old(socket.incoming)[..HEADER_SIZE];
      assert read[..HEADER_SIZE] == read && read[HEADER_SIZE..] == [];
      Produce(HEADER_SIZE, read);
      SetBladeHeader();
      Release(HEADER_SIZE);
      ok := true;
    }

    /** The body is decoded into the current object, which an exception leaves as it was. */
    method SetBladeObject() returns (call: Callback)
      requires recvBuf.Valid() && nowHeader.Some? && nowObj == null
      modifies this`nowObj
      ensures Reports(call, nowObj, OutcomeDelivery(DecodeBody(nowHeader.value, recvBuf.Contents())))
      ensures nowObj == null || fresh(nowObj)
    {
      hide DecodeBody, Tables.Valid, Tables.FieldMap;
      var r := DecodeWithHeader(nowHeader.value, recvBuf.buffer, recvBuf.gptr, recvBuf.Size());
      match r {
        case Pointer(obj) => nowObj, call := obj, OnRecvWholeBladeObject;
        case NullPtr => nowObj, call := null, OnRecvWholeBladeObject;
        case Throws(e) => call := Exception(e);
      }
    }

    /** The guard's consume also runs when decoding throws. */
    method DoReadBody(socket: Socket, cut: nat) returns (call: Callback)
      requires Idle() && nowHeader.Some? && nowObj == null
      modifies this`nowObj, recvBuf, recvBuf.buffer, socket`incoming
      ensures Idle() && (recvBuf.buffer == old(recvBuf.buffer) || fresh(recvBuf.buffer))
      ensures var n := nowHeader.value.payloadLength;
              var k := Arriving(old(socket.incoming), n, cut);
              && socket.incoming == old(socket.incoming)[k..]
              && Reports(call, nowObj, if k < n then BodyError
                                       else OutcomeDelivery(DecodeBody(nowHeader.value, old(socket.incoming)[..k])))
      ensures nowObj == null || fresh(nowObj)
    {
      hide DecodeBody, Tables.Valid, Tables.FieldMap;
      var bodyLength := nowHeader.value.payloadLength;
      var ec, bytes := ReadIntoRoom(socket, bodyLength, cut);
      if ec || bytes != bodyLength {
        return OnErrorWhenReadingBody;
      }
      Produce(bodyLength, old(socket.incoming)[..bodyLength]);
      call := SetBladeObject();
      Release(bodyLength);
    }

    /**
     * One message is read as ReadOnce says, and whichever way the read ends, both buffers are
     * empty afterwards: the double consume has taken nothing of what follows.
     */
    method ExecRead(socket: Socket, cut: Cut) returns (call: Callback)
      requires Idle()
      modifies this, recvBuf, recvBuf.buffer, socket`incoming
      ensures Idle() && (recvBuf.buffer == old(recvBuf.buffer) || fresh(recvBuf.buffer))
      ensures var (d, rest) := ReadOnce(old(socket.incoming), cut);
              Reports(call, nowObj, d) && socket.incoming == rest
    {
      var ok := DoReadHeader(socket, cut.header);
      if !ok {
        return OnErrorWhenReadingHeader;
      }
      call := DoReadBody(socket, cut.body);
    }

    /** Encode's bytes for the current object, once o, go into the room of the send buffer. */
    method EncodeIntoRoom(at: nat, size: nat, ghost o: Obj) returns (ghost sent: seq<byte>)
      requires nowObj != null && nowObj.Valid() && WellSized(o) && nowObj.Value() == Updated(o)
      requires sendBuf.Valid() && at == sendBuf.pptr && size == EncodedSize(o) && at + size <= sendBuf.epptr
      modifies nowObj`header, sendBuf.buffer
      ensures nowObj.Valid() && nowObj.Value() == Updated(o)
      ensures Encodes(o, sent) && |sent| == size
      ensures sendBuf.Contents() == old(sendBuf.Contents())
      ensures |sendBuf.Room()| >= size && sendBuf.Room()[..size] == sent
    {
      ghost var was := sendBuf.buffer[..];
      hide Tables.Valid, Tables.FieldMap, Patch, Updated, EncodedSize, WellSized, Encodes;
      sent := EncodeUpdated(nowObj, sendBuf.buffer, at, size, o);
      PatchedRoom(sendBuf.buffer[..], was, sendBuf.gptr, at, sendBuf.epptr, sent);
    }

    /** Encode's bytes for the current object become what the send buffer holds. */
    method FillSendBuffer() returns (sizeRequired: nat, ghost sent: seq<byte>)
      requires Idle() && nowObj != null && nowObj.Valid() && WellSized(nowObj.Value())
      modifies nowObj`header, sendBuf, sendBuf.buffer
      ensures sendBuf.Valid() && (sendBuf.buffer == old(sendBuf.buffer) || fresh(sendBuf.buffer))
      ensures nowObj.Valid() && nowObj.Value() == Updated(old(nowObj.Value()))
      ensures sendBuf.Contents() == sent && |sent| == sizeRequired && Encodes(old(nowObj.Value()), sent)
    {
      hide Tables.Valid, Tables.FieldMap, Encodes, Updated, EncodedSize, WellSized;
      ghost var o := nowObj.Value();
      UpdatedTwice(o);
      sizeRequired := nowObj.GetEncodedSize();
      var fits, at := sendBuf.Prepare(sizeRequired);
      hide *;
      sent := EncodeIntoRoom(at, sizeRequired, o);
      sendBuf.Commit(sizeRequired);
    }

    /**
     * Sends the current object and gives it up. Encode's bytes go through the send buffer, which
     * is empty again afterwards, also when the connection breaks.
     */
    method DoWrite(socket: Socket, cut: nat) returns (ok: bool, ghost sent: seq<byte>)
      requires Idle() && nowObj != null && nowObj.Valid() && WellSized(nowObj.Value())
      modifies this`nowObj, nowObj`header, sendBuf, sendBuf.buffer, socket`outgoing
      ensures Idle() && (sendBuf.buffer == old(sendBuf.buffer) || fresh(sendBuf.buffer))
      ensures Encodes(old(nowObj.Value()), sent)
      ensures socket.outgoing == old(socket.outgoing) + sent[..Min(|sent|, cut)]
      ensures ok == (|sent| <= cut)
      ensures if ok then nowObj == null
              else nowObj == old(nowObj) && nowObj.Valid() && nowObj.Value() == Updated(old(nowObj.Value()))
    {
      hide Tables.Valid, Tables.FieldMap, Encodes, EncodedSize, FieldsSize;
      var sizeRequired;
      sizeRequired, sent := FillSendBuffer();
      var data := sendBuf.Data();
      var ec, bytes := socket.AsyncWrite(data, cut);
      sendBuf.Consume(sizeRequired);
      if ec || bytes != sizeRequired {
        return false, sent;
      }
      nowObj := null;
      ok := true;
    }
  }

  /** Encode, for an object whose header is up to date already, with room for all of it. */
  method EncodeUpdated(obj: BladeObject, dest: array<byte>, at: nat, size: nat, ghost o: Obj)
    returns (ghost sent: seq<byte>)
    requires obj.Valid() && WellSized(o) && obj.Value() == Updated(o)
    requires size == EncodedSize(o) && at + size <= dest.Length
    modifies obj`header, dest
    ensures obj.Valid() && obj.Value() == Updated(o)
    ensures Encodes(o, sent) && |sent| == size
    ensures dest[..] == Patch(old(dest[..]), at, sent)
  {
    ghost var was := dest[..];
    UpdatedTwice(o);
    Codec.RoomWithinSize(Updated(o), size);
    hide Tables.Valid, Tables.FieldMap, Codec.EncodedBytes, Codec.IsMessageAt, Patch,
         Updated, EncodedSize, WellSized, Encodes;
    var ret; ghost var walk;
    ret, walk := Codec.Encode(obj, dest, at, size);
    sent := Sent(o, dest[..], was, at, ret, walk.All());
  }

  lemma Sent(o: Obj, now: seq<byte>, was: seq<byte>, at: nat, size: nat, rs: seq<Record>) returns (b: seq<byte>)
    requires WellSized(o) && Codec.IsMessageAt(now, was, at, size, Updated(o), rs)
    ensures Encodes(o, b) && |b| == size == EncodedSize(o)
    ensures at + size <= |was| && now == Patch(was, at, b)
  {
    b := Message(Updated(o).header, o.service, rs);
  }

  /** Bytes written at the start of a buffer's room are its first bytes, and all else is as it was. */
  lemma PatchedRoom(now: seq<byte>, was: seq<byte>, gptr: nat, pptr: nat, epptr: nat, x: seq<byte>)
    requires gptr <= pptr && pptr + |x| <= epptr <= |was| && now == Patch(was, pptr, x)
    ensures now[gptr..pptr] == was[gptr..pptr]
    ensures now[pptr..epptr][..|x|] == x
  {
    assert forall i :: gptr <= i < pptr ==> now[i] == was[i];
    assert forall i :: 0 <= i < |x| ==> now[pptr..epptr][i] == now[pptr + i] == x[i];
  }

  lemma UpdatedTwice(o: Obj)
    requires WellSized(o)
    ensures WellSized(Updated(o)) && EncodedSize(Updated(o)) == EncodedSize(o) && Updated(Updated(o)) == Updated(o)
  {
  }
}
