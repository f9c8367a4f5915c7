# Blade mesh: a verified model

The repository is a small service mesh. Its processes exchange *blade objects*: a 40-byte
header, a service name and a set of named, typed fields. This project models six parts of it and
proves what they promise each other.

| part | files |
|---|---|
| The wire codec: printing and parsing of blade objects, the mutable object with its five stores and its name index, the encoders that write into a buffer, the decoder's cursor | `Bytes.dfy`, `BladeObject.dfy`, `Wire.dfy`, `WireTheorems.dfy`, `Walking.dfy`, `Blade.dfy`, `Codec.dfy`, `Decoding.dfy`, `Layout.dfy` |
| The writer-preferring lock, as atomic steps of any number of threads, and as a class | `RWLock.dfy` |
| The byte buffers of the vendored asio: the stream buffer, the iterator over many buffers, `buffer_copy` | `StreamBuf.dfy`, `FlatBuffers.dfy`, `BuffersIterator.dfy`, `BufferCopy.dfy` |
| Sessions: a header and a body read from a byte stream, one object written to it; and the relay of Kartos parents and their client children | `Session.dfy`, `Relay.dfy` |
| The service registry: ICE's two-way index, the agents' tables, the steps of Loki and the watchdog that keep them in agreement, and what happens when those steps come between each other | `Registry.dfy`, `Interleaving.dfy` |
| The halving average of reported bytes, and the counting of reports | `HalvingAverage.dfy`, `Reports.dfy` |

`Common.dfy` holds the few definitions several parts share.

How the parts are modelled:

- **Values and their bytes.** A byte is a number below 256, the fixed-width integers are bounded
  integers written little-endian, an F64 is eight opaque bytes. `Wire` holds one printer and one
  parser as functions; everything imperative is proved against those two, and `Layout` says with the
  format's own numbers which byte stands where in what they print and read. The codec's results are
  the object, a null pointer, or one of two exceptions (`Outcome`).
- **Unordered maps.** A map is walked by taking any remaining key, so every proof about encoding
  holds for every order the C++ containers may give (`IsListing`).
- **The lock.** Each critical section of the mutex is one step over a map from thread to program
  counter; waking for no reason is a step of its own and arrivals may happen at any moment. The
  class's methods are those steps, proved to do what `Apply` says.
- **Sockets** are byte streams. A read gives exactly what was asked for, or fails after some of it
  (`Cut` says after how much); a write likewise.
- **Completion handlers** of the relay run one at a time, in any order and with any outcome. A null
  pointer followed and an exception nobody catches are states of the model, not preconditions, so
  that the theorems say when they are reached.
- **The registry's steps** are whole messages of Loki and whole checks of the watchdog. Each carries
  whether its call to ICE came through: `SyncSession::CallExt` does not report a failed connection,
  and the agent then goes on with its own table changed.

Where the behaviour is narrower than one would expect, a run or an input shows it, and a theorem
says exactly when:

- **Lost messages.** ICE and an agent stay in agreement through a step *if and only if* every
  change of the agent's table in that step reached ICE (`Registry.AgreementKeptExactly`);
  `Registry.LostRegistration` is a run that loses one.
- **Interleaved steps.** Two moves break agreement even when every message arrives: Kartos tests for
  a name, the name is removed, and the read of its port enters it again with port 0
  (`Interleaving.QueryRevivesName`); and the watchdog removes a service whose registration Loki has
  yet to send (`Interleaving.CheckBeforeIce`). Every other move keeps it
  (`Interleaving.SettledKeptExactly`), and at rest the two agree exactly when for no pair the last
  move that touched it was a clash about it (`Interleaving.AgreementAtRestExactly`). The test before `Deregister`'s lock does no
  harm: what follows it removes the pair whether or not the name is still there
  (`Registry.IceServiceManager.Erase`).
- **Bodies that end the process.** `OnRecvWholeBladeObject` looks at the object without checking the
  pointer, and nothing catches what decoding throws. Which bodies the process survives is told from
  their bytes (`Relay.EndsExactly`, `WireTheorems.BodyOutcome`);
  `Relay.EmptyBodyTerminates`, `Relay.UnknownTagTerminates` and `Relay.StrayByteDereferencesNull` are
  runs in each of the three ways it ends.
- **Encoding limits.** The limit of `Encode` bounds each field, not their sum. Every order of the
  fields keeps to it *if and only if* the header and all fields that fit do together
  (`Codec.LimitKeptExactly`); `Codec.LimitExceeded` is an object and an order that exceed it. Every caller
  passes `GetEncodedSize`, with which all is written and nothing more.
- **Reports.** Chaos counts a report completely, in whatever order its stores are walked, *if and
  only if* its I32 store holds at most one field, or none but zeros of names counted before
  (`Reports.ReportCountedExactly`); `Reports.UncountedReport` is a report of two services of which
  one is not counted.

## Model

| member | source | states |
|---|---|---|
| Bytes.U32Inverse | blade/decoder.h:19-33 | the u32 read from four bytes and the four bytes written for it determine each other, both ways round |
| Bytes.I32Inverse | blade/encoder.h:64-67 | the same for a signed 32-bit value in two's complement |
| Bytes.I64Inverse | blade/encoder.h:69-72 | the same for a signed 64-bit value |
| Bytes.DigitOf | blade/encoder.h:30-35 | byte i of an integer written is its digit of weight 256^i, lowest first |
| Bytes.U16Digits | blade/encoder.h:30-35 | the two bytes of a tag, written out |
| Bytes.U32Digits | blade/encoder.h:79-83 | the four bytes of a length, written out |
| Bytes.U64Digits | blade/encoder.h:69-72 | the eight bytes of a 64-bit value, written out |
| Bytes.U32Meaning | blade/decoder.h:19-29 | what four bytes read as a length mean, by the weight of each |
| Bytes.I32Meaning | blade/encoder.h:64-67 | a 32-bit value is written as the digits of its two's complement and read back by the weight of each byte |
| Bytes.I64Meaning | blade/encoder.h:69-72 | the same for a 64-bit value |
| Layout.StringLayout | blade/encoder.h:79-89 | a string is its length in four bytes, lowest first, then its characters |
| Layout.ByteField | blmesh/common.h:40-48 | a byte field is A1 00, the name, 02 00 and the byte, and these bytes are read as that field |
| Layout.I32Field | blmesh/common.h:40-48 | a 32-bit field is A1 00, the name, 12 00 and four bytes, and these are read as that field |
| Layout.I64Field | blmesh/common.h:40-48 | a 64-bit field is A1 00, the name, 13 00 and eight bytes, and these are read as that field |
| Layout.F64Field | blmesh/common.h:40-48 | a floating-point field is A1 00, the name, 21 00 and eight bytes, and these are read as that field |
| Layout.StringField | blmesh/common.h:40-48 | a string field is A1 00, the name, A0 00 and the string, and these bytes are read as that field |
| Layout.OtherFirstTag | blade/opr.cc:76-79 | a field that begins with anything but A1 00 makes the decoder return null |
| Layout.OtherValueTag | blade/opr.cc:96-97 | a name followed by any tag but the five makes the decoder throw, whatever comes then |
| Layout.HeaderLayout | blmesh/common.h:62-71 | magic, id, trace id, type, payload length, content offset and the four extra words lie at bytes 0, 4, 8, 12, 16, 20 and 24 to 36 of the header |
| Layout.HeaderMeaning | blade/opr.cc:14-16 | the same words, read |
| Layout.UpdatedLayout | blade/blade_object.cc:486-488 | in what is sent for an object the content offset is where its fields begin and the payload length what follows the header, and every other header word is the object's own |
| Layout.FieldsComeByType | blade/blade_object.cc:248-252 | an object's fields come bytes first, then 32-bit, 64-bit, floating point and strings |
| BladeValues.FieldsSizeRemove | blade/blade_object.cc:467-484 | the sum of field sizes does not depend on which field is counted first |
| BladeValues.ListingSize | blade/blade_object.cc:466-484 | whatever order the fields are walked in, their sizes add up to one and the same total |
| BladeValues.AddAllKeepsFirst | blade/blade_object.cc:147-195 | adding records one by one keeps what was there, gives every new name its first record's value, and adds no other name |
| BladeValues.AddAllOfListing | blade/blade_object.cc:147-195 | adding the records of any walk of a field map rebuilds exactly that map |
| BladeValues.AddAllSize | blade/opr.cc:81-94 | dropping repeated names never lengthens the records, and keeps their length exactly when no name was repeated |
| Wire.HeaderRead | blade/opr.cc:14-16 | the forty header bytes written for a header read back as that header |
| Wire.HeaderWritten | blade/encoder.h:97-98 | any forty bytes read as a header are what that header is written as |
| Wire.StringRead | blade/decoder.h:28-33 | a length-prefixed string reads back, and what follows it is left unread |
| Wire.StringWritten | blade/encoder.h:79-83 | whatever reads as a string is that string's printing followed by the rest |
| Wire.PayloadRead | blade/opr.cc:84-94 | a printed value of any of the five types reads back as itself |
| Wire.PayloadWritten | blade/encoder.h:59-83 | whatever reads as a value is that value's printing followed by the rest |
| Wire.RecordRead | blade/opr.cc:76-94 | a printed field reads back as its name and typed value |
| Wire.RecordWritten | blade/opr.cc:42-45 | whatever reads as a field is that field's printing followed by the rest |
| Wire.RecordsRead | blade/opr.cc:74-103 | any list of printed fields reads back as that list |
| Wire.RecordsWritten | blade/opr.cc:74-103 | whatever is accepted as a list of fields is the printing of the list read |
| Wire.RecordCountBound | blade/opr.cc:74-103 | on any bytes, whatever the loop ends in, every completed field takes at least nine, so there are at most a ninth of their number; where all is accepted these are all its fields |
| Wire.DecodeFieldsIsAddAll | blade/opr.cc:74-105 | adding each field as it is read ends as reading all of them and adding them in order, null and exception included |
| WireTheorems.RoundTrip | blade/opr.cc:18-122 | an object encoded in any field order takes GetEncodedSize bytes, announces its body's length, and decodes to itself with the header brought up to date |
| WireTheorems.BodyDecodes | blade/opr.cc:59-106 | a body of any records decodes to the header given, the service name, and the first record of every name |
| WireTheorems.FirstRecordWins | blade/opr.cc:74-105 | in a message with repeated names the first record of each name is kept, and no name comes from elsewhere |
| WireTheorems.DecodedBody | blade/opr.cc:59-106 | a body that decodes is the printing of the service name and records it decodes to |
| WireTheorems.AcceptsExactlyMessages | blade/opr.cc:112-122 | Decode accepts a buffer if and only if it is some header, service name and records printed, the payload length not above what follows the header |
| WireTheorems.Normalisation | blade/blade_object.cc:466-493 | re-encoding any decoded object never takes more bytes, takes as many exactly when no name was repeated, and decodes to that object but for the two recomputed header fields; doing it twice changes nothing more |
| WireTheorems.MissingBytesNeverEscape | blade/decoder.h:43-51 | the size check makes Decode never throw the missing-bytes exception |
| WireTheorems.BodyMissingBytes | blade/opr.cc:62-72 | decoding a body on its own throws it exactly when the payload length is satisfied and the service name is cut short |
| WireTheorems.AcceptsExactlyBodies | blade/opr.cc:59-106 | a complete body decodes if and only if it is a service name and records printed |
| WireTheorems.BodyOutcome | blade/opr.cc:59-106 | object, null or either exception: which one a complete body gives, told from its bytes alone |
| WireTheorems.ThrowsExactlyOnUnknownTag | blade/opr.cc:81-102 | the field loop throws exactly on complete fields followed by a name and a value tag that no case handles |
| Reports.WalkCountedExactly | chaos/handlers.cc:20-25 | the counters after a report are those of a complete count exactly when every I32 field after the first would have left them as they were |
| Reports.ReportCountedExactly | chaos/handlers.cc:20-25 | a report is counted completely in every order if and only if its I32 store holds at most one field, or none but zeros of names counted before |
| Reports.UncountedReport | chaos/handlers.cc:20-25 | a report of two services, of which one is not counted |
| Reports.Counter.CountStore | blade/blade_object.cc:237-246 | a visitor that counts is shown one store's fields up to the first for which it returns 0, and the counters are those of these fields |
| Reports.Counter.CountReport | chaos/handlers.cc:20-25 | the counters after a report are those of the fields seen, and of all its fields where it holds at most one I32 field |
| Walking.IterateStore | blade/blade_object.cc:237-246 | one store's walk visits its fields once each in some order, up to the first 0, and sums what the visitor returned before it |
| Walking.WalkLists | blade/blade_object.cc:248-252 | walking the five stores one after the other lists every field of the object exactly once |
| Walking.WalkSize | blade/blade_object.cc:467-484 | a visitor that returns field sizes adds up to the size of all fields |
| Blade.Tables.StoresHoldFields | blade/blade_object.cc:147-232 | the five stores are pairwise disjoint and together hold exactly the named fields with the types the index gives |
| Blade.Added | blade/blade_object.cc:147-195 | a name entered in the index and one store keeps index and stores in agreement and adds that field alone |
| Blade.Removed | blade/blade_object.cc:197-225 | taking a name out of the index and its store keeps them in agreement and removes that field alone |
| Blade.BladeObject.constructor | blmesh/common.h:60-71 | a new object has the magic number 01E0ADB1, zeros in the rest of its header, no service name and no field |
| Blade.BladeObject.AddByte | blade/blade_object.cc:147-155 | answers whether the name was new; a name already present keeps its value; header and service name stay |
| Blade.BladeObject.AddI32 | blade/blade_object.cc:157-165 | the same for a 32-bit field |
| Blade.BladeObject.AddI64 | blade/blade_object.cc:167-175 | the same for a 64-bit field |
| Blade.BladeObject.AddF64 | blade/blade_object.cc:177-185 | the same for a floating-point field |
| Blade.BladeObject.AddString | blade/blade_object.cc:187-195 | the same for a string field |
| Blade.BladeObject.RemoveField | blade/blade_object.cc:197-225 | answers whether the name was there, and removes that field and nothing else |
| Blade.BladeObject.GetFieldType | blade/blade_object.cc:227-230 | the type of the field's value, or none for a name without a field |
| Blade.BladeObject.Iterate | blade/blade_object.cc:235-255 | walks each store in some order until the visitor's first 0 there, and returns the sum of what it returned |
| Blade.BladeObject.FieldsLength | blade/blade_object.cc:467-484 | the visitor's sum is the size of all fields, whatever the order |
| Blade.BladeObject.UpdateHeaderField | blade/blade_object.cc:466-488 | the payload length becomes the encoded size without the header, the content offset the start of the fields; nothing else changes |
| Blade.BladeObject.GetEncodedSize | blade/blade_object.cc:490-493 | the number of bytes the object takes on the wire, before and after the header is updated |
| Blade.BladeObject.Clone | blade/blade_object.cc:495-499 | a new object with the same value |
| Codec.ExpectedSizes | blade/encoder.h:47-91 | what a field's two encoders announce is what the field takes on the wire |
| Codec.Encoder.Put | blade/encoder.h:30-35 | writes the value's bytes at the offset, moves the offset on by their number, and touches nothing else |
| Codec.Encoder.EncodeName | blade/encoder.h:85-89 | writes the name's tag, length and characters |
| Codec.Encoder.EncodeValue | blade/encoder.h:59-83 | writes the value's tag and its payload, by type |
| Codec.Encoder.EncodeHeader | blade/encoder.h:93-104 | writes the forty header bytes, the service name's length and the service name |
| Codec.EncodeStore | blade/opr.cc:31-54 | over one store writes, at the place given, the fields that fit the room up to the first that does not, and returns their bytes' number |
| Codec.EncodedInFull | blade/opr.cc:30-54 | with a limit of at least GetEncodedSize no field is skipped: the bytes are the whole message, GetEncodedSize of them |
| Codec.RoomIsEnough | blade/opr.cc:30-54 | no order of the fields writes more than the header and all fields that fit the limit one by one |
| Codec.RoomIsTaken | blade/opr.cc:30-54 | and some order writes all of that |
| Codec.LimitKeptExactly | blade/opr.cc:30-41 | every order writes at most limit bytes if and only if the header and all fields that fit take no more together |
| Codec.LimitExceeded | blade/opr.cc:30-41 | an object of two fields, each small enough, and an order in which what is written is longer than the limit |
| Codec.Encode | blade/opr.cc:18-57 | given the room its limit may lead to, overwrites exactly the bytes it returns the number of and nothing beyond; with a limit of at least GetEncodedSize those are the whole message of the updated object in some field order |
| Decoding.Decoder.Take | blade/decoder.h:19-26 | takes that many bytes off the front of what remains, or leaves all as it was; consumed and remaining always make up the raw length |
| Decoding.Decoder.TakeBladeString | blade/decoder.h:28-33 | takes a length and that many bytes, as the parser does |
| Decoding.Decoder.TakePayload | blade/decoder.h:35-41 | takes a value of the type given, as the parser does |
| Decoding.Decoder.MinSizeSatisfied | blade/decoder.h:43-51 | tells whether header, name length and service name fit the size, without reading past it |
| Decoding.Decoder.TakeField | blade/opr.cc:74-99 | one pass of the loop: a field, null, or an exception, exactly as the parser says |
| Decoding.FillFields | blade/opr.cc:74-103 | the loop ends, and the object it filled holds what the parser's fields give; header and service name are untouched |
| Decoding.DecodeWithHeader | blade/opr.cc:59-106 | on any bytes returns a new object, null or an exception exactly as the parser says, reading nothing outside them |
| Decoding.Decode | blade/opr.cc:112-122 | the same for a whole message |
| RWLock.InvKept | blmesh/rw_lock.h:17-45 | every step keeps the counters equal to what they count and loses no wakeup |
| RWLock.InvAlways | blmesh/rw_lock.h:17-45 | so every state of every run is that way |
| RWLock.WakesExactly | blmesh/rw_lock.h:30-45 | whom an unlock wakes and whom it leaves asleep: one writer after the last reader, all readers and no writer after the last writer, one writer and no reader otherwise |
| RWLock.Exclusion | blmesh/rw_lock.h:17-50 | in every reachable state the counters are the numbers of readers inside and of writers waiting or inside, the flag says a writer is inside, and a writer inside is alone |
| RWLock.NoDeadlock | blmesh/rw_lock.h:17-45 | whenever someone waits, somebody is inside who can unlock, or an awake waiter gets in as soon as it looks |
| RWLock.WriterPreference | blmesh/rw_lock.h:17-45 | from the step in which a writer announces itself until it unlocks, no reader is admitted, in any run |
| RWLock.EveryoneIsServed | blmesh/rw_lock.h:17-45 | once nobody arrives, a run takes no more steps than there is work, and two for every thread woken for no reason, and where nobody can go on every thread has been in and out |
| RWLock.RWLock.LockRead | blmesh/rw_lock.h:17-21 | enters exactly when no writer is counted, else goes to sleep; is the model's step |
| RWLock.RWLock.WakeReader | blmesh/rw_lock.h:19 | a woken reader tests the predicate again and enters or sleeps on |
| RWLock.RWLock.LockWrite | blmesh/rw_lock.h:23-28 | is counted first, then enters exactly when nobody is inside |
| RWLock.RWLock.WakeWriter | blmesh/rw_lock.h:26-27 | a woken writer tests the predicate again and enters or sleeps on |
| RWLock.RWLock.UnlockRead | blmesh/rw_lock.h:30-35 | the last reader out wakes one waiting writer if there is one |
| RWLock.RWLock.UnlockWrite | blmesh/rw_lock.h:37-45 | wakes all readers if no writer is counted any more, else one writer |
| StreamBuf.StreamBuf.Reserve | 3rdparty/asio/asio/basic_streambuf.hpp:308-346 | makes the output sequence at least that long and keeps the input sequence, shifted or reallocated as it may be; fails exactly beyond max_size, with the bytes shifted and no position moved |
| StreamBuf.StreamBuf.Prepare | 3rdparty/asio/asio/basic_streambuf.hpp:200-219 | gives that many writable bytes and keeps the input sequence, and fails if and only if size() + n > max_size() |
| StreamBuf.StreamBuf.Commit | 3rdparty/asio/asio/basic_streambuf.hpp:233-238 | moves that many bytes, or all there are, from the front of the output to the end of the input sequence |
| StreamBuf.StreamBuf.Consume | 3rdparty/asio/asio/basic_streambuf.hpp:247-254 | drops that many bytes, or all there are, from the front of the input sequence |
| StreamBuf.StreamBuf.Overflow | 3rdparty/asio/asio/basic_streambuf.hpp:276-306 | appends one character to the input sequence, growing the buffer where it is full, and fails exactly when max_size is reached; end of file changes nothing |
| StreamBuf.QueueConserves | 3rdparty/asio/asio/basic_streambuf.hpp:214-254 | over any run, what came in is what went out followed by what is still there, in order |
| StreamBuf.Receive | blade/buffer_adaptor.h:22-24 | preparing, filling and committing appends the bytes committed, unless max_size is exceeded |
| StreamBuf.Replay | 3rdparty/asio/asio/basic_streambuf.hpp:214-346 | any run of receives, committed in full or in part, and consumes on the buffer is that run on a byte queue, up to the first receive that exceeds max_size |
| BuffersIterator.AtIsLocate | 3rdparty/asio/asio/buffers_iterator.hpp:493-498 | buffer and offset determine the position and the position determines them, for any buffers, empty ones included |
| BuffersIterator.BuffersIterator.StandsAtPosition | 3rdparty/asio/asio/buffers_iterator.hpp:493-498 | a valid iterator stands at the one place its position names, and behind the last buffer exactly at the end |
| BuffersIterator.BuffersIterator.Begin | 3rdparty/asio/asio/buffers_iterator.hpp:167-184 | stands at position 0, past leading empty buffers |
| BuffersIterator.BuffersIterator.End | 3rdparty/asio/asio/buffers_iterator.hpp:187-203 | stands at the total number of bytes |
| BuffersIterator.BuffersIterator.Dereference | 3rdparty/asio/asio/buffers_iterator.hpp:341-345 | gives the byte of the flat sequence at the position |
| BuffersIterator.BuffersIterator.Increment | 3rdparty/asio/asio/buffers_iterator.hpp:354-374 | moves one on, past empty buffers |
| BuffersIterator.BuffersIterator.Decrement | 3rdparty/asio/asio/buffers_iterator.hpp:377-404 | moves one back; the search for a previous non-empty buffer finds one |
| BuffersIterator.BuffersIterator.Advance | 3rdparty/asio/asio/buffers_iterator.hpp:407-485 | moves by any distance that stays within the bytes |
| BuffersIterator.BuffersIterator.AdvanceForward | 3rdparty/asio/asio/buffers_iterator.hpp:409-441 | the forward loop ends at the position asked for |
| BuffersIterator.BuffersIterator.AdvanceBackward | 3rdparty/asio/asio/buffers_iterator.hpp:442-484 | the backward loop ends at the position asked for and never runs off the front |
| BuffersIterator.BuffersIterator.Plus | 3rdparty/asio/asio/buffers_iterator.hpp:270-277 | a new iterator at the place of position + n |
| BuffersIterator.BuffersIterator.Element | 3rdparty/asio/asio/buffers_iterator.hpp:218-223 | the flat byte n places on |
| BuffersIterator.BuffersIterator.IncrementTimes | 3rdparty/asio/asio/buffers_iterator.hpp:270-277 | n increments end at the same buffer and offset as one addition of n |
| BuffersIterator.BuffersIterator.ThereAndBack | 3rdparty/asio/asio/buffers_iterator.hpp:407-485 | advancing by n and by -n ends at the same buffer and offset |
| BuffersIterator.WholeRange | 3rdparty/asio/asio/buffers_iterator.hpp:297-301 | end - begin is the total, and walking between them reads the flat bytes in order |
| FlatBuffers.FlatPatch | 3rdparty/asio/asio/buffer.hpp:2173-2183 | writing inside one buffer is writing at the corresponding place of the flat bytes |
| BufferCopy.WriteRegion | 3rdparty/asio/asio/buffer.hpp:2173-2183 | writing into one target buffer changes that stretch of the flattened target and no other memory |
| BufferCopy.CopiedMeans | 3rdparty/asio/asio/buffer.hpp:2154-2164 | the specification gives equal prefixes of the length returned, which is the least of the three bounds, and an unchanged rest |
| BufferCopy.BufferCopy1 | 3rdparty/asio/asio/buffer.hpp:2173-2183 | copies the lesser of both sizes and writes nothing else |
| BufferCopy.CopyStep | 3rdparty/asio/asio/buffer.hpp:2310-2335 | one pass copies what both buffers and the limit allow and moves both cursors on, and something is always used up |
| BufferCopy.CopyOneOne | 3rdparty/asio/asio/buffer.hpp:2185-2201 | copies exactly min(target, source, max) bytes, prefixes equal, everything else unchanged |
| BufferCopy.CopyOneMany | 3rdparty/asio/asio/buffer.hpp:2203-2224 | the same from many buffers into one |
| BufferCopy.CopyManyOne | 3rdparty/asio/asio/buffer.hpp:2226-2247 | the same from one buffer into many |
| BufferCopy.CopyManyMany | 3rdparty/asio/asio/buffer.hpp:2249-2291 | the same from many into many, ending also when empty buffers hold one cursor up |
| BufferCopy.CopyManyManyMax | 3rdparty/asio/asio/buffer.hpp:2293-2339 | the same with a limit that can stop both cursors in the middle of their buffers |
| Session.OneMessage | blade/blade_session.cc:82-115 | reading what was written for an object gives that object and leaves what follows unread, or an error exactly where the connection breaks |
| Session.PartOfAMessage | blade/blade_session.cc:82-115 | a message whose last bytes never come is reported as an error |
| Session.Framing | blade/blade_session.cc:82-130 | of any objects written one after the other, with the stream breaking off anywhere, reading delivers those objects in that order and nothing else before its first error |
| Session.EverythingArrives | blade/blade_session.cc:82-130 | while the connection holds, every object written is delivered, whatever follows |
| Session.BladeSession.ReadIntoRoom | blade/blade_session.cc:85 | prepares room and reads into it; nothing is committed, so a failed read leaves the buffer empty |
| Session.BladeSession.Produce | blade/buffer_adaptor.h:14-17 | the guard's commit makes exactly the bytes read the input sequence |
| Session.BladeSession.SetBladeHeader | blade/blade_session.cc:117-126 | takes the header off the buffer and drops the current object; too few bytes leave the header as it was |
| Session.BladeSession.DoReadHeader | blade/blade_session.cc:82-97 | succeeds exactly when forty bytes come, and leaves the buffer empty either way, so that the second consume drops nothing |
| Session.BladeSession.SetBladeObject | blade/blade_session.cc:128-130 | the current object becomes what the body decodes to; an exception leaves none |
| Session.BladeSession.DoReadBody | blade/blade_session.cc:99-115 | calls the policy with what the body decodes to, and leaves the buffer empty also when decoding throws |
| Session.BladeSession.ExecRead | blade/blade_session.cc:31 | one message is read as the stream's specification says, and both buffers are empty afterwards on every way out |
| Session.BladeSession.DoWrite | blade/blade_session.cc:62-80 | sends an encoding of the current object, gives the object up exactly when all was sent, and leaves the send buffer empty either way |
| Relay.InvKept | blade/blade_session.cc:46-115 | every completion handler keeps the relay's invariant |
| Relay.RelaySafety | atreus/policy/kartos_session_policy.cc:20-49 | in every interleaving no session has two operations outstanding, and a parent writes at most once, then the object its own child was given in answer to the request that parent received |
| Relay.CloneIsRequest | blade/client_session_policy.cc:17-25 | whenever a child connects, its father's current object is there and is still the request received, and that is what the child sends |
| Relay.ChildOpensExactly | atreus/policy/kartos_session_policy.cc:22-38 | an object given to a parent opens a child if and only if it is of type 0, has a string field "#CALL_NAME" and the port of that service is known |
| Relay.ReplyOnlyOnAnswer | blade/client_session_policy.cc:29-35 | a parent begins to write only in the step that delivers the object to its child, and writes that object |
| Relay.HistoryAlways | blade/blade_session.cc:117-130 | over any run what a session received is never replaced and nothing it wrote is taken back |
| Relay.EndsExactly | atreus/policy/kartos_session_policy.cc:20-45 | the process runs on exactly through bodies that print a service name and records; which of the two exceptions or the null pointer ends it is told from the bytes of the body |
| Relay.EmptyBodyTerminates | blade/blade_session.cc:128-130 | a run in which an empty body ends the process with the missing-bytes exception |
| Relay.UnknownTagTerminates | blade/opr.cc:96-97 | a run in which a field of a tag no case handles ends the process with the other exception |
| Relay.StrayByteDereferencesNull | atreus/policy/kartos_session_policy.cc:22 | a run in which an empty service name and one more byte make it follow a null pointer |
| Relay.ReadIsTwoSteps | blade/blade_session.cc:82-115 | what a session reads from its stream is a header step and a body step, and each delivery has the effect the policy gives it |
| Relay.WriteIsTwoSteps | blade/blade_session.cc:62-80 | what a session writes is the start of a write and a write step, which leave the object a session's write leaves |
| Relay.RelayIsTransparent | blade/client_session_policy.cc:29-35 | in every run, a child handed the header and body that encode an answer makes its parent write that answer, the parent never writes anything else, and what encodes it decodes to what the service sent |
| Relay.EveryRequestIsAnswered | atreus/policy/kartos_session_policy.cc:20-49 | a parent and a child none of whose own operations fail, up to the parent's write, end with every object of type 0 with a string field "#CALL_NAME" answered by what the child was given, whatever happens to all other sessions |
| Relay.RunsAreBounded | blade/blade_session.cc:51-115 | every run takes at most eight steps for each connection accepted |
| Relay.Kartos.DoWrite | blade/blade_session.cc:62-80 | starts one write of the current object, whose header encoding updates; without an object a null pointer is followed |
| Relay.Kartos.ConnectHandler | blade/blade_session.cc:53-59 | is the model's connect step |
| Relay.Kartos.WriteHandler | blade/blade_session.cc:70-79 | is the model's write step: a child reads on, a parent is done |
| Relay.Kartos.HeaderHandler | blade/blade_session.cc:85-96 | is the model's header step |
| Relay.Kartos.BodyHandler | blade/blade_session.cc:103-114 | is the model's body step, null and exception included |
| Relay.Kartos.KartosOnRecv | atreus/policy/kartos_session_policy.cc:20-45 | is the parent's part of the model's body step: a child is opened for a request that names a service whose port is known |
| Relay.Kartos.ClientOnRecv | blade/client_session_policy.cc:29-35 | the father takes over a copy of the answer and begins to write it |
| Relay.Kartos.ClientOnConnected | blade/client_session_policy.cc:17-25 | the child takes a copy of its father's object and begins to write it |
| Registry.LinkLinks | ice/service_manager.cc:17-18 | entering a pair in one map adds that pair alone and leaves no empty set |
| Registry.UnlinkUnlinks | ice/service_manager.cc:28-36 | taking a pair out of one map removes that pair alone and leaves no empty set, absent keys included |
| Registry.FirstStop | ice/service_manager.cc:50-53 | for every sequence of draws the walk stops within the set, at the first draw not above its counter |
| Registry.EveryPlaceIsReached | ice/service_manager.cc:46-54 | every registered place is chosen by some draws |
| Registry.IceServiceManager.Register | ice/service_manager.cc:15-19 | adds exactly that pair and keeps the two maps inverse to each other |
| Registry.IceServiceManager.Deregister | ice/service_manager.cc:21-37 | removes exactly that pair, if it is there, and keeps the two maps inverse to each other without empty sets |
| Registry.IceServiceManager.Query | ice/service_manager.cc:39-55 | null exactly for a name without registrations, else a registered IP, found within size - 1 steps |
| Registry.IceServiceManager.GetSrvN | ice/service_manager.cc:62-65 | the number of registered names |
| Registry.IceServiceManager.GetSrv | ice/service_manager.cc:67-76 | every registered name once |
| Registry.AgentServiceManager.Register | atreus/util/service_manager.cc:5-8 | a name already there keeps its port |
| Registry.AgentServiceManager.Deregister | atreus/util/service_manager.cc:10-17 | removes that name alone |
| Registry.AgentServiceManager.Query | atreus/util/service_manager.cc:19-26 | null exactly for a name not in the table, else its port |
| Registry.AgreementKeptExactly | atreus/policy/loki_session_policy.cc:23-44 | a step keeps ICE and all agents in agreement if and only if its changes of the agent's table reach ICE |
| Registry.PortKept | atreus/policy/loki_session_policy.cc:24 | a port that fits sixteen bits is kept, any other loses what lies above them |
| Registry.RegisteredPort | atreus/util/service_manager.cc:5-8 | registering enters a new name with its port, keeps the port of one already there, and touches no other name and no other agent |
| Registry.AgreementAlways | atreus/core/watchdog.cc:30-56 | in every run of whole steps whose changes reach ICE, over any number of agents, (name, ip) is registered exactly when the agent at ip holds name |
| Registry.FirstLostChangeBreaksAgreement | blade/sync_session.cc:33-38 | the first change that does not reach ICE is where agreement ends |
| Registry.LostRegistration | atreus/policy/loki_session_policy.cc:28-32 | a run of one agent and one registration that does not reach ICE |
| Registry.IceServiceManager.Erase | ice/service_manager.cc:26-36 | what follows Deregister's test removes exactly that pair whether or not the name is there |
| Registry.AgentServiceManager.PortOf | atreus/util/service_manager.cc:24-25 | reading a port enters port 0 for a name that is not there |
| Registry.ShutdownCounter.DoShutdown | atreus/util/data_manager.cc:17-20 | counts one more for that name and no other |
| Interleaving.WrongAfter | atreus/util/service_manager.cc:19-26 | a move that touches a pair leaves it wrong exactly when it is a clash about it, and any other move leaves it as it was |
| Interleaving.SettledKeptExactly | atreus/policy/loki_session_policy.cc:28-43 | a move keeps ICE and the agents settled if and only if it is neither the read of a port whose name has gone nor a check that removes a name ICE has yet to hear of |
| Interleaving.AgreementAtRest | atreus/policy/loki_session_policy.cc:28-43 | in every history without those two, ICE and the agents agree whenever nothing is outstanding |
| Interleaving.AgreementAtRestExactly | atreus/util/service_manager.cc:19-26 | in every history, at rest ICE and the agents agree if and only if for no pair the last move that touched it was a clash about it: a read that revives a name ICE does not have, or a check that removes a name ICE has yet to hear of |
| Interleaving.HalvesMakeTheStep | atreus/policy/loki_session_policy.cc:28-43 | Loki's change of the table and its message to ICE, one right after the other, are the registry's whole step |
| Interleaving.CheckIsTheStep | atreus/core/watchdog.cc:30-56 | a check is the registry's whole step |
| Interleaving.QueryHalvesChangeNothing | atreus/util/service_manager.cc:19-26 | a query's test and its read, one right after the other, change nothing |
| Interleaving.QueryRevivesName | atreus/util/service_manager.cc:20-25 | a history at whose end the agent holds a deregistered name with port 0 |
| Interleaving.CheckBeforeIce | atreus/core/watchdog.cc:34-52 | a history at whose end ICE answers with an IP whose agent does not hold the name |
| Registry.OnRegister | atreus/policy/loki_session_policy.cc:23-34 | is the model's register step, and answers; a message without port changes nothing and is not answered |
| Registry.OnDeregister | atreus/policy/loki_session_policy.cc:35-44 | is the model's deregister step, and answers |
| Registry.NoSignOfLife | atreus/core/watchdog.cc:33-42 | lists exactly the services that gave no answer |
| Registry.Check | atreus/core/watchdog.cc:30-56 | is the model's check step: exactly the dead services leave the table and, where the call came through, ICE, and each is counted once |
| Registry.Lookup | ice/ice.cc:20-27 | under agreement an IP that ICE answers with belongs to an agent whose own query finds the name |
| HalvingAverage.ClosedForm | chaos/data_manager.cc:29-33 | after any history of non-negative reports the value is the floor of their sum weighted 2^(i-1), over 2^n |
| HalvingAverage.HalfTruncates | chaos/data_manager.cc:32 | halving drops the remainder toward zero |
| HalvingAverage.WeightsDouble | chaos/data_manager.cc:31-32 | in the weighted sum every report counts half as much as the one after it |
| HalvingAverage.PowersDouble | chaos/data_manager.cc:32 | what that sum is divided by doubles with every report |
| HalvingAverage.NeverAboveLargest | chaos/data_manager.cc:29-33 | the value never exceeds the largest report |
| HalvingAverage.NoOverflow | chaos/data_manager.cc:31 | reports below 2^30 never take the sum out of the range of int |
| HalvingAverage.DataManager.DoBytes | chaos/data_manager.cc:29-33 | updates that name's average as its own history demands and no other name's |
| HalvingAverage.DataManager.GetBytes | chaos/data_manager.cc:50-53 | the average of the name's history, in closed form where no report was negative, or an exception for a name never reported |
| HalvingAverage.Replay | atreus/util/data_manager.cc:22-26 | reports for many names in any interleaving leave every name with the average of its own history |

## Left out

- Real sockets, timers, executors, the accept loop and the rest of asio: sockets are byte streams here and completions are steps.
- `BladeObject::Dsl`: its meaning depends on stream-state rules of the standard library.
- Sizes: all lengths and totals are assumed to be below 2^31 (`WellSized`; bodies in `Relay.Enabled`); a peer may announce any u32 payload length, and wrap-around of `int` sizes and negative lengths are not modelled.
- Codec.Encode: the object's total size is below 2^31, as for every size here.
- Session.BladeSession.DoReadHeader: initiating a read and its completion handler are one method; `Relay.RelaySafety` shows that nothing of the same session can come between them.
- Relay.Kartos.KartosOnRecv: the query and byte counters Kartos keeps and logging are not part of it, and the port lookup is an input.
- Relay.Kartos.BodyHandler: sessions hold objects as values, `Clone` being a copy, and the father is named by an identity instead of a pointer.
- Blade.BladeObject.Iterate: visitors are pure functions; those that write are walked on their own, Encode's by `Codec.EncodeStores` and the counting one by `Reports.Counter.CountStore`.
- Relay.EveryRequestIsAnswered: of a request whose own sessions fail nothing is promised but that no reply is made up, which `Relay.RelaySafety` covers.
- Loki as a parent: its request branch tests `GetTraceId()` where the other two test `GetType()` (`atreus/policy/loki_session_policy.cc:45`), so it is not the relay Kartos is.
- `ServiceSessionPolicy` and `SyncSession`: the second repeats the session's reading and writing without callbacks.
- StreamBuf.StreamBuf.Prepare: `pbump` and `gbump` take an `int`, which counts of 2^31 and more would overflow.
- StreamBuf.StreamBuf.Resize: a new array stands for what `vector::resize` gives; spare capacity is not modelled.
- StreamBuf.Replay: a receive commits no more than was prepared for it, as the original asks of its callers; a run ends with its first `length_error`, after which the buffer keeps no promise.
- BufferCopy.CopyManyMany: targets are regions of one memory, apart from each other; source buffers are values, so that copying between overlapping memory is outside the model, as it is outside the original's contract.
- BufferCopy.CopyOneOne: one method for the overloads with and without a limit, the limit being anything not below the source's size where there is none.
- BuffersIterator.BuffersIterator.Advance: asks that the iterator stays within the bytes, as the original asserts.
- RWLock.RWLock.UnlockRead: unlocking a lock one does not hold, and wrap-around of the counters, are not modelled.
- Interleaving.AgreementAtRest: every message reaches ICE in it, lost ones being the subject of `Registry.AgreementKeptExactly`; a whole check is one move, since it holds the table's lock and an outstanding message of Loki comes before or after the check's own about the same name. ICE runs its handlers on one thread (`blade/blade_server.cc:13`), so they are whole steps.
- Registry.AgreementAlways: every agent has its own IP, and ICE is told of nothing but what agents tell it. A call to ICE whose connection breaks after the message went out is not modelled.
- Registry.IceServiceManager.Query: the numbers drawn are an input, one for each check of the loop, each within the range of the distribution.
- Counters reported from agents to Chaos are not conserved (`Reports.ReportCountedExactly`); the other plain counters, the maximum queries, id generation, flags and logging are easy or external.
