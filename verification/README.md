# Verified model of libpeer's media and streaming paths

libpeer is a small WebRTC stack in C; its example `ito-denwa` is a two-core device that plays
streamed speech. This project models the parts of both that carry state or arithmetic across many
calls, and proves what they are for.

- **AV1 over RTP** (`Leb128`, `Rtp`, `Av1*`; sections 4.4 and 5 of "RTP Payload Format For AV1",
  section 4.10.5 of the AV1 bitstream specification). The sender parses a temporal unit, strips the
  size fields and cuts the OBUs into packets; the receiver reorders in a four-slot window on 16-bit
  numbers, reassembles in place, splices the size fields back and discards after a gap. `Av1EndToEnd`
  composes the three over unbounded runs of a network that loses, repeats and reorders. `Av1Spelling` says
  what goes on the wire for any list of OBUs, `Av1AnySender` what the receiver makes of packets any
  conforming sender may write.
- **H.264 over RTP** (`H264`, `H264Wire`, `H264Peer`; RFC 6184): Annex B splitting, single packets and
  FU-A fragments, and back.
- **The bus between the cores** (`IcRing`, `IcChannel`): a byte ring with wrapping counters, a
  notification FIFO and a peek cache, as interleaved single-access steps of the two cores.
- **The streamed response** (`HttpChunked`, `HttpSpelling`, `TtsFrames`, `TtsStream`, `TtsRun`,
  `TtsPlayback`, `TtsProgress`, `TtsSkips`, `TtsExact`, `TtsFails`, `TtsPlayer`): a resumable chunked decoder (RFC 9112 section 7.1)
  that works inside the buffer it reads, a pump that cuts length-prefixed packets from the decoded
  prefix, and compaction that shifts the prefix under both, in any order of calls.
- **Checksums and records** (`Crc32`, `Words`, `Credentials`): the bitwise and the table CRC agree,
  and a flash record with one byte changed is refused.
- **STUN** (`Stun`, `StunChange`, `StunMessage`; RFC 5389): building, walking, closing and checking a
  message, and what the check catches when a byte of it changes; the digest is left uninterpreted.
- **ICE checking** (`Ice`, `IceAnswer`, `IceWire`, `IceAgent`; RFC 8445): the run of `peer_connection_loop` over the
  candidate pairs, in closed form, over every sequence of datagrams; which of them are answers is decided
  by the STUN part.
- **The audio ring** (`AudioRing`, `AudioQuiet`, `AudioOut`): the program's accesses to the ring, one at a time, with
  the DMA engine reading words between any two of them.
- **The scene machine** (`MooreFsm`), **base64 and the push-to-talk accumulator** (`Base64`, `Linephone`).

Pure functions say what a call does; the classes hold the source's fields and buffers, update them in
place, and are proved to do what those functions say. `dafny verify dfyconfig.toml` checks the whole
project in a few minutes.

Where the code and its own comments differ, the code is modelled:

- `examples/ito-denwa/src/audio.c:449` says the lead is never negative after the underrun check; it is
  -1 exactly when the count read is odd (`AudioRing.OddSnap`; `AudioRing.OddSnapReached` is a run), and a
  write then loses its first word (`AudioRing.OddWriteLosesOne`). A gap is recovered exactly if it is, to
  32 bits, one of 1 to 2^31 words (`AudioRing.IdleTooLong`). The bound on the lead holds in every case
  (`AudioRing.RoomFits`).
- After `examples/ito-denwa/src/tts.c:293` gives up on an over-long length, the pump resumes at the next
  bytes, wherever they stand in the framing: packets may be sent that the server never framed
  (`TtsSkips.SendsWhatWasNeverFramed`). It can happen exactly when the body is chunked and holds a packet
  past a point, beyond the prebuffer, where the pump may have given up: never otherwise
  (`TtsExact.PrefixUnlessVulnerable`), and on some run for any such response that fits the buffer
  (`TtsFails.FailsExactlyWhenVulnerable`). `TtsPlayback.SentAcrossSkips` says exactly what is sent.
- `src/stun.c:126-223` parses into fields it does not clear, so `stun_msg_is_valid` can be passed by a
  message that does not carry the fingerprint or the digest, where the fields held them before. It can be
  passed exactly if the parser stays inside the buffer, every attribute it comes by fits its field, and no
  byte of fingerprint or digest carried last differs from the one computed (`StunChange.PassesForSome`).
  So no change of one byte before the fingerprint passes (`StunChange.FinishedChangedFails`), unless it is
  of the message's length or of an attribute's number of words; such a change can
  (`StunChange.ZeroLengthPasses`, `StunChange.SwallowedPasses`).
- `src/peer_connection.c:16-20`: without a registered callback the connection state never changes
  (`IceAnswer.ConnectedExactlyWhenAuthenticated`; `Ice.AnsweredUnnoticed` is a run).
- `examples/ito-denwa/inc/credentials.h:9` calls the fourth flag byte padding; the code stores the
  codec choice there.

## Model

| member | source | states |
|---|---|---|
| Leb128.RoundTrip | src/rtp.c:214-238 | a written number reads back with its length, exactly when it is below 2^56; above, the eight-byte reader rejects it |
| Leb128.SizeBound | src/rtp.c:205-212 | a number takes at most n bytes exactly when it is below 128^n |
| Leb128.ComputeSize | src/rtp.c:205-212 | the size loop finds the length of the encoding |
| Leb128.Write | src/rtp.c:214-225 | the write loop leaves the encoding in place and nothing else touched |
| Leb128.ReadFrom | src/rtp.c:227-238 | the read loop is the bounded decoder, malformed inputs included |
| Rtp.HeaderReadsBack | src/rtp.h:39-60 | version, marker, payload type, number, time and source read back, no CSRC, extension or padding, whatever the payload |
| Av1Obu.ParseTemporalUnit | src/rtp.c:255-323 | the parsing loop finds the OBU list, new-sequence flag and rejections of the specification |
| Av1Obu.RestoredParsesBack | src/rtp.c:255-323 | OBUs given back their sizes parse into the very same OBUs |
| Av1Obu.NormalFormParsesSame | src/rtp.c:255-323 | normalising a unit changes neither its OBUs nor its new-sequence flag |
| Av1Spelling.UnitParses | src/rtp.c:255-323 | any list of OBUs, each with its size or the last without, parses into exactly those of types other than 2, 8 and 15, in order, whole, size bit cleared; the new-sequence flag is a type 1 among all; with more than 32 of them the unit is rejected |
| Av1Spelling.RejectsCutShort | src/rtp.c:265-292 | any OBUs and then one whose header, length or payload is cut short are rejected |
| Av1Spelling.UnitEncodes | src/rtp.c:325-394 | of such a list: the return value, the clock 3000 ticks on, the number by as many as there are packets, and the joined pieces are the joined OBUs |
| Av1Spelling.PacketBytes | src/rtp.c:325-394 | every byte of every packet: payload type 45, marker on the last, number, time, source 2, aggregation header; 1300 bytes at most |
| Av1Spelling.UnitRestores | src/rtp.c:255-588 | the normal form spoken of below: a delimiter and the OBUs that travelled, each behind its size |
| Av1Packetizer.FillFits | src/rtp.c:348-380 | a packet never overflows and no piece on either side of the cut is empty |
| Av1Packetizer.FillKeepsBytes | src/rtp.c:348-380 | bytes taken and bytes left are the bytes there were, and an empty packet takes at least one |
| Av1Packetizer.Split | src/rtp.c:356-372 | a piece that does not fit is cut shorter than what remains |
| Av1Packetizer.CutRules | src/rtp.c:325-394 | every packet is within the MTU and not empty, Z repeats the previous Y, N only first, marker only last |
| Av1Packetizer.CutKeepsBytes | src/rtp.c:325-394 | the pieces of all packets joined are the OBUs joined |
| Av1Packetizer.CutFull | src/rtp.c:348-372 | no packet but the last leaves more than two bytes of the MTU unused |
| Av1Packetizer.WireAt | src/rtp.c:382-390 | packet i carries number sn + i modulo 2^16 |
| Av1Packetizer.FillPacket | src/rtp.c:348-380 | the filling loop places in the buffer the pieces the cut prescribes, behind the headers |
| Av1Packetizer.ElementCopy | src/rtp.c:240-252 | copying from header and payload is copying from their concatenation |
| Av1Packetizer.Encoder.EncodeAv1 | src/rtp.c:325-394 | the packetizing loop hands over the packets of the cut and advances counter and timestamp, errors included |
| Av1Reassembly.StepOnWire | src/rtp.c:593-728 | the depacketizer reads from the wire exactly the pieces the packetizer put there |
| Av1Reassembly.FillTaken | src/rtp.c:554-728 | one packet takes the rebuilt unit as far as the packetizer cut it, if it fits the buffer |
| Av1AnySender.StepOnAnyForm | src/rtp.c:593-722 | with CSRC list, header extension, padding, and one to three elements counted by W or any number behind their lengths, a packet does what the same elements do with none of these; the length reported leaves out the padding |
| Av1AnySender.AnySenderIsUnderstood | src/rtp.c:554-728 | a unit cut at will into such packets, its OBUs with size fields or without, is handed over once, each OBU behind its size, if it has 262144 bytes at most; else it is discarded |
| Av1AnySender.WrongZDiscards | src/rtp.c:677-683 | a packet that ought to continue an OBU and does not, or the other way round, discards the unit |
| Av1AnySender.OpenEndDiscards | src/rtp.c:711-728 | so does a unit that ends inside an OBU, with an error |
| Av1AnySender.CorruptDiscards | src/rtp.c:675-728 | so does a packet with corrupt elements |
| Av1AnySender.OverrunDiscards | src/rtp.c:675-691 | so does one whose element, after any others, announces more than there is |
| Av1AnySender.ShortObuCorrupts | src/rtp.c:554-568 | an OBU that ends inside its header corrupts the packet |
| Av1AnySender.ProbeOnlyCounts | src/rtp.c:643-661 | a packet without elements moves the sequence on and nothing else |
| Av1AnySender.CutShortIsIgnored | src/rtp.c:607-630 | a packet cut short inside its headers is reported and changes nothing |
| Av1AnySender.BadPaddingIsIgnored | src/rtp.c:632-641 | so does one whose padding is announced as none, or as more than there is |
| Av1Stream.TakeInStep | src/rtp.c:593-728 | in step, a packet hands over its unit's normal form if it closes it, and nothing else |
| Av1Stream.StreamLinked | src/rtp.c:325-394 | consecutive packets, within and across units, continue one another |
| Av1Receiver.SpliceRestores | src/rtp.c:554-588 | the memmove and the length written into the gap leave the OBU with its size field |
| Av1Receiver.Depacketizer.Packet | src/rtp.c:593-728 | the in-place depacketizer does to its buffer and flags what the specification step does |
| Av1Receiver.Decoder.DecodeAv1 | src/rtp.c:748-808 | the four slots and the depacketizer behind them do what window and step say |
| Av1Reorder.AcceptRefines | src/rtp.c:773-808 | one datagram does to the 16-bit window what it does to a window on unwrapped numbers |
| Av1Reorder.RunRefines | src/rtp.c:741-808 | so does any run whose arrivals come within half the number space |
| Av1Reorder.RunOrder | src/rtp.c:741-808 | each release has a higher number than all before it; what is held lies strictly ahead of the awaited number by less than four |
| Av1Reorder.RunConserves | src/rtp.c:741-808 | every accepted packet is released or still held, and nothing is made up |
| Av1Reorder.HeldBound | src/rtp.c:741-808 | at most three packets are held |
| Av1Reorder.InOrderAtOnce | src/rtp.c:755-761 | the awaited packet is released at once |
| Av1Reorder.AnswersExactly | src/rtp.c:773-785 | packets of 12 to 2048 bytes are counted whole, any other is refused and changes nothing |
| Av1Reorder.RunTimely | src/rtp.c:741-808 | when every packet four or more earlier has arrived, releases have no hole |
| Av1EndToEnd.DecodeRunIsWindowThenDepay | src/rtp.c:748-808 | a run of the decoder is the window's releases fed to the depacketizer |
| Av1EndToEnd.ReceivePacket | src/rtp.c:593-728 | any later packet of the stream keeps the receiver in step or discarding, and yields only its own unit |
| Av1EndToEnd.DeliversOnlyWholeUnitsInOrder | src/rtp.c:593-808 | under loss, repetition and reordering each unit delivered is the normal form of one sent unit, in strictly increasing order |
| Av1EndToEnd.ReceiveStream | src/rtp.c:554-728 | the whole stream in sequence yields the expected units |
| Av1EndToEnd.DeliversSoFar | src/rtp.c:554-808 | within the window, what has been delivered at any time is the first of the expected units: what the packets released so far hold |
| Av1EndToEnd.LosslessDelivery | src/rtp.c:554-808 | once every packet has arrived, exactly the expected units have been delivered, each once, in order |
| Av1EndToEnd.ExpectedAll | src/rtp.c:554-728 | with a sequence header first and units that fit, the expected units are all of them |
| H264.UnitsOfAnnexB | src/rtp.c:126-162 | splitting a stream of start codes and units gives the units back, trailing zeros aside |
| H264.FragmentsShape | src/rtp.c:73-124 | fragments fit the MTU, number on, start bit only first, end bit and marker only last |
| H264.FragmentArrives | src/rtp.c:486-511 | what one fragment does to the held unit, and that its first byte is rebuilt |
| H264.UnitArrives | src/rtp.c:469-513 | a unit's packets yield it once, after a four-byte start code, whatever was held |
| H264.StreamArrives | src/rtp.c:46-162 | from an Annex B stream to its units on the other side, each once and in order |
| H264Wire.UnitOnWire | src/rtp.c:46-124 | every byte of a unit's packets: whole up to 1288 bytes, else fragments of 1286 and a rest; payload type 96, source 1; the marker on a slice sent whole or on the last fragment; a slice, of type 1 or 5, moves the clock on by 3000 |
| H264Wire.StreamClock | src/rtp.c:138-162 | over a stream the clock counts its slices, and the numbers its packets |
| H264Wire.BehindStartCodes | src/rtp.c:469-513 | each unit arrives behind a four-byte start code |
| H264Wire.TypesAsRead | src/rtp.c:469-513 | types 1 to 23 are units, any other is read as a fragment, all alike |
| H264Peer.FindNalu | src/rtp.c:126-136 | the scan finds the first start code from a position on |
| H264Peer.Encoder.EncodeFuA | src/rtp.c:73-124 | the fragmenting loop hands over the fragments specified and moves counter and clock |
| H264Peer.Encoder.EncodeH264 | src/rtp.c:138-162 | the splitting loop sends every unit of the stream |
| H264Peer.Decoder.Decode | src/rtp.c:469-513 | the static buffer and offset change as specified |
| IcRing.NextKeeps | examples/ito-denwa/src/ic_ring.c:81-173 | every step of either core keeps the ring's invariant |
| IcRing.ReceivedIsPrefixOfSent | examples/ito-denwa/src/ic_ring.c:81-173 | in every interleaving what was received is a prefix of what was sent, the mismatch return is never taken, the counters stay within the ring |
| IcRing.UnreadBytesStand | examples/ito-denwa/src/ic_ring.c:57-119 | no step changes a byte between the two counters |
| IcRing.HeaderMatches | examples/ito-denwa/src/ic_ring.c:150-158 | the header read agrees with the notification |
| IcRing.ConsumerMakesRoom | examples/ito-denwa/src/ic_ring.c:121-173 | the consumer never takes room away |
| IcRing.AvailMeansNoWait | examples/ito-denwa/src/ic_ring.c:81-119 | after enough room was announced, the next send of that size never waits, whatever the other core does |
| IcRing.QuietMeansAllReceived | examples/ito-denwa/src/ic_ring.c:81-173 | with nothing under way everything sent was received |
| IcRing.AvailIsRoom | examples/ito-denwa/src/ic_ring.c:81-119 | the room announced is 32768 bytes less a header and whole words of payload for each unread message, or none with eight notifications queued; a send starts exactly if it fits, and is notified exactly if fewer are queued |
| IcRing.UnreadLayout | examples/ito-denwa/src/ic_ring.c:57-108 | the ring bytes of every unread message: type and length, low byte first, then the payload |
| IcChannel.RingWrite | examples/ito-denwa/src/ic_ring.c:57-67 | one memcpy or two leave the bytes where wrapping puts them |
| IcChannel.RingRead | examples/ito-denwa/src/ic_ring.c:69-79 | one memcpy or two read them back |
| IcChannel.SendIsSteps | examples/ito-denwa/src/ic_ring.c:81-108 | a whole send is the producer's steps run together |
| IcChannel.RecvIsSteps | examples/ito-denwa/src/ic_ring.c:134-173 | a whole receive is the consumer's steps run together, whatever comes of it |
| IcChannel.RecvGetsOldest | examples/ito-denwa/src/ic_ring.c:134-173 | a receive with something under way gets the oldest message |
| IcChannel.Channel.SendAvail | examples/ito-denwa/src/ic_ring.c:110-119 | the room announced is the free room, none with a full FIFO |
| IcChannel.Channel.SendMsg | examples/ito-denwa/src/ic_ring.c:81-108 | a send appends the message, or reports that it can never fit and changes nothing |
| IcChannel.Channel.PeekType | examples/ito-denwa/src/ic_ring.c:121-132 | a peek moves at most the oldest notification into the cache |
| IcChannel.Channel.TryRecv | examples/ito-denwa/src/ic_ring.c:134-166 | a receive takes the oldest message, cut to the room given, and never returns the mismatch error |
| HttpChunked.FeedAppend | examples/ito-denwa/src/http.c:714-821 | feeding in two calls is feeding once: splits make no difference |
| HttpChunked.SkipsLineFeed | examples/ito-denwa/src/http.c:808-816 | skipping the line feed ahead, or leaving it to the next call, is the same |
| HttpChunked.FeedSizeLine | examples/ito-denwa/src/http.c:722-763 | a size line announces its number modulo 2^32, whatever its extension |
| HttpChunked.SizeExactly | examples/ito-denwa/src/http.c:722-763 | it announces the number itself exactly below 2^32 |
| HttpChunked.InvertsEncoding | examples/ito-denwa/src/http.c:714-821 | chunks in any spelling decode to their data, done at the empty chunk, indifferent to what follows |
| HttpSpelling.LineAnnounces | examples/ito-denwa/src/http.c:722-763 | a size written by division in hexadecimal, any letter in either case, with leading zeros and an extension, is announced modulo 2^32 |
| HttpSpelling.DecodesWritten | examples/ito-denwa/src/http.c:714-821 | a body so written decodes to its data and is done at the last chunk |
| HttpSpelling.StraySkipped | examples/ito-denwa/src/http.c:714-821 | bytes that belong to no state change nothing |
| HttpChunked.Turns | examples/ito-denwa/src/http.c:714-821 | the loop over the shared buffer is the decoder, writing behind what it reads and nowhere else |
| HttpChunked.DecodeInPlace | examples/ito-denwa/src/http.c:714-821 | so is a call resuming at stored offsets |
| TtsFrames.CutJoin | examples/ito-denwa/src/tts.c:279-357 | cutting undoes framing, zero-length markers dropped |
| TtsFrames.CutAppend | examples/ito-denwa/src/tts.c:279-357 | cutting whole packets first changes nothing for the rest |
| TtsFrames.CutGrows | examples/ito-denwa/src/tts.c:279-357 | more bytes only add packets, none past an over-long length |
| TtsRun.DecodeKeeps | examples/ito-denwa/src/http.c:714-821 | a decoder call extends what is decoded and keeps the buffer's layout |
| TtsRun.CompactKeeps | examples/ito-denwa/src/http.c:387-404 | compaction keeps what is decoded, what is unread and the pump's place |
| TtsRun.ReceiveQuietly | examples/ito-denwa/src/http.c:512-550 | arriving bytes, compaction, refusal and eager decoding send nothing and move nothing |
| TtsRun.ForwardKeeps | examples/ito-denwa/src/tts.c:265-393 | a pass of the pump keeps its place in step with the decoded bytes, wherever back-pressure stops it |
| TtsRun.NextKeeps | examples/ito-denwa/src/tts.c:265-416 | every call keeps layout, messages and place |
| TtsPlayback.EndIsLast | examples/ito-denwa/src/tts.c:33-38 | what was sent is data messages and then at most one end message |
| TtsPlayback.NothingAfterEnd | examples/ito-denwa/src/tts.c:265-268 | after the end message no call sends anything |
| TtsProgress.PcmPassSends | examples/ito-denwa/src/tts.c:367-393 | with two bytes ready and room, one pass sends exactly the next even number of bytes, 1024 at most, and moves on by as much |
| TtsProgress.PcmPassWaits | examples/ito-denwa/src/tts.c:367-393 | without room it sends nothing and stays |
| TtsProgress.PcmPassEnds | examples/ito-denwa/src/tts.c:395-416 | with less than a sample left and no more to come, it ends the stream |
| TtsProgress.OpusPassSends | examples/ito-denwa/src/tts.c:279-357 | one pass sends exactly the next packets of the body, one message each, up to four or the first the ring has no room for |
| TtsProgress.PassesDrain | examples/ito-denwa/src/tts.c:265-416 | once no more will come, enough passes with room, however many without between them, end the stream with all packets sent, or all samples but an odd byte |
| TtsProgress.ArrivalStarts | examples/ito-denwa/src/http.c:439-550 | bytes are taken exactly while they fit behind what is not yet played, and playback starts exactly when 8192 are ready |
| TtsProgress.DoneStarts | examples/ito-denwa/src/http.c:298-345 | a response that is done starts playback whatever its length; one that failed ends what plays and starts nothing |
| TtsProgress.FinishPlays | examples/ito-denwa/src/http.c:298-345 | so a finished response plays, from its first byte if it had not begun |
| TtsProgress.StopCloses | examples/ito-denwa/src/tts.c:394-416 | after a stop nothing more is taken in, and passes drain what came |
| TtsProgress.TerminatorFinishes | examples/ito-denwa/src/http.c:748-763 | a pass that decodes the terminating chunk finishes the response, and no other does |
| TtsExact.PrefixUnlessVulnerable | examples/ito-denwa/src/tts.c:265-416 | unless a chunked body holds a packet past a point where the pump may have given up, the packets sent are a prefix of the body's in every run, and all of them when the pump ended the stream |
| TtsFails.FailsExactlyWhenVulnerable | examples/ito-denwa/src/tts.c:290-295 | of a response that fits the buffer, some run sends what is not a prefix if and only if the body is such a one |
| TtsFails.FailsWhenItsBeginningIsVulnerable | examples/ito-denwa/src/tts.c:290-295 | of a response of any length, some run does if a beginning that fits the buffer is such a one, and only if the whole is |
| TtsFails.VulnerableFails | examples/ito-denwa/src/tts.c:290-295 | the run that does it, for every such body |
| TtsExact.SafeBodies | examples/ito-denwa/src/tts.c:290-295 | a body that is not chunked, or has no over-long length, is never such a one |
| TtsPlayback.SentIsPrefixOfPackets | examples/ito-denwa/src/tts.c:265-416 | with no over-long length, the packets sent are a prefix of the body's, once each |
| TtsPlayback.SentAcrossSkips | examples/ito-denwa/src/tts.c:290-295 | in general they are the packets up to each point given up on, and those found from there on |
| TtsSkips.SendsWhatWasNeverFramed | examples/ito-denwa/src/tts.c:290-295 | a run on which a packet is sent although the body holds none |
| TtsPlayback.PcmIsPrefixOfBody | examples/ito-denwa/src/tts.c:367-393 | raw samples sent are a prefix of the body, all but an odd byte at the end |
| TtsPlayback.PlaysWhatWasFramed | examples/ito-denwa/src/tts.c:265-416 | through chunked coding and framing, the packets sent are a prefix of the server's, and all of them at the end |
| TtsExact.HeardIsPrefixOfPackets | examples/ito-denwa/src/tts.c:329-356 | the j-th packet the other core received whole is the j-th of the body, whatever other messages share the bus |
| TtsPlayer.Player.ChunkedDecode | examples/ito-denwa/src/http.c:714-821 | buffer, offsets and decoder state change as specified |
| TtsPlayer.Player.CompactLocked | examples/ito-denwa/src/http.c:387-404 | the memmove and the offsets give the compacted state |
| TtsPlayer.Player.RecvCb | examples/ito-denwa/src/http.c:512-550 | bytes are appended, or refused when compaction makes no room |
| TtsPlayer.Player.CheckComplete | examples/ito-denwa/src/http.c:439-487 | opus is decoded eagerly, playback armed once enough is buffered, and the response done once the announced length is there |
| TtsPlayer.Player.HandleDone | examples/ito-denwa/src/http.c:298-345 | a response that failed, or whose headers never came, ends the stream if it plays and is dropped otherwise; a short one starts it |
| TtsPlayer.Player.ForwardPump | examples/ito-denwa/src/tts.c:265-416 | one pass sends, skips, compacts and ends as specified |
| Crc32.TableIsEightSteps | src/stun.c:10-47 | every entry of the table is eight bit steps of its index |
| Crc32.TableStepIsByteStep | src/stun.c:229-231 | a table step is a byte step |
| Crc32.TableRunIsRun | src/stun.c:225-234 | the two forms agree on every message |
| Crc32.ByteStepInjective | examples/ito-denwa/src/credentials.c:43-52 | a byte step permutes the register, and tells bytes apart |
| Crc32.OneByteChangesCrc | examples/ito-denwa/src/credentials.c:43-52 | a message changed in one byte has another CRC |
| Crc32.CheckValue | examples/ito-denwa/src/credentials.c:43-52 | the CRC of "123456789" is 0xCBF43926 |
| Crc32.BitwiseCrc | examples/ito-denwa/src/credentials.c:43-52 | the two nested loops compute it |
| Crc32.TableCrc | src/stun.c:225-233 | the table loop computes the same |
| Words.UnLeLe | examples/ito-denwa/src/credentials.c:24-35 | a stored word reads back |
| Credentials.LoadInvertsSave | examples/ito-denwa/src/credentials.c:63-157 | what was saved is loaded, each string up to its terminator |
| Credentials.PageLayout | examples/ito-denwa/src/credentials.c:121-157 | the page saved, byte by byte, nothing for an empty name |
| Credentials.AcceptsExactly | examples/ito-denwa/src/credentials.c:63-103 | a record is accepted exactly with magic, version, lengths within the fields and the checksum right, and what is then read |
| Credentials.CanonicalReadsSame | examples/ito-denwa/src/credentials.c:121-147 | nothing a string reader sees is lost, and saving again gives the same record |
| Credentials.OneByteIsCaught | examples/ito-denwa/src/credentials.c:63-90 | an accepted record changed in any one byte is refused |
| Credentials.RecordOnly | examples/ito-denwa/src/credentials.c:63-66 | the rest of the page is not looked at |
| Credentials.ErasedIsRefused | examples/ito-denwa/src/credentials.c:68-72 | erased flash holds no credentials |
| Credentials.Store.Save | examples/ito-denwa/src/credentials.c:121-157 | the page becomes the record, or stays as it was |
| Credentials.Store.LoadBack | examples/ito-denwa/src/credentials.c:63-103 | loading reads the page as specified |
| Stun.WalkAppend | src/stun.c:153-222 | one more attribute at the end is one more attribute walked |
| Stun.CreateStarts | src/stun.c:49-58 | a fresh message has no attributes and length zero |
| Stun.WriteAdds | src/stun.c:236-266 | an attribute that fits is added last, length field and size in step, padding arbitrary |
| Stun.ListReadsBack | src/stun.c:236-266 | any list of attributes that fits, written after a fresh header, is exactly what the walk finds |
| Stun.AddressRoundTrip | src/stun.c:60-124 | an address reads back under the same mask, both families |
| Stun.ScanIsWalk | src/stun.c:153-222 | where no attribute reaches past the end, the parser comes by exactly the attributes of the message |
| Stun.FinishedIsValid | src/stun.c:268-305 | a message closed with a key passes the check with it, for every key and digest |
| Stun.ReceivedIsValid | src/stun.c:355-397 | so do its bytes copied over any buffer at the other end |
| Stun.OneByteChangeFails | src/stun.c:355-374 | a message that passes is refused once a byte before the fingerprint changes, if the same fingerprint is found |
| StunChange.WalkChanged | src/stun.c:153-222 | a changed byte that alters no padded length leaves the closing fingerprint the last attribute found |
| StunChange.GatherKeeps | src/stun.c:153-222 | the parser takes a list of attributes exactly if each fits its field, and then holds of fingerprint and digest the bytes carried last, and elsewhere what was there |
| StunChange.ChangedByteFails | src/stun.c:355-374 | a message that passes and closes with its fingerprint is refused after any change of one byte before it that alters no padded length; there is no answer where an attribute no longer fits its field |
| StunChange.FinishedChangedFails | src/stun.c:268-374 | no message closed with a key can pass after such a change, whatever the receiver's fields held |
| StunChange.PassesForSome | src/stun.c:355-397 | some earlier contents of the fields let a message pass if and only if the scan stays in the buffer, all attributes fit, and the last byte carried for each place of fingerprint and digest, if any, is the one computed |
| StunChange.ZeroLengthPasses | src/stun.c:153-155 | a closed message with its length byte set to zero can pass |
| StunChange.SwallowedPasses | src/stun.c:217-222 | so can one whose first attribute, of a kind ignored, is grown to the end of the message or beyond |
| Stun.TypeReadsBack | src/stun.c:135-151 | class and method are read back from the type |
| StunMessage.Message.Create | src/stun.c:49-58 | the buffer holds a fresh header |
| StunMessage.Message.WriteAttribute | src/stun.c:236-249 | the buffer, size and length field change as specified, with a value or over the bytes in place, and any list of attributes grows by this one |
| StunMessage.Message.Close | src/stun.c:268-305 | digest and fingerprint are appended over the right lengths |
| StunMessage.Message.ParseBuf | src/stun.c:126-223 | class and method are narrowed down, and the loop over the buffer takes the attributes the scan comes by, wherever the message ends |
| StunMessage.Message.Check | src/stun.c:355-397 | the check answers as specified |
| Ice.RunIsOutcome | src/peer_connection.c:306-312 | the state after any number of turns and any answers, in closed form |
| Ice.ConnectedExactlyWhenAnswered | src/peer_connection.c:16-20 | connected exactly when one of the first thousand turns per pair was answered, failed exactly on the turn after the last; never without a callback |
| IceAnswer.ConnectedExactlyWhenAuthenticated | src/agent.c:380-418 | connected exactly when one of the first thousand datagrams per pair is a Binding response authenticated with the remote password |
| IceAnswer.ProbeMeans | src/stun.c:307-320 | the probe of the cleared buffer, given its whole length, accepts exactly datagrams with the cookie in place |
| IceAnswer.ResponseIsHeard | src/agent.c:306-322 | the response an agent builds is authentic to whoever has its password, in whatever memory it is received |
| IceAnswer.RequestIsHeard | src/agent.c:324-343 | so is the request it builds, in either role |
| IceAnswer.RequestGetsAnswer | src/agent.c:362-378 | a request made with the shared password gets one reply, and the reply is an answer to whoever asked |
| IceWire.ReplyTells | src/agent.c:306-378 | an authentic request gets one reply, which carries its transaction id, and parsing it leaves the asker's address and the agent's user name, in whatever memory and of either family |
| IceWire.ExchangeTells | src/agent.c:306-378 | so a request made with the shared password tells whoever sent it its own address |
| IceWire.ResponseBytes | src/agent.c:306-322 | the bytes of the response: type, cookie and id, the address masked with cookie and id, the user name, digest and fingerprint |
| IceWire.RequestBytes | src/agent.c:324-343 | the bytes of the request: user name, priority, the attributes of its role, digest and fingerprint |
| IceWire.GatherLast | src/stun.c:158-216 | user name, realm and nonce kept are those carried last |
| IceWire.GatherAddress | src/stun.c:158-216 | so are the addresses, unmasked with cookie and id |
| IceWire.PlainAddress | src/stun.c:60-124 | a plain address is not unmasked |
| IceWire.OnlyBindingCounts | src/agent.c:362-418 | of Binding and Allocate messages of any class only a Binding response is an answer and only a Binding request is replied to, with the cookie in place |
| IceAnswer.PeerConnects | src/agent.c:380-418 | with the peer's response among the first thousand datagrams per pair the connection is made |
| IceAnswer.FinishedTampered | src/stun.c:268-305 | a closed message with such a byte changed is one of those below |
| IceAnswer.TamperedNeverConnects | src/agent.c:380-418 | hearing only closed messages changed in one byte before the fingerprint, not of a length, it is never made |
| Ice.AnsweredUnnoticed | src/peer_connection.c:16-20 | a run whose pair succeeds while the connection, without a callback, goes on checking |
| Ice.PairsStayInOrder | src/agent.c:507-530 | failed pairs, at most one under check or succeeded, untouched pairs, always in that order |
| Ice.TenRequestsEach | src/agent.c:478-505 | unanswered, every pair got ten requests |
| Ice.RequestsInTurn | src/agent.c:478-505 | while nothing answers a request goes out every hundredth turn, ten to a pair, the pairs in order |
| IceAgent.MatchesSound | src/agent.c:461-476 | only same-family pairs are formed, each once, in order |
| IceAgent.MatchesComplete | src/agent.c:461-476 | and all of them |
| IceAgent.Agent.UpdateCandidatePairs | src/agent.c:461-476 | the nested loops append them, frozen, if the array has room for them |
| IceAgent.Agent.SelectCandidatePair | src/agent.c:507-530 | the scan does what the selection function says |
| IceAgent.Agent.CreateBindingResponse | src/agent.c:306-322 | the message is built attribute by attribute in the memory given and closed with the key; whoever parses it finds its own address there, and the two name fragments in order |
| IceAgent.Agent.ProcessStunRequest | src/agent.c:362-378 | a valid Binding request, and nothing else, is replied to with its transaction id |
| IceAgent.Agent.ProcessStunResponse | src/agent.c:380-394 | a valid Binding response, and nothing else, makes the nominated pair succeed |
| IceAgent.Agent.AgentRecv | src/agent.c:396-419 | pairs, reply and length returned are those of the datagram: answer, request, other STUN message or none |
| IceAgent.Agent.ConnectivityCheck | src/agent.c:478-505 | a request every hundredth count, and success only if the datagram taken is an answer |
| IceAgent.Agent.Loop | src/peer_connection.c:306-312 | one turn of the loop while checking |
| AudioRing.PollKeeps | examples/ito-denwa/src/audio.c:80-86 | polled within a lap, the tracked count is the true one to 32 bits |
| AudioRing.NextKeeps | examples/ito-denwa/src/audio.c:411-503 | every read of the engine and every access of the program keeps counters and contents of the ring |
| AudioRing.QueuedWordsArePlayed | examples/ito-denwa/src/audio.c:57-86 | in every interleaving polled in time, the words read are the first ones queued, in order, the others wait unharmed, and the writer never laps the reader |
| AudioRing.QueueGrows | examples/ito-denwa/src/audio.c:411-503 | only a reset takes back a queued word, and nothing takes back one that was read |
| AudioRing.RoomFits | examples/ito-denwa/src/audio.c:448-456 | the room taken never lets the writer lap the reader, however far behind the writer was |
| AudioQuiet.RoomIsAll | examples/ito-denwa/src/audio.c:448-456 | it is all the room there is, and the samples taken are the first ones that fit |
| AudioQuiet.ReportsRoom | examples/ito-denwa/src/audio.c:442-469 | a write reports all its samples, or the room there is, measured from the reader if it had passed the writer |
| AudioQuiet.RecoversIfBehind | examples/ito-denwa/src/audio.c:411-447 | a write, or a check of its own, recovers first exactly if the engine has read past the writer |
| AudioQuiet.RunZeroed | examples/ito-denwa/src/audio.c:411-503 | in every run polled in time, the words a recovery or a reset has passed are zero |
| AudioQuiet.SilenceEnds | examples/ito-denwa/src/audio.c:411-435 | a recovery leaves 1024 words of silence ahead of the last place polled, and the writer there |
| AudioQuiet.WipeEnds | examples/ito-denwa/src/audio.c:495-503 | a reset leaves all 8192 words silent, and the writer at the reader |
| AudioRing.WriteQueuesCaught | examples/ito-denwa/src/audio.c:457-467 | whatever the engine reads between the stores, word i is queued exactly if it has not passed its place when it is stored, and nothing else is |
| AudioRing.WriteQueues | examples/ito-denwa/src/audio.c:457-467 | all words stored are queued, in order, exactly if the engine overtakes none of them, stopped at any access |
| AudioRing.OddWriteLosesOne | examples/ito-denwa/src/audio.c:425-467 | one word behind the reader, a write the engine overtakes no further loses exactly its first word |
| AudioRing.WriteBehind | examples/ito-denwa/src/audio.c:457-467 | words stored where the engine has been are not queued |
| AudioRing.OddSnap | examples/ito-denwa/src/audio.c:425-449 | the snap leaves the lead at -1 exactly where the count read is odd, and at 0 otherwise |
| AudioRing.OddSnapReached | examples/ito-denwa/src/audio.c:425-449 | a run from the start that ends with the lead at -1 |
| AudioRing.IdleTooLong | examples/ito-denwa/src/audio.c:411-413 | the check recovers exactly from a gap that is, modulo 2^32, one of 1 to 2^31 words |
| AudioRing.IdleTooLongIsLost | examples/ito-denwa/src/audio.c:442-467 | of a write made behind any other gap, and no longer than it, nothing is ever heard |
| AudioRing.PlayIsRun | examples/ito-denwa/src/audio.c:442-467 | a call, with the engine reading any number of words after each access, is a run of the machine |
| AudioOut.DoubledAt | examples/ito-denwa/src/audio.c:457-465 | each sample is a pair of equal words, in order |
| AudioOut.Stream.ConsumedAbs | examples/ito-denwa/src/audio.c:80-86 | the poll updates the tracker as specified |
| AudioOut.Stream.CheckUnderrun | examples/ito-denwa/src/audio.c:411-435 | silence and snap go through the accesses specified, the engine reading meanwhile, and it reports whether the lead was negative |
| AudioOut.Stream.UnderrunRecover | examples/ito-denwa/src/audio.c:490-493 | the same behind a poll, keeping the invariant |
| AudioOut.Stream.WriteMono16 | examples/ito-denwa/src/audio.c:442-469 | poll, recovery, stores and publication go through the accesses specified, the engine reading meanwhile, and it reports how many samples it took, none of none |
| AudioOut.Stream.Buffered | examples/ito-denwa/src/audio.c:471-482 | the frames reported are the frames that wait |
| AudioOut.Stream.ResetStream | examples/ito-denwa/src/audio.c:495-503 | the wipe, word by word, and then the snap to the reader, the engine reading meanwhile |
| MooreFsm.MovesExactlyWhenConfirmed | examples/hid-usb/scene-detect/moorefsm.py:173-212 | the state moves exactly to an allowed successor seen in the last required number of calls, at the first such call |
| MooreFsm.RunIsPath | examples/hid-usb/scene-detect/moorefsm.py:173-212 | every run walks the transition table |
| MooreFsm.NoShortVisit | examples/hid-usb/scene-detect/moorefsm.py:165-206 | a state entered was seen in every one of the calls required |
| MooreFsm.TakenForScene | examples/hid-usb/scene-detect/moorefsm.py:133-158 | scores are taken for a scene exactly from 0.60 on, or from 0.30 with a lead of 0.15; surer scores are taken for the same scene |
| MooreFsm.ConfirmedBy | examples/hid-usb/scene-detect/moorefsm.py:165-206 | ten calls in a row confirm the retry screen, three any other; from a quest the special quest is never entered |
| MooreFsm.Fsm.Update | examples/hid-usb/scene-detect/moorefsm.py:173-212 | the two globals and the result change as specified |
| Base64.EncodersAgree | examples/ito-denwa/src/linephone.c:52-80 | the two encoders agree on every byte string |
| Base64.CharIsLetter | examples/ito-denwa/src/linephone.c:46-47 | the table is the alphabet of the standard |
| Base64.DecodeInverts | src/base64.c:37-70 | decoding an encoding gives the bytes back exactly with one spare byte of room |
| Base64.EncodeLength | src/base64.c:7-35 | an encoding takes four characters for every three bytes begun, which decides whether it fits |
| Base64.EncodeText | src/base64.c:7-35 | the library's loop writes the encoding, or the whole groups that fit |
| Base64.EncodeWords | examples/ito-denwa/src/linephone.c:52-80 | the push-to-talk loop writes the encoding |
| Base64.DecodeText | src/base64.c:37-70 | the decoding loop answers as specified |
| Linephone.UploadReadsBack | examples/ito-denwa/src/linephone.c:24-80 | the uploaded text decodes to frames that cut back into the packets |
| Linephone.Accumulator.Append | examples/ito-denwa/src/linephone.c:24-40 | the packet is framed behind the others, or dropped whole when it does not fit |
| Linephone.Accumulator.Text | examples/ito-denwa/src/linephone.c:121-122 | the text uploaded is the encoding of the packets kept, framed |

## Left out

- Sockets, TLS, DTLS, SRTP, SCTP, signalling and SDP text, JSON, Opus, ONNX inference, PIO and display code: foreign calls or string plumbing; received bytes, digests and detections come in as inputs.
- `queue.c`, the UDP FIFO of `socket.c`, the LED blinker and the generic RTP codecs: they would only add easy members.
- Callbacks: `on_packet` is registered, and what it is handed is returned as a list.
- Sizes: `size_t` is unbounded, and AV1 units are shorter than 2^56 bytes, which the length reader can express.
- Av1EndToEnd.DeliversOnlyWholeUnitsInOrder: each arrival is within half the 16-bit number space of the window; farther apart, 16-bit numbers cannot tell order.
- Av1AnySender.AnySenderIsUnderstood: OBUs that arrive with a size field are passed on as they are, as in the source; that the size is right is not looked at.
- H264.StreamArrives: units that are all zeros (the trimming loop runs off their front), and packets lost or reordered, for which the source promises nothing.
- H264Peer.Encoder.EncodeH264: streams with a unit that is all zeros, on which the trimming loop runs off the unit's front.
- H264Peer.Decoder.Decode: packets whose unit would overrun the static buffer.
- IcRing.ReceivedIsPrefixOfSent: one direction of the bus, in a sequentially consistent order, for which the source has its barriers.
- IcChannel.Channel.SendMsg: called where neither spin would spin; waiting and mutual blocking are left to the step machine, which promises no progress.
- TtsPlayback.SentIsPrefixOfPackets: one response, started with the play position at zero; the other core's end of playback, after which the next response may start, and header text are not modelled, and the ways a response can finish are one step taken at any time.
- TtsFails.FailsWhenItsBeginningIsVulnerable: a response none of whose beginnings that fit the buffer is vulnerable, though the whole is: whether the pump can still be made to give up at the right place depends on what it has shipped by then.
- TtsPlayer.Player.CheckComplete: the parsing of the headers; what they announce is given.
- TtsPlayer.Player.CompactLocked: what compaction promises about content is proved; it never gives back the gap between the write and the read offset.
- Stun.FinishedIsValid: how the long-term key is made, an MD5 of strings the writer also caches; it is one of the keys spoken of.
- StunMessage.Message.ParseBuf: no answer where the C parser would read past the buffer or write past a field.
- StunMessage.Message.WriteAttribute: attributes that do not fit, which the source writes past the buffer, and the strings it caches for the long-term key.
- StunMessage.Message.Close: the key is given, as above.
- StunMessage.Message.Check: messages longer than the buffer, which the source copies over its end; there is no answer for one so short that a length wraps around.
- IceAnswer.ConnectedExactlyWhenAuthenticated: sockets; datagrams longer than the message buffer, which the source copies over its end and the model takes for no answer, and the user names and transaction ids of responses, which the source does not look at.
- IceAgent.Agent.ConnectivityCheck: the bytes of the requests it sends, which `IceAnswer.BindingRequest` gives; priority and tie-breaker are parameters there.
- IceAgent.Agent.UpdateCandidatePairs: more pairs than the array holds, which the source writes past its end.
- AudioRing.QueuedWordsArePlayed: packing of samples into words, and sample-rate changes; pausing is the engine taking no step, and `audio_stop` and `audio_resume` do to the ring what a reset does. `audio_play_sine` and the other direct fills, which write the ring without moving the writer, are not modelled: after one, words that waited are gone.
- AudioOut.Stream.ResetStream: `memset` and `memcpy` clear words in ascending order, one access each.
- MooreFsm.MovesExactlyWhenConfirmed: scores are reals, and the scene and transition tables are parameters.
- Base64.DecodeText: texts of whole groups, and of the alphabet: a trailing partial group reads bytes the source never set, and for any other character it subtracts from a null pointer, where the model takes 63.
- Credentials.Store.Save: whether the flash could be taken is a parameter; erasing is not modelled.
