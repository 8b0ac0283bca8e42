# A verified model of the Inertial Sense SDK's byte protocols

A Dafny 4.11 model of the parts of the SDK that move bytes: the receive parser and packet encoder, the device logs, the
hex uploader of the ISB bootloader, and the XMODEM sender of the SAM-BA bootloader. `dafny verify dfyconfig.toml` checks
everything.

## What is modelled

**Receive parser** (`Protocols`, `Receiver`, `StreamScan`, `Surroundings`, `PortReads`, `Cursor`, `BitFields`, `Comm`). Six
recognisers share one buffer with five pointers. `Protocols` states each recogniser as a verdict on the bytes since the start
byte. `Receiver` is the parser as a state machine on values: the search loop, the restart after a rejected frame, compaction
and flush, error counting. `Comm` is the same parser as the library runs it, a class over an array with state numbers, size
field and the negative SPARTN countdown; each of its methods is proved to be the value-level step. The main theorem,
`PortReads.PacketsOfRun`, says that the packets do not depend on how a byte stream is cut into reads: they are those of
`StreamScan.Scan`, which tries the enabled recogniser at each position, goes past the frame on success and to the next byte
otherwise, as long as no read finds the buffer full of a frame in progress with more of the stream to come.
`PortReads.PacketsOfStream` names the streams for which that never happens.

**Frames** (`Frames`, `ByteFeed`, `Flushes`). The frames of all six protocols built from their parts; each recogniser accepts
exactly these, and headers whose size wraps. Fed byte by byte or in any portions, a stream of such frames comes out frame by
frame. `Flushes` shows that the longest frame for which this holds, however the reads fall, is one byte longer than two
thirds of the buffer.

**Encoder** (`Encoder`). Headers with their own checksum, written to a buffer or offered to a port piece by piece. Any list
of data messages comes back from a parser fed byte by byte, each on the last byte of its frame, and from a parser fed in
arbitrary portions.

**Checksums** (`Fletcher`, `Gf2`, `Crc24`, `Crc24Polynomial`, `Crc16`). The Fletcher sum of ISB and UBX frames (modulo 256),
CRC-24Q of RTCM3 frames and CRC-16 of XMODEM. `Gf2` is the arithmetic of polynomials over GF(2) in which both CRCs are shown
to be remainders.

**Logs** (`DataChunk`, `DeviceLog`, `SerialLog`, `RawLog`, `RawOffset`, `CsvLog`). A bounded chunk spilled to files that
rotate, and read back. Files are ideal: a write appends, a read returns the next bytes, and the reader finds them in their
order of creation. `RawOffset` says which packets the raw log's reader gets wrong.

**Hex upload** (`HexImage`, `HexUpload`, `HexLayout`, `HexWire`, `HexOutcome`, `HexPlan`, `HexUploader`, `HexVerify`). Intel
HEX lines become page selects and records of at most 255 bytes. `HexImage` says what a page should hold, address by address.
`HexUpload` is the uploader as a function of the file and the device's answers; `HexUploader` is the same as it runs, with
its loops over an output buffer of 2048 characters, each method proved to be that function. `HexLayout` says what the records
of an upload add up to, `HexWire` what the device has to answer and what goes out to it, `HexOutcome` which files succeed,
which fail and which overrun the buffer, and `HexPlan` which answers a file needs of the device. `HexVerify` reads the flash
back.

**XMODEM** (`Xmodem`). The sender against an arbitrary sequence of answers.

Standards: RTCM 10403 section 4 (transport layer and CRC-24Q), the u-blox F9 interface description sections 3.2 and 3.4, NMEA
0183 section 5, and the Intel Hexadecimal Object File Format Specification, Rev. A, for the Data Record and the Extended
Linear Address Record.

## What the code does that its comments do not say

- The comment `head <= scan <= tail` (src/ISComm.h:529) has one exception: a checksum-valid ISB frame of an unusable type has
  already moved the head past itself when one extra byte is skipped. If it is the last thing received, and only then, the
  cursor stands one past the tail (`Receiver.StepPastTail`, `Receiver.ParsePastTail`, `Cursor.CursorPastTail`).
- NMEA: there is no case for state 2, so the byte after a carriage return ends the sentence whatever it is
  (`Frames.LineFeedNotNeeded`); state 3 is unreachable and its error is never counted (src/ISComm.c:424-455,
  `PortReads.LineFeedNeverMissed`).
- A data request with a payload shorter than two bytes has its size field read behind its frame, so its verdict depends on
  what lies there (`StreamScan.RequestVerdictIsOwn`), and the packets of a stream on how it is read (`Cursor.CutsMatter`).
- The 16-bit frame size wraps for payload sizes from 65528 on; a wrapped ISB frame has its checksum read far behind it. The
  memory behind the buffer is an arbitrary function in the model. These two are the only frames whose verdict depends on it
  (`Surroundings.SettledExactly`).
- The start byte of a protocol that is not enabled is skipped without a report (src/ISComm.c:974-979).
- With fewer than three bytes of buffer, a byte can be stored past its end (`Receiver.FreeMakesRoom`).
- A new data chunk's header says 34 until the first `Clear` (src/DataChunk.cpp:33), and a read without a header leaves the
  inverse size of an empty chunk (src/DataChunk.cpp:242-246).
- The raw log reader adds the packet's offset to a pointer that is already past it (src/DeviceLogRaw.cpp:271): the data of
  every packet comes back if and only if there is no offset or no data (`RawOffset.OffsetExactly`).
- The raw log reader copies a packet into 1024 bytes (src/DeviceLogRaw.cpp:270-272, src/ISComm.h:430-436), but only data packets
  are limited to that: a command may bring up to 2040. `RawLog.Outcome` has the value `Overrun` for a copy that goes on past
  the buffer, and reading ends there (`RawLog.ReadsWhatIsParsed`, `RawOffset.LongCommandOverruns`).
- A flush drops a frame in progress only if the frame is more than one byte longer than two thirds of the buffer
  (`Flushes.RoomExactly`), and then only if the reads fall so that the buffer is full before the frame is complete.
- The gap check of the uploader counts one character for each byte of a gap and the loop writes two
  (src/ISBootloaderISB.cpp:822-843); `HexUpload.Outcome` has the value `Stray` for a run that goes on past the buffer. Gaps of
  at most 512 bytes never come to that, and a gap of 513 can (`HexOutcome.GapBound`).
- More than 510 characters still buffered at a page or end record make the upload fail (src/ISBootloaderISB.cpp:552), also for
  a well-formed file on a device that acknowledges everything (`HexOutcome.LateFileFails`).
- A page fill that fails reports success (src/ISBootloaderISB.cpp:608-612): an upload that succeeds has sent the images if and
  only if every fill went through (`HexLayout.ImagesIffFills`), which is if and only if the device acknowledged everything that
  the file makes (`HexPlan.ImagesIffServed`); `HexOutcome.ShortFileIncomplete` is one that has not.
- The character that ends the last line of a download is kept from line to line (src/ISBootloaderISB.cpp:648, 703-745): a line
  cut off behind its address is accepted if the line before it ended well (`HexVerify.Verifier.Line`).

## Model

| member | source | states |
|---|---|---|
| Fletcher.ClosedForm | src/ISComm.c:98-108 | the two running sums equal the plain and the position-weighted sum of the bytes modulo 256, for every start value |
| Fletcher.SplitsOverConcatenation | src/ISComm.c:1132-1137 | a sum over a concatenation is the sum over the second part started from that of the first, which is what a precomputed header checksum relies on |
| Fletcher.DetectsOneByte | src/ISComm.c:98-108 | changing one byte, to any other value and anywhere, changes the checksum |
| Fletcher.DetectsAdjacentSwap | src/ISComm.c:98-108 | swapping two neighbouring bytes that differ changes the checksum |
| Comm.Comm.Checksum16 | src/ISComm.c:98-108 | the loop over the receive buffer computes the Fletcher sum of the bytes in memory |
| Crc24.TableIsDivision | src/ISComm.c:54-88 | every entry of the 256-word table is the register after eight steps of the bit-wise division of its index |
| Crc24.CrcIsDivision | src/ISComm.c:52-96 | for every message the table-driven CRC is the register of the bit-by-bit division of the message followed by 24 zero bits |
| Crc24Polynomial.CrcIsRemainder | src/ISComm.c:52-96 | a number is the remainder of message times x^24 by the generator 0x1864CFB over GF(2) if and only if it is the CRC |
| Crc24.CrcOfFrameIsZero | src/ISComm.c:612-615 | a message followed by its own CRC leaves residue zero |
| Crc24.CrcInjective | src/ISComm.c:90-94 | no two registers become equal by reading the same bytes |
| Crc24.CrcDetectsBurst | src/ISComm.c:52-96 | any change confined to three consecutive bytes changes the CRC, wherever it is and whatever surrounds it |
| Comm.Comm.Crc24Q | src/ISComm.c:90-95 | the loop over the receive buffer computes that CRC |
| BitFields.LengthField | src/ISComm.c:588 | bits 14 to 23 of an RTCM3 header spell the low two bits of its second byte and its third byte |
| BitFields.ThreeBytes | src/ISComm.c:615 | the 24 bits read back as a checksum are the three bytes, high byte first |
| Comm.Comm.GetBitsAsUInt32 | src/ISComm.c:129-137 | the bit loop returns the field as a number |
| Gf2.RemainderUnique | src/ISComm.c:52-96 | a polynomial has only one remainder below the degree of the divisor |
| Gf2.DivideIsRemainder | src/ISComm.c:52-96 | digit-by-digit division computes a remainder in the sense of polynomial division |
| StreamScan.ExactLength | src/ISComm.c:298-342 | from an undecided prefix every recogniser but NMEA reaches the end of a frame if and only if that is the length its header bits declare, never earlier and never later; a header whose 16-bit size wraps declares seven bytes |
| StreamScan.ExactIsb | src/ISComm.c:298-323 | the same for ISB frames: header, payload and checksum, or seven bytes |
| StreamScan.ExactUblox | src/ISComm.c:524-544 | the same for UBX frames |
| StreamScan.ExactRtcm3 | src/ISComm.c:587-607 | the same for RTCM3 frames |
| StreamScan.ExactSony | src/ISComm.c:697-728 | the same for Sony frames |
| StreamScan.ExactSpartn | src/ISComm.c:788-887 | the same for SPARTN frames: the negative countdown reaches zero at header, payload, checksum and authentication bytes as declared |
| StreamScan.IsbChecksumOfFrame | src/ISComm.c:328-338 | for a frame of its declared length the checksum test compares the last two bytes with the sum of all others |
| StreamScan.SelfContainedVerdict | src/ISComm.c:315-415 | the verdict on a frame depends on its own bytes alone unless its size wraps or it is a data request without room for the size field |
| StreamScan.RequestVerdictIsOwn | src/ISComm.c:394-403 | the verdict on a checksum-valid data request is the same whatever follows it in memory if and only if its payload has at least two bytes |
| Surroundings.SettledExactly | src/ISComm.c:298-415 | a verdict is the same whatever lies behind the frame if and only if the frame's size does not wrap and it is not a checksum-valid data request without room for the size field |
| Surroundings.WrappedDepends | src/ISComm.c:301-338 | for every ISB header whose size wraps there are two memories behind it in which it is judged differently |
| Cursor.CutsMatter | src/ISComm.c:394-403 | a data request without payload and two bytes of 255 are one packet when the request is read first, and none when all is read at once |
| Receiver.Init | src/ISComm.c:160-184 | a fresh receiver has its pointers at the start, no packets and no errors counted, a buffer of zeros, and an error already noted |
| Receiver.StepValid | src/ISComm.c:967-999 | every turn of the loop keeps start <= head <= tail <= end and head <= scan <= tail + 1, with scan = tail + 1 only with nothing in progress and head = tail, and decreases (restart position, parsing, bytes left) lexicographically |
| Receiver.StepPastTail | src/ISComm.c:967-999 | a turn of the loop leaves the cursor past the tail if and only if the last byte received ends a checksum-valid ISB frame of an unusable type |
| Receiver.ParsePastTail | src/ISComm.c:952-1009 | a parse call leaves the cursor past the tail if and only if it reports an unusable type and has used up all bytes |
| Cursor.CursorPastTail | src/ISComm.c:325-416 | a fresh receiver that reads any one such frame ends with the cursor one past the tail |
| Receiver.HandleValid | src/ISComm.c:274-891 | the four outcomes of a handler: nothing changes, the head moves past the frame, the search restarts at the old head, or one byte past a checksum-valid frame of bad type |
| Receiver.DeliverValid | src/ISComm.c:253-272 | a delivered packet moves the head behind the byte under the cursor, ends the error state and counts one packet |
| Receiver.ReportCounted | src/ISComm.c:233-244 | errors and packets stay in step when an error is reported |
| Receiver.InitSound | src/ISComm.c:160-184 | a fresh receiver satisfies the invariant of all reachable states |
| Receiver.StepSound | src/ISComm.c:967-999 | every turn of the loop keeps that invariant: pointers, error counts bounded by packets and adding up by type, no missing line feed among them, and every prefix of a frame in progress undecided |
| Receiver.ParseSound | src/ISComm.c:952-1009 | a parse call at any time keeps the invariant, and reports nothing only when every byte has been looked at |
| Receiver.TurnsQuadratic | src/ISComm.c:967-999 | although the cursor moves back, one parse call takes at most (n + 2)^2 + n + 1 turns for n bytes kept |
| Receiver.Timeout | src/ISComm.c:954-965 | giving up a candidate that waited too long leaves the pointers in order |
| Receiver.FreeCompacts | src/ISComm.c:925-934 | compaction keeps the bytes from head to tail and the cursor's place among them, and frees exactly head bytes |
| Receiver.FreeSound | src/ISComm.c:905-938 | making room keeps the invariant, by compaction or by flush |
| Receiver.AppendSound | src/ISComm.c:945-947 | bytes stored behind the tail keep the invariant and are appended to the bytes kept |
| Receiver.FreeMakesRoom | src/ISComm.c:940-947 | in every sound state there is room for a byte after making room if and only if the buffer has at least three bytes |
| Receiver.FlushSparesShortFrames | src/ISComm.c:913-924 | a pending frame that needs at most size - size/3 + 1 bytes is never discarded by a flush |
| StreamScan.DeliveredEvent | src/ISComm.c:340-369 | the packet fields left behind by an accepted frame are those read off the frame's bytes |
| StreamScan.StepScans | src/ISComm.c:967-999 | a turn of the loop reports exactly what the plain scan of the stream finds at that place |
| StreamScan.LoopScans | src/ISComm.c:967-999 | so does the loop up to its first report |
| StreamScan.ParseScans | src/ISComm.c:952-1009 | a parse call accounts for the packets of the scan between its start and its end position |
| PortReads.ParseProgress | src/ISComm.c:1011-1054 | parse calls that report something decrease a measure, so parsing until nothing is found ends |
| PortReads.DrainScans | src/ISComm.c:1011-1054 | parsing until nothing is found reports all packets the scan finds in the bytes received |
| PortReads.FreeScans | src/ISComm.c:905-938 | making room loses nothing the scan has still to find, unless it throws away a frame in progress |
| PortReads.PortReadScans | src/ISComm.c:1070-1087 | one read of any size reports the packets the scan finds in the bytes it brings in, unless it throws away a frame in progress with more of the stream to come |
| PortReads.PacketsOfRun | src/ISComm.c:905-1087 | for every byte stream and every sequence of reads of which none throws away a frame in progress while the port still has bytes, a fresh receiver reports a prefix of the packets of a plain recursive scan of the whole stream, and all of them once every byte is read; as many reads of a byte or more as there are bytes read every byte |
| PortReads.RoomyNeverFlushes | src/ISComm.c:905-938 | no read of such a stream throws away a frame if its frames are short enough, or if the whole stream fits the buffer |
| PortReads.PacketsOfStream | src/ISComm.c:952-1087 | for every stream whose frames need at most size - size/3 + 1 bytes, or that fits the buffer as a whole, and every way of cutting it into reads, a fresh receiver reports a prefix of the packets of the plain scan, and all of them once every byte is read |
| PortReads.EnoughReads | src/ISComm.c:905-950 | from every sound state and for every stream, as many reads of a byte or more as there are bytes take the whole stream |
| PortReads.LineFeedNeverMissed | src/ISComm.c:424-455 | the error for a sentence without its line feed is never counted, whatever is read |
| Flushes.RoomExactly | src/ISComm.c:905-938 | streams whose frames need at most n bytes are read as the plain scan has them, however they are cut into reads, if and only if n is at most size - size/3 + 1, as soon as an enabled protocol has a frame of the next length |
| Flushes.AnyLength | src/ISComm.c:274-751 | ISB, UBX, RTCM3 and Sony have frames of every length between their limits |
| Flushes.LateFrameDropped | src/ISComm.c:913-924 | a frame of one byte more, late in a full buffer and with its last byte in a read of its own, is dropped |
| Flushes.LateScanned | src/ISComm.c:967-999 | the plain scan of that stream finds the frame |
| Comm.ReadPortions | src/ISComm.c:1070-1087 | reads on the imperative receiver, one after the other, are the reads of the value-level machine |
| Comm.ReadStream | src/ISComm.c:1070-1087 | the imperative receiver fed in any portions reports the packets of the plain scan, under the condition of `PortReads.PacketsOfRun`, which streams with room for each frame meet |
| Comm.Comm.constructor | src/ISComm.c:160-184 | the object starts as the fresh value-level receiver |
| Comm.Comm.ResetParser | src/ISComm.h:965-971 | the cursor goes back to the head and the candidate is dropped |
| Comm.Comm.ReportParseError | src/ISComm.c:233-244 | only the first error after a packet is counted, by type, and reported |
| Comm.Comm.ParseErrorResetState | src/ISComm.c:246-250 | reset, then report |
| Comm.Comm.ValidPacketReset | src/ISComm.c:253-259 | the head moves past the packet and the error state ends |
| Comm.Comm.ValidPacketFound | src/ISComm.c:261-272 | the packet fields of a packet that is handed over whole |
| Comm.Comm.ProcessIsbPkt | src/ISComm.c:274-326 | the ISB state machine gives the verdict of the stateless recogniser and stays in step with the bytes seen |
| Comm.Comm.CheckIsbPkt | src/ISComm.c:328-338 | checksum of the frame against the two bytes where the header puts it, in the buffer or behind it |
| Comm.Comm.PublishIsbPkt | src/ISComm.c:340-371 | the packet fields, with the payload size overwritten by the data size when there is an offset |
| Comm.Comm.SortIsbPkt | src/ISComm.c:373-412 | what a packet of each type is, and the answer owed to its sender |
| Comm.Comm.FinishIsbPkt | src/ISComm.c:325-416 | a whole frame is rejected, delivered, or delivered and then rejected for its type |
| Comm.Comm.ProcessNmeaPkt | src/ISComm.c:418-455 | the NMEA state machine gives the stateless verdict: the byte after a carriage return ends the sentence whatever it is |
| Comm.Comm.CheckNmeaPkt | src/ISComm.c:467-480 | two hex characters against the exclusive or of the sentence; the byte overwritten for the conversion is restored |
| Comm.Comm.ProcessUbloxPkt | src/ISComm.c:498-547 | the UBX state machine gives the stateless verdict |
| Comm.Comm.CheckUbloxPkt | src/ISComm.c:549-559 | the last two bytes against the Fletcher sum from the third byte on |
| Comm.Comm.ProcessRtcm3Pkt | src/ISComm.c:568-610 | the RTCM3 state machine gives the stateless verdict |
| Comm.Comm.ReadRtcm3Size | src/ISComm.c:588 | the frame size from the ten length bits |
| Comm.Comm.CheckRtcm3Pkt | src/ISComm.c:612-621 | the CRC-24Q of the frame against its last three bytes |
| Comm.Comm.ProcessSonyByte | src/ISComm.c:681-731 | the Sony state machine gives the stateless verdict |
| Comm.Comm.CheckSonyData | src/ISComm.c:733-744 | the byte sum of the data against the last byte |
| Comm.Comm.ProcessSpartnByte | src/ISComm.c:753-891 | the SPARTN state machine, with its negative countdown, gives the stateless verdict |
| Comm.Comm.SpartnHeaderByte | src/ISComm.c:788-864 | the bytes in which the header may end set up the countdown of payload, checksum and authentication bytes |
| Comm.Comm.SpartnBodyByte | src/ISComm.c:867-887 | the countdown accepts the frame at its last byte |
| Comm.Comm.SetParserStart | src/ISComm.c:225-231 | a start byte makes a candidate in state 1 without passing the byte to the handler |
| Comm.Comm.Turn | src/ISComm.c:967-999 | one turn of the loop is one step of the value-level machine |
| Comm.Comm.Search | src/ISComm.c:969-984 | the search for a start byte, with the skip of disabled protocols and the report of unparsable bytes |
| Comm.Comm.ParseTimeout | src/ISComm.c:952-1009 | a parse call, loop included, is the value-level parse call |
| Comm.Comm.Free | src/ISComm.c:905-938 | returns the free bytes after a flush or a shift, which it carries out on the array |
| Comm.Comm.Compact | src/ISComm.c:925-934 | the shift on the array is the value-level compaction |
| Comm.Comm.ParseByteTimeout | src/ISComm.c:940-950 | one byte stored and parsed is the value-level step, where there is room for it |
| Comm.Comm.ParseMessages | src/ISComm.c:1011-1054 | all reports of repeated parse calls, each packet as its handler sees it |
| Comm.Comm.PortParseMessages | src/ISComm.c:1070-1087 | one read from a port |
| ByteFeed.FeedSplits | src/ISComm.c:940-950 | feeding a concatenation byte by byte continues where the first part stopped |
| ByteFeed.FrameFed | src/ISComm.c:940-1009 | any frame that its recogniser accepts and that a flush spares, fed byte by byte to an idle receiver, is reported by the call for its last byte and by none before, and leaves the receiver idle |
| ByteFeed.StreamFed | src/ISComm.c:940-1009 | frames of any protocols one behind the other, fed byte by byte to an idle receiver, are each reported by the call for their last byte, and no other call reports anything |
| ByteFeed.StreamInPortions | src/ISComm.c:1011-1087 | read in any portions, such frames come out in order, each once |
| Frames.AcceptsExactlyFrames | src/ISComm.c:274-891 | every recogniser stays undecided through a frame of its protocol and accepts it at its last byte, and accepts nothing else but ISB and UBX headers whose size wraps; frames are built from their parts |
| Frames.IsbExactly | src/ISComm.c:274-416 | exactly preamble, flags, identifier, size, payload and the Fletcher sum of these, up to 2048 bytes and of a usable type, and seven bytes with a size that wraps and a checksum that agrees with the memory it points to, whatever that memory is |
| Frames.UbloxExactly | src/ISComm.c:498-566 | exactly preamble, class, identifier, size, payload and the Fletcher sum from the class on, and seven bytes with a size that wraps whose last two are the sum of the three before |
| Frames.Rtcm3Exactly | src/ISComm.c:568-627 | exactly preamble, reserved bits, ten bits of length, payload and the CRC-24Q of these, up to 1023 bytes and six less than the buffer |
| Frames.SonyExactly | src/ISComm.c:681-751 | exactly start byte, size, operation, their byte sum, data and its byte sum, up to 4090 bytes of data |
| Frames.NmeaExactly | src/ISComm.c:418-487 | exactly dollar sign, body, any character, two hex characters that give the exclusive or of the body, carriage return and any byte, in 8 to 203 bytes |
| Frames.LineFeedNotNeeded | src/ISComm.c:424-480 | a sentence with a right checksum is accepted with any byte in the place of its line feed |
| Frames.SpartnExactly | src/ISComm.c:753-891 | exactly the bytes of the length that a header with the right CRC declares |
| Frames.FrameIsWhole | src/ISComm.c:905-1009 | a frame of an enabled protocol that takes at most size - size/3 + 1 bytes is one for the two theorems about feeding |
| Frames.EncodedIsIsbFrame | src/ISComm.c:1113-1170 | the encoder builds ISB frames |
| Encoder.TxPacket.EncodeHdr | src/ISComm.c:1113-1138 | header fields in their widths, the offset flag, the packet size, and the checksum of header and offset |
| Encoder.Transmitter.WriteToBuffer | src/ISComm.c:1140-1170 | the buffer then begins with the frame and is otherwise untouched, or nothing is written if the stated size does not fit |
| Encoder.Transmitter.WriteToPort | src/ISComm.c:1172-1200 | the port is offered exactly the same frame whatever it answers; success if and only if its answers add up to the packet size |
| Encoder.Transmitter.Write | src/ISComm.c:1221-1233 | encode and write, or fail without a port |
| Encoder.Sums | src/ISComm.c:1132-1137 | the header checksum continued over the data is one sum over the frame |
| Encoder.FrameFields | src/ISComm.c:1113-1170 | where the fields of an encoded frame are, and that its checksum is right |
| Encoder.RoundTrip | src/ISComm.c:274-416 | a DATA or SET_DATA message of any 16-bit arguments comes back with its identifier, offset, data and acknowledgement if and only if the identifier fits a byte, the data is at most 1024 bytes, and flag 0x20 is not set without an offset |
| Encoder.EmptyChecksum | src/ISComm.c:98-108 | the checksum of a data packet without data is never zero |
| Encoder.FedBack | src/ISComm.c:940-1009 | any list of such messages, encoded, concatenated and fed byte by byte to an idle receiver, gives nothing on every inner byte and each message on its frame's last byte |
| Encoder.FreshParser | src/ISComm.c:940-1009 | the same for a fresh parser with a 2048-byte buffer |
| Encoder.AnyPortions | src/ISComm.c:1070-1200 | the encoded stream read in any portions gives the messages back as sent, in order, each once, and all of them after enough reads |
| Encoder.Exchange | src/ISComm.c:1070-1233 | the writer and the receiver as methods: what a port was offered, read in any portions, are the messages sent |
| DataChunk.DataChunk.constructor | src/DataChunk.cpp:21-48 | nothing is in a new chunk, but its header says 34 |
| DataChunk.DataChunk.Clear | src/DataChunk.cpp:134-145 | an empty chunk with a header that says so |
| DataChunk.DataChunk.PushBack | src/DataChunk.cpp:83-106 | both pieces appended and counted in the header, modulo 2^32 and twice, or nothing if they do not fit; a header that described the data still does |
| DataChunk.DataChunk.PopFront | src/DataChunk.cpp:115-131 | bytes off the front, or an empty chunk if there are fewer |
| DataChunk.DataChunk.WriteToFile | src/DataChunk.cpp:148-191 | the file grows by the data, behind a header that describes it where one is asked for, and the chunk is empty |
| DataChunk.DataChunk.ReadFromFile | src/DataChunk.cpp:195-296 | with headers: the data of the next whole chunk, or failure if there is none; without: as many bytes as fit, leaving the inverse size of an empty chunk in the header |
| DataChunk.HeaderRoundTrip | src/DataChunk.h:44-75 | the 40 header bytes decode to the header they encode |
| DataChunk.ChunkComesFirst | src/DataChunk.cpp:205-240 | a chunk in front of anything is the one that is read |
| DeviceLog.DeviceLog.OpenNewSaveFile | src/DeviceLog.cpp:154-193 | a new empty file after the one in use, if a directory and a serial number are known |
| DeviceLog.DeviceLog.OpenNextReadFile | src/DeviceLog.cpp:195-223 | the files in their order, each from its start, until there are no more |
| SerialLog.SerialLog.SaveData | src/DeviceLogSerial.cpp:82-127 | a record is added behind all others or nothing is lost; exactly when it fails; a file is closed only at its size limit |
| SerialLog.SerialLog.WriteChunkToFile | src/DeviceLogSerial.cpp:130-156 | the records of the chunk move to the file in use, or a new one, in whole chunks |
| SerialLog.SerialLog.CloseAllFiles | src/DeviceLogSerial.cpp:56-79 | everything saved is in files |
| SerialLog.SerialLog.ReadDataFromChunk | src/DeviceLogSerial.cpp:176-189 | the first record of the chunk, as header and data |
| SerialLog.SerialLog.ReadChunkFromFile | src/DeviceLogSerial.cpp:192-201 | the next chunk, from file to file, until nothing is left |
| SerialLog.SerialLog.ReadData | src/DeviceLogSerial.cpp:159-173 | the next record of the log, or nothing at its end; the read loops end |
| SerialLog.FileGrows | src/DeviceLogSerial.cpp:130-156 | a chunk behind a file of whole chunks gives a file of whole chunks: no record straddles one |
| SerialLog.ReadAll | src/DeviceLogSerial.cpp:159-201 | reading to the end returns every record once, in order |
| SerialLog.SaveAndReadBack | src/DeviceLogSerial.cpp:56-201 | records saved through any number of chunks and files, then read back, are the records saved, in order; all of them if each fits a chunk |
| RawLog.RawLog.SaveData | src/DeviceLogRaw.cpp:87-172 | the bytes are added behind all saved, in chunk and files together, or nothing is lost; they are parsed as well |
| RawLog.RawLog.WriteChunkToFile | src/DeviceLogRaw.cpp:175-206 | the bytes of the chunk move to the file in use, or a new one |
| RawLog.RawLog.CloseAllFiles | src/DeviceLogRaw.cpp:59-84 | everything saved is in files, in order |
| RawLog.RawLog.ReadDataFromChunk | src/DeviceLogRaw.cpp:227-278 | the chunk is parsed byte by byte up to the next data or command packet |
| RawLog.RawLog.PacketData | src/DeviceLogRaw.cpp:270-272 | the packet handed over, its data copied from the packet's data moved up by the offset, or an overrun if it is longer than 1024 bytes |
| RawLog.RawLog.ReadChunkFromFile | src/DeviceLogRaw.cpp:281-293 | the next bytes, from file to file, until nothing is left |
| RawLog.RawLog.ReadData | src/DeviceLogRaw.cpp:209-224 | the next packet of the bytes left, whatever chunks and files they lie in, or an overrun, or nothing at their end |
| RawLog.ReadsWhatIsParsed | src/DeviceLogRaw.cpp:209-278 | reading stays inside its buffer if and only if no data or command packet that parsing the byte string yields has more than 1024 bytes; then it hands over exactly these packets, otherwise those before the first longer one; the data agrees for packets without an offset |
| RawLog.ToIsbPDataAgrees | src/ISComm.h:977-983 | the library's own accessor gives identifier, size, offset and data of every ISB packet, offset or not |
| RawLog.SaveAndReadBack | src/DeviceLogRaw.cpp:59-293 | bytes saved in any pieces through any number of chunks and files are read back as the packets of their concatenation, up to the first that overruns the reader's buffer |
| RawLog.MessagesComeBack | src/DeviceLogRaw.cpp:209-278 | encoded messages kept in a raw log are all read, in order, with identifier, size and offset as sent, and with their data if they have no offset |
| RawOffset.OffsetExactly | src/DeviceLogRaw.cpp:271 | every receiver between frames reads every message of a given offset and size as it was sent if and only if the offset or the size is zero |
| RawOffset.FreshLogs | src/DeviceLogRaw.cpp:270-272 | what a fresh reader hands over for a message with an offset: the bytes that lie as many bytes behind the data, in the frame, in the buffer or behind it |
| RawOffset.Misread | src/DeviceLogRaw.cpp:271 | for every offset and size a message whose first byte is 1 and whose byte at that distance is not, checksum bytes included |
| RawOffset.LongCommandOverruns | src/DeviceLogRaw.cpp:270-272 | a command frame with more than 1024 bytes of payload is received whole and overruns the reader's buffer |
| CsvLog.CsvWriter.SaveData | src/DeviceLogCSV.cpp:213-251 | the row gets the next number and goes to its data set's file; a new file exactly if none is open; the file is closed at its size limit |
| CsvLog.CsvWriter.OpenNewFile | src/DeviceLogCSV.cpp:102-185 | a new file for a data set that has a name |
| CsvLog.CsvReader.InitDeviceForReading | src/DeviceLogCSV.cpp:43-81 | each data set's first row is read ahead |
| CsvLog.CsvReader.ReadAhead | src/DeviceLogCSV.cpp:188-210 | the next row of a data set, from file to file; without one the data set is dropped |
| CsvLog.CsvReader.Lowest | src/DeviceLogCSV.cpp:262-281 | the data set whose row read ahead has the lowest number holds the first row not yet returned |
| CsvLog.CsvReader.ReadDataFromFile | src/DeviceLogCSV.cpp:290-313 | that row is taken, and given back if its cells can be converted |
| CsvLog.CsvReader.ReadData | src/DeviceLogCSV.cpp:254-287 | the first remaining row whose cells can be converted; the retries end |
| CsvLog.LowestIsFirst | src/DeviceLogCSV.cpp:262-274 | with rows numbered upwards, the lowest of the first rows of all data sets is the first of all |
| CsvLog.ReadAll | src/DeviceLogCSV.cpp:254-313 | reading to the end returns every convertible row once, in order |
| CsvLog.SaveAndReadBack | src/DeviceLogCSV.cpp:35-313 | rows of any data sets saved in any order, in files that rotate, come back each once and in the order saved |
| HexImage.FourDigits | src/ISBootloaderISB.cpp:812-814 | a four-digit address field is read as the number it spells |
| HexImage.LaidLength | src/ISBootloaderISB.cpp:818-859 | blocks laid one behind the other with filled gaps take exactly the bytes from the start of the page to their end |
| HexImage.ImageHolds | src/ISBootloaderISB.cpp:805-960 | the filled page holds each block's characters at its addresses and FF at every other address, to the end of the page |
| HexUpload.HashSplits | src/ISBootloaderISB.cpp:504-509 | the running hash over a concatenation continues from that of the first part |
| HexUpload.HashOf | src/ISBootloaderISB.cpp:505-509 | the loop computes the hash in 32-bit arithmetic |
| HexUpload.PairOfDigits | src/ISBootloaderISB.cpp:353-361 | two hex digits, upper or lower case, are summed as the byte they spell |
| HexUpload.Checksum | src/ISBootloaderISB.cpp:347-368 | the loop sums the bytes spelled by pairs of characters |
| HexUpload.RecordSumsToZero | src/ISBootloaderISB.cpp:486-514 | the bytes of every record sent, its checksum included, add up to zero modulo 256 |
| HexUpload.AddressRoundTrip | src/ISBootloaderISB.cpp:694-700 | the address in front of a line is read back as it was printed |
| HexUploader.Device.Transmit | src/ISBootloaderISB.cpp:486-537 | header and data once, then the checksum up to ten times until it is acknowledged, as `HexUpload.Transmit` has it |
| HexUploader.Device.Ask | src/ISBootloaderISB.cpp:410-449 | a command record with its checksum goes out and is acknowledged |
| HexUploader.Uploader.UploadHexPage | src/ISBootloaderISB.cpp:476-545 | an acknowledged record moves the offset, the byte count, the hash and the list of records; a failed one none of them |
| HexUploader.Uploader.UploadHex | src/ISBootloaderISB.cpp:548-585 | the first characters of the buffer are sent, across a page end if need be; a last odd one is dropped |
| HexUploader.Uploader.FillCurrentPage | src/ISBootloaderISB.cpp:587-617 | the loop fills the rest of the page, and returns without a word when a record fails |
| HexUploader.Uploader.Pad | src/ISBootloaderISB.cpp:818-843 | the gap is filled; when the check refuses it, and when the loop writes past the buffer although the check passed |
| HexUploader.Uploader.SendFull | src/ISBootloaderISB.cpp:863-894 | one record goes out and the rest moves to the front of the buffer, in order |
| HexUploader.Uploader.ProcessData | src/ISBootloaderISB.cpp:805-894 | a data line on the array is the data line of the value-level uploader |
| HexUploader.Uploader.ProcessPage | src/ISBootloaderISB.cpp:896-945 | the page before is completed and filled, the next one selected and begun |
| HexUploader.Uploader.ProcessHexFile | src/ISBootloaderISB.cpp:786-993 | the loop over the lines has the state, the outcome and the fills of the value-level run |
| HexLayout.RecordTidy | src/ISBootloaderISB.cpp:476-545 | an acknowledged record extends the page, the byte count and the hash; a failed one leaves them as they are |
| HexLayout.UploadTidy | src/ISBootloaderISB.cpp:548-585 | what is sent grows by the first characters of the buffer, in records that start where the last ended |
| HexLayout.FillTidy | src/ISBootloaderISB.cpp:587-617 | a fill sends FF up to the end of the page if every record goes through, and stops short of it otherwise |
| HexLayout.DataTidy | src/ISBootloaderISB.cpp:805-894 | what has been sent and what is buffered together grow by the gap and the line, and at most 1024 characters stay buffered |
| HexLayout.FinishFollows | src/ISBootloaderISB.cpp:896-960 | a finished page is its image if its fill went through, and too short otherwise |
| HexLayout.ProcessFollows | src/ISBootloaderISB.cpp:786-993 | at every line of a well-formed file the records sent and the characters buffered are the blocks laid out so far |
| HexLayout.ImagesIffFills | src/ISBootloaderISB.cpp:786-993 | when the upload of a well-formed file succeeds, the records of each page, each of at most 255 bytes and starting where the last ended, add up to the page's image if and only if every fill went through; the hash is that of all characters sent, and the pages are selected in order |
| HexWire.InsistExactly | src/ISBootloaderISB.cpp:517-537 | the checksum is sent with success if and only if, within ten tries, every write goes through and a reply acknowledges |
| HexWire.TransmitExactly | src/ISBootloaderISB.cpp:486-537 | a record is sent with success if and only if the device takes header, data and checksum and acknowledges within ten tries |
| HexWire.FillExactly | src/ISBootloaderISB.cpp:587-617 | a fill goes through if and only if the device takes and acknowledges each of its records, one behind the other |
| HexWire.UploadIsSpoken | src/ISBootloaderISB.cpp:410-993 | a run that succeeds with every fill has put on the line the texts of its selects, begins and records in order, each record's checksum once to ten times, and nothing else |
| HexOutcome.OutcomeExactly | src/ISBootloaderISB.cpp:786-993 | on a device that acknowledges everything the outcome of a well-formed file is what its gaps and line lengths alone say |
| HexOutcome.UploadSucceeds | src/ISBootloaderISB.cpp:786-993 | a well-formed file whose lines, each with the gap before it, have at most 511 characters is uploaded to such a device; the lines used have a layout, and if it is closed the pages are their images |
| HexOutcome.LengthBound | src/ISBootloaderISB.cpp:548-960 | well-formed files whose lines, each with the gap before it, have at most N characters are always uploaded to such a device if and only if N is at most 511 |
| HexOutcome.FullFileFails | src/ISBootloaderISB.cpp:548-960 | a file of lines of 508, 512 and 512 characters, gaps counted in, that fails |
| HexOutcome.LateFileFails | src/ISBootloaderISB.cpp:548-554 | a well-formed file with 514 characters buffered at its end fails on such a device |
| HexOutcome.GapBound | src/ISBootloaderISB.cpp:818-843 | well-formed files with gaps of at most G bytes never write past the output buffer, whatever the device answers, if and only if G is at most 512 |
| HexOutcome.GapFileStrays | src/ISBootloaderISB.cpp:818-843 | a file with gaps of 257, 255 and 513 bytes that does |
| HexOutcome.ShortFileIncomplete | src/ISBootloaderISB.cpp:587-617 | a device that takes the first record only: the upload of a well-formed file succeeds and the page is not its image |
| HexPlan.RunExactly | src/ISBootloaderISB.cpp:476-993 | a well-formed file is uploaded with every fill if and only if its gaps and line lengths allow it and the device takes and acknowledges, in order and within ten tries each, every record and command that the file makes |
| HexPlan.ImagesIffServed | src/ISBootloaderISB.cpp:476-993 | when the upload of a well-formed file succeeds, the pages are their images if and only if the device did so |
| HexVerify.DumpLength | src/ISBootloaderISB.cpp:676-680 | an answer is as long as the read that waits for it: seven characters a line and two a byte |
| HexVerify.Verifier.Take | src/ISBootloaderISB.cpp:708-733 | a hex character goes into the count, the hash and, pair by pair, the file |
| HexVerify.Verifier.Line | src/ISBootloaderISB.cpp:683-752 | a printed line at the expected address is taken whole; one cut off behind its address is accepted if and only if the line before ended well |
| HexVerify.Verifier.Chunk | src/ISBootloaderISB.cpp:682-764 | every line of an answer is taken, and the offset moves by the bytes in it |
| HexVerify.Verifier.Page | src/ISBootloaderISB.cpp:658-765 | a page read in chunks of any size is taken once from start to end |
| HexVerify.VerifyImage | src/ISBootloaderISB.cpp:638-782 | against a device that returns what it stored, every byte from the start offset through the last page is visited exactly once for every chunk size, and the outcome is whether its hash is the expected one |
| HexVerify.LayoutOrdered | src/ISBootloaderISB.cpp:805-945 | in a well-formed file the blocks of every page are in order, apart and inside the page |
| HexVerify.UploadAndVerify | src/ISBootloaderISB.cpp:638-993 | an upload that succeeds with every fill is verified, for upper-case files and an honest device, and the file written by the verification is the image |
| Crc16.UpdateIsBring | src/ISBootloaderSAMBA.cpp:454-463 | one update of the register is one step of the division by the generator polynomial |
| Crc16.CrcByte | src/ISBootloaderSAMBA.cpp:472-477 | the mask loop brings in the eight bits of a byte, the most significant first |
| Crc16.Compute | src/ISBootloaderSAMBA.cpp:466-481 | the loops compute the division of the message followed by sixteen zero bits |
| Crc16.CrcIsRemainder | src/ISBootloaderSAMBA.cpp:454-481 | a number is the remainder of message times x^16 by 0x11021 over GF(2) if and only if it is the CRC |
| Crc16.CrcIsLinear | src/ISBootloaderSAMBA.cpp:454-481 | the CRC of the exclusive or of two messages of one length is the exclusive or of their CRCs |
| Crc16.ResidueIsZero | src/ISBootloaderSAMBA.cpp:466-481 | a message followed by its CRC, high byte first, has CRC zero |
| Xmodem.AwaitPing | src/ISBootloaderSAMBA.cpp:310-317 | answers are skipped up to the first C |
| Xmodem.SendBlock | src/ISBootloaderSAMBA.cpp:322-337 | the next block in the protocol's form: number and complement, payload filled with FF, CRC high byte first |
| Xmodem.WriteUartModem | src/ISBootloaderSAMBA.cpp:301-372 | for every sequence of answers, and whichever writes fail, each block is repeated unchanged until acknowledged; success means the acknowledged payloads are the padded data, numbered 1, 2, 3, ... modulo 256; it succeeds if and only if the writes and answers say so as stated |
| Xmodem.ReceivedInOrder | src/ISBootloaderSAMBA.cpp:345-357 | a receiver that keeps what it acknowledges has the beginning of the data, in numbered order, at every moment |
| Xmodem.BlockChecks | src/ISBootloaderSAMBA.cpp:326-331 | every block passes a receiver's checks: complement and zero residue |

## Left out

- PortReads.PacketsOfRun: asks that every frame the scan comes to is settled by its own bytes; the others are exactly those of `Surroundings.SettledExactly`, and with them the packets can depend on the reads (`Cursor.CutsMatter`). What is reported after a read has thrown away a frame in progress is not described.
- PortReads.PacketsOfStream: the same.
- Comm.ReadStream: the same.
- Flushes.RoomExactly: if no enabled protocol has a frame of size - size/3 + 2 bytes, only the bound itself is shown, not that it cannot be raised.
- ByteFeed.FrameFed: the same bound on the frame's length, and frames settled by their own bytes.
- StreamScan.ExactLength: NMEA sentences declare no length and are excluded.
- Encoder.Transmitter.WriteToBuffer: a size that wraps must not hide a frame longer than the buffer; the original would write past it.
- RawLog.ReadsWhatIsParsed: nothing is said of what is read after a packet that overruns the reader's buffer, because the original then writes into its parser.
- Comm.Comm.ParseByteTimeout: asks for room for the byte; the original writes past its buffer where there is none, which needs a buffer of fewer than three bytes.
- DataChunk.DataChunk.WriteToFile: files take every byte, a write that fails is not modelled; and a chunk is cleared before it is first written.
- DataChunk.DataChunk.ReadFromFile: a header must not promise more bytes than both the buffer and the file hold; the original would write past its buffer.
- SerialLog.SerialLog.ReadData: for files that a serial log wrote, not for damaged ones.
- SerialLog.SerialLog.ReadChunkFromFile: the same files.
- SerialLog.SerialLog.ReadDataFromChunk: chunks of whole records, as those files have them.
- CsvLog.CsvWriter.SaveData: not after a close.
- CsvLog.CsvWriter.OpenNewFile: not after a close.
- CsvLog.CsvWriter.CloseAllFiles: ends the writing; in the original a save after it counts the data set's files from one again and writes over the first.
- HexVerify.VerifyImage: a device that answers without data makes the original ask for ever; the model stops there.
- HexUploader.Uploader.ProcessHexFile: the file is a list of lines; the character loop that splits it is not modelled, and a line is assumed to hold no zero characters.
- Counters and file sizes are unbounded numbers; the parser's 16-bit size, 8- and 16-bit packet fields, 32-bit hashes and the 8-bit block number are not.
- Parser timeouts are in `Receiver.Timeout` and the invariant but not in the stream theorem, where time stands still.
- `getNmeaMsgId` and `RTCM3_MSG_ID` are arbitrary functions; `strtol` is defined directly.
- The overlaid packet structure is separate fields, keeping the payload size that is overwritten by the data size.
- The message dispatcher hands over every packet; its callbacks and what they answer are not modelled.
- `is_comm_buffer_parse_messages` with more bytes than fit: it drops the rest.
- Log statistics, serial numbers in chunk headers, file names (they repeat after 10000 files), directories, and failing writes.
- The 8192-character limit of a CSV line, the text of cells and headers: whether a row converts back is an arbitrary predicate.
- JSON and KML logs, display, unit conversion and data mapping tables.
- Serial ports, USB, sleeps, progress and cancel callbacks of the bootloaders; erase, version checks, mode switching; the DFU, STM32 and Sony bootloaders.
- The command text of a download during verification, and the answer to a page select there, beyond whether it is acknowledged.
