/** The receiver as the library runs it: one buffer, five pointers into it, and handlers that keep a state number. */
module Comm {
  import opened Bytes
  import opened Protocols
  import R = Receiver
  import S = StreamScan
  import P = PortReads
  import F = Fletcher
  import Crc24
  import Gf2
  import BitFields

  /** The state number and the stored size a handler holds after the bytes `w` of an undecided candidate. */
  predicate Tracks(p: Protocol, w: seq<byte>, state: int, size: nat) {
    && |w| >= 1 && StartOf(w[0]) == Some(p)
    && match p
       case Isb => if |w| == 1 then state == 1 else if |w| < 6 then state == 2 else state == 3 && size == FrameSize(w)
       case Nmea => state == if |w| > 1 && w[|w| - 1] == 13 then 2 else 1
       case Ublox => if |w| == 1 then state == 1 else if |w| < 6 then state == 2 else state == 3 && size == FrameSize(w)
       case Rtcm3 => if |w| < 3 then state == |w| else state == 3 && size == Rtcm3Size(w)
       case Sony => if |w| < 5 then state == 1 else state == 2 && size == SonyDataSize(w) + 6
       case Spartn =>
         if |w| < 8 || |w| < SpartnHeaderSize(w) then state == |w|
         else |w| < SpartnSize(w) && state == |w| - SpartnSize(w)
  }

  /** The bytes a recogniser sees are those in memory from the head on. */
  lemma SeenIsMemory(rx: R.Rx, n: nat)
    requires R.Valid(rx) && rx.scan < rx.tail
    ensures forall i: nat :: Seen(R.Window(rx), R.Ahead(rx))(i) == R.Memory(rx.mem, rx.cfg.outside, 0)(rx.head + i)
    ensures Slice(Seen(R.Window(rx), R.Ahead(rx)), 0, n) == Slice(R.Memory(rx.mem, rx.cfg.outside, rx.head), 0, n)
  {
  }

  /** The header settles the size of a SPARTN frame. */
  lemma SpartnPrefix(w: seq<byte>, k: nat)
    requires 5 <= k <= |w|
    ensures SpartnHeaderSize(w[..k]) == SpartnHeaderSize(w)
    ensures k >= SpartnHeaderSize(w) ==> SpartnSize(w[..k]) == SpartnSize(w)
  {
  }

  /** What becomes of a whole ISB frame. */
  lemma IsbHandled(rx: R.Rx)
    requires R.Valid(rx) && rx.cand == Some(Isb) && rx.scan < rx.tail
    requires |R.Window(rx)| >= 7 && |R.Window(rx)| >= FrameSize(R.Window(rx))
    ensures var w, ahead, next := R.Window(rx), R.Ahead(rx), R.Deliver(rx, Isb);
      && (!IsbChecksumOk(w, ahead) ==> R.Handle(rx) == R.ParseErrorReset(rx, InvalidChksum))
      && (IsbChecksumOk(w, ahead) && IsbTypeVerdict(w, ahead).Accept? ==>
           R.Handle(rx) == (next, IsbTypeVerdict(w, ahead).found))
      && (IsbChecksumOk(w, ahead) && IsbTypeVerdict(w, ahead) == BadType ==>
           R.Handle(rx) == R.ParseErrorReset(next, InvalidDatatype))
      && next.(ackNeeded := 0).(ackNeeded := AckFor(w)) == next && next.cand.None? && next.mem == rx.mem
      && |next.stats.byType| == R.ERROR_TYPES
      && next.pkt.flags == w[2] && next.pkt.dataSize == DataSize(w)
  {
    hide IsbChecksumOk, IsbTypeVerdict, StoredChecksum, AckFor;
  }

  class Comm {
    const cfg: Config
    const buf: array<byte>
    var head: nat
    var tail: nat
    var scan: nat
    var scanPrior: nat
    var processPkt: Option<Protocol>
    var state: int
    var size: nat
    var timeMs: nat
    var rxPktCount: nat
    var rxErrorCount: nat
    var rxErrorType: ParseError
    var rxErrorTypeCount: seq<nat>
    var rxErrorState: bool
    var ackNeeded: nat
    var rxPkt: R.Packet

    ghost function Model(): R.Rx
      reads this, buf
    {
      R.Rx(cfg, buf[..], head, tail, scan, scanPrior, processPkt, timeMs,
           R.Stats(rxPktCount, rxErrorCount, rxErrorType, rxErrorTypeCount), rxErrorState, ackNeeded, rxPkt)
    }

    ghost predicate Valid()
      reads this, buf
    {
      && R.Valid(Model())
      && (processPkt.Some? ==> Tracks(processPkt.value, buf[head..scan], state, size))
    }

    constructor (cfg: Config)
      ensures this.cfg == cfg && fresh(buf)
      ensures Valid() && Model() == R.Init(cfg)
    {
      this.cfg := cfg;
      buf := new byte[cfg.size](_ => 0);
      head, tail, scan, scanPrior := 0, 0, 0, 0;
      processPkt, state, size, timeMs := None, 0, 0, 0;
      rxPktCount, rxErrorCount, rxErrorType := 0, 0, InvalidPreamble;
      rxErrorTypeCount := R.Init(cfg).stats.byType;
      rxErrorState := true;
      ackNeeded := 0;
      rxPkt := R.Packet(0, 0, 0, 0, 0, Some(0), 0, 0, 0, 0);
      new;
      assert buf[..] == R.Init(cfg).mem;
    }

    /** The byte at an address, in the buffer or behind it. */
    function At(i: nat): (b: byte)
      reads buf
      ensures b == R.Memory(buf[..], cfg.outside, 0)(i)
    {
      if i < buf.Length then buf[i] else cfg.outside(i)
    }

    // ----- helpers of the handlers ------------------------------------------------------------

    method ResetParser()
      modifies this
      ensures Model() == R.ResetParser(old(Model())) && state == 0
    {
      state := 0;
      scanPrior := scan;
      scan := head;
      processPkt := None;
    }

    method ReportParseError(errorType: ParseError) returns (found: Found)
      requires |rxErrorTypeCount| == R.ERROR_TYPES
      modifies this
      ensures (Model(), found) == R.Report(old(Model()), errorType) && state == old(state)
    {
      if !rxErrorState {
        rxErrorState := true;
        rxErrorCount := rxErrorCount + 1;
        rxErrorType := errorType;
        var i := R.ErrorIndex(errorType);
        rxErrorTypeCount := rxErrorTypeCount[i := rxErrorTypeCount[i] + 1];
        return ParseFailure;
      }
      return Nothing;
    }

    method ParseErrorResetState(errorType: ParseError) returns (found: Found)
      requires |rxErrorTypeCount| == R.ERROR_TYPES
      modifies this
      ensures (Model(), found) == R.ParseErrorReset(old(Model()), errorType)
    {
      ResetParser();
      found := ReportParseError(errorType);
    }

    /** The Fletcher sum of `n` bytes from address `from`, in the buffer or behind it. */
    method Checksum16(from: nat, n: nat) returns (r: F.Sums)
      ensures r == F.Fletcher16(F.ZERO, Slice(R.Memory(buf[..], cfg.outside, from), 0, n))
    {
      ghost var m := R.Memory(buf[..], cfg.outside, from);
      r := F.ZERO;
      for i := 0 to n
        invariant r == F.Fletcher16(F.ZERO, Slice(m, 0, i))
      {
        r := F.Add(r, At(from + i));
        assert Slice(m, 0, i + 1)[..i] == Slice(m, 0, i);
      }
    }

    method Crc24Q(from: nat, n: nat) returns (crc: bv24)
      requires from + n <= buf.Length
      ensures crc == Crc24.Crc(Octets(buf[from..from + n]))
    {
      crc := 0;
      for i := 0 to n
        invariant crc == Crc24.Crc(Octets(buf[from..from + i]))
      {
        hide Crc24.Step;
        crc := Crc24.Step(crc, buf[from + i] as bv8);
        ghost var o := Octets(buf[from..from + i + 1]);
        assert o[..i] == Octets(buf[from..from + i]);
      }
    }

    method Sum8(from: nat, n: nat) returns (sum: byte)
      requires from + n <= buf.Length
      ensures sum == F.Plain(buf[from..from + n]) % 256
    {
      sum := 0;
      for i := 0 to n
        invariant sum == F.Plain(buf[from..from + i]) % 256
      {
        F.PlainAppend(buf[from..from + i], buf[from + i]);
        assert buf[from..from + i + 1] == buf[from..from + i] + [buf[from + i]];
        sum := (sum + buf[from + i]) % 256;
      }
    }

    method XorBytes(from: nat, n: nat) returns (x: nat)
      requires from + n <= buf.Length
      ensures x == XorAll(buf[from..from + n])
    {
      x := 0;
      for i := 0 to n
        invariant x == XorAll(buf[from..from + i])
      {
        assert buf[from..from + i + 1][..i] == buf[from..from + i];
        x := Gf2.Xor(x, buf[from + i]);
      }
    }

    /** A packet ends under the cursor: step past it and forget the candidate. */
    method ValidPacketReset(pktSize: nat)
      modifies this
      ensures Model() == old(Model()).(head := old(head) + pktSize, cand := None, errorState := false,
                                       stats := old(Model()).stats.(packets := old(rxPktCount) + 1))
      ensures state == old(state)
    {
      head := head + pktSize;
      rxPktCount := rxPktCount + 1;
      processPkt := None;
      rxErrorState := false;
    }

    method ValidPacketFound(pktSize: nat, dataSize: nat, id: nat)
      modifies this
      ensures Model() == old(Model()).(head := old(head) + pktSize, cand := None, errorState := false,
                                       stats := old(Model()).stats.(packets := old(rxPktCount) + 1),
                                       pkt := R.RawPacket(old(rxPkt), old(head), pktSize, dataSize, id))
    {
      rxPkt := rxPkt.(size := pktSize, ptr := Some(head), dataSize := dataSize, id := id, hdrId := 0, offset := 0);
      ValidPacketReset(pktSize);
    }

    // ----- the handlers: one call per byte after the start byte, which enters a handler in state 1 ----

    /** The candidate `p` is in progress and the cursor is on a byte received. */
    ghost predicate Handling(p: Protocol)
      reads this, buf
    {
      Valid() && processPkt == Some(p) && scan < tail
    }

    /** The candidate `p` is complete with the byte under the cursor. */
    ghost predicate AtEndOf(p: Protocol, shortest: nat)
      reads this, buf
    {
      R.Valid(Model()) && processPkt == Some(p) && scan < tail && |R.Window(Model())| >= shortest
    }

    method ProcessIsbPkt() returns (found: Found)
      requires Handling(Isb)
      modifies this
      ensures (Model(), found) == R.Handle(old(Model()))
      ensures processPkt.Some? ==> Tracks(Isb, buf[head..scan + 1], state, size)
    {
      hide IsbChecksumOk, IsbTypeVerdict, R.Deliver, R.Ahead;
      ghost var w := R.Window(Model());
      if state == 1 {
        if buf[scan] == 0x49 {
          state := 2;
          return Nothing;
        }
        found := ParseErrorResetState(InvalidPreamble);
        return;
      }
      if state == 2 {
        if scan - head < 5 {
          return Nothing;
        }
        state := 3;
        size := (8 + Le16(buf[head + 4], buf[head + 5])) % 0x10000;
        if size > MAX_ISB {
          found := ParseErrorResetState(InvalidSize);
          return;
        }
        return Nothing;
      }
      var numBytes := scan - head + 1;
      if numBytes < size {
        return Nothing;
      }
      state := 0;
      found := FinishIsbPkt();
    }

    /** The two bytes where the header says the checksum is. */
    method ReadIsbChecksum() returns (stored: nat)
      requires R.Valid(Model()) && scan < tail && |R.Window(Model())| >= 7
      ensures stored == StoredChecksum(R.Window(Model()), R.Ahead(Model()))
    {
      ghost var w := R.Window(Model());
      SeenIsMemory(Model(), 0);
      hide Seen, R.Ahead, R.Memory;
      assert buf[head + 4] == w[4] && buf[head + 5] == w[5];
      var payloadSize := Le16(buf[head + 4], buf[head + 5]);
      var payload := head + 6;
      stored := Le16(At(payload + payloadSize), At(payload + payloadSize + 1));
    }

    /** Compares the stored checksum with the one computed over the frame. */
    method CheckIsbPkt() returns (ok: bool, stored: nat)
      requires R.Valid(Model()) && scan < tail && |R.Window(Model())| >= 7 && size == FrameSize(R.Window(Model()))
      ensures ok == IsbChecksumOk(R.Window(Model()), R.Ahead(Model()))
      ensures stored == StoredChecksum(R.Window(Model()), R.Ahead(Model()))
    {
      hide StoredChecksum;
      stored := ReadIsbChecksum();
      SeenIsMemory(Model(), SummedBytes(R.Window(Model())));
      hide Seen, R.Ahead, R.Memory, F.Fletcher16, Slice;
      var computed := Checksum16(head, if size >= 2 then size - 2 else size + 0xFFFF_FFFE);
      ok := stored == computed.Word();
    }

    /** Steps past a valid frame and fills in the packet. */
    method PublishIsbPkt(stored: nat)
      requires R.Valid(Model()) && processPkt == Some(Isb) && scan < tail && |R.Window(Model())| >= 7
      requires size == FrameSize(R.Window(Model())) && stored == StoredChecksum(R.Window(Model()), R.Ahead(Model()))
      modifies this
      ensures Model() == R.Deliver(old(Model()), Isb).(ackNeeded := 0)
    {
      ghost var w := R.Window(Model());
      assert w[0] == buf[head] && w[1] == buf[head + 1] && w[2] == buf[head + 2] && w[3] == buf[head + 3]
          && w[4] == buf[head + 4] && w[5] == buf[head + 5] && w[6] == buf[head + 6];
      assert At(head + 7) == Seen(w, R.Ahead(Model()))(7);
      var payloadSize := Le16(buf[head + 4], buf[head + 5]);
      var payload := head + 6;
      var flags := buf[head + 2];
      var hasOffset := flags as int / 32 % 2 == 1;
      var dataSize := if hasOffset then (if payloadSize < 2 then 0 else payloadSize - 2) else payloadSize;
      rxPkt := R.Packet(
        Le16(buf[head], buf[head + 1]), flags, buf[head + 3],
        if hasOffset then dataSize else payloadSize,
        if hasOffset then Le16(buf[payload], At(payload + 1)) else 0,
        if dataSize == 0 then None else Some(if hasOffset then payload + 2 else payload),
        dataSize, stored, size, buf[head + 3]);
      ackNeeded := 0;
      ValidPacketReset(scan - head + 1);
    }

    /** The whole frame is there: check it, publish it and sort it by type. */
    method FinishIsbPkt() returns (found: Found)
      requires R.Valid(Model()) && processPkt == Some(Isb) && scan < tail && |R.Window(Model())| >= 7
      requires size == FrameSize(R.Window(Model())) <= |R.Window(Model())|
      modifies this
      ensures (Model(), found) == R.Handle(old(Model()))
      ensures processPkt.None?
    {
      ghost var rx := Model();
      ghost var w, ahead := R.Window(rx), R.Ahead(rx);
      SeenIsMemory(rx, 0);
      IsbHandled(rx);
      assert |rxErrorTypeCount| == R.ERROR_TYPES;
      hide R.Handle, R.Deliver, IsbChecksumOk, IsbTypeVerdict, Seen, R.Ahead, R.Memory, StoredChecksum, AckFor,
          DataSize, R.Valid;
      var payload := head + 6;
      var ok, stored := CheckIsbPkt();
      if !ok {
        found := ParseErrorResetState(InvalidChksum);
        return;
      }
      PublishIsbPkt(stored);
      found := SortIsbPkt(payload, w, ahead);
      if found == Nothing {
        found := ParseErrorResetState(InvalidDatatype);
      }
    }

    /** What a valid frame of the current packet's type is; `Nothing` if the type or its size is unusable. */
    method SortIsbPkt(payload: nat, ghost w: seq<byte>, ghost ahead: nat -> byte) returns (found: Found)
      requires |w| >= 7 && rxPkt.flags == w[2] && rxPkt.dataSize == DataSize(w) && ackNeeded == 0
      requires At(payload + 2) == Seen(w, ahead)(8) && At(payload + 3) == Seen(w, ahead)(9)
      modifies this`ackNeeded
      ensures ackNeeded == AckFor(w)
      ensures IsbTypeVerdict(w, ahead) == if found == Nothing then BadType else Accept(found)
    {
      match rxPkt.flags % 16 {
        case 5 =>
          if rxPkt.dataSize <= MAX_DATASET {
            ackNeeded := 1;
            return IsbData;
          }
          ackNeeded := 2;
        case 4 =>
          if rxPkt.dataSize <= MAX_DATASET {
            return IsbData;
          }
          ackNeeded := 2;
        case 3 =>
          if Le16(At(payload + 2), At(payload + 3)) <= MAX_DATASET {
            return IsbCmd;
          }
        case 6 => return IsbCmd;
        case 7 => return IsbCmd;
        case 8 => return IsbCmd;
        case 1 => return IsbAck;
        case 2 => return IsbAck;
        case _ =>
      }
      found := Nothing;
    }

    method ProcessNmeaPkt() returns (found: Found)
      requires Handling(Nmea)
      modifies this, buf
      ensures (Model(), found) == R.Handle(old(Model()))
      ensures processPkt.Some? ==> Tracks(Nmea, buf[head..scan + 1], state, size)
    {
      ghost var w := R.Window(Model());
      hide XorAll, Strtol, R.Deliver, R.Ahead;
      assert w[..|w| - 1] == buf[head..scan];
      assert |w| > 2 ==> w[|w| - 2] == buf[head..scan][|w| - 2];
      if state == 1 {
        if buf[scan] == 13 {
          state := 2;
        } else {
          var numBytes := scan - head;
          if numBytes > 200 {
            found := ParseErrorResetState(InvalidSize);
            return;
          }
        }
        return Nothing;
      }
      // state 2: the byte after the carriage return, whatever it is
      state := 0;
      found := FinishNmeaPkt();
    }

    method FinishNmeaPkt() returns (found: Found)
      requires AtEndOf(Nmea, 2) && R.Window(Model())[|R.Window(Model())| - 2] == 13
      modifies this, buf
      ensures (Model(), found) == R.Handle(old(Model())) && processPkt.None?
    {
      hide XorAll, Strtol, R.Ahead;
      var numBytes := scan - head + 1;
      if numBytes < 8 {
        found := ParseErrorResetState(IncompletePacket);
        return;
      }
      var ok := CheckNmeaPkt();
      if !ok {
        found := ParseErrorResetState(InvalidChksum);
        return;
      }
      assert buf[head..scan + 1] == R.Window(Model());
      ValidPacketFound(numBytes, numBytes, cfg.nmeaId(buf[head..scan + 1]));
      return NmeaSentence;
    }

    /** Compares the two checksum characters with the exclusive or of the sentence. */
    method CheckNmeaPkt() returns (ok: bool)
      requires R.Valid(Model()) && scan < tail && |R.Window(Model())| >= 8
      modifies buf
      ensures Model() == old(Model())
      ensures var w := R.Window(Model()); ok == (Strtol(w[|w| - 4], w[|w| - 3]) == XorAll(w[1..|w| - 5]))
    {
      ghost var w, was := R.Window(Model()), buf[..];
      var tmp := buf[scan - 1];
      buf[scan - 1] := 0;  // terminates the hex string
      var msgChecksum := Strtol(buf[scan - 3], buf[scan - 2]);
      buf[scan - 1] := tmp;
      assert buf[..] == was;
      assert w[1..|w| - 5] == buf[head + 1..scan - 4];
      var calChecksum := XorBytes(head + 1, scan - head - 5);
      ok := msgChecksum == calChecksum;
    }

    method ProcessUbloxPkt() returns (found: Found)
      requires Handling(Ublox)
      modifies this
      ensures (Model(), found) == R.Handle(old(Model()))
      ensures processPkt.Some? ==> Tracks(Ublox, buf[head..scan + 1], state, size)
    {
      hide F.Fletcher16, R.Deliver, R.Ahead;
      ghost var w := R.Window(Model());
      if state == 1 {
        if buf[scan] == 0x62 {
          state := 2;
        } else {
          found := ParseErrorResetState(InvalidPreamble);
          return;
        }
        return Nothing;
      }
      if state == 2 {
        if scan - head < 5 {
          return Nothing;
        }
        size := (8 + Le16(buf[head + 4], buf[head + 5])) % 0x10000;
        state := 3;
        return Nothing;
      }
      if scan - head + 1 < size {
        return Nothing;
      }
      state := 0;
      found := FinishUbloxPkt();
    }

    method FinishUbloxPkt() returns (found: Found)
      requires AtEndOf(Ublox, 7) && size == FrameSize(R.Window(Model())) <= |R.Window(Model())|
      modifies this
      ensures (Model(), found) == R.Handle(old(Model())) && processPkt.None?
    {
      hide Le16, F.Fletcher16, R.Ahead;
      var ok := CheckUbloxPkt();
      if !ok {
        found := ParseErrorResetState(InvalidChksum);
        return;
      }
      assert R.Window(Model())[2] == buf[head + 2];
      ValidPacketFound(scan - head + 1, size, buf[head + 2]);
      return UbloxPacket;
    }

    method CheckUbloxPkt() returns (ok: bool)
      requires AtEndOf(Ublox, 7)
      ensures var w := R.Window(Model());
        ok == (Le16(w[|w| - 2], w[|w| - 1]) == F.Fletcher16(F.ZERO, w[2..|w| - 2]).Word())
    {
      ghost var w := R.Window(Model());
      var pktChecksum := Le16(buf[scan - 1], buf[scan]);
      var cksum := Checksum16(head + 2, scan - head - 3);
      assert Slice(R.Memory(buf[..], cfg.outside, head + 2), 0, scan - head - 3) == w[2..|w| - 2];
      ok := pktChecksum == cksum.Word();
    }

    method ProcessRtcm3Pkt() returns (found: Found)
      requires Handling(Rtcm3)
      modifies this
      ensures (Model(), found) == R.Handle(old(Model()))
      ensures processPkt.Some? ==> Tracks(Rtcm3, buf[head..scan + 1], state, size)
    {
      hide Rtcm3ChecksumOk, R.Deliver, R.Ahead;
      ghost var w := R.Window(Model());
      if state == 1 {
        state := 2;
        return Nothing;
      }
      if state == 2 {
        size := ReadRtcm3Size();
        state := 3;
        if size > MAX_RTCM || size > (if cfg.size >= 6 then cfg.size - 6 else cfg.size + 0xFFFF_FFFA) {
          found := ParseErrorResetState(IncompletePacket);
          return;
        }
        return Nothing;
      }
      if scan - head + 1 < size {
        return Nothing;
      }
      state := 0;
      found := FinishRtcm3Pkt();
    }

    /** The size of the frame: the length field, six bytes of header and checksum. */
    method ReadRtcm3Size() returns (n: nat)
      requires R.Valid(Model()) && scan < tail && |R.Window(Model())| >= 3
      ensures n == Rtcm3Size(R.Window(Model()))
    {
      ghost var w := R.Window(Model());
      assert buf[head..][1] == w[1] && buf[head..][2] == w[2];
      var length := GetBitsAsUInt32(head, 14, 10);
      BitFields.LengthField(buf[head..]);
      n := length + 6;
    }

    /** A bit field of the bytes from address `from` on. */
    method GetBitsAsUInt32(from: nat, pos: nat, len: nat) returns (bits: nat)
      requires from <= buf.Length && pos + len <= 8 * (buf.Length - from) && len <= 32
      ensures bits == BitFields.Field(buf[from..], pos, len)
    {
      bits := 0;
      for i := pos to pos + len
        invariant bits == BitFields.Field(buf[from..], pos, i - pos)
      {
        bits := 2 * bits + BitFields.BitOf(buf[from + i / 8], i % 8);
      }
    }

    method FinishRtcm3Pkt() returns (found: Found)
      requires AtEndOf(Rtcm3, 4) && size == Rtcm3Size(R.Window(Model())) <= |R.Window(Model())|
      modifies this
      ensures (Model(), found) == R.Handle(old(Model())) && processPkt.None?
    {
      hide Rtcm3ChecksumOk, R.Ahead;
      var ok := CheckRtcm3Pkt();
      if !ok {
        found := ParseErrorResetState(InvalidChksum);
        return;
      }
      assert buf[head..scan + 1] == R.Window(Model());
      ValidPacketFound(scan - head + 1, size, cfg.rtcmId(buf[head..scan + 1]));
      return Rtcm3Packet;
    }

    method ReadCrc24(from: nat) returns (crc: nat)
      requires from + 3 <= buf.Length
      ensures crc == BigEndian24(buf[from], buf[from + 1], buf[from + 2])
    {
      crc := GetBitsAsUInt32(from, 0, 24);
      BitFields.ThreeBytes(buf[from..]);
    }

    method CheckRtcm3Pkt() returns (ok: bool)
      requires AtEndOf(Rtcm3, 4) && size == Rtcm3Size(R.Window(Model())) <= |R.Window(Model())|
      ensures ok == Rtcm3ChecksumOk(R.Window(Model()))
    {
      hide Crc24.Crc, Octets, BigEndian24, Rtcm3Size;
      ghost var w := R.Window(Model());
      var k := size - 3;  // without the checksum
      var actualCrc := Crc24Q(head, k);
      SlicePrefix(buf[..], head, scan + 1, k);
      assert buf[..][head..head + k] == buf[head..head + k];
      assert buf[head + k] == w[k] && buf[head + k + 1] == w[k + 1] && buf[head + k + 2] == w[k + 2];
      var correctCrc := ReadCrc24(head + k);
      ok := actualCrc as int == correctCrc;
    }

    method ProcessSonyByte() returns (found: Found)
      requires Handling(Sony)
      modifies this
      ensures (Model(), found) == R.Handle(old(Model()))
      ensures processPkt.Some? ==> Tracks(Sony, buf[head..scan + 1], state, size)
    {
      hide R.Deliver, R.Ahead, F.Plain;
      ghost var w := R.Window(Model());
      if state == 1 {
        if scan - head < 4 {
          return Nothing;
        }
        var checksum := Sum8(head, 4);
        assert buf[head..head + 4] == w[..4];
        var dataSize := Le16(buf[head + 1], buf[head + 2]);
        if checksum != buf[head + 4] || dataSize > MAX_SONY || dataSize > cfg.size {
          found := ParseErrorResetState(InvalidPreamble);
          return;
        }
        size := dataSize + 6;
        state := 2;
        return Nothing;
      }
      if scan - head + 1 < size {
        return Nothing;
      }
      state := 0;
      found := FinishSonyByte();
    }

    method FinishSonyByte() returns (found: Found)
      requires AtEndOf(Sony, 6) && size == SonyDataSize(R.Window(Model())) + 6 <= |R.Window(Model())|
      modifies this
      ensures (Model(), found) == R.Handle(old(Model())) && processPkt.None?
    {
      hide F.Plain, R.Ahead, Le16;
      var ok := CheckSonyData();
      if !ok {
        found := ParseErrorResetState(InvalidChksum);
        return;
      }
      assert R.Window(Model())[3] == buf[head + 3];
      ValidPacketFound(scan - head + 1, size, buf[head + 3]);
      return SonyPacket;
    }

    method CheckSonyData() returns (ok: bool)
      requires AtEndOf(Sony, 6) && SonyDataSize(R.Window(Model())) + 6 <= |R.Window(Model())|
      ensures var w := R.Window(Model()); ok == (F.Plain(w[5..5 + SonyDataSize(w)]) % 256 == w[|w| - 1])
    {
      hide F.Plain;
      ghost var w := R.Window(Model());
      assert w[1] == buf[head + 1] && w[2] == buf[head + 2] && w[|w| - 1] == buf[scan];
      var dataSize := Le16(buf[head + 1], buf[head + 2]);
      var checksum := Sum8(head + 5, dataSize);
      assert buf[head + 5..head + 5 + dataSize] == w[5..5 + dataSize];
      ok := checksum == buf[scan];
    }

    method ProcessSpartnByte() returns (found: Found)
      requires Handling(Spartn)
      modifies this
      ensures (Model(), found) == R.Handle(old(Model()))
      ensures processPkt.Some? ==> Tracks(Spartn, buf[head..scan + 1], state, size)
    {
      hide R.Handle;
      if 1 <= state <= 6 {
        found := SpartnFirstBytes();
      } else if 7 <= state <= 11 {
        found := SpartnHeaderByte();
      } else {
        found := SpartnBodyByte();
      }
    }

    /** Up to the seventh byte: the fourth completes the length and the header CRC. */
    method SpartnFirstBytes() returns (found: Found)
      requires Handling(Spartn) && 1 <= state <= 6
      modifies this
      ensures (Model(), found) == R.Handle(old(Model()))
      ensures processPkt.Some? ==> Tracks(Spartn, buf[head..scan + 1], state, size)
    {
      hide R.Deliver, R.Ahead, Crc4, SpartnSize;
      ghost var w := R.Window(Model());
      if state == 3 {
        var dbuf := [buf[head + 1], buf[head + 2], buf[head + 3] / 16 * 16];
        var crc := Crc4(dbuf);
        assert dbuf == [w[1], w[2], w[3] / 16 * 16];
        if buf[head + 3] % 16 != crc {
          found := ParseErrorResetState(InvalidHeader);
          return;
        }
      }
      state := state + 1;
      return Nothing;
    }

    /** After the header the state counts up to zero. */
    method SpartnBodyByte() returns (found: Found)
      requires Handling(Spartn) && !(1 <= state <= 11)
      modifies this
      ensures (Model(), found) == R.Handle(old(Model()))
      ensures processPkt.Some? ==> Tracks(Spartn, buf[head..scan + 1], state, size)
    {
      ghost var w := R.Window(Model());
      SlicePrefix(buf[..], head, scan + 1, scan - head);
      SpartnPrefix(w, scan - head);
      hide R.Deliver, R.Ahead, SpartnSize, SpartnHeaderSize;
      state := state + 1;
      if state == 0 {
        found := FinishSpartn();
        return;
      }
      return Nothing;
    }

    /** A byte from the eighth on: once the header is complete, the state becomes minus the bytes still to come. */
    method SpartnHeaderByte() returns (found: Found)
      requires Handling(Spartn) && 7 <= state <= 11
      modifies this
      ensures found == Nothing && Model() == old(Model()) && (Model(), found) == R.Handle(Model())
      ensures Tracks(Spartn, buf[head..scan + 1], state, size)
    {
      hide R.Deliver, R.Ahead, Crc4, SpartnAuthentication, SpartnHeaderOk;
      ghost var w := R.Window(Model());
      var b1: int, b2: int, b3: int, b4: int := buf[head + 1], buf[head + 2], buf[head + 3], buf[head + 4];
      assert b1 == w[1] && b2 == w[2] && b3 == w[3] && b4 == w[4];
      var payloadLen := b1 % 2 * 512 + b2 * 2 + b3 / 128;
      payloadLen := payloadLen + b3 / 16 % 4 + 1;
      var extendedTs := b4 / 8 % 2 == 1;
      var encrypt := b3 / 64 % 2 == 1;
      var encryptPtr: nat;
      if extendedTs {
        if !encrypt && state == 9 {
          state := -payloadLen;
          return Nothing;
        } else if encrypt && state == 11 {
          encryptPtr := head + 10;
        } else {
          state := state + 1;
          return Nothing;
        }
      } else {
        if !encrypt && state == 7 {
          state := -payloadLen;
          return Nothing;
        } else if encrypt && state == 9 {
          encryptPtr := head + 8;
        } else {
          state := state + 1;
          return Nothing;
        }
      }
      payloadLen := payloadLen + SpartnAuthentication(buf[encryptPtr + 1]);
      state := -payloadLen;
      return Nothing;
    }

    method FinishSpartn() returns (found: Found)
      requires AtEndOf(Spartn, 9) && |R.Window(Model())| > SpartnHeaderSize(R.Window(Model()))
      requires |R.Window(Model())| == SpartnSize(R.Window(Model()))
      modifies this
      ensures (Model(), found) == R.Handle(old(Model())) && processPkt.None?
    {
      hide SpartnHeaderSize, SpartnSize, R.Ahead;
      var numBytes := scan - head + 1;
      ValidPacketFound(numBytes, numBytes, 0);
      return SpartnPacket;
    }

    // ----- the parse call, and the buffer -------------------------------------------------------

    method SetParserStart(p: Protocol)
      modifies this
      ensures Model() == old(Model()).(head := old(scan), cand := Some(p)) && state == 1
    {
      state := 1;
      head := scan;
      processPkt := Some(p);
    }

    /** Calls the handler in progress. */
    method ProcessPkt() returns (found: Found)
      requires Valid() && processPkt.Some? && scan < tail
      modifies this, buf
      ensures (Model(), found) == R.Handle(old(Model()))
      ensures processPkt.Some? ==> Tracks(processPkt.value, buf[head..scan + 1], state, size)
    {
      R.HandleKeepsCandidate(Model());
      hide R.Handle, Tracks;
      match processPkt.value {
        case Isb => found := ProcessIsbPkt();
        case Nmea => found := ProcessNmeaPkt();
        case Ublox => found := ProcessUbloxPkt();
        case Rtcm3 => found := ProcessRtcm3Pkt();
        case Spartn => found := ProcessSpartnByte();
        case Sony => found := ProcessSonyByte();
      }
    }

    /** One turn of the loop. */
    method Turn() returns (found: Found)
      requires Valid() && scan < tail
      modifies this, buf
      ensures Valid() && (Model(), found) == R.Step(old(Model()))
    {
      hide R.Step, Tracks;
      if processPkt.None? {
        found := Search();
      } else {
        found := Advance();
      }
    }

    /** The handler in progress gets the byte under the cursor. */
    method Advance() returns (found: Found)
      requires Valid() && scan < tail && processPkt.Some?
      modifies this, buf
      ensures Valid() && (Model(), found) == R.Step(old(Model()))
    {
      hide R.Handle, Tracks, R.Step, R.Valid, R.Rank, R.Busy, R.Ahead, R.Window, Judge;
      ghost var rx := Model();
      R.StepValid(rx);
      R.StepOfCandidate(rx);
      found := ProcessPkt();
      NextByte();
    }

    method NextByte()
      modifies this`scan
      ensures Model() == old(Model()).(scan := old(scan) + 1)
      ensures scan == old(scan) + 1 && processPkt == old(processPkt) && head == old(head) && state == old(state)
        && size == old(size)
    {
      scan := scan + 1;
    }

    /** Looks for the start of a frame. */
    method Search() returns (found: Found)
      requires Valid() && scan < tail && processPkt.None?
      modifies this
      ensures Valid() && (Model(), found) == R.Step(old(Model()))
    {
      R.StepValid(Model());
      match StartOf(buf[scan]) {
        case Some(p) =>
          if p in cfg.enabled {
            SetParserStart(p);
            assert buf[scan..scan + 1][0] == buf[scan];
          }
        case None =>
          found := ReportParseError(StreamUnparsable);
          if found != Nothing {
            return;
          }
      }
      scan := scan + 1;
      return Nothing;
    }

    /** One parse call at time `nowMs`. */
    method ParseTimeout(nowMs: nat) returns (found: Found)
      requires Valid()
      modifies this, buf
      ensures Valid() && (Model(), found) == R.Parse(old(Model()), nowMs)
    {
      hide Tracks, R.Step;
      ghost var rx := R.Timeout(Model(), nowMs);
      if processPkt.Some? && nowMs > (timeMs + R.TIMEOUT_MS) % 0x1_0000_0000 {
        head := head + 1;
        ResetParser();
      }
      while scan < tail
        invariant Valid() && R.Loop(Model()) == R.Loop(rx)
        decreases R.Rank(Model()), R.Busy(Model()), tail + 1 - scan
      {
        R.StepValid(Model());
        found := Turn();
        if found != Nothing {
          return;
        }
      }
      if processPkt.Some? {
        timeMs := nowMs;
      }
      return Nothing;
    }

    /** Makes room at the end of the buffer; returns the number of bytes that can be received. */
    method Free() returns (bytesFree: nat)
      requires Valid()
      modifies this, buf
      ensures Valid() && Model() == R.Free(old(Model())) && bytesFree == R.FreeBytes(Model())
    {
      bytesFree := buf.Length - tail;
      if bytesFree == 0 {
        if head < cfg.size / 3 {
          Flush();
        } else {
          Compact();
        }
        bytesFree := buf.Length - tail;
      }
    }

    /** Drops everything: the buffer is mostly full and cannot be shifted far enough. */
    method Flush()
      requires Valid() && tail == buf.Length && head < cfg.size / 3
      modifies this
      ensures Valid() && Model() == R.Free(old(Model()))
    {
      hide Tracks;
      var _ := ParseErrorResetState(RxBufferFlushed);
      head, tail, scan := 0, 0, 0;
    }

    /** Shifts the bytes kept to the start of the buffer. */
    method Compact()
      requires Valid() && tail == buf.Length && head >= cfg.size / 3
      modifies this, buf
      ensures Valid() && Model() == R.Free(old(Model()))
    {
      hide Tracks, R.Kept, R.FreeBytes;
      ghost var rx := Model();
      R.FreeCompacts(rx);
      var shift := head;
      MoveToStart();
      head := 0;
      tail := tail - shift;
      scan := scan - shift;
      assert Model() == R.Free(rx);
      if processPkt.Some? {
        R.FreeKeepsWindow(rx);
        assert buf[..][head..scan] == buf[head..scan];
      }
    }

    /** Copies the bytes kept to the start of the buffer. */
    method MoveToStart()
      requires head <= tail <= buf.Length
      modifies buf
      ensures buf[..] == old(buf[head..tail]) + old(buf[tail - head..])
    {
      var n := tail - head;
      for i := 0 to n
        invariant forall k :: 0 <= k < i ==> buf[k] == old(buf[head + k])
        invariant forall k :: i <= k < buf.Length ==> buf[k] == old(buf[k])
      {
        buf[i] := buf[head + i];
      }
    }

    /** A byte received is stored and parsed. With fewer than three bytes of buffer the store may run past the end. */
    method ParseByteTimeout(b: byte, nowMs: nat) returns (found: Found)
      requires Valid() && R.FreeBytes(R.Free(Model())) > 0
      modifies this, buf
      ensures Valid()
      ensures R.FreeBytes(R.Free(old(Model()))) > 0 && R.Valid(R.Append(R.Free(old(Model())), [b]))
      ensures (Model(), found) == R.Parse(R.Append(R.Free(old(Model())), [b]), nowMs)
    {
      hide R.Free, Tracks;
      var _ := Free();
      Receive([b]);
      found := ParseTimeout(nowMs);
    }

    /** Bytes are stored behind the tail. */
    method Receive(data: seq<byte>)
      requires Valid() && |data| <= R.FreeBytes(Model())
      requires |data| > 0
      modifies this, buf
      ensures Valid() && Model() == R.Append(old(Model()), data)
    {
      hide Tracks;
      ghost var rx := Model();
      Store(data);
      tail := tail + |data|;
      assert Model() == R.Append(rx, data);
      if processPkt.Some? {
        R.AppendKeepsWindow(rx, data);
        assert buf[..][head..scan] == buf[head..scan];
      }
    }

    method Store(data: seq<byte>)
      requires tail + |data| <= buf.Length
      modifies buf
      ensures buf[..] == old(buf[..tail]) + data + old(buf[tail + |data|..])
    {
      for i := 0 to |data|
        invariant forall k :: 0 <= k < i ==> buf[tail + k] == data[k]
        invariant forall k :: 0 <= k < tail || tail + i <= k < buf.Length ==> buf[k] == old(buf[k])
      {
        buf[tail + i] := data[i];
      }
    }

    /** The packet as its handler sees it. */
    method PacketView(found: Found) returns (e: S.Event)
      ensures e == S.View(Model(), found)
    {
      var data: seq<byte> := [];
      if rxPkt.ptr.Some? {
        var a := rxPkt.ptr.value;
        ghost var m := R.Memory(buf[..], cfg.outside, a);
        for i := 0 to rxPkt.dataSize
          invariant data == Slice(m, 0, i)
        {
          data := data + [At(a + i)];
        }
      }
      e := if found.IsIsb() then S.Event(found, rxPkt.id, rxPkt.flags, rxPkt.offset, data, ackNeeded)
           else S.Event(found, rxPkt.id, 0, rxPkt.offset, data, 0);
    }

    /** Parses until nothing more is found; each packet is handed over as its handler sees it. */
    method ParseMessages() returns (events: seq<S.Event>)
      requires Valid()
      modifies this, buf
      ensures Valid() && (Model(), events) == P.Drain(old(Model()))
    {
      hide Tracks, R.Parse, P.Drain, S.Packets;
      events := [];
      ghost var rx := Model();
      P.DrainUnfolds(rx);
      var found := ParseTimeout(0);
      while found != Nothing
        invariant Valid()
        invariant P.Drain(rx) == if found == Nothing then (Model(), events) else P.Continued(events, Model(), found)
        decreases if found == Nothing then 0 else 1, R.Rank(Model()), R.Busy(Model()), if rxErrorState then 0 else 1
      {
        ghost var last, before, was := Model(), events, found;
        P.DrainUnfolds(last);
        P.ParseProgress(last, 0);
        events := Dispatch(events, found);
        found := ParseTimeout(0);
        P.AddsUp(before, last, was);
      }
    }

    /** Hands a packet over. */
    method Dispatch(events: seq<S.Event>, found: Found) returns (r: seq<S.Event>)
      ensures r == events + S.Packets(Model(), found)
    {
      if found.IsPacket() {
        var e := PacketView(found);
        r := events + [e];
      } else {
        r := events;
      }
    }

    /** One read from a port that holds `port` and is asked for `n` bytes at most; returns the packets and the bytes
        taken. */
    method PortParseMessages(port: seq<byte>, n: nat) returns (events: seq<S.Event>, got: nat)
      requires Valid()
      modifies this, buf
      ensures Valid() && R.Valid(R.Free(old(Model())))
      ensures (Model(), events, got) == P.PortRead(old(Model()), port, n)
    {
      hide Tracks, R.Free, P.Drain;
      P.FreeValid(Model());
      var bytesFree := Free();
      got := if n < bytesFree then n else bytesFree;
      got := if got < |port| then got else |port|;
      if got == 0 {
        return [], 0;
      }
      Receive(port[..got]);
      events := ParseMessages();
    }
  }

  /** Reads of the given sizes, one after the other. */
  method ReadPortions(c: Comm, port: seq<byte>, portions: seq<nat>) returns (events: seq<S.Event>, taken: nat)
    requires c.Valid()
    modifies c, c.buf
    ensures c.Valid() && (c.Model(), events, taken) == P.Run(old(c.Model()), port, portions)
  {
    hide P.PortRead, P.Run, P.After, R.Valid, R.Free;
    events, taken := [], 0;
    var left := port;
    P.AfterNothing(c.Model(), port, portions);
    ghost var whole := P.After(c.Model(), [], 0, port, portions);
    assert portions[0..] == portions;
    for i := 0 to |portions|
      invariant c.Valid() && R.Valid(c.Model())
      invariant whole == P.After(c.Model(), events, taken, left, portions[i..])
    {
      P.AfterRead(c.Model(), events, taken, left, portions[i..]);
      var more, got := c.PortParseMessages(left, portions[i]);
      assert portions[i..][1..] == portions[i + 1..];
      events, taken, left := events + more, taken + got, left[got..];
    }
    assert portions[|portions|..] == [];
    P.AfterAll(c.Model(), events, taken, left);
  }

  /** A fresh receiver fed from a port in the given portions: the packets are those of the plain scan, unless a read
      throws away a frame in progress while the port still has bytes. */
  method ReadStream(cfg: Config, s: seq<byte>, portions: seq<nat>) returns (events: seq<S.Event>, taken: nat)
    requires cfg.size >= 3 && S.Settled(cfg, s, 0)
    ensures P.Roomy(cfg, s) ==> P.NoFlush(R.Init(cfg), s, portions)
    ensures P.Enough(portions, |s|) ==> taken == |s|
    ensures P.NoFlush(R.Init(cfg), s, portions) ==>
      events <= S.Scan(cfg, s, 0) && (taken == |s| ==> events == S.Scan(cfg, s, 0))
  {
    hide P.Run, P.NoFlush, P.Roomy, P.Enough, R.Init, S.Scan, S.Settled, S.Fits;
    if P.Roomy(cfg, s) {
      P.RoomyNeverFlushes(cfg, s, portions);
    }
    if P.NoFlush(R.Init(cfg), s, portions) {
      P.PacketsOfRun(cfg, s, portions);
    }
    if P.Enough(portions, |s|) {
      R.InitSound(cfg);
      P.EnoughReads(R.Init(cfg), s, portions);
    }
    var c := new Comm(cfg);
    events, taken := ReadPortions(c, s, portions);
  }
}
