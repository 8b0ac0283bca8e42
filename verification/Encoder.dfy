/** Building ISB frames: a header with its own checksum, written to a buffer or to a port, and read back. */
module Encoder {
  import opened Bytes
  import opened Protocols
  import F = Fletcher
  import R = Receiver
  import opened StreamScan
  import opened ByteFeed
  import P = PortReads
  import C = Comm

  /** What a caller sends: flags with the packet type in the low bits, data identifier, offset and data. */
  datatype Message = Message(flags: byte, did: nat, offset: nat, data: seq<byte>) {
    /** The widths of the arguments. */
    predicate Fits16() {
      did < 0x10000 && offset < 0x10000 && |data| < 0x10000
    }
  }

  // ----- the frame of a message -----------------------------------------------------------

  function FlagsOf(m: Message): byte {
    if m.offset == 0 || m.flags / 32 % 2 == 1 then m.flags else OffsetFlag(m.flags)
  }

  function OffsetFlag(flags: byte): byte
    requires flags / 32 % 2 == 0
  {
    flags + 32
  }

  function OffsetBytes(m: Message): seq<byte> {
    if m.offset == 0 then [] else [Lo(m.offset), Hi(m.offset)]
  }

  /** The 16-bit payload size field. */
  function PayloadOf(m: Message): nat {
    (|OffsetBytes(m)| + |m.data|) % 0x10000
  }

  function Head(m: Message): seq<byte> {
    [0xEF, 0x49, FlagsOf(m), m.did % 256, Lo(PayloadOf(m)), Hi(PayloadOf(m))] + OffsetBytes(m)
  }

  /** Header, offset and data, then one Fletcher sum over all of them. */
  function Frame(m: Message): (w: seq<byte>)
    ensures |w| >= 8
  {
    var sums := F.Fletcher16(F.ZERO, Head(m) + m.data);
    Head(m) + m.data + [sums.a, sums.b]
  }

  /** One sum over the frame is the header's sum continued over the data. */
  lemma Sums(m: Message)
    ensures F.Fletcher16(F.ZERO, Head(m) + m.data) == F.Fletcher16(F.Fletcher16(F.ZERO, Head(m)), m.data)
    ensures m.data == [] ==> Head(m) + m.data == Head(m)
  {
    F.SplitsOverConcatenation(F.ZERO, Head(m), m.data);
  }

  // ----- the writers ----------------------------------------------------------------------

  method Checksum16(init: F.Sums, data: seq<byte>) returns (sums: F.Sums)
    ensures sums == F.Fletcher16(init, data)
  {
    sums := init;
    for i := 0 to |data|
      invariant sums == F.Fletcher16(init, data[..i])
    {
      assert data[..i + 1][..i] == data[..i];
      sums := F.Add(sums, data[i]);
    }
    assert data[..|data|] == data;
  }

  /** A packet prepared for sending. The header checksum covers the offset. */
  class TxPacket {
    var flags: byte
    var id: byte
    var payloadSize: nat
    var offset: nat
    var data: seq<byte>
    var hdrCksum: F.Sums
    var checksum: F.Sums
    var size: nat

    constructor ()
    {
      flags, id, payloadSize, offset, data, size := 0, 0, 0, 0, [], 0;
      hdrCksum, checksum := F.ZERO, F.ZERO;
    }

    ghost predicate Encodes(m: Message)
      reads this
    {
      && m.Fits16()
      && flags == FlagsOf(m) && id == m.did % 256 && offset == m.offset && data == m.data
      && payloadSize == PayloadOf(m)
      && hdrCksum == F.Fletcher16(F.ZERO, Head(m))
      && size == (PayloadOf(m) + 8) % 0x10000
    }

    function HeaderBytes(): seq<byte>
      reads this
    {
      [0xEF, 0x49, flags, id, Lo(payloadSize), Hi(payloadSize)]
    }

    method EncodeHdr(m: Message)
      requires m.Fits16()
      modifies this
      ensures Encodes(m)
    {
      hide F.Fletcher16, Lo, Hi;
      flags := m.flags;
      id := m.did % 256;
      payloadSize := |m.data|;
      offset := m.offset;
      if m.offset != 0 {
        flags := if flags as int / 32 % 2 == 1 then flags else OffsetFlag(flags);
        payloadSize := (payloadSize + 2) % 0x10000;
      }
      data := m.data;
      size := (payloadSize + 8) % 0x10000;
      hdrCksum := Checksum16(F.ZERO, HeaderBytes());
      if m.offset != 0 {
        F.SplitsOverConcatenation(F.ZERO, HeaderBytes(), OffsetBytes(m));
        hdrCksum := Checksum16(hdrCksum, [Lo(m.offset), Hi(m.offset)]);
      } else {
        assert HeaderBytes() + [] == HeaderBytes();
      }
    }
  }

  /** A port: every write is offered its bytes and returns a number of the port's choosing. */
  class Port {
    const answers: nat -> int
    var calls: nat
    var total: int              // the sum of the numbers returned
    var offered: seq<byte>

    constructor (answers: nat -> int)
      ensures this.answers == answers && calls == 0 && total == 0 && offered == []
    {
      this.answers := answers;
      calls, total, offered := 0, 0, [];
    }

    method Write(bytes: seq<byte>) returns (n: int)
      modifies this
      ensures offered == old(offered) + bytes && n == answers(old(calls))
      ensures calls == old(calls) + 1 && total == old(total) + n
    {
      n := answers(calls);
      offered := offered + bytes;
      calls := calls + 1;
      total := total + n;
    }
  }

  /** The sending side of a communication instance. */
  class Transmitter {
    var txPktCount: nat

    constructor ()
      ensures txPktCount == 0
    {
      txPktCount := 0;
    }

    /** Copies bytes to a place in a buffer; returns the place behind them. */
    method Put(buf: array<byte>, at: nat, bytes: seq<byte>) returns (next: nat)
      requires at + |bytes| <= buf.Length
      modifies buf
      ensures next == at + |bytes|
      ensures buf[..at] == old(buf[..at]) && buf[at..next] == bytes && buf[next..] == old(buf[next..])
      ensures buf[..next] == old(buf[..at]) + bytes
    {
      for i := 0 to |bytes|
        invariant forall k :: 0 <= k < i ==> buf[at + k] == bytes[k]
        invariant forall k :: 0 <= k < at || at + i <= k < buf.Length ==> buf[k] == old(buf[k])
      {
        buf[at + i] := bytes[i];
      }
      next := at + |bytes|;
    }

    /** Writes the frame to the start of a buffer, or nothing if its size does not fit. A size that wraps in its
        16-bit field must not hide a frame longer than the buffer. */
    method WriteToBuffer(buf: array<byte>, pkt: TxPacket, ghost m: Message) returns (n: int)
      requires pkt.Encodes(m) && (pkt.size <= buf.Length ==> |Frame(m)| <= buf.Length)
      modifies this, buf, pkt`checksum
      ensures n == if pkt.size > buf.Length then -1 else pkt.size
      ensures txPktCount == old(txPktCount) + if n == -1 then 0 else 1
      ensures n == -1 ==> buf[..] == old(buf[..])
      ensures n != -1 ==> buf[..] == Frame(m) + old(buf[|Frame(m)|..])
    {
      hide F.Fletcher16, Head, PayloadOf;
      if pkt.size > buf.Length {
        return -1;
      }
      Sums(m);
      pkt.checksum := pkt.hdrCksum;
      var at := PutHead(buf, pkt, m);
      if pkt.data != [] {
        pkt.checksum := Checksum16(pkt.checksum, pkt.data);
        at := Put(buf, at, pkt.data);
      }
      assert buf[..at] == Head(m) + m.data && buf[at..] == old(buf[at..]);
      at := Put(buf, at, [pkt.checksum.a, pkt.checksum.b]);
      txPktCount := txPktCount + 1;
      n := pkt.size;
      assert buf[..at] == Frame(m);
      assert buf[..] == buf[..at] + buf[at..];
    }

    /** Copies the header and the offset, if there is one. */
    method PutHead(buf: array<byte>, pkt: TxPacket, ghost m: Message) returns (next: nat)
      requires pkt.Encodes(m) && |Head(m)| <= buf.Length
      modifies buf
      ensures next == |Head(m)| && buf[..next] == Head(m) && buf[next..] == old(buf[next..])
    {
      hide F.Fletcher16;
      next := Put(buf, 0, pkt.HeaderBytes());
      if pkt.offset != 0 {
        next := Put(buf, next, [Lo(pkt.offset), Hi(pkt.offset)]);
      }
    }

    /** Offers the frame to a port piece by piece; succeeds exactly if the numbers returned add up to the size. */
    method WriteToPort(port: Port, pkt: TxPacket, ghost m: Message) returns (n: int)
      requires pkt.Encodes(m)
      modifies this, port, pkt`checksum
      ensures port.offered == old(port.offered) + Frame(m)
      ensures n == if port.total - old(port.total) == pkt.size then pkt.size else -1
      ensures txPktCount == old(txPktCount) + 1
    {
      hide F.Fletcher16;
      Sums(m);
      ghost var before := port.offered;
      pkt.checksum := pkt.hdrCksum;
      n := OfferHead(port, pkt, m);
      if pkt.data != [] {
        pkt.checksum := Checksum16(pkt.checksum, pkt.data);
        var more := port.Write(pkt.data);
        n := n + more;
      }
      assert port.offered == before + (Head(m) + m.data);
      var last := port.Write([pkt.checksum.a, pkt.checksum.b]);
      n := n + last;
      txPktCount := txPktCount + 1;
      return if n == pkt.size then n else -1;
    }

    /** Offers the header and the offset, if there is one. */
    method OfferHead(port: Port, pkt: TxPacket, ghost m: Message) returns (n: int)
      requires pkt.Encodes(m)
      modifies port
      ensures port.offered == old(port.offered) + Head(m)
      ensures n == port.total - old(port.total)
    {
      hide F.Fletcher16;
      n := port.Write(pkt.HeaderBytes());
      if pkt.offset != 0 {
        var more := port.Write([Lo(pkt.offset), Hi(pkt.offset)]);
        n := n + more;
      }
    }

    /** A message encoded and offered to a port, if there is one. */
    method Write(port: Port?, m: Message) returns (n: int)
      requires m.Fits16()
      modifies this, port
      ensures port == null ==> n == -1 && txPktCount == old(txPktCount)
      ensures port != null ==>
        && port.offered == old(port.offered) + Frame(m)
        && n == if port.total - old(port.total) == (PayloadOf(m) + 8) % 0x10000 then
           (PayloadOf(m) + 8) % 0x10000 else -1
    {
      if port == null {
        return -1;
      }
      var pkt := new TxPacket();
      pkt.EncodeHdr(m);
      n := WriteToPort(port, pkt, m);
    }
  }

  // ----- reading a frame back -------------------------------------------------------------

  const TYPE_DATA := 4
  const TYPE_SET_DATA := 5

  /** A message that carries data. */
  predicate CarriesData(m: Message) {
    m.Fits16() && (m.flags % 16 == TYPE_DATA || m.flags % 16 == TYPE_SET_DATA)
  }

  /** The event a receiver should report. */
  function Sent(m: Message): Event {
    Event(IsbData, m.did, FlagsOf(m), m.offset, m.data, if m.flags % 16 == TYPE_SET_DATA then 1 else 0)
  }

  /** The recogniser accepts the frame at its last byte, and the event is what was sent. */
  predicate Recovered(cfg: Config, m: Message) {
    var w := Frame(m);
    && |w| >= 8
    && R.Undecided(cfg, Isb, w[..|w| - 1]) && SelfContained(Isb, w)
    && Judge(cfg, Isb, w, R.Nowhere()) == Accept(IsbData)
    && |w| >= 8 + PayloadSize(w) && EventOf(cfg, Isb, IsbData, w) == Sent(m)
  }

  /** What a caller can check beforehand. */
  predicate Sendable(m: Message) {
    m.did <= 255 && |m.data| <= MAX_DATASET && (m.flags / 32 % 2 == 1 ==> m.offset != 0)
  }

  lemma FrameFields(m: Message)
    requires m.Fits16()
    ensures var w := Frame(m);
      && |w| == |OffsetBytes(m)| + |m.data| + 8
      && w[0] == 0xEF && w[1] == 0x49 && w[2] == FlagsOf(m) && w[3] == m.did % 256
      && PayloadSize(w) == PayloadOf(m)
      && FrameChecksumOk(w)
      && (m.offset != 0 ==> |w| >= 10 && Le16(w[6], w[7]) == m.offset && w[8..|w| - 2] == m.data)
      && (m.offset == 0 ==> w[6..|w| - 2] == m.data)
  {
    hide F.Fletcher16;
    var w := Frame(m);
    assert w[..|w| - 2] == Head(m) + m.data;
    Le16RoundTrip(PayloadOf(m));
    Le16RoundTrip(m.offset);
  }

  lemma FlagBits(m: Message)
    requires m.offset < 0x10000
    ensures FlagsOf(m) % 16 == m.flags % 16
    ensures FlagsOf(m) / 32 % 2 == 1 <==> m.offset != 0 || m.flags / 32 % 2 == 1
  {
  }

  lemma IsbPrefix(cfg: Config, w: seq<byte>, v: seq<byte>, ahead: nat -> byte)
    requires |w| >= 8 && 2 <= |v| < |w| && PayloadSize(w) <= 1026 && |w| == 8 + PayloadSize(w)
    requires v[1] == 0x49 && (|v| >= 6 ==> v[4] == w[4] && v[5] == w[5])
    ensures Judge(cfg, Isb, v, ahead).More?
  {
    hide IsbChecksumOk, IsbTypeVerdict, NmeaVerdict, UbloxVerdict, Rtcm3Verdict, SonyVerdict, SpartnVerdict;
  }

  lemma ShortFrame(m: Message)
    requires m.Fits16() && |m.data| <= MAX_DATASET
    ensures |Frame(m)| >= 8 && |Frame(m)| == 8 + PayloadSize(Frame(m)) && Frame(m)[1] == 0x49
    ensures PayloadSize(Frame(m)) == |m.data| + (if m.offset == 0 then 0 else 2) <= 1026
  {
    hide Frame, PayloadSize, FrameChecksumOk, FlagsOf, Le16;
    FrameFields(m);
    PayloadSmall(m);
    hide PayloadOf;
  }

  lemma PayloadSmall(m: Message)
    requires |m.data| <= MAX_DATASET
    ensures PayloadOf(m) == |OffsetBytes(m)| + |m.data|
  {
  }

  lemma PrefixesUndecided(cfg: Config, m: Message, k: nat, ahead: nat -> byte)
    requires m.Fits16() && |m.data| <= MAX_DATASET && 2 <= k < |Frame(m)|
    ensures Judge(cfg, Isb, Frame(m)[..k], ahead).More?
  {
    hide Frame, PayloadSize, Judge;
    ShortFrame(m);
    IsbPrefix(cfg, Frame(m), Frame(m)[..k], ahead);
  }

  lemma FrameUndecided(cfg: Config, m: Message)
    requires m.Fits16() && |m.data| <= MAX_DATASET && Isb in cfg.enabled
    ensures |Frame(m)| >= 8 && R.Undecided(cfg, Isb, Frame(m)[..|Frame(m)| - 1])
  {
    FrameFields(m);
    hide Frame, Judge;
    var w, v := Frame(m), Frame(m)[..|Frame(m)| - 1];
    assert v[0] == w[0];
    forall k | 2 <= k <= |v| ensures Judge(cfg, Isb, v[..k], R.Nowhere()).More? {
      assert v[..k] == w[..k];
      PrefixesUndecided(cfg, m, k, R.Nowhere());
    }
  }

  lemma FrameAccepted(cfg: Config, m: Message)
    requires CarriesData(m) && |m.data| <= MAX_DATASET
    ensures |Frame(m)| >= 8 && SelfContained(Isb, Frame(m)) && Judge(cfg, Isb, Frame(m), R.Nowhere()) == Accept(IsbData)
    ensures |Frame(m)| == 8 + PayloadSize(Frame(m))
  {
    ShortFrame(m);
    FrameBits(m);
    hide Frame, PayloadSize, Judge, FrameChecksumOk, SelfContained, FlagsOf;
    IsbWhole(cfg, Frame(m));
  }

  lemma FrameBits(m: Message)
    requires m.Fits16() && |m.data| <= MAX_DATASET
    ensures var w := Frame(m);
      && |w| >= 8 && w[2] == FlagsOf(m) && w[3] == m.did % 256 && FrameChecksumOk(w)
      && PacketType(w) == m.flags % 16
      && (HasOffset(w) <==> m.offset != 0 || m.flags / 32 % 2 == 1)
      && (m.offset != 0 || !HasOffset(w) ==> DataSize(w) == |m.data|) && DataSize(w) <= |m.data|
  {
    ShortFrame(m);
    FrameFields(m);
    FlagBits(m);
    hide Frame, PayloadSize, FrameChecksumOk, FlagsOf, OffsetBytes, PayloadOf;
  }

  lemma IsbWhole(cfg: Config, w: seq<byte>)
    requires |w| >= 8 && |w| == 8 + PayloadSize(w) && PayloadSize(w) <= 1026 && FrameChecksumOk(w)
    requires (PacketType(w) == TYPE_DATA || PacketType(w) == TYPE_SET_DATA) && DataSize(w) <= MAX_DATASET
    ensures SelfContained(Isb, w) && Judge(cfg, Isb, w, R.Nowhere()) == Accept(IsbData)
  {
    hide FrameChecksumOk, NmeaVerdict, UbloxVerdict, Rtcm3Verdict, SonyVerdict, SpartnVerdict;
    IsbChecksumOfFrame(w, R.Nowhere());
    hide IsbChecksumOk;
  }

  lemma EmptySums(flags: byte, id: byte)
    ensures F.Plain([0xEF, 0x49, flags, id, 0, 0]) == 312 + flags + id
    ensures F.Weighted([0xEF, 0x49, flags, id, 0, 0]) == 1799 + 4 * flags + 3 * id
  {
    hide F.Plain, F.Weighted;
    var s: seq<byte>, t: seq<byte>, z: seq<byte> := [0xEF, 0x49], [flags, id], [0, 0];
    assert [0xEF, 0x49, flags, id, 0, 0] == s + t + z;
    F.PairSums(0xEF, 0x49);
    F.PairSums(flags, id);
    F.PairSums(0, 0);
    F.PlainConcat(s + t, z);
    F.PlainConcat(s, t);
    F.WeightedPair(s, flags, id, z);
  }

  lemma NoZeroSums(flags: byte, id: byte)
    requires (312 + flags + id) % 256 == 0 && (1799 + 4 * flags + 3 * id) % 256 == 0
    ensures flags == 0xA1
  {
    var j, k := (312 + flags + id) / 256, (1799 + 4 * flags + 3 * id) / 256;
    assert 863 + flags == 256 * (k - 3 * j);
  }

  /** The checksum of an empty data packet is never zero. */
  lemma EmptyChecksum(flags: byte, id: byte)
    requires flags % 16 == TYPE_DATA || flags % 16 == TYPE_SET_DATA
    ensures F.Fletcher16(F.ZERO, [0xEF, 0x49, flags, id, 0, 0]).Word() != 0
  {
    hide F.Plain, F.Weighted, F.Fletcher16, F.Mul;
    var s: seq<byte> := [0xEF, 0x49, flags, id, 0, 0];
    F.ClosedForm(F.ZERO, s);
    EmptySums(flags, id);
    F.MulAdds(0, 0, |s|, 0);
    F.MulAdds(0, |s|, 0, 0);
    var sums := F.Fletcher16(F.ZERO, s);
    if sums.Word() == 0 {
      NoZeroSums(flags, id);
    }
  }

  lemma SentIsReceived(cfg: Config, m: Message)
    requires CarriesData(m) && Sendable(m) && |Frame(m)| == 8 + PayloadSize(Frame(m))
    ensures EventOf(cfg, Isb, IsbData, Frame(m)) == Sent(m)
  {
    hide Frame, FrameChecksumOk, FlagsOf, HasOffset, PayloadSize, DataSize, OffsetBytes, PayloadOf, Le16;
    var w := Frame(m);
    FrameFields(m);
    FrameBits(m);
    assert AckFor(w) == Sent(m).ack;
    hide PacketType, AckFor;
    if m.offset != 0 {
      SlicePrefix(w, 8, |w|, |m.data|);
    } else {
      SlicePrefix(w, 6, |w|, |m.data|);
    }
  }

  /** A data message comes back as sent exactly if its identifier fits a byte, its data fits the largest data set,
      and the offset flag is not set without an offset. */
  lemma RoundTrip(cfg: Config, m: Message)
    requires CarriesData(m) && Isb in cfg.enabled
    ensures Recovered(cfg, m) <==> Sendable(m)
  {
    hide Frame, Judge, R.Undecided, SelfContained, EventOf, FrameChecksumOk;
    FrameFields(m);
    if |m.data| <= MAX_DATASET {
      FrameUndecided(cfg, m);
      FrameAccepted(cfg, m);
      if Sendable(m) {
        SentIsReceived(cfg, m);
      } else {
        NotReceived(cfg, m);
      }
    } else if Recovered(cfg, m) {
      TooLong(cfg, m);
    }
  }

  lemma EmptyFrame(m: Message)
    requires CarriesData(m) && m.did <= 255 && m.data == [] && m.offset == 0
    ensures |Frame(m)| == 8 && Le16(Frame(m)[6], Frame(m)[7]) != 0
  {
    hide F.Fletcher16;
    EmptyChecksum(m.flags, m.did);
    assert Head(m) + m.data == [0xEF, 0x49, m.flags, m.did, 0, 0];
  }

  lemma NotReceived(cfg: Config, m: Message)
    requires CarriesData(m) && !Sendable(m) && |m.data| <= MAX_DATASET && |Frame(m)| == 8 + PayloadSize(Frame(m))
    ensures EventOf(cfg, Isb, IsbData, Frame(m)) != Sent(m)
  {
    FrameFields(m);
    FlagBits(m);
    hide Frame, FrameChecksumOk, AckFor;
    if m.did <= 255 {
      if m.data == [] {
        EmptyFrame(m);
      }
      hide FlagsOf;
    }
  }

  lemma TooLong(cfg: Config, m: Message)
    requires CarriesData(m) && |m.data| > MAX_DATASET && |Frame(m)| >= 8
    requires R.Undecided(cfg, Isb, Frame(m)[..|Frame(m)| - 1]) && SelfContained(Isb, Frame(m))
    requires Judge(cfg, Isb, Frame(m), R.Nowhere()) == Accept(IsbData) && |Frame(m)| >= 8 + PayloadSize(Frame(m))
    ensures EventOf(cfg, Isb, IsbData, Frame(m)) != Sent(m)
  {
    hide Frame, IsbChecksumOk, R.Undecided;
    FrameFields(m);
    assert DataSize(Frame(m)) <= MAX_DATASET;
  }

  // ----- many messages --------------------------------------------------------------------

  predicate AllSendable(ms: seq<Message>) {
    forall i :: 0 <= i < |ms| ==> CarriesData(ms[i]) && Sendable(ms[i])
  }

  /** The frames of the messages, one behind the other. */
  function Encoded(ms: seq<Message>): seq<byte> {
    if ms == [] then [] else Frame(ms[0]) + Encoded(ms[1..])
  }

  function AllSent(ms: seq<Message>): seq<Event> {
    if ms == [] then [] else [Sent(ms[0])] + AllSent(ms[1..])
  }

  /** Nothing for every inner byte, and the message for the last byte of each frame. */
  function SentReports(ms: seq<Message>): seq<Option<Event>> {
    if ms == [] then [] else Quiet(|Frame(ms[0])| - 1) + [Some(Sent(ms[0]))] + SentReports(ms[1..])
  }

  /** The longest frame of a sendable message: header, offset, the largest data set and checksum. */
  const LONGEST := 8 + 2 + MAX_DATASET

  function Items(ms: seq<Message>): seq<Item> {
    if ms == [] then [] else [Item(Isb, IsbData, Frame(ms[0]))] + Items(ms[1..])
  }

  lemma FrameStart(m: Message)
    requires |m.data| <= MAX_DATASET
    ensures |Frame(m)| <= LONGEST
  {
    hide F.Fletcher16, FlagsOf, PayloadOf;
  }

  lemma FrameIsWhole(cfg: Config, m: Message)
    requires CarriesData(m) && Sendable(m) && Isb in cfg.enabled && LONGEST <= R.Spared(cfg)
    ensures Whole(cfg, Isb, IsbData, Frame(m)) && ItemEvent(cfg, Item(Isb, IsbData, Frame(m))) == Sent(m)
  {
    hide Frame, Judge, R.Undecided, SelfContained, EventOf, Sent, PayloadSize;
    RoundTrip(cfg, m);
    FrameStart(m);
  }

  lemma {:induction false} MessagesAreItems(cfg: Config, ms: seq<Message>)
    requires AllSendable(ms) && Isb in cfg.enabled && LONGEST <= R.Spared(cfg)
    ensures Encoded(ms) == Stream(Items(ms)) && AllWhole(cfg, Items(ms))
    ensures Events(cfg, Items(ms)) == AllSent(ms) && Reports(cfg, Items(ms)) == SentReports(ms)
    decreases |ms|
  {
    hide Frame, Whole, ItemEvent, Sent;
    if ms != [] {
      FrameIsWhole(cfg, ms[0]);
      MessagesAreItems(cfg, ms[1..]);
      assert Items(ms)[1..] == Items(ms[1..]);
      assert forall i :: 1 <= i < |Items(ms)| ==> Items(ms)[i] == Items(ms[1..])[i - 1];
    }
  }

  /** Any sequence of data messages, encoded and fed byte by byte: no call on an inner byte reports anything, and
      the call on each frame's last byte reports the message. */
  lemma FedBack(rx: R.Rx, ms: seq<Message>)
    requires Idle(rx) && Isb in rx.cfg.enabled && LONGEST <= R.Spared(rx.cfg) && AllSendable(ms)
    ensures Idle(Feed(rx, Encoded(ms)).0) && Feed(rx, Encoded(ms)).1 == SentReports(ms)
  {
    hide Feed, AllWhole, Reports, SentReports, Stream, Encoded, Able;
    MessagesAreItems(rx.cfg, ms);
    StreamFed(rx, Items(ms));
  }

  /** The parser with the library's packet buffer, from the start. */
  lemma FreshParser(cfg: Config, ms: seq<Message>)
    requires cfg.size == MAX_ISB && Isb in cfg.enabled && AllSendable(ms)
    ensures Able(R.Init(cfg)) && Feed(R.Init(cfg), Encoded(ms)).1 == SentReports(ms)
  {
    InitIdle(cfg);
    FedBack(R.Init(cfg), ms);
  }

  /** However an encoded stream is cut into reads, the messages come out as they were sent, in order, each once. */
  lemma AnyPortions(cfg: Config, ms: seq<Message>, portions: seq<nat>)
    requires Isb in cfg.enabled && LONGEST <= R.Spared(cfg) && AllSendable(ms)
    ensures var (last, events, taken) := P.Run(R.Init(cfg), Encoded(ms), portions);
      && events <= AllSent(ms)
      && (P.Enough(portions, |Encoded(ms)|) ==> taken == |Encoded(ms)|)
      && (taken == |Encoded(ms)| ==> events == AllSent(ms))
  {
    hide P.Run, P.Enough, Encoded, AllSent, R.Init, AllWhole, Stream, Events;
    MessagesAreItems(cfg, ms);
    StreamInPortions(cfg, Items(ms), portions);
  }

  /** Messages written to a port, whatever it answers, and read back from the bytes it was offered. */
  method Exchange(cfg: Config, answers: nat -> int, ms: seq<Message>, portions: seq<nat>)
    returns (events: seq<Event>, taken: nat, offered: nat)
    requires Isb in cfg.enabled && LONGEST <= R.Spared(cfg) && AllSendable(ms)
    ensures events <= AllSent(ms)
    ensures offered == |Encoded(ms)| && (P.Enough(portions, offered) ==> taken == offered)
    ensures taken == offered ==> events == AllSent(ms)
  {
    hide P.Run, Frame;
    var port := new Port(answers);
    var out := new Transmitter();
    for i := 0 to |ms|
      invariant port.offered == Encoded(ms[..i])
    {
      var _ := out.Write(port, ms[i]);
      EncodedAppend(ms[..i], ms[i]);
      assert ms[..i + 1] == ms[..i] + [ms[i]];
    }
    assert ms[..|ms|] == ms;
    AnyPortions(cfg, ms, portions);
    var c := new C.Comm(cfg);
    events, taken := C.ReadPortions(c, port.offered, portions);
    offered := |port.offered|;
  }

  lemma {:induction false} EncodedAppend(ms: seq<Message>, m: Message)
    ensures Encoded(ms + [m]) == Encoded(ms) + Frame(m)
  {
    hide Frame;
    if ms == [] {
      assert [m][1..] == [] && ms + [m] == [m];
    } else {
      assert (ms + [m])[1..] == ms[1..] + [m];
      EncodedAppend(ms[1..], m);
    }
  }
}
