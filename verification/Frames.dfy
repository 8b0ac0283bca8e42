/** The frames each recogniser accepts, built from their parts, independently of the order in which bytes arrive. */
module Frames {
  import opened Bytes
  import opened Protocols
  import opened Receiver
  import opened StreamScan
  import opened ByteFeed
  import F = Fletcher
  import Crc24
  import Gf2
  import E = Encoder

  // ----- the frames of the standards ----------------------------------------------------------

  /** Preamble, flags, identifier, payload size, payload, and the sum of all of it. */
  function IsbFrame(flags: byte, id: byte, payload: seq<byte>): seq<byte> {
    var head := [0xEF, 0x49, flags, id, Lo(|payload|), Hi(|payload|)] + payload;
    var sums := F.Fletcher16(F.ZERO, head);
    head + [sums.a, sums.b]
  }

  /** Preamble, class, identifier, payload size, payload, and the sum from the class on. */
  function UbloxFrame(class_: byte, id: byte, payload: seq<byte>): seq<byte> {
    var body := [class_, id, Lo(|payload|), Hi(|payload|)] + payload;
    var sums := F.Fletcher16(F.ZERO, body);
    [0xB5, 0x62] + body + [sums.a, sums.b]
  }

  /** Preamble, six reserved bits and ten bits of length, payload, and the CRC-24Q of all of it, high byte first. */
  function Rtcm3Frame(reserved: nat, payload: seq<byte>): seq<byte>
    requires reserved < 64 && |payload| < 1024
  {
    var head := [0xD3, Reserved(reserved, |payload|), Lo(|payload|)] + payload;
    var crc := Crc24.Crc(Octets(head)) as nat;
    head + [Lo(crc / 0x10000), Lo(crc / 0x100), Lo(crc)]
  }

  function Reserved(reserved: nat, length: nat): byte
    requires reserved < 64 && length < 1024
  {
    reserved * 4 + length / 256
  }

  /** Start byte, data size, operation, the byte sum of these; data and its byte sum. */
  function SonyFrame(opcode: byte, data: seq<byte>): seq<byte> {
    var head := [0x7F, Lo(|data|), Hi(|data|), opcode];
    head + [Lo(F.Plain(head))] + data + [Lo(F.Plain(data))]
  }

  /** Dollar sign, body, a character that should be an asterisk, two hex characters, carriage return and one more
      byte. */
  function NmeaSentence(body: seq<byte>, mark: byte, high: byte, low: byte, last: byte): seq<byte> {
    [0x24] + body + [mark, high, low, 13, last]
  }

  // ----- what is a frame ----------------------------------------------------------------------

  predicate IsIsb(w: seq<byte>, ahead: nat -> byte) {
    && 8 <= |w| <= MAX_ISB && w == IsbFrame(w[2], w[3], w[6..|w| - 2])
    && IsbTypeVerdict(w, ahead).Accept?
  }

  predicate IsUblox(w: seq<byte>) {
    8 <= |w| < 0x10000 && w == UbloxFrame(w[2], w[3], w[6..|w| - 2])
  }

  predicate IsRtcm3(cfg: Config, w: seq<byte>) {
    && 6 <= |w| <= MAX_RTCM && |w| <= Rtcm3Room(cfg)
    && w == Rtcm3Frame(w[1] / 4, w[3..|w| - 3])
  }

  predicate IsSony(cfg: Config, w: seq<byte>) {
    && 6 <= |w| <= MAX_SONY + 6 && |w| <= cfg.size + 6
    && w == SonyFrame(w[3], w[5..|w| - 1])
  }

  /** The longest sentence has 200 characters before the one in front of the carriage return. */
  predicate IsNmea(w: seq<byte>) {
    && 8 <= |w| <= 203
    && var n := |w|;
       && w == NmeaSentence(w[1..n - 5], w[n - 5], w[n - 4], w[n - 3], w[n - 1])
       && (forall i :: 1 <= i < n - 2 ==> w[i] != 13)
       && Strtol(w[n - 4], w[n - 3]) == XorAll(w[1..n - 5])
  }

  /** SPARTN frames carry their length in the header; the message checksum is not looked at. */
  predicate IsSpartn(w: seq<byte>) {
    && |w| >= 9 && w[0] == 0x73 && SpartnHeaderOk(w)
    && |w| >= SpartnHeaderSize(w) && |w| == SpartnSize(w)
  }

  /** A frame in front of the memory `ahead`, on which the type of a short data request depends. */
  predicate IsFrame(cfg: Config, p: Protocol, w: seq<byte>, ahead: nat -> byte) {
    match p
    case Isb => IsIsb(w, ahead)
    case Nmea => IsNmea(w)
    case Ublox => IsUblox(w)
    case Rtcm3 => IsRtcm3(cfg, w)
    case Spartn => IsSpartn(w)
    case Sony => IsSony(cfg, w)
  }

  /** A header whose size wraps in its 16-bit field is taken for a frame of seven bytes if the checksum found there
      agrees: for UBX in the last two of them, for ISB in the memory behind the window. */
  predicate IsWrapped(p: Protocol, w: seq<byte>, ahead: nat -> byte) {
    && |w| == 7 && PayloadSize(w) >= 65528
    && match p
       case Isb => w[0] == 0xEF && w[1] == 0x49 && IsbChecksumOk(w, ahead) && IsbTypeVerdict(w, ahead).Accept?
       case Ublox => w[0] == 0xB5 && w[1] == 0x62 && Le16(w[5], w[6]) == F.Fletcher16(F.ZERO, w[2..5]).Word()
       case _ => false
  }

  /** The recogniser is undecided up to the last byte, whatever lies behind, and accepts there, in front of the memory
      `ahead`. */
  predicate Recognised(cfg: Config, p: Protocol, w: seq<byte>, ahead: nat -> byte)
    requires |w| >= 2
  {
    && StartOf(w[0]) == Some(p)
    && (forall k :: 2 <= k < |w| ==> Judge(cfg, p, w[..k], Nowhere()).More?)
    && Judge(cfg, p, w, ahead).Accept?
  }

  lemma MoreBefore(cfg: Config, p: Protocol, w: seq<byte>, ahead: nat -> byte)
    requires |w| >= 3 && Recognised(cfg, p, w, ahead)
    ensures Judge(cfg, p, w[..|w| - 1], Nowhere()).More?
  {
  }

  // ----- UBX ----------------------------------------------------------------------------------

  lemma UbloxParts(class_: byte, id: byte, payload: seq<byte>)
    requires |payload| < 65528
    ensures var w := UbloxFrame(class_, id, payload);
      && |w| == 8 + |payload| && w[0] == 0xB5 && w[1] == 0x62 && PayloadSize(w) == |payload|
      && Le16(w[|w| - 2], w[|w| - 1]) == F.Fletcher16(F.ZERO, w[2..|w| - 2]).Word()
  {
    hide F.Fletcher16, Le16, Lo, Hi;
    var body := [class_, id, Lo(|payload|), Hi(|payload|)] + payload;
    var w := UbloxFrame(class_, id, payload);
    assert w[2..|w| - 2] == body;
    Le16RoundTrip(|payload|);
  }

  lemma UbloxMore(cfg: Config, w: seq<byte>, k: nat)
    requires |w| >= 8 && w[1] == 0x62 && |w| == 8 + PayloadSize(w) && PayloadSize(w) < 65528 && 2 <= k < |w|
    ensures Judge(cfg, Ublox, w[..k], Nowhere()).More?
  {
    hide F.Fletcher16;
    var v := w[..k];
    assert v[1] == w[1];
    if k >= 6 {
      assert v[4] == w[4] && v[5] == w[5];
    }
  }

  lemma UbloxRebuilt(w: seq<byte>)
    requires |w| >= 8 && |w| == 8 + PayloadSize(w) && w[0] == 0xB5 && w[1] == 0x62
    requires Le16(w[|w| - 2], w[|w| - 1]) == F.Fletcher16(F.ZERO, w[2..|w| - 2]).Word()
    ensures w == UbloxFrame(w[2], w[3], w[6..|w| - 2])
  {
    hide F.Fletcher16;
    var payload := w[6..|w| - 2];
    assert Lo(|payload|) == w[4] && Hi(|payload|) == w[5];
    var body := [w[2], w[3], Lo(|payload|), Hi(|payload|)] + payload;
    assert body == w[2..|w| - 2];
    SameWord(w[|w| - 2], w[|w| - 1], F.Fletcher16(F.ZERO, body).a, F.Fletcher16(F.ZERO, body).b);
    assert w == [0xB5, 0x62] + body + [w[|w| - 2], w[|w| - 1]];
  }

  lemma SameWord(a: byte, b: byte, c: byte, d: byte)
    requires Le16(a, b) == Le16(c, d)
    ensures a == c && b == d
  {
  }

  lemma UbloxAccepted(cfg: Config, w: seq<byte>, ahead: nat -> byte)
    requires IsUblox(w)
    ensures Recognised(cfg, Ublox, w, ahead)
  {
    UbloxParts(w[2], w[3], w[6..|w| - 2]);
    hide UbloxFrame, F.Fletcher16;
    forall k | 2 <= k < |w| ensures Judge(cfg, Ublox, w[..k], Nowhere()).More? {
      UbloxMore(cfg, w, k);
    }
  }

  lemma UbloxDecoded(cfg: Config, w: seq<byte>, ahead: nat -> byte)
    requires |w| >= 2 && Recognised(cfg, Ublox, w, ahead)
    ensures IsUblox(w) || IsWrapped(Ublox, w, ahead)
  {
    UbloxEnds(cfg, w, ahead);
    hide Recognised, Judge;
    if PayloadSize(w) < 65528 {
      UbloxRebuilt(w);
    }
  }

  lemma UbloxEnds(cfg: Config, w: seq<byte>, ahead: nat -> byte)
    requires |w| >= 2 && Recognised(cfg, Ublox, w, ahead)
    ensures |w| >= 7 && w[0] == 0xB5 && w[1] == 0x62 && |w| == if PayloadSize(w) < 65528 then 8 + PayloadSize(w) else 7
    ensures Le16(w[|w| - 2], w[|w| - 1]) == F.Fletcher16(F.ZERO, w[2..|w| - 2]).Word()
  {
    SecondByte(cfg, Ublox, w, ahead);
    MoreBefore(cfg, Ublox, w, ahead);
    hide F.Fletcher16, Recognised;
    assert w[..2][1] == w[1];
  }

  lemma UbloxWrapped(cfg: Config, w: seq<byte>, ahead: nat -> byte)
    requires IsWrapped(Ublox, w, ahead)
    ensures Recognised(cfg, Ublox, w, ahead)
  {
    hide F.Fletcher16;
    forall k | 2 <= k < |w| ensures Judge(cfg, Ublox, w[..k], Nowhere()).More? {
      assert w[..k][1] == w[1];
    }
  }

  /** No frame ends at its second byte, and that byte left the recogniser undecided. */
  lemma SecondByte(cfg: Config, p: Protocol, w: seq<byte>, ahead: nat -> byte)
    requires |w| >= 2 && Recognised(cfg, p, w, ahead)
    ensures |w| >= 3 && Judge(cfg, p, w[..2], Nowhere()).More?
  {
  }

  /** The recogniser accepts exactly the UBX frames, and wrapped headers. */
  lemma UbloxExactly(cfg: Config, w: seq<byte>, ahead: nat -> byte)
    requires |w| >= 2
    ensures Recognised(cfg, Ublox, w, ahead) <==> IsUblox(w) || IsWrapped(Ublox, w, ahead)
  {
    hide Recognised, IsUblox, IsWrapped;
    if IsUblox(w) {
      UbloxAccepted(cfg, w, ahead);
    }
    if IsWrapped(Ublox, w, ahead) {
      UbloxWrapped(cfg, w, ahead);
    }
    if Recognised(cfg, Ublox, w, ahead) {
      UbloxDecoded(cfg, w, ahead);
    }
  }

  // ----- ISB ----------------------------------------------------------------------------------

  lemma IsbParts(flags: byte, id: byte, payload: seq<byte>)
    requires |payload| < 65528
    ensures var w := IsbFrame(flags, id, payload);
      && |w| == 8 + |payload| && w[0] == 0xEF && w[1] == 0x49 && PayloadSize(w) == |payload| && FrameChecksumOk(w)
  {
    hide F.Fletcher16, Le16, Lo, Hi;
    var head := [0xEF, 0x49, flags, id, Lo(|payload|), Hi(|payload|)] + payload;
    var w := IsbFrame(flags, id, payload);
    assert w[..|w| - 2] == head;
    Le16RoundTrip(|payload|);
  }

  lemma IsbMore(cfg: Config, w: seq<byte>, k: nat)
    requires 8 <= |w| <= MAX_ISB && w[1] == 0x49 && |w| == 8 + PayloadSize(w) && 2 <= k < |w|
    ensures Judge(cfg, Isb, w[..k], Nowhere()).More?
  {
    hide IsbChecksumOk, IsbTypeVerdict;
    var v := w[..k];
    assert v[1] == w[1];
    if k >= 6 {
      assert v[4] == w[4] && v[5] == w[5];
    }
  }

  lemma IsbAccepted(cfg: Config, w: seq<byte>, ahead: nat -> byte)
    requires IsIsb(w, ahead)
    ensures Recognised(cfg, Isb, w, ahead)
  {
    IsbParts(w[2], w[3], w[6..|w| - 2]);
    hide IsbFrame, FrameChecksumOk, IsbTypeVerdict;
    forall k | 2 <= k < |w| ensures Judge(cfg, Isb, w[..k], Nowhere()).More? {
      IsbMore(cfg, w, k);
    }
    IsbChecksumOfFrame(w, ahead);
    hide IsbChecksumOk;
  }

  lemma IsbEnds(cfg: Config, w: seq<byte>, ahead: nat -> byte)
    requires |w| >= 2 && Recognised(cfg, Isb, w, ahead)
    ensures 7 <= |w| <= MAX_ISB && w[0] == 0xEF && w[1] == 0x49
      && |w| == if PayloadSize(w) < 65528 then 8 + PayloadSize(w) else 7
    ensures IsbChecksumOk(w, ahead) && IsbTypeVerdict(w, ahead).Accept?
  {
    SecondByte(cfg, Isb, w, ahead);
    MoreBefore(cfg, Isb, w, ahead);
    hide IsbChecksumOk, IsbTypeVerdict;
    assert w[..2][1] == w[1];
    if |w| >= 7 {
      SixthByte(cfg, w, ahead);
    }
  }

  lemma IsbWrapped(cfg: Config, w: seq<byte>, ahead: nat -> byte)
    requires IsWrapped(Isb, w, ahead)
    ensures Recognised(cfg, Isb, w, ahead)
  {
    hide IsbChecksumOk, IsbTypeVerdict;
    forall k | 2 <= k < |w| ensures Judge(cfg, Isb, w[..k], Nowhere()).More? {
      assert w[..k][1] == w[1];
      if k >= 6 {
        assert w[..k][4] == w[4] && w[..k][5] == w[5];
      }
    }
  }

  lemma SixthByte(cfg: Config, w: seq<byte>, ahead: nat -> byte)
    requires |w| >= 7 && Recognised(cfg, Isb, w, ahead)
    ensures FrameSize(w) <= MAX_ISB
  {
    hide IsbChecksumOk, IsbTypeVerdict;
    var v := w[..6];
    assert v[4] == w[4] && v[5] == w[5];
    assert Judge(cfg, Isb, v, Nowhere()).More?;
  }

  lemma IsbRebuilt(w: seq<byte>)
    requires |w| >= 8 && |w| == 8 + PayloadSize(w) && w[0] == 0xEF && w[1] == 0x49 && FrameChecksumOk(w)
    ensures w == IsbFrame(w[2], w[3], w[6..|w| - 2])
  {
    hide F.Fletcher16;
    var payload := w[6..|w| - 2];
    assert Lo(|payload|) == w[4] && Hi(|payload|) == w[5];
    var head := [0xEF, 0x49, w[2], w[3], Lo(|payload|), Hi(|payload|)] + payload;
    assert head == w[..|w| - 2];
    SameWord(w[|w| - 2], w[|w| - 1], F.Fletcher16(F.ZERO, head).a, F.Fletcher16(F.ZERO, head).b);
    assert w == head + [w[|w| - 2], w[|w| - 1]];
  }

  lemma IsbDecoded(cfg: Config, w: seq<byte>, ahead: nat -> byte)
    requires |w| >= 2 && Recognised(cfg, Isb, w, ahead)
    ensures IsIsb(w, ahead) || IsWrapped(Isb, w, ahead)
  {
    IsbEnds(cfg, w, ahead);
    hide Recognised, Judge, IsbTypeVerdict, FrameChecksumOk, IsbChecksumOk;
    if PayloadSize(w) < 65528 {
      IsbChecksumOfFrame(w, ahead);
      IsbRebuilt(w);
    }
  }

  /** The recogniser accepts exactly the ISB frames of a usable type, and wrapped headers. */
  lemma IsbExactly(cfg: Config, w: seq<byte>, ahead: nat -> byte)
    requires |w| >= 2
    ensures Recognised(cfg, Isb, w, ahead) <==> IsIsb(w, ahead) || IsWrapped(Isb, w, ahead)
  {
    hide Recognised, IsIsb, IsWrapped;
    if IsIsb(w, ahead) {
      IsbAccepted(cfg, w, ahead);
    }
    if IsWrapped(Isb, w, ahead) {
      IsbWrapped(cfg, w, ahead);
    }
    if Recognised(cfg, Isb, w, ahead) {
      IsbDecoded(cfg, w, ahead);
    }
  }

  // ----- RTCM3 --------------------------------------------------------------------------------

  lemma Split24(c: nat)
    requires c < 0x1000000
    ensures BigEndian24(Lo(c / 0x10000), Lo(c / 0x100), Lo(c)) == c
  {
    var h: nat := c / 0x100;
    assert c == 0x100 * h + c % 0x100 && h == 0x100 * (h / 0x100) + h % 0x100;
    assert c / 0x10000 == h / 0x100 < 0x100;
  }

  lemma Rebuild24(a: byte, b: byte, d: byte)
    ensures var c := BigEndian24(a, b, d); c >= 0 && Lo(c / 0x10000) == a && Lo(c / 0x100) == b && Lo(c) == d
  {
  }

  lemma LengthBits(reserved: nat, length: nat)
    requires reserved < 64 && length < 1024
    ensures Reserved(reserved, length) as int % 4 * 256 + Lo(length) as int == length
  {
  }

  lemma LengthRebuilt(a: byte, b: byte)
    ensures var n := a as int % 4 * 256 + b as int;
      0 <= n < 1024 && Reserved(a / 4, n) == a && Lo(n) == b
  {
  }

  lemma Rtcm3Parts(reserved: nat, payload: seq<byte>)
    requires reserved < 64 && |payload| < 1024
    ensures var w := Rtcm3Frame(reserved, payload);
      && |w| == 6 + |payload| && w[0] == 0xD3 && Rtcm3Size(w) == |w| && Rtcm3ChecksumOk(w)
  {
    hide Crc24.Crc, Octets, Lo, BigEndian24;
    var head := [0xD3, Reserved(reserved, |payload|), Lo(|payload|)] + payload;
    var w := Rtcm3Frame(reserved, payload);
    assert w[..|w| - 3] == head;
    LengthBits(reserved, |payload|);
    Split24(Crc24.Crc(Octets(head)) as nat);
  }

  lemma Rtcm3More(cfg: Config, w: seq<byte>, k: nat)
    requires 6 <= |w| <= MAX_RTCM && |w| <= Rtcm3Room(cfg) && Rtcm3Size(w) == |w| && 2 <= k < |w|
    ensures Judge(cfg, Rtcm3, w[..k], Nowhere()).More?
  {
    hide Rtcm3ChecksumOk;
    var v := w[..k];
    if k >= 3 {
      assert v[1] == w[1] && v[2] == w[2];
    }
  }

  lemma Rtcm3Whole(cfg: Config, w: seq<byte>, ahead: nat -> byte)
    requires |w| >= 6 && Rtcm3Size(w) == |w| && Rtcm3ChecksumOk(w)
    ensures Judge(cfg, Rtcm3, w, ahead).Accept?
  {
    hide Rtcm3ChecksumOk;
  }

  lemma Rtcm3Accepted(cfg: Config, w: seq<byte>, ahead: nat -> byte)
    requires IsRtcm3(cfg, w)
    ensures Recognised(cfg, Rtcm3, w, ahead)
  {
    hide Rtcm3Frame, Judge, Rtcm3Size, Rtcm3ChecksumOk;
    Rtcm3Parts(w[1] / 4, w[3..|w| - 3]);
    Rtcm3Whole(cfg, w, ahead);
    forall k | 2 <= k < |w| ensures Judge(cfg, Rtcm3, w[..k], Nowhere()).More? {
      Rtcm3More(cfg, w, k);
    }
  }

  lemma Rtcm3Ends(cfg: Config, w: seq<byte>, ahead: nat -> byte)
    requires |w| >= 2 && Recognised(cfg, Rtcm3, w, ahead)
    ensures 6 <= |w| <= MAX_RTCM && |w| <= Rtcm3Room(cfg) && w[0] == 0xD3 && Rtcm3Size(w) == |w| && Rtcm3ChecksumOk(w)
  {
    SecondByte(cfg, Rtcm3, w, ahead);
    MoreBefore(cfg, Rtcm3, w, ahead);
    hide Rtcm3ChecksumOk;
    if |w| > 3 {
      var v := w[..3];
      assert v[1] == w[1] && v[2] == w[2];
      assert Judge(cfg, Rtcm3, v, Nowhere()).More?;
    }
  }

  lemma Rtcm3Rebuilt(w: seq<byte>)
    requires |w| >= 6 && w[0] == 0xD3 && Rtcm3Size(w) == |w| && Rtcm3ChecksumOk(w) && |w| < 1030
    ensures w == Rtcm3Frame(w[1] / 4, w[3..|w| - 3])
  {
    hide Crc24.Crc, Octets, Lo, BigEndian24, Reserved;
    var payload := w[3..|w| - 3];
    LengthRebuilt(w[1], w[2]);
    assert |payload| == w[1] as int % 4 * 256 + w[2] as int;
    hide Rtcm3Size;
    Reassembled(w, w[1] / 4, payload);
  }

  lemma Reassembled(w: seq<byte>, reserved: nat, payload: seq<byte>)
    requires reserved < 64 && |payload| < 1024 && |w| == 6 + |payload| && payload == w[3..|w| - 3]
    requires w[0] == 0xD3 && Reserved(reserved, |payload|) == w[1] && Lo(|payload|) == w[2]
    requires Crc24.Crc(Octets(w[..|w| - 3])) as int == BigEndian24(w[|w| - 3], w[|w| - 2], w[|w| - 1])
    ensures w == Rtcm3Frame(reserved, payload)
  {
    hide Crc24.Crc, Octets, Lo, BigEndian24, Reserved;
    var head := [0xD3, Reserved(reserved, |payload|), Lo(|payload|)] + payload;
    assert head == w[..|w| - 3];
    Rebuild24(w[|w| - 3], w[|w| - 2], w[|w| - 1]);
    assert w == head + [w[|w| - 3], w[|w| - 2], w[|w| - 1]];
  }

  /** The recogniser accepts exactly the RTCM3 frames of a length it has room for. */
  lemma Rtcm3Exactly(cfg: Config, w: seq<byte>, ahead: nat -> byte)
    requires |w| >= 2
    ensures Recognised(cfg, Rtcm3, w, ahead) <==> IsRtcm3(cfg, w)
  {
    if IsRtcm3(cfg, w) {
      Rtcm3Accepted(cfg, w, ahead);
    }
    hide Recognised, Rtcm3Frame;
    if Recognised(cfg, Rtcm3, w, ahead) {
      Rtcm3Ends(cfg, w, ahead);
      Rtcm3Rebuilt(w);
    }
  }

  // ----- Sony ---------------------------------------------------------------------------------

  lemma SonyParts(opcode: byte, data: seq<byte>)
    requires |data| < 0x10000
    ensures var w := SonyFrame(opcode, data);
      && |w| == 6 + |data| && w[0] == 0x7F && SonyDataSize(w) == |data| && F.Plain(w[..4]) % 256 == w[4]
      && F.Plain(w[5..5 + |data|]) % 256 == w[|w| - 1]
  {
    hide F.Plain, Le16, Hi;
    var w := SonyFrame(opcode, data);
    assert w[..4] == [0x7F, Lo(|data|), Hi(|data|), opcode];
    assert w[5..5 + |data|] == data;
    Le16RoundTrip(|data|);
  }

  lemma SonyMore(cfg: Config, w: seq<byte>, k: nat)
    requires |w| >= 6 && |w| == SonyDataSize(w) + 6 <= MAX_SONY + 6 && |w| <= cfg.size + 6 && 2 <= k < |w|
    requires F.Plain(w[..4]) % 256 == w[4]
    ensures Judge(cfg, Sony, w[..k], Nowhere()).More?
  {
    hide F.Plain;
    var v := w[..k];
    if k >= 5 {
      assert v[1] == w[1] && v[2] == w[2] && v[4] == w[4] && v[..4] == w[..4];
    }
  }

  lemma SonyWhole(cfg: Config, w: seq<byte>, ahead: nat -> byte)
    requires |w| >= 6 && |w| == SonyDataSize(w) + 6 && F.Plain(w[5..|w| - 1]) % 256 == w[|w| - 1]
    ensures Judge(cfg, Sony, w, ahead).Accept?
  {
    hide F.Plain;
  }

  lemma SonyAccepted(cfg: Config, w: seq<byte>, ahead: nat -> byte)
    requires IsSony(cfg, w)
    ensures Recognised(cfg, Sony, w, ahead)
  {
    hide SonyFrame, F.Plain, SonyDataSize, Judge;
    SonyParts(w[3], w[5..|w| - 1]);
    SonyWhole(cfg, w, ahead);
    forall k | 2 <= k < |w| ensures Judge(cfg, Sony, w[..k], Nowhere()).More? {
      SonyMore(cfg, w, k);
    }
  }

  lemma SonyEnds(cfg: Config, w: seq<byte>, ahead: nat -> byte)
    requires |w| >= 2 && Recognised(cfg, Sony, w, ahead)
    ensures 6 <= |w| <= MAX_SONY + 6 && |w| <= cfg.size + 6 && w[0] == 0x7F && |w| == SonyDataSize(w) + 6
    ensures F.Plain(w[..4]) % 256 == w[4] && F.Plain(w[5..|w| - 1]) % 256 == w[|w| - 1]
  {
    SecondByte(cfg, Sony, w, ahead);
    MoreBefore(cfg, Sony, w, ahead);
    hide F.Plain;
    if |w| >= 6 {
      var v := w[..5];
      assert v[1] == w[1] && v[2] == w[2] && v[4] == w[4] && v[..4] == w[..4];
      assert Judge(cfg, Sony, v, Nowhere()).More?;
    }
  }

  lemma SonyRebuilt(w: seq<byte>)
    requires |w| >= 6 && w[0] == 0x7F && |w| == SonyDataSize(w) + 6
    requires F.Plain(w[..4]) % 256 == w[4] && F.Plain(w[5..|w| - 1]) % 256 == w[|w| - 1]
    ensures w == SonyFrame(w[3], w[5..|w| - 1])
  {
    hide F.Plain;
    var data := w[5..|w| - 1];
    assert Lo(|data|) == w[1] && Hi(|data|) == w[2];
    var head := [0x7F, Lo(|data|), Hi(|data|), w[3]];
    assert head == w[..4];
    assert w == w[..4] + [w[4]] + data + [w[|w| - 1]];
  }

  /** The recogniser accepts exactly the Sony frames of a length it has room for. */
  lemma SonyExactly(cfg: Config, w: seq<byte>, ahead: nat -> byte)
    requires |w| >= 2
    ensures Recognised(cfg, Sony, w, ahead) <==> IsSony(cfg, w)
  {
    if IsSony(cfg, w) {
      SonyAccepted(cfg, w, ahead);
    }
    hide Recognised, SonyFrame, F.Plain;
    if Recognised(cfg, Sony, w, ahead) {
      SonyEnds(cfg, w, ahead);
      SonyRebuilt(w);
    }
  }

  // ----- NMEA ---------------------------------------------------------------------------------

  lemma NmeaAccepted(cfg: Config, w: seq<byte>, ahead: nat -> byte)
    requires IsNmea(w)
    ensures Recognised(cfg, Nmea, w, ahead)
  {
    hide Strtol, XorAll;
    forall k | 2 <= k < |w| ensures Judge(cfg, Nmea, w[..k], Nowhere()).More? {
      var v := w[..k];
      assert v[k - 2] == w[k - 2] && v[k - 1] == w[k - 1];
      assert w[k - 2] != 13 && (k - 1 > 200 ==> w[k - 1] == 13);
    }
  }

  lemma NmeaEnds(cfg: Config, w: seq<byte>, ahead: nat -> byte)
    requires |w| >= 2 && Recognised(cfg, Nmea, w, ahead)
    ensures 8 <= |w| <= 203 && w[0] == 0x24 && w[|w| - 2] == 13 && (forall i :: 1 <= i < |w| - 2 ==> w[i] != 13)
    ensures Strtol(w[|w| - 4], w[|w| - 3]) == XorAll(w[1..|w| - 5])
  {
    hide Strtol, XorAll;
    forall i | 1 <= i < |w| - 2 ensures w[i] != 13 && i <= 200 {
      assert Judge(cfg, Nmea, w[..i + 2], Nowhere()).More?;
      assert w[..i + 2][i] == w[i];
      assert i >= 1 && w[..i + 1][i] == w[i];
      assert Judge(cfg, Nmea, w[..i + 1], Nowhere()).More?;
      if i >= 2 {
        assert w[..i + 1][i - 1] == w[i - 1];
      }
    }
    if |w| >= 4 {
      assert w[|w| - 3] != 13;
    }
  }

  /** The recogniser accepts exactly these sentences; the asterisk and the line feed are not looked at. */
  lemma NmeaExactly(cfg: Config, w: seq<byte>, ahead: nat -> byte)
    requires |w| >= 2
    ensures Recognised(cfg, Nmea, w, ahead) <==> IsNmea(w)
  {
    if IsNmea(w) {
      NmeaAccepted(cfg, w, ahead);
    }
    hide Recognised, Strtol, XorAll;
    if Recognised(cfg, Nmea, w, ahead) {
      NmeaEnds(cfg, w, ahead);
      var n := |w|;
      assert w == [0x24] + w[1..n - 5] + [w[n - 5], w[n - 4], w[n - 3], 13, w[n - 1]];
    }
  }

  lemma {:induction false} XorIsByte(s: seq<byte>)
    ensures XorAll(s) < 256
    decreases |s|
  {
    hide Gf2.Xor;
    if s != [] {
      XorIsByte(s[..|s| - 1]);
      assert Gf2.Pow(8) == 256;
      Gf2.XorBound(XorAll(s[..|s| - 1]), s[|s| - 1], 8);
    }
  }

  /** The character of a hex digit. */
  function HexChar(d: nat): (c: byte)
    requires d < 16
    ensures HexDigit(c) == Some(d) && c != 13
  {
    if d < 10 then 48 + d else 55 + d
  }

  lemma TwoHexChars(n: nat)
    requires n < 256
    ensures Strtol(HexChar(n / 16), HexChar(n % 16)) == n
  {
  }

  /** A sentence without its line feed is accepted as well: any byte at all may stand in its place. */
  lemma LineFeedNotNeeded(cfg: Config, body: seq<byte>, last: byte, ahead: nat -> byte)
    requires 2 <= |body| <= 197 && forall i :: 0 <= i < |body| ==> body[i] != 13
    ensures var x := XorAll(body);
      x < 256 && Recognised(cfg, Nmea, NmeaSentence(body, 42, HexChar(x / 16), HexChar(x % 16), last), ahead)
  {
    XorIsByte(body);
    var x := XorAll(body);
    TwoHexChars(x);
    hide *;
    SentenceIsNmea(body, HexChar(x / 16), HexChar(x % 16), last);
    NmeaExactly(cfg, NmeaSentence(body, 42, HexChar(x / 16), HexChar(x % 16), last), ahead);
  }

  lemma SentenceIsNmea(body: seq<byte>, high: byte, low: byte, last: byte)
    requires 2 <= |body| <= 197 && (forall i :: 0 <= i < |body| ==> body[i] != 13) && high != 13 && low != 13
    requires Strtol(high, low) == XorAll(body)
    ensures IsNmea(NmeaSentence(body, 42, high, low, last))
  {
    hide XorAll, Strtol;
    var w := NmeaSentence(body, 42, high, low, last);
    assert w[1..|w| - 5] == body;
  }

  // ----- SPARTN -------------------------------------------------------------------------------

  lemma SpartnHead(w: seq<byte>, k: nat)
    requires 4 <= k <= |w|
    ensures SpartnHeaderOk(w[..k]) == SpartnHeaderOk(w)
    ensures k >= 5 ==> SpartnHeaderSize(w[..k]) == SpartnHeaderSize(w)
    ensures k >= 5 && k >= SpartnHeaderSize(w) ==> SpartnSize(w[..k]) == SpartnSize(w)
  {
    hide Crc4;
    assert w[..k][1] == w[1] && w[..k][2] == w[2] && w[..k][3] == w[3];
  }

  lemma SpartnMore(cfg: Config, w: seq<byte>, k: nat)
    requires IsSpartn(w) && 2 <= k < |w|
    ensures Judge(cfg, Spartn, w[..k], Nowhere()).More?
  {
    if k >= 4 {
      SpartnHead(w, k);
    }
    hide SpartnHeaderOk, SpartnHeaderSize, SpartnSize;
  }

  lemma SpartnDecoded(cfg: Config, w: seq<byte>, ahead: nat -> byte)
    requires |w| >= 2 && Recognised(cfg, Spartn, w, ahead)
    ensures IsSpartn(w)
  {
    SecondByte(cfg, Spartn, w, ahead);
    MoreBefore(cfg, Spartn, w, ahead);
    var k := |w| - 1;
    if k >= 4 {
      assert Judge(cfg, Spartn, w[..4], Nowhere()).More?;
      SpartnHead(w, 4);
      SpartnHead(w, k);
    }
    hide SpartnHeaderOk, SpartnSize;
  }

  /** The recogniser accepts exactly the frames of the length that a header with the right CRC declares. */
  lemma SpartnExactly(cfg: Config, w: seq<byte>, ahead: nat -> byte)
    requires |w| >= 2
    ensures Recognised(cfg, Spartn, w, ahead) <==> IsSpartn(w)
  {
    if IsSpartn(w) {
      forall k | 2 <= k < |w| ensures Judge(cfg, Spartn, w[..k], Nowhere()).More? {
        SpartnMore(cfg, w, k);
      }
    }
    hide SpartnHeaderOk, SpartnSize;
    if Recognised(cfg, Spartn, w, ahead) {
      SpartnDecoded(cfg, w, ahead);
    }
  }

  // ----- all of them --------------------------------------------------------------------------

  /** Every recogniser stays undecided through a frame of its protocol and accepts it at its last byte, and accepts
      nothing else but the wrapped headers. */
  lemma AcceptsExactlyFrames(cfg: Config, p: Protocol, w: seq<byte>, ahead: nat -> byte)
    requires |w| >= 2
    ensures Recognised(cfg, p, w, ahead) <==> IsFrame(cfg, p, w, ahead) || IsWrapped(p, w, ahead)
  {
    hide Recognised, IsIsb, IsNmea, IsUblox, IsRtcm3, IsSpartn, IsSony;
    match p
    case Isb => IsbExactly(cfg, w, ahead);
    case Nmea => NmeaExactly(cfg, w, ahead);
    case Ublox => UbloxExactly(cfg, w, ahead);
    case Rtcm3 => Rtcm3Exactly(cfg, w, ahead);
    case Spartn => SpartnExactly(cfg, w, ahead);
    case Sony => SonyExactly(cfg, w, ahead);
  }

  lemma FrameLength(cfg: Config, p: Protocol, w: seq<byte>, ahead: nat -> byte)
    requires IsFrame(cfg, p, w, ahead)
    ensures |w| >= 6
  {
  }

  /** A frame of an enabled protocol whose bytes settle its verdict is one for the theorems about feeding and
      reading. */
  lemma FrameIsFramed(cfg: Config, p: Protocol, w: seq<byte>)
    requires IsFrame(cfg, p, w, Nowhere()) && p in cfg.enabled && SelfContained(p, w)
    ensures |w| >= 6 && Judge(cfg, p, w, Nowhere()).Accept?
    ensures Framed(cfg, p, Judge(cfg, p, w, Nowhere()).found, w)
  {
    hide IsFrame, Judge, SelfContained, Undecided, Recognised;
    FrameRecognised(cfg, p, w, Nowhere());
    RecognisedUndecided(cfg, p, w);
    JudgedLength(cfg, p, w);
  }

  /** So is one that a flush spares for those that ask for this as well. */
  lemma FrameIsWhole(cfg: Config, p: Protocol, w: seq<byte>)
    requires IsFrame(cfg, p, w, Nowhere()) && p in cfg.enabled && SelfContained(p, w) && |w| <= Spared(cfg)
    ensures |w| >= 6 && Judge(cfg, p, w, Nowhere()).Accept?
    ensures Whole(cfg, p, Judge(cfg, p, w, Nowhere()).found, w)
  {
    FrameIsFramed(cfg, p, w);
    hide IsFrame, Judge, SelfContained, Framed;
  }

  lemma FrameRecognised(cfg: Config, p: Protocol, w: seq<byte>, ahead: nat -> byte)
    requires IsFrame(cfg, p, w, ahead)
    ensures |w| >= 6 && Recognised(cfg, p, w, ahead)
  {
    FrameLength(cfg, p, w, ahead);
    hide IsFrame, IsWrapped, Recognised;
    AcceptsExactlyFrames(cfg, p, w, ahead);
  }

  lemma RecognisedUndecided(cfg: Config, p: Protocol, w: seq<byte>)
    requires |w| >= 2 && Recognised(cfg, p, w, Nowhere()) && p in cfg.enabled
    ensures Undecided(cfg, p, w[..|w| - 1]) && Judge(cfg, p, w, Nowhere()).Accept?
  {
    hide Judge;
    PrefixesUndecided(cfg, p, w);
  }

  lemma PrefixesUndecided(cfg: Config, p: Protocol, w: seq<byte>)
    requires |w| >= 2 && StartOf(w[0]) == Some(p) && p in cfg.enabled
    requires forall k :: 2 <= k < |w| ==> Judge(cfg, p, w[..k], Nowhere()).More?
    ensures Undecided(cfg, p, w[..|w| - 1])
  {
    hide Judge;
    var v := w[..|w| - 1];
    forall k | 2 <= k <= |v| ensures Judge(cfg, p, v[..k], Nowhere()).More? {
      assert v[..k] == w[..k];
    }
    assert v[0] == w[0];
  }

  lemma JudgedLength(cfg: Config, p: Protocol, w: seq<byte>)
    requires |w| >= 2 && Judge(cfg, p, w, Nowhere()).Accept?
    ensures |w| >= Shortest(p)
  {
    hide Judge;
  }

  // ----- ISB frames of any type ---------------------------------------------------------------

  lemma IsbShape(flags: byte, id: byte, payload: seq<byte>)
    requires 8 + |payload| <= MAX_ISB
    ensures var w := IsbFrame(flags, id, payload);
      && |w| == 8 + |payload| && w[0] == 0xEF && w[1] == 0x49 && w[2] == flags && w[3] == id
      && PayloadSize(w) == |payload| && FrameChecksumOk(w) && w[6..|w| - 2] == payload
  {
    IsbParts(flags, id, payload);
    hide F.Fletcher16, Lo, Hi, FrameChecksumOk, PayloadSize;
  }

  /** An ISB frame with a right checksum leaves the recogniser undecided up to its last byte, and is then judged by its
      type. */
  lemma IsbJudged(cfg: Config, flags: byte, id: byte, payload: seq<byte>, ahead: nat -> byte)
    requires 8 + |payload| <= MAX_ISB && Isb in cfg.enabled
    ensures var w := IsbFrame(flags, id, payload);
      && |w| == 8 + |payload| && Undecided(cfg, Isb, w[..|w| - 1])
      && Judge(cfg, Isb, w, ahead) == IsbTypeVerdict(w, ahead)
  {
    var w := IsbFrame(flags, id, payload);
    IsbShape(flags, id, payload);
    hide IsbFrame;
    IsbChecksumOfFrame(w, ahead);
    hide FrameChecksumOk, IsbTypeVerdict, IsbChecksumOk;
    forall k | 2 <= k < |w| ensures Judge(cfg, Isb, w[..k], Nowhere()).More? {
      IsbMore(cfg, w, k);
    }
    PrefixesUndecided(cfg, Isb, w);
  }

  lemma CommandType(w: seq<byte>)
    requires |w| >= 8 && w[2] == 6 && PayloadSize(w) < 65528
    ensures IsbTypeVerdict(w, Nowhere()) == Accept(IsbCmd) && SelfContained(Isb, w)
  {
    hide PayloadSize, FrameChecksumOk;
  }

  lemma FramedBy(cfg: Config, p: Protocol, found: Found, w: seq<byte>)
    requires |w| >= Shortest(p) && p in cfg.enabled && Undecided(cfg, p, w[..|w| - 1]) && SelfContained(p, w)
    requires Judge(cfg, p, w, Nowhere()) == Accept(found)
    ensures Framed(cfg, p, found, w)
  {
  }

  lemma CommandFramed(cfg: Config, payload: seq<byte>)
    requires 8 + |payload| <= MAX_ISB && Isb in cfg.enabled
    ensures var w := IsbFrame(6, 0, payload); |w| == 8 + |payload| && w[2] == 6 && PayloadSize(w) == |payload|
    ensures Framed(cfg, Isb, IsbCmd, IsbFrame(6, 0, payload))
  {
    assert |payload| < 65528;
    hide *;
    var w := IsbFrame(6, 0, payload);
    IsbShape(6, 0, payload);
    IsbJudged(cfg, 6, 0, payload, Nowhere());
    CommandType(w);
    ShortestIsb();
    FramedBy(cfg, Isb, IsbCmd, w);
  }

  lemma ShortestIsb()
    ensures Shortest(Isb) == 7
  {
  }

  // ----- where the parts of the other frames are ------------------------------------------------

  lemma UbloxShape(class_: byte, id: byte, payload: seq<byte>)
    requires |payload| < 65528
    ensures var w := UbloxFrame(class_, id, payload); |w| == 8 + |payload| && w == UbloxFrame(w[2], w[3], w[6..|w| - 2])
  {
    hide F.Fletcher16, Lo, Hi;
    var w := UbloxFrame(class_, id, payload);
    assert w[2] == class_ && w[3] == id && w[6..|w| - 2] == payload;
  }

  lemma Rtcm3Shape(reserved: nat, payload: seq<byte>)
    requires reserved < 64 && |payload| < 1024
    ensures var w := Rtcm3Frame(reserved, payload); |w| == 6 + |payload| && w == Rtcm3Frame(w[1] / 4, w[3..|w| - 3])
  {
    hide Crc24.Crc, Octets, Lo;
    var w := Rtcm3Frame(reserved, payload);
    assert w[1] / 4 == reserved && w[3..|w| - 3] == payload;
  }

  lemma SonyShape(opcode: byte, data: seq<byte>)
    requires |data| < 0x10000
    ensures var w := SonyFrame(opcode, data); |w| == 6 + |data| && w == SonyFrame(w[3], w[5..|w| - 1])
  {
    hide F.Plain, Lo, Hi;
    var w := SonyFrame(opcode, data);
    assert w[3] == opcode && w[5..|w| - 1] == data;
  }

  // ----- encoded messages ---------------------------------------------------------------------

  /** The encoder builds ISB frames. */
  lemma EncodedIsIsbFrame(m: E.Message)
    requires |E.OffsetBytes(m)| + |m.data| < 0x10000
    ensures E.Frame(m) == IsbFrame(E.FlagsOf(m), m.did % 256, E.OffsetBytes(m) + m.data)
  {
    hide F.Fletcher16, E.FlagsOf, E.OffsetBytes;
    var payload := E.OffsetBytes(m) + m.data;
    assert E.Head(m) + m.data == [0xEF, 0x49, E.FlagsOf(m), m.did % 256, Lo(|payload|), Hi(|payload|)] + payload;
  }
}
