/** The six framings the receiver recognises, each as a verdict on the bytes seen since the start byte. */
module Protocols {
  import opened Bytes
  import Crc24
  import F = Fletcher
  import Gf2

  datatype Protocol = Isb | Nmea | Ublox | Rtcm3 | Spartn | Sony

  datatype ParseError =
    | InvalidPreamble
    | InvalidSize
    | InvalidChksum
    | InvalidDatatype
    | MissingEosMarker
    | IncompletePacket
    | InvalidHeader
    | InvalidPayload
    | RxBufferFlushed
    | StreamUnparsable

  /** What a parse call reports. */
  datatype Found =
    | Nothing
    | ParseFailure
    | IsbAck
    | IsbCmd
    | IsbData
    | NmeaSentence
    | UbloxPacket
    | Rtcm3Packet
    | SpartnPacket
    | SonyPacket
  {
    predicate IsPacket() {
      !Nothing? && !ParseFailure?
    }

    predicate IsIsb() {
      IsbAck? || IsbCmd? || IsbData?
    }
  }

  /** The answer of a recogniser to the bytes from a start byte up to the current one. */
  datatype Verdict =
    | More                       // not decided yet
    | Accept(found: Found)       // the frame ends here
    | Reject(error: ParseError)  // the start byte was not the start of a frame
    | BadType                    // a checksum-valid ISB frame of an unusable type ends here

  /** The settings of a receiver, and what the parser takes from its surroundings. */
  datatype Config = Config(
    enabled: set<Protocol>,
    size: nat,                     // bytes in the receive buffer
    outside: nat -> byte,          // the memory after the receive buffer
    nmeaId: seq<byte> -> nat,      // message identifier of an NMEA sentence
    rtcmId: seq<byte> -> nat)      // message identifier of an RTCM3 packet

  function StartOf(b: byte): Option<Protocol> {
    match b
    case 0xEF => Some(Isb)
    case 0x24 => Some(Nmea)
    case 0xB5 => Some(Ublox)
    case 0xD3 => Some(Rtcm3)
    case 0x73 => Some(Spartn)
    case 0x7F => Some(Sony)
    case _ => None
  }

  /** The bytes from the start byte on: those seen, then whatever lies behind them in memory. */
  function Seen(w: seq<byte>, ahead: nat -> byte): nat -> byte {
    (i: nat) => if i < |w| then w[i] else ahead(i)
  }

  /** No frame of a protocol is shorter than this. */
  function Shortest(p: Protocol): nat {
    match p
    case Isb => 7
    case Nmea => 8
    case Ublox => 7
    case Rtcm3 => 6
    case Spartn => 9
    case Sony => 6
  }

  function Judge(cfg: Config, p: Protocol, w: seq<byte>, ahead: nat -> byte): (v: Verdict)
    requires |w| >= 2
    ensures v.Accept? || v.BadType? ==> |w| >= Shortest(p)
    ensures v.BadType? ==> p.Isb?
    ensures v.Accept? ==> v.found.IsPacket() && (v.found.IsIsb() <==> p.Isb?)
    ensures v.Reject? ==> v.error != InvalidDatatype && v.error != MissingEosMarker
  {
    match p
    case Isb => IsbVerdict(w, ahead)
    case Nmea => NmeaVerdict(w)
    case Ublox => UbloxVerdict(w)
    case Rtcm3 => Rtcm3Verdict(cfg, w)
    case Spartn => SpartnVerdict(w)
    case Sony => SonyVerdict(cfg, w)
  }

  // ----- Inertial Sense binary ------------------------------------------------------------

  const MAX_ISB := 2048
  const MAX_DATASET := 1024

  function PayloadSize(w: seq<byte>): nat
    requires |w| >= 6
  {
    Le16(w[4], w[5])
  }

  /** Header, payload and checksum, as stored in the 16-bit size field. ISB and UBX headers agree here. */
  function FrameSize(w: seq<byte>): (n: nat)
    requires |w| >= 6
    ensures PayloadSize(w) < 65528 ==> n == 8 + PayloadSize(w)
    ensures PayloadSize(w) >= 65528 ==> n == PayloadSize(w) - 65528 < 8
  {
    (8 + PayloadSize(w)) % 0x10000
  }

  /** The number of bytes summed: the size less two, as an unsigned 32-bit value. */
  function SummedBytes(w: seq<byte>): nat
    requires |w| >= 6
  {
    var n := FrameSize(w);
    if n >= 2 then n - 2 else n + 0xFFFF_FFFE
  }

  function StoredChecksum(w: seq<byte>, ahead: nat -> byte): nat
    requires |w| >= 6
  {
    Le16(Seen(w, ahead)(6 + PayloadSize(w)), Seen(w, ahead)(7 + PayloadSize(w)))
  }

  predicate IsbChecksumOk(w: seq<byte>, ahead: nat -> byte)
    requires |w| >= 6
  {
    StoredChecksum(w, ahead) == F.Fletcher16(F.ZERO, Slice(Seen(w, ahead), 0, SummedBytes(w))).Word()
  }

  function PacketType(w: seq<byte>): nat
    requires |w| >= 6
  {
    w[2] % 16
  }

  /** Whether the payload starts with a two-byte offset. */
  predicate HasOffset(w: seq<byte>)
    requires |w| >= 6
  {
    w[2] / 32 % 2 == 1
  }

  function DataSize(w: seq<byte>): nat
    requires |w| >= 6
  {
    if HasOffset(w) then (if PayloadSize(w) < 2 then 0 else PayloadSize(w) - 2) else PayloadSize(w)
  }

  /** The size field of a data request, read at its place even when the payload is too short to hold it. */
  function RequestedSize(w: seq<byte>, ahead: nat -> byte): nat {
    Le16(Seen(w, ahead)(8), Seen(w, ahead)(9))
  }

  function IsbTypeVerdict(w: seq<byte>, ahead: nat -> byte): Verdict
    requires |w| >= 6
  {
    match PacketType(w)
    case 4 => if DataSize(w) <= MAX_DATASET then Accept(IsbData) else BadType
    case 5 => if DataSize(w) <= MAX_DATASET then Accept(IsbData) else BadType
    case 3 => if RequestedSize(w, ahead) <= MAX_DATASET then Accept(IsbCmd) else BadType
    case 6 => Accept(IsbCmd)
    case 7 => Accept(IsbCmd)
    case 8 => Accept(IsbCmd)
    case 1 => Accept(IsbAck)
    case 2 => Accept(IsbAck)
    case _ => BadType
  }

  /** The answer owed to the sender: 1 acknowledges, 2 refuses, 0 is none. */
  function AckFor(w: seq<byte>): nat
    requires |w| >= 6
  {
    if PacketType(w) == 5 && DataSize(w) <= MAX_DATASET then 1
    else if (PacketType(w) == 4 || PacketType(w) == 5) && DataSize(w) > MAX_DATASET then 2
    else 0
  }

  function IsbVerdict(w: seq<byte>, ahead: nat -> byte): Verdict
    requires |w| >= 2
  {
    if |w| == 2 then if w[1] == 0x49 then More else Reject(InvalidPreamble)
    else if |w| < 6 then More
    else if |w| == 6 then if FrameSize(w) > MAX_ISB then Reject(InvalidSize) else More
    else if |w| < FrameSize(w) then More
    else if !IsbChecksumOk(w, ahead) then Reject(InvalidChksum)
    else IsbTypeVerdict(w, ahead)
  }

  // ----- NMEA 0183 ------------------------------------------------------------------------

  function HexDigit(c: byte): Option<nat> {
    var n: int := c;
    if 48 <= n <= 57 then Some(n - 48)
    else if 65 <= n <= 70 then Some(n - 55)
    else if 97 <= n <= 102 then Some(n - 87)
    else None
  }

  function DigitOrZero(c: byte): nat {
    match HexDigit(c) case Some(d) => d case None => 0
  }

  function Minus(n: int): int {
    -n
  }

  /** `strtol` in base 16 on two characters and a terminator: white space, a sign and other characters included. */
  function Strtol(c: byte, d: byte): int {
    if 9 <= c <= 13 || c == 32 || c == 43 then DigitOrZero(d)
    else if c == 45 then Minus(DigitOrZero(d))
    else match HexDigit(c)
      case None => 0
      case Some(h) => match HexDigit(d) case None => h case Some(l) => 16 * h + l
  }

  /** Exclusive or of all bytes. */
  function XorAll(s: seq<byte>): nat {
    if s == [] then 0 else Gf2.Xor(XorAll(s[..|s| - 1]), s[|s| - 1])
  }

  function NmeaVerdict(w: seq<byte>): Verdict
    requires |w| >= 2
  {
    var n := |w|;
    if w[n - 2] == 13 then  // the byte after the carriage return ends the sentence, whatever it is
      if n < 8 then Reject(IncompletePacket)
      else if Strtol(w[n - 4], w[n - 3]) != XorAll(w[1..n - 5]) then Reject(InvalidChksum)
      else Accept(NmeaSentence)
    else if w[n - 1] != 13 && n - 1 > 200 then Reject(InvalidSize)
    else More
  }

  // ----- UBX (u-blox F9 interface description, sections 3.2 and 3.4) ------------------------

  function UbloxVerdict(w: seq<byte>): Verdict
    requires |w| >= 2
  {
    var n := |w|;
    if n == 2 then if w[1] == 0x62 then More else Reject(InvalidPreamble)
    else if n <= 6 || n < FrameSize(w) then More
    else if Le16(w[n - 2], w[n - 1]) != F.Fletcher16(F.ZERO, w[2..n - 2]).Word() then Reject(InvalidChksum)
    else Accept(UbloxPacket)
  }

  // ----- RTCM3 (RTCM 10403, section 4) ------------------------------------------------------

  const MAX_RTCM := 1023

  /** Header, the payload the ten length bits declare, and checksum. */
  function Rtcm3Size(w: seq<byte>): (n: nat)
    requires |w| >= 3
    ensures n >= 6
  {
    var hi: int, lo: int := w[1], w[2];
    hi % 4 * 256 + lo + 6
  }

  /** The room an RTCM3 frame may take: six bytes less than the buffer, as an unsigned 32-bit value. */
  function Rtcm3Room(cfg: Config): nat {
    if cfg.size >= 6 then cfg.size - 6 else cfg.size + 0xFFFF_FFFA
  }

  function Octets(s: seq<byte>): (o: seq<bv8>)
    ensures |o| == |s| && forall i :: 0 <= i < |s| ==> o[i] == s[i] as bv8
  {
    seq(|s|, i requires 0 <= i < |s| => s[i] as bv8)
  }

  function BigEndian24(hi: int, mid: int, lo: int): int {
    hi * 0x10000 + mid * 0x100 + lo
  }

  predicate Rtcm3ChecksumOk(w: seq<byte>)
    requires |w| >= 3 && |w| >= Rtcm3Size(w)
  {
    var k := Rtcm3Size(w) - 3;
    Crc24.Crc(Octets(w[..k])) as int == BigEndian24(w[k], w[k + 1], w[k + 2])
  }

  function Rtcm3Verdict(cfg: Config, w: seq<byte>): Verdict
    requires |w| >= 2
  {
    if |w| == 2 then More
    else if |w| == 3 then
      if Rtcm3Size(w) > MAX_RTCM || Rtcm3Size(w) > Rtcm3Room(cfg) then Reject(IncompletePacket) else More
    else if |w| < Rtcm3Size(w) then More
    else if !Rtcm3ChecksumOk(w) then Reject(InvalidChksum)
    else Accept(Rtcm3Packet)
  }

  // ----- Sony -----------------------------------------------------------------------------

  const MAX_SONY := 4090

  function SonyDataSize(w: seq<byte>): nat
    requires |w| >= 5
  {
    Le16(w[1], w[2])
  }

  function SonyVerdict(cfg: Config, w: seq<byte>): Verdict
    requires |w| >= 2
  {
    if |w| < 5 then More
    else
      var d := SonyDataSize(w);
      if |w| == 5 then
        if F.Plain(w[..4]) % 256 != w[4] || d > MAX_SONY || d > cfg.size then Reject(InvalidPreamble) else More
      else if |w| < d + 6 then More
      else if F.Plain(w[5..5 + d]) % 256 != w[|w| - 1] then Reject(InvalidChksum)
      else Accept(SonyPacket)
  }

  // ----- SPARTN ---------------------------------------------------------------------------

  // The 256-entry header CRC table, as a decision on the index, in four blocks of 64.

  function Crc4Table0(i: nat): (e: nat)
    ensures e < 16
  {
    if i < 32 then (
      if i < 16 then (
        if i < 8 then (
          if i < 4 then (if i < 2 then (if i == 0 then 0 else 11) else if i == 2 then 5 else 14)
          else if i < 6 then (if i == 4 then 10 else 1) else if i == 6 then 15 else 4
        ) else (
          if i < 12 then (if i < 10 then (if i == 8 then 7 else 12) else if i == 10 then 2 else 9)
          else if i < 14 then (if i == 12 then 13 else 6) else if i == 14 then 8 else 3
        )
      ) else (
        if i < 24 then (
          if i < 20 then (if i < 18 then (if i == 16 then 14 else 5) else if i == 18 then 11 else 0)
          else if i < 22 then (if i == 20 then 4 else 15) else if i == 22 then 1 else 10
        ) else (
          if i < 28 then (if i < 26 then (if i == 24 then 9 else 2) else if i == 26 then 12 else 7)
          else if i < 30 then (if i == 28 then 3 else 8) else if i == 30 then 6 else 13
        )
      )
    ) else (
      if i < 48 then (
        if i < 40 then (
          if i < 36 then (if i < 34 then (if i == 32 then 15 else 4) else if i == 34 then 10 else 1)
          else if i < 38 then (if i == 36 then 5 else 14) else if i == 38 then 0 else 11
        ) else (
          if i < 44 then (if i < 42 then (if i == 40 then 8 else 3) else if i == 42 then 13 else 6)
          else if i < 46 then (if i == 44 then 2 else 9) else if i == 46 then 7 else 12
        )
      ) else (
        if i < 56 then (
          if i < 52 then (if i < 50 then (if i == 48 then 1 else 10) else if i == 50 then 4 else 15)
          else if i < 54 then (if i == 52 then 11 else 0) else if i == 54 then 14 else 5
        ) else (
          if i < 60 then (if i < 58 then (if i == 56 then 6 else 13) else if i == 58 then 3 else 8)
          else if i < 62 then (if i == 60 then 12 else 7) else if i == 62 then 9 else 2
        )
      )
    )
  }

  function Crc4Table64(i: nat): (e: nat)
    ensures e < 16
  {
    if i < 96 then (
      if i < 80 then (
        if i < 72 then (
          if i < 68 then (if i < 66 then (if i == 64 then 13 else 6) else if i == 66 then 8 else 3)
          else if i < 70 then (if i == 68 then 7 else 12) else if i == 70 then 2 else 9
        ) else (
          if i < 76 then (if i < 74 then (if i == 72 then 10 else 1) else if i == 74 then 15 else 4)
          else if i < 78 then (if i == 76 then 0 else 11) else if i == 78 then 5 else 14
        )
      ) else (
        if i < 88 then (
          if i < 84 then (if i < 82 then (if i == 80 then 3 else 8) else if i == 82 then 6 else 13)
          else if i < 86 then (if i == 84 then 9 else 2) else if i == 86 then 12 else 7
        ) else (
          if i < 92 then (if i < 90 then (if i == 88 then 4 else 15) else if i == 90 then 1 else 10)
          else if i < 94 then (if i == 92 then 14 else 5) else if i == 94 then 11 else 0
        )
      )
    ) else (
      if i < 112 then (
        if i < 104 then (
          if i < 100 then (if i < 98 then (if i == 96 then 2 else 9) else if i == 98 then 7 else 12)
          else if i < 102 then (if i == 100 then 8 else 3) else if i == 102 then 13 else 6
        ) else (
          if i < 108 then (if i < 106 then (if i == 104 then 5 else 14) else if i == 106 then 0 else 11)
          else if i < 110 then (if i == 108 then 15 else 4) else if i == 110 then 10 else 1
        )
      ) else (
        if i < 120 then (
          if i < 116 then (if i < 114 then (if i == 112 then 12 else 7) else if i == 114 then 9 else 2)
          else if i < 118 then (if i == 116 then 6 else 13) else if i == 118 then 3 else 8
        ) else (
          if i < 124 then (if i < 122 then (if i == 120 then 11 else 0) else if i == 122 then 14 else 5)
          else if i < 126 then (if i == 124 then 1 else 10) else if i == 126 then 4 else 15
        )
      )
    )
  }

  function Crc4Table128(i: nat): (e: nat)
    ensures e < 16
  {
    if i < 160 then (
      if i < 144 then (
        if i < 136 then (
          if i < 132 then (if i < 130 then (if i == 128 then 9 else 2) else if i == 130 then 12 else 7)
          else if i < 134 then (if i == 132 then 3 else 8) else if i == 134 then 6 else 13
        ) else (
          if i < 140 then (if i < 138 then (if i == 136 then 14 else 5) else if i == 138 then 11 else 0)
          else if i < 142 then (if i == 140 then 4 else 15) else if i == 142 then 1 else 10
        )
      ) else (
        if i < 152 then (
          if i < 148 then (if i < 146 then (if i == 144 then 7 else 12) else if i == 146 then 2 else 9)
          else if i < 150 then (if i == 148 then 13 else 6) else if i == 150 then 8 else 3
        ) else (
          if i < 156 then (if i < 154 then (if i == 152 then 0 else 11) else if i == 154 then 5 else 14)
          else if i < 158 then (if i == 156 then 10 else 1) else if i == 158 then 15 else 4
        )
      )
    ) else (
      if i < 176 then (
        if i < 168 then (
          if i < 164 then (if i < 162 then (if i == 160 then 6 else 13) else if i == 162 then 3 else 8)
          else if i < 166 then (if i == 164 then 12 else 7) else if i == 166 then 9 else 2
        ) else (
          if i < 172 then (if i < 170 then (if i == 168 then 1 else 10) else if i == 170 then 4 else 15)
          else if i < 174 then (if i == 172 then 11 else 0) else if i == 174 then 14 else 5
        )
      ) else (
        if i < 184 then (
          if i < 180 then (if i < 178 then (if i == 176 then 8 else 3) else if i == 178 then 13 else 6)
          else if i < 182 then (if i == 180 then 2 else 9) else if i == 182 then 7 else 12
        ) else (
          if i < 188 then (if i < 186 then (if i == 184 then 15 else 4) else if i == 186 then 10 else 1)
          else if i < 190 then (if i == 188 then 5 else 14) else if i == 190 then 0 else 11
        )
      )
    )
  }

  function Crc4Table192(i: nat): (e: nat)
    ensures e < 16
  {
    if i < 224 then (
      if i < 208 then (
        if i < 200 then (
          if i < 196 then (if i < 194 then (if i == 192 then 4 else 15) else if i == 194 then 1 else 10)
          else if i < 198 then (if i == 196 then 14 else 5) else if i == 198 then 11 else 0
        ) else (
          if i < 204 then (if i < 202 then (if i == 200 then 3 else 8) else if i == 202 then 6 else 13)
          else if i < 206 then (if i == 204 then 9 else 2) else if i == 206 then 12 else 7
        )
      ) else (
        if i < 216 then (
          if i < 212 then (if i < 210 then (if i == 208 then 10 else 1) else if i == 210 then 15 else 4)
          else if i < 214 then (if i == 212 then 0 else 11) else if i == 214 then 5 else 14
        ) else (
          if i < 220 then (if i < 218 then (if i == 216 then 13 else 6) else if i == 218 then 8 else 3)
          else if i < 222 then (if i == 220 then 7 else 12) else if i == 222 then 2 else 9
        )
      )
    ) else (
      if i < 240 then (
        if i < 232 then (
          if i < 228 then (if i < 226 then (if i == 224 then 11 else 0) else if i == 226 then 14 else 5)
          else if i < 230 then (if i == 228 then 1 else 10) else if i == 230 then 4 else 15
        ) else (
          if i < 236 then (if i < 234 then (if i == 232 then 12 else 7) else if i == 234 then 9 else 2)
          else if i < 238 then (if i == 236 then 6 else 13) else if i == 238 then 3 else 8
        )
      ) else (
        if i < 248 then (
          if i < 244 then (if i < 242 then (if i == 240 then 5 else 14) else if i == 242 then 0 else 11)
          else if i < 246 then (if i == 244 then 15 else 4) else if i == 246 then 10 else 1
        ) else (
          if i < 252 then (if i < 250 then (if i == 248 then 2 else 9) else if i == 250 then 7 else 12)
          else if i < 254 then (if i == 252 then 8 else 3) else if i == 254 then 13 else 6
        )
      )
    )
  }

  function Crc4Entry(i: nat): (e: nat)
    ensures e < 16
  {
    if i < 64 then Crc4Table0(i) else if i < 128 then Crc4Table64(i) else if i < 192 then Crc4Table128(i)
    else Crc4Table192(i)
  }

  function Crc4(s: seq<byte>): (e: nat)
    ensures e < 16
  {
    if s == [] then 0 else Crc4Entry(Gf2.Xor(s[|s| - 1], Crc4(s[..|s| - 1])))
  }

  predicate SpartnHeaderOk(w: seq<byte>)
    requires |w| >= 4
  {
    w[3] % 16 == Crc4([w[1], w[2], w[3] / 16 * 16])
  }

  predicate Encrypted(w: seq<byte>)
    requires |w| >= 4
  {
    w[3] / 64 % 2 == 1
  }

  predicate LongTimestamp(w: seq<byte>)
    requires |w| >= 5
  {
    w[4] / 8 % 2 == 1
  }

  /** The bytes before the payload: the shortest header, a longer time stamp, the encryption fields. */
  function SpartnHeaderSize(w: seq<byte>): (n: nat)
    requires |w| >= 5
    ensures n == 8 || n == 10 || n == 12
  {
    8 + (if LongTimestamp(w) then 2 else 0) + (if Encrypted(w) then 2 else 0)
  }

  /** Payload bits as declared, and the one to four bytes of message CRC. */
  function SpartnBody(w: seq<byte>): (n: nat)
    requires |w| >= 4
    ensures 1 <= n <= 1027
  {
    var b1: int, b2: int, b3: int := w[1], w[2], w[3];
    b1 % 2 * 512 + b2 * 2 + b3 / 128 + b3 / 16 % 4 + 1
  }

  /** The embedded authentication field, declared by the last header byte. */
  function SpartnAuthentication(last: byte): nat {
    if last / 8 % 8 <= 1 then 0
    else match last % 8
      case 0 => 8
      case 1 => 12
      case 2 => 16
      case 3 => 32
      case 4 => 64
      case _ => 0
  }

  function SpartnSize(w: seq<byte>): (n: nat)
    requires |w| >= 5 && |w| >= SpartnHeaderSize(w)
    ensures n > SpartnHeaderSize(w)
  {
    var h := SpartnHeaderSize(w);
    h + SpartnBody(w) + if Encrypted(w) then SpartnAuthentication(w[h - 1]) else 0
  }

  function SpartnVerdict(w: seq<byte>): Verdict
    requires |w| >= 2
  {
    if |w| == 4 then if SpartnHeaderOk(w) then More else Reject(InvalidHeader)
    else if |w| < 8 || |w| <= SpartnHeaderSize(w) || |w| < SpartnSize(w) then More
    else Accept(SpartnPacket)
  }
}
