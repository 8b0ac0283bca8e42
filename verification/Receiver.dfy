/** The receiver as a value: one parse call, the buffer management, and what every state keeps. */
module Receiver {
  import opened Bytes
  import opened Protocols

  /** The last packet received: header fields and where its data lies in the buffer. */
  datatype Packet = Packet(
    preamble: nat,
    flags: byte,
    hdrId: byte,
    payloadSize: nat,    // shares its memory with the data size of the data header
    offset: nat,
    ptr: Option<nat>,
    dataSize: nat,
    checksum: nat,
    size: nat,
    id: nat)

  const ERROR_TYPES := 10

  function ErrorIndex(e: ParseError): (i: nat)
    ensures i < ERROR_TYPES
  {
    match e
    case InvalidPreamble => 0
    case InvalidSize => 1
    case InvalidChksum => 2
    case InvalidDatatype => 3
    case MissingEosMarker => 4
    case IncompletePacket => 5
    case InvalidHeader => 6
    case InvalidPayload => 7
    case RxBufferFlushed => 8
    case StreamUnparsable => 9
  }

  datatype Stats = Stats(packets: nat, errors: nat, lastError: ParseError, byType: seq<nat>)

  datatype Rx = Rx(
    cfg: Config,
    mem: seq<byte>,          // the receive buffer
    head: nat,               // start of the candidate frame, or of the bytes kept
    tail: nat,               // end of the bytes received
    scan: nat,               // next byte to look at
    scanPrior: nat,
    cand: Option<Protocol>,  // the recogniser in progress
    timeMs: nat,
    stats: Stats,
    errorState: bool,        // an error was already reported since the last packet
    ackNeeded: nat,
    pkt: Packet)

  /** The pointers are in order; only a skipped byte can put the cursor past the tail. */
  predicate Valid(rx: Rx) {
    && |rx.mem| == rx.cfg.size
    && rx.head <= rx.tail <= |rx.mem|
    && rx.head <= rx.scan <= rx.tail + 1
    && (rx.scan == rx.tail + 1 ==> rx.cand.None? && rx.head == rx.tail)
    && (rx.cand.Some? ==> rx.head < rx.scan)
    && |rx.stats.byType| == ERROR_TYPES
  }

  /** Nothing received and no packet counted; an error counts as noted, so that none is reported before the first
      packet. */
  function Init(cfg: Config): (rx: Rx)
    ensures Valid(rx) && rx.errorState && rx.cand.None? && rx.head == rx.tail == rx.scan == 0
    ensures rx.cfg == cfg && rx.stats.packets == rx.stats.errors == 0
    ensures forall i :: 0 <= i < |rx.mem| ==> rx.mem[i] == 0
  {
    Rx(cfg, seq(cfg.size, _ => 0), 0, 0, 0, 0, None, 0,
       Stats(0, 0, InvalidPreamble, seq(ERROR_TYPES, _ => 0)), true, 0,
       Packet(0, 0, 0, 0, 0, Some(0), 0, 0, 0, 0))
  }

  /** The memory from address `at` on: a buffer, then what lies behind it. */
  function Memory(mem: seq<byte>, outside: nat -> byte, at: nat): nat -> byte {
    (i: nat) => if at + i < |mem| then mem[at + i] else outside(at + i)
  }

  /** The memory from the candidate's first byte on. */
  function Ahead(rx: Rx): nat -> byte {
    Memory(rx.mem, rx.cfg.outside, rx.head)
  }

  /** The bytes from the candidate's first byte up to and including the one under the cursor. */
  function Window(rx: Rx): seq<byte>
    requires rx.head <= rx.scan < rx.tail <= |rx.mem|
  {
    rx.mem[rx.head..rx.scan + 1]
  }

  function ResetParser(rx: Rx): Rx {
    rx.(scanPrior := rx.scan, scan := rx.head, cand := None)
  }

  /** Only the first error after a packet is counted and reported. */
  function Report(rx: Rx, e: ParseError): (Rx, Found)
    requires |rx.stats.byType| == ERROR_TYPES
  {
    if rx.errorState then (rx, Nothing)
    else
      var s := rx.stats;
      var i := ErrorIndex(e);
      (rx.(errorState := true, stats := Stats(s.packets, s.errors + 1, e, s.byType[i := s.byType[i] + 1])),
          ParseFailure)
  }

  function ParseErrorReset(rx: Rx, e: ParseError): (Rx, Found)
    requires |rx.stats.byType| == ERROR_TYPES
  {
    Report(ResetParser(rx), e)
  }

  /** The packet fields an accepted ISB frame leaves behind; `at` is the address of its first byte. */
  function IsbPacket(at: nat, w: seq<byte>, ahead: nat -> byte): Packet
    requires |w| >= 7
  {
    var n := DataSize(w);
    Packet(Le16(w[0], w[1]), w[2], w[3],
           if HasOffset(w) then n else PayloadSize(w),
           if HasOffset(w) then Le16(w[6], Seen(w, ahead)(7)) else 0,
           if n == 0 then None else if HasOffset(w) then Some(at + 8) else Some(at + 6),
           n, StoredChecksum(w, ahead), FrameSize(w), w[3])
  }

  /** The packet fields any other accepted frame leaves behind; the rest stays as it was. */
  function RawPacket(last: Packet, at: nat, size: nat, dataSize: nat, id: nat): Packet {
    last.(size := size, ptr := Some(at), dataSize := dataSize, id := id, hdrId := 0, offset := 0)
  }

  function Deliver(rx: Rx, p: Protocol): Rx
    requires Valid(rx) && rx.cand.Some? && rx.scan < rx.tail
    requires |Window(rx)| >= Shortest(p)
  {
    var w, n, h := Window(rx), |Window(rx)|, rx.head;
    var pkt := match p
      case Isb => IsbPacket(h, w, Ahead(rx))
      case Nmea => RawPacket(rx.pkt, h, n, n, rx.cfg.nmeaId(w))
      case Ublox => RawPacket(rx.pkt, h, n, FrameSize(w), w[2])
      case Rtcm3 => RawPacket(rx.pkt, h, n, Rtcm3Size(w), rx.cfg.rtcmId(w))
      case Sony => RawPacket(rx.pkt, h, n, SonyDataSize(w) + 6, w[3])
      case Spartn => RawPacket(rx.pkt, h, n, n, 0);
    rx.(head := h + n, cand := None, errorState := false, pkt := pkt,
        stats := rx.stats.(packets := rx.stats.packets + 1),
        ackNeeded := if p.Isb? then AckFor(w) else rx.ackNeeded)
  }

  /** The recogniser in progress looks at the byte under the cursor. */
  function Handle(rx: Rx): (Rx, Found)
    requires Valid(rx) && rx.cand.Some? && rx.scan < rx.tail
  {
    var p := rx.cand.value;
    match Judge(rx.cfg, p, Window(rx), Ahead(rx))
    case More => (rx, Nothing)
    case Accept(found) => (Deliver(rx, p), found)
    case Reject(error) => ParseErrorReset(rx, error)
    case BadType => ParseErrorReset(Deliver(rx, p), InvalidDatatype)
  }

  /** One turn of the parse loop. */
  function Step(rx: Rx): (Rx, Found)
    requires Valid(rx) && rx.scan < rx.tail
  {
    if rx.cand.None? then
      var b := rx.mem[rx.scan];
      match StartOf(b)
      case Some(p) =>
        var next := if p in rx.cfg.enabled then rx.(head := rx.scan, cand := Some(p)) else rx;
        (next.(scan := rx.scan + 1), Nothing)
      case None =>
        var (next, found) := Report(rx, StreamUnparsable);
        if found != Nothing then (next, found) else (next.(scan := rx.scan + 1), Nothing)
    else
      var (next, found) := Handle(rx);
      (next.(scan := next.scan + 1), found)
  }

  /** Where the search resumes if the candidate is rejected. */
  function Restart(rx: Rx): nat {
    if rx.cand.Some? then rx.head + 1 else rx.scan
  }

  function Rank(rx: Rx): nat
    requires Valid(rx)
  {
    rx.tail + 2 - Restart(rx)
  }

  function Busy(rx: Rx): nat {
    if rx.cand.Some? then 1 else 0
  }

  lemma DeliverValid(rx: Rx, p: Protocol)
    requires Valid(rx) && rx.cand.Some? && rx.scan < rx.tail && |Window(rx)| >= Shortest(p)
    ensures var next := Deliver(rx, p);
      && next.mem == rx.mem && next.cfg == rx.cfg && next.tail == rx.tail
      && next.scan == rx.scan && next.head == rx.scan + 1 && next.cand.None?
      && !next.errorState && next.stats == rx.stats.(packets := rx.stats.packets + 1)
  {
  }

  lemma HandleValid(rx: Rx)
    requires Valid(rx) && rx.cand.Some? && rx.scan < rx.tail
    ensures var (next, found) := Handle(rx);
      && next.mem == rx.mem && next.cfg == rx.cfg && next.tail == rx.tail
      && Valid(next.(scan := next.scan + 1))
      && match Judge(rx.cfg, rx.cand.value, Window(rx), Ahead(rx))
         case More => next == rx && found == Nothing
         case Accept(f) => found == f && next.head == next.scan + 1 == rx.scan + 1 && next.cand.None?
         case Reject(_) => !found.IsPacket() && next.scan == next.head == rx.head && next.cand.None?
         case BadType => found == ParseFailure && next.scan == next.head == rx.scan + 1 && next.cand.None?
  {
    hide Judge, Ahead, Deliver;
    var p := rx.cand.value;
    if |Window(rx)| >= Shortest(p) {
      DeliverValid(rx, p);
    }
  }

  lemma StepOfCandidate(rx: Rx)
    requires Valid(rx) && rx.scan < rx.tail && rx.cand.Some?
    ensures var (next, found) := Handle(rx); Step(rx) == (next.(scan := next.scan + 1), found)
  {
  }

  lemma HandleKeepsCandidate(rx: Rx)
    requires Valid(rx) && rx.cand.Some? && rx.scan < rx.tail
    ensures Handle(rx).0.cand == rx.cand || Handle(rx).0.cand.None?
  {
  }

  lemma StepValid(rx: Rx)
    requires Valid(rx) && rx.scan < rx.tail
    ensures var (next, found) := Step(rx);
      && Valid(next)
      && next.tail == rx.tail && next.mem == rx.mem && next.cfg == rx.cfg
      && Rank(next) <= Rank(rx)
      && (found == Nothing ==>
        || Rank(next) < Rank(rx)
        || (Rank(next) == Rank(rx) && Busy(next) < Busy(rx))
        || (Rank(next) == Rank(rx) && Busy(next) == Busy(rx) && next.scan > rx.scan))
  {
    hide Judge, Ahead, Handle;
    if rx.cand.Some? {
      HandleValid(rx);
    }
  }

  /** The cursor passes the tail exactly when the last byte received ends an ISB frame of an unusable type. */
  lemma StepPastTail(rx: Rx)
    requires Valid(rx) && rx.scan < rx.tail
    ensures var next := Step(rx).0;
      next.scan == next.tail + 1 <==>
        && rx.cand.Some? && rx.scan == rx.tail - 1
        && Judge(rx.cfg, rx.cand.value, Window(rx), Ahead(rx)).BadType?
  {
    hide Judge, Ahead, Handle;
    if rx.cand.Some? {
      HandleValid(rx);
    }
  }

  /** Turns of the loop until a packet, an error or the end of the bytes received. */
  function Loop(rx: Rx): (Rx, Found)
    requires Valid(rx)
    decreases Rank(rx), Busy(rx), rx.tail + 1 - rx.scan
  {
    if rx.scan >= rx.tail then (rx, Nothing)
    else
      StepValid(rx);
      var (next, found) := Step(rx);
      if found != Nothing then (next, found) else Loop(next)
  }

  const TIMEOUT_MS := 100

  /** A candidate that waited too long is given up. */
  function Timeout(rx: Rx, nowMs: nat): (next: Rx)
    requires Valid(rx)
    ensures Valid(next)
  {
    if rx.cand.Some? && nowMs > (rx.timeMs + TIMEOUT_MS) % 0x1_0000_0000
    then ResetParser(rx.(head := rx.head + 1))
    else rx
  }

  /** One parse call at time `nowMs`. */
  function Parse(rx: Rx, nowMs: nat): (Rx, Found)
    requires Valid(rx)
  {
    var (next, found) := Loop(Timeout(rx, nowMs));
    if found == Nothing && next.cand.Some? then (next.(timeMs := nowMs), found) else (next, found)
  }

  lemma StepFails(rx: Rx)
    requires Valid(rx) && rx.scan < rx.tail
    ensures var (next, found) := Step(rx);
      found == ParseFailure && next.stats.lastError == InvalidDatatype <==>
        rx.cand.Some? && Judge(rx.cfg, rx.cand.value, Window(rx), Ahead(rx)).BadType?
    ensures var (next, found) := Step(rx);
      found == ParseFailure && next.stats.lastError == InvalidDatatype ==> next.scan == next.head + 1
  {
    hide Judge, Ahead, Deliver;
    if rx.cand.Some? && |Window(rx)| >= Shortest(rx.cand.value) {
      DeliverValid(rx, rx.cand.value);
    }
  }

  lemma {:induction false} LoopPastTail(rx: Rx)
    requires Valid(rx) && rx.scan <= rx.tail
    ensures var (next, found) := Loop(rx);
      next.scan == next.tail + 1 <==>
        found == ParseFailure && next.stats.lastError == InvalidDatatype && next.head == next.tail
    decreases Rank(rx), Busy(rx), rx.tail + 1 - rx.scan
  {
    hide Step, Judge;
    if rx.scan < rx.tail {
      StepValid(rx);
      StepPastTail(rx);
      StepFails(rx);
      if Step(rx).1 == Nothing {
        LoopPastTail(Step(rx).0);
      }
    }
  }

  /** A parse call leaves the cursor past the tail if and only if it reports an unusable type and nothing is left to
      look at: in every other case it stays where it should be. */
  lemma ParsePastTail(rx: Rx, nowMs: nat)
    requires Valid(rx) && rx.scan <= rx.tail
    ensures var (next, found) := Parse(rx, nowMs);
      next.scan == next.tail + 1 <==>
        found == ParseFailure && next.stats.lastError == InvalidDatatype && next.head == next.tail
  {
    hide Loop;
    LoopPastTail(Timeout(rx, nowMs));
  }

  /** Make room when the tail has reached the end: drop everything, or move what is kept to the start. */
  function Free(rx: Rx): Rx
    requires Valid(rx)
  {
    if rx.tail < |rx.mem| then rx
    else if rx.head < rx.cfg.size / 3 then
      var (next, _) := ParseErrorReset(rx, RxBufferFlushed);
      next.(head := 0, tail := 0, scan := 0)
    else
      var kept := rx.mem[rx.head..rx.tail];
      rx.(mem := kept + rx.mem[|kept|..], head := 0, tail := rx.tail - rx.head, scan := rx.scan - rx.head)
  }

  function FreeBytes(rx: Rx): nat
    requires Valid(rx)
  {
    |rx.mem| - rx.tail
  }

  /** Bytes read into the free space. */
  function Append(rx: Rx, data: seq<byte>): Rx
    requires Valid(rx) && |data| <= FreeBytes(rx)
  {
    rx.(mem := rx.mem[..rx.tail] + data + rx.mem[rx.tail + |data|..], tail := rx.tail + |data|)
  }

  // ----- what every reachable state keeps -------------------------------------------------

  function Nowhere(): nat -> byte {
    (i: nat) => 0
  }

  /** Every prefix of the bytes seen left the recogniser undecided. */
  predicate Undecided(cfg: Config, p: Protocol, w: seq<byte>) {
    && |w| >= 1
    && StartOf(w[0]) == Some(p)
    && p in cfg.enabled
    && forall k :: 2 <= k <= |w| ==> Judge(cfg, p, w[..k], Nowhere()).More?
  }

  function SumOf(s: seq<nat>): nat {
    if s == [] then 0 else s[0] + SumOf(s[1..])
  }

  /** Between two packets at most one error is counted, and every error is counted under its type. */
  predicate Counted(stats: Stats, errorState: bool) {
    && stats.errors + (if errorState then 0 else 1) <= stats.packets
    && SumOf(stats.byType) == stats.errors
  }

  /** No sentence has ever been found to lack its line feed. */
  predicate NoneMissing(stats: Stats) {
    |stats.byType| == ERROR_TYPES && stats.byType[ErrorIndex(MissingEosMarker)] == 0
  }

  predicate Sound(rx: Rx) {
    && Valid(rx)
    && Counted(rx.stats, rx.errorState)
    && NoneMissing(rx.stats)
    && (rx.cand.Some? ==> Undecided(rx.cfg, rx.cand.value, rx.mem[rx.head..rx.scan]))
  }

  lemma {:induction false} SumOfUpdate(s: seq<nat>, i: nat, n: nat)
    requires i < |s|
    ensures SumOf(s[i := n]) == SumOf(s) - s[i] + n
  {
    if i == 0 {
      assert s[0 := n][1..] == s[1..];
    } else {
      assert s[i := n][1..] == s[1..][i - 1 := n];
      SumOfUpdate(s[1..], i - 1, n);
    }
  }

  lemma ReportCounted(rx: Rx, e: ParseError)
    requires Counted(rx.stats, rx.errorState) && |rx.stats.byType| == ERROR_TYPES
    ensures var next := Report(rx, e).0; Counted(next.stats, next.errorState)
  {
    var i := ErrorIndex(e);
    SumOfUpdate(rx.stats.byType, i, rx.stats.byType[i] + 1);
  }

  /** What lies behind the bytes seen decides nothing while the frame is incomplete. */
  lemma MoreIsOwn(cfg: Config, p: Protocol, w: seq<byte>, a: nat -> byte, b: nat -> byte)
    requires |w| >= 2
    ensures Judge(cfg, p, w, a).More? <==> Judge(cfg, p, w, b).More?
  {
  }

  lemma UndecidedGrows(cfg: Config, p: Protocol, w: seq<byte>, b: byte, ahead: nat -> byte)
    requires Undecided(cfg, p, w) && Judge(cfg, p, w + [b], ahead).More?
    ensures Undecided(cfg, p, w + [b])
  {
    hide Judge;
    var v := w + [b];
    MoreIsOwn(cfg, p, v, ahead, Nowhere());
    forall k | 2 <= k <= |v| ensures Judge(cfg, p, v[..k], Nowhere()).More? {
      if k == |v| {
        assert v[..k] == v;
      } else {
        assert v[..k] == w[..k];
      }
    }
  }

  lemma {:induction false} SumOfZeros(s: seq<nat>)
    requires forall i :: 0 <= i < |s| ==> s[i] == 0
    ensures SumOf(s) == 0
  {
    if s != [] {
      SumOfZeros(s[1..]);
    }
  }

  lemma InitSound(cfg: Config)
    ensures Sound(Init(cfg))
  {
    SumOfZeros(Init(cfg).stats.byType);
  }

  lemma HandleCounted(rx: Rx)
    requires Sound(rx) && rx.cand.Some? && rx.scan < rx.tail
    ensures var next := Handle(rx).0; Counted(next.stats, next.errorState)
  {
    hide Judge, Ahead, Deliver, Report, SumOf, Undecided;
    var p := rx.cand.value;
    match Judge(rx.cfg, p, Window(rx), Ahead(rx)) {
      case More =>
      case Accept(_) => DeliverValid(rx, p);
      case Reject(e) => ReportCounted(ResetParser(rx), e);
      case BadType =>
        DeliverValid(rx, p);
        ReportCounted(ResetParser(Deliver(rx, p)), InvalidDatatype);
    }
  }

  lemma HandleNoneMissing(rx: Rx)
    requires Sound(rx) && rx.cand.Some? && rx.scan < rx.tail
    ensures NoneMissing(Handle(rx).0.stats)
  {
    hide Judge, Ahead, Deliver, Counted, Undecided;
    if |Window(rx)| >= Shortest(rx.cand.value) {
      DeliverValid(rx, rx.cand.value);
    }
  }

  lemma HandleUndecided(rx: Rx)
    requires Sound(rx) && rx.cand.Some? && rx.scan < rx.tail
    requires Judge(rx.cfg, rx.cand.value, Window(rx), Ahead(rx)).More?
    ensures Undecided(rx.cfg, rx.cand.value, Window(rx))
  {
    hide Judge, Ahead, Counted, Undecided;
    var w, b := rx.mem[rx.head..rx.scan], rx.mem[rx.scan];
    assert Window(rx) == w + [b];
    UndecidedGrows(rx.cfg, rx.cand.value, w, b, Ahead(rx));
  }

  lemma SearchSound(rx: Rx)
    requires Sound(rx) && rx.scan < rx.tail && rx.cand.None?
    ensures Sound(Step(rx).0)
  {
    StepValid(rx);
    ReportCounted(rx, StreamUnparsable);
    hide Judge, SumOf;
    assert rx.mem[rx.scan..rx.scan + 1] == [rx.mem[rx.scan]];
  }

  lemma HandleSound(rx: Rx)
    requires Sound(rx) && rx.cand.Some? && rx.scan < rx.tail
    ensures var next := Handle(rx).0; Sound(next.(scan := next.scan + 1))
  {
    hide Judge, Ahead, Counted, NoneMissing, Handle, Undecided;
    HandleValid(rx);
    HandleCounted(rx);
    HandleNoneMissing(rx);
    var next := Handle(rx).0;
    if Judge(rx.cfg, rx.cand.value, Window(rx), Ahead(rx)).More? {
      HandleUndecided(rx);
    }
    hide Valid;
  }

  /** Every turn of the loop keeps the invariant. */
  lemma StepSound(rx: Rx)
    requires Sound(rx) && rx.scan < rx.tail
    ensures Sound(Step(rx).0)
  {
    if rx.cand.None? {
      SearchSound(rx);
    } else {
      HandleSound(rx);
      hide Judge, Ahead, Handle, Sound;
    }
  }

  lemma {:induction false} LoopSound(rx: Rx)
    requires Sound(rx)
    ensures Sound(Loop(rx).0)
    ensures Loop(rx).1 == Nothing ==> Loop(rx).0.scan >= Loop(rx).0.tail
    ensures Loop(rx).0.tail == rx.tail && Loop(rx).0.mem == rx.mem && Loop(rx).0.cfg == rx.cfg
    decreases Rank(rx), Busy(rx), rx.tail + 1 - rx.scan
  {
    hide Step, Counted, Undecided;
    if rx.scan < rx.tail {
      StepSound(rx);
      StepValid(rx);
      if Step(rx).1 == Nothing {
        LoopSound(Step(rx).0);
      }
    }
  }

  /** A parse call keeps the invariant, at whatever time it is made, and looks at every byte unless it reports
      something. */
  lemma ParseSound(rx: Rx, nowMs: nat)
    requires Sound(rx)
    ensures Sound(Parse(rx, nowMs).0)
    ensures Parse(rx, nowMs).1 == Nothing ==> Parse(rx, nowMs).0.scan >= Parse(rx, nowMs).0.tail
    ensures Parse(rx, nowMs).0.tail == rx.tail && Parse(rx, nowMs).0.mem == rx.mem && Parse(rx, nowMs).0.cfg == rx.cfg
  {
    hide Loop, Counted, Undecided;
    LoopSound(Timeout(rx, nowMs));
  }

  /** The bytes not yet given up. */
  function Kept(rx: Rx): seq<byte>
    requires Valid(rx)
  {
    rx.mem[rx.head..rx.tail]
  }

  /** Moving the bytes to the start keeps them, and the cursor's place among them. */
  lemma FreeCompacts(rx: Rx)
    requires Valid(rx) && rx.tail == |rx.mem| && rx.head >= rx.cfg.size / 3
    ensures var next := Free(rx);
      && Valid(next) && Kept(next) == Kept(rx) && next.scan - next.head == rx.scan - rx.head
      && next.cand == rx.cand && next.stats == rx.stats && next.errorState == rx.errorState
      && next.head == 0 && FreeBytes(next) == rx.head
  {
  }

  lemma FreeKeepsWindow(rx: Rx)
    requires Valid(rx) && rx.tail == |rx.mem| && rx.head >= rx.cfg.size / 3 && rx.cand.Some?
    ensures var next := Free(rx);
      next.head <= next.scan <= |next.mem| && next.mem[next.head..next.scan] == rx.mem[rx.head..rx.scan]
  {
    FreeCompacts(rx);
    var next := Free(rx);
    SlicePrefix(next.mem, 0, next.tail, next.scan);
    SlicePrefix(rx.mem, rx.head, rx.tail, rx.scan - rx.head);
  }

  lemma FreeSound(rx: Rx)
    requires Sound(rx)
    ensures Sound(Free(rx)) && Free(rx).cfg == rx.cfg
  {
    if rx.tail < |rx.mem| {
    } else if rx.head < rx.cfg.size / 3 {
      hide SumOf, Undecided;
      ReportCounted(ResetParser(rx), RxBufferFlushed);
    } else {
      hide Counted, Undecided;
      FreeCompacts(rx);
      if rx.cand.Some? {
        var next := Free(rx);
        assert next.mem[next.head..next.scan] == Kept(next)[..next.scan];
        assert rx.mem[rx.head..rx.scan] == Kept(rx)[..rx.scan - rx.head];
      }
    }
  }

  lemma AppendKeepsWindow(rx: Rx, data: seq<byte>)
    requires Valid(rx) && |data| <= FreeBytes(rx) && rx.scan <= rx.tail
    ensures Append(rx, data).mem[rx.head..rx.scan] == rx.mem[rx.head..rx.scan]
  {
    var next := Append(rx, data);
    assert next.mem[..rx.tail] == rx.mem[..rx.tail];
    SlicePrefix(next.mem, 0, rx.tail, rx.scan);
    SlicePrefix(rx.mem, 0, rx.tail, rx.scan);
    assert next.mem[rx.head..rx.scan] == next.mem[..rx.scan][rx.head..];
    assert rx.mem[rx.head..rx.scan] == rx.mem[..rx.scan][rx.head..];
  }

  lemma AppendSound(rx: Rx, data: seq<byte>)
    requires Sound(rx) && |data| <= FreeBytes(rx)
    ensures Sound(Append(rx, data))
    ensures Kept(Append(rx, data)) == Kept(rx) + data
  {
    hide Counted, Undecided;
    var next := Append(rx, data);
    assert next.mem[rx.head..rx.tail] == rx.mem[rx.head..rx.tail];
    assert next.mem[rx.tail..rx.tail + |data|] == data;
    if rx.cand.Some? {
      assert next.mem[next.head..next.scan] == rx.mem[rx.head..rx.scan];
    }
  }

  /** There is room for a byte after `Free` in every sound state exactly if the buffer has at least three bytes. */
  lemma FreeMakesRoom(cfg: Config)
    ensures (forall rx :: Sound(rx) && rx.cfg == cfg ==> FreeBytes(Free(rx)) > 0) <==> cfg.size >= 3
  {
    if cfg.size < 3 {
      InitSound(cfg);
      var data: seq<byte> := seq(cfg.size, _ => 0);
      AppendSound(Init(cfg), data);
      var full := Append(Init(cfg), data);
      assert Sound(full) && full.cfg == cfg && FreeBytes(Free(full)) == 0;
    } else {
      forall rx | Sound(rx) && rx.cfg == cfg ensures FreeBytes(Free(rx)) > 0 {
        hide Counted, Undecided, SumOf;
        FreeSound(rx);
        if rx.tail == |rx.mem| && rx.head >= cfg.size / 3 {
          FreeCompacts(rx);
        }
      }
    }
  }

  /** The length of the longest frame that no flush drops: one byte more than two thirds of the buffer. */
  function Spared(cfg: Config): nat {
    cfg.size - cfg.size / 3 + 1
  }

  /** A flush drops no candidate whose frame is not longer than that. */
  lemma FlushSparesShortFrames(rx: Rx, rest: seq<byte>, ahead: nat -> byte)
    requires Sound(rx) && rx.cand.Some? && rx.scan == rx.tail && |Kept(rx)| >= 1
    requires |Kept(rx) + rest| >= 2 && !Judge(rx.cfg, rx.cand.value, Kept(rx) + rest, ahead).More?
    requires |Kept(rx) + rest| <= Spared(rx.cfg)
    ensures Free(rx).cand == rx.cand && Kept(Free(rx)) == Kept(rx) && Free(rx).stats == rx.stats
  {
    hide Judge, Counted, SumOf;
    var w := Kept(rx);
    if rest == [] {
      assert w + rest == w && w[..|w|] == w;
      MoreIsOwn(rx.cfg, rx.cand.value, w, ahead, Nowhere());
    }
    if rx.tail == |rx.mem| {
      FreeCompacts(rx);
    }
  }

  // ----- the work of one parse call -------------------------------------------------------

  /** Turns the loop takes. */
  function Turns(rx: Rx): nat
    requires Valid(rx)
    decreases Rank(rx), Busy(rx), rx.tail + 1 - rx.scan
  {
    if rx.scan >= rx.tail then 0
    else
      StepValid(rx);
      var (next, found) := Step(rx);
      if found != Nothing then 1 else 1 + Turns(next)
  }

  /** Each restart may look at all `n` bytes once. */
  function Budget(rx: Rx, n: nat): nat
    requires Valid(rx)
  {
    Rank(rx) * (n + 2) + if rx.cand.Some? then rx.tail + 1 - rx.scan else 0
  }

  lemma StepSpends(rx: Rx, n: nat)
    requires Valid(rx) && rx.scan < rx.tail && rx.tail - rx.head <= n && Step(rx).1 == Nothing
    ensures Valid(Step(rx).0) && Step(rx).0.head >= rx.head && Step(rx).0.tail == rx.tail
    ensures Budget(Step(rx).0, n) < Budget(rx, n)
  {
    StepValid(rx);
    var next := Step(rx).0;
    assert Rank(next) <= Rank(rx) && rx.head <= next.head && (Rank(next) == Rank(rx) ==> rx.cand.Some?)
        && (next.cand.Some? ==> rx.cand.None? || (next.scan > rx.scan && Rank(next) == Rank(rx))) by {
      hide Judge, Ahead, Handle;
      if rx.cand.Some? {
        HandleValid(rx);
      }
    }
    hide Step;
    if Rank(next) < Rank(rx) {
      Scales(Rank(next) + 1, Rank(rx), n + 2);
      assert (Rank(next) + 1) * (n + 2) == Rank(next) * (n + 2) + (n + 2);
    }
  }

  lemma Scales(a: nat, b: nat, c: nat)
    requires a <= b
    ensures a * c <= b * c
  {
  }

  lemma {:induction false} TurnsWithinBudget(rx: Rx, n: nat)
    requires Valid(rx) && rx.tail - rx.head <= n
    ensures Turns(rx) <= Budget(rx, n)
    decreases Rank(rx), Busy(rx), rx.tail + 1 - rx.scan
  {
    hide Step, Budget;
    if rx.scan < rx.tail {
      StepValid(rx);
      if Step(rx).1 == Nothing {
        StepSpends(rx, n);
        TurnsWithinBudget(Step(rx).0, n);
      } else {
        BudgetPositive(rx, n);
      }
    }
  }

  lemma BudgetPositive(rx: Rx, n: nat)
    requires Valid(rx) && rx.scan < rx.tail
    ensures Budget(rx, n) >= 1
  {
    Scales(1, Rank(rx), n + 2);
  }

  /** Although the cursor moves back, a parse call takes at most quadratically many turns in the bytes kept. */
  lemma TurnsQuadratic(rx: Rx)
    requires Valid(rx)
    ensures var n := |Kept(rx)|; Turns(rx) <= (n + 2) * (n + 2) + n + 1
  {
    var n := |Kept(rx)|;
    TurnsWithinBudget(rx, n);
    Scales(Rank(rx), n + 2, n + 2);
  }
}
