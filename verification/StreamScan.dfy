/** The packets of a whole byte stream, found by a plain scan, and the proof that the buffered receiver
    finds exactly these however the stream is cut into reads. */
module StreamScan {
  import opened Bytes
  import opened Protocols
  import opened Receiver
  import F = Fletcher

  /** A packet as its handler sees it. */
  datatype Event = Event(found: Found, id: nat, flags: byte, offset: nat, data: seq<byte>, ack: nat)

  function DataBytes(rx: Rx): seq<byte> {
    match rx.pkt.ptr
    case None => []
    case Some(a) => Slice(Memory(rx.mem, rx.cfg.outside, a), 0, rx.pkt.dataSize)
  }

  /** What the receiver holds when a parse call reports `found`. */
  function View(rx: Rx, found: Found): Event {
    if found.IsIsb() then Event(found, rx.pkt.id, rx.pkt.flags, rx.pkt.offset, DataBytes(rx), rx.ackNeeded)
    else Event(found, rx.pkt.id, 0, rx.pkt.offset, DataBytes(rx), 0)
  }

  // ----- frames on their own --------------------------------------------------------------

  /** A payload size whose sum with header and checksum wraps in its 16-bit field. */
  predicate Wraps(w: seq<byte>)
    requires |w| >= 6
  {
    PayloadSize(w) >= 65528
  }

  /** The length the header bits declare. A sum that wraps makes the seventh byte the last; NMEA sentences declare
      none. */
  function DeclaredSize(p: Protocol, w: seq<byte>): Option<nat> {
    match p
    case Isb => if |w| >= 6 then Some(if Wraps(w) then 7 else 8 + PayloadSize(w)) else None
    case Ublox => if |w| >= 6 then Some(if Wraps(w) then 7 else 8 + PayloadSize(w)) else None
    case Rtcm3 => if |w| >= 3 then Some(Rtcm3Size(w)) else None
    case Sony => if |w| >= 5 then Some(SonyDataSize(w) + 6) else None
    case Spartn => if |w| >= 5 && |w| >= SpartnHeaderSize(w) then Some(SpartnSize(w)) else None
    case Nmea => None
  }

  /** The recogniser has reached the end of the frame: all that is left are checks on the whole of it. */
  predicate AtEnd(v: Verdict) {
    v.Accept? || v.BadType? || v == Reject(InvalidChksum)
  }

  predicate EndsExactly(cfg: Config, p: Protocol, w: seq<byte>, ahead: nat -> byte)
    requires |w| >= 2
  {
    AtEnd(Judge(cfg, p, w, ahead)) <==> DeclaredSize(p, w) == Some(|w|)
  }

  /** The header fields are settled by the bytes before the last. */
  predicate Before(cfg: Config, p: Protocol, w: seq<byte>) {
    |w| >= 2 && Undecided(cfg, p, w[..|w| - 1])
  }

  lemma PreviousMore(cfg: Config, p: Protocol, w: seq<byte>)
    requires Before(cfg, p, w) && |w| >= 3
    ensures Judge(cfg, p, w[..|w| - 1], Nowhere()).More?
  {
    var v := w[..|w| - 1];
    assert v[..|v|] == v;
  }

  lemma ExactIsb(cfg: Config, w: seq<byte>, ahead: nat -> byte)
    requires Before(cfg, Isb, w)
    ensures EndsExactly(cfg, Isb, w, ahead)
  {
    if |w| >= 7 {
      PreviousMore(cfg, Isb, w);
      hide IsbChecksumOk, IsbTypeVerdict;
      IsbTypeEnds(w, ahead);
    }
  }

  lemma IsbTypeEnds(w: seq<byte>, ahead: nat -> byte)
    requires |w| >= 6
    ensures AtEnd(IsbTypeVerdict(w, ahead))
  {
  }

  lemma ExactUblox(cfg: Config, w: seq<byte>, ahead: nat -> byte)
    requires Before(cfg, Ublox, w)
    ensures EndsExactly(cfg, Ublox, w, ahead)
  {
    if |w| >= 3 {
      PreviousMore(cfg, Ublox, w);
    }
  }

  lemma ExactRtcm3(cfg: Config, w: seq<byte>, ahead: nat -> byte)
    requires Before(cfg, Rtcm3, w)
    ensures EndsExactly(cfg, Rtcm3, w, ahead)
  {
    if |w| >= 4 {
      PreviousMore(cfg, Rtcm3, w);
    }
  }

  lemma ExactSony(cfg: Config, w: seq<byte>, ahead: nat -> byte)
    requires Before(cfg, Sony, w)
    ensures EndsExactly(cfg, Sony, w, ahead)
  {
    if |w| >= 6 {
      PreviousMore(cfg, Sony, w);
    }
  }

  lemma ExactSpartn(cfg: Config, w: seq<byte>, ahead: nat -> byte)
    requires Before(cfg, Spartn, w)
    ensures EndsExactly(cfg, Spartn, w, ahead)
  {
    if |w| >= 9 {
      PreviousMore(cfg, Spartn, w);
    }
  }

  /** A recogniser ends a frame at exactly the length its header declares, never earlier and never later. */
  lemma ExactLength(cfg: Config, p: Protocol, w: seq<byte>, ahead: nat -> byte)
    requires Before(cfg, p, w) && !p.Nmea?
    ensures EndsExactly(cfg, p, w, ahead)
  {
    hide Before, EndsExactly;
    match p
    case Isb => ExactIsb(cfg, w, ahead);
    case Ublox => ExactUblox(cfg, w, ahead);
    case Rtcm3 => ExactRtcm3(cfg, w, ahead);
    case Sony => ExactSony(cfg, w, ahead);
    case Spartn => ExactSpartn(cfg, w, ahead);
  }

  predicate FrameChecksumOk(w: seq<byte>)
    requires |w| >= 8
  {
    Le16(w[|w| - 2], w[|w| - 1]) == F.Fletcher16(F.ZERO, w[..|w| - 2]).Word()
  }

  /** The checksum of a whole ISB frame covers its bytes up to the last two. */
  lemma IsbChecksumOfFrame(w: seq<byte>, ahead: nat -> byte)
    requires |w| >= 8 && |w| == 8 + PayloadSize(w) && PayloadSize(w) < 65528
    ensures IsbChecksumOk(w, ahead) <==> FrameChecksumOk(w)
    ensures StoredChecksum(w, ahead) == Le16(w[|w| - 2], w[|w| - 1])
  {
    assert Slice(Seen(w, ahead), 0, |w| - 2) == w[..|w| - 2];
  }

  /** The bytes of the frame settle its verdict: its size does not wrap, and it is not a data request too short for its
      size field. */
  predicate SelfContained(p: Protocol, w: seq<byte>) {
    p.Isb? && |w| >= 7 ==>
      && PayloadSize(w) < 65528
      && (|w| == FrameSize(w) && PacketType(w) == 3 && FrameChecksumOk(w) ==> PayloadSize(w) >= 2)
  }

  lemma SelfContainedVerdict(cfg: Config, p: Protocol, w: seq<byte>, ahead: nat -> byte)
    requires |w| >= 2 && Undecided(cfg, p, w[..|w| - 1]) && SelfContained(p, w)
    ensures Judge(cfg, p, w, ahead) == Judge(cfg, p, w, Nowhere())
  {
    if p.Isb? && |w| >= 7 {
      var v := w[..|w| - 1];
      assert v[..|v|] == v;
      assert Judge(cfg, p, v, Nowhere()).More?;
      if |w| >= FrameSize(w) {
        IsbChecksumOfFrame(w, ahead);
        IsbChecksumOfFrame(w, Nowhere());
      }
    }
  }

  /** The verdict on a checksum-valid data request depends on its own bytes alone exactly if its payload has two bytes
      or more. */
  lemma RequestVerdictIsOwn(w: seq<byte>)
    requires |w| >= 8 && |w| == 8 + PayloadSize(w) && PayloadSize(w) < 65528
    requires PacketType(w) == 3 && FrameChecksumOk(w)
    ensures (forall a: nat -> byte, b: nat -> byte :: IsbVerdict(w, a) == IsbVerdict(w, b)) <==> PayloadSize(w) >= 2
  {
    forall a: nat -> byte ensures IsbVerdict(w, a) == IsbTypeVerdict(w, a) {
      IsbChecksumOfFrame(w, a);
    }
    if PayloadSize(w) < 2 {
      var high: nat -> byte := (i: nat) => 255;
      assert IsbVerdict(w, high) == BadType;
      assert IsbVerdict(w, Nowhere()) == Accept(IsbCmd);
    }
  }

  // ----- the scan of a whole stream -------------------------------------------------------

  /** The packet a frame carries, from its bytes alone. */
  function EventOf(cfg: Config, p: Protocol, found: Found, w: seq<byte>): Event
    requires |w| >= Shortest(p) && (p.Isb? ==> |w| >= 8 + PayloadSize(w))
  {
    match p
    case Isb =>
      if HasOffset(w) then Event(found, w[3], w[2], Le16(w[6], w[7]), w[8..][..DataSize(w)], AckFor(w))
      else Event(found, w[3], w[2], 0, w[6..][..DataSize(w)], AckFor(w))
    case Nmea => Event(found, cfg.nmeaId(w), 0, 0, w, 0)
    case Ublox => Event(found, w[2], 0, 0, w[..if FrameSize(w) < |w| then FrameSize(w) else |w|], 0)
    case Rtcm3 => Event(found, cfg.rtcmId(w), 0, 0, w, 0)
    case Sony => Event(found, w[3], 0, 0, w, 0)
    case Spartn => Event(found, 0, 0, 0, w, 0)
  }

  /** The `k` bytes from `h` on leave the recogniser undecided. */
  predicate MoreAt(cfg: Config, s: seq<byte>, h: nat, p: Protocol, k: nat) {
    k >= 2 && h + k <= |s| && Judge(cfg, p, s[h..h + k], Nowhere()).More?
  }

  /** The number of bytes from `h` on after which the recogniser first decides, not below `n`. */
  function Decide(cfg: Config, s: seq<byte>, h: nat, p: Protocol, n: nat): (r: Option<nat>)
    requires n >= 2
    ensures r.Some? ==> n <= r.value && h + r.value <= |s|
    decreases |s| - h - n
  {
    if h + n > |s| then None
    else if !MoreAt(cfg, s, h, p, n) then Some(n)
    else Decide(cfg, s, h, p, n + 1)
  }

  /** What a plain scan does at one position. */
  datatype Look =
    | Stop                                               // a frame begins here that does not end in the stream
    | Go(next: nat, event: Option<Event>, used: nat)     // continue at `next`
    | Unsettled                                          // the bytes of the frame do not settle its verdict

  function LookAt(cfg: Config, s: seq<byte>, h: nat): (l: Look)
    requires h < |s|
    ensures l.Go? ==> l.next > h
  {
    match StartOf(s[h])
    case None => Go(h + 1, None, 1)
    case Some(p) =>
      if p !in cfg.enabled then Go(h + 1, None, 1)
      else match Decide(cfg, s, h, p, 2)
        case None => Stop
        case Some(n) =>
          var w := s[h..h + n];
          if !SelfContained(p, w) then Unsettled
          else match Judge(cfg, p, w, Nowhere())
            case Accept(found) => Go(h + n, Some(EventOf(cfg, p, found, w)), n)
            case BadType => Go(h + n + 1, None, n)   // one byte more than the frame
            case _ => Go(h + 1, None, n)
  }

  /** The packets of the stream from `h` on: past the frame on success, to the next byte otherwise. */
  function Scan(cfg: Config, s: seq<byte>, h: nat): seq<Event>
    decreases |s| - h
  {
    if h >= |s| then []
    else match LookAt(cfg, s, h)
      case Go(next, event, _) => (if event.Some? then [event.value] else []) + Scan(cfg, s, next)
      case _ => []
  }

  /** Every frame the scan comes to is settled by its own bytes. */
  predicate Settled(cfg: Config, s: seq<byte>, h: nat)
    decreases |s| - h
  {
    h < |s| ==> match LookAt(cfg, s, h)
      case Go(next, _, _) => Settled(cfg, s, next)
      case Stop => true
      case Unsettled => false
  }

  /** Every candidate the scan comes to is decided within `room` bytes, or cut off by the end before that many. */
  predicate Fits(cfg: Config, s: seq<byte>, h: nat, room: nat)
    decreases |s| - h
  {
    h < |s| ==> match LookAt(cfg, s, h)
      case Go(next, _, used) => used <= room && Fits(cfg, s, next, room)
      case Stop => |s| - h < room
      case Unsettled => true
  }

  // ----- the receiver follows the scan ------------------------------------------------------

  /** The stream position from which the receiver still has to account for packets; `base` is the position of the
      buffer's start. */
  function Position(rx: Rx, base: nat): nat {
    base + if rx.cand.Some? then rx.head else rx.scan
  }

  /** The bytes kept are those of the stream. */
  predicate Follows(rx: Rx, s: seq<byte>, base: nat) {
    && Sound(rx) && rx.timeMs == 0
    && base + rx.tail <= |s| && Kept(rx) == s[base + rx.head..base + rx.tail]
  }

  lemma {:induction false} DecideSkips(cfg: Config, s: seq<byte>, h: nat, p: Protocol, n: nat)
    requires n >= 2 && forall k :: 2 <= k < n ==> MoreAt(cfg, s, h, p, k)
    ensures Decide(cfg, s, h, p, 2) == Decide(cfg, s, h, p, n)
    decreases n
  {
    hide MoreAt;
    if n > 2 {
      DecideSkips(cfg, s, h, p, n - 1);
      assert MoreAt(cfg, s, h, p, n - 1);
      MoreFits(cfg, s, h, p, n - 1);
    }
  }

  lemma MoreFits(cfg: Config, s: seq<byte>, h: nat, p: Protocol, k: nat)
    requires MoreAt(cfg, s, h, p, k)
    ensures h + k <= |s|
  {
  }

  lemma PrefixOfStream(rx: Rx, s: seq<byte>, base: nat, n: nat)
    requires Follows(rx, s, base) && n <= rx.tail - rx.head
    ensures rx.mem[rx.head..rx.head + n] == s[base + rx.head..base + rx.head + n]
  {
    SoundIsValid(rx);
    hide Sound;
    var h := base + rx.head;
    assert rx.mem[rx.head..rx.tail] == s[h..base + rx.tail];
    SlicePrefix(rx.mem, rx.head, rx.tail, n);
    SlicePrefix(s, h, base + rx.tail, n);
  }

  lemma CandidateDecides(rx: Rx, s: seq<byte>, base: nat)
    requires Follows(rx, s, base) && rx.cand.Some?
    ensures var n := rx.scan - rx.head + 1;
      Decide(rx.cfg, s, base + rx.head, rx.cand.value, 2) == Decide(rx.cfg, s, base + rx.head, rx.cand.value, n)
    ensures base + rx.head < |s| && StartOf(s[base + rx.head]) == rx.cand && rx.cand.value in rx.cfg.enabled
  {
    hide Judge, Counted;
    var h, n := base + rx.head, rx.scan - rx.head;
    var w := rx.mem[rx.head..rx.scan];
    PrefixOfStream(rx, s, base, n);
    assert w[0] == s[h];
    forall k | 2 <= k <= n ensures MoreAt(rx.cfg, s, h, rx.cand.value, k) {
      PrefixOfStream(rx, s, base, k);
      SlicePrefix(rx.mem, rx.head, rx.scan, k);
    }
    DecideSkips(rx.cfg, s, h, rx.cand.value, n + 1);
  }

  lemma WindowOfStream(rx: Rx, s: seq<byte>, base: nat)
    requires Follows(rx, s, base) && rx.scan < rx.tail
    ensures var n := rx.scan - rx.head + 1; Window(rx) == s[base + rx.head..base + rx.head + n]
    ensures rx.mem[rx.scan] == s[base + rx.scan]
  {
    var n := rx.scan - rx.head + 1;
    PrefixOfStream(rx, s, base, n);
    assert rx.mem[rx.scan] == Window(rx)[n - 1];
    assert s[base + rx.scan] == s[base + rx.head..base + rx.head + n][n - 1];
  }

  lemma DataIsSlice(rx: Rx, a: nat, n: nat)
    requires rx.pkt.ptr == Some(a) && rx.pkt.dataSize == n && a + n <= |rx.mem|
    ensures DataBytes(rx) == rx.mem[a..a + n]
  {
  }

  predicate Delivers(rx: Rx, p: Protocol, found: Found) {
    && Sound(rx) && rx.cand == Some(p) && rx.scan < rx.tail && |Window(rx)| >= 2 && SelfContained(p, Window(rx))
    && Judge(rx.cfg, p, Window(rx), Ahead(rx)) == Accept(found)
  }

  lemma WindowBefore(rx: Rx, p: Protocol, found: Found)
    requires Delivers(rx, p, found)
    ensures Before(rx.cfg, p, Window(rx)) && |Window(rx)| >= Shortest(p)
    ensures !p.Nmea? ==> DeclaredSize(p, Window(rx)) == Some(|Window(rx)|)
  {
    hide Judge, Counted;
    var w := Window(rx);
    assert w[..|w| - 1] == rx.mem[rx.head..rx.scan];
    if !p.Nmea? {
      ExactLength(rx.cfg, p, w, Ahead(rx));
    }
  }

  lemma IsbDeliveredSize(rx: Rx, found: Found)
    requires Delivers(rx, Isb, found)
    ensures |Window(rx)| == 8 + PayloadSize(Window(rx)) && PayloadSize(Window(rx)) < 65528
  {
    WindowBefore(rx, Isb, found);
  }

  lemma IsbDeliveredEvent(rx: Rx, found: Found)
    requires Delivers(rx, Isb, found)
    ensures |Window(rx)| >= 8 + PayloadSize(Window(rx)) && PayloadSize(Window(rx)) < 65528
    ensures View(Deliver(rx, Isb), found) == EventOf(rx.cfg, Isb, found, Window(rx))
  {
    IsbDeliveredSize(rx, found);
    hide Judge, Counted, Undecided, SelfContained;
    var w, next := Window(rx), Deliver(rx, Isb);
    var n, a := DataSize(w), if HasOffset(w) then 8 else 6;
    if n > 0 {
      DataIsSlice(next, rx.head + a, n);
      assert rx.mem[rx.head + a..rx.head + a + n] == w[a..][..n];
    } else {
      assert DataBytes(next) == [];
    }
  }

  lemma UbloxDeliveredEvent(rx: Rx, found: Found)
    requires Delivers(rx, Ublox, found)
    ensures View(Deliver(rx, Ublox), found) == EventOf(rx.cfg, Ublox, found, Window(rx))
  {
    var w, next := Window(rx), Deliver(rx, Ublox);
    assert |w| >= 7 && FrameSize(w) <= |w|;
    hide Judge, Counted, Undecided;
    DataIsSlice(next, rx.head, FrameSize(w));
    assert rx.mem[rx.head..rx.head + FrameSize(w)] == w[..FrameSize(w)];
  }

  lemma OtherPacket(rx: Rx, p: Protocol, found: Found)
    requires Valid(rx) && rx.cand == Some(p) && rx.scan < rx.tail && !p.Isb? && !p.Ublox?
    requires |Window(rx)| >= Shortest(p) && (!p.Nmea? ==> DeclaredSize(p, Window(rx)) == Some(|Window(rx)|))
    ensures var (w, next) := (Window(rx), Deliver(rx, p));
      && next.pkt.ptr == Some(rx.head) && next.pkt.dataSize == |w| && next.pkt.offset == 0
      && next.mem == rx.mem && next.cfg == rx.cfg
      && EventOf(rx.cfg, p, found, w) == Event(found, next.pkt.id, 0, 0, w, 0)
  {
  }

  lemma OtherDeliveredEvent(rx: Rx, p: Protocol, found: Found)
    requires Delivers(rx, p, found) && !p.Isb? && !p.Ublox?
    ensures |Window(rx)| >= Shortest(p)
    ensures View(Deliver(rx, p), found) == EventOf(rx.cfg, p, found, Window(rx))
  {
    WindowBefore(rx, p, found);
    assert !found.IsIsb() && Valid(rx);
    OtherPacket(rx, p, found);
    hide Judge, Sound, Delivers, Before, SelfContained, Deliver, EventOf, DeclaredSize;
    DataIsSlice(Deliver(rx, p), rx.head, |Window(rx)|);
  }

  /** The packet delivered is the one the frame carries. */
  lemma DeliveredEvent(rx: Rx, p: Protocol, found: Found)
    requires Delivers(rx, p, found)
    ensures |Window(rx)| >= Shortest(p) && (p.Isb? ==> |Window(rx)| >= 8 + PayloadSize(Window(rx)))
    ensures View(Deliver(rx, p), found) == EventOf(rx.cfg, p, found, Window(rx))
  {
    hide View, Deliver, EventOf, Counted, Undecided, IsbVerdict, UbloxVerdict, NmeaVerdict, Rtcm3Verdict, SonyVerdict,
        SpartnVerdict;
    match p
    case Isb => IsbDeliveredEvent(rx, found);
    case Ublox => UbloxDeliveredEvent(rx, found);
    case _ => OtherDeliveredEvent(rx, p, found);
  }

  /** The receiver follows a stream whose remaining frames are settled by their bytes and fit into `room` bytes. */
  predicate OnTrack(rx: Rx, s: seq<byte>, base: nat, room: nat) {
    && Follows(rx, s, base)
    && Settled(rx.cfg, s, Position(rx, base))
    && Fits(rx.cfg, s, Position(rx, base), room)
  }

  function Packets(rx: Rx, found: Found): seq<Event> {
    if found.IsPacket() then [View(rx, found)] else []
  }

  /** From one state to another the receiver reported exactly the packets the scan finds in between. */
  predicate Accounts(rx: Rx, next: Rx, s: seq<byte>, base: nat, base': nat, reported: seq<Event>) {
    Scan(rx.cfg, s, Position(rx, base)) == reported + Scan(next.cfg, s, Position(next, base'))
  }

  lemma SoundIsValid(rx: Rx)
    requires Sound(rx)
    ensures Valid(rx)
  {
  }

  lemma StepKeepsTime(rx: Rx)
    requires Valid(rx) && rx.scan < rx.tail
    ensures Step(rx).0.timeMs == rx.timeMs && rx.head <= Step(rx).0.head
  {
    hide Judge, Ahead;
    if rx.cand.Some? && |Window(rx)| >= Shortest(rx.cand.value) {
      DeliverValid(rx, rx.cand.value);
    }
  }

  lemma StepFollows(rx: Rx, s: seq<byte>, base: nat)
    requires Follows(rx, s, base) && rx.scan < rx.tail
    ensures Follows(Step(rx).0, s, base) && Step(rx).0.cfg == rx.cfg
  {
    SoundIsValid(rx);
    hide Step, Sound, Valid;
    StepSound(rx);
    StepValid(rx);
    StepKeepsTime(rx);
    KeptMoves(rx, s, base, Step(rx).0);
  }

  lemma KeptMoves(rx: Rx, s: seq<byte>, base: nat, next: Rx)
    requires Follows(rx, s, base) && Sound(next) && next.timeMs == 0
    requires next.mem == rx.mem && next.tail == rx.tail && next.head >= rx.head
    ensures Follows(next, s, base)
  {
    SoundIsValid(rx);
    SoundIsValid(next);
    hide Sound;
    assert Kept(next) == Kept(rx)[next.head - rx.head..];
  }

  /** One position of the scan that yields no frame, or a whole frame. */
  lemma ScanGoes(cfg: Config, s: seq<byte>, h: nat, room: nat, next: nat, event: Option<Event>, used: nat)
    requires h < |s| && LookAt(cfg, s, h) == Go(next, event, used)
    requires Settled(cfg, s, h) && Fits(cfg, s, h, room)
    ensures Settled(cfg, s, next) && Fits(cfg, s, next, room) && used <= room
    ensures Scan(cfg, s, h) == (if event.Some? then [event.value] else []) + Scan(cfg, s, next)
  {
    hide LookAt;
  }

  lemma SearchScans(rx: Rx, s: seq<byte>, base: nat, room: nat)
    requires OnTrack(rx, s, base, room) && rx.scan < rx.tail && rx.cand.None?
    ensures var (next, found) := Step(rx);
      OnTrack(next, s, base, room) && Accounts(rx, next, s, base, base, Packets(next, found))
  {
    SoundIsValid(rx);
    StepFollows(rx, s, base);
    SearchStep(rx);
    var next, h := Step(rx).0, base + rx.scan;
    hide Judge, Window, Decide, Sound, Settled, Fits, Scan, View, LookAt, Step;
    if Position(next, base) != h {
      NoStartHere(rx, s, base);
      hide Follows;
      ScanGoes(rx.cfg, s, h, room, h + 1, None, 1);
    }
  }

  lemma NoStartHere(rx: Rx, s: seq<byte>, base: nat)
    requires Follows(rx, s, base) && rx.scan < rx.tail
    requires StartOf(rx.mem[rx.scan]).None? || StartOf(rx.mem[rx.scan]).value !in rx.cfg.enabled
    ensures base + rx.scan < |s| && LookAt(rx.cfg, s, base + rx.scan) == Go(base + rx.scan + 1, None, 1)
  {
    hide Sound, Decide;
    WindowOfStream(rx, s, base);
  }

  lemma SearchStep(rx: Rx)
    requires Valid(rx) && rx.scan < rx.tail && rx.cand.None?
    ensures var (next, found) := Step(rx);
      && !found.IsPacket()
      && (next.cand.Some? ==> next.head == rx.scan)
      && (next.cand.None? && next.scan != rx.scan ==> (next.scan == rx.scan + 1
           && (StartOf(rx.mem[rx.scan]).None? || StartOf(rx.mem[rx.scan]).value !in rx.cfg.enabled)))
  {
  }

  /** At a decision of the receiver the scan looks at the same bytes. */
  lemma DecidedAlike(rx: Rx, s: seq<byte>, base: nat)
    requires Follows(rx, s, base) && rx.scan < rx.tail && rx.cand.Some?
    requires !Judge(rx.cfg, rx.cand.value, Window(rx), Ahead(rx)).More?
    ensures base + rx.head < |s| && StartOf(s[base + rx.head]) == rx.cand && rx.cand.value in rx.cfg.enabled
    ensures Decide(rx.cfg, s, base + rx.head, rx.cand.value, 2) == Some(|Window(rx)|)
    ensures s[base + rx.head..base + rx.head + |Window(rx)|] == Window(rx)
  {
    SoundIsValid(rx);
    hide Judge, Sound, Ahead, Window;
    WindowOfStream(rx, s, base);
    CandidateDecides(rx, s, base);
    MoreIsOwn(rx.cfg, rx.cand.value, Window(rx), Ahead(rx), Nowhere());
  }

  lemma OwnVerdict(rx: Rx)
    requires Sound(rx) && rx.scan < rx.tail && rx.cand.Some? && SelfContained(rx.cand.value, Window(rx))
    ensures Judge(rx.cfg, rx.cand.value, Window(rx), Ahead(rx)) == Judge(rx.cfg, rx.cand.value, Window(rx), Nowhere())
  {
    hide Judge, Counted, Ahead, SelfContained, Undecided;
    var w := Window(rx);
    assert w[..|w| - 1] == rx.mem[rx.head..rx.scan];
    SelfContainedVerdict(rx.cfg, rx.cand.value, w, Ahead(rx));
  }

  lemma HandleScans(rx: Rx, s: seq<byte>, base: nat, room: nat)
    requires OnTrack(rx, s, base, room) && rx.scan < rx.tail && rx.cand.Some?
    ensures var (next, found) := Step(rx);
      OnTrack(next, s, base, room) && Accounts(rx, next, s, base, base, Packets(next, found))
  {
    SoundIsValid(rx);
    StepFollows(rx, s, base);
    HandleStep(rx);
    hide Judge, Ahead, Sound, Settled, Fits, Scan, Deliver, SelfContained, Decide, View, Handle, EventOf, Step, Follows;
    if Judge(rx.cfg, rx.cand.value, Window(rx), Ahead(rx)).More? {
      assert Position(Step(rx).0, base) == Position(rx, base);
    } else {
      VerdictScans(rx, s, base, room);
    }
  }

  lemma VerdictScans(rx: Rx, s: seq<byte>, base: nat, room: nat)
    requires OnTrack(rx, s, base, room) && Valid(rx) && rx.scan < rx.tail && rx.cand.Some?
    requires !Judge(rx.cfg, rx.cand.value, Window(rx), Ahead(rx)).More?
    ensures var (next, found) := Step(rx);
      && Settled(rx.cfg, s, Position(next, base)) && Fits(rx.cfg, s, Position(next, base), room)
      && Scan(rx.cfg, s, Position(rx, base)) == Packets(next, found) + Scan(rx.cfg, s, Position(next, base))
  {
    hide Judge, Ahead, Sound, Settled, Fits, Scan, Step, Follows, LookAt, View, Position;
    PositionInStream(rx, s, base);
    NotUnsettled(rx.cfg, s, Position(rx, base));
    var event, used := LookMatches(rx, s, base);
    ScanGoes(rx.cfg, s, Position(rx, base), room, Position(Step(rx).0, base), event, used);
  }

  lemma PositionInStream(rx: Rx, s: seq<byte>, base: nat)
    requires Follows(rx, s, base) && rx.scan < rx.tail
    ensures Position(rx, base) < |s|
  {
  }

  /** The turn of the loop that decides a candidate does what the scan does there. */
  lemma LookMatches(rx: Rx, s: seq<byte>, base: nat) returns (event: Option<Event>, used: nat)
    requires Follows(rx, s, base) && Valid(rx) && rx.scan < rx.tail && rx.cand.Some?
    requires Position(rx, base) < |s| && LookAt(rx.cfg, s, Position(rx, base)) != Unsettled
    requires !Judge(rx.cfg, rx.cand.value, Window(rx), Ahead(rx)).More?
    ensures var (next, found) := Step(rx);
      && LookAt(rx.cfg, s, Position(rx, base)) == Go(Position(next, base), event, used)
      && Packets(next, found) == if event.Some? then [event.value] else []
  {
    hide Judge, Ahead, Deliver, SelfContained, Decide, View, Handle, EventOf, Step, LookAt;
    var p, h, w := rx.cand.value, base + rx.head, Window(rx);
    HandleStep(rx);
    DecidedAlike(rx, s, base);
    LookAtDecided(rx.cfg, s, h, p, w);
    hide Follows;
    OwnVerdict(rx);
    used := |w|;
    match Judge(rx.cfg, p, w, Nowhere()) {
      case Accept(f) =>
        DeliveredEvent(rx, p, f);
        event := Some(EventOf(rx.cfg, p, f, w));
      case _ => event := None;
    }
  }

  lemma HandleStep(rx: Rx)
    requires Valid(rx) && rx.scan < rx.tail && rx.cand.Some?
    ensures var (next, found) := Step(rx);
      match Judge(rx.cfg, rx.cand.value, Window(rx), Ahead(rx))
      case More => next == rx.(scan := rx.scan + 1) && found == Nothing
      case Accept(f) =>
        && found == f && next.cand.None? && next.scan == rx.scan + 1
        && |Window(rx)| >= Shortest(rx.cand.value)
        && View(next, found) == View(Deliver(rx, rx.cand.value), found)
      case Reject(_) => !found.IsPacket() && next.cand.None? && next.scan == rx.head + 1
      case BadType => !found.IsPacket() && next.cand.None? && next.scan == rx.scan + 2
  {
    HandleValid(rx);
    hide Judge, Ahead, Deliver;
    if |Window(rx)| >= Shortest(rx.cand.value) {
      DeliverValid(rx, rx.cand.value);
    }
  }

  lemma LookAtDecided(cfg: Config, s: seq<byte>, h: nat, p: Protocol, w: seq<byte>)
    requires h < |s| && StartOf(s[h]) == Some(p) && p in cfg.enabled
    requires Decide(cfg, s, h, p, 2) == Some(|w|) && s[h..h + |w|] == w && LookAt(cfg, s, h) != Unsettled
    ensures |w| >= 2 && SelfContained(p, w)
    ensures var v := Judge(cfg, p, w, Nowhere());
      && (v.Accept? ==>
        && |w| >= Shortest(p) && (p.Isb? ==> |w| >= 8 + PayloadSize(w))
        && LookAt(cfg, s, h) == Go(h + |w|, Some(EventOf(cfg, p, v.found, w)), |w|))
      && (v.BadType? ==> LookAt(cfg, s, h) == Go(h + |w| + 1, None, |w|))
      && (v.Reject? ==> LookAt(cfg, s, h) == Go(h + 1, None, |w|))
  {
    hide Decide, EventOf, IsbChecksumOk, IsbTypeVerdict, UbloxVerdict, NmeaVerdict, Rtcm3Verdict, SonyVerdict,
        SpartnVerdict;
  }

  lemma NotUnsettled(cfg: Config, s: seq<byte>, h: nat)
    requires h < |s| && Settled(cfg, s, h)
    ensures LookAt(cfg, s, h) != Unsettled
  {
    hide LookAt;
  }

  lemma StepScans(rx: Rx, s: seq<byte>, base: nat, room: nat)
    requires OnTrack(rx, s, base, room) && rx.scan < rx.tail
    ensures var (next, found) := Step(rx);
      OnTrack(next, s, base, room) && Accounts(rx, next, s, base, base, Packets(next, found))
  {
    hide OnTrack, Accounts, Step;
    if rx.cand.Some? {
      HandleScans(rx, s, base, room);
    } else {
      SearchScans(rx, s, base, room);
    }
  }

  lemma TrackIsSound(rx: Rx, s: seq<byte>, base: nat, room: nat)
    requires OnTrack(rx, s, base, room)
    ensures Sound(rx) && Valid(rx) && rx.timeMs == 0
  {
  }

  lemma {:induction false} LoopScans(rx: Rx, s: seq<byte>, base: nat, room: nat)
    requires OnTrack(rx, s, base, room)
    ensures var (next, found) := Loop(rx);
      OnTrack(next, s, base, room) && Accounts(rx, next, s, base, base, Packets(next, found))
    decreases Rank(rx), Busy(rx), rx.tail + 1 - rx.scan
  {
    TrackIsSound(rx, s, base, room);
    hide OnTrack, Step, Sound, Scan, View;
    if rx.scan < rx.tail {
      StepScans(rx, s, base, room);
      StepValid(rx);
      var (next, found) := Step(rx);
      if found == Nothing {
        LoopScans(next, s, base, room);
      }
    }
  }

  /** A parse call reports the next packet of the scan, or none and an error, or that the bytes are used up. */
  lemma ParseScans(rx: Rx, s: seq<byte>, base: nat, room: nat)
    requires OnTrack(rx, s, base, room)
    ensures var (next, found) := Parse(rx, 0);
      OnTrack(next, s, base, room) && Accounts(rx, next, s, base, base, Packets(next, found))
  {
    TrackIsSound(rx, s, base, room);
    LoopScans(rx, s, base, room);
    var (next, found) := Loop(rx);
    TrackIsSound(next, s, base, room);
    hide OnTrack, Loop, Sound, Scan, View;
    assert next.(timeMs := 0) == next;
  }
}
