/** Which frames survive a full buffer: the bound of the theorems on reading in portions cannot be raised. */
module Flushes {
  import opened Bytes
  import opened Protocols
  import opened Receiver
  import opened StreamScan
  import opened ByteFeed
  import P = PortReads
  import Frames

  // ----- how the scan and the loop pass over bytes ------------------------------------------------

  /** No frame starts at any of these bytes. */
  predicate Barren(s: seq<byte>, h: nat, n: nat) {
    h + n <= |s| && forall i :: h <= i < h + n ==> StartOf(s[i]).None?
  }

  lemma BarrenSeen(cfg: Config, s: seq<byte>, h: nat)
    requires h < |s| && StartOf(s[h]).None?
    ensures LookAt(cfg, s, h) == Go(h + 1, None, 1)
  {
    hide Decide, Judge;
  }

  lemma BarrenByteScanned(cfg: Config, s: seq<byte>, h: nat, room: nat)
    requires h < |s| && StartOf(s[h]).None? && room > 0
    ensures Scan(cfg, s, h) == Scan(cfg, s, h + 1)
    ensures (Settled(cfg, s, h) <==> Settled(cfg, s, h + 1)) && (Fits(cfg, s, h, room) <==> Fits(cfg, s, h + 1, room))
  {
    hide LookAt;
    BarrenSeen(cfg, s, h);
    assert [] + Scan(cfg, s, h + 1) == Scan(cfg, s, h + 1);
  }

  /** The scan passes over them. */
  lemma {:induction false} BarrenScanned(cfg: Config, s: seq<byte>, h: nat, n: nat, room: nat)
    requires Barren(s, h, n) && room > 0
    ensures Scan(cfg, s, h) == Scan(cfg, s, h + n)
    ensures (Settled(cfg, s, h) <==> Settled(cfg, s, h + n)) && (Fits(cfg, s, h, room) <==> Fits(cfg, s, h + n, room))
    decreases n
  {
    hide Scan, Settled, Fits;
    if n > 0 {
      BarrenByteScanned(cfg, s, h, room);
      BarrenScanned(cfg, s, h + 1, n - 1, room);
    }
  }

  lemma BarrenStep(rx: Rx)
    requires Valid(rx) && rx.cand.None? && rx.errorState && rx.scan < rx.tail && StartOf(rx.mem[rx.scan]).None?
    ensures Step(rx) == (rx.(scan := rx.scan + 1), Nothing)
  {
  }

  lemma {:induction false} BarrenLooped(rx: Rx, n: nat)
    requires Valid(rx) && rx.cand.None? && rx.errorState && rx.scan + n <= rx.tail && Barren(rx.mem, rx.scan, n)
    ensures Valid(rx.(scan := rx.scan + n)) && Loop(rx) == Loop(rx.(scan := rx.scan + n))
    decreases n
  {
    hide Step;
    if n == 0 {
      assert rx.(scan := rx.scan + 0) == rx;
    } else {
      BarrenStep(rx);
      StepValid(rx);
      BarrenLooped(rx.(scan := rx.scan + 1), n - 1);
    }
  }

  /** Bytes that leave the recogniser undecided are passed over. */
  lemma {:induction false} UndecidedLooped(rx: Rx, p: Protocol, n: nat)
    requires Valid(rx) && rx.cand == Some(p) && rx.scan <= rx.head + n <= rx.tail && rx.scan >= rx.head + 1
    requires Undecided(rx.cfg, p, rx.mem[rx.head..rx.head + n])
    ensures Valid(rx.(scan := rx.head + n)) && Loop(rx) == Loop(rx.(scan := rx.head + n))
    decreases rx.head + n - rx.scan
  {
    if rx.scan == rx.head + n {
      assert rx.(scan := rx.head + n) == rx;
    } else {
      var k := rx.scan + 1 - rx.head;
      SlicePrefix(rx.mem, rx.head, rx.head + n, k);
      hide Judge, Step;
      assert Judge(rx.cfg, p, rx.mem[rx.head..rx.head + n][..k], Nowhere()).More?;
      assert Window(rx) == rx.mem[rx.head..rx.head + n][..k];
      MoreIsOwn(rx.cfg, p, Window(rx), Ahead(rx), Nowhere());
      HandleStep(rx);
      StepValid(rx);
      UndecidedLooped(rx.(scan := rx.scan + 1), p, n);
    }
  }

  lemma FirstOfUndecided(cfg: Config, p: Protocol, v: seq<byte>)
    requires Undecided(cfg, p, v)
    ensures |v| >= 1 && StartOf(v[0]) == Some(p) && p in cfg.enabled
  {
  }

  lemma FirstLooped(rx: Rx, p: Protocol)
    requires Valid(rx) && rx.cand.None? && rx.scan < rx.tail && StartOf(rx.mem[rx.scan]) == Some(p)
      && p in rx.cfg.enabled
    ensures var next := rx.(head := rx.scan, scan := rx.scan + 1, cand := Some(p));
      Valid(next) && Loop(rx) == Loop(next)
  {
    assert Step(rx) == (rx.(head := rx.scan, scan := rx.scan + 1, cand := Some(p)), Nothing);
    StepValid(rx);
    hide Step;
  }

  /** Barren bytes, then bytes that leave the recogniser undecided. */
  lemma StartLooped(rx: Rx, p: Protocol, j: nat, v: seq<byte>)
    requires Valid(rx) && rx.cand.None? && rx.errorState && rx.scan == rx.head == 0 && Barren(rx.mem, 0, j)
    requires j + |v| <= rx.tail && rx.mem[j..j + |v|] == v && Undecided(rx.cfg, p, v)
    ensures var next := rx.(head := j, scan := j + |v|, cand := Some(p)); Valid(next) && Loop(rx) == Loop(next)
  {
    hide Judge, Undecided, Barren, Loop;
    FirstOfUndecided(rx.cfg, p, v);
    assert rx.mem[j] == v[0];
    BarrenLooped(rx, j);
    FirstLooped(rx.(scan := j), p);
    UndecidedLooped(rx.(head := j, scan := j + 1, cand := Some(p)), p, |v|);
  }

  /** A single byte makes no packet. */
  lemma OneByteDrained(rx: Rx)
    requires Valid(rx) && rx.cand.None? && rx.errorState && rx.scan == rx.tail - 1 && rx.timeMs == 0
    ensures P.Drain(rx).1 == []
  {
    P.DrainUnfolds(rx);
    StepValid(rx);
    var (next, found) := Step(rx);
    assert found == Nothing && next.scan == next.tail;
    hide P.Drain, Step;
    assert Loop(rx) == Loop(next) == (next, Nothing);
  }

  // ----- a frame one byte too long ----------------------------------------------------------------

  /** Zeros up to just before a third of the buffer, then a frame. */
  function Late(cfg: Config, w: seq<byte>): seq<byte>
    requires cfg.size >= 3
  {
    seq(cfg.size / 3 - 1, _ => 0) + w
  }

  lemma LateScanned(cfg: Config, p: Protocol, found: Found, w: seq<byte>)
    requires cfg.size >= 3 && Framed(cfg, p, found, w)
    ensures |w| >= Shortest(p) && (p.Isb? ==> |w| >= 8 + PayloadSize(w))
    ensures Scan(cfg, Late(cfg, w), 0) == [EventOf(cfg, p, found, w)]
    ensures Settled(cfg, Late(cfg, w), 0) && Fits(cfg, Late(cfg, w), 0, |w|)
  {
    FramedShape(cfg, p, found, w);
    var s, j := Late(cfg, w), cfg.size / 3 - 1;
    hide Judge, Undecided, SelfContained;
    assert s[j..j + |w|] == w && Barren(s, 0, j);
    hide Barren;
    LookAtFramed(cfg, s, j, p, found, w);
    hide Framed, LookAt, Scan, Settled, Fits, EventOf, PayloadSize;
    BarrenScanned(cfg, s, 0, j, |w|);
    ScanStep(cfg, s, j, |w|, j + |w|, EventOf(cfg, p, found, w), |w|);
    NothingToScan(cfg, s, |w|);
    assert [EventOf(cfg, p, found, w)] + [] == [EventOf(cfg, p, found, w)];
  }

  /** The receiver when its buffer is full: all but the last byte of the frame are there, undecided. */
  function Full(cfg: Config, p: Protocol, s: seq<byte>): Rx
    requires cfg.size >= 3 && |s| >= cfg.size
  {
    Init(cfg).(mem := s[..cfg.size], tail := cfg.size, head := cfg.size / 3 - 1, scan := cfg.size, cand := Some(p))
  }

  lemma FirstRead(cfg: Config, p: Protocol, found: Found, w: seq<byte>)
    requires cfg.size >= 3 && Framed(cfg, p, found, w) && |w| == Spared(cfg) + 1
    ensures Valid(Free(Init(cfg))) && |Late(cfg, w)| == cfg.size + 1
    ensures P.PortRead(Init(cfg), Late(cfg, w), cfg.size) == (Full(cfg, p, Late(cfg, w)), [], cfg.size)
  {
    FramedUndecided(cfg, p, found, w);
    hide Framed, Judge, Undecided;
    var s := Late(cfg, w);
    FirstReceived(cfg, s);
    FirstParsed(cfg, p, w);
    hide P.Drain, Append, Late, Full, Init;
  }

  lemma FirstReceived(cfg: Config, s: seq<byte>)
    requires cfg.size >= 3 && |s| == cfg.size + 1
    ensures Free(Init(cfg)) == Init(cfg) && P.Portion(Init(cfg), s, cfg.size) == cfg.size == FreeBytes(Init(cfg))
    ensures Append(Init(cfg), s[..cfg.size]) == Init(cfg).(mem := s[..cfg.size], tail := cfg.size)
  {
  }

  lemma FirstParsed(cfg: Config, p: Protocol, w: seq<byte>)
    requires cfg.size >= 3 && |w| == Spared(cfg) + 1 && Undecided(cfg, p, w[..|w| - 1])
    ensures var s := Late(cfg, w);
      var rx := Init(cfg).(mem := s[..cfg.size], tail := cfg.size);
      Valid(rx) && P.Drain(rx) == (Full(cfg, p, s), [])
  {
    var s, j := Late(cfg, w), cfg.size / 3 - 1;
    var rx := Init(cfg).(mem := s[..cfg.size], tail := cfg.size);
    assert rx.mem[j..] == w[..|w| - 1];
    hide Undecided;
    StartLooped(rx, p, j, w[..|w| - 1]);
    assert Loop(Full(cfg, p, s)) == (Full(cfg, p, s), Nothing);
    P.DrainUnfolds(rx);
    hide P.Drain, Loop;
    assert Parse(rx, 0) == (Full(cfg, p, s), Nothing);
  }

  lemma FramedUndecided(cfg: Config, p: Protocol, found: Found, w: seq<byte>)
    requires Framed(cfg, p, found, w)
    ensures |w| >= 2 && Undecided(cfg, p, w[..|w| - 1])
  {
  }

  lemma SecondRead(cfg: Config, p: Protocol, s: seq<byte>)
    requires cfg.size >= 3 && |s| == cfg.size + 1
    ensures Valid(Full(cfg, p, s)) && Valid(Free(Full(cfg, p, s)))
    ensures var (_, events, got) := P.PortRead(Full(cfg, p, s), s[cfg.size..], 1); events == [] && got == 1
  {
    var rx := Free(Full(cfg, p, s));
    var port := s[cfg.size..];
    assert rx.cand.None? && rx.errorState && rx.scan == rx.tail == 0;
    OneByteDrained(Append(rx, port[..1]));
    hide P.Drain;
  }

  /** A frame of one byte more than a flush spares is dropped if it comes late in the buffer and its last byte comes by
      itself. */
  lemma LateFrameDropped(cfg: Config, p: Protocol, found: Found, w: seq<byte>)
    requires cfg.size >= 3 && Framed(cfg, p, found, w) && |w| == Spared(cfg) + 1
    ensures var (_, events, taken) := P.Run(Init(cfg), Late(cfg, w), [cfg.size, 1]);
      events == [] && taken == |Late(cfg, w)|
  {
    var s := Late(cfg, w);
    FirstRead(cfg, p, found, w);
    SecondRead(cfg, p, s);
    hide P.PortRead, Framed, Late;
    assert [cfg.size, 1][1..] == [1] && [1][1..] == [];
    var (next, _, _) := P.PortRead(Full(cfg, p, s), s[cfg.size..], 1);
    assert s[cfg.size..][1..] == [];
    P.PortReadValid(Full(cfg, p, s), s[cfg.size..], 1);
  }

  lemma {:induction false} MoreRoom(cfg: Config, s: seq<byte>, h: nat, room: nat, more: nat)
    requires Fits(cfg, s, h, room) && room <= more
    ensures Fits(cfg, s, h, more)
    decreases |s| - h
  {
    if h < |s| && LookAt(cfg, s, h).Go? {
      var next := LookAt(cfg, s, h).next;
      hide LookAt;
      MoreRoom(cfg, s, next, room, more);
    }
  }

  /** The stream is read as the scan has it. */
  ghost predicate ReadRight(cfg: Config, s: seq<byte>, portions: seq<nat>) {
    P.Run(Init(cfg), s, portions).1 == Scan(cfg, s, 0)
  }

  predicate Readable(cfg: Config, s: seq<byte>, portions: seq<nat>, room: nat) {
    Settled(cfg, s, 0) && Fits(cfg, s, 0, room) && P.Run(Init(cfg), s, portions).2 == |s|
  }

  /** Some enabled protocol has a frame of this length. */
  ghost predicate HasFrame(cfg: Config, n: nat) {
    exists p, found, w :: Framed(cfg, p, found, w) && |w| == n
  }

  /** Streams whose frames need at most `room` bytes are read right, however they are cut into reads, if and only if
      `room` is at most one byte more than two thirds of the buffer. This is so as soon as a frame of the next length
      exists. */
  lemma RoomExactly(cfg: Config, room: nat)
    requires cfg.size >= 3 && HasFrame(cfg, Spared(cfg) + 1)
    ensures (forall s, portions :: Readable(cfg, s, portions, room) ==> ReadRight(cfg, s, portions)) <==>
      room <= Spared(cfg)
  {
    hide P.Run, Scan, Settled, Fits, Late, Framed;
    if room <= Spared(cfg) {
      forall s, portions | Readable(cfg, s, portions, room) ensures ReadRight(cfg, s, portions) {
        MoreRoom(cfg, s, 0, room, Spared(cfg));
        P.PacketsOfStream(cfg, s, portions);
      }
    } else {
      var p, found, w :| Framed(cfg, p, found, w) && |w| == Spared(cfg) + 1;
      LateScanned(cfg, p, found, w);
      LateFrameDropped(cfg, p, found, w);
      MoreRoom(cfg, Late(cfg, w), 0, |w|, room);
      assert Readable(cfg, Late(cfg, w), [cfg.size, 1], room);
      assert !ReadRight(cfg, Late(cfg, w), [cfg.size, 1]);
    }
  }

  /** Lengths of which an enabled protocol has a frame. */
  predicate Spells(cfg: Config, n: nat) {
    || (Isb in cfg.enabled && 8 <= n <= MAX_ISB)
    || (Ublox in cfg.enabled && 8 <= n < 0x10000)
    || (Rtcm3 in cfg.enabled && 6 <= n <= MAX_RTCM && n <= Rtcm3Room(cfg))
    || (Sony in cfg.enabled && 6 <= n <= MAX_SONY + 6 && n <= cfg.size + 6)
  }

  lemma AnyLength(cfg: Config, n: nat)
    requires Spells(cfg, n)
    ensures HasFrame(cfg, n)
  {
    hide Framed;
    if Isb in cfg.enabled && 8 <= n <= MAX_ISB {
      var payload: seq<byte> := seq(n - 8, _ => 0);
      Frames.CommandFramed(cfg, payload);
      assert |Frames.IsbFrame(6, 0, payload)| == n;
    } else {
      var p := if Ublox in cfg.enabled && 8 <= n < 0x10000 then Ublox
               else if Rtcm3 in cfg.enabled && 6 <= n <= MAX_RTCM && n <= Rtcm3Room(cfg) then Rtcm3 else Sony;
      var w := Built(cfg, p, n);
      Frames.FrameIsFramed(cfg, p, w);
    }
  }

  /** A frame of zeros. */
  lemma Built(cfg: Config, p: Protocol, n: nat) returns (w: seq<byte>)
    requires match p
      case Ublox => 8 <= n < 0x10000
      case Rtcm3 => 6 <= n <= MAX_RTCM && n <= Rtcm3Room(cfg)
      case Sony => 6 <= n <= MAX_SONY + 6 && n <= cfg.size + 6
      case _ => false
    ensures |w| == n && SelfContained(p, w) && Frames.IsFrame(cfg, p, w, Nowhere())
  {
    match p
    case Ublox => w := BuiltUblox(n);
    case Rtcm3 => w := BuiltRtcm3(cfg, n);
    case _ => w := BuiltSony(cfg, n);
  }

  lemma BuiltUblox(n: nat) returns (w: seq<byte>)
    requires 8 <= n < 0x10000
    ensures |w| == n && Frames.IsUblox(w)
  {
    var payload: seq<byte> := seq(n - 8, _ => 0);
    w := Frames.UbloxFrame(0, 0, payload);
    Frames.UbloxShape(0, 0, payload);
    hide Frames.UbloxFrame;
  }

  lemma BuiltRtcm3(cfg: Config, n: nat) returns (w: seq<byte>)
    requires 6 <= n <= MAX_RTCM && n <= Rtcm3Room(cfg)
    ensures |w| == n && Frames.IsRtcm3(cfg, w)
  {
    var payload: seq<byte> := seq(n - 6, _ => 0);
    w := Frames.Rtcm3Frame(0, payload);
    Frames.Rtcm3Shape(0, payload);
    hide Frames.Rtcm3Frame;
  }

  lemma BuiltSony(cfg: Config, n: nat) returns (w: seq<byte>)
    requires 6 <= n <= MAX_SONY + 6 && n <= cfg.size + 6
    ensures |w| == n && Frames.IsSony(cfg, w)
  {
    var data: seq<byte> := seq(n - 6, _ => 0);
    w := Frames.SonyFrame(0, data);
    Frames.SonyShape(0, data);
    hide Frames.SonyFrame;
  }
}
