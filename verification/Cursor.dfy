/** Where the parser leaves its place: the cursor one past the tail, and a verdict that depends on what lies behind the
    frame. */
module Cursor {
  import opened Bytes
  import opened Protocols
  import opened Receiver
  import opened StreamScan
  import opened ByteFeed
  import opened Flushes
  import P = PortReads
  import Frames

  // ----- a frame as the first thing received ------------------------------------------------------

  /** A fresh receiver that has got the bytes `s`. */
  function Holding(cfg: Config, s: seq<byte>): Rx
    requires |s| <= cfg.size
  {
    Init(cfg).(mem := s + seq(cfg.size - |s|, _ => 0), tail := |s|)
  }

  lemma Received(cfg: Config, s: seq<byte>, n: nat)
    requires 0 < n <= |s| && n <= cfg.size
    ensures Free(Init(cfg)) == Init(cfg) && P.Portion(Init(cfg), s, n) == n <= FreeBytes(Init(cfg))
    ensures Append(Init(cfg), s[..n]) == Holding(cfg, s[..n])
  {
    var got := s[..n];
    assert Init(cfg).mem[..0] + got + Init(cfg).mem[|got|..] == got + seq(cfg.size - |got|, _ => 0);
  }

  /** The receiver at the last byte of the frame. */
  function AtLast(cfg: Config, s: seq<byte>, n: nat): Rx
    requires |s| <= cfg.size && 0 < n <= |s|
  {
    Holding(cfg, s).(scan := n - 1, cand := Some(Isb))
  }

  lemma LastReached(cfg: Config, s: seq<byte>, n: nat)
    requires |s| <= cfg.size && 2 <= n <= |s| && Undecided(cfg, Isb, s[..n - 1])
    ensures Valid(Holding(cfg, s)) && Valid(AtLast(cfg, s, n))
    ensures Parse(Holding(cfg, s), 0) == Parse(AtLast(cfg, s, n), 0)
    ensures Window(AtLast(cfg, s, n)) == s[..n]
  {
    hide Undecided;
    var rx := Holding(cfg, s);
    assert rx.mem[0..n - 1] == s[..n - 1];
    StartLooped(rx, Isb, 0, s[..n - 1]);
    assert Window(AtLast(cfg, s, n)) == s[..n];
    assert Timeout(AtLast(cfg, s, n), 0) == AtLast(cfg, s, n);
    hide Loop;
  }

  // ----- the cursor past the tail -----------------------------------------------------------------

  /** Types that are none. */
  predicate Unusable(flags: byte) {
    var t: int := flags;
    t % 16 == 0 || t % 16 > 8
  }

  lemma UnusableType(w: seq<byte>, ahead: nat -> byte)
    requires |w| >= 6 && Unusable(w[2])
    ensures IsbTypeVerdict(w, ahead) == BadType
  {
  }

  lemma ParsedPast(rx: Rx)
    requires Valid(rx) && rx.cand == Some(Isb) && rx.scan == rx.tail - 1 && rx.timeMs == 0
    requires Judge(rx.cfg, Isb, Window(rx), Ahead(rx)).BadType?
    ensures var (next, found) := Parse(rx, 0);
      && found == ParseFailure && Valid(next) && next.scan == next.tail + 1 && next.head == next.tail
      && next.cand.None? && next.timeMs == 0
  {
    StepPastTail(rx);
    StepFails(rx);
    HandleValid(rx);
    StepValid(rx);
    StepKeepsTime(rx);
    hide Judge, Step;
    assert Timeout(rx, 0) == rx;
  }

  lemma NothingToParse(rx: Rx)
    requires Valid(rx) && rx.scan >= rx.tail && rx.cand.None?
    ensures P.Drain(rx) == (rx, [])
  {
    P.DrainUnfolds(rx);
    hide P.Drain;
  }

  /** Any ISB frame of an unusable type with a right checksum, received alone, leaves the cursor one past the tail. */
  lemma CursorPastTail(cfg: Config, flags: byte, id: byte, payload: seq<byte>)
    requires Isb in cfg.enabled && Unusable(flags) && 8 + |payload| <= MAX_ISB && 8 + |payload| <= cfg.size
    ensures var w := Frames.IsbFrame(flags, id, payload);
      && Valid(Free(Init(cfg)))
      && var (next, events, got) := P.PortRead(Init(cfg), w, |w|);
         got == |w| && events == [] && next.head == next.tail == |w| && next.scan == next.tail + 1
  {
    var w := Frames.IsbFrame(flags, id, payload);
    Frames.IsbShape(flags, id, payload);
    hide Frames.IsbFrame;
    Received(cfg, w, |w|);
    assert w[..|w|] == w;
    Frames.IsbJudged(cfg, flags, id, payload, Ahead(AtLast(cfg, w, |w|)));
    LastReached(cfg, w, |w|);
    UnusableType(w, Ahead(AtLast(cfg, w, |w|)));
    PastTail(cfg, w);
  }

  lemma PastTail(cfg: Config, w: seq<byte>)
    requires 2 <= |w| <= cfg.size && Valid(Holding(cfg, w)) && Valid(AtLast(cfg, w, |w|))
    requires Parse(Holding(cfg, w), 0) == Parse(AtLast(cfg, w, |w|), 0) && Window(AtLast(cfg, w, |w|)) == w
    requires Judge(cfg, Isb, w, Ahead(AtLast(cfg, w, |w|))).BadType?
    ensures var (next, events) := P.Drain(Holding(cfg, w));
      events == [] && next.head == next.tail == |w| && next.scan == next.tail + 1
  {
    var rx := AtLast(cfg, w, |w|);
    ParsedPast(rx);
    ParseKeepsTail(rx);
    P.DrainUnfolds(Holding(cfg, w));
    hide Parse, P.Drain, Judge;
    NothingToParse(Parse(rx, 0).0);
  }

  lemma ParseKeepsTail(rx: Rx)
    requires Valid(rx)
    ensures Parse(rx, 0).0.tail == rx.tail
  {
    hide Loop;
    LoopKeepsTail(Timeout(rx, 0));
  }

  lemma {:induction false} LoopKeepsTail(rx: Rx)
    requires Valid(rx)
    ensures Loop(rx).0.tail == rx.tail
    decreases Rank(rx), Busy(rx), rx.tail + 1 - rx.scan
  {
    hide Step;
    if rx.scan < rx.tail {
      StepValid(rx);
      if Step(rx).1 == Nothing {
        LoopKeepsTail(Step(rx).0);
      }
    }
  }

  // ----- packets that depend on the reads ---------------------------------------------------------

  /** A data request with no room for the size it asks for, and two bytes of 255. */
  function ShortRequest(id: byte): (s: seq<byte>) {
    Frames.IsbFrame(3, id, []) + [255, 255]
  }

  lemma RequestType(w: seq<byte>, ahead: nat -> byte)
    requires |w| == 8 && w[2] == 3
    ensures IsbTypeVerdict(w, ahead) == if Le16(ahead(8), ahead(9)) <= MAX_DATASET then Accept(IsbCmd) else BadType
  {
  }

  /** Bytes at which no frame starts make no packets. */
  lemma BarrenDrained(rx: Rx)
    requires Valid(rx) && rx.cand.None? && rx.scan <= rx.tail && Barren(rx.mem, rx.scan, rx.tail - rx.scan)
    ensures P.Drain(rx).1 == []
  {
    P.DrainUnfolds(rx);
    if rx.scan < rx.tail {
      if rx.errorState {
        BarrenSkipped(rx);
      } else {
        BarrenReported(rx);
        var noted := Parse(rx, 0).0;
        P.DrainUnfolds(noted);
        BarrenSkipped(noted);
      }
    }
    hide P.Drain, Parse;
  }

  lemma BarrenSkipped(rx: Rx)
    requires Valid(rx) && rx.cand.None? && rx.errorState && rx.scan <= rx.tail
      && Barren(rx.mem, rx.scan, rx.tail - rx.scan)
    ensures Parse(rx, 0).1 == Nothing
  {
    BarrenLooped(rx, rx.tail - rx.scan);
    hide Step;
    assert Loop(rx.(scan := rx.tail)) == (rx.(scan := rx.tail), Nothing);
    hide Loop;
  }

  lemma BarrenReported(rx: Rx)
    requires Valid(rx) && rx.cand.None? && !rx.errorState && rx.scan < rx.tail && StartOf(rx.mem[rx.scan]).None?
    ensures var (next, found) := Parse(rx, 0);
      found == ParseFailure && Valid(next) && next == rx.(errorState := true, stats := next.stats)
  {
    StepValid(rx);
    assert Step(rx).1 == ParseFailure;
  }

  lemma FirstRead(cfg: Config, s: seq<byte>, n: nat)
    requires 0 < n <= |s| && n <= cfg.size
    ensures Valid(Free(Init(cfg))) && Valid(Holding(cfg, s[..n]))
    ensures P.PortRead(Init(cfg), s, n) == (P.Drain(Holding(cfg, s[..n])).0, P.Drain(Holding(cfg, s[..n])).1, n)
  {
    Received(cfg, s, n);
    hide Append, P.Drain, P.Portion, Init;
  }

  lemma TwoBehind(w: seq<byte>, s: seq<byte>)
    requires |w| == 8 && s == w + [255, 255]
    ensures |s| == 10 && s[8] == s[9] == 255 && s[..10] == s && s[..8] == w && s[..7] == w[..7] && s[8..] == [255, 255]
    ensures w[..8] == w
  {
  }

  lemma ShortRequestShape(id: byte)
    ensures var (w, s) := (Frames.IsbFrame(3, id, []), ShortRequest(id));
      && |w| == 8 && |s| == 10 && w[2] == 3 && s[8] == s[9] == 255
      && s[..10] == s && s[..8] == w && s[..7] == w[..7] && s[8..] == [255, 255] && w[..8] == w
  {
    hide Frames.IsbFrame, PayloadSize, FrameChecksumOk;
    Frames.IsbShape(3, id, []);
    TwoBehind(Frames.IsbFrame(3, id, []), ShortRequest(id));
  }

  lemma BehindRequest(cfg: Config, s: seq<byte>)
    requires 8 <= |s| <= cfg.size && cfg.size >= 10
    ensures var ahead := Ahead(AtLast(cfg, s, 8));
      && ahead(8) == (if |s| > 8 then s[8] else 0) && ahead(9) == (if |s| > 9 then s[9] else 0)
    ensures AtLast(cfg, s, 8).cfg == cfg
  {
  }

  /** The verdict on the request in front of the two bytes. */
  lemma RequestRefused(cfg: Config, id: byte)
    requires Isb in cfg.enabled && cfg.size >= 10
    ensures |ShortRequest(id)| == 10 && Valid(Holding(cfg, ShortRequest(id)))
    ensures P.Drain(Holding(cfg, ShortRequest(id))).1 == []
  {
    ShortRequestShape(id);
    var s := ShortRequest(id);
    var rx := AtLast(cfg, s, 8);
    Frames.IsbJudged(cfg, 3, id, [], Ahead(rx));
    RequestType(s[..8], Ahead(rx));
    BehindRequest(cfg, s);
    assert Le16(255, 255) > MAX_DATASET;
    hide *;
    LastReached(cfg, s, 8);
    RefusedDrained(cfg, s);
  }

  /** Read at once, the two bytes behind the request make its type unusable. */
  lemma ReadAtOnce(cfg: Config, id: byte)
    requires Isb in cfg.enabled && cfg.size >= 10
    ensures var (_, events, taken) := P.Run(Init(cfg), ShortRequest(id), [10]);
      events == [] && taken == |ShortRequest(id)| == 10
  {
    ShortRequestShape(id);
    RequestRefused(cfg, id);
    FirstRead(cfg, ShortRequest(id), 10);
    assert [10][1..] == [];
    hide P.PortRead, P.Drain, ShortRequest, Init, Holding;
    P.PortReadValid(Init(cfg), ShortRequest(id), 10);
  }

  lemma RefusedDrained(cfg: Config, s: seq<byte>)
    requires |s| == 10 <= cfg.size && s[8] == s[9] == 255 && Valid(Holding(cfg, s)) && Valid(AtLast(cfg, s, 8))
    requires Parse(Holding(cfg, s), 0) == Parse(AtLast(cfg, s, 8), 0) && Window(AtLast(cfg, s, 8)) == s[..8]
    requires Judge(cfg, Isb, s[..8], Ahead(AtLast(cfg, s, 8))).BadType?
    ensures P.Drain(Holding(cfg, s)).1 == []
  {
    var rx := AtLast(cfg, s, 8);
    assert rx.mem[9] == 255 && rx.cand == Some(Isb) && rx.scan == 7 && rx.timeMs == 0 && rx.tail == 10 && rx.cfg == cfg;
    Refused(rx);
    var next := Parse(rx, 0).0;
    assert Barren(next.mem, next.scan, next.tail - next.scan);
    hide *;
    BarrenDrained(next);
    RefusedUnfolds(Holding(cfg, s));
  }

  lemma RefusedUnfolds(rx: Rx)
    requires Valid(rx) && Parse(rx, 0).1 == ParseFailure && Valid(Parse(rx, 0).0)
    ensures P.Drain(rx).1 == P.Drain(Parse(rx, 0).0).1
  {
    P.DrainUnfolds(rx);
    hide Parse, P.Drain;
  }

  lemma Refused(rx: Rx)
    requires Valid(rx) && rx.cand == Some(Isb) && rx.scan < rx.tail && rx.timeMs == 0
    requires Judge(rx.cfg, Isb, Window(rx), Ahead(rx)).BadType?
    ensures var (next, found) := Parse(rx, 0);
      found == ParseFailure && Valid(next) && next.scan == rx.scan + 2 && next.cand.None? && next.mem == rx.mem
          && next.tail == rx.tail
  {
    HandleStep(rx);
    StepFails(rx);
    StepValid(rx);
    hide Judge, Step;
    assert Timeout(rx, 0) == rx;
  }

  /** The verdict on the request by itself. */
  lemma RequestAccepted(cfg: Config, id: byte)
    requires Isb in cfg.enabled && cfg.size >= 10
    ensures var w := Frames.IsbFrame(3, id, []);
      && |w| == 8 && Valid(Holding(cfg, w))
      && var (next, events) := P.Drain(Holding(cfg, w));
         && |events| == 1 && events[0].found == IsbCmd
         && Valid(next) && next.cfg == cfg && next.cand.None? && next.scan == next.tail == 8
  {
    ShortRequestShape(id);
    var w := Frames.IsbFrame(3, id, []);
    var rx := AtLast(cfg, w, 8);
    Frames.IsbJudged(cfg, 3, id, [], Ahead(rx));
    RequestType(w, Ahead(rx));
    BehindRequest(cfg, w);
    assert Le16(0, 0) <= MAX_DATASET;
    hide *;
    LastReached(cfg, w, 8);
    AcceptedDrained(cfg, w);
  }

  /** Read by itself, it is a command. */
  lemma ReadFrameFirst(cfg: Config, id: byte)
    requires Isb in cfg.enabled && cfg.size >= 10
    ensures var (_, events, taken) := P.Run(Init(cfg), ShortRequest(id), [8, 2]);
      |events| == 1 && events[0].found == IsbCmd && taken == |ShortRequest(id)|
  {
    ShortRequestShape(id);
    RequestAccepted(cfg, id);
    var s, w := ShortRequest(id), Frames.IsbFrame(3, id, []);
    FirstRead(cfg, s, 8);
    RestDrained(P.Drain(Holding(cfg, w)).0);
    assert [8, 2][1..] == [2] && [2][1..] == [] && s[8..][2..] == [];
    hide P.PortRead, P.Drain, ShortRequest, Init, Holding, Frames.IsbFrame;
    P.PortReadValid(Init(cfg), s, 8);
    P.PortReadValid(P.PortRead(Init(cfg), s, 8).0, s[8..], 2);
  }

  lemma AcceptedDrained(cfg: Config, w: seq<byte>)
    requires |w| == 8 < cfg.size && Valid(Holding(cfg, w)) && Valid(AtLast(cfg, w, 8))
    requires Parse(Holding(cfg, w), 0) == Parse(AtLast(cfg, w, 8), 0) && Window(AtLast(cfg, w, 8)) == w
    requires Judge(cfg, Isb, w, Ahead(AtLast(cfg, w, 8))) == Accept(IsbCmd)
    ensures var (next, events) := P.Drain(Holding(cfg, w));
      && |events| == 1 && events[0].found == IsbCmd
      && Valid(next) && next.cfg == cfg && next.cand.None? && next.scan == next.tail == 8
  {
    var rx := AtLast(cfg, w, 8);
    LastHandled(rx);
    LastStep(rx);
    HandleStep(rx);
    StepValid(rx);
    P.DrainUnfolds(Holding(cfg, w));
    hide Parse, P.Drain, Judge, Step;
    NothingToParse(Step(rx).0);
  }

  lemma RestDrained(rx: Rx)
    requires Valid(rx) && rx.cfg.size >= 10 && rx.cand.None? && rx.scan == rx.tail == 8
    ensures Valid(Free(rx))
    ensures var (_, events, got) := P.PortRead(rx, [255, 255], 2); events == [] && got == 2
  {
    assert Free(rx) == rx;
    assert [255, 255][..2] == [255, 255];
    BarrenDrained(Append(rx, [255, 255]));
    hide P.Drain;
  }

  /** The packets of this stream depend on how it is cut into reads. */
  lemma CutsMatter(cfg: Config, id: byte)
    requires Isb in cfg.enabled && cfg.size >= 10
    ensures var (one, two) := (P.Run(Init(cfg), ShortRequest(id), [10]), P.Run(Init(cfg), ShortRequest(id), [8, 2]));
      one.2 == two.2 == |ShortRequest(id)| && one.1 == [] && |two.1| == 1 && two.1[0].found == IsbCmd
  {
    ReadAtOnce(cfg, id);
    ReadFrameFirst(cfg, id);
    hide *;
  }
}
