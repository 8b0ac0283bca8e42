/** Reading a port in arbitrary portions: the packets do not depend on the portions. */
module PortReads {
  import opened Bytes
  import opened Protocols
  import opened Receiver
  import opened StreamScan

  predicate Less(next: Rx, rx: Rx)
    requires Valid(next) && Valid(rx)
  {
    || Rank(next) < Rank(rx)
    || (Rank(next) == Rank(rx) && Busy(next) < Busy(rx))
    || (Rank(next) == Rank(rx) && Busy(next) == Busy(rx) && !rx.errorState && next.errorState)
  }

  lemma StepProgress(rx: Rx)
    requires Valid(rx) && rx.scan < rx.tail
    ensures var (next, found) := Step(rx);
      && Valid(next)
      && (found != Nothing ==> Less(next, rx))
      && (found == Nothing ==>
           || Less(next, rx)
           || (Rank(next) == Rank(rx) && Busy(next) == Busy(rx) && next.errorState == rx.errorState))
  {
    StepValid(rx);
    if rx.cand.Some? {
      HandleStep(rx);
      HandleValid(rx);
      hide Judge, Ahead, Deliver;
    }
  }

  lemma {:induction false} LoopProgress(rx: Rx)
    requires Valid(rx)
    ensures var (next, found) := Loop(rx);
      && Valid(next)
      && (found != Nothing ==> Less(next, rx))
    decreases Rank(rx), Busy(rx), rx.tail + 1 - rx.scan
  {
    if rx.scan < rx.tail {
      StepValid(rx);
      StepProgress(rx);
      hide Step;
      if Step(rx).1 == Nothing {
        LoopProgress(Step(rx).0);
      }
    }
  }

  lemma ParseProgress(rx: Rx, nowMs: nat)
    requires Valid(rx)
    ensures var (next, found) := Parse(rx, nowMs);
      && Valid(next)
      && (found != Nothing ==> Less(next, rx))
  {
    LoopProgress(Timeout(rx, nowMs));
    hide Loop;
  }

  /** Parse calls until nothing more is found, as the message dispatcher makes them. */
  function Drain(rx: Rx): (Rx, seq<Event>)
    requires Valid(rx)
    decreases Rank(rx), Busy(rx), if rx.errorState then 0 else 1
  {
    ParseProgress(rx, 0);
    var (next, found) := Parse(rx, 0);
    if found == Nothing then (next, [])
    else
      var (last, events) := Drain(next);
      (last, Packets(next, found) + events)
  }

  /** What remains of a drain after a report: the packet, if it is one, and what follows. */
  function Continued(events: seq<Event>, rx: Rx, found: Found): (Rx, seq<Event>)
    requires Valid(rx)
  {
    (Drain(rx).0, events + Packets(rx, found) + Drain(rx).1)
  }

  lemma DrainUnfolds(rx: Rx)
    requires Valid(rx)
    ensures var (next, found) := Parse(rx, 0);
      Valid(next) && Drain(rx) == if found == Nothing then (next, []) else Continued([], next, found)
  {
    ParseProgress(rx, 0);
    hide Parse, Packets;
    var (next, found) := Parse(rx, 0);
    assert [] + Packets(next, found) + Drain(next).1 == Packets(next, found) + Drain(next).1;
  }

  lemma Regroup(e: seq<Event>, p: seq<Event>, rest: seq<Event>)
    ensures e + [] == e && e + ([] + p + rest) == e + p + rest
  {
  }

  lemma AddsUp(events: seq<Event>, rx: Rx, found: Found)
    requires Valid(rx)
    ensures var (next, more) := Parse(rx, 0);
      Valid(next) && Continued(events, rx, found)
        == if more == Nothing then (next, events + Packets(rx, found))
            else Continued(events + Packets(rx, found), next, more)
  {
    DrainUnfolds(rx);
    hide Drain, Parse, Packets, Valid;
    var (next, more) := Parse(rx, 0);
    Regroup(events + Packets(rx, found), Packets(next, more), Drain(next).1);
  }

  /** What a port holding `port` delivers when asked for `n` bytes. */
  function Portion(rx: Rx, port: seq<byte>, n: nat): (got: nat)
    requires Valid(rx)
    ensures got <= |port| && got <= FreeBytes(rx) && got <= n
  {
    var k := if n < FreeBytes(rx) then n else FreeBytes(rx);
    if k < |port| then k else |port|
  }

  /** One read: room is made, the port delivers at most `n` of its bytes and no more than fit, and they are parsed. */
  function PortRead(rx: Rx, port: seq<byte>, n: nat): (Rx, seq<Event>, nat)
    requires Valid(rx) && Valid(Free(rx))
  {
    var next := Free(rx);
    var got := Portion(next, port, n);
    if got == 0 then (next, [], 0)
    else
      var (last, events) := Drain(Append(next, port[..got]));
      (last, events, got)
  }

  lemma FreeValid(rx: Rx)
    requires Valid(rx)
    ensures Valid(Free(rx))
  {
  }

  lemma {:induction false} DrainValid(rx: Rx)
    requires Valid(rx)
    ensures Valid(Drain(rx).0)
    decreases Rank(rx), Busy(rx), if rx.errorState then 0 else 1
  {
    hide Parse;
    ParseProgress(rx, 0);
    if Parse(rx, 0).1 != Nothing {
      DrainValid(Parse(rx, 0).0);
    }
  }

  /** Reads of the given sizes, one after the other: the receiver, the packets, and the number of bytes taken. */
  function Run(rx: Rx, port: seq<byte>, portions: seq<nat>): (Rx, seq<Event>, nat)
    requires Valid(rx)
    decreases |portions|
  {
    if portions == [] then (rx, [], 0)
    else
      FreeValid(rx);
      var (next, events, got) := PortRead(rx, port, portions[0]);
      PortReadValid(rx, port, portions[0]);
      var (last, more, taken) := Run(next, port[got..], portions[1..]);
      (last, events + more, got + taken)
  }

  lemma PortReadValid(rx: Rx, port: seq<byte>, n: nat)
    requires Valid(rx) && Valid(Free(rx))
    ensures Valid(PortRead(rx, port, n).0) && PortRead(rx, port, n).2 <= |port|
  {
    hide Free, Drain;
    var next := Free(rx);
    DrainValid(Append(next, port[..Portion(next, port, n)]));
  }

  /** The outcome of a run of which `events` and `taken` bytes are already accounted for. */
  function After(rx: Rx, events: seq<Event>, taken: nat, port: seq<byte>, portions: seq<nat>): (Rx, seq<Event>, nat)
    requires Valid(rx)
  {
    var (last, more, got) := Run(rx, port, portions);
    (last, events + more, taken + got)
  }

  lemma AfterNothing(rx: Rx, port: seq<byte>, portions: seq<nat>)
    requires Valid(rx)
    ensures After(rx, [], 0, port, portions) == Run(rx, port, portions)
  {
    hide Run;
    var (last, more, got) := Run(rx, port, portions);
    assert [] + more == more;
  }

  lemma AfterAll(rx: Rx, events: seq<Event>, taken: nat, port: seq<byte>)
    requires Valid(rx)
    ensures After(rx, events, taken, port, []) == (rx, events, taken)
  {
    hide PortRead;
    assert events + [] == events;
  }

  lemma AfterRead(rx: Rx, events: seq<Event>, taken: nat, port: seq<byte>, portions: seq<nat>)
    requires Valid(rx) && portions != []
    ensures Valid(Free(rx))
    ensures var (next, more, got) := PortRead(rx, port, portions[0]);
      && Valid(next) && got <= |port|
      && After(rx, events, taken, port, portions) == After(next, events + more, taken + got, port[got..], portions[1..])
  {
    FreeValid(rx);
    PortReadValid(rx, port, portions[0]);
    hide PortRead, Free;
    var (next, more, got) := PortRead(rx, port, portions[0]);
    var (last, rest, k) := Run(next, port[got..], portions[1..]);
    assert events + (more + rest) == events + more + rest;
  }

  // ----- the packets found ----------------------------------------------------------------

  lemma {:induction false} DrainScans(rx: Rx, s: seq<byte>, base: nat, room: nat)
    requires OnTrack(rx, s, base, room) && Valid(rx)
    ensures var (last, events) := Drain(rx);
      && OnTrack(last, s, base, room) && Accounts(rx, last, s, base, base, events)
      && last.cfg == rx.cfg && last.tail == rx.tail && last.scan >= last.tail
    decreases Rank(rx), Busy(rx), if rx.errorState then 0 else 1
  {
    TrackIsSound(rx, s, base, room);
    ParseScans(rx, s, base, room);
    ParseProgress(rx, 0);
    ParseSound(rx, 0);
    hide Parse, OnTrack, Sound, Accounts, Packets;
    var (next, found) := Parse(rx, 0);
    TrackIsSound(next, s, base, room);
    if found == Nothing {
      NoPackets(next);
    } else {
      DrainScans(next, s, base, room);
      AccountsCompose(rx, next, Drain(next).0, s, base, base, base, Packets(next, found), Drain(next).1);
    }
  }

  lemma NoPackets(rx: Rx)
    ensures Packets(rx, Nothing) == []
  {
  }

  lemma AccountsCompose(rx: Rx, mid: Rx, last: Rx, s: seq<byte>, b0: nat, b1: nat, b2: nat, e: seq<Event>,
      f: seq<Event>)
    requires Accounts(rx, mid, s, b0, b1, e) && Accounts(mid, last, s, b1, b2, f)
    ensures Accounts(rx, last, s, b0, b2, e + f)
  {
    hide Scan, Position;
  }

  lemma SamePlace(rx: Rx, mid: Rx, last: Rx, s: seq<byte>, b0: nat, b1: nat, b2: nat, e: seq<Event>)
    requires Position(rx, b0) == Position(mid, b1) && rx.cfg == mid.cfg && Accounts(mid, last, s, b1, b2, e)
    ensures Accounts(rx, last, s, b0, b2, e)
  {
    hide Scan, Position;
  }

  /** Making room does not throw away a frame in progress. */
  predicate Spares(rx: Rx) {
    rx.tail == |rx.mem| && rx.head < rx.cfg.size / 3 ==> rx.cand.None?
  }

  /** Making room loses nothing the scan still has to find, if it throws away no frame in progress. */
  lemma FreeScans(rx: Rx, s: seq<byte>, base: nat, room: nat) returns (base': nat)
    requires OnTrack(rx, s, base, room) && rx.scan >= rx.tail && rx.cfg.size >= 3 && Spares(rx)
    ensures Valid(Free(rx)) && Free(rx).cfg == rx.cfg
    ensures OnTrack(Free(rx), s, base', room)
    ensures Position(Free(rx), base') == Position(rx, base) && base' + Free(rx).tail == base + rx.tail
    ensures Free(rx).scan >= Free(rx).tail && Free(rx).tail < |Free(rx).mem|
  {
    TrackIsSound(rx, s, base, room);
    FreeSound(rx);
    if rx.tail < |rx.mem| {
      base' := base;
    } else {
      base' := base + if rx.head < rx.cfg.size / 3 then rx.tail else rx.head;
      if rx.head < rx.cfg.size / 3 {
        FlushScans(rx, s, base, room);
      } else {
        hide OnTrack, Sound;
        CompactScans(rx, s, base, room);
      }
    }
  }

  lemma FlushScans(rx: Rx, s: seq<byte>, base: nat, room: nat)
    requires OnTrack(rx, s, base, room) && rx.scan >= rx.tail && rx.cfg.size >= 3
    requires Valid(rx) && rx.tail == |rx.mem| && rx.head < rx.cfg.size / 3 && rx.cand.None? && Sound(Free(rx))
    ensures Valid(Free(rx)) && Free(rx).cfg == rx.cfg
    ensures OnTrack(Free(rx), s, base + rx.tail, room)
    ensures Position(Free(rx), base + rx.tail) == Position(rx, base) && Free(rx).tail == Free(rx).scan == 0
  {
    hide Sound, Settled, Fits, Scan;
  }

  lemma CompactScans(rx: Rx, s: seq<byte>, base: nat, room: nat)
    requires OnTrack(rx, s, base, room) && rx.scan >= rx.tail && rx.cfg.size >= 3
    requires Valid(rx) && rx.tail == |rx.mem| && rx.head >= rx.cfg.size / 3 && Sound(Free(rx))
    ensures Valid(Free(rx)) && Free(rx).cfg == rx.cfg
    ensures OnTrack(Free(rx), s, base + rx.head, room)
    ensures Position(Free(rx), base + rx.head) == Position(rx, base) && Free(rx).tail == rx.tail - rx.head
    ensures Free(rx).scan >= Free(rx).tail && Free(rx).tail < |Free(rx).mem|
  {
    FreeCompacts(rx);
    FreeKeepsTime(rx);
    hide Sound, Settled, Fits, Free;
  }

  lemma FreeKeepsTime(rx: Rx)
    requires Valid(rx)
    ensures Free(rx).timeMs == rx.timeMs && Free(rx).cfg == rx.cfg && |Free(rx).mem| == |rx.mem|
  {
  }

  /** A candidate still undecided takes no more than the room it was promised. */
  lemma PendingFits(rx: Rx, s: seq<byte>, base: nat, room: nat)
    requires OnTrack(rx, s, base, room) && rx.scan >= rx.tail && rx.cand.Some?
    ensures rx.tail - rx.head < room
  {
    hide Judge, Counted, Undecided, Scan;
    CandidateDecides(rx, s, base);
  }

  lemma AppendFollows(rx: Rx, s: seq<byte>, base: nat, room: nat, data: seq<byte>)
    requires OnTrack(rx, s, base, room) && Valid(rx) && |data| <= FreeBytes(rx)
    requires base + rx.tail + |data| <= |s| && s[base + rx.tail..base + rx.tail + |data|] == data
    requires rx.scan == rx.tail + 1 ==> |data| > 0
    ensures Valid(Append(rx, data)) && Append(rx, data).cfg == rx.cfg && Append(rx, data).tail == rx.tail + |data|
    ensures OnTrack(Append(rx, data), s, base, room)
    ensures Position(Append(rx, data), base) == Position(rx, base)
  {
    AppendSound(rx, data);
    hide Settled, Fits, Counted, Undecided, Judge;
    var next := Append(rx, data);
    assert Kept(next) == s[base + rx.head..base + rx.tail] + data;
  }

  /** Between reads: everything received is parsed, and what is left in the port is the rest of the stream. */
  predicate Ready(rx: Rx, s: seq<byte>, base: nat, port: seq<byte>, room: nat) {
    && OnTrack(rx, s, base, room)
    && rx.scan >= rx.tail && rx.cfg.size >= 3
    && base + rx.tail <= |s| && port == s[base + rx.tail..]
  }

  /** At the end of the stream a flush throws away only a frame that has been cut off. */
  lemma FlushedAtEnd(rx: Rx, s: seq<byte>, base: nat, room: nat)
    requires Ready(rx, s, base, [], room) && Valid(rx) && rx.tail == |rx.mem| && rx.head < rx.cfg.size / 3
    ensures Valid(Free(rx)) && Free(rx).cfg == rx.cfg && Ready(Free(rx), s, base + rx.tail, [], room)
    ensures Accounts(rx, Free(rx), s, base, base + rx.tail, [])
  {
    NothingLeft(rx, s, base, room);
    EndReached(rx, s, base, room);
    FreeSound(rx);
    hide Sound, Judge, LookAt;
    EndIsOnTrack(Free(rx), s, base + rx.tail, room);
  }

  lemma EndIsOnTrack(rx: Rx, s: seq<byte>, base: nat, room: nat)
    requires Sound(rx) && rx.timeMs == 0 && rx.cand.None? && rx.head == rx.scan == rx.tail == 0 && base == |s|
    ensures OnTrack(rx, s, base, room) && Scan(rx.cfg, s, Position(rx, base)) == []
  {
    hide Sound, LookAt;
    SoundIsValid(rx);
  }

  lemma FreeReady(rx: Rx, s: seq<byte>, base: nat, port: seq<byte>, room: nat) returns (base': nat)
    requires Ready(rx, s, base, port, room) && Valid(rx) && (port != [] ==> Spares(rx))
    ensures Valid(Free(rx)) && Free(rx).cfg == rx.cfg && Ready(Free(rx), s, base', port, room)
    ensures Accounts(rx, Free(rx), s, base, base', [])
  {
    hide OnTrack, Free, Position, Scan;
    if Spares(rx) {
      base' := FreeScans(rx, s, base, room);
    } else {
      base' := base + rx.tail;
      FlushedAtEnd(rx, s, base, room);
    }
  }

  /** One read brings in what the scan finds in its bytes, if it does not throw away a frame with more of the stream to
      come. */
  lemma PortReadScans(rx: Rx, s: seq<byte>, base: nat, port: seq<byte>, room: nat, n: nat) returns (base': nat)
    requires Ready(rx, s, base, port, room) && Valid(rx) && Valid(Free(rx)) && (port != [] ==> Spares(rx))
    ensures var (next, events, got) := PortRead(rx, port, n);
      && got <= |port| && Ready(next, s, base', port[got..], room) && next.cfg == rx.cfg
      && Accounts(rx, next, s, base, base', events)
  {
    hide Ready, Free, Drain, Position, Portion, Accounts, Append, FreeBytes;
    base' := FreeReady(rx, s, base, port, room);
    var next := Free(rx);
    var got := Portion(next, port, n);
    if got > 0 {
      DeliveredScans(next, s, base', port, room, got);
      var (last, events) := Drain(Append(next, port[..got]));
      AccountsCompose(rx, next, last, s, base, base', base', [], events);
      assert [] + events == events;
    } else {
      assert port[0..] == port;
    }
  }

  lemma Taken(s: seq<byte>, at: nat, port: seq<byte>, got: nat)
    requires at <= |s| && port == s[at..] && got <= |port|
    ensures s[at..at + got] == port[..got] && port[got..] == s[at + got..]
  {
  }

  /** Bytes delivered into free space and parsed. */
  lemma DeliveredScans(rx: Rx, s: seq<byte>, base: nat, port: seq<byte>, room: nat, got: nat)
    requires Ready(rx, s, base, port, room) && Valid(rx) && 0 < got <= |port| && got <= FreeBytes(rx)
    ensures Valid(Append(rx, port[..got]))
    ensures var (last, events) := Drain(Append(rx, port[..got]));
      Ready(last, s, base, port[got..], room) && last.cfg == rx.cfg && Accounts(rx, last, s, base, base, events)
  {
    hide OnTrack, Drain, Position, Append, Accounts;
    Taken(s, base + rx.tail, port, got);
    AppendFollows(rx, s, base, room, port[..got]);
    ParsedScans(rx, Append(rx, port[..got]), s, base, port, room, got);
  }

  lemma ParsedScans(rx: Rx, next: Rx, s: seq<byte>, base: nat, port: seq<byte>, room: nat, got: nat)
    requires Valid(rx) && Valid(next) && rx.cfg == next.cfg && rx.cfg.size >= 3
    requires OnTrack(next, s, base, room) && Position(rx, base) == Position(next, base)
    requires base + next.tail <= |s| && got <= |port| && port[got..] == s[base + next.tail..]
    ensures var (last, events) := Drain(next);
      Ready(last, s, base, port[got..], room) && last.cfg == rx.cfg && Accounts(rx, last, s, base, base, events)
  {
    hide OnTrack, Drain, Position, Append, Accounts;
    DrainScans(next, s, base, room);
    var (last, events) := Drain(next);
    SamePlace(rx, next, last, s, base, base, base, events);
  }

  /** No read but those of an empty port throws away a frame in progress. */
  predicate NoFlush(rx: Rx, port: seq<byte>, portions: seq<nat>)
    requires Valid(rx)
    decreases |portions|
  {
    if portions == [] then true
    else
      FreeValid(rx);
      PortReadValid(rx, port, portions[0]);
      var (next, _, got) := PortRead(rx, port, portions[0]);
      (port != [] ==> Spares(rx)) && NoFlush(next, port[got..], portions[1..])
  }

  lemma {:induction false} RunScans(rx: Rx, s: seq<byte>, base: nat, port: seq<byte>, room: nat, portions: seq<nat>)
    returns (base': nat)
    requires Ready(rx, s, base, port, room) && Valid(rx) && NoFlush(rx, port, portions)
    ensures var (last, events, taken) := Run(rx, port, portions);
      && taken <= |port| && Ready(last, s, base', port[taken..], room)
      && Accounts(rx, last, s, base, base', events)
    decreases |portions|
  {
    hide Ready, Accounts, PortRead, Spares;
    if portions == [] {
      base' := base;
      assert port[0..] == port;
      NothingHappens(rx, s, base);
    } else {
      FreeValid(rx);
      PortReadValid(rx, port, portions[0]);
      var mid := PortReadScans(rx, s, base, port, room, portions[0]);
      var (next, events, got) := PortRead(rx, port, portions[0]);
      base' := RunScans(next, s, mid, port[got..], room, portions[1..]);
      var (last, more, taken) := Run(next, port[got..], portions[1..]);
      AccountsCompose(rx, next, last, s, base, mid, base', events, more);
      assert port[got..][taken..] == port[got + taken..];
    }
  }

  lemma NothingHappens(rx: Rx, s: seq<byte>, base: nat)
    ensures Accounts(rx, rx, s, base, base, [])
  {
  }

  lemma EndReached(rx: Rx, s: seq<byte>, base: nat, room: nat)
    requires Ready(rx, s, base, [], room)
    ensures base + rx.tail == |s| && Follows(rx, s, base) && Valid(rx)
  {
    hide Settled, Fits;
  }

  lemma NothingLeft(rx: Rx, s: seq<byte>, base: nat, room: nat)
    requires Ready(rx, s, base, [], room)
    ensures Scan(rx.cfg, s, Position(rx, base)) == []
  {
    EndReached(rx, s, base, room);
    hide Judge, Follows, Settled, Fits, Decide, LookAt, OnTrack;
    if rx.cand.Some? {
      CandidateDecides(rx, s, base);
      PendingStops(rx.cfg, s, base + rx.head, rx.cand.value, rx.scan - rx.head + 1);
    }
  }

  lemma PendingStops(cfg: Config, s: seq<byte>, h: nat, p: Protocol, n: nat)
    requires h < |s| && StartOf(s[h]) == Some(p) && p in cfg.enabled && n >= 2 && h + n > |s|
    requires Decide(cfg, s, h, p, 2) == Decide(cfg, s, h, p, n)
    ensures LookAt(cfg, s, h) == Stop && Scan(cfg, s, h) == []
  {
    assert Decide(cfg, s, h, p, n) == None;
    hide Decide;
  }

  /** At least as many reads as there are bytes, each of a byte or more. */
  predicate Enough(portions: seq<nat>, n: nat) {
    |portions| >= n && forall i :: 0 <= i < |portions| ==> portions[i] > 0
  }

  lemma {:induction false} DrainSound(rx: Rx)
    requires Sound(rx) && Valid(rx)
    ensures Sound(Drain(rx).0) && Drain(rx).0.cfg == rx.cfg
    decreases Rank(rx), Busy(rx), if rx.errorState then 0 else 1
  {
    hide Parse, Sound;
    ParseProgress(rx, 0);
    ParseSound(rx, 0);
    if Parse(rx, 0).1 != Nothing {
      DrainSound(Parse(rx, 0).0);
    }
  }

  lemma SoundFree(rx: Rx)
    requires Sound(rx) && rx.cfg.size >= 3
    ensures Valid(rx) && Valid(Free(rx)) && Sound(Free(rx)) && Free(rx).cfg == rx.cfg && FreeBytes(Free(rx)) > 0
  {
    FreeSound(rx);
    SoundIsValid(rx);
    SoundIsValid(Free(rx));
    hide Sound, Free;
    FreeMakesRoom(rx.cfg);
  }

  lemma PortReadSound(rx: Rx, port: seq<byte>, n: nat)
    requires Sound(rx)
    ensures Valid(rx) && Valid(Free(rx)) && Sound(PortRead(rx, port, n).0) && PortRead(rx, port, n).0.cfg == rx.cfg
  {
    FreeSound(rx);
    SoundIsValid(rx);
    SoundIsValid(Free(rx));
    hide Sound, Free, Drain, Append;
    var next := Free(rx);
    var got := Portion(next, port, n);
    if got > 0 {
      AppendedSound(next, port[..got]);
      DrainSound(Append(next, port[..got]));
    }
  }

  /** A read of a byte or more takes at least one, if there is one. */
  lemma PortReadTakes(rx: Rx, port: seq<byte>, n: nat)
    requires Sound(rx) && rx.cfg.size >= 3 && n > 0
    ensures Valid(rx) && Valid(Free(rx))
    ensures var (next, _, got) := PortRead(rx, port, n);
      Sound(next) && next.cfg == rx.cfg && got <= |port| && (port != [] ==> got > 0)
  {
    PortReadSound(rx, port, n);
    SoundFree(rx);
    hide Sound, Free, Drain, Append;
  }

  lemma {:induction false} RunSound(rx: Rx, port: seq<byte>, portions: seq<nat>)
    requires Sound(rx)
    ensures Valid(rx) && Sound(Run(rx, port, portions).0)
    decreases |portions|
  {
    SoundIsValid(rx);
    hide Sound, Valid, PortRead;
    if portions != [] {
      FreeValid(rx);
      PortReadValid(rx, port, portions[0]);
      PortReadSound(rx, port, portions[0]);
      var (next, _, got) := PortRead(rx, port, portions[0]);
      RunSound(next, port[got..], portions[1..]);
    }
  }

  /** The error for a sentence without its line feed is never counted, whatever is read. */
  lemma LineFeedNeverMissed(cfg: Config, s: seq<byte>, portions: seq<nat>)
    ensures var last := Run(Init(cfg), s, portions).0;
      |last.stats.byType| == ERROR_TYPES && last.stats.byType[ErrorIndex(MissingEosMarker)] == 0
  {
    InitSound(cfg);
    RunSound(Init(cfg), s, portions);
    hide Run;
  }

  lemma AppendedSound(rx: Rx, data: seq<byte>)
    requires Sound(rx) && Valid(rx) && |data| <= FreeBytes(rx)
    ensures Sound(Append(rx, data)) && Valid(Append(rx, data)) && Append(rx, data).cfg == rx.cfg
  {
    AppendSound(rx, data);
    SoundIsValid(Append(rx, data));
    hide Sound, Valid;
  }

  /** Enough reads take the whole stream, whatever it is. */
  lemma {:induction false} EnoughReads(rx: Rx, port: seq<byte>, portions: seq<nat>)
    requires Sound(rx) && rx.cfg.size >= 3 && Enough(portions, |port|)
    ensures Valid(rx) && Run(rx, port, portions).2 == |port|
    decreases |portions|
  {
    SoundIsValid(rx);
    hide Sound, Valid, PortRead;
    if portions != [] {
      FreeValid(rx);
      PortReadValid(rx, port, portions[0]);
      PortReadTakes(rx, port, portions[0]);
      var (next, _, got) := PortRead(rx, port, portions[0]);
      EnoughReads(next, port[got..], portions[1..]);
    }
  }

  // ----- the packets of a run -------------------------------------------------------------

  /** A stream is room enough for each of its frames. */
  lemma {:induction false} StreamFits(cfg: Config, s: seq<byte>, h: nat, room: nat)
    requires |s| < room
    ensures Fits(cfg, s, h, room)
    decreases |s| - h
  {
    if h < |s| && LookAt(cfg, s, h).Go? {
      GoesInStream(cfg, s, h);
      var next := LookAt(cfg, s, h).next;
      hide LookAt;
      StreamFits(cfg, s, next, room);
    }
  }

  lemma GoesInStream(cfg: Config, s: seq<byte>, h: nat)
    requires h < |s| && LookAt(cfg, s, h).Go?
    ensures h + LookAt(cfg, s, h).used <= |s|
  {
    hide Judge, SelfContained, EventOf;
  }

  lemma InitReady(cfg: Config, s: seq<byte>, room: nat)
    requires cfg.size >= 3 && Settled(cfg, s, 0) && Fits(cfg, s, 0, room)
    ensures Ready(Init(cfg), s, 0, s, room)
  {
    InitSound(cfg);
    hide Sound, Settled, Fits;
    assert s[0..] == s && Kept(Init(cfg)) == s[0..0];
  }

  /** Whatever the reads, as long as none of them throws away a frame in progress while the port still has bytes, a
      fresh receiver reports a prefix of the packets of the plain scan, and all of them once the port is empty, which it
      is after enough reads. */
  lemma PacketsOfRun(cfg: Config, s: seq<byte>, portions: seq<nat>)
    requires cfg.size >= 3 && Settled(cfg, s, 0) && NoFlush(Init(cfg), s, portions)
    ensures var (last, events, taken) := Run(Init(cfg), s, portions);
      && events <= Scan(cfg, s, 0)
      && (Enough(portions, |s|) ==> taken == |s|)
      && (taken == |s| ==> events == Scan(cfg, s, 0))
  {
    var rx := Init(cfg);
    InitSound(cfg);
    if Enough(portions, |s|) {
      EnoughReads(rx, s, portions);
    }
    StreamFits(cfg, s, 0, |s| + 1);
    InitReady(cfg, s, |s| + 1);
    var base := RunScans(rx, s, 0, s, |s| + 1, portions);
    var (last, events, taken) := Run(rx, s, portions);
    hide Ready, Run;
    assert Scan(cfg, s, 0) == events + Scan(last.cfg, s, Position(last, base));
    if taken == |s| {
      assert s[taken..] == [];
      NothingLeft(last, s, base, |s| + 1);
    }
  }

  /** Frames that a flush spares, or a stream that fits the buffer as a whole. */
  predicate Roomy(cfg: Config, s: seq<byte>) {
    Fits(cfg, s, 0, Spared(cfg)) || |s| <= cfg.size
  }

  lemma ReadySpares(rx: Rx, s: seq<byte>, base: nat, port: seq<byte>, room: nat)
    requires Ready(rx, s, base, port, room) && Valid(rx) && (room <= Spared(rx.cfg) || |s| <= rx.cfg.size)
    ensures port != [] ==> Spares(rx)
  {
    if rx.tail == |rx.mem| && rx.cand.Some? && rx.head < rx.cfg.size / 3 {
      PendingFits(rx, s, base, room);
      hide OnTrack;
    }
  }

  lemma {:induction false} RunSpares(rx: Rx, s: seq<byte>, base: nat, port: seq<byte>, room: nat, portions: seq<nat>)
    requires Ready(rx, s, base, port, room) && Valid(rx) && (room <= Spared(rx.cfg) || |s| <= rx.cfg.size)
    ensures NoFlush(rx, port, portions)
    decreases |portions|
  {
    hide Ready, Accounts, PortRead, Spares;
    if portions != [] {
      ReadySpares(rx, s, base, port, room);
      FreeValid(rx);
      PortReadValid(rx, port, portions[0]);
      var mid := PortReadScans(rx, s, base, port, room, portions[0]);
      var (next, _, got) := PortRead(rx, port, portions[0]);
      RunSpares(next, s, mid, port[got..], room, portions[1..]);
    }
  }

  /** No read throws away a frame if all frames are short enough, or if the whole stream fits the buffer. */
  lemma RoomyNeverFlushes(cfg: Config, s: seq<byte>, portions: seq<nat>)
    requires cfg.size >= 3 && Settled(cfg, s, 0) && Roomy(cfg, s)
    ensures NoFlush(Init(cfg), s, portions)
  {
    hide Settled, Fits, Ready, NoFlush, Init;
    if Fits(cfg, s, 0, Spared(cfg)) {
      InitReady(cfg, s, Spared(cfg));
      RunSpares(Init(cfg), s, 0, s, Spared(cfg), portions);
    } else {
      StreamFits(cfg, s, 0, |s| + 1);
      InitReady(cfg, s, |s| + 1);
      RunSpares(Init(cfg), s, 0, s, |s| + 1, portions);
    }
  }

  /** However a stream of frames that a flush spares, or one that fits the buffer, is cut into reads, a fresh receiver
      reports a prefix of the packets of the plain scan, and all of them once the port is empty, which it is after
      enough reads. */
  lemma PacketsOfStream(cfg: Config, s: seq<byte>, portions: seq<nat>)
    requires cfg.size >= 3 && Settled(cfg, s, 0) && Roomy(cfg, s)
    ensures var (last, events, taken) := Run(Init(cfg), s, portions);
      && events <= Scan(cfg, s, 0)
      && (Enough(portions, |s|) ==> taken == |s|)
      && (taken == |s| ==> events == Scan(cfg, s, 0))
  {
    hide Settled, Fits, Roomy, NoFlush, Run, Scan, Enough;
    RoomyNeverFlushes(cfg, s, portions);
    PacketsOfRun(cfg, s, portions);
  }
}
