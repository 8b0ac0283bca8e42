/** Where the raw log's reader goes wrong: packets with an offset, whose data it looks for in the wrong place, and
    commands longer than its buffer. */
module RawOffset {
  import opened Bytes
  import opened Protocols
  import R = Receiver
  import opened StreamScan
  import opened ByteFeed
  import opened RawLog
  import E = Encoder
  import F = Fletcher
  import Frames

  // ----- what a frame leaves in memory ----------------------------------------------------------

  lemma ByteStored(rx: R.Rx, b: byte)
    requires Able(rx) && R.Valid(rx) && rx.tail < |rx.mem|
    ensures var next := ParseByte(rx, b).0;
      Able(next) && R.Valid(next) && next.mem == rx.mem[rx.tail := b] && next.tail == rx.tail + 1 && next.cfg == rx.cfg
  {
    ParseByteAble(rx, b);
    RoomForByte(rx);
    R.AppendSound(rx, [b]);
    R.ParseSound(R.Append(rx, [b]), 0);
    hide R.Parse, R.Counted, R.Undecided;
    assert R.Append(rx, [b]).mem == rx.mem[rx.tail := b];
  }

  /** While the buffer has room, bytes are stored one behind the other and nothing else changes in it. */
  lemma {:induction false} FeedStored(rx: R.Rx, s: seq<byte>)
    requires Able(rx) && R.Valid(rx) && rx.tail + |s| <= |rx.mem|
    ensures var next := Feed(rx, s).0;
      next.mem == rx.mem[..rx.tail] + s + rx.mem[rx.tail + |s|..] && next.tail == rx.tail + |s|
    decreases |s|
  {
    hide ParseByte, Able, R.Valid;
    if s == [] {
      assert rx.mem[..rx.tail] + [] + rx.mem[rx.tail..] == rx.mem;
    } else {
      ByteStored(rx, s[0]);
      var next := ParseByte(rx, s[0]).0;
      FeedStored(next, s[1..]);
      assert next.mem[..next.tail] == rx.mem[..rx.tail] + [s[0]];
      assert [s[0]] + s[1..] == s;
      assert next.mem[next.tail + |s[1..]|..] == rx.mem[rx.tail + |s|..];
      assert rx.mem[..rx.tail] + [s[0]] + s[1..] == rx.mem[..rx.tail] + ([s[0]] + s[1..]);
    }
  }

  /** Where the packet's data is taken to begin. */
  lemma StepPointer(rx: R.Rx, found: Found)
    requires R.Valid(rx) && rx.cand == Some(Isb) && rx.scan < rx.tail
    requires Judge(rx.cfg, Isb, R.Window(rx), R.Ahead(rx)) == Accept(found)
    requires HasOffset(R.Window(rx)) && DataSize(R.Window(rx)) > 0
    ensures R.Step(rx).0.pkt.ptr == Some(rx.head + 8)
  {
    hide Judge;
  }

  lemma PointerOf(rx: R.Rx, found: Found, w: seq<byte>)
    requires R.Sound(rx) && R.Valid(rx) && rx.cand == Some(Isb) && rx.scan == rx.tail - 1 && rx.timeMs == 0
      && R.Window(rx) == w
    requires |w| >= 6 && SelfContained(Isb, w) && Judge(rx.cfg, Isb, w, R.Nowhere()) == Accept(found)
    requires HasOffset(w) && DataSize(w) > 0
    ensures var next := R.Parse(rx, 0).0; next.tail >= |w| && next.pkt.ptr == Some(next.tail - |w| + 8)
  {
    hide Judge, R.Sound, SelfContained, R.Step;
    SelfJudged(rx, w);
    LastHandled(rx);
    StepPointer(rx, found);
    R.StepValid(rx);
  }

  lemma ParseByteIs(rx: R.Rx, b: byte)
    requires Able(rx)
    ensures R.Valid(rx) && R.Valid(R.Free(rx)) && R.FreeBytes(R.Free(rx)) > 0 && R.Valid(R.Append(R.Free(rx), [b]))
    ensures ParseByte(rx, b) == R.Parse(R.Append(R.Free(rx), [b]), 0)
  {
    RoomForByte(rx);
    hide R.Parse, R.Free, R.Counted, R.Undecided;
    R.AppendSound(R.Free(rx), [b]);
  }

  lemma LastPointer(rx: R.Rx, found: Found, w: seq<byte>)
    requires Whole(rx.cfg, Isb, found, w) && |w| >= 6 && Midway(rx, Isb, w[..|w| - 1]) && HasOffset(w)
      && DataSize(w) > 0
    ensures Able(rx)
    ensures var next := ParseByte(rx, w[|w| - 1]).0; next.tail >= |w| && next.pkt.ptr == Some(next.tail - |w| + 8)
  {
    hide *;
    var k := |w| - 1;
    MidwayIsAble(rx, w[..k]);
    ParseByteIs(rx, w[k]);
    WholeFacts(rx.cfg, Isb, found, w);
    LastReceived(rx, found, w);
    var next := R.Append(R.Free(rx), [w[k]]);
    PointerOf(next, found, w);
  }

  lemma LastReceived(rx: R.Rx, found: Found, w: seq<byte>)
    requires Whole(rx.cfg, Isb, found, w) && |w| >= 2 && Midway(rx, Isb, w[..|w| - 1])
    requires R.Valid(rx) && R.Valid(R.Free(rx)) && R.FreeBytes(R.Free(rx)) > 0
    ensures var next := R.Append(R.Free(rx), [w[|w| - 1]]);
      && R.Sound(next) && R.Valid(next) && next.cfg == rx.cfg && next.cand == Some(Isb) && next.timeMs == 0
      && next.scan == next.tail - 1 && R.Window(next) == w
  {
    var k := |w| - 1;
    NextReceived(rx, Isb, found, w, k);
    var next := R.Append(R.Free(rx), [w[k]]);
    SoundIsValid(next);
    assert w[..k + 1] == w;
    hide *;
  }

  lemma MidwayIsAble(rx: R.Rx, w: seq<byte>)
    requires Midway(rx, Isb, w)
    ensures Able(rx)
  {
  }

  lemma SelfJudged(rx: R.Rx, w: seq<byte>)
    requires R.Sound(rx) && R.Valid(rx) && rx.cand == Some(Isb) && rx.scan < rx.tail && R.Window(rx) == w && |w| >= 2
    requires SelfContained(Isb, w)
    ensures Judge(rx.cfg, Isb, w, R.Ahead(rx)) == Judge(rx.cfg, Isb, w, R.Nowhere())
  {
    hide Judge, SelfContained, R.Counted;
    OwnVerdict(rx);
  }

  /** A frame reported on its last byte is handed over, or overruns the buffer, when that byte is read. */
  lemma {:induction false} QuietPackets(rx: R.Rx, s: seq<byte>, e: Event)
    requires Able(rx) && s != [] && IsLogged(e.found) && Feed(rx, s).1 == Quiet(|s| - 1) + [Some(e)]
    ensures AllPackets(rx, s) == match Copied(Feed(rx, s).0)
      case Packet(d) => ([d], true)
      case _ => ([], false)
    decreases |s|
  {
    hide ParseByte, Able, Logged, AllPackets, View, IsLogged;
    PacketsUnfold(rx, s);
    var (next, found) := ParseByte(rx, s[0]);
    ViewFound(next, found);
    assert Feed(rx, s).1[0] == Reported(next, found);
    if |s| == 1 {
      assert s[1..] == [] && Quiet(0) + [Some(e)] == [Some(e)];
      NoPackets(next);
      FeedNothing(next);
      assert [Logged(next)] + [] == [Logged(next)];
    } else {
      assert Quiet(|s| - 1)[1..] == Quiet(|s| - 2);
      assert Feed(next, s[1..]).1 == Feed(rx, s).1[1..] == Quiet(|s| - 2) + [Some(e)];
      assert found == Nothing;
      NothingLogged();
      QuietPackets(next, s[1..], e);
    }
  }

  lemma NothingLogged()
    ensures !IsLogged(Nothing)
  {
  }

  // ----- messages with an offset ----------------------------------------------------------------

  /** Between frames, with room for the longest message. */
  predicate Ready(rx: R.Rx) {
    Idle(rx) && Isb in rx.cfg.enabled && E.LONGEST <= R.Spared(rx.cfg)
  }

  /** The frame of the message is read as the message itself. */
  predicate ComesBack(rx: R.Rx, m: E.Message) {
    Able(rx) && m.did < 256 && AllPackets(rx, E.Frame(m)) == ([LogData(m.did, |m.data|, m.offset, m.data)], true)
  }

  predicate IsMessage(m: E.Message, offset: nat, n: nat) {
    E.CarriesData(m) && E.Sendable(m) && m.offset == offset && |m.data| == n
  }

  /** What feeding a message does, and what the reader makes of it. */
  lemma MessageRead(rx: R.Rx, m: E.Message)
    requires Ready(rx) && E.CarriesData(m) && E.Sendable(m)
    ensures var next := Feed(rx, E.Frame(m)).0;
      AllPackets(rx, E.Frame(m)) == ([Logged(next)], true) && Agrees(Logged(next), E.Sent(m))
  {
    hide Feed, E.Frame, Idle, AllPackets, Logged, Whole, E.Sent, EventOf, PayloadSize;
    var w := E.Frame(m);
    E.FrameIsWhole(rx.cfg, m);
    FrameFed(rx, Isb, IsbData, w);
    IdleIsAble(rx);
    SentIsLogged(m);
    QuietPackets(rx, w, E.Sent(m));
    assert IsFrameOf(rx, m);
    OneRead(rx, m);
  }

  predicate IsFrameOf(rx: R.Rx, m: E.Message) {
    Able(rx) && Feed(rx, E.Frame(m)).1 == Quiet(|E.Frame(m)| - 1) + [Some(E.Sent(m))]
  }

  lemma IdleIsAble(rx: R.Rx)
    requires Idle(rx)
    ensures Able(rx)
  {
  }

  lemma SentIsLogged(m: E.Message)
    requires E.CarriesData(m) && E.Sendable(m)
    ensures IsLogged(E.Sent(m).found) && ShortEnough(E.Sent(m))
  {
  }

  lemma OneRead(rx: R.Rx, m: E.Message)
    requires IsFrameOf(rx, m) && IsLogged(E.Sent(m).found) && ShortEnough(E.Sent(m))
    requires AllPackets(rx, E.Frame(m))
      == match Copied(Feed(rx, E.Frame(m)).0) case Packet(d) => ([d], true) case _ => ([], false)
    ensures var next := Feed(rx, E.Frame(m)).0;
      AllPackets(rx, E.Frame(m)) == ([Logged(next)], true) && Agrees(Logged(next), E.Sent(m))
  {
    hide Feed, E.Frame, AllPackets, Logged, E.Sent, Agrees, ShortEnough, IsLogged;
    var e, n := E.Sent(m), |E.Frame(m)| - 1;
    ReadsWhatIsParsed(rx, E.Frame(m));
    NothingQuiet(n, [Some(e)]);
    OneEvent(e);
    assert AllFit([e]);
    var (ds, inside) := AllPackets(rx, E.Frame(m));
    assert inside && ReadTo(ds, inside, [e]);
    assert Agrees(ds[0], [e][0]);
  }

  lemma OneEvent(e: Event)
    requires IsLogged(e.found)
    ensures DataAndCommands([Some(e)]) == [e]
  {
    assert [Some(e)][1..] == [];
    assert DataAndCommands([]) == [];
  }

  /** A message without an offset, or without data, is read as it was sent. */
  lemma PlainComesBack(rx: R.Rx, m: E.Message)
    requires Ready(rx) && E.CarriesData(m) && E.Sendable(m) && (m.offset == 0 || m.data == [])
    ensures ComesBack(rx, m)
  {
    hide AllPackets, Logged, Idle, E.Frame;
    IdleIsAble(rx);
    MessageRead(rx, m);
  }

  /** The memory after a fresh receiver has been fed the bytes `w`. */
  function FreshMemory(cfg: Config, w: seq<byte>): nat -> byte {
    R.Memory(w + seq(if cfg.size > |w| then cfg.size - |w| else 0, _ => 0), cfg.outside, 0)
  }

  lemma OffsetFrame(cfg: Config, m: E.Message)
    requires Ready(R.Init(cfg)) && E.CarriesData(m) && E.Sendable(m) && m.offset != 0 && m.data != []
    ensures var w := E.Frame(m);
      Idle(R.Init(cfg)) && Whole(R.Init(cfg).cfg, Isb, IsbData, w) && |w| >= 6 && HasOffset(w) && DataSize(w) > 0
  {
    hide E.Frame, Idle, Whole, HasOffset, DataSize, E.FlagsOf;
    E.FrameIsWhole(cfg, m);
    E.FrameBits(m);
  }

  lemma FreshPointer(cfg: Config, m: E.Message)
    requires Ready(R.Init(cfg)) && E.CarriesData(m) && E.Sendable(m) && m.offset != 0 && m.data != []
    ensures Able(R.Init(cfg))
    ensures var next := Feed(R.Init(cfg), E.Frame(m)).0;
      next.tail >= |E.Frame(m)| && next.pkt.ptr == Some(next.tail - |E.Frame(m)| + 8)
  {
    OffsetFrame(cfg, m);
    hide *;
    WholePointer(R.Init(cfg), E.Frame(m));
  }

  lemma FeedLast(rx: R.Rx, s: seq<byte>, b: byte)
    requires Able(rx)
    ensures Able(Feed(rx, s).0) && Feed(rx, s + [b]).0 == ParseByte(Feed(rx, s).0, b).0
  {
    FeedAble(rx, s);
    FeedSplits(rx, s, [b]);
    hide *;
    FeedOne(Feed(rx, s).0, b);
  }

  lemma PrefixMidway(rx: R.Rx, w: seq<byte>, k: nat)
    requires Idle(rx) && Whole(rx.cfg, Isb, IsbData, w) && 1 <= k < |w|
    ensures Able(rx) && Midway(Feed(rx, w[..k]).0, Isb, w[..k]) && Feed(rx, w[..k]).0.cfg == rx.cfg
  {
    IdleIsAble(rx);
    PrefixQuiet(rx, Isb, IsbData, w, k);
    FeedAble(rx, w[..k]);
    hide *;
  }

  lemma WholePointer(rx: R.Rx, w: seq<byte>)
    requires Idle(rx) && Whole(rx.cfg, Isb, IsbData, w) && |w| >= 6 && HasOffset(w) && DataSize(w) > 0
    ensures Able(rx)
    ensures var next := Feed(rx, w).0; next.tail >= |w| && next.pkt.ptr == Some(next.tail - |w| + 8)
  {
    hide *;
    var k := |w| - 1;
    PrefixMidway(rx, w, k);
    var s, b := w[..k], w[k];
    var before := Feed(rx, s).0;
    LastPointer(before, IsbData, w);
    FeedLast(rx, s, b);
    assert s + [b] == w;
  }

  lemma FreshState(cfg: Config, m: E.Message)
    requires Ready(R.Init(cfg)) && E.CarriesData(m) && E.Sendable(m) && m.offset != 0 && m.data != []
    ensures Able(R.Init(cfg)) && |E.Frame(m)| <= cfg.size
    ensures var next := Feed(R.Init(cfg), E.Frame(m)).0;
      next.cfg == cfg && next.mem == E.Frame(m) + seq(cfg.size - |E.Frame(m)|, _ => 0) && next.pkt.ptr == Some(8)
  {
    hide Feed, E.Frame, Idle, E.CarriesData, R.Init, Able, Ready;
    E.FrameStart(m);
    RoomForLongest(cfg);
    IdleIsAble(R.Init(cfg));
    FreshPointer(cfg, m);
    FreshMemoryIs(cfg, E.Frame(m));
  }

  /** A fresh receiver logs what lies `offset` bytes behind the data of the message. */
  lemma FreshLogs(cfg: Config, m: E.Message)
    requires Ready(R.Init(cfg)) && E.CarriesData(m) && E.Sendable(m) && m.offset != 0 && m.data != []
    ensures AllPackets(R.Init(cfg), E.Frame(m))
      == ([LogData(m.did, |m.data|, m.offset, Slice(FreshMemory(cfg, E.Frame(m)), 8 + m.offset, |m.data|))], true)
  {
    FreshState(cfg, m);
    MessageRead(R.Init(cfg), m);
    hide *;
    LoggedIs(Feed(R.Init(cfg), E.Frame(m)).0, cfg, m);
  }

  lemma RoomForLongest(cfg: Config)
    requires Ready(R.Init(cfg))
    ensures E.LONGEST <= cfg.size && Idle(R.Init(cfg))
  {
  }

  lemma FreshMemoryIs(cfg: Config, w: seq<byte>)
    requires Able(R.Init(cfg)) && |w| <= cfg.size
    ensures var next := Feed(R.Init(cfg), w).0;
      next.cfg == cfg && next.tail == |w| && next.mem == w + seq(cfg.size - |w|, _ => 0)
  {
    hide Feed, Able;
    var rx := R.Init(cfg);
    FeedStored(rx, w);
    FeedAble(rx, w);
    assert rx.mem[..0] + w + rx.mem[|w|..] == w + seq(cfg.size - |w|, _ => 0);
  }

  lemma LoggedIs(rx: R.Rx, cfg: Config, m: E.Message)
    requires |E.Frame(m)| <= cfg.size && rx.cfg == cfg && rx.mem == E.Frame(m) + seq(cfg.size - |E.Frame(m)|, _ => 0)
    requires rx.pkt.ptr == Some(8) && Agrees(Logged(rx), E.Sent(m)) && m.did < 256
    ensures Logged(rx) == LogData(m.did, |m.data|, m.offset,
      Slice(FreshMemory(cfg, E.Frame(m)), 8 + m.offset, |m.data|))
  {
    hide E.Frame;
    assert Logged(rx).data == Slice(FreshMemory(cfg, E.Frame(m)), 8 + m.offset, |m.data|);
  }

  /** A message of `n` bytes of data, 1 and then zeros. */
  function OneAndZeros(flags: byte, did: nat, offset: nat, n: nat): E.Message
    requires n > 0
  {
    E.Message(flags, did, offset, [1] + seq(n - 1, _ => 0))
  }

  /** The sums of a frame, before they are cut to a byte. */
  function Low(s: seq<byte>, u: byte, v: byte, t: seq<byte>): nat {
    F.Plain(s) + u + v + F.Plain(t)
  }

  function High(s: seq<byte>, u: byte, v: byte, t: seq<byte>): nat {
    F.Weighted(s) + F.Mul(2, F.Plain(s)) + 2 * u + v + F.Mul(|t|, F.Plain(s) + (u + v)) + F.Weighted(t)
  }

  lemma SumsAt(s: seq<byte>, u: byte, v: byte, t: seq<byte>)
    ensures F.Fletcher16(F.ZERO, s + [u, v] + t) == F.Sums(Low(s, u, v, t) % 256, High(s, u, v, t) % 256)
  {
    hide F.Mul, F.Plain, F.Weighted, F.Fletcher16;
    var w := s + [u, v] + t;
    F.ClosedForm(F.ZERO, w);
    F.MulAdds(0, |w|, 0, 0);
    F.PlainConcat(s + [u, v], t);
    F.PlainConcat(s, [u, v]);
    F.PairSums(u, v);
    F.WeightedPair(s, u, v, t);
  }

  lemma SumsMove(s: seq<byte>, u: byte, v: byte, t: seq<byte>)
    requires u < 255 && v < 255
    ensures Low(s, u, v + 1, t) == Low(s, u, v, t) + 1 && Low(s, u + 1, v, t) == Low(s, u, v, t) + 1
    ensures High(s, u, v + 1, t) == High(s, u, v, t) + (|t| + 1) && High(s, u + 1, v, t) == High(s, u, v, t) + (|t| + 2)
  {
    hide F.Mul, F.Plain, F.Weighted;
    F.MulAdds(0, |t|, F.Plain(s) + (u + v), 1);
    assert F.Mul(|t|, 1) == |t| by { ByOne(|t|); }
  }

  lemma ByOne(n: nat)
    ensures F.Mul(n, 1) == n
  {
  }

  lemma Shifted(low: nat, high: nat, more: nat, d: nat, x: F.Sums, y: F.Sums)
    requires x == F.Sums(low % 256, high % 256) && y == F.Sums((low + more) % 256, (high + d) % 256)
    ensures y.a == (x.a + more) % 256 && y.b == (x.b + d) % 256
  {
  }

  function SumOf(s: seq<byte>, u: byte, v: byte, t: seq<byte>): F.Sums {
    F.Fletcher16(F.ZERO, s + [u, v] + t)
  }

  lemma SumOfIs(s: seq<byte>, u: byte, v: byte, t: seq<byte>)
    ensures SumOf(s, u, v, t) == F.Sums(Low(s, u, v, t) % 256, High(s, u, v, t) % 256)
  {
    SumsAt(s, u, v, t);
  }

  /** The checksum when one of two neighbouring bytes of a frame is one larger. */
  lemma NeighbourSums(s: seq<byte>, u: byte, v: byte, t: seq<byte>)
    requires u < 255 && v < 255
    ensures SumOf(s, u, v + 1, t).a == (SumOf(s, u, v, t).a + 1) % 256
    ensures SumOf(s, u, v + 1, t).b == (SumOf(s, u, v, t).b + (|t| + 1)) % 256
    ensures SumOf(s, u + 1, v, t).b == (SumOf(s, u, v, t).b + (|t| + 2)) % 256
  {
    hide *;
    SumOfIs(s, u, v, t);
    SumOfIs(s, u, v + 1, t);
    SumOfIs(s, u + 1, v, t);
    SumsMove(s, u, v, t);
    Shifted(Low(s, u, v, t), High(s, u, v, t), 1, |t| + 1, SumOf(s, u, v, t), SumOf(s, u, v + 1, t));
    Shifted(Low(s, u, v, t), High(s, u, v, t), 1, |t| + 2, SumOf(s, u, v, t), SumOf(s, u + 1, v, t));
  }

  /** The frame of such a message around its flags and identifier. */
  lemma FrameAround(flags: byte, did: byte, offset: nat, n: nat)
    requires (flags == 4 || flags == 5) && 0 < offset < 0x10000 && 0 < n <= MAX_DATASET
    ensures var t := [Lo(n + 2), Hi(n + 2), Lo(offset), Hi(offset)] + ([1] + seq(n - 1, _ => 0));
      var sums := SumOf([0xEF, 0x49], flags + 32, did, t);
      E.Frame(OneAndZeros(flags, did, offset, n)) == [0xEF, 0x49, flags + 32, did] + t + [sums.a, sums.b]
  {
    hide F.Fletcher16, Lo, Hi;
    var m := OneAndZeros(flags, did, offset, n);
    var t := [Lo(n + 2), Hi(n + 2), Lo(offset), Hi(offset)] + m.data;
    assert E.FlagsOf(m) == flags + 32;
    assert E.Head(m) + m.data == [0xEF, 0x49] + [flags + 32, did] + t;
    assert [0xEF, 0x49] + [flags + 32, did] == [0xEF, 0x49, flags + 32, did];
  }

  /** For every offset and size there is a message that a fresh receiver does not log as 1, its first byte. */
  lemma Misread(offset: nat, n: nat) returns (m: E.Message)
    requires 0 < offset < 0x10000 && 0 < n <= MAX_DATASET
    ensures IsMessage(m, offset, n) && m.data[0] == 1
    ensures |E.Frame(m)| == n + 10 && (8 + offset < n + 10 ==> E.Frame(m)[8 + offset] != 1)
  {
    hide SumOf, E.Frame, Lo, Hi;
    var t := [Lo(n + 2), Hi(n + 2), Lo(offset), Hi(offset)] + ([1] + seq(n - 1, _ => 0));
    var s: seq<byte> := [0xEF, 0x49];
    FrameAround(4, 0, offset, n);
    FrameAround(4, 1, offset, n);
    FrameAround(5, 0, offset, n);
    NeighbourSums(s, 36, 0, t);
    var sums := SumOf(s, 36, 0, t);
    if offset == n && sums.a == 1 {
      m := OneAndZeros(4, 1, offset, n);
    } else if offset == n + 1 && sums.b == 1 {
      m := OneAndZeros(if (n + 5) % 256 == 0 then 5 else 4, if (n + 5) % 256 == 0 then 0 else 1, offset, n);
    } else {
      m := OneAndZeros(4, 0, offset, n);
    }
  }

  /** The library's packet buffer, with zeros behind it. */
  function ZeroBehind(): Config {
    Config({Isb}, MAX_ISB, _ => 0, _ => 0, _ => 0)
  }

  lemma FreshIsReady()
    ensures Ready(R.Init(ZeroBehind()))
  {
    InitIdle(ZeroBehind());
    hide Idle;
  }

  /** That message's data is logged with another first byte. */
  lemma MisreadIsWrong(offset: nat, n: nat, m: E.Message)
    requires 0 < offset < 0x10000 && 0 < n <= MAX_DATASET && IsMessage(m, offset, n) && m.data[0] == 1
    requires |E.Frame(m)| == n + 10 && (8 + offset < n + 10 ==> E.Frame(m)[8 + offset] != 1)
    ensures !ComesBack(R.Init(ZeroBehind()), m)
  {
    hide AllPackets, R.Init, Idle, E.Frame, Able;
    FreshIsReady();
    FreshLogs(ZeroBehind(), m);
    var logged := Slice(FreshMemory(ZeroBehind(), E.Frame(m)), 8 + offset, n);
    assert logged[0] == FreshMemory(ZeroBehind(), E.Frame(m))(8 + offset) != 1;
  }

  /** Every receiver between frames reads every message of this offset and size as it was sent if and only if the offset
      or the size is zero. */
  lemma OffsetExactly(offset: nat, n: nat)
    requires offset < 0x10000 && n <= MAX_DATASET
    ensures (forall rx, m :: Ready(rx) && IsMessage(m, offset, n) ==> ComesBack(rx, m)) <==> offset == 0 || n == 0
  {
    hide Ready, ComesBack, E.Frame;
    if offset == 0 || n == 0 {
      forall rx, m | Ready(rx) && IsMessage(m, offset, n) ensures ComesBack(rx, m) {
        PlainComesBack(rx, m);
      }
    } else {
      var m := Misread(offset, n);
      MisreadIsWrong(offset, n, m);
      FreshIsReady();
    }
  }

  // ----- commands longer than the reader's buffer -------------------------------------------------

  lemma CommandEvent(cfg: Config, w: seq<byte>)
    requires |w| >= 8 && |w| == 8 + PayloadSize(w) && w[2] == 6 && PayloadSize(w) > MAX_DATASET
    ensures var e := EventOf(cfg, Isb, IsbCmd, w); IsLogged(e.found) && !ShortEnough(e)
  {
    hide PayloadSize, AckFor;
  }

  lemma LongRead(rx: R.Rx, w: seq<byte>, e: Event)
    requires Able(rx) && w != [] && IsLogged(e.found) && !ShortEnough(e) && Feed(rx, w).1 == Quiet(|w| - 1) + [Some(e)]
    ensures AllPackets(rx, w) == ([], false)
  {
    hide Able, Feed, AllPackets, Agrees, IsLogged, Copied;
    ReadsWhatIsParsed(rx, w);
    NothingQuiet(|w| - 1, [Some(e)]);
    OneEvent(e);
    assert [e][0] == e;
    assert !AllFit([e]);
  }

  /** A command frame with more than 1024 bytes of payload is received whole, and overruns the reader's buffer. */
  lemma LongCommandOverruns(cfg: Config, payload: seq<byte>)
    requires Isb in cfg.enabled && MAX_DATASET < |payload| && 8 + |payload| <= R.Spared(cfg) && 8 + |payload| <= MAX_ISB
    ensures Able(R.Init(cfg)) && AllPackets(R.Init(cfg), Frames.IsbFrame(6, 0, payload)) == ([], false)
  {
    var w := Frames.IsbFrame(6, 0, payload);
    Frames.CommandFramed(cfg, payload);
    InitIdle(cfg);
    IdleIsAble(R.Init(cfg));
    assert Whole(cfg, Isb, IsbCmd, w);
    CommandEvent(cfg, w);
    hide *;
    FrameFed(R.Init(cfg), Isb, IsbCmd, w);
    LongRead(R.Init(cfg), w, EventOf(cfg, Isb, IsbCmd, w));
  }
}
