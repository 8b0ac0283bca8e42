/** Feeding a receiver one byte at a time. */
module ByteFeed {
  import opened Bytes
  import opened Protocols
  import opened Receiver
  import opened StreamScan
  import P = PortReads

  /** A receiver that can take a byte in every state it reaches. */
  predicate Able(rx: Rx) {
    Sound(rx) && rx.cfg.size >= 3
  }

  lemma RoomForByte(rx: Rx)
    requires Able(rx)
    ensures Valid(rx) && Sound(Free(rx)) && FreeBytes(Free(rx)) > 0 && Free(rx).cfg == rx.cfg
      && Free(rx).tail < |Free(rx).mem|
  {
    FreeSound(rx);
    hide Sound, Free;
    FreeMakesRoom(rx.cfg);
  }

  /** One byte is stored and parsed. */
  function ParseByte(rx: Rx, b: byte): (Rx, Found)
    requires Able(rx)
  {
    RoomForByte(rx);
    Parse(Append(Free(rx), [b]), 0)
  }

  lemma ParseByteAble(rx: Rx, b: byte)
    requires Able(rx)
    ensures Able(ParseByte(rx, b).0) && ParseByte(rx, b).0.cfg == rx.cfg
  {
    RoomForByte(rx);
    hide Parse, Free, Sound;
    AppendSound(Free(rx), [b]);
    ParseSound(Append(Free(rx), [b]), 0);
  }

  /** What one call reports: nothing, or the packet or failure. */
  function Reported(rx: Rx, found: Found): Option<Event> {
    if found == Nothing then None else Some(View(rx, found))
  }

  /** The bytes of `s`, one call each: the receiver afterwards and the report of every call. */
  function Feed(rx: Rx, s: seq<byte>): (Rx, seq<Option<Event>>)
    requires Able(rx)
    decreases |s|
  {
    if s == [] then (rx, [])
    else
      ParseByteAble(rx, s[0]);
      var (next, found) := ParseByte(rx, s[0]);
      var (last, reports) := Feed(next, s[1..]);
      (last, [Reported(next, found)] + reports)
  }

  lemma {:induction false} FeedAble(rx: Rx, s: seq<byte>)
    requires Able(rx)
    ensures Able(Feed(rx, s).0) && Feed(rx, s).0.cfg == rx.cfg && |Feed(rx, s).1| == |s|
    decreases |s|
  {
    hide ParseByte, Able;
    if s != [] {
      ParseByteAble(rx, s[0]);
      FeedAble(ParseByte(rx, s[0]).0, s[1..]);
    }
  }

  /** Feeding continues where it stopped. */
  lemma {:induction false} FeedSplits(rx: Rx, s: seq<byte>, t: seq<byte>)
    requires Able(rx)
    ensures Able(Feed(rx, s).0)
    ensures Feed(rx, s + t) == (Feed(Feed(rx, s).0, t).0, Feed(rx, s).1 + Feed(Feed(rx, s).0, t).1)
    decreases |s|
  {
    hide ParseByte, Able, View;
    if s == [] {
      assert s + t == t;
      assert [] + Feed(rx, t).1 == Feed(rx, t).1;
    } else {
      ParseByteAble(rx, s[0]);
      var (next, found) := ParseByte(rx, s[0]);
      assert (s + t)[0] == s[0] && (s + t)[1..] == s[1..] + t;
      FeedSplits(next, s[1..], t);
      var last := Feed(next, s[1..]).0;
      assert [Reported(next, found)] + (Feed(next, s[1..]).1 + Feed(last, t).1)
          == [Reported(next, found)] + Feed(next, s[1..]).1 + Feed(last, t).1;
    }
  }

  lemma FeedOne(rx: Rx, b: byte)
    requires Able(rx)
    ensures var (next, found) := ParseByte(rx, b); Feed(rx, [b]) == (next, [Reported(next, found)])
  {
    hide ParseByte, Able, View;
    ParseByteAble(rx, b);
    var (next, found) := ParseByte(rx, b);
    assert [b][1..] == [];
    assert Feed(next, []) == (next, []);
    assert [Reported(next, found)] + [] == [Reported(next, found)];
  }

  // ----- whole frames ---------------------------------------------------------------------

  /** Between frames: everything received is dealt with. */
  predicate Idle(rx: Rx) {
    Able(rx) && rx.cand.None? && rx.head == rx.scan == rx.tail && rx.timeMs == 0
  }

  /** The bytes `w` of a frame have been received and are undecided. */
  predicate Midway(rx: Rx, p: Protocol, w: seq<byte>) {
    Able(rx) && rx.cand == Some(p) && rx.scan == rx.tail && rx.timeMs == 0 && Kept(rx) == w
  }

  /** A frame that its recogniser accepts at its last byte. */
  predicate Framed(cfg: Config, p: Protocol, found: Found, w: seq<byte>) {
    && |w| >= Shortest(p) && p in cfg.enabled
    && Undecided(cfg, p, w[..|w| - 1]) && SelfContained(p, w)
    && Judge(cfg, p, w, Nowhere()) == Accept(found)
  }

  /** Such a frame of a length that a flush spares. */
  predicate Whole(cfg: Config, p: Protocol, found: Found, w: seq<byte>) {
    Framed(cfg, p, found, w) && |w| <= Spared(cfg)
  }

  lemma InitIdle(cfg: Config)
    requires cfg.size >= 3
    ensures Idle(Init(cfg))
  {
    InitSound(cfg);
  }

  lemma FramedShape(cfg: Config, p: Protocol, found: Found, w: seq<byte>)
    requires Framed(cfg, p, found, w)
    ensures |w| >= 2 && (p.Isb? ==> |w| >= 8 + PayloadSize(w)) && |w| >= Shortest(p)
    ensures StartOf(w[0]) == Some(p) && p in cfg.enabled && SelfContained(p, w)
      && Judge(cfg, p, w, Nowhere()) == Accept(found)
  {
    var v := w[..|w| - 1];
    assert v[0] == w[0];
    if p.Isb? {
      ExactIsb(cfg, w, Nowhere());
    }
  }

  lemma WholeShape(cfg: Config, p: Protocol, found: Found, w: seq<byte>)
    requires Whole(cfg, p, found, w)
    ensures Framed(cfg, p, found, w) && |w| <= Spared(cfg)
    ensures p.Isb? ==> |w| >= 8 + PayloadSize(w)
    ensures StartOf(w[0]) == Some(p)
  {
    FramedShape(cfg, p, found, w);
    hide Framed, Judge;
  }

  lemma FirstByte(rx: Rx, p: Protocol, b: byte)
    requires Idle(rx) && StartOf(b) == Some(p) && p in rx.cfg.enabled
    ensures ParseByte(rx, b).1 == Nothing && Midway(ParseByte(rx, b).0, p, [b])
  {
    ParseByteAble(rx, b);
    RoomForByte(rx);
    hide Sound, Judge, Handle;
    var next := Append(Free(rx), [b]);
    assert next.mem[next.scan] == b;
    StartsHere(next, p);
    AppendSound(Free(rx), [b]);
  }

  lemma StartsHere(rx: Rx, p: Protocol)
    requires Valid(rx) && rx.scan == rx.tail - 1 && rx.cand.None? && rx.timeMs == 0
    requires StartOf(rx.mem[rx.scan]) == Some(p) && p in rx.cfg.enabled
    ensures Parse(rx, 0) == (rx.(head := rx.scan, cand := Some(p), scan := rx.scan + 1), Nothing)
  {
    var next := rx.(head := rx.scan, cand := Some(p), scan := rx.scan + 1);
    assert Step(rx) == (next, Nothing);
    StepValid(rx);
    hide Step;
    assert Loop(next) == (next, Nothing);
    assert next.(timeMs := 0) == next;
  }

  lemma WholeDecided(cfg: Config, p: Protocol, found: Found, w: seq<byte>)
    requires Whole(cfg, p, found, w)
    ensures |w| >= 6 && !Judge(cfg, p, w, Nowhere()).More? && |w| <= Spared(cfg) && p in cfg.enabled
    ensures found != Nothing && |w| >= Shortest(p)
  {
  }

  lemma Sparing(rx: Rx, p: Protocol, w: seq<byte>, k: nat)
    requires 1 <= k < |w| && Sound(rx) && Valid(rx) && rx.cand == Some(p) && rx.scan == rx.tail && Kept(rx) == w[..k]
    requires !Judge(rx.cfg, p, w, Nowhere()).More? && |w| <= Spared(rx.cfg)
    ensures Valid(Free(rx)) && Free(rx).cand == rx.cand && Kept(Free(rx)) == Kept(rx)
    ensures Free(rx).scan == Free(rx).tail && Free(rx).timeMs == rx.timeMs
  {
    FreeSound(rx);
    SoundIsValid(Free(rx));
    hide Judge, Sound, Free, Valid, Kept;
    assert w[..k] + w[k..] == w;
    FlushSparesShortFrames(rx, w[k..], Nowhere());
    FreeScan(rx);
  }

  /** Room is made without losing the bytes of the frame. */
  lemma StillMidway(rx: Rx, p: Protocol, found: Found, w: seq<byte>, k: nat)
    requires Whole(rx.cfg, p, found, w) && 1 <= k < |w| && Midway(rx, p, w[..k])
    ensures Midway(Free(rx), p, w[..k])
  {
    hide Judge, Sound, Whole, Free, Valid, Kept, FreeBytes;
    RoomForByte(rx);
    WholeDecided(rx.cfg, p, found, w);
    Sparing(rx, p, w, k);
  }

  lemma FreeScan(rx: Rx)
    requires Valid(rx) && rx.scan == rx.tail
    ensures Free(rx).scan == Free(rx).tail && Free(rx).timeMs == rx.timeMs
  {
  }

  /** The next byte of the frame is received and stands under the cursor. */
  lemma NextReceived(rx: Rx, p: Protocol, found: Found, w: seq<byte>, k: nat)
    requires Whole(rx.cfg, p, found, w) && 1 <= k < |w| && Midway(rx, p, w[..k])
    ensures Valid(Free(rx)) && FreeBytes(Free(rx)) > 0
    ensures var next := Append(Free(rx), [w[k]]);
      && Sound(next) && next.cfg == rx.cfg && next.cand == Some(p) && next.timeMs == 0
      && next.scan == next.tail - 1 && Window(next) == w[..k + 1]
  {
    StillMidway(rx, p, found, w, k);
    RoomForByte(rx);
    AppendSound(Free(rx), [w[k]]);
    hide Sound, Free, Whole;
    var next := Append(Free(rx), [w[k]]);
    assert Window(next) == Kept(next);
    assert w[..k] + [w[k]] == w[..k + 1];
  }

  lemma InnerByte(rx: Rx, p: Protocol, found: Found, w: seq<byte>, k: nat)
    requires Whole(rx.cfg, p, found, w) && 1 <= k < |w| - 1 && Midway(rx, p, w[..k])
    ensures ParseByte(rx, w[k]).1 == Nothing && Midway(ParseByte(rx, w[k]).0, p, w[..k + 1])
  {
    ParseByteAble(rx, w[k]);
    NextReceived(rx, p, found, w, k);
    var next := Append(Free(rx), [w[k]]);
    assert Judge(rx.cfg, p, w[..k + 1], Nowhere()).More? by {
      assert w[..|w| - 1][..k + 1] == w[..k + 1];
    }
    hide Judge, Free, Whole, Sound;
    SoundIsValid(next);
    MoreIsOwn(rx.cfg, p, w[..k + 1], Ahead(next), Nowhere());
    LastHandled(next);
    assert Kept(next) == Window(next);
  }

  /** A parse call on a receiver whose last byte is the only one not yet looked at. */
  lemma LastHandled(rx: Rx)
    requires Valid(rx) && rx.scan == rx.tail - 1 && rx.cand.Some? && rx.timeMs == 0
    ensures match Judge(rx.cfg, rx.cand.value, Window(rx), Ahead(rx))
      case More => Parse(rx, 0) == (rx.(scan := rx.scan + 1), Nothing)
      case Accept(f) => Parse(rx, 0) == Step(rx)
      case _ => true
  {
    HandleStep(rx);
    StepValid(rx);
    hide Judge, Step, Window, View;
    assert Timeout(rx, 0) == rx;
    var next := rx.(scan := rx.scan + 1);
    assert next.(timeMs := 0) == next;
    if Step(rx) == (next, Nothing) {
      assert Loop(next) == (next, Nothing);
    }
  }

  lemma LastByte(rx: Rx, p: Protocol, found: Found, w: seq<byte>)
    requires Whole(rx.cfg, p, found, w) && Midway(rx, p, w[..|w| - 1]) && |w| >= 2
    ensures p.Isb? ==> |w| >= 8 + PayloadSize(w)
    ensures var (next, f) := ParseByte(rx, w[|w| - 1]);
      Idle(next) && f == found && View(next, f) == EventOf(rx.cfg, p, found, w)
  {
    WholeShape(rx.cfg, p, found, w);
    var k := |w| - 1;
    ParseByteAble(rx, w[k]);
    NextReceived(rx, p, found, w, k);
    var next := Append(Free(rx), [w[k]]);
    assert w[..k + 1] == w;
    hide Judge, Free, Sound, View, EventOf, Undecided, SelfContained;
    SoundIsValid(next);
    LastHandled(next);
    OwnVerdict(next);
    DeliveredEvent(next, p, found);
    HandleStep(next);
    LastStep(next);
  }

  lemma LastStep(rx: Rx)
    requires Valid(rx) && rx.scan == rx.tail - 1 && rx.cand.Some? && rx.timeMs == 0
    requires Judge(rx.cfg, rx.cand.value, Window(rx), Ahead(rx)).Accept?
    ensures var next := Step(rx).0; next.cand.None? && next.head == next.scan == next.tail && next.timeMs == 0
  {
    StepValid(rx);
    StepKeepsTime(rx);
    HandleValid(rx);
    hide Judge, Handle;
  }

  function Quiet(n: nat): (r: seq<Option<Event>>)
    ensures |r| == n && forall i :: 0 <= i < n ==> r[i] == None
  {
    seq(n, _ => None)
  }

  lemma OneMore(rx: Rx, p: Protocol, found: Found, w: seq<byte>, k: nat)
    requires Able(rx) && Whole(rx.cfg, p, found, w) && 1 <= k < |w| - 1
    requires var (next, reports) := Feed(rx, w[..k]); Midway(next, p, w[..k]) && reports == Quiet(k)
    ensures var (next, reports) := Feed(rx, w[..k + 1]); Midway(next, p, w[..k + 1]) && reports == Quiet(k + 1)
  {
    hide ParseByte, Able, Midway, Whole, Feed;
    assert w[..k + 1] == w[..k] + [w[k]];
    FeedSplits(rx, w[..k], [w[k]]);
    FeedAble(rx, w[..k]);
    var next := Feed(rx, w[..k]).0;
    InnerByte(next, p, found, w, k);
    FeedOne(next, w[k]);
    assert Quiet(k + 1) == Quiet(k) + [None];
  }

  lemma {:induction false} PrefixQuiet(rx: Rx, p: Protocol, found: Found, w: seq<byte>, k: nat)
    requires Idle(rx) && Whole(rx.cfg, p, found, w) && 1 <= k < |w|
    ensures var (next, reports) := Feed(rx, w[..k]); Midway(next, p, w[..k]) && reports == Quiet(k)
    decreases k
  {
    WholeShape(rx.cfg, p, found, w);
    hide ParseByte, Able, Midway, Whole, Feed;
    if k == 1 {
      assert w[..1] == [w[0]];
      WholeDecided(rx.cfg, p, found, w);
      FirstByte(rx, p, w[0]);
      FeedOne(rx, w[0]);
      assert Quiet(1) == [None];
    } else {
      PrefixQuiet(rx, p, found, w, k - 1);
      OneMore(rx, p, found, w, k - 1);
    }
  }

  /** A frame fed byte by byte is reported by the call for its last byte, and by no call before. */
  lemma FrameFed(rx: Rx, p: Protocol, found: Found, w: seq<byte>)
    requires Idle(rx) && Whole(rx.cfg, p, found, w)
    ensures |w| >= 6 && (p.Isb? ==> |w| >= 8 + PayloadSize(w)) && |w| >= Shortest(p)
    ensures var (next, reports) := Feed(rx, w);
      Idle(next) && next.cfg == rx.cfg && reports == Quiet(|w| - 1) + [Some(EventOf(rx.cfg, p, found, w))]
  {
    hide ParseByte, Feed, Whole, EventOf, View, Judge, PayloadSize, Sound, Kept;
    WholeShape(rx.cfg, p, found, w);
    WholeDecided(rx.cfg, p, found, w);
    var k := |w| - 1;
    PrefixQuiet(rx, p, found, w, k);
    assert w == w[..k] + [w[k]];
    FeedAble(rx, w[..k]);
    FeedAble(rx, w);
    FeedSplits(rx, w[..k], [w[k]]);
    var next := Feed(rx, w[..k]).0;
    LastByte(next, p, found, w);
    FeedOne(next, w[k]);
  }

  // ----- streams of frames ----------------------------------------------------------------

  /** A frame, its protocol, and what it is reported as. */
  datatype Item = Item(p: Protocol, found: Found, w: seq<byte>)

  predicate AllWhole(cfg: Config, items: seq<Item>) {
    forall i :: 0 <= i < |items| ==> Whole(cfg, items[i].p, items[i].found, items[i].w)
  }

  function Stream(items: seq<Item>): seq<byte> {
    if items == [] then [] else items[0].w + Stream(items[1..])
  }

  /** The packet of a frame. */
  function ItemEvent(cfg: Config, it: Item): Event
    requires Whole(cfg, it.p, it.found, it.w)
  {
    WholeShape(cfg, it.p, it.found, it.w);
    EventOf(cfg, it.p, it.found, it.w)
  }

  function Events(cfg: Config, items: seq<Item>): seq<Event>
    requires AllWhole(cfg, items)
  {
    if items == [] then [] else [ItemEvent(cfg, items[0])] + Events(cfg, items[1..])
  }

  /** Nothing for every inner byte, and the packet for the last byte of each frame. */
  function Reports(cfg: Config, items: seq<Item>): seq<Option<Event>>
    requires AllWhole(cfg, items)
  {
    if items == [] then []
    else Quiet(|items[0].w| - 1) + [Some(ItemEvent(cfg, items[0]))] + Reports(cfg, items[1..])
  }

  lemma FeedNothing(rx: Rx)
    requires Able(rx)
    ensures Feed(rx, []) == (rx, [])
  {
  }

  /** Frames of any protocols, one behind the other and fed byte by byte: each is reported by the call for its last
      byte, and no other call reports anything. */
  lemma {:induction false} StreamFed(rx: Rx, items: seq<Item>)
    requires Idle(rx) && AllWhole(rx.cfg, items)
    ensures Idle(Feed(rx, Stream(items)).0) && Feed(rx, Stream(items)).1 == Reports(rx.cfg, items)
    decreases |items|
  {
    hide Whole, EventOf, Feed, Able, PayloadSize, Quiet;
    if items == [] {
      FeedNothing(rx);
    } else {
      var it := items[0];
      FrameFed(rx, it.p, it.found, it.w);
      FeedSplits(rx, it.w, Stream(items[1..]));
      StreamFed(Feed(rx, it.w).0, items[1..]);
    }
  }

  lemma FramedDecides(cfg: Config, s: seq<byte>, h: nat, p: Protocol, found: Found, w: seq<byte>)
    requires Framed(cfg, p, found, w) && h + |w| <= |s| && s[h..h + |w|] == w
    ensures Decide(cfg, s, h, p, 2) == Some(|w|)
  {
    hide Judge, SelfContained;
    forall k | 2 <= k < |w| ensures MoreAt(cfg, s, h, p, k) {
      SlicePrefix(s, h, h + |w|, k);
      assert w[..|w| - 1][..k] == w[..k];
    }
    assert !MoreAt(cfg, s, h, p, |w|);
    hide MoreAt, Framed;
    DecideSkips(cfg, s, h, p, |w|);
  }

  lemma WholeFacts(cfg: Config, p: Protocol, found: Found, w: seq<byte>)
    requires Whole(cfg, p, found, w)
    ensures |w| >= 2 && SelfContained(p, w) && Judge(cfg, p, w, Nowhere()) == Accept(found)
  {
  }

  /** The plain scan takes a frame in one step. */
  lemma LookAtFramed(cfg: Config, s: seq<byte>, h: nat, p: Protocol, found: Found, w: seq<byte>)
    requires Framed(cfg, p, found, w) && h + |w| <= |s| && s[h..h + |w|] == w
    ensures h < |s| && |w| >= Shortest(p) && (p.Isb? ==> |w| >= 8 + PayloadSize(w))
    ensures LookAt(cfg, s, h) == Go(h + |w|, Some(EventOf(cfg, p, found, w)), |w|)
  {
    hide Framed, Judge, EventOf, PayloadSize, LookAt, Decide, SelfContained;
    FramedShape(cfg, p, found, w);
    FramedDecides(cfg, s, h, p, found, w);
    assert s[h] == w[0];
    SettledHere(cfg, s, h, p, w);
    LookAtDecided(cfg, s, h, p, w);
  }

  lemma LookAtWhole(cfg: Config, s: seq<byte>, h: nat, it: Item)
    requires Whole(cfg, it.p, it.found, it.w) && h + |it.w| <= |s| && s[h..h + |it.w|] == it.w
    ensures h < |s| && |it.w| <= Spared(cfg)
    ensures LookAt(cfg, s, h) == Go(h + |it.w|, Some(ItemEvent(cfg, it)), |it.w|)
  {
    hide Whole, Framed, Judge, EventOf, PayloadSize, LookAt, Decide, SelfContained;
    WholeShape(cfg, it.p, it.found, it.w);
    LookAtFramed(cfg, s, h, it.p, it.found, it.w);
  }

  lemma SettledHere(cfg: Config, s: seq<byte>, h: nat, p: Protocol, w: seq<byte>)
    requires h < |s| && StartOf(s[h]) == Some(p) && p in cfg.enabled && SelfContained(p, w)
    requires Decide(cfg, s, h, p, 2) == Some(|w|) && s[h..h + |w|] == w
    ensures LookAt(cfg, s, h) != Unsettled
  {
    hide Decide, SelfContained, Judge, EventOf;
  }

  lemma ScanStep(cfg: Config, s: seq<byte>, h: nat, room: nat, next: nat, event: Event, used: nat)
    requires h < |s| && LookAt(cfg, s, h) == Go(next, Some(event), used) && used <= room
    ensures Scan(cfg, s, h) == [event] + Scan(cfg, s, next)
    ensures Settled(cfg, s, h) <==> Settled(cfg, s, next)
    ensures Fits(cfg, s, h, room) <==> Fits(cfg, s, next, room)
  {
    hide LookAt;
  }

  lemma NothingToScan(cfg: Config, s: seq<byte>, room: nat)
    ensures Scan(cfg, s, |s|) == [] && Settled(cfg, s, |s|) && Fits(cfg, s, |s|, room)
  {
    hide LookAt;
  }

  lemma Middle(a: seq<byte>, b: seq<byte>, c: seq<byte>)
    ensures (a + b + c)[|a|..|a| + |b|] == b && a + b + c == a + (b + c)
  {
  }

  lemma {:induction false} ScanOfStream(cfg: Config, before: seq<byte>, items: seq<Item>)
    requires AllWhole(cfg, items)
    ensures var s := before + Stream(items);
      && Scan(cfg, s, |before|) == Events(cfg, items)
      && Settled(cfg, s, |before|) && Fits(cfg, s, |before|, Spared(cfg))
    decreases |items|
  {
    hide Whole, ItemEvent, LookAt, Scan, Settled, Fits;
    var s := before + Stream(items);
    if items == [] {
      assert s == before;
      NothingToScan(cfg, s, Spared(cfg));
    } else {
      var it := items[0];
      assert s == before + it.w + Stream(items[1..]);
      Middle(before, it.w, Stream(items[1..]));
      LookAtWhole(cfg, s, |before|, it);
      ScanStep(cfg, s, |before|, Spared(cfg), |before| + |it.w|, ItemEvent(cfg, it), |it.w|);
      ScanOfStream(cfg, before + it.w, items[1..]);
    }
  }

  /** However a stream of whole frames is cut into reads, the packets come out in order, each once. */
  lemma StreamInPortions(cfg: Config, items: seq<Item>, portions: seq<nat>)
    requires cfg.size >= 3 && AllWhole(cfg, items)
    ensures var (last, events, taken) := P.Run(Init(cfg), Stream(items), portions);
      && events <= Events(cfg, items)
      && (P.Enough(portions, |Stream(items)|) ==> taken == |Stream(items)|)
      && (taken == |Stream(items)| ==> events == Events(cfg, items))
  {
    hide P.Run, P.Enough, Scan, Settled, Fits, Stream, Events, Init, AllWhole;
    ScanOfStream(cfg, [], items);
    assert [] + Stream(items) == Stream(items);
    P.PacketsOfStream(cfg, Stream(items), portions);
  }
}
