/** How an upload ends, from its file alone: on a device that acknowledges everything the outcome is a matter of how
    much is buffered, and the gaps that the buffer stands are exactly those of at most 512 bytes. */
module HexOutcome {
  import opened Bytes
  import opened HexImage
  import opened HexUpload
  import opened HexLayout

  // ----- a device that acknowledges everything ----------------------------------------------------

  ghost predicate Obliging(l: Line) {
    (forall i: nat :: l.writes(i)) && (forall i: nat :: l.replies(i) == ACKNOWLEDGED)
  }

  lemma TransmitObliged(l: Line, offset: nat, chars: seq<byte>)
    requires Obliging(l)
    ensures var (m, ok) := Transmit(l, offset, chars); ok && Obliging(m)
  {
    hide ProgramLine, CheckText, Insist;
    var line := ProgramLine(|chars| / 2, offset);
    InsistObliged(Write(Write(l, line).0, chars).0, CheckText(line[1..] + chars));
  }

  lemma InsistObliged(l: Line, check: seq<byte>)
    requires Obliging(l)
    ensures var (m, ok) := Insist(l, check, TRIES); ok && Obliging(m)
  {
  }

  lemma AskObliged(l: Line, body: seq<byte>)
    requires Obliging(l)
    ensures var (m, ok) := Ask(l, body); ok && Obliging(m)
  {
    hide CheckText;
  }

  lemma RecordObliged(s: State, chars: seq<byte>)
    requires Obliging(s.line)
    ensures var (t, ok) := SendRecord(s, chars); ok && Obliging(t.line)
  {
    hide Transmit, Hash, Obliging;
    TransmitObliged(s.line, s.offset, chars);
  }

  /** At most 510 characters can be sent at once. */
  lemma UploadObliged(s: State, n: nat)
    requires Obliging(s.line) && n <= |s.output| && s.offset <= PAGE_SIZE
    ensures var (t, o) := UploadHex(s, n); o == Judged(n <= MAX_SEND_COUNT) && Obliging(t.line)
  {
    hide SendRecord, Obliging;
    var even := n / 2 * 2;
    if s.offset + even / 2 <= PAGE_SIZE {
      RecordObliged(s, s.output[..even]);
    } else {
      var k := 2 * (PAGE_SIZE - s.offset);
      RecordObliged(s, s.output[..k]);
      RecordObliged(SendRecord(s, s.output[..k]).0, s.output[k..even]);
    }
  }

  lemma {:induction false} FillObliged(s: State)
    requires Obliging(s.line)
    ensures var (t, ok) := FillPage(s); ok && Obliging(t.line)
    decreases PAGE_SIZE - s.offset
  {
    hide SendRecord, Obliging;
    if s.offset < PAGE_SIZE {
      var bytes := if PAGE_SIZE - s.offset > 128 then 128 else PAGE_SIZE - s.offset;
      RecordGoesOn(s, Filling(bytes));
      RecordObliged(s, Filling(bytes));
      FillObliged(SendRecord(s, Filling(bytes)).0);
    }
  }

  lemma FinishObliged(s: State, always: bool)
    requires Obliging(s.line) && s.offset <= PAGE_SIZE
    ensures var r := FinishPage(s, always);
      && r.outcome == Judged(|s.output| <= MAX_SEND_COUNT) && r.fills && Obliging(r.state.line)
      && (r.outcome == Ok ==> r.state.output == [])
  {
    hide UploadHex, FillPage, Obliging;
    UploadObliged(s, |s.output|);
    FillObliged(UploadHex(s, |s.output|).0);
  }

  lemma PageObliged(s: State, number: nat)
    requires Obliging(s.line) && s.offset <= PAGE_SIZE && |s.output| <= HEX_BUFFER_SIZE
    ensures var r := ProcessPage(s, number);
      && r.outcome == Judged(number == 0 || |s.output| <= MAX_SEND_COUNT) && r.fills && Obliging(r.state.line)
      && (r.outcome == Ok ==> r.state.output == if number == 0 then s.output else [])
  {
    hide FinishPage, Ask, Obliging;
    var t := s.(page := number, last := 0);
    FinishObliged(t, true);
    var u := FinishPage(t, true).state;
    AskObliged(u.line, SelectBody(number));
    AskObliged(Ask(u.line, SelectBody(number)).0, BeginBody(0, PAGE_SIZE - 1));
  }

  // ----- what is buffered -------------------------------------------------------------------------

  /** A data line of `n` characters behind a gap, when `b` are buffered: how it ends and how many are buffered then. */
  function Buffering(b: nat, gap: nat, n: nat): (Outcome, nat) {
    var c := b + 2 * gap + n;
    if b + gap >= OUTPUT_SIZE then (Error, b)
    else if b + 2 * gap > OUTPUT_SIZE then (Stray, b)
    else if c >= OUTPUT_SIZE || c > MAX_SEND_COUNT + HEX_BUFFER_SIZE then (Error, b)
    else (Ok, if c < MAX_SEND_COUNT then c else c - MAX_SEND_COUNT)
  }

  lemma DataObliged(s: State, addr: int, chars: seq<byte>)
    requires Obliging(s.line) && s.offset <= PAGE_SIZE && |s.output| <= HEX_BUFFER_SIZE && addr >= s.last
    ensures var ((t, o), (q, b)) := (ProcessData(s, addr, chars), Buffering(|s.output|, addr - s.last, |chars|));
      o == q && (o == Ok ==> |t.output| == b && Obliging(t.line))
  {
    hide UploadHex, Obliging;
    var t := Pad(s, addr).0;
    var u := t.(output := t.output + chars, last := addr + |chars| / 2);
    if |u.output| >= MAX_SEND_COUNT {
      UploadObliged(u, MAX_SEND_COUNT);
    }
  }

  /** The bytes between the end of the last block and a data line. */
  function Gap(appOffset: nat, l: Layout, addr: int): int {
    if l.pages == [] then 0
    else
      var k := |l.pages| - 1;
      addr - EndOf(Start(appOffset, k), l.pages[k])
  }

  /** The file is well-formed, and every data line with the gap before it fits. */
  predicate WellFormed(appOffset: nat, l: Layout, lines: seq<seq<byte>>, fits: (int, nat) -> bool)
    decreases |lines|
  {
    if lines == [] || EndsFile(lines[0]) then true
    else
      var r := Parsed(lines[0]);
      && (r.Data? ==> fits(Gap(appOffset, l, r.addr), |r.chars|))
      && match Extend(appOffset, l, r)
         case None => false
         case Some(more) => WellFormed(appOffset, more, lines[1..], fits)
  }

  /** How a line of a well-formed file ends when `b` characters are buffered, and how many are then. */
  function LineOutcome(appOffset: nat, l: Layout, b: nat, r: HexRecord): (Outcome, nat) {
    match r
    case Data(addr, chars) =>
      var gap := Gap(appOffset, l, addr);
      if gap < 0 then (Error, b) else Buffering(b, gap, |chars|)
    case Page(n) => if n == 0 then (Ok, b) else (Judged(b <= MAX_SEND_COUNT), 0)
    case End => (Judged(b <= MAX_SEND_COUNT), 0)
    case Other => (Ok, b)
  }

  /** How a well-formed file ends. */
  function OutcomeOf(appOffset: nat, l: Layout, b: nat, lines: seq<seq<byte>>): Outcome
    decreases |lines|
  {
    if lines == [] || EndsFile(lines[0]) then Ok
    else
      var r := Parsed(lines[0]);
      var (o, c) := LineOutcome(appOffset, l, b, r);
      if o != Ok then o
      else match Extend(appOffset, l, r)
        case None => Error
        case Some(more) => OutcomeOf(appOffset, more, c, lines[1..])
  }

  /** The uploader expects the next line where the layout does. */
  lemma FollowsGap(s: State, l: Layout, fills: bool, addr: int, chars: seq<byte>)
    requires Follows(s, l, fills) && Extend(s.appOffset, l, Data(addr, chars)).Some?
    ensures addr - s.last == Gap(s.appOffset, l, addr) >= 0
  {
    hide Laid, EndOf, Images, Complete, Tidy, Sent, Done, Numbers;
    var k := |l.pages| - 1;
    var blocks := l.pages[k] + [Block(addr, chars)];
    assert Placed(Start(s.appOffset, k), blocks, |l.pages[k]|);
    assert blocks[..|l.pages[k]|] == l.pages[k];
  }

  lemma FollowsPlace(s: State, l: Layout, fills: bool)
    requires Follows(s, l, fills) && !l.closed
    ensures s.offset <= PAGE_SIZE && |s.output| <= HEX_BUFFER_SIZE
  {
    PlaceInPage(s, l, fills);
    FollowsTidy(s, l, fills);
  }

  lemma LineObliged(s: State, l: Layout, fills: bool, r: HexRecord)
    requires Follows(s, l, fills) && Obliging(s.line) && Extend(s.appOffset, l, r).Some?
    ensures var (res, (o, b)) := (ProcessLine(s, r), LineOutcome(s.appOffset, l, |s.output|, r));
      res.outcome == o && res.fills && (o == Ok ==> |res.state.output| == b && Obliging(res.state.line))
  {
    hide Follows, Obliging, ProcessData, ProcessPage, FinishPage, Gap, Buffering;
    if !r.Other? {
      FollowsPlace(s, l, fills);
    }
    match r
    case Data(addr, chars) =>
      FollowsGap(s, l, fills, addr, chars);
      DataObliged(s, addr, chars);
    case Page(number) => PageObliged(s, number);
    case End => FinishObliged(s, false);
    case Other =>
  }

  /** On a device that acknowledges everything, the outcome of a well-formed file is what its gaps and line lengths
      say. */
  lemma {:induction false} OutcomeExactly(s: State, l: Layout, fills: bool, lines: seq<seq<byte>>,
      fits: (int, nat) -> bool)
    requires Follows(s, l, fills) && Obliging(s.line) && WellFormed(s.appOffset, l, lines, fits)
    ensures var r := Process(s, lines).0; r.outcome == OutcomeOf(s.appOffset, l, |s.output|, lines) && r.fills
    decreases |lines|
  {
    hide Follows, Obliging, ProcessLine, LineOutcome, Extend, Parsed;
    if lines != [] && !EndsFile(lines[0]) {
      var r := Parsed(lines[0]);
      LineObliged(s, l, fills, r);
      var res := ProcessLine(s, r);
      if res.outcome == Ok {
        DataHasChars(lines[0]);
        LineFollows(s, l, fills, r);
        LineKeepsOffset(s, r);
        OutcomeExactly(res.state, Extend(s.appOffset, l, r).value, fills && res.fills, lines[1..], fits);
      }
    }
  }

  // ----- files that succeed -----------------------------------------------------------------------

  /** A line and the gap before it make at most `N` characters. */
  function Within(N: nat): (int, nat) -> bool {
    (gap, n) => 2 * gap + n <= N
  }

  /** With no more than a record in the buffer, a line of no more than a record leaves no more than a record. */
  lemma {:induction false} OneRecordSuffices(appOffset: nat, l: Layout, b: nat, lines: seq<seq<byte>>, N: nat)
    requires WellFormed(appOffset, l, lines, Within(N)) && b <= MAX_SEND_COUNT && N <= 511
    ensures OutcomeOf(appOffset, l, b, lines) == Ok
    decreases |lines|
  {
    hide Extend, Parsed, Gap;
    if lines != [] && !EndsFile(lines[0]) {
      var r := Parsed(lines[0]);
      if r.Data? {
        GapNotNegative(appOffset, l, r.addr, r.chars);
      }
      var c := LineOutcome(appOffset, l, b, r).1;
      OneRecordSuffices(appOffset, Extend(appOffset, l, r).value, c, lines[1..], N);
    }
  }

  lemma GapNotNegative(appOffset: nat, l: Layout, addr: int, chars: seq<byte>)
    requires Extend(appOffset, l, Data(addr, chars)).Some?
    ensures Gap(appOffset, l, addr) >= 0 && |chars| % 2 == 0
  {
    hide EndOf;
    var k := |l.pages| - 1;
    var blocks := l.pages[k] + [Block(addr, chars)];
    assert Placed(Start(appOffset, k), blocks, |l.pages[k]|);
    assert blocks[..|l.pages[k]|] == l.pages[k];
  }

  /** The lines used of a well-formed file have a layout. */
  lemma {:induction false} UsedLayout(s: State, l: Layout, lines: seq<seq<byte>>, fits: (int, nat) -> bool)
    requires WellFormed(s.appOffset, l, lines, fits)
    ensures Process(s, lines).1 <= |lines| && LayoutFrom(s.appOffset, l, lines[..Process(s, lines).1]).Some?
    decreases |lines|
  {
    hide ProcessLine, Extend, Parsed;
    if lines != [] && !EndsFile(lines[0]) {
      var res := ProcessLine(s, Parsed(lines[0]));
      LineKeepsOffset(s, Parsed(lines[0]));
      if res.outcome == Ok {
        var used := Process(s, lines).1;
        UsedLayout(res.state, Extend(s.appOffset, l, Parsed(lines[0])).value, lines[1..], fits);
        assert lines[..used][1..] == lines[1..][..used - 1];
      }
    }
  }

  /** A well-formed file whose lines, the gap before each counted in, have at most 511 characters is uploaded to a
      device that acknowledges everything, and the pages are then the images the file describes. */
  lemma UploadSucceeds(appOffset: nat, line: Line, lines: seq<seq<byte>>, N: nat)
    requires appOffset <= PAGE_SIZE && Obliging(line) && N <= 511
    requires WellFormed(appOffset, Layout([], false), lines, Within(N))
    ensures Process(Fresh(appOffset, line), lines).1 <= |lines|
    ensures var (r, used) := Process(Fresh(appOffset, line), lines);
      && r.outcome == Ok && r.fills && LayoutOf(appOffset, lines[..used]).Some?
      && var l := LayoutOf(appOffset, lines[..used]).value;
         l.closed ==> PagesOf(r.state.log) == Images(appOffset, l.pages)
  {
    hide Process, WellFormed, LayoutFrom, Images, Obliging;
    var l := Layout([], false);
    FreshFollows(appOffset, line);
    OutcomeExactly(Fresh(appOffset, line), l, true, lines, Within(N));
    OneRecordSuffices(appOffset, l, 0, lines, N);
    UsedLayout(Fresh(appOffset, line), l, lines, Within(N));
    ImagesIffFills(appOffset, line, lines);
  }

  ghost predicate Uploads(appOffset: nat, line: Line, lines: seq<seq<byte>>) {
    Process(Fresh(appOffset, line), lines).0.outcome == Ok
  }

  /** Well-formed files whose lines, the gap before each counted in, have at most `N` characters are always uploaded to
      a device that acknowledges everything if and only if `N` is at most 511. */
  lemma LengthBound(N: nat)
    ensures (forall a: nat, line, lines ::
              a <= PAGE_SIZE && Obliging(line) && WellFormed(a, Layout([], false), lines, Within(N)) ==>
                  Uploads(a, line, lines))
       <==> N <= 511
  {
    hide Process, WellFormed, Obliging;
    if N <= 511 {
      forall a: nat, line, lines | a <= PAGE_SIZE && Obliging(line)
          && WellFormed(a, Layout([], false), lines, Within(N))
        ensures Uploads(a, line, lines)
      {
        UploadSucceeds(a, line, lines, N);
      }
    } else {
      var line := Line(_ => true, _ => ACKNOWLEDGED, 0, 0, []);
      AlwaysObliging(line);
      FullFileFails(8192, line, N);
      assert !Uploads(8192, line, FullFile(8192));
    }
  }

  lemma AlwaysObliging(line: Line)
    requires (forall i: nat :: line.writes(i)) && forall i: nat :: line.replies(i) == ACKNOWLEDGED
    ensures Obliging(line)
  {
  }

  // ----- gaps the buffer stands -------------------------------------------------------------------

  function AtMost(G: nat): (int, nat) -> bool {
    (gap, n) => gap <= G
  }

  lemma LineDoesNotStray(s: State, l: Layout, fills: bool, r: HexRecord)
    requires Follows(s, l, fills) && Extend(s.appOffset, l, r).Some?
    requires r.Data? ==> Gap(s.appOffset, l, r.addr) <= 512
    ensures ProcessLine(s, r).outcome != Stray
  {
    hide Follows, ProcessData, FinishPage, Gap, NewPage, Tidy;
    if !r.Other? {
      FollowsPlace(s, l, fills);
      FollowsTidy(s, l, fills);
    }
    match r
    case Data(addr, chars) =>
      FollowsGap(s, l, fills, addr, chars);
      DataTidy(s, addr, chars);
    case Page(number) => FinishDoesNotStray(s.(page := number, last := 0), true);
    case End => FinishDoesNotStray(s, false);
    case Other =>
  }

  lemma FinishDoesNotStray(s: State, always: bool)
    requires s.offset <= PAGE_SIZE
    ensures FinishPage(s, always).outcome != Stray
  {
    hide SendRecord, FillPage;
  }

  lemma {:induction false} DoesNotStray(s: State, l: Layout, fills: bool, lines: seq<seq<byte>>, G: nat)
    requires Follows(s, l, fills) && WellFormed(s.appOffset, l, lines, AtMost(G)) && G <= 512
    ensures Process(s, lines).0.outcome != Stray
    decreases |lines|
  {
    hide Follows, ProcessLine, Extend, Parsed, Gap;
    if lines != [] && !EndsFile(lines[0]) {
      var r := Parsed(lines[0]);
      LineDoesNotStray(s, l, fills, r);
      var res := ProcessLine(s, r);
      if res.outcome == Ok {
        DataHasChars(lines[0]);
        LineFollows(s, l, fills, r);
        LineKeepsOffset(s, r);
        DoesNotStray(res.state, Extend(s.appOffset, l, r).value, fills && res.fills, lines[1..], G);
      }
    }
  }

  // ----- three files ------------------------------------------------------------------------------

  function Zeros(n: nat): (s: seq<byte>)
    ensures |s| == n
  {
    seq(n, _ => 48)
  }

  /** A data record; its checksum, which the uploader does not look at, is 00. */
  function DataLine(addr: nat, chars: seq<byte>): seq<byte> {
    [58] + HexText(|chars| / 2, 2) + HexText(addr, 4) + [48, 48] + chars + [48, 48]
  }

  const PAGE_LINE: seq<byte> := [58, 48, 50, 48, 48, 48, 48, 48, 52, 48, 48, 48, 48, 70, 65]    // :020000040000FA
  const END_LINE: seq<byte> := [58, 48, 48, 48, 48, 48, 48, 48, 49, 70, 70]                      // :00000001FF

  lemma DataLineParsed(addr: nat, chars: seq<byte>)
    requires addr < PAGE_SIZE && 2 <= |chars| <= 510
    ensures Parsed(DataLine(addr, chars)) == Data(addr, chars) && !EndsFile(DataLine(addr, chars))
  {
    hide HexText, Strtol;
    TwoDigits(|chars| / 2);
    AddressRoundTrip(addr);
    var line := DataLine(addr, chars);
    assert line[3..7] == HexText(addr, 4);
    assert line[9..|line| - 2] == chars;
  }

  lemma PageLineParsed()
    ensures Parsed(PAGE_LINE) == Page(0) && !EndsFile(PAGE_LINE)
  {
    assert PAGE_LINE[..10] == PAGE_START;
  }

  lemma EndLineParsed()
    ensures Parsed(END_LINE) == End && !EndsFile(END_LINE)
  {
  }

  /** One page 0 with these blocks. */
  function OnePage(blocks: seq<Block>): Layout {
    Layout([blocks], false)
  }

  /** A page record in front of a file. */
  lemma PageStep(a: nat, rest: seq<seq<byte>>, fits: (int, nat) -> bool)
    requires a <= PAGE_SIZE
    ensures WellFormed(a, Layout([], false), [PAGE_LINE] + rest, fits) <==> WellFormed(a, OnePage([]), rest, fits)
    ensures OutcomeOf(a, Layout([], false), 0, [PAGE_LINE] + rest) == OutcomeOf(a, OnePage([]), 0, rest)
    ensures LayoutFrom(a, Layout([], false), [PAGE_LINE] + rest) == LayoutFrom(a, OnePage([]), rest)
    ensures Ordered(a, []) && EndOf(a, []) == a
  {
    hide Parsed, EndsFile;
    PageLineParsed();
    assert ([PAGE_LINE] + rest)[1..] == rest && ([PAGE_LINE] + rest)[0] == PAGE_LINE;
    assert OnePage([]).pages == [] + [[]];
  }

  /** A data record behind the blocks of page 0. */
  lemma DataStep(a: nat, blocks: seq<Block>, b: nat, addr: nat, chars: seq<byte>, rest: seq<seq<byte>>,
      fits: (int, nat) -> bool)
    requires Ordered(a, blocks) && EndOf(a, blocks) <= addr && 2 <= |chars| <= 510 && |chars| % 2 == 0
    requires addr + |chars| / 2 <= PAGE_SIZE
    ensures var (gap, more, lines) := (addr - EndOf(a, blocks), blocks + [Block(addr, chars)],
      [DataLine(addr, chars)] + rest);
      && Ordered(a, more) && EndOf(a, more) == addr + |chars| / 2
      && (WellFormed(a, OnePage(blocks), lines, fits) <==>
           fits(gap, |chars|) && WellFormed(a, OnePage(more), rest, fits))
      && LayoutFrom(a, OnePage(blocks), lines) == LayoutFrom(a, OnePage(more), rest)
      && var (o, c) := Buffering(b, gap, |chars|);
         OutcomeOf(a, OnePage(blocks), b, lines) == if o != Ok then o else OutcomeOf(a, OnePage(more), c, rest)
  {
    hide Parsed, EndsFile, DataLine, Ordered, EndOf, Buffering;
    DataLineParsed(addr, chars);
    var line, more := DataLine(addr, chars), blocks + [Block(addr, chars)];
    assert ([line] + rest)[1..] == rest && ([line] + rest)[0] == line;
    OrderedAppend(a, blocks, Block(addr, chars));
    assert [blocks][0 := more] == [more];
    assert Extend(a, OnePage(blocks), Data(addr, chars)) == Some(OnePage(more));
  }

  lemma OrderedAppend(start: nat, blocks: seq<Block>, b: Block)
    requires Ordered(start, blocks) && EndOf(start, blocks) <= b.addr && |b.chars| % 2 == 0
      && b.addr + |b.chars| / 2 <= PAGE_SIZE
    ensures Ordered(start, blocks + [b]) && EndOf(start, blocks + [b]) == b.addr + |b.chars| / 2
  {
    var more := blocks + [b];
    assert EndOf(start, more) == b.addr + |b.chars| / 2;
    hide EndOf;
    forall i | 0 <= i < |more| ensures Placed(start, more, i) {
      if i < |blocks| {
        assert Placed(start, blocks, i);
        assert more[..i] == blocks[..i];
      } else {
        assert more[..i] == blocks;
      }
    }
  }

  /** The end record behind the blocks of page 0. */
  lemma EndStep(a: nat, blocks: seq<Block>, b: nat, fits: (int, nat) -> bool)
    requires blocks != []
    ensures WellFormed(a, OnePage(blocks), [END_LINE], fits)
    ensures LayoutFrom(a, OnePage(blocks), [END_LINE]) == Some(Layout([blocks], true))
    ensures OutcomeOf(a, OnePage(blocks), b, [END_LINE]) == Judged(b <= MAX_SEND_COUNT)
  {
    hide Parsed, EndsFile;
    EndLineParsed();
  }

  /** Gaps of 257, 255 and 513 bytes, each with a line of 255 bytes behind it. */
  function GapFile(a: nat): seq<seq<byte>> {
    [PAGE_LINE] + ([DataLine(a + 257, Zeros(510))]
        + ([DataLine(a + 767, Zeros(510))] + ([DataLine(a + 1535, Zeros(510))] + [])))
  }

  /** The last two lines with 514 characters buffered: the first leaves 1024, and the gap before the second is one too
      long. */
  lemma GapOverruns(a: nat, blocks: seq<Block>, fits: (int, nat) -> bool)
    requires a + 1790 <= PAGE_SIZE && Ordered(a, blocks) && EndOf(a, blocks) == a + 512 && fits(255, 510)
      && fits(513, 510)
    ensures var lines := [DataLine(a + 767, Zeros(510))] + ([DataLine(a + 1535, Zeros(510))] + []);
      WellFormed(a, OnePage(blocks), lines, fits) && OutcomeOf(a, OnePage(blocks), 514, lines) == Stray
  {
    hide WellFormed, OutcomeOf, Ordered, EndOf, DataLine;
    var z := Zeros(510);
    var more := blocks + [Block(a + 767, z)];
    DataStep(a, blocks, 514, a + 767, z, [DataLine(a + 1535, z)] + [], fits);
    DataStep(a, more, 1024, a + 1535, z, [], fits);
    NoLines(a, OnePage(more + [Block(a + 1535, z)]), fits);
  }

  /** A gap of 513 bytes with a full buffer before it is written past the buffer's end. */
  lemma GapFileStrays(a: nat, line: Line, G: nat)
    requires a + 1790 <= PAGE_SIZE && Obliging(line) && G >= 513
    ensures WellFormed(a, Layout([], false), GapFile(a), AtMost(G))
    ensures Process(Fresh(a, line), GapFile(a)).0.outcome == Stray
  {
    hide WellFormed, OutcomeOf, Ordered, EndOf, Obliging, DataLine, Process;
    var z, fits := Zeros(510), AtMost(G);
    var two := [DataLine(a + 767, z)] + ([DataLine(a + 1535, z)] + []);
    PageStep(a, [DataLine(a + 257, z)] + two, fits);
    DataStep(a, [], 0, a + 257, z, two, fits);
    GapOverruns(a, [] + [Block(a + 257, z)], fits);
    FreshFollows(a, line);
    OutcomeExactly(Fresh(a, line), Layout([], false), true, GapFile(a), fits);
  }

  lemma NoLines(a: nat, l: Layout, fits: (int, nat) -> bool)
    ensures WellFormed(a, l, [], fits)
  {
  }

  /** The upload of the file does not leave the buffer, whatever the device answers. */
  ghost predicate Stands(appOffset: nat, line: Line, lines: seq<seq<byte>>) {
    Process(Fresh(appOffset, line), lines).0.outcome != Stray
  }

  /** Well-formed files with gaps of at most `G` bytes never overrun the buffer if and only if `G` is at most 512. */
  lemma GapBound(G: nat)
    ensures (forall a: nat, line, lines :: a <= PAGE_SIZE && WellFormed(a, Layout([], false), lines, AtMost(G)) ==>
      Stands(a, line, lines))
       <==> G <= 512
  {
    hide Process, WellFormed;
    if G <= 512 {
      forall a: nat, line, lines | a <= PAGE_SIZE
          && WellFormed(a, Layout([], false), lines, AtMost(G)) ensures Stands(a, line, lines) {
        FreshFollows(a, line);
        DoesNotStray(Fresh(a, line), Layout([], false), true, lines, G);
      }
    } else {
      var line := Line(_ => true, _ => ACKNOWLEDGED, 0, 0, []);
      GapFileStrays(8192, line, G);
      assert !Stands(8192, line, GapFile(8192));
    }
  }

  /** A line of 255 bytes behind a gap of 257 bytes, and the end. */
  function LateFile(a: nat): seq<seq<byte>> {
    [PAGE_LINE] + ([DataLine(a + 257, Zeros(510))] + [END_LINE])
  }

  /** This file is well-formed, closed, and no gap overruns; but 514 characters wait at its end, and more than 510 are
      refused. */
  lemma LateFileFails(a: nat, line: Line)
    requires a + 512 <= PAGE_SIZE && Obliging(line)
    ensures LayoutOf(a, LateFile(a)) == Some(Layout([[Block(a + 257, Zeros(510))]], true))
    ensures Process(Fresh(a, line), LateFile(a)).0.outcome == Error
  {
    hide WellFormed, OutcomeOf, LayoutFrom, Ordered, EndOf, Obliging, DataLine, Process;
    var z, fits := Zeros(510), AtMost(512);
    var one := [Block(a + 257, z)];
    PageStep(a, [DataLine(a + 257, z)] + [END_LINE], fits);
    DataStep(a, [], 0, a + 257, z, [END_LINE], fits);
    assert [] + one == one;
    EndStep(a, one, 514, fits);
    FreshFollows(a, line);
    OutcomeExactly(Fresh(a, line), Layout([], false), true, LateFile(a), fits);
  }

  /** A line of 254 bytes, then twice a gap of one byte and a line of 255, and the end. */
  function FullFile(a: nat): seq<seq<byte>> {
    [PAGE_LINE] + ([DataLine(a, Zeros(508))]
      + ([DataLine(a + 255, Zeros(510))] + ([DataLine(a + 511, Zeros(510))] + [END_LINE])))
  }

  /** The last two lines leave 510 and then 512 characters, of which the end takes 510. */
  lemma FullFileEnds(a: nat, blocks: seq<Block>, fits: (int, nat) -> bool)
    requires a + 766 <= PAGE_SIZE && Ordered(a, blocks) && EndOf(a, blocks) == a + 254 && fits(1, 510)
    ensures var lines := [DataLine(a + 255, Zeros(510))] + ([DataLine(a + 511, Zeros(510))] + [END_LINE]);
      WellFormed(a, OnePage(blocks), lines, fits) && OutcomeOf(a, OnePage(blocks), 508, lines) == Error
  {
    hide WellFormed, OutcomeOf, Ordered, EndOf, DataLine;
    var z := Zeros(510);
    var more := blocks + [Block(a + 255, z)];
    DataStep(a, blocks, 508, a + 255, z, [DataLine(a + 511, z)] + [END_LINE], fits);
    DataStep(a, more, 510, a + 511, z, [END_LINE], fits);
    EndStep(a, more + [Block(a + 511, z)], 512, fits);
  }

  /** No line of this file makes more than 512 characters with its gap, and it fails on a device that acknowledges
      everything. */
  lemma FullFileFails(a: nat, line: Line, N: nat)
    requires a + 766 <= PAGE_SIZE && Obliging(line) && N >= 512
    ensures WellFormed(a, Layout([], false), FullFile(a), Within(N))
    ensures Process(Fresh(a, line), FullFile(a)).0.outcome == Error
  {
    hide WellFormed, OutcomeOf, Ordered, EndOf, Obliging, DataLine, Process;
    var z, fits := Zeros(510), Within(N);
    var rest := [DataLine(a + 255, z)] + ([DataLine(a + 511, z)] + [END_LINE]);
    PageStep(a, [DataLine(a, Zeros(508))] + rest, fits);
    DataStep(a, [], 0, a, Zeros(508), rest, fits);
    FullFileEnds(a, [] + [Block(a, Zeros(508))], fits);
    FreshFollows(a, line);
    OutcomeExactly(Fresh(a, line), Layout([], false), true, FullFile(a), fits);
  }

  /** One byte at the start of page 0, and the end. */
  function ShortFile(a: nat): seq<seq<byte>> {
    [PAGE_LINE] + ([DataLine(a, Zeros(2))] + [END_LINE])
  }

  /** A device that takes the first record and nothing more. */
  ghost predicate Silenced(line: Line) {
    line.written == 0 && line.read == 0 && line.writes(0) && line.writes(1) && line.writes(2) && !line.writes(3)
    && line.replies(0) == ACKNOWLEDGED
  }

  /** The record goes through, the fill behind it does not, and the end of the page is taken for done. */
  lemma FinishUnfilled(s: State)
    requires Silenced(s.line) && |s.output| == 2 && s.offset + 1 < PAGE_SIZE
    ensures var r := FinishPage(s, false); r.outcome == Ok && !r.fills
  {
    hide Hash, ProgramLine, CheckText;
    var t := SendRecord(s, s.output[..2]).0;
    RecordTaken(s, s.output[..2]);
    assert UploadHex(s, 2) == (t, Ok);
    assert !SendRecord(t, Filling(if PAGE_SIZE - t.offset > 128 then 128 else PAGE_SIZE - t.offset)).1;
  }

  lemma RecordTaken(s: State, chars: seq<byte>)
    requires Silenced(s.line) && |chars| == 2
    ensures var (t, ok) := SendRecord(s, chars);
      ok && t.offset == s.offset + 1 && t.line.written == 3 && t.line.writes == s.line.writes
  {
    hide Hash, ProgramLine, CheckText;
  }

  /** The upload to such a device succeeds, but its page is not the image. */
  lemma ShortFileIncomplete(a: nat, line: Line)
    requires a + 1 < PAGE_SIZE && Silenced(line)
    ensures LayoutOf(a, ShortFile(a)) == Some(Layout([[Block(a, Zeros(2))]], true))
    ensures var (r, used) := Process(Fresh(a, line), ShortFile(a));
      r.outcome == Ok && used == 3 && PagesOf(r.state.log) != Images(a, [[Block(a, Zeros(2))]])
  {
    hide Process, WellFormed, OutcomeOf, LayoutFrom, Ordered, EndOf, DataLine, Images, Tidy, FinishPage;
    var chars, fits := Zeros(2), AtMost(0);
    PageStep(a, [DataLine(a, chars)] + [END_LINE], fits);
    DataStep(a, [], 0, a, chars, [END_LINE], fits);
    assert [] + [Block(a, chars)] == [Block(a, chars)];
    EndStep(a, [Block(a, chars)], 2, fits);
    ShortRun(a, line);
    ImagesIffFills(a, line, ShortFile(a));
    assert ShortFile(a)[..3] == ShortFile(a);
  }

  lemma ShortRun(a: nat, line: Line)
    requires a + 1 < PAGE_SIZE && Silenced(line)
    ensures var (r, used) := Process(Fresh(a, line), ShortFile(a)); r.outcome == Ok && !r.fills && used == 3
  {
    hide Parsed, EndsFile, DataLine, FinishPage, Process;
    var s, data, end := Fresh(a, line), DataLine(a, Zeros(2)), END_LINE;
    var placed := s.(page := 0);
    var held := placed.(output := Zeros(2), last := a + 1);
    PageLineParsed();
    DataLineParsed(a, Zeros(2));
    EndLineParsed();
    assert ProcessLine(s, Page(0)) == Result(placed, Ok, true);
    assert ProcessLine(placed, Data(a, Zeros(2))) == Result(held, Ok, true) by { assert [] + Zeros(2) == Zeros(2); }
    FinishUnfilled(held);
    ProcessStep(s, PAGE_LINE, [data] + [end]);
    ProcessStep(placed, data, [end]);
    ProcessStep(held, end, []);
    assert [end] + [] == [end];
    NothingToProcess(FinishPage(held, false).state);
  }

  lemma ProcessStep(s: State, line: seq<byte>, rest: seq<seq<byte>>)
    requires !EndsFile(line) && ProcessLine(s, Parsed(line)).outcome == Ok
    ensures var (r, (q, used)) := (ProcessLine(s, Parsed(line)), Process(ProcessLine(s, Parsed(line)).state, rest));
      Process(s, [line] + rest) == (q.(fills := r.fills && q.fills), used + 1)
  {
    hide ProcessLine, Parsed;
    assert ([line] + rest)[1..] == rest;
  }

  lemma NothingToProcess(s: State)
    ensures Process(s, []) == (Result(s, Ok, true), 0)
  {
  }
}
