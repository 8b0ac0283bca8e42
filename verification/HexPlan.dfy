/** What a whole upload needs of the device: the records and commands that a file makes, one behind the other, and that
    each of them is taken and acknowledged. */
module HexPlan {
  import opened Bytes
  import opened HexImage
  import opened HexUpload
  import opened HexLayout
  import opened HexWire
  import opened HexOutcome

  // ----- what the device has to answer ------------------------------------------------------------

  /** A record, whose checksum may be repeated, or a command. */
  datatype Item = Record | Asked

  /** The answers still to come, whatever has been sent. */
  function Bare(l: Line): Line {
    l.(bytes := [])
  }

  /** The answers left when the device has taken and acknowledged all of this, if it does. */
  ghost function After(l: Line, plan: seq<Item>): Option<Line>
    decreases |plan|
  {
    if plan == [] then Some(l)
    else match plan[0]
      case Record =>
        if i: nat :| i < TRIES && Delivered(l, i) then After(Behind(l, i), plan[1..]) else None
      case Asked =>
        if Goes(l, 0) && Acks(l, 0) then After(Later(l, 1), plan[1..]) else None
  }

  lemma {:induction false} AfterSplits(l: Line, p: seq<Item>, q: seq<Item>)
    ensures After(l, p + q) == match After(l, p) case None => None case Some(m) => After(m, q)
    decreases |p|
  {
    hide Delivered;
    if p == [] {
      assert p + q == q;
    } else {
      assert (p + q)[0] == p[0] && (p + q)[1..] == p[1..] + q;
      match p[0]
      case Record =>
        if i: nat :| i < TRIES && Delivered(l, i) {
          DeliveredOnce(l);
          AfterSplits(Behind(l, i), p[1..], q);
        }
      case Asked =>
        if Goes(l, 0) && Acks(l, 0) {
          AfterSplits(Later(l, 1), p[1..], q);
        }
    }
  }

  /** The number of repetitions is determined by the answers. */
  lemma DeliveredOnce(l: Line)
    ensures forall i: nat, k: nat :: Delivered(l, i) && Delivered(l, k) ==> i == k
  {
    hide Goes, Acks;
  }

  lemma AfterRecord(l: Line, i: nat)
    requires i < TRIES && Delivered(l, i)
    ensures After(l, [Record]) == Some(Behind(l, i))
  {
    DeliveredOnce(l);
    hide Delivered;
    assert [Record][1..] == [];
  }

  lemma AfterNoRecord(l: Line)
    requires !exists i: nat :: i < TRIES && Delivered(l, i)
    ensures After(l, [Record]) == None
  {
    hide Delivered;
  }

  // ----- what a file makes ------------------------------------------------------------------------

  function Records(n: nat): (plan: seq<Item>)
    ensures |plan| == n
  {
    seq(n, _ => Record)
  }

  /** Records of 128 bytes that fill a page from `offset` on. */
  function FillCount(offset: nat): nat {
    if offset >= PAGE_SIZE then 0 else (PAGE_SIZE - offset + 127) / 128
  }

  /** Sending what is buffered, and filling the page from its end on. */
  function FinishPlan(b: nat, end: nat): seq<Item> {
    Records(if b > 0 then 1 else 0) + Records(if end > 0 then FillCount(end) else 0)
  }

  /** Where the last block of the layout ends. */
  function EndOfLayout(appOffset: nat, l: Layout): nat {
    if l.pages == [] then appOffset
    else
      var k := |l.pages| - 1;
      var end := EndOf(Start(appOffset, k), l.pages[k]);
      if end < 0 then 0 else end
  }

  /** What a line of a well-formed file makes when `b` characters are buffered. */
  function LinePlan(appOffset: nat, l: Layout, b: nat, r: HexRecord): seq<Item> {
    match r
    case Data(addr, chars) =>
      var gap := Gap(appOffset, l, addr);
      Records(if gap >= 0 && b + 2 * gap + |chars| >= MAX_SEND_COUNT then 1 else 0)
    case Page(n) => if n == 0 then [] else FinishPlan(b, EndOfLayout(appOffset, l)) + [Asked, Asked]
    case End => FinishPlan(b, EndOfLayout(appOffset, l))
    case Other => []
  }

  /** What a well-formed file makes. */
  function PlanOf(appOffset: nat, l: Layout, b: nat, lines: seq<seq<byte>>): seq<Item>
    decreases |lines|
  {
    if lines == [] || EndsFile(lines[0]) then []
    else
      var r := Parsed(lines[0]);
      var plan := LinePlan(appOffset, l, b, r);
      match Extend(appOffset, l, r)
      case None => plan
      case Some(more) => plan + PlanOf(appOffset, more, LineOutcome(appOffset, l, b, r).1, lines[1..])
  }

  // ----- a step and its items ---------------------------------------------------------------------

  /** A step from one line to another goes well if and only if its items are answered. */
  ghost predicate Answers(l: Line, plan: seq<Item>, ok: bool, m: Line) {
    After(Bare(l), plan) == if ok then Some(Bare(m)) else None
  }

  lemma AnswersNothing(l: Line)
    ensures Answers(l, [], true, l) && Answers(l, Records(0), true, l)
  {
  }

  lemma AnswersBoth(l: Line, p: seq<Item>, ok: bool, m: Line, q: seq<Item>, done: bool, n: Line)
    requires Answers(l, p, ok, m) && (ok ==> Answers(m, q, done, n))
    ensures Answers(l, p + q, ok && done, n)
  {
    hide After;
    AfterSplits(Bare(l), p, q);
  }

  lemma RecordAnswered(s: State, chars: seq<byte>)
    requires |chars| / 2 > 0
    ensures var (t, ok) := SendRecord(s, chars); Answers(s.line, Records(1), ok, t.line)
  {
    hide Transmit, Delivered, Hash, After;
    var l := s.line;
    TransmitExactly(l, s.offset, chars);
    forall i: nat ensures Delivered(l, i) <==> Delivered(Bare(l), i) {
      DeliveredSame(l, Bare(l), i);
    }
    assert Records(1) == [Record];
    if i: nat :| i < TRIES && Delivered(l, i) {
      AfterRecord(Bare(l), i);
    } else {
      AfterNoRecord(Bare(l));
    }
  }

  lemma UploadAnswered(s: State, n: nat)
    requires n <= |s.output| && n <= MAX_SEND_COUNT && n % 2 == 0 && s.offset + n / 2 <= PAGE_SIZE
    ensures var (t, o) := UploadHex(s, n);
      o == Judged(o == Ok) && Answers(s.line, Records(if n > 0 then 1 else 0), o == Ok, t.line)
  {
    hide SendRecord, Answers;
    if n == 0 {
      AnswersNothing(s.line);
    } else {
      RecordAnswered(s, s.output[..n]);
    }
  }

  lemma {:induction false} FillAnswered(s: State)
    ensures var (t, ok) := FillPage(s); Answers(s.line, Records(FillCount(s.offset)), ok, t.line)
    decreases PAGE_SIZE - s.offset
  {
    hide SendRecord, Answers;
    if s.offset >= PAGE_SIZE {
      AnswersNothing(s.line);
    } else {
      var bytes := if PAGE_SIZE - s.offset > 128 then 128 else PAGE_SIZE - s.offset;
      RecordGoesOn(s, Filling(bytes));
      RecordAnswered(s, Filling(bytes));
      var (t, ok) := SendRecord(s, Filling(bytes));
      var (u, done) := FillPage(t);
      var n := FillCount(s.offset) - 1;
      assert Records(FillCount(s.offset)) == Records(1) + Records(n);
      if ok {
        assert n == FillCount(t.offset);
        FillAnswered(t);
        AnswersBoth(s.line, Records(1), true, t.line, Records(n), done, u.line);
      } else {
        AnswersBoth(s.line, Records(1), false, t.line, Records(n), false, t.line);
      }
    }
  }

  lemma AskAnswered(l: Line, body: seq<byte>)
    ensures var (m, ok) := Ask(l, body); Answers(l, [Asked], ok, m)
  {
    hide CheckText;
    assert [Asked][1..] == [];
    assert After(Later(Bare(l), 1), []) == Some(Later(Bare(l), 1));
    var written := Write(l, [58] + body + CheckText(body)).0;
    assert Goes(Bare(l), 0) == l.writes(l.written) && Acks(Bare(l), 0) == (l.replies(l.read) == ACKNOWLEDGED);
  }

  lemma NewPageAnswered(s: State, number: nat)
    ensures var (t, ok) := NewPage(s, number); Answers(s.line, [Asked, Asked], ok, t.line)
  {
    hide Ask, Answers, SelectBody, BeginBody;
    var (selected, ok) := Ask(s.line, SelectBody(number));
    AskAnswered(s.line, SelectBody(number));
    assert [Asked, Asked] == [Asked] + [Asked];
    var (begun, done) := Ask(selected, BeginBody(0, PAGE_SIZE - 1));
    if ok {
      AskAnswered(selected, BeginBody(0, PAGE_SIZE - 1));
      AnswersBoth(s.line, [Asked], true, selected, [Asked], done, begun);
    } else {
      AnswersBoth(s.line, [Asked], false, selected, [Asked], false, selected);
    }
  }

  lemma FinishAnswered(s: State, always: bool)
    requires |s.output| <= MAX_SEND_COUNT && |s.output| % 2 == 0 && s.offset + |s.output| / 2 <= PAGE_SIZE
    requires s.offset + |s.output| / 2 > 0
    ensures var r := FinishPage(s, always);
      Answers(s.line, FinishPlan(|s.output|, s.offset + |s.output| / 2), r.outcome == Ok && r.fills, r.state.line)
  {
    hide UploadHex, FillPage, Answers, FillCount;
    var b, end := |s.output|, s.offset + |s.output| / 2;
    var p, q := Records(if b > 0 then 1 else 0), Records(FillCount(end));
    var (t, o) := UploadHex(s, b);
    UploadAnswered(s, b);
    if o == Ok {
      UploadMoves(s);
      FillAnswered(t);
      AnswersBoth(s.line, p, true, t.line, q, FillPage(t).1, FillPage(t).0.line);
    } else {
      AnswersBoth(s.line, p, false, t.line, q, false, t.line);
    }
  }

  lemma UploadMoves(s: State)
    requires |s.output| <= MAX_SEND_COUNT && |s.output| % 2 == 0 && s.offset + |s.output| / 2 <= PAGE_SIZE
    ensures UploadHex(s, |s.output|).1 == Ok ==> UploadHex(s, |s.output|).0.offset == s.offset + |s.output| / 2
  {
    hide Transmit, Hash;
  }

  // ----- the lines of a file ----------------------------------------------------------------------

  /** A data line: when its place is in the page and the buffer has room, all that matters is whether its record is
      answered. */
  lemma DataAnswered(s: State, addr: int, chars: seq<byte>)
    requires addr >= s.last && |s.output| <= HEX_BUFFER_SIZE && |s.output| % 2 == 0 && |chars| % 2 == 0
    requires s.offset + (|s.output| + 2 * (addr - s.last) + |chars|) / 2 <= PAGE_SIZE
    ensures var ((t, o), (q, b)) := (ProcessData(s, addr, chars), Buffering(|s.output|, addr - s.last, |chars|));
      if q != Ok then o != Ok
      else
        && (o == Ok ==> |t.output| == b)
        && Answers(s.line, Records(if |s.output| + 2 * (addr - s.last) + |chars| >= MAX_SEND_COUNT then 1 else 0),
                   o == Ok, t.line)
  {
    hide UploadHex, Answers;
    var t := Pad(s, addr).0;
    var u := t.(output := t.output + chars, last := addr + |chars| / 2);
    if |u.output| >= MAX_SEND_COUNT {
      UploadAnswered(u, MAX_SEND_COUNT);
    } else {
      AnswersNothing(s.line);
    }
  }

  lemma DataPlace(s: State, l: Layout, fills: bool, addr: int, chars: seq<byte>)
    requires Follows(s, l, fills) && Extend(s.appOffset, l, Data(addr, chars)).Some?
    ensures addr >= s.last && addr - s.last == Gap(s.appOffset, l, addr)
    ensures |s.output| <= HEX_BUFFER_SIZE && |s.output| % 2 == 0 && |chars| % 2 == 0
    ensures s.offset + (|s.output| + 2 * (addr - s.last) + |chars|) / 2 <= PAGE_SIZE
  {
    FollowsGap(s, l, fills, addr, chars);
    GapNotNegative(s.appOffset, l, addr, chars);
    PlaceInPage(s, l, fills);
    FollowsTidy(s, l, fills);
    hide Laid, EndOf, Images, Complete, Tidy, Sent, Done, Numbers;
    var k := |l.pages| - 1;
    var blocks := l.pages[k] + [Block(addr, chars)];
    assert Placed(Start(s.appOffset, k), blocks, |l.pages[k]|);
  }

  /** What waits to be sent at the end of a page that has something on it. */
  lemma FinishPlace(s: State, l: Layout, fills: bool)
    requires Follows(s, l, fills) && !l.closed && l.pages != [] && l.pages[|l.pages| - 1] != []
    ensures |s.output| % 2 == 0 && s.offset + |s.output| / 2 == EndOfLayout(s.appOffset, l) <= PAGE_SIZE
    ensures EndOfLayout(s.appOffset, l) > 0
  {
    PlaceInPage(s, l, fills);
    var k := |l.pages| - 1;
    LaidLength(Start(s.appOffset, k), l.pages[k]);
    hide Laid, EndOf, Images, Complete, Tidy, Sent, Done, Numbers;
  }

  lemma FinishRefuses(s: State, always: bool)
    requires |s.output| > MAX_SEND_COUNT
    ensures FinishPage(s, always).outcome == Error
  {
    hide SendRecord, FillPage;
  }

  lemma FinishEmpties(s: State, always: bool)
    ensures FinishPage(s, always).outcome == Ok ==> FinishPage(s, always).state.output == []
  {
    hide UploadHex, FillPage;
  }

  lemma PageAnswered(s: State, l: Layout, fills: bool, number: nat)
    requires Follows(s, l, fills) && Extend(s.appOffset, l, Page(number)).Some?
    ensures var (r, (q, b)) := (ProcessPage(s, number), LineOutcome(s.appOffset, l, |s.output|, Page(number)));
      if q != Ok then r.outcome != Ok
      else
        && (r.outcome == Ok ==> |r.state.output| == b)
        && Answers(s.line, LinePlan(s.appOffset, l, |s.output|, Page(number)), r.outcome == Ok && r.fills, r.state.line)
  {
    FollowsTidy(s, l, fills);
    hide FinishPage, NewPage, Answers, Follows, FinishPlan, EndOfLayout;
    if number == 0 {
      AnswersNothing(s.line);
    } else {
      var t := s.(page := number, last := 0);
      FinishPlace(s, l, fills);
      FinishRefusesOrNot(t);
      if |t.output| <= MAX_SEND_COUNT {
        var r := FinishPage(t, true);
        FinishAnswered(t, true);
        FinishEmpties(t, true);
        var plan := FinishPlan(|t.output|, EndOfLayout(s.appOffset, l));
        var (u, ok) := NewPage(r.state, number);
        NewPageAnswered(r.state, number);
        NewPageKeeps(r.state, number);
        if r.outcome == Ok {
          AnswersBoth(s.line, plan, r.fills, r.state.line, [Asked, Asked], ok, u.line);
        } else {
          AnswersBoth(s.line, plan, false, r.state.line, [Asked, Asked], false, r.state.line);
        }
      }
    }
  }

  lemma FinishRefusesOrNot(s: State)
    ensures |s.output| > MAX_SEND_COUNT ==> FinishPage(s, true).outcome == Error
  {
    hide FinishPage;
    if |s.output| > MAX_SEND_COUNT {
      FinishRefuses(s, true);
    }
  }

  lemma NewPageKeeps(s: State, number: nat)
    ensures NewPage(s, number).0.output == s.output
  {
    hide Ask;
  }

  lemma EndAnswered(s: State, l: Layout, fills: bool)
    requires Follows(s, l, fills) && Extend(s.appOffset, l, End).Some?
    ensures var (r, (q, b)) := (FinishPage(s, false), LineOutcome(s.appOffset, l, |s.output|, End));
      if q != Ok then r.outcome != Ok
      else
        && (r.outcome == Ok ==> |r.state.output| == b)
        && Answers(s.line, LinePlan(s.appOffset, l, |s.output|, End), r.outcome == Ok && r.fills, r.state.line)
  {
    hide FinishPage, Answers, Follows, FinishPlan, EndOfLayout;
    FinishPlace(s, l, fills);
    if |s.output| > MAX_SEND_COUNT {
      FinishRefuses(s, false);
    } else {
      FinishAnswered(s, false);
      FinishEmpties(s, false);
    }
  }

  /** One line of a well-formed file goes well if and only if its level does and its items are answered. */
  lemma LineAnswered(s: State, l: Layout, fills: bool, r: HexRecord)
    requires Follows(s, l, fills) && Extend(s.appOffset, l, r).Some?
    ensures var (res, (q, b)) := (ProcessLine(s, r), LineOutcome(s.appOffset, l, |s.output|, r));
      if q != Ok then res.outcome != Ok
      else
        && (res.outcome == Ok ==> |res.state.output| == b)
        && Answers(s.line, LinePlan(s.appOffset, l, |s.output|, r), res.outcome == Ok && res.fills, res.state.line)
  {
    hide Follows, Answers, ProcessData, ProcessPage, FinishPage, Gap, Buffering, FinishPlan, EndOfLayout;
    match r
    case Data(addr, chars) =>
      DataPlace(s, l, fills, addr, chars);
      DataAnswered(s, addr, chars);
    case Page(number) => PageAnswered(s, l, fills, number);
    case End => EndAnswered(s, l, fills);
    case Other => AnswersNothing(s.line);
  }

  // ----- the whole file ---------------------------------------------------------------------------

  /** The device takes and acknowledges everything a file makes. */
  ghost predicate Serves(l: Line, plan: seq<Item>) {
    After(Bare(l), plan).Some?
  }

  lemma ServesBoth(l: Line, p: seq<Item>, ok: bool, m: Line, q: seq<Item>)
    requires Answers(l, p, ok, m)
    ensures Serves(l, p + q) <==> ok && Serves(m, q)
  {
    hide After;
    AfterSplits(Bare(l), p, q);
  }

  /** A well-formed file is uploaded with every fill if and only if its gaps and line lengths allow it and the device
      takes and acknowledges every record and command it makes. */
  lemma {:induction false} RunExactly(s: State, l: Layout, fills: bool, lines: seq<seq<byte>>, fits: (int, nat) -> bool)
    requires Follows(s, l, fills) && WellFormed(s.appOffset, l, lines, fits)
    ensures var r := Process(s, lines).0;
      r.outcome == Ok && r.fills <==>
        OutcomeOf(s.appOffset, l, |s.output|, lines) == Ok && Serves(s.line, PlanOf(s.appOffset, l, |s.output|, lines))
    ensures Process(s, lines).0.outcome == Ok ==> OutcomeOf(s.appOffset, l, |s.output|, lines) == Ok
    decreases |lines|
  {
    hide Follows, Answers, ProcessLine, LineOutcome, LinePlan, Extend, Parsed, Serves;
    if lines == [] || EndsFile(lines[0]) {
      ServesNothing(s.line);
    } else {
      var r := Parsed(lines[0]);
      var res := ProcessLine(s, r);
      var (q, b) := LineOutcome(s.appOffset, l, |s.output|, r);
      var more := Extend(s.appOffset, l, r).value;
      LineAnswered(s, l, fills, r);
      if q == Ok {
        ServesBoth(s.line, LinePlan(s.appOffset, l, |s.output|, r), res.outcome == Ok && res.fills, res.state.line,
                   PlanOf(s.appOffset, more, b, lines[1..]));
        if res.outcome == Ok {
          DataHasChars(lines[0]);
          LineFollows(s, l, fills, r);
          LineKeepsOffset(s, r);
          RunExactly(res.state, more, fills && res.fills, lines[1..], fits);
        }
      }
    }
  }

  lemma ServesNothing(l: Line)
    ensures Serves(l, [])
  {
  }

  /** A successful upload of a well-formed file has sent the images if and only if the device took and acknowledged
      every record and command of the file, the fills included. */
  lemma ImagesIffServed(appOffset: nat, line: Line, lines: seq<seq<byte>>, fits: (int, nat) -> bool)
    requires appOffset <= PAGE_SIZE && WellFormed(appOffset, Layout([], false), lines, fits)
    requires Process(Fresh(appOffset, line), lines).0.outcome == Ok
    ensures Process(Fresh(appOffset, line), lines).1 <= |lines|
    ensures var (r, used) := Process(Fresh(appOffset, line), lines);
      var plan := PlanOf(appOffset, Layout([], false), 0, lines);
      && LayoutOf(appOffset, lines[..used]).Some?
      && var l := LayoutOf(appOffset, lines[..used]).value;
         l.closed ==> (PagesOf(r.state.log) == Images(appOffset, l.pages) <==> Serves(line, plan))
  {
    hide Process, WellFormed, LayoutFrom, Images, OutcomeOf, PlanOf, Serves;
    FreshFollows(appOffset, line);
    RunExactly(Fresh(appOffset, line), Layout([], false), true, lines, fits);
    UsedLayout(Fresh(appOffset, line), Layout([], false), lines, fits);
    ImagesIffFills(appOffset, line, lines);
  }
}
