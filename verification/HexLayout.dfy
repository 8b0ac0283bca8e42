/** What the records of an upload add up to, and when that is what the file describes. */
module HexLayout {
  import opened Bytes
  import opened HexImage
  import opened HexUpload

  // ----- the pages sent -----------------------------------------------------------------------

  /** Page 0 is written from behind the bootloader on. */
  function Start(appOffset: nat, page: nat): nat {
    if page == 0 then appOffset else 0
  }

  /** The characters sent for the current page. */
  function Sent(log: seq<Command>): seq<byte> {
    if log == [] then []
    else match log[|log| - 1]
      case SelectPage(_) => []
      case Begin(_, _) => Sent(log[..|log| - 1])
      case Program(_, chars) => Sent(log[..|log| - 1]) + chars
  }

  /** The characters sent for the pages before. */
  function Done(log: seq<Command>): seq<seq<byte>> {
    if log == [] then []
    else
      var before := log[..|log| - 1];
      if log[|log| - 1].SelectPage? then Done(before) + [Sent(before)] else Done(before)
  }

  /** The characters sent, page by page. */
  function PagesOf(log: seq<Command>): seq<seq<byte>> {
    Done(log) + [Sent(log)]
  }

  /** The pages selected. */
  function Numbers(log: seq<Command>): seq<nat> {
    if log == [] then []
    else
      var before := log[..|log| - 1];
      match log[|log| - 1]
      case SelectPage(n) => Numbers(before) + [n]
      case _ => Numbers(before)
  }

  /** Records of 1 to 255 bytes, each where the last ended; a page is begun, from its start to its end, just after it is
      selected. */
  predicate Contiguous(appOffset: nat, log: seq<Command>) {
    log == [] ||
    var before := log[..|log| - 1];
    && Contiguous(appOffset, before)
    && match log[|log| - 1]
       case SelectPage(_) => true
       case Begin(first, last) => before != [] && before[|before| - 1].SelectPage? && first == 0
           && last == PAGE_SIZE - 1
       case Program(offset, chars) =>
         && |chars| % 2 == 0 && 2 <= |chars| <= 510
         && |Sent(before)| % 2 == 0 && offset == Start(appOffset, |Done(before)|) + |Sent(before)| / 2
  }

  /** The place in the page, the count and the hash are those of the characters sent. */
  predicate Tidy(s: State) {
    && Contiguous(s.appOffset, s.log) && |s.output| <= OUTPUT_SIZE
    && |Sent(s.log)| % 2 == 0 && s.offset == Start(s.appOffset, |Done(s.log)|) + |Sent(s.log)| / 2
    && s.hash == Hash(HASH_START, Flatten(PagesOf(s.log)))
    && 2 * s.total == 2 * s.appOffset + |Flatten(PagesOf(s.log))|
  }

  lemma LogAppend(log: seq<Command>, c: Command)
    ensures (log + [c])[..|log + [c]| - 1] == log && (log + [c])[|log + [c]| - 1] == c
  {
  }

  lemma FlattenPages(done: seq<seq<byte>>, sent: seq<byte>, chars: seq<byte>)
    ensures Flatten(done + [sent + chars]) == Flatten(done + [sent]) + chars
    ensures Flatten(done + [sent] + [[]]) == Flatten(done + [sent])
  {
    FlattenAppend(done, sent + chars);
    FlattenAppend(done, sent);
    FlattenAppend(done + [sent], []);
    assert Flatten(done) + (sent + chars) == Flatten(done) + sent + chars;
  }

  /** An acknowledged record extends the page, the count and the hash; another leaves them as they are. */
  lemma RecordTidy(s: State, chars: seq<byte>)
    requires Tidy(s) && |chars| % 2 == 0 && |chars| <= 510
    ensures var (t, ok) := SendRecord(s, chars);
      && Tidy(t) && Done(t.log) == Done(s.log) && Numbers(t.log) == Numbers(s.log)
      && Sent(t.log) == (if ok then Sent(s.log) + chars else Sent(s.log))
      && t == s.(line := t.line, offset := t.offset, total := t.total, hash := t.hash, log := t.log)
  {
    hide Transmit, Hash, Flatten;
    var (t, ok) := SendRecord(s, chars);
    if chars == [] {
      assert Sent(s.log) + chars == Sent(s.log);
    } else if ok {
      LogAppend(s.log, Program(s.offset, chars));
      HashSplits(HASH_START, Flatten(PagesOf(s.log)), chars);
      FlattenPages(Done(s.log), Sent(s.log), chars);
    }
  }

  /** The state after a step differs from the one before in what sending changes only. */
  ghost predicate SendingOnly(s: State, t: State) {
    t == s.(line := t.line, offset := t.offset, total := t.total, hash := t.hash, log := t.log)
  }

  lemma UploadTidy(s: State, n: nat)
    requires Tidy(s) && n <= |s.output|
    ensures var (t, o) := UploadHex(s, n);
      && Tidy(t) && SendingOnly(s, t) && Done(t.log) == Done(s.log) && Numbers(t.log) == Numbers(s.log)
      && (o == Ok ==> Sent(t.log) == Sent(s.log) + s.output[..n / 2 * 2])
      && (o == Stray ==> s.offset > PAGE_SIZE)
  {
    hide SendRecord, Tidy, Sent, Done, Numbers;
    var even := n / 2 * 2;
    if n == 0 {
      assert Sent(s.log) + s.output[..0] == Sent(s.log);
    } else if n <= MAX_SEND_COUNT {
      if s.offset + even / 2 <= PAGE_SIZE {
        RecordTidy(s, s.output[..even]);
      } else if s.offset <= PAGE_SIZE {
        var k := 2 * (PAGE_SIZE - s.offset);
        RecordTidy(s, s.output[..k]);
        var (t, ok) := SendRecord(s, s.output[..k]);
        if ok {
          RecordTidy(t, s.output[k..even]);
          assert s.output[..k] + s.output[k..even] == s.output[..even];
          assert Sent(s.log) + s.output[..k] + s.output[k..even] == Sent(s.log) + (s.output[..k] + s.output[k..even]);
        }
      }
    }
  }

  /** A fill sends FF up to the end of the page if every record goes through, and stops short of it otherwise. */
  lemma {:induction false} FillTidy(s: State)
    requires Tidy(s)
    ensures var (t, ok) := FillPage(s);
      && Tidy(t) && SendingOnly(s, t) && Done(t.log) == Done(s.log) && Numbers(t.log) == Numbers(s.log)
      && (ok ==> Sent(t.log) == Sent(s.log) + Filling(PAGE_SIZE - s.offset))
      && (!ok ==> t.offset < PAGE_SIZE)
    decreases PAGE_SIZE - s.offset
  {
    hide SendRecord, Tidy, Sent, Done, Numbers;
    if s.offset >= PAGE_SIZE {
      assert Sent(s.log) + Filling(PAGE_SIZE - s.offset) == Sent(s.log);
    } else {
      var bytes := if PAGE_SIZE - s.offset > 128 then 128 else PAGE_SIZE - s.offset;
      RecordGoesOn(s, Filling(bytes));
      RecordTidy(s, Filling(bytes));
      RecordFails(s, Filling(bytes));
      var (t, ok) := SendRecord(s, Filling(bytes));
      if ok {
        FillTidy(t);
        assert Filling(bytes) + Filling(PAGE_SIZE - t.offset) == Filling(PAGE_SIZE - s.offset);
        assert Sent(s.log) + Filling(bytes) + Filling(PAGE_SIZE - t.offset)
            == Sent(s.log) + (Filling(bytes) + Filling(PAGE_SIZE - t.offset));
      }
    }
  }

  lemma RecordFails(s: State, chars: seq<byte>)
    ensures !SendRecord(s, chars).1 ==> SendRecord(s, chars).0.offset == s.offset
  {
  }

  // ----- well-formed files --------------------------------------------------------------------

  /** The blocks of each page so far, and whether the end record has been seen. */
  datatype Layout = Layout(pages: seq<seq<Block>>, closed: bool)

  /** One more line: pages come as 0, 1, 2, ... and none is empty, blocks come in order, nothing follows the end. */
  function Extend(appOffset: nat, l: Layout, r: HexRecord): Option<Layout> {
    var k := |l.pages| - 1;
    match r
    case Other => Some(l)
    case Page(n) => if !l.closed && n == |l.pages|
        && (n > 0 ==> l.pages[k] != []) then Some(Layout(l.pages + [[]], false)) else None
    case Data(addr, chars) =>
      if !l.closed && k >= 0 && Ordered(Start(appOffset, k), l.pages[k] + [Block(addr, chars)])
      then Some(Layout(l.pages[k := l.pages[k] + [Block(addr, chars)]], false)) else None
    case End => if !l.closed && k >= 0 && l.pages[k] != [] then Some(Layout(l.pages, true)) else None
  }

  /** The layout that the lines make of one, if they are well-formed. */
  function LayoutFrom(appOffset: nat, l: Layout, lines: seq<seq<byte>>): Option<Layout>
    decreases |lines|
  {
    if lines == [] then Some(l)
    else match Extend(appOffset, l, Parsed(lines[0]))
      case None => None
      case Some(more) => LayoutFrom(appOffset, more, lines[1..])
  }

  function LayoutOf(appOffset: nat, lines: seq<seq<byte>>): Option<Layout> {
    LayoutFrom(appOffset, Layout([], false), lines)
  }

  /** The image of every page. */
  function Images(appOffset: nat, pages: seq<seq<Block>>): (r: seq<seq<byte>>)
    ensures |r| == |pages|
  {
    if pages == [] then []
    else
      var k := |pages| - 1;
      Images(appOffset, pages[..k]) + [Image(Start(appOffset, k), pages[k])]
  }

  /** Some page is shorter than its image. */
  predicate Short(pages: seq<seq<byte>>, images: seq<seq<byte>>) {
    |pages| == |images| && exists i :: 0 <= i < |pages| && |pages[i]| < |images[i]|
  }

  /** Either the pages are the images, or some page is too short. */
  predicate Complete(fills: bool, pages: seq<seq<byte>>, images: seq<seq<byte>>) {
    if fills then pages == images else Short(pages, images)
  }

  lemma CompleteIff(fills: bool, pages: seq<seq<byte>>, images: seq<seq<byte>>)
    requires Complete(fills, pages, images)
    ensures pages == images <==> fills
    ensures |pages| == |images|
  {
  }

  lemma CompleteNothing()
    ensures Complete(true, [], [])
  {
  }

  lemma CompleteAppend(fills: bool, pages: seq<seq<byte>>, images: seq<seq<byte>>, fill: bool, page: seq<byte>,
      image: seq<byte>)
    requires Complete(fills, pages, images) && (if fill then page == image else |page| < |image|)
    ensures Complete(fills && fill, pages + [page], images + [image])
  {
    if !fills {
      var i :| 0 <= i < |pages| && |pages[i]| < |images[i]|;
      assert |(pages + [page])[i]| < |(images + [image])[i]|;
    } else if !fill {
      assert |(pages + [page])[|pages|]| < |(images + [image])[|images|]|;
    }
  }

  /** What the uploader holds after the lines of a well-formed file up to some point. */
  ghost predicate Follows(s: State, l: Layout, fills: bool) {
    && Tidy(s) && s.appOffset <= PAGE_SIZE && |s.output| <= HEX_BUFFER_SIZE
    && |Numbers(s.log)| == |Done(s.log)| && (forall i :: 0 <= i < |Numbers(s.log)| ==> Numbers(s.log)[i] == i + 1)
    && if l.pages == [] then !l.closed && s == Fresh(s.appOffset, s.line) && fills
       else if l.closed then Complete(fills, PagesOf(s.log), Images(s.appOffset, l.pages)) && s.output == []
           && s.page == |l.pages| - 1
       else
         var k := |l.pages| - 1;
         && Complete(fills, Done(s.log), Images(s.appOffset, l.pages[..k])) && s.page == k && |Done(s.log)| == k
         && Ordered(Start(s.appOffset, k), l.pages[k])
            && (l.pages[k] != [] ==> Laid(Start(s.appOffset, k), l.pages[k]) != [])
         && Sent(s.log) + s.output == Laid(Start(s.appOffset, k), l.pages[k])
            && s.last == EndOf(Start(s.appOffset, k), l.pages[k])
  }

  lemma PadTidy(s: State, addr: int)
    requires Tidy(s)
    ensures var (t, o) := Pad(s, addr);
      && t == s.(output := t.output) && Tidy(t)
      && (o == Ok ==> t.output == s.output + Filling(addr - s.last))
  {
    hide Sent, Done, Contiguous, Hash, Flatten;
    if addr <= s.last {
      assert s.output + Filling(addr - s.last) == s.output;
    }
  }

  /** After a data line, what has been sent and what is buffered together have grown by the gap and the line. */
  lemma DataTidy(s: State, addr: int, chars: seq<byte>)
    requires Tidy(s)
    ensures var (t, o) := ProcessData(s, addr, chars);
      && Tidy(t) && Done(t.log) == Done(s.log) && Numbers(t.log) == Numbers(s.log) && t.page == s.page
         && t.appOffset == s.appOffset
      && (o == Ok ==> Sent(t.log) + t.output == Sent(s.log) + s.output + Filling(addr - s.last) + chars
                      && t.last == addr + |chars| / 2 && |t.output| <= HEX_BUFFER_SIZE)
      && (o == Stray ==> s.offset > PAGE_SIZE || Pad(s, addr).1 == Stray)
  {
    hide UploadHex, Pad, Sent, Done, Numbers, Contiguous, Hash, Flatten;
    PadTidy(s, addr);
    var (t, o) := Pad(s, addr);
    if o == Ok && |t.output| + |chars| < OUTPUT_SIZE {
      var u := t.(output := t.output + chars, last := addr + |chars| / 2);
      assert Tidy(u);
      SendFullTidy(u);
      assert Sent(s.log) + s.output + Filling(addr - s.last) + chars
          == Sent(s.log) + (s.output + Filling(addr - s.last) + chars);
    }
  }

  lemma SendFullTidy(s: State)
    requires Tidy(s)
    ensures var (t, o) := SendFull(s);
      && Tidy(t) && Done(t.log) == Done(s.log) && Numbers(t.log) == Numbers(s.log)
      && t.page == s.page && t.appOffset == s.appOffset && t.last == s.last
      && (o == Ok ==> Sent(t.log) + t.output == Sent(s.log) + s.output && |t.output| <= HEX_BUFFER_SIZE)
      && (o == Stray ==> s.offset > PAGE_SIZE)
  {
    hide UploadHex, Sent, Done, Numbers, Contiguous, Hash, Flatten;
    if |s.output| >= MAX_SEND_COUNT {
      UploadTidy(s, MAX_SEND_COUNT);
      assert s.output == s.output[..MAX_SEND_COUNT] + s.output[MAX_SEND_COUNT..];
      var t := UploadHex(s, MAX_SEND_COUNT).0;
      assert Sent(s.log) + s.output[..MAX_SEND_COUNT] + s.output[MAX_SEND_COUNT..]
          == Sent(s.log) + (s.output[..MAX_SEND_COUNT] + s.output[MAX_SEND_COUNT..]);
    }
  }

  /** A finished page holds all there is and FF up to its end if the fill went through, and is too short otherwise. */
  lemma FinishTidy(s: State, always: bool)
    requires Tidy(s) && |s.output| % 2 == 0 && (always || s.offset > 0 || s.output != [])
    ensures var r := FinishPage(s, always);
      && Tidy(r.state) && Done(r.state.log) == Done(s.log) && Numbers(r.state.log) == Numbers(s.log)
      && r.state.page == s.page && r.state.appOffset == s.appOffset && r.state.last == s.last
      && (r.outcome == Stray ==> s.offset > PAGE_SIZE)
      && (r.outcome == Ok ==> r.state.output == [])
      && (r.outcome == Ok && r.fills ==>
           Sent(r.state.log) == Sent(s.log) + s.output + Filling(PAGE_SIZE - s.offset - |s.output| / 2))
      && (r.outcome == Ok && !r.fills ==> r.state.offset < PAGE_SIZE)
  {
    hide UploadHex, FillPage, Sent, Done, Numbers, Contiguous, Hash, Flatten;
    UploadTidy(s, |s.output|);
    var (t, o) := UploadHex(s, |s.output|);
    if o == Ok {
      assert s.output[..|s.output|] == s.output;
      FillTidy(t);
    }
  }

  lemma SelectTidy(s: State, number: nat)
    requires Tidy(s) && s.output == []
    ensures var (t, ok) := NewPage(s, number);
      && t == s.(line := t.line, offset := 0, log := t.log)
      && (ok ==>
           && Tidy(t) && Done(t.log) == PagesOf(s.log) && Sent(t.log) == []
           && Numbers(t.log) == Numbers(s.log) + [number])
  {
    hide Ask, Hash, Flatten;
    var selected := s.log + [SelectPage(number)];
    var begun := selected + [Begin(0, PAGE_SIZE - 1)];
    LogAppend(s.log, SelectPage(number));
    LogAppend(selected, Begin(0, PAGE_SIZE - 1));
    assert Contiguous(s.appOffset, selected) && Contiguous(s.appOffset, begun);
    assert Sent(begun) == Sent(selected) == [] && Done(begun) == Done(selected) == PagesOf(s.log);
    assert Numbers(begun) == Numbers(selected) == Numbers(s.log) + [number];
    FlattenPages(Done(s.log), Sent(s.log), []);
  }

  // ----- a run over a well-formed file ----------------------------------------------------------

  lemma NothingLaid(start: int)
    requires start <= PAGE_SIZE
    ensures Laid(start, []) == [] && EndOf(start, []) == start && Ordered(start, [])
  {
  }

  lemma NothingSent()
    ensures Sent([]) == [] && Done([]) == [] && Numbers([]) == []
  {
  }

  lemma FreshFollows(appOffset: nat, line: Line)
    requires appOffset <= PAGE_SIZE
    ensures Follows(Fresh(appOffset, line), Layout([], false), true)
  {
    NothingSent();
    assert Flatten<byte>([[]]) == [] + Flatten<byte>([]) == [];
  }

  /** While a page is open the place in it is at most its end. */
  lemma PlaceInPage(s: State, l: Layout, fills: bool)
    requires Follows(s, l, fills) && !l.closed
    ensures s.offset <= PAGE_SIZE
    ensures l.pages != [] ==> var k := |l.pages| - 1;
      && |s.output| % 2 == 0 && s.offset + |s.output| / 2 == EndOf(Start(s.appOffset, k), l.pages[k])
      && Start(s.appOffset, k) <= PAGE_SIZE
  {
    hide Laid, Ordered, EndOf, Images, Hash, Flatten, Contiguous, Sent, Done, Numbers;
    if l.pages == [] {
      assert s.offset == s.appOffset;
    } else {
      var k := |l.pages| - 1;
      LaidLength(Start(s.appOffset, k), l.pages[k]);
      assert |Sent(s.log) + s.output| == |Sent(s.log)| + |s.output|;
    }
  }

  lemma DataFollows(s: State, l: Layout, fills: bool, addr: int, chars: seq<byte>)
    requires Follows(s, l, fills) && |chars| >= 2 && Extend(s.appOffset, l, Data(addr, chars)).Some?
    requires ProcessData(s, addr, chars).1 == Ok
    ensures Follows(ProcessData(s, addr, chars).0, Extend(s.appOffset, l, Data(addr, chars)).value, fills)
  {
    hide Laid, Ordered, EndOf, Images, Complete, Tidy, Sent, Done, Numbers, ProcessData;
    FollowsTidy(s, l, fills);
    DataTidy(s, addr, chars);
    var k := |l.pages| - 1;
    var more := Extend(s.appOffset, l, Data(addr, chars)).value;
    LaidAppend(Start(s.appOffset, k), l.pages[k], Block(addr, chars));
    assert more.pages[..k] == l.pages[..k];
  }

  lemma FollowsTidy(s: State, l: Layout, fills: bool)
    requires Follows(s, l, fills)
    ensures Tidy(s) && s.appOffset <= PAGE_SIZE && |s.output| <= HEX_BUFFER_SIZE
  {
  }

  lemma ImagesUnfold(appOffset: nat, pages: seq<seq<Block>>)
    requires pages != []
    ensures var k := |pages| - 1;
      Images(appOffset, pages) == Images(appOffset, pages[..k]) + [Image(Start(appOffset, k), pages[k])]
  {
  }

  /** The page just finished is its image if the fill went through, and too short otherwise. */
  lemma FinishFollows(s: State, l: Layout, fills: bool, always: bool)
    requires Follows(s, l, fills) && !l.closed && l.pages != [] && l.pages[|l.pages| - 1] != []
    requires FinishPage(s, always).outcome == Ok
    ensures var r := FinishPage(s, always);
      && Tidy(r.state) && r.state.output == [] && r.state.page == s.page && r.state.appOffset == s.appOffset
      && Numbers(r.state.log) == Numbers(s.log) && |PagesOf(r.state.log)| == |l.pages|
      && Complete(fills && r.fills, PagesOf(r.state.log), Images(s.appOffset, l.pages))
  {
    hide Laid, Ordered, EndOf, Images, Complete, Numbers, FinishPage, Hash, Contiguous;
    var k := |l.pages| - 1;
    var start := Start(s.appOffset, k);
    PlaceInPage(s, l, fills);
    LaidLength(start, l.pages[k]);
    var r := FinishPage(s, always);
    assert s.offset > 0 || s.output != [];
    FinishTidy(s, always);
    ImagesUnfold(s.appOffset, l.pages);
    assert r.fills ==> Sent(r.state.log) == Image(start, l.pages[k]);
    assert !r.fills ==> |Sent(r.state.log)| < |Image(start, l.pages[k])|;
    CompleteAppend(fills, Done(s.log), Images(s.appOffset, l.pages[..k]), r.fills, Sent(r.state.log),
        Image(start, l.pages[k]));
  }

  lemma PageFollows(s: State, l: Layout, fills: bool, number: nat)
    requires Follows(s, l, fills) && Extend(s.appOffset, l, Page(number)).Some? && ProcessPage(s, number).outcome == Ok
    ensures Follows(ProcessPage(s, number).state, Extend(s.appOffset, l, Page(number)).value, fills
      && ProcessPage(s, number).fills)
  {
    hide Laid, Ordered, EndOf, Images, Complete, Tidy, Sent, Done, Numbers, FinishPage, NewPage;
    FollowsTidy(s, l, fills);
    var more := Extend(s.appOffset, l, Page(number)).value;
    NothingLaid(Start(s.appOffset, number));
    assert more.pages[..number] == l.pages;
    if number == 0 {
      NothingSent();
      NoImages(s.appOffset);
      CompleteNothing();
      PlaceMoves(s, 0, s.offset);
      assert l.pages == [] && more.pages == [[]];
      assert Sent(s.log) + s.output == [];
    } else {
      var t := s.(page := number, last := 0);
      PlaceMoves(s, number, 0);
      FinishMoved(s, number);
      FinishFollows(s, l, fills, true);
      var r := FinishPage(t, true);
      PlaceMoves(FinishPage(s, true).state, number, 0);
      SelectTidy(r.state, number);
    }
  }

  /** Page number and expected place do not matter for what is sent. */
  lemma PlaceMoves(s: State, number: nat, last: int)
    requires Tidy(s)
    ensures Tidy(s.(page := number, last := last))
  {
  }

  lemma FinishMoved(s: State, number: nat)
    ensures FinishPage(s.(page := number, last := 0), true)
      == var r := FinishPage(s, true); r.(state := r.state.(page := number, last := 0))
  {
    UploadMoved(s, |s.output|, number);
    hide UploadHex, FillPage;
    FillMoved(UploadHex(s, |s.output|).0, number);
  }

  lemma UploadMoved(s: State, n: nat, number: nat)
    requires n <= |s.output|
    ensures UploadHex(s.(page := number, last := 0), n)
      == (UploadHex(s, n).0.(page := number, last := 0), UploadHex(s, n).1)
  {
    hide Transmit, Hash;
  }

  lemma {:induction false} FillMoved(s: State, number: nat)
    ensures FillPage(s.(page := number, last := 0)) == (FillPage(s).0.(page := number, last := 0), FillPage(s).1)
    decreases PAGE_SIZE - s.offset
  {
    hide Transmit, Hash;
    if s.offset < PAGE_SIZE {
      var bytes := if PAGE_SIZE - s.offset > 128 then 128 else PAGE_SIZE - s.offset;
      RecordGoesOn(s, Filling(bytes));
      if SendRecord(s, Filling(bytes)).1 {
        FillMoved(SendRecord(s, Filling(bytes)).0, number);
      }
    }
  }

  lemma NoImages(appOffset: nat)
    ensures Images(appOffset, []) == []
  {
  }

  lemma EndFollows(s: State, l: Layout, fills: bool)
    requires Follows(s, l, fills) && Extend(s.appOffset, l, End).Some? && FinishPage(s, false).outcome == Ok
    ensures Follows(FinishPage(s, false).state, Extend(s.appOffset, l, End).value, fills && FinishPage(s, false).fills)
  {
    hide Laid, Ordered, EndOf, Images, Complete, Sent, Done, FinishPage, Hash, Flatten, Contiguous;
    FinishFollows(s, l, fills, false);
    FollowsTidy(s, l, fills);
    FinishTidyNumbers(s, l, fills);
  }

  lemma FinishTidyNumbers(s: State, l: Layout, fills: bool)
    requires Follows(s, l, fills) && Extend(s.appOffset, l, End).Some?
    ensures Done(FinishPage(s, false).state.log) == Done(s.log)
  {
    hide Laid, Ordered, EndOf, Images, Complete, Sent, Numbers, FinishPage, Hash, Flatten, Contiguous;
    PlaceInPage(s, l, fills);
    var k := |l.pages| - 1;
    LaidLength(Start(s.appOffset, k), l.pages[k]);
    FinishTidy(s, false);
  }

  /** What one line makes of a well-formed file is what the uploader makes of it. */
  lemma LineFollows(s: State, l: Layout, fills: bool, r: HexRecord)
    requires Follows(s, l, fills) && (r.Data? ==> |r.chars| >= 2) && Extend(s.appOffset, l, r).Some?
    requires ProcessLine(s, r).outcome == Ok
    ensures Follows(ProcessLine(s, r).state, Extend(s.appOffset, l, r).value, fills && ProcessLine(s, r).fills)
  {
    hide Follows, ProcessData, ProcessPage, FinishPage;
    match r
    case Data(addr, chars) => DataFollows(s, l, fills, addr, chars);
    case Page(number) => PageFollows(s, l, fills, number);
    case End => EndFollows(s, l, fills);
    case Other =>
  }

  lemma DataHasChars(line: seq<byte>)
    ensures Parsed(line).Data? ==> |Parsed(line).chars| >= 2
  {
  }

  lemma {:induction false} FillKeepsOffset(s: State)
    ensures FillPage(s).0.appOffset == s.appOffset
    decreases PAGE_SIZE - s.offset
  {
    hide Transmit, Hash;
    if s.offset < PAGE_SIZE {
      var bytes := if PAGE_SIZE - s.offset > 128 then 128 else PAGE_SIZE - s.offset;
      RecordGoesOn(s, Filling(bytes));
      if SendRecord(s, Filling(bytes)).1 {
        FillKeepsOffset(SendRecord(s, Filling(bytes)).0);
      }
    }
  }

  lemma UploadKeepsOffset(s: State, n: nat)
    requires n <= |s.output|
    ensures UploadHex(s, n).0.appOffset == s.appOffset
  {
    hide Transmit, Hash;
  }

  lemma FinishKeepsOffset(s: State, always: bool)
    ensures FinishPage(s, always).state.appOffset == s.appOffset
  {
    hide UploadHex, FillPage;
    UploadKeepsOffset(s, |s.output|);
    FillKeepsOffset(UploadHex(s, |s.output|).0);
  }

  lemma LineKeepsOffset(s: State, r: HexRecord)
    ensures ProcessLine(s, r).state.appOffset == s.appOffset
  {
    hide UploadHex, FinishPage, Ask;
    match r
    case Data(addr, chars) =>
      var t := Pad(s, addr).0;
      var u := t.(output := t.output + chars, last := addr + |chars| / 2);
      if |u.output| >= MAX_SEND_COUNT {
        UploadKeepsOffset(u, MAX_SEND_COUNT);
      }
    case Page(number) => FinishKeepsOffset(s.(page := number, last := 0), true);
    case End => FinishKeepsOffset(s, false);
    case Other =>
  }

  lemma {:induction false} ProcessFollows(s: State, l: Layout, fills: bool, lines: seq<seq<byte>>)
    requires Follows(s, l, fills)
    ensures Process(s, lines).1 <= |lines|
    ensures var (r, used) := Process(s, lines);
      r.outcome == Ok && LayoutFrom(s.appOffset, l, lines[..used]).Some? ==>
        Follows(r.state, LayoutFrom(s.appOffset, l, lines[..used]).value, fills && r.fills)
            && r.state.appOffset == s.appOffset
    decreases |lines|
  {
    hide Follows, ProcessLine, Extend, Parsed;
    if lines != [] && !EndsFile(lines[0]) {
      var res := Parsed(lines[0]);
      var r := ProcessLine(s, res);
      LineKeepsOffset(s, res);
      DataHasChars(lines[0]);
      var used := Process(s, lines).1;
      if r.outcome == Ok {
        var rest := lines[1..];
        UsedFits(r.state, rest);
        assert lines[..used][1..] == rest[..used - 1];
        if Extend(s.appOffset, l, res).Some? {
          LineFollows(s, l, fills, res);
          ProcessFollows(r.state, Extend(s.appOffset, l, res).value, fills && r.fills, rest);
        }
      }
    }
  }

  lemma {:induction false} UsedFits(s: State, lines: seq<seq<byte>>)
    ensures Process(s, lines).1 <= |lines|
    decreases |lines|
  {
    hide ProcessLine, Parsed;
    if lines != [] && !EndsFile(lines[0]) && ProcessLine(s, Parsed(lines[0])).outcome == Ok {
      UsedFits(ProcessLine(s, Parsed(lines[0])).state, lines[1..]);
    }
  }

  /** When the upload of a well-formed file succeeds, the records of each page add up to the page's image if and only if
      every fill went through: a fill that fails leaves its page too short, and the outcome does not tell. */
  lemma ImagesIffFills(appOffset: nat, line: Line, lines: seq<seq<byte>>)
    requires appOffset <= PAGE_SIZE
    ensures Process(Fresh(appOffset, line), lines).1 <= |lines|
    ensures var (r, used) := Process(Fresh(appOffset, line), lines);
      match LayoutOf(appOffset, lines[..used])
      case None => true
      case Some(l) => r.outcome == Ok && l.closed ==>
        && (PagesOf(r.state.log) == Images(appOffset, l.pages) <==> r.fills)
        && r.state.page == |l.pages| - 1 && Tidy(r.state) && |Numbers(r.state.log)| == |l.pages| - 1
        && forall i :: 0 <= i < |Numbers(r.state.log)| ==> Numbers(r.state.log)[i] == i + 1
  {
    hide Process, LayoutFrom, Tidy, Images, Complete, Numbers;
    var s, l0 := Fresh(appOffset, line), Layout([], false);
    FreshFollows(appOffset, line);
    ProcessFollows(s, l0, true, lines);
    var (r, used) := Process(s, lines);
    if r.outcome == Ok && LayoutOf(appOffset, lines[..used]).Some? && LayoutOf(appOffset, lines[..used]).value.closed {
      CompleteIff(r.fills, PagesOf(r.state.log), Images(appOffset, LayoutOf(appOffset, lines[..used]).value.pages));
    }
  }
}
