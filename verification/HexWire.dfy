/** What the device has to answer for a record to be delivered, and what a successful upload has put on the line. */
module HexWire {
  import opened Bytes
  import opened HexImage
  import opened HexUpload
  import opened HexLayout

  // ----- the answers a record needs ---------------------------------------------------------------

  /** The `j`th write from now on goes through. */
  predicate Goes(l: Line, j: nat) {
    l.writes(l.written + j)
  }

  /** The `j`th reply from now on is the acknowledgement. */
  predicate Acks(l: Line, j: nat) {
    l.replies(l.read + j) == ACKNOWLEDGED
  }

  /** The checksum goes through each time and is acknowledged after `i` repetitions, not before. */
  predicate AckedAfter(l: Line, i: nat) {
    (forall j: nat :: j <= i ==> Goes(l, j)) && (forall j: nat :: j < i ==> !Acks(l, j)) && Acks(l, i)
  }

  /** The line after the checksum has been sent `n` times. */
  function Later(l: Line, n: nat): Line {
    l.(written := l.written + n, read := l.read + n)
  }

  lemma GoesLater(l: Line, n: nat, j: nat)
    ensures Goes(Later(l, n), j) == Goes(l, n + j) && Acks(Later(l, n), j) == Acks(l, n + j)
  {
  }

  lemma AckedLater(l: Line, i: nat)
    requires Goes(l, 0) && !Acks(l, 0)
    ensures AckedAfter(Later(l, 1), i) <==> AckedAfter(l, i + 1)
  {
    hide Goes, Acks;
    GoesLater(l, 1, i);
    if AckedAfter(Later(l, 1), i) {
      forall j: nat | j <= i + 1 ensures Goes(l, j) && (j <= i ==> !Acks(l, j)) {
        if j > 0 {
          GoesLater(l, 1, j - 1);
        }
      }
    }
    if AckedAfter(l, i + 1) {
      forall j: nat | j <= i ensures Goes(Later(l, 1), j) && (j < i ==> !Acks(Later(l, 1), j)) {
        GoesLater(l, 1, j);
      }
    }
  }

  /** The two lines differ in the bytes sent so far only. */
  ghost predicate SameAnswers(l: Line, m: Line) {
    l.(bytes := []) == m.(bytes := [])
  }

  lemma AckedSame(l: Line, m: Line, i: nat)
    requires SameAnswers(l, m)
    ensures AckedAfter(l, i) <==> AckedAfter(m, i)
  {
    assert forall j: nat :: Goes(l, j) == Goes(m, j) && Acks(l, j) == Acks(m, j);
  }

  predicate AckedWithin(l: Line, tries: nat) {
    exists i: nat :: i < tries && AckedAfter(l, i)
  }

  /** The checksum is sent with success if and only if it goes through, and is acknowledged, within the tries; the
      answers up to then have been used. */
  lemma {:induction false} InsistExactly(l: Line, check: seq<byte>, tries: nat)
    ensures Insist(l, check, tries).1 <==> AckedWithin(l, tries)
    ensures forall i: nat :: i < tries && AckedAfter(l, i) ==> SameAnswers(Insist(l, check, tries).0, Later(l, i + 1))
    decreases tries
  {
    hide AckedAfter;
    if tries > 0 && Goes(l, 0) {
      if Acks(l, 0) {
        AckedAtOnce(l);
        assert AckedAfter(l, 0);
        assert SameAnswers(Acknowledge(Write(l, check).0).0, Later(l, 0 + 1));
      } else {
        var next := Acknowledge(Write(l, check).0).0;
        InsistExactly(next, check, tries - 1);
        forall i: nat ensures AckedAfter(next, i) <==> AckedAfter(l, i + 1) {
          AckedLater(l, i);
          AckedSame(next, Later(l, 1), i);
        }
        NotAtOnce(l);
        if AckedWithin(next, tries - 1) {
          var i: nat :| i < tries - 1 && AckedAfter(next, i);
          assert AckedAfter(l, i + 1);
        }
        if AckedWithin(l, tries) {
          var i: nat :| i < tries && AckedAfter(l, i);
          assert AckedAfter(next, i - 1);
        }
        forall i: nat | i < tries && AckedAfter(l, i) ensures SameAnswers(Insist(l, check, tries).0, Later(l, i + 1)) {
          assert AckedAfter(next, i - 1);
        }
      }
    } else if tries > 0 {
      NotAtAll(l);
    }
  }

  lemma AckedAtOnce(l: Line)
    requires Goes(l, 0) && Acks(l, 0)
    ensures forall i: nat :: AckedAfter(l, i) <==> i == 0
  {
    hide Goes, Acks;
    assert AckedAfter(l, 0);
  }

  lemma NotAtOnce(l: Line)
    requires !Acks(l, 0)
    ensures !AckedAfter(l, 0)
  {
  }

  lemma NotAtAll(l: Line)
    requires !Goes(l, 0)
    ensures forall i: nat :: !AckedAfter(l, i)
  {
    hide Goes, Acks;
  }

  /** Header and data go through, and so does the checksum, which is acknowledged after `i` repetitions. */
  predicate Delivered(l: Line, i: nat) {
    Goes(l, 0) && Goes(l, 1) && AckedAfter(l.(written := l.written + 2), i)
  }

  /** The line after a record whose checksum was acknowledged after `i` repetitions. */
  function Behind(l: Line, i: nat): Line {
    l.(written := l.written + 3 + i, read := l.read + 1 + i)
  }

  /** A record is sent with success if and only if it is delivered within ten tries. */
  lemma TransmitExactly(l: Line, offset: nat, chars: seq<byte>)
    ensures Transmit(l, offset, chars).1 <==> exists i: nat :: i < TRIES && Delivered(l, i)
    ensures forall i: nat :: i < TRIES && Delivered(l, i) ==> SameAnswers(Transmit(l, offset, chars).0, Behind(l, i))
  {
    hide ProgramLine, CheckText, AckedAfter, Insist;
    var line := ProgramLine(|chars| / 2, offset);
    if Goes(l, 0) && Goes(l, 1) {
      var filled := Write(Write(l, line).0, chars).0;
      InsistExactly(filled, CheckText(line[1..] + chars), TRIES);
      forall i: nat ensures AckedAfter(filled, i) <==> Delivered(l, i) {
        AckedSame(filled, l.(written := l.written + 2), i);
      }
    }
  }

  /** From `offset` on, every record of a fill is delivered. */
  ghost predicate Filled(l: Line, offset: nat)
    decreases PAGE_SIZE - offset
  {
    offset >= PAGE_SIZE
    || exists i: nat ::
         && i < TRIES && Delivered(l, i)
         && Filled(Behind(l, i), if PAGE_SIZE - offset > 128 then offset + 128 else PAGE_SIZE)
  }

  lemma DeliveredSame(l: Line, m: Line, i: nat)
    requires SameAnswers(l, m)
    ensures Delivered(l, i) <==> Delivered(m, i)
  {
    AckedSame(l.(written := l.written + 2), m.(written := m.written + 2), i);
  }

  lemma {:induction false} FilledSame(l: Line, m: Line, offset: nat)
    requires SameAnswers(l, m)
    ensures Filled(l, offset) <==> Filled(m, offset)
    decreases PAGE_SIZE - offset
  {
    hide Delivered;
    if offset < PAGE_SIZE {
      forall i: nat ensures Delivered(l, i) <==> Delivered(m, i) {
        DeliveredSame(l, m, i);
      }
      var next := if PAGE_SIZE - offset > 128 then offset + 128 else PAGE_SIZE;
      forall i: nat ensures Filled(Behind(l, i), next) <==> Filled(Behind(m, i), next) {
        FilledSame(Behind(l, i), Behind(m, i), next);
      }
    }
  }

  /** A fill goes through if and only if the device takes and acknowledges all its records. */
  lemma {:induction false} FillExactly(s: State)
    ensures FillPage(s).1 <==> Filled(s.line, s.offset)
    decreases PAGE_SIZE - s.offset
  {
    hide Transmit, Delivered, Hash;
    if s.offset < PAGE_SIZE {
      var bytes := if PAGE_SIZE - s.offset > 128 then 128 else PAGE_SIZE - s.offset;
      RecordGoesOn(s, Filling(bytes));
      TransmitExactly(s.line, s.offset, Filling(bytes));
      var (t, ok) := SendRecord(s, Filling(bytes));
      if ok {
        FillExactly(t);
        forall i: nat | i < TRIES && Delivered(s.line, i)
          ensures Filled(Behind(s.line, i), s.offset + bytes) <==> Filled(t.line, t.offset)
        {
          FilledSame(t.line, Behind(s.line, i), t.offset);
        }
      }
    }
  }

  // ----- the bytes on the line ----------------------------------------------------------------------

  function Repeated(s: seq<byte>, n: nat): seq<byte> {
    if n == 0 then [] else Repeated(s, n - 1) + s
  }

  /** The text of a command whose checksum is sent `n` times. */
  function TextOf(c: Command, n: nat): seq<byte> {
    match c
    case SelectPage(number) => [58] + SelectBody(number) + CheckText(SelectBody(number))
    case Begin(first, last) => [58] + BeginBody(first, last) + CheckText(BeginBody(first, last))
    case Program(offset, chars) =>
      var line := ProgramLine(|chars| / 2, offset);
      line + chars + Repeated(CheckText(line[1..] + chars), n)
  }

  /** The bytes are the texts of the commands in order, each record's checksum sent one to ten times. */
  ghost predicate Spoken(bytes: seq<byte>, log: seq<Command>)
    decreases |log|, 0
  {
    if log == [] then bytes == []
    else exists before: seq<byte>, n: nat :: SpokenLast(bytes, log, before, n)
  }

  ghost predicate SpokenLast(bytes: seq<byte>, log: seq<Command>, before: seq<byte>, n: nat)
    requires log != []
    decreases |log| - 1, 1
  {
    1 <= n <= TRIES && bytes == before + TextOf(log[|log| - 1], n) && Spoken(before, log[..|log| - 1])
  }

  lemma SpokenAppend(bytes: seq<byte>, log: seq<Command>, c: Command, n: nat)
    requires Spoken(bytes, log) && 1 <= n <= TRIES
    ensures Spoken(bytes + TextOf(c, n), log + [c])
  {
    hide TextOf;
    LogAppend(log, c);
    assert SpokenLast(bytes + TextOf(c, n), log + [c], bytes, n);
  }

  lemma InsistOnce(l: Line, check: seq<byte>, tries: nat)
    requires Insist(l, check, tries).1
    ensures tries > 0
    ensures var (heard, acked) := Acknowledge(Write(l, check).0);
      heard.bytes == l.bytes + check && Insist(l, check, tries) == if acked then (heard, true)
          else Insist(heard, check, tries - 1)
  {
  }

  lemma {:induction false} InsistSpoken(l: Line, check: seq<byte>, tries: nat) returns (n: nat)
    requires Insist(l, check, tries).1
    ensures 1 <= n <= tries && Insist(l, check, tries).0.bytes == l.bytes + Repeated(check, n)
    decreases tries
  {
    hide Insist, Write, Repeated;
    InsistOnce(l, check, tries);
    var (heard, acked) := Acknowledge(Write(l, check).0);
    if acked {
      n := 1;
      RepeatedOnce(check);
    } else {
      var k := InsistSpoken(heard, check, tries - 1);
      n := k + 1;
      RepeatedFront(check, k);
      assert l.bytes + check + Repeated(check, k) == l.bytes + (check + Repeated(check, k));
    }
  }

  lemma RepeatedOnce(s: seq<byte>)
    ensures Repeated(s, 1) == s
  {
    assert Repeated(s, 0) + s == s;
  }

  lemma {:induction false} RepeatedFront(s: seq<byte>, n: nat)
    ensures Repeated(s, n + 1) == s + Repeated(s, n)
  {
    if n == 0 {
      assert Repeated(s, 1) == Repeated(s, 0) + s;
    } else {
      RepeatedFront(s, n - 1);
      assert s + (Repeated(s, n - 1) + s) == s + Repeated(s, n - 1) + s;
    }
  }

  lemma TransmitSpoken(l: Line, offset: nat, chars: seq<byte>) returns (n: nat)
    requires Transmit(l, offset, chars).1
    ensures 1 <= n <= TRIES && Transmit(l, offset, chars).0.bytes == l.bytes + TextOf(Program(offset, chars), n)
  {
    hide Insist, CheckText, ProgramLine, Repeated;
    var line := ProgramLine(|chars| / 2, offset);
    var filled := Write(Write(l, line).0, chars).0;
    var check := CheckText(line[1..] + chars);
    n := InsistSpoken(filled, check, TRIES);
    assert l.bytes + line + chars + Repeated(check, n) == l.bytes + (line + chars + Repeated(check, n));
  }

  lemma RecordSpoken(s: State, chars: seq<byte>)
    requires Spoken(s.line.bytes, s.log) && SendRecord(s, chars).1
    ensures var t := SendRecord(s, chars).0; Spoken(t.line.bytes, t.log)
  {
    hide Transmit, Spoken, TextOf, Hash;
    if |chars| / 2 > 0 {
      var n := TransmitSpoken(s.line, s.offset, chars);
      SpokenAppend(s.line.bytes, s.log, Program(s.offset, chars), n);
    }
  }

  lemma UploadSpoken(s: State, n: nat)
    requires n <= |s.output| && Spoken(s.line.bytes, s.log) && UploadHex(s, n).1 == Ok
    ensures var t := UploadHex(s, n).0; Spoken(t.line.bytes, t.log)
  {
    hide SendRecord, Spoken;
    var even := n / 2 * 2;
    if 0 < n {
      if s.offset + even / 2 <= PAGE_SIZE {
        RecordSpoken(s, s.output[..even]);
      } else {
        var k := 2 * (PAGE_SIZE - s.offset);
        RecordSpoken(s, s.output[..k]);
        RecordSpoken(SendRecord(s, s.output[..k]).0, s.output[k..even]);
      }
    }
  }

  lemma {:induction false} FillSpoken(s: State)
    requires Spoken(s.line.bytes, s.log) && FillPage(s).1
    ensures var t := FillPage(s).0; Spoken(t.line.bytes, t.log)
    decreases PAGE_SIZE - s.offset
  {
    hide SendRecord, Spoken;
    if s.offset < PAGE_SIZE {
      var bytes := if PAGE_SIZE - s.offset > 128 then 128 else PAGE_SIZE - s.offset;
      RecordGoesOn(s, Filling(bytes));
      RecordSpoken(s, Filling(bytes));
      FillSpoken(SendRecord(s, Filling(bytes)).0);
    }
  }

  lemma NewPageSpoken(s: State, number: nat)
    requires Spoken(s.line.bytes, s.log) && NewPage(s, number).1
    ensures var t := NewPage(s, number).0; Spoken(t.line.bytes, t.log)
  {
    hide Spoken, CheckText, SelectBody, BeginBody;
    var select, begin := SelectPage(number), Begin(0, PAGE_SIZE - 1);
    SpokenAppend(s.line.bytes, s.log, select, 1);
    SpokenAppend(s.line.bytes + TextOf(select, 1), s.log + [select], begin, 1);
    assert s.line.bytes + ([58] + SelectBody(number) + CheckText(SelectBody(number)))
        == s.line.bytes + TextOf(select, 1);
  }

  lemma FinishSpoken(s: State, always: bool)
    requires Spoken(s.line.bytes, s.log)
    ensures var r := FinishPage(s, always); r.outcome == Ok && r.fills ==> Spoken(r.state.line.bytes, r.state.log)
  {
    hide UploadHex, FillPage, Spoken;
    var (t, o) := UploadHex(s, |s.output|);
    if o == Ok {
      UploadSpoken(s, |s.output|);
      if FillPage(t).1 {
        FillSpoken(t);
      }
    }
  }

  lemma LineSpoken(s: State, r: HexRecord)
    requires Spoken(s.line.bytes, s.log)
    ensures var res := ProcessLine(s, r); res.outcome == Ok && res.fills ==> Spoken(res.state.line.bytes, res.state.log)
  {
    hide UploadHex, FinishPage, NewPage, Spoken;
    match r
    case Data(addr, chars) =>
      var t := Pad(s, addr).0;
      var u := t.(output := t.output + chars, last := addr + |chars| / 2);
      if |u.output| >= MAX_SEND_COUNT && UploadHex(u, MAX_SEND_COUNT).1 == Ok {
        UploadSpoken(u, MAX_SEND_COUNT);
      }
    case Page(number) =>
      if number > 0 {
        var t := s.(page := number, last := 0);
        FinishSpoken(t, true);
        var done := FinishPage(t, true);
        if done.outcome == Ok && done.fills && NewPage(done.state, number).1 {
          NewPageSpoken(done.state, number);
        }
      }
    case End => FinishSpoken(s, false);
    case Other =>
  }

  /** A run that succeeds with every fill has sent the texts of its commands in order, and nothing else. */
  lemma {:induction false} ProcessSpoken(s: State, lines: seq<seq<byte>>)
    requires Spoken(s.line.bytes, s.log)
    ensures var r := Process(s, lines).0; r.outcome == Ok && r.fills ==> Spoken(r.state.line.bytes, r.state.log)
    decreases |lines|
  {
    hide ProcessLine, Spoken, Parsed;
    if lines != [] && !EndsFile(lines[0]) {
      var r := ProcessLine(s, Parsed(lines[0]));
      LineSpoken(s, Parsed(lines[0]));
      if r.outcome == Ok && r.fills {
        ProcessSpoken(r.state, lines[1..]);
      }
    }
  }

  /** An upload that succeeds with every fill has put nothing else on a line that carried nothing before. */
  lemma UploadIsSpoken(appOffset: nat, line: Line, lines: seq<seq<byte>>)
    requires line.bytes == []
    ensures var r := Process(Fresh(appOffset, line), lines).0;
      r.outcome == Ok && r.fills ==> Spoken(r.state.line.bytes, r.state.log)
  {
    assert Spoken([], []);
    hide Process, Spoken;
    ProcessSpoken(Fresh(appOffset, line), lines);
  }
}
