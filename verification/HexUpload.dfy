/** The hex uploader of the ISB bootloader as a function of the file and of the device's answers: data lines are
    buffered, gaps filled, and sent in records of at most 255 bytes. */
module HexUpload {
  import opened Bytes
  import opened HexImage
  import P = Protocols

  const MAX_SEND_COUNT := 510
  const HEX_BUFFER_SIZE := 1024
  const OUTPUT_SIZE := 2048
  const WORD := 0x1_0000_0000

  // ----- the running hash and the record checksum ---------------------------------------------

  const HASH_START := 5381

  function HashAdd(h: nat, c: byte): (r: nat)
    ensures r < WORD
  {
    (33 * h + c) % WORD
  }

  /** The hash after the characters of `s`, in 32-bit arithmetic. */
  function Hash(h: nat, s: seq<byte>): nat {
    if s == [] then h else HashAdd(Hash(h, s[..|s| - 1]), s[|s| - 1])
  }

  lemma {:induction false} HashSplits(h: nat, s: seq<byte>, t: seq<byte>)
    ensures Hash(h, s + t) == Hash(Hash(h, s), t)
    decreases |t|
  {
    hide HashAdd;
    if t == [] {
      assert s + t == s;
    } else {
      assert (s + t)[..|s + t| - 1] == s + t[..|t| - 1];
      HashSplits(h, s, t[..|t| - 1]);
    }
  }

  /** Upper-case hex digit. */
  function Upper(d: nat): (c: byte)
    requires d < 16
    ensures P.HexDigit(c) == Some(d)
  {
    if d < 10 then 48 + d else 55 + d
  }

  /** A number in upper-case hex with at least `width` digits. */
  function HexText(n: nat, width: nat): (s: seq<byte>)
    ensures |s| >= width && |s| >= 1
    decreases n, width
  {
    if n < 16 && width <= 1 then [Upper(n)]
    else HexText(n / 16, if width > 0 then width - 1 else 0) + [Upper(n % 16)]
  }

  const SELECT_PAGE: seq<byte> := [48, 52, 48, 48, 48, 48, 48, 54, 48, 51, 48, 49]    // 040000060301
  const BEGIN_PROGRAM: seq<byte> := [48, 53, 48, 48, 48, 48, 48, 49, 48, 48]           // 0500000100

  /** Start of record, byte count, offset and record type; nine characters are sent. */
  function ProgramLine(byteCount: nat, offset: nat): (s: seq<byte>)
    ensures |s| == 9
  {
    ([58] + HexText(byteCount, 2) + HexText(offset, 4) + [48, 48])[..9]
  }

  /** Bitwise or. */
  function Or(a: nat, b: nat): nat {
    if a == 0 then b
    else if b == 0 then a
    else (if a % 2 == 1 || b % 2 == 1 then 1 else 0) + 2 * Or(a / 2, b / 2)
  }

  /** The value of a hex character, by way of its lower-case form. */
  function Nibble(c: byte): nat {
    var d: nat := if c / 32 % 2 == 1 then c else c + 32;
    if d <= 57 then (d + 0xD0) % 256 else (d + 0xA9) % 256
  }

  function PairByte(c1: byte, c2: byte): nat {
    Or(Nibble(c1) * 16 % 256, Nibble(c2)) % 256
  }

  lemma NibbleOfDigit(c: byte)
    requires P.HexDigit(c).Some?
    ensures Nibble(c) == P.HexDigit(c).value < 16
  {
  }

  lemma OrDigits(h: nat, l: nat)
    requires l < 16
    ensures Or(16 * h, l) == 16 * h + l
  {
    hide Or;
    var l1, l2, l3 := l / 2, l / 2 / 2, l / 2 / 2 / 2;
    OrEven(8 * h, l);
    OrEven(4 * h, l1);
    OrEven(2 * h, l2);
    OrEven(h, l3);
    OrZero(h);
    assert l3 / 2 == 0;
  }

  lemma OrZero(h: nat)
    ensures Or(h, 0) == h
  {
  }

  lemma OrEven(a: nat, b: nat)
    ensures Or(2 * a, b) == b % 2 + 2 * Or(a, b / 2)
  {
  }

  /** Two hex characters stand for the byte they spell. */
  lemma PairOfDigits(c1: byte, c2: byte)
    requires P.HexDigit(c1).Some? && P.HexDigit(c2).Some?
    ensures PairByte(c1, c2) == 16 * P.HexDigit(c1).value + P.HexDigit(c2).value
  {
    hide Nibble, P.HexDigit, Or;
    NibbleOfDigit(c1);
    NibbleOfDigit(c2);
    var h, l := Nibble(c1), Nibble(c2);
    assert h * 16 % 256 == 16 * h;
    OrDigits(h, l);
  }

  /** The sum of the bytes spelled by pairs of characters. */
  function SumPairs(s: seq<byte>): nat {
    if |s| < 2 then 0 else SumPairs(s[..|s| - 2]) + PairByte(s[|s| - 2], s[|s| - 1])
  }

  lemma {:induction false} SumPairsSplits(s: seq<byte>, t: seq<byte>)
    requires |s| % 2 == 0 && |t| % 2 == 0
    ensures SumPairs(s + t) == SumPairs(s) + SumPairs(t)
    decreases |t|
  {
    hide PairByte;
    if t == [] {
      assert s + t == s;
    } else {
      assert (s + t)[..|s + t| - 2] == s + t[..|t| - 2];
      SumPairsSplits(s, t[..|t| - 2]);
    }
  }

  /** The two's complement of the sum, in a byte. */
  function Complement(sum: nat): (c: byte) {
    (256 - sum % 256) % 256
  }

  /** A record as it goes out, with its checksum. */
  function RecordText(byteCount: nat, offset: nat, chars: seq<byte>): seq<byte> {
    var line := ProgramLine(byteCount, offset) + chars;
    line + HexText(Complement(SumPairs(line[1..])), 2)
  }

  lemma TwoDigits(n: nat)
    requires n < 256
    ensures HexText(n, 2) == [Upper(n / 16), Upper(n % 16)]
  {
  }

  /** The bytes of a record add up to zero in a byte, its checksum included. */
  lemma RecordSumsToZero(byteCount: nat, offset: nat, chars: seq<byte>)
    requires |chars| % 2 == 0
    ensures SumPairs(RecordText(byteCount, offset, chars)[1..]) % 256 == 0
  {
    hide SumPairs, PairByte, HexText, Upper;
    var line := ProgramLine(byteCount, offset) + chars;
    var c: nat := Complement(SumPairs(line[1..]));
    TwoDigits(c);
    var tail := [Upper(c / 16), Upper(c % 16)];
    assert RecordText(byteCount, offset, chars)[1..] == line[1..] + tail;
    SumPairsSplits(line[1..], tail);
    SumOfPair(Upper(c / 16), Upper(c % 16));
    PairOfDigits(Upper(c / 16), Upper(c % 16));
    UpperValue(c / 16);
    UpperValue(c % 16);
    Closes(SumPairs(line[1..]));
  }

  lemma UpperValue(d: nat)
    requires d < 16
    ensures P.HexDigit(Upper(d)) == Some(d)
  {
  }

  lemma AddressText(n: nat)
    requires n < PAGE_SIZE
    ensures HexText(n, 4) == [Upper(n / 4096), Upper(n / 256 % 16), Upper(n / 16 % 16), Upper(n % 16)]
  {
    hide Upper;
    assert n / 16 / 16 == n / 256 && n / 256 / 16 == n / 4096 && n / 4096 < 16;
    assert HexText(n / 4096, 1) == [Upper(n / 4096)];
    assert HexText(n / 256, 2) == [Upper(n / 4096)] + [Upper(n / 256 % 16)];
    assert HexText(n / 16, 3) == HexText(n / 256, 2) + [Upper(n / 16 % 16)];
  }

  /** The address in front of a line is read back as it was printed. */
  lemma AddressRoundTrip(n: nat)
    requires n < PAGE_SIZE
    ensures |HexText(n, 4)| == 4 && Strtol(HexText(n, 4)) == n
  {
    hide HexText, Strtol, P.HexDigit;
    AddressText(n);
    UpperValue(n / 4096);
    UpperValue(n / 256 % 16);
    UpperValue(n / 16 % 16);
    UpperValue(n % 16);
    FourDigits(Upper(n / 4096), Upper(n / 256 % 16), Upper(n / 16 % 16), Upper(n % 16));
    hide Upper;
    Positions(n);
  }

  lemma Positions(n: nat)
    ensures 4096 * (n / 4096) + 256 * (n / 256 % 16) + 16 * (n / 16 % 16) + n % 16 == n
  {
    var a, b, c := n / 16, n / 16 / 16, n / 16 / 16 / 16;
    assert n == 16 * a + n % 16 && a == 16 * b + a % 16 && b == 16 * c + b % 16;
    assert n / 256 == b && n / 4096 == c;
  }

  lemma Closes(sum: nat)
    ensures (sum + Complement(sum)) % 256 == 0
  {
  }

  lemma SumOfPair(a: byte, b: byte)
    ensures SumPairs([a, b]) == PairByte(a, b)
  {
    hide PairByte;
    assert [a, b][..0] == [];
  }

  method Checksum(sum: nat, text: seq<byte>) returns (r: nat)
    requires |text| % 2 == 0
    ensures r == sum + SumPairs(text)
  {
    hide PairByte;
    r := sum;
    var i := 0;
    while i < |text|
      invariant i <= |text| && i % 2 == 0 && r == sum + SumPairs(text[..i])
    {
      assert text[..i + 2][..i] == text[..i];
      r := r + PairByte(text[i], text[i + 1]);
      i := i + 2;
    }
    assert text[..i] == text;
  }

  method HashOf(start: nat, chars: seq<byte>) returns (hash: nat)
    ensures hash == Hash(start, chars)
  {
    hide HashAdd;
    hash := start;
    for i := 0 to |chars|
      invariant hash == Hash(start, chars[..i])
    {
      assert chars[..i + 1][..i] == chars[..i];
      hash := HashAdd(hash, chars[i]);
    }
    assert chars[..|chars|] == chars;
  }

  // ----- the device ---------------------------------------------------------------------------

  /** The serial line: whether each write goes through, what each read returns, and the bytes that went out. */
  datatype Line = Line(writes: nat -> bool, replies: nat -> seq<byte>, written: nat, read: nat, bytes: seq<byte>)

  const ACKNOWLEDGED: seq<byte> := [46, 13, 10]

  function Write(l: Line, text: seq<byte>): (Line, bool) {
    var ok := l.writes(l.written);
    (l.(written := l.written + 1, bytes := if ok then l.bytes + text else l.bytes), ok)
  }

  /** Whether the next reply is the acknowledgement. */
  function Acknowledge(l: Line): (Line, bool) {
    (l.(read := l.read + 1), l.replies(l.read) == ACKNOWLEDGED)
  }

  /** Sends the checksum until it is acknowledged, at most `tries` times. */
  function Insist(l: Line, check: seq<byte>, tries: nat): (Line, bool)
    decreases tries
  {
    if tries == 0 then (l, false)
    else
      var (written, ok) := Write(l, check);
      if !ok then (written, false)
      else
        var (heard, acked) := Acknowledge(written);
        if acked then (heard, true) else Insist(heard, check, tries - 1)
  }

  const TRIES := 10

  /** The two hex characters that close a record. */
  function CheckText(body: seq<byte>): seq<byte> {
    HexText(Complement(SumPairs(body)), 2)
  }

  /** Sends header and data of a record, then its checksum until it is acknowledged. */
  function Transmit(l: Line, offset: nat, chars: seq<byte>): (Line, bool) {
    var line := ProgramLine(|chars| / 2, offset);
    var (headed, ok) := Write(l, line);
    if !ok then (headed, false)
    else
      var (filled, done) := Write(headed, chars);
      if !done then (filled, false) else Insist(filled, CheckText(line[1..] + chars), TRIES)
  }

  /** Sends a command record and waits for its acknowledgement. */
  function Ask(l: Line, body: seq<byte>): (Line, bool) {
    var (written, ok) := Write(l, [58] + body + CheckText(body));
    if ok then Acknowledge(written) else (written, false)
  }

  // ----- the uploader -------------------------------------------------------------------------

  datatype Command =
    | SelectPage(page: nat)
    | Begin(first: nat, last: nat)
    | Program(offset: nat, chars: seq<byte>)

  /** How a step of the upload ends. `Stray` is where the original goes on beyond its buffer or beyond the page. */
  datatype Outcome = Ok | Error | Stray

  /** The uploader between two lines: the characters buffered, the place in the page, and the commands acknowledged. */
  datatype State = State(
    appOffset: nat,
    line: Line,
    output: seq<byte>,
    page: int,
    offset: nat,
    last: int,              // where the next line is expected
    total: nat,
    hash: nat,
    log: seq<Command>)

  function Fresh(appOffset: nat, line: Line): State {
    State(appOffset, line, [], -1, appOffset, appOffset, appOffset, HASH_START, [])
  }

  /** Sends one record; an unacknowledged one leaves the place, the count and the hash as they were. */
  function SendRecord(s: State, chars: seq<byte>): (State, bool) {
    if |chars| / 2 == 0 then (s, true)
    else
      var (line, ok) := Transmit(s.line, s.offset, chars);
      if !ok then (s.(line := line), false)
      else (s.(line := line, offset := s.offset + |chars| / 2, total := s.total + |chars| / 2,
               hash := Hash(s.hash, chars), log := s.log + [Program(s.offset, chars)]), true)
  }

  /** Whether all is well so far. */
  function Judged(ok: bool): Outcome {
    if ok then Ok else Error
  }

  /** Sends the first `n` characters of the buffer, across the end of the page if need be; a last odd one is dropped. */
  function UploadHex(s: State, n: nat): (State, Outcome)
    requires n <= |s.output|
  {
    var even := n / 2 * 2;
    if n > MAX_SEND_COUNT then (s, Error)
    else if n == 0 then (s, Ok)
    else if s.offset + even / 2 <= PAGE_SIZE then
      var (t, ok) := SendRecord(s, s.output[..even]);
      (t, Judged(ok))
    else if s.offset > PAGE_SIZE then (s, Stray)
    else
      var k := 2 * (PAGE_SIZE - s.offset);
      var (t, ok) := SendRecord(s, s.output[..k]);
      if !ok then (t, Error)
      else
        var (u, done) := SendRecord(t, s.output[k..even]);
        (u, Judged(done))
  }

  lemma RecordGoesOn(s: State, chars: seq<byte>)
    ensures SendRecord(s, chars).1 ==> SendRecord(s, chars).0.offset == s.offset + |chars| / 2
  {
  }

  /** Fills the rest of the page, 128 bytes at a time; says whether every record went through. The caller is not
      told. */
  function FillPage(s: State): (State, bool)
    decreases PAGE_SIZE - s.offset
  {
    if s.offset >= PAGE_SIZE then (s, true)
    else
      var bytes := if PAGE_SIZE - s.offset > 128 then 128 else PAGE_SIZE - s.offset;
      RecordGoesOn(s, Filling(bytes));
      var (t, ok) := SendRecord(s, Filling(bytes));
      if ok then FillPage(t) else (t, false)
  }

  /** Fills the gap before a line at `addr`. The check counts a character for every byte of the gap, the loop writes
      two. */
  function Pad(s: State, addr: int): (State, Outcome) {
    var gap := addr - s.last;
    if gap <= 0 then (s, Ok)
    else if |s.output| + gap >= OUTPUT_SIZE then (s, Error)
    else if |s.output| + 2 * gap > OUTPUT_SIZE then (s, Stray)
    else (s.(output := s.output + Filling(gap)), Ok)
  }

  /** Sends a full record if there is one, and keeps the rest. */
  function SendFull(s: State): (State, Outcome) {
    if |s.output| < MAX_SEND_COUNT then (s, Ok)
    else
      var (t, o) := UploadHex(s, MAX_SEND_COUNT);
      if o != Ok then (t, o)
      else
        var rest := s.output[MAX_SEND_COUNT..];
        if |rest| > HEX_BUFFER_SIZE then (t, Error) else (t.(output := rest), Ok)
  }

  /** A data line. */
  function ProcessData(s: State, addr: int, chars: seq<byte>): (State, Outcome) {
    var (t, o) := Pad(s, addr);
    if o != Ok then (t, o)
    else if |t.output| + |chars| >= OUTPUT_SIZE then (t, Error)
    else SendFull(t.(output := t.output + chars, last := addr + |chars| / 2))
  }

  /** What a line makes of the uploader, how it ends, and whether every fill went through. */
  datatype Result = Result(state: State, outcome: Outcome, fills: bool)

  /** Sends what is buffered and fills the page, if anything is on it or in any case. */
  function FinishPage(s: State, always: bool): Result {
    var (t, o) := UploadHex(s, |s.output|);
    if o != Ok then Result(t, o, true)
    else
      var (u, ok) := if always || t.offset != 0 then FillPage(t) else (t, true);
      Result(u.(output := []), Ok, ok)
  }

  function SelectBody(number: nat): seq<byte> {
    SELECT_PAGE + HexText(number, 4)
  }

  function BeginBody(first: nat, last: nat): seq<byte> {
    BEGIN_PROGRAM + HexText(first, 4) + HexText(last, 4)
  }

  /** Selects a page and begins to write to it. */
  function NewPage(s: State, number: nat): (State, bool) {
    var (selected, ok) := Ask(s.line, SelectBody(number));
    if !ok then (s.(line := selected, offset := 0), false)
    else
      var (begun, done) := Ask(selected, BeginBody(0, PAGE_SIZE - 1));
      if !done then (s.(line := begun, offset := 0), false)
      else (s.(line := begun, offset := 0, log := s.log + [SelectPage(number)] + [Begin(0, PAGE_SIZE - 1)]), true)
  }

  /** A page record: the page before is finished, and the new page selected and begun. */
  function ProcessPage(s: State, number: nat): Result {
    if number == 0 then Result(s.(page := 0, last := s.offset), Ok, true)
    else
      var t := s.(page := number, last := 0);
      if |t.output| > HEX_BUFFER_SIZE then Result(t, Error, true)
      else
        var r := FinishPage(t, true);
        if r.outcome != Ok then r
        else
          var (u, ok) := NewPage(r.state, number);
          Result(u, Judged(ok), r.fills)
  }

  function ProcessLine(s: State, r: HexRecord): Result {
    match r
    case Data(addr, chars) => var (t, o) := ProcessData(s, addr, chars); Result(t, o, true)
    case Page(number) => ProcessPage(s, number)
    case End => FinishPage(s, false)
    case Other => Result(s, Ok, true)
  }

  /** The lines of a file, up to the one taken for its end: the result, and the number of lines used. */
  function Process(s: State, lines: seq<seq<byte>>): (Result, nat)
    decreases |lines|
  {
    if lines == [] || EndsFile(lines[0]) then (Result(s, Ok, true), 0)
    else
      var r := ProcessLine(s, Parsed(lines[0]));
      if r.outcome != Ok then (r, 0)
      else
        var (rest, used) := Process(r.state, lines[1..]);
        (rest.(fills := r.fills && rest.fills), used + 1)
  }
}
