/** The hex uploader as it runs: a device, an output buffer of 2048 characters, and the loop over the lines of the
    file. */
module HexUploader {
  import opened Bytes
  import opened HexImage
  import H = HexUpload

  /** What a run makes of the whole file when it has used `used` lines and the rest ends as `r` says. */
  ghost function Onward(filled: bool, used: nat, r: (H.Result, nat)): (H.Result, nat) {
    (r.0.(fills := filled && r.0.fills), used + r.1)
  }

  class Device {
    const writes: nat -> bool
    const replies: nat -> seq<byte>
    var written: nat
    var read: nat
    var bytes: seq<byte>

    ghost function Model(): H.Line
      reads this
    {
      H.Line(writes, replies, written, read, bytes)
    }

    constructor (writes: nat -> bool, replies: nat -> seq<byte>)
      ensures Model() == H.Line(writes, replies, 0, 0, [])
    {
      this.writes, this.replies := writes, replies;
      written, read, bytes := 0, 0, [];
    }

    method Write(text: seq<byte>) returns (ok: bool)
      modifies this
      ensures (Model(), ok) == H.Write(old(Model()), text)
    {
      ok := writes(written);
      written := written + 1;
      if ok {
        bytes := bytes + text;
      }
    }

    /** Whether the next reply is the acknowledgement. */
    method Acknowledged() returns (ok: bool)
      modifies this
      ensures (Model(), ok) == H.Acknowledge(old(Model()))
    {
      ok := replies(read) == H.ACKNOWLEDGED;
      read := read + 1;
    }

    /** A command record goes out with its checksum and is acknowledged. */
    method Ask(body: seq<byte>) returns (ok: bool)
      requires |body| % 2 == 0
      modifies this
      ensures (Model(), ok) == H.Ask(old(Model()), body)
    {
      hide H.SumPairs, H.HexText;
      var sum := H.Checksum(0, body);
      ok := Write([58] + body + H.HexText(H.Complement(sum), 2));
      if ok {
        ok := Acknowledged();
      }
    }

    /** Writes the characters of a record, then its checksum until it is acknowledged, at most ten times. */
    method Transmit(offset: nat, chars: seq<byte>) returns (ok: bool)
      requires |chars| % 2 == 0
      modifies this
      ensures (Model(), ok) == H.Transmit(old(Model()), offset, chars)
    {
      hide H.SumPairs, H.HexText, H.ProgramLine, H.Write, H.Insist, H.Complement;
      var line := H.ProgramLine(|chars| / 2, offset);
      ok := Write(line);
      if !ok {
        return;
      }
      var sum := H.Checksum(0, line[1..]);
      ok := Write(chars);
      if !ok {
        return;
      }
      sum := H.Checksum(sum, chars);
      H.SumPairsSplits(line[1..], chars);
      ok := SendChecksum(H.HexText(H.Complement(sum), 2));
    }

    method SendChecksum(check: seq<byte>) returns (ok: bool)
      modifies this
      ensures (Model(), ok) == H.Insist(old(Model()), check, H.TRIES)
    {
      for i := 0 to H.TRIES
        invariant H.Insist(old(Model()), check, H.TRIES) == H.Insist(Model(), check, H.TRIES - i)
      {
        ok := Write(check);
        if !ok {
          return;
        }
        ok := Acknowledged();
        if ok {
          return;
        }
      }
      return false;
    }
  }

  lemma BodiesAreEven(number: nat)
    requires number < PAGE_SIZE
    ensures |H.SelectBody(number)| % 2 == 0 && |H.BeginBody(0, PAGE_SIZE - 1)| % 2 == 0
  {
    hide H.HexText, H.Upper;
    H.AddressText(number);
    H.AddressText(0);
    H.AddressText(PAGE_SIZE - 1);
  }

  lemma PageIsDigit(line: seq<byte>)
    ensures Parsed(line).Page? ==> Parsed(line).number < 16
  {
  }

  class Uploader {
    const dev: Device
    const appOffset: nat
    const output: array<byte>
    var outputSize: nat
    var currentPage: int
    var currentOffset: nat
    var lastSubOffset: int
    var totalBytes: nat
    var verifyCheckSum: nat
    ghost var log: seq<H.Command>    // the commands acknowledged so far

    ghost predicate Valid()
      reads this
    {
      output.Length == H.OUTPUT_SIZE && outputSize <= H.OUTPUT_SIZE
    }

    ghost function Model(): H.State
      requires Valid()
      reads this, dev, output
    {
      H.State(appOffset, dev.Model(), output[..outputSize], currentPage, currentOffset, lastSubOffset, totalBytes,
          verifyCheckSum, log)
    }

    constructor (dev: Device, appOffset: nat)
      ensures Valid() && fresh(output) && this.dev == dev && this.appOffset == appOffset
      ensures Model() == H.Fresh(appOffset, dev.Model())
    {
      this.dev, this.appOffset := dev, appOffset;
      output := new byte[H.OUTPUT_SIZE];
      outputSize, currentPage, currentOffset, lastSubOffset, totalBytes := 0, -1, appOffset, appOffset, appOffset;
      verifyCheckSum := H.HASH_START;
      log := [];
    }

    /** Sends one record and waits for its acknowledgement. */
    method UploadHexPage(hexData: seq<byte>, byteCount: nat) returns (ok: bool)
      requires Valid() && |hexData| >= 2 * byteCount
      modifies this`currentOffset, this`totalBytes, this`verifyCheckSum, this`log, dev
      ensures (Model(), ok) == H.SendRecord(old(Model()), hexData[..2 * byteCount])
    {
      hide H.Transmit, H.Hash;
      if byteCount == 0 {
        return true;
      }
      var chars := hexData[..2 * byteCount];
      ok := dev.Transmit(currentOffset, chars);
      if ok {
        var hash := H.HashOf(verifyCheckSum, chars);
        log := log + [H.Program(currentOffset, chars)];
        totalBytes := totalBytes + byteCount;
        currentOffset := currentOffset + byteCount;
        verifyCheckSum := hash;
      }
    }

    /** Sends the first characters of the buffer, across the end of the page if need be. */
    method UploadHex(charCount: nat) returns (o: H.Outcome)
      requires Valid() && charCount <= outputSize
      modifies this`currentOffset, this`totalBytes, this`verifyCheckSum, this`log, dev
      ensures (Model(), o) == H.UploadHex(old(Model()), charCount)
    {
      hide H.SendRecord;
      if charCount > H.MAX_SEND_COUNT {
        return H.Error;
      }
      if charCount == 0 {
        return H.Ok;
      }
      var hexData, count := output[..charCount], charCount;
      ghost var all := output[..outputSize];
      var ok := true;
      if currentOffset + charCount / 2 > PAGE_SIZE {
        if currentOffset > PAGE_SIZE {
          return H.Stray;
        }
        var pageByteCount := PAGE_SIZE - currentOffset;
        assert hexData[..2 * pageByteCount] == all[..2 * pageByteCount];
        ok := UploadHexPage(hexData, pageByteCount);
        if !ok {
          return H.Error;
        }
        hexData, count := hexData[2 * pageByteCount..], count - 2 * pageByteCount;
        assert hexData[..2 * (count / 2)] == all[2 * pageByteCount..charCount / 2 * 2];
      } else {
        assert hexData[..2 * (count / 2)] == all[..charCount / 2 * 2];
      }
      ok := UploadHexPage(hexData, count / 2);
      return H.Judged(ok);
    }

    /** Fills the rest of the page, 128 bytes at a time. Whether that went through is not reported. */
    method FillCurrentPage() returns (ghost filled: bool)
      requires Valid()
      modifies this`currentOffset, this`totalBytes, this`verifyCheckSum, this`log, dev
      ensures (Model(), filled) == H.FillPage(old(Model()))
    {
      hide H.SendRecord;
      while currentOffset < PAGE_SIZE
        invariant H.FillPage(old(Model())) == H.FillPage(Model())
        decreases PAGE_SIZE - currentOffset
      {
        var bytes := if PAGE_SIZE - currentOffset > 128 then 128 else PAGE_SIZE - currentOffset;
        H.RecordGoesOn(Model(), Filling(bytes));
        assert Filling(bytes)[..2 * bytes] == Filling(bytes);
        var ok := UploadHexPage(Filling(bytes), bytes);
        if !ok {
          return false;
        }
      }
      return true;
    }

    /** Fills the gap between the last line and this one. The check counts a character for every byte of the gap, the
        loop writes two. */
    method Pad(addr: int) returns (o: H.Outcome)
      requires Valid()
      modifies this`outputSize, output
      ensures Valid() && (Model(), o) == H.Pad(old(Model()), addr)
    {
      if addr <= lastSubOffset {
        return H.Ok;
      }
      var pad := addr - lastSubOffset;
      if outputSize + pad >= H.OUTPUT_SIZE {
        return H.Error;
      }
      if outputSize + 2 * pad > H.OUTPUT_SIZE {
        return H.Stray;
      }
      Append(Filling(pad));
      return H.Ok;
    }

    /** Puts characters behind those buffered. */
    method Append(chars: seq<byte>)
      requires Valid() && outputSize + |chars| <= H.OUTPUT_SIZE
      modifies this`outputSize, output
      ensures Valid() && output[..outputSize] == old(output[..outputSize]) + chars
    {
      for i := 0 to |chars|
        invariant Valid() && outputSize == old(outputSize) + i
        invariant forall k :: 0 <= k < i ==> output[old(outputSize) + k] == chars[k]
        invariant forall k :: 0 <= k < old(outputSize) ==> output[k] == old(output[k])
      {
        output[outputSize] := chars[i];
        outputSize := outputSize + 1;
      }
    }

    /** Sends a full record if there is one, and moves what is left over to the front. */
    method SendFull() returns (o: H.Outcome)
      requires Valid()
      modifies this`outputSize, this`currentOffset, this`totalBytes, this`verifyCheckSum, this`log, dev, output
      ensures Valid() && (Model(), o) == H.SendFull(old(Model()))
    {
      hide H.UploadHex;
      ghost var before := Model();
      if outputSize < H.MAX_SEND_COUNT {
        return H.Ok;
      }
      o := UploadHex(H.MAX_SEND_COUNT);
      assert Model().output == before.output;
      if o != H.Ok {
        return;
      }
      var left := outputSize - H.MAX_SEND_COUNT;
      if left > H.HEX_BUFFER_SIZE {
        return H.Error;
      }
      MoveToFront();
    }

    method MoveToFront()
      requires Valid() && outputSize >= H.MAX_SEND_COUNT
      modifies this`outputSize, output
      ensures Valid() && output[..outputSize] == old(output[..outputSize])[H.MAX_SEND_COUNT..]
    {
      ghost var all := output[..outputSize];
      var left := outputSize - H.MAX_SEND_COUNT;
      for i := 0 to left
        invariant outputSize == |all|
        invariant forall k :: 0 <= k < i ==> output[k] == all[H.MAX_SEND_COUNT + k]
        invariant forall k :: i <= k < outputSize ==> output[k] == all[k]
      {
        output[i] := output[H.MAX_SEND_COUNT + i];
      }
      outputSize := left;
      assert output[..outputSize] == all[H.MAX_SEND_COUNT..];
    }

    /** A data line: a gap before it is filled, then its characters are buffered, and one record is sent if there is
        enough. */
    method ProcessData(addr: int, chars: seq<byte>) returns (o: H.Outcome)
      requires Valid()
      modifies this`outputSize, this`lastSubOffset, this`currentOffset, this`totalBytes, this`verifyCheckSum,
        this`log, dev, output
      ensures Valid() && (Model(), o) == H.ProcessData(old(Model()), addr, chars)
    {
      hide H.Pad, H.SendFull;
      o := Pad(addr);
      if o != H.Ok {
        return;
      }
      if outputSize + |chars| >= H.OUTPUT_SIZE {
        return H.Error;
      }
      Append(chars);
      lastSubOffset := addr + |chars| / 2;
      o := SendFull();
    }

    /** Sends what is buffered and fills the page. */
    method FinishPage(always: bool) returns (o: H.Outcome, ghost filled: bool)
      requires Valid()
      modifies this`currentOffset, this`totalBytes, this`verifyCheckSum, this`log, this`outputSize, dev
      ensures Valid() && H.Result(Model(), o, filled) == H.FinishPage(old(Model()), always)
    {
      hide H.UploadHex, H.FillPage;
      filled := true;
      o := UploadHex(outputSize);
      if o != H.Ok {
        return;
      }
      if always || currentOffset != 0 {
        filled := FillCurrentPage();
      }
      outputSize := 0;
    }

    /** A page record: the page before is finished, and the new page selected and begun. */
    method ProcessPage(number: nat) returns (o: H.Outcome, ghost filled: bool)
      requires Valid() && number < PAGE_SIZE
      modifies this`currentPage, this`lastSubOffset, this`currentOffset, this`totalBytes, this`verifyCheckSum, this`log,
        this`outputSize, dev
      ensures Valid() && H.Result(Model(), o, filled) == H.ProcessPage(old(Model()), number)
    {
      hide H.FinishPage, H.NewPage;
      filled := true;
      currentPage := number;
      if number == 0 {
        lastSubOffset := currentOffset;
        return H.Ok, true;
      }
      lastSubOffset := 0;
      if outputSize > H.HEX_BUFFER_SIZE {
        return H.Error, true;
      }
      o, filled := FinishPage(true);
      if o != H.Ok {
        return;
      }
      var ok := NewPage(number);
      o := H.Judged(ok);
    }

    /** Selects a page and begins to write to it. */
    method NewPage(number: nat) returns (ok: bool)
      requires Valid() && number < PAGE_SIZE
      modifies this`currentOffset, this`log, dev
      ensures (Model(), ok) == H.NewPage(old(Model()), number)
    {
      hide H.Ask, H.SelectBody, H.BeginBody;
      BodiesAreEven(number);
      currentOffset := 0;
      ok := dev.Ask(H.SelectBody(number));
      if ok {
        ok := dev.Ask(H.BeginBody(0, PAGE_SIZE - 1));
        if ok {
          log := log + [H.SelectPage(number)] + [H.Begin(0, PAGE_SIZE - 1)];
        }
      }
    }

    method ProcessLine(r: HexRecord) returns (o: H.Outcome, ghost filled: bool)
      requires Valid() && (r.Page? ==> r.number < PAGE_SIZE)
      modifies this`currentPage, this`lastSubOffset, this`currentOffset, this`totalBytes, this`verifyCheckSum, this`log,
        this`outputSize, dev, output
      ensures Valid() && H.Result(Model(), o, filled) == H.ProcessLine(old(Model()), r)
    {
      hide H.ProcessData, H.ProcessPage, H.FinishPage;
      match r
      case Data(addr, chars) =>
        o := ProcessData(addr, chars);
        filled := true;
      case Page(number) => o, filled := ProcessPage(number);
      case End => o, filled := FinishPage(false);
      case Other => return H.Ok, true;
    }

    /** The lines up to the end of the file. */
    method ProcessHexFile(lines: seq<seq<byte>>) returns (o: H.Outcome, used: nat, ghost filled: bool)
      requires Valid()
      modifies this`currentPage, this`lastSubOffset, this`currentOffset, this`totalBytes, this`verifyCheckSum, this`log,
        this`outputSize, dev, output
      ensures Valid() && used <= |lines| && (H.Result(Model(), o, filled), used) == H.Process(old(Model()), lines)
    {
      hide H.ProcessLine, Parsed;
      used, filled := 0, true;
      while used < |lines| && !EndsFile(lines[used])
        invariant used <= |lines| && Valid()
        invariant H.Process(old(Model()), lines) == Onward(filled, used, H.Process(Model(), lines[used..]))
      {
        ghost var rest := lines[used..];
        PageIsDigit(lines[used]);
        var r := Parsed(lines[used]);
        ghost var went;
        o, went := ProcessLine(r);
        assert rest[1..] == lines[used + 1..];
        if o != H.Ok {
          filled := filled && went;
          return;
        }
        filled := filled && went;
        used := used + 1;
      }
      return H.Ok, used, filled;
    }
  }
}
