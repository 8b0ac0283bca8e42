/** The raw log: whatever bytes are saved end up in the files in order, and the reader parses them byte by byte. */
module RawLog {
  import opened Bytes
  import opened DataChunk
  import opened DeviceLog
  import opened Protocols
  import R = Receiver
  import opened StreamScan
  import opened ByteFeed
  import C = Comm
  import E = Encoder

  // ----- what the reader makes of a byte string ---------------------------------------------

  /** A packet as the reader hands it over. */
  datatype LogData = LogData(id: byte, size: nat, offset: nat, data: seq<byte>)

  /** How a read ends. `Overrun` is a packet longer than the reader's own buffer: the original writes on into its
      parser. */
  datatype Outcome = Packet(d: LogData) | EndOfLog | Overrun

  /** The packet just parsed. Its data is copied from behind its start by the offset once more. */
  function Logged(rx: R.Rx): LogData {
    LogData(rx.pkt.hdrId, rx.pkt.payloadSize, rx.pkt.offset,
            match rx.pkt.ptr
            case None => []
            case Some(a) => Slice(R.Memory(rx.mem, rx.cfg.outside, a + rx.pkt.offset), 0, rx.pkt.payloadSize))
  }

  /** The packet copied into a buffer of 1024 bytes. */
  function Copied(rx: R.Rx): Outcome {
    if rx.pkt.payloadSize > MAX_DATASET then Overrun else Packet(Logged(rx))
  }

  /** The kinds of packet the reader hands over. */
  predicate IsLogged(found: Found) {
    found.IsbData? || found.IsbCmd?
  }

  /** The bytes of `t` parsed until the next packet to hand over: the receiver, what becomes of the packet, and the
      bytes left. */
  function NextPacket(rx: R.Rx, t: seq<byte>): (R.Rx, Outcome, seq<byte>)
    requires Able(rx)
    decreases |t|
  {
    if t == [] then (rx, EndOfLog, [])
    else
      ParseByteAble(rx, t[0]);
      var (next, found) := ParseByte(rx, t[0]);
      if IsLogged(found) then (next, Copied(next), t[1..]) else NextPacket(next, t[1..])
  }

  lemma {:induction false} NextPacketAble(rx: R.Rx, t: seq<byte>)
    requires Able(rx)
    ensures var (next, o, left) := NextPacket(rx, t);
      Able(next) && (o != EndOfLog ==> |left| < |t|) && (o == EndOfLog ==> left == [])
    decreases |t|
  {
    hide ParseByte, Able, Logged;
    if t != [] {
      ParseByteAble(rx, t[0]);
      NextPacketAble(ParseByte(rx, t[0]).0, t[1..]);
    }
  }

  /** The packets handed over, up to one that overruns the buffer if there is any, and whether all stayed inside. */
  function AllPackets(rx: R.Rx, t: seq<byte>): (seq<LogData>, bool)
    requires Able(rx)
    decreases |t|
  {
    NextPacketAble(rx, t);
    var (next, o, left) := NextPacket(rx, t);
    match o
    case EndOfLog => ([], true)
    case Overrun => ([], false)
    case Packet(d) => var (ds, inside) := AllPackets(next, left); ([d] + ds, inside)
  }

  /** The data and command packets among the reports of a feed. */
  function DataAndCommands(reports: seq<Option<Event>>): seq<Event> {
    if reports == [] then []
    else
      (if reports[0].Some? && IsLogged(reports[0].value.found) then [reports[0].value] else [])
      + DataAndCommands(reports[1..])
  }

  /** The packet handed over is the one parsed; its data is right if the packet has no offset or no data. */
  predicate Agrees(d: LogData, e: Event) {
    && d.id == e.id && d.size == |e.data| && d.offset == e.offset
    && (e.offset == 0 || e.data == [] ==> d.data == e.data)
  }

  predicate AllAgree(ds: seq<LogData>, es: seq<Event>) {
    |ds| == |es| && forall i :: 0 <= i < |ds| ==> Agrees(ds[i], es[i])
  }

  predicate ShortEnough(e: Event) {
    |e.data| <= MAX_DATASET
  }

  /** No packet has more data than the reader's buffer holds. */
  predicate AllFit(es: seq<Event>) {
    forall i :: 0 <= i < |es| ==> ShortEnough(es[i])
  }

  /** All packets are read if they fit the buffer; otherwise reading runs past the buffer at the first that does not. */
  predicate ReadTo(ds: seq<LogData>, inside: bool, es: seq<Event>) {
    && (inside <==> AllFit(es))
    && (inside ==> AllAgree(ds, es))
    && (!inside ==> |ds| < |es| && AllAgree(ds, es[..|ds|]) && AllFit(es[..|ds|]) && !ShortEnough(es[|ds|]))
  }

  /** The fields an accepted ISB frame leaves behind. */
  predicate IsbFields(rx: R.Rx) {
    && rx.pkt.payloadSize == rx.pkt.dataSize && rx.pkt.hdrId == rx.pkt.id
    && (rx.pkt.ptr.None? ==> rx.pkt.dataSize == 0)
  }

  lemma StepIsb(rx: R.Rx)
    requires R.Valid(rx) && rx.scan < rx.tail && R.Step(rx).1.IsIsb()
    ensures IsbFields(R.Step(rx).0)
  {
    if rx.cand.Some? {
      HandleStep(rx);
      hide Judge, R.Ahead, View, StoredChecksum, AckFor, Seen;
    }
  }

  lemma {:induction false} LoopIsb(rx: R.Rx)
    requires R.Valid(rx) && R.Loop(rx).1.IsIsb()
    ensures IsbFields(R.Loop(rx).0)
    decreases R.Rank(rx), R.Busy(rx), rx.tail + 1 - rx.scan
  {
    hide R.Step;
    if rx.scan < rx.tail {
      R.StepValid(rx);
      var (next, found) := R.Step(rx);
      if found == Nothing {
        LoopIsb(next);
      } else {
        StepIsb(rx);
      }
    }
  }

  lemma ParsedAgrees(rx: R.Rx, b: byte)
    requires Able(rx) && IsLogged(ParseByte(rx, b).1)
    ensures var (next, found) := ParseByte(rx, b); Agrees(Logged(next), View(next, found))
    ensures var (next, found) := ParseByte(rx, b);
      Copied(next) == if ShortEnough(View(next, found)) then Packet(Logged(next)) else Overrun
  {
    RoomForByte(rx);
    hide R.Free, R.Loop, R.Sound;
    LoopIsb(R.Append(R.Free(rx), [b]));
  }

  /** The packet as the library's own accessor describes it: this one takes the data where it is. */
  function ToIsbPData(rx: R.Rx): LogData {
    LogData(rx.pkt.hdrId, rx.pkt.dataSize, rx.pkt.offset, DataBytes(rx))
  }

  /** The accessor is right for every ISB packet, with or without an offset. */
  lemma ToIsbPDataAgrees(rx: R.Rx, b: byte)
    requires Able(rx) && ParseByte(rx, b).1.IsIsb()
    ensures var (next, found) := ParseByte(rx, b);
      var d, e := ToIsbPData(next), View(next, found);
      d.id == e.id && d.size == |e.data| && d.offset == e.offset && d.data == e.data
  {
    RoomForByte(rx);
    hide R.Free, R.Loop, R.Sound;
    LoopIsb(R.Append(R.Free(rx), [b]));
  }

  lemma ReadNothing()
    ensures ReadTo([], true, [])
  {
  }

  lemma ReadOne(d: LogData, ds: seq<LogData>, inside: bool, e: Event, es: seq<Event>)
    requires ReadTo(ds, inside, es) && Agrees(d, e) && ShortEnough(e)
    ensures ReadTo([d] + ds, inside, [e] + es)
  {
    hide Agrees, ShortEnough;
    assert forall i :: 0 <= i < |es| ==> ([e] + es)[i + 1] == es[i];
    if inside {
    } else {
      assert ([e] + es)[..|ds| + 1] == [e] + es[..|ds|];
      assert !ShortEnough(([e] + es)[|ds| + 1]);
    }
  }

  lemma ReadPast(e: Event, es: seq<Event>)
    requires !ShortEnough(e)
    ensures ReadTo([], false, [e] + es)
  {
    assert ([e] + es)[0] == e && ([e] + es)[..0] == [];
  }

  lemma PacketsUnfold(rx: R.Rx, t: seq<byte>)
    requires Able(rx) && t != []
    ensures Able(ParseByte(rx, t[0]).0)
    ensures var (next, found) := ParseByte(rx, t[0]);
      AllPackets(rx, t) ==
        if !IsLogged(found) then AllPackets(next, t[1..])
        else match Copied(next)
          case Packet(d) => ([d] + AllPackets(next, t[1..]).0, AllPackets(next, t[1..]).1)
          case _ => ([], false)
  {
    hide ParseByte, Able, Logged;
    ParseByteAble(rx, t[0]);
    NextPacketAble(rx, t);
  }

  /** The reader hands over the data and command packets that parsing the byte string yields, all of them if and only if
      none has more than 1024 bytes of data, and those before the first longer one otherwise. */
  lemma {:induction false} ReadsWhatIsParsed(rx: R.Rx, t: seq<byte>)
    requires Able(rx)
    ensures ReadTo(AllPackets(rx, t).0, AllPackets(rx, t).1, DataAndCommands(Feed(rx, t).1))
    decreases |t|
  {
    hide ParseByte, Able, Logged, Copied, View, Agrees, ShortEnough, AllPackets, ReadTo;
    if t == [] {
      NoPackets(rx);
      ReadNothing();
    } else {
      PacketsUnfold(rx, t);
      var (next, found) := ParseByte(rx, t[0]);
      ReadsWhatIsParsed(next, t[1..]);
      var rest := Feed(next, t[1..]).1;
      assert Feed(rx, t).1 == [Reported(next, found)] + rest;
      assert ([Reported(next, found)] + rest)[1..] == rest;
      ViewFound(next, found);
      assert DataAndCommands(Feed(rx, t).1)
          == (if IsLogged(found) then [View(next, found)] else []) + DataAndCommands(rest);
      assert [] + DataAndCommands(rest) == DataAndCommands(rest);
      if IsLogged(found) {
        ParsedAgrees(rx, t[0]);
        ReadNext(next, t[1..], View(next, found), DataAndCommands(rest));
      }
    }
  }

  lemma NoPackets(rx: R.Rx)
    requires Able(rx)
    ensures AllPackets(rx, []) == ([], true)
  {
  }

  lemma ReadNext(next: R.Rx, t: seq<byte>, e: Event, es: seq<Event>)
    requires Able(next) && ReadTo(AllPackets(next, t).0, AllPackets(next, t).1, es)
    requires Agrees(Logged(next), e) && Copied(next) == if ShortEnough(e) then Packet(Logged(next)) else Overrun
    ensures match Copied(next)
      case Packet(d) => ReadTo([d] + AllPackets(next, t).0, AllPackets(next, t).1, [e] + es)
      case _ => ReadTo([], false, [e] + es)
  {
    hide Able, Logged, Copied, Agrees, ShortEnough, AllPackets, ReadTo;
    if ShortEnough(e) {
      ReadOne(Logged(next), AllPackets(next, t).0, AllPackets(next, t).1, e, es);
    } else {
      ReadPast(e, es);
    }
  }

  lemma ViewFound(rx: R.Rx, found: Found)
    ensures View(rx, found).found == found
  {
  }

  // ----- reading to the end -----------------------------------------------------------------

  lemma {:induction false} NextPacketSplits(rx: R.Rx, s: seq<byte>, t: seq<byte>)
    requires Able(rx) && NextPacket(rx, s).1 == EndOfLog
    ensures Able(NextPacket(rx, s).0) && NextPacket(rx, s + t) == NextPacket(NextPacket(rx, s).0, t)
    decreases |s|
  {
    hide ParseByte, Able, Logged;
    if s == [] {
      assert s + t == t;
    } else {
      ParseByteAble(rx, s[0]);
      assert (s + t)[0] == s[0] && (s + t)[1..] == s[1..] + t;
      NextPacketSplits(ParseByte(rx, s[0]).0, s[1..], t);
    }
  }

  lemma {:induction false} NextPacketExtends(rx: R.Rx, s: seq<byte>, t: seq<byte>)
    requires Able(rx) && NextPacket(rx, s).1 != EndOfLog
    ensures var (next, o, left) := NextPacket(rx, s); NextPacket(rx, s + t) == (next, o, left + t)
    decreases |s|
  {
    hide ParseByte, Able, Logged;
    if s != [] {
      ParseByteAble(rx, s[0]);
      assert (s + t)[0] == s[0] && (s + t)[1..] == s[1..] + t;
      if !IsLogged(ParseByte(rx, s[0]).1) {
        NextPacketExtends(ParseByte(rx, s[0]).0, s[1..], t);
      }
    }
  }

  lemma NextPacketNothing(rx: R.Rx)
    requires Able(rx)
    ensures NextPacket(rx, []) == (rx, EndOfLog, [])
  {
  }

  class RawLog {
    const dev: DeviceLog
    const chunk: DataChunk
    const comm: C.Comm

    ghost predicate Shape()
      reads this, dev, dev.file, chunk, chunk.buf, comm, comm.buf
    {
      dev.Valid() && chunk.InOrder() && chunk.buf != comm.buf && Listening()
    }

    /** The parser is in a state that it can reach. */
    ghost predicate Listening()
      reads comm, comm.buf
    {
      comm.Valid() && Able(comm.Model())
    }

    // ----- writing --------------------------------------------------------------------------

    ghost predicate Writing()
      reads this, dev, dev.file, chunk, chunk.buf, comm, comm.buf
    {
      Shape() && dev.writeMode && chunk.Described() && chunk.head == 0
    }

    /** Everything saved: the bytes in files, then those in the chunk. */
    ghost function Saved(): seq<byte>
      requires chunk.InOrder()
      reads this, dev, dev.file, chunk, chunk.buf
    {
      InFiles() + chunk.Contents()
    }

    ghost function InFiles(): seq<byte>
      reads this, dev, dev.file
    {
      Flatten(dev.files) + if dev.isOpen then dev.file.bytes else []
    }

    constructor ForWriting(cfg: Config, capacity: nat, maxFileSize: nat, openable: bool, version: seq<byte>,
        ident: seq<byte>)
      requires cfg.size >= 3 && capacity < WORD && |version| == 12 && |ident| == 16
      ensures Writing() && Saved() == [] && comm.Model() == R.Init(cfg)
      ensures dev.openable == openable && chunk.buf.Length == capacity
      ensures fresh(dev) && fresh(dev.file) && fresh(chunk) && fresh(chunk.buf) && fresh(comm) && fresh(comm.buf)
    {
      dev := new DeviceLog.InitDeviceForWriting(maxFileSize, openable);
      chunk := new DataChunk(capacity, version, ident);
      comm := new C.Comm(cfg);
      new;
      chunk.Clear();
      R.InitSound(cfg);
    }

    /** Parses the bytes, for the statistics. */
    method Observe(data: seq<byte>)
      requires Shape()
      modifies comm, comm.buf
      ensures Shape() && comm.Model() == Feed(old(comm.Model()), data).0
    {
      hide ParseByte, Able, C.Tracks, R.Valid;
      ghost var rx := comm.Model();
      FeedNothing(rx);
      for i := 0 to |data|
        invariant Shape() && comm.Model() == Feed(rx, data[..i]).0
      {
        assert data[..i + 1] == data[..i] + [data[i]];
        FeedSplits(rx, data[..i], [data[i]]);
        FeedOne(comm.Model(), data[i]);
        var _ := Parse(data[i]);
      }
      assert data[..|data|] == data;
    }

    /** Hands one byte to the parser. */
    method Parse(b: byte) returns (found: Found)
      requires comm.Valid() && Able(comm.Model())
      modifies comm, comm.buf
      ensures comm.Valid() && Able(comm.Model())
      ensures (comm.Model(), found) == ParseByte(old(comm.Model()), b)
    {
      RoomForByte(comm.Model());
      ParseByteAble(comm.Model(), b);
      hide R.Free, R.Append, R.Parse, C.Tracks, Able, R.FreeBytes;
      found := comm.ParseByteTimeout(b, 0);
    }

    /** Saves bytes. It fails only if there are none, or more than a chunk holds, or the chunk is full and no file can
        be opened. */
    method SaveData(data: seq<byte>) returns (ok: bool)
      requires Writing()
      modifies this, dev, dev.file, chunk, chunk.buf, comm, comm.buf
      ensures Writing() && Saved() == if ok then old(Saved()) + data else old(Saved())
      ensures comm.Model() == Feed(old(comm.Model()), data).0
      ensures data != [] && |data| <= chunk.buf.Length && dev.openable ==> ok
      ensures data == [] || |data| > chunk.buf.Length ==> !ok
      ensures dev.Rotated(old(dev.files))
        && (dev.isOpen ==> dev.file.bytes == old(dev.file.bytes) || |dev.file.bytes| < dev.maxFileSize)
    {
      hide Able, Feed, C.Tracks, R.Valid, Flatten;
      Observe(data);
      ok := Keep(data);
    }

    /** Adds the bytes to the chunk, which is spilled first if it is too full. */
    method Keep(data: seq<byte>) returns (ok: bool)
      requires Writing()
      modifies dev, dev.file, chunk, chunk.buf
      ensures Writing() && Saved() == if ok then old(Saved()) + data else old(Saved())
      ensures data != [] && |data| <= chunk.buf.Length && dev.openable ==> ok
      ensures data == [] || |data| > chunk.buf.Length ==> !ok
      ensures dev.Rotated(old(dev.files))
        && (dev.isOpen ==> dev.file.bytes == old(dev.file.bytes) || |dev.file.bytes| < dev.maxFileSize)
    {
      hide Listening, Able, C.Tracks, R.Valid, Flatten, IsChunk;
      if |data| > chunk.Free() {
        var written := WriteChunkToFile();
        if !written {
          return false;
        }
        if dev.fileSize >= dev.maxFileSize {
          var _ := CloseAllFiles();
        }
      }
      dev.logSize := dev.logSize + |data|;
      ok := Add(data);
    }

    /** Adds bytes to the chunk if they fit; nothing is not added. */
    method Add(data: seq<byte>) returns (ok: bool)
      requires Writing()
      modifies chunk, chunk.buf
      ensures Writing() && Saved() == if ok then old(Saved()) + data else old(Saved())
      ensures ok == (data != [] && |data| <= old(chunk.Free()))
    {
      hide Listening, Able, C.Tracks, R.Valid, Flatten;
      ghost var before := InFiles();
      var n := chunk.PushBack(data, []);
      assert InFiles() == before;
      return n != 0;
    }

    /** Moves the bytes of the chunk to the file in use, or to a new one. */
    method WriteChunkToFile() returns (ok: bool)
      requires Writing()
      modifies dev, dev.file, chunk
      ensures Writing() && Saved() == old(Saved())
      ensures ok == (old(chunk.Contents()) != [] && (old(dev.isOpen) || dev.openable))
      ensures chunk.Contents() == if ok then [] else old(chunk.Contents())
      ensures dev.files == old(dev.files) && (ok ==> dev.isOpen)
      ensures !ok ==> dev.isOpen == old(dev.isOpen) && (dev.isOpen ==> dev.file.bytes == old(dev.file.bytes))
    {
      hide Listening, Able, C.Tracks, R.Valid, Flatten, IsChunk;
      if chunk.tail - chunk.head == 0 {
        return false;
      }
      if !dev.isOpen {
        dev.OpenNewSaveFile();
      }
      if !dev.isOpen {
        return false;
      }
      Spill();
      return true;
    }

    /** Writes the chunk to the open file and clears it. */
    method Spill()
      requires Writing() && dev.isOpen
      modifies dev`fileSize, dev.file, chunk
      ensures Writing() && dev.isOpen && Saved() == old(Saved()) && chunk.Contents() == []
    {
      hide Listening, Able, Flatten, IsChunk, Describes;
      ghost var before, data := dev.file.bytes, chunk.Contents();
      var fileBytes := chunk.WriteToFile(dev.file, [0, 0, 0, 0], false);
      assert dev.file.bytes == before + data;
      dev.fileSize := dev.fileSize + fileBytes;
    }

    /** Spills the chunk and closes the file. */
    method CloseAllFiles() returns (ok: bool)
      requires Writing()
      modifies dev, dev.file, chunk
      ensures Writing() && Saved() == old(Saved()) && !dev.isOpen
      ensures old(chunk.Contents()) == [] && old(dev.isOpen) ==> dev.files == old(dev.files) + [old(dev.file.bytes)]
      ensures chunk.Contents() == if old(dev.isOpen) || dev.openable then [] else old(chunk.Contents())
    {
      hide Listening, Able, C.Tracks, R.Valid, Flatten, IsChunk;
      var _ := WriteChunkToFile();
      if dev.isOpen {
        FlattenAppend(dev.files, dev.file.bytes);
      }
      dev.CloseFile();
      return true;
    }

    // ----- reading --------------------------------------------------------------------------

    ghost predicate Reading()
      reads this, dev, dev.file, chunk, chunk.buf, comm, comm.buf
    {
      Shape() && !dev.writeMode && chunk.buf.Length > 0 && (chunk.head < chunk.tail ==> chunk.Valid())
    }

    /** The bytes not yet parsed. */
    ghost function Rest(): seq<byte>
      requires dev.Valid() && chunk.InOrder()
      reads this, dev, dev.file, chunk, chunk.buf
    {
      chunk.Contents() + BehindChunk()
    }

    ghost function BehindChunk(): seq<byte>
      requires dev.Valid()
      reads this, dev, dev.file
    {
      (if dev.isOpen then dev.file.bytes[dev.file.pos..] else []) + Flatten(dev.files[dev.fileCount..])
    }

    constructor ForReading(cfg: Config, capacity: nat, files: seq<seq<byte>>, version: seq<byte>, ident: seq<byte>)
      requires cfg.size >= 3 && 0 < capacity < WORD && |version| == 12 && |ident| == 16
      ensures Reading() && Rest() == Flatten(files) && comm.Model() == R.Init(cfg)
      ensures fresh(dev) && fresh(dev.file) && fresh(chunk) && fresh(chunk.buf) && fresh(comm) && fresh(comm.buf)
    {
      dev := new DeviceLog.InitDeviceForReading(files);
      chunk := new DataChunk(capacity, version, ident);
      comm := new C.Comm(cfg);
      new;
      chunk.Clear();
      R.InitSound(cfg);
      assert dev.files[0..] == files;
    }

    /** Parses the chunk up to the next packet to hand over. */
    method ReadDataFromChunk() returns (o: Outcome)
      requires Reading()
      modifies chunk, comm, comm.buf
      ensures Reading() && Able(old(comm.Model()))
      ensures (comm.Model(), o, chunk.Contents()) == NextPacket(old(comm.Model()), old(chunk.Contents()))
    {
      hide ParseByte, Able, C.Tracks, R.Valid, Logged;
      ghost var rx, t := comm.Model(), chunk.Contents();
      while chunk.tail - chunk.head > 0
        invariant Reading()
        invariant NextPacket(rx, t) == NextPacket(comm.Model(), chunk.Contents())
        decreases chunk.tail - chunk.head
      {
        var data := chunk.buf[chunk.head];
        var _ := chunk.PopFront(1);
        var found := Parse(data);
        if IsLogged(found) {
          o := PacketData();
          return;
        }
      }
      return EndOfLog;
    }

    /** Copies the packet just parsed into the reader's buffer, if that is long enough. */
    method PacketData() returns (o: Outcome)
      ensures o == Copied(comm.Model())
    {
      hide Slice, R.Memory;
      if comm.rxPkt.payloadSize > MAX_DATASET {
        return Overrun;
      }
      var data: seq<byte> := [];
      if comm.rxPkt.ptr.Some? {
        data := Copy(comm.rxPkt.ptr.value + comm.rxPkt.offset, comm.rxPkt.payloadSize);
      }
      return Packet(LogData(comm.rxPkt.hdrId, comm.rxPkt.payloadSize, comm.rxPkt.offset, data));
    }

    method Copy(at: nat, n: nat) returns (data: seq<byte>)
      ensures data == Slice(R.Memory(comm.buf[..], comm.cfg.outside, at), 0, n)
    {
      ghost var m := R.Memory(comm.buf[..], comm.cfg.outside, at);
      data := [];
      for i := 0 to n
        invariant |data| == i && forall k :: 0 <= k < i ==> data[k] == m(k)
      {
        var b := comm.At(at + i);
        assert b == m(i);
        data := data + [b];
      }
    }

    /** Fills the empty chunk from the file in use, or from the next that has bytes. */
    method ReadChunkFromFile() returns (ok: bool)
      requires Reading() && chunk.Contents() == []
      modifies dev, dev.file, chunk, chunk.buf
      ensures Reading() && Rest() == old(Rest())
      ensures ok ==> chunk.Contents() != []
      ensures !ok ==> Rest() == []
    {
      hide Listening, Able, C.Tracks, R.Valid, Flatten, FirstChunk;
      while true
        invariant Reading() && chunk.Contents() == [] && Rest() == old(Rest())
        decreases |dev.files| - dev.fileCount
      {
        var n := chunk.ReadFromFile(dev.Handle(), false);
        if n >= 0 {
          return true;
        }
        var more := OpenNext();
        if !more {
          return false;
        }
      }
    }

    /** Goes on to the next file. */
    method OpenNext() returns (ok: bool)
      requires Reading() && chunk.Contents() == [] && (dev.isOpen ==> dev.file.pos == |dev.file.bytes|)
      modifies dev, dev.file
      ensures Reading() && Rest() == old(Rest()) && dev.files == old(dev.files)
      ensures ok ==> dev.fileCount == old(dev.fileCount) + 1
      ensures !ok ==> Rest() == []
    {
      hide Listening, Able, C.Tracks, R.Valid;
      ghost var left := dev.files[dev.fileCount..];
      ok := dev.OpenNextReadFile();
      if ok {
        assert left[0] == dev.file.bytes && left[1..] == dev.files[dev.fileCount..];
        assert dev.file.bytes[0..] == dev.file.bytes;
      } else {
        assert left == [];
      }
    }

    /** The next packet of the log, or nothing at its end. */
    method ReadData() returns (o: Outcome)
      requires Reading()
      modifies dev, dev.file, chunk, chunk.buf, comm, comm.buf
      ensures Reading() && Able(old(comm.Model()))
      ensures (comm.Model(), o, Rest()) == NextPacket(old(comm.Model()), old(Rest()))
    {
      hide ParseByte, Able, C.Tracks, R.Valid, NextPacket, Logged, Flatten;
      ghost var rx0, t0 := comm.Model(), Rest();
      while true
        invariant Reading()
        invariant NextPacket(comm.Model(), Rest()) == NextPacket(rx0, t0)
        decreases |Rest()|, if chunk.Contents() == [] then 1 else 0
      {
        ghost var rx, t, behind := comm.Model(), chunk.Contents(), BehindChunk();
        o := ReadDataFromChunk();
        assert Rest() == chunk.Contents() + behind;
        if o != EndOfLog {
          NextPacketExtends(rx, t, behind);
          return;
        }
        NextPacketAble(rx, t);
        NextPacketSplits(rx, t, behind);
        assert Rest() == behind;
        var more := ReadChunkFromFile();
        if !more {
          NextPacketNothing(comm.Model());
          return EndOfLog;
        }
      }
    }
  }

  /** Reads a log to its end, or up to the packet that overruns the buffer. */
  method ReadAll(log: RawLog) returns (ds: seq<LogData>, inside: bool)
    requires log.Reading()
    modifies log.dev, log.dev.file, log.chunk, log.chunk.buf, log.comm, log.comm.buf
    ensures Able(old(log.comm.Model())) && (ds, inside) == AllPackets(old(log.comm.Model()), old(log.Rest()))
  {
    hide ParseByte, Able, C.Tracks, R.Valid, NextPacket, Logged, Flatten;
    ds := [];
    ghost var rx0, t0 := log.comm.Model(), log.Rest();
    BehindNothing(AllPackets(rx0, t0));
    while true
      invariant log.Reading() && Behind(ds, AllPackets(log.comm.Model(), log.Rest())) == AllPackets(rx0, t0)
      decreases |log.Rest()|
    {
      NextPacketAble(log.comm.Model(), log.Rest());
      var o := log.ReadData();
      assert ds + [] == ds;
      match o
      case EndOfLog => return ds, true;
      case Overrun => return ds, false;
      case Packet(d) =>
        BehindMore(ds, d, AllPackets(log.comm.Model(), log.Rest()));
        ds := ds + [d];
    }
  }

  /** What is still to be read, behind what has been. */
  ghost function Behind(ds: seq<LogData>, rest: (seq<LogData>, bool)): (seq<LogData>, bool) {
    (ds + rest.0, rest.1)
  }

  lemma BehindNothing(rest: (seq<LogData>, bool))
    ensures Behind([], rest) == rest
  {
    assert [] + rest.0 == rest.0;
  }

  lemma BehindMore(ds: seq<LogData>, d: LogData, rest: (seq<LogData>, bool))
    ensures Behind(ds, ([d] + rest.0, rest.1)) == Behind(ds + [d], rest)
  {
    assert ds + ([d] + rest.0) == ds + [d] + rest.0;
  }

  /** Saves pieces one after the other. */
  method SaveAll(log: RawLog, pieces: seq<seq<byte>>) returns (saved: seq<byte>)
    requires log.Writing() && log.Saved() == [] && log.dev.openable
    modifies log, log.dev, log.dev.file, log.chunk, log.chunk.buf, log.comm, log.comm.buf
    ensures log.Writing() && log.Saved() == saved
    ensures (forall i :: 0 <= i < |pieces| ==> |pieces[i]| <= log.chunk.buf.Length) ==> saved == Flatten(pieces)
  {
    hide Able, Feed, C.Tracks, R.Valid, IsChunk;
    saved := [];
    for i := 0 to |pieces|
      invariant log.Writing() && log.Saved() == saved
      invariant (forall k :: 0 <= k < i ==> |pieces[k]| <= log.chunk.buf.Length) ==> saved == Flatten(pieces[..i])
    {
      var ok := log.SaveData(pieces[i]);
      if ok {
        saved := saved + pieces[i];
      }
      FlattenAppend(pieces[..i], pieces[i]);
      assert pieces[..i + 1] == pieces[..i] + [pieces[i]];
    }
    assert pieces[..|pieces|] == pieces;
  }

  /** Bytes saved piece by piece, the log closed and read again: the data and command packets come back that parsing the
      saved bytes yields, whatever chunks and files they went through, up to the first that does not fit the reader's
      buffer. */
  method SaveAndReadBack(cfg: Config, pieces: seq<seq<byte>>, capacity: nat, maxFileSize: nat, version: seq<byte>,
      ident: seq<byte>)
    returns (saved: seq<byte>, ds: seq<LogData>, inside: bool)
    requires cfg.size >= 3 && 0 < capacity < WORD && |version| == 12 && |ident| == 16
    ensures Able(R.Init(cfg)) && ReadTo(ds, inside, DataAndCommands(Feed(R.Init(cfg), saved).1))
    ensures (forall i :: 0 <= i < |pieces| ==> |pieces[i]| <= capacity) ==> saved == Flatten(pieces)
  {
    hide Able, Feed, C.Tracks, R.Valid, ReadTo, R.Init, Flatten, AllPackets, DataAndCommands;
    var log := new RawLog.ForWriting(cfg, capacity, maxFileSize, true, version, ident);
    saved := SaveAll(log, pieces);
    var _ := log.CloseAllFiles();
    assert Flatten(log.dev.files) == saved;
    var reader := new RawLog.ForReading(cfg, capacity, log.dev.files, version, ident);
    ds, inside := ReadAll(reader);
    ReadsWhatIsParsed(R.Init(cfg), saved);
  }

  // ----- logging encoded messages -----------------------------------------------------------

  lemma {:induction false} NothingQuiet(n: nat, reports: seq<Option<Event>>)
    ensures DataAndCommands(Quiet(n) + reports) == DataAndCommands(reports)
  {
    if n == 0 {
      assert Quiet(0) + reports == reports;
    } else {
      assert (Quiet(n) + reports)[1..] == Quiet(n - 1) + reports;
      NothingQuiet(n - 1, reports);
    }
  }

  lemma {:induction false} ReportsOfMessages(ms: seq<E.Message>)
    ensures DataAndCommands(E.SentReports(ms)) == E.AllSent(ms)
  {
    hide E.Frame;
    if ms != [] {
      var n, rest := |E.Frame(ms[0])| - 1, E.SentReports(ms[1..]);
      var last := [Some(E.Sent(ms[0]))];
      assert E.SentReports(ms) == Quiet(n) + (last + rest);
      NothingQuiet(n, last + rest);
      assert (last + rest)[1..] == rest;
      ReportsOfMessages(ms[1..]);
    }
  }

  lemma {:induction false} SentFit(ms: seq<E.Message>)
    requires E.AllSendable(ms)
    ensures AllFit(E.AllSent(ms))
    decreases |ms|
  {
    if ms != [] {
      SentFit(ms[1..]);
      forall i | 0 <= i < |E.AllSent(ms)| ensures ShortEnough(E.AllSent(ms)[i]) {
        if i > 0 {
          assert E.AllSent(ms)[i] == E.AllSent(ms[1..])[i - 1];
        }
      }
    }
  }

  /** Encoded messages saved in a raw log are all read, in order, with their identifiers, sizes and offsets, and with
      their data if they have no offset. */
  lemma MessagesComeBack(cfg: Config, ms: seq<E.Message>, ds: seq<LogData>, inside: bool)
    requires cfg.size == MAX_ISB && Isb in cfg.enabled && E.AllSendable(ms) && Able(R.Init(cfg))
    requires ReadTo(ds, inside, DataAndCommands(Feed(R.Init(cfg), E.Encoded(ms)).1))
    ensures inside && AllAgree(ds, E.AllSent(ms))
  {
    hide R.Init, Able, Feed, DataAndCommands, E.AllSent, E.Encoded, AllFit, AllAgree;
    E.FreshParser(cfg, ms);
    ReportsOfMessages(ms);
    SentFit(ms);
  }
}
