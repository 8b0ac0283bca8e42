/** The serial log: records packed into chunks, chunks into files, and everything read back in order. */
module SerialLog {
  import opened Bytes
  import opened DataChunk
  import opened DeviceLog

  /** A data set, or part of one. */
  datatype Record = Record(id: byte, offset: nat, data: seq<byte>) {
    predicate Fits16() {
      offset < 0x10000 && |data| < 0x10000
    }

    /** The five header bytes, as they lie in memory. */
    function Header(): (s: seq<byte>)
      ensures |s| == RECORD_HEADER
    {
      [id, Lo(|data|), Hi(|data|), Lo(offset), Hi(offset)]
    }
  }

  const RECORD_HEADER := 5

  /** Records one behind the other. */
  function Packed(rs: seq<Record>): seq<byte> {
    if rs == [] then [] else rs[0].Header() + rs[0].data + Packed(rs[1..])
  }

  lemma {:induction false} PackedAppend(rs: seq<Record>, r: Record)
    ensures Packed(rs + [r]) == Packed(rs) + r.Header() + r.data
  {
    if rs == [] {
      assert [r][1..] == [] && [] + [r] == [r];
    } else {
      assert (rs + [r])[1..] == rs[1..] + [r];
      PackedAppend(rs[1..], r);
    }
  }

  lemma PackedEmpty(rs: seq<Record>)
    ensures Packed(rs) == [] <==> rs == []
  {
    if rs != [] {
      assert |rs[0].Header()| == RECORD_HEADER;
    }
  }

  lemma FlattenNothing()
    ensures Flatten<Record>([]) == []
  {
  }

  predicate AllFit(rs: seq<Record>) {
    forall i :: 0 <= i < |rs| ==> rs[i].Fits16()
  }

  /** A file of whole chunks, each with whole records and no longer than a chunk buffer. */
  predicate FileHolds(bytes: seq<byte>, chunks: seq<seq<Record>>, capacity: nat) {
    if chunks == [] then bytes == []
    else
      var k := HEADER_SIZE + |Packed(chunks[0])|;
      && |Packed(chunks[0])| <= capacity && AllFit(chunks[0])
      && k <= |bytes| && IsChunk(bytes[..k], Packed(chunks[0]))
      && FileHolds(bytes[k..], chunks[1..], capacity)
  }

  lemma {:induction false} FileGrows(bytes: seq<byte>, chunks: seq<seq<Record>>, capacity: nat, more: seq<byte>,
      rs: seq<Record>)
    requires FileHolds(bytes, chunks, capacity)
    requires IsChunk(more, Packed(rs)) && |Packed(rs)| <= capacity && AllFit(rs)
    ensures FileHolds(bytes + more, chunks + [rs], capacity)
    decreases |chunks|
  {
    hide IsChunk;
    if chunks == [] {
      assert bytes + more == more && chunks + [rs] == [rs];
      ChunkSize(more, Packed(rs));
      assert more[..|more|] == more && more[|more|..] == [];
    } else {
      var k := HEADER_SIZE + |Packed(chunks[0])|;
      assert (bytes + more)[..k] == bytes[..k] && (bytes + more)[k..] == bytes[k..] + more;
      assert (chunks + [rs])[1..] == chunks[1..] + [rs];
      FileGrows(bytes[k..], chunks[1..], capacity, more, rs);
    }
  }

  lemma ChunkSize(s: seq<byte>, data: seq<byte>)
    requires IsChunk(s, data)
    ensures |s| == HEADER_SIZE + |data|
  {
  }

  predicate Stored(files: seq<seq<byte>>, contents: seq<seq<seq<Record>>>, capacity: nat) {
    |files| == |contents| && forall i :: 0 <= i < |files| ==> FileHolds(files[i], contents[i], capacity)
  }

  /** The records of some files in order. */
  function Unpacked(contents: seq<seq<seq<Record>>>): seq<Record> {
    Flatten(Flatten(contents))
  }

  lemma UnpackedAppend(contents: seq<seq<seq<Record>>>, chunks: seq<seq<Record>>)
    ensures Unpacked(contents + [chunks]) == Unpacked(contents) + Flatten(chunks)
  {
    FlattenAppend(contents, chunks);
    FlattenConcat(Flatten(contents), chunks);
  }

  lemma UnpackedFirst(contents: seq<seq<seq<Record>>>)
    requires contents != []
    ensures Unpacked(contents) == Flatten(contents[0]) + Unpacked(contents[1..])
  {
    FlattenConcat(contents[0], Flatten(contents[1..]));
  }

  class SerialLog {
    const dev: DeviceLog
    const chunk: DataChunk
    ghost var done: seq<seq<seq<Record>>>    // the records of each file in `dev.files`
    ghost var current: seq<seq<Record>>      // the chunks written to, or left in, the file in use
    ghost var pending: seq<Record>           // the records in the chunk

    ghost predicate Shape()
      reads this, dev, dev.file, chunk, chunk.buf
    {
      && dev.Valid() && chunk.InOrder()
      && |done| == |dev.files| && Stored(dev.files, done, chunk.buf.Length) && AllFit(pending)
    }

    // ----- writing --------------------------------------------------------------------------

    /** The chunk holds the records not yet in a file. */
    ghost predicate Writing()
      reads this, dev, dev.file, chunk, chunk.buf
    {
      && Shape() && dev.writeMode
      && chunk.Described() && chunk.head == 0 && chunk.Contents() == Packed(pending)
      && (if dev.isOpen then FileHolds(dev.file.bytes, current, chunk.buf.Length) else current == [])
    }

    /** Everything saved. */
    ghost function Records(): seq<Record>
      reads this
    {
      Unpacked(done) + Flatten(current) + pending
    }

    constructor ForWriting(capacity: nat, maxFileSize: nat, openable: bool, version: seq<byte>, ident: seq<byte>)
      requires capacity < WORD && maxFileSize < WORD && |version| == 12 && |ident| == 16
      ensures Writing() && Records() == [] && fresh(dev) && fresh(dev.file) && fresh(chunk) && fresh(chunk.buf)
      ensures dev.openable == openable && chunk.buf.Length == capacity
    {
      dev := new DeviceLog.InitDeviceForWriting(maxFileSize, openable);
      chunk := new DataChunk(capacity, version, ident);
      done, current, pending := [], [], [];
      new;
      chunk.Clear();
    }

    /** Room for a record without spilling. */
    ghost predicate HasRoom(r: Record)
      requires chunk.InOrder()
      reads chunk
    {
      RECORD_HEADER + |r.data| <= chunk.Free()
    }

    /** Saves a record. It fails only if the record is longer than a chunk, or the chunk is full and no file can be
        opened. */
    method SaveData(r: Record) returns (ok: bool)
      requires Writing() && r.Fits16()
      modifies this, dev, dev.file, chunk, chunk.buf
      ensures Writing() && Records() == if ok then old(Records()) + [r] else old(Records())
      ensures ok == (old(HasRoom(r))
        || (RECORD_HEADER + |r.data| <= chunk.buf.Length && old(pending) != [] && (old(dev.isOpen) || dev.openable)))
      ensures RECORD_HEADER + |r.data| <= chunk.buf.Length && dev.openable ==> ok
      ensures dev.Rotated(old(dev.files))
        && (dev.isOpen ==> dev.file.bytes == old(dev.file.bytes) || |dev.file.bytes| < dev.maxFileSize)
    {
      hide Packed, IsChunk, FileHolds, Stored, Flatten, Unpacked;
      PackedEmpty(pending);
      if RECORD_HEADER + |r.data| > chunk.Free() {
        var written := WriteChunkToFile();
        if !written {
          return false;
        }
        if dev.fileSize >= dev.maxFileSize {
          var _ := CloseAllFiles();
        }
        PackedEmpty(pending);
        assert chunk.Free() == chunk.buf.Length;
      }
      dev.logSize := dev.logSize + |r.data|;
      ok := Add(r);
    }

    /** Adds a record to the chunk if it fits. */
    method Add(r: Record) returns (ok: bool)
      requires Writing() && r.Fits16()
      modifies this`pending, chunk, chunk.buf
      ensures Writing() && Records() == if ok then old(Records()) + [r] else old(Records())
      ensures ok == old(HasRoom(r))
    {
      hide Packed, IsChunk, FileHolds, Stored, Flatten, Unpacked;
      var n := chunk.PushBack(r.Header(), r.data);
      if n == 0 {
        return false;
      }
      PackedAppend(pending, r);
      pending := pending + [r];
      return true;
    }

    /** Moves the records of the chunk to the file in use, or to a new one. */
    method WriteChunkToFile() returns (ok: bool)
      requires Writing()
      modifies this, dev, dev.file, chunk
      ensures Writing() && Records() == old(Records())
      ensures ok == (old(pending) != [] && (old(dev.isOpen) || dev.openable))
      ensures pending == if ok then [] else old(pending)
      ensures !ok ==> !dev.isOpen || pending == []
      ensures !ok ==> chunk.tail == old(chunk.tail)
      ensures dev.files == old(dev.files) && (ok ==> dev.isOpen)
      ensures !ok ==> dev.isOpen == old(dev.isOpen) && (dev.isOpen ==> dev.file.bytes == old(dev.file.bytes))
    {
      hide Packed, IsChunk, Stored, Unpacked, Flatten, AllFit;
      PackedEmpty(pending);
      if chunk.tail - chunk.head == 0 {
        return false;
      }
      if !dev.isOpen {
        dev.OpenNewSaveFile();
      }
      if !dev.isOpen {
        return false;
      }
      Spill();
      return true;
    }

    /** Writes the chunk to the open file and clears it. */
    method Spill()
      requires Writing() && dev.isOpen
      modifies this, dev`fileSize, dev.file, chunk
      ensures Writing() && dev.isOpen && Records() == old(Records()) && pending == []
    {
      hide IsChunk, Stored, Unpacked, Flatten, FileHolds;
      ghost var before := dev.file.bytes;
      var fileBytes := chunk.WriteToFile(dev.file, [0, 0, 0, 0], true);
      ghost var added := dev.file.bytes[|before|..];
      assert dev.file.bytes == before + added;
      FileGrows(before, current, chunk.buf.Length, added, pending);
      FlattenAppend(current, pending);
      hide Packed;
      current, pending := current + [pending], [];
      PackedEmpty([]);
      dev.fileSize := dev.fileSize + fileBytes;
    }

    /** Spills the chunk and closes the file. */
    method CloseAllFiles() returns (ok: bool)
      requires Writing()
      modifies this, dev, dev.file, chunk
      ensures Writing() && Records() == old(Records()) && !dev.isOpen && current == []
      ensures old(pending) == [] && old(dev.isOpen) ==> dev.files == old(dev.files) + [old(dev.file.bytes)]
      ensures pending == if old(dev.isOpen) || dev.openable then [] else old(pending)
    {
      hide Packed, IsChunk, FileHolds, Flatten, Unpacked;
      var _ := WriteChunkToFile();
      if dev.isOpen {
        UnpackedAppend(done, current);
        done, current := done + [current], [];
      }
      dev.CloseFile();
      FlattenNothing();
      return true;
    }

    // ----- reading --------------------------------------------------------------------------

    /** The chunk holds the records read and not yet returned; the file in use goes on with whole chunks. */
    ghost predicate Reading()
      reads this, dev, dev.file, chunk, chunk.buf
    {
      && Shape() && !dev.writeMode
      && chunk.Contents() == Packed(pending) && (pending != [] ==> chunk.Valid())
      && (if dev.isOpen then FileHolds(dev.file.bytes[dev.file.pos..], current, chunk.buf.Length) else current == [])
    }

    /** What is still to be returned. */
    ghost function Rest(): seq<Record>
      requires dev.fileCount <= |done|
      reads this, dev
    {
      pending + Flatten(current) + Unpacked(done[dev.fileCount..])
    }

    constructor ForReading(capacity: nat, files: seq<seq<byte>>, ghost contents: seq<seq<seq<Record>>>,
        version: seq<byte>, ident: seq<byte>)
      requires capacity < WORD && Stored(files, contents, capacity) && |version| == 12 && |ident| == 16
      ensures Reading() && Rest() == Unpacked(contents)
      ensures fresh(dev) && fresh(dev.file) && fresh(chunk) && fresh(chunk.buf)
    {
      dev := new DeviceLog.InitDeviceForReading(files);
      chunk := new DataChunk(capacity, version, ident);
      done, current, pending := contents, [], [];
      new;
      chunk.Clear();
      assert done[0..] == done;
      assert Flatten(current) == [] && pending + [] + Unpacked(done) == Unpacked(done);
    }

    /** The record at the front of the chunk, and the size its header states. */
    method FirstRecord() returns (size: nat, r: Record)
      requires chunk.InOrder() && |chunk.Contents()| >= RECORD_HEADER
      requires RECORD_HEADER + Le16(chunk.Contents()[1], chunk.Contents()[2]) <= |chunk.Contents()|
      ensures var data := chunk.Contents();
        && size == Le16(data[1], data[2]) && RECORD_HEADER + size <= |data|
        && r == Record(data[0], Le16(data[3], data[4]), data[RECORD_HEADER..RECORD_HEADER + size])
    {
      hide Le16;
      var p := chunk.head;
      size := Le16(chunk.buf[p + 1], chunk.buf[p + 2]);
      r := Record(chunk.buf[p], Le16(chunk.buf[p + 3], chunk.buf[p + 4]), chunk.buf[p + 5..p + 5 + size]);
    }

    /** Takes the first record out of the chunk. */
    method ReadDataFromChunk() returns (r: Option<Record>)
      requires Reading()
      modifies this`pending, chunk
      ensures Reading()
      ensures old(pending) == [] ==> r == None && pending == []
      ensures old(pending) != [] ==> r == Some(old(pending)[0]) && pending == old(pending)[1..]
    {
      hide IsChunk, FileHolds, Stored, Unpacked, Flatten, Packed, Le16;
      PackedEmpty(pending);
      if chunk.tail - chunk.head <= 0 {
        return None;
      }
      PackedStarts(pending);
      var size, found := FirstRecord();
      var ok := chunk.PopFront(RECORD_HEADER + size);
      if !ok {
        return None;
      }
      pending := pending[1..];
      return Some(found);
    }

    /** Reads chunks until one is whole, from file to file. */
    method ReadChunkFromFile() returns (ok: bool)
      requires Reading() && pending == []
      modifies this, dev, dev.file, chunk, chunk.buf
      ensures Reading() && Rest() == old(Rest()) && dev.files == old(dev.files)
      ensures ok ==>
        || old(dev.fileCount) < dev.fileCount
        || (dev.fileCount == old(dev.fileCount) && |current| < |old(current)|)
      ensures !ok ==> Rest() == [] && pending == []
    {
      hide IsChunk, Stored, Unpacked, Flatten, Packed;
      while true
        invariant Reading() && pending == [] && Rest() == old(Rest()) && dev.files == old(dev.files)
        invariant old(dev.fileCount) < dev.fileCount
          || (dev.fileCount == old(dev.fileCount) && |current| <= |old(current)|)
        decreases |dev.files| - dev.fileCount
      {
        var n := ReadNextChunk();
        if n >= 0 {
          return true;
        }
        var more := OpenNext();
        if !more {
          return false;
        }
      }
    }

    /** Reads the next chunk of the file in use, if there is one. */
    method ReadNextChunk() returns (n: int)
      requires Reading() && pending == []
      modifies this, dev.file, chunk, chunk.buf
      ensures Reading() && Rest() == old(Rest())
      ensures n < 0 ==> old(current) == [] && pending == [] && current == []
      ensures n >= 0 ==> old(current) != [] && current == old(current)[1..]
    {
      hide Stored, Unpacked, Packed, IsChunk, FirstChunk, AllFit;
      ghost var rest := if dev.isOpen then dev.file.bytes[dev.file.pos..] else [];
      if dev.isOpen {
        NextChunk(rest, current, chunk.buf.Length);
        CanTakeNext(rest, current);
      }
      n := chunk.ReadFromFile(dev.Handle(), true);
      PackedEmpty([]);
      if n >= 0 {
        assert dev.file.bytes[dev.file.pos..] == rest[n..];
        pending, current := current[0], current[1..];
      } else if dev.isOpen {
        assert current == [];
      }
    }

    lemma CanTakeNext(rest: seq<byte>, chunks: seq<seq<Record>>)
      requires FileHolds(rest, chunks, chunk.buf.Length)
      ensures chunk.CanTake(rest)
    {
      if chunks != [] {
        var k := HEADER_SIZE + |Packed(chunks[0])|;
        assert rest[..k][..HEADER_SIZE] == rest[..HEADER_SIZE];
      }
    }

    /** Goes on to the next file. */
    method OpenNext() returns (ok: bool)
      requires Reading() && pending == [] && current == []
      modifies this`current, dev, dev.file
      ensures Reading() && pending == [] && Rest() == old(Rest()) && dev.files == old(dev.files)
      ensures ok ==> dev.fileCount == old(dev.fileCount) + 1
      ensures !ok ==> Rest() == []
    {
      hide IsChunk, Unpacked, Flatten, Packed, FileHolds;
      ghost var left := done[dev.fileCount..];
      ok := dev.OpenNextReadFile();
      FlattenNothing();
      if ok {
        current := left[0];
        UnpackedFirst(left);
        assert left[1..] == done[dev.fileCount..];
        assert dev.file.bytes[0..] == dev.file.bytes;
      } else {
        UnpackedNothing();
        assert done[dev.fileCount..] == [];
      }
    }

    /** The next record of the log, or nothing at its end. */
    method ReadData() returns (r: Option<Record>)
      requires Reading()
      modifies this, dev, dev.file, chunk, chunk.buf
      ensures Reading() && dev.files == old(dev.files)
      ensures old(Rest()) == [] ==> r == None && Rest() == []
      ensures old(Rest()) != [] ==> r == Some(old(Rest())[0]) && Rest() == old(Rest())[1..]
    {
      hide IsChunk, Stored, Unpacked, Flatten, Packed, FileHolds;
      while true
        invariant Reading() && Rest() == old(Rest()) && dev.files == old(dev.files)
        decreases |dev.files| - dev.fileCount, |current|, |pending|
      {
        ghost var was := Rest();
        r := ReadDataFromChunk();
        if r.Some? {
          assert Rest() == was[1..];
          return;
        }
        var more := ReadChunkFromFile();
        if !more {
          return None;
        }
      }
    }
  }

  lemma UnpackedNothing()
    ensures Unpacked([]) == []
  {
  }

  lemma PackedStarts(rs: seq<Record>)
    requires rs != [] && AllFit(rs)
    ensures var s, r := Packed(rs), rs[0];
      && |s| >= RECORD_HEADER + |r.data|
      && s[0] == r.id && Le16(s[1], s[2]) == |r.data| && Le16(s[3], s[4]) == r.offset
      && s[5..5 + |r.data|] == r.data && s[RECORD_HEADER + |r.data|..] == Packed(rs[1..])
  {
    var s, r := Packed(rs), rs[0];
    Le16RoundTrip(|r.data|);
    Le16RoundTrip(r.offset);
    hide Le16, Lo, Hi;
    assert s == r.Header() + (r.data + Packed(rs[1..]));
  }

  lemma NextChunk(rest: seq<byte>, chunks: seq<seq<Record>>, capacity: nat)
    requires FileHolds(rest, chunks, capacity)
    ensures chunks == [] ==> FirstChunk(rest) == None
    ensures chunks != [] ==>
      && FirstChunk(rest) == Some(Packed(chunks[0])) && HEADER_SIZE + |Packed(chunks[0])| <= |rest|
      && FileHolds(rest[HEADER_SIZE + |Packed(chunks[0])|..], chunks[1..], capacity) && AllFit(chunks[0])
  {
    if chunks != [] {
      var k := HEADER_SIZE + |Packed(chunks[0])|;
      hide IsChunk, FirstChunk;
      assert rest[..k] + rest[k..] == rest;
      ChunkComesFirst(rest[..k], Packed(chunks[0]), rest[k..]);
    }
  }

  /** Reads a log to its end. */
  method ReadAll(log: SerialLog) returns (rs: seq<Record>)
    requires log.Reading()
    modifies log, log.dev, log.dev.file, log.chunk, log.chunk.buf
    ensures log.Reading() && rs == old(log.Rest())
  {
    hide IsChunk, Stored, Unpacked, Flatten, Packed, FileHolds;
    rs := [];
    var r := Some(Record(0, 0, []));
    while r.Some?
      invariant log.Reading() && rs + log.Rest() == old(log.Rest())
      invariant r.None? ==> log.Rest() == []
      decreases |log.Rest()|, if r.Some? then 1 else 0
    {
      r := log.ReadData();
      if r.Some? {
        rs := rs + [r.value];
      }
    }
  }

  /** Records saved, the log closed and read again: exactly the records saved come back, in order. */
  method SaveAndReadBack(rs: seq<Record>, capacity: nat, maxFileSize: nat, version: seq<byte>, ident: seq<byte>)
    returns (saved: seq<Record>, back: seq<Record>)
    requires capacity < WORD && maxFileSize < WORD && |version| == 12 && |ident| == 16 && AllFit(rs)
    ensures back == saved
    ensures (forall i :: 0 <= i < |rs| ==> RECORD_HEADER + |rs[i].data| <= capacity) ==> saved == rs
  {
    hide IsChunk, Stored, Unpacked, Flatten, Packed, FileHolds;
    var log := new SerialLog.ForWriting(capacity, maxFileSize, true, version, ident);
    saved := [];
    for i := 0 to |rs|
      invariant log.Writing() && log.Records() == saved && log.dev.openable && log.chunk.buf.Length == capacity
      invariant fresh(log) && fresh(log.dev) && fresh(log.dev.file) && fresh(log.chunk) && fresh(log.chunk.buf)
      invariant (forall k :: 0 <= k < i ==> RECORD_HEADER + |rs[k].data| <= capacity) ==> saved == rs[..i]
    {
      var ok := log.SaveData(rs[i]);
      if ok {
        saved := saved + [rs[i]];
      }
    }
    var _ := log.CloseAllFiles();
    FlattenNothing();
    var reader := new SerialLog.ForReading(capacity, log.dev.files, log.done, version, ident);
    back := ReadAll(reader);
  }
}
