/** The log's data chunk: a bounded buffer that is filled record by record, spilled to a file and read back. */
module DataChunk {
  import opened Bytes

  /** An ideal file: what is written is appended, what is read is the next bytes. */
  class LogFile {
    var bytes: seq<byte>
    var pos: nat

    ghost predicate Valid()
      reads this
    {
      pos <= |bytes|
    }

    constructor (bytes: seq<byte>)
      ensures Valid() && this.bytes == bytes && pos == 0
    {
      this.bytes := bytes;
      pos := 0;
    }

    method Open(bytes: seq<byte>)
      modifies this
      ensures Valid() && this.bytes == bytes && pos == 0
    {
      this.bytes := bytes;
      pos := 0;
    }

    method Write(data: seq<byte>) returns (n: nat)
      modifies this
      ensures bytes == old(bytes) + data && pos == old(pos) && n == |data|
    {
      bytes := bytes + data;
      n := |data|;
    }

    method Read(n: nat) returns (data: seq<byte>)
      requires Valid()
      modifies this
      ensures Valid() && bytes == old(bytes)
      ensures |data| == (if n <= |bytes| - old(pos) then n else |bytes| - old(pos)) && pos == old(pos) + |data|
      ensures data == bytes[old(pos)..pos]
    {
      var k := if n <= |bytes| - pos then n else |bytes| - pos;
      data := bytes[pos..pos + k];
      pos := pos + k;
    }
  }

  const MARKER := 0xFC05EA32
  const HEADER_SIZE := 40
  const WORD := 0x1_0000_0000

  function Le32(n: nat): (s: seq<byte>)
    ensures |s| == 4
  {
    var low, high := n % 0x10000, n / 0x10000;
    [Lo(low), Hi(low), Lo(high), Hi(high)]
  }

  function FromLe32(s: seq<byte>): (n: nat)
    requires |s| == 4
    ensures n < WORD
  {
    Le16(s[0], s[1]) + 0x10000 * Le16(s[2], s[3])
  }

  lemma Le32RoundTrip(n: nat)
    requires n < WORD
    ensures FromLe32(Le32(n)) == n
  {
    hide Lo, Hi, Le16;
    Le16RoundTrip(n % 0x10000);
    Le16RoundTrip(n / 0x10000);
  }

  /** The bitwise inverse of a 32-bit word. */
  function Inverse(n: nat): (m: nat)
    requires n < WORD
    ensures m < WORD
  {
    WORD - 1 - n
  }

  /** The 40 header bytes: marker, 12 bytes of version and name, data size, its inverse, 16 bytes of identification. */
  datatype Header = Header(marker: nat, version: seq<byte>, dataSize: nat, invDataSize: nat, ident: seq<byte>) {
    predicate Valid() {
      marker < WORD && |version| == 12 && dataSize < WORD && invDataSize < WORD && |ident| == 16
    }

    function Encode(): (s: seq<byte>)
      requires Valid()
      ensures |s| == HEADER_SIZE
    {
      Le32(marker) + version + Le32(dataSize) + Le32(invDataSize) + ident
    }
  }

  function Decode(s: seq<byte>): (h: Header)
    requires |s| == HEADER_SIZE
    ensures h.Valid()
  {
    Header(FromLe32(s[..4]), s[4..16], FromLe32(s[16..20]), FromLe32(s[20..24]), s[24..40])
  }

  lemma HeaderRoundTrip(h: Header)
    requires h.Valid()
    ensures Decode(h.Encode()) == h
  {
    hide Le32, FromLe32;
    var s := h.Encode();
    Le32RoundTrip(h.marker);
    Le32RoundTrip(h.dataSize);
    Le32RoundTrip(h.invDataSize);
    assert s[..4] == Le32(h.marker) && s[4..16] == h.version && s[16..20] == Le32(h.dataSize)
        && s[20..24] == Le32(h.invDataSize) && s[24..40] == h.ident;
  }

  /** A header that states the size of what follows it, twice. */
  predicate Describes(h: Header, size: nat) {
    h.Valid() && h.marker == MARKER && h.dataSize == size && size < WORD && h.invDataSize == Inverse(size)
  }

  /** A chunk in a file: a header that describes it, then its data. */
  predicate IsChunk(s: seq<byte>, data: seq<byte>) {
    |s| == HEADER_SIZE + |data| && Describes(Decode(s[..HEADER_SIZE]), |data|) && s[HEADER_SIZE..] == data
  }

  /** The data of the chunk that `s` begins with, if it begins with a whole one. */
  function FirstChunk(s: seq<byte>): Option<seq<byte>> {
    if |s| < HEADER_SIZE then None
    else
      var h := Decode(s[..HEADER_SIZE]);
      if Describes(h, h.dataSize)
          && |s| >= HEADER_SIZE + h.dataSize then Some(s[HEADER_SIZE..HEADER_SIZE + h.dataSize]) else None
  }

  lemma ChunkComesFirst(s: seq<byte>, data: seq<byte>, more: seq<byte>)
    requires IsChunk(s, data)
    ensures FirstChunk(s + more) == Some(data)
  {
    hide Decode;
    assert (s + more)[..HEADER_SIZE] == s[..HEADER_SIZE];
    assert (s + more)[HEADER_SIZE..HEADER_SIZE + |data|] == s[HEADER_SIZE..];
  }

  function Least(a: int, b: int): int {
    if a < b then a else b
  }

  /** What a header read into memory says about the bytes behind it; a short read leaves the rest of the old header. */
  function Overlaid(h: Header, raw: seq<byte>): (r: Header)
    requires h.Valid() && |raw| <= HEADER_SIZE
    ensures r.Valid()
  {
    Decode(raw + h.Encode()[|raw|..])
  }

  lemma CountedTwice(n: nat, a: nat, b: nat)
    ensures ((n + a) % WORD + b) % WORD == (n + (a + b)) % WORD
  {
  }

  class DataChunk {
    const buf: array<byte>
    var head: nat
    var tail: nat
    var hdr: Header

    /** The data not yet taken out. */
    ghost function Contents(): seq<byte>
      requires head <= tail <= buf.Length
      reads this, buf
    {
      buf[head..tail]
    }

    /** The pointers are in order; a header that was rejected may say anything. */
    ghost predicate InOrder()
      reads this
    {
      head <= tail <= buf.Length < WORD && hdr.Valid()
    }

    /** The header's size is that of the data. */
    ghost predicate Valid()
      reads this
    {
      InOrder() && hdr.dataSize == tail - head
    }

    /** The whole header is right: so it is while a chunk is filled, but not after a read without a header. */
    ghost predicate Described()
      reads this
    {
      InOrder() && Describes(hdr, tail - head)
    }

    /** Nothing is in the chunk, but its header says 34 until the first `Clear`. */
    constructor (capacity: nat, version: seq<byte>, ident: seq<byte>)
      requires capacity < WORD && |version| == 12 && |ident| == 16
      ensures fresh(buf) && buf.Length == capacity && InOrder() && Contents() == []
      ensures hdr.marker == MARKER && hdr.dataSize == 34 && !Valid()
    {
      buf := new byte[capacity](_ => 0);
      head, tail := 0, 0;
      hdr := Header(MARKER, version, 34, WORD - 1, ident);
    }

    method Clear()
      requires InOrder()
      modifies this
      ensures Valid() && head == tail == 0 && hdr == old(hdr).(dataSize := 0, invDataSize := Inverse(0))
    {
      hdr := hdr.(dataSize := 0, invDataSize := WORD - 1);
      head, tail := 0, 0;
    }

    function Free(): nat
      requires InOrder()
      reads this
    {
      buf.Length - tail
    }

    /** Appends both pieces, or nothing if they do not fit. The header's size is counted up, whatever it was. */
    method PushBack(d1: seq<byte>, d2: seq<byte>) returns (n: nat)
      requires InOrder()
      modifies this, buf
      ensures InOrder() && head == old(head) && (old(Described()) ==> Described())
      ensures |d1| + |d2| > old(Free()) ==> n == 0 && Contents() == old(Contents()) && hdr == old(hdr)
      ensures |d1| + |d2| <= old(Free()) ==>
        && n == |d1| + |d2| && Contents() == old(Contents()) + d1 + d2
        && hdr == old(hdr).(dataSize := (old(hdr).dataSize + n) % WORD,
           invDataSize := Inverse((old(hdr).dataSize + n) % WORD))
    {
      hide Inverse;
      n := |d1| + |d2|;
      if n > Free() {
        return 0;
      }
      Store(d1);
      Store(d2);
      CountedTwice(old(hdr).dataSize, |d1|, |d2|);
      hdr := hdr.(invDataSize := Inverse(hdr.dataSize));
    }

    method Store(d: seq<byte>)
      requires InOrder() && |d| <= Free()
      modifies this`tail, this`hdr, buf
      ensures InOrder() && tail == old(tail) + |d| && Contents() == old(Contents()) + d
      ensures hdr == old(hdr).(dataSize := (old(hdr).dataSize + |d|) % WORD)
    {
      for i := 0 to |d|
        invariant forall k :: 0 <= k < i ==> buf[tail + k] == d[k]
        invariant forall k :: 0 <= k < tail ==> buf[k] == old(buf[k])
        modifies buf
      {
        buf[tail + i] := d[i];
      }
      tail := tail + |d|;
      hdr := hdr.(dataSize := (hdr.dataSize + |d|) % WORD);
    }

    /** Takes bytes off the front; asking for more than there are empties the chunk. */
    method PopFront(size: nat) returns (ok: bool)
      requires Valid()
      modifies this
      ensures Valid() && hdr.invDataSize == Inverse(hdr.dataSize)
      ensures ok == (size <= |old(Contents())|)
      ensures Contents() == if ok then old(Contents())[size..] else []
    {
      if size <= tail - head {
        head := head + size;
        hdr := hdr.(dataSize := hdr.dataSize - size, invDataSize := Inverse(hdr.dataSize - size));
        return true;
      }
      Clear();
      return false;
    }

    /** Spills the chunk to the end of a file, behind a header if there is to be one, and clears it. */
    method WriteToFile(file: LogFile?, group: seq<byte>, writeHeader: bool) returns (n: int)
      requires Described() && |group| == 4
      modifies this, file
      ensures Described()
      ensures file == null ==> n == -1 && Contents() == old(Contents())
      ensures file != null ==>
        && Contents() == [] && head == 0 && file.pos == old(file.pos)
        && |old(file.bytes)| <= |file.bytes| && n == |file.bytes| - |old(file.bytes)|
        && file.bytes[..|old(file.bytes)|] == old(file.bytes)
        && (writeHeader ==> IsChunk(file.bytes[|old(file.bytes)|..], old(Contents())))
        && (writeHeader ==>
             Decode(file.bytes[|old(file.bytes)|..][..HEADER_SIZE]) == old(hdr).(ident := group + old(hdr).ident[4..]))
        && (!writeHeader ==> file.bytes[|old(file.bytes)|..] == old(Contents()))
    {
      hide Decode, Inverse;
      if file == null {
        return -1;
      }
      ghost var data, before := Contents(), file.bytes;
      hdr := hdr.(ident := group + hdr.ident[4..]);
      n := 0;
      if writeHeader {
        var k := file.Write(hdr.Encode());
        n := n + k;
        HeaderRoundTrip(hdr);
      }
      var k := file.Write(buf[head..head + hdr.dataSize]);
      n := n + k;
      ghost var added := if writeHeader then hdr.Encode() + data else data;
      assert file.bytes == before + added;
      assert writeHeader ==> added[..HEADER_SIZE] == hdr.Encode() && added[HEADER_SIZE..] == data;
      if writeHeader && n != HEADER_SIZE + hdr.dataSize {
        return -1;
      }
      Clear();
    }

    /** The header in front does not promise more bytes than the buffer can take and the file can give. */
    ghost predicate CanTake(rest: seq<byte>)
    {
      |rest| >= HEADER_SIZE ==>
        || |rest| - HEADER_SIZE <= buf.Length
        || Decode(rest[..HEADER_SIZE]).dataSize <= buf.Length
    }

    /** Fills the chunk from a file: with the next chunk if there is a header, else with as many bytes as fit. */
    method ReadFromFile(file: LogFile?, readHeader: bool) returns (n: int)
      requires InOrder() && (file != null ==> file.Valid())
      requires readHeader && file != null ==> CanTake(file.bytes[file.pos..])
      modifies this, buf, file
      ensures InOrder()
      ensures file == null ==> n == -1 && Contents() == old(Contents())
      ensures file != null ==> file.Valid() && file.bytes == old(file.bytes) && old(file.pos) <= file.pos
      ensures file != null && n < 0 ==> n == -1 && Contents() == []
      ensures n >= 0 ==> Valid() && file != null && file.pos == old(file.pos) + n
      ensures file != null && !readHeader ==>
        && n == (if Contents() == [] then -1 else |Contents()|)
        && |Contents()| == Least(|file.bytes| - old(file.pos), buf.Length)
        && file.pos == old(file.pos) + |Contents()| && Contents() == file.bytes[old(file.pos)..file.pos]
        && hdr.invDataSize == Inverse(0)
      ensures file != null && readHeader ==> match FirstChunk(old(file.bytes[file.pos..]))
        case Some(data) => n == HEADER_SIZE + |data| && Contents() == data && Described()
        case None => n < 0
    {
      if file == null {
        return -1;
      }
      Clear();
      if readHeader {
        n := ReadHeader(file);
        if hdr.dataSize != Inverse(hdr.invDataSize) || n <= 0 {
          return -1;
        }
      } else {
        hdr := hdr.(dataSize := Free());
        n := 0;
      }
      hide Decode, Inverse;
      ghost var rest, at := old(file.bytes[file.pos..]), file.pos - old(file.pos);
      var data := file.Read(hdr.dataSize);
      assert data == rest[at..at + |data|];
      Fill(data);
      assert Contents() == data;
      n := n + (tail - head);
      if !readHeader {
        hdr := hdr.(dataSize := n);
        return if hdr.dataSize > 0 then hdr.dataSize else -1;
      }
      if hdr.marker != MARKER || n != HEADER_SIZE + hdr.dataSize {
        Clear();
        return -1;
      }
    }

    /** Reads as much of a header as there is over the old one. */
    method ReadHeader(file: LogFile) returns (n: nat)
      requires InOrder() && file.Valid()
      modifies this`hdr, file
      ensures file.Valid() && file.bytes == old(file.bytes) && file.pos == old(file.pos) + n
      ensures n == Least(HEADER_SIZE, |file.bytes| - old(file.pos)) && hdr.Valid()
      ensures n == HEADER_SIZE ==> hdr == Decode(old(file.bytes[file.pos..])[..HEADER_SIZE])
    {
      hide Decode;
      ghost var rest := file.bytes[file.pos..];
      var raw := file.Read(HEADER_SIZE);
      if |raw| == HEADER_SIZE {
        assert raw == rest[..HEADER_SIZE] && raw + hdr.Encode()[|raw|..] == raw;
      }
      hdr := Overlaid(hdr, raw);
      n := |raw|;
    }

    /** Bytes are put at the start of an empty buffer. */
    method Fill(data: seq<byte>)
      requires |data| <= buf.Length && head == tail == 0
      modifies this`tail, buf
      ensures tail == |data| && buf[..tail] == data
    {
      for i := 0 to |data|
        invariant forall k :: 0 <= k < i ==> buf[k] == data[k]
      {
        buf[i] := data[i];
      }
      tail := |data|;
    }
  }
}
