/** The CSV log: one list of files per data set, rows stamped by one counter, and a merge that restores their order. */
module CsvLog {
  import opened Bytes

  /** A row: its order number, the data set it belongs to, and its cells as text. */
  datatype Row = Row(orderId: nat, id: nat, cells: string)

  /** The largest 64-bit number. */
  const NO_ORDER := 0xFFFF_FFFF_FFFF_FFFF

  /** The rows of one data set, in their order. */
  function Of(id: nat, rows: seq<Row>): seq<Row> {
    if rows == [] then []
    else (if rows[0].id == id then [rows[0]] else []) + Of(id, rows[1..])
  }

  predicate Increasing(rows: seq<Row>) {
    forall i, j :: 0 <= i < j < |rows| ==> rows[i].orderId < rows[j].orderId
  }

  predicate Below(rows: seq<Row>, bound: nat) {
    forall i :: 0 <= i < |rows| ==> rows[i].orderId < bound
  }

  lemma {:induction false} OfAppend(id: nat, rows: seq<Row>, r: Row)
    ensures Of(id, rows + [r]) == Of(id, rows) + if r.id == id then [r] else []
  {
    if rows == [] {
      assert rows + [r] == [r] && [r][1..] == [];
    } else {
      assert (rows + [r])[0] == rows[0] && (rows + [r])[1..] == rows[1..] + [r];
      OfAppend(id, rows[1..], r);
      var first, last := if rows[0].id == id then [rows[0]] else [], if r.id == id then [r] else [];
      assert first + (Of(id, rows[1..]) + last) == first + Of(id, rows[1..]) + last;
    }
  }

  lemma {:induction false} OfBelongs(id: nat, rows: seq<Row>)
    ensures forall i :: 0 <= i < |Of(id, rows)| ==> Of(id, rows)[i] in rows && Of(id, rows)[i].id == id
  {
    if rows != [] {
      OfBelongs(id, rows[1..]);
    }
  }

  /** Among the first rows of all data sets, the one with the lowest number is the first row of all. */
  lemma LowestIsFirst(rows: seq<Row>, id: nat)
    requires Increasing(rows) && rows != [] && Of(id, rows) != []
    ensures Of(rows[0].id, rows) != [] && Of(rows[0].id, rows)[0] == rows[0]
    ensures rows[0].orderId <= Of(id, rows)[0].orderId
    ensures Of(id, rows)[0].orderId == rows[0].orderId ==> id == rows[0].id
  {
    OfBelongs(id, rows);
    var r := Of(id, rows)[0];
    var k :| 0 <= k < |rows| && rows[k] == r;
  }

  // ----- writing --------------------------------------------------------------------------

  /** The log of one data set: whether its last file is open, and how long that file is. */
  datatype WriteLog = WriteLog(open: bool, fileCount: nat, fileSize: nat)

  class CsvWriter {
    const names: set<nat>                   // the data sets that have a name
    const maxFileSize: nat
    const headerSize: nat -> nat            // the length of a data set's header line
    var nextId: nat
    var logs: map<nat, WriteLog>
    var files: map<nat, seq<seq<Row>>>      // the files of each data set, in order of creation
    var closed: bool                        // nothing is saved after the close
    ghost var saved: seq<Row>               // every row written, in order

    ghost predicate Valid()
      reads this
    {
      && Increasing(saved) && Below(saved, nextId) && nextId <= NO_ORDER
      && (forall id :: Holds(id)) && files.Keys <= names
    }

    /** The files of a data set hold its rows in order; an open file is the last of them. */
    ghost predicate Holds(id: nat)
      reads this`saved, this`files, this`logs
    {
      && Of(id, saved) == (if id in files then Flatten(files[id]) else [])
      && (id in logs && logs[id].open ==> id in files && files[id] != [])
    }

    constructor InitDeviceForWriting(names: set<nat>, maxFileSize: nat, headerSize: nat -> nat)
      ensures Valid() && !closed && saved == [] && this.names == names && nextId == 0
    {
      this.names, this.maxFileSize, this.headerSize := names, maxFileSize, headerSize;
      nextId, logs, files, closed, saved := 0, map[], map[], false, [];
    }

    /** Starts a new file for a data set, if it has a name. */
    method OpenNewFile(id: nat) returns (ok: bool)
      requires Valid() && !closed
      modifies this`logs, this`files
      ensures Valid() && ok == (id in names)
      ensures ok ==> id in logs && logs[id].open && id in files && |files[id]| == FileCount(id, old(files)) + 1
    {
      if id !in names {
        return false;
      }
      hide Of, Flatten, Increasing, Below;
      var before := if id in files then files[id] else [];
      var count := if id in logs then logs[id].fileCount else 0;
      assert Holds(id);
      FlattenAppend(before, []);
      FlattenNone();
      files := files[id := before + [[]]];
      logs := logs[id := WriteLog(true, count + 1, headerSize(id))];
      forall k ensures Holds(k) {
        assert old(Holds(k));
      }
      return true;
    }

    /** Writes a row to the data set's file. `nBytes` is its length there, zero if the data cannot be converted. */
    method SaveData(id: nat, cells: string, nBytes: nat) returns (ok: bool)
      requires Valid() && !closed && nextId < NO_ORDER
      modifies this
      ensures Valid() && !closed && ok == (id in names)
      ensures nextId == if ok then old(nextId) + 1 else old(nextId)
      ensures saved == if ok && nBytes > 0 then old(saved) + [Row(old(nextId), id, cells)] else old(saved)
      ensures ok ==> id in logs && (if logs[id].open then logs[id].fileSize < maxFileSize else logs[id].fileSize == 0)
      ensures ok ==>
        && id in files
        && |files[id]| == FileCount(id, old(files)) + if id in old(logs) && old(logs)[id].open then 0 else 1
    {
      hide Of, Flatten;
      assert Holds(id);
      if id !in logs || !logs[id].open {
        ok := OpenNewFile(id);
        if !ok {
          return;
        }
      }
      if nBytes > 0 {
        WriteRow(id, cells);
      } else {
        nextId := nextId + 1;
      }
      var size := logs[id].fileSize + nBytes;
      label Written:
      logs := logs[id := if size >= maxFileSize then logs[id].(open := false, fileSize := 0)
          else logs[id].(fileSize := size)];
      forall k ensures Holds(k) {
        assert old@Written(Holds(k));
      }
      return true;
    }

    method WriteRow(id: nat, cells: string)
      requires Valid() && nextId < NO_ORDER && id in logs && logs[id].open
      modifies this`nextId, this`files, this`saved
      ensures Valid() && id in logs && logs[id].open && nextId == old(nextId) + 1
      ensures id in files && |files[id]| == FileCount(id, old(files))
      ensures saved == old(saved) + [Row(old(nextId), id, cells)]
    {
      hide Of, Flatten;
      assert Holds(id);
      var row, of := Row(nextId, id, cells), files[id];
      var last := |of| - 1;
      LastGrows(of, row);
      files := files[id := of[last := of[last] + [row]]];
      nextId := nextId + 1;
      saved := saved + [row];
      forall k ensures Holds(k) {
        assert old(Holds(k));
        OfAppend(k, old(saved), row);
        assert old(Of(k, saved)) + [] == old(Of(k, saved));
      }
    }

    /** Ends the writing: every data set's count of files is forgotten. */
    method CloseAllFiles()
      requires Valid() && !closed
      modifies this`logs, this`closed
      ensures Valid() && closed && logs == map[]
    {
      logs, closed := map[], true;
      forall k ensures Holds(k) {
        assert old(Holds(k));
      }
    }
  }

  lemma FlattenNone()
    ensures Flatten<Row>([]) == []
  {
  }

  function FileCount(id: nat, files: map<nat, seq<seq<Row>>>): nat {
    if id in files then |files[id]| else 0
  }

  lemma LastGrows(files: seq<seq<Row>>, r: Row)
    requires files != []
    ensures var k := |files| - 1; Flatten(files[k := files[k] + [r]]) == Flatten(files) + [r]
  {
    var k := |files| - 1;
    assert files == files[..k] + [files[k]] && files[k := files[k] + [r]] == files[..k] + [files[k] + [r]];
    FlattenAppend(files[..k], files[k]);
    FlattenAppend(files[..k], files[k] + [r]);
  }

  // ----- reading --------------------------------------------------------------------------

  /** The log of one data set: the rest of its open file, and the row read ahead. */
  datatype ReadLog = ReadLog(open: bool, left: seq<Row>, nextLine: Row)

  class CsvReader {
    const idCount: nat                      // data set identifiers are below this
    const parses: Row -> bool               // whether the cells of a row can be converted back
    const files: map<nat, seq<seq<Row>>>
    var fileIndex: map<nat, nat>
    var logs: map<nat, ReadLog>
    ghost var pending: seq<Row>             // the rows not yet returned

    ghost predicate Indexed()
      reads this
    {
      forall id :: id in files ==> id in fileIndex && fileIndex[id] <= |files[id]|
    }

    /** The rows of a data set behind the one read ahead. */
    ghost function Behind(id: nat, log: ReadLog): seq<Row>
      requires Indexed() && id in files
      reads this
    {
      log.left + Flatten(files[id][fileIndex[id]..])
    }

    /** Each log is the part of the pending rows that belongs to its data set, and data sets without a log have none. */
    ghost predicate Splits(id: nat)
      requires Indexed()
      reads this
    {
      if id in logs then id in files && id < idCount && logs[id].open
          && Of(id, pending) == [logs[id].nextLine] + Behind(id, logs[id])
      else Of(id, pending) == []
    }

    ghost predicate Valid()
      reads this
    {
      Indexed() && Increasing(pending) && Below(pending, NO_ORDER) && forall id :: Splits(id)
    }

    /** Opens the next file of a data set; without one the data set's log is dropped. */
    method OpenNewFile(id: nat, log: ReadLog) returns (ok: bool, next: ReadLog)
      requires Indexed() && id in files && log.left == []
      modifies this`fileIndex, this`logs
      ensures Indexed() && ok == (old(fileIndex[id]) < |files[id]|)
      ensures ok ==>
        && next.open && next.nextLine == log.nextLine && Behind(id, next) == old(Behind(id, log))
        && logs == old(logs) && fileIndex == old(fileIndex)[id := old(fileIndex[id]) + 1]
      ensures !ok ==> logs == old(logs) - {id} && fileIndex == old(fileIndex) && Behind(id, log) == []
    {
      var index := fileIndex[id];
      if index >= |files[id]| {
        logs := logs - {id};
        return false, log;
      }
      assert files[id][index..][1..] == files[id][index + 1..];
      fileIndex := fileIndex[id := index + 1];
      return true, log.(open := true, left := files[id][index]);
    }

    /** Reads a row ahead from the open file. */
    method GetNextLineForFile(log: ReadLog) returns (ok: bool, next: ReadLog)
      ensures ok == (log.open && log.left != [])
      ensures ok ==> next == ReadLog(true, log.left[1..], log.left[0])
      ensures !ok ==> next == log
    {
      if !log.open || log.left == [] {
        return false, log;
      }
      return true, ReadLog(true, log.left[1..], log.left[0]);
    }

    /** Reads a row ahead, from file to file; without one the data set's log is dropped. */
    method ReadAhead(id: nat, log: ReadLog) returns (more: bool, next: ReadLog)
      requires Indexed() && id in files && log.open
      modifies this`fileIndex, this`logs
      ensures Indexed() && (forall k :: k in old(fileIndex) && k != id ==>
        k in fileIndex && fileIndex[k] == old(fileIndex[k]))
      ensures more == (old(Behind(id, log)) != [])
      ensures more ==> logs == old(logs) && next.open && [next.nextLine] + Behind(id, next) == old(Behind(id, log))
      ensures !more ==> logs == old(logs) - {id}
    {
      ghost var rows := Behind(id, log);
      next := log;
      while true
        invariant Indexed() && next.open && Behind(id, next) == rows && logs == old(logs)
        invariant forall k :: k in old(fileIndex) && k != id ==> k in fileIndex && fileIndex[k] == old(fileIndex[k])
        decreases |files[id]| - fileIndex[id]
      {
        more, next := GetNextLineForFile(next);
        if more {
          return;
        }
        more, next := OpenNewFile(id, next);
        if !more {
          return;
        }
      }
    }

    /** Reads ahead for every data set that has files. */
    constructor InitDeviceForReading(idCount: nat, parses: Row -> bool, files: map<nat, seq<seq<Row>>>,
        ghost rows: seq<Row>)
      requires Increasing(rows) && Below(rows, NO_ORDER)
      requires forall id :: id in files ==> id < idCount
      requires forall id :: StoredIn(files, rows, id)
      ensures Valid() && pending == rows && this.parses == parses && this.files == files
    {
      this.idCount, this.parses, this.files := idCount, parses, files;
      fileIndex := map id | id in files :: 0;
      logs := map[];
      pending := rows;
      new;
      hide Of, Flatten;
      for id := 0 to idCount
        invariant Indexed() && pending == rows
        invariant forall k :: 0 <= k < id ==> Splits(k)
        invariant forall k :: id <= k ==> k !in logs && (k in files ==> fileIndex[k] == 0)
      {
        assert StoredIn(files, rows, id);
        label Before:
        if id in files {
          StartReading(id);
        }
        forall k | 0 <= k < id ensures Splits(k) {
          assert old@Before(Splits(k));
        }
      }
      forall k ensures Splits(k) {
        assert StoredIn(files, rows, k);
      }
    }

    /** Opens files of a data set until one has a row. */
    method StartReading(id: nat)
      requires Indexed() && id in files && id !in logs && id < idCount && fileIndex[id] == 0
        && StoredIn(files, pending, id)
      modifies this`fileIndex, this`logs
      ensures Indexed() && Splits(id)
        && (forall k :: k in old(fileIndex) && k != id ==> k in fileIndex && fileIndex[k] == old(fileIndex[k]))
      ensures forall k :: k != id ==> (k in logs <==> k in old(logs)) && (k in logs ==> logs[k] == old(logs[k]))
    {
      hide Of, Flatten;
      assert files[id][0..] == files[id];
      var log := ReadLog(false, [], Row(0, id, ""));
      assert [] + Flatten(files[id]) == Flatten(files[id]);
      var more;
      more, log := OpenNewFile(id, log);
      if more {
        more, log := ReadAhead(id, log);
      }
      if more {
        logs := logs[id := log];
      }
    }

    /** The next row that can be converted back, or nothing at the end. */
    method ReadData() returns (r: Option<Row>)
      requires Valid()
      modifies this`fileIndex, this`logs, this`pending
      ensures Valid() && (r, pending) == NextParsed(old(pending), parses)
    {
      hide Of, Flatten;
      ghost var rows := pending;
      while logs != map[]
        invariant Valid() && NextParsed(pending, parses) == NextParsed(rows, parses)
        decreases |pending|
      {
        SomeLeft();
        var id := Lowest();
        r := ReadDataFromFile(id);
        if r.Some? {
          return;
        }
      }
      if pending != [] {
        FirstHasLog();
      }
      return None;
    }

    lemma SomeLeft()
      requires Valid() && logs != map[]
      ensures pending != []
    {
      var id :| id in logs;
      assert Splits(id);
    }

    lemma FirstHasLog()
      requires Valid() && pending != []
      ensures pending[0].id in logs && logs[pending[0].id].nextLine == pending[0] && pending[0].id < idCount
    {
      assert Splits(pending[0].id);
      FirstOf(pending);
    }

    /** The data set whose row read ahead has the lowest number; data sets are visited in the order of their
        identifiers. */
    method Lowest() returns (id: nat)
      requires Valid() && pending != []
      ensures id == pending[0].id && id in logs && logs[id].nextLine == pending[0]
    {
      hide Flatten, Increasing;
      ghost var first := pending[0];
      FirstHasLog();
      assert first.orderId < NO_ORDER;
      var lowest := NO_ORDER;
      id := 0;
      for k := 0 to idCount
        invariant lowest == NO_ORDER || (id in logs && lowest == logs[id].nextLine.orderId)
        invariant forall i :: 0 <= i < k && i in logs ==> lowest <= logs[i].nextLine.orderId
      {
        if k in logs && logs[k].nextLine.orderId < lowest {
          id, lowest := k, logs[k].nextLine.orderId;
        }
      }
      assert first.id in logs && lowest <= first.orderId;
      assert Splits(id);
      LowestIsFirst(pending, id);
    }

    /** Takes the row read ahead for a data set, and reads the next one ahead. */
    method ReadDataFromFile(id: nat) returns (r: Option<Row>)
      requires Valid() && pending != [] && id == pending[0].id && id in logs && logs[id].nextLine == pending[0]
      modifies this`fileIndex, this`logs, this`pending
      ensures Valid() && pending == old(pending)[1..]
      ensures r == if parses(old(pending)[0]) then Some(old(pending)[0]) else None
    {
      hide Of, Flatten;
      assert Splits(id);
      FirstOf(pending);
      var line := logs[id].nextLine;
      r := if parses(line) then Some(line) else None;
      var more, log := ReadAhead(id, logs[id]);
      if more {
        logs := logs[id := log];
      }
      pending := pending[1..];
      Cancel(line, old(Behind(id, logs[id])), Of(id, pending));
      forall k ensures Splits(k) {
        assert old(Splits(k));
        OfRest(old(pending), k);
        assert [] + Of(k, pending) == Of(k, pending);
      }
    }
  }

  lemma Cancel(r: Row, a: seq<Row>, b: seq<Row>)
    requires [r] + a == [r] + b
    ensures a == b
  {
    assert ([r] + a)[1..] == a && ([r] + b)[1..] == b;
  }

  lemma FirstOf(rows: seq<Row>)
    requires rows != []
    ensures Of(rows[0].id, rows) == [rows[0]] + Of(rows[0].id, rows[1..])
  {
  }

  lemma OfRest(rows: seq<Row>, id: nat)
    requires rows != []
    ensures Of(id, rows) == (if rows[0].id == id then [rows[0]] else []) + Of(id, rows[1..])
  {
  }

  /** The files of a data set hold its part of the rows. */
  predicate StoredIn(files: map<nat, seq<seq<Row>>>, rows: seq<Row>, id: nat) {
    Of(id, rows) == if id in files then Flatten(files[id]) else []
  }

  /** The first row that can be converted back, and the rows behind it. */
  function NextParsed(rows: seq<Row>, parses: Row -> bool): (Option<Row>, seq<Row>) {
    if rows == [] then (None, [])
    else if parses(rows[0]) then (Some(rows[0]), rows[1..])
    else NextParsed(rows[1..], parses)
  }

  /** The rows that can be converted back. */
  function Parsed(rows: seq<Row>, parses: Row -> bool): seq<Row> {
    if rows == [] then []
    else (if parses(rows[0]) then [rows[0]] else []) + Parsed(rows[1..], parses)
  }

  lemma {:induction false} ParsedUnfolds(rows: seq<Row>, parses: Row -> bool)
    ensures var (r, left) := NextParsed(rows, parses);
      && (r.None? ==> Parsed(rows, parses) == [] && left == [])
      && (r.Some? ==> Parsed(rows, parses) == [r.value] + Parsed(left, parses) && |left| < |rows|)
  {
    if rows != [] && !parses(rows[0]) {
      ParsedUnfolds(rows[1..], parses);
    }
  }

  /** Reads a log to its end. */
  method ReadAll(log: CsvReader) returns (rows: seq<Row>)
    requires log.Valid()
    modifies log
    ensures rows == Parsed(old(log.pending), log.parses)
  {
    hide Of, Flatten, Parsed, NextParsed, Increasing, Below;
    rows := [];
    while true
      invariant log.Valid() && rows + Parsed(log.pending, log.parses) == Parsed(old(log.pending), log.parses)
      decreases |log.pending|
    {
      ParsedUnfolds(log.pending, log.parses);
      var r := log.ReadData();
      if r.None? {
        return;
      }
      rows := rows + [r.value];
    }
  }

  /** Rows of any data sets saved in any order, in files that rotate, and read again: every row once, in the order
      saved. */
  method SaveAndReadBack(names: set<nat>, idCount: nat, maxFileSize: nat, headerSize: nat -> nat, parses: Row -> bool,
                         data: seq<(nat, string, nat)>)
    returns (saved: seq<Row>, rows: seq<Row>)
    requires (forall id :: id in names ==> id < idCount) && |data| < NO_ORDER
    ensures rows == Parsed(saved, parses) && Increasing(saved)
    ensures (forall i :: 0 <= i < |data| ==> data[i].0 in names && data[i].2 > 0) ==>
      |saved| == |data| && forall i :: 0 <= i < |data| ==> saved[i] == Row(i, data[i].0, data[i].1)
  {
    hide Of, Flatten, Parsed;
    var log := new CsvWriter.InitDeviceForWriting(names, maxFileSize, headerSize);
    saved := [];
    for i := 0 to |data|
      invariant log.Valid() && !log.closed && log.saved == saved && log.nextId <= i && log.names == names
      invariant fresh(log)
      invariant (forall k :: 0 <= k < i ==> data[k].0 in names && data[k].2 > 0) ==>
        log.nextId == |saved| == i && forall k :: 0 <= k < i ==> saved[k] == Row(k, data[k].0, data[k].1)
    {
      var orderId := log.nextId;
      var ok := log.SaveData(data[i].0, data[i].1, data[i].2);
      if ok && data[i].2 > 0 {
        saved := saved + [Row(orderId, data[i].0, data[i].1)];
      }
    }
    log.CloseAllFiles();
    forall id ensures StoredIn(log.files, saved, id) {
      assert log.Holds(id);
    }
    var reader := new CsvReader.InitDeviceForReading(idCount, parses, log.files, saved);
    rows := ReadAll(reader);
  }
}
