/** What every device log keeps: the file in use, the files before it, and their sizes. */
module DeviceLog {
  import opened Bytes
  import opened DataChunk

  class DeviceLog {
    const file: LogFile             // the handle of the file in use
    const maxFileSize: nat
    const openable: bool            // a directory and a serial number are known
    var isOpen: bool
    var writeMode: bool
    var files: seq<seq<byte>>       // the files written and closed, or the files to read, in order of creation
    var fileCount: nat              // files opened for reading so far
    var fileSize: nat
    var logSize: nat

    ghost predicate Valid()
      reads this, file
    {
      file.Valid() && fileCount <= |files| && (isOpen && writeMode ==> fileSize == |file.bytes|)
    }

    /** A log to be written. */
    constructor InitDeviceForWriting(maxFileSize: nat, openable: bool)
      ensures Valid() && fresh(file) && writeMode && !isOpen && files == []
      ensures this.maxFileSize == maxFileSize && this.openable == openable
    {
      this.maxFileSize, this.openable := maxFileSize, openable;
      file := new LogFile([]);
      isOpen, writeMode, files, fileCount, fileSize, logSize := false, true, [], 0, 0, 0;
    }

    /** A log to be read from files found in their order of creation. */
    constructor InitDeviceForReading(files: seq<seq<byte>>)
      ensures Valid() && fresh(file) && !writeMode && !isOpen && this.files == files && fileCount == 0
    {
      maxFileSize, openable := 0, false;
      file := new LogFile([]);
      this.files := files;
      isOpen, writeMode, fileCount, fileSize, logSize := false, false, 0, 0, 0;
    }

    /** At most one file has been closed since, and none below the size limit. */
    ghost predicate Rotated(before: seq<seq<byte>>)
      reads this
    {
      files == before
      || (|files| == |before| + 1 && files[..|before|] == before && |files[|before|]| >= maxFileSize)
    }

    function Handle(): LogFile?
      reads this
    {
      if isOpen then file else null
    }

    method CloseFile()
      requires Valid()
      modifies this
      ensures Valid() && !isOpen && writeMode == old(writeMode) && fileCount == old(fileCount)
      ensures files == if old(isOpen) && writeMode then old(files) + [file.bytes] else old(files)
    {
      if isOpen && writeMode {
        files := files + [file.bytes];
      }
      isOpen := false;
    }

    method OpenNewSaveFile()
      requires Valid() && writeMode
      modifies this, file
      ensures Valid() && writeMode && isOpen == openable
      ensures files == if old(isOpen) then old(files) + [old(file.bytes)] else old(files)
      ensures isOpen ==> file.bytes == []
    {
      CloseFile();
      if openable {
        file.Open([]);
        isOpen := true;
        fileSize := 0;
      }
    }

    method OpenNextReadFile() returns (ok: bool)
      requires Valid() && !writeMode
      modifies this, file
      ensures Valid() && !writeMode && files == old(files) && ok == isOpen == (old(fileCount) < |files|)
      ensures fileCount == if ok then old(fileCount) + 1 else old(fileCount)
      ensures ok ==> file.pos == 0 && file.bytes == files[old(fileCount)]
    {
      CloseFile();
      if fileCount == |files| {
        return false;
      }
      file.Open(files[fileCount]);
      fileCount := fileCount + 1;
      isOpen := true;
      return true;
    }
  }
}
