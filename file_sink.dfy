/** CLogUtf8FileSink: a sink that holds at most one open UTF-8 text file and a
    running count of the bytes written to it. The C runtime and file-system calls
    (_wfsopen, fwprintf, fflush, fclose, std::filesystem::exists and
    create_directories) are not modelled; what they return, or that they
    threw, is passed in by the caller. */
module FileSink {

  /** A FILE* as the sink sees it: null, or some open stream. */
  datatype FilePtr = Null | Stream(id: nat)

  /** What std::filesystem::exists and create_directories do for the target
      directory: it is already there, it is created, create_directories returns
      false (only a warning follows), or one of the two throws
      std::filesystem::filesystem_error. */
  datatype DirectoryOutcome = Existed | Created | NotCreated | Threw

  /** How Create ends: it returns whether the open succeeded, or the
      filesystem_error propagates to the caller. */
  datatype CreateResult = Opened(ok: bool) | FilesystemError

  class Utf8FileSink {
    /** m_pFile */
    var file: FilePtr
    /** m_iWrittenByteCount; only non-negative amounts are ever added to it */
    var writtenByteCount: nat

    /** Streams returned by a successful open, in order. */
    ghost var acquired: seq<FilePtr>
    /** Streams handed to fclose, in order. */
    ghost var released: seq<FilePtr>

    /** The sink owns at most one stream: every stream it opened has been closed
        exactly once, in opening order, except the current one, which is held. */
    ghost predicate Valid()
      reads this
    {
      (forall i :: 0 <= i < |acquired| ==> acquired[i].Stream?) &&
      if file == Null then acquired == released else acquired == released + [file]
    }

    /** The member initialisers: no file, nothing written. */
    constructor ()
      ensures Valid()
      ensures file == Null && writtenByteCount == 0
      ensures acquired == [] && released == []
    {
      file := Null;
      writtenByteCount := 0;
      acquired := [];
      released := [];
    }

    /** IsOpen: the sink is open exactly when it holds a non-null stream. */
    function IsOpen(): (open: bool)
      reads this
      ensures open <==> file != Null
    {
      file.Stream?
    }

    /** GetFileSize: the in-memory running total, not a file-system query. */
    function GetFileSize(): (size: int)
      reads this
      ensures size >= 0 && size == writtenByteCount
    {
      writtenByteCount
    }

    /** Close: releases the held stream, if any, whatever fclose reports
        (`closeResult`, only logged when non-zero). Closing a closed sink changes
        nothing, so a stream is never closed twice; the byte count survives. */
    method Close(closeResult: int)
      requires Valid()
      modifies this
      ensures Valid()
      ensures file == Null && !IsOpen()
      ensures writtenByteCount == old(writtenByteCount)
      ensures acquired == old(acquired)
      ensures released == old(released) + if old(file) != Null then [old(file)] else []
      ensures old(file) == Null ==> unchanged(this)
    {
      if file != Null {
        released := released + [file];
        file := Null;
      }
    }

    /** Create: the directory is created when missing. When std::filesystem::exists
        or create_directories throws (`directory == Threw`), the exception leaves
        Create before anything else happens: the held stream stays held, no open
        is attempted and the sink is unchanged. Otherwise whether the directory
        existed or could be created only decides a warning: the open is attempted
        regardless. A held stream is closed first (`closeResult` is what fclose
        reports), then `stream` is what _wfsopen returns for directory/fileName.
        The result says whether the open succeeded; the byte count is carried
        over, not reset. */
    method Create(directory: DirectoryOutcome, fileName: string, closeResult: int, stream: FilePtr)
      returns (r: CreateResult)
      requires Valid()
      modifies this
      ensures Valid()
      ensures directory == Threw ==> r == FilesystemError && unchanged(this)
      ensures directory != Threw ==> r == Opened(stream != Null)
      ensures directory != Threw ==> file == stream && IsOpen() == (stream != Null)
      ensures writtenByteCount == old(writtenByteCount)
      ensures directory != Threw ==>
        released == old(released) + if old(file) != Null then [old(file)] else []
      ensures directory != Threw ==>
        acquired == old(acquired) + if stream != Null then [stream] else []
    {
      if directory == Threw {
        return FilesystemError;
      }
      if file != Null {
        Close(closeResult);
      }
      file := stream;
      if stream != Null {
        acquired := acquired + [stream];
      }
      r := Opened(file != Null);
    }

    /** OutputString: callers must only write to an open sink (an assert in the
        source). The text is passed to fwprintf as its format string, so what
        reaches the file is not modelled. `written` is what fwprintf returns: a negative result is an
        error and adds nothing, otherwise it is added to the byte count.
        `flushResult` is what fflush returns; a failure is only logged. Neither
        failure changes the stream held. */
    method OutputString(text: string, written: int, flushResult: int)
      requires Valid() && IsOpen()
      modifies this`writtenByteCount
      ensures Valid() && IsOpen()
      ensures file == old(file)
      ensures writtenByteCount == old(writtenByteCount) + if written < 0 then 0 else written
      ensures writtenByteCount >= old(writtenByteCount)
    {
      if written >= 0 {
        writtenByteCount := writtenByteCount + written;
      }
    }

    /** The destructor: Close. */
    method Dispose(closeResult: int)
      requires Valid()
      modifies this
      ensures Valid() && !IsOpen()
      ensures writtenByteCount == old(writtenByteCount)
      ensures released == old(released) + if old(file) != Null then [old(file)] else []
    {
      Close(closeResult);
    }
  }

  /** Closing twice in a row: the second close finds nothing to release. */
  method CloseTwice(sink: Utf8FileSink, first: int, second: int)
    requires sink.Valid()
    modifies sink
    ensures sink.Valid() && !sink.IsOpen()
    ensures sink.writtenByteCount == old(sink.writtenByteCount)
    ensures sink.released == old(sink.released) + if old(sink.file) != Null then [old(sink.file)] else []
  {
    sink.Close(first);
    sink.Close(second);
  }
}
