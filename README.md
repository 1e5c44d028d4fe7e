# MkLogging core, modelled in Dafny

This project models the three pieces of the MkLogging library that carry state
or an ordering contract:

- `events.dfy` (module `Events`): the listener registry `CEventSource<T>`. It keeps
  an ordered list of subscriber handles. `AddListener` appends at the tail with no
  uniqueness check. `RemoveListener` finds the first equal handle and erases it, and
  does nothing when the handle is absent. The class `EventSource` holds the list as a
  `seq<T>`. `RemoveListener` is written as the source does it: a `std::find` scan
  (`Find`, a loop), then an erase. Its effect is tied to the reference function
  `RemoveFirst`, and lemmas about `RemoveFirst` give counts, order and the
  add-then-remove laws.
- `file_sink.dfy` (module `FileSink`): the UTF-8 file sink `CLogUtf8FileSink`. It
  is a class over the stream pointer `m_pFile` (the datatype `FilePtr`: `Null` or a
  stream) and the byte counter `m_iWrittenByteCount`. What the runtime returns is a
  parameter of each method: whether the directory checks returned or threw, the
  stream `_wfsopen` returns, the int from `fwprintf`, and the results of `fflush`
  and `fclose`. Two ghost logs record the streams opened
  and the streams closed. The invariant `Valid()` says the sink holds at most one
  stream, and that every other stream it opened was closed exactly once, in order.
  Every method keeps `Valid()`.
- `file_name.dfy` (module `FileName`): the contract of
  `CLogRotatingFileSink::GenerateFileName(time_t)` that the test
  `RotatingLogFile.GenerateFileName` asserts. Names are compared with `LexLess`,
  which is `std::wstring`'s `operator<`. The rotating sink's implementation is not
  part of this model, so the body of `GenerateFileName` is a stand-in that meets
  the contract and is not the library's format. It is the decimal digits of the
  timestamp, preceded by one `z` per digit beyond the first. The test's step
  property (`now` sorts before `now + 1`) is proved for every `now`. Induction on
  the gap then gives order for any `t1 < t2`, and from that: name order equals time
  order, and names are unique per instant.

`Utf8FileSink`'s constructor starts closed with a zero count. Those initial values
come from member initialisers in LogUtf8FileSink.h, and that header is not part of
this model.

The code of `Create` (MKLoggingFiles/LogUtf8FileSink.cpp:37-44) never resets the
byte counter, so after a reopen `GetFileSize()` includes the bytes written to
earlier files. The model follows the code: `Create` promises the counter is
carried over unchanged.

## Model

| member | source | states |
|---|---|---|
| Events.EventSource.constructor | MKLoggingFiles/EventSource.h:13 | the default registry has no listeners |
| Events.EventSource.FromList | MKLoggingFiles/EventSource.h:15-18 | the seeded registry holds exactly the given handles, in order |
| Events.EventSource.AddListener | MKLoggingFiles/EventSource.h:22-26 | the new list is the old list followed by the handle; length grows by one and the handle's count grows by one even if it was already present |
| Events.Find | MKLoggingFiles/EventSource.h:31 | returns the index of the first element equal to the handle, or the list length (end) when none is equal |
| Events.EventSource.RemoveListener | MKLoggingFiles/EventSource.h:28-36 | the new list is `RemoveFirst` of the old one; an absent handle leaves the list unchanged; a present one shortens it by one; one copy of the handle leaves the multiset |
| Events.RemoveFirstAt | MKLoggingFiles/EventSource.h:31-35 | erasing at the first occurrence keeps every element before and after it, in order |
| Events.RemoveFirstAbsent | MKLoggingFiles/EventSource.h:31-32 | removing an absent handle is a no-op |
| Events.RemoveFirstCount | MKLoggingFiles/EventSource.h:31-35 | the length drops by one exactly when the handle is present; exactly one copy of the handle is removed and no other handle's count changes |
| Events.AddThenRemove | MKLoggingFiles/EventSource.h:22-36 | add then remove restores the list when the handle was absent; when it was present the earlier copy goes and the new one stays at the tail, so only the multiset is restored |
| Events.AddTwiceRemoveOnce | MKLoggingFiles/EventSource.h:22-36 | adding a handle twice and removing it once leaves one more copy of it than before, and other handles' counts unchanged |
| Events.AddTwiceRemoveOnceOn | MKLoggingFiles/EventSource.h:22-36 | through the registry object's methods: the new list is the old list with `h` appended twice and its first copy erased; `h` has one more copy than before and every other handle keeps its count |
| FileSink.Utf8FileSink.IsOpen | MKLoggingFiles/LogUtf8FileSink.cpp:65-68 | the sink is open iff it holds a non-null stream |
| FileSink.Utf8FileSink.GetFileSize | MKLoggingFiles/LogUtf8FileSink.cpp:60-63 | the size is the in-memory byte counter, never negative |
| FileSink.Utf8FileSink.Close | MKLoggingFiles/LogUtf8FileSink.cpp:47-58 | the sink ends closed whatever fclose reports; a held stream is released once; closing a closed sink changes nothing; the byte counter is untouched |
| FileSink.Utf8FileSink.Create | MKLoggingFiles/LogUtf8FileSink.cpp:10-45 | when `exists` or `create_directories` throws, the error propagates and the sink is unchanged (the held stream stays held, no open is attempted); otherwise a held stream is closed first, the open is attempted whether the directory existed, was created or could not be created, the result is true iff the open returned a stream, and afterwards IsOpen equals the result; the byte counter is never reset |
| FileSink.Utf8FileSink.OutputString | MKLoggingFiles/LogUtf8FileSink.cpp:71-92 | requires an open sink; adds the fwprintf result to the counter when it is non-negative and nothing otherwise; the counter never decreases; neither a failed write nor a failed flush changes the stream held |
| FileSink.Utf8FileSink.Dispose | MKLoggingFiles/LogUtf8FileSink.cpp:5-8 | destruction closes the sink exactly as Close does |
| FileSink.CloseTwice | MKLoggingFiles/LogUtf8FileSink.cpp:47-58 | two closes in a row release at most one stream: the second is a no-op |
| FileName.NameStep | MKLoggingTest/TestRotatingFileSink.cpp:37-38 | the name for `t` sorts strictly before the name for `t + 1` |
| FileName.NameMonotone | MKLoggingTest/TestRotatingFileSink.cpp:37-38 | for any `t1 < t2` the name for `t1` sorts strictly before the name for `t2` (induction on the gap) |
| FileName.NameOrderIsTimeOrder | MKLoggingTest/TestRotatingFileSink.cpp:36-39 | name order is exactly timestamp order, in both directions; two names are equal iff their timestamps are |
| FileName.GenerateFileNameTest | MKLoggingTest/TestRotatingFileSink.cpp:27-40 | the three expectations of the test: `now` and `now + 1` give different names, the first sorts lower, and one instant always gives one name |

## Left out

- The `recursive_mutex` and `lock_guard` of `CEventSource`: locking and reentrancy are concurrency concerns. The operations are modelled as sequential.
- `shared_ptr` ownership and lifetime: a handle is a value of a type with equality, compared as the source compares pointers.
- File-system effects: `_wfsopen` (with `ccs=UTF-8` and `_SH_DENYWR`), `fwprintf`, `fflush`, `fclose`, `std::filesystem::exists` and `create_directories`. Each call's outcome is a method parameter instead.
- The file contents: UTF-8 transcoding, BOM emission and `\n` to `\r\n` translation by the C runtime. The text is also not written verbatim, because it is passed to `fwprintf` as its format string, so a `%` in it is read as a directive. The byte count is whatever `fwprintf` returns, so nothing ties it to the length of the text.
- The `LOGD`, `LOGW` and `LOGE` diagnostic calls. They have no effect on sink state.
- The 32-bit `int` write result and the `long` counter are unbounded integers here, so overflow is not modelled.
- FileName.GenerateFileName: takes a `nat` (seconds since the epoch). Timestamps before 1970 are not modelled, and the body is a stand-in, because the rotating sink's implementation is not part of this model.
- `CLogRotatingFileSink` beyond the filename contract: the rotation trigger, the size threshold, `GetNextFileName` path joining and retention. Its implementation is not part of this model, and neither is a test of `GetNextFileName`.
- The test sink's construction with an empty directory: `GenerateFileName` is a pure function here, so it needs no sink and opens no file.
- `CLogConsoleSink` and `CLogDebugOutputSink`: single-call wrappers over console printing and `OutputDebugString`, with no state.
