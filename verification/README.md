# Event queue, threads, text field, Base64 and epoll of the launcher

A model of seven components of the launcher, with proofs about them.

* **Event queue** (`Lines`, `Storage`, `FileEventBatch`, `EventQueue`, `MultiFileEventBatch`,
  `BufferedEventBatch`, `EventManager` and the files behind it). Events are lines
  in numbered files. `Storage` is the file system: files are byte sequences, a read or write handles
  any non-empty part of what is asked for, and any write or open may fail; a ghost counter tells
  whether one has. The classes follow the source object by object; `EventQueue` and the `Buffer`
  functions say what they do to the events, and the runs are runs of those functions. `Serve` and
  `BufferServe` take any one request to the objects and show that it is one step of such a run, with
  a list in flight across it. `EventManager` is the interleaving of adding threads, uploads and
  realtime uploads, with an upload's answer left open. `Conservation` counts critical events and the
  others apart over its runs, `CarefulUploads` says when acknowledgements hit what was sent,
  `RefilledRun` is a run in which one does not, `FailedUploads` is about failed uploads and drops,
  `NoCrash` about getting stuck.
* **`TaskWithDelayThread`**, **`CondVar`**, **`LazyInit`**, **`Once`**. Transition systems with any
  number of threads and sequentially consistent steps. Results hold in every reachable state.
  `CondVar` and `Once` are measured against `pthread_cond_wait`, `pthread_cond_broadcast` and
  `pthread_once` of POSIX.1-2017.
* **`Utf8`**, **`TextInput`**. The text field's byte loops, against an editor on characters
  (section 3 of RFC 3629).
* **`Base64`**. Encoder and decoder loops, against sections 3 and 4 of RFC 4648.
* **`Epoll`**. The words of twelve bits kept as user filters of a kernel queue.

`dafny verify dfyconfig.toml` checks everything.

Some methods are cut at loops or branches into smaller ones with contracts of their own
(`StoreEvent`, `JoinMemory`, `WordRight`, `ReadGroup` and others); the statements are the same.

Where the code does not do what its callers would expect, the model follows the code, and a lemma
or contract says exactly when:

* After a write that failed half-way the file is truncated but the offset is not moved back, and
  the next event gets zeros in front (`HoleSpoilsNextEventExactlyWhen`). The same offset is left
  behind when a whole open file is acknowledged after an add has been tried and its write failed;
  then also the counted size is wrong (`FileEventBatch.OnEventsUploaded`,
  `AcknowledgedAfterFailedAdd`).
* A closed file that cannot be opened is deleted with its events (`OpenNextBatch`); after a failed
  open in a rotation, or of the newest file at the start, every event that fits a file is refused
  (`MultiFileEventBatch.AddEvent`), while older files are still delivered.
* An event too large for every file, added to an empty queue, leaves an empty finalized file in
  front, and nothing is delivered from then on (`AddSticksExactlyWhen`, `StuckForever`), unless a
  list of no events is still to be acknowledged (`UnsticksExactlyWhen`).
* A first event above the byte limit gives a list of zero events, not a missing list
  (`FetchIsEmptyExactlyWhenFirstIsTooLong`); a drop of an event above 1 MiB drops nothing
  (`DropStallsExactlyWhen`).
* A flush while events from memory are in flight makes the acknowledgement hit others, unless
  memory has been refilled with equal ones (`FlushInFlightExactlyWhen`), so that an event may be
  uploaded twice and another not at all (`RunsConserve`, whose `repeated` and `lost` count them;
  `RefilledExample`). Where memory holds fewer events than are acknowledged, the source erases
  beyond its end (`UndefinedExactlyWhen`); an empty buffer over files that give
  nothing hands out a list without content (`NullListExactlyWhen`), which the upload then
  dereferences (`CrashesExactlyWhen`).
* A request made while `terminate` joins a worker that has left its loop races for the thread
  handle (`RequestRaces`, `RequestRacesExample`).
* An initialisation of an object in use leaks its host object (`NothingLeaksExactlyWhen`). A
  destroyed mutex that is used again is a normal one on 32-bit targets, whatever its initialiser
  was (`DestroyForgetsExactlyWhen`).
* A futex word that has made a whole number of rounds of 2^30 steps looks unchanged
  (`SleepsExactlyWhen`, `WaitIsSafeExactlyWhen`, `WrapAroundExample`).
* A word-wise backspace takes a byte position for a character position (`OnTextInput`,
  `OffsetIsIndexExactlyWhen`), after which a backspace at the beginning of the text erases in
  front of it (`OnTextInput`, `EraseInFrontScenario`); `setCursorPosition` trusts positions beyond
  the text (`SetCursorPosition`), and a kept last character of four bytes is cut to its last byte
  (`Enable`, `KeptBytes`).
* A notification that comes late ends a wait it was not meant for, so that an immediate request may
  bring two starts without a delay (`StartsAreAllowed`, `LateNotificationExample`).
* Skipped characters behind a whole last group make decoding fail (`RoundTripExactlyWhen`), and a
  zero byte is always skipped, because `strchr` finds the end of the list.
* `epoll_ctl` saves before it knows that the kernel accepts (`FailureIsRememberedExactlyWhen`) and
  leaves a type bit after a deletion (`TypeBitsAfter`). Adding a registered descriptor again is
  allowed, as the code's own comment says.

## Model

| member | source | states |
|---|---|---|
| Lines.SplitJoin | cll-telemetry/src/file_event_batch.cpp:34-59 | Lines written one after another are found again as exactly those lines, whatever follows them. |
| Lines.JoinIsClean | cll-telemetry/src/file_event_batch.cpp:34-59 | A file that holds whole lines only is cut nowhere when it is opened, and is read back as those lines. |
| Lines.SplitTail | cll-telemetry/src/file_event_batch.cpp:53-58 | What opening keeps is a prefix of the file, and no newline is cut off with the rest. |
| Lines.TrimIsLongest | cll-telemetry/src/file_event_batch.cpp:53-58 | What opening keeps is the longest prefix that ends in a newline. |
| Lines.SplitCountsNewlines | cll-telemetry/src/file_event_batch.cpp:46-50 | The number of events of any file is the number of its newlines. |
| Lines.FitCountIsLongest | cll-telemetry/src/file_event_batch.cpp:118-135 | The fetched prefix keeps within the byte limit, and every longer prefix of whole events exceeds it or the count. |
| FileBatch.FileEventBatch.constructor | cll-telemetry/src/file_event_batch.cpp:13-59 | Opening any file, whatever its content, leaves its longest prefix of whole lines and the matching counters; a failed open changes no file. |
| FileBatch.FileEventBatch.CountEventsInFile | cll-telemetry/src/file_event_batch.cpp:34-59 | The scan in chunks of any size finds the lines a single scan finds; size, count and offset describe the trimmed file. |
| FileBatch.ScanChunk | cll-telemetry/src/file_event_batch.cpp:44-52 | One chunk takes the count and the last newline of what was scanned before to those of the longer prefix. |
| FileBatch.FileEventBatch.HasEvents | cll-telemetry/include/cll/file_event_batch.h:58-60 | True exactly when the file holds an event. |
| FileBatch.FileEventBatch.CanAddEvent | cll-telemetry/src/file_event_batch.cpp:61-66 | True exactly when the file is not finalized and both limits leave room; 0 is no limit. |
| FileBatch.RoomInFile | cll-telemetry/src/file_event_batch.cpp:61-66 | Room is counted in the bytes and the lines of the file. |
| FileBatch.FileEventBatch.AddEvent | cll-telemetry/src/file_event_batch.cpp:68-96 | Accepted data, any bytes, is appended, and the counters stay right exactly when it is one line; a refused or failed add changes no byte of the file. A failed write leaves the offset past the end by what had been written, and the next event is then stored behind a hole of zeros, with the counted size below the real one. |
| FileBatch.AppendIsSoundExactlyWhen | cll-telemetry/src/file_event_batch.cpp:93-95 | Counting one event per add is right exactly when the data is one line: ends in its only newline. |
| FileBatch.FileEventBatch.WriteEvent | cll-telemetry/src/file_event_batch.cpp:80-92 | Partial writes add up: the file holds what was stored of the event, and less than all of it only after an error. |
| FileBatch.HoleSpoilsNextEventExactlyWhen | cll-telemetry/src/file_event_batch.cpp:83-89 | After a failed write the next event comes out as one line with zeros in front, and unharmed exactly when nothing had been written. |
| FileBatch.HoleExample | cll-telemetry/src/file_event_batch.cpp:83-89 | One byte of a failed write in front of an otherwise empty event, as an instance. |
| FileBatch.FileEventBatch.GetEventsForUpload | cll-telemetry/src/file_event_batch.cpp:102-135 | Also after failed writes: the list is the longest prefix of whole events within count, size and 1 MiB, its count is exact, and "more" says whether events are left. Afterwards the offset is right again where a failed write had left it behind the end. |
| FileBatch.ScanLines | cll-telemetry/src/file_event_batch.cpp:122-134 | The walk over the bytes read stops behind the last whole line, or at the limit of events. |
| FileBatch.FetchedIsFetch | cll-telemetry/src/file_event_batch.cpp:108-134 | What is read under the three byte limits gives the list that the whole file determines. |
| FileBatch.FileEventBatch.OnEventsUploaded | cll-telemetry/src/file_event_batch.cpp:137-178 | Without input or output errors exactly the listed events go from the front and the counters match; a finalized file that becomes empty is closed and removed. The offset is left behind the end exactly when the whole of an open file goes while the offset counts as being at its end. When the file cannot be opened for reading, nothing changes. |
| FileBatch.AcknowledgedAfterFailedAdd | cll-telemetry/src/file_event_batch.cpp:141-152 | As an instance: fetch a whole open file, add with a failing write, acknowledge, add again. The file then begins with as many zeros as the old one had bytes, and its counters are wrong. |
| FileBatch.FileEventBatch.CopyDown | cll-telemetry/src/file_event_batch.cpp:156-174 | Copying through two descriptors of one file leaves, in front, exactly the bytes behind the acknowledged prefix, for any prefix length. |
| FileBatch.FileEventBatch.WriteChunk | cll-telemetry/src/file_event_batch.cpp:163-171 | A buffer lands at the write offset and no byte behind it, still to be read, is touched. |
| EventQueue.CheckOldestKeepsPending | cll-telemetry/src/multi_file_event_batch.cpp:60-77 | Looking for the oldest file with events loses and reorders nothing; when it finds none, no closed file is left. |
| EventQueue.RotateKeepsPending | cll-telemetry/src/multi_file_event_batch.cpp:82-91 | Starting a new file leaves the order of all events as it is. |
| EventQueue.AddAppends | cll-telemetry/src/multi_file_event_batch.cpp:79-93 | An accepted event becomes the very last of all files, a refused one changes nothing, and it is accepted exactly when the newest file has room or the event fits an empty file. |
| EventQueue.LeavesFileExactlyWhen | cll-telemetry/src/multi_file_event_batch.cpp:82-91 | The newest file is left for an empty one exactly when the event would make it exceed its number of events or of bytes. |
| EventQueue.FilesStayWithinLimits | cll-telemetry/src/multi_file_event_batch.cpp:82-93 | In every run under constant limits each file holds at most `maxEvents` events and `maxSize` bytes, failing adds included. |
| EventQueue.StepKeepsWithin | cll-telemetry/src/multi_file_event_batch.cpp:79-125 | So does each step. |
| EventQueue.AddKeepsInFlight | cll-telemetry/src/multi_file_event_batch.cpp:79-93 | A list in flight stays at the front of the file that acknowledgements go to, also when that file was the newest and has become the oldest. |
| EventQueue.TryAddAppends | cll-telemetry/src/multi_file_event_batch.cpp:79-93 | An add whose write or open fails loses its own event alone, although it may have started a file. |
| EventQueue.TryAddKeepsInFlight | cll-telemetry/src/multi_file_event_batch.cpp:79-93 | It keeps a list in flight as well. |
| EventQueue.FetchGivesPrefix | cll-telemetry/src/multi_file_event_batch.cpp:95-110 | A fetch changes no event and lists a prefix of the whole queue. |
| EventQueue.FetchIsLongest | cll-telemetry/src/file_event_batch.cpp:102-135 | The list is the longest prefix of the first file with events that the count, the byte limit and 1 MiB allow. |
| EventQueue.MoreExactlyWhen | cll-telemetry/src/multi_file_event_batch.cpp:95-110 | "More" is set exactly when events are left, or the list is from a finalized file. |
| EventQueue.AcknowledgeRemovesPrefix | cll-telemetry/src/multi_file_event_batch.cpp:112-125 | Acknowledging a list in flight removes that prefix of the whole queue and nothing else. |
| EventQueue.FetchMissesExactlyWhenStuck | cll-telemetry/src/multi_file_event_batch.cpp:95-110 | No list comes back exactly when nothing is pending or an empty finalized file stands in front. |
| EventQueue.AddSticksExactlyWhen | cll-telemetry/src/multi_file_event_batch.cpp:82-91 | The queue gets an empty finalized oldest file exactly when an event too large for any file arrives at an altogether empty queue, whether or not its writes and opens work. |
| EventQueue.OversizeEventExample | cll-telemetry/src/multi_file_event_batch.cpp:82-101 | An event of two bytes with files of one, as an instance: the event behind it is accepted and never fetched. |
| EventQueue.OnlyAddSticks | cll-telemetry/src/multi_file_event_batch.cpp:95-125 | Fetching and acknowledging never lead there. |
| EventQueue.StuckForever | cll-telemetry/src/multi_file_event_batch.cpp:98-101 | With no list in flight, no run delivers anything from there on, whatever is added and asked for. |
| EventQueue.UnsticksExactlyWhen | cll-telemetry/src/multi_file_event_batch.cpp:112-121 | The only step out of there is the acknowledgement of a list of no events fetched before. |
| EventQueue.FetchIsEmptyExactlyWhenFirstIsTooLong | cll-telemetry/src/file_event_batch.cpp:122-134 | A list of zero events comes back exactly when the first event is longer than the byte limit; the drop in `sendEvents` is then not reached. |
| EventQueue.LongFirstEventExample | cll-telemetry/src/file_event_batch.cpp:122-134 | Two bytes with a limit of one, as an instance. |
| EventQueue.StepKeepsFifo | cll-telemetry/src/multi_file_event_batch.cpp:79-125 | Each add, also one whose write or open fails, each fetch, acknowledgement and failed upload keeps: delivered followed by pending is what was accepted, and the list in flight heads the right file. |
| EventQueue.RunsAreFifo | cll-telemetry/src/multi_file_event_batch.cpp:79-125 | Main result: over every run of adds, failing ones included, with one uploader the chain of files is one first-in, first-out queue. |
| EventQueue.EveryRunExists | cll-telemetry/src/multi_file_event_batch.cpp:112-125 | In no run does an acknowledgement name more events than its file holds. |
| EventQueue.OpeningIsFifo | cll-telemetry/src/multi_file_event_batch.cpp:7-19 | A queue of whole lines, as opening a directory gives, is such a queue to start with. |
| MultiFile.IncreasingUnique | cll-telemetry/src/multi_file_event_batch.cpp:21-44 | There is one sorted listing of a directory, so the order of files does not depend on how it was read. |
| MultiFile.GetBatches | cll-telemetry/src/multi_file_event_batch.cpp:21-44 | Returns that listing. |
| MultiFile.MultiFileEventBatch.constructor | cll-telemetry/src/multi_file_event_batch.cpp:7-19 | Opening any directory gives a queue that holds the whole lines of its files in order of their ids; when the newest file cannot be opened no file changes, and the queue holds the events of all others. |
| MultiFile.MultiFileEventBatch.CheckOldestBatch | cll-telemetry/src/multi_file_event_batch.cpp:60-77 | The loop over closed files does to the queue what `CheckOldest` says, also while the newest file is not open; that file stays. Files that cannot be opened are lost from the front, with their events, and nothing else is. |
| MultiFile.MultiFileEventBatch.OpenNextBatch | cll-telemetry/src/multi_file_event_batch.cpp:63-74 | One closed file is opened and counted again, and kept or deleted by whether it shows events; one with events is deleted only when its open fails. |
| MultiFile.MultiFileEventBatch.AddEvent | cll-telemetry/src/multi_file_event_batch.cpp:79-93 | Pointers, ids, files and result change as `TryAdd` says on the queue, whatever fails, and every list in flight stays in flight: the directory holds the events from before, in order, and the new one exactly when the result says so. An accepted event adds its own bytes followed by 13 and 10 to the newest file, and no other file changes. After an earlier failed write that is so where the event goes to a new file; otherwise it is stored behind a hole. While the newest file is not open an event that fits a file is refused and nothing changes. |
| MultiFile.SerializeAddsLineEnd | cll-telemetry/src/multi_file_event_batch.cpp:81-81 | The line of an event is its text followed by the bytes 13 and 10. |
| MultiFile.SerializeIsInjective | cll-telemetry/src/multi_file_event_batch.cpp:81-81 | No two events give the same line. |
| MultiFile.MultiFileEventBatch.DirectoryHoldsPending | cll-telemetry/src/multi_file_event_batch.cpp:7-44 | In every sound state, apart from a newest file that is there and could not be opened, the files of the directory, put together in order, are the pending events. |
| MultiFile.MultiFileEventBatch.StoreEvent | cll-telemetry/src/multi_file_event_batch.cpp:92-92 | Without an error the event joins the newest file exactly when that has room; after a failed write the queue is what it was. |
| MultiFile.MultiFileEventBatch.RotateNewest | cll-telemetry/src/multi_file_event_batch.cpp:82-91 | Finalizing the newest file and opening the next id does to the queue what `Rotate` says, with lists in flight, also when the open fails and after a failed write; a failed open leaves all files as they are. |
| MultiFile.MultiFileEventBatch.GetEventsForUpload | cll-telemetry/src/multi_file_event_batch.cpp:95-110 | Result and files are those of `FetchQueue`, and the list is in flight afterwards, also after failed writes and while the newest file is not open; events are lost only in front and only with files that cannot be opened. |
| MultiFile.MultiFileEventBatch.OnEventsUploaded | cll-telemetry/src/multi_file_event_batch.cpp:112-125 | The file an acknowledgement reaches is the one the list came from, and the queue becomes that of `Acknowledge`, also while the newest file is not open; the offset stays right exactly when not the whole newest file goes while it is being written. A failed open changes nothing. |
| MultiFile.MultiFileEventBatch.SetFileLimits | cll-telemetry/src/multi_file_event_batch.cpp:132-139 | Changes the limits of later adds and no event. |
| MultiFile.MultiFileEventBatch.ReopenFindsPending | cll-telemetry/src/multi_file_event_batch.cpp:7-44 | At any moment the directory, opened again, holds exactly the pending events in order. |
| MultiFile.ServesAtFirst | cll-telemetry/src/multi_file_event_batch.cpp:7-19 | An opened queue serves: it is the queue of a usage that keeps the law. |
| MultiFile.Serve | cll-telemetry/src/multi_file_event_batch.cpp:79-139 | Main result: any request to the objects, with a list in flight across it, is one step of the usage that `RunsAreFifo` quantifies over, and what is acknowledged is what the usage delivers. An add may fail, if the file is then written where it ends and not the whole of it is in flight. |
| MultiFile.Post | cll-telemetry/src/multi_file_event_batch.cpp:79-93 | On the objects: an event that fits a file is accepted exactly when nothing fails, and is then the last of all, as its own text with 13 and 10 behind it. |
| MultiFile.PostThenPoll | cll-telemetry/src/multi_file_event_batch.cpp:79-110 | On the objects, from any number of adds to a fetch: the fetched bytes are the first `count` events of those pending before and those added, in order, each added one as its own text with 13 and 10 behind it; there is no list exactly when there are no events. |
| Buffered.MemoryEventBatch.AddEvent | cll-telemetry/src/memory_event_batch.cpp:5-11 | Accepts and appends exactly while below the limit. |
| Buffered.MemoryEventBatch.GetEventsForUpload | cll-telemetry/src/memory_event_batch.cpp:18-39 | The loop builds the longest list within both limits of the first events, in order, each as its own text with the bytes 13 and 10 behind it, with exact count and "more"; there is none exactly when there are no events or a limit is 0. |
| Buffered.MemoryFetchIsLongest | cll-telemetry/src/memory_event_batch.cpp:18-39 | Every longer prefix exceeds the bytes or the count. |
| Buffered.MemoryEventBatch.OnEventsUploaded | cll-telemetry/src/memory_event_batch.cpp:41-44 | Removes as many events from the front as the list has. |
| Buffered.BufferFetchGivesPrefix | cll-telemetry/src/buffered_event_batch.cpp:16-33 | For all three kinds of list, the fetched bytes are a prefix of files followed by memory, and nothing is moved. |
| Buffered.BufferFetchIsLongest | cll-telemetry/src/buffered_event_batch.cpp:16-33 | With both limits above 0 and files that are not stuck: once only the newest file is left and the list takes all of it, or the files have no events, every longer prefix of files and memory of at most `maxCount` events is longer than `maxSize` bytes. So memory is merged in wherever there is room. |
| Buffered.BufferFetchStaysInFile | cll-telemetry/src/buffered_event_batch.cpp:16-33 | As long as the files have events the list starts with them, as many from the first such file as the limits and 1 MiB allow, and from a finalized file nothing of memory is joined to them. |
| Buffered.BufferFetchWithinLimits | cll-telemetry/src/buffered_event_batch.cpp:16-33 | No list of any kind exceeds its limits. |
| Buffered.BufferMoreExactlyWhen | cll-telemetry/src/buffered_event_batch_private.h:43-78 | For all three kinds of list, "more" is reported exactly when events of files or memory are left, or the list is from a finalized file. |
| Buffered.BufferUploadedRemovesPrefix | cll-telemetry/src/buffered_event_batch.cpp:35-49 | For all three kinds of list, acknowledging removes exactly that prefix. |
| Buffered.ListedIsPrefix | cll-telemetry/src/buffered_event_batch_private.h:55-74 | Data and count of a merged list are those of its two parts together. |
| Buffered.FlushKeepsPending | cll-telemetry/src/buffered_event_batch.cpp:61-67 | A flush appends, in order, the events that fit a file; when all fit, files followed by memory stay the same. |
| Buffered.ForwardAppends | cll-telemetry/src/buffered_event_batch.cpp:61-67 | Forwarding any list appends exactly its fitting lines, in order. |
| Buffered.AddWithoutFlush | cll-telemetry/src/buffered_event_batch.cpp:7-14 | Below the limit an add appends and every list in flight stays in flight. |
| Buffered.AddWithFlush | cll-telemetry/src/buffered_event_batch.cpp:9-11 | At the limit the event is still appended behind all others that fit a file; it is refused exactly when the buffer may hold nothing. |
| Buffered.FlushInFlightExactlyWhen | cll-telemetry/src/buffered_event_batch.cpp:9-49 | Behind any number of adds, an acknowledgement leaves just the events that were not listed exactly when the list holds none from memory, no flush has come, or memory has been refilled with lines that read the same; also with repeated events and ones too large for a file. |
| Buffered.AddLinesParts | cll-telemetry/src/buffered_event_batch.cpp:7-14 | Behind any number of adds, memory holds the last of what came and the files all before that fits one, in order. |
| Buffered.AddLinesInOrder | cll-telemetry/src/buffered_event_batch.cpp:7-14 | Where all events fit a file, any number of adds puts one behind the other, with the flushes between them, and the files do not get stuck. |
| Buffered.PostedComeBack | cll-telemetry/src/buffered_event_batch.cpp:7-33 | Behind any number of such adds a fetch gives the first `count` events of those pending before and those added, in order, each added one as its own text with 13 and 10 behind it. |
| Buffered.DistinctNeverRepeat | cll-telemetry/src/buffered_event_batch.cpp:9-46 | Where no two events are equal, memory is never refilled alike, so a flush in flight always does its harm. |
| Buffered.RefilledAlikeExample | cll-telemetry/src/buffered_event_batch.cpp:9-46 | Two equal events sent, and two more of them after the flush, as an instance: the acknowledgement is right again. |
| Buffered.FlushInFlightExample | cll-telemetry/src/buffered_event_batch.cpp:9-46 | A memory of one event, as an instance: the uploaded event stays and the new one is gone. |
| Buffered.NullListExactlyWhen | cll-telemetry/src/buffered_event_batch.cpp:30-32 | A list that wraps nothing, and is dereferenced later, is handed out exactly when memory is empty and the files give nothing. |
| Buffered.NullListExample | cll-telemetry/src/buffered_event_batch.cpp:30-32 | One closed file without events, as an instance. |
| Buffered.BufferStepKeepsFifo | cll-telemetry/src/buffered_event_batch.cpp:7-67 | Each put, fetch, acknowledgement, flush and change of limits is defined and keeps the law below. |
| Buffered.BufferRunsAreFifo | cll-telemetry/src/buffered_event_batch.cpp:7-67 | Main result: in every run in which no flush meets events of memory in flight or begins with the dead end, with lines of any size, files and memory together are one first-in, first-out queue: delivered followed by pending is a subsequence of what was accepted, in that order, and the others, which fit no file, are lost and counted. |
| Buffered.FlushKeepsLaw | cll-telemetry/src/buffered_event_batch.cpp:61-67 | A flush on its own keeps that law: what is kept is a subsequence of what was accepted, and what was accepted is what is kept and what is lost. |
| Buffered.ForwardSticksExactlyWhen | cll-telemetry/src/buffered_event_batch.cpp:61-67 | Forwarding leads into the dead end exactly when its first event, too large for a file, finds no events in the files. |
| Buffered.TryForwardAppends | cll-telemetry/src/buffered_event_batch.cpp:61-67 | A flush in which any of the writes and opens fail appends exactly the fitting lines whose storing works, in order. |
| Buffered.TryForwardKeepsInFlight | cll-telemetry/src/buffered_event_batch.cpp:61-67 | It keeps a list from the files in flight. |
| Buffered.NothingFails | cll-telemetry/src/buffered_event_batch.cpp:61-67 | Where none fails it is the flush from before. |
| Buffered.BufferOpeningIsFifo | cll-telemetry/src/buffered_event_batch.cpp:7-14 | A buffer over files that are not stuck keeps the law to start with. |
| Buffered.BufferServesAtFirst | cll-telemetry/src/buffered_event_batch.cpp:7-14 | So do the objects, as they are opened. |
| Buffered.BufferServe | cll-telemetry/src/buffered_event_batch.cpp:7-67 | Main result: any request to the objects, with a list in flight across it, is one step of the usage that `BufferRunsAreFifo` quantifies over. |
| Buffered.PostThenPoll | cll-telemetry/src/buffered_event_batch.cpp:7-33 | On the objects, with room in memory: what is added comes back behind what was pending, in order, each event as its own text with 13 and 10 behind it. |
| Buffered.BufferedEventBatch.AddEvent | cll-telemetry/src/buffered_event_batch.cpp:7-14 | Objects and result change as `BufferAdd` says of the event with 13 and 10 behind it, the limits stay, and a list in flight stays in flight unless a flush moves events of it. |
| Buffered.BufferedEventBatch.GetEventsForUpload | cll-telemetry/src/buffered_event_batch.cpp:16-33 | Objects and list are those of `BufferFetch`, the limits stay, and the list is in flight unless the files are stuck; events are lost only with files that cannot be opened. |
| Buffered.BufferedEventBatch.OnEventsUploaded | cll-telemetry/src/buffered_event_batch.cpp:35-49 | Objects become those of `BufferUploaded` and the limits stay; when a file cannot be opened for reading nothing changes. |
| Buffered.BufferedEventBatch.FlushInternal | cll-telemetry/src/buffered_event_batch.cpp:61-67 | Moves everything from memory to the files as `Flush` says and leaves memory empty; limits stay, and so do lists without events from memory. |
| Conservation.StoreConserves | cll-telemetry/src/event_manager.cpp:118-128 | Storing an event, with any of its writes and opens failing and with a flush of events in flight, adds it to what is held of its own class and loses exactly what the flush it causes cannot forward; the other class is not touched. |
| Conservation.StoreGoesWhereItBelongs | cll-telemetry/src/event_manager.cpp:118-122 | A critical event leaves the normal buffer as it is and, if stored, becomes the last of the critical queue; it is stored exactly when it fits a file and nothing fails. Any other event leaves the critical queue as it is and becomes the last of the normal buffer, behind what a flush forwards. |
| Conservation.AddGoesWhereItBelongs | cll-telemetry/src/event_manager.cpp:108-122 | An event goes to realtime memory, and nowhere else, exactly when it is flagged realtime and that has room; any other goes straight to its stored queue. |
| Conservation.AddConserves | cll-telemetry/src/event_manager.cpp:108-128 | Adding through realtime memory, critical or normal queue books each event once, in the books of its class, also where realtime memory is full or a write fails. |
| Conservation.TransferConserves | cll-telemetry/src/event_manager.cpp:96-102 | Each event of a failed realtime upload goes to the queue that its critical flag alone names, or is booked as lost, in the books of its class. |
| Conservation.TransferGoesInOrder | cll-telemetry/src/event_manager.cpp:96-102 | The events are stored one by one, in their order, and no other queue changes. |
| Conservation.MainAnswerConserves | cll-telemetry/src/event_uploader.cpp:74-89 | An answer to an upload, or a drop, moves exactly the listed events from the queue to uploaded or lost. |
| Conservation.RealtimeLeaves | cll-telemetry/src/event_uploader.cpp:74-89 | The same for realtime memory. |
| Conservation.RealtimeBooksWhatWasSent | cll-telemetry/src/event_uploader.cpp:86-88 | What a realtime upload books as uploaded for both classes together is what was sent, in its order. |
| Conservation.SendsWithinLimits | cll-telemetry/src/event_uploader.cpp:72-73 | No upload of any of the three queues exceeds its number of events or of bytes. |
| Conservation.DropLosesOneAtMost | cll-telemetry/src/event_uploader.cpp:75-82 | A drop takes at most the first event of its queue, and touches nothing else. |
| Conservation.AcceptedExactlyWhen | cll-telemetry/src/event_manager.cpp:108-128 | An event counts as accepted exactly when an add has put it into realtime memory or a stored queue. |
| Conservation.UploadedExactlyWhen | cll-telemetry/src/event_uploader.cpp:86-88 | Events count as uploaded exactly by a successful answer, and these are the ones that were sent. |
| Conservation.LostExactlyWhen | cll-telemetry/src/event_manager.cpp:64-128 | Where events are lost, and which: the one dropped, those a flush cannot forward, one whose transfer fails, those an answer hits instead of others; nowhere else. |
| Conservation.ConfiguredLimitsDecide | cll-telemetry/src/event_manager.cpp:55-62 | Each queue stores by the limits last configured for it. |
| Conservation.StepConserves | cll-telemetry/src/event_manager.cpp:64-128 | Every step of any thread keeps the balance of both classes. |
| Conservation.RunsConserve | cll-telemetry/src/event_manager.cpp:64-128 | Main result: in every run, with flushes in flight and failing writes and opens, and for critical events and the others apart: each accepted event is in one place, as often as it was accepted: realtime memory, in transfer, the queue of its class, uploaded, or lost at a named point; in a second place only as often as an upload was acknowledged on other events than its own. A run ends only at an acknowledgement that is undefined. |
| CarefulUploads.UndefinedExactlyWhen | cll-telemetry/src/memory_event_batch.cpp:41-44 | An acknowledgement is undefined exactly when it is of a list from memory that names more events than memory holds; for the files, the critical queue and realtime memory it never is. |
| RefilledRun.RefilledExample | cll-telemetry/src/buffered_event_batch.cpp:9-46 | A run, as an instance: two events are sent from memory, flushed, memory is refilled, and the answer takes the new ones; the first two are uploaded and still pending, the others lost. |
| CarefulUploads.CarefulRunsRepeatNothing | cll-telemetry/src/event_manager.cpp:64-128 | Main result: in every run in which no flush meets events of memory in flight, nothing of either class is in two places, and every acknowledgement is defined. |
| CarefulUploads.StepKeepsUndisturbed | cll-telemetry/src/event_manager.cpp:64-128 | Each step of such a run keeps the list in flight naming what was sent, so that a successful answer loses nothing. |
| Conservation.UploadedTakes | cll-telemetry/src/buffered_event_batch.cpp:35-49 | An acknowledgement that is defined takes as many events out as the list counts, whichever they are, and changes no others. |
| Conservation.StartConserves | cll-telemetry/src/event_manager.cpp:22-39 | The balance holds for whatever the directories contain at the start. |
| FailedUploads.FailedSendLeavesNoTrace | cll-telemetry/src/event_uploader.cpp:72-89 | A fetch whose upload fails leaves, whatever other threads add meanwhile and whichever writes fail, the same pending events in the same order as if there had been no upload. |
| FailedUploads.FailedRealtimeSendKeepsEvents | cll-telemetry/src/event_manager.cpp:93-102 | A failed realtime upload keeps every event and puts all of realtime memory into transfer. |
| FailedUploads.DropStallsExactlyWhen | cll-telemetry/src/event_uploader.cpp:75-82 | The drop of one event changes nothing, and its retry repeats, exactly when that event is longer than 1 MiB. |
| FailedUploads.DropStallExample | cll-telemetry/src/event_uploader.cpp:75-82 | A line of 1 MiB and a newline, as an instance. |
| NoCrash.CrashesExactlyWhen | cll-telemetry/src/event_manager.cpp:68-76 | A fetch behind the check for events finds a list without content, which is then dereferenced, exactly when memory is empty and the files give nothing: none of the closed ones has events, or they are stuck. |
| NoCrash.ModestRunsNeverStick | cll-telemetry/src/event_manager.cpp:64-128 | Main result: in no run in which every event fits a file under every configuration do the queues get stuck or does that happen, failing writes and opens included. |
| NoCrash.StartIsHealthy | cll-telemetry/src/event_manager.cpp:22-39 | Such runs start from queues whose closed files have events and a memory that fits the files. |
| TaskWithDelayThread.StepKeepsInv | cll-telemetry/src/task_with_delay_thread.cpp:9-57 | Every step of worker, requesters and `terminate`, also of requests and calls of `terminate` after one has returned, keeps mutex ownership, the books of requests and starts, and the promise of a notification; that the delay is kept is `DelayIsWaitedOut`. |
| TaskWithDelayThread.RunsKeepInv | cll-telemetry/src/task_with_delay_thread.cpp:9-57 | So does every run. |
| TaskWithDelayThread.NoRequestIsLost | cll-telemetry/src/task_with_delay_thread.cpp:14-27 | Whenever no worker is running, the last start of the function comes after the last request; there are never more starts than requests. |
| TaskWithDelayThread.DelayIsWaitedOut | cll-telemetry/src/task_with_delay_thread.cpp:14-18 | Main result: in every run without immediate requests and `terminate` the function starts at most as often as a wait has ended, however many requests were made. |
| TaskWithDelayThread.StartsAreAllowed | cll-telemetry/src/task_with_delay_thread.cpp:9-57 | In every run the starts are at most the waits that have ended, one for an immediate request that finds no worker and two for any other, one for `terminate` and one for each request after it. |
| TaskWithDelayThread.LateNotificationExample | cll-telemetry/src/task_with_delay_thread.cpp:45-56 | Two immediate requests and three starts without a wait, as an instance: the notification of the second comes late, and the bound is reached. |
| TaskWithDelayThread.ClaimTakesAllRequests | cll-telemetry/src/task_with_delay_thread.cpp:17-20 | A worker that goes on to the function takes all requests with it, immediate ones too, and releases the mutex. |
| TaskWithDelayThread.ImmediateIsNotDelayed | cll-telemetry/src/task_with_delay_thread.cpp:43-56 | From an immediate request to the next start no worker begins to wait, in any run, and one that was waiting has a notification coming that wakes it. |
| TaskWithDelayThread.AtMostOneRuns | cll-telemetry/src/task_with_delay_thread.cpp:43-52 | Two different workers are never inside the function. |
| TaskWithDelayThread.JoinCannotBlock | cll-telemetry/src/task_with_delay_thread.cpp:48-52 | The join under the mutex waits at most for a worker that is past its last use of the mutex. |
| TaskWithDelayThread.MutexIsReleased | cll-telemetry/src/task_with_delay_thread.cpp:10-56 | Whoever holds the mutex gives it back within two steps that cannot be blocked. |
| TaskWithDelayThread.ImmediateRunIsNotified | cll-telemetry/src/task_with_delay_thread.cpp:53-56 | A worker still waiting after an immediate request or `terminate` has a notification coming that wakes it. |
| TaskWithDelayThread.TerminateDrains | cll-telemetry/src/task_with_delay_thread.cpp:33-41 | When `terminate` returns, all workers have ended and no request is left without a start; also when it is called again behind requests that came after the first call. |
| TaskWithDelayThread.RequestRacesExample | cll-telemetry/src/task_with_delay_thread.cpp:33-52 | A run to the one request that is no step: `terminate` joins a worker that has left its loop, and the request would join it too. |
| CondVar.StepsKeepFlags | mcpelauncher-client/src/pairip_plt_workaround.cpp:153-163 | Adding 4 modulo 2^32 any number of times keeps both flag bits. |
| CondVar.LooksUnchangedExactlyWhen | mcpelauncher-client/src/pairip_plt_workaround.cpp:138-151 | A loaded word equals a later one exactly when a multiple of 2^30 steps lies between. |
| CondVar.WrapAroundExample | mcpelauncher-client/src/pairip_plt_workaround.cpp:161-163 | A run to a waiter that goes to sleep although 2^30 later broadcasts have finished, as an instance. |
| CondVar.BroadcastsReach | mcpelauncher-client/src/pairip_plt_workaround.cpp:138-166 | Any number of broadcasts can be made between a waiter's release of the mutex and its futex check. |
| CondVar.SleepsExactlyWhen | mcpelauncher-client/src/pairip_plt_workaround.cpp:146-147 | The futex check puts a waiter to sleep exactly in that case. |
| CondVar.StepKeepsCounted | mcpelauncher-client/src/pairip_plt_workaround.cpp:109-180 | Every step keeps each waiter in possession of the word of its load. |
| CondVar.StepKeepsSameFlag | mcpelauncher-client/src/pairip_plt_workaround.cpp:112-174 | Waiters and wakers always use the same private flag. |
| CondVar.StepKeepsNoneLeftAsleep | mcpelauncher-client/src/pairip_plt_workaround.cpp:138-166 | Every step within 2^30 steps of the load keeps: no finished broadcast has left an earlier waiter asleep. |
| CondVar.WaitIsSafeExactlyWhen | mcpelauncher-client/src/pairip_plt_workaround.cpp:138-147 | A futex check keeps that property exactly when a whole number of rounds has not gone by, or no later broadcast has finished. |
| CondVar.RunsKeepInv | mcpelauncher-client/src/pairip_plt_workaround.cpp:109-180 | All three hold in every run of any number of threads. |
| CondVar.BroadcastWakesAll | mcpelauncher-client/src/pairip_plt_workaround.cpp:153-166 | After its wake a waiter that loaded before the step is not asleep and cannot fall asleep on that value. |
| CondVar.BroadcastCoversWaiters | mcpelauncher-client/src/pairip_plt_workaround.cpp:153-166 | Whoever was in a wait when the broadcast stepped is, once it has finished, asleep only in a later wait. |
| CondVar.SignalWakesOne | mcpelauncher-client/src/pairip_plt_workaround.cpp:168-180 | A signal wakes exactly one thread if any sleeps, and changes no other waiter. |
| CondVar.SignalCoversWaiters | mcpelauncher-client/src/pairip_plt_workaround.cpp:153-180 | A thread that has begun its wait and does not sleep yet when a signal or broadcast steps the word does not fall asleep in that wait any more, in any run. |
| CondVar.WaitReturnsWithMutex | mcpelauncher-client/src/pairip_plt_workaround.cpp:138-151 | A wait returns only with the mutex held by its thread. |
| LazyInit.PayloadPointer | libc-shim/src/pthreads.h:33-49 | The slot for the host pointer is aligned, lies behind the initialiser and inside the object, for every aligned object address. |
| LazyInit.InitializersAreNotPointers | libc-shim/src/pthreads.h:52-87 | No static initialiser counts as a host pointer, in either memory layout. |
| LazyInit.StepKeepsInv | libc-shim/src/pthreads.cpp:34-105 | Every step of any thread, an initialisation over any word included, keeps: each live object is held by one thread, published or leaked, and what is published is live. |
| LazyInit.RunsKeepInv | libc-shim/src/pthreads.cpp:34-105 | So does every run, from a static initialiser or from the call that initialises. |
| LazyInit.AllReturnTheSame | libc-shim/src/pthreads.cpp:53-62 | All threads that return hold the same live host object, and the abort is never reached. |
| LazyInit.OneObjectSurvives | libc-shim/src/pthreads.cpp:57-58 | When all have returned, exactly the returned object is live, besides those an initialisation has leaked. |
| LazyInit.InitMakesInv | libc-shim/src/pthreads.cpp:302-315 | Initialising gives a sound object whatever word was there, and leaks what was live. |
| LazyInit.NothingLeaksExactlyWhen | libc-shim/src/pthreads.cpp:302-315 | A run leaks an object exactly when it initialises one that is in use. |
| LazyInit.ReturnedObjectStays | libc-shim/src/pthreads.h:90-116 | Until it is destroyed or initialised again, a returned object stays published and live in every further run. |
| LazyInit.SwapLosesExactlyWhen | libc-shim/src/pthreads.cpp:53-58 | The compare-and-swap loses exactly when another object has been published. |
| LazyInit.StepKeepsTyped | libc-shim/src/pthreads.h:91-98 | Every step keeps: as long as no pointer is published, what any thread has read as initialiser or built is of the type that is due. |
| LazyInit.SurvivorHasItsType | libc-shim/src/pthreads.cpp:34-63 | The mutex that all threads get has the type of the initialiser or of the last initialising call, although each thread reads the initialiser again after its look at the word. |
| LazyInit.StaticTypeIsKept | libc-shim/src/pthreads.cpp:34-63 | In every run of a statically initialised mutex all threads get a recursive one for the word 0x4000, an error-checking one for 0x8000 and a normal one for any other, in both memory layouts. |
| LazyInit.DestroyForgetsExactlyWhen | libc-shim/src/pthreads.cpp:317-326 | Destroying a mutex in use makes its next use that of a normal one exactly on 32-bit targets, where the initialiser was the word itself. |
| Once.StepKeepsInv | libc-shim/src/pthreads.cpp:493-509 | Every step keeps control word, runner and number of starts in step. |
| Once.RunsKeepInv | libc-shim/src/pthreads.cpp:493-509 | So does every run, and the control word never goes down. |
| Once.RoutineRunsOnce | libc-shim/src/pthreads.cpp:496-500 | The routine starts at most once, and whoever has returned did so after it finished. |
| Once.ControlOnlyRises | libc-shim/src/pthreads.cpp:496-505 | The control word moves through 0, 1, 2 only upwards. |
| Once.SpinnersAreReleased | libc-shim/src/pthreads.cpp:505-508 | A spinning thread gets out exactly when the routine has finished and the word is 2; until then some thread is running it. |
| Utf8.CharShape | mcpelauncher-client/src/utf8_util.h:7-15 | A character of RFC 3629 is as long as its first byte announces, and all its other bytes are continuations. |
| Utf8.CharsOfFlatten | mcpelauncher-client/src/utf8_util.h:17-25 | The forward walk reads encoded characters back as those characters, whatever follows. |
| Utf8.BoundaryAt | mcpelauncher-client/src/text_input_handler.cpp:79-80 | Every byte that is no continuation begins a character, so the backward scan and the forward walk find the same boundaries. |
| Utf8.CutAtBoundary | mcpelauncher-client/src/utf8_util.h:17-25 | Text cut at a boundary consists of the characters in front of it and those behind it. |
| Utf8.GetLength | mcpelauncher-client/src/utf8_util.h:17-25 | Counts the characters of the first bytes of any text, a cut last one included. |
| Utf8.GetBytePosFromUTF | mcpelauncher-client/src/utf8_util.h:27-41 | Over any bytes: within the text it is the byte position behind that many characters as the first bytes announce them; beyond, it is the number of characters. |
| Utf8.CharsWalk | mcpelauncher-client/src/utf8_util.h:27-41 | In any bytes each step of the walk is as long as announced, and only the last may be cut. |
| TextInput.TypeThenErase | mcpelauncher-client/src/text_input_handler.cpp:56-94 | On characters: typing k of them and erasing k times restores text and caret. |
| TextInput.TypeLeftDelete | mcpelauncher-client/src/text_input_handler.cpp:83-89 | On characters: typing one, going left and deleting restores text and caret. |
| TextInput.TypeAndErase | mcpelauncher-client/src/text_input_handler.cpp:47-99 | On the object: typing any valid text and pressing backspace once for each of its characters restores every byte and both positions, in bytes and in characters. |
| TextInput.TypeLeftAndDelete | mcpelauncher-client/src/text_input_handler.cpp:47-99 | The same for one character, left of which the caret goes to delete it. |
| TextInput.PreviousBoundary | mcpelauncher-client/src/text_input_handler.cpp:169-171 | Between two boundaries there are only continuation bytes, and none at the first. |
| TextInput.SpaceByte | mcpelauncher-client/src/text_input_handler.h:34-34 | A byte that counts as a space, the terminating zero included, is never part of a longer character. |
| TextInput.SpacesExactly | mcpelauncher-client/src/text_input_handler.h:23-23 | What separates words is every printable ASCII character that is no letter or digit, except eleven, and the terminating zero. |
| TextInput.EraseStartIsBoundary | mcpelauncher-client/src/text_input_handler.cpp:60-74 | The word-wise backspace stops at a character boundary in any text. |
| TextInput.ErasesTheWord | mcpelauncher-client/src/text_input_handler.cpp:60-74 | It erases the word and the spaces in front of the caret, and one byte more exactly when both are at most one byte long. |
| TextInput.ErasesLeadingSpaces | mcpelauncher-client/src/text_input_handler.cpp:61-68 | Where only spaces precede, all of them go. |
| TextInput.OffsetIsIndexExactlyWhen | mcpelauncher-client/src/text_input_handler.cpp:75-75 | A byte position equals the character position exactly behind ASCII text. |
| TextInput.WordEraseScenario | mcpelauncher-client/src/text_input_handler.cpp:56-82 | An accented letter, a space and two letters, as an instance: the text is valid, and the word-wise backspace leaves byte 3 behind two characters with character position 3. |
| TextInput.EraseInFrontScenario | mcpelauncher-client/src/text_input_handler.cpp:57-81 | Going left to the beginning from there leaves character position 1, where a backspace erases in front of the text. |
| TextInput.CursorBeyondTextScenario | mcpelauncher-client/src/text_input_handler.cpp:200-213 | One euro sign and a cursor set to 2, as an instance: the caret stands inside the character. |
| TextInput.EraseRange | mcpelauncher-client/src/text_input_handler.cpp:81-82 | Erasing the bytes between boundaries erases the characters between them and keeps the text valid. |
| TextInput.InsertAt | mcpelauncher-client/src/text_input_handler.cpp:90-93 | Inserting valid text at a boundary inserts its characters. |
| TextInput.InsertIsValidExactlyWhen | mcpelauncher-client/src/text_input_handler.cpp:91-91 | The edited text is valid exactly when the inserted one is. |
| TextInput.LastCharSize | mcpelauncher-client/src/text_input_handler.cpp:14-20 | A byte announces a size that reaches the end of the text exactly when the last character has that size. |
| TextInput.KeptBytes | mcpelauncher-client/src/text_input_handler.cpp:14-20 | What is kept once is the last character, unless that takes four bytes; then the text becomes invalid. |
| TextInput.KeptEmojiExample | mcpelauncher-client/src/text_input_handler.cpp:14-20 | One emoji, as an instance: a valid text, of which a lone continuation byte is kept. |
| TextInput.TextInputHandler.Update | mcpelauncher-client/src/text_input_handler.cpp:28-34 | The state is in step exactly when the text is valid; both ends go to the end. |
| TextInput.TextInputHandler.Enable | mcpelauncher-client/src/text_input_handler.cpp:4-26 | From any state with any text: what is kept of the old text is put behind the new one, and the state is in step exactly when the result is valid; between valid texts exactly when the last character is not of four bytes. |
| TextInput.TextInputHandler.Disable | mcpelauncher-client/src/text_input_handler.cpp:36-45 | From any state: clears everything, or nothing while a character is to be kept. |
| TextInput.TextInputHandler.OnTextInput | mcpelauncher-client/src/text_input_handler.cpp:47-99 | From any state in which both byte positions are boundaries of a valid text: backspace, delete and insertion do to bytes and positions what they do to characters; a word-wise backspace erases whole characters, and positions are in step afterwards exactly when the text left in front is ASCII; erasing goes out of range exactly for a backspace at byte 0 with a character position above 0. |
| TextInput.TextInputHandler.EraseBack | mcpelauncher-client/src/text_input_handler.cpp:56-82 | The byte loops of both backspaces, against the characters erased. |
| TextInput.TextInputHandler.OnKeyPressed | mcpelauncher-client/src/text_input_handler.cpp:101-188 | Every key, with and without shift and alt, moves both byte positions as `PressKey` moves the character caret, which the members below describe; the text stays, and positions in step stay in step. |
| TextInput.ArrowDropsSelection | mcpelauncher-client/src/text_input_handler.cpp:108-115 | Without shift, an arrow key drops a selection: caret and anchor meet at that one of them which has the selected characters directly in front of it (right) or directly behind it (left). |
| TextInput.CopyThenArrow | mcpelauncher-client/src/text_input_handler.cpp:108-198 | The same on the object and in bytes: exactly the text that `getCopyText` returned stands directly in front of the caret, or behind it. |
| TextInput.AnchorStaysExactlyWithShift | mcpelauncher-client/src/text_input_handler.cpp:183-187 | With shift a key moves the caret alone; without it the anchor goes along. |
| TextInput.ArrowsAreOpposite | mcpelauncher-client/src/text_input_handler.cpp:134-172 | Left and right undo each other, with shift or without a selection, except at the ends of the text; what shift passes over is what is selected. |
| TextInput.ArrowAndBack | mcpelauncher-client/src/text_input_handler.cpp:101-188 | The same on the object: all four positions are as before. |
| TextInput.WordMovesToNearest | mcpelauncher-client/src/text_input_handler.cpp:118-167 | A word-wise move goes to the nearest place to the right where a word ends, or to the left where one begins, or to the end of the text. |
| TextInput.TextInputHandler.WordRight | mcpelauncher-client/src/text_input_handler.cpp:118-133 | The byte loops stop where skipping spaces and then a word of characters stops. |
| TextInput.TextInputHandler.WordLeft | mcpelauncher-client/src/text_input_handler.cpp:152-167 | The same to the left. |
| TextInput.TextInputHandler.GetCopyText | mcpelauncher-client/src/text_input_handler.cpp:190-198 | Returns valid text: the selected characters, or all; in bytes, what stands between the two positions. |
| TextInput.TextInputHandler.SetCursorPosition | mcpelauncher-client/src/text_input_handler.cpp:200-213 | Within the text the caret goes to that character, and negative positions mean its end; beyond, the byte position becomes the number of characters, and the state is sound exactly when that is a boundary. |
| Base64.SymbolsAndValues | base64/src/base64.cpp:9-16 | Alphabet and reverse table are inverse to each other, and only the pad has value 64. |
| Base64.SymbolsAreTheTable | base64/src/base64.cpp:5-5 | The symbols of 0 to 63 are those of table 1 of RFC 4648, in its order. |
| Base64.EncodeLength | base64/src/base64.cpp:20-22 | The allocated length is the length of the encoding; it is a multiple of four exactly where padding or the input makes it so. |
| Base64.EncodeBytes | base64/src/base64.cpp:18-51 | The loop that writes by index writes every place of the output, within bounds, and gives the encoding. |
| Base64.EncodedAt | base64/src/base64.cpp:24-48 | Character by character: place `j` of block `i` is the symbol of six bits, counted from the highest, of the 24 that three bytes form, with zeros for missing bytes, or a pad where the block has no bits left. |
| Base64.TripleIsEightBits | base64/src/base64.cpp:80-84 | The bytes of a group are those of the 24 bits that its four values form; pads for the last one or two leave out as many bytes. |
| Base64.UnpackPack | base64/src/base64.cpp:25-31 | The bytes of the values of a text are that text, with and without pads. |
| Base64.UnpackAppend | base64/src/base64.cpp:60-85 | Groups of four are decoded independently of what follows. |
| Base64.Codec.InitReverseTable | base64/src/base64.cpp:9-16 | The loop fills the table with the value of every byte. |
| Base64.Codec.DecodeBytes | base64/src/base64.cpp:53-87 | For any input and skip characters the loops return the bytes, or the first error that a definition by positions names: a misplaced pad, an unreadable character, a text cut short. |
| Base64.WellPaddedExactlyWhen | base64/src/base64.cpp:70-71 | In whole groups no pad is misplaced exactly when each group ends in none, one or two of them. |
| Base64.OneCharacterAlone | base64/src/base64.cpp:60-79 | Any one character alone: a pad is misplaced, a symbol, a skipped character and a zero are cut short, any other is named as unreadable. |
| Base64.Codec.ReadGroup | base64/src/base64.cpp:61-79 | One round of four slots reads the next symbols over skipped characters, or reports what is wrong with the text. |
| Base64.RoundTrip | base64/src/base64.cpp:18-87 | Decoding undoes encoding for every byte string in both padding modes. |
| Base64.RoundTripExactlyWhen | base64/src/base64.cpp:53-87 | With skipped characters put in anywhere it still does, except exactly when they follow a whole last group; then the input counts as cut short. |
| Base64.TrailingLineEndExample | base64/src/base64.cpp:60-66 | Any padded encoding followed by a line end, as an instance. |
| Base64.DecodeAppend | base64/src/base64.cpp:60-85 | Behind whole groups a second text decodes as if alone. |
| Base64.ConcatenatedEncodings | base64/src/base64.cpp:60-85 | Two padded encodings in a row decode to both inputs. |
| Base64.RepackExactlyWhen | base64/src/base64.cpp:80-84 | Values survive unpacking and packing exactly when no unused bit is set. |
| Base64.ReencodesExactlyWhen | base64/src/base64.cpp:18-87 | A text of symbols alone decodes unless one symbol is left over, and encoding gives it back exactly when it is canonical. |
| Epoll.MarkParts | epoll-shim/src/epoll.c:45-48 | Key and bit can be read off the identifier of a user filter. |
| Epoll.MarksDiffer | epoll-shim/src/epoll.c:45-48 | Filters of different descriptors or bits never coincide. |
| Epoll.ChangesSave | epoll-shim/src/epoll.c:45-62 | The changes succeed on every queue, since each deletion follows its addition, and leave the saved bits. |
| Epoll.LoadAfterSave | epoll-shim/src/epoll.c:32-108 | Loading after saving returns the saved word of twelve bits. |
| Epoll.NoInterference | epoll-shim/src/epoll.c:32-108 | Saving for one descriptor changes what is loaded for no other. |
| Epoll.SaveTwice | epoll-shim/src/epoll.c:230-281 | Of two savings for one descriptor the second counts. |
| Epoll.KQueue.SaveState | epoll-shim/src/epoll.c:32-65 | The filter set becomes that of the saved word, or stays as it was with an error. |
| Epoll.KQueue.LoadState | epoll-shim/src/epoll.c:67-108 | The accumulated word is the one the filters stand for. |
| Epoll.KQueue.EpollCtl | epoll-shim/src/epoll.c:119-283 | Filters and status of every call, on success and at each point of failure. |
| Epoll.CtlChangesOneWord | epoll-shim/src/epoll.c:119-283 | A call changes its own descriptor's word only. |
| Epoll.CtlInterest | epoll-shim/src/epoll.c:148-283 | A call that gets as far as saving makes the word say what it asked for, also if it fails later; any other leaves it. |
| Epoll.CtlSucceedsExactlyWhen | epoll-shim/src/epoll.c:119-283 | A call succeeds exactly when it is one of the three operations on a descriptor below 2^20, with events that exist, registered unless it adds, and the kernel answers twice, with no error but 22 for the write filter, and can load, save and look at the file. |
| Epoll.LateFailureIs | epoll-shim/src/epoll.c:236-270 | Which error a call reports that fails behind its first saving, for every answer of the kernel. |
| Epoll.InterestBits | epoll-shim/src/epoll.c:110-117 | Which bits of events and words stand for input, output, hang-up, urgent data, pipes and sockets. |
| Epoll.RunsAgreeWithLastRequest | epoll-shim/src/epoll.c:119-283 | Main result: over every run of calls on any descriptors, failed ones included, the loaded word of each says what its last effective call asked for. |
| Epoll.FailureIsRememberedExactlyWhen | epoll-shim/src/epoll.c:230-265 | A failed call is remembered exactly when it fails behind the first saving and asked for something new. |
| Epoll.FailedDeletionExample | epoll-shim/src/epoll.c:185-265 | A deletion that fails because the read filter is gone has forgotten the descriptor, as an instance. |
| Epoll.TypeBitsAfter | epoll-shim/src/epoll.c:267-281 | Adding sets the type bits afresh, modifying keeps earlier ones too, deleting leaves those of the file; the word is 0 after a deletion exactly for files that are neither pipe nor socket. |

## Left out

- MultiFile.MultiFileEventBatch.OnEventsUploaded: the files after a write has failed inside the copy are not described, as the copy may be incomplete in any way.
- Buffered.BufferedEventBatch.FlushInternal: after a write or open has failed, what of the flushed events is in the files is stated event by event in `MultiFileEventBatch.AddEvent`, not for the loop as a whole.
- MultiFile.MultiFileEventBatch.AddEvent: what an event too large for a file does while the newest file is not open; it starts the next file, and later adds may succeed.
- Conservation.RunsConserve: a write that fails stores nothing of its event; events spoiled by half-written ones are those of `FileBatch.HoleSpoilsNextEventExactlyWhen`, and files lost in a fetch those of `MultiFileEventBatch.CheckOldestBatch`.
- Buffered.BufferRunsAreFifo: runs in which a flush meets events of memory in flight; what goes wrong there is `Buffered.FlushInFlightExactlyWhen`, and what is kept all the same `Conservation.RunsConserve`.
- CondVar.RunsKeepInv: runs in which fewer than 2^30 steps lie between a waiter's load and its futex check; beyond, `CondVar.WaitIsSafeExactlyWhen` says what happens.
- CondVar.SignalWakesOne: which thread is woken is open; a later waiter may be, as with any futex.
- TextInput.TextInputHandler.OnTextInput: starts from byte positions that are boundaries of a valid text; invalid text and `SetCursorPosition` beyond the text leave that, and nothing is claimed of edits from there.
- TextInput.TextInputHandler.SetCursorPosition: positions of 2^31 and more, which the source passes as `int`, are not modelled.
- Epoll.KQueue.EpollCtl: a kernel queue that fails half-way through a list of changes, or answers a probe with an error other than "no such filter", is not modelled.
- Read errors, a failing `ftruncate`, and two processes on one directory.
- File names and their parsing: files are named by their ids; ids do not overflow.
- JSON, HTTP, compression, back-off times and the configuration service; an event is the line it is written as, an answer is any answer.
- Real time: a timed wait may end at any moment. `TaskWithDelayThread::sleep`, declared in a header, is not part of this model.
- Weak memory orders. A request that would use the thread handle while `terminate` joins it (`TaskWithDelayThread.RequestRaces`) is undefined and no step of the model.
- `pthread_mutex_init` on an object that is still in use by other threads.
- The wake limit `INT_MAX` of a broadcast.
- Text and caret callbacks of the text field, and what the window system does with them.
- Input bytes above 127 given to the Base64 decoder: they are unreadable characters here, while the source indexes its table by a `char` that may be signed.
- `epoll_wait`, and the read and write filters themselves; of these only the kernel's receipts matter here.
- The patching of loaded libraries around the condition variable, windows, gamepads and graphics: not state machines, or without a stated property.
