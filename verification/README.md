# System programming labs: a model and its proofs

A Dafny model of the parts of the repository that hold state, interleavings,
parsers or arithmetic, with proofs of what they are for.

| files | what they model |
|---|---|
| `Common`, `Bytes`, `CText`, `Text*` | byte strings, searching, C strings and `strtoul`, `trim`/`split`/`divide` |
| `Multipart*`, `FormData*` | the incremental multipart parser over its sliding buffer, the serialiser, and the header lines of a form-data entry |
| `HeaderFields`, `PathEscapes`, `TrailerFields` | one header line, percent escapes, and trailer fields |
| `SharedRing*` | producer and consumer over the eight-slot ring in shared memory |
| `ThreadPool*` | workers, clients and shutdown over one mutex and condition variable |
| `SocketStream`, `LineReader`, `Chunked*`, `ContentReader` | buffered reads, line reading, the chunked coding in both directions, and the loop that receives a body |
| `Stash*` | save, overwrite and restore, with every system call able to fail |
| `Stego` | the message trailer behind a picture |
| `Ranges*`, `MultipartRanges*`, `RangeHeader` | range checking, coalescing, the multi-range body, the header |
| `Query*`, `CharacterSets` | query escaping, printing, parsing and normalising; the characters treated specially, written out |
| `Base64` | the encoder with its wrapping accumulator |
| `Tar*`, `Collage` | the tar writer, a ustar reader, and the service that collects and posts pictures |

## How it is built

Code that changes things step by step is a class or a method with loops. Its
`ensures` equates the new state with a function of the old one (`Feed`,
`PayloadRead`, `Distort`, ...), and the promises are lemmas about that function,
over every input, every run and every cut.

The two concurrent programs are state machines whose steps are single semaphore,
mutex or memory operations. A slot copy is two steps with the cell torn in
between, so that a race would be visible. A schedule is any sequence of enabled
steps, and safety, freedom from deadlock and termination are proved for all of
them.

The multipart parser and the trailer loop are proved for any treatment of a header
line; `MultipartFormData` and `TrailerFields` put in the one the code has. The
receivers and providers that callers pass in are functions of what they have seen,
or lists of operations. The socket may deliver any nonempty piece, and unless it is
called reliable it may fail at any time.

## Where the code and its purpose differ

Each of these is a statement in the model, with the exact condition and an input
that shows it.

- A multipart header line of 8192 bytes or more passes or fails depending on how
  the body is cut (`MultipartLimit.EveryCutWorksIffLinesAreShort`,
  `MultipartLimit.LongLineFails`).
- After the closing `--` an epilogue is dropped in the same block and parsed as a
  new entry in the next one (`MultipartClosing.EpilogueIsHarmlessIff`,
  `MultipartEpilogue.EmptyLineIsHarmful`).
- Names and file names of form-data items are written without escapes and cut at
  semicolons and equals signs when read; a quote inside them does no harm by itself
  (`MultipartFormData.ItemsComeBackIffWritable`, `MultipartItems.InjectedFilename`).
- `parse_header` decodes escapes in values that nobody encoded, so a trailer value
  with an escape in it is changed (`TrailerFields.TrailersComeBackIff`,
  `HeaderFields.PercentIsDecoded`).
- An empty write ends the chunked loop without a terminator
  (`ChunkedProperties.CompleteIffRunsToTheEnd`,
  `ChunkedProperties.EmptyWriteEndsTheBody`).
- Identical ranges are kept apart on purpose, so the coalesced ranges may repeat
  (`RangesProperties.SeparateForEveryOrder`, `RangesProperties.RepeatStays`).
- A suffix range longer than the content is rejected, although the comments cite
  section 14.1.2 of RFC 9110, which serves the whole content
  (`RangesProperties.WhichRangesAreInBounds`,
  `RangesProperties.LongSuffixIsRejected`).
- Normalising a query merges entries that differ only in spelling
  (`QueryProperties.NormalizingKeepsTheMultimapIff`,
  `QueryProperties.TwoSpellingsBecomeOne`).
- A job that `enqueue` accepts after the shutdown is never run if all workers have
  exited by then, and is run otherwise (`ThreadPoolLateJobs.AcceptedJobRunsIff`,
  `ThreadPoolLateJobs.ALateJobIsNeverRun`).
- The tar writer truncates names of 100 bytes and sizes of 8^11
  (`TarProperties.ReadBackIffStorable`, `TarProperties.LongNameIsLost`), and its
  version field is `0`, NUL in every header: a reader that asks for `00` accepts an
  archive only if it is empty (`TarProperties.VersionIsRejected`).
- A trailer is not found again behind a file of fewer than two bytes, or with a
  message of 2^32 bytes (`Stego.FoundIffItFits`, `Stego.OneByteIsTooLittle`), and an
  `add` that fails may leave one (`Stego.FailedAddsLeaveNoTrailerIff`,
  `Stego.FailedAddMayForge`).

## Model

| member | source | states |
|---|---|---|
| `Multipart.FormDataParser.SetBoundary` | labs2 /kotichi/libs/httplib.h:6458-6462 | The delimiters become `--boundary CRLF` and `CRLF --boundary`; parser state and unread window are untouched. |
| `Multipart.FormDataParser.StartWith` | labs2 /kotichi/libs/httplib.h:6642-6651 | True exactly when the text stands at that place of the buffer, inside the window. |
| `Multipart.FormDataParser.BufFind` | labs2 /kotichi/libs/httplib.h:6661-6682 | The two nested scanning loops return the first position of the delimiter in the window, or the window length if it occurs nowhere. |
| `Multipart.FormDataParser.BufAppend` | labs2 /kotichi/libs/httplib.h:6684-6700 | Sliding the window to the front in place, growing the buffer and copying the block amounts to appending the block to the unread bytes, whatever the offsets were. |
| `Multipart.FormDataParser.BufErase` | labs2 /kotichi/libs/httplib.h:6702 | Moving the start offset drops that many bytes from the front of the unread window. |
| `Multipart.FormDataParser.ParsePreamble` | labs2 /kotichi/libs/httplib.h:6473-6479 | State 0 waits, or drops everything up to and including the first delimiter line. |
| `Multipart.FormDataParser.ParseHeaders` | labs2 /kotichi/libs/httplib.h:6485-6565 | State 2 with its one-time length check and inner line loop is the function `HeadersStep`: which lines are taken, what the receiver is told, and each of the error exits. |
| `Multipart.FormDataParser.ParseBody` | labs2 /kotichi/libs/httplib.h:6566-6588 | State 3 is `BodyStep`: content up to the delimiter, or all but one delimiter length of the window, goes to the receiver; a refusal makes the form invalid. |
| `Multipart.FormDataParser.ParseAfterBoundary` | labs2 /kotichi/libs/httplib.h:6589-6606 | State 4 is `BoundaryStep`: CRLF opens an entry, `--` makes the form valid and drops the rest of the window, anything else waits. |
| `Multipart.FormDataParser.Parse` | labs2 /kotichi/libs/httplib.h:6466-6610 | One call on the mutable buffer refines `Feed` on window contents: same new state, same calls on the receivers, same return value, for every state and block; it terminates. |
| `Bytes.FindInPrefix` | labs2 /kotichi/libs/httplib.h:6661-6682 | Searching a front of the data finds the delimiter at the same place as searching all of it once the whole delimiter has arrived, and nothing before. |
| `MultipartProperties.StepTracks` | labs2 /kotichi/libs/httplib.h:6470-6607 | Every turn of the loop keeps the parser at a position of the body it is fed: what was handed out and what is unread always add up to the parts. |
| `MultipartProperties.AnySplitGivesThePartsBack` | labs2 /kotichi/libs/httplib.h:6466-6707 | For every nonempty list of fitting parts and every cut of the serialised body into blocks, each call succeeds, the form ends valid, and exactly the parts arrive in order with their content concatenated (section 5.1.1 of RFC 2046, section 4.1 of RFC 7578). |
| `MultipartProperties.PreambleIsSkipped` | labs2 /kotichi/libs/httplib.h:6473-6479 | The same with any text in front of the first delimiter line in which that line does not start earlier, for every cut of the text and the body (section 5.1.1 of RFC 2046). |
| `MultipartProperties.CrlfIsAPreamble` | labs2 /kotichi/libs/httplib.h:6473-6479 | A CRLF in front of the first delimiter is such a text. |
| `MultipartRefusals.OnlyAcceptedCallsCount` | labs2 /kotichi/libs/httplib.h:6492-6583 | For any input and every cut: each call a receiver keeps was accepted by it; a refusal ends the call. |
| `MultipartRefusals.NoRefusalNoFailure` | labs2 /kotichi/libs/httplib.h:6466-6610 | For any input, a call fails only if a header line trips the length check or a line, header or content is refused. |
| `MultipartRefusals.RefusalInvalidates` | labs2 /kotichi/libs/httplib.h:6492-6583 | A refusal leaves the form invalid. |
| `MultipartRefusals.EveryPartIsTold` | labs2 /kotichi/libs/httplib.h:6566-6573 | Every part is followed by at least one call with its content, an empty one by a call with no bytes. |
| `MultipartRefusals.NoDelimiterNothingHappens` | labs2 /kotichi/libs/httplib.h:6473-6475 | Until the first delimiter line has come, every call succeeds and nobody is told anything. |
| `MultipartRefusals.StuckForEver` | labs2 /kotichi/libs/httplib.h:6589-6606 | A delimiter with something else than CRLF or `--` behind it is never got past, whatever follows. |
| `MultipartWriter.SerializeItemBegin` | labs2 /kotichi/libs/httplib.h:6746-6762 | The delimiter line, the header lines of the item and the empty line. |
| `MultipartWriter.SerializeFormData` | labs2 /kotichi/libs/httplib.h:6775-6789 | The serialiser writes the body format that the parser lemmas are about. |
| `FormDataHeaders.StartWithCaseIgnore` | labs2 /kotichi/libs/httplib.h:6619-6628 | True exactly when the text starts with the head, whatever the case of its letters. |
| `FormDataHeaders.ParseDispositionParams` | labs2 /kotichi/libs/httplib.h:6249-6271 | Pieces seen before or without a key are passed over; the first piece between the equals signs is the key, the last of the others the value, each without the quotes around it. |
| `PathEscapes.FromHexToI` | labs2 /kotichi/libs/httplib.h:3430-3445 | The value of that many hexadecimal digits, or failure if there are fewer. |
| `PathEscapes.DecodePathComponent` | labs2 /kotichi/libs/httplib.h:7673-7707 | The loop with its look-ahead computes `DecodePath`, with both kinds of escape and malformed ones. |
| `PathEscapes.DecodesToItselfIff` | labs2 /kotichi/libs/httplib.h:7673-7707 | Decoding leaves a text as it is if and only if no well-formed escape stands anywhere in it. |
| `PathEscapes.EncodePathComponent` | labs2 /kotichi/libs/httplib.h:7638-7671 | The branches write `EncodePath`, byte by byte. |
| `PathEscapes.PathRoundTrip` | labs2 /kotichi/libs/httplib.h:7638-7707 | Decoding undoes encoding on every byte string. |
| `PathEscapes.CodePointIsDecoded` | labs2 /kotichi/libs/httplib.h:7678-7688 | Four digits behind `%u` become the UTF-8 sequence of their code point. |
| `PathEscapes.Utf8Reads` | labs2 /kotichi/libs/httplib.h:3541-3571 | The sequence reads back as the code point and has the length of section 3 of RFC 3629; surrogates have none. |
| `FormDataHeaders.EntryFields.TakeLine` | labs2 /kotichi/libs/httplib.h:6518-6559 | What one header line does to name, file name and content type of the entry, and when it fails the form. |
| `FormDataReading.DispositionTextIff` | labs2 /kotichi/libs/httplib.h:6524-6529 | A line has parameters if and only if it is the two fixed words in any letters, blanks as the pattern allows, and text without CR and LF. |
| `FormDataReading.ParamsAreRead` | labs2 /kotichi/libs/httplib.h:6249-6271 | Parameters that differ, with or without quotes around their values and with blanks behind the semicolons, are read in their order. |
| `FormDataReading.AnyFilenameArrives` | labs2 /kotichi/libs/httplib.h:6544-6556 | In the extended form every file name arrives, byte for byte, and overrides the plain one (section 4.2 of RFC 7578 names the plain one only). |
| `FormDataReading.NameIsNeeded` | labs2 /kotichi/libs/httplib.h:6532-6538 | A disposition line without a name fails the form. |
| `FormDataReading.OtherCharsetFails` | labs2 /kotichi/libs/httplib.h:6544-6556 | So does an extended file name that is empty or not in UTF-8. |
| `FormDataReading.TypeIsRead` | labs2 /kotichi/libs/httplib.h:6518-6522 | The content type is taken without the blanks around it, whatever the letters of the field name. |
| `MultipartItems.OtherParamsDoNot` | labs2 /kotichi/libs/httplib.h:6249-6271 | If a name or file name holds a semicolon or an equals sign, the parameters never read as that item, not even through an extended file name inside it. |
| `MultipartItems.PartReadsIff` | labs2 /kotichi/libs/httplib.h:6518-6559 | The lines written for an item read as that item if and only if name and file name hold no semicolon, equals sign, CR or LF, and the content type has no blank at either end. |
| `MultipartItems.ItemsComeBackIffReadable` | labs2 /kotichi/libs/httplib.h:6734-6789 | For every cut of the serialised body, and lines of correct syntax and length, the form-data items come back as they were if and only if in every one of them name and file name hold no semicolon, equals sign, CR or LF, and the content type has no blank at either end. |
| `MultipartItems.InjectedFilename` | labs2 /kotichi/libs/httplib.h:6751-6754 | The serialiser escapes nothing: an item with a quote and `; filename=` in its name is written exactly like another item with that file name, and is read as the other. |
| `MultipartFormData.DispositionHasSyntaxIff` | labs2 /kotichi/libs/httplib.h:6751-6756 | The disposition line passes `parse_header` if and only if name and file name have only visible bytes and blanks. |
| `MultipartFormData.ItemsComeBackIffWritable` | labs2 /kotichi/libs/httplib.h:6734-6789 | With `parse_header` and the reader of header lines as they are, for every cut of the body and items whose lines are below the limit and free of CRLF: the items come back if and only if names and file names consist of visible bytes and blanks other than semicolon and equals sign, and content types are field values. |
| `MultipartSplits.CutInTwo` | labs2 /kotichi/libs/httplib.h:6466-6610 | For any input at all, well formed or not, and a content receiver whose answer depends on the parts so far and not on the portions, and that does not take more where it refuses less: cutting one block in two changes neither success, state, unread input nor assembled parts, as long as in neither call a header line trips the length check and the closing `--` is not in the first piece. |
| `MultipartSplits.LimitIsSteady` | labs2 /kotichi/libs/httplib.h:6466-6610 | A receiver with a limit on the content of a part is one of these. |
| `MultipartSplits.EveryRegularCutIsTheSame` | labs2 /kotichi/libs/httplib.h:6466-6610 | The same for any number of blocks, under the same conditions on receiver and calls: the cut has the result of one call with all of the input. |
| `MultipartAnyInput.ShortHeadersMakeCutsEqual` | labs2 /kotichi/libs/httplib.h:6466-6610 | The same under a condition on the bytes alone: if from every place where a header line may start the next CRLF is less than 8192 bytes away, or the input ends within 8192, every cut whose last block completes the first closing delimiter has the result of one call, for such a receiver. |
| `MultipartAnyInput.AllCutsAgree` | labs2 /kotichi/libs/httplib.h:6466-6610 | So for such input and such a receiver, with the closing delimiter at the end of the input or nowhere, all cuts into nonempty blocks have the same result. |
| `MultipartEpilogue.DroppedInTheSameBlock` | labs2 /kotichi/libs/httplib.h:6595-6601 | The closing `--` makes the form valid and drops whatever else is in the window. |
| `MultipartEpilogue.FromTheClosingOn` | labs2 /kotichi/libs/httplib.h:6589-6606 | From where the parser stands in front of the closing `--`: every cut of it and the epilogue is harmless if and only if the epilogue meets the condition of the next row. |
| `MultipartClosing.EpilogueIsHarmlessIff` | labs2 /kotichi/libs/httplib.h:6466-6610 | For fitting parts and any preamble, every cut of the body together with its epilogue gives the parts back if and only if behind each CRLF of the epilogue there is a nonempty line below the limit that the line handler takes or, behind the last one, no more than the limit. |
| `MultipartClosing.ReadsOn` | labs2 /kotichi/libs/httplib.h:6466-6610 | A call that would end in front of the closing `--` goes on from there when its block is longer. |
| `MultipartClosing.NoFinalLineEnd` | labs2 /kotichi/libs/httplib.h:6589-6606 | A body that ends in `--` without a line end gives its parts back for every cut. |
| `MultipartEpilogue.EmptyLineIsHarmful` | labs2 /kotichi/libs/httplib.h:6599-6604 | An epilogue with an empty line in it is one of those that some cut turns into a further part or a failure. |
| `MultipartEpilogue.FinalCrlfIsHarmless` | labs2 /kotichi/libs/httplib.h:6589-6594 | No epilogue and a final CRLF are harmless. |
| `MultipartGrowth.PartsGrow` | labs2 /kotichi/libs/httplib.h:6470-6607 | No input ever takes a part back. |
| `MultipartLimit.LongLineFails` | labs2 /kotichi/libs/httplib.h:6486-6487 | A header line of 8192 bytes or more fails if a block ends 8193 bytes into the line and its CRLF. |
| `MultipartLimit.EveryCutWorksIffLinesAreShort` | labs2 /kotichi/libs/httplib.h:6485-6488 | Every cut gives the parts back if and only if all header lines are shorter than 8192 bytes. |
| `SharedRingProperties.Always` | labs2 /1shmem/producer.cpp:39-78 | The ring invariant holds after every schedule of producer and consumer steps. |
| `SharedRingProperties.SlotsAreSafe` | labs2 /1shmem/producer.cpp:57-63 | In every reachable state no unread record is in the slot being stored to, a load sees a complete record that does not change during the load, and at most one process is in its critical section. |
| `SharedRingProperties.SemaphoresAreConserved` | labs2 /1shmem/consumer.cpp:30-37 | In every reachable state empty + full + slots held between a wait and its post is 8, and the mutex and its holders add up to 1. |
| `SharedRingProperties.RefinesBoundedQueue` | labs2 /1shmem/producer.cpp:57-64 | Seen through the ring's own cells and indices, each step appends a record to a queue of fewer than eight, removes the oldest one and hands exactly it on, or leaves the queue alone. |
| `SharedRingProperties.WritesExactlyTheFiles` | labs2 /1shmem/consumer.cpp:29-47 | The files written are always a prefix of the readable regular files in directory order, each cut to its first 65536 bytes, and all of them once the consumer has seen the end mark. |
| `SharedRingProperties.NeverDeadlocks` | labs2 /1shmem/consumer.cpp:29-40 | In every reachable state where a process has not finished, a step of one of them is enabled. |
| `SharedRingProperties.EveryRunEnds` | labs2 /1shmem/producer.cpp:39-78 | No run over a directory of n entries has more than 17 n + 24 steps. |
| `SharedRingProperties.CompleteRunsDeliverEverything` | labs2 /1shmem/consumer.cpp:29-47 | A run that cannot be continued has written every chosen file. |
| `SharedRingProperties.IdxApart` | labs2 /1shmem/producer.cpp:61 | Records fewer than eight apart never share a slot. |
| `ThreadPoolProperties.Always` | labs2 /kotichi/libs/httplib.h:935-984 | The pool invariant holds after every interleaving of clients, workers, shutdown and spurious wake-ups. |
| `ThreadPoolProperties.JobsAreTakenInOrderAndOnce` | labs2 /kotichi/libs/httplib.h:935-984 | Taken jobs followed by queued ones are the accepted ones in order; every taken job has been run or is being run by exactly one worker; a positive queue limit is never exceeded. |
| `ThreadPoolProperties.NoWorkerExitsEarly` | labs2 /kotichi/libs/httplib.h:968-984 | Once any worker has exited, all jobs accepted before the shutdown have been taken. |
| `ThreadPoolProperties.NoLostWakeUp` | labs2 /kotichi/libs/httplib.h:944-974 | Before shutdown, while a worker sleeps every queued job is matched by a pending notification or an awake worker; a queued job never lies there with everybody asleep. |
| `ThreadPoolProperties.StandstillMeansDone` | labs2 /kotichi/libs/httplib.h:935-984 | In every state of the invariant: if no step inside the pool is possible, no caller is stuck, the queue is empty before a shutdown, and after one every worker has exited and been joined. |
| `ThreadPoolProperties.StepDrains` | labs2 /kotichi/libs/httplib.h:935-984 | A measure of queued jobs and program counters falls with every step of the pool's own code, in the middle of calls and of a shutdown. |
| `ThreadPoolProperties.LeftAloneComesToRest` | labs2 /kotichi/libs/httplib.h:935-984 | Without new calls and spurious wake-ups every run is bounded; at rest every accepted job has run exactly once except those still queued, which are none before a shutdown and only jobs accepted after it otherwise, with all workers joined. |
| `ThreadPoolLateJobs.QueuedJobRunsIff` | labs2 /kotichi/libs/httplib.h:967-984 | A queued job, at whatever stage of a shutdown and whatever calls follow, has run once in every run that comes to rest if and only if some worker has not taken the exit branch yet. |
| `ThreadPoolLateJobs.AcceptedJobRunsIff` | labs2 /kotichi/libs/httplib.h:935-984 | The same for a job just being accepted, asked of the state before: it is run if and only if some worker has not exited. |
| `ThreadPoolLateJobs.LeftForEver` | labs2 /kotichi/libs/httplib.h:976 | Once all workers have exited, a queued job stays queued and is never run, whatever happens afterwards. |
| `ThreadPoolLateJobs.ALateJobIsNeverRun` | labs2 /kotichi/libs/httplib.h:935-984 | A schedule after which a job has been accepted that no continuation, later calls included, ever runs. |
| `SocketStream.Stream.Read` | labs2 /kotichi/libs/httplib.h:8205-8265 | Whatever pieces the socket delivers, a read returns the next bytes of the input and loses none; 0 means the end; offset <= content size <= 4096 and returned + buffered == received are kept. |
| `SocketStream.Stream.ReadAll` | labs2 /kotichi/libs/httplib.h:8205-8265 | Any sequence of reads hands out the input in order: what was returned followed by what is unread is the input. |
| `LineReader.NextLineMeans` | labs2 /kotichi/libs/httplib.h:3986-4024 | A line is the shortest front of the input ending in CRLF, or all of a nonempty input below the limit; reading fails exactly on empty input and when no CRLF ends within 32768 bytes. |
| `LineReader.StreamLineReader.Append` | labs2 /kotichi/libs/httplib.h:4026-4037 | The fixed and the growable buffer together hold the text, which grows by the byte, for every fixed size of at least 2. |
| `LineReader.StreamLineReader.GetLine` | labs2 /kotichi/libs/httplib.h:3986-4024 | Whenever it succeeds, and on a reliable stream also when it fails, the loop consumes and exposes exactly the line `NextLine` describes, for every segmentation by the socket; a failing stream loses nothing. |
| `LineReader.StreamLineReader.EndWithCrlf` | labs2 /kotichi/libs/httplib.h:3981-3984 | True exactly when the text ends in CRLF, in whichever buffer it is. |
| `CText.FromIToHex` | labs2 /kotichi/libs/httplib.h:3447-3455 | The digit loop prints `Hex`. |
| `CText.StrtoulOfHex` | labs2 /kotichi/libs/httplib.h:10491-10493 | `strtoul` with base 16 reads a printed size back, all of it and no more. |
| `Chunked.ChunkedWriter.WriteData` | labs2 /kotichi/libs/httplib.h:5921-5929 | However short the writes of the stream are, success means all the data is on the wire. |
| `Chunked.ChunkedWriter.SinkWrite` | labs2 /kotichi/libs/httplib.h:6041-6063 | Success means a chunk of the block, or nothing for an empty one, is on the wire, and only an empty block ends the loop. |
| `Chunked.ChunkedWriter.SinkDone` | labs2 /kotichi/libs/httplib.h:6067-6106 | Success means the last chunk, the trailer fields in order and the empty line are on the wire, and the loop ends. |
| `Chunked.ChunkedWriter.WriteContentChunked` | labs2 /kotichi/libs/httplib.h:6032-6129 | The provider loop puts exactly the emitted rounds on the wire, stopping after a round that ends in `done` or an empty write. |
| `ChunkedProperties.CompleteIffRunsToTheEnd` | labs2 /kotichi/libs/httplib.h:6043-6114 | All writes and the terminator reach the wire if and only if no provider call but the last ends in an empty write or `done`. |
| `ChunkedProperties.EmptyWriteEndsTheBody` | labs2 /kotichi/libs/httplib.h:6043-6046 | An empty write in a call of its own before `done`: nothing reaches the wire, not even the terminator. |
| `ChunkedProperties.NonemptyWritesRunToTheEnd` | labs2 /kotichi/libs/httplib.h:6041-6129 | Nonempty writes in any grouping of calls followed by one `done` all reach the wire. |
| `Chunked.ChunkedDecoder.ReadPayload` | labs2 /kotichi/libs/httplib.h:10481-10526 | One call refines `PayloadRead`, decoder state, unread input and bytes returned, for every short read; on a stream that may fail every call that does not fail does, and every call takes input from the front only. |
| `Chunked.ChunkedDecoder.ParseTrailersInto` | labs2 /kotichi/libs/httplib.h:10528-10533 | The trailer loop refines `TrailersInto`, with the length and count limits, whenever it succeeds and on a reliable stream also when it fails. |
| `ContentReader.ReadContentChunked` | labs2 /kotichi/libs/httplib.h:5748-5780 | The receiver has been handed, piece by piece, what the decoder returned; each of the three results says why the loop ended, on any stream. |
| `ContentReader.CodedContentArrives` | labs2 /kotichi/libs/httplib.h:5748-5780 | For a body in any coding and whatever the stream does: the receiver has a front of the payload; success means all of it, the fields of the trailer section, and only the bytes behind the body unread; too large means larger than the limit; on a reliable stream nothing else can happen, unless the receiver refuses. |
| `ContentReader.ContentArrives` | labs2 /kotichi/libs/httplib.h:5748-5780 | The same for what the sink has written. |
| `ContentReader.NoNumberIsNotReceived` | labs2 /kotichi/libs/httplib.h:5748-5780 | A body whose first line holds no number is a failure, and nothing of it is handed on. |
| `CText.StrtoulReads` | labs2 /kotichi/libs/httplib.h:10491-10493 | Blanks, a sign, `0x` and digits of either case are read as their value, cut to the largest one, and no further. |
| `CText.StrtoulTakesNothingIff` | labs2 /kotichi/libs/httplib.h:10491-10493 | `strtoul` takes nothing if and only if no number starts in the text. |
| `ChunkedReading.StartsChunk` | labs2 /kotichi/libs/httplib.h:10489-10507 | Any line in which a size is written, with an extension or anything else behind it, starts a chunk of that size and leaves what follows the line unread (section 7.1.1 of RFC 9112). |
| `ChunkedReading.NoNumberFails` | labs2 /kotichi/libs/httplib.h:10491-10493 | A line without a number fails and does not end the body. |
| `ChunkedReading.TooLargeFails` | labs2 /kotichi/libs/httplib.h:10494 | So does a size that does not fit the counter. |
| `ChunkedReading.NoLineFails` | labs2 /kotichi/libs/httplib.h:10489 | So does the end of the input, and a line that does not end within the limit. |
| `ChunkedReading.NothingToReadFails` | labs2 /kotichi/libs/httplib.h:10509-10511 | Input that ends inside a chunk, or a buffer without room, fails. |
| `ChunkedReading.MissingLineEndFails` | labs2 /kotichi/libs/httplib.h:10520-10524 | A chunk that is not followed by CRLF fails with its last piece. |
| `ChunkedReading.ReadTracks` | labs2 /kotichi/libs/httplib.h:10481-10526 | A read returns a nonempty front of the payload that is left, or reports the end when nothing is, in any coding of the sizes. |
| `ChunkedReading.AnyCodingIsRead` | labs2 /kotichi/libs/httplib.h:10481-10526 | A body in any coding, whatever the spelling of its sizes and their extensions: for every buffer sizes and short reads the decoder never fails, returns a front of the payload, all of it once finished, and then leaves exactly what follows the last chunk. |
| `ChunkedProperties.BadTrailerFails` | labs2 /kotichi/libs/httplib.h:3826-3850 | A trailer line that is malformed, too long or one too many fails. |
| `ChunkedProperties.TrailersAreRead` | labs2 /kotichi/libs/httplib.h:3826-3850 | For any treatment of a header line, what it makes of the announced fields is collected in order and exactly the bytes behind the empty line stay unread. |
| `HeaderFields.IsFieldContent` | labs2 /kotichi/libs/httplib.h:7359-7383 | The three cases and the loop decide whether a value is visible at both ends and has only visible bytes and blanks. |
| `HeaderFields.ParseHeaderLine` | labs2 /kotichi/libs/httplib.h:3714-3757 | Trailing blanks, the name up to the first colon, leading blanks, both syntax checks, and decoding of every value but those of Location and Referer. |
| `HeaderFields.FieldComesBackIff` | labs2 /kotichi/libs/httplib.h:3714-3757 | A field on a line of its own is parsed as itself if and only if its name is a token, its value is a field value, and, unless the name is Location or Referer, there is no escape in the value. |
| `HeaderFields.AnySpacing` | labs2 /kotichi/libs/httplib.h:3714-3757 | Blanks around a value do not count, and none are needed. |
| `HeaderFields.NoNameNoField` | labs2 /kotichi/libs/httplib.h:3726-3733 | A line without a colon is malformed. |
| `HeaderFields.BadNameNoField` | labs2 /kotichi/libs/httplib.h:3726-3733 | So is one with something else than a token in front of the colon. |
| `HeaderFields.TokenCharsAre` | labs2 /kotichi/libs/httplib.h:7337-7341 | The characters of a token are the visible ones but the delimiters (section 5.6.2 of RFC 9110). |
| `HeaderFields.PercentIsDecoded` | labs2 /kotichi/libs/httplib.h:3747-3751 | The value `100%25` arrives as `100%`. |
| `TrailerFields.TrailersComeBackIff` | labs2 /kotichi/libs/httplib.h:3759-3850 | With `parse_header` for the lines, and fields of correct syntax: exactly the announced fields are received as they were sent, and the bytes behind them left unread, if and only if no value of an announced field is changed by decoding. |
| `ChunkedProperties.ChunkedRoundTrip` | labs2 /kotichi/libs/httplib.h:10481-10533 | Nonempty blocks written in any grouping, then `done`, then any suffix: for every buffer sizes and short reads the decoder never fails, returns a front of the payload, all of it once finished, finishes after enough reads, and the trailers leave exactly the suffix (section 7.1 of RFC 9112). |
| `Stash.Stasher.DistortFile` | labs/stash/hideStash.cpp:21-100 | The disk goes through exactly the states of `Distort`, in order, and the exit code is its code, for every outcome of every system call. |
| `Stash.Stasher.CollectHead` | labs/stash/hideStash.cpp:115-127 | The read loop collects the whole metadata for every pattern of short reads, or fails. |
| `Stash.Stasher.RestoreFile` | labs/stash/hideStash.cpp:102-151 | The disk goes through exactly the states of `Restore`. |
| `StashProperties.EveryStateIsRecoverable` | labs/stash/hideStash.cpp:36-151 | Through any sequence of calls with any failures, laying the metadata over the start of the file gives the original at every intermediate state. |
| `StashProperties.NothingIsEverLost` | labs/stash/hideStash.cpp:36-151 | The same from an untouched file, and a `restore` that returns 0 leaves the file equal to the original. |
| `StashProperties.DistortHides` | labs/stash/hideStash.cpp:86-99 | A `distort` that returns 0 started without metadata, saved the head and left zeros in its place. |
| `StashProperties.DistortSucceedsIff` | labs/stash/hideStash.cpp:21-100 | `distort` returns 0 if and only if the name fits, there is no metadata yet and every call did all that was asked of it; 2 if and only if the name does not fit. |
| `StashProperties.DistortDoesItsWork` | labs/stash/hideStash.cpp:21-100 | And then exactly the first 4096 bytes, or all of a shorter file, are saved and zeroed. |
| `StashProperties.FailedDistortLeavesNothing` | labs/stash/hideStash.cpp:36-84 | What fails before the metadata file is made leaves the disk alone, and a head that cannot be saved whole leaves it as it was if the metadata can be removed again. |
| `StashProperties.RestoreSucceedsIff` | labs/stash/hideStash.cpp:102-151 | With reads that do not fail, `restore` returns 0 if and only if the name fits, the metadata is there and opens, the file opens and the head is written whole. |
| `StashProperties.RestoreUndoesDistort` | labs/stash/hideStash.cpp:102-151 | `restore` after a successful `distort`, nothing failing, is back at the start with no metadata left. |
| `StashProperties.ReadMetaReadsAll` | labs/stash/hideStash.cpp:115-126 | What the read loop returns is the whole rest of the metadata, and it returns unless a read fails. |
| `Stego.LengthRoundTrip` | labs/stego/stego.cpp:84-90 | The little-endian field never reads back as more than the length, and as the length itself if and only if it is below 2^32. |
| `Stego.Picture.HasTrailer` | labs/stego/stego.cpp:21-40 | A trailer is reported with length and start exactly when there is one. |
| `Stego.Picture.AddMessage` | labs/stego/stego.cpp:49-105 | Refused on a file with a trailer; otherwise message, length and signature are appended, each write only if the one before stored everything, and the call fails unless all three did. |
| `Stego.WrittenIsAFront` | labs/stego/stego.cpp:75-100 | Whatever the writes store, the file grows by a front of the trailer, and by all of it exactly when the call succeeds. |
| `Stego.CutSignatureIsNoTrailer` | labs/stego/stego.cpp:96-100 | A signature that was cut short is never taken for a trailer. |
| `Stego.FailedAddLeavesATrailerIff` | labs/stego/stego.cpp:75-100 | A call that fails leaves a trailer exactly if its last write stops, before the signature, where the bytes end with a signature and a length that leaves room for a picture. |
| `Stego.FailedAddsLeaveNoTrailerIff` | labs/stego/stego.cpp:75-100 | No failing write, wherever it stops, leaves a trailer if and only if none of the places between the old end of the file and the signature is such an end: a condition on the file, the message and its length field alone. |
| `Stego.FailedAddMayForge` | labs/stego/stego.cpp:91-95 | A message that fails this condition: one that ends like a trailer, when its own length cannot be written; the call reports failure and a trailer is found. |
| `Stego.OneByteIsTooLittle` | labs/stego/stego.cpp:38 | A message added to a file of one byte is reported as added and not found again. |
| `Stego.Picture.ReadMessage` | labs/stego/stego.cpp:108-136 | Prints the message of the trailer, or fails if there is none. |
| `Stego.Picture.ClearMessage` | labs/stego/stego.cpp:139-164 | The file is cut at the start of its trailer, or left alone. |
| `Stego.FoundIffItFits` | labs/stego/stego.cpp:21-40 | A trailer just written is found again with its message if and only if the file had two bytes and the message is below 2^32 bytes. |
| `Stego.AnySequence` | labs/stego/stego.cpp:49-164 | Every sequence of add, read and clear, with writes failing anywhere, answers as if there were one hidden message behind the picture and what failed calls left, provided the bytes of the messages whose calls fail meet that condition; clearing gives that back, and exactly the picture if no write failed. |
| `Ranges.Request.CoalesceRanges` | labs2 /kotichi/libs/httplib.h:6791-6845 | The result is that of merging some order the sort may leave. |
| `Ranges.Request.Sort` | labs2 /kotichi/libs/httplib.h:6794-6796 | A permutation in order of the starts, equal starts in any order. |
| `Ranges.Request.FindOverlap` | labs2 /kotichi/libs/httplib.h:6896-6903 | For ranges with a position, true if and only if a range processed earlier shares a position with this one. |
| `Ranges.Request.CheckRanges` | labs2 /kotichi/libs/httplib.h:6862-6906 | Normalising in place while checking rejects exactly the requests with a range outside the content or more than two ranges overlapping an earlier one. |
| `Ranges.Request.RangeError` | labs2 /kotichi/libs/httplib.h:6847-6913 | When a request is rejected, when it is left alone, and what its ranges become otherwise. |
| `RangesProperties.WhichRangesAreInBounds` | labs2 /kotichi/libs/httplib.h:6866-6893 | A well-formed range passes if and only if it asks for some byte and is not a suffix longer than the content; the RFC would serve the latter. |
| `RangesProperties.AcceptableIff` | labs2 /kotichi/libs/httplib.h:6847-6906 | A well-formed request is let through if and only if it has at most 1024 ranges, each asks for some byte and is not a suffix longer than the content, and at most two of them ask for a position that an earlier one asks for. |
| `RangesProperties.DisjointRangesAreAccepted` | labs2 /kotichi/libs/httplib.h:6847-6906 | Pairwise disjoint ranges inside the content are always let through, adjacent ones as well. |
| `RangesProperties.LongSuffixIsRejected` | labs2 /kotichi/libs/httplib.h:6866-6893 | A suffix one byte longer than the content is rejected although it asks for all of it. |
| `RangesProperties.CoalescingServesTheRequest` | labs2 /kotichi/libs/httplib.h:6791-6913 | For every order of the sort, the coalesced ranges of an accepted request cover exactly the union of the requested positions, lie inside the content and are sorted. |
| `RangesProperties.DistinctRangesSeparate` | labs2 /kotichi/libs/httplib.h:6826-6842 | If the normalised ranges are pairwise distinct the result is pairwise disjoint and not adjacent, for every order of the sort. |
| `RangesProperties.SeparateForEveryOrder` | labs2 /kotichi/libs/httplib.h:6826-6842 | The result is disjoint and not adjacent for every order of the sort if and only if every repeated range is swallowed by one that starts earlier. |
| `RangesProperties.RepeatStays` | labs2 /kotichi/libs/httplib.h:6826-6842 | A range asked for twice stays there twice. |
| `RangesProperties.OutsideIsSkipped` | labs2 /kotichi/libs/httplib.h:6820-6824 | Ranges outside the content change nothing in what the others coalesce to. |
| `MultipartRanges.ProcessMultipartRanges` | labs2 /kotichi/libs/httplib.h:6939-6974 | The tokens the callbacks see, in order. |
| `MultipartRanges.MakeMultipartRangesData` | labs2 /kotichi/libs/httplib.h:6976-6990 | The appending callbacks build the rendered tokens, and no stretch reaches beyond the content. |
| `MultipartRanges.GetMultipartRangesDataLength` | labs2 /kotichi/libs/httplib.h:6992-7008 | The counting callbacks add up the sizes of the same tokens. |
| `MultipartRanges.SizeIsRenderedLength` | labs2 /kotichi/libs/httplib.h:6992-7008 | The announced length is the length of the body, for every token list. |
| `MultipartRanges.BodyCarries` | labs2 /kotichi/libs/httplib.h:6976-6990 | The body carries a content position exactly when a range covers it. |
| `MultipartRanges.AcceptedRequestsAreServed` | labs2 /kotichi/libs/httplib.h:6847-7008 | For every accepted request and sort order: the asserted bounds hold, announced length equals body length, and the body carries exactly the requested bytes (section 14.6 of RFC 9110). |
| `MultipartRangesBody.BodyIsMultipart` | labs2 /kotichi/libs/httplib.h:6939-6990 | The body is what the multipart serialiser would write for one part per range, less the CRLF behind the closing `--`. |
| `MultipartRangesBody.ContentRangeReads` | labs2 /kotichi/libs/httplib.h:6925-6937 | First position, last position and content length can be read back from a Content-Range field. |
| `MultipartRangesBody.RangesArriveAsParts` | labs2 /kotichi/libs/httplib.h:6847-6990 | From request to client, for the body as it is sent: for every accepted request, every order of the sort and every cut, the multipart parser gives one part per coalesced range, in order, each naming its positions and holding exactly those bytes; asked only that the content is free of the delimiter, the content type free of CRLF and below the line limit, and that its line and the Content-Range lines are taken (section 14.6 of RFC 9110). |
| `RangeHeader.MakeRangeHeader` | labs2 /kotichi/libs/httplib.h:7798-7810 | The printing loop writes the ranges joined by `, `. |
| `RangeHeader.ParseRangeHeader` | labs2 /kotichi/libs/httplib.h:6276-6322 | Splitting, digit checks, the number limit and the order check decide success and result as `ParseHeader` does. |
| `RangeHeader.ParseUndoesMake` | labs2 /kotichi/libs/httplib.h:6276-6322 | Parsing a printed list gives it back if and only if it is nonempty and every range has an end, no negative one but the absent mark, and its ends in order (section 14.1.2 of RFC 9110). |
| `RangeHeader.ParseRangeIs` | labs2 /kotichi/libs/httplib.h:6287-6313 | A piece is a range if and only if there are digits or nothing on either side of its first dash, not nothing on both, within the limit and in order; any spelling of the numbers is read. |
| `RangeHeader.HeaderIsTakenIff` | labs2 /kotichi/libs/httplib.h:6276-6322 | A header is taken if and only if it starts with `bytes=`, has a piece, and every piece is a range. |
| `Text.Trim` | labs2 /kotichi/libs/httplib.h:3853-3862 | Both ends move over blanks only and stop at the first non-blank; they cross exactly on blank text. |
| `Text.Split` | labs2 /kotichi/libs/httplib.h:3902-3922 | The callback sees the trimmed nonempty pieces between the delimiters, in order. |
| `Text.SplitOfJoin` | labs2 /kotichi/libs/httplib.h:3902-3922 | Splitting undoes joining, also when blanks follow the delimiter. |
| `Text.PiecesOfJoin` | labs2 /kotichi/libs/httplib.h:3902-3922 | Cut at any delimiter, a text has the pieces of both sides. |
| `Text.OnePiece` | labs2 /kotichi/libs/httplib.h:3902-3922 | A piece loses the blanks around it, and a blank piece is dropped. |
| `Text.Divide` | labs2 /kotichi/libs/httplib.h:3876-3888 | The text before and behind the first delimiter. |
| `Query.EncodeQueryComponent` | labs2 /kotichi/libs/httplib.h:7709-7761 | The branches write `Encode`, byte by byte. |
| `Query.DecodeQueryComponent` | labs2 /kotichi/libs/httplib.h:7763-7786 | The loop with its look-ahead and `strtoul` computes `Decode`, malformed escapes included. |
| `QueryProperties.ComesBackIffSidesAgree` | labs2 /kotichi/libs/httplib.h:7709-7786 | Decoding undoes encoding on every byte string if and only if both sides agree about spaces or the string has none of the byte they disagree about (section 2.1 of RFC 3986). |
| `QueryDecoding.EscapeValueIs` | labs2 /kotichi/libs/httplib.h:7769-7777 | The two bytes behind a percent sign are taken if and only if they are two digits, or a digit behind a blank or a sign, and give that value. |
| `QueryDecoding.DecodesToItselfIff` | labs2 /kotichi/libs/httplib.h:7763-7786 | Decoding leaves a text as it is if and only if no escape stands in it and, where a plus means a space, no plus. |
| `QueryDecoding.DecodeOfJoin` | labs2 /kotichi/libs/httplib.h:7763-7786 | Two texts are decoded each on its own unless an escape lies across the join. |
| `QueryDecoding.PercentStays` | labs2 /kotichi/libs/httplib.h:7776-7777 | `50%+off` is decoded to `50% off`. |
| `CharacterSets.QueryEscapesAre` | labs2 /kotichi/libs/httplib.h:7709-7761 | Which bytes a query component leaves as they are, and what the others become. |
| `CharacterSets.PathEscapesAre` | labs2 /kotichi/libs/httplib.h:7638-7671 | Which bytes a path component leaves as they are, and what the others become. |
| `CharacterSets.VerbatimNamesAre` | labs2 /kotichi/libs/httplib.h:3747-3751 | The two names whose values are not decoded, in any letters. |
| `Query.ParamsToQueryStr` | labs2 /kotichi/libs/httplib.h:6167-6177 | The printed pairs joined by `&`. |
| `Query.ParseQueryText` | labs2 /kotichi/libs/httplib.h:6179-6200 | Pieces seen before or without a key are passed over, the others go into the multimap behind their equals. |
| `QueryProperties.ParseUndoesPrint` | labs2 /kotichi/libs/httplib.h:6167-6200 | Parsing a printed multimap gives it back, equal keys in their order, if and only if no key is empty and no pair repeats. |
| `QueryOrder.ParamsAreInOrder` | labs2 /kotichi/libs/httplib.h:6179-6200 | Whatever the query, its parameters are in the order of their keys as byte strings. |
| `QueryOrder.ValuesStayInOrder` | labs2 /kotichi/libs/httplib.h:6179-6200 | The values of a key are those of the pieces with that key, each piece once, in the order in which they stand in the query. |
| `Query.NormalizeQueryString` | labs2 /kotichi/libs/httplib.h:6210-6236 | The loop joins the re-encoded pieces. |
| `QueryProperties.NormalizingIsIdempotentAndKeepsPairs` | labs2 /kotichi/libs/httplib.h:6206-6236 | Normalising is idempotent on every string and leaves the set of parsed key/value pairs as it was. |
| `QueryProperties.NormalizingKeepsTheMultimapIff` | labs2 /kotichi/libs/httplib.h:6206-6236 | Normalising leaves the parsed multimap as it was, entry for entry, if and only if no two different keyed pieces have the same normal form. |
| `QueryOrder.NormalizingKeepsTheOrder` | labs2 /kotichi/libs/httplib.h:6206-6236 | Normalising keeps the order of the pieces: two queries in one have the normal pieces of the first and then those of the second. |
| `QueryOrder.NormalFormsAgreeIff` | labs2 /kotichi/libs/httplib.h:6216-6232 | Two keyed pieces have the same normal form if and only if they stand for the same pair and both have an equals sign or neither has. |
| `QueryProperties.TwoSpellingsBecomeOne` | labs2 /kotichi/libs/httplib.h:6206-6236 | `a=%41&a=A` has two entries before normalising and another multimap after it. |
| `Base64.Encode` | labs2 /kotichi/libs/httplib.h:3575-3601 | The loop over a 32-bit accumulator that wraps around computes the encoding of section 4 of RFC 4648 on every input. |
| `Base64.PushLetters` | labs2 /kotichi/libs/httplib.h:3586-3591 | Between input bytes the bit counter is -4, -2 or -6 again, and the letters out are those of the low twelve bits. |
| `Base64.RoundTrip` | labs2 /kotichi/libs/httplib.h:3575-3601 | A decoder of RFC 4648 recovers every input. |
| `Base64.EncodedLength` | labs2 /kotichi/libs/httplib.h:3596-3598 | Four letters for every three bytes begun. |
| `CharacterSets.AlphabetIs` | labs2 /kotichi/libs/httplib.h:3576-3577 | The letters are those of table 1 of RFC 4648. |
| `Tar.TarHeader.FillIn` | labs2 /kotichi/kotichi_collage.cpp:64-77 | The fields are those of a header with blanks for its checksum; the version field gets `0` and NUL. |
| `Tar.TarChecksum` | labs2 /kotichi/kotichi_collage.cpp:56-61 | The loop adds up all bytes of the structure. |
| `Tar.TarAppendFile` | labs2 /kotichi/kotichi_collage.cpp:63-89 | Header with checksum, data and zero padding are appended. |
| `Tar.TarFinish` | labs2 /kotichi/kotichi_collage.cpp:91-94 | Two zero blocks are appended. |
| `TarReader.ChecksumFieldReads` | labs2 /kotichi/kotichi_collage.cpp:79-82 | The sum of any header is below 8^6, so its six digits read back. |
| `TarReader.HeaderIsAccepted` | labs2 /kotichi/kotichi_collage.cpp:63-82 | Every header written has a checksum that holds; its name reads back if and only if it has no NUL and at most 99 bytes, its size if and only if it is below 8^11. |
| `TarReader.OtherFieldsRead` | labs2 /kotichi/kotichi_collage.cpp:66-77 | Every header reads as mode 0644, owner, group and time 0, and its link name and everything behind the version are zero. |
| `TarReader.PaddingIsZero` | labs2 /kotichi/kotichi_collage.cpp:86-87 | Less than a block of zeros stands between the bytes of a file and the next block. |
| `TarProperties.MembersAligned` | labs2 /kotichi/kotichi_collage.cpp:84-88 | Every member starts on a 512-byte boundary. |
| `TarProperties.ArchiveAligned` | labs2 /kotichi/kotichi_collage.cpp:84-94 | So does the end of the archive. |
| `TarProperties.ArchiveOfConcat` | labs2 /kotichi/kotichi_collage.cpp:63-94 | The archive of the later files is what follows the members of the earlier ones. |
| `TarProperties.EightGibibytes` | labs2 /kotichi/kotichi_collage.cpp:52-54 | The bound 8^11 on contents is 8589934592. |
| `TarProperties.ReadBackIffStorable` | labs2 /kotichi/kotichi_collage.cpp:52-94 | A ustar reader recovers the list of files if and only if every name is NUL-free with at most 99 bytes and every content is below 8^11 bytes. |
| `TarProperties.LongNameIsLost` | labs2 /kotichi/kotichi_collage.cpp:67 | A file with a name of 100 bytes does not come back. |
| `TarReader.VersionIsNotPosix` | labs2 /kotichi/kotichi_collage.cpp:77 | The version field holds `0` and NUL for every file. |
| `TarProperties.VersionIsRejected` | labs2 /kotichi/kotichi_collage.cpp:77 | A reader that asks for the version `00` rejects every archive with a file in it. |
| `Collage.Collect` | labs2 /kotichi/kotichi_collage.cpp:136-162 | The nested loops with `continue` and `break` keep the first nonempty answer of every hash, at most twelve. |
| `Collage.Make` | labs2 /kotichi/kotichi_collage.cpp:164-186 | Which status is answered, and that the archive posted is the one of the twelve named pictures. |
| `Collage.KeptAreTheHashes` | labs2 /kotichi/kotichi_collage.cpp:152-161 | No two kept pictures share a hash and there is one for every hash that occurred. |
| `CharacterSets.PictureNameIs` | labs2 /kotichi/kotichi_collage.cpp:175 | The names are `cat_`, two decimal digits counting from one, and `.jpg`. |
| `Collage.GivesUpIffTooFew` | labs2 /kotichi/kotichi_collage.cpp:164-168 | 503 exactly when the 144 possible answers hold fewer than twelve hashes. |
| `Collage.PostedArchiveReadsBack` | labs2 /kotichi/kotichi_collage.cpp:170-178 | What is posted reads back as twelve files with different names and different nonempty contents, each an answer of the backend, if and only if every picture is below 8^11 bytes. |

## Left out

- MultipartSplits.CutInTwo: content receivers whose answer depends on how the content is portioned are excluded, because the portions differ; that no header line trips the length check is asked of the calls themselves, and of the bytes alone in `MultipartAnyInput`.
- MultipartSplits.EveryRegularCutIsTheSame: the same two conditions as for `CutInTwo`.
- MultipartAnyInput.ShortHeadersMakeCutsEqual: the same receivers are excluded, and the condition on the bytes is sufficient; it also asks for short lines behind a delimiter line inside content, where no header is read.
- MultipartAnyInput.AllCutsAgree: as for `ShortHeadersMakeCutsEqual`.
- The header map of a form-data entry.
- The serialised bodies are read with receivers that accept every call.
- Disposition parameters live in a list; `find` is taken to return the first of equal keys, as the multimap of libstdc++ does. The limits of the regular expression library on long lines are not modelled.
- Part contents that contain CRLF--boundary and boundaries with a CR: excluded from the round trip, as in section 5.1.1 of RFC 2046; `CutInTwo` covers them.
- `ThreadPool` and the shared-memory programs are state machines on values, not classes: what the model then does not capture is the memory layout of the queue and of the slots beyond one cell per record.
- Job bodies take one step and end.
- Stale semaphores or shared memory of an earlier run, several producers or consumers, interrupted waits, a consumer started before the initialisation.
- Output files that cannot be created in the consumer, and two directory entries of one name.
- Timeouts and errors of the socket other than "fails at any time"; writes of zero bytes, on which `write_data` would loop for ever; writes of `SocketStream`.
- The `CPPHTTPLIB_ALLOW_LF_AS_LINE_TERMINATOR` build, and the exception-free build of `parse_range_header`.
- Compressors other than `nocompressor`; `is_writable`; a content provider that reports failure.
- Repeated trailers in a multimap with case-insensitive keys: the fields are a list in the order of arrival, and which names are announced is a parameter.
- Prohibited trailer names and the Trailer header, which decide that parameter.
- The size of a chunk as a C `size_t`: sizes of 2^64 - 1 and above are excluded, as the decoder rejects them.
- `std::sort`: an insertion sort that chooses freely among equal starts, so the lemmas speak of any sorted permutation.
- Signed overflow in range arithmetic: ends are at most 2^63 - 1 and contents are shorter, so it cannot occur for parsed ranges.
- Which of content length and body size `range_error` uses: one content length is given.
- Responses with a single range, which have no multipart body.
- The count limit of `split`, which none of its modelled callers uses.
- `isalnum` and `isdigit` outside the C locale.
- Permissions, symbolic links, `fsync` and edits by other programs in stash, and failures of `stat`, `pread`, `lseek` and `ftruncate` in stego.
- The creation of the hidden directory in stash beyond whether it worked.
- FNV-1a itself: the hash is a parameter, so pictures with equal hashes count as equal, as in the code. `unordered_set` is a set.
- The HTTP requests of the collage service: the answers are a function of their number, in the order in which the futures are read.
- Owner, time stamps and link fields of the tar header, which are constants; long names through the prefix field, which the writer does not use but the reader honours.
- The rest of httplib (routing, TLS, DNS, redirects, compression, dates, `Accept` quality values), chat, kernel, launcher, nohup, filestat, hide and the examples.
