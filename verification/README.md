# A verified model of the GridFTP-to-REST data storage library

The library moves files between a GridFTP server and a REST service. This project models the parts
of it that keep state across callbacks and proves what they promise, over every run and every way
the data may be cut up:

- **The reorder buffer** (`write_gridftp_op.c`, `buffer_get.c`). Several reads are outstanding at
  once and complete in any order on other threads; the upload thread waits on a condition variable
  and passes on only the block that is due. `Reorder.dfy` says what each atomic step does,
  `ReorderMonitor.dfy` has the callbacks that act on the shared operation in place, each proved to
  do that step, and `ReorderRuns.dfy` proves what holds after every interleaving of upload calls,
  wake-ups and read callbacks. `ReorderRange.dfy` is about what a partial transfer asks of the server
  and uploads, against its range; `ReorderExamples.dfy` has runs in which it asks for too much.
  `ReorderOutcomes.dfy` tells from the events of a run when reading is over, which error is the result,
  what is asked for and what signals.
- **The tiler** (`read_gridftp_op.c`). Response data in chunks of any size is repacked into blocks
  that are written at consecutive offsets and recycled when their writes complete, in any order:
  `Tiler.dfy` and `TilerMonitor.dfy`. `TilerBlocks.dfy` is about the sizes of the writes and the errors
  that calls come back with. `EndToEnd.dfy` puts the two together: what the tiler writes,
  handed to the reorder buffer in any permutation, comes out as the stream that went in; reads that
  fail or bring nothing may come in between, as in `EndToEndExample.dfy`.
- **The operation both share**, with its lists of buffers linked through `next`, the address of the
  pending list's last link, the current buffer, and each buffer's storage as an array: `Buffers.dfy`
  and `GridftpOp.dfy`. `LinkedRuns.dfy` executes whole runs on it and concludes that what is proved
  of runs holds of the links and of the bytes stored. The methods take the value that the operation
  stands for before the call as a ghost argument `s`, and say what it stands for afterwards.
- **The multipart reader** (`read_multipart.c`). `Delimiters.dfy` has the matcher, which has no
  failure table, and exactly which delimiters it is right for; `MultipartParse.dfy` cuts a message
  at once, by first occurrences, and byte by byte, and proves the two alike; `ReaderStates.dfy`
  proves that the streaming reader follows the byte-by-byte parse over every chunking, also where the
  reader is itself a part of a reader; `ReaderPieces.dfy` counts the empty deliveries, of which one
  is a part's end; `ReaderExamples.dfy` has messages on which it does what one would not expect;
  `MultipartReader.dfy` is the reader as an object with the source's fields. `PartHeaders.dfy` is about
  the header section of a part, `ReaderHeaders.dfy` about those of all parts of a message, and
  `FoldedHeaders.dfy` about headers that go on in further lines.
- **The multipart writer** (`write_multipart.c`, `multipart_boundary_prepare.c`, `write_block.c` and
  the recursive set-up in `request.c`). `MultipartText.dfy` renders a tree of parts at once and
  prepares delimiter texts in exactly the space measured for them; `MultipartWriter.dfy` has the
  tree of writer objects; `MultipartUpload.dfy` is about all calls of a writer, and
  `MultipartRoundTrip.dfy` about reading back what was written, at every depth of the tree.
- **Smaller protocols and codecs**: percent encoding (`UriEncoding.dfy`), queries and form data
  (`FormText.dfy`, `FormEncoding.dfy`), the owner-tagged lock of the curl share (`ShareLock.dfy`),
  and the response header callback with 100 Continue (`ResponseHeader.dfy`). `WireFormat.dfy` spells
  out in characters what is put on the wire.

`dafny verify dfyconfig.toml` checks the whole project.

## Main results

1. *Upload.* After every interleaving the bytes uploaded are the file's, in order, and nothing received
   is lost (`ReorderRuns.UploadedInOrder`); a waiting call is always woken (`NoLostWakeup`); no assertion
   fails (`AssertionsHold`); the upload comes to its end (`CallsReachTheEnd`, `EndIsTruthful`); and when
   a partial transfer keeps within its range (`ReorderRange.RunWithinRangeIff`). Told from the events alone:
   when reading is over (`ReorderOutcomes.ReadingIsOverIff`), after which nothing is asked for
   (`NothingAskedAfter`), and that the result is the first error of the run (`ResultIsFirstError`).
2. *Download.* The writes of every run tile the file and carry the input (`TilerRuns.WritesTile`,
   `ClosedMeansWritten`), at most as many at a time as permitted (`WritesBounded`), and what waits is
   woken (`WaitsEnd`). Small chunks are repacked and large ones not cut up (`TilerBlocks.WritesAreBlocks`,
   `ChunkInOnePass`), and the result is the first refusal (`ResultIsFirstRefusal`).
3. *Both.* A stream tiled from any chunks, brought back in any order, is uploaded as it was
   (`EndToEnd.StreamComesBack`, `StreamIsDelivered`), whatever other reads fail or bring nothing.
4. *Links and storage.* The same on the linked lists: no cycle, no buffer lost or in two places, the
   last link right, the bytes given to the server untouched (`LinkedUploads.RunUpload`,
   `LinkedDownloads.RunDownload`).
5. *The matcher* is right exactly for plain delimiters (`Delimiters.MatcherIsRightIffPlain`), and finds
   a given occurrence of any delimiter exactly when `FoundIffClear` says.
6. *The multipart reader* gives every part its body and its end, for every chunking
   (`ReaderStates.ReaderSplits`, `MultipartParse.FeedIsSplit`), once (`ReaderPieces.EndsOnce`).
7. *The multipart writer* fills every buffer with the next bytes of the rendering, for every tree
   (`PartWriter.Write`, `MultipartUpload.CallsGiveTheWhole`), and the reader gets the bodies back
   (`MultipartRoundTrip.MultipartComesBack`), readers within readers those of a whole tree
   (`TreeComesBack`), and the headers with them (`ReaderHeaders.HeadersComeBack`).
8. *The shared lock* excludes beside a writer, and releases what it acquired, in every interleaving
   (`ShareLock.MutualExclusion`, `ReleasesWhatItHas`).
9. *Round trips* of percent encoding, queries, form data and headers (`UriEncoding.DecodeEscape`,
   `FormText.JoinedParsesBack`, `FormEncoding.QueryParsesBack`, `PartHeaders.PartHeadersComeBack`), of
   texts that are also spelled out (`UriEncoding.EscapeIsSpelled`, `WireFormat.QuerySpelled`,
   `FormSpelled`, `MultipartSpelled`).
10. *Response headers.* A status line is refused exactly when a code and a reason are not both found
   (`ResponseHeader.StatusLineDecides`); what any header line is read as (`HeaderIs`); one call of the
   callback, with the final block's headers (`OneCallback`).

## What is assumed of the surroundings

- *The GridFTP server, reads.* Each registered buffer is called back once, with no more bytes than it
  holds, stored in it; where the range is concerned, no more than was asked of it
  (`ReorderRange.Brief`). A successful read carries bytes of the file, inside it and at or after the
  initial offset, that no other read has carried,
  or carries none and then marks the end. `ReorderRuns.EmptyReadSafeIffEnd` shows why the code needs
  the last of these. A refused registration comes with an error. Block size and concurrency are
  positive and stay the same; file sizes, block sizes and offsets stay below 2^64 - 1.
- *The GridFTP server, writes.* A registered write completes at most once; when is left open.
- *libcurl.* It makes one data call at a time, with upload buffers of any size. It calls the header
  callback with whole lines followed by a NUL byte, the last of them CR LF.
- *Scheduling.* The mutex makes each stretch of a callback between taking it, waiting on it and
  releasing it one step; steps interleave in any order. The lock of the curl share is modelled finer,
  with recording and clearing the owner as steps of their own.
- *Multipart reader.* The boundary has no CR. Every part has a header line, because the reader looks
  for CR LF CR LF after it has consumed the delimiter's own line end. Nothing follows the closing
  delimiter. Every chunk but the last has at least as many bytes as the longest delimiter, the
  boundary and 8 more; what goes wrong otherwise is `ReaderStates.NegativeLengthIffSwallowed`, and
  `ReaderStates.CallsKeep` asks for no more than that this does not happen. What precedes the opening
  delimiter does not hide it: `MultipartParse.OpeningSeen`, which `Delimiters.FoundIffClear` proves
  to be the exact condition. The writer puts only a line end there.
- *Multipart writer.* Every multipart has a boundary and a part. A callback of the caller's own gives
  at most what there is room for, and nothing only at its end.
- *Share lock.* Thread identifiers are not zero, and a thread locks a resource only while it does not
  hold it.

Two comments in the source say less or other than the code beside them, and the model follows the
code: every completed write signals, not only the last (`read_gridftp_op.c:276-278` and 337), and
sorted insertion stops at the first block that ends after the new one starts, not that starts after it
(`write_gridftp_op.c:320-332`).

Where the code does not do what one would ask of it, there is an input and the exact condition: the
opening delimiter is missed (`Delimiters.DashHidesOpening`, `FoundIffClear`, `OpeningFoundIffEven`),
an empty delivery comes before a part's end (`ReaderExamples.EmptyPieceBeforeTheEnd`,
`ReaderPieces.EmptyPieceIff`, `EndsOnce`), a length is computed that is below zero
(`ReaderExamples.SwallowedHappens`, `ReaderStates.NegativeLengthIffSwallowed`), a read without bytes
leaves an unclean buffer (`ReorderRuns.EmptyReadHarms`, `EmptyReadSafeIffEnd`) or a call waiting for ever
(`ReorderOutcomes.StrandedIff`), what is on a header's further lines is lost
(`FoldedHeaders.FirstLinesComeBack`), a failed transfer
reports success once the end of its range is reached (`ReorderExamples.FailureIsHidden`,
`ReorderRuns.FailureReportedIff`), and a partial transfer asks for bytes beyond its range. The source
says of the last that it works only if reads come back in order (`write_gridftp_op.c:438-440`);
`ReorderExamples.AsksBeyondOutOfOrder` is such a run, and in `AsksBeyondInOrder` they do come back in
order. `ReorderRange.WithinRangeIff` is the condition: before a pass, the bytes uploaded, pending and
asked of outstanding reads, and as many blocks as the pass may register, or what it takes to be left
if that is less, do not exceed the range.

Strings are the bytes before their terminator. Where the source asserts something, the method asserts
it too.

## Model

| member | source | states |
|---|---|---|
| ReorderRuns.UploadedInOrder | write_gridftp_op.c:145-191 | after any interleaving and order of arrival the uploaded bytes are the file from the start to the offset; pending blocks are disjoint, sorted, above the offset and hold the file's bytes; every received byte is uploaded or pending, and no other |
| ReorderRuns.BuffersConserved | write_gridftp_op.c:269-341 | in every reachable state each buffer is in exactly one list, at most the permitted number is registered, and free buffers are unused while reading goes on |
| ReorderRuns.AssertionsHold | write_gridftp_op.c:158-158 | no run reaches a state in which the upload code's assertions fail |
| ReorderRuns.NoLostWakeup | write_gridftp_op.c:82-136 | a waiting call has a signal on its way, or its condition still holds and a read is outstanding whose callback will signal |
| ReorderRuns.EmptyReadSafeIffEnd | write_gridftp_op.c:304-311 | a read without bytes leaves the assertion at the next registration safe if and only if reading is over |
| ReorderRuns.EmptyReadHarms | write_gridftp_op.c:304-311 | in every transfer of at least a byte, a reachable state and a read without bytes and without the end after which the next registration is not safe |
| ReorderRange.WithinRangeIff | write_gridftp_op.c:431-491 | a transfer that has kept within its range leaves it with a step if and only if, before the step, uploaded, pending and outstanding bytes and the quota of the pass together exceed the range; the quota is the number of blocks it may register, or what it takes to be left if that is less |
| ReorderRange.RunWithinRangeIff | write_gridftp_op.c:431-491 | a whole run keeps within the range if and only if that holds before each of its steps |
| ReorderRange.StepCommits | write_gridftp_op.c:431-491 | a pass asks for exactly its quota, passing bytes on changes nothing of what is committed, and a read that brings no more than was asked of it never adds to that |
| ReorderRange.CoveringStaysIff | write_gridftp_op.c:431-446 | a pass that goes on until it takes nothing to be left stays in the range if and only if what is pending and outstanding is no more than the room outstanding, and that much is left |
| ReorderExamples.AsksBeyondInOrder | write_gridftp_op.c:431-491 | a run with reads in order and in full after which the next call asks for two bytes beyond the range |
| ReorderExamples.AsksBeyondOutOfOrder | write_gridftp_op.c:438-446 | a run with a read out of order after which the next wake-up asks for bytes beyond the range, though there is room left for what is outstanding |
| ReorderRange.UploadsBeyondIff | write_gridftp_op.c:145-191 | once all that was received is uploaded, something from beyond the range was uploaded if and only if something from beyond it was received |
| ReorderRange.NothingBeyond | write_gridftp_op.c:145-191 | at any time, nothing is uploaded from beyond the range unless something was received from beyond it |
| ReorderRange.OneCallUploadsAll | write_gridftp_op.c:145-191 | and when reads are over and reach beyond the range, a call with room enough uploads as far as they reach |
| ReorderRuns.FirstErrorLasts | write_gridftp_op.c:138-143 | once a transfer has failed, the failure is its result after any further events |
| ReorderRuns.FailureReportedIff | write_gridftp_op.c:76-143 | after a failure, whatever has happened since, a call that returns reports it if and only if the end of the range is not reached, and reports success if it is |
| ReorderExamples.FailureIsHidden | write_gridftp_op.c:76-80 | a run in which a read fails and the next call reports success |
| ReorderRuns.EofIsReported | write_gridftp_op.c:253-253 | in every run the caller is told of the end of the file if and only if a read has flagged it |
| ReorderOutcomes.ReadingIsOverIff | write_gridftp_op.c:253-302 | in every run reading is over if and only if a read has flagged the end, failed, come after a failure or reached the end of the range, or a call has come when everything up to the end was uploaded |
| ReorderOutcomes.NothingAskedAfter | write_gridftp_op.c:402-431 | and from then on, as after any failure, nothing is asked of the server and no read registered, whatever happens |
| ReorderOutcomes.AsksInBlocks | write_gridftp_op.c:431-498 | a step registers the reads it asks for; each is for at least a byte, and for a block unless less is taken to be left of the range |
| ReorderOutcomes.StepResult | write_gridftp_op.c:90-94 | a step leaves a failure as it is and otherwise gives the transfer the read's error, or the one that a refused read comes with; a read is refused if and only if the server grants fewer than the concurrency leaves room for, and these do not cover what is taken to be left of the range |
| ReorderOutcomes.RefusalFrees | write_gridftp_op.c:485-490 | after a refusal a buffer is free for the next read |
| ReorderOutcomes.ResultIsFirstError | write_gridftp_op.c:254-257 | in every run the result is the first error that an event has brought, with its own code, and success if there has been none |
| ReorderOutcomes.CallReturnsResult | write_gridftp_op.c:138-143 | a call that returns before the end of the range returns that result |
| ReorderOutcomes.SignalsIff | write_gridftp_op.c:341-379 | whatever the server does, a read signals a waiting call if and only if it or the transfer has failed, or it brings bytes or the end |
| ReorderOutcomes.StrandedIff | write_gridftp_op.c:304-347 | a call that waits for the last read outstanding is left waiting if and only if that brings neither |
| ReorderRuns.EmptyReturn | write_gridftp_op.c:126-143 | a call with room that gives no data and whose head is not due leaves nothing registered |
| ReorderRuns.EndIsTruthful | write_gridftp_op.c:527-540 | if what was received has no gap and stays in the range, a successful call gives no data only when every received byte has been uploaded |
| ReorderRuns.CallsReachTheEnd | write_gridftp_op.c:145-191 | once all reads are over without an error, every call with room uploads something until everything received is uploaded, and then gives no data |
| TilerRuns.WritesTile | read_gridftp_op.c:107-151 | in every run the writes tile the file from the start, without gap or overlap, and carry exactly the bytes taken in, less the queue and the buffer being filled |
| TilerRuns.ClosedMeansWritten | read_gridftp_op.c:169-178 | when the final call has returned, no write is outstanding and, if none was refused, everything offered has been written |
| TilerRuns.WritesBounded | read_gridftp_op.c:79-94 | the count is the number of outstanding writes, at most the concurrency, and one more during the final call |
| TilerRuns.InFlightUntouched | read_gridftp_op.c:228-262 | a registered buffer keeps its bytes until its own completion, whatever else happens |
| TilerRuns.WaitsEnd | read_gridftp_op.c:79-94 | a waiting call, also that of the end, has been signalled, or a write is outstanding and whichever completes next signals it |
| TilerRuns.AssertionHolds | read_gridftp_op.c:118-118 | no run reaches a state in which the copying loop's assertion fails |
| TilerBlocks.WritesAreBlocks | buffer_get.c:44-59 | in every run each write has at least a block of data until the final call, and after it each but the last |
| TilerBlocks.ChunkInOnePass | read_gridftp_op.c:96-156 | a chunk that finds no buffer to fill or to reuse is taken in whole: less than a block is kept, a block or more is one write at once, unless refused |
| TilerBlocks.ResultIsFirstRefusal | read_gridftp_op.c:237-250 | in every run the result is the error of the first refusal, and success if and only if there has been none |
| TilerBlocks.CallsAnswer | read_gridftp_op.c:155-180 | a data call that does not wait comes back with the error of a refusal in it, else with success, and the final call with that of its own sending |
| EndToEnd.StreamComesBack | write_gridftp_op.c:145-191 | a stream tiled from any chunks and read back in any permutation into buffers of any sizes, with any other reads that fail or bring nothing but the end, is uploaded as it was when a call ends the upload |
| EndToEnd.StreamIsDelivered | write_gridftp_op.c:145-191 | and once all is back, more calls with room than the stream has bytes end the upload with the stream uploaded |
| EndToEndExample.OneBlockComesBack | write_gridftp_op.c:145-191 | a stream of one block through an unbounded upload with two reads at a time, of which the second brings nothing |
| EndToEnd.PlayIsHonest | write_gridftp_op.c:216-223 | the tiler's writes, brought by reads in any order and no write twice, among reads that fail or mark the end, meet the contract the reorder buffer asks of the server |
| EndToEnd.TilesApart | read_gridftp_op.c:228-252 | two writes of a run never overlap |
| EndToEnd.TilesCover | read_gridftp_op.c:228-252 | every position up to the end of what was written is in one of the writes |
| LinkedUploads.RunUpload | write_gridftp_op.c:50-384 | any run of an upload on links and arrays: afterwards the lists have no cycle, the last link is the pending list's, every buffer ever allocated is in exactly one place, and the operation and the bytes uploaded are those of the run |
| LinkedDownloads.RunDownload | read_gridftp_op.c:28-338 | the same of a download; besides, the storage of every buffer still with the server holds the bytes it was given |
| Delimiters.MatcherIsRightIffPlain | read_multipart.c:86-119 | the matcher is right on every input if and only if the delimiter is plain |
| Delimiters.FoundIffClear | read_multipart.c:86-119 | for every delimiter and text: the first occurrence is found if and only if the count where it begins is 0 or expects another byte than the delimiter's first |
| Delimiters.OpeningFoundIffEven | read_multipart.c:57-65 | with a boundary without dashes, the opening delimiter is found if and only if the run of dashes before it has even length |
| Delimiters.DashHidesOpening | read_multipart.c:57-65 | for every boundary, a text in which the opening delimiter occurs and is missed |
| Delimiters.MatchIsBorder | read_multipart.c:86-119 | for any delimiter the count is the length of an end of the input that starts the delimiter |
| Delimiters.MatchFindsFirst | read_multipart.c:86-119 | for a plain delimiter the count is complete exactly at the end of the first occurrence |
| Delimiters.MiddleIsPlain | read_multipart.c:75-83 | with a boundary without CR, the delimiter between parts is plain |
| Delimiters.ClosingIsPlain | read_multipart.c:66-74 | with a boundary without CR, the closing delimiter is plain |
| MultipartParse.FeedIsSplit | read_multipart.c:39-255 | eating a message byte by byte with the matcher gives the bodies that cutting it at first occurrences gives, for all messages |
| MultipartParse.SplitPartsFrom | read_multipart.c:39-255 | the one-shot split cuts at the first blank line and the first delimiter after it, and there is only one such cut |
| MultipartParse.ChunkingFits | read_multipart.c:225-233 | a chunking in which only the last chunk is shorter than the longest delimiter has no chunk that lies inside a delimiter |
| MultipartParse.FitsIffNotSwallowed | read_multipart.c:225-233 | a chunk of a message, however it is cut, is one the reader can take if and only if it does not lie inside a delimiter |
| ReaderStates.ReaderSplits | read_multipart.c:39-255 | for every chunking, every part gets exactly the body of the one-shot split, in order, then its end, and the part index ends at the number of parts |
| ReaderStates.ReaderIsInOrder | read_multipart.c:176-212 | midway, the parts before the current one are complete and those after it have had nothing |
| ReaderStates.NestedReaderSplits | read_multipart.c:103-111 | a reader that is itself a part of a reader splits its part's body if no piece given to it lies inside one of its own delimiters |
| ReaderStates.NegativeLengthIffSwallowed | read_multipart.c:225-233 | the length passed on, scanned less matched, would be negative exactly when the chunk continues a begun delimiter without ending it |
| ReaderExamples.SwallowedHappens | read_multipart.c:225-233 | for every header and boundary, a message with an empty first body and a cut of it with which that happens |
| ReaderStates.ReadKeeps | read_multipart.c:27-260 | after a read call the reader is where the byte-by-byte parse is after the chunk |
| ReaderStates.CallsKeep | read_multipart.c:27-260 | and so after any number of calls, as long as no chunk is swallowed and nothing follows the end |
| ReaderPieces.EmptyPieceIff | read_multipart.c:214-229 | in a body, an empty piece comes before the end exactly where all of the portion is a start of the delimiter and does not complete the one begun before |
| ReaderPieces.OnlyBegunIff | read_multipart.c:214-229 | the same of a chunk of which only the last bytes lie in the body |
| ReaderPieces.EndsOnce | read_multipart.c:176-229 | over all calls a part gets one empty piece as its end, the last, and one for each chunk that only begins its delimiter |
| ReaderExamples.EmptyPieceBeforeTheEnd | read_multipart.c:221-229 | within the chunkings the reader is made for, a message that makes an empty piece before the end |
| PartHeaders.HeaderInOneChunk | read_multipart.c:126-141 | when a part's header section lies in one chunk, what is handed to the parser is the section up to its blank line |
| PartHeaders.PartHeadersComeBack | read_multipart.c:143-174 | the headers of a part, as the writer puts them, are then read back in order |
| ReaderHeaders.HeadersComeBack | read_multipart.c:126-174 | for any buffers of the sender and any chunks of the receiver of which none begins within a header section, the headers read for every part are those of the sender's part, in order |
| ReaderHeaders.HandsSections | read_multipart.c:126-174 | a read call hands to the parser exactly the header sections that it completes |
| PartHeaders.StaysInLineIff | header_parse.c:70-74 | the parser's loop over blanks stays within the line if and only if something in the value is not blank |
| PartHeaders.SameValueIff | header_parse.c:59-82 | and then a value comes back as it was if and only if it does not begin with a blank |
| PartHeaders.ReadHeaders | read_multipart.c:149-167 | the loop over the text cuts it at line ends that are not followed by a blank |
| FoldedHeaders.FirstLinesComeBack | read_multipart.c:151-165 | of headers that go on in lines that begin with a blank or a tab only the first lines are read; the others are lost and make no headers, with a colon in them or not |
| FoldedHeaders.NothingAfterTerminator | read_multipart.c:151-153 | nothing is read of a header section from a NUL on |
| MultipartRoundTrip.MultipartComesBack | write_multipart.c:61-152 | for any buffers of the sender and any chunks of the receiver, each part of the receiver gets what the sender's part renders, and its end |
| MultipartRoundTrip.TreeComesBack | read_multipart.c:103-111 | with a reader for every multipart of a tree, each a part of the one around it, every part at every depth gets what it renders, if no reader is handed a piece that lies inside one of its delimiters |
| MultipartRoundTrip.RenderSplits | read_multipart.c:39-255 | a rendered multipart is cut back into its parts' bodies, for bodies without the delimiter's start and headers without a blank line |
| MultipartUpload.CallsGiveTheWhole | write_multipart.c:61-152 | for any sequence of positive buffer sizes the calls give the whole in order, and a call gives nothing if and only if all has been given |
| MultipartUpload.Upload | request.c:240-365 | for every tree of parts: set up and written with any buffers, the calls give its rendering |
| MultipartUpload.WriteAll | write_multipart.c:46-160 | calling a writer with one buffer after another meets that |
| MultipartWriters.PartWriter.Write | write_multipart.c:46-160 | every writer of a tree meets the writer contract: the beginning of what is left, at most what fits, nothing only at the end or without room |
| MultipartWriters.PartWriter.WriteMultipart | write_multipart.c:46-160 | fills the buffer with the beginning of what is left, unless nothing is left |
| MultipartWriters.PartWriter.WritePart | write_multipart.c:87-100 | the multipart gives what its current part gives, and nothing only when the part has ended |
| MultipartWriters.PartWriter.CallPart | write_multipart.c:87-92 | a part's own callback disturbs no other part's writer |
| MultipartWriters.PartWriter.WriteBoundary | write_multipart.c:60-82 | so the multipart gives the beginning of what is left |
| MultipartWriters.PartWriter.FinishPart | write_multipart.c:102-123 | going on to the next part, or to the closing delimiter, changes nothing of what is left |
| MultipartWriters.PartWriter.WriteBlock | write_block.c:27-55 | gives the beginning of what is left, as much as fits |
| MultipartWriters.PartWriter.WriteSupplied | write_multipart.c:87-104 | the contract for a caller's own callback, at any pace |
| MultipartWriters.PartWriter.Prepare | request.c:240-365 | the recursive set-up builds a tree of writers that share nothing and together have the rendering to write |
| MultipartWriters.PartWriter.PrepareParts | request.c:468-482 | so do the writers of the parts, each for its own part |
| MultipartWriters.PartWriter.Multipart | request.c:486-494 | a multipart's writer starts with all of its rendering to write, given writers of its parts that do |
| MultipartWriters.PartWriter.Leaf | request.c:283-300 | a block's writer starts with all of the block to write |
| MultipartText.PrepareBoundary | multipart_boundary_prepare.c:26-100 | the text is the delimiter text in an allocation that holds exactly it and a terminator |
| MultipartText.PrintLead | multipart_boundary_prepare.c:56-78 | delimiter, header lines and blank line fill the allocation, up to the terminator |
| WireFormat.MultipartSpelled | multipart_boundary_prepare.c:56-93 | a multipart is its parts one after another, each after its delimiter and those of its header lines that have a key and a value, and then the closing delimiter, all spelled out |
| ShareLock.MutualExclusion | module.c:255-263 | nobody holds or is taking anything beside a writer |
| ShareLock.ReleasesWhatItHas | module.c:305-313 | in every interleaving an unlock releases the mode that its thread acquired |
| ShareLock.OwnerHoldsTheLock | module.c:255-263 | a recorded owner is the one holder and holds for writing; with a reader inside, nobody is recorded |
| ShareLock.RunKeeps | module.c:255-313 | the invariant holds after every interleaving |
| ShareLock.ShareGuard.Lock | module.c:255-263 | the lock callback is the read-lock action, or the write-lock action and then recording |
| ShareLock.ShareGuard.Unlock | module.c:305-313 | the unlock callback clears the record before it releases, and only the recorded thread's does |
| ShareLock.CurlShare.ShareLock | module.c:216-264 | the chosen resource is locked, and every other resource's lock and owner are as they were |
| ShareLock.CurlShare.ShareUnlock | module.c:269-314 | the chosen resource is unlocked, and every other resource's lock and owner are as they were |
| UriEncoding.DecodeEscape | test/uri-decode.c:46-74 | decoding an escaped string gives it back, whatever its bytes |
| UriEncoding.EscapeFits | uri_escape.c:57-81 | at most three bytes for each, and no separator or terminator among them |
| UriEncoding.EscapeIsSpelled | uri_escape.c:37-83 | each of the 66 characters listed stands for itself, a blank becomes a plus sign, and every other byte a percent sign and its two upper-case digits |
| UriEncoding.EscapeFillsIff | uri_escape.c:57-81 | three bytes for each are needed if and only if all are escaped by their digits |
| UriEncoding.UriEscape | uri_escape.c:26-88 | written and left always add up, and no assertion on the space fails |
| UriEncoding.UriEscapeString | uri_escape.c:92-112 | three bytes for each and one for the terminator suffice for every string |
| FormText.JoinedParsesBack | encode_form_data.c:51-70 | splitting at ampersands and first equals signs and decoding gives the pairs back, in order |
| FormEncoding.EncodeFormData | encode_form_data.c:26-77 | the fields, in the space measured, with the terminator; they parse back |
| FormEncoding.JoinedFits | encode_form_data.c:36-41 | the bound suffices for every list of pairs |
| FormEncoding.AddQuery | uri_add_query.c:27-120 | the URI with its query, in the space measured, with the terminator; the URI alone without parameters |
| FormEncoding.QueryParsesBack | uri_add_query.c:72-98 | the text after the question mark gives the parameters that have a key and a value back, in order |
| FormEncoding.WithQueryFits | uri_add_query.c:47-56 | the bound suffices |
| WireFormat.PresentAre | uri_add_query.c:74-98 | the parameters written are those with a key and a value, as given and in the order given |
| WireFormat.QuerySpelled | uri_add_query.c:72-98 | the query is a question mark and key=value, escaped, with ampersands between; without parameters there is none |
| WireFormat.FormSpelled | encode_form_data.c:51-70 | form data is key=value, escaped, with ampersands between |
| WireFormat.BoundIsReachedIff | encode_form_data.c:36-41 | all the space measured is used if and only if every byte is escaped by its digits |
| ResponseHeader.OneCallback | header.c:38-201 | any number of 100 Continue blocks and a final block make one call, with the final code and reason and exactly the final block's headers, and the last line's result is that of the call |
| ResponseHeader.InterimBlocks | header.c:86-101 | any number of 100 Continue blocks leaves no trace |
| ResponseHeader.KeptForMultipart | header.c:62-101 | where only the multipart reader wants the headers, the final block's code, reason and headers are kept and nothing is called |
| ResponseHeader.StatusLineDecides | header.c:38-56 | where a status line is due, a line is refused if and only if its scan does not find both code and reason; then nothing is called, no later line is looked at, and of the line only a code that was found is kept |
| ResponseHeader.BadStatusAfterInterim | header.c:38-101 | the same after any number of 100 Continue blocks |
| ResponseHeader.ColonRefuses | header.c:70-82 | the first line after the status line that begins with a colon is refused: the error is noted, the headers before it are kept, and nothing is called |
| ResponseHeader.NobodyListens | header.c:62-68 | where nobody wants the headers, whatever follows the status line is accepted and changes nothing |
| ResponseHeader.Request.OnHeader | header.c:26-211 | the callback for a line, in place, is the step on values, and so is its result |
| ResponseHeader.Request.BlankLine | header.c:84-201 | after 100 Continue everything is as before the status line; otherwise the response callback is called and decides the result |
| ResponseHeader.LineParses | header_parse.c:59-88 | a header line as the library writes it is read as that key and that value |
| ResponseHeader.HeaderIs | header_parse.c:59-88 | of any line with a colon, not its first byte, the key is what precedes the colon, and the value begins at the first byte after it that is not a blank, tab, CR or LF and ends before the next CR |
| ResponseHeader.NoHeaderIff | header_parse.c:59-67 | a line has no header if and only if it has no colon, and is an error if and only if it begins with one |
| ResponseHeader.HeadersInOrder | header_parse.c:84-88 | lines as the library writes them are read as their headers, in order |
| ResponseHeader.HeaderArray.Parse | header_parse.c:26-94 | the line's header, if it has one, is appended; a line that begins with a colon is an error |
| ResponseHeader.HeaderArray.Grow | header_parse.c:38-57 | there is room for the next entry, in the least multiple of eight that has it, and the entries are as they were |
| GridftpOps.GridftpOp.ForUpload | request.c:618-632 | the state an upload starts from, with the end of its range, or none for an unbounded length |
| GridftpOps.GridftpOp.ForDownload | request.c:774-784 | the state a download starts from |
| GridftpOps.GridftpOp.BufferGet | buffer_get.c:25-73 | the current buffer, else the first free one, else a new one becomes current, of the size asked or the block size, whichever is more |
| GridftpOps.GridftpOp.AllAccounted | write_gridftp_op.c:269-341 | where the addresses are conserved, the linked lists have no cycle and every buffer is in exactly one of them or current |
| GridftpOps.GridftpOp.InsertPending | write_gridftp_op.c:315-339 | sorted insertion puts the block after every block that ends at or before its start, and keeps the other lists and the last link right |
| GridftpOps.GridftpOp.AppendPending | read_gridftp_op.c:148-149 | storing through the address of the last link queues the buffer last, and the address again names the last link |
| GridftpOps.GridftpOp.PopPending | read_gridftp_op.c:253-259 | taking the head keeps the last link right, also when the list becomes empty |
| GridftpOps.GridftpOp.TakeRegistered | write_gridftp_op.c:269-284 | exactly the buffer with the address leaves the registered list |
| GridftpOps.GridftpOp.ShiftHead | write_gridftp_op.c:170-172 | moving the rest of a partly copied block to the front of its storage drops its first bytes, and no other buffer's |
| GridftpOps.GridftpOp.FillCurrent | read_gridftp_op.c:120-125 | the input is stored after what the current buffer holds, and in no other buffer |
| OpStates.BufferGetConserves | buffer_get.c:33-70 | getting a buffer neither loses nor duplicates one: every buffer ever allocated is still in exactly one list or current |
| Buffers.BufferList.Acyclic | write_gridftp_op.c:269-341 | following the links from a list's head never comes back to a buffer |
| Buffers.BufferList.PushFront | write_gridftp_op.c:494-495 | linking at the head: the list stays an acyclic chain and its values gain one in front |
| Buffers.BufferList.PopFront | buffer_get.c:67-69 | unlinking the head leaves the chain of the others, and the buffer's own link is cleared |
| Buffers.BufferList.Take | write_gridftp_op.c:270-284 | the buffer found is unlinked, the chain of the others is intact, and the buffer's fields are as they were |
| Buffers.BufferList.Append | read_gridftp_op.c:148-149 | the chain gains the buffer at its end |
| Buffers.BufferList.InsertInOrder | write_gridftp_op.c:315-339 | relinking through the predecessor's link inserts the block after every block that ends at or before its start, and says which buffer is last |
| ReorderMonitor.CountBuffers | write_gridftp_op.c:544-571 | the list's length, the room left in its buffers and the bytes they hold |
| ReorderMonitor.ReadBuffer | write_gridftp_op.c:449-461 | the buffer for a read is unused, so the assertion holds |
| ReorderMonitor.WriteRegisterReads | write_gridftp_op.c:389-504 | the loop does the registration step, asking for the reads and lengths it gives: up to the concurrency, until the range is covered or the server refuses |
| ReorderRuns.RequestsFit | write_gridftp_op.c:463-491 | each read asked for is into the buffer registered for it, and for no more than that can hold |
| ReorderMonitor.CopyBlock | write_gridftp_op.c:150-190 | copies a positive number of bytes of the head, moves the rest of a partly copied block to the front of its storage, frees a whole one, and touches no registered buffer's storage |
| ReorderMonitor.CopyPending | write_gridftp_op.c:145-191 | the caller's buffer holds the bytes due, up to its size, and is otherwise untouched |
| ReorderMonitor.ResumeWrite | write_gridftp_op.c:82-191 | from the top of the waiting loop to the wait or the return, in place, is the step on values |
| ReorderMonitor.WriteGridftpOp | write_gridftp_op.c:50-211 | an upload call to its first wait or its return, in place, is the step on values |
| ReorderMonitor.RecordVerdict | write_gridftp_op.c:253-267 | the first error is kept, and the end is noted when flagged or reached |
| ReorderMonitor.PlaceBlock | write_gridftp_op.c:298-341 | a failed or empty read's buffer is freed, another is queued in order, and which of them signal |
| ReorderMonitor.GridftpReadCallback | write_gridftp_op.c:216-384 | the callback, on the links, is the step on values, and so is whether it signals |
| TilerMonitor.SendPendingBuffers | read_gridftp_op.c:204-267 | the loop registers the queue in order at consecutive offsets until refused, as on values |
| TilerMonitor.FillBuffer | read_gridftp_op.c:96-151 | takes a positive number of bytes, queues the buffer exactly when full, leaves room wherever the next buffer comes from, and touches no registered buffer's storage |
| TilerMonitor.ReadGridftpOp | read_gridftp_op.c:55-167 | a data call up to its wait or return, in place, is the step on values |
| TilerMonitor.FinishRead | read_gridftp_op.c:138-166 | the final call's pass, in place, is the step on values |
| TilerMonitor.GridftpWriteCallback | read_gridftp_op.c:317-337 | the completed buffer is recycled and the count goes down |
| ReorderRuns.RunKeeps | write_gridftp_op.c:64-204 | the invariant holds after every run |
| TilerRuns.RunKeeps | read_gridftp_op.c:53-180 | the invariant holds after every run |
| MultipartReaders.MultipartReader.constructor | request.c:839-846 | the state the reader starts from |
| MultipartReaders.MultipartReader.ReadMultipart | read_multipart.c:27-260 | a read call, in place, is the read on values and ends where the byte-by-byte parse does |
| MultipartReaders.MultipartReader.Portion | read_multipart.c:39-255 | a turn of the outer loop takes at least a byte and keeps the reader with the byte-by-byte parse |
| MultipartReaders.MultipartReader.Settle | read_multipart.c:126-252 | what follows a scan, in place, is the step on values |
| MultipartReaders.MultipartReader.FinishPart | read_multipart.c:178-212 | what is done at a complete delimiter, in place, is the step on values |
| MultipartReaders.MultipartReader.Scan | read_multipart.c:86-119 | the scanning loop, in place, is the scan on values, and so is the number of bytes scanned |
| MultipartReaders.MultipartReader.Delimiter | read_multipart.c:49-83 | the delimiter chosen is the one for the reader's place |

## Left out

- A transfer buffer's storage is an array of its own, allocated with it, where the source has it at the end of the buffer itself; the address handed to the server is a number that is the buffer's alone.
- The address of the pending list's last link is the buffer whose link it is, or null for the link in the operation.
- The input of a read call is a sequence of bytes, which the source only reads.
- LinkedUploads.RunUpload: the server stores a block just before it calls back. That the calls in between leave the storage of registered buffers alone is what `Served` says in their contracts.
- A multipart writer returns the bytes it puts in the caller's buffer instead of storing them there, so that writing past the room given is excluded by their number and not by array bounds.
- Waiting on the condition variable is the end of one step and the beginning of another; spurious wake-ups are allowed, and when a woken thread runs is not modelled, so that no claim is made that a call returns in finite time.
- Bytes copied at once are counted in the source by an `int` (`write_gridftp_op.c:148`); upload buffers of 2^31 bytes and more are not modelled.
- Limits on allocation sizes (`buffer_get.c:49-52`) and running out of memory are not modelled.
- MultipartReaders.MultipartReader.Settle: has no header text. `PartHeaders.dfy` is about header sections that lie in one chunk; of others the source copies each chunk's piece to the front of the header buffer (`read_multipart.c:135-138`), so that the text is not intact.
- MultipartReaders.MultipartReader.ReadMultipart: has no header text either, nor the arguments of the part's response callback.
- PartHeaders.PartHeadersComeBack: values are not empty and do not begin with a blank; `StaysInLineIff` and `SameValueIff` show that these are the ones that come back, and that of a value of blanks only the parser reads on past the line, with a negative length (`header_parse.c:70-76`), which is not modelled.
- ReaderHeaders.HeadersComeBack: chunks that begin within a header section, for which the source overwrites what it has of the section (`read_multipart.c:135-138`).
- MultipartWriters.PartWriter.Prepare: sets up blocks and multiparts; JSON, form and GridFTP parts count as callbacks of the caller's own.
- ResponseHeader.Request.OnHeader: does not set up the multipart reader from the Content-Type header (`header.c:116-185`).
- ResponseHeader.Request.BlankLine: does not set up the multipart reader from the Content-Type header (`header.c:116-185`).
- Error results of the data callbacks of received parts, which the source ignores, and of the callbacks of parts to be written, which end the transfer.
- Finding the boundary in a Content-Type header, a multipart without a boundary, and text after the closing delimiter.
- Headers that the set-up adds to a part (`request.c:454-459`) count among the headers given.
- `write_blocks.c`: it limits each copy by the whole buffer length (`write_blocks.c:51-54`), so it does not meet the writer contract when one call spans two blocks.
- Reading the status line (`header.c:47-49`) is a parameter: how far the scan got and what it found.
- Set-up and clean-up of mutexes and condition variables, logging, counters, the handle cache, JSON, progress callbacks, and everything of libcurl, the GridFTP server, XIO and jansson.
