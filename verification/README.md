# Verification of libdfu

libdfu updates the firmware of microcontrollers. A firmware file arrives in pieces (over HTTP, a serial line or SPI),
is decoded while it arrives, and is handed to a target chip in aligned chunks. This project models the parts of the
library whose correctness depends on state that lives across calls, and proves what they promise. Code that updates
objects or arrays in place is modelled by classes and arrays, and every such method is proved against a specification
on values; the theorems about whole runs are proved about those specifications.

| part | modules | what is proved |
|---|---|---|
| raw binary upload (`src/binary-file.c`, `include/dfu-internal.h`, `src/binary-format-bin.c`) | `Ring`, `WriteChunks`, `ChunkPieces`, `ChunkCrossing`, `ChunkLaps`, `FirmwarePipe`, `UnalignedPipe`, `Completion`, `EarlyMark`, `BinaryFile` | in every interleaving of append, idle and chunk-done steps, the target holds the first acknowledged bytes of the file at their addresses, for targets that want pages and for those that ignore alignment; exactly when a step can fail, when a chunk crosses the end of the ring, and when an upload can be completed |
| Intel HEX upload (`src/binary-format-ihex.c`) | `IntelHex`, `IhexRuns`, `IhexSchedules`, `IhexRoom`, `IhexStale`, `IhexDigits`, `IhexFile`, `IhexPrinter`, `IhexErrors`, `HexPipe`, `HexCrossing`, `HexLost` | what is decoded and written does not depend on how the text arrives, exactly for the files and the calls named below; printed records come back; which records are errors |
| chunked transfer coding and request parsing (`src/picohttpparser.c`) | `ChunkedDecoder`, `ChunkedEncoding`, `ChunkedLanguage`, `RequestParser`, `PicoHttpParser`, `RequestStability`, `RequestRoundTrip`, `RequestLanguage`, `RequestPartial` | decoding and parsing do not depend on segmentation; what was encoded or printed comes back; exactly what is accepted, what is rejected, and when more is asked for |
| JSON tokens (`src/jsmn.c`, non-strict, with parent links) | `Jsmn`, `JsmnForest`, `JsmnRestart`, `JsmnParser`, `JsmnRoundTrip`, `JsmnErrors`, `JsmnTruncated` | the tokens are a well-formed forest for every text; restarting is harmless; a printed value comes back as its preorder, and cut off it is reported as partial |
| flash file container (`src/file-container-esp8266.c`, `src/file-container.c`) | `FlashSectors`, `FlashSlots`, `FlashFiles`, `FlashIo` | the sectors stay partitioned; how many files can be created; file offsets have flash addresses of their own; byte accesses through word accesses |
| timeouts (`src/dfu.c`) | `Timeouts` | the delta-encoded array is a sorted bag of absolute deadlines |
| CRC-32 (`src/crc32.c`) | `Crc32` | the table computes the bitwise CRC of RFC 1952, section 8 |

`Basics`, `Bytes`, `Memory` and `Numerals` hold what the others share: options, the byte type, what a copy between
arrays does, and numbers in digits. The grammars that texts are printed with (`ChunkedEncoding`, `RequestRoundTrip`,
`JsmnRoundTrip`, `IhexPrinter`) name their characters themselves and take nothing from the parsers.

How the parts fit together:

- `DfuBinaryFile` (in `BinaryFile`) has the rings and indices of `struct dfu_binary_file`. Each of its methods ensures
  that its abstract state becomes the next state of the machine `FirmwarePipe`, whose runs carry the theorems.
- `IhexFile` has the same input and decoded rings, and the fields only the HEX decoder uses. It also keeps what the
  input ring held before, because the search for a line looks at one byte outside the live text. Each of its methods
  does what `IntelHex` says about the live text. `IhexRuns` reads that text as a list of records, `IhexRoom`
  says when a call has no room for them, and `HexPipe` puts the decoder, the write chunks and the target together.
- `JsmnParser`, `PhrChunkedDecoder`, `SectorTable`, `FlashDevice`, `FlashFile` and `TimeoutQueue` are the other classes.

Premises: ring sizes and the page size are powers of two; a target accepts the chunk it is offered; a chunk is
acknowledged only while the target has it; nothing is appended after the end of file was marked. Integers are
unbounded except where a width is written out.

## Model

Where a method of a class is named, its contract states its whole new state.

| member | source | states |
|---|---|---|
| FirmwarePipe.RunWritesFile | src/binary-file.c:241-363 | For targets that want pages and for those that ignore alignment, in every reachable state: the target's writes, taken as a memory, are exactly the first acknowledged bytes of what was appended, byte i at address i and nothing elsewhere; the chunk with the target is the next piece of the file; "really written" implies that the whole file is there |
| FirmwarePipe.NeverFails | src/binary-file.c:116-221 | With slots for the ring (for its pages, or, where alignment is ignored, for its bytes), no step that a caller may take from a reachable state ends in the error return of the enqueue loop |
| FirmwarePipe.RunKeepsPages | src/binary-file.c:32-46 | In every reachable state the queued chunks lie one behind the other in the file, none crossing the end of the decoded ring; unless the target ignores alignment they are pages, page-aligned in the file and in the ring |
| FirmwarePipe.RunKeeps | src/binary-file.c:322-483 | The invariant behind these theorems holds in every reachable state, for every target |
| FirmwarePipe.StepKeeps | src/binary-file.c:474-483 | Every legal step from a good state that does not fail leads to a good state; with slots for the ring none fails |
| FirmwarePipe.AppendKeeps | src/binary-file.c:322-363 | Appending, or marking the end of a drained input, keeps the invariant |
| FirmwarePipe.OfferKeeps | src/binary-file.c:241-279 | Offering a chunk keeps it, and the chunk offered lies within what has arrived |
| FirmwarePipe.FlushKeeps | src/binary-file.c:285-320 | Decoding and queueing keeps the invariant; with slots for the ring it never fails in a good state |
| FirmwarePipe.IdleKeeps | src/binary-file.c:474-483 | So does a whole idle call |
| FirmwarePipe.DoneKeeps | src/binary-file.c:450-472 | An acknowledgement accounts for exactly the bytes of the chunk that was offered |
| FirmwarePipe.LoggedHolds | src/binary-file.c:241-279 | Writes that were logged in order add up to a memory holding the first n bytes of the input, and nothing else |
| FirmwarePipe.TakenExactly | src/binary-file.c:285-309 | An idle call decodes all bytes that are there and fit, exactly when flushing has started and the room is twice the largest piece so far; otherwise none |
| Completion.UploadsExactly | src/binary-file.c:252-483 | With slots for the ring, every file that is not empty can be uploaded to the end if and only if the ring has four bytes and, for targets that want pages, two pages |
| Completion.CompletesExactly | src/binary-file.c:450-472 | From every reachable state with room before the end is marked, the rest of a file can be appended, written and reported as really written if and only if not all of the file is acknowledged yet |
| Completion.OffersExactly | src/binary-file.c:241-279 | In every reachable state, a free target that wants pages gets exactly the next whole page of the file that is decoded, after the mark also the rest, and nothing else |
| Completion.Drain | src/binary-file.c:285-320 | From every such state, idle calls and acknowledgements decode all that has arrived, without reporting the end |
| Completion.Finish | src/binary-file.c:450-472 | After the mark, idle calls and acknowledgements lead to the report that all is really written |
| Completion.StuckNeverCompletes | src/binary-file.c:299-300 | Once a call has decoded half of the ring, no continuation decodes any more or completes a longer file |
| Completion.GateCanStick | src/binary-file.c:299-311 | Where half of the ring can arrive before it is decoded, such a state is reached |
| Completion.NoUpload | src/binary-file.c:134-215 | With a smaller ring no run uploads a file of the length of the ring |
| Completion.PageTooLong | src/binary-file.c:134-215 | A page as long as the ring never becomes whole: nothing is acknowledged before the mark |
| EarlyMark.LogExactly | src/binary-file.c:252-255 | When the end of file may be marked at any time, then for every run and every target: the acknowledged bytes are the bytes the target was given if and only if no chunk was acknowledged that had grown while the target had it |
| EarlyMark.MarkedTooEarly | src/binary-file.c:474-483 | Seven concrete events (append 10 bytes, start, idle, append 5 bytes, mark the end, idle, acknowledge) reach a state in which 15 bytes count as acknowledged and the file as really written, though the target was given 10 |
| EarlyMark.OfferThenAckExactly | src/binary-file.c:241-320 | From every good state: an idle call that offers a chunk, and its acknowledgement, keep the account exact if and only if that idle call did not decode into the last, still pending chunk |
| EarlyMark.ReallyWrittenExactly | src/binary-file.c:450-472 | In every run with the end marked at any time: the acknowledgement of the last chunk reports "really written", and flash then holds the whole file if and only if neither this chunk nor one before it had grown while it was written, and the input ring was drained |
| EarlyMark.HoldsExactly | src/binary-file.c:241-363 | In every state of every such run, flash holds the file that was appended, and nothing else, if and only if no grown chunk was acknowledged and all bytes were |
| EarlyMark.FlushFailsExactly | src/binary-file.c:198-205 | With slots for the ring, a flush fails if and only if there is something to decode, nothing queued, and the stream is off a page boundary; that is only so after the end was marked |
| EarlyMark.FlushAfterOffer | src/binary-file.c:147-177 | The flush after an offer makes the offered chunk longer exactly when it is the only chunk and still pending; otherwise it leaves it alone |
| WriteChunks.EnqueueTiles | src/binary-file.c:116-221 | After a successful enqueue the chunks tile the decoded stream from the oldest byte to the write tail, in order, without gap or overlap, each byte at the address it was decoded for; for contiguous and for jumping addresses, aligned or not |
| WriteChunks.EnqueuePages | src/binary-file.c:116-221 | On a contiguous stream the chunks are whole pages but for the last; with enough slots, a stretch that fits the ring is always queued |
| WriteChunks.EnqueueNeverFailsExactly | src/binary-file.c:140-146 | Every stretch that fits an empty ring can be queued if and only if the chunk slots, less one, cover the ring in pages |
| WriteChunks.TooFewSlotsFail | src/binary-file.c:140-146 | With fewer slots, a stretch one byte shorter than the ring fails |
| ChunkPieces.EnqueueLaid | src/binary-file.c:116-221 | For every target, a call that succeeds on a contiguous stream goes on laying it out, in pages or in pieces; with slots for the ring it always does |
| ChunkPieces.EnqueuePieces | src/binary-file.c:187-218 | Where alignment is ignored, the stream goes on in pieces of at most a page, each inside the ring |
| ChunkPieces.EnqueueFailsExactly | src/binary-file.c:140-146 | Where alignment is ignored, a call fails if and only if its pages up to the end of the ring and from its start are more than the slots left, one of which always stays free |
| ChunkPieces.EnqueueFits | src/binary-file.c:140-146 | Where alignment is ignored, as many slots as the ring has bytes are always enough |
| ChunkPieces.LaidFirst | include/dfu-internal.h:320-329 | For every target, the oldest chunk holds the first bytes, at their addresses and in one piece; without it the rest are still laid out |
| UnalignedPipe.NeverStopsExactly | src/binary-file.c:140-146 | For a target that ignores alignment: no run of the upload ever ends in an error if and only if there are as many chunk slots as the decoded ring has bytes (or the input ring can hold nothing) |
| UnalignedPipe.StepFailsExactly | src/binary-file.c:474-483 | For such a target, in every reachable state: a step fails if and only if it is an idle call whose flush needs more chunks than there are slots left |
| UnalignedPipe.SlotsRunOut | src/binary-file.c:140-146 | For every such configuration with fewer slots than the ring has bytes, a run of single bytes to a busy target that ends in the error |
| WriteChunks.RoundPages | src/binary-file.c:126-219 | One round of the loop extends the pages by what it queues, and fails only when all slots hold full pages |
| WriteChunks.PagedNoCrossing | src/binary-file.c:32-46 | Consecutive pages never cross the end of the decoded ring, and start at page boundaries of both address and ring |
| WriteChunks.PagedFirst | include/dfu-internal.h:320-329 | The oldest chunk is the first page; without it the others are the pages of the rest |
| WriteChunks.PagedCount | src/binary-file.c:32-46 | How many bytes n pages hold, which bounds the slots that are needed |
| WriteChunks.IgnoredAlignmentNeverCrosses | src/binary-file.c:187-196 | With alignment ignored no chunk crosses the end of the ring, whatever the addresses |
| ChunkCrossing.EnqueueCrossesExactly | src/binary-file.c:116-221 | With alignment respected, for a whole successful call: no chunk crosses the end of the ring afterwards if and only if none did before, what the pending chunk takes ends before it, and so does the rest, unless that starts at a page boundary of the ring |
| ChunkCrossing.StretchCrossesExactly | src/binary-file.c:187-218 | The same for bytes that go to new chunks only: they start at a page boundary of the ring, or all of them end before its end |
| ChunkCrossing.AddressJumpCrosses | src/binary-file.c:178-197 | A concrete state in which a chunk behind an address jump runs over the end of the decoded ring |
| ChunkCrossing.PendingChunkCrosses | src/binary-file.c:147-177 | A concrete state in which a pending chunk inside the ring grows over its end |
| ChunkLaps.CallLapsExactly | src/binary-file.c:116-221 | Call by call: no chunk crosses the end of the ring if and only if no stretch of consecutive addresses, over all that was queued, begins off a page boundary of the stream and goes on into the next lap of the ring |
| ChunkLaps.CallAtPage | src/binary-file.c:147-218 | After each call the pending chunk is a page of its stretch, and without one the stretch has whole pages |
| WriteChunks.RoundedSizeUsable | src/binary-file.c:32-46 | The decoded size, rounded down to the page size, is a power of two, as the mask arithmetic needs, if and only if the page size is |
| Ring.MaskIsMod | include/dfu-internal.h:193-201 | Masking with size - 1 is the remainder modulo a power of two, also for negative differences |
| Ring.MaskIsModExactly | include/dfu-internal.h:193-201 | It is so for every index if and only if the size is a power of two |
| Ring.CountMeans | include/dfu-internal.h:193-196 | _count of two ring indices is the distance of the stream positions behind them |
| Ring.SpaceMeans | include/dfu-internal.h:198-201 | _space is what is missing to size - 1 |
| Ring.CountToEndMeans | include/dfu-internal.h:203-208 | _count_to_end is the part of the count before the end of the ring |
| Ring.SpaceToEndMeans | include/dfu-internal.h:210-215 | _space_to_end is the part of the space before the end of the ring |
| Ring.Advance | include/dfu-internal.h:278-292 | Moving an index by a masked addition is moving the stream position |
| BinaryFile.DfuBinaryFile.constructor | src/binary-file.c:20-65 | A fresh file is the fresh pipeline |
| BinaryFile.DfuBinaryFile.AppendData | src/binary-file.c:322-363 | All or nothing goes into the input ring, over its end if need be: the new state is the machine's Append; all of it exactly when it fits behind what is not yet decoded |
| BinaryFile.DfuBinaryFile.PutData | src/binary-file.c:338-357 | The two copies together put the data behind what the ring holds, and lose nothing of it |
| BinaryFile.DfuBinaryFile.PutPiece | src/binary-file.c:343-344 | So does one of them |
| BinaryFile.DfuBinaryFile.TakePiece | src/binary-format-bin.c:21-38 | One memcpy of _subcopy takes the next bytes of the stream |
| BinaryFile.DfuBinaryFile.Subcopy | src/binary-format-bin.c:21-38 | _subcopy takes the next bytes of the stream, as many as fit or as there are, across the end of the input ring |
| BinaryFile.DfuBinaryFile.DecodePiece | src/binary-format-bin.c:41-64 | One of the two pieces decoded lands where the decoded ring expects the stream |
| BinaryFile.DfuBinaryFile.BinaryDecodeChunk | src/binary-format-bin.c:41-64 | A call moves as many bytes as are there and fit, in order, across the ends of both rings, and gives the address of the first |
| BinaryFile.DfuBinaryFile.ChunkCount | include/dfu-internal.h:266-270 | bf_wc_count is the length of the queue |
| BinaryFile.DfuBinaryFile.GetWriteChunk | include/dfu-internal.h:281-292 | The slot behind the queue, or none if only one is left |
| BinaryFile.DfuBinaryFile.PendingSlot | src/binary-file.c:128-146 | Finds the last chunk before the head exactly when it is pending |
| BinaryFile.DfuBinaryFile.GrowChunk | src/binary-file.c:147-177 | Filling up the pending chunk is a round of the enqueue specification |
| BinaryFile.DfuBinaryFile.MakeChunk | src/binary-file.c:187-212 | The chunk for a new page; none when its address should be aligned and is not |
| BinaryFile.DfuBinaryFile.FillNewChunk | src/binary-file.c:187-218 | Starting a new chunk is a round of the enqueue specification, or its error |
| BinaryFile.DfuBinaryFile.EnqueueOnce | src/binary-file.c:126-219 | One round of the do-while loop over the ring of chunks is one round of the specification |
| BinaryFile.DfuBinaryFile.EnqueueForWriting | src/binary-file.c:116-221 | The loop over the ring of chunks is the enqueue specification, with its error |
| BinaryFile.DfuBinaryFile.CanFlush | src/binary-file.c:290-300 | The two gates of _bf_do_flush |
| BinaryFile.DfuBinaryFile.FlushParts | src/binary-file.c:285-320 | Decoding and queueing together move the pipeline to the next state |
| BinaryFile.DfuBinaryFile.DoFlush | src/binary-file.c:285-320 | _bf_do_flush is the machine's Flush, with its error return |
| BinaryFile.DfuBinaryFile.NextWriteChunk | include/dfu-internal.h:300-312 | The oldest chunk, marked, exactly when it may be written |
| BinaryFile.DfuBinaryFile.Read | src/binary-file.c:270-273 | The bytes the target is handed are the next bytes of the file |
| BinaryFile.DfuBinaryFile.DoWrite | src/binary-file.c:241-279 | _bf_do_write is the machine's Offer |
| BinaryFile.DfuBinaryFile.PutWriteChunk | include/dfu-internal.h:320-329 | Frees the oldest chunk and its bytes, and keeps all the others |
| BinaryFile.DfuBinaryFile.CheckDone | src/binary-file.c:461-471 | "Really written" is set exactly when the end was marked and no chunk is left |
| BinaryFile.DfuBinaryFile.ChunkDone | src/binary-file.c:450-472 | dfu_binary_file_chunk_done is the machine's Done |
| BinaryFile.DfuBinaryFile.FlushStart | src/binary-file.c:428-432 | Starts flushing and changes nothing else |
| BinaryFile.DfuBinaryFile.OnIdle | src/binary-file.c:474-483 | dfu_binary_file_on_idle is the machine's Idle, with its error return; a free target gets the bytes of the oldest chunk whenever that is not pending, or is the only one left after the end of file was marked, and nothing otherwise |
| BinaryFile.RingWrite | src/binary-file.c:343-344 | Bytes written behind the live stretch of a ring do not touch it |
| BinaryFile.RingRead | src/binary-file.c:270-273 | A stretch before the end of the ring is a stretch of the stream |
| BinaryFile.DropChunk | include/dfu-internal.h:320-329 | Moving the chunk tail drops the first chunk of the queue and no other |
| BinaryFile.AddChunk | include/dfu-internal.h:281-292 | Filling the slot at the head adds a last chunk and changes no other |
| BinaryFile.EnqueueTail | src/binary-file.c:126-219 | The write tail ends up behind all that was queued |
| BinaryFile.FirstReadable | src/binary-file.c:270-273 | In a good state the oldest chunk can be read in one piece |
| HexPipe.RunWritesFile | src/binary-file.c:241-320 | For every steady file and every run of text arriving, idle calls and acknowledgements, as long as no decoder call has lost data: the acknowledged writes are the first bytes of the file, each at the address the file gives it; "really written" implies all of them |
| HexPipe.ReallyWrittenExactly | src/binary-file.c:450-472 | For every steady file of decodable records and every run that reports "really written": the writes are the file, address by address, if and only if no decoder call has lost data |
| HexPipe.FlushLosesExactly | src/binary-file.c:299-307 | In every reachable state: a flush loses data if and only if the gate is open and the data at consecutive addresses, in the records that have arrived as a whole, are more than the room in the decoded ring |
| HexLost.LostForLackOfRoom | src/binary-format-ihex.c:260-262 | Nine concrete steps of a steady file of eight bytes, through an open gate: two records that arrive together do not fit, and the file is reported as really written with one byte in flash |
| HexPipe.RunKeeps | src/binary-file.c:241-320 | For every text: chunks tile the queued bytes, and the writes put what the decoded ring holds at the addresses of the first of them, in every reachable state, also after data were lost |
| HexPipe.StepKeeps | src/binary-file.c:450-483 | Each step keeps this |
| HexPipe.StepDecodes | src/binary-file.c:285-320 | Each step of the pipeline is a step of the decoder or none |
| HexPipe.ChunkPlaces | src/binary-file.c:187-218 | A chunk's bytes from its address on are the stored bytes at the decoded addresses, also when these wrap at 32 bits |
| HexPipe.TilesFirst | include/dfu-internal.h:320-329 | The oldest chunk holds the first decoded bytes, the others the rest |
| HexPipe.RunNeverCrosses | src/binary-file.c:187-218 | For targets that ignore alignment, no chunk of any run crosses the end of the decoded ring |
| HexPipe.OfferPossible | src/binary-file.c:241-279 | Where no chunk crosses the end of the ring, every offer can be made |
| HexCrossing.RunCrossesExactly | src/binary-file.c:187-197 | For targets that want aligned chunks, in every state of every run: no queued chunk crosses the end of the ring if and only if no stretch of consecutive addresses among those queued so far begins off a page boundary of the stream and goes on into the next lap |
| HexCrossing.FileCrossesExactly | src/binary-file.c:187-197 | The condition on the file: if no stretch of its addresses does so, no chunk of any run without loss crosses the end of the ring; once all is decoded, if and only if |
| HexCrossing.FileOffered | src/binary-file.c:241-279 | So the target can be offered every chunk of such a file; one that ignores alignment, every chunk of any file |
| HexCrossing.DecodedAddresses | src/binary-file.c:187-218 | The addresses queued so far are the first of the file's |
| IhexRuns.ArrivalIndependence | src/binary-format-ihex.c:295-397 | For every steady file and every interleaving of arriving text and decoder calls, as long as no call loses data for lack of room: what was decoded is a prefix of the file's list of addresses and bytes, and all of it at the end-of-file record |
| IhexRoom.RightExactly | src/binary-format-ihex.c:295-397 | For every steady file of decodable records, in every schedule that gets to the end-of-file record, with any room for each call: exactly the file's bytes were decoded, at the file's addresses, if and only if no call had lost data |
| IhexRoom.LostExactly | src/binary-format-ihex.c:260-262 | A call on decodable text never fails, and loses data if and only if those at consecutive addresses, in the records that have arrived as a whole, are more than the room |
| IhexRoom.RunLosesExactly | src/binary-format-ihex.c:260-262 | The same in every reachable state of every file of decodable records, for its remaining records |
| IhexRoom.HalfIsEnough | src/binary-format-ihex.c:295-397 | With room for half of the text that has arrived, no call loses data |
| IhexRoom.DecodeEnds | src/binary-format-ihex.c:295-397 | Over all records of a call: no byte is lost with room, at least one without, and the text left is that of whole records |
| IhexRoom.NoRoom | src/binary-format-ihex.c:320-339 | A record without room moves the text behind its header, and its digits become the end of the record before |
| IhexRoom.LineSeen | src/binary-format-ihex.c:170-208 | The decoder sees the next record exactly when it has arrived as a whole |
| IhexSchedules.SteadyExactly | src/binary-format-ihex.c:311-319 | For every decodable file: it is decoded rightly in all schedules without lack of room if and only if it is steady, that is, if and only if a data record at the very start of a new extended address goes on at the address just reached |
| IhexSchedules.SchedulesDiffer | src/binary-format-ihex.c:387-388 | For every file that is not steady there are two schedules, both without lack of room, that decode as many bytes with different addresses |
| IhexSchedules.UnsteadyFile | src/binary-format-ihex.c:387-388 | A concrete file (a byte at 0, extended address 0001, a byte at its address 0) with two such schedules |
| IhexSchedules.LineDecodes | src/binary-format-ihex.c:302-395 | A record that has arrived as a whole, and for whose bytes there is room, is taken by the call, unless it is an address jump |
| IhexPrinter.RoundTripExactly | src/binary-format-ihex.c:58-397 | Records of bytes and addresses, printed in digits of either case: every run without loss yields their bytes at their addresses if and only if no data record at address 0 follows an extended address that is not just behind the data so far |
| IhexPrinter.RoundTrip | src/binary-format-ihex.c:295-397 | At the end-of-file record it is all of them, exactly when no call has lost data |
| IhexPrinter.CanBeRead | src/binary-format-ihex.c:295-397 | Any such records that have an end can be read back as a whole, line by line |
| IhexPrinter.SameMeaning | src/binary-format-ihex.c:58-137 | What the decoder takes the text to say is what the records say |
| IhexPrinter.NumberValue | src/binary-format-ihex.c:58-109 | Digits of any number, in either case, have that value |
| IhexErrors.LineFailsExactly | src/binary-format-ihex.c:170-397 | A call whose only record has arrived fails exactly when its header has a character that is no digit, its type is unknown or a segment address, or a data or address digit that it looks at is none |
| IhexErrors.ScanBadExactly | src/binary-format-ihex.c:77-109 | A number is bad exactly when a character of it that is there is no digit |
| IhexErrors.BadHeader | src/binary-format-ihex.c:170-209 | A header with a character that is no digit is an error, however little of the line has arrived behind it |
| IhexRuns.RunFaithful | src/binary-format-ihex.c:295-397 | In every reachable state, what was decoded and what the undecoded records still say make up the file |
| IhexRuns.DecodeYields | src/binary-format-ihex.c:295-397 | One call, over all its records, moves bytes from the second to the first |
| IhexRuns.DataYields | src/binary-format-ihex.c:252-289 | A data record yields its bytes at its address and leaves the text behind its checksum |
| IhexRuns.NumberYields | src/binary-format-ihex.c:357-393 | An address record sets the base it spells, and nothing else |
| IhexRuns.PeekOfText | src/binary-format-ihex.c:170-208 | A header found in text that has partly arrived is the header of the next record |
| IhexRuns.OutFits | src/binary-format-ihex.c:295-397 | A call decodes at most one byte for two characters it consumes |
| IhexRuns.GateOpensWhenEmpty | src/binary-file.c:299-312 | So twice the largest chunk ever decoded fits an empty decoded ring no smaller than the input ring: the gate of _bf_do_flush opens again |
| IntelHex.PeekFits | src/binary-format-ihex.c:170-208 | A record whose header is reported lies in the live text from its colon through its checksum |
| IntelHex.ScanIsValue | src/binary-format-ihex.c:77-109 | A number read digit by digit is the value of its digits |
| IhexStale.CleanRingNeverStale | src/binary-format-ihex.c:151-163 | While a well-formed file arrives in a ring that held no colon before, the byte at the head, which the search also looks at, never makes a call fail |
| IhexStale.OldFileMakesStale | src/binary-format-ihex.c:157-162 | A ring that still holds an old upload, and a whole first record in front of an old colon: the format is probed, and the call that decodes the record fails |
| IhexStale.ColonStartsLine | src/binary-format-ihex.c:151-163 | Every colon of a well-formed text is followed by a decodable header |
| IhexDigits.PutHigh | src/binary-format-ihex.c:95-99 | A first digit opens a byte of the decoded ring |
| IhexDigits.PutLow | src/binary-format-ihex.c:100-101 | A second digit completes it, and the place moves on around the ring |
| IhexDigits.PutKeeps | src/binary-format-ihex.c:77-109 | What the ring held before stays |
| IhexDigits.PutEnds | src/binary-format-ihex.c:77-109 | All digits together are their bytes, behind what was decoded before |
| IhexFile.IhexFile.constructor | src/binary-format-ihex.c:211-229 | A file just probed, in a ring that still holds other bytes |
| IhexFile.IhexFile.AppendData | src/binary-file.c:322-363 | All or nothing goes into the input ring, and what the ring held before it is still accounted for |
| IhexFile.IhexFile.PutData | src/binary-file.c:338-357 | The two copies of it |
| IhexFile.IhexFile.Release | include/dfu-internal.h:320-329 | Decoded bytes leave the decoded ring; all others stay |
| IhexFile.ArrivalKeepsHistory | src/binary-file.c:343-344 | The ring always holds the last bytes ever written to it, old ones included |
| IhexFile.HistoryHolds | src/binary-file.c:343-344 | So its live part is the live text |
| IhexFile.IhexFile.Next | src/binary-format-ihex.c:48-51 | The next place of the ring is the next place of the text |
| IhexFile.IhexFile.SearchLine | src/binary-format-ihex.c:151-163 | Finds the first colon of the live text, or what the byte at the head makes of its end |
| IhexFile.IhexFile.DecodeNumber | src/binary-format-ihex.c:77-109 | The number the digits spell, or that some are missing or bad, across the end of the ring |
| IhexFile.IhexFile.PeekFields | src/binary-format-ihex.c:170-208 | The fields of a header |
| IhexFile.IhexFile.PeekLineHeader | src/binary-format-ihex.c:170-208 | The header the specification sees in the live text; without a colon it fails exactly when the stale bytes behind the head look like a bad header |
| IhexFile.IhexFile.DecodeBuf | src/binary-format-ihex.c:129-133 | Digits become bytes of the decoded ring up to the first bad one |
| IhexFile.IhexFile.DecodeDataLine | src/binary-format-ihex.c:252-289 | A data line is decoded completely, or reported as bad, or without room |
| IhexFile.IhexFile.MoveTail | src/binary-format-ihex.c:38-41 | Consumes characters of the live text |
| IhexFile.IhexFile.DecodedSpace | include/dfu-internal.h:242-245 | The room in the decoded ring |
| IhexFile.IhexFile.DataCase | src/binary-format-ihex.c:310-344 | The data case of the loop is the specification's data line, or an address jump; without room, tail and decoded ring are left as the specification says |
| IhexFile.IhexFile.NumberRecord | src/binary-format-ihex.c:363-374 | Reads the number of an address record and moves behind it |
| IhexFile.IhexFile.NumberCase | src/binary-format-ihex.c:357-393 | The address cases are the specification's number line |
| IhexFile.IhexFile.EofCase | src/binary-format-ihex.c:345-352 | The end-of-file record ends the file and marks it as written |
| IhexFile.IhexFile.Round | src/binary-format-ihex.c:302-395 | One round of the loop is one line of the specification, or ends the call as it says |
| IhexFile.IhexFile.DecodeChunk | src/binary-format-ihex.c:295-397 | A call over the two rings returns the count, the bytes and the address that the specification gives for the live text, and leaves the rings and the base address so, also when it returns 0 in the middle of its loop; it fails beyond that exactly when the stale byte at the head makes it fail |
| ChunkedDecoder.PhrChunkedDecoder.Decode | src/picohttpparser.c:552-671 | In place: the buffer holds the decoded bytes and then exactly the undecoded tail, and state, size and return value are those of the byte-by-byte machine run on the buffer; nothing behind the buffer changes |
| ChunkedDecoder.FeedIsRun | src/picohttpparser.h:71-79 | However a stream is cut into buffers, output, final state, result and consumed count are those of one run over the whole stream |
| ChunkedDecoder.RunConcat | src/picohttpparser.h:71-79 | Stopping anywhere and going on is the same as reading on; after the end nothing more is read |
| ChunkedDecoder.RunData | src/picohttpparser.c:606-623 | Copying a block of chunk data is taking its bytes one by one |
| ChunkedDecoder.RunKeepsValid | src/picohttpparser.c:560-579 | The bytes left in a chunk stay below 16 to the power of the digits a size_t has, so the size never overflows |
| ChunkedDecoder.StepKeepsValid | src/picohttpparser.c:560-668 | Each byte keeps the bound, and never changes the decoder's settings |
| ChunkedDecoder.PhrChunkedDecoder.constructor | src/picohttpparser.h:71-79 | A zero-filled decoder starts in the first state |
| ChunkedDecoder.PhrChunkedDecoder.Memmove | src/picohttpparser.c:606-618 | Moving an overlapping block down |
| ChunkedDecoder.PhrChunkedDecoder.ChunkSize | src/picohttpparser.c:560-581 | The digits of a chunk size, up to the first other byte, a size with too many digits, or the end of the buffer |
| ChunkedDecoder.PhrChunkedDecoder.ChunkExt | src/picohttpparser.c:583-604 | The rest of the size line |
| ChunkedDecoder.PhrChunkedDecoder.ChunkData | src/picohttpparser.c:606-623 | The data of a chunk, or what has arrived of it |
| ChunkedDecoder.PhrChunkedDecoder.ChunkCrlf | src/picohttpparser.c:625-638 | The line end behind the data |
| ChunkedDecoder.PhrChunkedDecoder.TrailersLineHead | src/picohttpparser.c:639-648 | The start of a trailer line, or the empty line |
| ChunkedDecoder.PhrChunkedDecoder.TrailersLineMiddle | src/picohttpparser.c:650-659 | The rest of a trailer line |
| ChunkedDecoder.PhrChunkedDecoder.Pass | src/picohttpparser.c:558-663 | One pass through the switch consumes input, writes only behind what it has read, and agrees with the machine |
| ChunkedEncoding.RoundTrip | src/picohttpparser.c:552-671 | Every chunked message, with any extensions, sizes in digits of either case with any leading zeros, and any number of CRs before a line feed, in any segmentation, is decoded to the concatenation of its chunks; what follows the last chunk line is left |
| ChunkedEncoding.RoundTripWithTrailers | src/picohttpparser.c:639-665 | The same with the trailer section consumed |
| ChunkedEncoding.CanonicalChunk | src/picohttpparser.c:541-579 | Every block a size_t can count is a valid chunk with its canonical size |
| ChunkedEncoding.HexDigitsValue | src/picohttpparser.c:541-550 | The canonical digits of a number are a numeral of it, and are as few as possible |
| ChunkedEncoding.NumberIsRead | src/picohttpparser.c:541-579 | Digits of any number, in either case, are read as that number |
| ChunkedLanguage.AcceptsExactly | src/picohttpparser.c:552-671 | In any segmentation, a stream is accepted if and only if it starts with a message of the grammar |
| ChunkedLanguage.MessageOf | src/picohttpparser.c:552-671 | Whatever is accepted is a message of the grammar, with its trailer section if that is consumed |
| ChunkedLanguage.FailsExactly | src/picohttpparser.c:552-671 | The decoder gives up exactly on the streams that nothing that follows could make a message |
| ChunkedLanguage.CanComplete | src/picohttpparser.c:552-671 | From every state of the decoder something completes the message |
| RequestStability.ArrivalIndependence | src/picohttpparser.c:416-446 | Parsing a growing buffer again and again, each time with the length of the attempt before, succeeds if and only if parsing the whole request once does, and with the same result |
| RequestStability.ParseRequestExtends | src/picohttpparser.c:371-414 | A success or an error on a prefix is the result on every longer buffer |
| RequestStability.QuickTestPasses | src/picohttpparser.c:229-258 | The quick test finds the end of every request the parser accepts |
| RequestStability.QuickTestFinds | src/picohttpparser.c:229-256 | What the quick test ends with is an empty line |
| RequestStability.WaitsForEmptyLine | src/picohttpparser.c:229-256 | On a further attempt, a buffer without an empty line is not accepted, and is answered by waiting unless a CR stands alone |
| RequestStability.QuickTestHarmless | src/picohttpparser.c:416-446 | After an incomplete attempt, the quick test never changes a successful parse |
| RequestStability.ParseRequestShape | src/picohttpparser.c:371-414 | An accepted request ends with an empty line, and has no carriage return without line feed |
| RequestStability.GoodRequestInPieces | src/picohttpparser.c:416-446 | A good request in pieces is asked for until it is complete |
| RequestStability.SuccessInPieces | src/picohttpparser.c:416-446 | A success in pieces is the success of the whole |
| PicoHttpParser.GetTokenToEol | src/picohttpparser.c:153-227 | The scan that takes eight bytes at a time finds what the byte-by-byte scan finds |
| PicoHttpParser.AdvanceToken | src/picohttpparser.c:121-150 | The token up to the next space, or why there is none |
| PicoHttpParser.ParseInt | src/picohttpparser.c:261-284 | The number that the digits spell, once the byte behind them is there |
| PicoHttpParser.ParseHttpVersion | src/picohttpparser.c:287-297 | The minor version |
| PicoHttpParser.ParseName | src/picohttpparser.c:320-360 | A header name up to its colon, and the blanks behind it; none for a continuation line |
| PicoHttpParser.ParseHeaders | src/picohttpparser.c:299-369 | All headers up to the empty line, or too many, or an error |
| PicoHttpParser.ParseRequestLine | src/picohttpparser.c:371-411 | The request line |
| PicoHttpParser.TestComplete | src/picohttpparser.c:229-258 | Whether the end of the request is among the new bytes, looking three bytes back |
| PicoHttpParser.PhrParseRequest | src/picohttpparser.c:416-446 | The whole entry point: quick test, then parse |
| RequestRoundTrip.RoundTrip | src/picohttpparser.c:371-414 | Every request of a grammar of its own, printed with any of the accepted line ends, blanks and continuation lines, is parsed to its method, path, decimal minor version and headers, and what follows it is left |
| RequestLanguage.AcceptsExactly | src/picohttpparser.c:371-414 | A buffer is accepted if and only if it starts with a request of the grammar with no more fields than there is room for |
| RequestLanguage.RequestOf | src/picohttpparser.c:371-414 | Whatever is accepted is such a request, and the parts returned are its parts |
| RequestPartial.MoreExactly | src/picohttpparser.c:371-414 | More is asked for exactly when the buffer is no request yet and something that follows would make it one; what is rejected cannot be completed |
| RequestPartial.HeadersDone | src/picohttpparser.c:299-369 | A header section that is not complete can be completed |
| RequestPartial.LineDone | src/picohttpparser.c:371-404 | So can a request line |
| JsmnRoundTrip.RoundTrip | src/jsmn.c:154-306 | Every JSON value, printed with any of the four blanks, the eight escape letters and hexadecimal digits of RFC 8259, is tokenised to the preorder of its tree: exact spans, child counts and parents, each key owning its value |
| JsmnRoundTrip.NeedsSizeExactly | src/jsmn.c:154-306 | Tokenising it runs out of tokens if and only if there are fewer than the value has nodes; the counting run returns that number |
| JsmnRoundTrip.ParseValue | src/jsmn.c:154-306 | Inside any text and below any parent, a value yields its tokens and leaves the parser as it was |
| JsmnRoundTrip.ParseItems | src/jsmn.c:246-252 | Items and commas give the array its items as children |
| JsmnRoundTrip.ParseMembers | src/jsmn.c:241-252 | Members give the object its keys as children, and each key its value |
| JsmnErrors.StringExactly | src/jsmn.c:87-148 | The text behind a quote is whole characters and what stands behind them; the string is taken exactly where that is a quote, rejected for a bad escape, and else incomplete |
| JsmnErrors.PrimitiveExactly | src/jsmn.c:38-83 | A primitive is taken exactly when it consists of printable characters up to the end or one of the eight characters behind a value |
| JsmnTruncated.PrefixNeverWrong | src/jsmn.c:154-306 | A text that is not wrong is not wrong when it is cut off anywhere, nor does it need more tokens |
| JsmnTruncated.TruncatedIsPartial | src/jsmn.c:294-304 | A printed container or string that is cut off before its last character is reported as partial |
| JsmnTruncated.StringPrefix | src/jsmn.c:87-148 | A string that is cut off is incomplete |
| JsmnForest.ParseKeeps | src/jsmn.c:154-306 | For every text and every number of tokens, however the run ends, the tokens form a forest: parents before children, sizes equal to the number of children, starts increasing, spans nested or apart, every open container an ancestor of the last token and of the superior token |
| JsmnForest.StepKeeps | src/jsmn.c:161-294 | Every round keeps this |
| JsmnForest.StepKeepsChains | src/jsmn.c:161-294 | Every round keeps the open containers on one chain |
| JsmnForest.AddKeeps | src/jsmn.c:9-33 | So does a new token |
| JsmnForest.CloseKeeps | src/jsmn.c:185-210 | So does a closing bracket |
| JsmnForest.CloseClosesInnermost | src/jsmn.c:185-210 | With a container open, a closing bracket closes the innermost open one if it is of its kind, and is an error otherwise |
| JsmnForest.UnmatchedCloseExactly | src/jsmn.c:185-210 | With none open, a closing bracket is accepted if and only if the last root token is of its kind and there is a superior token |
| JsmnForest.UnmatchedCloseAccepted | src/jsmn.c:185-210 | The text {}:} is accepted |
| JsmnForest.ParseBounds | src/jsmn.c:154-306 | Never more tokens than there are; a finished run has read the text and has no container open |
| JsmnForest.InitHolds | src/jsmn.c:312-316 | A fresh parser has a well-formed forest |
| JsmnForest.ChainMeans | src/jsmn.c:161-303 | The chain condition says that every open token is an ancestor |
| Jsmn.StepAdvances | src/jsmn.c:161-294 | A round that goes on has read something |
| Jsmn.StepStays | src/jsmn.c:66-81 | A round that fails leaves position and tokens as they were |
| JsmnRestart.Restart | src/jsmn.c:154-306 | Going on with a larger array after running out of tokens ends like one run with the larger array |
| JsmnRestart.CountMatches | src/jsmn.c:154-306 | A finished run has as many tokens as the run without an array counts, and with that many there is no lack of tokens |
| JsmnRestart.CountThenParse | src/jsmn.c:154-306 | Counting first and tokenising with an array of that size never runs out of tokens |
| JsmnRestart.StepCounts | src/jsmn.c:66-114 | A round counts what it would allocate |
| JsmnParser.JsmnParser.constructor | src/jsmn.c:312-316 | jsmn_init |
| JsmnParser.JsmnParser.AllocToken | src/jsmn.c:9-22 | The next free token, cleared, or none; no other token changes |
| JsmnParser.JsmnParser.FillToken | src/jsmn.c:27-33 | A token with its kind, span and parent |
| JsmnParser.JsmnParser.ParsePrimitive | src/jsmn.c:38-82 | A primitive, its error, or the lack of a token, which leaves the position |
| JsmnParser.JsmnParser.SkipHex | src/jsmn.c:126-139 | Up to four hexadecimal digits |
| JsmnParser.JsmnParser.SkipString | src/jsmn.c:93-148 | The closing quote, over all escapes, or the error |
| JsmnParser.JsmnParser.ParseString | src/jsmn.c:87-149 | A string, its error, or the lack of a token, which leaves the position |
| JsmnParser.JsmnParser.OpenBracket | src/jsmn.c:167-184 | An opening bracket is the specification's |
| JsmnParser.JsmnParser.CloseBracket | src/jsmn.c:185-210 | The walk over the parent links is the specification's closing bracket |
| JsmnParser.JsmnParser.Comma | src/jsmn.c:246-252 | After a comma the container is the superior token again |
| JsmnParser.JsmnParser.StringToken | src/jsmn.c:234-240 | A string counts as a child of the superior token |
| JsmnParser.JsmnParser.PrimitiveToken | src/jsmn.c:279-286 | A primitive counts as a child of the superior token |
| JsmnParser.JsmnParser.Round | src/jsmn.c:161-294 | One round of jsmn_parse on the token array is one step of the specification |
| JsmnParser.JsmnParser.CountingRound | src/jsmn.c:161-294 | The same without an array |
| JsmnParser.JsmnParser.Unfinished | src/jsmn.c:296-303 | Whether a container is still open |
| JsmnParser.JsmnParser.Parse | src/jsmn.c:154-306 | jsmn_parse on the token array ends in the specification's state with its return value |
| JsmnParser.JsmnParser.CountAll | src/jsmn.c:154-306 | jsmn_parse without an array returns the specified count |
| FlashSectors.SectorTable.NewFile | src/file-container-esp8266.c:910-927 | A file is created exactly when some slot has no sectors and the free list has enough; it takes the first such slot, and exactly the sectors it needs from the front of the free list; otherwise nothing changes; the links of all lists stay mutually inverse and the sectors partitioned |
| FlashSectors.SectorTable.Remove | src/file-container-esp8266.c:971-991 | Removing a file moves all its sectors to the free list, with the same invariant |
| FlashSectors.SectorTable.Init | src/file-container-esp8266.c:836-858 | After init all sectors are free and no file has any, whatever the links were before |
| FlashSectors.SectorTable.Fini | src/file-container-esp8266.c:860-866 | So after fini |
| FlashSectors.SectorTable.GetSectors | src/file-container-esp8266.c:868-895 | All the sectors asked for, or none |
| FlashSectors.SectorTable.GetFileData | src/file-container-esp8266.c:897-908 | The first slot without sectors; none only when every slot has some |
| FlashSlots.AllCreatedExactly | src/file-container-esp8266.c:897-927 | After init, a list of files can all be created if and only if there are slots for them and their sectors suffice; each gets the next slot and its sectors, and all other sectors stay free |
| FlashSlots.NextSlot | src/file-container-esp8266.c:897-927 | With the first slots filled, the next file gets the next slot exactly when there is one and the sectors suffice |
| FlashSectors.SectorTable.MoveFirst | src/file-container-esp8266.c:883-886 | The first sector of one list comes to the front of another; all links stay mutually inverse |
| FlashSectors.SectorTable.MoveSectors | src/file-container-esp8266.c:882-889 | The same for several |
| FlashSectors.SectorTable.LinkFirst | src/file-container-esp8266.c:97-106 | A new node behind the head makes the ring longer |
| FlashSectors.SectorTable.UnlinkFirst | src/file-container-esp8266.c:113-120 | Taking out the first node closes the ring |
| FlashSectors.SectorTable.ListCount | src/file-container-esp8266.c:145-155 | The walk around a ring counts its sectors |
| FlashSectors.SectorTable.ListEmpty | src/file-container-esp8266.c:134-137 | Whether a list has no sectors |
| FlashSectors.SectorTable.ListInit | src/file-container-esp8266.c:125-129 | A ring of the head alone |
| FlashSectors.SectorAdd | src/file-container-esp8266.c:97-106 | The four links, and what else stays, also in a ring of one |
| FlashSectors.SectorDel | src/file-container-esp8266.c:113-120 | The two links, and what else stays |
| FlashSectors.MovedKeeps | src/file-container-esp8266.c:883-886 | A move keeps the sectors partitioned among the lists |
| FlashSectors.GrownKeeps | src/file-container-esp8266.c:853-854 | So does adding the next sector to the free list |
| FlashSectors.ExactlyOnePlace | src/file-container-esp8266.c:836-895 | In a partition every sector is in exactly one place of exactly one list |
| FlashSectors.SectorsCounted | src/file-container-esp8266.c:836-991 | Free sectors and those of all files add up to the number of sectors |
| FlashSectors.SectorsForExactly | src/file-container-esp8266.c:872 | The number of sectors taken for a file is the least that holds it |
| FlashSectors.MovedManyAt | src/file-container-esp8266.c:882-889 | Which sectors are moved, and that they come to stand in opposite order |
| FlashSectors.InitRingsAt | src/file-container-esp8266.c:853-854 | The order of the free list after init |
| FlashFiles.WritesInOrder | src/file-container-esp8266.c:811-828 | Every run of writes to a new file goes to the file's flash addresses in order, each once, within the maximum size |
| FlashFiles.ReadsWhatWasWritten | src/file-container-esp8266.c:793-809 | Reading it back from the start visits the addresses that were written, in the same order |
| FlashFiles.ReadsInOrder | src/file-container.c:71-85 | After any run of writes, any run of reads from a file pointer inside the file visits the addresses written from there on, in order and each once, up to the end of what was written, and the file pointer ends behind the last |
| FlashFiles.ReadsGoOn | src/file-container.c:71-85 | Reads go on where the one before ended |
| FlashFiles.AddressExactly | src/file-container-esp8266.c:73-87 | The flash address of a byte: first sector of the container, sector, header of 76 bytes and place; inside the container |
| FlashFiles.WriteExactly | src/file-container-esp8266.c:811-828 | A write within the maximum size takes all its bytes; any other takes none and changes nothing |
| FlashFiles.NeverOutOfSectors | src/file-container-esp8266.c:868-895 | The sectors taken for a file hold its maximum size |
| FlashFiles.FlashFile.WriteFile | src/file-container-esp8266.c:811-828 | dfu_file_write makes the accesses and has the result these theorems are about |
| FlashFiles.FlashFile.ReadFile | src/file-container-esp8266.c:793-809 | So has dfu_file_read, which moves the file pointer behind what it has read |
| FlashFiles.FlashFile.Seek | src/file-container.c:105-119 | Sets the file pointer |
| FlashFiles.FlashFile.constructor | src/file-container-esp8266.c:910-927 | A file just created, with the sectors taken for it |
| FlashFiles.Wrrd | src/file-container-esp8266.c:713-791 | The loop over the sectors makes accesses that follow the file's addresses from the file pointer on, in the order of the caller's buffer, until all is done or the sectors end |
| FlashFiles.Access | src/file-container-esp8266.c:713-791 | So does the access of one sector |
| FlashFiles.FollowIsVisit | src/file-container-esp8266.c:713-791 | Such accesses visit exactly the file's addresses |
| FlashFiles.AddressInjective | src/file-container-esp8266.c:73-87 | Two offsets of a file have the same flash address only if they are equal |
| FlashFiles.FilesApart | src/file-container-esp8266.c:73-87 | Files without a common sector have no address in common |
| FlashFiles.HeadersApart | src/file-container-esp8266.c:83-87 | No byte of a file lies in a sector header |
| FlashFiles.OwnAddress | src/file-container-esp8266.c:836-895 | In a well-formed container every offset of every file has a flash address of its own |
| FlashIo.AlignPrev | src/file-container-esp8266.c:169-174 | The last word boundary up to an address |
| FlashIo.AlignNext | src/file-container-esp8266.c:157-162 | The first word boundary from an address on |
| FlashIo.FlashDevice.FlashRead | src/file-container-esp8266.c:369-397 | Through word accesses only, for every combination of alignments: it succeeds exactly when no flash access fails; the bytes asked for and no others are written; on the bounce path a read that ends one byte behind a word boundary gets all bytes but the last, and for that the stale byte of the bounce buffer |
| FlashIo.SlowReadExactly | src/file-container-esp8266.c:261-275 | A read by the bounce path is right if and only if it does not end one byte behind a word boundary, or that stale byte happens to be the flash byte |
| FlashIo.SlowReadWrong | src/file-container-esp8266.c:266-268 | A concrete read of four bytes at address 1 whose last byte is wrong |
| FlashIo.SlowWindowExactly | src/file-container-esp8266.c:266-268 | The words read reach the last byte if and only if it is not the first of its word |
| FlashIo.FlashDevice.ReadWords | src/file-container-esp8266.c:206-213 | The device: whole words between word addresses, or failure |
| FlashIo.FlashDevice.AlignedFlashRead | src/file-container-esp8266.c:281-300 | The bytes asked for, where both sides are aligned |
| FlashIo.FlashDevice.EquallyUnalignedFlashRead | src/file-container-esp8266.c:334-367 | The same where both are equally misaligned |
| FlashIo.FlashDevice.FillTmpBuf | src/file-container-esp8266.c:266-271 | What the bounce buffer holds after a round, its stale byte included |
| FlashIo.FlashDevice.SlowFlashRead | src/file-container-esp8266.c:261-275 | One round of the bounce path |
| FlashIo.FlashDevice.SlowReadLoop | src/file-container-esp8266.c:390-396 | Its rounds together, which end |
| FlashIo.AlignedSizeFitsExactly | src/file-container-esp8266.c:342-343 | The word size computed on the equally misaligned path is at most the size if and only if the size covers the misalignment; below that the subtraction wraps |
| FlashIo.AlignedSizeWraps | src/file-container-esp8266.c:342-343 | One byte to read at an address one behind a word boundary: the size wraps to nearly 2^32 |
| FlashIo.FlashDevice.WriteWords | src/file-container-esp8266.c:197-204 | The device: a write of whole words clears bits and sets none |
| FlashIo.FlashDevice.WritePart | src/file-container-esp8266.c:443-455 | A few bytes of a word, the others as they were |
| FlashIo.FlashDevice.WriteMiddle | src/file-container-esp8266.c:439-442 | Whole words by way of the bounce buffer |
| FlashIo.FlashDevice.WriteParts | src/file-container-esp8266.c:439-467 | Start, middle and end together |
| FlashIo.FlashDevice.SlowFlashWrite | src/file-container-esp8266.c:399-470 | Exactly the range asked for is ANDed with the source bytes; every other byte of the flash is unchanged |
| FlashIo.FlashDevice.AlignedFlashWrite | src/file-container-esp8266.c:472-499 | The same where both sides are aligned |
| FlashIo.FlashDevice.SlowWriteLoop | src/file-container-esp8266.c:600-606 | The same for a loop of slow writes |
| FlashIo.FlashDevice.FlashWrite | src/file-container-esp8266.c:577-607 | It succeeds exactly when no flash access fails; a successful write to an erased range makes it hold the source bytes and changes nothing else |
| FlashIo.ErasedTakesData | src/file-container-esp8266.c:197-204 | On erased flash, clearing bits writes the data |
| FlashIo.SlowSizesExactly | src/file-container-esp8266.c:411-435 | With 32-bit arithmetic, at every address: the three pieces of a slow write stay within the source if and only if the size covers the way to the first word boundary (at address 0, a word) |
| FlashIo.SlowSizeWraps | src/file-container-esp8266.c:420-423 | One byte at address 5: the number of bytes to copy wraps to nearly 2^32, and no check notices |
| Timeouts.RunRefines | src/dfu.c:122-191 | Over every sequence of setting (timers not queued), cancelling and triggering, the array is a sorted view of a bag of absolute deadlines; a trigger takes an earliest timer, and only one that is due |
| Timeouts.StepRefines | src/dfu.c:122-191 | Each operation does so |
| Timeouts.TriggerRefines | src/dfu.c:264-270 | The trigger does |
| Timeouts.InsertionRefines | src/dfu.c:122-154 | Splitting one delta inserts one absolute deadline and changes no other |
| Timeouts.RemovalRefines | src/dfu.c:156-172 | Adding a delta to the next removes one absolute deadline and changes no other |
| Timeouts.SearchIsRank | src/dfu.c:128-137 | The place found is behind exactly the earlier deadlines |
| Timeouts.InsertionKeepsSorted | src/dfu.c:122-154 | The deadlines stay sorted |
| Timeouts.SetStep | src/dfu.c:122-154 | Inserting into the deltas is setting a timer |
| Timeouts.TriggerStep | src/dfu.c:264-270 | Triggering takes the first timer if that is due, and then it is one due first; otherwise nothing is due |
| Timeouts.TimeoutQueue.constructor | src/dfu.c:15-15 | An empty queue is the run of no operations |
| Timeouts.TimeoutQueue.SetTimeout | src/dfu.c:174-178 | The queue's next state is that of Set, and the return value says whether there was a slot |
| Timeouts.TimeoutQueue.InsertTimeout | src/dfu.c:122-154 | _insert_timeout on the array of slots |
| Timeouts.TimeoutQueue.CancelTimeout | src/dfu.c:180-184 | The queue's next state is that of Cancel |
| Timeouts.TimeoutQueue.RemoveTimeout | src/dfu.c:156-172 | _remove_timeout on the array of slots |
| Timeouts.TimeoutQueue.Trigger | src/dfu.c:264-270 | The queue's next state is that of Trigger; nothing fires if and only if nothing is due |
| Timeouts.TimeoutQueue.ShiftRight | src/dfu.c:146-147 | Makes room at a slot |
| Timeouts.TimeoutQueue.ShiftLeft | src/dfu.c:165-170 | Closes the gap at a slot |
| Crc32.Crc32Iteration | src/crc32.c:81-87 | The loop over the table computes the bit-by-bit CRC of every message from every register |
| Crc32.TableIsEightSteps | src/crc32.c:9-74 | Each of the 256 table entries is eight bit steps of its index with the polynomial 0xEDB88320 |
| Crc32.LookupIsEightSteps | src/crc32.c:81-87 | A lookup and a shift do the eight steps of the whole register |
| Crc32.TableStepIsByteUpdate | src/crc32.c:81-87 | So one round is one byte of the definition |
| Crc32.CrcOfConcatenation | src/crc32.c:81-87 | Iterating over consecutive pieces is iterating over their concatenation |
| Crc32.CrcInjectiveInRegister | src/crc32.c:81-87 | Different registers stay different whatever is read next |
| Crc32.ChangedByteIsDetected | src/crc32.c:76-92 | A message with one byte changed never has the CRC of the original |

## Findings

Properties the code does not have in general. For each there is a failing input and the exact condition under which
the code does meet it.

| property | failing input | exact condition |
|---|---|---|
| What is acknowledged, and reported as really written, is what the target was given, whenever the end of the file is marked | `EarlyMark.MarkedTooEarly`: the end is marked while the input ring still holds bytes; the last chunk grows while the target has it, and 5 of 15 bytes are never handed over | `EarlyMark.LogExactly`, `EarlyMark.HoldsExactly` and, for the report, `EarlyMark.ReallyWrittenExactly`, over whole runs; `EarlyMark.OfferThenAckExactly` for one idle call |
| An Intel HEX upload without errors writes the whole file | `HexLost.LostForLackOfRoom`: a decoder call without room for all that has arrived returns 0 in the middle of its loop; what it has read is not queued, and nobody is told | `IhexRoom.LostExactly` and `HexPipe.FlushLosesExactly` for the call, `IhexRoom.RightExactly` and `HexPipe.ReallyWrittenExactly` for whole runs; `IhexRoom.HalfIsEnough` is a sufficient condition that needs no look at the text |
| Intel HEX data do not depend on when the decoder is called | `IhexSchedules.UnsteadyFile`: an extended address between two data records sets the expected address to its base, so that a record at its very start is taken for contiguous | `IhexSchedules.SteadyExactly` |
| A well-formed Intel HEX text is never rejected | `IhexStale.OldFileMakesStale`: the search for a line also accepts a colon at the head of the ring, which belongs to an earlier upload | `IhexFile.IhexFile.DecodeChunk`: the call fails beyond the specification if and only if no colon is left in the live text and the stale bytes at the head are a bad header (`Stale`); `IhexStale.CleanRingNeverStale` for rings without old colons |
| A closing bracket without an open container is an error | `JsmnForest.UnmatchedCloseAccepted` | `JsmnForest.UnmatchedCloseExactly` |
| `_flash_read` returns the flash bytes for all alignments | `FlashIo.SlowReadWrong`: the last byte is the first of its word, which the rounded end leaves out | `FlashIo.SlowReadExactly`, `FlashIo.SlowWindowExactly` |
| The equally misaligned read takes any size | `FlashIo.AlignedSizeWraps`: a size below the misalignment, where the unsigned subtraction wraps | `FlashIo.AlignedSizeFitsExactly` |
| `_slow_flash_write` takes any size | `FlashIo.SlowSizeWraps`: a size that ends before the first word boundary, where the word size wraps | `FlashIo.SlowSizesExactly` |
| A file whose end is marked in time is reported as really written | the empty file, and a file whose last chunk is acknowledged before the end is marked: no acknowledgement is left that could report it | `Completion.CompletesExactly` |
| Decoding goes on as long as the target writes | `Completion.GateCanStick`: one call decodes half of the ring, and the gate of `_bf_do_flush` then stays closed even when the ring is empty | `Completion.StuckNeverCompletes` says that it never opens again; `Completion.CompletesExactly` that it opens where twice the largest piece and the bytes held back fit the ring; `Completion.UploadsExactly` for which rings every file can be uploaded |
| No chunk crosses the end of the decoded ring | `ChunkCrossing.AddressJumpCrosses`, `ChunkCrossing.PendingChunkCrosses`: a short chunk closed by an address jump leaves the write tail inside a page; a chunk made or grown there runs over the end | `ChunkCrossing.EnqueueCrossesExactly` for a call; `HexCrossing.RunCrossesExactly` for whole runs, `HexCrossing.FileCrossesExactly` as a condition on the file; `FirmwarePipe.RunKeepsPages` and `HexPipe.RunNeverCrosses` say where it always holds |
| The decoded ring works for every page size, as its rounding suggests | every page size that is not a power of two | `WriteChunks.RoundedSizeUsable`, `Ring.MaskIsModExactly` |
| Enqueueing what fits the ring never fails | `WriteChunks.TooFewSlotsFail`: a stretch one byte shorter than the ring, with too few chunk slots; `UnalignedPipe.SlotsRunOut`: single bytes to a busy target that ignores alignment | `WriteChunks.EnqueueNeverFailsExactly` for pages; `ChunkPieces.EnqueueFailsExactly` for a call and `UnalignedPipe.NeverStopsExactly` for whole runs where alignment is ignored |

## Left out

- FlashIo.FlashDevice.FlashRead: on the equally misaligned path it takes sizes from the misalignment on; below that the size wraps (`AlignedSizeFitsExactly`).
- FlashIo.FlashDevice.EquallyUnalignedFlashRead: the same.
- FlashIo.FlashDevice.SlowFlashWrite: takes sizes that reach the first word boundary; below that the size wraps (`SlowSizesExactly`).
- FlashIo.FlashDevice.FlashWrite: leaves out equal, nonzero misalignment of source and destination, because `_equally_unaligned_flash_write` does not follow the scheme its comment describes; and, for the slow path, last pieces below the misalignment.
- FlashFiles.FlashFile.ReadFile: takes file pointers up to what was written; behind that the source subtracts unsigned numbers.
- FlashFiles.Wrrd: every flash access succeeds, and headers match on reading.
- FlashSectors.SectorTable.NewFile: erasing sectors and writing their headers is not modelled, nor is a sector size without room for data.
- FlashSectors.SectorTable.Remove: takes the slot that was found; the lookup by name and the header writes are not modelled.
- IhexFile.IhexFile.DecodeChunk: after a call that fails only `Valid` is stated; the upload ends with an error then.
- IhexRuns.ArrivalIndependence: a call that fails has no step; the upload ends with an error then.
- HexPipe.RunWritesFile: a call that fails, or an enqueue error, has no step, nor has the offer of a chunk that crosses the end of the decoded ring, where the target would read behind the buffer (`HexCrossing` says exactly for which files that is). It is a machine on values; its parts are the specifications that `DfuBinaryFile` and `IhexFile` refine.
- HexCrossing.FileCrossesExactly: takes files whose addresses do not go on from the last 32-bit address to the first; `RunCrossesExactly` takes all.
- BinaryFile.DfuBinaryFile.constructor: takes ring, page and slot counts that are powers of two, and a page that fits the decoded buffer. The source refuses only a page that does not fit; `RoundedSizeUsable` says what other page sizes lead to.
- BinaryFile.DfuBinaryFile.OnIdle: a target that refuses a chunk (a negative `chunk_available`) is not modelled, nor is the state after an error return.
- BinaryFile.DfuBinaryFile.AppendData: the counter `tot_appended` is not modelled.
- Completion.CompletesExactly: says that a run to the end exists, from states with room (`Room`) and with slots for the ring; that a target answers in time is not modelled.
- HexPipe.ReallyWrittenExactly: that an Intel HEX upload can be completed is shown for the decoder alone (`IhexPrinter.CanBeRead`).
- Timeouts.RunRefines: a timer is set only while it is not queued, since the source stores it twice otherwise; times are integers without wrap-around; callbacks do not change the queue; the trigger on a host's timeout event (`src/dfu.c:281-285`) is not modelled.
- Timeouts.TimeoutQueue.ShiftRight: moves the slots above the given one; the source also copies the slot below into it, which is overwritten at once (`src/dfu.c:148`), and for slot 0 reads outside the array.
- PicoHttpParser.ParseInt: unbounded, where the source's `int` can overflow.
- PicoHttpParser.PhrParseRequest: out-parameters are given only for a success. Whether plain `char` is signed is a parameter.
- ChunkedDecoder.PhrChunkedDecoder.Decode: the width of `size_t` is a parameter.
- WriteChunks.EnqueueTiles: addresses are unbounded when a chunk is compared with the next bytes; a chunk that ends at 2^32 is not taken for contiguous with address 0.
- The two classes for `struct dfu_binary_file`: the raw binary class and the Intel HEX class share its rings but not its chunks; `HexPipe` joins them on values.
- Targets, interfaces, hosts, the Arduino and lwIP servers, samples and logging: input and output.
- `src/binary-format-nordic-zip.c`, `jsmn_scan_tokens` and `jsmn_search_token`: traversal by static schemas.
- The Intel HEX checksum: `_check_line` is a stub.
- Format probing and the receive timeout: parameters, or not modelled.
- SSE4.2 scanning, the response parser and the entry point for headers alone.
- Routing of HTTP requests.
