# subtitles-ai-ocr, modelled in Dafny

This project models the core of subtitles-ai-ocr. The tool takes the bitmap
subtitles of a PGS (Blu-ray) stream and sends each image to a vision language
model through an OpenAI-compatible chat completions API. It writes the
recognised text out as a SubRip (`.srt`) file. The model covers these parts:

- **PGS pairing** (`Pgs`). `ParsePGSFile` is `Pgs.ParsePgs`. Its callback,
  `Pgs.Step`, is folded (`Pgs.Fold`) over the display sets the PGS parser
  reports. A display set with an image opens a subtitle. The next display set
  without an image closes it at its own start time. An image while a subtitle
  is open, or a clear with none open, stops the parse with an error. The
  parser's own failure, such as a file it cannot open, is an input that comes
  after the display sets it reported.
- **SubRip output** (`Srt`). `SRTTimestamp.String` is `Srt.Timestamp`: it
  prints a duration as `HH:MM:SS,mmm`. `WriteSRT` is `Srt.WriteSrt`. It sends
  four writes per subtitle (`Srt.BlockWrites`): the number, the timing line
  (`Srt.TimingLine`), the text and a blank line. It stops at the first write
  that fails.
- **One recognition request** (`OcrPool`). `encodeImageToDataURL` builds the
  `data:image/png;base64,` URL. `generateOCRBodyRequest` builds a request
  holding the system prompt and one user message: the italic instructions
  when asked for, then the image. `ExtractText` sends it and reads the first
  choice and the usage counts from the reply.
- **The worker pool** of `OCR` in ocr.go (`OcrPool`). `OCR` as written is
  `OcrPool.PoolAsWritten`; `OcrPool.Pool` is its corrected form (see
  "## Findings"). Which jobs are taken is `OcrPool.Dequeued`, and their
  completion is `OcrPool.Complete`. A feeder hands out jobs
  in index order. Each worker takes jobs until its first failure. The
  dequeued jobs complete in any order, and that order is an input. A success
  fills its own slot and adds its token counts. The first failure in
  completion order becomes the error, naming the image counted from 1.
- **The sequential driver** `OCR` in ocrai.go (`OcrSequential.Ocr`). It is a plain
  loop that stops at the first failure. It is proved equal to the pool run
  with one worker whose jobs complete in index order.
- **Batch preparation** (`BatchChunking`). `batchCreateLine` is
  `BatchChunking.CreateLine`, `batchSize` is `BatchChunking.BatchSize`,
  `batchContent.Reader` is `BatchChunking.Reader`, and the packing loop is
  `BatchChunking.Chunk`. `batchCreateLine` builds one JSON
  request line per image, tagged with `strconv.Itoa` of the image's index.
  The lines are packed greedily into batches. A batch holds at most 50 000
  requests. It stays within 200 000 000 bytes, as `batchSize` counts them,
  whenever it holds two or more lines and none of them is empty; a single
  line over that size gets a batch of its own. `Reader` writes
  a batch out as the uploaded file.
- **Batch polling** (`BatchPoll`). The wait loop is `BatchPoll.Wait`, one tick
  of it is `BatchPoll.Tick` (its per-batch loop `BatchPoll.TickFrom`), and the
  deferred cancel pass is `BatchPoll.CancelRequests`. Each tick of the wait loop fetches every
  batch again and acts on a status that changed. The loop ends when all
  batches are completed, when one fails, expires or is cancelled, or when the
  context ends. On an error exit, a deferred pass sends a cancel request to
  every batch that may still be running. The modelled tick is the corrected
  one: a failed fetch keeps the batch's last seen status, where the code
  stores nil (see "## Findings").
- **Result demultiplexing** (`BatchDemux`). The result loop is
  `BatchDemux.ReadResults`, one result file `BatchDemux.ApplyFile` and one of
  its lines `BatchDemux.ApplyLine`. Each line of each result file is
  decoded. Its `custom_id` is read back with `strconv.Atoi` and names the slot
  the answer fills. The token counts are summed.

Support modules: `Outcomes` (`Option`, `Result`, and `MapUntilFailure`, a loop
that returns on its first error); `Decimal` (`strconv.Itoa` as `Decimal.Itoa`,
`strconv.Atoi` as `Decimal.Atoi`, and `fmt`'s `%0Nd` as `Decimal.PadZeros`,
on 64-bit integers); `Sequences` (concatenation, sums over
sequences, sums under permutation); `Media` (durations in nanoseconds,
images); `ChatApi` (the request and reply shapes of the chat completions API).

Remote calls, PNG and base64 encoding, JSON and the clock are not part of the
model. Their outcomes are parameters:
- `png` is the base64 text of the encoded image, or the encoder's error, and
  `encode` maps an image to it;
- `server` is the chat completions endpoint: it maps a request to the
  server's answer or the call's error;
- `outcomes[i]` is what recognising image `i` gives. `RecognisedBy` and
  `RecognisedSequentiallyBy` tie it to `ExtractText` of that image's request;
- `marshal` is the JSON encoder;
- a `GetReply` per batch per tick stands for `Batches.Get`;
- a `ResultFile` per batch is its decoded result lines;
- `fault` is the write the SubRip writer rejects, with how many of its characters got through before the error.

Behaviours of the code worth noting:
- A result line whose tag is outside `0 .. n-1` indexes the slice out of
  range, which is a run-time panic. It is not a reported parse error, and the
  model records it as the outcome `PanicSlotOutOfRange`.
- A tag that appears twice is not rejected: the later answer overwrites the
  earlier one.
- An unrecognised batch status is logged and the wait goes on. It does not
  end the wait.
- The cancel pass skips exactly Failed, Completed, Cancelling and Cancelled.
  An Expired batch or one with an unrecognised status still gets a cancel
  request.

## Model

| member | source | states |
|---|---|---|
| Pgs.FoldOfAlternating | pgs.go:20-45 | On display sets that alternate image, clear, image, clear…, the callback never fails. After them it holds each complete pair as a subtitle shown from the image's time to the clear's time. It keeps the last image open when their count is odd. |
| Pgs.FoldKeepsError | pgs.go:22-39 | Once the callback has returned an error, the display sets after it change nothing. |
| Pgs.FoldSpec | pgs.go:20-45 | For any stream, the callback keeps the pairs of its longest alternating prefix, in order. It fails exactly when some display set comes out of turn, and then names the first one: undecodable, an image while a subtitle is open, or a clear with none open. |
| Pgs.ParsePgsSpec | pgs.go:18-47 | For any stream, `ParsePGSFile` returns the pairs of its longest alternating prefix, in order. The error is nil exactly when the whole stream alternates and the parser itself does not fail. Otherwise it names the first display set out of turn, or, when the stream alternates throughout, the parser's own failure. |
| Pgs.PairEvents | pgs.go:18-47 | Round trip: the display sets that show a list of subtitles pair back into exactly that list. This holds even with a trailing image that no clear follows, which is silently dropped. A parser failure after them keeps every subtitle, and it is then the error. |
| Decimal.PadZeros | srt.go:20 | `%0Nd`: the text is all digits, at least N long, exactly N long when the number has at most N digits, and it reads back as the number. |
| Srt.Fields | srt.go:19-26 | The four fields printed are whole hours, minutes and seconds modulo 60, and milliseconds below 1000. Together they stand for the duration truncated to whole milliseconds. |
| Srt.FieldsUnique | srt.go:19-26 | Any well-formed clock reading of the same milliseconds equals the printed fields, so the printed decomposition is the only one. |
| Srt.ClockTextRoundTrip | srt.go:20 | The `%02d:%02d:%02d,%03d` text of a well-formed reading parses back to the milliseconds it stands for. This holds even when the hours need more than two digits. |
| Srt.TimestampRoundTrip | srt.go:19-26 | Parsing the printed timestamp gives the duration truncated to milliseconds. Nothing beyond that is lost. |
| Srt.TimestampDistinguishesMillis | srt.go:19-26 | Durations with different millisecond counts print differently. |
| Srt.TimingLineRoundTrip | srt.go:36 | The `start --> end` line parses back into both display times, truncated to milliseconds. |
| Srt.Block | srt.go:30-46 | A block is exactly what its four writes spell: number, timing line, text, blank line. |
| Srt.Blocks | srt.go:30-32 | Block `i` is numbered `i + 1`, and there is one block per subtitle, in order. |
| Srt.WrittenBeforeIsPrefix | srt.go:28-49 | Whatever a writer has accepted when a write fails, including the part of the failing write that got through, is a prefix of the whole document. |
| Srt.WriteBlocks | srt.go:30-48 | With no failing write, the output is every block's writes in order. When write `k` fails, the error names `k`, and the output is exactly the whole blocks before it, the earlier parts of its own block and the first `passed` characters of write `k` itself. |
| Srt.WriteSrt | srt.go:28-49 | `WriteSRT`: a nil error with the whole document, or the failing write's error with exactly the text of the earlier writes plus what got through of write `k`, which is always a prefix of the document. |
| OcrPool.EncodeImageToDataUrl | ocr.go:205-212 | It succeeds exactly when PNG encoding succeeds, and the encoder's error is passed through. The URL starts with `data:image/png;base64,`, and the payload read back from it is the encoded image. |
| OcrPool.DataUrlInjective | ocr.go:211 | Different encoded payloads give different data URLs. |
| OcrPool.GenerateOcrBodyRequest | ocr.go:164-203 | It fails exactly when the image cannot be encoded, wrapping that error. Otherwise the request names the model and holds the system prompt, then one user message. That message is the italic prompt (only when `italic` is set) followed by the image URL, whose payload is the image. |
| OcrPool.ExtractText | ocr.go:145-162 | An encoding failure is reported as such. Otherwise the result follows the server's answer to the built request: its error is reported as a completion failure, and a success returns the answer's first choice and usage counts. |
| OcrPool.Dequeued | ocr.go:91-119 | The jobs taken from the queue: each was taken while fewer than `workers` jobs before it had failed. Taking stops early only when `workers` failures have made every worker leave. The count never passes the point where the feeder stopped. |
| OcrPool.CompleteSlots | ocr.go:114-127 | Slot `j` holds image `j`'s times and text exactly when job `j` completed and succeeded. Every other slot keeps Go's zero value. |
| OcrPool.CompleteError | ocr.go:114-119 | The group's error is nil exactly when every completed job succeeded. Otherwise it is the first failure in completion order, naming the image counted from 1. |
| OcrPool.CompleteTotals | ocr.go:125-127 | The token totals and the progress count sum the completed jobs' successes. |
| OcrPool.PlacementIndependentOfOrder | ocr.go:105-136 | Whatever the completion order, slot `j` is filled exactly when job `j` was dequeued and succeeded. The totals and the progress are sums over the dequeued jobs in index order. |
| OcrPool.AllFilledWithoutFailure | ocr.go:91-142 | With at least one worker, a feeder that runs to the end and no failing job, the error is nil and every slot holds its own image's result. |
| OcrPool.NoWorkersNoResults | ocr.go:105-142 | With no worker, nothing is recognised: as written the error is nil, the progress is 0 and every slot is empty. The corrected pool reports `NoWorkers` when there is any image. |
| OcrPool.OthersKeepDraining | ocr.go:114-119 | A failing worker leaves, but with two or more workers a single failure still lets every job be dequeued. |
| OcrPool.Pool | ocr.go:137-142 | The corrected pool: a nil error implies the feeder handed out every job and there was a worker to take them. Slots, totals, progress and any worker error are those of the pool as written. |
| OcrPool.NilErrorMeansAllFilled | ocr.go:137-142 | In the corrected pool, a nil error means every image was recognised and every slot holds its own result. |
| OcrPool.NilErrorSlotsHoldServerText | ocr.go:114-162 | When each outcome is `ExtractText` of its image, a nil error from the corrected pool means every image was encoded and answered, and slot `j` holds the first choice of the server's answer to image `j`'s own request. |
| OcrPool.EarlyStopLosesSlotsAsWritten | ocr.go:93-101 | As written, a context that ends while the feeder waits gives a nil error with a slot left empty. The example has two images, one worker and a feeder stopping after the first. |
| OcrSequential.SequentialRequest | ocrai.go:82-115 | It fails exactly when the image cannot be encoded. Otherwise the request is the short system prompt, then one user message holding only the image URL, whose payload is the image. |
| OcrSequential.SequentialExtract | ocrai.go:82-124 | An encoding failure is reported as such. Otherwise the result follows the server's answer to the built request: its error is reported as a completion failure, and a success returns the answer's first choice and usage counts. |
| OcrSequential.Ocr | ocrai.go:56-79 | Let `k` be the first failing image. Slots before `k` hold their results and the rest stay empty. The error is nil exactly when no image fails, and otherwise names image `k + 1`. Exactly `k + 1` recognitions are asked for (all of them when none fails). The totals sum the images before `k`. |
| OcrSequential.SequentialTextFromServer | ocrai.go:62-124 | When each outcome is `SequentialExtract` of its image, the slots the loop fills hold the first choice of the server's answer to that image's request. The failure that stops the loop is that image's encoder error or server error. |
| OcrSequential.SequentialIsSingleWorker | ocrai.go:62-78 | The sequential loop gives the same slots, failing image and cause, totals and progress as the worker pool with one worker whose jobs complete in index order. |
| BatchChunking.ReaderSize | ocr_batch.go:324-332 | The size `batchSize` reports for a batch is the length of the file its reader writes. |
| BatchChunking.BatchSizeStep | ocr_batch.go:324-332 | For a non-empty line, the size checked before appending it, `batchSize(batch, line)`, is the size of the batch once it holds the line. |
| BatchChunking.SplitReader | ocr_batch.go:28-40 | Round trip: a batch file read back line by line gives the batch, because request lines hold no raw newline. |
| BatchChunking.Chunk | ocr_batch.go:43-62 | The batches hold every line in order, with nothing lost or repeated. Only the first batch may be empty. A line joins the open batch exactly when the batch stays within both limits. A batch is closed only when the next line does not fit. |
| BatchChunking.ChunksRespectLimits | ocr_batch.go:52-60 | No batch holds more than the request limit. Among non-empty lines, every batch of two or more lines stays within the size limit. With a positive size limit, a single line larger than the limit gets a batch of its own: no line joined it, and it joined none. |
| BatchChunking.ChunkExample | ocr_batch.go:43-62 | With two requests per batch, five lines are packed as 2, 2 and 1. |
| BatchChunking.ChunkEdges | ocr_batch.go:45-62 | No images give one empty batch. A first line larger than the size limit leaves the first batch empty and opens a second. |
| BatchChunking.CreateLine | ocr_batch.go:341-361 | An encoding failure or a marshalling failure is reported as such. Otherwise the line is the JSON of a POST to `/v1/chat/completions`, tagged with the decimal index and carrying the OCR request body. |
| BatchChunking.TagNamesImage | ocr_batch.go:350 | `strconv.Atoi` of a request's tag gives back the image index, and tags of different images differ. |
| BatchChunking.CreateLines | ocr_batch.go:47-51 | On success there is one line per image, each built for its own index. On failure the error names the first image, counted from 0, whose line could not be built. |
| BatchChunking.PrepareBatches | ocr_batch.go:43-62 | The batches exist exactly when every line was built. They are then a greedy packing whose concatenation is the lines in image order. |
| BatchPoll.WireRoundTrip | ocr_batch.go:210-236 | Every status text reads back unchanged. It is unrecognised exactly when it is none of the eight known statuses. |
| BatchPoll.StatusRoundTrip | ocr_batch.go:210-236 | Every status reads back as itself from its text. |
| BatchPoll.StatusStep | ocr_batch.go:210-237 | The wait ends with an error exactly on Failed, Expired and Cancelled. It checks for completion exactly on Completed, and otherwise goes on waiting, including on an unrecognised status. |
| BatchPoll.Initial | ocr_batch.go:171 | The first state satisfies the invariant every tick keeps: no batch has been acted on as Completed, since every acted-on status starts as Go's zero status. |
| BatchPoll.TickDoneMeansAllCompleted | ocr_batch.go:238-247 | A tick ends the wait normally only when every batch's last fetched status is Completed. |
| BatchPoll.TickAbortCause | ocr_batch.go:197-237 | Of the corrected tick, which keeps the last seen status on a failed fetch: a tick aborts on the first failed fetch, or on a batch whose status newly became Failed, Expired or Cancelled. Every batch before it was fetched. |
| BatchPoll.TickKeepsConsistent | ocr_batch.go:202-209 | A tick preserves this invariant: a batch acted on as Completed still shows Completed. |
| BatchPoll.CompletedRepliesFinish | ocr_batch.go:223-247 | When every fetch returns Completed and some batch was not yet acted on as completed, the tick ends the wait. |
| BatchPoll.WaitingTick | ocr_batch.go:202-236 | When every fetched status keeps waiting, the tick records each one as both fetched and acted on, and goes on waiting. |
| BatchPoll.ContextEndedOnlyOnContextDone | ocr_batch.go:249-251 | When the context ends, the wait stops at once with the context's error. That error is reported only when the context did end. |
| BatchPoll.FinishedMeansAllCompleted | ocr_batch.go:193-253 | The wait loop exits normally only when every batch is completed. |
| BatchPoll.Running | ocr_batch.go:178-190 | The batches that get a cancel request, in index order, are exactly those whose status is not Failed, Completed, Cancelling or Cancelled, with statuses as the corrected tick leaves them. |
| BatchPoll.CancelRequests | ocr_batch.go:172-192 | No cancel request is sent on success. On an error exit from the wait loop, exactly the running batches get one, with statuses as the corrected tick leaves them. |
| BatchPoll.CancelAfterFinishedIsEmpty | ocr_batch.go:172-192 | An error after the wait finished (while reading results) cancels nothing. |
| BatchPoll.GetFailureKeepsLastSeen | ocr_batch.go:198-201 | In the corrected tick, a failed fetch ends the wait and keeps the batch's last seen status. That batch is cancelled exactly when that status says it may be running. |
| BatchPoll.StoreReplyAsWritten | ocr_batch.go:198 | As written, the slot of a failed fetch becomes nil, and no other slot changes. |
| BatchPoll.GetFailureBreaksCancelPassAsWritten | ocr_batch.go:178-201 | As written, any failed fetch leaves a nil batch for the deferred cancel pass to dereference. |
| Decimal.AtoiItoa | ocr_batch.go:291 | For every 64-bit integer, `strconv.Atoi` of `strconv.Itoa` gives the number back, and the text is canonical. |
| Decimal.ItoaAtoi | ocr_batch.go:291 | A canonical decimal text that `strconv.Atoi` accepts is printed back unchanged. |
| BatchDemux.ApplyLinesStops | ocr_batch.go:284-308 | A result file's lines are read to the end exactly when each decodes, carries an integer tag inside the slice, and has a choice. |
| BatchDemux.ApplyLinesEffect | ocr_batch.go:284-308 | Read to the end, each slot holds the last answer tagged with its index, or what it held before, and the token counts of all lines are added. |
| BatchDemux.ApplyFileSpec | ocr_batch.go:274-313 | One result file is read without error exactly when it was fetched, scanned to its end and every line is usable. Its lines then take effect as above. |
| BatchDemux.ReadResultsStops | ocr_batch.go:274-313 | All result files are read without error exactly when every one is clean. |
| BatchDemux.ReadResultsEffect | ocr_batch.go:269-313 | After clean files, slot `i` holds the last answer tagged `i` across all files, or the zero value, and the totals are the sums over all answers. |
| BatchDemux.ReadResultsSpec | ocr_batch.go:269-315 | The two above together: no error exactly when clean, and then the slots and totals as stated. |
| BatchDemux.ResultsRoundTrip | ocr_batch.go:291-301 | Round trip with the request tags: when the result files hold exactly the answers tagged `Itoa(i)`, in any order and split across files in any way, every slot gets its own image's times and first choice. The totals are those of all answers. |

## Left out

- The UTF-8 byte-order mark that `WriteSRT`'s encoder adds: it is library code, and the model works on the text it wraps.
- PNG encoding, base64, JSON encoding and decoding, and the HTTP calls are library or remote code. Their outcomes are parameters of the model.
- `OCRBatched`'s file upload and batch creation steps (ocr_batch.go:85-127) are remote calls that stop at the first error. The two deferred deletion passes, of the uploaded request files (ocr_batch.go:69-84) and of the result files (ocr_batch.go:256-268), log each failure and go on to the next file; they change neither the subtitles nor the returned error. None of these steps is modelled, and the model starts from the batches' fetched statuses and result files. Downloading a result file is modelled: its failure is `ContentFailed`.
- The 24-hour completion window, the one-minute ticker and the deadline shown to the user are clock values. The wait loop is modelled over a sequence of events.
- The progress bars, debug prints and the final token log are display-only. A failure to start the progress display is an error exit of both OCR drivers before any image is recognised (ocr.go:61-64, ocrai.go:26-29); OcrPool.PoolAsWritten, OcrPool.Pool and OcrSequential.Ocr start after that point and cannot return it.
- OcrPool.Pool: this and OcrPool.PoolAsWritten take `workers` as a natural number. A negative `nbWorkers` makes `for range nbWorkers` (ocr.go:105) start no worker, exactly as 0 does, so it is the zero-worker case that OcrPool.NoWorkersNoResults covers.
- Srt.WriteSrt: this and Srt.WriteBlocks take the UTF-8 byte-order-mark encoder to pass each write straight on to the output. A short write is modelled by the number of characters that got through, not bytes; any buffering, splitting or delay of writes inside the encoder's `transform.Writer` is not modelled.
- Pgs.ParsePgsSpec: the PGS parser library is not part of this model. The model takes it to report display sets in stream order, to stop at the callback's first error and return that error unchanged, and to report its own failure, if any, only after the display sets it delivered. A parser that wrapped the callback's error, or went on after it, is not modelled.
- Goroutines, channels and atomics in `OCR`: the pool is modelled by which jobs are dequeued and an arbitrary completion order. The exact interleaving of the feeder is abstracted to the number of jobs it handed out before the context ended (`limit`).
- Token totals are unbounded integers. The `int64` sums of the source would wrap only past 2^63 tokens.
- Durations are non-negative. A negative duration would print with Go's truncating division, which is not modelled.
- Strings are sequences of characters, and a line's length is counted as one byte per character. Request lines are ASCII JSON.
- `bufio.Scanner`'s 64 KiB line limit is not modelled separately: it shows up as the scanner's error of a result file.
- `strconv.Atoi` distinguishes a syntax error from a range error. The model only says whether parsing failed.
- BatchChunking.ChunksRespectLimits: the size limit is stated only for batches of non-empty lines with two lines or more. The source's greedy check lets a single oversized line form its own batch, and `batchSize` skips an empty line's own byte, so an empty line can push a batch one byte past the limit. That an oversized line is alone in its batch is stated only for a size limit of at least 1: with a limit of 0 an empty line is over it, yet it can still join a batch because `batchSize` skips it.
- OcrPool.ExtractText: a successful answer from the server must carry at least one choice. Without one the source indexes `Choices[0]` out of range and the process panics, which is not an outcome the pool can report.
- OcrSequential.SequentialExtract: the same requirement of at least one choice, for the same reason.
- BatchPoll.CancelRequests: covers only error exits from the wait loop. An error from scheduling a batch (ocr_batch.go:119-121) or from starting the progress display (ocr_batch.go:135-137) returns before the cancel pass is deferred at ocr_batch.go:172, so batches already scheduled get no cancel request at all. The model starts from the scheduled batches and does not model those exits.
- BatchPoll.TickAbortCause: describes the corrected tick. As written, a failed fetch stores nil as the batch (ocr_batch.go:198), and the deferred cancel pass then reads that nil batch's status (ocr_batch.go:179). This is shown by BatchPoll.GetFailureBreaksCancelPassAsWritten under "## Findings".
- main.go and vobsub.go (the command line, the output file and the VobSub reader) are not part of this model.

## Findings

| source | as written | input that shows it | evidently intended | confidence | as-written member | corrected member |
|---|---|---|---|---|---|---|
| ocr.go:93-101, 137-142 | When the caller's context ends, the feeder closes the job queue early. Workers that find it closed return nil, so `OCR` returns a nil error with slots never filled. A caller that writes on a nil error, as main.go:113-121 does, would write the incomplete file. | Two images, one worker. The first recognition succeeds, and the context ends before the feeder hands out the second. | `OCR` reports the context's error when not every image was handed out. The corrected pool also reports `NoWorkers` when `nbWorkers` is 0 and there are images, the other way `OCR` returns a nil error with every slot empty (OcrPool.NoWorkersNoResults). | not executed | OcrPool.EarlyStopLosesSlotsAsWritten | OcrPool.NilErrorMeansAllFilled |
| ocr_batch.go:198-201, 178-179 | `scheduledBatches[i], err = client.Batches.Get(...)` stores the nil result of a failed fetch. The deferred cancel pass then reads `batch.Status` through that nil pointer. | Any tick in which one `Batches.Get` call fails, for example from a network error. | Keep the batch's last fetched value when the fetch fails, so the cancel pass still sees it. | not executed | BatchPoll.GetFailureBreaksCancelPassAsWritten | BatchPoll.GetFailureKeepsLastSeen |
