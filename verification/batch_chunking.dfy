/**
 Preparing the input of the batch API (ocr_batch.go): one JSON request line
 per image, tagged with the image's index, packed greedily into batch files
 that respect the API's request-count and byte-size limits.
 BatchChunking, BatchPoll and BatchDemux together model `OCRBatched`, one
 stage each, and all three cite ocr_batch.go.

 A line's length is its length in bytes: the lines are JSON documents, and
 the model treats each character as one byte.
 */
module BatchChunking {
  import opened Outcomes
  import opened Sequences
  import opened ChatApi
  import opened Decimal
  import OcrPool

  /** The two limits of one batch: its number of request lines and its size in bytes. */
  datatype Limits = Limits(maxRequests: nat, maxSize: int)

  /** The limits the batch API imposes: 50 000 requests and 200 MB per batch. */
  const SourceLimits: Limits := Limits(50_000, 200_000_000)

  // ---------------------------------------------------------------------------
  // Batch files.

  /** The bytes one line takes in a batch file: the line and its newline. */
  function LineBytes(line: string): int {
    |line| + 1
  }

  /** `batchSize`: the bytes of `batch`, plus those of `newLine` unless it is empty. */
  function BatchSize(batch: seq<string>, newLine: string): int {
    SumOver(batch, LineBytes) + if newLine == "" then 0 else LineBytes(newLine)
  }

  /** `batchContent.Reader`: the file uploaded for a batch, every line followed by a newline. */
  function Reader(batch: seq<string>): string {
    if |batch| == 0 then "" else Reader(batch[..|batch| - 1]) + batch[|batch| - 1] + "\n"
  }

  /** The size `batchSize` reports for a batch is the size of the file its reader produces. */
  lemma {:induction false} ReaderSize(batch: seq<string>)
    ensures |Reader(batch)| == BatchSize(batch, "")
  {
    if |batch| > 0 {
      ReaderSize(batch[..|batch| - 1]);
    }
  }

  predicate NoNewline(line: string) {
    forall i :: 0 <= i < |line| ==> line[i] != '\n'
  }

  /** Where the last line of `body` starts: just after its last newline, or 0. */
  function LineStart(body: string): (k: nat)
    ensures k <= |body|
    ensures NoNewline(body[k..])
    ensures k > 0 ==> body[k - 1] == '\n'
  {
    if |body| == 0 || body[|body| - 1] == '\n' then |body|
    else
      var k := LineStart(body[..|body| - 1]);
      assert body[k..] == body[..|body| - 1][k..] + [body[|body| - 1]];
      k
  }

  /** The lines of a text whose every line is terminated by a newline. */
  function SplitLines(text: string): seq<string>
    decreases |text|
  {
    if |text| == 0 then []
    else
      var body := text[..|text| - 1];
      var k := LineStart(body);
      SplitLines(body[..k]) + [body[k..]]
  }

  lemma {:induction false} LineStartAfter(before: string, line: string)
    requires |before| == 0 || before[|before| - 1] == '\n'
    requires NoNewline(line)
    ensures LineStart(before + line) == |before|
    decreases |line|
  {
    if |line| > 0 {
      var shorter := line[..|line| - 1];
      assert (before + line)[..|before + line| - 1] == before + shorter;
      LineStartAfter(before, shorter);
    } else {
      assert before + line == before;
    }
  }

  /** A batch file read back line by line gives the batch: the lines are JSON documents, which hold no raw newline. */
  lemma {:induction false} SplitReader(batch: seq<string>)
    requires forall i :: 0 <= i < |batch| ==> NoNewline(batch[i])
    ensures SplitLines(Reader(batch)) == batch
  {
    if |batch| > 0 {
      var init, line := batch[..|batch| - 1], batch[|batch| - 1];
      SplitReader(init);
      ReaderEndsLine(init);
      SplitLinesSnoc(Reader(init), line);
      assert batch == init + [line];
    }
  }

  lemma ReaderEndsLine(batch: seq<string>)
    ensures |Reader(batch)| == 0 || Reader(batch)[|Reader(batch)| - 1] == '\n'
  {
  }

  /** Reading back a text that ends a line, followed by one more line, gives one more line. */
  lemma SplitLinesSnoc(before: string, line: string)
    requires |before| == 0 || before[|before| - 1] == '\n'
    requires NoNewline(line)
    ensures SplitLines(before + line + "\n") == SplitLines(before) + [line]
  {
    var text := before + line + "\n";
    var body := text[..|text| - 1];
    assert body == before + line;
    LineStartAfter(before, line);
    assert body[..|before|] == before;
    assert body[|before|..] == line;
  }

  // ---------------------------------------------------------------------------
  // Greedy packing.

  /** Whether `line` may still join `batch`: the batch stays within the size and has room for one more request. */
  predicate Fits(batch: seq<string>, line: string, lim: Limits) {
    BatchSize(batch, line) <= lim.maxSize && |batch| < lim.maxRequests
  }

  /** Every line joined its batch because it fitted; the first line of a later batch (and of the first, unless `first`) opens it without a check. */
  predicate JoinedWhenFitting(batches: seq<seq<string>>, lim: Limits, first: bool) {
    forall b, j :: 0 <= b < |batches| && 0 <= j < |batches[b]| && (j > 0 || (b == 0 && first)) ==>
      Fits(batches[b][..j], batches[b][j], lim)
  }

  /** Every later batch opens with a line that did not fit into the batch before it. */
  predicate OpenedWhenFull(batches: seq<seq<string>>, lim: Limits)
    requires forall b :: 1 <= b < |batches| ==> |batches[b]| >= 1
  {
    forall b :: 0 <= b < |batches| - 1 ==> !Fits(batches[b], batches[b + 1][0], lim)
  }

  /** The batches are a greedy packing: only the first may be empty, lines join while they fit, and a batch is closed only when the next line does not fit. */
  predicate Greedy(batches: seq<seq<string>>, lim: Limits) {
    && (forall b :: 1 <= b < |batches| ==> |batches[b]| >= 1)
    && JoinedWhenFitting(batches, lim, true)
    && OpenedWhenFull(batches, lim)
  }

  /** The packing loop, continuing with the open batch `current` and the lines still to place. */
  function ChunkFrom(current: seq<string>, rest: seq<string>, lim: Limits): (batches: seq<seq<string>>)
    ensures |batches| >= 1 && current <= batches[0]
    ensures Concat(batches) == current + rest
    ensures forall b :: 1 <= b < |batches| ==> |batches[b]| >= 1
    decreases |rest|
  {
    if |rest| == 0 then
      ConcatSingle(current);
      [current]
    else if BatchSize(current, rest[0]) > lim.maxSize || |current| >= lim.maxRequests then
      var tail := ChunkFrom([rest[0]], rest[1..], lim);
      ConcatCons(current, tail);
      assert current + ([rest[0]] + rest[1..]) == current + rest;
      [current] + tail
    else
      var grown := current + [rest[0]];
      assert grown + rest[1..] == current + rest;
      ChunkFrom(grown, rest[1..], lim)
  }

  /** Every line placed by the loop fitted into its batch, except the one that opens a new batch. */
  lemma {:induction false} ChunkFromFits(current: seq<string>, rest: seq<string>, lim: Limits, first: bool)
    requires JoinedWhenFitting([current], lim, first)
    ensures JoinedWhenFitting(ChunkFrom(current, rest, lim), lim, first)
    decreases |rest|
  {
    if |rest| == 0 {
    } else if BatchSize(current, rest[0]) > lim.maxSize || |current| >= lim.maxRequests {
      var tail := ChunkFrom([rest[0]], rest[1..], lim);
      ChunkFromFits([rest[0]], rest[1..], lim, false);
      var batches := [current] + tail;
      assert ChunkFrom(current, rest, lim) == batches;
      forall b, j | 0 <= b < |batches| && 0 <= j < |batches[b]| && (j > 0 || (b == 0 && first))
        ensures Fits(batches[b][..j], batches[b][j], lim)
      {
        if b > 0 {
          assert batches[b] == tail[b - 1];
        }
      }
    } else {
      var grown := current + [rest[0]];
      forall j | 0 <= j < |grown| && (j > 0 || first)
        ensures Fits(grown[..j], grown[j], lim)
      {
        if j < |current| {
          assert grown[..j] == current[..j] && [current][0] == current;
        } else {
          assert grown[..j] == current;
        }
      }
      assert [grown][0] == grown;
      ChunkFromFits(grown, rest[1..], lim, first);
    }
  }

  /** Every batch after the first opens with a line that did not fit into the batch before it. */
  lemma {:induction false} ChunkFromBreaks(current: seq<string>, rest: seq<string>, lim: Limits)
    ensures OpenedWhenFull(ChunkFrom(current, rest, lim), lim)
    decreases |rest|
  {
    if |rest| == 0 {
    } else if BatchSize(current, rest[0]) > lim.maxSize || |current| >= lim.maxRequests {
      var tail := ChunkFrom([rest[0]], rest[1..], lim);
      ChunkFromBreaks([rest[0]], rest[1..], lim);
      var batches := [current] + tail;
      assert ChunkFrom(current, rest, lim) == batches;
      assert tail[0][0] == rest[0];
      forall b | 0 <= b < |batches| - 1
        ensures !Fits(batches[b], batches[b + 1][0], lim)
      {
        if b > 0 {
          assert batches[b] == tail[b - 1] && batches[b + 1] == tail[b];
        }
      }
    } else {
      ChunkFromBreaks(current + [rest[0]], rest[1..], lim);
    }
  }

  lemma ConcatSingle<T>(x: seq<T>)
    ensures Concat([x]) == x
  {
    assert [x][..0] == [];
  }

  lemma ConcatCons<T>(x: seq<T>, xs: seq<seq<T>>)
    ensures Concat([x] + xs) == x + Concat(xs)
  {
    ConcatAppend([x], xs);
    ConcatSingle(x);
  }

  /** The batches `OCRBatched` builds from its request lines. */
  function Chunk(lines: seq<string>, lim: Limits): (batches: seq<seq<string>>)
    ensures |batches| >= 1
    ensures Concat(batches) == lines
    ensures Greedy(batches, lim)
  {
    var batches := ChunkFrom([], lines, lim);
    ChunkFromFits([], lines, lim, true);
    ChunkFromBreaks([], lines, lim);
    assert Greedy(batches, lim);
    batches
  }

  lemma BatchSizeStep(batch: seq<string>, j: nat)
    requires j < |batch| && batch[j] != ""
    ensures BatchSize(batch[..j + 1], "") == BatchSize(batch[..j], batch[j])
  {
    assert batch[..j + 1][..j] == batch[..j];
  }

  /** A batch holds at least one byte per line. */
  lemma {:induction false} SizeAtLeastCount(batch: seq<string>)
    ensures SumOver(batch, LineBytes) >= |batch|
  {
    if |batch| > 0 {
      SizeAtLeastCount(batch[..|batch| - 1]);
    }
  }

  /**
   In a greedy packing with a positive size limit, a line larger than the
   limit never joined a batch and nothing joined it: it is alone in its batch.
   */
  lemma OversizedLineAlone(batches: seq<seq<string>>, lim: Limits, b: nat, j: nat)
    requires Greedy(batches, lim) && lim.maxSize >= 1
    requires b < |batches| && j < |batches[b]| && LineBytes(batches[b][j]) > lim.maxSize
    ensures batches[b] == [batches[b][j]]
  {
    var batch := batches[b];
    if j > 0 || b == 0 {
      assert Fits(batch[..j], batch[j], lim);
      SizeAtLeastCount(batch[..j]);
      assert false;
    }
    if |batch| >= 2 {
      assert Fits(batch[..1], batch[1], lim);
      assert batch[..1] == [batch[0]];
      SumOverSingle(batch[0], LineBytes);
      assert false;
    }
  }

  /**
   With at least one request allowed per batch, no batch holds too many
   requests; and when no line is empty, every batch of two lines or more
   stays within the size limit. With a positive size limit, a single line
   larger than the limit gets a batch of its own.
   */
  lemma ChunksRespectLimits(lines: seq<string>, lim: Limits)
    requires lim.maxRequests >= 1
    ensures var batches := Chunk(lines, lim);
      forall b :: 0 <= b < |batches| ==> |batches[b]| <= lim.maxRequests
    ensures (forall i :: 0 <= i < |lines| ==> lines[i] != "") ==>
      var batches := Chunk(lines, lim);
      forall b :: 0 <= b < |batches| && |batches[b]| >= 2 ==> BatchSize(batches[b], "") <= lim.maxSize
    ensures lim.maxSize >= 1 ==>
      var batches := Chunk(lines, lim);
      forall b, j :: 0 <= b < |batches| && 0 <= j < |batches[b]| && LineBytes(batches[b][j]) > lim.maxSize ==>
        batches[b] == [batches[b][j]]
  {
    var batches := Chunk(lines, lim);
    if lim.maxSize >= 1 {
      forall b, j | 0 <= b < |batches| && 0 <= j < |batches[b]| && LineBytes(batches[b][j]) > lim.maxSize
        ensures batches[b] == [batches[b][j]]
      {
        OversizedLineAlone(batches, lim, b, j);
      }
    }
    forall b | 0 <= b < |batches| && |batches[b]| >= 2
      ensures |batches[b]| <= lim.maxRequests
    {
      var j := |batches[b]| - 1;
      assert Fits(batches[b][..j], batches[b][j], lim);
    }
    if forall i :: 0 <= i < |lines| ==> lines[i] != "" {
      forall b | 0 <= b < |batches| && |batches[b]| >= 2
        ensures BatchSize(batches[b], "") <= lim.maxSize
      {
        var batch := batches[b];
        var j := |batch| - 1;
        assert Fits(batch[..j], batch[j], lim);
        ConcatMember(batches, b, j);
        BatchSizeStep(batch, j);
        assert batch[..j + 1] == batch;
      }
    }
  }

  /** Every element of every batch is one of the lines. */
  lemma {:induction false} ConcatMember<T>(xss: seq<seq<T>>, b: nat, j: nat)
    requires b < |xss| && j < |xss[b]|
    ensures xss[b][j] in Concat(xss)
    decreases |xss|
  {
    var init := xss[..|xss| - 1];
    if b < |xss| - 1 {
      ConcatMember(init, b, j);
    }
  }

  /** The three moves of the packing loop. */
  lemma ChunkFromSteps(current: seq<string>, rest: seq<string>, lim: Limits)
    ensures |rest| == 0 ==> ChunkFrom(current, rest, lim) == [current]
    ensures |rest| > 0 && Fits(current, rest[0], lim) ==>
      ChunkFrom(current, rest, lim) == ChunkFrom(current + [rest[0]], rest[1..], lim)
    ensures |rest| > 0 && !Fits(current, rest[0], lim) ==>
      ChunkFrom(current, rest, lim) == [current] + ChunkFrom([rest[0]], rest[1..], lim)
  {
  }

  lemma ChunkStarts(lines: seq<string>, lim: Limits)
    ensures Chunk(lines, lim) == ChunkFrom([], lines, lim)
  {
  }

  lemma ExampleTail(lim: Limits)
    requires lim == Limits(2, 1000)
    ensures ChunkFrom(["c"], ["d", "e"], lim) == [["c", "d"], ["e"]]
  {
    SumOverSingle("c", LineBytes);
    assert Fits(["c"], "d", lim) && !Fits(["c", "d"], "e", lim);
    ChunkFromSteps(["e"], [], lim);
    ChunkFromSteps(["c", "d"], ["e"], lim);
    ChunkFromSteps(["c"], ["d", "e"], lim);
    assert ["c"] + ["d"] == ["c", "d"] && ["d", "e"][1..] == ["e"];
  }

  lemma ExampleHead(lim: Limits)
    requires lim == Limits(2, 1000)
    ensures ChunkFrom([], ["a", "b", "c", "d", "e"], lim) == [["a", "b"]] + ChunkFrom(["c"], ["d", "e"], lim)
  {
    SumOverSingle("a", LineBytes);
    assert Fits([], "a", lim) && Fits(["a"], "b", lim) && !Fits(["a", "b"], "c", lim);
    ChunkFromSteps(["a", "b"], ["c", "d", "e"], lim);
    assert ["c", "d", "e"][1..] == ["d", "e"];
    ChunkFromSteps(["a"], ["b", "c", "d", "e"], lim);
    assert ["a"] + ["b"] == ["a", "b"] && ["b", "c", "d", "e"][1..] == ["c", "d", "e"];
    ChunkFromSteps([], ["a", "b", "c", "d", "e"], lim);
    assert [] + ["a"] == ["a"] && ["a", "b", "c", "d", "e"][1..] == ["b", "c", "d", "e"];
  }

  /** Two requests per batch, five lines: the batches have 2, 2 and 1 lines. */
  lemma ChunkExample()
    ensures Chunk(["a", "b", "c", "d", "e"], Limits(2, 1000)) == [["a", "b"], ["c", "d"], ["e"]]
  {
    var lim := Limits(2, 1000);
    ExampleHead(lim);
    ExampleTail(lim);
    ChunkStarts(["a", "b", "c", "d", "e"], lim);
  }

  /** No input gives one empty batch; a first line larger than the size limit leaves the first batch empty. */
  lemma ChunkEdges(line: string, lim: Limits)
    requires |line| + 1 > lim.maxSize && line != ""
    ensures Chunk([], lim) == [[]]
    ensures Chunk([line], lim) == [[], [line]]
  {
    assert !Fits([], line, lim);
    ChunkFromSteps([], [], lim);
    ChunkFromSteps([], [line], lim);
    ChunkFromSteps([line], [], lim);
    assert [line][1..] == [];
    ChunkStarts([], lim);
    ChunkStarts([line], lim);
  }

  // ---------------------------------------------------------------------------
  // Request lines.

  /** The endpoint every batch request targets. */
  const ChatCompletionsEndpoint: string := "/v1/chat/completions"

  /** `batchLine`: one request of a batch file, before JSON encoding. */
  datatype BatchLine = BatchLine(customId: string, verb: string, url: string, body: ChatRequest)

  /** The request for image `id`: tagged with the decimal text of `id`. */
  function RequestFor(id: nat, body: ChatRequest): BatchLine {
    BatchLine(Itoa(id), "POST", ChatCompletionsEndpoint, body)
  }

  datatype LineError = LineBodyFailed(cause: OcrPool.BodyError) | MarshalFailed

  /**
   `batchCreateLine`. `png` is the base64 text of the image, or the encoder's
   error; `marshal` is the JSON encoder, `None` when it fails.
   */
  function CreateLine(id: nat, model: string, png: Result<string, string>, italic: bool, marshal: BatchLine -> Option<string>): (r: Result<string, LineError>)
    ensures png.Failure? ==> r == Failure(LineBodyFailed(OcrPool.ImageEncodingFailed(png.error)))
    ensures png.Success? ==>
      var req := RequestFor(id, OcrPool.GenerateOcrBodyRequest(png, model, italic).value);
      && (r.Success? <==> marshal(req).Some?)
      && (r.Success? ==> r.value == marshal(req).value)
      && (r.Failure? ==> r.error == MarshalFailed)
  {
    match OcrPool.GenerateOcrBodyRequest(png, model, italic)
    case Failure(e) => Failure(LineBodyFailed(e))
    case Success(body) =>
      match marshal(RequestFor(id, body))
      case None => Failure(MarshalFailed)
      case Some(data) => Success(data)
  }

  /** The tag of a request names the image it was made for, and tags of different images differ. */
  lemma TagNamesImage(id: nat, body: ChatRequest)
    requires id <= MaxInt64
    ensures Atoi(RequestFor(id, body).customId) == Some(id)
    ensures forall other: nat, b: ChatRequest :: other != id ==> RequestFor(other, b).customId != RequestFor(id, body).customId
  {
    AtoiItoa(id);
    forall other: nat, b: ChatRequest | other != id
      ensures RequestFor(other, b).customId != RequestFor(id, body).customId
    {
      ValueOfDigitsOf(other);
      ValueOfDigitsOf(id);
    }
  }

  datatype CreateError = LineFailed(id: nat, cause: LineError)

  /** The request line of every image in turn; the first failure stops the loop and names its 0-based position. */
  function CreateLines(pngs: seq<Result<string, string>>, model: string, italic: bool, marshal: BatchLine -> Option<string>): (r: Result<seq<string>, CreateError>)
    ensures r.Success? ==> |r.value| == |pngs|
    ensures r.Success? ==> forall i :: 0 <= i < |pngs| ==> CreateLine(i, model, pngs[i], italic, marshal) == Success(r.value[i])
    ensures r.Failure? ==>
      var id := r.error.id;
      && id < |pngs|
      && (forall i :: 0 <= i < id ==> CreateLine(i, model, pngs[i], italic, marshal).Success?)
      && CreateLine(id, model, pngs[id], italic, marshal) == Failure(r.error.cause)
  {
    match MapUntilFailure(pngs, (i: nat, png: Result<string, string>) => CreateLine(i, model, png, italic, marshal))
    case Success(lines) => Success(lines)
    case Failure(StepFailure(id, e)) => Failure(LineFailed(id, e))
  }

  /** The front half of `OCRBatched`: every image's request line, packed into batches. */
  function PrepareBatches(pngs: seq<Result<string, string>>, model: string, italic: bool, marshal: BatchLine -> Option<string>, lim: Limits): (r: Result<seq<seq<string>>, CreateError>)
    ensures r.Success? <==> CreateLines(pngs, model, italic, marshal).Success?
    ensures r.Success? ==>
      && Greedy(r.value, lim)
      && |Concat(r.value)| == |pngs|
      && forall i :: 0 <= i < |pngs| ==>
        CreateLine(i, model, pngs[i], italic, marshal) == Success(Concat(r.value)[i])
  {
    var lines :- CreateLines(pngs, model, italic, marshal);
    Success(Chunk(lines, lim))
  }
}
