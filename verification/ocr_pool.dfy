/**
 The worker-pool recognition driver (ocr.go): the request it sends for one
 image, the reply it reads back, and where the results of the workers land.

 Threads are not modelled. A feeder hands out the jobs in index order; each
 worker takes jobs until its first failure. The order in which dequeued jobs
 complete is an arbitrary permutation, given as an input.
 */
module OcrPool {
  import opened Outcomes
  import opened Media
  import opened Sequences
  import opened ChatApi
  import Srt

  const SystemPrompt: string :=
    "Extract the text from the user's input.\n" +
    "Do not use quotes, do not provide comments, and do not add any additional content beyond the extracted text from the image.\n" +
    "Do not reformulate, write the text exactly as it is on the image even if it is an incomplete sentence. Respect the line breaks.\n" +
    "Maintain the original formatting and line breaks without adding extra spaces or line breaks.\n" +
    "If the user input do not contains any text, simply extract the text from the image. Otherwise consider user instruction as additionnal rules to follow."

  const ItalicPrompt: string :=
    "When formatting text, if a single word is in italics, use the following format to mark it:\n" +
    "<i>word</i>\n" +
    "\n" +
    "If multiple consecutive words are in italics, use the following format:\n" +
    "non_italic_word_1 <i>italic_word_1 italic_word_2 ... italic_word_n</i> non_italic_word_2\n" +
    "\n" +
    "If the italic words span on multiples lines, use the following format:\n" +
    "non_italic_word_1 <i>italic_word_1\n" +
    "italic_word_2 ... italic_word_n</i> non_italic_word_2"

  /** The media type and encoding announced in front of every image (a `data:` URL, RFC 2397 section 3). */
  const DataUrlPrefix: string := "data:image/png;base64,"

  // ---------------------------------------------------------------------------
  // One request.

  /**
   `encodeImageToDataURL`. PNG encoding and base64 are library code: `png` is
   their outcome, the base64 text of the encoded image or the encoder's error.
   */
  function EncodeImageToDataUrl(png: Result<string, string>): (r: Result<string, string>)
    ensures r.Success? <==> png.Success?
    ensures r.Success? ==> DataUrlPrefix <= r.value && DataUrlPayload(r.value) == Some(png.value)
    ensures r.Failure? ==> r.error == png.error
  {
    match png
    case Success(b64) =>
      assert (DataUrlPrefix + b64)[|DataUrlPrefix|..] == b64;
      Success(DataUrlPrefix + b64)
    case Failure(e) => Failure(e)
  }

  /** Reads the base64 payload back out of a PNG data URL. */
  function DataUrlPayload(url: string): Option<string> {
    if DataUrlPrefix <= url then Some(url[|DataUrlPrefix|..]) else None
  }

  /** Different images give different URLs, and every URL names the payload it was built from. */
  lemma DataUrlInjective(a: string, b: string)
    requires EncodeImageToDataUrl(Success(a)) == EncodeImageToDataUrl(Success(b))
    ensures a == b
  {
    assert DataUrlPayload(EncodeImageToDataUrl(Success(a)).value) == Some(a);
  }

  datatype BodyError = ImageEncodingFailed(cause: string)

  /**
   The promised request shape: the system prompt, then one user message whose
   parts are the italic instructions (only when `italic` is set) and, last,
   the image.
   */
  predicate WellShaped(req: ChatRequest, model: string, italic: bool) {
    && req.model == model
    && |req.messages| == 2
    && req.messages[0] == SystemMessage(SystemPrompt)
    && req.messages[1].UserMessage?
    && var parts := req.messages[1].parts;
      && |parts| == (if italic then 2 else 1)
      && (italic ==> parts[0] == TextPart(ItalicPrompt))
      && parts[|parts| - 1].ImageUrlPart?
  }

  /** The URL of the image a well-shaped request carries. */
  function ImageUrlOf(req: ChatRequest, model: string, italic: bool): string
    requires WellShaped(req, model, italic)
  {
    var parts := req.messages[1].parts;
    parts[|parts| - 1].url
  }

  /** `generateOCRBodyRequest`. */
  function GenerateOcrBodyRequest(png: Result<string, string>, model: string, italic: bool): (r: Result<ChatRequest, BodyError>)
    ensures r.Success? <==> png.Success?
    ensures png.Failure? ==> r == Failure(ImageEncodingFailed(png.error))
    ensures r.Success? ==>
      && WellShaped(r.value, model, italic)
      && DataUrlPayload(ImageUrlOf(r.value, model, italic)) == Some(png.value)
  {
    match EncodeImageToDataUrl(png)
    case Failure(e) => Failure(ImageEncodingFailed(e))
    case Success(url) =>
      var image := [ImageUrlPart(url)];
      var content := if italic then [TextPart(ItalicPrompt)] + image else image;
      Success(ChatRequest(model, [SystemMessage(SystemPrompt), UserMessage(content)]))
  }

  datatype ExtractError = BodyFailed(cause: BodyError) | CompletionFailed(reason: string)

  /** The chat completions endpoint: its answer to a request, or the error of the call. */
  type Server = ChatRequest -> Result<ChatCompletion, string>

  /**
   When the request for `png` can be built and the server answers it, the
   answer carries at least one choice. Without one the source indexes the
   choices out of range, so such an answer is excluded.
   */
  predicate AnswersWithChoice(png: Result<string, string>, model: string, italic: bool, server: Server) {
    var body := GenerateOcrBodyRequest(png, model, italic);
    body.Success? && server(body.value).Success? ==> |server(body.value).value.choices| >= 1
  }

  /**
   `ExtractText`: build the request, send it to `server`, and read the first
   choice and the usage counts of the answer.
   */
  function ExtractText(png: Result<string, string>, model: string, italic: bool, server: Server): (r: Result<Extraction, ExtractError>)
    requires AnswersWithChoice(png, model, italic, server)
    ensures png.Failure? ==> r == Failure(BodyFailed(ImageEncodingFailed(png.error)))
    ensures png.Success? ==>
      var reply := server(GenerateOcrBodyRequest(png, model, italic).value);
      && (r.Success? <==> reply.Success?)
      && (reply.Failure? ==> r == Failure(CompletionFailed(reply.error)))
      && (reply.Success? ==> r.value == Extraction(reply.value.choices[0], reply.value.promptTokens, reply.value.completionTokens))
  {
    match GenerateOcrBodyRequest(png, model, italic)
    case Failure(e) => Failure(BodyFailed(e))
    case Success(body) =>
      match server(body)
      case Failure(e) => Failure(CompletionFailed(e))
      case Success(c) => Success(Extraction(c.choices[0], c.promptTokens, c.completionTokens))
  }

  // ---------------------------------------------------------------------------
  // Which jobs are dequeued.

  type JobOutcome = Result<Extraction, ExtractError>

  /**
   `outcomes[j]` is what `ExtractText` gives for image `j`, whose PNG encoding
   (or the encoder's error) is `encode` of its bitmap.
   */
  predicate RecognisedBy(imgSubs: seq<ImageSubtitle>, outcomes: seq<JobOutcome>, encode: Bitmap -> Result<string, string>, model: string, italic: bool, server: Server) {
    && |outcomes| == |imgSubs|
    && forall j :: 0 <= j < |imgSubs| ==>
      && AnswersWithChoice(encode(imgSubs[j].image), model, italic, server)
      && outcomes[j] == ExtractText(encode(imgSubs[j].image), model, italic, server)
  }

  /** How many of `outcomes` are failures. */
  function Failures(outcomes: seq<JobOutcome>): (c: nat)
    ensures c <= |outcomes|
  {
    if |outcomes| == 0 then 0
    else Failures(outcomes[..|outcomes| - 1]) + (if outcomes[|outcomes| - 1].Failure? then 1 else 0)
  }

  lemma FailuresStep(outcomes: seq<JobOutcome>, q: nat)
    requires q < |outcomes|
    ensures Failures(outcomes[..q + 1]) == Failures(outcomes[..q]) + (if outcomes[q].Failure? then 1 else 0)
  {
    assert outcomes[..q + 1][..q] == outcomes[..q];
  }

  /**
   How many jobs are taken from the feeder. A worker leaves after its first
   failure, so once `workers` jobs have failed nobody takes the next one; and
   the feeder itself stops before job `limit` when the context ends.
   */
  function Dequeued(outcomes: seq<JobOutcome>, workers: nat, limit: nat): (p: nat)
    requires limit <= |outcomes|
    ensures p <= limit
    ensures forall q :: 0 <= q < p ==> Failures(outcomes[..q]) < workers
    ensures p < limit ==> Failures(outcomes[..p]) == workers
  {
    DequeuedFrom(outcomes, workers, limit, 0)
  }

  function DequeuedFrom(outcomes: seq<JobOutcome>, workers: nat, limit: nat, q: nat): (p: nat)
    requires q <= limit <= |outcomes|
    requires forall j :: 0 <= j < q ==> Failures(outcomes[..j]) < workers
    requires q > 0 ==> Failures(outcomes[..q]) <= workers
    ensures q <= p <= limit
    ensures forall j :: 0 <= j < p ==> Failures(outcomes[..j]) < workers
    ensures p < limit ==> Failures(outcomes[..p]) == workers
    decreases limit - q
  {
    assert outcomes[..0] == [];
    if q == limit || Failures(outcomes[..q]) >= workers then q
    else
      FailuresStep(outcomes, q);
      DequeuedFrom(outcomes, workers, limit, q + 1)
  }

  // ---------------------------------------------------------------------------
  // Where results land.

  /** The completion order is some permutation of the dequeued jobs `0 .. p - 1`. */
  predicate IsCompletionOrder(order: seq<nat>, p: nat) {
    multiset(order) == multiset(Range(p))
  }

  /** The entry a successful job `j` writes. */
  function Filled(imgSubs: seq<ImageSubtitle>, outcomes: seq<JobOutcome>, j: nat): Srt.SrtSubtitle
    requires j < |imgSubs| == |outcomes| && outcomes[j].Success?
  {
    Srt.SrtSubtitle(imgSubs[j].startTime, imgSubs[j].endTime, outcomes[j].value.text)
  }

  function PromptOf(outcomes: seq<JobOutcome>): nat -> int {
    (j: nat) => if j < |outcomes| && outcomes[j].Success? then outcomes[j].value.promptTokens else 0
  }

  function CompletionOf(outcomes: seq<JobOutcome>): nat -> int {
    (j: nat) => if j < |outcomes| && outcomes[j].Success? then outcomes[j].value.completionTokens else 0
  }

  function SuccessOf(outcomes: seq<JobOutcome>): nat -> int {
    (j: nat) => if j < |outcomes| && outcomes[j].Success? then 1 else 0
  }

  datatype PoolError = ImageFailed(image: nat, cause: ExtractError) | ContextEnded | NoWorkers

  /** The result slice, the token totals, the progress bar's count and the error `OCR` returns. */
  datatype PoolRun = PoolRun(slots: seq<Srt.SrtSubtitle>, promptTokens: int, completionTokens: int, progress: int, err: Option<PoolError>)

  /**
   The jobs of `order` completing one after another: a success writes its slot
   and adds its counts; the first failure becomes the group's error, naming the
   image by its position counted from 1.
   */
  function Complete(imgSubs: seq<ImageSubtitle>, outcomes: seq<JobOutcome>, order: seq<nat>): (r: PoolRun)
    requires |outcomes| == |imgSubs|
    requires forall i :: 0 <= i < |order| ==> order[i] < |imgSubs|
    ensures |r.slots| == |imgSubs|
    decreases |order|
  {
    if |order| == 0 then
      PoolRun(seq(|imgSubs|, _ => Srt.ZeroSubtitle), 0, 0, 0, None)
    else
      var j := order[|order| - 1];
      var r := Complete(imgSubs, outcomes, order[..|order| - 1]);
      match outcomes[j]
      case Success(x) =>
        PoolRun(r.slots[j := Filled(imgSubs, outcomes, j)],
                r.promptTokens + x.promptTokens, r.completionTokens + x.completionTokens,
                r.progress + 1, r.err)
      case Failure(e) =>
        if r.err.None? then PoolRun(r.slots, r.promptTokens, r.completionTokens, r.progress, Some(ImageFailed(j + 1, e)))
        else r
  }

  /** Slot `j` holds job `j`'s result exactly when `j` completed and succeeded; every other slot keeps its zero value. */
  lemma {:induction false} CompleteSlots(imgSubs: seq<ImageSubtitle>, outcomes: seq<JobOutcome>, order: seq<nat>)
    requires |outcomes| == |imgSubs|
    requires forall i :: 0 <= i < |order| ==> order[i] < |imgSubs|
    ensures var r := Complete(imgSubs, outcomes, order);
      forall j :: 0 <= j < |imgSubs| ==>
        r.slots[j] == if j in order && outcomes[j].Success? then Filled(imgSubs, outcomes, j) else Srt.ZeroSubtitle
    decreases |order|
  {
    if |order| > 0 {
      var before := order[..|order| - 1];
      assert order == before + [order[|order| - 1]];
      CompleteSlots(imgSubs, outcomes, before);
    }
  }

  /**
   The error is `nil` exactly when every completed job succeeded; otherwise it
   names, counting from 1, the first job in completion order that failed.
   */
  lemma {:induction false} CompleteError(imgSubs: seq<ImageSubtitle>, outcomes: seq<JobOutcome>, order: seq<nat>)
    requires |outcomes| == |imgSubs|
    requires forall i :: 0 <= i < |order| ==> order[i] < |imgSubs|
    ensures var r := Complete(imgSubs, outcomes, order);
      && (r.err.None? <==> forall i :: 0 <= i < |order| ==> outcomes[order[i]].Success?)
      && (r.err.Some? ==> exists k ::
            && 0 <= k < |order| && outcomes[order[k]].Failure?
            && (forall i :: 0 <= i < k ==> outcomes[order[i]].Success?)
            && r.err.value == ImageFailed(order[k] + 1, outcomes[order[k]].error))
    decreases |order|
  {
    if |order| > 0 {
      var m := |order| - 1;
      var before := order[..m];
      CompleteError(imgSubs, outcomes, before);
      var r0 := Complete(imgSubs, outcomes, before);
      var r := Complete(imgSubs, outcomes, order);
      if r0.err.Some? {
        var k :| 0 <= k < m && outcomes[before[k]].Failure?
          && (forall i :: 0 <= i < k ==> outcomes[before[i]].Success?)
          && r0.err.value == ImageFailed(before[k] + 1, outcomes[before[k]].error);
        assert order[k] == before[k];
        assert forall i :: 0 <= i < k ==> order[i] == before[i];
      } else if outcomes[order[m]].Failure? {
        assert forall i :: 0 <= i < m ==> order[i] == before[i];
        assert r.err.value == ImageFailed(order[m] + 1, outcomes[order[m]].error);
      } else {
        assert forall i :: 0 <= i < m ==> order[i] == before[i];
      }
    }
  }

  lemma {:induction false} CompleteTotals(imgSubs: seq<ImageSubtitle>, outcomes: seq<JobOutcome>, order: seq<nat>)
    requires |outcomes| == |imgSubs|
    requires forall i :: 0 <= i < |order| ==> order[i] < |imgSubs|
    ensures var r := Complete(imgSubs, outcomes, order);
      && r.promptTokens == SumOver(order, PromptOf(outcomes))
      && r.completionTokens == SumOver(order, CompletionOf(outcomes))
      && r.progress == SumOver(order, SuccessOf(outcomes))
    decreases |order|
  {
    if |order| > 0 {
      CompleteTotals(imgSubs, outcomes, order[..|order| - 1]);
    }
  }

  /** `OCR` as written: the pool's slots, totals and error, whatever stopped the feeder. */
  function PoolAsWritten(imgSubs: seq<ImageSubtitle>, outcomes: seq<JobOutcome>, workers: nat, limit: nat, order: seq<nat>): (r: PoolRun)
    requires |outcomes| == |imgSubs| && limit <= |imgSubs|
    requires IsCompletionOrder(order, Dequeued(outcomes, workers, limit))
  {
    OrderInRange(order, Dequeued(outcomes, workers, limit));
    Complete(imgSubs, outcomes, order)
  }

  /**
   `OCR` with the context checked after the workers are done: when no worker
   failed but the feeder stopped early, or there was no worker to take the
   jobs, an error is returned instead of a silently incomplete result.
   Everything else is as written.
   */
  function Pool(imgSubs: seq<ImageSubtitle>, outcomes: seq<JobOutcome>, workers: nat, limit: nat, order: seq<nat>): (r: PoolRun)
    requires |outcomes| == |imgSubs| && limit <= |imgSubs|
    requires IsCompletionOrder(order, Dequeued(outcomes, workers, limit))
    ensures r.err.None? ==> limit == |imgSubs| && (workers >= 1 || |imgSubs| == 0)
    ensures var w := PoolAsWritten(imgSubs, outcomes, workers, limit, order);
      && r.slots == w.slots && r.promptTokens == w.promptTokens
      && r.completionTokens == w.completionTokens && r.progress == w.progress
      && (w.err.Some? ==> r.err == w.err)
  {
    var r := PoolAsWritten(imgSubs, outcomes, workers, limit, order);
    if r.err.Some? then r
    else if limit < |imgSubs| then PoolRun(r.slots, r.promptTokens, r.completionTokens, r.progress, Some(ContextEnded))
    else if workers == 0 && |imgSubs| > 0 then PoolRun(r.slots, r.promptTokens, r.completionTokens, r.progress, Some(NoWorkers))
    else r
  }

  lemma OrderInRange(order: seq<nat>, p: nat)
    requires IsCompletionOrder(order, p)
    ensures forall i :: 0 <= i < |order| ==> order[i] < p
    ensures forall j: nat :: j in order <==> j < p
  {
    forall i | 0 <= i < |order|
      ensures order[i] < p
    {
      assert order[i] in multiset(order);
    }
    forall j: nat | j < p
      ensures j in order
    {
      assert Range(p)[j] == j;
      assert j in multiset(Range(p));
    }
  }

  // ---------------------------------------------------------------------------
  // Properties.

  /**
   Placement, totals and progress do not depend on the completion order: slot
   `j` holds job `j`'s result exactly when job `j` was dequeued and succeeded,
   and the totals are sums over the dequeued jobs in index order.
   */
  lemma PlacementIndependentOfOrder(imgSubs: seq<ImageSubtitle>, outcomes: seq<JobOutcome>, workers: nat, limit: nat, order: seq<nat>)
    requires |outcomes| == |imgSubs| && limit <= |imgSubs|
    requires IsCompletionOrder(order, Dequeued(outcomes, workers, limit))
    ensures var r, p := PoolAsWritten(imgSubs, outcomes, workers, limit, order), Dequeued(outcomes, workers, limit);
      && (forall j :: 0 <= j < |imgSubs| ==>
            r.slots[j] == if j < p && outcomes[j].Success? then Filled(imgSubs, outcomes, j) else Srt.ZeroSubtitle)
      && r.promptTokens == SumOver(Range(p), PromptOf(outcomes))
      && r.completionTokens == SumOver(Range(p), CompletionOf(outcomes))
      && r.progress == SumOver(Range(p), SuccessOf(outcomes))
  {
    var p := Dequeued(outcomes, workers, limit);
    OrderInRange(order, p);
    CompleteSlots(imgSubs, outcomes, order);
    CompleteTotals(imgSubs, outcomes, order);
    SumOverPermutation(order, Range(p), PromptOf(outcomes));
    SumOverPermutation(order, Range(p), CompletionOf(outcomes));
    SumOverPermutation(order, Range(p), SuccessOf(outcomes));
  }

  /** With at least one worker, a feeder that runs to the end and no failure, every slot is filled and no error is returned. */
  lemma AllFilledWithoutFailure(imgSubs: seq<ImageSubtitle>, outcomes: seq<JobOutcome>, workers: nat, order: seq<nat>)
    requires |outcomes| == |imgSubs| && workers >= 1
    requires forall j :: 0 <= j < |outcomes| ==> outcomes[j].Success?
    requires IsCompletionOrder(order, Dequeued(outcomes, workers, |imgSubs|))
    ensures var r := Pool(imgSubs, outcomes, workers, |imgSubs|, order);
      && r.err.None?
      && forall j :: 0 <= j < |imgSubs| ==> r.slots[j] == Filled(imgSubs, outcomes, j)
  {
    var n := |imgSubs|;
    var p := Dequeued(outcomes, workers, n);
    NoFailures(outcomes, p);
    OrderInRange(order, p);
    CompleteSlots(imgSubs, outcomes, order);
    CompleteError(imgSubs, outcomes, order);
  }

  lemma {:induction false} NoFailures(outcomes: seq<JobOutcome>, q: nat)
    requires q <= |outcomes|
    requires forall j :: 0 <= j < q ==> outcomes[j].Success?
    ensures Failures(outcomes[..q]) == 0
  {
    if q > 0 {
      FailuresStep(outcomes, q - 1);
      NoFailures(outcomes, q - 1);
    } else {
      assert outcomes[..0] == [];
    }
  }

  /**
   With no worker nothing runs: every slot keeps its zero value. As written no
   error is returned; the corrected pool reports `NoWorkers` when there was
   any image to recognise.
   */
  lemma NoWorkersNoResults(imgSubs: seq<ImageSubtitle>, outcomes: seq<JobOutcome>, order: seq<nat>)
    requires |outcomes| == |imgSubs|
    requires IsCompletionOrder(order, Dequeued(outcomes, 0, |imgSubs|))
    ensures var r := PoolAsWritten(imgSubs, outcomes, 0, |imgSubs|, order);
      && r.err.None? && r.progress == 0
      && forall j :: 0 <= j < |imgSubs| ==> r.slots[j] == Srt.ZeroSubtitle
    ensures Pool(imgSubs, outcomes, 0, |imgSubs|, order).err == if |imgSubs| == 0 then None else Some(NoWorkers)
  {
    assert Dequeued(outcomes, 0, |imgSubs|) == 0;
    OrderInRange(order, 0);
    assert |order| == |multiset(order)| == 0;
    CompleteSlots(imgSubs, outcomes, order);
    CompleteTotals(imgSubs, outcomes, order);
  }

  /** A failing worker leaves, but the others keep draining the queue: one failure among two or more workers stops nothing. */
  lemma OthersKeepDraining(outcomes: seq<JobOutcome>, workers: nat, f: nat)
    requires workers >= 2 && f < |outcomes| && outcomes[f].Failure?
    requires forall j :: 0 <= j < |outcomes| && j != f ==> outcomes[j].Success?
    ensures Dequeued(outcomes, workers, |outcomes|) == |outcomes|
  {
    var n := |outcomes|;
    var p := Dequeued(outcomes, workers, n);
    if p < n {
      AtMostOneFailure(outcomes, f, p);
    }
  }

  lemma AtMostOneFailure(outcomes: seq<JobOutcome>, f: nat, q: nat)
    requires q <= |outcomes|
    requires forall j :: 0 <= j < |outcomes| && j != f ==> outcomes[j].Success?
    ensures Failures(outcomes[..q]) <= 1
  {
    if f < q {
      ZeroBeforeOrOne(outcomes, f, q);
    } else {
      NoFailures(outcomes, q);
    }
  }

  lemma {:induction false} ZeroBeforeOrOne(outcomes: seq<JobOutcome>, f: nat, q: nat)
    requires f < q <= |outcomes|
    requires forall j :: 0 <= j < |outcomes| && j != f ==> outcomes[j].Success?
    ensures Failures(outcomes[..q]) <= 1
    decreases q
  {
    FailuresStep(outcomes, q - 1);
    if q - 1 > f {
      ZeroBeforeOrOne(outcomes, f, q - 1);
    } else {
      NoFailures(outcomes, f);
    }
  }

  /** A `nil` error from the corrected pool means every image was recognised. */
  lemma NilErrorMeansAllFilled(imgSubs: seq<ImageSubtitle>, outcomes: seq<JobOutcome>, workers: nat, limit: nat, order: seq<nat>)
    requires |outcomes| == |imgSubs| && limit <= |imgSubs|
    requires IsCompletionOrder(order, Dequeued(outcomes, workers, limit))
    requires Pool(imgSubs, outcomes, workers, limit, order).err.None?
    ensures forall j :: 0 <= j < |imgSubs| ==>
      outcomes[j].Success? && Pool(imgSubs, outcomes, workers, limit, order).slots[j] == Filled(imgSubs, outcomes, j)
  {
    var p := Dequeued(outcomes, workers, limit);
    OrderInRange(order, p);
    var r := PoolAsWritten(imgSubs, outcomes, workers, limit, order);
    CompleteSlots(imgSubs, outcomes, order);
    CompleteError(imgSubs, outcomes, order);
    assert forall j :: 0 <= j < p ==> outcomes[j].Success? by {
      forall j | 0 <= j < p
        ensures outcomes[j].Success?
      {
        assert j in order;
        var k :| 0 <= k < |order| && order[k] == j;
      }
    }
    if p < limit {
      NoFailures(outcomes, p);
    }
  }

  /**
   A `nil` error from the corrected pool means that every image's request was
   built and answered, and that slot `j` holds the first choice of the
   server's answer to image `j`'s own request, between that image's times.
   */
  lemma NilErrorSlotsHoldServerText(imgSubs: seq<ImageSubtitle>, outcomes: seq<JobOutcome>, encode: Bitmap -> Result<string, string>, model: string, italic: bool, server: Server, workers: nat, limit: nat, order: seq<nat>)
    requires RecognisedBy(imgSubs, outcomes, encode, model, italic, server)
    requires limit <= |imgSubs| && IsCompletionOrder(order, Dequeued(outcomes, workers, limit))
    requires Pool(imgSubs, outcomes, workers, limit, order).err.None?
    ensures forall j :: 0 <= j < |imgSubs| ==>
      && encode(imgSubs[j].image).Success?
      && var req := GenerateOcrBodyRequest(encode(imgSubs[j].image), model, italic).value;
        && server(req).Success?
        && Pool(imgSubs, outcomes, workers, limit, order).slots[j]
           == Srt.SrtSubtitle(imgSubs[j].startTime, imgSubs[j].endTime, server(req).value.choices[0])
  {
    NilErrorMeansAllFilled(imgSubs, outcomes, workers, limit, order);
    forall j | 0 <= j < |imgSubs|
      ensures && encode(imgSubs[j].image).Success?
              && var req := GenerateOcrBodyRequest(encode(imgSubs[j].image), model, italic).value;
                && server(req).Success?
                && Filled(imgSubs, outcomes, j) == Srt.SrtSubtitle(imgSubs[j].startTime, imgSubs[j].endTime, server(req).value.choices[0])
    {
      FilledFromServer(imgSubs, outcomes, encode, model, italic, server, j);
    }
  }

  /** A successful job's entry holds the first choice of the server's answer to that image's request. */
  lemma FilledFromServer(imgSubs: seq<ImageSubtitle>, outcomes: seq<JobOutcome>, encode: Bitmap -> Result<string, string>, model: string, italic: bool, server: Server, j: nat)
    requires RecognisedBy(imgSubs, outcomes, encode, model, italic, server)
    requires j < |imgSubs| && outcomes[j].Success?
    ensures encode(imgSubs[j].image).Success?
    ensures var req := GenerateOcrBodyRequest(encode(imgSubs[j].image), model, italic).value;
      && server(req).Success?
      && Filled(imgSubs, outcomes, j) == Srt.SrtSubtitle(imgSubs[j].startTime, imgSubs[j].endTime, server(req).value.choices[0])
  {
    var png := encode(imgSubs[j].image);
    assert outcomes[j] == ExtractText(png, model, italic, server);
  }

  /**
   As written, a context that ends while no job is in flight stops the feeder,
   every worker finds the queue closed, and `OCR` returns a `nil` error with
   slots left empty: two images, one worker, the feeder stopping after the
   first, whose recognition succeeded.
   */
  lemma EarlyStopLosesSlotsAsWritten()
    ensures var imgSubs := [ImageSubtitle(Bitmap([]), 0, 1), ImageSubtitle(Bitmap([]), 2, 3)];
      var outcomes: seq<JobOutcome> := [Success(Extraction("a", 1, 1)), Success(Extraction("b", 1, 1))];
      && IsCompletionOrder([0], Dequeued(outcomes, 1, 1))
      && var r := PoolAsWritten(imgSubs, outcomes, 1, 1, [0]);
        r.err.None? && r.slots[1] == Srt.ZeroSubtitle
  {
    var outcomes: seq<JobOutcome> := [Success(Extraction("a", 1, 1)), Success(Extraction("b", 1, 1))];
    assert outcomes[..0] == [];
    assert Dequeued(outcomes, 1, 1) == 1;
    assert Range(1) == [0];
    CompleteSlots([ImageSubtitle(Bitmap([]), 0, 1), ImageSubtitle(Bitmap([]), 2, 3)], outcomes, [0]);
    CompleteError([ImageSubtitle(Bitmap([]), 0, 1), ImageSubtitle(Bitmap([]), 2, 3)], outcomes, [0]);
  }
}
