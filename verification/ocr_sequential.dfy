/**
 The one-at-a-time recognition driver (ocrai.go): a plain loop over the
 images that stops at the first failure. Its request carries only the
 system prompt and the image; the image URL is built exactly as the worker
 pool builds it, so `OcrPool.EncodeImageToDataUrl` serves both.
 */
module OcrSequential {
  import opened Outcomes
  import opened Media
  import opened Sequences
  import opened ChatApi
  import Srt
  import OcrPool

  const SequentialPrompt: string := "Extract the text from the user input. Do not quote, do not say anything but the text."

  /** The request for one image: the system prompt, then a user message holding the image alone. */
  function SequentialRequest(png: Result<string, string>, model: string): (r: Result<ChatRequest, OcrPool.BodyError>)
    ensures r.Success? <==> png.Success?
    ensures png.Failure? ==> r == Failure(OcrPool.ImageEncodingFailed(png.error))
    ensures r.Success? ==>
      && r.value.model == model
      && |r.value.messages| == 2
      && r.value.messages[0] == SystemMessage(SequentialPrompt)
      && r.value.messages[1].UserMessage?
      && |r.value.messages[1].parts| == 1
      && r.value.messages[1].parts[0].ImageUrlPart?
      && OcrPool.DataUrlPayload(r.value.messages[1].parts[0].url) == Some(png.value)
  {
    match OcrPool.EncodeImageToDataUrl(png)
    case Failure(e) => Failure(OcrPool.ImageEncodingFailed(e))
    case Success(url) => Success(ChatRequest(model, [SystemMessage(SequentialPrompt), UserMessage([ImageUrlPart(url)])]))
  }

  /** When the request for `png` can be built and the server answers it, the answer carries at least one choice. */
  predicate SequentialAnswersWithChoice(png: Result<string, string>, model: string, server: OcrPool.Server) {
    var body := SequentialRequest(png, model);
    body.Success? && server(body.value).Success? ==> |server(body.value).value.choices| >= 1
  }

  /** `ExtractText` of the sequential driver: send the request to `server` and read the first choice and the usage counts. */
  function SequentialExtract(png: Result<string, string>, model: string, server: OcrPool.Server): (r: Result<Extraction, OcrPool.ExtractError>)
    requires SequentialAnswersWithChoice(png, model, server)
    ensures png.Failure? ==> r == Failure(OcrPool.BodyFailed(OcrPool.ImageEncodingFailed(png.error)))
    ensures png.Success? ==>
      var reply := server(SequentialRequest(png, model).value);
      && (r.Success? <==> reply.Success?)
      && (reply.Failure? ==> r == Failure(OcrPool.CompletionFailed(reply.error)))
      && (reply.Success? ==> r.value == Extraction(reply.value.choices[0], reply.value.promptTokens, reply.value.completionTokens))
  {
    match SequentialRequest(png, model)
    case Failure(e) => Failure(OcrPool.BodyFailed(e))
    case Success(body) =>
      match server(body)
      case Failure(e) => Failure(OcrPool.CompletionFailed(e))
      case Success(c) => Success(Extraction(c.choices[0], c.promptTokens, c.completionTokens))
  }

  /** `outcomes[j]` is what `SequentialExtract` gives for image `j`, whose PNG encoding is `encode` of its bitmap. */
  predicate RecognisedSequentiallyBy(imgSubs: seq<ImageSubtitle>, outcomes: seq<OcrPool.JobOutcome>, encode: Bitmap -> Result<string, string>, model: string, server: OcrPool.Server) {
    && |outcomes| == |imgSubs|
    && forall j :: 0 <= j < |imgSubs| ==>
      && SequentialAnswersWithChoice(encode(imgSubs[j].image), model, server)
      && outcomes[j] == SequentialExtract(encode(imgSubs[j].image), model, server)
  }

  /** The position of the first failed recognition, or `|outcomes|` when all succeed. */
  function FirstFailure(outcomes: seq<OcrPool.JobOutcome>): (k: nat)
    ensures k <= |outcomes|
    ensures forall j :: 0 <= j < k ==> outcomes[j].Success?
    ensures k < |outcomes| ==> outcomes[k].Failure?
    decreases |outcomes|
  {
    if |outcomes| == 0 || outcomes[0].Failure? then 0 else 1 + FirstFailure(outcomes[1..])
  }

  /**
   `OCR`: recognise image after image. `outcomes[i]` is what recognising image
   `i` would give (`RecognisedSequentiallyBy` ties it to the server). Stops at the first failure, naming the image by its position
   counted from 1; `calls` is how many recognitions were asked for.
   */
  method Ocr(imgSubs: seq<ImageSubtitle>, outcomes: seq<OcrPool.JobOutcome>) returns (run: OcrPool.PoolRun, calls: nat)
    requires |outcomes| == |imgSubs|
    ensures var k, n := FirstFailure(outcomes), |imgSubs|;
      && |run.slots| == n
      && (forall j :: 0 <= j < n ==> run.slots[j] == if j < k then OcrPool.Filled(imgSubs, outcomes, j) else Srt.ZeroSubtitle)
      && (run.err.None? <==> k == n)
      && (k < n ==> run.err == Some(OcrPool.ImageFailed(k + 1, outcomes[k].error)))
      && calls == (if k < n then k + 1 else n)
      && run.promptTokens == SumOver(Range(k), OcrPool.PromptOf(outcomes))
      && run.completionTokens == SumOver(Range(k), OcrPool.CompletionOf(outcomes))
      && run.progress == k
  {
    var n := |imgSubs|;
    var slots := seq(n, _ => Srt.ZeroSubtitle);
    var prompt, completion, progress := 0, 0, 0;
    calls := 0;
    for index := 0 to n
      invariant |slots| == n
      invariant forall j :: 0 <= j < index ==> outcomes[j].Success?
      invariant forall j :: 0 <= j < n ==> slots[j] == if j < index then OcrPool.Filled(imgSubs, outcomes, j) else Srt.ZeroSubtitle
      invariant calls == index && progress == index
      invariant prompt == SumOver(Range(index), OcrPool.PromptOf(outcomes))
      invariant completion == SumOver(Range(index), OcrPool.CompletionOf(outcomes))
    {
      calls := calls + 1;
      match outcomes[index]
      case Failure(e) =>
        FirstFailureIs(outcomes, index);
        run := OcrPool.PoolRun(slots, prompt, completion, progress, Some(OcrPool.ImageFailed(index + 1, e)));
        return;
      case Success(x) =>
        RangeStep(index);
        prompt := prompt + x.promptTokens;
        completion := completion + x.completionTokens;
        slots := slots[index := OcrPool.Filled(imgSubs, outcomes, index)];
        progress := progress + 1;
    }
    FirstFailureIs(outcomes, n);
    run := OcrPool.PoolRun(slots, prompt, completion, progress, None);
  }

  lemma {:induction false} FirstFailureIs(outcomes: seq<OcrPool.JobOutcome>, k: nat)
    requires k <= |outcomes|
    requires forall j :: 0 <= j < k ==> outcomes[j].Success?
    requires k < |outcomes| ==> outcomes[k].Failure?
    ensures FirstFailure(outcomes) == k
    decreases k
  {
    if k > 0 {
      FirstFailureIs(outcomes[1..], k - 1);
    }
  }

  lemma RangeStep(k: nat)
    ensures Range(k + 1)[..k] == Range(k)
    ensures Range(k + 1)[k] == k
  {
  }

  /** A single worker takes the jobs up to and including the first failure. */
  lemma SingleWorkerDequeued(outcomes: seq<OcrPool.JobOutcome>)
    ensures var k := FirstFailure(outcomes);
      OcrPool.Dequeued(outcomes, 1, |outcomes|) == if k < |outcomes| then k + 1 else k
  {
    var n, k := |outcomes|, FirstFailure(outcomes);
    var p := OcrPool.Dequeued(outcomes, 1, n);
    forall q | 0 <= q <= k
      ensures OcrPool.Failures(outcomes[..q]) == 0
    {
      OcrPool.NoFailures(outcomes, q);
    }
    if k < n {
      OcrPool.FailuresStep(outcomes, k);
    }
  }

  /** In index order, the error of the single worker names the first failure. */
  lemma SingleWorkerError(imgSubs: seq<ImageSubtitle>, outcomes: seq<OcrPool.JobOutcome>, p: nat)
    requires |outcomes| == |imgSubs| && p <= |imgSubs|
    requires p == if FirstFailure(outcomes) < |outcomes| then FirstFailure(outcomes) + 1 else |outcomes|
    ensures var k, r := FirstFailure(outcomes), OcrPool.Complete(imgSubs, outcomes, Range(p));
      && (r.err.None? <==> k == |imgSubs|)
      && (k < |imgSubs| ==> r.err == Some(OcrPool.ImageFailed(k + 1, outcomes[k].error)))
  {
    var k, n, order := FirstFailure(outcomes), |imgSubs|, Range(p);
    var r := OcrPool.Complete(imgSubs, outcomes, order);
    OcrPool.CompleteError(imgSubs, outcomes, order);
    if k < n {
      assert order[k] == k && outcomes[order[k]].Failure?;
      assert r.err.Some?;
      var m :| 0 <= m < p && outcomes[order[m]].Failure?
        && (forall i :: 0 <= i < m ==> outcomes[order[i]].Success?)
        && r.err.value == OcrPool.ImageFailed(order[m] + 1, outcomes[order[m]].error);
      assert order[m] == m;
      assert m == k;
    } else {
      assert forall i :: 0 <= i < p ==> outcomes[order[i]].Success?;
    }
  }

  lemma {:induction false} AllSucceedCount(outcomes: seq<OcrPool.JobOutcome>, k: nat)
    requires k <= |outcomes|
    requires forall j :: 0 <= j < k ==> outcomes[j].Success?
    ensures SumOver(Range(k), OcrPool.SuccessOf(outcomes)) == k
  {
    if k > 0 {
      AllSucceedCount(outcomes, k - 1);
      RangeStep(k - 1);
    }
  }

  /** In index order, the single worker fills the slots before the first failure and counts only them. */
  lemma SingleWorkerPlacement(imgSubs: seq<ImageSubtitle>, outcomes: seq<OcrPool.JobOutcome>, p: nat)
    requires |outcomes| == |imgSubs|
    requires p == OcrPool.Dequeued(outcomes, 1, |imgSubs|)
    requires p == if FirstFailure(outcomes) < |outcomes| then FirstFailure(outcomes) + 1 else |outcomes|
    ensures OcrPool.IsCompletionOrder(Range(p), p)
    ensures var k, r := FirstFailure(outcomes), OcrPool.PoolAsWritten(imgSubs, outcomes, 1, |imgSubs|, Range(p));
      && (forall j :: 0 <= j < |imgSubs| ==> r.slots[j] == if j < k then OcrPool.Filled(imgSubs, outcomes, j) else Srt.ZeroSubtitle)
      && r.promptTokens == SumOver(Range(k), OcrPool.PromptOf(outcomes))
      && r.completionTokens == SumOver(Range(k), OcrPool.CompletionOf(outcomes))
      && r.progress == k
  {
    var k := FirstFailure(outcomes);
    OcrPool.PlacementIndependentOfOrder(imgSubs, outcomes, 1, |imgSubs|, Range(p));
    AllSucceedCount(outcomes, k);
    if k < |outcomes| {
      FailureAddsNothing(outcomes, k);
    }
  }

  /** A failed job adds no tokens and no progress. */
  lemma FailureAddsNothing(outcomes: seq<OcrPool.JobOutcome>, k: nat)
    requires k < |outcomes| && outcomes[k].Failure?
    ensures SumOver(Range(k + 1), OcrPool.PromptOf(outcomes)) == SumOver(Range(k), OcrPool.PromptOf(outcomes))
    ensures SumOver(Range(k + 1), OcrPool.CompletionOf(outcomes)) == SumOver(Range(k), OcrPool.CompletionOf(outcomes))
    ensures SumOver(Range(k + 1), OcrPool.SuccessOf(outcomes)) == SumOver(Range(k), OcrPool.SuccessOf(outcomes))
  {
    RangeStep(k);
  }

  /**
   The loop behaves as the worker pool with a single worker whose jobs complete
   in index order: the same slots, the same error and the same totals.
   */
  lemma SequentialIsSingleWorker(imgSubs: seq<ImageSubtitle>, outcomes: seq<OcrPool.JobOutcome>)
    requires |outcomes| == |imgSubs|
    ensures var n, k, p := |imgSubs|, FirstFailure(outcomes), OcrPool.Dequeued(outcomes, 1, |imgSubs|);
      && OcrPool.IsCompletionOrder(Range(p), p)
      && var r := OcrPool.Pool(imgSubs, outcomes, 1, n, Range(p));
        && (forall j :: 0 <= j < n ==> r.slots[j] == if j < k then OcrPool.Filled(imgSubs, outcomes, j) else Srt.ZeroSubtitle)
        && (r.err.None? <==> k == n)
        && (k < n ==> r.err == Some(OcrPool.ImageFailed(k + 1, outcomes[k].error)))
        && r.promptTokens == SumOver(Range(k), OcrPool.PromptOf(outcomes))
        && r.completionTokens == SumOver(Range(k), OcrPool.CompletionOf(outcomes))
        && r.progress == k
  {
    var n := |imgSubs|;
    SingleWorkerDequeued(outcomes);
    var p := OcrPool.Dequeued(outcomes, 1, n);
    SingleWorkerPlacement(imgSubs, outcomes, p);
    SingleWorkerError(imgSubs, outcomes, p);
    assert OcrPool.Pool(imgSubs, outcomes, 1, n, Range(p)) == OcrPool.PoolAsWritten(imgSubs, outcomes, 1, n, Range(p));
  }

  /**
   The slots the loop fills hold the first choice of the server's answer to
   each image's own request; the failure that stops it is the encoder's error
   or the server's error for that image.
   */
  lemma SequentialTextFromServer(imgSubs: seq<ImageSubtitle>, outcomes: seq<OcrPool.JobOutcome>, encode: Bitmap -> Result<string, string>, model: string, server: OcrPool.Server)
    requires RecognisedSequentiallyBy(imgSubs, outcomes, encode, model, server)
    ensures forall j :: 0 <= j < FirstFailure(outcomes) ==>
      && encode(imgSubs[j].image).Success?
      && var req := SequentialRequest(encode(imgSubs[j].image), model).value;
        && server(req).Success?
        && OcrPool.Filled(imgSubs, outcomes, j) == Srt.SrtSubtitle(imgSubs[j].startTime, imgSubs[j].endTime, server(req).value.choices[0])
    ensures var k := FirstFailure(outcomes);
      k < |imgSubs| ==>
        var png := encode(imgSubs[k].image);
        outcomes[k].error == if png.Failure? then OcrPool.BodyFailed(OcrPool.ImageEncodingFailed(png.error))
                             else OcrPool.CompletionFailed(server(SequentialRequest(png, model).value).error)
  {
  }
}
