/**
 Reading the batch results back (ocr_batch.go): every line of every result
 file carries the tag of the request it answers; the tag, parsed back to an
 integer, says which subtitle slot the answer fills. This is the last stage
 of `OCRBatched`, after BatchChunking and BatchPoll, which model the other
 parts of the same file.

 Fetching a result file, splitting it into lines and decoding each line's
 JSON are library code: a result file is given as its decoded lines.
 */
module BatchDemux {
  import opened Outcomes
  import opened Media
  import opened Sequences
  import opened Decimal
  import opened ChatApi
  import opened Srt

  /** `BatchLineResponse`, reduced to the fields that are read: the tag and the completion. */
  datatype ResponseLine = ResponseLine(customId: string, body: ChatCompletion)

  /**
   One batch's result file: the download failed, or the outcome of decoding
   each line the scanner delivered, then the scanner's own error, if any.
   */
  datatype ResultFile =
    | ContentFailed(reason: string)
    | Content(lines: seq<Result<ResponseLine, string>>, scanErr: Option<string>)

  /**
   Why reading the results stopped. The last two are the run-time panics of
   the source (an index out of range), recorded as outcomes.
   */
  datatype DemuxError =
    | FetchFailed(batch: nat, reason: string)
    | UnmarshalFailed(batch: nat, reason: string)
    | CustomIdNotInteger(customId: string)
    | ScanFailed(batch: nat, reason: string)
    | PanicSlotOutOfRange(index: int)
    | PanicNoChoice(batch: nat)

  /** The result slice, the token totals, and the error. */
  datatype Demux = Demux(slots: seq<SrtSubtitle>, promptTokens: int, completionTokens: int, err: Option<DemuxError>)

  function LinePrompt(line: ResponseLine): int {
    line.body.promptTokens
  }

  function LineCompletion(line: ResponseLine): int {
    line.body.completionTokens
  }

  /** The subtitle an answer for slot `i` fills in: the image's times and the first choice's text. */
  function Fill(imgSubs: seq<ImageSubtitle>, i: nat, line: ResponseLine): SrtSubtitle
    requires i < |imgSubs| && |line.body.choices| >= 1
  {
    SrtSubtitle(imgSubs[i].startTime, imgSubs[i].endTime, line.body.choices[0])
  }

  /** A line the loop accepts: its tag is a slot index and its completion has a choice. */
  predicate Usable(n: nat, line: ResponseLine) {
    && Atoi(line.customId).Some?
    && 0 <= Atoi(line.customId).value < n
    && |line.body.choices| >= 1
  }

  /** The tag of a usable line, as a slot index. */
  function SlotOf(n: nat, line: ResponseLine): (i: nat)
    requires Usable(n, line)
    ensures i < n
  {
    Atoi(line.customId).value
  }

  /** Every line of a result file decoded. */
  predicate Decoded(lines: seq<Result<ResponseLine, string>>) {
    forall k :: 0 <= k < |lines| ==> lines[k].Success?
  }

  function Values(lines: seq<Result<ResponseLine, string>>): (rs: seq<ResponseLine>)
    requires Decoded(lines)
    ensures |rs| == |lines| && forall k :: 0 <= k < |lines| ==> rs[k] == lines[k].value
  {
    seq(|lines|, k requires 0 <= k < |lines| => lines[k].value)
  }

  /** Lines the loop reads to the end without stopping. */
  predicate CleanLines(n: nat, lines: seq<Result<ResponseLine, string>>) {
    forall k :: 0 <= k < |lines| ==> lines[k].Success? && Usable(n, lines[k].value)
  }

  predicate CleanFile(n: nat, file: ResultFile) {
    file.Content? && file.scanErr.None? && CleanLines(n, file.lines)
  }

  /** Result files the loop reads to the end without stopping. */
  predicate Clean(n: nat, files: seq<ResultFile>) {
    forall b :: 0 <= b < |files| ==> CleanFile(n, files[b])
  }

  /** Every result file was fetched, scanned to its end, and each of its lines decoded. */
  predicate Delivered(files: seq<ResultFile>) {
    forall b :: 0 <= b < |files| ==> files[b].Content? && files[b].scanErr.None? && Decoded(files[b].lines)
  }

  /** All answers of delivered result files, file after file. */
  function Responses(files: seq<ResultFile>): seq<ResponseLine>
    requires Delivered(files)
  {
    if |files| == 0 then [] else Responses(files[..|files| - 1]) + Values(files[|files| - 1].lines)
  }

  /** What slot `i` holds after the answers `rs`: the last answer tagged `i`, or `prior` if there is none. */
  function Answered(imgSubs: seq<ImageSubtitle>, prior: SrtSubtitle, rs: seq<ResponseLine>, i: nat): SrtSubtitle
    requires i < |imgSubs|
    requires forall k :: 0 <= k < |rs| ==> Usable(|imgSubs|, rs[k])
  {
    if |rs| == 0 then prior
    else
      var last := rs[|rs| - 1];
      if SlotOf(|imgSubs|, last) == i then Fill(imgSubs, i, last)
      else Answered(imgSubs, prior, rs[..|rs| - 1], i)
  }

  lemma {:induction false} AnsweredAppend(imgSubs: seq<ImageSubtitle>, prior: SrtSubtitle, a: seq<ResponseLine>, b: seq<ResponseLine>, i: nat)
    requires i < |imgSubs|
    requires forall k :: 0 <= k < |a| ==> Usable(|imgSubs|, a[k])
    requires forall k :: 0 <= k < |b| ==> Usable(|imgSubs|, b[k])
    ensures forall k :: 0 <= k < |a + b| ==> Usable(|imgSubs|, (a + b)[k])
    ensures Answered(imgSubs, prior, a + b, i) == Answered(imgSubs, Answered(imgSubs, prior, a, i), b, i)
    decreases |b|
  {
    if |b| == 0 {
      assert a + b == a;
    } else {
      var init := b[..|b| - 1];
      assert (a + b)[..|a + b| - 1] == a + init;
      AnsweredAppend(imgSubs, prior, a, init, i);
    }
  }

  // ---------------------------------------------------------------------------
  // The loop.

  /** One line of batch `batch`'s result file. */
  function ApplyLine(imgSubs: seq<ImageSubtitle>, st: Demux, batch: nat, line: Result<ResponseLine, string>): (r: Demux)
    requires |st.slots| == |imgSubs|
    ensures |r.slots| == |imgSubs|
  {
    match line
    case Failure(reason) => st.(err := Some(UnmarshalFailed(batch, reason)))
    case Success(l) =>
      match Atoi(l.customId)
      case None => st.(err := Some(CustomIdNotInteger(l.customId)))
      case Some(i) =>
        if i < 0 || i >= |imgSubs| then st.(err := Some(PanicSlotOutOfRange(i)))
        else if |l.body.choices| == 0 then st.(err := Some(PanicNoChoice(batch)))
        else
          Demux(st.slots[i := Fill(imgSubs, i, l)], st.promptTokens + l.body.promptTokens,
                st.completionTokens + l.body.completionTokens, None)
  }

  /** The lines of one result file in turn, from a state without error; the first failing line stops the loop. */
  function ApplyLines(imgSubs: seq<ImageSubtitle>, st: Demux, batch: nat, lines: seq<Result<ResponseLine, string>>): (r: Demux)
    requires |st.slots| == |imgSubs| && st.err.None?
    ensures |r.slots| == |imgSubs|
    decreases |lines|
  {
    if |lines| == 0 then st
    else
      var s := ApplyLines(imgSubs, st, batch, lines[..|lines| - 1]);
      if s.err.Some? then s else ApplyLine(imgSubs, s, batch, lines[|lines| - 1])
  }

  /** One batch's result file: its lines, then the scanner's error. */
  function ApplyFile(imgSubs: seq<ImageSubtitle>, st: Demux, batch: nat, file: ResultFile): (r: Demux)
    requires |st.slots| == |imgSubs| && st.err.None?
    ensures |r.slots| == |imgSubs|
  {
    match file
    case ContentFailed(reason) => st.(err := Some(FetchFailed(batch, reason)))
    case Content(lines, scanErr) =>
      var r := ApplyLines(imgSubs, st, batch, lines);
      if r.err.Some? then r
      else if scanErr.Some? then r.(err := Some(ScanFailed(batch, scanErr.value)))
      else r
  }

  /** Zero-valued slots, no tokens, no error. */
  function Start(n: nat): (st: Demux)
    ensures |st.slots| == n && st.err.None?
  {
    Demux(seq(n, _ => ZeroSubtitle), 0, 0, None)
  }

  /** The result files of the scheduled batches in turn, starting from zero-valued slots. */
  function ReadResults(imgSubs: seq<ImageSubtitle>, files: seq<ResultFile>): (r: Demux)
    ensures |r.slots| == |imgSubs|
    decreases |files|
  {
    if |files| == 0 then Start(|imgSubs|)
    else
      var s := ReadResults(imgSubs, files[..|files| - 1]);
      if s.err.Some? then s else ApplyFile(imgSubs, s, |files| - 1, files[|files| - 1])
  }

  // ---------------------------------------------------------------------------
  // What the loop computes.

  /** `r` is `prior` after the answers `rs`: each slot holds its last answer, and the usage counts of `rs` are added. */
  predicate Applied(imgSubs: seq<ImageSubtitle>, prior: Demux, rs: seq<ResponseLine>, r: Demux)
    requires forall k :: 0 <= k < |rs| ==> Usable(|imgSubs|, rs[k])
  {
    && |prior.slots| == |r.slots| == |imgSubs|
    && (forall i :: 0 <= i < |imgSubs| ==> r.slots[i] == Answered(imgSubs, prior.slots[i], rs, i))
    && r.promptTokens == prior.promptTokens + SumOver(rs, LinePrompt)
    && r.completionTokens == prior.completionTokens + SumOver(rs, LineCompletion)
  }

  lemma CleanValuesUsable(n: nat, lines: seq<Result<ResponseLine, string>>)
    requires CleanLines(n, lines)
    ensures Decoded(lines)
    ensures forall k :: 0 <= k < |lines| ==> Usable(n, Values(lines)[k])
  {
  }

  lemma ValuesSnoc(lines: seq<Result<ResponseLine, string>>)
    requires |lines| > 0 && Decoded(lines)
    ensures Decoded(lines[..|lines| - 1])
    ensures Values(lines) == Values(lines[..|lines| - 1]) + [lines[|lines| - 1].value]
  {
  }

  /** A file's lines are read to the end exactly when every line is usable. */
  lemma {:induction false} ApplyLinesStops(imgSubs: seq<ImageSubtitle>, st: Demux, batch: nat, lines: seq<Result<ResponseLine, string>>)
    requires |st.slots| == |imgSubs| && st.err.None?
    ensures ApplyLines(imgSubs, st, batch, lines).err.None? <==> CleanLines(|imgSubs|, lines)
    decreases |lines|
  {
    if |lines| > 0 {
      var n, init := |imgSubs|, lines[..|lines| - 1];
      ApplyLinesStops(imgSubs, st, batch, init);
      assert CleanLines(n, lines) <==> CleanLines(n, init) && lines[|lines| - 1].Success? && Usable(n, lines[|lines| - 1].value);
    }
  }

  /** One usable answer fills its own slot, leaves the others, and adds its usage counts. */
  lemma {:induction false} ApplyUsableLine(imgSubs: seq<ImageSubtitle>, prior: Demux, vs: seq<ResponseLine>, s: Demux, batch: nat, line: ResponseLine)
    requires forall k :: 0 <= k < |vs| ==> Usable(|imgSubs|, vs[k])
    requires Applied(imgSubs, prior, vs, s) && s.err.None? && Usable(|imgSubs|, line)
    ensures forall k :: 0 <= k < |vs + [line]| ==> Usable(|imgSubs|, (vs + [line])[k])
    ensures Applied(imgSubs, prior, vs + [line], ApplyLine(imgSubs, s, batch, Success(line)))
  {
    var n, r, ws := |imgSubs|, ApplyLine(imgSubs, s, batch, Success(line)), vs + [line];
    assert forall k :: 0 <= k < |ws| ==> Usable(n, ws[k]) by {
      forall k | 0 <= k < |ws| ensures Usable(n, ws[k]) {
        if k < |vs| { assert ws[k] == vs[k]; }
      }
    }
    assert ws[..|vs|] == vs;
    SumOverAppend(vs, [line], LinePrompt);
    SumOverAppend(vs, [line], LineCompletion);
    SumOverSingle(line, LinePrompt);
    SumOverSingle(line, LineCompletion);
    forall i | 0 <= i < n
      ensures r.slots[i] == Answered(imgSubs, prior.slots[i], ws, i)
    {
    }
  }

  /** Read to the end, a file's lines leave each slot with the last answer tagged for it, and the usage counts add up. */
  lemma {:induction false} ApplyLinesEffect(imgSubs: seq<ImageSubtitle>, st: Demux, batch: nat, lines: seq<Result<ResponseLine, string>>)
    requires |st.slots| == |imgSubs| && st.err.None?
    requires CleanLines(|imgSubs|, lines)
    ensures (CleanValuesUsable(|imgSubs|, lines); Applied(imgSubs, st, Values(lines), ApplyLines(imgSubs, st, batch, lines)))
    decreases |lines|
  {
    if |lines| > 0 {
      var init := lines[..|lines| - 1];
      ApplyLinesEffect(imgSubs, st, batch, init);
      ApplyLinesStops(imgSubs, st, batch, init);
      ValuesSnoc(lines);
      CleanValuesUsable(|imgSubs|, init);
      ApplyUsableLine(imgSubs, st, Values(init), ApplyLines(imgSubs, st, batch, init), batch, lines[|lines| - 1].value);
    }
  }

  /** A file is read to the end exactly when it is clean, with the effect of its lines. */
  lemma ApplyFileSpec(imgSubs: seq<ImageSubtitle>, st: Demux, batch: nat, file: ResultFile)
    requires |st.slots| == |imgSubs| && st.err.None?
    ensures ApplyFile(imgSubs, st, batch, file).err.None? <==> CleanFile(|imgSubs|, file)
    ensures CleanFile(|imgSubs|, file) ==>
      (CleanValuesUsable(|imgSubs|, file.lines); Applied(imgSubs, st, Values(file.lines), ApplyFile(imgSubs, st, batch, file)))
  {
    if file.Content? {
      ApplyLinesStops(imgSubs, st, batch, file.lines);
      if CleanFile(|imgSubs|, file) {
        ApplyLinesEffect(imgSubs, st, batch, file.lines);
      }
    }
  }

  lemma {:induction false} ResponsesUsable(n: nat, files: seq<ResultFile>)
    requires Clean(n, files)
    ensures forall k :: 0 <= k < |Responses(files)| ==> Usable(n, Responses(files)[k])
  {
    if |files| > 0 {
      var init := files[..|files| - 1];
      ResponsesUsable(n, init);
      CleanValuesUsable(n, files[|files| - 1].lines);
    }
  }

  /** The result files are read to the end exactly when they are all clean. */
  lemma {:induction false} ReadResultsStops(imgSubs: seq<ImageSubtitle>, files: seq<ResultFile>)
    ensures ReadResults(imgSubs, files).err.None? <==> Clean(|imgSubs|, files)
    decreases |files|
  {
    if |files| > 0 {
      var n, b := |imgSubs|, |files| - 1;
      var init := files[..b];
      ReadResultsStops(imgSubs, init);
      assert Clean(n, files) <==> Clean(n, init) && CleanFile(n, files[b]);
      var s := ReadResults(imgSubs, init);
      if s.err.None? {
        ApplyFileSpec(imgSubs, s, b, files[b]);
      }
    }
  }

  /** Read to the end, slot `i` holds the last answer tagged `i` in any file (the zero value if none), and the totals add up every answer. */
  lemma {:induction false} ReadResultsEffect(imgSubs: seq<ImageSubtitle>, files: seq<ResultFile>)
    requires Clean(|imgSubs|, files)
    ensures (ResponsesUsable(|imgSubs|, files); Applied(imgSubs, Start(|imgSubs|), Responses(files), ReadResults(imgSubs, files)))
    decreases |files|
  {
    if |files| > 0 {
      var n, b := |imgSubs|, |files| - 1;
      var init := files[..b];
      assert Clean(n, init);
      ReadResultsEffect(imgSubs, init);
      ReadResultsStops(imgSubs, init);
      var s := ReadResults(imgSubs, init);
      ApplyFileSpec(imgSubs, s, b, files[b]);
      var rs, last := Responses(init), Values(files[b].lines);
      ResponsesUsable(n, init);
      CleanValuesUsable(n, files[b].lines);
      SumOverAppend(rs, last, LinePrompt);
      SumOverAppend(rs, last, LineCompletion);
      forall i | 0 <= i < n
        ensures ReadResults(imgSubs, files).slots[i] == Answered(imgSubs, ZeroSubtitle, rs + last, i)
      {
        AnsweredAppend(imgSubs, ZeroSubtitle, rs, last, i);
      }
      assert Responses(files) == rs + last;
    }
  }

  /**
   The result files are read to the end exactly when they are all clean; slot
   `i` then holds the last answer tagged `i` in any file (the zero value if
   none), and the totals add up every answer.
   */
  lemma ReadResultsSpec(imgSubs: seq<ImageSubtitle>, files: seq<ResultFile>)
    ensures ReadResults(imgSubs, files).err.None? <==> Clean(|imgSubs|, files)
    ensures Clean(|imgSubs|, files) ==>
      (ResponsesUsable(|imgSubs|, files); Applied(imgSubs, Start(|imgSubs|), Responses(files), ReadResults(imgSubs, files)))
  {
    ReadResultsStops(imgSubs, files);
    if Clean(|imgSubs|, files) {
      ReadResultsEffect(imgSubs, files);
    }
  }

  // ---------------------------------------------------------------------------
  // Round trip with the request tags.

  /** The answers to the requests, image `i`'s answer tagged with the decimal text of `i`. */
  function Tagged(answers: seq<ChatCompletion>): (rs: seq<ResponseLine>)
    ensures |rs| == |answers|
    ensures forall i :: 0 <= i < |answers| ==> rs[i] == ResponseLine(Itoa(i), answers[i])
  {
    seq(|answers|, i requires 0 <= i < |answers| => ResponseLine(Itoa(i), answers[i]))
  }

  lemma TaggedUsable(answers: seq<ChatCompletion>, i: nat)
    requires i < |answers| && |answers[i].choices| >= 1 && |answers| <= MaxInt64 + 1
    ensures Usable(|answers|, Tagged(answers)[i]) && SlotOf(|answers|, Tagged(answers)[i]) == i
  {
    AtoiItoa(i);
  }

  /** Each line of a delivered file is among the responses. */
  lemma {:induction false} ResponsesContain(files: seq<ResultFile>, b: nat, k: nat)
    requires Delivered(files) && b < |files| && k < |files[b].lines|
    ensures Values(files[b].lines)[k] in Responses(files)
    decreases |files|
  {
    var init := files[..|files| - 1];
    if b < |files| - 1 {
      ResponsesContain(init, b, k);
    }
  }

  /** When every answer tagged `i` is `line` and there is one, slot `i` ends up filled from `line`. */
  lemma {:induction false} AnsweredOnly(imgSubs: seq<ImageSubtitle>, prior: SrtSubtitle, rs: seq<ResponseLine>, i: nat, line: ResponseLine)
    requires i < |imgSubs|
    requires forall k :: 0 <= k < |rs| ==> Usable(|imgSubs|, rs[k])
    requires forall k :: 0 <= k < |rs| && SlotOf(|imgSubs|, rs[k]) == i ==> rs[k] == line
    requires line in rs && Usable(|imgSubs|, line) && SlotOf(|imgSubs|, line) == i
    ensures Answered(imgSubs, prior, rs, i) == Fill(imgSubs, i, line)
    decreases |rs|
  {
    var init := rs[..|rs| - 1];
    if rs[|rs| - 1] != line {
      assert line in init by {
        var k :| 0 <= k < |rs| && rs[k] == line;
        assert k < |rs| - 1;
        assert init[k] == line;
      }
      AnsweredOnly(imgSubs, prior, init, i, line);
    }
  }

  /**
   Round trip through the batch API: when the result files hold exactly the
   tagged answers, in any order and spread over the files in any way, every
   slot gets its own image's times and answer, and the totals are those of
   all answers.
   */
  lemma ResultsRoundTrip(imgSubs: seq<ImageSubtitle>, answers: seq<ChatCompletion>, files: seq<ResultFile>)
    requires |answers| == |imgSubs| <= MaxInt64 + 1
    requires forall i :: 0 <= i < |answers| ==> |answers[i].choices| >= 1
    requires Delivered(files) && multiset(Responses(files)) == multiset(Tagged(answers))
    ensures var r := ReadResults(imgSubs, files);
      && r.err.None?
      && (forall i :: 0 <= i < |imgSubs| ==>
            r.slots[i] == SrtSubtitle(imgSubs[i].startTime, imgSubs[i].endTime, answers[i].choices[0]))
      && r.promptTokens == SumOver(Tagged(answers), LinePrompt)
      && r.completionTokens == SumOver(Tagged(answers), LineCompletion)
  {
    var n, rs, tagged := |imgSubs|, Responses(files), Tagged(answers);
    forall k | 0 <= k < |rs|
      ensures exists i :: 0 <= i < n && rs[k] == tagged[i]
    {
      assert rs[k] in multiset(tagged);
    }
    forall k | 0 <= k < |rs|
      ensures Usable(n, rs[k])
    {
      var i :| 0 <= i < n && rs[k] == tagged[i];
      TaggedUsable(answers, i);
    }
    assert Clean(n, files) by {
      forall b, k | 0 <= b < |files| && 0 <= k < |files[b].lines|
        ensures Usable(n, files[b].lines[k].value)
      {
        ResponsesContain(files, b, k);
      }
    }
    ReadResultsSpec(imgSubs, files);
    var r := ReadResults(imgSubs, files);
    forall i | 0 <= i < n
      ensures r.slots[i] == SrtSubtitle(imgSubs[i].startTime, imgSubs[i].endTime, answers[i].choices[0])
    {
      TaggedUsable(answers, i);
      assert tagged[i] in multiset(rs);
      forall k | 0 <= k < |rs| && SlotOf(n, rs[k]) == i
        ensures rs[k] == tagged[i]
      {
        var j :| 0 <= j < n && rs[k] == tagged[j];
        TaggedUsable(answers, j);
      }
      AnsweredOnly(imgSubs, ZeroSubtitle, rs, i, tagged[i]);
    }
    SumOverPermutation(rs, tagged, LinePrompt);
    SumOverPermutation(rs, tagged, LineCompletion);
  }
}
