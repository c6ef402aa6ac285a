/**
 PGS display-set pairing (pgs.go): the callback `ParsePGSFile` hands to the
 external PGS parser, as a fold over the display sets that parser reports.
 A display set carrying an image opens a subtitle; the next one without an
 image closes it at its own start time. The parser itself may fail too (a
 file it cannot open or read, a malformed segment): that failure is an input,
 arriving after the display sets it reported.
 */
module Pgs {
  import opened Outcomes
  import opened Media

  /** What `ToImageData` makes of a display set: an image, no image (metadata only), or an error. */
  datatype DisplayContent = Picture(image: Bitmap) | NoPicture | Undecodable(reason: string)

  /** One display set as the parser reports it, with its presentation time. */
  datatype DisplaySet = DisplaySet(content: DisplayContent, startTime: Duration)

  /** `CompletePGSSub`: an image with the times it is shown and hidden. */
  datatype CompletePgsSub = CompletePgsSub(image: Bitmap, startTime: Duration, endTime: Duration)

  /**
   The errors `ParsePGSFile` returns: the callback's three, with the position
   of the offending display set, and the parser's own failure.
   */
  datatype PgsError =
    | DecodeFailed(at: nat, reason: string)
    | ImageWhilePending(at: nat)
    | EndWithoutStart(at: nat)
    | ParserFailed(reason: string)

  /** A subtitle whose image has been seen but whose end time has not. */
  datatype Opened = Opened(image: Bitmap, startTime: Duration)

  /** The callback's state: the subtitles closed so far and `currentSub`. */
  datatype Pairing = Pairing(subs: seq<CompletePgsSub>, pending: Option<Opened>)

  /** What `ParsePGSFile` returns: the subtitles closed before any error, and the error. */
  datatype ParseOutcome = ParseOutcome(subs: seq<CompletePgsSub>, err: Option<PgsError>)

  /** The callback on the display set at position `at`. */
  function Step(p: Pairing, ds: DisplaySet, at: nat): Result<Pairing, PgsError> {
    match ds.content
    case Undecodable(reason) => Failure(DecodeFailed(at, reason))
    case Picture(image) =>
      if p.pending.Some? then Failure(ImageWhilePending(at))
      else Success(Pairing(p.subs, Some(Opened(image, ds.startTime))))
    case NoPicture =>
      if p.pending.None? then Failure(EndWithoutStart(at))
      else
        var o := p.pending.value;
        Success(Pairing(p.subs + [CompletePgsSub(o.image, o.startTime, ds.startTime)], None))
  }

  /** The callback applied to each display set in turn; the first error stops the parser. */
  function Fold(sets: seq<DisplaySet>): (Pairing, Option<PgsError>)
    decreases |sets|
  {
    if |sets| == 0 then (Pairing([], None), None)
    else
      var (p, err) := Fold(sets[..|sets| - 1]);
      if err.Some? then (p, err)
      else
        match Step(p, sets[|sets| - 1], |sets| - 1)
        case Success(q) => (q, None)
        case Failure(e) => (p, Some(e))
  }

  /**
   `ParsePGSFile`: the closed subtitles and the error; a subtitle still open at
   the end is dropped. `sets` are the display sets the parser reports and
   `failure` the parser's own error after them, if any; the callback's first
   error stops the parser before it.
   */
  function ParsePgs(sets: seq<DisplaySet>, failure: Option<string>): ParseOutcome {
    var (p, err) := Fold(sets);
    ParseOutcome(p.subs, if err.Some? then err else if failure.Some? then Some(ParserFailed(failure.value)) else None)
  }

  // ---------------------------------------------------------------------------
  // The shape of a well-paired stream, stated independently of the fold.

  /** Display sets alternate: an image at every even position, no image at every odd one. */
  predicate Fits(ds: DisplaySet, k: nat) {
    if k % 2 == 0 then ds.content.Picture? else ds.content.NoPicture?
  }

  /** The position of the first display set that breaks the alternation, or `|sets|`. */
  function FirstBreak(sets: seq<DisplaySet>): (k: nat)
    ensures k <= |sets|
    ensures forall j :: 0 <= j < k ==> Fits(sets[j], j)
    ensures k < |sets| ==> !Fits(sets[k], k)
  {
    FirstBreakFrom(sets, 0)
  }

  function FirstBreakFrom(sets: seq<DisplaySet>, from: nat): (k: nat)
    requires from <= |sets|
    requires forall j :: 0 <= j < from ==> Fits(sets[j], j)
    ensures from <= k <= |sets|
    ensures forall j :: 0 <= j < k ==> Fits(sets[j], j)
    ensures k < |sets| ==> !Fits(sets[k], k)
    decreases |sets| - from
  {
    if from == |sets| || !Fits(sets[from], from) then from else FirstBreakFrom(sets, from + 1)
  }

  /** The error a display set out of turn at position `k` provokes. */
  function BreakError(ds: DisplaySet, k: nat): PgsError
    requires !Fits(ds, k)
  {
    match ds.content
    case Undecodable(reason) => DecodeFailed(k, reason)
    case Picture(_) => ImageWhilePending(k)
    case NoPicture => EndWithoutStart(k)
  }

  /** The `j`-th pair: the image at `2j`, shown from its time until the time of the ds at `2j + 1`. */
  function PairedSub(sets: seq<DisplaySet>, j: nat): CompletePgsSub
    requires 2 * j + 1 < |sets| && sets[2 * j].content.Picture?
  {
    CompletePgsSub(sets[2 * j].content.image, sets[2 * j].startTime, sets[2 * j + 1].startTime)
  }

  /** In an alternating stream, every even position holds an image. */
  lemma EvenIsPicture(sets: seq<DisplaySet>, j: nat)
    requires forall i :: 0 <= i < |sets| ==> Fits(sets[i], i)
    requires 2 * j < |sets|
    ensures sets[2 * j].content.Picture?
  {
    assert Fits(sets[2 * j], 2 * j);
  }

  /** The state after an alternating stream: its complete pairs, and its last image if the count is odd. */
  predicate PairedState(sets: seq<DisplaySet>, p: Pairing)
    requires forall j :: 0 <= j < |sets| ==> Fits(sets[j], j)
  {
    && |p.subs| == |sets| / 2
    && (forall j :: 0 <= j < |sets| / 2 ==> (EvenIsPicture(sets, j); p.subs[j] == PairedSub(sets, j)))
    && (if |sets| % 2 == 0 then p.pending.None?
        else
          EvenIsPicture(sets, |sets| / 2);
          p.pending == Some(Opened(sets[|sets| - 1].content.image, sets[|sets| - 1].startTime)))
  }

  lemma {:induction false} FoldOfAlternating(sets: seq<DisplaySet>)
    requires forall j :: 0 <= j < |sets| ==> Fits(sets[j], j)
    ensures Fold(sets).1.None?
    ensures PairedState(sets, Fold(sets).0)
    decreases |sets|
  {
    if |sets| > 0 {
      var n := |sets|;
      var init := sets[..n - 1];
      FoldOfAlternating(init);
      var p := Fold(init).0;
      if n % 2 == 0 {
        var q := Fold(sets).0;
        assert q.subs == p.subs + [PairedSub(sets, n / 2 - 1)];
        forall j | 0 <= j < n / 2
          ensures q.subs[j] == PairedSub(sets, j)
        {
          if j < n / 2 - 1 {
            assert p.subs[j] == PairedSub(init, j);
          }
        }
      }
    }
  }

  /** Once the fold has failed, later display sets change nothing. */
  lemma {:induction false} FoldKeepsError(sets: seq<DisplaySet>, m: nat)
    requires m <= |sets| && Fold(sets[..m]).1.Some?
    ensures Fold(sets) == Fold(sets[..m])
    decreases |sets| - m
  {
    if m < |sets| {
      var longer := sets[..m + 1];
      assert longer[..m] == sets[..m];
      assert Fold(longer) == Fold(sets[..m]);
      FoldKeepsError(sets, m + 1);
    } else {
      assert sets[..m] == sets;
    }
  }

  /**
   The callback over any stream of display sets: the pairs of the alternating
   prefix, in order, and an error exactly when some display set comes out of
   turn, naming the first one and why.
   */
  lemma {:induction false} FoldSpec(sets: seq<DisplaySet>)
    ensures var f, k := Fold(sets), FirstBreak(sets);
      && (f.1.None? <==> k == |sets|)
      && (k < |sets| ==> f.1 == Some(BreakError(sets[k], k)))
      && |f.0.subs| == k / 2
      && (forall j :: 0 <= j < k / 2 ==> f.0.subs[j] == PairedSub(sets, j))
  {
    var k := FirstBreak(sets);
    var good := sets[..k];
    FoldOfAlternating(good);
    if k == |sets| {
      assert good == sets;
    } else {
      var upto := sets[..k + 1];
      assert upto[..k] == good;
      FoldKeepsError(sets, k + 1);
      forall j | 0 <= j < k / 2
        ensures PairedSub(good, j) == PairedSub(sets, j)
      {
      }
    }
  }

  /**
   What `ParsePGSFile` returns for any stream of display sets: the pairs of the
   alternating prefix, in order, and an error exactly when some display set
   comes out of turn, naming the first one and why, or when the parser itself
   fails after a stream that alternates throughout.
   */
  lemma ParsePgsSpec(sets: seq<DisplaySet>, failure: Option<string>)
    ensures var r, k := ParsePgs(sets, failure), FirstBreak(sets);
      && (r.err.None? <==> k == |sets| && failure.None?)
      && (k < |sets| ==> r.err == Some(BreakError(sets[k], k)))
      && (k == |sets| && failure.Some? ==> r.err == Some(ParserFailed(failure.value)))
      && |r.subs| == k / 2
      && (forall j :: 0 <= j < k / 2 ==> r.subs[j] == PairedSub(sets, j))
  {
    FoldSpec(sets);
  }

  // ---------------------------------------------------------------------------
  // Round trip: the display sets a list of subtitles produces pairs back into it.

  /** The display sets that show `subs` one after another: an image at each start, a clear at each end. */
  function Events(subs: seq<CompletePgsSub>): (sets: seq<DisplaySet>)
    ensures |sets| == 2 * |subs|
  {
    seq(2 * |subs|, i requires 0 <= i < 2 * |subs| =>
      if i % 2 == 0 then DisplaySet(Picture(subs[i / 2].image), subs[i / 2].startTime)
      else DisplaySet(NoPicture, subs[i / 2].endTime))
  }

  /**
   Pairing the events of `subs` gives `subs` back, even when an image no clear
   follows is appended; a parser failure after them keeps every subtitle and
   is the error.
   */
  lemma PairEvents(subs: seq<CompletePgsSub>, trailing: Option<DisplaySet>, failure: Option<string>)
    requires trailing.Some? ==> trailing.value.content.Picture?
    ensures var sets := Events(subs) + (if trailing.Some? then [trailing.value] else []);
      && ParsePgs(sets, failure).subs == subs
      && (ParsePgs(sets, failure).err.None? <==> failure.None?)
      && (failure.Some? ==> ParsePgs(sets, failure).err == Some(ParserFailed(failure.value)))
  {
    var ev := Events(subs);
    var sets := ev + (if trailing.Some? then [trailing.value] else []);
    assert forall j :: 0 <= j < |sets| ==> Fits(sets[j], j);
    ParsePgsSpec(sets, failure);
    var r := ParsePgs(sets, failure);
    assert |r.subs| == |subs|;
    forall j | 0 <= j < |subs|
      ensures r.subs[j] == subs[j]
    {
      assert r.subs[j] == PairedSub(sets, j);
      assert sets[2 * j] == ev[2 * j] && sets[2 * j + 1] == ev[2 * j + 1];
    }
  }
}
