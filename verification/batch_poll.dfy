/**
 The wait loop of `OCRBatched` (ocr_batch.go): every minute each scheduled
 batch is fetched again, a changed status is acted on, and the loop ends when
 all batches are completed, when one fails, or when the context is done. On an
 error exit, batches that may still be running get a cancel request.
 The remote `Batches.Get` is an oracle: each tick comes with its replies.
 This is the middle stage of `OCRBatched`, between BatchChunking and
 BatchDemux, which model the other parts of the same file.
 */
module BatchPoll {
  import opened Outcomes

  /** The batch statuses of the batch API, plus any other text the server may send. */
  datatype BatchStatus =
    | Validating
    | Failed
    | InProgress
    | Finalizing
    | Completed
    | Expired
    | Cancelling
    | Cancelled
    | Unrecognised(raw: string)

  function ToWire(s: BatchStatus): string {
    match s
    case Validating => "validating"
    case Failed => "failed"
    case InProgress => "in_progress"
    case Finalizing => "finalizing"
    case Completed => "completed"
    case Expired => "expired"
    case Cancelling => "cancelling"
    case Cancelled => "cancelled"
    case Unrecognised(raw) => raw
  }

  predicate KnownWire(w: string) {
    w in ["validating", "failed", "in_progress", "finalizing", "completed", "expired", "cancelling", "cancelled"]
  }

  function FromWire(w: string): BatchStatus {
    if w == "validating" then Validating
    else if w == "failed" then Failed
    else if w == "in_progress" then InProgress
    else if w == "finalizing" then Finalizing
    else if w == "completed" then Completed
    else if w == "expired" then Expired
    else if w == "cancelling" then Cancelling
    else if w == "cancelled" then Cancelled
    else Unrecognised(w)
  }

  /** Every status text is read and written back unchanged. */
  lemma WireRoundTrip(w: string)
    ensures ToWire(FromWire(w)) == w
    ensures FromWire(w).Unrecognised? <==> !KnownWire(w)
  {
  }

  /** Every status whose text is its own reads back as itself. */
  lemma StatusRoundTrip(s: BatchStatus)
    requires s.Unrecognised? ==> !KnownWire(s.raw)
    ensures FromWire(ToWire(s)) == s
  {
  }

  /** The zero value of a Go `BatchStatus`: what `previousBatchesStatus` starts with. */
  const NeverSeen: BatchStatus := Unrecognised("")

  // ---------------------------------------------------------------------------
  // One status, one decision.

  datatype StepAction = KeepWaiting | Abort | CheckAllDone

  /** The statuses that end the wait with an error. */
  predicate EndsInError(s: BatchStatus) {
    s == Failed || s == Expired || s == Cancelled
  }

  /** The status switch: what a newly seen status of one batch leads to. */
  function StatusStep(s: BatchStatus): (a: StepAction)
    ensures a == Abort <==> EndsInError(s)
    ensures a == CheckAllDone <==> s == Completed
    ensures a == KeepWaiting <==> !EndsInError(s) && s != Completed
  {
    match s
    case Validating => KeepWaiting
    case Failed => Abort
    case InProgress => KeepWaiting
    case Finalizing => KeepWaiting
    case Completed => CheckAllDone
    case Expired => Abort
    case Cancelling => KeepWaiting
    case Cancelled => Abort
    case Unrecognised(_) => KeepWaiting
  }

  /** Why the wait ended early, with the index of the batch concerned. */
  datatype AbortReason =
    | BatchFailed(batch: nat)
    | BatchExpired(batch: nat)
    | BatchCancelled(batch: nat)
    | GetStatusFailed(batch: nat)
    | ContextEnded

  function AbortFor(s: BatchStatus, k: nat): AbortReason
    requires EndsInError(s)
  {
    if s == Failed then BatchFailed(k) else if s == Expired then BatchExpired(k) else BatchCancelled(k)
  }

  // ---------------------------------------------------------------------------
  // One tick of the ticker.

  /**
   `current` is the status last fetched for each batch (`scheduledBatches`),
   `previous` the status last acted on (`previousBatchesStatus`).
   */
  datatype PollState = PollState(current: seq<BatchStatus>, previous: seq<BatchStatus>)

  predicate Valid(st: PollState) {
    |st.current| == |st.previous|
  }

  /**
   The state before the first tick: the statuses `Batches.New` returned, none
   acted on yet. It satisfies the invariant every tick keeps (`Consistent`).
   */
  function Initial(scheduled: seq<BatchStatus>): (st: PollState)
    ensures Valid(st) && st.current == scheduled
    ensures forall k :: 0 <= k < |scheduled| ==> st.previous[k] == NeverSeen
    ensures Consistent(st)
  {
    PollState(scheduled, seq(|scheduled|, _ => NeverSeen))
  }

  /** What one `Batches.Get` call returns. */
  datatype GetReply = Got(status: BatchStatus) | GetFailed

  datatype TickOutcome =
    | Waiting(st: PollState)
    | AllDone(st: PollState)
    | Aborted(st: PollState, reason: AbortReason)

  predicate AllCompleted(statuses: seq<BatchStatus>) {
    forall k :: 0 <= k < |statuses| ==> statuses[k] == Completed
  }

  /**
   The tick's loop from batch `k` on, corrected: a failed fetch keeps the
   batch's last status, so that the cancel pass still sees it. The code as
   written stores nil there; see StoreReplyAsWritten.
   */
  function TickFrom(st: PollState, replies: seq<GetReply>, k: nat): (r: TickOutcome)
    requires Valid(st) && |replies| == |st.current| && k <= |replies|
    ensures Valid(r.st) && |r.st.current| == |st.current|
    decreases |replies| - k
  {
    if k == |replies| then Waiting(st)
    else
      match replies[k]
      case GetFailed => Aborted(st, GetStatusFailed(k))
      case Got(s) =>
        var current := st.current[k := s];
        if st.previous[k] == s then TickFrom(PollState(current, st.previous), replies, k + 1)
        else
          var next := PollState(current, st.previous[k := s]);
          match StatusStep(s)
          case KeepWaiting => TickFrom(next, replies, k + 1)
          case Abort => Aborted(next, AbortFor(s, k))
          case CheckAllDone => if AllCompleted(current) then AllDone(next) else TickFrom(next, replies, k + 1)
  }

  function Tick(st: PollState, replies: seq<GetReply>): (r: TickOutcome)
    requires Valid(st) && |replies| == |st.current|
    ensures Valid(r.st) && |r.st.current| == |st.current|
  {
    TickFrom(st, replies, 0)
  }

  /** A tick reports completion only when every batch's last fetched status is `Completed`. */
  lemma {:induction false} TickDoneMeansAllCompleted(st: PollState, replies: seq<GetReply>, k: nat)
    requires Valid(st) && |replies| == |st.current| && k <= |replies|
    ensures TickFrom(st, replies, k).AllDone? ==> AllCompleted(TickFrom(st, replies, k).st.current)
    decreases |replies| - k
  {
    if k < |replies| && replies[k].Got? {
      var s := replies[k].status;
      var current := st.current[k := s];
      if st.previous[k] == s {
        TickDoneMeansAllCompleted(PollState(current, st.previous), replies, k + 1);
      } else {
        TickDoneMeansAllCompleted(PollState(current, st.previous[k := s]), replies, k + 1);
      }
    }
  }

  /**
   Why a tick aborts: the first failed fetch, or a batch whose status newly
   became Failed, Expired or Cancelled; every batch before it was fetched.
   */
  lemma {:induction false} TickAbortCause(st: PollState, replies: seq<GetReply>, k: nat)
    requires Valid(st) && |replies| == |st.current| && k <= |replies|
    ensures var r := TickFrom(st, replies, k);
      r.Aborted? ==>
        && r.reason != ContextEnded
        && k <= r.reason.batch < |replies|
        && (forall j :: k <= j < r.reason.batch ==> replies[j].Got?)
        && (replies[r.reason.batch].GetFailed? <==> r.reason == GetStatusFailed(r.reason.batch))
        && (replies[r.reason.batch].Got? ==>
              var s := replies[r.reason.batch].status;
              EndsInError(s) && st.previous[r.reason.batch] != s && r.reason == AbortFor(s, r.reason.batch))
    decreases |replies| - k
  {
    if k < |replies| && replies[k].Got? {
      var s := replies[k].status;
      var current := st.current[k := s];
      if st.previous[k] == s {
        TickAbortCause(PollState(current, st.previous), replies, k + 1);
      } else {
        TickAbortCause(PollState(current, st.previous[k := s]), replies, k + 1);
      }
    }
  }

  /** Every batch acted on as `Completed` still has `Completed` as its last fetched status. */
  predicate Consistent(st: PollState)
    requires Valid(st)
  {
    forall k :: 0 <= k < |st.current| && st.previous[k] == Completed ==> st.current[k] == Completed
  }

  lemma {:induction false} TickKeepsConsistent(st: PollState, replies: seq<GetReply>, k: nat)
    requires Valid(st) && |replies| == |st.current| && k <= |replies| && Consistent(st)
    ensures Consistent(TickFrom(st, replies, k).st)
    decreases |replies| - k
  {
    if k < |replies| && replies[k].Got? {
      var s := replies[k].status;
      var current := st.current[k := s];
      if st.previous[k] == s {
        TickKeepsConsistent(PollState(current, st.previous), replies, k + 1);
      } else {
        TickKeepsConsistent(PollState(current, st.previous[k := s]), replies, k + 1);
      }
    }
  }

  /**
   Liveness of one tick: when every fetch returns `Completed` and some batch was
   not yet acted on as completed, the tick ends the wait.
   */
  lemma {:induction false} CompletedRepliesFinish(st: PollState, replies: seq<GetReply>, k: nat)
    requires Valid(st) && |replies| == |st.current| && k <= |replies| && Consistent(st)
    requires forall j :: 0 <= j < |replies| ==> replies[j] == Got(Completed)
    requires forall j :: 0 <= j < k ==> st.current[j] == Completed
    requires exists j :: k <= j < |replies| && st.previous[j] != Completed
    ensures TickFrom(st, replies, k).AllDone?
    decreases |replies| - k
  {
    var current := st.current[k := Completed];
    if st.previous[k] == Completed {
      CompletedRepliesFinish(PollState(current, st.previous), replies, k + 1);
    } else if !AllCompleted(current) {
      var j :| 0 <= j < |current| && current[j] != Completed;
      assert k < j && st.previous[j] != Completed;
      var next := PollState(current, st.previous[k := Completed]);
      CompletedRepliesFinish(next, replies, k + 1);
    }
  }

  /** A tick in which every fetched status keeps waiting records them all and goes on waiting. */
  lemma {:induction false} WaitingTick(st: PollState, replies: seq<GetReply>, k: nat)
    requires Valid(st) && |replies| == |st.current| && k <= |replies|
    requires forall j :: 0 <= j < |replies| ==> replies[j].Got? && StatusStep(replies[j].status) == KeepWaiting
    ensures var r := TickFrom(st, replies, k);
      && r.Waiting?
      && (forall j :: k <= j < |replies| ==> r.st.current[j] == replies[j].status && r.st.previous[j] == replies[j].status)
      && (forall j :: 0 <= j < k ==> r.st.current[j] == st.current[j] && r.st.previous[j] == st.previous[j])
    decreases |replies| - k
  {
    if k < |replies| {
      var s := replies[k].status;
      var current := st.current[k := s];
      if st.previous[k] == s {
        WaitingTick(PollState(current, st.previous), replies, k + 1);
      } else {
        WaitingTick(PollState(current, st.previous[k := s]), replies, k + 1);
      }
    }
  }

  // ---------------------------------------------------------------------------
  // The wait loop.

  /** What the `select` picks: the ticker, with this tick's fetch replies, or the end of the context. */
  datatype Event = TimerFired(replies: seq<GetReply>) | ContextDone

  datatype WaitOutcome = StillWaiting(st: PollState) | Finished(st: PollState) | Stopped(st: PollState, reason: AbortReason)

  predicate Fits(st: PollState, events: seq<Event>) {
    forall i :: 0 <= i < |events| && events[i].TimerFired? ==> |events[i].replies| == |st.current|
  }

  /** The wait loop over a sequence of events; `StillWaiting` when the events run out first. */
  function Wait(st: PollState, events: seq<Event>): (r: WaitOutcome)
    requires Valid(st) && Fits(st, events)
    ensures Valid(r.st) && |r.st.current| == |st.current|
    decreases |events|
  {
    if |events| == 0 then StillWaiting(st)
    else
      match events[0]
      case ContextDone => Stopped(st, ContextEnded)
      case TimerFired(replies) =>
        match Tick(st, replies)
        case Waiting(next) => Wait(next, events[1..])
        case AllDone(next) => Finished(next)
        case Aborted(next, reason) => Stopped(next, reason)
  }

  /** The loop exits normally only once every scheduled batch is completed. */
  lemma {:induction false} FinishedMeansAllCompleted(st: PollState, events: seq<Event>)
    requires Valid(st) && Fits(st, events)
    ensures Wait(st, events).Finished? ==> AllCompleted(Wait(st, events).st.current)
    decreases |events|
  {
    if |events| > 0 && events[0].TimerFired? {
      var replies := events[0].replies;
      TickDoneMeansAllCompleted(st, replies, 0);
      var t := Tick(st, replies);
      if t.Waiting? {
        assert Fits(t.st, events[1..]) by {
          forall i | 0 <= i < |events[1..]| && events[1..][i].TimerFired?
            ensures |events[1..][i].replies| == |t.st.current|
          {
            assert events[1..][i] == events[i + 1];
          }
        }
        FinishedMeansAllCompleted(t.st, events[1..]);
      }
    }
  }

  /**
   The end of the context stops the wait at once with the context's error, and
   that error is never reported unless the context did end.
   */
  lemma {:induction false} ContextEndedOnlyOnContextDone(st: PollState, events: seq<Event>)
    requires Valid(st) && Fits(st, events)
    ensures |events| > 0 && events[0] == ContextDone ==> Wait(st, events) == Stopped(st, ContextEnded)
    ensures Wait(st, events).Stopped? && Wait(st, events).reason == ContextEnded ==> ContextDone in events
    decreases |events|
  {
    if |events| > 0 && events[0].TimerFired? {
      var replies := events[0].replies;
      TickAbortCause(st, replies, 0);
      var t := Tick(st, replies);
      if t.Waiting? {
        assert Fits(t.st, events[1..]) by {
          forall i | 0 <= i < |events[1..]| && events[1..][i].TimerFired?
            ensures |events[1..][i].replies| == |t.st.current|
          {
            assert events[1..][i] == events[i + 1];
          }
        }
        ContextEndedOnlyOnContextDone(t.st, events[1..]);
        if ContextDone in events[1..] {
          var i :| 0 <= i < |events[1..]| && events[1..][i] == ContextDone;
          assert events[i + 1] == ContextDone;
        }
      }
    }
  }

  // ---------------------------------------------------------------------------
  // The cancel pass deferred in `OCRBatched`.

  /** Batches that may still be running: any status but Failed, Completed, Cancelling and Cancelled. */
  predicate NeedsCancel(s: BatchStatus) {
    !(s == Failed || s == Completed || s == Cancelling || s == Cancelled)
  }

  /** The indices, in order, of the batches that need a cancel request. */
  function Running(statuses: seq<BatchStatus>): (r: seq<nat>)
    ensures forall i :: 0 <= i < |r| ==> r[i] < |statuses|
    ensures forall i, j :: 0 <= i < j < |r| ==> r[i] < r[j]
    ensures forall i: nat :: i in r <==> i < |statuses| && NeedsCancel(statuses[i])
    decreases |statuses|
  {
    if |statuses| == 0 then []
    else
      var n := |statuses| - 1;
      var r := Running(statuses[..n]);
      if NeedsCancel(statuses[n]) then r + [n] else r
  }

  /** When no batch needs a cancel request, none is sent. */
  lemma {:induction false} NothingRunning(statuses: seq<BatchStatus>)
    requires forall k :: 0 <= k < |statuses| ==> !NeedsCancel(statuses[k])
    ensures Running(statuses) == []
    decreases |statuses|
  {
    if |statuses| > 0 {
      NothingRunning(statuses[..|statuses| - 1]);
    }
  }

  /** The cancel requests sent when `OCRBatched` returns: none on success, every running batch on error. */
  function CancelRequests(failed: bool, statuses: seq<BatchStatus>): (r: seq<nat>)
    ensures !failed ==> r == []
    ensures forall i, j :: 0 <= i < j < |r| ==> r[i] < r[j]
    ensures forall i: nat :: i in r <==> failed && i < |statuses| && NeedsCancel(statuses[i])
  {
    if failed then Running(statuses) else []
  }

  /** An error after the wait completed (while downloading results) cancels nothing: every batch is completed. */
  lemma CancelAfterFinishedIsEmpty(st: PollState, events: seq<Event>, failed: bool)
    requires Valid(st) && Fits(st, events) && Wait(st, events).Finished?
    ensures CancelRequests(failed, Wait(st, events).st.current) == []
  {
    FinishedMeansAllCompleted(st, events);
    NothingRunning(Wait(st, events).st.current);
  }

  /** A failed fetch ends the wait and leaves the batch's last seen status for the cancel pass. */
  lemma {:induction false} GetFailureKeepsLastSeen(st: PollState, replies: seq<GetReply>, k: nat)
    requires Valid(st) && |replies| == |st.current| && k <= |replies|
    ensures var r := TickFrom(st, replies, k);
      r.Aborted? && r.reason.GetStatusFailed? ==>
        var b := r.reason.batch;
        && b < |replies| && replies[b] == GetFailed
        && r.st.current[b] == st.current[b]
        && (b in CancelRequests(true, r.st.current) <==> NeedsCancel(st.current[b]))
    decreases |replies| - k
  {
    if k < |replies| && replies[k].Got? {
      var s := replies[k].status;
      var current := st.current[k := s];
      TickAbortCause(st, replies, k);
      if st.previous[k] == s {
        GetFailureKeepsLastSeen(PollState(current, st.previous), replies, k + 1);
      } else {
        GetFailureKeepsLastSeen(PollState(current, st.previous[k := s]), replies, k + 1);
      }
    }
  }

  // ---------------------------------------------------------------------------
  // As written, a failed fetch overwrites the batch's slot with the nil reply.

  /** The slot update `scheduledBatches[k], err = client.Batches.Get(...)`: a failed call stores nil. */
  function StoreReplyAsWritten(slots: seq<Option<BatchStatus>>, k: nat, reply: GetReply): (r: seq<Option<BatchStatus>>)
    requires k < |slots|
    ensures |r| == |slots|
    ensures r[k].None? <==> reply.GetFailed?
    ensures forall j :: 0 <= j < |slots| && j != k ==> r[j] == slots[j]
  {
    slots[k := if reply.Got? then Some(reply.status) else None]
  }

  /** As written, the deferred cancel pass reads `batch.Status` of every slot: it needs no nil slot. */
  predicate CancelPassDefinedAsWritten(slots: seq<Option<BatchStatus>>) {
    forall j :: 0 <= j < |slots| ==> slots[j].Some?
  }

  /** As written, any failed fetch leaves a nil slot behind, so the cancel pass run on that error path dereferences nil. */
  lemma GetFailureBreaksCancelPassAsWritten(statuses: seq<BatchStatus>, k: nat)
    requires k < |statuses|
    ensures !CancelPassDefinedAsWritten(StoreReplyAsWritten(seq(|statuses|, j requires 0 <= j < |statuses| => Some(statuses[j])), k, GetFailed))
  {
    var r := StoreReplyAsWritten(seq(|statuses|, j requires 0 <= j < |statuses| => Some(statuses[j])), k, GetFailed);
    assert r[k].None?;
  }
}
