/**
 The batching writer: a bounded queue of commands, drained one batch at a time.

 `record` never waits, so it can run whenever a drain is waiting for the
 repository. A drain is therefore cut at its awaits into events, and everything
 below is about arbitrary sequences of events. An append that throws is taken
 not to have committed.
 */
module BatchedAuditWriter {
  import opened AppendProtocol

  datatype Options = Options(maxBatchSize: nat, maxQueueSize: nat, maxFlushAttempts: nat)

  /** Where the one drain there can be is waiting. */
  datatype Stage =
    | NotFlushing
    | Reading(batch: seq<Command>, attempt: nat)    // for the head of the log
    | Appending(batch: seq<Command>, attempt: nat)  // for the append
    | Finishing                                     // done, with its promise not yet cleared

  datatype Settled = Written(batch: seq<Command>) | ReportedFailed(batch: seq<Command>)

  /** The writer's fields, and two histories: commands accepted, and batches disposed of. */
  datatype Writer = Writer(
    queue: seq<Command>,
    stage: Stage,
    enqueued: nat,
    written: nat,
    batches: nat,
    conflicts: nat,
    overflowed: nat,
    largestBatch: nat,
    failedBatches: nat,
    accepted: seq<Command>,
    settled: seq<Settled>)

  datatype Event =
    | Record(command: Command)
    | Flush
    | ReadDone
    | ReadThrew
    | AppendDone
    | AppendRefused
    | AppendThrew
    | Cleared

  function Min(a: nat, b: nat): nat { if a < b then a else b }

  function Max(a: nat, b: nat): nat { if a < b then b else a }

  /** `splice(0, n)` on the queue. */
  function Drop(queue: seq<Command>, n: nat): seq<Command> { queue[Min(n, |queue|)..] }

  function NextBatch(o: Options, queue: seq<Command>): seq<Command> { queue[..Min(o.maxBatchSize, |queue|)] }

  function GiveUp(w: Writer, batch: seq<Command>): Writer {
    w.(queue := Drop(w.queue, |batch|), failedBatches := w.failedBatches + 1,
       settled := w.settled + [ReportedFailed(batch)], stage := Finishing)
  }

  function NextAttempt(o: Options, w: Writer, batch: seq<Command>, attempt: nat): Writer {
    if attempt + 1 < o.maxFlushAttempts then w.(stage := Reading(batch, attempt + 1)) else GiveUp(w, batch)
  }

  function StartFlush(o: Options, w: Writer): Writer {
    if w.stage != NotFlushing then w
    else if w.queue == [] then w.(stage := Finishing)
    else if o.maxFlushAttempts == 0 then GiveUp(w, NextBatch(o, w.queue))
    else w.(stage := Reading(NextBatch(o, w.queue), 0))
  }

  /** One event; an event that does not apply at this stage changes nothing. */
  function Step(o: Options, w: Writer, e: Event): Writer {
    match (e, w.stage)
    case (Record(c), _) =>
      if |w.queue| >= o.maxQueueSize then w.(overflowed := w.overflowed + 1)
      else
        var v := w.(queue := w.queue + [c], enqueued := w.enqueued + 1, accepted := w.accepted + [c]);
        if |v.queue| >= o.maxBatchSize then StartFlush(o, v) else v
    case (Flush, _) => StartFlush(o, w)
    case (ReadDone, Reading(batch, attempt)) => w.(stage := Appending(batch, attempt))
    case (ReadThrew, Reading(batch, attempt)) => NextAttempt(o, w, batch, attempt)
    case (AppendDone, Appending(batch, attempt)) =>
      w.(queue := Drop(w.queue, |batch|), written := w.written + |batch|, batches := w.batches + 1,
         largestBatch := Max(w.largestBatch, |batch|), settled := w.settled + [Written(batch)], stage := Finishing)
    case (AppendRefused, Appending(batch, attempt)) =>
      NextAttempt(o, w.(conflicts := w.conflicts + 1), batch, attempt)
    case (AppendThrew, Appending(batch, attempt)) => NextAttempt(o, w, batch, attempt)
    case (Cleared, Finishing) => w.(stage := NotFlushing)
    case _ => w
  }

  const NEW := Writer([], NotFlushing, 0, 0, 0, 0, 0, 0, 0, [], [])

  function RunFrom(o: Options, w: Writer, events: seq<Event>): Writer
    decreases events
  {
    if events == [] then w else RunFrom(o, Step(o, w, events[0]), events[1..])
  }

  // ---- Conservation --------------------------------------------------------

  function Commands(settled: seq<Settled>): seq<Command> {
    if settled == [] then [] else Commands(settled[..|settled| - 1]) + settled[|settled| - 1].batch
  }

  function WrittenIn(settled: seq<Settled>): nat {
    if settled == [] then 0
    else
      var last := settled[|settled| - 1];
      WrittenIn(settled[..|settled| - 1]) + if last.Written? then |last.batch| else 0
  }

  function CountOf(settled: seq<Settled>, written: bool): nat {
    if settled == [] then 0
    else CountOf(settled[..|settled| - 1], written) + if settled[|settled| - 1].Written? == written then 1 else 0
  }

  function LongestWritten(settled: seq<Settled>): nat {
    if settled == [] then 0
    else
      var before, last := LongestWritten(settled[..|settled| - 1]), settled[|settled| - 1];
      if last.Written? && |last.batch| > before then |last.batch| else before
  }

  /**
   What every event keeps. The drain's batch is still the front of the queue,
   the queue is within its limit, and the accepted commands, in order, are those
   of the settled batches followed by the queue. Every counter but `conflicts` and
   `overflowed` says what the histories say.
   */
  ghost predicate Consistent(o: Options, w: Writer) {
    && (w.stage.Reading? || w.stage.Appending? ==>
        w.stage.batch <= w.queue && |w.stage.batch| <= o.maxBatchSize && w.stage.attempt < o.maxFlushAttempts)
    && |w.queue| <= o.maxQueueSize
    && w.accepted == Commands(w.settled) + w.queue
    && w.enqueued == |w.accepted|
    && w.written == WrittenIn(w.settled)
    && w.batches == CountOf(w.settled, true) && w.failedBatches == CountOf(w.settled, false)
    && w.largestBatch == LongestWritten(w.settled) <= o.maxBatchSize
  }

  lemma {:induction false} SettleOne(settled: seq<Settled>, last: Settled)
    ensures Commands(settled + [last]) == Commands(settled) + last.batch
    ensures WrittenIn(settled + [last]) == WrittenIn(settled) + if last.Written? then |last.batch| else 0
    ensures CountOf(settled + [last], true) == CountOf(settled, true) + if last.Written? then 1 else 0
    ensures CountOf(settled + [last], false) == CountOf(settled, false) + if last.Written? then 0 else 1
    ensures LongestWritten(settled + [last]) ==
      if last.Written? then Max(LongestWritten(settled), |last.batch|) else LongestWritten(settled)
  {
    assert (settled + [last])[..|settled|] == settled;
  }

  lemma GiveUpConsistent(o: Options, w: Writer, batch: seq<Command>)
    requires Consistent(o, w) && batch <= w.queue
    ensures Consistent(o, GiveUp(w, batch))
  {
    SettleOne(w.settled, ReportedFailed(batch));
    assert w.queue == batch + w.queue[|batch|..];
  }

  lemma StartFlushConsistent(o: Options, w: Writer)
    requires Consistent(o, w)
    ensures Consistent(o, StartFlush(o, w))
  {
    GiveUpConsistent(o, w, NextBatch(o, w.queue));
  }

  lemma NextAttemptConsistent(o: Options, w: Writer)
    requires Consistent(o, w) && (w.stage.Reading? || w.stage.Appending?)
    ensures Consistent(o, NextAttempt(o, w, w.stage.batch, w.stage.attempt))
  {
    GiveUpConsistent(o, w, w.stage.batch);
  }

  lemma AppendDoneConsistent(o: Options, w: Writer)
    requires Consistent(o, w) && w.stage.Appending?
    ensures Consistent(o, Step(o, w, AppendDone))
  {
    var batch := w.stage.batch;
    SettleOne(w.settled, Written(batch));
    assert w.queue == batch + w.queue[|batch|..];
  }

  lemma RecordConsistent(o: Options, w: Writer, c: Command)
    requires Consistent(o, w)
    ensures Consistent(o, Step(o, w, Record(c)))
  {
    if |w.queue| < o.maxQueueSize {
      var v := w.(queue := w.queue + [c], enqueued := w.enqueued + 1, accepted := w.accepted + [c]);
      assert v.accepted == Commands(v.settled) + v.queue;
      StartFlushConsistent(o, v);
    }
  }

  lemma StepConsistent(o: Options, w: Writer, e: Event)
    requires Consistent(o, w)
    ensures Consistent(o, Step(o, w, e))
  {
    hide Commands, WrittenIn, CountOf, LongestWritten, GiveUp, NextAttempt, StartFlush;
    match e
    case Record(c) => RecordConsistent(o, w, c);
    case Flush => StartFlushConsistent(o, w);
    case AppendDone => if w.stage.Appending? { AppendDoneConsistent(o, w); }
    case ReadThrew => if w.stage.Reading? { NextAttemptConsistent(o, w); }
    case AppendThrew => if w.stage.Appending? { NextAttemptConsistent(o, w); }
    case AppendRefused => if w.stage.Appending? { NextAttemptConsistent(o, w.(conflicts := w.conflicts + 1)); }
    case ReadDone =>
    case Cleared =>
  }

  /** Conservation over every interleaving of `record` with the steps of a drain. */
  lemma {:induction false} RunConsistent(o: Options, w: Writer, events: seq<Event>)
    requires Consistent(o, w)
    ensures Consistent(o, RunFrom(o, w, events))
    decreases events
  {
    if events != [] {
      StepConsistent(o, w, events[0]);
      RunConsistent(o, Step(o, w, events[0]), events[1..]);
    }
  }

  /** From a new writer: what was accepted is what was settled and what still waits, in order. */
  lemma {:induction false} NothingVanishes(o: Options, events: seq<Event>)
    ensures var w := RunFrom(o, NEW, events);
      && w.accepted == Commands(w.settled) + w.queue
      && |w.queue| <= o.maxQueueSize
      && w.enqueued == |Commands(w.settled)| + |w.queue|
      && w.written == WrittenIn(w.settled) <= |Commands(w.settled)|
  {
    hide RunFrom;
    RunConsistent(o, NEW, events);
    WrittenWithinSettled(RunFrom(o, NEW, events).settled);
  }

  /**
   What the counters say, from a new writer on and over every interleaving: how many
   batches were written and how many reported, the size of the largest one written, and
   how many appends were refused because the head had moved.
   */
  lemma {:induction false} CountersExactly(o: Options, events: seq<Event>)
    ensures var w := RunFrom(o, NEW, events);
      && w.batches == CountOf(w.settled, true) && w.failedBatches == CountOf(w.settled, false)
      && w.batches + w.failedBatches == |w.settled|
      && (forall k | 0 <= k < |w.settled| && w.settled[k].Written? :: |w.settled[k].batch| <= w.largestBatch)
      && (if w.batches == 0 then w.largestBatch == 0 else
            exists k | 0 <= k < |w.settled| :: w.settled[k].Written? && |w.settled[k].batch| == w.largestBatch)
      && w.conflicts == Refusals(o, NEW, events)
  {
    hide RunFrom, Refusals;
    RunConsistent(o, NEW, events);
    ConflictsAreCounted(o, NEW, events);
    CountsAddUp(RunFrom(o, NEW, events).settled);
    LongestIsLargest(RunFrom(o, NEW, events).settled);
  }

  lemma {:induction false} CountsAddUp(settled: seq<Settled>)
    ensures CountOf(settled, true) + CountOf(settled, false) == |settled|
  {
    if settled != [] {
      CountsAddUp(settled[..|settled| - 1]);
    }
  }

  lemma {:induction false} LongestIsLargest(settled: seq<Settled>)
    ensures forall k | 0 <= k < |settled| && settled[k].Written? :: |settled[k].batch| <= LongestWritten(settled)
    ensures if CountOf(settled, true) == 0 then LongestWritten(settled) == 0 else
      exists k | 0 <= k < |settled| :: settled[k].Written? && |settled[k].batch| == LongestWritten(settled)
  {
    if settled != [] {
      var n := |settled| - 1;
      LongestIsLargest(settled[..n]);
      if CountOf(settled[..n], true) > 0 {
        var k :| 0 <= k < n && settled[..n][k].Written? && |settled[..n][k].batch| == LongestWritten(settled[..n]);
        assert settled[k] == settled[..n][k];
      }
      assert forall k | 0 <= k < n :: settled[k] == settled[..n][k];
    }
  }

  /** The appends that were refused. */
  function Refusals(o: Options, w: Writer, events: seq<Event>): nat
    decreases events
  {
    if events == [] then 0
    else
      (if w.stage.Appending? && events[0] == AppendRefused then 1 else 0) +
      Refusals(o, Step(o, w, events[0]), events[1..])
  }

  lemma {:induction false} ConflictsAreCounted(o: Options, w: Writer, events: seq<Event>)
    ensures RunFrom(o, w, events).conflicts == w.conflicts + Refusals(o, w, events)
    decreases events
  {
    if events != [] {
      ConflictsAreCounted(o, Step(o, w, events[0]), events[1..]);
    }
  }

  lemma {:induction false} WrittenWithinSettled(settled: seq<Settled>)
    ensures WrittenIn(settled) <= |Commands(settled)|
  {
    if settled != [] {
      WrittenWithinSettled(settled[..|settled| - 1]);
    }
  }

  /** The histories only grow: an accepted command keeps its place, and a settled batch stays settled. */
  lemma {:induction false} HistoriesGrow(o: Options, w: Writer, events: seq<Event>)
    ensures w.accepted <= RunFrom(o, w, events).accepted
    ensures w.settled <= RunFrom(o, w, events).settled
    decreases events
  {
    if events != [] {
      HistoriesGrow(o, Step(o, w, events[0]), events[1..]);
    }
  }

  // ---- When a drain starts ---------------------------------------------------

  /**
   After any run, an accepted command leaves no full batch waiting without a drain. If
   there was none in flight, one starts on the front of the queue exactly when that
   makes a full batch.
   */
  lemma {:induction false} FullBatchIsDrained(o: Options, events: seq<Event>, c: Command)
    requires |RunFrom(o, NEW, events).queue| < o.maxQueueSize
    ensures var w := RunFrom(o, NEW, events); var v, queue := Step(o, w, Record(c)), w.queue + [c];
      && (v.stage == NotFlushing ==> v.queue == queue && |queue| < o.maxBatchSize)
      && (w.stage == NotFlushing && |queue| >= o.maxBatchSize ==>
          if o.maxFlushAttempts > 0 then v.queue == queue && v.stage == Reading(queue[..o.maxBatchSize], 0)
          else v.stage == Finishing && v.settled == w.settled + [ReportedFailed(queue[..o.maxBatchSize])])
      && (w.stage == NotFlushing && |queue| < o.maxBatchSize ==> v.stage == NotFlushing)
      && (w.stage != NotFlushing ==> v.stage == w.stage && v.queue == queue)
  {
    hide RunFrom;
  }

  /** A flush leaves a promise in flight, even over an empty queue, and it is cleared only when it is done. */
  lemma FlushOccupies(o: Options, w: Writer)
    ensures Step(o, w, Flush).stage != NotFlushing
    ensures w.queue == [] && w.stage == NotFlushing ==> Step(o, w, Flush) == w.(stage := Finishing)
    ensures Step(o, w, Cleared) == if w.stage == Finishing then w.(stage := NotFlushing) else w
  {
  }

  // ---- When `settle` stops -------------------------------------------------

  /** The batch that a pass of `settle` waits for: of a drain it starts, or of the one it joins. */
  function AwaitedBatch(o: Options, w: Writer): seq<Command> {
    match w.stage
    case NotFlushing => NextBatch(o, w.queue)
    case Reading(batch, _) => batch
    case Appending(batch, _) => batch
    case Finishing => []
  }

  /** The next batch to be settled behind `n` settled ones is `batch`, or it was. */
  ghost predicate SettlesNext(w: Writer, n: nat, batch: seq<Command>) {
    if |w.settled| <= n then |w.settled| == n && (w.stage.Reading? || w.stage.Appending?) && w.stage.batch == batch
    else w.settled[n].batch == batch
  }

  lemma StepSettlesNext(o: Options, w: Writer, e: Event, n: nat, batch: seq<Command>)
    requires SettlesNext(w, n, batch)
    ensures SettlesNext(Step(o, w, e), n, batch)
  {
  }

  lemma {:induction false} RunSettlesNext(o: Options, w: Writer, events: seq<Event>, n: nat, batch: seq<Command>)
    requires SettlesNext(w, n, batch)
    ensures SettlesNext(RunFrom(o, w, events), n, batch)
    decreases events
  {
    hide SettlesNext, Step;
    if events != [] {
      StepSettlesNext(o, w, events[0], n, batch);
      RunSettlesNext(o, Step(o, w, events[0]), events[1..], n, batch);
    }
  }

  /** The pass settles the batch it waits for, whatever runs meanwhile. */
  lemma {:induction false} PassSettlesAwaited(o: Options, w: Writer, events: seq<Event>)
    requires w.queue != []
    requires w.stage != Finishing
    requires |RunFrom(o, Step(o, w, Flush), events).settled| == |w.settled| + 1
    ensures RunFrom(o, Step(o, w, Flush), events).settled[|w.settled|].batch == AwaitedBatch(o, w)
  {
    hide RunFrom;
    RunSettlesNext(o, Step(o, w, Flush), events, |w.settled|, AwaitedBatch(o, w));
  }

  /**
   `settle` leaves its loop when a pass did not shorten the queue. A pass begun at
   `w` starts a drain or joins the one in flight, and is over when that drain has
   disposed of its batch; a drain already done has none left to dispose of. Whatever
   ran meanwhile, `settle` stops exactly when at least as many commands were
   accepted during the pass as that batch holds.
   */
  lemma {:induction false} SettleStopsExactly(o: Options, w: Writer, events: seq<Event>)
    requires Consistent(o, w) && w.queue != []
    requires |RunFrom(o, Step(o, w, Flush), events).settled| == |w.settled| + if w.stage == Finishing then 0 else 1
    ensures var v := RunFrom(o, Step(o, w, Flush), events);
      |v.queue| >= |w.queue| <==> |v.accepted| - |w.accepted| >= |AwaitedBatch(o, w)|
  {
    hide RunFrom, Step, AwaitedBatch;
    var v := RunFrom(o, Step(o, w, Flush), events);
    StepConsistent(o, w, Flush);
    RunConsistent(o, Step(o, w, Flush), events);
    FlushThenRun(o, w, events);
    if w.stage == Finishing {
      assert v.settled == w.settled;
      FinishingAwaitsNothing(o, w);
    } else {
      PassSettlesAwaited(o, w, events);
      assert v.settled == w.settled + [v.settled[|w.settled|]];
      SettleOne(w.settled, v.settled[|w.settled|]);
    }
  }

  lemma {:induction false} FlushThenRun(o: Options, w: Writer, events: seq<Event>)
    ensures var v := RunFrom(o, Step(o, w, Flush), events); w.accepted <= v.accepted && w.settled <= v.settled
  {
    HistoriesGrow(o, Step(o, w, Flush), events);
    assert w.settled <= Step(o, w, Flush).settled;
  }

  lemma FinishingAwaitsNothing(o: Options, w: Writer)
    requires w.stage == Finishing
    ensures AwaitedBatch(o, w) == []
  {
  }

  function CallsOfRecord(events: seq<Event>): nat {
    if events == [] then 0 else (if events[0].Record? then 1 else 0) + CallsOfRecord(events[1..])
  }

  /** Every call of `record` is accepted or counted as refused, so what a pass accepts is for its callers to count. */
  lemma {:induction false} RecordsAreCounted(o: Options, w: Writer, events: seq<Event>)
    ensures var v := RunFrom(o, w, events);
      |v.accepted| - |w.accepted| + (v.overflowed - w.overflowed) == CallsOfRecord(events)
    decreases events
  {
    if events != [] {
      RecordsAreCounted(o, Step(o, w, events[0]), events[1..]);
    }
  }

  /** So a command recorded during a successful pass can make `settle` stop with that command still queued. */
  lemma RefillStopsSettle(c: Command)
    ensures var o := Options(2, 10, 3);
      var w := Step(o, NEW, Record(c));
      var v := Step(o, Step(o, Step(o, Step(o, Step(o, w, Flush), ReadDone), Record(c)), AppendDone), Cleared);
      w.queue == [c] && v.stage == NotFlushing && v.settled == [Written([c])] && v.queue == [c]
  {
    var o := Options(2, 10, 3);
    assert NextBatch(o, [c]) == [c];
    assert Drop([c] + [c], 1) == [c];
  }

  // ---- Written or reported ---------------------------------------------------

  /** The event ends an attempt of the drain without success. */
  predicate Fails(w: Writer, e: Event) {
    (w.stage.Reading? && e == ReadThrew) || (w.stage.Appending? && (e == AppendRefused || e == AppendThrew))
  }

  /** The attempts that fail until the next batch behind `n` settled ones is disposed of. */
  function FailedAttempts(o: Options, w: Writer, events: seq<Event>, n: nat): nat
    decreases events
  {
    if events == [] || |w.settled| > n then 0
    else (if Fails(w, events[0]) then 1 else 0) + FailedAttempts(o, Step(o, w, events[0]), events[1..], n)
  }

  /** What has become of the drain that was at `w`, if `failed` attempts have failed since. */
  ghost predicate DrainAfter(o: Options, w: Writer, v: Writer, failed: nat)
    requires w.stage.Reading? || w.stage.Appending?
  {
    var n, left := |w.settled|, o.maxFlushAttempts - w.stage.attempt;
    if |v.settled| > n then
      failed <= left && v.settled[n] == if failed == left then ReportedFailed(w.stage.batch) else Written(w.stage.batch)
    else failed < left
  }

  lemma DrainStep(o: Options, w: Writer, e: Event)
    requires Consistent(o, w) && (w.stage.Reading? || w.stage.Appending?)
    ensures var v, left := Step(o, w, e), o.maxFlushAttempts - w.stage.attempt;
      if |v.settled| > |w.settled| then
        v.settled == w.settled +
          [if Fails(w, e) then ReportedFailed(w.stage.batch) else Written(w.stage.batch)] &&
        (Fails(w, e) ==> left == 1)
      else
        && v.settled == w.settled && (v.stage.Reading? || v.stage.Appending?) && v.stage.batch == w.stage.batch
        && v.stage.attempt == w.stage.attempt + if Fails(w, e) then 1 else 0
  {
    hide Commands, WrittenIn, CountOf, LongestWritten;
  }

  /**
   When a batch is written and when it is reported, over every interleaving: it is
   reported exactly when all the attempts its drain has left fail, and until one
   succeeds or all have failed the drain goes on with it.
   */
  lemma {:induction false} ReportedExactly(o: Options, w: Writer, events: seq<Event>)
    requires Consistent(o, w) && (w.stage.Reading? || w.stage.Appending?)
    ensures DrainAfter(o, w, RunFrom(o, w, events), FailedAttempts(o, w, events, |w.settled|))
    decreases events
  {
    hide Step, Fails;
    if events != [] {
      var v := Step(o, w, events[0]);
      StepConsistent(o, w, events[0]);
      DrainStep(o, w, events[0]);
      HistoriesGrow(o, v, events[1..]);
      if |v.settled| == |w.settled| {
        ReportedExactly(o, v, events[1..]);
      }
    }
  }

  /** For instance, an accepted command whose two attempts fail is reported and never written. */
  lemma AcceptedIsReported(c: Command)
    ensures var w := RunFrom(Options(1, 10, 2), NEW, [Record(c), ReadDone, AppendRefused, ReadThrew]);
      w.accepted == [c] && w.settled == [ReportedFailed([c])] && w.queue == [] && w.written == 0
  {
    var o := Options(1, 10, 2);
    var w0 := Step(o, NEW, Record(c));
    assert NextBatch(o, [] + [c]) == [c];
    assert w0.stage == Reading([c], 0) && w0.queue == [c] && w0.accepted == [c];
    var w1 := Step(o, w0, ReadDone);
    var w2 := Step(o, w1, AppendRefused);
    assert w2.stage == Reading([c], 1);
    var w3 := Step(o, w2, ReadThrew);
    RunOfFour(o, Record(c), ReadDone, AppendRefused, ReadThrew);
  }

  lemma {:induction false} RunOfFour(o: Options, a: Event, b: Event, c: Event, d: Event)
    ensures RunFrom(o, NEW, [a, b, c, d]) == Step(o, Step(o, Step(o, Step(o, NEW, a), b), c), d)
  {
    hide Step;
    var w := Step(o, NEW, a);
    assert [a, b, c, d][1..] == [b, c, d] && [b, c, d][1..] == [c, d] && [c, d][1..] == [d] && [d][1..] == [];
    assert RunFrom(o, w, [b, c, d]) == RunFrom(o, Step(o, w, b), [c, d]);
    assert RunFrom(o, Step(o, w, b), [c, d]) == RunFrom(o, Step(o, Step(o, w, b), c), [d]);
  }

  lemma AcceptedAreSettled(o: Options, w: Writer)
    requires Consistent(o, w) && w.queue == []
    ensures Commands(w.settled) == w.accepted
  {
  }

  // ---- The class -----------------------------------------------------------

  /** How one attempt of a drain turns out. */
  datatype Attempt = Committed | LostRace | HeadUnreadable | InsertThrew

  function AppendEvent(outcome: Attempt): Event {
    match outcome
    case Committed => AppendDone
    case LostRace => AppendRefused
    case _ => AppendThrew
  }

  /** One whole attempt: the head is read, and if that works the append is tried. */
  function RunAttempt(o: Options, w: Writer, outcome: Attempt): Writer {
    if outcome == HeadUnreadable then Step(o, w, ReadThrew) else Step(o, Step(o, w, ReadDone), AppendEvent(outcome))
  }

  /** The next attempt, or the end of the batch. */
  ghost predicate Advances(w: Writer, v: Writer)
    requires w.stage.Reading? || w.stage.Appending?
  {
    && v.accepted == w.accepted
    && (if v.stage == Finishing then v.queue == w.queue[Min(|w.stage.batch|, |w.queue|)..]
        else v.stage == Reading(w.stage.batch, w.stage.attempt + 1) && v.queue == w.queue)
  }

  lemma FailureAdvances(o: Options, w: Writer, e: Event)
    requires if w.stage.Reading? then e == ReadThrew else w.stage.Appending? && (e == AppendRefused || e == AppendThrew)
    ensures Advances(w, Step(o, w, e))
  {
  }

  lemma SuccessAdvances(o: Options, w: Writer)
    requires w.stage.Appending?
    ensures Advances(w, Step(o, w, AppendDone))
  {
  }

  /** An attempt either leads to the next one or disposes of the batch. */
  lemma AttemptEffect(o: Options, w: Writer, outcome: Attempt)
    requires Consistent(o, w) && w.stage.Reading?
    ensures Consistent(o, RunAttempt(o, w, outcome)) && Advances(w, RunAttempt(o, w, outcome))
  {
    hide Consistent, Advances;
    if outcome == HeadUnreadable {
      StepConsistent(o, w, ReadThrew);
      FailureAdvances(o, w, ReadThrew);
    } else {
      var reading := Step(o, w, ReadDone);
      StepConsistent(o, w, ReadDone);
      StepConsistent(o, reading, AppendEvent(outcome));
      if outcome == Committed {
        SuccessAdvances(o, reading);
      } else {
        FailureAdvances(o, reading, AppendEvent(outcome));
      }
      ReadingThenAdvances(o, w, Step(o, reading, AppendEvent(outcome)));
    }
  }

  lemma ReadingThenAdvances(o: Options, w: Writer, v: Writer)
    requires w.stage.Reading? && Advances(Step(o, w, ReadDone), v)
    ensures Advances(w, v)
  {
  }

  /** What an attempt settles: its batch as written, or as failed if it was the last one, or nothing yet. */
  lemma AttemptSettles(o: Options, w: Writer, outcome: Attempt)
    requires w.stage.Reading?
    ensures var v, batch := RunAttempt(o, w, outcome), w.stage.batch;
      if outcome == Committed then v.stage == Finishing && v.settled == w.settled + [Written(batch)]
      else if w.stage.attempt + 1 < o.maxFlushAttempts then
        v.stage == Reading(batch, w.stage.attempt + 1) && v.settled == w.settled
      else v.stage == Finishing && v.settled == w.settled + [ReportedFailed(batch)]
  {
  }

  /** Some attempt that is allowed commits. */
  ghost predicate SomeCommits(o: Options, oracle: nat -> Attempt) {
    exists k: nat | k < o.maxFlushAttempts :: oracle(k) == Committed
  }

  /** How an undisturbed drain disposes of its batch. */
  ghost function Disposal(o: Options, batch: seq<Command>, oracle: nat -> Attempt): Settled {
    if SomeCommits(o, oracle) then Written(batch) else ReportedFailed(batch)
  }

  /** How an undisturbed `settle` disposes of the queue, from pass number `pass` on. */
  ghost function Disposals(o: Options, queue: seq<Command>, oracle: nat -> nat -> Attempt, pass: nat): seq<Settled>
    requires o.maxBatchSize >= 1
    decreases |queue|
  {
    if queue == [] then []
    else
      var batch := NextBatch(o, queue);
      [Disposal(o, batch, oracle(pass))] + Disposals(o, queue[|batch|..], oracle, pass + 1)
  }

  /** Pass number `k` takes the commands from place `k * maxBatchSize` on, if there are any. */
  lemma {:induction false} DisposalAt(o: Options, queue: seq<Command>, oracle: nat -> nat -> Attempt, pass: nat, k: nat)
    requires o.maxBatchSize >= 1
    ensures k < |Disposals(o, queue, oracle, pass)| <==> k * o.maxBatchSize < |queue|
    ensures k * o.maxBatchSize < |queue| ==>
      Disposals(o, queue, oracle, pass)[k] == Disposal(o, NextBatch(o, queue[k * o.maxBatchSize..]), oracle(pass + k))
    decreases k
  {
    hide Disposal;
    var b := o.maxBatchSize;
    if k == 0 {
      assert queue[0..] == queue;
    } else if |queue| <= b {
      assert k * b >= b;
    } else {
      DisposalAt(o, queue[b..], oracle, pass + 1, k - 1);
      assert (k - 1) * b + b == k * b;
      if k * b < |queue| {
        assert queue[b..][(k - 1) * b..] == queue[k * b..];
      }
    }
  }

  /**
   When an undisturbed `settle` writes everything that was queued: exactly when each
   of its passes has an attempt that commits.
   */
  lemma {:induction false} EverythingWrittenExactly(o: Options, queue: seq<Command>, oracle: nat -> nat -> Attempt)
    requires o.maxBatchSize >= 1
    ensures var all := Disposals(o, queue, oracle, 0);
      (forall k | 0 <= k < |all| :: all[k].Written?) <==>
      (forall pass: nat | pass * o.maxBatchSize < |queue| :: SomeCommits(o, oracle(pass)))
  {
    hide SomeCommits, Disposals, NextBatch;
    var all := Disposals(o, queue, oracle, 0);
    forall pass: nat
      ensures pass < |all| <==> pass * o.maxBatchSize < |queue|
      ensures pass < |all| ==> (all[pass].Written? <==> SomeCommits(o, oracle(pass)))
    {
      DisposalAt(o, queue, oracle, 0, pass);
    }
  }

  class BatchedWriter {
    const options: Options
    var queue: seq<Command>
    var stage: Stage
    var enqueuedTotal: nat
    var writtenTotal: nat
    var batchesTotal: nat
    var conflictsTotal: nat
    var overflowedTotal: nat
    var largestBatchTotal: nat
    var failedBatchesTotal: nat
    ghost var accepted: seq<Command>
    ghost var settled: seq<Settled>

    ghost function State(): Writer
      reads this
    {
      Writer(queue, stage, enqueuedTotal, writtenTotal, batchesTotal, conflictsTotal, overflowedTotal,
             largestBatchTotal, failedBatchesTotal, accepted, settled)
    }

    constructor (options: Options)
      ensures this.options == options && State() == NEW
    {
      this.options := options;
      queue, stage := [], NotFlushing;
      enqueuedTotal, writtenTotal, batchesTotal, conflictsTotal := 0, 0, 0, 0;
      overflowedTotal, largestBatchTotal, failedBatchesTotal := 0, 0, 0;
      accepted, settled := [], [];
    }

    method Offer(command: Command) returns (ok: bool)
      modifies this
      ensures State() == Step(options, old(State()), Record(command))
      ensures ok <==> |old(queue)| < options.maxQueueSize
    {
      if |queue| >= options.maxQueueSize {
        overflowedTotal := overflowedTotal + 1;
        return false;
      }
      queue := queue + [command];
      accepted := accepted + [command];
      enqueuedTotal := enqueuedTotal + 1;
      if |queue| >= options.maxBatchSize {
        BeginFlush();
      }
      ok := true;
    }

    /** `flush`: coalesces with a drain in flight, and otherwise runs one up to its first await. */
    method BeginFlush()
      modifies this
      ensures State() == StartFlush(options, old(State()))
    {
      if stage != NotFlushing {
        return;
      }
      if queue == [] {
        stage := Finishing;
      } else if options.maxFlushAttempts == 0 {
        FailBatch(NextBatch(options, queue));
      } else {
        stage := Reading(NextBatch(options, queue), 0);
      }
    }

    method FailBatch(batch: seq<Command>)
      modifies this
      ensures State() == GiveUp(old(State()), batch)
    {
      queue := Drop(queue, |batch|);
      failedBatchesTotal := failedBatchesTotal + 1;
      settled := settled + [ReportedFailed(batch)];
      stage := Finishing;
    }

    /** The append went through: the batch leaves the queue, and the drain is done. */
    method Commit()
      requires stage.Appending?
      modifies this
      ensures State() == Step(options, old(State()), AppendDone)
    {
      var batch := stage.batch;
      queue := Drop(queue, |batch|);
      writtenTotal := writtenTotal + |batch|;
      batchesTotal := batchesTotal + 1;
      largestBatchTotal := Max(largestBatchTotal, |batch|);
      settled := settled + [Written(batch)];
      stage := Finishing;
    }

    /** The loop's next attempt, or its end. */
    method TryAgain()
      requires stage.Reading? || stage.Appending?
      modifies this
      ensures State() == NextAttempt(options, old(State()), old(stage.batch), old(stage.attempt))
    {
      hide Drop;
      if stage.attempt + 1 < options.maxFlushAttempts {
        stage := Reading(stage.batch, stage.attempt + 1);
      } else {
        FailBatch(stage.batch);
      }
    }

    /** The part of `drainOnce` between two awaits, for the event that ends the first. */
    method Resume(e: Event)
      requires !e.Record? && !e.Flush?
      modifies this
      ensures State() == Step(options, old(State()), e)
    {
      hide NextAttempt, GiveUp, Drop, StartFlush;
      if stage.Reading? && e == ReadDone {
        stage := Appending(stage.batch, stage.attempt);
      } else if stage.Appending? && e == AppendDone {
        Commit();
      } else if stage.Appending? && e == AppendRefused {
        conflictsTotal := conflictsTotal + 1;
        TryAgain();
      } else if (stage.Reading? && e == ReadThrew) || (stage.Appending? && e == AppendThrew) {
        TryAgain();
      } else if stage == Finishing && e == Cleared {
        stage := NotFlushing;
      }
    }

    /**
     One awaited `flush` that nothing interleaves with; `oracle` says how each attempt
     turns out. The front batch is written if an attempt commits among those allowed,
     and reported otherwise.
     */
    method FlushAlone(oracle: nat -> Attempt)
      requires Consistent(options, State()) && stage == NotFlushing && queue != []
      modifies this
      ensures Consistent(options, State()) && stage == NotFlushing
      ensures queue == old(queue)[Min(options.maxBatchSize, |old(queue)|)..]
      ensures accepted == old(accepted)
      ensures settled == old(settled) + [Disposal(options, NextBatch(options, old(queue)), oracle)]
    {
      hide Step, Commands, WrittenIn, CountOf, LongestWritten, RunAttempt;
      ghost var batch := NextBatch(options, queue);
      StartFlushConsistent(options, State());
      BeginFlush();
      while stage != Finishing
        invariant stage != NotFlushing && !stage.Appending?
        invariant Consistent(options, State()) && accepted == old(accepted)
        invariant stage == Finishing ||
          (stage.Reading? && stage.batch == batch && stage.attempt < options.maxFlushAttempts)
        invariant if stage == Finishing then queue == old(queue)[|batch|..] else queue == old(queue)
        invariant stage != Finishing ==>
          settled == old(settled) && forall k: nat | k < stage.attempt :: oracle(k) != Committed
        invariant stage == Finishing ==> settled == old(settled) + [Disposal(options, batch, oracle)]
        decreases if stage == Finishing then 0 else 1 + options.maxFlushAttempts - stage.attempt
      {
        var outcome := oracle(stage.attempt);
        AttemptEffect(options, State(), outcome);
        AttemptSettles(options, State(), outcome);
        RunAttemptIs(options, State(), outcome);
        if outcome == HeadUnreadable {
          Resume(ReadThrew);
        } else {
          Resume(ReadDone);
          Resume(AppendEvent(outcome));
        }
      }
      stage := NotFlushing;
    }

    /**
     `settle`, with no flush in flight and no commands recorded meanwhile: it
     terminates with nothing left in the queue, whichever batches fail, and every
     accepted command is in a batch that was written or reported, as the outcomes of
     its pass decide. `oracle` says how each attempt of each pass turns out. A batch
     size of zero is excluded: a pass then takes nothing, and `settle` stops at once.
     */
    method Settle(oracle: nat -> nat -> Attempt)
      requires Consistent(options, State()) && stage == NotFlushing && options.maxBatchSize >= 1
      modifies this
      ensures Consistent(options, State()) && stage == NotFlushing
      ensures queue == [] && Commands(settled) == accepted == old(accepted)
      ensures settled == old(settled) + Disposals(options, old(queue), oracle, 0)
    {
      hide SomeCommits, Consistent;
      var pass := 0;
      while |queue| > 0
        invariant Consistent(options, State()) && stage == NotFlushing && accepted == old(accepted)
        invariant settled + Disposals(options, queue, oracle, pass) ==
          old(settled) + Disposals(options, old(queue), oracle, 0)
        decreases |queue|
      {
        var before := |queue|;
        FlushAlone(oracle(pass));
        pass := pass + 1;
        if |queue| >= before {
          break;
        }
      }
      AcceptedAreSettled(options, State());
    }
  }

  lemma RunAttemptIs(o: Options, w: Writer, outcome: Attempt)
    ensures RunAttempt(o, w, outcome) ==
      if outcome == HeadUnreadable then Step(o, w, ReadThrew) else Step(o, Step(o, w, ReadDone), AppendEvent(outcome))
  {
  }
}
