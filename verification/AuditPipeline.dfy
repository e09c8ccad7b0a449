/**
 The batching writer on top of the append protocol: each batch of a drain is one
 batch call of the protocol, racing with every other writer of the log.
 */
module AuditPipeline {
  import opened JsText
  import opened Options
  import opened CanonicalForm
  import opened AuditChain
  import P = AppendProtocol
  import W = BatchedAuditWriter

  /** The log with all calls made on it, the writer, its drain's call, and the call of each settled batch. */
  datatype System = System(log: P.State, writer: W.Writer, call: nat, calls: seq<nat>) {
    predicate Busy() { writer.stage.Reading? || writer.stage.Appending? }
  }

  datatype Event =
    | Other(event: P.Event)                  // a step of any other writer
    | Record(command: P.Command, id: nat)    // `id` names the call of the drain this may start
    | Flush(id: nat)
    | Drain(event: P.Event)                  // a step of the drain's own call
    | Cleared

  const EMPTY := System(P.EMPTY, W.NEW, 0, [])

  /** The writer has taken a step from `s`; if that began a drain, so does its call. */
  ghost function Started(p: Platform, o: W.Options, s: System, v: W.Writer, id: nat): System {
    if s.writer.stage == W.NotFlushing && v.stage.Reading? then
      System(P.Apply(p, s.log, P.Begin(id, P.Batch, v.stage.batch, o.maxFlushAttempts)), v, id, s.calls)
    else if |v.settled| > |s.writer.settled| then
      System(P.Apply(p, s.log, P.Begin(id, P.Batch, v.settled[|v.settled| - 1].batch, 0)), v, id, s.calls + [id])
    else s.(writer := v)
  }

  /** What the writer learns when its call has gone from one phase to another. */
  function Follow(o: W.Options, w: W.Writer, threw: bool, before: P.Phase, after: P.Phase): W.Writer {
    if before.Idle? then
      if after.Linked? then W.Step(o, w, W.ReadDone)
      else if after.Returned? then W.Step(o, W.Step(o, w, W.ReadDone), W.AppendDone)
      else if threw then W.Step(o, w, W.ReadThrew)
      else W.Step(o, W.Step(o, w, W.ReadDone), W.AppendRefused)
    else if after.Checked? then w
    else if after.Returned? then W.Step(o, w, W.AppendDone)
    else W.Step(o, w, if threw then W.AppendThrew else W.AppendRefused)
  }

  ghost function Step(p: Platform, o: W.Options, s: System, e: Event): System {
    match e
    case Other(event) => if s.Busy() && event.call == s.call then s else s.(log := P.Apply(p, s.log, event))
    case Record(command, id) =>
      if id in s.log.calls then s else Started(p, o, s, W.Step(o, s.writer, W.Record(command)), id)
    case Flush(id) => if id in s.log.calls then s else Started(p, o, s, W.Step(o, s.writer, W.Flush), id)
    case Drain(event) =>
      if !s.Busy() || event.call != s.call || s.call !in s.log.calls || P.Apply(p, s.log, event) == s.log then s
      else
        var log := P.Apply(p, s.log, event);
        if s.call !in log.calls then s
        else
          var v := Follow(o, s.writer, event.Fault?, s.log.calls[s.call].phase, log.calls[s.call].phase);
          System(log, v, s.call, if |v.settled| > |s.writer.settled| then s.calls + [s.call] else s.calls)
    case Cleared => s.(writer := W.Step(o, s.writer, W.Cleared))
  }

  ghost function Run(p: Platform, o: W.Options, events: seq<Event>): System {
    if events == [] then EMPTY else Step(p, o, Run(p, o, events[..|events| - 1]), events[|events| - 1])
  }

  // ---- How writer and log hang together -------------------------------------

  /** The drain's call is where the drain is. */
  ghost predicate InStep(o: W.Options, s: System) {
    s.Busy() ==>
      && s.call in s.log.calls && s.call !in s.calls
      && s.log.calls[s.call].kind == P.Batch && s.log.calls[s.call].commands == s.writer.stage.batch
      && s.writer.stage.attempt < o.maxFlushAttempts
      && s.log.calls[s.call].attemptsLeft == o.maxFlushAttempts - s.writer.stage.attempt
      && (if s.writer.stage.Reading? then s.log.calls[s.call].phase.Idle?
          else s.log.calls[s.call].phase.Linked? || s.log.calls[s.call].phase.Checked?)
  }

  /** The call of a written batch has returned, and that of a failed one has given up. */
  ghost predicate SettledBy(log: P.State, id: nat, settled: W.Settled) {
    && id in log.calls && log.calls[id].kind == P.Batch && log.calls[id].commands == settled.batch
    && (if settled.Written? then log.calls[id].phase.Returned? else log.calls[id].phase.GaveUp?)
  }

  ghost predicate AllSettledBy(s: System) {
    && |s.calls| == |s.writer.settled|
    && (forall k | 0 <= k < |s.calls| :: SettledBy(s.log, s.calls[k], s.writer.settled[k]))
    && (forall j, k | 0 <= j < k < |s.calls| :: s.calls[j] != s.calls[k])
  }

  /** One block of entries lies before another in the log. */
  ghost predicate Before(a: seq<Entry>, b: seq<Entry>) {
    a == [] || b == [] || a[0].content.sequence + |a| <= b[0].content.sequence
  }

  ghost function EntriesOf(log: P.State, id: nat): seq<Entry> {
    if id in log.calls && log.calls[id].phase.Returned? then log.calls[id].phase.entries else []
  }

  /** Written batches lie in the log in the order in which they were written. */
  ghost predicate BlocksInOrder(log: P.State, calls: seq<nat>) {
    forall j, k | 0 <= j < k < |calls| :: Before(EntriesOf(log, calls[j]), EntriesOf(log, calls[k]))
  }

  ghost predicate Inv(p: Platform, o: W.Options, s: System) {
    P.Inv(p, s.log) && W.Consistent(o, s.writer) && InStep(o, s) && AllSettledBy(s) && BlocksInOrder(s.log, s.calls)
  }

  // ---- What a step of the protocol leaves alone -------------------------------

  /** A call that is over, or not the one concerned, stays as it is. */
  lemma CallStays(p: Platform, log: P.State, e: P.Event, id: nat)
    requires id in log.calls
    requires e.call != id || log.calls[id].phase.Returned? || log.calls[id].phase.GaveUp?
    ensures id in P.Apply(p, log, e).calls && P.Apply(p, log, e).calls[id] == log.calls[id]
  {
    hide P.Latest, P.ViolatesIndex, LinkAll, P.Drafts, P.ValidateBatch;
  }

  lemma SettledStay(p: Platform, s: System, e: P.Event)
    requires AllSettledBy(s) && BlocksInOrder(s.log, s.calls)
    ensures AllSettledBy(s.(log := P.Apply(p, s.log, e))) && BlocksInOrder(P.Apply(p, s.log, e), s.calls)
  {
    hide P.Apply, Before;
    forall k | 0 <= k < |s.calls|
      ensures s.calls[k] in P.Apply(p, s.log, e).calls
      ensures P.Apply(p, s.log, e).calls[s.calls[k]] == s.log.calls[s.calls[k]]
    {
      assert SettledBy(s.log, s.calls[k], s.writer.settled[k]);
      CallStays(p, s.log, e, s.calls[k]);
    }
    forall k | 0 <= k < |s.calls| ensures SettledBy(P.Apply(p, s.log, e), s.calls[k], s.writer.settled[k]) {
      assert SettledBy(s.log, s.calls[k], s.writer.settled[k]);
    }
  }

  lemma OtherKeeps(p: Platform, o: W.Options, s: System, e: P.Event)
    requires Inv(p, o, s) && !(s.Busy() && e.call == s.call)
    ensures Inv(p, o, s.(log := P.Apply(p, s.log, e)))
  {
    hide P.Apply, P.Inv, W.Consistent, AllSettledBy, BlocksInOrder;
    P.StepKeepsInv(p, s.log, e);
    SettledStay(p, s, e);
    if s.Busy() {
      CallStays(p, s.log, e, s.call);
    }
  }

  // ---- A drain begins ------------------------------------------------------------

  /** What `record` and `flush` do to a writer's drain. */
  lemma WriterStep(o: W.Options, w: W.Writer, e: W.Event)
    requires e.Record? || e.Flush?
    ensures var v := W.Step(o, w, e);
      if w.stage == W.NotFlushing && v.stage.Reading? then
        v.settled == w.settled && v.stage.attempt == 0 && 0 < o.maxFlushAttempts
      else if |v.settled| > |w.settled| then
        && v.stage == W.Finishing && o.maxFlushAttempts == 0
        && exists batch :: v.settled == w.settled + [W.ReportedFailed(batch)]
      else
        v.settled == w.settled && ((w.stage.Reading? || w.stage.Appending?) ==> v.stage == w.stage)
        && (v.stage.Reading? || v.stage.Appending? ==> v.stage == w.stage)
  {
  }

  lemma BeginAdds(p: Platform, log: P.State, id: nat, commands: seq<P.Command>, attempts: nat)
    requires id !in log.calls
    ensures var phase := if attempts == 0 then P.GaveUp else P.Idle;
      P.Apply(p, log, P.Begin(id, P.Batch, commands, attempts)) ==
      P.WithCall(log, id, P.Call(P.Batch, commands, attempts, attempts, phase))
  {
  }

  lemma SettleAppends(s: System, id: nat, settled: W.Settled, v: W.Writer, call: nat)
    requires AllSettledBy(s) && BlocksInOrder(s.log, s.calls) && id !in s.calls
    requires SettledBy(s.log, id, settled) && v.settled == s.writer.settled + [settled]
    requires forall k | 0 <= k < |s.calls| :: Before(EntriesOf(s.log, s.calls[k]), EntriesOf(s.log, id))
    ensures AllSettledBy(System(s.log, v, call, s.calls + [id])) && BlocksInOrder(s.log, s.calls + [id])
  {
    hide SettledBy, Before, EntriesOf;
  }

  lemma StartedKeeps(p: Platform, o: W.Options, s: System, e: W.Event, id: nat)
    requires Inv(p, o, s) && id !in s.log.calls && (e.Record? || e.Flush?)
    ensures Inv(p, o, Started(p, o, s, W.Step(o, s.writer, e), id))
  {
    hide P.Apply, P.Inv, W.Consistent, W.Step, AllSettledBy, BlocksInOrder;
    var v := W.Step(o, s.writer, e);
    W.StepConsistent(o, s.writer, e);
    WriterStep(o, s.writer, e);
    if s.writer.stage == W.NotFlushing && v.stage.Reading? {
      BeginKeeps(p, o, s, v, id, v.stage.batch, o.maxFlushAttempts);
    } else if |v.settled| > |s.writer.settled| {
      var batch :| v.settled == s.writer.settled + [W.ReportedFailed(batch)];
      BeginKeeps(p, o, s, v, id, batch, 0);
      BeginFails(p, s, v, id, batch);
    } else {
      SameSettled(s, v);
    }
  }

  lemma SameSettled(s: System, v: W.Writer)
    requires AllSettledBy(s) && v.settled == s.writer.settled
    ensures AllSettledBy(s.(writer := v))
  {
  }

  lemma BeginKeeps(p: Platform, o: W.Options, s: System, v: W.Writer, id: nat, batch: seq<P.Command>, attempts: nat)
    requires Inv(p, o, s) && id !in s.log.calls
    ensures var log := P.Apply(p, s.log, P.Begin(id, P.Batch, batch, attempts));
      && P.Inv(p, log) && AllSettledBy(s.(log := log)) && BlocksInOrder(log, s.calls)
      && id in log.calls && id !in s.calls
      && log.calls[id] == P.Call(P.Batch, batch, attempts, attempts, if attempts == 0 then P.GaveUp else P.Idle)
      && (v.settled == s.writer.settled ==> AllSettledBy(System(log, v, id, s.calls)))
  {
    hide P.Apply, P.Inv, W.Consistent, SettledBy, BlocksInOrder;
    var e := P.Begin(id, P.Batch, batch, attempts);
    BeginAdds(p, s.log, id, batch, attempts);
    P.StepKeepsInv(p, s.log, e);
    SettledStay(p, s, e);
    if id in s.calls {
      var k :| 0 <= k < |s.calls| && s.calls[k] == id;
      SettledIsCall(s, k);
    }
  }

  lemma SettledIsCall(s: System, k: nat)
    requires AllSettledBy(s) && k < |s.calls|
    ensures s.calls[k] in s.log.calls
  {
    assert SettledBy(s.log, s.calls[k], s.writer.settled[k]);
  }

  /** With no attempts allowed a batch fails without a read. */
  lemma BeginFails(p: Platform, s: System, v: W.Writer, id: nat, batch: seq<P.Command>)
    requires id !in s.calls && v.settled == s.writer.settled + [W.ReportedFailed(batch)]
    requires var log := P.Apply(p, s.log, P.Begin(id, P.Batch, batch, 0));
      && AllSettledBy(s.(log := log)) && BlocksInOrder(log, s.calls)
      && id in log.calls && log.calls[id] == P.Call(P.Batch, batch, 0, 0, P.GaveUp)
    ensures var log := P.Apply(p, s.log, P.Begin(id, P.Batch, batch, 0));
      AllSettledBy(System(log, v, id, s.calls + [id])) && BlocksInOrder(log, s.calls + [id])
  {
    hide P.Apply, AllSettledBy, BlocksInOrder;
    SettleAppends(s.(log := P.Apply(p, s.log, P.Begin(id, P.Batch, batch, 0))), id, W.ReportedFailed(batch), v, id);
  }

  // ---- A drain takes a step --------------------------------------------------------

  /** What one step can make of a batch call, other than leave it alone. */
  ghost predicate Moves(c: P.Call, d: P.Call) {
    && d.kind == c.kind && d.commands == c.commands && d.allowed == c.allowed
    && (d.phase.Linked? || d.phase.Checked? || d.phase.Returned? ==> d.attemptsLeft == c.attemptsLeft)
    && (d.phase.Idle? || d.phase.GaveUp? ==> d == P.Retry(c))
    && (c.phase.Idle? ==> !d.phase.Checked?)
    && (c.phase.Linked? || c.phase.Checked? ==> !d.phase.Linked?)
  }

  lemma DrainMoves(p: Platform, log: P.State, e: P.Event)
    requires e.call in log.calls && log.calls[e.call].kind == P.Batch && P.Apply(p, log, e) != log
    requires var phase := log.calls[e.call].phase; phase.Idle? || phase.Linked? || phase.Checked?
    ensures e.call in P.Apply(p, log, e).calls && Moves(log.calls[e.call], P.Apply(p, log, e).calls[e.call])
  {
    hide P.Latest, P.ViolatesIndex, LinkAll, P.Drafts, P.ValidateBatch;
  }

  /** What the writer makes of such a step: it goes on with its batch, or disposes of it. */
  lemma FollowMoves(o: W.Options, w: W.Writer, threw: bool, c: P.Call, d: P.Call)
    requires Moves(c, d) && (w.stage.Reading? || w.stage.Appending?)
    requires c.attemptsLeft == o.maxFlushAttempts - w.stage.attempt >= 1
    requires if w.stage.Reading? then c.phase.Idle? else c.phase.Linked? || c.phase.Checked?
    ensures var v := Follow(o, w, threw, c.phase, d.phase);
      if d.phase.Returned? then v.stage == W.Finishing && v.settled == w.settled + [W.Written(w.stage.batch)]
      else if d.phase.GaveUp? then v.stage == W.Finishing && v.settled == w.settled + [W.ReportedFailed(w.stage.batch)]
      else
        && v.settled == w.settled
        && v.stage == (if d.phase.Idle? then W.Reading(w.stage.batch, w.stage.attempt + 1)
                       else W.Appending(w.stage.batch, w.stage.attempt))
        && d.attemptsLeft == o.maxFlushAttempts - v.stage.attempt >= 1
  {
  }

  lemma FollowConsistent(o: W.Options, w: W.Writer, threw: bool, before: P.Phase, after: P.Phase)
    requires W.Consistent(o, w)
    ensures W.Consistent(o, Follow(o, w, threw, before, after))
  {
    hide W.Consistent, W.Step;
    W.StepConsistent(o, w, W.ReadDone);
    W.StepConsistent(o, w, W.ReadThrew);
    W.StepConsistent(o, w, W.AppendDone);
    W.StepConsistent(o, w, W.AppendThrew);
    W.StepConsistent(o, w, W.AppendRefused);
    W.StepConsistent(o, W.Step(o, w, W.ReadDone), W.AppendDone);
    W.StepConsistent(o, W.Step(o, w, W.ReadDone), W.AppendRefused);
  }

  /** A call that returns does so with nothing, or with entries behind every row there was. */
  lemma ReturnsAtTheEnd(p: Platform, log: P.State, e: P.Event)
    requires P.Inv(p, log) && e.call in log.calls && P.Apply(p, log, e) != log
    requires !log.calls[e.call].phase.Returned?
    ensures var entries := EntriesOf(P.Apply(p, log, e), e.call);
      entries == [] || entries[0].content.sequence == |log.rows| + 1
  {
    hide P.Latest, P.ViolatesIndex, LinkAll, P.Drafts, P.ValidateBatch, FirstBreak, P.CallOk;
    if P.Commits(log, e) {
      P.InsertExtends(p, log, e.call);
    }
  }

  lemma WrittenWithinLog(p: Platform, log: P.State, id: nat)
    requires P.Inv(p, log) && id in log.calls
    ensures var entries := EntriesOf(log, id);
      entries == [] || entries[0].content.sequence + |entries| <= |log.rows| + 1
  {
    hide FirstBreak, P.LinkedToLog, P.CarriesAll;
    assert P.CallOk(p, log, id);
  }

  lemma NewBlockIsLast(p: Platform, s: System, e: P.Event)
    requires P.Inv(p, s.log) && AllSettledBy(s) && e.call in s.log.calls && P.Apply(p, s.log, e) != s.log
    requires !s.log.calls[e.call].phase.Returned?
    ensures var log := P.Apply(p, s.log, e);
      forall k | 0 <= k < |s.calls| :: Before(EntriesOf(log, s.calls[k]), EntriesOf(log, e.call))
  {
    hide P.Apply, P.Inv, SettledBy;
    ReturnsAtTheEnd(p, s.log, e);
    forall k | 0 <= k < |s.calls|
      ensures Before(EntriesOf(P.Apply(p, s.log, e), s.calls[k]), EntriesOf(P.Apply(p, s.log, e), e.call))
    {
      SettledIsOver(s, k);
      CallStays(p, s.log, e, s.calls[k]);
      WrittenWithinLog(p, s.log, s.calls[k]);
    }
  }

  lemma SettledIsOver(s: System, k: nat)
    requires AllSettledBy(s) && k < |s.calls|
    ensures s.calls[k] in s.log.calls
    ensures s.log.calls[s.calls[k]].phase.Returned? || s.log.calls[s.calls[k]].phase.GaveUp?
  {
    assert SettledBy(s.log, s.calls[k], s.writer.settled[k]);
  }

  lemma DrainKeeps(p: Platform, o: W.Options, s: System, e: P.Event)
    requires Inv(p, o, s)
    ensures Inv(p, o, Step(p, o, s, Drain(e)))
  {
    hide P.Apply, P.Inv, W.Consistent, AllSettledBy, BlocksInOrder, Follow, Moves, P.Retry, EntriesOf, Before;
    if s.Busy() && e.call == s.call && P.Apply(p, s.log, e) != s.log {
      var log := P.Apply(p, s.log, e);
      DrainMoves(p, s.log, e);
      var c, d := s.log.calls[s.call], log.calls[s.call];
      var v := Follow(o, s.writer, e.Fault?, c.phase, d.phase);
      P.StepKeepsInv(p, s.log, e);
      FollowMoves(o, s.writer, e.Fault?, c, d);
      FollowConsistent(o, s.writer, e.Fault?, c.phase, d.phase);
      SettledStay(p, s, e);
      MovesKeep(c, d);
      if d.phase.Returned? || d.phase.GaveUp? {
        NewBlockIsLast(p, s, e);
        SettleAppends(s.(log := log), s.call, v.settled[|v.settled| - 1], v, s.call);
      } else {
        SameSettled(s.(log := log), v);
      }
    }
  }

  lemma MovesKeep(c: P.Call, d: P.Call)
    requires Moves(c, d)
    ensures d.kind == c.kind && d.commands == c.commands
  {
  }

  // ---- Every run ------------------------------------------------------------------------

  lemma ClearedStep(o: W.Options, w: W.Writer)
    ensures W.Step(o, w, W.Cleared) == w.(stage := if w.stage == W.Finishing then W.NotFlushing else w.stage)
  {
  }

  lemma ClearedKeeps(p: Platform, o: W.Options, s: System)
    requires Inv(p, o, s)
    ensures Inv(p, o, Step(p, o, s, Cleared))
  {
    hide P.Inv, W.Consistent, W.Step, AllSettledBy, BlocksInOrder;
    W.StepConsistent(o, s.writer, W.Cleared);
    ClearedStep(o, s.writer);
    SameSettled(s, W.Step(o, s.writer, W.Cleared));
  }

  lemma {:induction false} RunKeepsInv(p: Platform, o: W.Options, events: seq<Event>)
    ensures Inv(p, o, Run(p, o, events))
  {
    hide Inv, P.Apply, W.Step, Started, Follow;
    if events == [] {
      EmptyInv(p, o);
    } else {
      var s, e := Run(p, o, events[..|events| - 1]), events[|events| - 1];
      RunKeepsInv(p, o, events[..|events| - 1]);
      match e {
        case Other(event) => if !(s.Busy() && event.call == s.call) { OtherKeeps(p, o, s, event); }
        case Record(command, id) => if id !in s.log.calls { StartedKeeps(p, o, s, W.Record(command), id); }
        case Flush(id) => if id !in s.log.calls { StartedKeeps(p, o, s, W.Flush, id); }
        case Drain(event) => DrainKeeps(p, o, s, event);
        case Cleared => ClearedKeeps(p, o, s);
      }
    }
  }

  lemma EmptyInv(p: Platform, o: W.Options)
    ensures Inv(p, o, EMPTY)
  {
  }

  /** The rows that a settled batch has in the log. */
  ghost predicate InLog(log: P.State, id: nat, settled: W.Settled) {
    id in log.calls &&
    P.WroteExactly(log, id, EntriesOf(log, id)) &&
    if settled.Written? then P.CarriesAll(P.Batch, settled.batch, EntriesOf(log, id)) else EntriesOf(log, id) == []
  }

  /**
   From `record` to the stored log, under every interleaving with every other
   writer. The accepted commands are, in order, those of the settled batches and
   those still queued. A written batch is in the log once, entry by entry in the
   order of its commands, side by side, and behind the batches written before it;
   a batch reported as failed has no row. And the stored log is a valid chain.
   */
  lemma {:induction false} AcceptedReachTheLog(p: Platform, o: W.Options, events: seq<Event>)
    ensures var s := Run(p, o, events);
      && s.writer.accepted == W.Commands(s.writer.settled) + s.writer.queue
      && |s.calls| == |s.writer.settled| && (forall j, k | 0 <= j < k < |s.calls| :: s.calls[j] != s.calls[k])
      && (forall k | 0 <= k < |s.calls| :: InLog(s.log, s.calls[k], s.writer.settled[k]))
      && BlocksInOrder(s.log, s.calls)
      && FirstBreak(p, None, s.log.rows) == None
  {
    hide Run, FirstBreak, P.WroteExactly, P.CarriesAll, P.LinkedToLog, BlocksInOrder, W.Commands;
    var s := Run(p, o, events);
    RunKeepsInv(p, o, events);
    forall k | 0 <= k < |s.calls| ensures InLog(s.log, s.calls[k], s.writer.settled[k]) {
      assert SettledBy(s.log, s.calls[k], s.writer.settled[k]);
      assert P.CallOk(p, s.log, s.calls[k]);
    }
  }
}
