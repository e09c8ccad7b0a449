/**
 Progress of the batching writer on the shared log: a drain left alone writes its
 batch, and a batch is reported only when each of its attempts was thwarted.
 */
module PipelineProgress {
  import opened JsText
  import opened Options
  import opened CanonicalForm
  import opened AuditChain
  import opened AuditPipeline
  import A = AppendProgress
  import P = AppendProtocol
  import W = BatchedAuditWriter

  // ---- A drain left alone ---------------------------------------------------------

  /** Three steps that nothing interleaves with put the drain's batch at the end of the log. */
  lemma {:induction false} UndisturbedDrainWrites(p: Platform, o: W.Options, s: System, ids: seq<Text>, nows: seq<int>)
    requires Inv(p, o, s) && s.writer.stage.Reading? && s.writer.stage.batch != []
    requires |ids| == |nows| == |s.writer.stage.batch|
    ensures var batch := s.writer.stage.batch;
      var read := Step(p, o, s, Drain(P.ReadHead(s.call, ids, nows)));
      var compared := Step(p, o, read, Drain(P.CompareHead(s.call)));
      var written := Step(p, o, compared, Drain(P.Insert(s.call)));
      && written.log.rows == s.log.rows + LinkAll(p, P.LastOf(s.log.rows), ids, P.Drafts(P.Batch, batch, nows))
      && written.writer.settled == s.writer.settled + [W.Written(batch)]
      && written.writer.queue == s.writer.queue[|batch|..]
  {
    hide P.Apply, P.Inv, LinkAll, P.Drafts, W.Commands, W.WrittenIn, W.CountOf, W.LongestWritten;
    hide AllSettledBy, BlocksInOrder;
    A.UndisturbedAppends(p, s.log, s.call, ids, nows);
  }

  // ---- The log's own view of a run -------------------------------------------------

  /** The call that a step of the writer begins, if it begins one. */
  function Begins(o: W.Options, s: System, v: W.Writer, id: nat): (r: seq<P.Event>)
    ensures |r| <= 1
  {
    if s.writer.stage == W.NotFlushing && v.stage.Reading? then
      [P.Begin(id, P.Batch, v.stage.batch, o.maxFlushAttempts)]
    else if |v.settled| > |s.writer.settled| then [P.Begin(id, P.Batch, v.settled[|v.settled| - 1].batch, 0)]
    else []
  }

  /** The step of the protocol that an event is, if it is one. */
  ghost function LogEvent(p: Platform, o: W.Options, s: System, e: Event): (r: seq<P.Event>)
    ensures |r| <= 1
  {
    match e
    case Other(event) => if s.Busy() && event.call == s.call then [] else [event]
    case Record(command, id) =>
      if id in s.log.calls then [] else Begins(o, s, W.Step(o, s.writer, W.Record(command)), id)
    case Flush(id) => if id in s.log.calls then [] else Begins(o, s, W.Step(o, s.writer, W.Flush), id)
    case Drain(event) => if Step(p, o, s, e) == s then [] else [event]
    case Cleared => []
  }

  ghost function LogEvents(p: Platform, o: W.Options, events: seq<Event>): seq<P.Event> {
    if events == [] then []
    else
      var n := |events| - 1;
      LogEvents(p, o, events[..n]) + LogEvent(p, o, Run(p, o, events[..n]), events[n])
  }

  lemma LogStep(p: Platform, o: W.Options, s: System, e: Event)
    ensures var r := LogEvent(p, o, s, e);
      Step(p, o, s, e).log == if r == [] then s.log else P.Apply(p, s.log, r[0])
  {
    hide P.Apply, W.Step, Follow;
  }

  lemma {:induction false} RunOfAppend(p: Platform, events: seq<P.Event>, e: P.Event)
    ensures P.Run(p, events + [e]) == P.Apply(p, P.Run(p, events), e)
  {
    hide P.Apply;
    assert (events + [e])[..|events|] == events;
  }

  /** The log of the system is the log of a run of the protocol. */
  lemma {:induction false} LogRuns(p: Platform, o: W.Options, events: seq<Event>)
    ensures Run(p, o, events).log == P.Run(p, LogEvents(p, o, events))
  {
    hide Step, LogEvent, P.Apply;
    if events != [] {
      var n := |events| - 1;
      var s, before := Run(p, o, events[..n]), LogEvents(p, o, events[..n]);
      var r := LogEvent(p, o, s, events[n]);
      LogRuns(p, o, events[..n]);
      LogStep(p, o, s, events[n]);
      if r == [] {
        assert before + r == before;
      } else {
        assert r == [r[0]];
        RunOfAppend(p, before, r[0]);
      }
    }
  }

  // ---- Every call of the writer has the writer's attempts ---------------------------

  ghost predicate Allows(o: W.Options, s: System, id: nat) {
    id in s.log.calls && s.log.calls[id].allowed == o.maxFlushAttempts
  }

  ghost predicate AllAllowed(o: W.Options, s: System) {
    (forall k | 0 <= k < |s.calls| :: Allows(o, s, s.calls[k])) && (s.Busy() ==> Allows(o, s, s.call))
  }

  lemma AllowedStays(p: Platform, o: W.Options, s: System, e: P.Event, id: nat)
    requires Allows(o, s, id)
    ensures Allows(o, s.(log := P.Apply(p, s.log, e)), id)
  {
    hide P.Apply;
    if e.call == id {
      A.CallMoves(p, s.log, e);
    } else {
      A.OtherCallStays(p, s.log, e, id);
    }
  }

  lemma LogStepAllows(p: Platform, o: W.Options, s: System, e: P.Event)
    requires AllAllowed(o, s)
    ensures AllAllowed(o, s.(log := P.Apply(p, s.log, e)))
  {
    hide P.Apply, Allows;
    var t := s.(log := P.Apply(p, s.log, e));
    forall k | 0 <= k < |s.calls| ensures Allows(o, t, s.calls[k]) {
      AllowedStays(p, o, s, e, s.calls[k]);
    }
    if s.Busy() {
      AllowedStays(p, o, s, e, s.call);
    }
  }

  lemma StartedAllows(p: Platform, o: W.Options, s: System, e: W.Event, id: nat)
    requires AllAllowed(o, s) && id !in s.log.calls && (e.Record? || e.Flush?)
    ensures AllAllowed(o, Started(p, o, s, W.Step(o, s.writer, e), id))
  {
    hide P.Apply, W.Step;
    var v := W.Step(o, s.writer, e);
    WriterStep(o, s.writer, e);
    if s.writer.stage == W.NotFlushing && v.stage.Reading? {
      BeginAdds(p, s.log, id, v.stage.batch, o.maxFlushAttempts);
      LogStepAllows(p, o, s, P.Begin(id, P.Batch, v.stage.batch, o.maxFlushAttempts));
    } else if |v.settled| > |s.writer.settled| {
      var batch := v.settled[|v.settled| - 1].batch;
      BeginAdds(p, s.log, id, batch, 0);
      LogStepAllows(p, o, s, P.Begin(id, P.Batch, batch, 0));
    }
  }

  lemma {:induction false} RunAllows(p: Platform, o: W.Options, events: seq<Event>)
    ensures AllAllowed(o, Run(p, o, events))
  {
    hide P.Apply, W.Step, Started, Follow, AllAllowed;
    if events == [] {
      NothingToAllow(o);
    } else {
      var s, e := Run(p, o, events[..|events| - 1]), events[|events| - 1];
      RunAllows(p, o, events[..|events| - 1]);
      match e {
        case Other(event) => LogStepAllows(p, o, s, event);
        case Record(command, id) => if id !in s.log.calls { StartedAllows(p, o, s, W.Record(command), id); }
        case Flush(id) => if id !in s.log.calls { StartedAllows(p, o, s, W.Flush, id); }
        case Drain(event) =>
          LogStepAllows(p, o, s, event);
          DrainAllows(p, o, s, event);
        case Cleared => ClearedAllows(p, o, s);
      }
    }
  }

  lemma NothingToAllow(o: W.Options)
    ensures AllAllowed(o, EMPTY)
  {
  }

  lemma DrainAllows(p: Platform, o: W.Options, s: System, e: P.Event)
    requires AllAllowed(o, s) && AllAllowed(o, s.(log := P.Apply(p, s.log, e)))
    ensures AllAllowed(o, Step(p, o, s, Drain(e)))
  {
    hide P.Apply, Follow;
  }

  lemma ClearedAllows(p: Platform, o: W.Options, s: System)
    requires AllAllowed(o, s)
    ensures AllAllowed(o, Step(p, o, s, Cleared))
  {
    hide W.Step;
    ClearedStep(o, s.writer);
  }

  // ---- What a reported batch has gone through ----------------------------------------

  /**
   A batch is reported as failed if and only if it lost all the attempts it was allowed,
   and every attempt it lost met a fault or the insert of another writer of the log.
   */
  lemma {:induction false} ReportedWasThwarted(p: Platform, o: W.Options, events: seq<Event>, k: nat)
    requires k < |Run(p, o, events).calls|
    ensures var s, run := Run(p, o, events), LogEvents(p, o, events);
      && s.log == P.Run(p, run) && k < |s.writer.settled|
      && (s.writer.settled[k].ReportedFailed? <==> A.Failures(p, run, s.calls[k]) == o.maxFlushAttempts)
      && forall j | 0 <= j < |run| && A.Fails(p, P.Run(p, run[..j]), run[j], s.calls[k]) ::
           A.Thwarted(p, run, j, s.calls[k])
  {
    hide Run, P.Run, LogEvents, A.Fails, A.Thwarted, A.Failures, P.Inv, W.Consistent, BlocksInOrder;
    var s, run := Run(p, o, events), LogEvents(p, o, events);
    RunKeepsInv(p, o, events);
    RunAllows(p, o, events);
    LogRuns(p, o, events);
    assert SettledBy(s.log, s.calls[k], s.writer.settled[k]) && Allows(o, s, s.calls[k]);
    A.GaveUpExactly(p, run, s.calls[k]);
  }

  // ---- What the conflict counter counts -----------------------------------------------

  /** The event is a step of the drain's call that loses its attempt without a fault. */
  ghost predicate LosesRace(p: Platform, s: System, e: Event) {
    e.Drain? && s.Busy() && e.event.call == s.call && !e.event.Fault? && A.Fails(p, s.log, e.event, s.call)
  }

  ghost function RacesLost(p: Platform, o: W.Options, events: seq<Event>): nat {
    if events == [] then 0
    else
      var n := |events| - 1;
      RacesLost(p, o, events[..n]) + if LosesRace(p, Run(p, o, events[..n]), events[n]) then 1 else 0
  }

  lemma FollowCounts(o: W.Options, w: W.Writer, threw: bool, c: P.Call, d: P.Call)
    requires Moves(c, d) && (w.stage.Reading? || w.stage.Appending?)
    requires if w.stage.Reading? then c.phase.Idle? else c.phase.Linked? || c.phase.Checked?
    ensures Follow(o, w, threw, c.phase, d.phase).conflicts ==
      w.conflicts + if (d.phase.Idle? || d.phase.GaveUp?) && !threw then 1 else 0
  {
  }

  lemma DrainCounts(p: Platform, o: W.Options, s: System, e: P.Event)
    requires Inv(p, o, s)
    ensures Step(p, o, s, Drain(e)).writer.conflicts ==
      s.writer.conflicts + if LosesRace(p, s, Drain(e)) then 1 else 0
  {
    hide P.Apply, P.Inv, W.Consistent, AllSettledBy, BlocksInOrder, Follow, Moves, A.Fails;
    if s.Busy() && e.call == s.call {
      A.CallMoves(p, s.log, e);
      A.FailsWhen(p, s.log, e);
      if P.Apply(p, s.log, e) != s.log {
        DrainMoves(p, s.log, e);
        FollowCounts(o, s.writer, e.Fault?, s.log.calls[s.call], P.Apply(p, s.log, e).calls[s.call]);
        StepChangesCall(p, s.log, e);
      }
    }
  }

  /** A step that changes the log changes the call it belongs to. */
  lemma StepChangesCall(p: Platform, log: P.State, e: P.Event)
    requires e.call in log.calls && P.Apply(p, log, e) != log
    ensures e.call in P.Apply(p, log, e).calls && P.Apply(p, log, e).calls[e.call] != log.calls[e.call]
  {
    hide P.Latest, P.ViolatesIndex, LinkAll, P.Drafts, P.ValidateBatch;
    assert log.calls[e.call := log.calls[e.call]] == log.calls;
  }

  lemma StartKeepsConflicts(p: Platform, o: W.Options, s: System, e: W.Event, id: nat)
    requires e.Record? || e.Flush?
    ensures Started(p, o, s, W.Step(o, s.writer, e), id).writer.conflicts == s.writer.conflicts
  {
    hide P.Apply;
  }

  /** Over every run, `conflicts` counts the attempts that were lost without a fault. */
  lemma {:induction false} ConflictsAreLostRaces(p: Platform, o: W.Options, events: seq<Event>)
    ensures Run(p, o, events).writer.conflicts == RacesLost(p, o, events)
  {
    hide P.Apply, W.Step, Started, Follow, Inv, A.Fails;
    if events != [] {
      var s, e := Run(p, o, events[..|events| - 1]), events[|events| - 1];
      ConflictsAreLostRaces(p, o, events[..|events| - 1]);
      RunKeepsInv(p, o, events[..|events| - 1]);
      match e {
        case Other(event) =>
        case Record(command, id) => StartKeepsConflicts(p, o, s, W.Record(command), id);
        case Flush(id) => StartKeepsConflicts(p, o, s, W.Flush, id);
        case Drain(event) => DrainCounts(p, o, s, event);
        case Cleared => ClearedStep(o, s.writer);
      }
    }
  }

  /** And each of those was lost to another call's insert since the attempt read the head. */
  lemma {:induction false} LostRaceWasOvertaken(p: Platform, o: W.Options, events: seq<Event>, e: Event)
    returns (i: nat)
    requires LosesRace(p, Run(p, o, events), e)
    ensures A.BeganAt(p, LogEvents(p, o, events), i, Run(p, o, events).call)
    ensures A.Overtaken(p, LogEvents(p, o, events), i, Run(p, o, events).call)
  {
    hide P.Apply, P.Run, Run, LogEvents, A.Fails, A.Overtaken, A.BeganAt;
    var s := Run(p, o, events);
    LogRuns(p, o, events);
    A.FailingEnds(p, s.log, e.event, s.call);
    i := A.AttemptFailsExactly(p, LogEvents(p, o, events), e.event, s.call);
  }
}
