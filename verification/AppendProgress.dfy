/**
 Progress of the append protocol: what makes an attempt fail, over every
 interleaving, and that nothing else does.
 */
module AppendProgress {
  import opened JsText
  import opened Options
  import opened CanonicalForm
  import opened AuditChain
  import opened AppendProtocol

  predicate Unfinished(phase: Phase) { phase.Idle? || phase.Linked? || phase.Checked? }

  /** The call's attempt has read the head and is about to compare or insert. */
  predicate UnderWay(phase: Phase) { phase.Linked? || phase.Checked? }

  /** The number of the first entry that the attempt is about to append. */
  function FirstNumber(phase: Phase): int {
    if UnderWay(phase) && phase.entries != [] then phase.entries[0].content.sequence else 0
  }

  // ---- A writer left alone ----------------------------------------------------

  lemma LatestOf(p: Platform, s: State)
    requires Inv(p, s)
    ensures Latest(s.rows) == LastOf(s.rows)
  {
    hide FirstBreak, CallOk;
    LatestIsLast(p, s.rows);
  }

  /** When the event occurred: as the command says, or else now. */
  function DateOf(c: Command, now: int): int { if c.occurredAt.Some? then c.occurredAt.value else now }

  lemma {:induction false} LinkedAreDated(p: Platform, head: Option<Entry>, c: Call, ids: seq<Text>, nows: seq<int>)
    requires |ids| == |nows| == |c.commands|
    ensures var entries := LinkAll(p, head, ids, Drafts(c.kind, c.commands, nows));
      forall i | 0 <= i < |entries| :: entries[i].id == ids[i] &&
        entries[i].content.occurredAt == DateOf(c.commands[i], nows[i])
  {
    hide LinkAll;
    var drafts := Drafts(c.kind, c.commands, nows);
    forall i | 0 <= i < |drafts|
      ensures LinkAll(p, head, ids, drafts)[i].id == ids[i]
      ensures LinkAll(p, head, ids, drafts)[i].content.occurredAt == DateOf(c.commands[i], nows[i])
    {
      LinkAllBuilds(p, head, ids, drafts, i);
    }
  }

  /** The head is read, found where it was, and the batch is inserted: the call returns what it has appended. */
  lemma {:induction false} UndisturbedAppends(p: Platform, s: State, id: nat, ids: seq<Text>, nows: seq<int>)
    requires Inv(p, s) && id in s.calls && s.calls[id].phase.Idle? && s.calls[id].commands != []
    requires |ids| == |nows| == |s.calls[id].commands|
    ensures var c, head := s.calls[id], LastOf(s.rows);
      var entries := LinkAll(p, head, ids, Drafts(c.kind, c.commands, nows));
      var read := Apply(p, s, ReadHead(id, ids, nows));
      var compared := Apply(p, read, CompareHead(id));
      var inserted := Apply(p, compared, Insert(id));
      && read == WithCall(s, id, c.(phase := Linked(entries, HashOf(head))))
      && compared == WithCall(s, id, c.(phase := Checked(entries, HashOf(head))))
      && inserted.rows == s.rows + entries
      && inserted.calls == s.calls[id := c.(phase := Returned(entries))]
      && CarriesAll(c.kind, c.commands, entries)
      && (forall i | 0 <= i < |entries| :: entries[i].id == ids[i] &&
            entries[i].content.occurredAt == DateOf(c.commands[i], nows[i]))
  {
    hide FirstBreak, LinkAll, Drafts, ViolatesIndex, LinkedToLog, Inv, CarriesAll;
    var c := s.calls[id];
    LatestOf(p, s);
    LinkedAreDated(p, LastOf(s.rows), c, ids, nows);
    LinkedCarries(p, LastOf(s.rows), c, ids, nows);
    LinkedValidates(p, s, ids, Drafts(c.kind, c.commands, nows));
  }

  /** What was linked to the head validates, is numbered behind it and passes the index. */
  lemma {:induction false} LinkedValidates(p: Platform, s: State, ids: seq<Text>, drafts: seq<Draft>)
    requires Inv(p, s) && |ids| == |drafts| > 0
    ensures var entries := LinkAll(p, LastOf(s.rows), ids, drafts);
      && entries != [] && ValidateBatch(entries, HashOf(LastOf(s.rows))) == None
      && entries[0].content.sequence == |s.rows| + 1 && !ViolatesIndex(s.rows, entries)
  {
    hide FirstBreak;
    var entries := LinkAll(p, LastOf(s.rows), ids, drafts);
    LatestIsLast(p, s.rows);
    LinkAllVerifies(p, LastOf(s.rows), ids, drafts);
    VerifiedBatchValidates(p, LastOf(s.rows), entries);
    ReadHeadLinks(p, s, ids, drafts);
    VerifiedIsConsecutive(p, None, s.rows);
    VerifiedIsConsecutive(p, LastOf(s.rows), entries);
    IndexDecides(p, s.rows, entries, HashOf(LastOf(s.rows)));
  }

  // ---- What one event does to a call -----------------------------------------

  /** The event ends an attempt of the call without success. */
  ghost predicate Fails(p: Platform, s: State, e: Event, id: nat) {
    && id in s.calls && Unfinished(s.calls[id].phase)
    && id in Apply(p, s, e).calls && Apply(p, s, e).calls[id] != s.calls[id]
    && (Apply(p, s, e).calls[id].phase.Idle? || Apply(p, s, e).calls[id].phase.GaveUp?)
  }

  /** The event ends an attempt of the call, with or without success. */
  ghost predicate Ends(p: Platform, s: State, e: Event, id: nat) {
    && id in s.calls && Unfinished(s.calls[id].phase)
    && id in Apply(p, s, e).calls && Apply(p, s, e).calls[id] != s.calls[id]
    && !UnderWay(Apply(p, s, e).calls[id].phase)
  }

  lemma OtherCallStays(p: Platform, s: State, e: Event, id: nat)
    requires e.call != id
    ensures id in Apply(p, s, e).calls <==> id in s.calls
    ensures id in s.calls ==> Apply(p, s, e).calls[id] == s.calls[id]
  {
    hide Latest, ViolatesIndex, LinkAll, Drafts, ValidateBatch;
  }

  /** A call moves from reading to comparing to inserting with one batch, and keeps what it was begun with. */
  lemma CallMoves(p: Platform, s: State, e: Event)
    requires e.call in s.calls
    ensures e.call in Apply(p, s, e).calls
    ensures var c, d := s.calls[e.call], Apply(p, s, e).calls[e.call];
      && d.kind == c.kind && d.commands == c.commands && d.allowed == c.allowed
      && (!Unfinished(c.phase) ==> d == c)
      && (UnderWay(d.phase) && c.phase.Idle? ==> e.ReadHead?)
      && (UnderWay(d.phase) && UnderWay(c.phase) ==> d.phase.entries == c.phase.entries)
      && (UnderWay(d.phase) || d.phase.Returned? ==> d.attemptsLeft == c.attemptsLeft)
      && (Fails(p, s, e, e.call) ==> d == if e.Fault? && c.kind == Single then c.(phase := GaveUp) else Retry(c))
      && (d == c || Fails(p, s, e, e.call) || UnderWay(d.phase) || d.phase.Returned?)
  {
    hide Latest, ViolatesIndex, LinkAll, Drafts, ValidateBatch;
  }

  /** The batch that an attempt begins with is numbered behind the last row. */
  lemma ReadHeadNumbers(p: Platform, s: State, e: Event)
    requires Inv(p, s) && e.call in s.calls && e.call in Apply(p, s, e).calls
    requires s.calls[e.call].phase.Idle? && UnderWay(Apply(p, s, e).calls[e.call].phase)
    ensures FirstNumber(Apply(p, s, e).calls[e.call].phase) == |s.rows| + 1
  {
    hide Latest, ViolatesIndex, LinkAll, Drafts, ValidateBatch, Inv;
    LatestOf(p, s);
    LinkedValidates(p, s, e.ids, Drafts(s.calls[e.call].kind, s.calls[e.call].commands, e.nows));
  }

  /** When the event that ends an attempt fails it: it is a fault, or the batch no longer follows the last row. */
  lemma {:induction false} EndFailsExactly(p: Platform, s: State, e: Event)
    requires Inv(p, s) && Ends(p, s, e, e.call)
    ensures var phase := s.calls[e.call].phase;
      Fails(p, s, e, e.call) <==> e.Fault? || (UnderWay(phase) && FirstNumber(phase) != |s.rows| + 1)
  {
    hide Latest, LinkAll, Drafts, ValidateBatch, ViolatesIndex, Inv;
    var c := s.calls[e.call];
    LatestOf(p, s);
    if UnderWay(c.phase) {
      FollowsExactly(p, s, e.call);
    } else if e.ReadHead? && |e.ids| == |e.nows| == |c.commands| && c.commands != [] {
      LinkedValidates(p, s, e.ids, Drafts(c.kind, c.commands, e.nows));
    }
  }

  /** While a batch follows the last row, the head has the hash it expects, and the index lets it in; otherwise not. */
  lemma FollowsExactly(p: Platform, s: State, id: nat)
    requires Inv(p, s) && id in s.calls && UnderWay(s.calls[id].phase)
    ensures var phase := s.calls[id].phase;
      && (!ViolatesIndex(s.rows, phase.entries) <==> FirstNumber(phase) == |s.rows| + 1)
      && (FirstNumber(phase) == |s.rows| + 1 ==> HashOf(LastOf(s.rows)) == phase.expected)
  {
    hide FirstBreak, CarriesAll, WroteExactly, ViolatesIndex;
    assert CallOk(p, s, id);
    IndexDecides(p, s.rows, s.calls[id].phase.entries, s.calls[id].phase.expected);
    assert s.rows[..|s.rows|] == s.rows;
  }

  // ---- The attempt over a run ------------------------------------------------------

  lemma {:induction false} RunStep(p: Platform, events: seq<Event>, k: nat)
    requires k < |events|
    ensures Run(p, events[..k + 1]) == Apply(p, Run(p, events[..k]), events[k])
  {
    assert events[..k + 1][..k] == events[..k];
  }

  /** Call `id` has gone on with an attempt ever since the events up to `k`. */
  ghost predicate GoesOnAt(p: Platform, events: seq<Event>, k: nat, id: nat)
    requires k <= |events|
  {
    id in Run(p, events[..k]).calls && UnderWay(Run(p, events[..k]).calls[id].phase)
  }

  /** The current attempt of call `id` began at `i`: it read the head there, or is about to read it now. */
  ghost predicate BeganAt(p: Platform, events: seq<Event>, i: nat, id: nat) {
    && i <= |events| && id in Run(p, events).calls
    && (forall k | i < k <= |events| :: GoesOnAt(p, events, k, id))
    && (if i < |events| then
          events[i].ReadHead? && events[i].call == id &&
          FirstNumber(Run(p, events).calls[id].phase) == |Run(p, events[..i]).rows| + 1
        else Run(p, events).calls[id].phase.Idle?)
  }

  lemma {:induction false} AttemptBegan(p: Platform, events: seq<Event>, id: nat) returns (i: nat)
    requires id in Run(p, events).calls && Unfinished(Run(p, events).calls[id].phase)
    ensures BeganAt(p, events, i, id)
    decreases |events|
  {
    hide Apply, BeganAt, Inv, Fails;
    if Run(p, events).calls[id].phase.Idle? {
      i := |events|;
      BeginsNow(p, events, id);
    } else {
      var n := |events| - 1;
      var before, e := events[..n], events[n];
      var s := Run(p, before);
      RunKeepsInv(p, before);
      if e.call != id {
        OtherCallStays(p, s, e, id);
      } else if id in s.calls {
        CallMoves(p, s, e);
      } else {
        BeginsIdle(p, s, e);
      }
      if s.calls[id].phase.Idle? {
        i := n;
        ReadHeadNumbers(p, s, e);
        BeganByReading(p, events, id);
      } else {
        i := AttemptBegan(p, before, id);
        AttemptGoesOn(p, events, i, id);
      }
    }
  }

  lemma {:induction false} BeginsNow(p: Platform, events: seq<Event>, id: nat)
    requires id in Run(p, events).calls && Run(p, events).calls[id].phase.Idle?
    ensures BeganAt(p, events, |events|, id)
  {
    hide Run;
  }

  lemma {:induction false} BeganByReading(p: Platform, events: seq<Event>, id: nat)
    requires events != [] && events[|events| - 1].ReadHead? && events[|events| - 1].call == id
    requires id in Run(p, events).calls && UnderWay(Run(p, events).calls[id].phase)
    requires FirstNumber(Run(p, events).calls[id].phase) == |Run(p, events[..|events| - 1]).rows| + 1
    ensures BeganAt(p, events, |events| - 1, id)
  {
    hide Run, FirstNumber;
    assert events[..|events|] == events;
  }

  lemma {:induction false} AttemptGoesOn(p: Platform, events: seq<Event>, i: nat, id: nat)
    requires events != [] && BeganAt(p, events[..|events| - 1], i, id)
    requires UnderWay(Run(p, events[..|events| - 1]).calls[id].phase)
    requires id in Run(p, events).calls && UnderWay(Run(p, events).calls[id].phase)
    requires Run(p, events).calls[id].phase.entries == Run(p, events[..|events| - 1]).calls[id].phase.entries
    ensures BeganAt(p, events, i, id)
  {
    hide Run;
    var n := |events| - 1;
    var before := events[..n];
    assert events[..|events|] == events && before[..n] == before;
    forall k | i < k <= |events| ensures GoesOnAt(p, events, k, id) {
      if k <= n {
        assert GoesOnAt(p, before, k, id);
        assert before[..k] == events[..k];
      }
    }
    assert before[..i] == events[..i];
  }

  lemma BeginsIdle(p: Platform, s: State, e: Event)
    requires e.call !in s.calls && e.call in Apply(p, s, e).calls
    ensures var c := Apply(p, s, e).calls[e.call];
      c.attemptsLeft == c.allowed && if c.allowed == 0 then c.phase == GaveUp else c.phase == Idle
  {
  }

  /** The event at `k` is an insert that goes through. */
  ghost predicate CommitsAt(p: Platform, events: seq<Event>, k: nat) {
    k < |events| && Commits(Run(p, events[..k]), events[k])
  }

  /** An insert by another call has gone through behind position `i`. */
  ghost predicate Overtaken(p: Platform, events: seq<Event>, i: nat, id: nat) {
    exists k: nat :: i < k && CommitsAt(p, events, k) && events[k].call != id
  }

  /** The log has grown since `i` exactly when some insert has gone through. */
  lemma {:induction false} GrownExactly(p: Platform, events: seq<Event>, i: nat)
    requires i <= |events|
    ensures |Run(p, events[..i]).rows| <= |Run(p, events).rows|
    ensures |Run(p, events[..i]).rows| < |Run(p, events).rows| <==> exists k: nat :: i <= k && CommitsAt(p, events, k)
    decreases |events|
  {
    hide Apply, Commits, Inv, Run, CommitsAt;
    if i == |events| {
      assert events[..i] == events;
      NoCommitBehind(p, events);
    } else {
      var n := |events| - 1;
      var before := events[..n];
      GrownExactly(p, before, i);
      assert before[..i] == events[..i] && events[..|events|] == events;
      RunStep(p, events, n);
      RunKeepsInv(p, before);
      StepExtends(p, Run(p, before), events[n]);
      if Commits(Run(p, before), events[n]) {
        CommitsSomething(p, Run(p, before), events[n]);
      }
      CommitsStep(p, events, i);
    }
  }

  lemma NoCommitBehind(p: Platform, events: seq<Event>)
    ensures !exists k: nat :: |events| <= k && CommitsAt(p, events, k)
  {
  }

  lemma {:induction false} CommitsStep(p: Platform, events: seq<Event>, i: nat)
    requires i < |events|
    ensures var n := |events| - 1;
      (exists k: nat :: i <= k && CommitsAt(p, events, k)) <==>
      (exists k: nat :: i <= k && CommitsAt(p, events[..n], k)) || Commits(Run(p, events[..n]), events[n])
  {
    hide Run, Commits;
    var n := |events| - 1;
    forall k: nat | k < n ensures CommitsAt(p, events[..n], k) <==> CommitsAt(p, events, k) {
      assert events[..n][..k] == events[..k];
    }
    assert CommitsAt(p, events, n) <==> Commits(Run(p, events[..n]), events[n]);
  }

  lemma CommitsSomething(p: Platform, s: State, e: Event)
    requires Inv(p, s) && Commits(s, e)
    ensures s.calls[e.call].phase.entries != []
  {
    hide FirstBreak, CarriesAll, WroteExactly;
    assert CallOk(p, s, e.call);
  }

  /** Between its read and now the call itself has inserted nothing. */
  lemma {:induction false} OvertakenExactly(p: Platform, events: seq<Event>, i: nat, id: nat)
    requires BeganAt(p, events, i, id)
    ensures Overtaken(p, events, i, id) <==> exists k: nat :: i <= k && CommitsAt(p, events, k)
  {
    hide Apply, Run, FirstNumber;
    forall k: nat | i <= k && CommitsAt(p, events, k) ensures i < k && events[k].call != id {
      RunStep(p, events, k);
      CommitReturns(p, Run(p, events[..k]), events[k]);
      assert GoesOnAt(p, events, k + 1, id);
    }
  }

  lemma CommitReturns(p: Platform, s: State, e: Event)
    requires Commits(s, e)
    ensures e.Insert? && e.call in Apply(p, s, e).calls && Apply(p, s, e).calls[e.call].phase.Returned?
  {
  }

  /**
   Why attempts fail, over every interleaving. The event that ends an attempt fails it if
   and only if it is a fault, or another call's insert has gone through since the attempt
   read the head.
   */
  lemma {:induction false} AttemptFailsExactly(p: Platform, events: seq<Event>, e: Event, id: nat) returns (i: nat)
    requires Ends(p, Run(p, events), e, id)
    ensures BeganAt(p, events, i, id)
    ensures Fails(p, Run(p, events), e, id) <==> e.Fault? || Overtaken(p, events, i, id)
  {
    hide Apply, Run, Commits, Overtaken, Inv, FirstNumber;
    var s := Run(p, events);
    i := AttemptBegan(p, events, id);
    RunKeepsInv(p, events);
    if e.call != id {
      OtherCallStays(p, s, e, id);
    }
    EndFailsExactly(p, s, e);
    assert events[..|events|] == events;
    assert i < |events| ==> GoesOnAt(p, events, |events|, id);
    GrownExactly(p, events, i);
    OvertakenExactly(p, events, i, id);
  }

  // ---- Giving up -----------------------------------------------------------------

  /** How many attempts of the call have failed. */
  ghost function Failures(p: Platform, events: seq<Event>, id: nat): nat {
    if events == [] then 0
    else
      var n := |events| - 1;
      Failures(p, events[..n], id) + if Fails(p, Run(p, events[..n]), events[n], id) then 1 else 0
  }

  /** A fault has ended an attempt of the call. */
  ghost predicate Faulted(p: Platform, events: seq<Event>, id: nat) {
    exists k | 0 <= k < |events| :: events[k].Fault? && Fails(p, Run(p, events[..k]), events[k], id)
  }

  /** The account of a call's attempts: those left and those failed are the ones allowed. */
  predicate Balanced(c: Call, failed: nat, faulted: bool) {
    && (Unfinished(c.phase) ==> c.attemptsLeft >= 1 && c.attemptsLeft + failed == c.allowed)
    && (c.phase.Returned? ==> failed < c.allowed)
    && (c.phase.GaveUp? <==> failed == c.allowed || (c.kind == Single && faulted))
  }

  ghost predicate Accounted(p: Platform, events: seq<Event>, id: nat) {
    var failed, faulted := Failures(p, events, id), Faulted(p, events, id);
    if id in Run(p, events).calls then Balanced(Run(p, events).calls[id], failed, faulted)
    else failed == 0 && !faulted
  }

  /** A step of the call, with or without a failure, keeps the account. */
  lemma BalanceStep(p: Platform, s: State, e: Event, failed: nat, faulted: bool)
    requires e.call in s.calls && Balanced(s.calls[e.call], failed, faulted)
    ensures e.call in Apply(p, s, e).calls
    ensures var fails := Fails(p, s, e, e.call);
      Balanced(Apply(p, s, e).calls[e.call], failed + if fails then 1 else 0, faulted || (e.Fault? && fails))
  {
    hide Apply, Fails;
    CallMoves(p, s, e);
    FailsWhen(p, s, e);
  }

  lemma {:induction false} FaultedStep(p: Platform, events: seq<Event>, id: nat)
    requires events != []
    ensures var n := |events| - 1;
      Faulted(p, events, id) <==>
      Faulted(p, events[..n], id) || (events[n].Fault? && Fails(p, Run(p, events[..n]), events[n], id))
  {
    hide Fails, Run;
    var n := |events| - 1;
    assert forall k | 0 <= k < n :: events[..n][..k] == events[..k] && events[..n][k] == events[k];
  }

  /** A call gives up exactly when all its attempts have failed, or when a fault meets a single-event writer. */
  lemma {:induction false} AttemptsAreAccounted(p: Platform, events: seq<Event>, id: nat)
    ensures Accounted(p, events, id)
  {
    hide Apply, Faulted, Run, Fails;
    if events == [] {
      NothingAccounted(p, id);
    } else {
      var n := |events| - 1;
      RunStep(p, events, n);
      assert events[..|events|] == events;
      var s, e := Run(p, events[..n]), events[n];
      AttemptsAreAccounted(p, events[..n], id);
      FaultedStep(p, events, id);
      RunKeepsInv(p, events[..n]);
      if e.call == id && id in s.calls {
        BalanceStep(p, s, e, Failures(p, events[..n], id), Faulted(p, events[..n], id));
      } else {
        OthersFailNothing(p, s, e, id);
        if e.call != id {
          OtherCallStays(p, s, e, id);
        } else if id in Apply(p, s, e).calls {
          BeginsIdle(p, s, e);
        }
      }
    }
  }

  lemma OthersFailNothing(p: Platform, s: State, e: Event, id: nat)
    requires e.call != id || id !in s.calls
    ensures !Fails(p, s, e, id)
  {
    hide Apply;
    if e.call != id {
      OtherCallStays(p, s, e, id);
    }
  }

  lemma FailsWhen(p: Platform, s: State, e: Event)
    requires e.call in s.calls && e.call in Apply(p, s, e).calls
    ensures var c, d := s.calls[e.call], Apply(p, s, e).calls[e.call];
      Fails(p, s, e, e.call) <==> Unfinished(c.phase) && d != c && (d.phase.Idle? || d.phase.GaveUp?)
  {
    hide Apply;
  }

  lemma NothingAccounted(p: Platform, id: nat)
    ensures Accounted(p, [], id)
  {
  }

  /** The attempt that ends at `k` met a fault there, or another call's insert behind its read of the head. */
  ghost predicate Thwarted(p: Platform, events: seq<Event>, k: nat, id: nat)
    requires k < |events|
  {
    events[k].Fault? ||
    exists i :: BeganAt(p, events[..k], i, id) && Overtaken(p, events[..k], i, id)
  }

  /**
   A call gives up only when it had to: every attempt it was allowed met a fault or lost
   the race to another call's insert. Only a single-event writer stops at the first fault.
   */
  lemma {:induction false} GaveUpExactly(p: Platform, events: seq<Event>, id: nat)
    requires id in Run(p, events).calls
    ensures var c := Run(p, events).calls[id];
      c.phase.GaveUp? <==> Failures(p, events, id) == c.allowed || (c.kind == Single && Faulted(p, events, id))
    ensures forall k | 0 <= k < |events| && Fails(p, Run(p, events[..k]), events[k], id) :: Thwarted(p, events, k, id)
  {
    hide Run, Fails, Overtaken, BeganAt, Failures, Faulted;
    AttemptsAreAccounted(p, events, id);
    forall k | 0 <= k < |events| && Fails(p, Run(p, events[..k]), events[k], id) ensures Thwarted(p, events, k, id) {
      FailingEnds(p, Run(p, events[..k]), events[k], id);
      var i := AttemptFailsExactly(p, events[..k], events[k], id);
    }
  }

  lemma FailingEnds(p: Platform, s: State, e: Event, id: nat)
    requires Fails(p, s, e, id)
    ensures Ends(p, s, e, id)
  {
    hide Apply;
  }
}
