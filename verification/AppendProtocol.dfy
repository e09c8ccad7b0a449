/**
 Appending to the audit log from many writers at once.

 A writer reads the head, links its entries to it, opens a transaction, compares
 the head's hash with the one it linked to, and inserts under the unique index
 on `sequence`. Those are separate steps here, and an interleaving of writers is
 any sequence of events. Nothing is assumed about the digest.
 */
module AppendProtocol {
  import opened JsText
  import opened Options
  import opened CanonicalForm
  import opened AuditChain
  import opened AuditMetadata

  // ---- The atomic operation the protocol stands for -------------------------

  datatype Conflict = Conflict(expected: Text, actual: Text)

  function LastOf(log: seq<Entry>): Option<Entry> {
    if log == [] then None else Some(log[|log| - 1])
  }

  /** The first entry that does not link to the one before it. */
  function ValidateBatch(entries: seq<Entry>, expected: Text): Option<Conflict> {
    if entries == [] then None
    else if entries[0].content.previousHash != expected then
      Some(Conflict(expected, entries[0].content.previousHash))
    else ValidateBatch(entries[1..], entries[0].hash)
  }

  method CheckBatch(entries: seq<Entry>, expected: Text) returns (r: Option<Conflict>)
    ensures r == ValidateBatch(entries, expected)
  {
    var previousHash := expected;
    for i := 0 to |entries|
      invariant ValidateBatch(entries, expected) == ValidateBatch(entries[i..], previousHash)
    {
      var entry := entries[i];
      if entry.content.previousHash != previousHash {
        return Some(Conflict(previousHash, entry.content.previousHash));
      }
      previousHash := entry.hash;
      assert entries[i..][1..] == entries[i + 1..];
    }
    r := None;
  }

  ghost predicate LinkedFrom(entries: seq<Entry>, expected: Text) {
    forall i | 0 <= i < |entries| :: LinkedAt(entries, expected, i)
  }

  ghost predicate LinkedAt(entries: seq<Entry>, expected: Text, i: nat)
    requires i < |entries|
  {
    entries[i].content.previousHash == if i == 0 then expected else entries[i - 1].hash
  }

  lemma LinkedStep(entries: seq<Entry>, expected: Text)
    requires entries != []
    ensures LinkedFrom(entries, expected) <==>
      entries[0].content.previousHash == expected && LinkedFrom(entries[1..], entries[0].hash)
  {
    var rest, hash := entries[1..], entries[0].hash;
    assert LinkedAt(entries, expected, 0) <==> entries[0].content.previousHash == expected;
    assert forall i: nat | i < |rest| :: LinkedAt(rest, hash, i) <==> LinkedAt(entries, expected, i + 1);
    if entries[0].content.previousHash == expected && LinkedFrom(rest, hash) {
      forall i: nat | i < |entries| ensures LinkedAt(entries, expected, i) {
        assert i > 0 ==> LinkedAt(rest, hash, i - 1);
      }
    }
  }

  lemma {:induction false} ValidateExactly(entries: seq<Entry>, expected: Text)
    ensures ValidateBatch(entries, expected) == None <==> LinkedFrom(entries, expected)
    decreases entries
  {
    hide LinkedFrom;
    if entries == [] {
      NothingLinked(expected);
    } else {
      LinkedStep(entries, expected);
      ValidateExactly(entries[1..], entries[0].hash);
    }
  }

  lemma NothingLinked(expected: Text)
    ensures LinkedFrom([], expected)
  {
  }

  /** A batch is refused for its first entry that links elsewhere: what it should link to, and what it does link to. */
  lemma {:induction false} ConflictExactly(entries: seq<Entry>, expected: Text, i: nat)
    requires i < |entries| && !LinkedAt(entries, expected, i) && LinkedFrom(entries[..i], expected)
    ensures ValidateBatch(entries, expected) ==
      Some(Conflict(if i == 0 then expected else entries[i - 1].hash, entries[i].content.previousHash))
    decreases i
  {
    if i > 0 {
      LinkedStep(entries[..i], expected);
      assert entries[..i][1..] == entries[1..][..i - 1];
      ConflictExactly(entries[1..], entries[0].hash, i - 1);
    }
  }

  predicate TakesSequence(log: seq<Entry>, n: int) {
    exists i | 0 <= i < |log| :: log[i].content.sequence == n
  }

  /** The first entry whose sequence the log already has. */
  function FirstTaken(log: seq<Entry>, entries: seq<Entry>): Option<Entry> {
    if entries == [] then None
    else if TakesSequence(log, entries[0].content.sequence) then Some(entries[0])
    else FirstTaken(log, entries[1..])
  }

  /** Why an atomic append of `entries` is refused, if it is. */
  function Refusal(log: seq<Entry>, entries: seq<Entry>, expected: Text): Option<Conflict> {
    var headHash := HashOf(LastOf(log));
    if entries == [] then None
    else if headHash != expected then Some(Conflict(expected, headHash))
    else
      match FirstTaken(log, entries)
      case Some(e) => Some(Conflict(e.content.previousHash, headHash))
      case None => ValidateBatch(entries, expected)
  }

  /**
   When the atomic append refuses a batch, and what it says. It says what was expected
   and what was found; a sequence that is taken is reported against the head.
   */
  lemma {:induction false} RefusalExactly(log: seq<Entry>, entries: seq<Entry>, expected: Text)
    ensures var head := if log == [] then GENESIS_HASH else log[|log| - 1].hash;
      var refusal := Refusal(log, entries, expected);
      && (refusal == None <==>
          (entries == [] ||
           (head == expected && LinkedFrom(entries, expected) &&
            forall i, j | 0 <= i < |log| && 0 <= j < |entries| ::
              log[i].content.sequence != entries[j].content.sequence)))
      && (entries != [] && head != expected ==> refusal == Some(Conflict(expected, head)))
      && (entries != [] && head == expected ==>
          forall j | 0 <= j < |entries| && TakesSequence(log, entries[j].content.sequence) &&
            (forall k | 0 <= k < j :: !TakesSequence(log, entries[k].content.sequence)) ::
            refusal == Some(Conflict(entries[j].content.previousHash, head)))
      && (forall i: nat | i < |entries| && head == expected && FirstTaken(log, entries) == None &&
            !LinkedAt(entries, expected, i) && LinkedFrom(entries[..i], expected) ::
            refusal ==
            Some(Conflict(if i == 0 then expected else entries[i - 1].hash, entries[i].content.previousHash)))
  {
    hide ValidateBatch, FirstTaken, LinkedFrom, LinkedAt;
    ValidateExactly(entries, expected);
    forall i: nat | i < |entries| && !LinkedAt(entries, expected, i) && LinkedFrom(entries[..i], expected) {
      ConflictExactly(entries, expected, i);
    }
    FirstTakenExactly(log, entries);
  }

  lemma {:induction false} FirstTakenExactly(log: seq<Entry>, entries: seq<Entry>)
    ensures FirstTaken(log, entries) == None <==>
      forall i, j | 0 <= i < |log| && 0 <= j < |entries| :: log[i].content.sequence != entries[j].content.sequence
    ensures forall j | 0 <= j < |entries| && TakesSequence(log, entries[j].content.sequence) &&
      (forall k | 0 <= k < j :: !TakesSequence(log, entries[k].content.sequence)) ::
      FirstTaken(log, entries) == Some(entries[j])
    decreases entries
  {
    if entries != [] {
      var rest := entries[1..];
      FirstTakenExactly(log, rest);
      assert forall j | 0 <= j < |rest| :: rest[j] == entries[j + 1];
      assert forall j | 0 < j < |entries| :: entries[j] == rest[j - 1];
    }
  }

  /** The repository whose check and push happen without an interleaving. */
  class InMemoryAuditLog {
    var entries: seq<Entry>

    constructor ()
      ensures entries == []
    {
      entries := [];
    }

    method AppendMany(batch: seq<Entry>, expected: Text) returns (r: Option<Conflict>)
      modifies this
      ensures r == Refusal(old(entries), batch, expected)
      ensures entries == if r == None then old(entries) + batch else old(entries)
    {
      if batch == [] {
        return None;
      }
      var headHash := HashOf(LastOf(entries));
      if headHash != expected {
        return Some(Conflict(expected, headHash));
      }
      for i := 0 to |batch|
        invariant entries == old(entries)
        invariant FirstTaken(entries, batch) == FirstTaken(entries, batch[i..])
      {
        if TakesSequence(entries, batch[i].content.sequence) {
          return Some(Conflict(batch[i].content.previousHash, headHash));
        }
        assert batch[i..][1..] == batch[i + 1..];
      }
      r := CheckBatch(batch, expected);
      if r == None {
        entries := entries + batch;
      }
    }
  }

  // ---- The protocol --------------------------------------------------------

  datatype Kind = Single | Batch

  datatype Command = Command(
    action: Text,
    actorId: Option<Text>,
    subjectId: Option<Text>,
    metadata: Metadata,
    occurredAt: Option<int>)

  /** A single-event writer bounds the metadata; a batch writer records it as it came. */
  function DraftOf(kind: Kind, c: Command, now: int): Draft {
    Draft(c.action, c.actorId, c.subjectId,
          if kind == Single then MetadataFor(Supplied(c.metadata)) else c.metadata,
          c.occurredAt.GetOr(now))
  }

  datatype Phase =
    | Idle                                          // about to read the head
    | Linked(entries: seq<Entry>, expected: Text)   // about to compare the head
    | Checked(entries: seq<Entry>, expected: Text)  // about to insert
    | Returned(entries: seq<Entry>)
    | GaveUp

  /** A call of a writer, with the attempts it was allowed and those it has left. */
  datatype Call = Call(kind: Kind, commands: seq<Command>, allowed: nat, attemptsLeft: nat, phase: Phase)

  /** The table's rows, which call wrote each of them, and the calls made so far. */
  datatype State = State(rows: seq<Entry>, writers: seq<nat>, calls: map<nat, Call>)

  datatype Event =
    | Begin(call: nat, kind: Kind, commands: seq<Command>, attempts: nat)
    | ReadHead(call: nat, ids: seq<Text>, nows: seq<int>)
    | CompareHead(call: nat)
    | Insert(call: nat)
    | Fault(call: nat)  // an awaited operation throws, without having committed

  ghost predicate HoldsGreatest(rows: seq<Entry>, i: int) {
    0 <= i < |rows| && forall j | 0 <= j < |rows| :: rows[j].content.sequence <= rows[i].content.sequence
  }

  /** `findFirst` ordered by descending sequence. */
  ghost function Latest(rows: seq<Entry>): Option<Entry> {
    if exists i :: HoldsGreatest(rows, i) then
      var i :| HoldsGreatest(rows, i);
      Some(rows[i])
    else None
  }

  /** Whether the unique index on `sequence` turns an insert of `entries` away. */
  predicate ViolatesIndex(rows: seq<Entry>, entries: seq<Entry>) {
    || (exists i | 0 <= i < |entries| :: TakesSequence(rows, entries[i].content.sequence))
    || (exists i, j | 0 <= i < j < |entries| :: entries[i].content.sequence == entries[j].content.sequence)
  }

  /** After a lost race: another attempt, or none left. */
  function Retry(c: Call): Call {
    if c.attemptsLeft <= 1 then c.(attemptsLeft := 0, phase := GaveUp)
    else c.(attemptsLeft := c.attemptsLeft - 1, phase := Idle)
  }

  function WithCall(s: State, id: nat, c: Call): State { s.(calls := s.calls[id := c]) }

  /** `createMany` inside a transaction that commits. */
  function InsertBatch(s: State, id: nat, c: Call): State
    requires c.phase.Checked?
  {
    var entries := c.phase.entries;
    WithCall(s.(rows := s.rows + entries, writers := s.writers + seq(|entries|, _ => id)),
             id, c.(phase := Returned(entries)))
  }

  /** One event; an event that does not apply changes nothing. */
  ghost function Apply(p: Platform, s: State, e: Event): State {
    if e.Begin? then
      if e.call in s.calls || (e.kind == Single && |e.commands| != 1) then s
      else
        var phase := if e.attempts == 0 then GaveUp else Idle;
        WithCall(s, e.call, Call(e.kind, e.commands, e.attempts, e.attempts, phase))
    else if e.call !in s.calls then s
    else
      var c := s.calls[e.call];
      match e
      case ReadHead(id, ids, nows) =>
        if c.phase != Idle || |ids| != |c.commands| || |nows| != |c.commands| then s
        else
          var head := Latest(s.rows);
          var entries := LinkAll(p, head, ids, Drafts(c.kind, c.commands, nows));
          if entries == [] then WithCall(s, id, c.(phase := Returned([])))
          else if ValidateBatch(entries, HashOf(head)) != None then WithCall(s, id, Retry(c))
          else WithCall(s, id, c.(phase := Linked(entries, HashOf(head))))
      case CompareHead(id) =>
        if !c.phase.Linked? then s
        else if HashOf(Latest(s.rows)) != c.phase.expected then WithCall(s, id, Retry(c))
        else WithCall(s, id, c.(phase := Checked(c.phase.entries, c.phase.expected)))
      case Insert(id) =>
        if !c.phase.Checked? then s
        else if ViolatesIndex(s.rows, c.phase.entries) then WithCall(s, id, Retry(c))
        else
          InsertBatch(s, id, c)
      case Fault(id) =>
        if c.phase.Returned? || c.phase.GaveUp? then s
        else WithCall(s, id, if c.kind == Single then c.(phase := GaveUp) else Retry(c))
  }

  function Drafts(kind: Kind, commands: seq<Command>, nows: seq<int>): (r: seq<Draft>)
    requires |nows| == |commands|
    ensures |r| == |commands|
  {
    seq(|commands|, i requires 0 <= i < |commands| => DraftOf(kind, commands[i], nows[i]))
  }

  const EMPTY := State([], [], map[])

  ghost function Run(p: Platform, events: seq<Event>): State {
    if events == [] then EMPTY
    else Apply(p, Run(p, events[..|events| - 1]), events[|events| - 1])
  }

  /** The insert that one event performs, if it performs one. */
  ghost predicate Commits(s: State, e: Event) {
    e.Insert? && e.call in s.calls && s.calls[e.call].phase.Checked? &&
    !ViolatesIndex(s.rows, s.calls[e.call].phase.entries)
  }

  // ---- The invariant -------------------------------------------------------

  /** A batch linked to the entry that is, or once was, the head of the log. */
  ghost predicate LinkedToLog(p: Platform, log: seq<Entry>, entries: seq<Entry>, expected: Text) {
    && entries != []
    && 1 <= entries[0].content.sequence <= |log| + 1
    && var previous := LastOf(log[..entries[0].content.sequence - 1]);
       FirstBreak(p, previous, entries) == None && expected == HashOf(previous)
  }

  /** Call `id` wrote the given entries, as one block of the log, and no other row. */
  ghost predicate WroteExactly(s: State, id: nat, entries: seq<Entry>) {
    var base := if entries == [] then 0 else entries[0].content.sequence - 1;
    && 0 <= base && base + |entries| <= |s.rows|
    && s.rows[base..base + |entries|] == entries
    && forall k | 0 <= k < |s.writers| :: s.writers[k] == id <==> base <= k < base + |entries|
  }

  /** The entry records the command: what happened, by whom, to whom, and when if the command says so. */
  ghost predicate Carries(kind: Kind, c: Command, e: Entry) {
    && e.content.action == c.action && e.content.actorId == c.actorId && e.content.subjectId == c.subjectId
    && e.content.metadata == (if kind == Single then MetadataFor(Supplied(c.metadata)) else c.metadata)
    && (c.occurredAt.Some? ==> e.content.occurredAt == c.occurredAt.value)
  }

  /** One entry per command, in the order of the commands. */
  ghost predicate CarriesAll(kind: Kind, commands: seq<Command>, entries: seq<Entry>) {
    |entries| == |commands| && forall i | 0 <= i < |entries| :: Carries(kind, commands[i], entries[i])
  }

  ghost predicate CallOk(p: Platform, s: State, id: nat)
    requires id in s.calls
  {
    var c := s.calls[id];
    && (c.kind == Single ==> |c.commands| == 1)
    && (c.phase.Linked? || c.phase.Checked? ==>
        LinkedToLog(p, s.rows, c.phase.entries, c.phase.expected) && CarriesAll(c.kind, c.commands, c.phase.entries))
    && (c.phase.Returned? ==> CarriesAll(c.kind, c.commands, c.phase.entries))
    && WroteExactly(s, id, if c.phase.Returned? then c.phase.entries else [])
  }

  ghost predicate Inv(p: Platform, s: State) {
    && FirstBreak(p, None, s.rows) == None
    && |s.writers| == |s.rows|
    && (forall id | id in s.calls :: CallOk(p, s, id))
    && (forall k | 0 <= k < |s.writers| :: s.writers[k] in s.calls)
  }

  // ---- What the steps rely on ----------------------------------------------

  lemma {:induction false} VerifiedBatchValidates(p: Platform, previous: Option<Entry>, entries: seq<Entry>)
    requires FirstBreak(p, previous, entries) == None
    ensures ValidateBatch(entries, HashOf(previous)) == None
    decreases entries
  {
    if entries != [] {
      VerifiedBatchValidates(p, Some(entries[0]), entries[1..]);
    }
  }

  /** In a log that verifies, the row with the greatest sequence is the last one. */
  lemma {:induction false} LatestIsLast(p: Platform, rows: seq<Entry>)
    requires FirstBreak(p, None, rows) == None
    ensures Latest(rows) == LastOf(rows)
  {
    hide FirstBreak;
    VerifiedIsConsecutive(p, None, rows);
    var last := |rows| - 1;
    if rows != [] {
      assert HoldsGreatest(rows, last);
      forall i | HoldsGreatest(rows, i) ensures i == last {
        assert rows[last].content.sequence <= rows[i].content.sequence;
      }
    }
  }

  lemma {:induction false} LinkedIsConsecutive(p: Platform, log: seq<Entry>, entries: seq<Entry>, expected: Text)
    requires FirstBreak(p, None, log) == None && LinkedToLog(p, log, entries, expected)
    ensures Consecutive(entries[0].content.sequence - 1, entries)
  {
    hide FirstBreak;
    var previous := LastOf(log[..entries[0].content.sequence - 1]);
    VerifiedIsConsecutive(p, previous, entries);
    assert entries[0].content.sequence == NextSequence(previous);
  }

  /**
   The unique index is the gate: it admits a linked batch exactly when the log
   still ends at the entry the batch was linked to, whatever the hashes are.
   */
  lemma {:induction false} IndexDecides(p: Platform, rows: seq<Entry>, entries: seq<Entry>, expected: Text)
    requires FirstBreak(p, None, rows) == None && LinkedToLog(p, rows, entries, expected)
    ensures !ViolatesIndex(rows, entries) <==> entries[0].content.sequence == |rows| + 1
  {
    hide FirstBreak;
    VerifiedIsConsecutive(p, None, rows);
    LinkedIsConsecutive(p, rows, entries, expected);
    var n := entries[0].content.sequence;
    if n <= |rows| {
      assert rows[n - 1].content.sequence == n;
    }
  }

  lemma {:induction false} ReadHeadLinks(p: Platform, s: State, ids: seq<Text>, drafts: seq<Draft>)
    requires Inv(p, s) && |ids| == |drafts| > 0
    ensures var head := Latest(s.rows);
      LinkedToLog(p, s.rows, LinkAll(p, head, ids, drafts), HashOf(head))
  {
    var rows := s.rows;
    LatestIsLast(p, rows);
    VerifiedIsConsecutive(p, None, rows);
    LinkAllVerifies(p, LastOf(rows), ids, drafts);
    VerifiedIsConsecutive(p, LastOf(rows), LinkAll(p, LastOf(rows), ids, drafts));
    assert rows[..|rows|] == rows;
  }

  lemma {:induction false} LinkedCarries(p: Platform, head: Option<Entry>, c: Call, ids: seq<Text>, nows: seq<int>)
    requires |ids| == |nows| == |c.commands|
    ensures CarriesAll(c.kind, c.commands, LinkAll(p, head, ids, Drafts(c.kind, c.commands, nows)))
  {
    hide LinkAll, MetadataFor;
    var drafts := Drafts(c.kind, c.commands, nows);
    forall i | 0 <= i < |drafts| ensures Carries(c.kind, c.commands[i], LinkAll(p, head, ids, drafts)[i]) {
      LinkAllBuilds(p, head, ids, drafts, i);
    }
  }

  lemma LinkedToLongerLog(p: Platform, log: seq<Entry>, more: seq<Entry>, entries: seq<Entry>, expected: Text)
    requires LinkedToLog(p, log, entries, expected)
    ensures LinkedToLog(p, log + more, entries, expected)
  {
    hide FirstBreak;
    var base := entries[0].content.sequence - 1;
    assert (log + more)[..base] == log[..base];
  }

  // ---- The invariant holds in every reachable state ------------------------

  /** Replacing a call that wrote no rows keeps the invariant. */
  lemma InvWithCall(p: Platform, s: State, id: nat, c: Call)
    requires Inv(p, s) && (id in s.calls ==> !s.calls[id].phase.Returned?)
    requires CallOk(p, WithCall(s, id, c), id)
    ensures Inv(p, WithCall(s, id, c))
  {
    hide FirstBreak;
    var t := WithCall(s, id, c);
    forall other | other in t.calls ensures CallOk(p, t, other) {
      assert other != id ==> CallOk(p, s, other);
    }
  }

  /** What a successful insert extends, and with what. */
  lemma {:induction false} InsertExtends(p: Platform, s: State, id: nat)
    requires Inv(p, s) && id in s.calls && s.calls[id].phase.Checked?
    requires !ViolatesIndex(s.rows, s.calls[id].phase.entries)
    ensures Consecutive(|s.rows|, s.calls[id].phase.entries)
    ensures HashOf(LastOf(s.rows)) == s.calls[id].phase.expected
    ensures FirstBreak(p, None, s.rows + s.calls[id].phase.entries) == None
  {
    var rows, entries := s.rows, s.calls[id].phase.entries;
    assert CallOk(p, s, id);
    IndexDecides(p, rows, entries, s.calls[id].phase.expected);
    LinkedIsConsecutive(p, rows, entries, s.calls[id].phase.expected);
    assert rows[..|rows|] == rows;
    FirstBreakOfConcat(p, None, rows, entries);
  }

  /** A block of rows written by another call is where it was after an insert by `id`. */
  lemma WroteStays(s: State, id: nat, c: Call, other: nat, entries: seq<Entry>)
    requires c.phase.Checked? && |s.writers| == |s.rows| && other != id && WroteExactly(s, other, entries)
    ensures WroteExactly(InsertBatch(s, id, c), other, entries)
  {
    var base := if entries == [] then 0 else entries[0].content.sequence - 1;
    assert (s.rows + c.phase.entries)[base..base + |entries|] == s.rows[base..base + |entries|];
  }

  lemma InsertKeepsOther(p: Platform, s: State, id: nat, other: nat)
    requires Inv(p, s) && id in s.calls && s.calls[id].phase.Checked?
    requires other in s.calls && other != id
    ensures CallOk(p, InsertBatch(s, id, s.calls[id]), other)
  {
    hide FirstBreak, LinkedToLog, CarriesAll, WroteExactly;
    var batch, phase := s.calls[id].phase.entries, s.calls[other].phase;
    assert CallOk(p, s, other);
    WroteStays(s, id, s.calls[id], other, if phase.Returned? then phase.entries else []);
    if phase.Linked? || phase.Checked? {
      LinkedToLongerLog(p, s.rows, batch, phase.entries, phase.expected);
    }
  }

  lemma InsertKeepsOwn(p: Platform, s: State, id: nat)
    requires Inv(p, s) && id in s.calls && s.calls[id].phase.Checked?
    requires !ViolatesIndex(s.rows, s.calls[id].phase.entries)
    ensures CallOk(p, InsertBatch(s, id, s.calls[id]), id)
  {
    hide FirstBreak, ViolatesIndex, LinkedToLog, CarriesAll;
    InsertExtends(p, s, id);
    assert CallOk(p, s, id);
    assert (s.rows + s.calls[id].phase.entries)[|s.rows|..] == s.calls[id].phase.entries;
  }

  lemma InsertKeepsInv(p: Platform, s: State, id: nat)
    requires Inv(p, s) && id in s.calls && s.calls[id].phase.Checked?
    requires !ViolatesIndex(s.rows, s.calls[id].phase.entries)
    ensures Inv(p, InsertBatch(s, id, s.calls[id]))
  {
    hide FirstBreak, CallOk, ViolatesIndex;
    InsertExtends(p, s, id);
    forall other | other in s.calls ensures CallOk(p, InsertBatch(s, id, s.calls[id]), other) {
      if other == id {
        InsertKeepsOwn(p, s, id);
      } else {
        InsertKeepsOther(p, s, id, other);
      }
    }
  }

  /** An event that changes anything changes one unfinished call and leaves it in order. */
  ghost predicate ChangesOneCall(p: Platform, s: State, e: Event) {
    var t := Apply(p, s, e);
    t != s ==>
      && e.call in t.calls && t == WithCall(s, e.call, t.calls[e.call])
      && (e.call in s.calls ==> !s.calls[e.call].phase.Returned?)
      && CallOk(p, t, e.call)
  }

  lemma ReadHeadChangesOneCall(p: Platform, s: State, e: Event)
    requires Inv(p, s) && e.ReadHead?
    ensures ChangesOneCall(p, s, e)
  {
    hide FirstBreak, LinkAll, Latest, LinkedToLog, CarriesAll, Drafts;
    if e.call in s.calls {
      var c := s.calls[e.call];
      assert CallOk(p, s, e.call);
      if |e.ids| == |e.nows| == |c.commands| {
        LinkedCarries(p, Latest(s.rows), c, e.ids, e.nows);
        if c.commands != [] {
          ReadHeadLinks(p, s, e.ids, Drafts(c.kind, c.commands, e.nows));
        }
      }
    }
  }

  lemma BeginChangesOneCall(p: Platform, s: State, e: Event)
    requires Inv(p, s) && e.Begin?
    ensures ChangesOneCall(p, s, e)
  {
    hide FirstBreak, LinkedToLog, CarriesAll;
  }

  lemma OtherChangesOneCall(p: Platform, s: State, e: Event)
    requires Inv(p, s) && !e.Begin? && !e.ReadHead? && !Commits(s, e)
    ensures ChangesOneCall(p, s, e)
  {
    hide FirstBreak, ViolatesIndex, LinkAll, Latest, LinkedToLog, CarriesAll, WroteExactly;
    if e.call in s.calls {
      assert CallOk(p, s, e.call);
      WroteUnchanged(s, e.call, Apply(p, s, e).calls[e.call]);
    }
  }

  lemma WroteUnchanged(s: State, id: nat, c: Call)
    ensures WroteExactly(WithCall(s, id, c), id, []) == WroteExactly(s, id, [])
  {
  }

  lemma StepKeepsInv(p: Platform, s: State, e: Event)
    requires Inv(p, s)
    ensures Inv(p, Apply(p, s, e))
  {
    if Commits(s, e) {
      InsertKeepsInv(p, s, e.call);
    } else if Apply(p, s, e) != s {
      hide FirstBreak, Apply, CallOk, Inv, Commits;
      if e.Begin? {
        BeginChangesOneCall(p, s, e);
      } else if e.ReadHead? {
        ReadHeadChangesOneCall(p, s, e);
      } else {
        OtherChangesOneCall(p, s, e);
      }
      InvWithCall(p, s, e.call, Apply(p, s, e).calls[e.call]);
    }
  }

  // ---- Theorems about every interleaving -----------------------------------

  lemma {:induction false} RunKeepsInv(p: Platform, events: seq<Event>)
    ensures Inv(p, Run(p, events))
  {
    hide Apply;
    if events != [] {
      var before := events[..|events| - 1];
      RunKeepsInv(p, before);
      StepKeepsInv(p, Run(p, before), events[|events| - 1]);
    }
  }

  /** Under every interleaving the stored rows verify as a chain, numbered from 1 without a gap. */
  lemma {:induction false} StoredLogVerifies(p: Platform, events: seq<Event>)
    ensures var rows := Run(p, events).rows;
      FirstBreak(p, None, rows) == None && Consecutive(0, rows)
  {
    RunKeepsInv(p, events);
    VerifiedIsConsecutive(p, None, Run(p, events).rows);
  }

  /** An event leaves the log alone, or appends a whole batch to the head that batch was linked to. */
  lemma StepExtends(p: Platform, s: State, e: Event)
    requires Inv(p, s)
    ensures Commits(s, e) ==>
      && Apply(p, s, e).rows == s.rows + s.calls[e.call].phase.entries
      && HashOf(LastOf(s.rows)) == s.calls[e.call].phase.expected
    ensures !Commits(s, e) ==> Apply(p, s, e).rows == s.rows
  {
    hide FirstBreak, ViolatesIndex, LinkAll, DraftOf, Latest;
    if Commits(s, e) {
      InsertExtends(p, s, e.call);
    }
  }

  /** The log only ever grows by a suffix. */
  lemma {:induction false} LogGrowsBySuffix(p: Platform, events: seq<Event>, more: seq<Event>)
    ensures Run(p, events).rows <= Run(p, events + more).rows
    decreases more
  {
    hide Apply;
    if more == [] {
      assert events + more == events;
    } else {
      var init, last := more[..|more| - 1], more[|more| - 1];
      LogGrowsBySuffix(p, events, init);
      assert (events + more)[..|events + more| - 1] == events + init;
      RunKeepsInv(p, events + init);
      StepExtends(p, Run(p, events + init), last);
    }
  }

  /**
   What a call has done. Once it returned entries, they record its commands, one
   each and in order, and the rows it wrote are exactly those entries, each stored
   once and side by side; a call that gave up, or has not finished, wrote none.
   */
  lemma {:induction false} CallWroteWhatItReturned(p: Platform, events: seq<Event>, id: nat)
    requires id in Run(p, events).calls
    ensures var s := Run(p, events); var c := s.calls[id];
      && (c.phase.Returned? ==> CarriesAll(c.kind, c.commands, c.phase.entries))
      && (c.phase.Returned? && c.kind == Single ==> |c.phase.entries| == 1)
      && WroteExactly(s, id, if c.phase.Returned? then c.phase.entries else [])
  {
    RunKeepsInv(p, events);
    assert CallOk(p, Run(p, events), id);
  }

  lemma {:induction false} NoneTaken(log: seq<Entry>, entries: seq<Entry>, n: int)
    requires Consecutive(n, entries) && forall i | 0 <= i < |log| :: log[i].content.sequence <= n
    ensures FirstTaken(log, entries) == None
    decreases entries
  {
    if entries != [] {
      assert Consecutive(n + 1, entries[1..]);
      NoneTaken(log, entries[1..], n + 1);
    }
  }

  /**
   The check and the insert together refine the atomic append. An insert goes through
   exactly when the atomic append of the same batch at that moment would, and then has
   its effect; and the check sends back only what the atomic append would refuse.
   */
  lemma RefinesAtomicAppend(p: Platform, s: State, id: nat)
    requires Inv(p, s) && id in s.calls
    ensures var c, inserted, compared := s.calls[id], Apply(p, s, Insert(id)), Apply(p, s, CompareHead(id));
      && (c.phase.Checked? ==>
          if Refusal(s.rows, c.phase.entries, c.phase.expected) == None then
            inserted == InsertBatch(s, id, c)
          else inserted == WithCall(s, id, Retry(c)))
      && (c.phase.Linked? && Refusal(s.rows, c.phase.entries, c.phase.expected) == None ==>
          compared == WithCall(s, id, c.(phase := Checked(c.phase.entries, c.phase.expected))))
  {
    hide FirstBreak;
    var phase, rows := s.calls[id].phase, s.rows;
    assert CallOk(p, s, id);
    LatestIsLast(p, rows);
    if phase.Checked? {
      RefusedExactly(p, rows, phase.entries, phase.expected);
    }
  }

  lemma {:induction false} RefusedExactly(p: Platform, rows: seq<Entry>, entries: seq<Entry>, expected: Text)
    requires FirstBreak(p, None, rows) == None && LinkedToLog(p, rows, entries, expected)
    ensures ViolatesIndex(rows, entries) <==> Refusal(rows, entries, expected) != None
  {
    hide FirstBreak;
    VerifiedIsConsecutive(p, None, rows);
    LinkedIsConsecutive(p, rows, entries, expected);
    IndexDecides(p, rows, entries, expected);
    if !ViolatesIndex(rows, entries) {
      assert rows[..|rows|] == rows;
      NoneTaken(rows, entries, |rows|);
      VerifiedBatchValidates(p, LastOf(rows), entries);
    } else {
      var n := entries[0].content.sequence;
      assert rows[n - 1].content.sequence == n;
    }
  }
}
