/**
 Committing the head hash of the log to an outside ledger, and what comparing
 a later walk with the receipts proves.
 */
module AnchoredLog {
  import opened JsText
  import opened Options
  import opened CanonicalForm
  import opened AuditChain
  import opened ChainWalk

  datatype AnchorRecord = AnchorRecord(sequence: int, chainHash: Text, anchorRef: Text, network: Text, anchoredAt: int)

  /** What the ledger answers when asked to hold a hash. */
  datatype Receipt = Accepted(anchorRef: Text, network: Text, anchoredAt: int) | Refused(message: Text)

  datatype Outcome =
    | Anchored(record: AnchorRecord, newlyCovered: int)
    | EmptyLog
    | AlreadyAnchored
    | LedgerFailed(message: Text)
    | SaveFailed

  /** The saved receipts, and the hashes the ledger has taken with the references it gave for them. */
  datatype Anchors = Anchors(records: seq<AnchorRecord>, ledger: set<(Text, Text)>)

  function Latest(records: seq<AnchorRecord>): Option<AnchorRecord> {
    if records == [] then None else Some(records[|records| - 1])
  }

  /** One job: `saves` says whether storing the receipt succeeds after the ledger has taken the hash. */
  function Anchor(s: Anchors, log: seq<Entry>, receipt: Receipt, saves: bool): (Anchors, Outcome) {
    if log == [] then (s, EmptyLog)
    else
      var head, previous := log[|log| - 1], Latest(s.records);
      if previous.Some? && previous.value.chainHash == head.hash then (s, AlreadyAnchored)
      else
        match receipt
        case Refused(message) => (s, LedgerFailed(message))
        case Accepted(ref, network, at) =>
          var taken := s.(ledger := s.ledger + {(head.hash, ref)});
          if !saves then (taken, SaveFailed)
          else
            var record := AnchorRecord(head.content.sequence, head.hash, ref, network, at);
            (taken.(records := s.records + [record]),
             Anchored(record, head.content.sequence - Covered(s.records)))
  }

  /** How far the latest receipt reaches. */
  function Covered(records: seq<AnchorRecord>): int {
    match Latest(records)
    case None => 0
    case Some(record) => record.sequence
  }

  class AnchorJob {
    var records: seq<AnchorRecord>
    var ledger: set<(Text, Text)>

    constructor ()
      ensures State() == Anchors([], {})
    {
      records, ledger := [], {};
    }

    ghost function State(): Anchors
      reads this
    {
      Anchors(records, ledger)
    }

    method Execute(log: seq<Entry>, receipt: Receipt, saves: bool) returns (r: Outcome)
      modifies this
      ensures (State(), r) == Anchor(old(State()), log, receipt, saves)
    {
      if log == [] {
        return EmptyLog;
      }
      var head := log[|log| - 1];
      var previous := Latest(records);
      if previous.Some? && previous.value.chainHash == head.hash {
        return AlreadyAnchored;
      }
      if receipt.Refused? {
        return LedgerFailed(receipt.message);
      }
      ledger := ledger + {(head.hash, receipt.anchorRef)};
      if !saves {
        return SaveFailed;
      }
      var record := AnchorRecord(
        head.content.sequence, head.hash, receipt.anchorRef, receipt.network, receipt.anchoredAt);
      records := records + [record];
      r := Anchored(record, head.content.sequence - if previous.Some? then previous.value.sequence else 0);
    }
  }

  /**
   What a job does, exactly. The ledger is asked only about a head that the latest
   receipt does not already cover; a receipt is kept only of a hash it took; and a hash
   it took stays taken when its receipt could not be stored.
   */
  lemma JobDoes(s: Anchors, log: seq<Entry>, receipt: Receipt, saves: bool)
    ensures var (t, r) := Anchor(s, log, receipt, saves);
      var covered := log != [] && s.records != [] && s.records[|s.records| - 1].chainHash == log[|log| - 1].hash;
      var taken := log != [] && !covered && receipt.Accepted?;
      && (r == EmptyLog <==> log == [])
      && (r == AlreadyAnchored <==> covered)
      && (r.LedgerFailed? <==> log != [] && !covered && receipt.Refused?)
      && (r.LedgerFailed? ==> r.message == receipt.message)
      && (r == SaveFailed <==> taken && !saves)
      && (r.Anchored? <==> taken && saves)
      && (r.Anchored? ==>
          r.record == AnchorRecord(log[|log| - 1].content.sequence, log[|log| - 1].hash, receipt.anchorRef,
                                   receipt.network, receipt.anchoredAt))
      && t.records == s.records + (if taken && saves then [r.record] else [])
      && t.ledger == s.ledger + if taken then {(log[|log| - 1].hash, receipt.anchorRef)} else {}
  {
  }

  // ---- Runs of the job -----------------------------------------------------

  datatype Job = Job(log: seq<Entry>, receipt: Receipt, saves: bool)

  function RunJobs(s: Anchors, jobs: seq<Job>): Anchors {
    if jobs == [] then s
    else
      var last := jobs[|jobs| - 1];
      Anchor(RunJobs(s, jobs[..|jobs| - 1]), last.log, last.receipt, last.saves).0
  }

  /** What the results of a run say was newly covered, added up. */
  function TotalCovered(s: Anchors, jobs: seq<Job>): int {
    if jobs == [] then 0
    else
      var before, last := jobs[..|jobs| - 1], jobs[|jobs| - 1];
      var outcome := Anchor(RunJobs(s, before), last.log, last.receipt, last.saves).1;
      TotalCovered(s, before) + if outcome.Anchored? then outcome.newlyCovered else 0
  }

  ghost predicate Vouched(s: Anchors) {
    forall i | 0 <= i < |s.records| :: (s.records[i].chainHash, s.records[i].anchorRef) in s.ledger
  }

  ghost predicate NoRepeats(records: seq<AnchorRecord>) {
    forall i, j | 0 <= i && j == i + 1 && j < |records| :: records[i].chainHash != records[j].chainHash
  }

  lemma JobKeeps(s: Anchors, job: Job)
    requires Vouched(s) && NoRepeats(s.records)
    ensures var (t, outcome) := Anchor(s, job.log, job.receipt, job.saves);
      && Vouched(t) && NoRepeats(t.records)
      && Covered(t.records) == Covered(s.records) + if outcome.Anchored? then outcome.newlyCovered else 0
  {
  }

  /**
   Whatever fails along the way, even storing a receipt the ledger has already
   taken, no receipt is saved that the ledger does not hold, no two consecutive
   receipts are for one head, and the newly covered entries add up to what is
   covered.
   */
  lemma {:induction false} RunOfJobs(jobs: seq<Job>)
    ensures var s := RunJobs(Anchors([], {}), jobs);
      && Vouched(s) && NoRepeats(s.records)
      && TotalCovered(Anchors([], {}), jobs) == Covered(s.records)
  {
    hide Anchor, Covered, Vouched, NoRepeats;
    if jobs == [] {
      NothingAnchored();
    } else {
      var n := |jobs| - 1;
      RunOfJobs(jobs[..n]);
      JobKeeps(RunJobs(Anchors([], {}), jobs[..n]), jobs[n]);
    }
  }

  lemma NothingAnchored()
    ensures Vouched(Anchors([], {})) && NoRepeats([]) && Covered([]) == 0
  {
  }

  // ---- Comparing a walk with the receipts ----------------------------------

  datatype LedgerAnswer = Holds(answer: bool) | LookupFailed(message: Text)

  /** The ledger's answer for a hash under a reference. */
  type Verifier = (Text, Text) -> LedgerAnswer

  datatype AnchorCheck = AnchorCheck(
    record: AnchorRecord,
    matchesDatabaseChain: Option<bool>,
    matchesLedger: Option<bool>,
    ledgerError: Option<Text>)

  function CheckAnchor(record: AnchorRecord, hashes: map<int, Text>, verifier: Option<Verifier>): AnchorCheck {
    if record.sequence !in hashes then AnchorCheck(record, None, None, None)
    else
      var matches := Some(hashes[record.sequence] == record.chainHash);
      match verifier
      case None => AnchorCheck(record, matches, None, None)
      case Some(verify) =>
        match verify(record.chainHash, record.anchorRef)
        case Holds(answer) => AnchorCheck(record, matches, Some(answer), None)
        case LookupFailed(message) => AnchorCheck(record, matches, None, Some(message))
  }

  /** The hashes and references the ledger is asked about: those of inspected sequences, in order. */
  function Lookups(records: seq<AnchorRecord>, hashes: map<int, Text>): seq<(Text, Text)> {
    if records == [] then []
    else
      var last := records[|records| - 1];
      Lookups(records[..|records| - 1], hashes) +
      if last.sequence in hashes then [(last.chainHash, last.anchorRef)] else []
  }

  lemma {:induction false} LookupsStep(records: seq<AnchorRecord>, hashes: map<int, Text>, i: nat)
    requires i < |records|
    ensures Lookups(records[..i + 1], hashes) == Lookups(records[..i], hashes) +
      if records[i].sequence in hashes then [(records[i].chainHash, records[i].anchorRef)] else []
  {
    assert records[..i + 1][..i] == records[..i];
  }

  function Inspected(records: seq<AnchorRecord>, hashes: map<int, Text>): set<int> {
    set i | 0 <= i < |records| && records[i].sequence in hashes
  }

  /** The ledger is asked once for each receipt whose sequence was inspected, and about nothing else. */
  lemma {:induction false} LookupsExactly(records: seq<AnchorRecord>, hashes: map<int, Text>, hash: Text, ref: Text)
    ensures |Lookups(records, hashes)| == |Inspected(records, hashes)|
    ensures (hash, ref) in Lookups(records, hashes) <==>
      exists i | i in Inspected(records, hashes) :: records[i].chainHash == hash && records[i].anchorRef == ref
  {
    hide Inspected;
    if records == [] {
      NothingInspected(hashes);
    } else {
      var n := |records| - 1;
      LookupsExactly(records[..n], hashes, hash, ref);
      InspectedStep(records, hashes);
      var before := Inspected(records[..n], hashes);
      assert forall i | i in before :: records[..n][i] == records[i];
    }
  }

  lemma NothingInspected(hashes: map<int, Text>)
    ensures Inspected([], hashes) == {}
  {
  }

  lemma InspectedStep(records: seq<AnchorRecord>, hashes: map<int, Text>)
    requires records != []
    ensures var n := |records| - 1;
      && Inspected(records, hashes) ==
         Inspected(records[..n], hashes) + (if records[n].sequence in hashes then {n} else {})
      && n !in Inspected(records[..n], hashes)
      && forall i | i in Inspected(records[..n], hashes) :: 0 <= i < n
  {
  }

  method CheckAnchors(records: seq<AnchorRecord>, hashes: map<int, Text>, verifier: Option<Verifier>)
    returns (checks: seq<AnchorCheck>, asked: seq<(Text, Text)>)
    ensures |checks| == |records|
    ensures forall i | 0 <= i < |records| :: checks[i] == CheckAnchor(records[i], hashes, verifier)
    ensures asked == if verifier == None then [] else Lookups(records, hashes)
  {
    hide Lookups;
    checks, asked := [], [];
    NoLookups(hashes);
    for i := 0 to |records|
      invariant asked == if verifier == None then [] else Lookups(records[..i], hashes)
      invariant |checks| == i
      invariant forall j | 0 <= j < i :: checks[j] == CheckAnchor(records[j], hashes, verifier)
    {
      var record := records[i];
      LookupsStep(records, hashes, i);
      var matchesDatabaseChain, matchesLedger, ledgerError := None, None, None;
      if record.sequence in hashes {
        matchesDatabaseChain := Some(hashes[record.sequence] == record.chainHash);
        if verifier.Some? {
          var verified := verifier.value(record.chainHash, record.anchorRef);
          asked := asked + [(record.chainHash, record.anchorRef)];
          match verified {
            case Holds(answer) => matchesLedger := Some(answer);
            case LookupFailed(message) => ledgerError := Some(message);
          }
        }
      }
      checks := checks + [AnchorCheck(record, matchesDatabaseChain, matchesLedger, ledgerError)];
    }
    assert records[..|records|] == records;
  }

  lemma {:induction false} NoLookups(hashes: map<int, Text>)
    ensures Lookups([], hashes) == []
  {
  }

  /** What each part of a check says, for whatever the ledger answers. */
  lemma CheckSays(record: AnchorRecord, hashes: map<int, Text>, verifier: Option<Verifier>)
    ensures var check := CheckAnchor(record, hashes, verifier);
      && check.record == record
      && (check.matchesDatabaseChain == None <==> record.sequence !in hashes)
      && (check.matchesDatabaseChain == Some(true) <==>
          record.sequence in hashes && hashes[record.sequence] == record.chainHash)
      && (forall answer :: check.matchesLedger == Some(answer) <==>
            record.sequence in hashes && verifier.Some? &&
            verifier.value(record.chainHash, record.anchorRef) == Holds(answer))
      && (forall message :: check.ledgerError == Some(message) <==>
            record.sequence in hashes && verifier.Some? &&
            verifier.value(record.chainHash, record.anchorRef) == LookupFailed(message))
  {
  }

  /** A ledger that answers for what it has taken. */
  function AnswersFrom(ledger: set<(Text, Text)>): Verifier {
    (hash: Text, ref: Text) => Holds((hash, ref) in ledger)
  }

  /**
   After any run of jobs, each receipt that was saved is confirmed by the ledger it was
   made with, if its sequence was inspected; and no other receipt is.
   */
  lemma {:induction false} LedgerConfirmsExactly(jobs: seq<Job>, record: AnchorRecord, hashes: map<int, Text>)
    ensures var s := RunJobs(Anchors([], {}), jobs);
      var check := CheckAnchor(record, hashes, Some(AnswersFrom(s.ledger)));
      && check.ledgerError == None
      && (check.matchesLedger == Some(true) <==>
          record.sequence in hashes && (record.chainHash, record.anchorRef) in s.ledger)
      && (check.matchesLedger == Some(false) <==>
          record.sequence in hashes && (record.chainHash, record.anchorRef) !in s.ledger)
      && (record in s.records && record.sequence in hashes ==> check.matchesLedger == Some(true))
  {
    hide RunJobs;
    RunOfJobs(jobs);
  }

  // ---- A later walk and a receipt ------------------------------------------

  /** A hash the walk kept is the recomputed hash of an entry it inspected. */
  lemma {:induction false} HashOrigin(p: Platform, entries: seq<Entry>, wanted: set<int>, n: int) returns (i: nat)
    requires n in AddHashes(p, map[], entries, wanted)
    ensures i < |entries| && entries[i].content.sequence == n
    ensures AddHashes(p, map[], entries, wanted)[n] == RecomputedHash(p, entries[i])
    decreases entries
  {
    i := |entries| - 1;
    if entries[i].content.sequence != n || n !in wanted {
      i := HashOrigin(p, entries[..i], wanted, n);
    }
  }

  lemma {:induction false} HashKept(p: Platform, entries: seq<Entry>, wanted: set<int>, i: nat)
    requires Ordered(entries) && i < |entries| && entries[i].content.sequence in wanted
    ensures var n := entries[i].content.sequence; var hashes := AddHashes(p, map[], entries, wanted);
      n in hashes && hashes[n] == RecomputedHash(p, entries[i])
    decreases entries
  {
    if i < |entries| - 1 {
      HashKept(p, entries[..|entries| - 1], wanted, i);
    }
  }

  /** The walk began at 1 and found nothing wrong at or below sequence `n`. */
  ghost predicate CleanUpTo(p: Platform, log: seq<Entry>, q: Query, r: WalkResult, n: int) {
    && Ordered(log) && ValidQuery(q) && q.from == 1 && n in q.wanted && OneShot(p, log, q, r)
    && (r.firstBreak.Some? ==> r.firstBreak.value.sequence > n)
  }

  /** Of what a clean walk inspected, entry `n` stands at position n - 1 or not at all. */
  lemma {:induction false} InspectedAt(p: Platform, log: seq<Entry>, q: Query, r: WalkResult, n: int, i: nat)
    requires CleanUpTo(p, log, q, r, n)
    requires i < r.checkedEntries <= |Range(log, q)| && Range(log, q)[i].content.sequence <= n
    ensures FirstBreak(p, None, Range(log, q)[..i + 1]) == None && Range(log, q)[i].content.sequence == i + 1
  {
    hide FirstBreak, CheckEntry, WrongBecause, HasValidHash, LinksTo, NumberedAfter;
    var range := Range(log, q);
    var intact := if r.firstBreak == None then |range| else r.checkedEntries - 1;
    if r.firstBreak == None {
      assert range[..|range|] == range;
    } else {
      BreakSequence(p, None, range, intact, r.firstBreak.value);
    }
    FirstBreakNone(p, None, range[..intact]);
    assert range[..intact] == range[..i + 1] + range[i + 1..intact];
    FirstBreakOfConcat(p, None, range[..i + 1], range[i + 1..intact]);
    VerifiedIsConsecutive(p, None, range[..i + 1]);
    assert range[..i + 1][i] == range[i];
  }

  lemma RangeOrdered(log: seq<Entry>, q: Query)
    requires Ordered(log)
    ensures Ordered(Range(log, q))
  {
    hide From;
    var j := DropExists(log, q.from);
  }

  lemma {:induction false} KeptHashIsPrefixHash(p: Platform, log: seq<Entry>, q: Query, r: WalkResult, n: int)
    requires CleanUpTo(p, log, q, r, n) && n in r.hashes
    ensures 1 <= n <= |Range(log, q)| && FirstBreak(p, None, Range(log, q)[..n]) == None
    ensures Range(log, q)[n - 1].hash == r.hashes[n]
  {
    hide FirstBreak, Range, CanonicalBytes;
    var range := Range(log, q);
    var i := HashOrigin(p, range[..r.checkedEntries], q.wanted, n);
    InspectedAt(p, log, q, r, n, i);
    FirstBreakNone(p, None, range[..n]);
    assert IntactAt(p, None, range[..n], n - 1);
  }

  /** An intact log reproduces the hash of any entry whose record it holds. */
  lemma SameRecordSameHash(p: Platform, e: Entry, f: Entry)
    requires FaithfulDates(p) && SameRecord(e.content, f.content) && e.hash == RecomputedHash(p, e)
    ensures RecomputedHash(p, f) == e.hash
  {
    CanonicalExact(p, e.content, f.content);
  }

  lemma RecordIsInspected(p: Platform, log: seq<Entry>, q: Query, r: WalkResult, n: nat)
    requires CleanUpTo(p, log, q, r, n) && 1 <= n <= |Range(log, q)| && Range(log, q)[n - 1].content.sequence == n
    ensures n in r.hashes && r.hashes[n] == RecomputedHash(p, Range(log, q)[n - 1])
  {
    hide FirstBreak, Range, RecomputedHash, WrongBecause, IntactAt;
    var range, c := Range(log, q), r.checkedEntries;
    RangeOrdered(log, q);
    if r.firstBreak.Some? {
      BreakSequence(p, None, range, c - 1, r.firstBreak.value);
    }
    assert n <= c;
    HashKept(p, range[..c], q.wanted, n - 1);
  }

  /**
   Anchoring catches a full re-hash. A receipt was made from a valid log, and a
   later walk from sequence 1 over whatever the store then holds finds no break
   at or below it. Up to a digest collision between the two logs, the receipt
   matches the database exactly when the store still holds, record for record,
   the log that was anchored.
   */
  lemma {:induction false} AnchoringCatchesRehash(p: Platform, s: Anchors, log: seq<Entry>, receipt: Receipt,
          later: seq<Entry>, q: Query, r: WalkResult, verifier: Option<Verifier>)
    requires FaithfulDates(p) && TextualDigest(p)
    requires FirstBreak(p, None, log) == None && Anchor(s, log, receipt, true).1.Anchored?
    requires CleanUpTo(p, later, q, r, Anchor(s, log, receipt, true).1.record.sequence)
    ensures var record, n := Anchor(s, log, receipt, true).1.record, |log|;
      var range := Range(later, q);
      var matches := CheckAnchor(record, r.hashes, verifier).matchesDatabaseChain == Some(true);
      && (matches ==> n <= |range| && (SameLog(log, range[..n]) || CollisionBetween(p, log, range[..n])))
      && (n <= |range| && SameLog(log, range[..n]) ==> matches)
  {
    hide FirstBreak, Range, CheckEntry, RecomputedHash, AddHashes, OneShot, SameRecord, Ordered;
    var n, range := |log|, Range(later, q);
    var record := Anchor(s, log, receipt, true).1.record;
    FirstBreakNone(p, None, log);
    IntactIsNumbered(p, log, n - 1);
    if CheckAnchor(record, r.hashes, verifier).matchesDatabaseChain == Some(true) {
      KeptHashIsPrefixHash(p, later, q, r, n);
      HeadCommits(p, log, range[..n]);
    }
    if n <= |range| && SameLog(log, range[..n]) {
      LastRecordKept(p, log, range, later, q, r);
    }
  }

  lemma LastRecordKept(p: Platform, log: seq<Entry>, range: seq<Entry>, later: seq<Entry>, q: Query, r: WalkResult)
    requires FaithfulDates(p) && log != [] && Intact(p, None, log) && log[|log| - 1].content.sequence == |log|
    requires range == Range(later, q) && |log| <= |range| && SameLog(log, range[..|log|])
    requires CleanUpTo(p, later, q, r, |log|)
    ensures |log| in r.hashes && r.hashes[|log|] == log[|log| - 1].hash
  {
    hide FirstBreak, Range, CanonicalBytes, AddHashes, OneShot, Ordered;
    var n := |log|;
    assert range[..n][n - 1] == range[n - 1];
    assert IntactAt(p, None, log, n - 1);
    SameRecordSameHash(p, log[n - 1], range[n - 1]);
    RecordIsInspected(p, later, q, r, n);
  }
}
