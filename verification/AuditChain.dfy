/**
 The hash-chained audit log: building entries, verifying a run of them, and
 what the head hash of a log commits to.
 */
module AuditChain {
  import opened JsText
  import opened Options
  import opened CanonicalForm

  datatype Entry = Entry(id: Text, content: Content, hash: Text)

  /** What a caller supplies of an entry, once `occurredAt` has been settled. */
  datatype Draft = Draft(
    action: Text,
    actorId: Option<Text>,
    subjectId: Option<Text>,
    metadata: Metadata,
    occurredAt: int)

  /** Sixty-four zeroes, in the place of the first entry's predecessor. */
  const EIGHT_ZEROES: Text := [48, 48, 48, 48, 48, 48, 48, 48]
  const GENESIS_HASH: Text :=
    EIGHT_ZEROES + EIGHT_ZEROES + EIGHT_ZEROES + EIGHT_ZEROES +
    EIGHT_ZEROES + EIGHT_ZEROES + EIGHT_ZEROES + EIGHT_ZEROES

  lemma GenesisIsZeroes()
    ensures |GENESIS_HASH| == 64 && forall i | 0 <= i < 64 :: GENESIS_HASH[i] == '0' as int
  {
  }

  function HashOf(previous: Option<Entry>): Text {
    match previous
    case None => GENESIS_HASH
    case Some(e) => e.hash
  }

  function NextSequence(previous: Option<Entry>): int {
    match previous
    case None => 1
    case Some(e) => e.content.sequence + 1
  }

  function RecomputedHash(p: Platform, e: Entry): Text { p.digest(CanonicalBytes(p, e.content)) }

  function Append(p: Platform, id: Text, draft: Draft, previous: Option<Entry>): Entry {
    var body := Content(NextSequence(previous), draft.action, draft.actorId, draft.subjectId,
                        draft.metadata, draft.occurredAt, HashOf(previous));
    Entry(id, body, p.digest(CanonicalBytes(p, body)))
  }

  // ---- Verification --------------------------------------------------------

  datatype BreakReason = ContentAltered | LinkBroken | SequenceGap

  datatype ChainBreak = ChainBreak(sequence: int, reason: BreakReason)

  function CheckEntry(p: Platform, previous: Option<Entry>, e: Entry): Option<ChainBreak> {
    if e.hash != RecomputedHash(p, e) then Some(ChainBreak(e.content.sequence, ContentAltered))
    else if e.content.previousHash != HashOf(previous) then Some(ChainBreak(e.content.sequence, LinkBroken))
    else if e.content.sequence != NextSequence(previous) then Some(ChainBreak(e.content.sequence, SequenceGap))
    else None
  }

  /** The break `verifyChainFrom` reports. */
  function FirstBreak(p: Platform, previous: Option<Entry>, entries: seq<Entry>): Option<ChainBreak>
    decreases entries
  {
    if entries == [] then None
    else
      match CheckEntry(p, previous, entries[0])
      case Some(b) => Some(b)
      case None => FirstBreak(p, Some(entries[0]), entries[1..])
  }

  method VerifyChainFrom(p: Platform, previous: Option<Entry>, entries: seq<Entry>)
    returns (r: Option<ChainBreak>)
    ensures r == FirstBreak(p, previous, entries)
  {
    var predecessor := previous;
    for i := 0 to |entries|
      invariant FirstBreak(p, previous, entries) == FirstBreak(p, predecessor, entries[i..])
    {
      var entry := entries[i];
      if entry.hash != RecomputedHash(p, entry) {
        return Some(ChainBreak(entry.content.sequence, ContentAltered));
      }
      if entry.content.previousHash != HashOf(predecessor) {
        return Some(ChainBreak(entry.content.sequence, LinkBroken));
      }
      if entry.content.sequence != NextSequence(predecessor) {
        return Some(ChainBreak(entry.content.sequence, SequenceGap));
      }
      predecessor := Some(entry);
      assert entries[i..][1..] == entries[i + 1..];
    }
    r := None;
  }

  /** The entry that `entries[i]` has to follow. */
  function Predecessor(previous: Option<Entry>, entries: seq<Entry>, i: nat): Option<Entry>
    requires i <= |entries|
  {
    if i == 0 then previous else Some(entries[i - 1])
  }

  /** The stored hash is the digest of what the entry now says. */
  ghost predicate HasValidHash(p: Platform, e: Entry) { e.hash == p.digest(CanonicalBytes(p, e.content)) }

  ghost predicate LinksTo(previous: Option<Entry>, e: Entry) {
    e.content.previousHash == if previous.None? then GENESIS_HASH else previous.value.hash
  }

  ghost predicate NumberedAfter(previous: Option<Entry>, e: Entry) {
    e.content.sequence == 1 + if previous.None? then 0 else previous.value.content.sequence
  }

  ghost predicate IntactAt(p: Platform, previous: Option<Entry>, entries: seq<Entry>, i: nat)
    requires i < |entries|
  {
    var predecessor := Predecessor(previous, entries, i);
    HasValidHash(p, entries[i]) && LinksTo(predecessor, entries[i]) && NumberedAfter(predecessor, entries[i])
  }

  /** What is wrong with an entry, where the hash matters before the link, and the link before the number. */
  ghost predicate WrongBecause(p: Platform, previous: Option<Entry>, e: Entry, reason: BreakReason) {
    match reason
    case ContentAltered => !HasValidHash(p, e)
    case LinkBroken => HasValidHash(p, e) && !LinksTo(previous, e)
    case SequenceGap => HasValidHash(p, e) && LinksTo(previous, e) && !NumberedAfter(previous, e)
  }

  lemma CheckEntryExactly(p: Platform, previous: Option<Entry>, e: Entry)
    ensures CheckEntry(p, previous, e) == None <==>
      HasValidHash(p, e) && LinksTo(previous, e) && NumberedAfter(previous, e)
    ensures CheckEntry(p, previous, e).Some? ==>
      CheckEntry(p, previous, e).value.sequence == e.content.sequence &&
      WrongBecause(p, previous, e, CheckEntry(p, previous, e).value.reason)
  {
  }

  /** Every entry has the hash of its content, links to its predecessor and is numbered after it. */
  ghost predicate Intact(p: Platform, previous: Option<Entry>, entries: seq<Entry>) {
    forall i: nat | i < |entries| :: IntactAt(p, previous, entries, i)
  }

  /** `b` says what goes wrong at position `k`, and nothing goes wrong before it. */
  ghost predicate BreaksAt(p: Platform, previous: Option<Entry>, entries: seq<Entry>, k: nat, b: ChainBreak) {
    && k < |entries|
    && Intact(p, previous, entries[..k])
    && b.sequence == entries[k].content.sequence
    && WrongBecause(p, Predecessor(previous, entries, k), entries[k], b.reason)
  }

  lemma IntactStep(p: Platform, previous: Option<Entry>, entries: seq<Entry>)
    requires entries != []
    ensures Intact(p, previous, entries) <==>
      CheckEntry(p, previous, entries[0]) == None && Intact(p, Some(entries[0]), entries[1..])
  {
    var rest, next := entries[1..], Some(entries[0]);
    assert forall i: nat | i < |rest| :: IntactAt(p, next, rest, i) <==> IntactAt(p, previous, entries, i + 1);
    assert IntactAt(p, previous, entries, 0) <==> CheckEntry(p, previous, entries[0]) == None;
    if CheckEntry(p, previous, entries[0]) == None && Intact(p, next, rest) {
      forall i: nat | i < |entries| ensures IntactAt(p, previous, entries, i) {
        assert i > 0 ==> IntactAt(p, next, rest, i - 1);
      }
    }
  }

  /** Verification passes exactly the intact runs ... */
  lemma {:induction false} FirstBreakNone(p: Platform, previous: Option<Entry>, entries: seq<Entry>)
    ensures FirstBreak(p, previous, entries) == None <==> Intact(p, previous, entries)
    decreases entries
  {
    if entries != [] {
      FirstBreakNone(p, Some(entries[0]), entries[1..]);
      IntactStep(p, previous, entries);
    }
  }

  /** ... and in any other it reports the first thing that goes wrong. */
  lemma {:induction false} FirstBreakSome(p: Platform, previous: Option<Entry>, entries: seq<Entry>) returns (k: nat)
    requires FirstBreak(p, previous, entries) != None
    ensures BreaksAt(p, previous, entries, k, FirstBreak(p, previous, entries).value)
    decreases entries
  {
    hide CanonicalBytes;
    if CheckEntry(p, previous, entries[0]) != None {
      k := 0;
    } else {
      k := FirstBreakSome(p, Some(entries[0]), entries[1..]);
      k := k + 1;
      assert entries[..k][1..] == entries[1..][..k - 1];
      IntactStep(p, previous, entries[..k]);
    }
  }

  lemma {:induction false} BreaksAtIsFirst(p: Platform, previous: Option<Entry>, entries: seq<Entry>, k: nat,
          b: ChainBreak)
    requires BreaksAt(p, previous, entries, k, b)
    ensures FirstBreak(p, previous, entries) == Some(b)
  {
    hide HasValidHash, LinksTo, NumberedAfter, CheckEntry, Intact;
    assert entries == entries[..k] + entries[k..];
    FirstBreakOfConcat(p, previous, entries[..k], entries[k..]);
    FirstBreakNone(p, previous, entries[..k]);
    CheckEntryExactly(p, Predecessor(previous, entries, k), entries[k]);
  }

  /** What is reported, exactly: `b`, if and only if it says what goes wrong where the first thing does. */
  lemma {:induction false} FirstBreakExactly(p: Platform, previous: Option<Entry>, entries: seq<Entry>, b: ChainBreak)
    ensures FirstBreak(p, previous, entries) == Some(b) <==>
      exists k: nat :: BreaksAt(p, previous, entries, k, b)
  {
    hide BreaksAt, FirstBreak;
    if FirstBreak(p, previous, entries) == Some(b) {
      var k := FirstBreakSome(p, previous, entries);
    }
    if k: nat :| BreaksAt(p, previous, entries, k, b) {
      BreaksAtIsFirst(p, previous, entries, k, b);
    }
  }

  /** A run can be verified in two parts, seeding the second with the last entry of the first. */
  lemma {:induction false} FirstBreakOfConcat(p: Platform, previous: Option<Entry>, a: seq<Entry>, b: seq<Entry>)
    ensures FirstBreak(p, previous, a + b) ==
      (if FirstBreak(p, previous, a) != None then FirstBreak(p, previous, a)
       else FirstBreak(p, Predecessor(previous, a, |a|), b))
    decreases a
  {
    if a == [] {
      assert a + b == b;
    } else {
      assert (a + b)[1..] == a[1..] + b;
      FirstBreakOfConcat(p, Some(a[0]), a[1..], b);
    }
  }

  /** Entry `i` is numbered `base + 1 + i`. */
  ghost predicate Consecutive(base: int, entries: seq<Entry>) {
    forall i | 0 <= i < |entries| :: entries[i].content.sequence == base + 1 + i
  }

  lemma {:induction false} VerifiedIsConsecutive(p: Platform, previous: Option<Entry>, entries: seq<Entry>)
    requires FirstBreak(p, previous, entries) == None
    ensures Consecutive(NextSequence(previous) - 1, entries)
    decreases entries
  {
    hide RecomputedHash;
    if entries != [] {
      VerifiedIsConsecutive(p, Some(entries[0]), entries[1..]);
      assert forall i | 0 < i < |entries| :: entries[i] == entries[1..][i - 1];
    }
  }

  lemma {:induction false} IntactIsNumbered(p: Platform, log: seq<Entry>, i: nat)
    requires Intact(p, None, log) && i < |log|
    ensures log[i].content.sequence == i + 1
  {
    assert IntactAt(p, None, log, i);
    if i > 0 {
      IntactIsNumbered(p, log, i - 1);
    }
  }

  // ---- What tampering is reported as ---------------------------------------

  /** Two different canonical forms with one digest. */
  ghost predicate Collide(p: Platform, c: Content, d: Content) {
    CanonicalBytes(p, c) != CanonicalBytes(p, d) &&
    p.digest(CanonicalBytes(p, c)) == p.digest(CanonicalBytes(p, d))
  }

  lemma IntactPrefix(p: Platform, previous: Option<Entry>, log: seq<Entry>, n: nat)
    requires Intact(p, previous, log) && n <= |log|
    ensures Intact(p, previous, log[..n])
  {
    assert forall i: nat | i < n :: IntactAt(p, previous, log[..n], i) <==> IntactAt(p, previous, log, i);
  }

  /** A verified log continued by something else is reported at the seam, for what is wrong there. */
  lemma {:induction false} SeamIsReported(p: Platform, previous: Option<Entry>, log: seq<Entry>, k: nat,
          tail: seq<Entry>, reason: BreakReason)
    requires FirstBreak(p, previous, log) == None && k <= |log|
    requires tail != [] && WrongBecause(p, Predecessor(previous, log, k), tail[0], reason)
    ensures FirstBreak(p, previous, log[..k] + tail) == Some(ChainBreak(tail[0].content.sequence, reason))
  {
    hide FirstBreak, WrongBecause, HasValidHash, LinksTo, NumberedAfter;
    FirstBreakNone(p, previous, log);
    IntactPrefix(p, previous, log, k);
    var all := log[..k] + tail;
    assert all[..k] == log[..k] && all[k] == tail[0];
    assert Predecessor(previous, all, k) == Predecessor(previous, log, k);
    BreaksAtIsFirst(p, previous, all, k, ChainBreak(tail[0].content.sequence, reason));
  }

  /** An entry whose content becomes a different record under its old hash is altered, or the two records collide. */
  lemma {:induction false} AlteredIsReported(p: Platform, previous: Option<Entry>, log: seq<Entry>, k: nat, c: Content)
    requires FaithfulDates(p) && FirstBreak(p, previous, log) == None
    requires k < |log| && !SameRecord(c, log[k].content)
    ensures Collide(p, c, log[k].content) ||
      FirstBreak(p, previous, log[k := log[k].(content := c)]) == Some(ChainBreak(c.sequence, ContentAltered))
  {
    hide FirstBreak, CanonicalBytes, SameRecord;
    FirstBreakNone(p, previous, log);
    assert IntactAt(p, previous, log, k);
    CanonicalExact(p, c, log[k].content);
    var tail := [log[k].(content := c)] + log[k + 1..];
    assert log[k := log[k].(content := c)] == log[..k] + tail;
    if !Collide(p, c, log[k].content) {
      SeamIsReported(p, previous, log, k, tail, ContentAltered);
    }
  }

  /**
   Cutting entries `i` to `j` out of a verified log. A cut that reaches the end is
   not seen. Any other breaks the link of the entry behind it, unless two entries have
   one hash; then the gap in the numbers is seen.
   */
  lemma {:induction false} CutIsReported(p: Platform, previous: Option<Entry>, log: seq<Entry>, i: nat, j: nat)
    requires FirstBreak(p, previous, log) == None && i < j <= |log|
    ensures FirstBreak(p, previous, log[..i] + log[j..]) ==
      if j == |log| then None
      else
        var before := if i > 0 then log[i - 1].hash else if previous.None? then GENESIS_HASH else previous.value.hash;
        Some(ChainBreak(log[j].content.sequence, if log[j - 1].hash == before then SequenceGap else LinkBroken))
  {
    hide FirstBreak, CanonicalBytes;
    FirstBreakNone(p, previous, log);
    if j == |log| {
      IntactPrefix(p, previous, log, i);
      FirstBreakNone(p, previous, log[..i]);
      assert log[..i] + log[j..] == log[..i];
    } else {
      var predecessor := Predecessor(previous, log, i);
      assert IntactAt(p, previous, log, j);
      VerifiedIsConsecutive(p, previous, log);
      SeamIsReported(p, previous, log, i, log[j..], if LinksTo(predecessor, log[j]) then SequenceGap else LinkBroken);
    }
  }

  /** An entry with a fresh hash and the right link, but not the next number, is a gap. */
  lemma {:induction false} RenumberedIsReported(p: Platform, previous: Option<Entry>, log: seq<Entry>, k: nat,
          id: Text, c: Content, rest: seq<Entry>)
    requires FirstBreak(p, previous, log) == None && k < |log|
    requires c.previousHash == log[k].content.previousHash && c.sequence != log[k].content.sequence
    ensures FirstBreak(p, previous, log[..k] + [Entry(id, c, p.digest(CanonicalBytes(p, c)))] + rest) ==
      Some(ChainBreak(c.sequence, SequenceGap))
  {
    hide FirstBreak, CanonicalBytes;
    FirstBreakNone(p, previous, log);
    assert IntactAt(p, previous, log, k);
    var e := Entry(id, c, p.digest(CanonicalBytes(p, c)));
    assert log[..k] + [e] + rest == log[..k] + ([e] + rest);
    SeamIsReported(p, previous, log, k, [e] + rest, SequenceGap);
  }

  // ---- What a head hash commits to -----------------------------------------

  /** Some entry of one log collides with some entry of the other. */
  ghost predicate CollisionBetween(p: Platform, a: seq<Entry>, b: seq<Entry>) {
    exists i, j | 0 <= i < |a| && 0 <= j < |b| :: Collide(p, a[i].content, b[j].content)
  }

  ghost predicate SameLog(a: seq<Entry>, b: seq<Entry>) {
    |a| == |b| && forall i | 0 <= i < |a| :: SameRecord(a[i].content, b[i].content)
  }

  /** Digests are written in hexadecimal, so they hold no stray surrogates. */
  ghost predicate TextualDigest(p: Platform) { forall b: Bytes :: WellFormed(p.digest(b)) }

  /** Entries with one hash hold one record and name one predecessor, or they collide. */
  lemma SameHashStep(p: Platform, previous: Option<Entry>, e: Entry, previous': Option<Entry>, f: Entry)
    requires FaithfulDates(p) && TextualDigest(p)
    requires CheckEntry(p, previous, e) == None && CheckEntry(p, previous', f) == None
    requires previous.Some? ==> previous.value.hash == RecomputedHash(p, previous.value)
    requires previous'.Some? ==> previous'.value.hash == RecomputedHash(p, previous'.value)
    requires e.hash == f.hash && !Collide(p, e.content, f.content)
    ensures SameRecord(e.content, f.content)
    ensures previous.Some? && previous'.Some? ==> previous.value.hash == previous'.value.hash
  {
    CanonicalExact(p, e.content, f.content);
    Utf8Exact(e.content.previousHash, f.content.previousHash);
  }

  lemma CollisionBetweenPrefixes(p: Platform, a: seq<Entry>, b: seq<Entry>, n: nat)
    requires n <= |a| && n <= |b| && CollisionBetween(p, a[..n], b[..n])
    ensures CollisionBetween(p, a, b)
  {
    var i, j :| 0 <= i < n && 0 <= j < n && Collide(p, a[..n][i].content, b[..n][j].content);
    assert Collide(p, a[i].content, b[j].content);
  }

  lemma LastStep(p: Platform, a: seq<Entry>, b: seq<Entry>, m: nat, n: nat)
    requires FaithfulDates(p) && TextualDigest(p)
    requires m < |a| && n < |b| && Intact(p, None, a) && Intact(p, None, b)
    requires a[m].hash == b[n].hash && !CollisionBetween(p, a, b)
    ensures SameRecord(a[m].content, b[n].content)
    ensures m > 0 && n > 0 ==> a[m - 1].hash == b[n - 1].hash
  {
    assert !Collide(p, a[m].content, b[n].content);
    assert IntactAt(p, None, a, m) && IntactAt(p, None, b, n);
    assert m > 0 ==> IntactAt(p, None, a, m - 1);
    assert n > 0 ==> IntactAt(p, None, b, n - 1);
    SameHashStep(p, Predecessor(None, a, m), a[m], Predecessor(None, b, n), b[n]);
  }

  lemma SameLogExtends(a: seq<Entry>, b: seq<Entry>, n: nat)
    requires |a| == |b| == n + 1 && SameLog(a[..n], b[..n]) && SameRecord(a[n].content, b[n].content)
    ensures SameLog(a, b)
  {
    assert forall i | 0 <= i < n :: a[i] == a[..n][i] && b[i] == b[..n][i];
  }

  lemma {:induction false} HeadsAgree(p: Platform, a: seq<Entry>, b: seq<Entry>)
    requires FaithfulDates(p) && TextualDigest(p)
    requires |a| == |b| && Intact(p, None, a) && Intact(p, None, b)
    requires a != [] ==> a[|a| - 1].hash == b[|b| - 1].hash
    requires !CollisionBetween(p, a, b)
    ensures SameLog(a, b)
  {
    hide CanonicalBytes;
    if a != [] {
      var n := |a| - 1;
      LastStep(p, a, b, n, n);
      IntactPrefix(p, None, a, n);
      IntactPrefix(p, None, b, n);
      if CollisionBetween(p, a[..n], b[..n]) {
        CollisionBetweenPrefixes(p, a, b, n);
      }
      HeadsAgree(p, a[..n], b[..n]);
      SameLogExtends(a, b, n);
    }
  }

  lemma SameLength(p: Platform, a: seq<Entry>, b: seq<Entry>)
    requires FaithfulDates(p) && TextualDigest(p)
    requires Intact(p, None, a) && Intact(p, None, b) && !CollisionBetween(p, a, b)
    requires a != [] && b != [] && a[|a| - 1].hash == b[|b| - 1].hash
    ensures |a| == |b|
  {
    hide CanonicalBytes;
    LastStep(p, a, b, |a| - 1, |b| - 1);
    IntactIsNumbered(p, a, |a| - 1);
    IntactIsNumbered(p, b, |b| - 1);
  }

  /**
   The head hash commits to the whole log. Two non-empty logs that both verify
   and end in the same hash have the same length and the same record at every
   position, or they contain two different canonical forms with one digest.
   */
  lemma {:induction false} HeadCommits(p: Platform, a: seq<Entry>, b: seq<Entry>)
    requires FaithfulDates(p) && TextualDigest(p)
    requires FirstBreak(p, None, a) == None && FirstBreak(p, None, b) == None
    requires a != [] && b != [] && a[|a| - 1].hash == b[|b| - 1].hash
    ensures SameLog(a, b) || CollisionBetween(p, a, b)
  {
    FirstBreakNone(p, None, a);
    FirstBreakNone(p, None, b);
    if !CollisionBetween(p, a, b) {
      SameLength(p, a, b);
      HeadsAgree(p, a, b);
    }
  }

  // ---- Batches -------------------------------------------------------------

  /** The entries a writer builds for its drafts, each linked to the one before it. */
  function LinkAll(p: Platform, previous: Option<Entry>, ids: seq<Text>, drafts: seq<Draft>): (r: seq<Entry>)
    requires |ids| == |drafts|
    ensures |r| == |drafts|
    decreases drafts
  {
    if drafts == [] then []
    else
      var entry := Append(p, ids[0], drafts[0], previous);
      [entry] + LinkAll(p, Some(entry), ids[1..], drafts[1..])
  }

  /** The loop both batch writers run: append to the tail, then make that the tail. */
  method LinkBatch(p: Platform, previous: Option<Entry>, ids: seq<Text>, drafts: seq<Draft>)
    returns (entries: seq<Entry>)
    requires |ids| == |drafts|
    ensures entries == LinkAll(p, previous, ids, drafts)
  {
    entries := [];
    var tail := previous;
    for i := 0 to |drafts|
      invariant LinkAll(p, previous, ids, drafts) == entries + LinkAll(p, tail, ids[i..], drafts[i..])
    {
      var entry := Append(p, ids[i], drafts[i], tail);
      assert ids[i..][1..] == ids[i + 1..] && drafts[i..][1..] == drafts[i + 1..];
      entries := entries + [entry];
      tail := Some(entry);
    }
  }

  /** Whatever the drafts, a linked batch verifies after the entry it was linked to. */
  lemma {:induction false} LinkAllVerifies(p: Platform, previous: Option<Entry>, ids: seq<Text>, drafts: seq<Draft>)
    requires |ids| == |drafts|
    ensures FirstBreak(p, previous, LinkAll(p, previous, ids, drafts)) == None
    decreases drafts
  {
    if drafts != [] {
      var entry := Append(p, ids[0], drafts[0], previous);
      LinkAllVerifies(p, Some(entry), ids[1..], drafts[1..]);
      assert LinkAll(p, previous, ids, drafts)[1..] == LinkAll(p, Some(entry), ids[1..], drafts[1..]);
    }
  }

  /** The entry has the id it was given and the content of its draft. */
  ghost predicate BuiltFrom(e: Entry, id: Text, draft: Draft) {
    && e.id == id && e.content.action == draft.action
    && e.content.actorId == draft.actorId && e.content.subjectId == draft.subjectId
    && e.content.metadata == draft.metadata && e.content.occurredAt == draft.occurredAt
  }

  /** A linked batch holds its drafts, one each and in the order given. */
  lemma {:induction false} LinkAllBuilds(p: Platform, previous: Option<Entry>, ids: seq<Text>,
          drafts: seq<Draft>, i: nat)
    requires |ids| == |drafts| && i < |drafts|
    ensures BuiltFrom(LinkAll(p, previous, ids, drafts)[i], ids[i], drafts[i])
    decreases drafts
  {
    if i > 0 {
      LinkAllBuilds(p, Some(Append(p, ids[0], drafts[0], previous)), ids[1..], drafts[1..], i - 1);
    }
  }
}
