/**
 Verifying the stored log page by page, and comparing it with anchored hashes.

 The walk reads the store once per page, and the log may grow between two
 reads. A walk sees a sequence of snapshots, the last of them for good; a store
 nobody writes to is one snapshot.
 */
module ChainWalk {
  import opened JsText
  import opened Options
  import opened CanonicalForm
  import opened AuditChain

  ghost predicate Ordered(log: seq<Entry>) {
    forall i, j | 0 <= i < j < |log| :: log[i].content.sequence < log[j].content.sequence
  }

  /** The stored entries numbered `from` or more. */
  function From(log: seq<Entry>, from: int): seq<Entry> {
    if log == [] then []
    else (if log[0].content.sequence >= from then [log[0]] else []) + From(log[1..], from)
  }

  function Take(s: seq<Entry>, n: int): seq<Entry> {
    if n < 0 then [] else if n < |s| then s[..n] else s
  }

  function FindFrom(log: seq<Entry>, from: int, limit: nat): seq<Entry> { Take(From(log, from), limit) }

  /** What to verify: a range, the page size, an organization to count, and the anchored sequences. */
  datatype Query = Query(from: int, to: Option<int>, batchSize: nat, organizationId: Option<Text>, wanted: set<int>)

  const MAX_VERIFY_BATCH_SIZE := 5000

  /** What `validateCommand` lets through. */
  predicate ValidQuery(q: Query) {
    && q.from >= 1
    && (q.to.Some? ==> q.to.value >= q.from)
    && 1 <= q.batchSize <= MAX_VERIFY_BATCH_SIZE
  }

  datatype WalkResult = WalkResult(
    firstBreak: Option<ChainBreak>,
    checkedEntries: nat,
    organizationEntries: nat,
    hashes: map<int, Text>)

  // ---- The simple verification a walk has to agree with --------------------

  function Seed(log: seq<Entry>, from: int): Option<Entry> {
    var before := FindFrom(log, from - 1, 1);
    if from > 1 && before != [] then Some(before[0]) else None
  }

  function Range(log: seq<Entry>, q: Query): seq<Entry> {
    match q.to
    case None => From(log, q.from)
    case Some(to) => Take(From(log, q.from), to - q.from + 1)
  }

  predicate BelongsTo(e: Entry, organizationId: Option<Text>) {
    var key := ORGANIZATION_ID;
    organizationId.Some? && key in e.content.metadata.values &&
    e.content.metadata.values[key] == organizationId.value
  }

  const ORGANIZATION_ID: Text := // "organizationId"
    [111, 114, 103, 97, 110, 105, 122, 97, 116, 105, 111, 110, 73, 100]

  function CountOf(entries: seq<Entry>, organizationId: Option<Text>): nat {
    if entries == [] then 0
    else CountOf(entries[..|entries| - 1], organizationId) +
         if BelongsTo(entries[|entries| - 1], organizationId) then 1 else 0
  }

  /** `hashes` with the recomputed hash of every entry at a wanted sequence. */
  function AddHashes(p: Platform, hashes: map<int, Text>, entries: seq<Entry>, wanted: set<int>): map<int, Text> {
    if entries == [] then hashes
    else
      var last := entries[|entries| - 1];
      var added := AddHashes(p, hashes, entries[..|entries| - 1], wanted);
      if last.content.sequence in wanted then added[last.content.sequence := RecomputedHash(p, last)] else added
  }

  const NOTHING := WalkResult(None, 0, 0, map[])

  function Inspect(p: Platform, q: Query, r: WalkResult, entries: seq<Entry>): WalkResult {
    r.(checkedEntries := r.checkedEntries + |entries|,
       organizationEntries := r.organizationEntries + CountOf(entries, q.organizationId),
       hashes := AddHashes(p, r.hashes, entries, q.wanted))
  }

  /** `r` is what verifying `range` after `seed` at once finds, inspecting it up to its first break. */
  ghost predicate Agrees(p: Platform, q: Query, seed: Option<Entry>, range: seq<Entry>, r: WalkResult) {
    && r.checkedEntries <= |range|
    && r.firstBreak == FirstBreak(p, seed, range)
    && (r.firstBreak.None? ==> r.checkedEntries == |range|)
    && (r.firstBreak.Some? ==>
        r.checkedEntries >= 1 && BreaksAt(p, seed, range, r.checkedEntries - 1, r.firstBreak.value))
    && r == Inspect(p, q, NOTHING, range[..r.checkedEntries]).(firstBreak := r.firstBreak)
  }

  ghost predicate OneShot(p: Platform, log: seq<Entry>, q: Query, r: WalkResult) {
    Agrees(p, q, Seed(log, q.from), Range(log, q), r)
  }

  // ---- Pages of the store --------------------------------------------------

  /** In an ordered log, the entries from a sequence on are those after position `j`. */
  lemma {:induction false} FromIsDrop(log: seq<Entry>, from: int, j: nat)
    requires Ordered(log) && j <= |log|
    requires forall i | 0 <= i < j :: log[i].content.sequence < from
    requires j < |log| ==> log[j].content.sequence >= from
    ensures From(log, from) == log[j..]
    decreases log
  {
    if log != [] {
      var rest := log[1..];
      assert forall i | 0 <= i < |rest| :: rest[i] == log[i + 1];
      FromIsDrop(rest, from, if j == 0 then 0 else j - 1);
      assert j == 0 ==> log[0..] == [log[0]] + rest;
      assert j > 0 ==> log[j..] == rest[j - 1..];
    }
  }

  lemma {:induction false} DropExists(log: seq<Entry>, from: int) returns (j: nat)
    requires Ordered(log)
    ensures j <= |log| && From(log, from) == log[j..]
    ensures forall i | 0 <= i < |log| :: log[i].content.sequence < from <==> i < j
  {
    j := 0;
    while j < |log| && log[j].content.sequence < from
      invariant j <= |log| && forall i | 0 <= i < j :: log[i].content.sequence < from
    {
      j := j + 1;
    }
    FromIsDrop(log, from, j);
  }

  lemma PageIsSlice(log: seq<Entry>, cursor: int, limit: nat) returns (j: nat)
    requires Ordered(log)
    ensures var page := FindFrom(log, cursor, limit);
      j + |page| <= |log| && page == log[j..j + |page|] && From(log, cursor) == log[j..]
    ensures forall i | 0 <= i < |log| :: log[i].content.sequence < cursor <==> i < j
  {
    hide From;
    j := DropExists(log, cursor);
  }

  /** After a page, the next one starts right behind its last entry. */
  lemma PageStep(log: seq<Entry>, cursor: int, limit: nat)
    requires Ordered(log) && FindFrom(log, cursor, limit) != []
    ensures var page := FindFrom(log, cursor, limit);
      && page == From(log, cursor)[..|page|]
      && Ordered(page) && page[0].content.sequence >= cursor
      && From(log, page[|page| - 1].content.sequence + 1) == From(log, cursor)[|page|..]
  {
    hide From, FindFrom;
    var page := FindFrom(log, cursor, limit);
    var j := PageIsSlice(log, cursor, limit);
    var end := j + |page|;
    assert page[|page| - 1] == log[end - 1];
    FromIsDrop(log, log[end - 1].content.sequence + 1, end);
    assert log[j..][|page|..] == log[end..];
    assert log[j..][..|page|] == page;
  }

  // ---- Inspecting a page ---------------------------------------------------

  /** The entries of a page up to a sequence. */
  function UpTo(page: seq<Entry>, last: int): seq<Entry> {
    if page == [] then []
    else UpTo(page[..|page| - 1], last) +
         if page[|page| - 1].content.sequence <= last then [page[|page| - 1]] else []
  }

  lemma {:induction false} UpToIsPrefix(page: seq<Entry>, j: nat)
    requires Ordered(page) && j < |page|
    ensures UpTo(page, page[j].content.sequence) == page[..j + 1]
    decreases |page|
  {
    var n := |page| - 1;
    if j < n {
      UpToIsPrefix(page[..n], j);
      assert page[..n][..j + 1] == page[..j + 1];
    } else {
      UpToIsAll(page[..n], page[j].content.sequence);
      assert page[..n] + [page[n]] == page;
    }
  }

  lemma {:induction false} UpToIsAll(page: seq<Entry>, last: int)
    requires forall i | 0 <= i < |page| :: page[i].content.sequence <= last
    ensures UpTo(page, last) == page
  {
    if page != [] {
      UpToIsAll(page[..|page| - 1], last);
      assert page[..|page| - 1] + [page[|page| - 1]] == page;
    }
  }

  /** The inner loop: count each inspected entry and keep the hashes that are wanted. */
  method InspectPage(p: Platform, q: Query, r: WalkResult, entries: seq<Entry>) returns (s: WalkResult)
    ensures s == Inspect(p, q, r, entries)
  {
    s := r;
    for i := 0 to |entries|
      invariant s == Inspect(p, q, r, entries[..i])
    {
      assert entries[..i + 1][..i] == entries[..i];
      s := s.(checkedEntries := s.checkedEntries + 1);
      if BelongsTo(entries[i], q.organizationId) {
        s := s.(organizationEntries := s.organizationEntries + 1);
      }
      if entries[i].content.sequence in q.wanted {
        s := s.(hashes := s.hashes[entries[i].content.sequence := RecomputedHash(p, entries[i])]);
      }
    }
    assert entries[..|entries|] == entries;
  }

  /** The places of an organization's entries. */
  function PlacesOf(entries: seq<Entry>, organizationId: Text): set<int> {
    set i | 0 <= i < |entries| && ORGANIZATION_ID in entries[i].content.metadata.values &&
      entries[i].content.metadata.values[ORGANIZATION_ID] == organizationId
  }

  /** What is counted are the entries whose metadata names the organization; without one asked for, none. */
  lemma {:induction false} CountExactly(entries: seq<Entry>, organizationId: Option<Text>)
    ensures CountOf(entries, organizationId) ==
      if organizationId.Some? then |PlacesOf(entries, organizationId.value)| else 0
  {
    hide PlacesOf, BelongsTo;
    if entries == [] {
      NoPlaces(organizationId);
    } else {
      var n := |entries| - 1;
      CountExactly(entries[..n], organizationId);
      LastPlace(entries, organizationId);
    }
  }

  lemma NoPlaces(organizationId: Option<Text>)
    ensures organizationId.Some? ==> PlacesOf([], organizationId.value) == {}
  {
  }

  lemma LastPlace(entries: seq<Entry>, organizationId: Option<Text>)
    requires entries != []
    ensures var n := |entries| - 1;
      if organizationId.Some? then
        |PlacesOf(entries, organizationId.value)| ==
        |PlacesOf(entries[..n], organizationId.value)| + if BelongsTo(entries[n], organizationId) then 1 else 0
      else !BelongsTo(entries[n], organizationId)
  {
    var n := |entries| - 1;
    if organizationId.Some? {
      assert PlacesOf(entries, organizationId.value) ==
        PlacesOf(entries[..n], organizationId.value) + if BelongsTo(entries[n], organizationId) then {n} else {};
    }
  }

  /** So a walk counts the organization's entries among those it inspected. */
  lemma WalkCountsOrganization(p: Platform, log: seq<Entry>, q: Query, r: WalkResult)
    requires OneShot(p, log, q, r)
    ensures r.checkedEntries <= |Range(log, q)|
    ensures r.organizationEntries ==
      if q.organizationId.Some? then |PlacesOf(Range(log, q)[..r.checkedEntries], q.organizationId.value)| else 0
  {
    hide FirstBreak, Range, AddHashes, PlacesOf;
    CountExactly(Range(log, q)[..r.checkedEntries], q.organizationId);
  }

  lemma {:induction false} InspectOfConcat(p: Platform, q: Query, r: WalkResult, a: seq<Entry>, b: seq<Entry>)
    ensures Inspect(p, q, Inspect(p, q, r, a), b) == Inspect(p, q, r, a + b)
    decreases b
  {
    if b == [] {
      assert a + b == a;
    } else {
      var n := |b| - 1;
      InspectOfConcat(p, q, r, a, b[..n]);
      assert (a + b)[..|a + b| - 1] == a + b[..n];
    }
  }

  // ---- The walk ------------------------------------------------------------

  function Snapshot(snapshots: seq<seq<Entry>>, k: nat): seq<Entry>
    requires snapshots != []
  {
    if k < |snapshots| then snapshots[k] else snapshots[|snapshots| - 1]
  }

  function LimitOf(q: Query, cursor: int): int {
    match q.to
    case None => q.batchSize
    case Some(to) => if to - cursor + 1 < q.batchSize then to - cursor + 1 else q.batchSize
  }

  /** Where a walk over an unchanging store stands while it has found no break. */
  ghost predicate Midway(p: Platform, q: Query, seed: Option<Entry>, range: seq<Entry>,
          previous: Option<Entry>, r: WalkResult) {
    && r.checkedEntries <= |range|
    && r == Inspect(p, q, NOTHING, range[..r.checkedEntries])
    && FirstBreak(p, seed, range[..r.checkedEntries]) == None
    && previous == Predecessor(seed, range, r.checkedEntries)
  }

  /** `n` entries are some number of whole pages. */
  predicate WholePages(n: nat, size: nat)
    requires size >= 1
  {
    n == 0 || (n >= size && WholePages(n - size, size))
  }

  /** The cursor is just behind the `n` entries seen so far, which fill whole pages unless the walk is at its end. */
  ghost predicate Aligned(log: seq<Entry>, q: Query, cursor: int, n: nat)
    requires ValidQuery(q)
  {
    && n <= |From(log, q.from)| && cursor == q.from + n && From(log, cursor) == From(log, q.from)[n..]
    && (WholePages(n, q.batchSize) || LimitOf(q, cursor) < 1 || From(log, cursor) == [])
  }

  lemma {:induction false} SeedPrecedes(log: seq<Entry>, from: int)
    requires Ordered(log)
    ensures From(log, from) != [] && from > 1 ==> Seed(log, from).Some?
    ensures Seed(log, from).Some? ==> Seed(log, from).value.content.sequence >= from - 1
    ensures Seed(log, from).Some? && Seed(log, from).value.content.sequence >= from ==>
      From(log, from) != [] && From(log, from)[0] == Seed(log, from).value
  {
    var j := DropExists(log, from - 1);
    var j' := DropExists(log, from);
    if j' < |log| {
      assert log[j'].content.sequence >= from;
      assert j <= j';
    }
  }

  /** While no break has been found the range continues its seed without a gap. */
  lemma {:induction false} MidwayIsConsecutive(p: Platform, log: seq<Entry>, q: Query, n: nat)
    requires Ordered(log) && ValidQuery(q) && n <= |Range(log, q)|
    requires FirstBreak(p, Seed(log, q.from), Range(log, q)[..n]) == None
    ensures forall i | 0 <= i < n :: Range(log, q)[i].content.sequence == q.from + i
  {
    hide FirstBreak;
    var range, seed := Range(log, q), Seed(log, q.from);
    VerifiedIsConsecutive(p, seed, range[..n]);
    SeedPrecedes(log, q.from);
    assert forall i | 0 <= i < n :: range[..n][i] == range[i];
    if n > 0 {
      assert range[0] == From(log, q.from)[0];
      assert range[..n][0].content.sequence == NextSequence(seed);
    }
  }

  lemma {:induction false} PageInRange(log: seq<Entry>, q: Query, cursor: int, n: nat)
    requires Ordered(log) && ValidQuery(q) && Aligned(log, q, cursor, n) && n <= |Range(log, q)|
    requires LimitOf(q, cursor) >= 1 && FindFrom(log, cursor, LimitOf(q, cursor)) != []
    ensures var page := FindFrom(log, cursor, LimitOf(q, cursor));
      && n + |page| <= |Range(log, q)| && page == Range(log, q)[n..n + |page|]
      && WholePages(n, q.batchSize) && (if n + q.batchSize <= |Range(log, q)| then |page| == q.batchSize
                                  else n + |page| == |Range(log, q)|)
  {
    PageStep(log, cursor, LimitOf(q, cursor));
  }

  lemma AlignedStep(p: Platform, log: seq<Entry>, q: Query, cursor: int, n: nat, page: seq<Entry>)
    requires Ordered(log) && ValidQuery(q) && Aligned(log, q, cursor, n) && n + |page| <= |Range(log, q)|
    requires LimitOf(q, cursor) >= 1 && page == FindFrom(log, cursor, LimitOf(q, cursor)) != []
    requires FirstBreak(p, Seed(log, q.from), Range(log, q)[..n + |page|]) == None
    ensures Aligned(log, q, page[|page| - 1].content.sequence + 1, n + |page|)
  {
    hide FirstBreak, FindFrom, Ordered, Range, From, LimitOf, WholePages;
    PageInRange(log, q, cursor, n);
    PageStep(log, cursor, LimitOf(q, cursor));
    MidwayIsConsecutive(p, log, q, n + |page|);
    RangeWithin(log, q);
    assert page[|page| - 1] == Range(log, q)[n + |page| - 1];
    assert From(log, q.from)[n..][|page|..] == From(log, q.from)[n + |page|..];
    PageBoundary(log, q, n, n + |page|);
  }

  lemma {:induction false} RangeWithin(log: seq<Entry>, q: Query)
    ensures |Range(log, q)| <= |From(log, q.from)|
  {
    hide From;
  }

  /** Behind a page that is not short another begins, and behind a short one there is nothing left. */
  lemma {:induction false} PageBoundary(log: seq<Entry>, q: Query, n: nat, m: nat)
    requires ValidQuery(q) && WholePages(n, q.batchSize)
    requires m == if n + q.batchSize <= |Range(log, q)| then n + q.batchSize else |Range(log, q)|
    requires m <= |From(log, q.from)| && From(log, q.from + m) == From(log, q.from)[m..]
    ensures WholePages(m, q.batchSize) || LimitOf(q, q.from + m) < 1 || From(log, q.from + m) == []
  {
    hide From;
  }

  lemma {:induction false} MidwayStep(p: Platform, q: Query, seed: Option<Entry>, range: seq<Entry>,
          previous: Option<Entry>, r: WalkResult, page: seq<Entry>)
    requires Midway(p, q, seed, range, previous, r)
    requires page != [] && r.checkedEntries + |page| <= |range|
    requires page == range[r.checkedEntries..r.checkedEntries + |page|] && FirstBreak(p, previous, page) == None
    ensures Midway(p, q, seed, range, Some(page[|page| - 1]), Inspect(p, q, r, page))
  {
    hide FirstBreak, AddHashes, CountOf;
    var n := r.checkedEntries;
    assert range[..n + |page|] == range[..n] + page;
    FirstBreakOfConcat(p, seed, range[..n], page);
    assert Predecessor(seed, range[..n], n) == previous;
    InspectOfConcat(p, q, NOTHING, range[..n], page);
  }

  lemma {:induction false} BreakInPage(p: Platform, seed: Option<Entry>, range: seq<Entry>, n: nat,
          page: seq<Entry>, k: nat, b: ChainBreak)
    requires n + |page| <= |range| && page == range[n..n + |page|]
    requires FirstBreak(p, seed, range[..n]) == None && BreaksAt(p, Predecessor(seed, range, n), page, k, b)
    ensures BreaksAt(p, seed, range, n + k, b)
  {
    hide FirstBreak, WrongBecause, HasValidHash, LinksTo, NumberedAfter;
    FirstBreakNone(p, Predecessor(seed, range, n), page[..k]);
    FirstBreakOfConcat(p, seed, range[..n], page[..k]);
    assert Predecessor(seed, range[..n], n) == Predecessor(seed, range, n);
    assert range[..n] + page[..k] == range[..n + k];
    FirstBreakNone(p, seed, range[..n + k]);
  }

  lemma BreakAgrees(p: Platform, q: Query, seed: Option<Entry>, range: seq<Entry>, k: nat, b: ChainBreak)
    requires k < |range| && BreaksAt(p, seed, range, k, b)
    ensures Agrees(p, q, seed, range, Inspect(p, q, NOTHING, range[..k + 1]).(firstBreak := Some(b)))
  {
    hide FirstBreak, BreaksAt, AddHashes, CountOf;
    BreaksAtIsFirst(p, seed, range, k, b);
  }

  lemma BreakInRange(p: Platform, seed: Option<Entry>, range: seq<Entry>, n: nat, page: seq<Entry>) returns (k: nat)
    requires n + |page| <= |range| && page == range[n..n + |page|] && Ordered(page)
    requires FirstBreak(p, seed, range[..n]) == None
    requires FirstBreak(p, Predecessor(seed, range, n), page) != None
    ensures var b := FirstBreak(p, Predecessor(seed, range, n), page).value;
      k < |page| && BreaksAt(p, seed, range, n + k, b) && UpTo(page, b.sequence) == page[..k + 1]
    ensures range[..n] + page[..k + 1] == range[..n + k + 1]
  {
    hide FirstBreak, BreaksAt, UpTo, Ordered;
    var previous := Predecessor(seed, range, n);
    var b := FirstBreak(p, previous, page).value;
    k := FirstBreakSome(p, previous, page);
    BreakSequence(p, previous, page, k, b);
    BreakInPage(p, seed, range, n, page, k, b);
    UpToIsPrefix(page, k);
  }

  lemma {:induction false} MidwayBreak(p: Platform, q: Query, seed: Option<Entry>, range: seq<Entry>,
          previous: Option<Entry>, r: WalkResult, page: seq<Entry>)
    requires Midway(p, q, seed, range, previous, r)
    requires Ordered(page) && r.checkedEntries + |page| <= |range|
    requires page == range[r.checkedEntries..r.checkedEntries + |page|] && FirstBreak(p, previous, page) != None
    ensures var b := FirstBreak(p, previous, page);
      Agrees(p, q, seed, range, Inspect(p, q, r, UpTo(page, b.value.sequence)).(firstBreak := b))
  {
    hide FirstBreak, Inspect, BreaksAt, UpTo, Ordered, Agrees, Predecessor;
    var n := r.checkedEntries;
    var k := BreakInRange(p, seed, range, n, page);
    BreakAgrees(p, q, seed, range, n + k, FirstBreak(p, previous, page).value);
    InspectOfConcat(p, q, NOTHING, range[..n], page[..k + 1]);
  }

  lemma BreakSequence(p: Platform, previous: Option<Entry>, page: seq<Entry>, k: nat, b: ChainBreak)
    requires BreaksAt(p, previous, page, k, b)
    ensures k < |page| && b.sequence == page[k].content.sequence
  {
  }

  /** `last` ends the page that begins behind `n` entries and holds entry number `seen` of the range. */
  ghost predicate LastOfPage(q: Query, range: seq<Entry>, n: nat, seen: nat, last: Option<Entry>)
    requires ValidQuery(q)
  {
    && WholePages(n, q.batchSize) && n < seen <= n + q.batchSize && seen <= |range|
    && last == Some(range[(if n + q.batchSize < |range| then n + q.batchSize else |range|) - 1])
  }

  /** The entry a walk saw last: the end of its range, or after a break the end of the page with the broken one. */
  ghost predicate EndsAt(q: Query, seed: Option<Entry>, range: seq<Entry>, r: WalkResult, last: Option<Entry>)
    requires ValidQuery(q)
  {
    if r.firstBreak == None then last == Predecessor(seed, range, |range|)
    else exists n: nat :: LastOfPage(q, range, n, r.checkedEntries, last)
  }

  lemma {:induction false} MidwayEnd(p: Platform, log: seq<Entry>, q: Query, previous: Option<Entry>,
          cursor: int, r: WalkResult)
    requires ValidQuery(q) && Midway(p, q, Seed(log, q.from), Range(log, q), previous, r)
    requires Aligned(log, q, cursor, r.checkedEntries)
    requires LimitOf(q, cursor) < 1 || From(log, cursor) == []
    ensures OneShot(p, log, q, r) && EndsAt(q, Seed(log, q.from), Range(log, q), r, previous)
  {
    hide FirstBreak;
    assert Range(log, q)[..|Range(log, q)|] == Range(log, q);
  }

  // ---- A chain that grows during the walk ----------------------------------

  /** Every snapshot is a valid chain, and later ones extend earlier ones. */
  ghost predicate GrowingChain(p: Platform, snapshots: seq<seq<Entry>>) {
    && (forall i | 0 <= i < |snapshots| :: FirstBreak(p, None, snapshots[i]) == None)
    && (forall i, j | 0 <= i < j < |snapshots| :: snapshots[i] <= snapshots[j])
  }

  lemma {:induction false} ChainFrom(p: Platform, log: seq<Entry>, from: int)
    requires FirstBreak(p, None, log) == None && from >= 1
    ensures Ordered(log)
    ensures From(log, from) == if from - 1 <= |log| then log[from - 1..] else []
  {
    hide FirstBreak;
    VerifiedIsConsecutive(p, None, log);
    FromIsDrop(log, from, if from - 1 <= |log| then from - 1 else |log|);
  }

  /** In a valid chain the range holds exactly the entries numbered from `from` to `to`. */
  lemma {:induction false} RangeExactly(p: Platform, log: seq<Entry>, q: Query, e: Entry)
    requires FirstBreak(p, None, log) == None && ValidQuery(q)
    ensures e in Range(log, q) <==>
      e in log && q.from <= e.content.sequence && (q.to.Some? ==> e.content.sequence <= q.to.value)
  {
    hide FirstBreak, Range;
    VerifiedIsConsecutive(p, None, log);
    RangeIsStretch(p, log, q);
    var range := Range(log, q);
    if e in range {
      var i :| 0 <= i < |range| && range[i] == e;
      assert log[q.from - 1 + i] == e;
    }
    if e in log && q.from <= e.content.sequence && (q.to.Some? ==> e.content.sequence <= q.to.value) {
      var i :| 0 <= i < |log| && log[i] == e;
      assert range[i - (q.from - 1)] == e;
    }
  }

  lemma {:induction false} RangeIsStretch(p: Platform, log: seq<Entry>, q: Query)
    requires FirstBreak(p, None, log) == None && ValidQuery(q)
    ensures var range, before := Range(log, q), q.from - 1;
      && |range| == (if before >= |log| then 0
                     else if q.to.Some? && q.to.value < |log| then q.to.value - before
                     else |log| - before)
      && forall i | 0 <= i < |range| :: range[i] == log[before + i]
  {
    hide FirstBreak, From;
    ChainFrom(p, log, q.from);
  }

  /** `previous` is the entry right before `cursor` in a log that reaches that far. */
  ghost predicate Behind(log: seq<Entry>, previous: Option<Entry>, cursor: int) {
    1 <= cursor <= |log| + 1 && previous == Predecessor(None, log, cursor - 1)
  }

  lemma {:induction false} PageOfChain(p: Platform, log: seq<Entry>, cursor: int, limit: nat)
    requires FirstBreak(p, None, log) == None && 1 <= cursor <= |log| + 1
    ensures var page := FindFrom(log, cursor, limit); var end := cursor - 1 + |page|;
      end <= |log| && page == log[cursor - 1..end] && (page != [] ==> log[end - 1].content.sequence == end)
  {
    hide FirstBreak;
    ChainFrom(p, log, cursor);
    VerifiedIsConsecutive(p, None, log);
  }

  /** Any stretch of a valid chain verifies behind the entry before it. */
  lemma {:induction false} StretchVerifies(p: Platform, log: seq<Entry>, c: nat, end: nat)
    requires FirstBreak(p, None, log) == None && c <= end <= |log|
    ensures FirstBreak(p, Predecessor(None, log, c), log[c..end]) == None
  {
    hide FirstBreak;
    assert log == log[..end] + log[end..];
    FirstBreakOfConcat(p, None, log[..end], log[end..]);
    assert log[..end] == log[..c] + log[c..end];
    FirstBreakOfConcat(p, None, log[..c], log[c..end]);
    assert Predecessor(None, log[..c], c) == Predecessor(None, log, c);
  }

  lemma {:induction false} GrowingPage(p: Platform, log: seq<Entry>, previous: Option<Entry>, cursor: int, limit: nat)
    requires FirstBreak(p, None, log) == None && Behind(log, previous, cursor)
    requires FindFrom(log, cursor, limit) != []
    ensures var page := FindFrom(log, cursor, limit); var last := page[|page| - 1];
      FirstBreak(p, previous, page) == None && Behind(log, Some(last), last.content.sequence + 1)
  {
    hide FirstBreak, FindFrom;
    PageOfChain(p, log, cursor, limit);
    var c, page := cursor - 1, FindFrom(log, cursor, limit);
    StretchVerifies(p, log, c, c + |page|);
    assert page[|page| - 1] == log[c + |page| - 1];
  }

  lemma {:induction false} SeedBehind(p: Platform, log: seq<Entry>, from: int)
    requires FirstBreak(p, None, log) == None && from >= 1
    ensures if from <= |log| + 1 then Behind(log, Seed(log, from), from) else Seed(log, from) == None
  {
    hide FirstBreak;
    if from > 1 {
      ChainFrom(p, log, from - 1);
    }
  }

  lemma {:induction false} UnseededPageBreaks(p: Platform, page: seq<Entry>, from: int)
    requires page != [] && page[0].content.sequence >= from > 1
    ensures FirstBreak(p, None, page) != None
  {
  }

  /** When a walk over a growing chain raises no alarm. */
  ghost predicate NoFalseAlarm(snapshots: seq<seq<Entry>>, q: Query)
    requires snapshots != []
  {
    q.from <= |snapshots[0]| + 1 || |Snapshot(snapshots, 1)| < q.from
  }

  /** Where a walk over a growing chain stands. */
  ghost predicate Tracks(snapshots: seq<seq<Entry>>, q: Query, k: nat, previous: Option<Entry>, cursor: int,
          r: WalkResult)
    requires snapshots != []
  {
    if q.from <= |snapshots[0]| + 1 then r.firstBreak == None && Behind(Snapshot(snapshots, k), previous, cursor)
    else if r.firstBreak == None then k == 1 && previous == None && cursor == q.from
    else |Snapshot(snapshots, 1)| >= q.from
  }

  lemma {:induction false} TracksStep(p: Platform, snapshots: seq<seq<Entry>>, q: Query, k: nat,
          previous: Option<Entry>, cursor: int, r: WalkResult, s: WalkResult, limit: nat)
    requires snapshots != [] && GrowingChain(p, snapshots) && q.from >= 1 && limit >= 1
    requires Tracks(snapshots, q, k, previous, cursor, r) && r.firstBreak == None
    ensures var page := FindFrom(Snapshot(snapshots, k), cursor, limit);
      page != [] && s.firstBreak == FirstBreak(p, previous, page) ==>
        (s.firstBreak == None <==> NoFalseAlarm(snapshots, q)) &&
        Tracks(snapshots, q, k + 1, Some(page[|page| - 1]), page[|page| - 1].content.sequence + 1, s)
  {
    hide FirstBreak;
    var log := Snapshot(snapshots, k);
    var page := FindFrom(log, cursor, limit);
    if q.from <= |snapshots[0]| + 1 {
      if page != [] {
        GrowingPage(p, log, previous, cursor, limit);
      }
    } else {
      ChainFrom(p, log, cursor);
      if page != [] {
        VerifiedIsConsecutive(p, None, log);
        UnseededPageBreaks(p, page, q.from);
      }
    }
  }

  // ---- The walk ------------------------------------------------------------

  lemma PageShrinks(log: seq<Entry>, cursor: int, limit: nat)
    requires Ordered(log) && FindFrom(log, cursor, limit) != []
    ensures var page := FindFrom(log, cursor, limit); var next := page[|page| - 1].content.sequence + 1;
      |From(log, next)| < |From(log, cursor)| && (|page| < limit ==> From(log, next) == [])
  {
    PageStep(log, cursor, limit);
  }

  lemma WalkStarts(p: Platform, snapshots: seq<seq<Entry>>, q: Query)
    requires snapshots != [] && ValidQuery(q)
    ensures var log, previous := snapshots[0], Seed(snapshots[0], q.from);
      && Midway(p, q, previous, Range(log, q), previous, NOTHING) && Aligned(log, q, q.from, 0)
      && (GrowingChain(p, snapshots) ==>
          Tracks(snapshots, q, if q.from > 1 then 1 else 0, previous, q.from, NOTHING))
  {
    hide CheckEntry, Seed, From;
    if GrowingChain(p, snapshots) {
      hide FirstBreak, FindFrom;
      SeedBehind(p, snapshots[0], q.from);
    }
  }

  /** What checking one page makes of the result so far. */
  function Checked(p: Platform, q: Query, previous: Option<Entry>, r: WalkResult, page: seq<Entry>): WalkResult {
    var found := FirstBreak(p, previous, page);
    var inspected := if found == None then page else UpTo(page, found.value.sequence);
    Inspect(p, q, r, inspected).(firstBreak := found)
  }

  lemma WalkStep(p: Platform, log: seq<Entry>, q: Query, previous: Option<Entry>, cursor: int, r: WalkResult,
          page: seq<Entry>)
    requires Ordered(log) && ValidQuery(q) && LimitOf(q, cursor) >= 1
    requires Midway(p, q, Seed(log, q.from), Range(log, q), previous, r) && Aligned(log, q, cursor, r.checkedEntries)
    requires page == FindFrom(log, cursor, LimitOf(q, cursor)) != []
    ensures var s, last := Checked(p, q, previous, r, page), page[|page| - 1];
      if s.firstBreak == None then
        && Midway(p, q, Seed(log, q.from), Range(log, q), Some(last), s)
        && Aligned(log, q, last.content.sequence + 1, s.checkedEntries)
      else OneShot(p, log, q, s) && EndsAt(q, Seed(log, q.from), Range(log, q), s, Some(last))
  {
    hide FirstBreak, Seed, Range, AddHashes, CountOf, UpTo, FindFrom;
    PageInRange(log, q, cursor, r.checkedEntries);
    PageStep(log, cursor, LimitOf(q, cursor));
    if FirstBreak(p, previous, page) == None {
      MidwayStep(p, q, Seed(log, q.from), Range(log, q), previous, r, page);
      AlignedStep(p, log, q, cursor, r.checkedEntries, page);
    } else {
      MidwayBreak(p, q, Seed(log, q.from), Range(log, q), previous, r, page);
      BreakEndsAt(p, q, Seed(log, q.from), Range(log, q), previous, r, page);
    }
  }

  lemma {:induction false} BreakEndsAt(p: Platform, q: Query, seed: Option<Entry>, range: seq<Entry>,
          previous: Option<Entry>, r: WalkResult, page: seq<Entry>)
    requires ValidQuery(q) && Ordered(page) && FirstBreak(p, previous, page) != None
    requires WholePages(r.checkedEntries, q.batchSize) && r.checkedEntries + |page| <= |range|
    requires page == range[r.checkedEntries..r.checkedEntries + |page|]
    requires if r.checkedEntries + q.batchSize <= |range| then |page| == q.batchSize
             else r.checkedEntries + |page| == |range|
    ensures EndsAt(q, seed, range, Checked(p, q, previous, r, page), Some(page[|page| - 1]))
  {
    hide FirstBreak, AddHashes, CountOf, UpTo, BreaksAt, Ordered;
    var k := FirstBreakSome(p, previous, page);
    BreakSequence(p, previous, page, k, FirstBreak(p, previous, page).value);
    UpToIsPrefix(page, k);
    assert page[|page| - 1] == range[r.checkedEntries + |page| - 1];
    assert LastOfPage(q, range, r.checkedEntries, r.checkedEntries + k + 1, Some(page[|page| - 1]));
  }

  /** A walk that runs past its last sequence or into the end of the log has seen its whole range. */
  lemma WalkEnds(p: Platform, snapshots: seq<seq<Entry>>, q: Query, k: nat, previous: Option<Entry>,
          cursor: int, r: WalkResult)
    requires snapshots != [] && ValidQuery(q) && r.firstBreak == None
    requires |snapshots| == 1 ==>
      && Midway(p, q, Seed(snapshots[0], q.from), Range(snapshots[0], q), previous, r)
      && Aligned(snapshots[0], q, cursor, r.checkedEntries)
    requires GrowingChain(p, snapshots) ==> Tracks(snapshots, q, k, previous, cursor, r)
    requires LimitOf(q, cursor) < 1 || FindFrom(Snapshot(snapshots, k), cursor, LimitOf(q, cursor)) == []
    ensures |snapshots| == 1 ==>
      OneShot(p, snapshots[0], q, r) && EndsAt(q, Seed(snapshots[0], q.from), Range(snapshots[0], q), r, previous)
    ensures GrowingChain(p, snapshots) ==> NoFalseAlarm(snapshots, q)
  {
    hide FirstBreak, Midway, OneShot, From, EndsAt;
    if |snapshots| == 1 {
      MidwayEnd(p, snapshots[0], q, previous, cursor, r);
    }
    if GrowingChain(p, snapshots) {
      ChainFrom(p, Snapshot(snapshots, k), cursor);
    }
  }

  /**
   The walk. Over a store nobody writes to it agrees with verifying the range at
   once, for every page size and however the entries were tampered with; the entry
   whose sequence and hash it reports is the last of the range, unless there is a
   break; then it is the last of the page with the broken entry. Over a valid chain
   that grows meanwhile it raises an alarm exactly when the range began beyond the
   head at the seed read and the log had reached it by the next.
   */
  method Walk(p: Platform, snapshots: seq<seq<Entry>>, q: Query)
    returns (r: WalkResult, previous: Option<Entry>)
    requires snapshots != [] && ValidQuery(q)
    requires forall i | 0 <= i < |snapshots| :: Ordered(snapshots[i])
    ensures |snapshots| == 1 ==>
      OneShot(p, snapshots[0], q, r) && EndsAt(q, Seed(snapshots[0], q.from), Range(snapshots[0], q), r, previous)
    ensures GrowingChain(p, snapshots) ==> (r.firstBreak == None <==> NoFalseAlarm(snapshots, q))
  {
    hide FirstBreak, Midway, Aligned, EndsAt, GrowingChain, Tracks, OneShot, Seed, Range, Inspect, FindFrom, From, UpTo;
    hide NoFalseAlarm, LimitOf, Ordered;
    ghost var log, range, seed := snapshots[0], Range(snapshots[0], q), Seed(snapshots[0], q.from);
    ghost var final := snapshots[|snapshots| - 1];
    var k := 0;
    previous := Seed(Snapshot(snapshots, 0), q.from);
    if q.from > 1 {
      k := 1;
    }
    var cursor := q.from;
    r := NOTHING;
    WalkStarts(p, snapshots, q);
    while r.firstBreak == None
      invariant |snapshots| == 1 ==>
        if r.firstBreak == None then Midway(p, q, seed, range, previous, r) && Aligned(log, q, cursor, r.checkedEntries)
        else OneShot(p, log, q, r) && EndsAt(q, seed, range, r, previous)
      invariant GrowingChain(p, snapshots) ==> Tracks(snapshots, q, k, previous, cursor, r)
      invariant GrowingChain(p, snapshots) && r.firstBreak != None ==> !NoFalseAlarm(snapshots, q)
      decreases if r.firstBreak == None then 1 else 0, if k < |snapshots| then |snapshots| - k else 0,
                |From(final, cursor)|
    {
      var limit := LimitOf(q, cursor);
      if limit < 1 {
        WalkEnds(p, snapshots, q, k, previous, cursor, r);
        return;
      }
      var page := FindFrom(Snapshot(snapshots, k), cursor, limit);
      ghost var before := r;
      if page == [] {
        WalkEnds(p, snapshots, q, k, previous, cursor, r);
        return;
      }
      var found := VerifyChainFrom(p, previous, page);
      var inspected := if found == None then page else UpTo(page, found.value.sequence);
      r := InspectPage(p, q, r, inspected);
      r := r.(firstBreak := found);
      assert r == Checked(p, q, previous, before, page);
      if |snapshots| == 1 {
        WalkStep(p, log, q, previous, cursor, before, page);
      }
      if GrowingChain(p, snapshots) {
        TracksStep(p, snapshots, q, k, previous, cursor, before, r, limit);
      }
      PageShrinks(Snapshot(snapshots, k), cursor, limit);
      previous := Some(page[|page| - 1]);
      cursor := page[|page| - 1].content.sequence + 1;
      k := k + 1;
      if |page| < limit {
        if |snapshots| == 1 && r.firstBreak == None {
          MidwayEnd(p, log, q, previous, cursor, r);
        }
        return;
      }
    }
  }

  // ---- A false alarm ---------------------------------------------------------

  lemma {:induction false} TwoEntriesChain(p: Platform, ids: seq<Text>, drafts: seq<Draft>)
    requires |ids| == |drafts| == 2
    ensures var log := LinkAll(p, None, ids, drafts);
      GrowingChain(p, [[], log]) && Ordered(log) && !NoFalseAlarm([[], log], Query(2, None, 1, None, {}))
  {
    hide FirstBreak;
    var log := LinkAll(p, None, ids, drafts);
    LinkAllVerifies(p, None, ids, drafts);
    NothingVerifies(p);
    VerifiedIsConsecutive(p, None, log);
  }

  lemma {:induction false} NothingVerifies(p: Platform)
    ensures FirstBreak(p, None, []) == None
  {
  }

  /**
   For instance: verification is asked to begin at 2 and finds the log empty when it
   looks for a seed, then two events are recorded. The chain is valid throughout,
   and the walk reports a break.
   */
  method FalseAlarm(p: Platform, ids: seq<Text>, drafts: seq<Draft>) returns (r: WalkResult)
    requires |ids| == |drafts| == 2
    ensures GrowingChain(p, [[], LinkAll(p, None, ids, drafts)]) && r.firstBreak != None
  {
    hide FirstBreak, LinkAll, GrowingChain, NoFalseAlarm;
    TwoEntriesChain(p, ids, drafts);
    var log := LinkAll(p, None, ids, drafts);
    var previous;
    r, previous := Walk(p, [[], log], Query(2, None, 1, None, {}));
  }
}
