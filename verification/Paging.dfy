/**
 Reading the log a page at a time: the audit query, and the review that finds
 the entries past retention.
 */
module Paging {
  import opened JsText
  import opened Options
  import opened CanonicalForm
  import opened AuditChain
  import opened ChainWalk

  // ---- Keyset paging ---------------------------------------------------------

  datatype Page = Page(entries: seq<Entry>, hasMore: bool, nextCursor: Option<int>)

  /** A page made of what was found when asking for one row more than it may hold. */
  function PageOf(found: seq<Entry>, limit: nat): Page {
    var hasMore := |found| > limit;
    var entries := if hasMore then found[..limit] else found;
    Page(entries, hasMore, if hasMore && entries != [] then Some(entries[|entries| - 1].content.sequence) else None)
  }

  function PageAfter(log: seq<Entry>, cursor: int, limit: nat): Page {
    PageOf(FindFrom(log, cursor + 1, limit + 1), limit)
  }

  /** A page is where the log goes on behind the cursor, and the next cursor is where the page ends. */
  lemma {:induction false} PageIsPrefix(log: seq<Entry>, cursor: int, limit: nat)
    requires Ordered(log) && limit >= 1
    ensures var page := PageAfter(log, cursor, limit); var rest := From(log, cursor + 1);
      && |page.entries| <= |rest| && page.entries == rest[..|page.entries|]
      && (page.nextCursor.Some? <==> page.hasMore) && (page.hasMore <==> |page.entries| < |rest|)
      && (page.hasMore ==> page.entries != [] && From(log, page.nextCursor.value + 1) == rest[|page.entries|..])
  {
    hide From;
    var rest, page := From(log, cursor + 1), PageAfter(log, cursor, limit);
    if page.hasMore {
      assert page.entries == FindFrom(log, cursor + 1, limit);
      PageStep(log, cursor + 1, limit);
    }
  }

  /** All pages from a cursor on, each begun at the cursor of the one before. */
  ghost function Follow(log: seq<Entry>, cursor: int, limit: nat): seq<Entry>
    requires Ordered(log) && limit >= 1
    decreases |From(log, cursor + 1)|
  {
    PageIsPrefix(log, cursor, limit);
    var page := PageAfter(log, cursor, limit);
    if page.nextCursor == None then page.entries else page.entries + Follow(log, page.nextCursor.value, limit)
  }

  /** Following the cursors ends, and gives everything behind the first one, once and in order. */
  lemma {:induction false} FollowGivesAll(log: seq<Entry>, cursor: int, limit: nat)
    requires Ordered(log) && limit >= 1
    ensures Follow(log, cursor, limit) == From(log, cursor + 1)
    decreases |From(log, cursor + 1)|
  {
    hide From, PageAfter;
    PageIsPrefix(log, cursor, limit);
    var page, rest := PageAfter(log, cursor, limit), From(log, cursor + 1);
    if page.nextCursor.Some? {
      FollowGivesAll(log, page.nextCursor.value, limit);
      assert rest == rest[..|page.entries|] + rest[|page.entries|..];
    }
  }

  // ---- Filters ------------------------------------------------------------------

  function Where(log: seq<Entry>, keep: Entry -> bool): seq<Entry> {
    if log == [] then []
    else Where(log[..|log| - 1], keep) + if keep(log[|log| - 1]) then [log[|log| - 1]] else []
  }

  lemma {:induction false} WhereExactly(log: seq<Entry>, keep: Entry -> bool, e: Entry)
    ensures e in Where(log, keep) <==> e in log && keep(e)
  {
    if log != [] {
      WhereExactly(log[..|log| - 1], keep, e);
      assert log == log[..|log| - 1] + [log[|log| - 1]];
    }
  }

  lemma {:induction false} WhereOrdered(log: seq<Entry>, keep: Entry -> bool)
    requires Ordered(log)
    ensures Ordered(Where(log, keep))
  {
    if log != [] {
      var n := |log| - 1;
      var before := Where(log[..n], keep);
      WhereOrdered(log[..n], keep);
      forall i | 0 <= i < |before| ensures before[i].content.sequence < log[n].content.sequence {
        WhereExactly(log[..n], keep, before[i]);
      }
    }
  }

  lemma {:induction false} FromExactly(log: seq<Entry>, from: int, e: Entry)
    ensures e in From(log, from) <==> e in log && e.content.sequence >= from
  {
    if log != [] {
      FromExactly(log[1..], from, e);
      assert log == [log[0]] + log[1..];
    }
  }

  // ---- The query ---------------------------------------------------------------

  const MAX_AUDIT_QUERY_PAGE_SIZE := 100
  const DEFAULT_PAGE_SIZE := 50

  datatype Criteria = Criteria(
    organizationId: Text,
    actorId: Option<Text>,
    subjectId: Option<Text>,
    from: Option<int>,
    to: Option<int>)

  /** An entry, and the organization it is filed under. */
  datatype Filed = Filed(organizationId: Text, entry: Entry)

  predicate Meets(c: Criteria, f: Filed) {
    && f.organizationId == c.organizationId
    && (c.actorId == None || f.entry.content.actorId == c.actorId)
    && (c.subjectId == None || f.entry.content.subjectId == c.subjectId)
    && (c.from == None || f.entry.content.occurredAt >= c.from.value)
    && (c.to == None || f.entry.content.occurredAt <= c.to.value)
  }

  function Insert(e: Entry, log: seq<Entry>): seq<Entry> {
    if log == [] || e.content.sequence < log[0].content.sequence then [e] + log else [log[0]] + Insert(e, log[1..])
  }

  /** The entries that meet the criteria, in ascending order. */
  function Matching(store: seq<Filed>, c: Criteria): seq<Entry> {
    if store == [] then []
    else
      var rest := Matching(store[1..], c);
      if Meets(c, store[0]) then Insert(store[0].entry, rest) else rest
  }

  ghost predicate UniqueSequences(store: seq<Filed>) {
    forall i, j | 0 <= i < j < |store| :: store[i].entry.content.sequence != store[j].entry.content.sequence
  }

  /** The store holds `e`, and `e` meets the criteria. */
  ghost predicate Holds(store: seq<Filed>, c: Criteria, e: Entry) {
    exists i | 0 <= i < |store| :: store[i].entry == e && Meets(c, store[i])
  }

  /** What the criteria ask of an entry of their organization: each one that is given, both instants included. */
  ghost predicate AsksFor(c: Criteria, e: Entry) {
    && (c.actorId.Some? ==> e.content.actorId.Some? && e.content.actorId.value == c.actorId.value)
    && (c.subjectId.Some? ==> e.content.subjectId.Some? && e.content.subjectId.value == c.subjectId.value)
    && (c.from.Some? ==> c.from.value <= e.content.occurredAt)
    && (c.to.Some? ==> e.content.occurredAt <= c.to.value)
  }

  lemma HoldsExactly(store: seq<Filed>, c: Criteria, e: Entry)
    ensures Holds(store, c, e) <==> Filed(c.organizationId, e) in store && AsksFor(c, e)
  {
    if Holds(store, c, e) {
      var i :| 0 <= i < |store| && store[i].entry == e && Meets(c, store[i]);
      assert store[i] == Filed(c.organizationId, e);
    }
    if Filed(c.organizationId, e) in store && AsksFor(c, e) {
      var i :| 0 <= i < |store| && store[i] == Filed(c.organizationId, e);
      assert Meets(c, store[i]);
    }
  }

  lemma {:induction false} InsertedIs(e: Entry, log: seq<Entry>, x: Entry)
    ensures x in Insert(e, log) <==> x == e || x in log
  {
    if log != [] {
      InsertedIs(e, log[1..], x);
      assert log == [log[0]] + log[1..];
    }
  }

  lemma {:induction false} InsertKeepsOrder(e: Entry, log: seq<Entry>)
    requires Ordered(log) && forall i | 0 <= i < |log| :: log[i].content.sequence != e.content.sequence
    ensures Ordered(Insert(e, log))
  {
    if log != [] && e.content.sequence > log[0].content.sequence {
      var rest := log[1..];
      InsertKeepsOrder(e, rest);
      var tail := Insert(e, rest);
      forall i | 0 <= i < |tail| ensures log[0].content.sequence < tail[i].content.sequence {
        InsertedIs(e, rest, tail[i]);
      }
    }
  }

  lemma HoldsUnfolds(store: seq<Filed>, c: Criteria, e: Entry)
    requires store != []
    ensures Holds(store, c, e) <==> (store[0].entry == e && Meets(c, store[0])) || Holds(store[1..], c, e)
  {
    hide Meets;
    var tail := store[1..];
    if Holds(tail, c, e) {
      var i :| 0 <= i < |tail| && tail[i].entry == e && Meets(c, tail[i]);
      assert store[i + 1] == tail[i];
    }
    if Holds(store, c, e) {
      var i :| 0 <= i < |store| && store[i].entry == e && Meets(c, store[i]);
      assert i > 0 ==> store[i] == tail[i - 1];
    }
  }

  lemma {:induction false} MatchingHolds(store: seq<Filed>, c: Criteria, e: Entry)
    ensures e in Matching(store, c) <==> Holds(store, c, e)
  {
    hide Meets, Insert;
    if store != [] {
      HoldsUnfolds(store, c, e);
      MatchingHolds(store[1..], c, e);
      if Meets(c, store[0]) {
        InsertedIs(store[0].entry, Matching(store[1..], c), e);
      }
    }
  }

  lemma {:induction false} MatchingOrdered(store: seq<Filed>, c: Criteria)
    requires UniqueSequences(store)
    ensures Ordered(Matching(store, c))
  {
    hide Meets, Insert;
    if store != [] {
      var tail, rest := store[1..], Matching(store[1..], c);
      assert forall i | 0 <= i < |tail| :: tail[i] == store[i + 1];
      MatchingOrdered(tail, c);
      if Meets(c, store[0]) {
        forall k | 0 <= k < |rest| ensures rest[k].content.sequence != store[0].entry.content.sequence {
          MatchingHolds(tail, c, rest[k]);
          var i :| 0 <= i < |tail| && tail[i].entry == rest[k] && Meets(c, tail[i]);
          assert store[i + 1].entry == rest[k];
        }
        InsertKeepsOrder(store[0].entry, rest);
      }
    }
  }

  /** The limit asked for, clamped to 1..100. */
  function QueryLimit(requested: Option<int>): (limit: nat)
    ensures 1 <= limit <= MAX_AUDIT_QUERY_PAGE_SIZE
    ensures requested.None? ==> limit == DEFAULT_PAGE_SIZE
    ensures requested.Some? && requested.value <= 1 ==> limit == 1
    ensures requested.Some? && requested.value >= MAX_AUDIT_QUERY_PAGE_SIZE ==> limit == MAX_AUDIT_QUERY_PAGE_SIZE
    ensures requested.Some? && 1 <= requested.value <= MAX_AUDIT_QUERY_PAGE_SIZE ==> limit == requested.value
  {
    var asked := requested.GetOr(DEFAULT_PAGE_SIZE);
    if asked < 1 then 1 else if asked > MAX_AUDIT_QUERY_PAGE_SIZE then MAX_AUDIT_QUERY_PAGE_SIZE else asked
  }

  function QueryPage(store: seq<Filed>, c: Criteria, afterSequence: Option<int>, requested: Option<int>): Page {
    PageAfter(Matching(store, c), afterSequence.GetOr(0), QueryLimit(requested))
  }

  /** A page of a query holds as many of the remaining matches as the limit allows, and says whether that was all. */
  lemma {:induction false} QueryPageExactly(store: seq<Filed>, c: Criteria, afterSequence: Option<int>,
          requested: Option<int>)
    requires UniqueSequences(store)
    ensures var page, limit := QueryPage(store, c, afterSequence, requested), QueryLimit(requested);
      var rest := From(Matching(store, c), afterSequence.GetOr(0) + 1);
      && page.entries == (if |rest| > limit then rest[..limit] else rest)
      && (page.hasMore <==> |rest| > limit) && (page.nextCursor.Some? <==> page.hasMore)
  {
    hide Matching, From;
    MatchingOrdered(store, c);
    PageIsPrefix(Matching(store, c), afterSequence.GetOr(0), QueryLimit(requested));
  }

  /**
   Over a store that does not change, the pages of a query add up to exactly the
   entries that meet the criteria, ascending, none lost and none twice, whatever
   page size was asked for.
   */
  lemma {:induction false} QueryFollowsExactly(store: seq<Filed>, c: Criteria, afterSequence: Option<int>,
          requested: Option<int>)
    requires UniqueSequences(store)
    ensures Ordered(Matching(store, c))
    ensures var all := Follow(Matching(store, c), afterSequence.GetOr(0), QueryLimit(requested));
      && Ordered(all)
      && forall e :: e in all <==>
           Filed(c.organizationId, e) in store && AsksFor(c, e) && e.content.sequence > afterSequence.GetOr(0)
  {
    hide Meets, Matching, From, Follow, Holds, AsksFor;
    MatchingOrdered(store, c);
    var log, after := Matching(store, c), afterSequence.GetOr(0);
    FollowGivesAll(log, after, QueryLimit(requested));
    var j := DropExists(log, after + 1);
    forall e ensures e in From(log, after + 1) <==>
      Filed(c.organizationId, e) in store && AsksFor(c, e) && e.content.sequence >= after + 1
    {
      FromExactly(log, after + 1, e);
      MatchingHolds(store, c, e);
      HoldsExactly(store, c, e);
    }
  }

  // ---- The retention review ------------------------------------------------------

  const MS_PER_DAY := 86400000
  const DEFAULT_RETENTION_LIMIT := 200

  /** A window in whole days, at least one. */
  type Days = d: int | d >= 1 witness 1

  function CutoffDate(days: Days, now: int): int { now - days * MS_PER_DAY }

  datatype Candidate = Candidate(entry: Entry, ageDays: int)

  datatype Review = Review(
    candidates: seq<Candidate>,
    evaluatedThroughSequence: Option<int>,
    nextCursor: Option<int>,
    hasMore: bool)

  function AgeDays(now: int, e: Entry): int { (now - e.content.occurredAt) / MS_PER_DAY }

  function Candidates(now: int, entries: seq<Entry>): (r: seq<Candidate>)
    ensures |r| == |entries| && forall i | 0 <= i < |entries| :: r[i] == Candidate(entries[i], AgeDays(now, entries[i]))
  {
    if entries == [] then [] else [Candidate(entries[0], AgeDays(now, entries[0]))] + Candidates(now, entries[1..])
  }

  /** The filter of the review: no tenant, or an empty one, asks for every tenant. */
  predicate InScope(e: Entry, organizationId: Option<Text>) {
    organizationId.GetOr([]) == [] || BelongsTo(e, organizationId)
  }

  /** What the review asks the store for. */
  function Due(days: Days, now: int, organizationId: Option<Text>): Entry -> bool {
    (e: Entry) => InScope(e, organizationId) && e.content.occurredAt <= CutoffDate(days, now)
  }

  function Expired(log: seq<Entry>, days: Days, now: int, organizationId: Option<Text>): seq<Entry> {
    Where(log, Due(days, now, organizationId))
  }

  function ReviewFrom(log: seq<Entry>, days: Days, now: int, cursor: Option<int>, limit: Option<nat>,
          organizationId: Option<Text>): Review {
    var expired := Expired(log, days, now, organizationId);
    var page := PageAfter(expired, cursor.GetOr(0), limit.GetOr(DEFAULT_RETENTION_LIMIT));
    Review(
      Candidates(now, page.entries),
      if page.entries == [] then None else Some(page.entries[|page.entries| - 1].content.sequence),
      page.nextCursor,
      page.hasMore)
  }

  /** A run of reviews at one pinned instant, each resumed where the one before ended. */
  ghost function FollowReviews(log: seq<Entry>, days: Days, now: int, cursor: Option<int>, limit: Option<nat>,
          organizationId: Option<Text>): seq<Candidate>
    requires Ordered(log)
    decreases |From(Expired(log, days, now, organizationId), cursor.GetOr(0) + 1)|
  {
    var review := ReviewFrom(log, days, now, cursor, limit, organizationId);
    var expired := Expired(log, days, now, organizationId);
    if review.nextCursor == None then review.candidates
    else
      WhereOrdered(log, Due(days, now, organizationId));
      assert limit.GetOr(DEFAULT_RETENTION_LIMIT) >= 1;
      PageIsPrefix(expired, cursor.GetOr(0), limit.GetOr(DEFAULT_RETENTION_LIMIT));
      review.candidates + FollowReviews(log, days, now, review.nextCursor, limit, organizationId)
  }

  lemma ExpiredOrdered(log: seq<Entry>, days: Days, now: int, organizationId: Option<Text>)
    requires Ordered(log)
    ensures Ordered(Expired(log, days, now, organizationId))
  {
    WhereOrdered(log, Due(days, now, organizationId));
  }

  lemma {:induction false} CandidatesOfConcat(now: int, a: seq<Entry>, b: seq<Entry>)
    ensures Candidates(now, a + b) == Candidates(now, a) + Candidates(now, b)
  {
  }

  lemma {:induction false} FollowReviewsUnfolds(log: seq<Entry>, days: Days, now: int, cursor: Option<int>,
          limit: Option<nat>, organizationId: Option<Text>)
    requires Ordered(log)
    ensures var expired := Expired(log, days, now, organizationId);
      var page := PageAfter(expired, cursor.GetOr(0), limit.GetOr(DEFAULT_RETENTION_LIMIT));
      FollowReviews(log, days, now, cursor, limit, organizationId) ==
      Candidates(now, page.entries) +
      if page.nextCursor == None then [] else FollowReviews(log, days, now, page.nextCursor, limit, organizationId)
  {
    hide Ordered, Expired, PageAfter, Candidates;
  }

  lemma {:induction false} ReviewsFollowPages(log: seq<Entry>, days: Days, now: int, cursor: Option<int>,
          limit: Option<nat>, organizationId: Option<Text>)
    requires Ordered(log) && limit.GetOr(DEFAULT_RETENTION_LIMIT) >= 1
    ensures FollowReviews(log, days, now, cursor, limit, organizationId) ==
      Candidates(now, From(Expired(log, days, now, organizationId), cursor.GetOr(0) + 1))
    decreases |From(Expired(log, days, now, organizationId), cursor.GetOr(0) + 1)|
  {
    hide Expired, From, PageAfter, Candidates, Ordered, FollowReviews;
    var expired := Expired(log, days, now, organizationId);
    ExpiredOrdered(log, days, now, organizationId);
    FollowReviewsUnfolds(log, days, now, cursor, limit, organizationId);
    PageIsPrefix(expired, cursor.GetOr(0), limit.GetOr(DEFAULT_RETENTION_LIMIT));
    var page := PageAfter(expired, cursor.GetOr(0), limit.GetOr(DEFAULT_RETENTION_LIMIT));
    var rest := From(expired, cursor.GetOr(0) + 1);
    if page.nextCursor.Some? {
      ReviewsFollowPages(log, days, now, page.nextCursor, limit, organizationId);
      CandidatesOfConcat(now, page.entries, rest[|page.entries|..]);
      assert rest == page.entries + rest[|page.entries|..];
    } else {
      assert rest == page.entries;
    }
  }

  /** An entry is at or before the cutoff exactly when it is at least as many whole days old as the window. */
  lemma AgeExactly(e: Entry, days: Days, now: int)
    ensures e.content.occurredAt <= CutoffDate(days, now) <==> AgeDays(now, e) >= days
  {
  }

  /** The tenant whose entries are reviewed: any, or the one that the entry's metadata names. */
  ghost predicate OfTenant(e: Entry, organizationId: Option<Text>) {
    organizationId.None? || organizationId.value == [] ||
    (ORGANIZATION_ID in e.content.metadata.values &&
     e.content.metadata.values[ORGANIZATION_ID] == organizationId.value)
  }

  lemma ScopeExactly(e: Entry, organizationId: Option<Text>)
    ensures InScope(e, organizationId) <==> OfTenant(e, organizationId)
  {
  }

  lemma ExpiredExactly(log: seq<Entry>, days: Days, now: int, organizationId: Option<Text>, e: Entry)
    ensures e in Expired(log, days, now, organizationId) <==>
      e in log && OfTenant(e, organizationId) && AgeDays(now, e) >= days
  {
    hide InScope, Where;
    ScopeExactly(e, organizationId);
    WhereExactly(log, Due(days, now, organizationId), e);
    AgeExactly(e, days, now);
  }

  /**
   Over a log that does not change, and with the instant pinned, resuming the
   review nominates exactly the entries in scope that are at least the window's
   days old, ascending, none lost and none twice, for every limit of one or more.
   */
  lemma {:induction false} ReviewsNominateExactly(log: seq<Entry>, days: Days, now: int, cursor: Option<int>,
          limit: Option<nat>, organizationId: Option<Text>)
    requires Ordered(log) && limit.GetOr(DEFAULT_RETENTION_LIMIT) >= 1
    ensures var nominated := From(Expired(log, days, now, organizationId), cursor.GetOr(0) + 1);
      && FollowReviews(log, days, now, cursor, limit, organizationId) == Candidates(now, nominated)
      && Ordered(nominated)
      && (forall e :: e in nominated <==>
            e in log && OfTenant(e, organizationId) && AgeDays(now, e) >= days && e.content.sequence > cursor.GetOr(0))
  {
    hide Expired, From, OfTenant, FollowReviews, AgeDays;
    var expired, from := Expired(log, days, now, organizationId), cursor.GetOr(0) + 1;
    ReviewsFollowPages(log, days, now, cursor, limit, organizationId);
    ExpiredOrdered(log, days, now, organizationId);
    var j := DropExists(expired, from);
    forall e ensures e in From(expired, from) <==>
      e in log && OfTenant(e, organizationId) && AgeDays(now, e) >= days && e.content.sequence > cursor.GetOr(0)
    {
      FromExactly(expired, from, e);
      ExpiredExactly(log, days, now, organizationId, e);
    }
  }

  /**
   What one review says. Its candidates are the first that are due behind the cursor, as
   many as the limit allows; it has evaluated through the last of them, and says whether
   more are due and where to go on.
   */
  lemma {:induction false} ReviewSays(log: seq<Entry>, days: Days, now: int, cursor: Option<int>,
          limit: Option<nat>, organizationId: Option<Text>)
    requires Ordered(log) && limit.GetOr(DEFAULT_RETENTION_LIMIT) >= 1
    ensures var review := ReviewFrom(log, days, now, cursor, limit, organizationId);
      var due := From(Expired(log, days, now, organizationId), cursor.GetOr(0) + 1);
      var n := |review.candidates|;
      && n <= |due| && review.candidates == Candidates(now, due[..n])
      && n == (if |due| > limit.GetOr(DEFAULT_RETENTION_LIMIT) then limit.GetOr(DEFAULT_RETENTION_LIMIT) else |due|)
      && (review.hasMore <==> n < |due|)
      && review.evaluatedThroughSequence == (if n == 0 then None else Some(due[n - 1].content.sequence))
      && review.nextCursor == (if review.hasMore then review.evaluatedThroughSequence else None)
  {
    hide Expired, From, Candidates, Ordered;
    var expired := Expired(log, days, now, organizationId);
    ExpiredOrdered(log, days, now, organizationId);
    PageIsPrefix(expired, cursor.GetOr(0), limit.GetOr(DEFAULT_RETENTION_LIMIT));
  }

  /** With a limit of zero a review nominates nothing and gives no cursor. */
  lemma {:induction false} ZeroLimitStalls(log: seq<Entry>, days: Days, now: int, cursor: Option<int>,
          organizationId: Option<Text>)
    requires Ordered(log)
    ensures FollowReviews(log, days, now, cursor, Some(0), organizationId) == []
  {
    hide Expired, From;
  }

  /** So a run of reviews is complete exactly when its limit is one or more, or nothing is due. */
  lemma {:induction false} ReviewsCompleteExactly(log: seq<Entry>, days: Days, now: int, cursor: Option<int>,
          limit: Option<nat>, organizationId: Option<Text>)
    requires Ordered(log)
    ensures var nominated := From(Expired(log, days, now, organizationId), cursor.GetOr(0) + 1);
      FollowReviews(log, days, now, cursor, limit, organizationId) == Candidates(now, nominated) <==>
      limit.GetOr(DEFAULT_RETENTION_LIMIT) >= 1 || nominated == []
  {
    hide Expired, From, FollowReviews;
    if limit.GetOr(DEFAULT_RETENTION_LIMIT) >= 1 {
      ReviewsFollowPages(log, days, now, cursor, limit, organizationId);
    } else {
      ZeroLimitStalls(log, days, now, cursor, organizationId);
    }
  }
}
