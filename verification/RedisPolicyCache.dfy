/**
 The Redis policy cache. Reading and writing take two steps each, first the
 generations and then the entry, and anything may happen in between.
 */
module RedisPolicyCache {
  import opened JsText
  import opened Options
  import opened CanonicalForm
  import opened CacheKeys

  /** An entry, with the operation that wrote it and the generations it had read. */
  datatype Stored = Stored(writer: nat, g: nat, r: nat, key: Key, entry: Cached)

  datatype Purpose = Reading | Writing(entry: Cached) | Deleting

  /** An operation that has read the generations and not yet touched the entry. */
  datatype Pending = Pending(purpose: Purpose, key: Key, g: nat, r: nat)

  /** `counters` holds the generation of each resource type, and the global one under the empty text. */
  datatype Redis = Redis(clock: nat, counters: map<Text, nat>, store: map<Text, Stored>, pending: map<nat, Pending>) {
    function Generation(resourceType: Text): nat {
      if resourceType in counters then counters[resourceType] else 0
    }
  }

  /** An operation is named by the position of its first step in the run. */
  datatype Event =
    | Begin(purpose: Purpose, key: Key)
    | Finish(operation: nat)
    | InvalidateResourceType(resourceType: Text)
    | InvalidateAll
    | Evict(at: Text)

  const EMPTY := Redis(0, map[], map[], map[])

  function EntryKey(g: nat, r: nat, key: Key): Text { Tagged(g, r, COLON, key) }

  function Increment(counters: map<Text, nat>, name: Text): map<Text, nat> {
    counters[name := (if name in counters then counters[name] else 0) + 1]
  }

  function PendingAfter(s: Redis, e: Event): map<nat, Pending> {
    match e
    case Begin(purpose, key) =>
      s.pending[s.clock := Pending(purpose, key, s.Generation([]), s.Generation(key.resourceType))]
    case Finish(operation) => s.pending - {operation}
    case _ => s.pending
  }

  function StoreAfter(s: Redis, e: Event): map<Text, Stored> {
    match e
    case Finish(operation) =>
      if operation !in s.pending then s.store
      else
        var p := s.pending[operation];
        var at := EntryKey(p.g, p.r, p.key);
        (match p.purpose
         case Reading => s.store
         case Writing(entry) => s.store[at := Stored(operation, p.g, p.r, p.key, entry)]
         case Deleting => s.store - {at})
    case Evict(at) => s.store - {at}
    case _ => s.store
  }

  function CountersAfter(s: Redis, e: Event): map<Text, nat> {
    match e
    case InvalidateResourceType(resourceType) => Increment(s.counters, resourceType)
    case InvalidateAll => Increment(s.counters, [])
    case _ => s.counters
  }

  function Step(s: Redis, e: Event): Redis {
    Redis(s.clock + 1, CountersAfter(s, e), StoreAfter(s, e), PendingAfter(s, e))
  }

  function Run(events: seq<Event>): Redis {
    if events == [] then EMPTY else Step(Run(events[..|events| - 1]), events[|events| - 1])
  }

  /** What a read answers when it takes its second step. */
  function Answer(s: Redis, operation: nat): Option<Stored> {
    if operation !in s.pending || !s.pending[operation].purpose.Reading? then None
    else
      var at := EntryKey(s.pending[operation].g, s.pending[operation].r, s.pending[operation].key);
      if at in s.store then Some(s.store[at]) else None
  }

  /** The adapter: each method is one round trip to the store. */
  class RedisCache {
    var clock: nat
    var counters: map<Text, nat>
    var store: map<Text, Stored>
    var pending: map<nat, Pending>

    constructor ()
      ensures State() == EMPTY
    {
      clock, counters, store, pending := 0, map[], map[], map[];
    }

    ghost function State(): Redis
      reads this
    {
      Redis(clock, counters, store, pending)
    }

    /** The first step of `get`, `set` and `invalidate`: read both generations at once. */
    method CurrentGenerations(purpose: Purpose, key: Key) returns (operation: nat)
      modifies this
      ensures operation == old(clock) && State() == Step(old(State()), Begin(purpose, key))
    {
      operation := clock;
      var g := if [] in counters then counters[[]] else 0;
      var r := if key.resourceType in counters then counters[key.resourceType] else 0;
      pending := pending[clock := Pending(purpose, key, g, r)];
      clock := clock + 1;
    }

    method FinishGet(operation: nat) returns (r: Option<Stored>)
      requires operation in pending && pending[operation].purpose.Reading?
      modifies this
      ensures r == Answer(old(State()), operation) && State() == Step(old(State()), Finish(operation))
    {
      var p := pending[operation];
      var at := EntryKey(p.g, p.r, p.key);
      r := if at in store then Some(store[at]) else None;
      pending := pending - {operation};
      clock := clock + 1;
    }

    method FinishSet(operation: nat)
      requires operation in pending && pending[operation].purpose.Writing?
      modifies this
      ensures State() == Step(old(State()), Finish(operation))
    {
      var p := pending[operation];
      store := store[EntryKey(p.g, p.r, p.key) := Stored(operation, p.g, p.r, p.key, p.purpose.entry)];
      pending := pending - {operation};
      clock := clock + 1;
    }

    method FinishInvalidate(operation: nat)
      requires operation in pending && pending[operation].purpose.Deleting?
      modifies this
      ensures State() == Step(old(State()), Finish(operation))
    {
      var p := pending[operation];
      store := store - {EntryKey(p.g, p.r, p.key)};
      pending := pending - {operation};
      clock := clock + 1;
    }

    method InvalidateResourceType(resourceType: Text)
      modifies this
      ensures State() == Step(old(State()), Event.InvalidateResourceType(resourceType))
    {
      counters := counters[resourceType := (if resourceType in counters then counters[resourceType] else 0) + 1];
      clock := clock + 1;
    }

    method InvalidateAll()
      modifies this
      ensures State() == Step(old(State()), Event.InvalidateAll)
    {
      counters := counters[[] := (if [] in counters then counters[[]] else 0) + 1];
      clock := clock + 1;
    }
  }

  /** The invalidations that reach a key. The empty type's counter is also the global one. */
  predicate Covers(e: Event, key: Key) {
    e == InvalidateAll || e == InvalidateResourceType([]) || e == InvalidateResourceType(key.resourceType)
  }

  /** Every key has one of the types in use. */
  ghost predicate Over(events: seq<Event>, types: set<Text>) {
    forall i | 0 <= i < |events| && events[i].Begin? :: events[i].key.resourceType in types
  }

  // ---- Every generation in use was read at the start of its operation -------

  /** The operation that began at `i` wants `key`, and read generations `g` and `r`. */
  ghost predicate BeganWith(events: seq<Event>, i: nat, purpose: Purpose, key: Key, g: nat, r: nat) {
    && i < |events| && events[i] == Begin(purpose, key)
    && g == Run(events[..i]).Generation([]) && r == Run(events[..i]).Generation(key.resourceType)
  }

  ghost predicate TracksPending(events: seq<Event>, s: Redis) {
    forall i | i in s.pending ::
      BeganWith(events, i, s.pending[i].purpose, s.pending[i].key, s.pending[i].g, s.pending[i].r)
  }

  ghost predicate TracksStore(events: seq<Event>, s: Redis) {
    forall at | at in s.store ::
      var w := s.store[at];
      at == EntryKey(w.g, w.r, w.key) && BeganWith(events, w.writer, Writing(w.entry), w.key, w.g, w.r)
  }

  lemma BeganStays(events: seq<Event>, e: Event, i: nat, purpose: Purpose, key: Key, g: nat, r: nat)
    requires BeganWith(events, i, purpose, key, g, r)
    ensures BeganWith(events + [e], i, purpose, key, g, r)
  {
    assert (events + [e])[..i] == events[..i];
  }

  lemma {:induction false} RunTracks(events: seq<Event>)
    ensures Run(events).clock == |events|
    ensures TracksPending(events, Run(events)) && TracksStore(events, Run(events))
  {
    hide Tagged, BeganWith;
    if events != [] {
      var n := |events| - 1;
      var before, e := events[..n], events[n];
      assert forall i | 0 <= i < n :: before[i] == events[i];
      RunTracks(before);
      assert events == before + [e];
      StepTracks(before, e);
    }
  }

  lemma {:induction false} StepTracks(events: seq<Event>, e: Event)
    requires Run(events).clock == |events|
    requires TracksPending(events, Run(events)) && TracksStore(events, Run(events))
    ensures var s := Step(Run(events), e); TracksPending(events + [e], s) && TracksStore(events + [e], s)
  {
    hide *;
    StepTracksPending(events, e);
    StepTracksStore(events, e);
  }

  lemma {:induction false} StepTracksPending(events: seq<Event>, e: Event)
    requires Run(events).clock == |events| && TracksPending(events, Run(events))
    ensures TracksPending(events + [e], Step(Run(events), e))
  {
    hide BeganWith, Run, StoreAfter, CountersAfter;
    var s, all := Run(events), events + [e];
    if e.Begin? {
      assert all[|events|] == e;
      BeginsNow(events, e);
    }
    var pending := PendingAfter(s, e);
    forall i | i in pending && !(e.Begin? && i == s.clock)
      ensures BeganWith(all, i, pending[i].purpose, pending[i].key, pending[i].g, pending[i].r)
    {
      BeganStays(events, e, i, pending[i].purpose, pending[i].key, pending[i].g, pending[i].r);
    }
  }

  lemma {:induction false} StepTracksStore(events: seq<Event>, e: Event)
    requires TracksPending(events, Run(events)) && TracksStore(events, Run(events))
    ensures TracksStore(events + [e], Step(Run(events), e))
  {
    hide Tagged, BeganWith, Run, PendingAfter, CountersAfter;
    var s, all := Run(events), events + [e];
    var store := StoreAfter(s, e);
    forall at | at in store
      ensures at == EntryKey(store[at].g, store[at].r, store[at].key)
      ensures BeganWith(all, store[at].writer, Writing(store[at].entry), store[at].key, store[at].g, store[at].r)
    {
      var w := store[at];
      BeganStays(events, e, w.writer, Writing(w.entry), w.key, w.g, w.r);
    }
  }

  lemma {:induction false} BeginsNow(events: seq<Event>, e: Event)
    requires e.Begin?
    ensures var s := Run(events);
      BeganWith(events + [e], |events|, e.purpose, e.key, s.Generation([]), s.Generation(e.key.resourceType))
  {
    assert (events + [e])[..|events|] == events;
  }

  // ---- Generations only grow, and an invalidation makes them grow -----------

  lemma {:induction false} GenerationsGrow(events: seq<Event>, i: nat, j: nat, resourceType: Text)
    requires i <= j <= |events|
    ensures Run(events[..i]).Generation(resourceType) <= Run(events[..j]).Generation(resourceType)
    decreases j
  {
    if i < j {
      GenerationsGrow(events, i, j - 1, resourceType);
      assert events[..j][..j - 1] == events[..j - 1];
    }
  }

  lemma InvalidationBumps(events: seq<Event>, j: nat, key: Key)
    requires j < |events| && Covers(events[j], key)
    ensures var before, after := Run(events[..j]), Run(events[..j + 1]);
      before.Generation([]) < after.Generation([]) ||
      before.Generation(key.resourceType) < after.Generation(key.resourceType)
  {
    assert events[..j + 1][..j] == events[..j];
  }

  lemma GenerationsSeparate(events: seq<Event>, i: nat, j: nat, k: nat, key: Key)
    requires i <= j < k <= |events| && Covers(events[j], key)
    ensures var before, after := Run(events[..i]), Run(events[..k]);
      before.Generation([]) < after.Generation([]) ||
      before.Generation(key.resourceType) < after.Generation(key.resourceType)
  {
    hide Run;
    InvalidationBumps(events, j, key);
    GenerationsGrow(events, i, j, []);
    GenerationsGrow(events, i, j, key.resourceType);
    GenerationsGrow(events, j + 1, k, []);
    GenerationsGrow(events, j + 1, k, key.resourceType);
  }

  /**
   The answer to a read, if it has one, was written under the key it asked for, and
   no covering invalidation lies between the moment the write read its generations
   and the moment the read began.
   */
  ghost predicate FreshAnswer(events: seq<Event>, operation: nat) {
    var answer := Answer(Run(events), operation);
    answer.Some? ==>
      && operation < |events| && events[operation].Begin?
      && answer.value.writer < |events|
      && events[answer.value.writer] == Begin(Writing(answer.value.entry), events[operation].key)
      && forall j | answer.value.writer <= j < operation :: !Covers(events[j], events[operation].key)
  }

  /** No stale answer, however the steps interleave, over separable types. */
  lemma {:induction false} NoStaleAnswer(events: seq<Event>, operation: nat, types: set<Text>)
    requires Over(events, types) && Separable(types, COLON)
    ensures FreshAnswer(events, operation)
  {
    hide Tagged, Run;
    RunTracks(events);
    var s := Run(events);
    if Answer(s, operation).Some? {
      var p, found := s.pending[operation], Answer(s, operation).value;
      assert BeganWith(events, operation, p.purpose, p.key, p.g, p.r);
      assert BeganWith(events, found.writer, Writing(found.entry), found.key, found.g, found.r);
      TaggedExact(p.g, p.r, p.key, found.g, found.r, found.key, COLON);
      forall j | found.writer <= j < operation ensures !Covers(events[j], p.key) {
        if Covers(events[j], p.key) {
          GenerationsSeparate(events, found.writer, j, operation, p.key);
        }
      }
    }
  }

  // ---- And over no others -------------------------------------------------------

  const ANY_ENTRY := Cached([], [], [])

  lemma RunStep(events: seq<Event>, n: nat)
    requires n < |events|
    ensures Run(events[..n + 1]) == Step(Run(events[..n]), events[n])
  {
    assert events[..n + 1][..n] == events[..n];
  }

  /** A write under the longer type, the invalidation of that type, and a read under the shorter one. */
  function ConfusingRun(t: Text, u: Text): seq<Event>
    requires t + [COLON] <= u
  {
    [Begin(Writing(ANY_ENTRY), Key(u, [])), Finish(0), InvalidateResourceType(u), Begin(Reading, Confused(t, u, COLON))]
  }

  /** What was written answers the read. */
  lemma SupersededAnswers(t: Text, u: Text)
    requires t + [COLON] <= u
    ensures Answer(Run(ConfusingRun(t, u)), 3).Some?
    ensures Answer(Run(ConfusingRun(t, u)), 3).value.writer == 0
    ensures !FreshAnswer(ConfusingRun(t, u), 3)
  {
    hide Tagged;
    var events := ConfusingRun(t, u);
    ConfusedTags(0, 0, t, u, COLON);
    RunStep(events, 0);
    RunStep(events, 1);
    RunStep(events, 2);
    RunStep(events, 3);
    assert events[..0] == [] && events[..4] == events;
  }

  /**
   When no answer is ever stale: over every interleaving of operations on the types
   in use, if and only if none of the types is another one followed by a colon.
   */
  lemma NoStaleAnswerExactly(types: set<Text>)
    ensures (forall events, operation | Over(events, types) :: FreshAnswer(events, operation)) <==>
      Separable(types, COLON)
  {
    hide FreshAnswer;
    if Separable(types, COLON) {
      forall events, operation | Over(events, types) ensures FreshAnswer(events, operation) {
        NoStaleAnswer(events, operation, types);
      }
    } else {
      var t, u :| t in types && u in types && t + [COLON] <= u;
      SupersededAnswers(t, u);
      assert Over(ConfusingRun(t, u), types);
    }
  }

  // ---- What is still good is found ------------------------------------------

  lemma {:induction false} GenerationsStay(events: seq<Event>, i: nat, k: nat, key: Key)
    requires i <= k <= |events| && forall j | i <= j < k :: !Covers(events[j], key)
    ensures Run(events[..k]).Generation([]) == Run(events[..i]).Generation([])
    ensures Run(events[..k]).Generation(key.resourceType) == Run(events[..i]).Generation(key.resourceType)
    decreases k
  {
    if i < k {
      GenerationsStay(events, i, k - 1, key);
      assert events[..k][..k - 1] == events[..k - 1];
    }
  }

  /** The event replaces or removes what is filed under `at`. */
  predicate Disturbs(s: Redis, e: Event, at: Text) {
    e == Evict(at) ||
    (e.Finish? && e.operation in s.pending && !s.pending[e.operation].purpose.Reading? &&
     EntryKey(s.pending[e.operation].g, s.pending[e.operation].r, s.pending[e.operation].key) == at)
  }

  ghost predicate Undisturbed(events: seq<Event>, from: nat, at: Text) {
    forall j | from <= j < |events| :: !Disturbs(Run(events[..j]), events[j], at)
  }

  lemma StoreStays(s: Redis, e: Event, at: Text)
    requires at in s.store && !Disturbs(s, e, at)
    ensures at in Step(s, e).store && Step(s, e).store[at] == s.store[at]
  {
    hide Tagged, CountersAfter, PendingAfter;
  }

  lemma {:induction false} WriteStays(events: seq<Event>, from: nat, at: Text, stored: Stored)
    requires from <= |events| && Undisturbed(events, from, at)
    requires at in Run(events[..from]).store && Run(events[..from]).store[at] == stored
    ensures at in Run(events).store && Run(events).store[at] == stored
    decreases |events|
  {
    hide Disturbs, Step;
    if from == |events| {
      assert events[..from] == events;
    } else {
      var n := |events| - 1;
      assert events[..n][..from] == events[..from];
      assert forall j | from <= j < n :: events[..n][..j] == events[..j] && events[..n][j] == events[j];
      WriteStays(events[..n], from, at, stored);
      StoreStays(Run(events[..n]), events[n], at);
    }
  }

  /**
   And nothing good is lost. A read that began after a write did, with no
   covering invalidation in between, finds what was written, once the write has
   finished and unless its entry has been replaced, deleted or evicted since.
   */
  lemma {:induction false} ReadFindsWrite(events: seq<Event>, writer: nat, finish: nat, operation: nat, entry: Cached)
    requires writer < finish < |events|
    requires events[finish] == Finish(writer) && writer in Run(events[..finish]).pending
    requires events[writer].Begin? && events[writer].purpose == Writing(entry)
    requires writer <= operation < |events| && operation in Run(events).pending
    requires events[operation] == Begin(Reading, events[writer].key)
    requires forall j | writer <= j < operation :: !Covers(events[j], events[writer].key)
    requires var key := events[writer].key; var before := Run(events[..writer]);
      Undisturbed(events, finish + 1, EntryKey(before.Generation([]), before.Generation(key.resourceType), key))
    ensures Answer(Run(events), operation).Some?
    ensures var found := Answer(Run(events), operation).value; found.writer == writer && found.entry == entry
  {
    hide Tagged, Run, Covers, Disturbs, BeganWith, TracksStore, Undisturbed;
    var key, before, s := events[writer].key, Run(events[..writer]), Run(events);
    RunTracks(events);
    RunTracks(events[..finish]);
    PendingReads(events, operation, s);
    PendingReads(events[..finish], writer, Run(events[..finish]));
    assert events[..finish][..writer] == events[..writer] && events[..finish][writer] == events[writer];
    GenerationsStay(events, writer, operation, key);
    FinishStores(events, finish, writer);
    var g, r := before.Generation([]), before.Generation(key.resourceType);
    WriteStays(events, finish + 1, EntryKey(g, r, key), Stored(writer, g, r, key, entry));
  }

  /** A pending operation holds the generations current when it began. */
  lemma PendingReads(events: seq<Event>, i: nat, s: Redis)
    requires TracksPending(events, s) && i in s.pending
    ensures i < |events| && events[i] == Begin(s.pending[i].purpose, s.pending[i].key)
    ensures s.pending[i].g == Run(events[..i]).Generation([])
    ensures s.pending[i].r == Run(events[..i]).Generation(s.pending[i].key.resourceType)
  {
    hide Run;
    assert BeganWith(events, i, s.pending[i].purpose, s.pending[i].key, s.pending[i].g, s.pending[i].r);
  }

  lemma FinishStores(events: seq<Event>, finish: nat, writer: nat)
    requires finish < |events| && events[finish] == Finish(writer)
    requires writer in Run(events[..finish]).pending && Run(events[..finish]).pending[writer].purpose.Writing?
    ensures var p := Run(events[..finish]).pending[writer]; var store := Run(events[..finish + 1]).store;
      EntryKey(p.g, p.r, p.key) in store &&
      store[EntryKey(p.g, p.r, p.key)] == Stored(writer, p.g, p.r, p.key, p.purpose.entry)
  {
    hide Tagged;
    assert events[..finish + 1][..finish] == events[..finish];
  }

  // ---- The narrow invalidation ----------------------------------------------------

  /** What is filed under a text now and was not at `from` was put there by a write that finished since. */
  lemma {:induction false} StoredSince(events: seq<Event>, from: nat, at: Text) returns (i: nat)
    requires from <= |events| && at !in Run(events[..from]).store && at in Run(events).store
    ensures from <= i < |events| && events[i] == Finish(Run(events).store[at].writer)
    decreases |events|
  {
    hide Tagged;
    assert events[..|events|] == events;
    assert from < |events|;
    var n := |events| - 1;
    var s := Run(events[..n]);
    if at in s.store && s.store[at] == Run(events).store[at] {
      assert events[..n][..from] == events[..from];
      i := StoredSince(events[..n], from, at);
    } else {
      StoreGains(s, events[n], at);
      i := n;
    }
  }

  lemma StoreGains(s: Redis, e: Event, at: Text)
    requires at in Step(s, e).store && !(at in s.store && s.store[at] == Step(s, e).store[at])
    ensures e == Finish(Step(s, e).store[at].writer)
  {
    hide Tagged, CountersAfter, PendingAfter;
  }

  lemma DeletionRemoves(events: seq<Event>, finish: nat, deletion: nat)
    requires finish < |events| && events[finish] == Finish(deletion)
    requires deletion in Run(events[..finish]).pending && Run(events[..finish]).pending[deletion].purpose.Deleting?
    ensures var p := Run(events[..finish]).pending[deletion];
      EntryKey(p.g, p.r, p.key) !in Run(events[..finish + 1]).store
  {
    hide Tagged;
    RunStep(events, finish);
  }

  /**
   What the invalidation of one key promises: a read that begins after it did, with
   no covering invalidation in between, answers only with what a write has put there
   after the deletion.
   */
  lemma DeletedIsNotAnswered(events: seq<Event>, deletion: nat, finish: nat, operation: nat) returns (i: nat)
    requires deletion < finish < |events| && events[finish] == Finish(deletion)
    requires deletion in Run(events[..finish]).pending && Run(events[..finish]).pending[deletion].purpose.Deleting?
    requires deletion <= operation < |events| && events[operation].Begin? && events[deletion].Begin?
    requires events[operation].key == events[deletion].key
    requires forall j | deletion <= j < operation :: !Covers(events[j], events[deletion].key)
    requires Answer(Run(events), operation).Some?
    ensures finish < i < |events| && events[i] == Finish(Answer(Run(events), operation).value.writer)
  {
    hide Tagged, Run, Covers, BeganWith, TracksStore;
    RunTracks(events);
    RunTracks(events[..finish]);
    PendingReads(events, operation, Run(events));
    PendingReads(events[..finish], deletion, Run(events[..finish]));
    assert events[..finish][..deletion] == events[..deletion] && events[..finish][deletion] == events[deletion];
    GenerationsStay(events, deletion, operation, events[deletion].key);
    DeletionRemoves(events, finish, deletion);
    var p := Run(events).pending[operation];
    i := StoredSince(events, finish + 1, EntryKey(p.g, p.r, p.key));
  }

  /** And no more than that: a write that was already under way when the key was invalidated can follow the deletion. */
  lemma WriteFollowsDeletion(key: Key, entry: Cached)
    ensures var events := [Begin(Writing(entry), key), Begin(Deleting, key), Finish(1), Finish(0), Begin(Reading, key)];
      var answer := Answer(Run(events), 4);
      answer.Some? && answer.value.writer == 0 && answer.value.entry == entry
  {
    hide Tagged;
    var events := [Begin(Writing(entry), key), Begin(Deleting, key), Finish(1), Finish(0), Begin(Reading, key)];
    RunStep(events, 0);
    RunStep(events, 1);
    RunStep(events, 2);
    RunStep(events, 3);
    RunStep(events, 4);
    assert events[..0] == [] && events[..5] == events;
  }
}
