/**
 The in-memory policy cache. Invalidation only bumps counters; the entries stay
 until their time is up. That nobody can ask for them any more holds exactly if no
 resource type is another one followed by the separator.
 */
module InMemoryPolicyCache {
  import opened JsText
  import opened Options
  import opened CanonicalForm
  import opened CacheKeys

  datatype Stored = Stored(entry: Cached, expiresAt: real)

  datatype Cache = Cache(entries: map<Text, Stored>, generations: map<Text, nat>, globalGeneration: nat) {
    function GenerationFor(resourceType: Text): nat {
      if resourceType in generations then generations[resourceType] else 0
    }

    function EntryKey(key: Key): Text { Tagged(globalGeneration, GenerationFor(key.resourceType), BAR, key) }
  }

  datatype Operation =
    | Get(key: Key)
    | Set(key: Key, entry: Cached, ttlSeconds: Option<real>)
    | Invalidate(key: Key)
    | InvalidateResourceType(resourceType: Text)
    | InvalidateAll

  datatype Event = Event(now: real, operation: Operation)

  /** A read answers with an entry or with a miss; nothing else answers anything. */
  function Step(c: Cache, e: Event, defaultTtl: real): (Cache, Option<Cached>) {
    match e.operation
    case Get(key) =>
      var at := c.EntryKey(key);
      if at !in c.entries then (c, None)
      else if c.entries[at].expiresAt <= e.now then (c.(entries := c.entries - {at}), None)
      else (c, Some(c.entries[at].entry))
    case Set(key, entry, ttlSeconds) =>
      var ttl := ttlSeconds.GetOr(defaultTtl);
      if ttl <= 0.0 then (c, None)
      else (c.(entries := c.entries[c.EntryKey(key) := Stored(entry, e.now + ttl * 1000.0)]), None)
    case Invalidate(key) => (c.(entries := c.entries - {c.EntryKey(key)}), None)
    case InvalidateResourceType(t) => (c.(generations := c.generations[t := c.GenerationFor(t) + 1]), None)
    case InvalidateAll => (c.(globalGeneration := c.globalGeneration + 1), None)
  }

  class PolicyCache {
    var entries: map<Text, Stored>
    var generations: map<Text, nat>
    var globalGeneration: nat
    const defaultTtlSeconds: real

    constructor (defaultTtlSeconds: real)
      ensures State() == EMPTY && this.defaultTtlSeconds == defaultTtlSeconds
    {
      entries, generations, globalGeneration := map[], map[], 0;
      this.defaultTtlSeconds := defaultTtlSeconds;
    }

    function State(): Cache
      reads this
    {
      Cache(entries, generations, globalGeneration)
    }

    method Get(key: Key, now: real) returns (r: Option<Cached>)
      modifies this`entries
      ensures (State(), r) == Step(old(State()), Event(now, Operation.Get(key)), defaultTtlSeconds)
    {
      var at := State().EntryKey(key);
      if at !in entries {
        return None;
      }
      var stored := entries[at];
      if stored.expiresAt <= now {
        entries := entries - {at};
        return None;
      }
      r := Some(stored.entry);
    }

    method Set(key: Key, entry: Cached, ttlSeconds: Option<real>, now: real)
      modifies this`entries
      ensures State() == Step(old(State()), Event(now, Operation.Set(key, entry, ttlSeconds)), defaultTtlSeconds).0
    {
      var ttl := ttlSeconds.GetOr(defaultTtlSeconds);
      if ttl <= 0.0 {
        return;
      }
      entries := entries[State().EntryKey(key) := Stored(entry, now + ttl * 1000.0)];
    }

    method Invalidate(key: Key, now: real)
      modifies this`entries
      ensures State() == Step(old(State()), Event(now, Operation.Invalidate(key)), defaultTtlSeconds).0
    {
      entries := entries - {State().EntryKey(key)};
    }

    method InvalidateResourceType(resourceType: Text, now: real)
      modifies this`generations
      ensures State() ==
        Step(old(State()), Event(now, Operation.InvalidateResourceType(resourceType)), defaultTtlSeconds).0
    {
      generations := generations[resourceType := State().GenerationFor(resourceType) + 1];
    }

    method InvalidateAll(now: real)
      modifies this`globalGeneration
      ensures State() == Step(old(State()), Event(now, Operation.InvalidateAll), defaultTtlSeconds).0
    {
      globalGeneration := globalGeneration + 1;
    }
  }

  /** What an operation removes: a read the entry it finds expired, a narrow invalidation its own, and nothing else. */
  lemma RemovesExactly(c: Cache, e: Event, defaultTtl: real, at: Text)
    requires at in c.entries
    ensures at !in Step(c, e, defaultTtl).0.entries <==>
      (e.operation.Get? && at == c.EntryKey(e.operation.key) && c.entries[at].expiresAt <= e.now) ||
      (e.operation.Invalidate? && at == c.EntryKey(e.operation.key))
  {
    hide Tagged;
  }

  const EMPTY := Cache(map[], map[], 0)

  function Run(events: seq<Event>, defaultTtl: real): Cache {
    if events == [] then EMPTY
    else Step(Run(events[..|events| - 1], defaultTtl), events[|events| - 1], defaultTtl).0
  }

  // ---- What a cache that really deletes would hold -------------------------

  /** The last write under a key that nothing has invalidated since. */
  function LastWrite(events: seq<Event>, key: Key, defaultTtl: real): Option<Stored> {
    if events == [] then None
    else
      var n := |events| - 1;
      var now := events[n].now;
      match events[n].operation
      case Set(k, entry, ttlSeconds) =>
        var ttl := ttlSeconds.GetOr(defaultTtl);
        if k == key && ttl > 0.0 then Some(Stored(entry, now + ttl * 1000.0))
        else LastWrite(events[..n], key, defaultTtl)
      case Invalidate(k) => if k == key then None else LastWrite(events[..n], key, defaultTtl)
      case InvalidateResourceType(t) => if t == key.resourceType then None else LastWrite(events[..n], key, defaultTtl)
      case InvalidateAll => None
      case Get(_) => LastWrite(events[..n], key, defaultTtl)
  }

  /** The event asks for no type of key but those in use; what it invalidates may be anything. */
  ghost predicate Uses(e: Event, types: set<Text>) {
    match e.operation
    case Get(key) => key.resourceType in types
    case Set(key, _, _) => key.resourceType in types
    case Invalidate(key) => key.resourceType in types
    case _ => true
  }

  /** The clock never goes back, and every key has one of the types in use. */
  ghost predicate Orderly(events: seq<Event>, types: set<Text>) {
    (forall i, j | 0 <= i < j < |events| :: events[i].now <= events[j].now) &&
    (forall i | 0 <= i < |events| :: Uses(events[i], types))
  }

  /** No entry is filed under a generation yet to come. */
  ghost predicate PastGenerations(c: Cache, types: set<Text>) {
    forall g: nat, r: nat, key: Key | key.resourceType in types && Tagged(g, r, BAR, key) in c.entries ::
      g <= c.globalGeneration && r <= c.GenerationFor(key.resourceType)
  }

  /** Under a key the cache has the last write, or has dropped it because its time was up. */
  ghost predicate Answers(c: Cache, key: Key, write: Option<Stored>, now: real) {
    if c.EntryKey(key) in c.entries then write == Some(c.entries[c.EntryKey(key)])
    else write.Some? ==> write.value.expiresAt <= now
  }

  lemma StepKeepsPast(c: Cache, e: Event, defaultTtl: real, types: set<Text>)
    requires Separable(types, BAR) && PastGenerations(c, types) && Uses(e, types)
    ensures PastGenerations(Step(c, e, defaultTtl).0, types)
  {
    hide Tagged;
    var d := Step(c, e, defaultTtl).0;
    forall g: nat, r: nat, key: Key | key.resourceType in types && Tagged(g, r, BAR, key) in d.entries
      ensures g <= d.globalGeneration && r <= d.GenerationFor(key.resourceType)
    {
      if Tagged(g, r, BAR, key) !in c.entries {
        var written := e.operation.key;
        TaggedExact(g, r, key, c.globalGeneration, c.GenerationFor(written.resourceType), written, BAR);
      }
    }
  }

  lemma {:induction false} StepAnswers(c: Cache, e: Event, defaultTtl: real, key: Key, events: seq<Event>, now: real,
          types: set<Text>)
    requires Separable(types, BAR) && PastGenerations(c, types) && Uses(e, types)
    requires key.resourceType in types && now <= e.now
    requires events != [] && events[|events| - 1] == e
    requires Answers(c, key, LastWrite(events[..|events| - 1], key, defaultTtl), now)
    ensures Answers(Step(c, e, defaultTtl).0, key, LastWrite(events, key, defaultTtl), e.now)
  {
    hide Tagged;
    var d := Step(c, e, defaultTtl).0;
    if e.operation.Get? || e.operation.Set? || e.operation.Invalidate? {
      var other := e.operation.key;
      TaggedExact(c.globalGeneration, c.GenerationFor(key.resourceType), key,
                  c.globalGeneration, c.GenerationFor(other.resourceType), other, BAR);
    } else if d.EntryKey(key) in d.entries {
      assert Tagged(d.globalGeneration, d.GenerationFor(key.resourceType), BAR, key) in c.entries;
    }
  }

  lemma {:induction false} RunAnswers(events: seq<Event>, defaultTtl: real, key: Key, now: real, types: set<Text>)
    requires Separable(types, BAR) && Orderly(events, types) && key.resourceType in types
    requires events != [] ==> now == events[|events| - 1].now
    ensures PastGenerations(Run(events, defaultTtl), types)
    ensures Answers(Run(events, defaultTtl), key, LastWrite(events, key, defaultTtl), now)
  {
    hide Tagged, Step, Answers, PastGenerations, Separable;
    if events == [] {
      NothingCached(key, now, types);
    } else {
      var n := |events| - 1;
      var before, e := events[..n], events[n];
      var earlier := if n > 0 then events[n - 1].now else e.now;
      RunAnswers(before, defaultTtl, key, earlier, types);
      StepKeepsPast(Run(before, defaultTtl), e, defaultTtl, types);
      StepAnswers(Run(before, defaultTtl), e, defaultTtl, key, events, earlier, types);
    }
  }

  lemma NothingCached(key: Key, now: real, types: set<Text>)
    ensures PastGenerations(EMPTY, types) && Answers(EMPTY, key, None, now)
  {
  }

  /** A read after these events returns the last write that nothing invalidated, if its time is not up. */
  ghost predicate LikeDeletion(events: seq<Event>, defaultTtl: real, key: Key, now: real) {
    var write := LastWrite(events, key, defaultTtl);
    Step(Run(events, defaultTtl), Event(now, Get(key)), defaultTtl).1 ==
    if write.Some? && write.value.expiresAt > now then Some(write.value.entry) else None
  }

  /** Counting generations answers like really deleting, over separable types. */
  lemma {:induction false} ReadsLikeDeletion(events: seq<Event>, defaultTtl: real, key: Key, now: real,
          types: set<Text>)
    requires Separable(types, BAR) && Orderly(events + [Event(now, Get(key))], types)
    ensures LikeDeletion(events, defaultTtl, key, now)
  {
    hide Tagged, PastGenerations, LastWrite, Separable;
    var all := events + [Event(now, Get(key))];
    assert forall i | 0 <= i < |events| :: all[i] == events[i];
    assert Uses(all[|events|], types);
    var last := if events == [] then now else events[|events| - 1].now;
    assert events != [] ==> all[|events| - 1].now <= all[|events|].now;
    RunAnswers(events, defaultTtl, key, last, types);
  }

  // ---- And over no others ------------------------------------------------------

  const ANY_ENTRY := Cached([], [], [])

  lemma {:induction false} RunOfTwo(a: Event, b: Event, defaultTtl: real)
    ensures Run([a, b], defaultTtl) == Step(Step(EMPTY, a, defaultTtl).0, b, defaultTtl).0
  {
    hide Step;
    assert [a, b][..1] == [a] && [a][..0] == [];
    assert Run([a], defaultTtl) == Step(Run([], defaultTtl), a, defaultTtl).0;
  }

  /** A write under the longer type answers a read under the shorter one, also when the longer has been invalidated. */
  lemma {:induction false} SupersededAnswers(t: Text, u: Text, entry: Cached, defaultTtl: real)
    requires t + [BAR] <= u
    ensures var write, bump := Event(0.0, Set(Key(u, []), entry, Some(1.0))), Event(0.0, InvalidateResourceType(u));
      var asked := Confused(t, u, BAR);
      && Step(Run([write, bump], defaultTtl), Event(0.0, Get(asked)), defaultTtl).1 == Some(entry)
      && LastWrite([write, bump], asked, defaultTtl) == None
      && !LikeDeletion([write, bump], defaultTtl, asked, 0.0)
  {
    hide Tagged;
    var write, bump := Event(0.0, Set(Key(u, []), entry, Some(1.0))), Event(0.0, InvalidateResourceType(u));
    ConfusedTags(0, 0, t, u, BAR);
    RunOfTwo(write, bump, defaultTtl);
    var asked := Confused(t, u, BAR);
    assert [write, bump][..1] == [write] && [write][..0] == [];
    assert LastWrite([write], asked, defaultTtl) == LastWrite([], asked, defaultTtl) == None;
    var c := Run([write, bump], defaultTtl);
    assert c.EntryKey(asked) in c.entries && c.entries[c.EntryKey(asked)] == Stored(entry, 1000.0);
  }

  /**
   When counting generations is deleting. Every run over the types in use, with a
   clock that does not go back, answers like a map that really deletes, if and only
   if none of the types is another one followed by the separator.
   */
  lemma LikeDeletionExactly(types: set<Text>, defaultTtl: real)
    ensures (forall events, key, now | Orderly(events + [Event(now, Get(key))], types) ::
               LikeDeletion(events, defaultTtl, key, now)) <==> Separable(types, BAR)
  {
    hide LikeDeletion, Orderly;
    if Separable(types, BAR) {
      forall events, key, now | Orderly(events + [Event(now, Get(key))], types)
        ensures LikeDeletion(events, defaultTtl, key, now)
      {
        ReadsLikeDeletion(events, defaultTtl, key, now, types);
      }
    } else {
      var t, u :| t in types && u in types && t + [BAR] <= u;
      var write, bump := Event(0.0, Set(Key(u, []), ANY_ENTRY, Some(1.0))), Event(0.0, InvalidateResourceType(u));
      SupersededAnswers(t, u, ANY_ENTRY, defaultTtl);
      OrderlyThree(write, bump, Event(0.0, Get(Confused(t, u, BAR))), types);
    }
  }

  lemma OrderlyThree(a: Event, b: Event, c: Event, types: set<Text>)
    requires a.now <= b.now <= c.now && Uses(a, types) && Uses(b, types) && Uses(c, types)
    ensures Orderly([a, b] + [c], types)
  {
    hide Uses;
  }

  /** For instance, what was cached for the type `a|b` and then invalidated answers for the type `a`. */
  lemma SeparatorConfusesKeys(entry: Cached)
    ensures var a, b, c := 97, 98, 99;
      var written, asked := Key([a, BAR, b], [c]), Key([a], [b, BAR, c]);
      var write, bump := Event(0.0, Set(written, entry, Some(1.0))), Event(0.0, InvalidateResourceType([a, BAR, b]));
      && written != asked
      && Step(Run([write, bump], 1.0), Event(0.0, Get(written)), 1.0).1 == None
      && Step(Run([write, bump], 1.0), Event(0.0, Get(asked)), 1.0).1 == Some(entry)
  {
    hide Tagged;
    var t: Text := [97, BAR, 98];
    var written, asked := Key(t, [99]), Key([97], [98, BAR, 99]);
    var write, bump := Event(0.0, Set(written, entry, Some(1.0))), Event(0.0, InvalidateResourceType(t));
    RunOfTwo(write, bump, 1.0);
    SameRest(0, 0, written, asked);
    TaggedExact(0, 0, written, 0, 1, written, BAR);
  }

  lemma SameRest(g: nat, r: nat, a: Key, b: Key)
    requires a.resourceType + [BAR] + a.action == b.resourceType + [BAR] + b.action
    ensures Tagged(g, r, BAR, a) == Tagged(g, r, BAR, b)
  {
    hide Decimal;
  }
}
