/**
 The in-process rate limiter: one fixed window per key, opened by the first
 request after the previous window has ended.
 */
module RateLimit {
  datatype Window = Window(count: int, resetAt: int)

  type Store = map<string, Window>

  datatype Reply = Reply(allowed: bool, remaining: int, resetAt: int, retryAfterSeconds: int)

  function Max(a: int, b: int): int { if a < b then b else a }

  function Min(a: int, b: int): int { if a < b then a else b }

  function CeilSeconds(ms: int): int { (ms + 999) / 1000 }

  function Consumed(s: Store, key: string, limit: int, windowMs: int, now: int): (Store, Reply) {
    if key !in s || now >= s[key].resetAt then
      (s[key := Window(1, now + windowMs)],
       Reply(1 <= limit, Max(0, limit - 1), now + windowMs, CeilSeconds(windowMs)))
    else
      var w := s[key].(count := s[key].count + 1);
      (s[key := w],
       Reply(w.count <= limit, Max(0, limit - w.count), w.resetAt, Max(1, CeilSeconds(Max(0, w.resetAt - now)))))
  }

  class RateLimiterStore {
    var memoryStore: Store

    constructor ()
      ensures memoryStore == map[]
    {
      memoryStore := map[];
    }

    method Consume(key: string, limit: int, windowMs: int, now: int) returns (r: Reply)
      modifies this
      ensures (memoryStore, r) == Consumed(old(memoryStore), key, limit, windowMs, now)
    {
      if key !in memoryStore || now >= memoryStore[key].resetAt {
        var resetAt := now + windowMs;
        memoryStore := memoryStore[key := Window(1, resetAt)];
        return Reply(1 <= limit, Max(0, limit - 1), resetAt, CeilSeconds(windowMs));
      }
      var entry := memoryStore[key];
      entry := entry.(count := entry.count + 1);
      memoryStore := memoryStore[key := entry];
      var pttl := Max(0, entry.resetAt - now);
      r := Reply(entry.count <= limit, Max(0, limit - entry.count), entry.resetAt, Max(1, CeilSeconds(pttl)));
    }
  }

  // ---- Whole runs ----------------------------------------------------------

  datatype Request = Request(key: string, now: int)

  /** A run under one limit and one window length. */
  datatype Config = Config(limit: int, windowMs: int)

  function Run(c: Config, requests: seq<Request>): Store {
    if requests == [] then map[]
    else
      var n := |requests| - 1;
      Consumed(Run(c, requests[..n]), requests[n].key, c.limit, c.windowMs, requests[n].now).0
  }

  function ReplyTo(c: Config, requests: seq<Request>, i: nat): Reply
    requires i < |requests|
  {
    Consumed(Run(c, requests[..i]), requests[i].key, c.limit, c.windowMs, requests[i].now).1
  }

  /** How many requests under a key, from time `from` on and before `to`, were allowed. */
  function AllowedBetween(c: Config, requests: seq<Request>, key: string, from: int, to: int): nat {
    if requests == [] then 0
    else
      var n := |requests| - 1;
      AllowedBetween(c, requests[..n], key, from, to) +
      if requests[n].key == key && from <= requests[n].now < to && ReplyTo(c, requests, n).allowed then 1 else 0
  }

  /** How many requests under a key were counted in the window that ends at `resetAt`, or allowed in it. */
  function CountedIn(c: Config, requests: seq<Request>, key: string, resetAt: int, onlyAllowed: bool): nat {
    if requests == [] then 0
    else
      var n := |requests| - 1;
      var reply := ReplyTo(c, requests, n);
      CountedIn(c, requests[..n], key, resetAt, onlyAllowed) +
      if requests[n].key == key && reply.resetAt == resetAt && (reply.allowed || !onlyAllowed) then 1 else 0
  }

  ghost predicate NonDecreasing(requests: seq<Request>) {
    forall i, j | 0 <= i < j < |requests| :: requests[i].now <= requests[j].now
  }

  /** The window a key has open, if any, began no later than `now` and has counted what its replies say. */
  ghost predicate WindowCounts(c: Config, requests: seq<Request>, key: string, resetAt: int, s: Store, now: int) {
    var counted, allowed := CountedIn(c, requests, key, resetAt, false), CountedIn(c, requests, key, resetAt, true);
    && allowed == Min(counted, Max(0, c.limit))
    && (key !in s ==> counted == 0)
    && (key in s ==>
        s[key].count >= 1 && s[key].resetAt - c.windowMs <= now &&
        (s[key].resetAt == resetAt ==> counted == s[key].count) &&
        (s[key].resetAt < resetAt ==> counted == 0))
  }

  /**
   Each counting window allows exactly its first `limit` requests, and so at
   most `limit`, whatever else the run does.
   */
  lemma {:induction false} WindowAllowsLimit(c: Config, requests: seq<Request>, key: string, resetAt: int, now: int)
    requires c.windowMs > 0 && NonDecreasing(requests)
    requires requests != [] ==> now == requests[|requests| - 1].now
    ensures CountedIn(c, requests, key, resetAt, true) ==
      Min(CountedIn(c, requests, key, resetAt, false), Max(0, c.limit))
    ensures WindowCounts(c, requests, key, resetAt, Run(c, requests), now)
  {
    if requests != [] {
      var n := |requests| - 1;
      var earlier := if n > 0 then requests[n - 1].now else now;
      WindowAllowsLimit(c, requests[..n], key, resetAt, earlier);
    }
  }

  /** What is known of an interval of one window's length while a run goes on. */
  ghost predicate IntervalBound(c: Config, allowed: int, from: int, s: Store, key: string, now: int) {
    if key !in s then allowed == 0
    else
      var w := s[key];
      var start, used := w.resetAt - c.windowMs, Min(w.count, c.limit);
      && w.count >= 1 && start <= now
      && (w.resetAt <= from ==> allowed == 0)
      && (start < from ==> allowed <= used - 1)
      && (start == from ==> allowed <= used)
      && (from < start < from + c.windowMs ==> allowed <= c.limit - 1 + used)
      && allowed <= 2 * c.limit - 1
  }

  lemma {:induction false} IntervalKept(c: Config, requests: seq<Request>, key: string, from: int, now: int)
    requires c.windowMs > 0 && c.limit >= 1 && NonDecreasing(requests)
    requires requests != [] ==> now == requests[|requests| - 1].now
    ensures var allowed := AllowedBetween(c, requests, key, from, from + c.windowMs);
      IntervalBound(c, allowed, from, Run(c, requests), key, now)
  {
    if requests != [] {
      var n := |requests| - 1;
      var earlier := if n > 0 then requests[n - 1].now else now;
      IntervalKept(c, requests[..n], key, from, earlier);
    }
  }

  lemma {:induction false} NothingAllowed(c: Config, requests: seq<Request>, key: string, from: int, to: int, now: int)
    requires c.windowMs > 0 && c.limit <= 0 && NonDecreasing(requests)
    requires requests != [] ==> now == requests[|requests| - 1].now
    ensures AllowedBetween(c, requests, key, from, to) == 0
    ensures key in Run(c, requests) ==> Run(c, requests)[key].count >= 1
  {
    if requests != [] {
      var n := |requests| - 1;
      var earlier := if n > 0 then requests[n - 1].now else now;
      NothingAllowed(c, requests[..n], key, from, to, earlier);
    }
  }

  /**
   Any half-open interval as long as a window sees less than twice the limit: it
   meets two windows at most, and misses the request that opened the first.
   */
  lemma LessThanTwiceTheLimit(c: Config, requests: seq<Request>, key: string, from: int)
    requires c.windowMs > 0 && NonDecreasing(requests)
    ensures AllowedBetween(c, requests, key, from, from + c.windowMs) <= Max(0, 2 * c.limit - 1)
  {
    hide AllowedBetween, Run;
    var now := if requests == [] then 0 else requests[|requests| - 1].now;
    if c.limit >= 1 {
      IntervalKept(c, requests, key, from, now);
    } else {
      NothingAllowed(c, requests, key, from, from + c.windowMs, now);
    }
  }

  /**
   What a reply promises. `remaining` is what the window still allows, and
   waiting `retryAfterSeconds`, which rounds up by less than a second, is enough
   to be let into a new window.
   */
  lemma {:induction false} ReplyIsHonest(c: Config, requests: seq<Request>, i: nat, later: int)
    requires c.windowMs > 0 && NonDecreasing(requests) && i < |requests|
    ensures var r, reply := requests[i], ReplyTo(c, requests, i);
      var counted := CountedIn(c, requests[..i + 1], r.key, reply.resetAt, false);
      && reply.remaining == Max(0, c.limit - counted)
      && reply.resetAt <= r.now + reply.retryAfterSeconds * 1000 < reply.resetAt + 1000
      && (later >= r.now + reply.retryAfterSeconds * 1000 ==>
          Consumed(Run(c, requests[..i + 1]), r.key, c.limit, c.windowMs, later).1.allowed == (1 <= c.limit))
  {
    var upTo, r := requests[..i + 1], requests[i];
    assert upTo[..i] == requests[..i] && upTo[i] == r;
    assert forall j | 0 <= j <= i :: upTo[j] == requests[j];
    WindowAllowsLimit(c, upTo, r.key, ReplyTo(c, requests, i).resetAt, r.now);
  }

  // ---- The bound is reached -------------------------------------------------

  function Burst(key: string, n: nat, now: int): (r: seq<Request>)
    ensures |r| == n && forall i | 0 <= i < n :: r[i] == Request(key, now)
  {
    if n == 0 then [] else Burst(key, n - 1, now) + [Request(key, now)]
  }

  lemma {:induction false} OneMore(c: Config, requests: seq<Request>, r: Request, from: int, to: int)
    ensures Run(c, requests + [r]) == Consumed(Run(c, requests), r.key, c.limit, c.windowMs, r.now).0
    ensures AllowedBetween(c, requests + [r], r.key, from, to) ==
      AllowedBetween(c, requests, r.key, from, to) +
      if from <= r.now < to && Consumed(Run(c, requests), r.key, c.limit, c.windowMs, r.now).1.allowed then 1 else 0
  {
    assert (requests + [r])[..|requests|] == requests;
  }

  lemma {:induction false} BurstAllowed(c: Config, requests: seq<Request>, key: string, n: nat, now: int,
          from: int, to: int)
    requires key in Run(c, requests) && now < Run(c, requests)[key].resetAt
    requires Run(c, requests)[key].count + n <= c.limit && from <= now < to
    ensures var all := requests + Burst(key, n, now); var w := Run(c, requests)[key];
      && key in Run(c, all) && Run(c, all)[key] == Window(w.count + n, w.resetAt)
      && AllowedBetween(c, all, key, from, to) == AllowedBetween(c, requests, key, from, to) + n
  {
    hide Run, AllowedBetween;
    if n == 0 {
      assert requests + Burst(key, 0, now) == requests;
    } else {
      BurstAllowed(c, requests, key, n - 1, now, from, to);
      var before := requests + Burst(key, n - 1, now);
      assert requests + Burst(key, n, now) == before + [Request(key, now)];
      OneMore(c, before, Request(key, now), from, to);
    }
  }

  /** One request, then the rest of the limit just before the window ends, then the limit again. */
  lemma BoundIsReached(c: Config, key: string) returns (requests: seq<Request>)
    requires c.limit >= 1 && c.windowMs >= 2
    ensures NonDecreasing(requests)
    ensures AllowedBetween(c, requests, key, 1, 1 + c.windowMs) == 2 * c.limit - 1
  {
    hide Run, AllowedBetween;
    var w := c.windowMs;
    var opening := [Request(key, 0)];
    OneMore(c, [], Request(key, 0), 1, 1 + w);
    EmptyRun(c, key, 1, 1 + w);
    assert [] + opening == opening;
    BurstAllowed(c, opening, key, c.limit - 1, w - 1, 1, 1 + w);
    var first := opening + Burst(key, c.limit - 1, w - 1);
    OneMore(c, first, Request(key, w), 1, 1 + w);
    var reopened := first + [Request(key, w)];
    BurstAllowed(c, reopened, key, c.limit - 1, w, 1, 1 + w);
    requests := reopened + Burst(key, c.limit - 1, w);
  }

  lemma {:induction false} EmptyRun(c: Config, key: string, from: int, to: int)
    ensures Run(c, []) == map[] && AllowedBetween(c, [], key, from, to) == 0
  {
  }
}
