/**
 lib/rate-limit.ts: the fixed-window limiter, in memory and over Redis, one caller at a time.

 Times are integer milliseconds.  A Redis key with expiry e exists while now < e.  The Redis server is reached
 without delay here; RedisLimiter.dfy has the interleavings.
 */
module RateLimit {
  import opened Common
  import opened OrderedMap

  datatype Entry = Entry(count: int, resetAt: int)

  type Store = seq<Item<Entry>>

  datatype Options = Options(windowMs: int, max: int)

  /** MAX_STORE_SIZE and MAX_QUEUE_SIZE. */
  datatype Capacity = Capacity(maxStore: int, maxQueue: int)

  datatype Outcome = Outcome(allowed: bool, remaining: int, resetAt: int)

  function Max(a: int, b: int): int {
    if a >= b then a else b
  }

  /* ------------------------------ in-memory store ---------------------------- */

  /** pruneExpiredEntries keeps exactly the entries that have not expired, in order. */
  function Pruned(store: Store, now: int): Store {
    Filter(store, (it: Item<Entry>) => it.value.resetAt > now)
  }

  function Surplus(store: Store, maxStore: int): nat {
    if |store| <= maxStore then 0 else Min(|store|, |store| - maxStore)
  }

  /** evictOldestIfNeeded drops the longest-inserted entries beyond the cap. */
  function Evicted(store: Store, maxStore: int): Store {
    store[Surplus(store, maxStore)..]
  }

  /** One in-memory call. */
  function MemoryStep(store: Store, cap: Capacity, k: string, o: Options, now: int): (Store, Outcome) {
    var entry := Lookup(store, k);
    if |store| >= cap.maxQueue then
      (store, Outcome(false, 0, now + o.windowMs))
    else if entry.None? || entry.value.resetAt <= now then
      (Evicted(Put(store, k, Entry(1, now + o.windowMs)), cap.maxStore),
       Outcome(true, Max(o.max - 1, 0), now + o.windowMs))
    else if entry.value.count >= o.max then
      (store, Outcome(false, 0, entry.value.resetAt))
    else
      var e := Entry(entry.value.count + 1, entry.value.resetAt);
      (Put(store, k, e), Outcome(true, Max(o.max - e.count, 0), e.resetAt))
  }

  /** The store never outgrows either cap. */
  lemma StepKeepsCapacity(store: Store, cap: Capacity, key: string, o: Options, now: int)
    requires Distinct(store) && |store| <= Max(0, Min(cap.maxStore, cap.maxQueue))
    ensures var next := MemoryStep(store, cap, key, o, now).0;
            Distinct(next) && |next| <= Max(0, Min(cap.maxStore, cap.maxQueue))
  {
    var entry := Lookup(store, key);
    var (next, r) := MemoryStep(store, cap, key, o, now);
    StepCases(store, cap, key, o, now, next, r, key);
    if |store| >= cap.maxQueue {
    } else if entry.None? || entry.value.resetAt <= now {
      assert next == Evicted(Put(store, key, Entry(1, now + o.windowMs)), cap.maxStore);
      PutDistinct(store, key, Entry(1, now + o.windowMs));
    } else if entry.value.count < o.max {
      assert next == Put(store, key, Entry(entry.value.count + 1, entry.value.resetAt));
      PutDistinct(store, key, Entry(entry.value.count + 1, entry.value.resetAt));
    }
  }

  /** After an insertion and the eviction it may trigger, a key is gone or has the expected entry. */
  lemma PutThenEvict(store: Store, key: string, e: Entry, maxStore: int, next: Store, k: string)
    requires Distinct(store) && next == Evicted(Put(store, key, e), maxStore)
    ensures Distinct(next)
    ensures var expected := if k == key then Some(e) else Lookup(store, k);
            Lookup(next, k) == expected || (Lookup(next, k).None? && |store| >= maxStore)
  {
    var put := Put(store, key, e);
    var n := Surplus(put, maxStore);
    PutDistinct(store, key, e);
    LookupPut(store, key, e, k);
    LookupDrop(put, n, k);
    if |store| < maxStore {
      assert n == 0 && next == put;
    }
  }

  /** What one call for `key` does to the entry of any key k; it can be lost only to an eviction. */
  lemma StepCases(store: Store, cap: Capacity, key: string, o: Options, now: int, next: Store, r: Outcome, k: string)
    requires Distinct(store) && (next, r) == MemoryStep(store, cap, key, o, now)
    ensures var before := Lookup(store, key);
            var expected :=
              if k != key || !r.allowed then Lookup(store, k)
              else if before.None? || before.value.resetAt <= now then Some(Entry(1, now + o.windowMs))
              else Some(Entry(before.value.count + 1, before.value.resetAt));
            && Distinct(next)
            && (Lookup(next, k) == expected || (Lookup(next, k).None? && r.allowed && |store| >= cap.maxStore))
            && (r.allowed && before.Some? && before.value.resetAt > now ==> before.value.count < o.max)
  {
    var entry := Lookup(store, key);
    if |store| >= cap.maxQueue {
    } else if entry.None? || entry.value.resetAt <= now {
      var e := Entry(1, now + o.windowMs);
      PutThenEvict(store, key, e, cap.maxStore, next, k);
    } else if entry.value.count < o.max {
      var e := Entry(entry.value.count + 1, entry.value.resetAt);
      assert next == Put(store, key, e);
      PutDistinct(store, key, e);
      LookupPut(store, key, e, k);
    }
  }

  /* ------------------------------- Redis counter ----------------------------- */

  datatype Counter = Counter(count: int, expireAt: Option<int>)

  ghost predicate Exists(db: map<string, Counter>, k: string, now: int) {
    k in db && (db[k].expireAt.Some? ==> now < db[k].expireAt.value)
  }

  /** One Redis-backed call: INCR, PTTL, and PEXPIRE when there is no expiry (which deletes when windowMs <= 0). */
  ghost function RedisStep(db: map<string, Counter>, k: string, o: Options, now: int): (map<string, Counter>, Outcome) {
    var before := if Exists(db, k, now) then db[k] else Counter(0, None);
    var count := before.count + 1;
    var expireAt := if before.expireAt.Some? then before.expireAt.value else now + o.windowMs;
    (if o.windowMs <= 0 && before.expireAt.None? then db - {k} else db[k := Counter(count, Some(expireAt))],
     if count > o.max then Outcome(false, 0, expireAt) else Outcome(true, Max(o.max - count, 0), expireAt))
  }

  /** Which of the three commands fails, if any; PEXPIRE can only fail where it is sent. */
  datatype Failure = NoFailure | AtIncr | AtPTtl | AtPExpire

  function Incremented(before: Counter): Counter {
    before.(count := before.count + 1)
  }

  /** A Redis-backed call that may fail: what it leaves, and None where it throws. */
  ghost function RedisTry(db: map<string, Counter>, k: string, o: Options, now: int, fails: Failure): (map<string, Counter>, Option<Outcome>) {
    var before := if Exists(db, k, now) then db[k] else Counter(0, None);
    if fails == AtIncr then (db, None)
    else if fails == AtPTtl || (fails == AtPExpire && before.expireAt.None?) then (db[k := Incremented(before)], None)
    else var (next, r) := RedisStep(db, k, o, now); (next, Some(r))
  }

  /** The Redis commands the limiter uses, each atomic. */
  class RedisServer {
    var db: map<string, Counter>

    method Expire(k: string, now: int)
      modifies this
      ensures db == if k in old(db) && !Exists(old(db), k, now) then old(db) - {k} else old(db)
    {
      if k in db && db[k].expireAt.Some? && db[k].expireAt.value <= now {
        db := db - {k};
      }
    }

    method Incr(k: string, now: int) returns (count: int)
      modifies this
      ensures var before := if Exists(old(db), k, now) then old(db)[k] else Counter(0, None);
              && count == before.count + 1
              && db == old(db)[k := Counter(count, before.expireAt)]
    {
      Expire(k, now);
      count := if k in db then db[k].count + 1 else 1;
      db := db[k := Counter(count, if k in db then db[k].expireAt else None)];
    }

    method PTtl(k: string, now: int) returns (ttl: int)
      modifies this
      ensures !Exists(old(db), k, now) ==> ttl == -2 && db == old(db) - {k}
      ensures Exists(old(db), k, now) ==> db == old(db)
      ensures Exists(old(db), k, now) && db[k].expireAt.None? ==> ttl == -1
      ensures Exists(old(db), k, now) && db[k].expireAt.Some? ==> ttl == db[k].expireAt.value - now > 0
    {
      Expire(k, now);
      if k !in db {
        assert old(db) - {k} == old(db) || !Exists(old(db), k, now);
        return -2;
      }
      ttl := if db[k].expireAt.None? then -1 else db[k].expireAt.value - now;
    }

    method PExpire(k: string, ms: int, now: int)
      modifies this
      ensures !Exists(old(db), k, now) ==> db == old(db) - {k}
      ensures Exists(old(db), k, now) ==>
                db == if ms <= 0 then old(db) - {k} else old(db)[k := old(db)[k].(expireAt := Some(now + ms))]
    {
      Expire(k, now);
      if k in db {
        if ms <= 0 {
          db := db - {k};
        } else {
          db := db[k := db[k].(expireAt := Some(now + ms))];
        }
      } else {
        assert old(db) - {k} == old(db) || !Exists(old(db), k, now);
      }
    }
  }

  /** The module state of lib/rate-limit.ts. */
  class RateLimiter {
    var store: Store
    const cap: Capacity
    const redis: RedisServer?   // null when REDIS_URL is not set

    constructor (cap: Capacity, redis: RedisServer?)
      ensures Valid() && store == [] && this.cap == cap && this.redis == redis
    {
      store := [];
      this.cap := cap;
      this.redis := redis;
    }

    ghost predicate Valid()
      reads this
    {
      Distinct(store) && |store| <= Max(0, Min(cap.maxStore, cap.maxQueue))
    }

    method PruneExpiredEntries(now: int)
      requires Valid()
      modifies this`store
      ensures Valid() && store == Pruned(old(store), now)
    {
      ghost var was := store;
      var visiting := store;
      var live := (it: Item<Entry>) => it.value.resetAt > now;
      FilterVisited(was, live);
      var i := 0;
      while i < |visiting|
        invariant 0 <= i <= |visiting| && visiting == was
        invariant store == HalfFiltered(was, live, i) && Distinct(store)
      {
        FilterVisit(was, live, i);
        if visiting[i].value.resetAt <= now {
          store := Delete(store, visiting[i].key);
        }
        i := i + 1;
      }
    }

    method EvictOldestIfNeeded()
      requires Distinct(store)
      modifies this`store
      ensures Distinct(store) && store == Evicted(old(store), cap.maxStore)
    {
      if |store| <= cap.maxStore {
        return;
      }
      ghost var was := store;
      var toEvict := |store| - cap.maxStore;
      var evicted := 0;
      while store != [] && evicted < toEvict
        invariant 0 <= evicted <= |was| && evicted <= toEvict
        invariant store == was[evicted..] && Distinct(store)
        decreases |store|
      {
        DeleteHead(store);
        store := Delete(store, store[0].key);
        evicted := evicted + 1;
      }
    }

    /** `fails` is the environment's choice of which command throws; `failClosed` is shouldFailClosedOnRedisError(key). */
    method RateLimit(key: string, o: Options, now: int, fails: Failure, failClosed: bool) returns (r: Outcome)
      requires Valid()
      modifies this`store, if redis == null then {} else {redis}
      ensures Valid()
      ensures redis != null ==> redis.db == RedisTry(old(redis.db), "rl:" + key, o, now, fails).0
      ensures var answer := if redis == null then None else RedisTry(old(redis.db), "rl:" + key, o, now, fails).1;
              if answer.Some? then store == old(store) && r == answer.value
              else if redis != null && failClosed then store == old(store) && r == Outcome(false, 0, now + o.windowMs)
              else (store, r) == MemoryStep(old(store), cap, "rl:" + key, o, now)
    {
      if redis != null {
        var answer := CountInRedis(redis, "rl:" + key, o, now, fails);
        if answer.Some? {
          return answer.value;
        }
        if failClosed {
          return Outcome(false, 0, now + o.windowMs);
        }
      }
      r := CountInMemory("rl:" + key, o, now);
    }

    /** None: a command threw, and those before it stand. */
    static method CountInRedis(redis: RedisServer, scopedKey: string, o: Options, now: int, fails: Failure) returns (r: Option<Outcome>)
      modifies redis
      ensures (redis.db, r) == RedisTry(old(redis.db), scopedKey, o, now, fails)
    {
      if fails == AtIncr {
        return None;
      }
      var count := redis.Incr(scopedKey, now);
      if fails == AtPTtl {
        return None;
      }
      var pttl := redis.PTtl(scopedKey, now);
      if pttl == -1 || pttl == -2 {
        if fails == AtPExpire {
          return None;
        }
        redis.PExpire(scopedKey, o.windowMs, now);
        pttl := o.windowMs;
        assert o.windowMs <= 0 ==> redis.db == old(redis.db) - {scopedKey};
      }
      assert redis.db == RedisStep(old(redis.db), scopedKey, o, now).0;
      if count > o.max {
        return Some(Outcome(false, 0, now + pttl));
      }
      r := Some(Outcome(true, Max(o.max - count, 0), now + pttl));
    }

    method CountInMemory(scopedKey: string, o: Options, now: int) returns (r: Outcome)
      requires Valid()
      modifies this`store
      ensures Valid() && (store, r) == MemoryStep(old(store), cap, scopedKey, o, now)
    {
      StepKeepsCapacity(store, cap, scopedKey, o, now);
      if |store| >= cap.maxQueue {
        return Outcome(false, 0, now + o.windowMs);
      }
      var found := Lookup(store, scopedKey);
      if found.None? || found.value.resetAt <= now {
        var resetAt := now + o.windowMs;
        PutDistinct(store, scopedKey, Entry(1, resetAt));
        store := Put(store, scopedKey, Entry(1, resetAt));
        EvictOldestIfNeeded();
        return Outcome(true, Max(o.max - 1, 0), resetAt);
      }
      var entry := found.value;
      if entry.count >= o.max {
        return Outcome(false, 0, entry.resetAt);
      }
      entry := entry.(count := entry.count + 1);
      store := Put(store, scopedKey, entry);
      r := Outcome(true, Max(o.max - entry.count, 0), entry.resetAt);
    }
  }

  /* ----------------------------------- runs ---------------------------------- */

  /** What happens to the in-memory store: calls for any (scoped) keys, and the cleanup timer. */
  datatype Event = Request(key: string, now: int) | Prune(now: int)

  function Apply(store: Store, cap: Capacity, opts: string -> Options, e: Event): (Store, Option<Outcome>) {
    match e
    case Request(key, now) => var (next, r) := MemoryStep(store, cap, key, opts(key), now); (next, Some(r))
    case Prune(now) => (Pruned(store, now), None)
  }

  ghost predicate TimesFrom(events: seq<Event>, start: int)
    decreases |events|
  {
    events == [] || (start <= events[0].now && TimesFrom(events[1..], events[0].now))
  }

  /** How many requests for `key` in the closed interval [a, b] a run allows. */
  function AllowedIn(store: Store, cap: Capacity, opts: string -> Options, events: seq<Event>,
                     key: string, a: int, b: int): nat
    decreases |events|
  {
    if events == [] then 0
    else
      var (next, r) := Apply(store, cap, opts, events[0]);
      (if events[0].Request? && events[0].key == key && a <= events[0].now <= b && r.value.allowed then 1 else 0)
      + AllowedIn(next, cap, opts, events[1..], key, a, b)
  }

  /** No step of the run evicts the key's entry: it disappears only by being pruned. */
  ghost predicate NotEvicted(store: Store, cap: Capacity, opts: string -> Options, events: seq<Event>, key: string)
    decreases |events|
  {
    events == [] ||
    (&& SparesKey(store, cap, opts, events[0], key)
     && NotEvicted(Apply(store, cap, opts, events[0]).0, cap, opts, events[1..], key))
  }

  ghost predicate SparesKey(store: Store, cap: Capacity, opts: string -> Options, e: Event, key: string) {
    var (next, r) := Apply(store, cap, opts, e);
    e.Request? && (Lookup(store, key).Some? || (e.key == key && r.value.allowed)) ==>
      Lookup(next, key).Some?
  }

  /** What a call does to the entry of its own key: the limiter for a single key. */
  ghost predicate EntryStep(before: Option<Entry>, o: Options, now: int, r: Outcome, after: Option<Entry>) {
    if !r.allowed then after == before
    else if before.None? || before.value.resetAt <= now then after == Some(Entry(1, now + o.windowMs))
    else after == Some(Entry(before.value.count + 1, before.value.resetAt)) && before.value.count < o.max
  }

  lemma OwnStep(store: Store, cap: Capacity, opts: string -> Options, now: int, key: string)
    requires Distinct(store) && SparesKey(store, cap, opts, Request(key, now), key)
    ensures var (next, r) := MemoryStep(store, cap, key, opts(key), now);
            EntryStep(Lookup(store, key), opts(key), now, r, Lookup(next, key))
  {
    var (next, r) := MemoryStep(store, cap, key, opts(key), now);
    StepCases(store, cap, key, opts(key), now, next, r, key);
  }

  /** A step for another key, or a cleanup, leaves the key's entry alone unless it had expired. */
  lemma OtherStep(store: Store, cap: Capacity, opts: string -> Options, e: Event, key: string)
    requires Distinct(store) && SparesKey(store, cap, opts, e, key)
    requires e.Request? ==> e.key != key
    ensures var after := Lookup(Apply(store, cap, opts, e).0, key);
            var before := Lookup(store, key);
            after == before || (e.Prune? && after.None? && before.value.resetAt <= e.now)
  {
    if e.Prune? {
      LookupFilter(store, (it: Item<Entry>) => it.value.resetAt > e.now, key);
    } else {
      var (next, r) := MemoryStep(store, cap, e.key, opts(e.key), e.now);
      StepCases(store, cap, e.key, opts(e.key), e.now, next, r, key);
    }
  }

  /** The most requests an entry can still let through in [t, t + w], seen from time `now`. */
  ghost function Budget(entry: Option<Entry>, now: int, t: int, w: int, m: int): int {
    if now > t + w then 0
    else if entry.None? || entry.value.resetAt <= now then (if now > t then m else 2 * m)
    else if entry.value.resetAt <= t then 2 * m
    else if entry.value.resetAt <= t + w then 2 * m - entry.value.count
    else m - entry.value.count
  }

  ghost predicate EntryOk(entry: Option<Entry>, m: int) {
    entry.Some? ==> 1 <= entry.value.count <= m
  }

  /** Each allowed request in the interval costs one unit of budget, and nothing ever adds to it. */
  lemma BudgetPays(before: Option<Entry>, o: Options, was: int, now: int, r: Outcome, after: Option<Entry>, t: int)
    requires o.windowMs >= 1 && was <= now
    requires EntryOk(before, Max(1, o.max)) && EntryStep(before, o, now, r, after)
    ensures EntryOk(after, Max(1, o.max))
    ensures Budget(after, now, t, o.windowMs, Max(1, o.max)) + (if r.allowed && t <= now <= t + o.windowMs then 1 else 0)
              <= Budget(before, was, t, o.windowMs, Max(1, o.max))
  {
  }

  lemma {:induction false} BudgetBounds(store: Store, cap: Capacity, opts: string -> Options, events: seq<Event>,
                                        key: string, now: int, t: int)
    requires opts(key).windowMs >= 1 && Distinct(store)
    requires TimesFrom(events, now) && NotEvicted(store, cap, opts, events, key)
    requires EntryOk(Lookup(store, key), Max(1, opts(key).max))
    ensures AllowedIn(store, cap, opts, events, key, t, t + opts(key).windowMs)
              <= Budget(Lookup(store, key), now, t, opts(key).windowMs, Max(1, opts(key).max))
    decreases |events|
  {
    if events != [] {
      var e := events[0];
      var (next, r) := Apply(store, cap, opts, e);
      var before, after := Lookup(store, key), Lookup(next, key);
      ApplyKeepsDistinct(store, cap, opts, e);
      if e.Request? && e.key == key {
        OwnStep(store, cap, opts, e.now, key);
        BudgetPays(before, opts(key), now, e.now, r.value, after, t);
      } else {
        OtherStep(store, cap, opts, e, key);
      }
      BudgetBounds(next, cap, opts, events[1..], key, e.now, t);
    }
  }

  lemma ApplyKeepsDistinct(store: Store, cap: Capacity, opts: string -> Options, e: Event)
    requires Distinct(store)
    ensures Distinct(Apply(store, cap, opts, e).0)
  {
    match e
    case Request(key, now) =>
      var (next, r) := MemoryStep(store, cap, key, opts(key), now);
      StepCases(store, cap, key, opts(key), now, next, r, key);
    case Prune(now) => FilterDistinct(store, (it: Item<Entry>) => it.value.resetAt > now);
  }

  /** Any closed interval as long as the window holds at most twice the allowance, over every run with
      non-decreasing time in which the key is not evicted. */
  lemma SlidingWindow(cap: Capacity, opts: string -> Options, events: seq<Event>, key: string, start: int, t: int)
    requires opts(key).windowMs >= 1
    requires TimesFrom(events, start) && NotEvicted([], cap, opts, events, key)
    ensures AllowedIn([], cap, opts, events, key, t, t + opts(key).windowMs) <= 2 * Max(1, opts(key).max)
  {
    BudgetBounds([], cap, opts, events, key, start, t);
  }

  /** n requests for a key at one moment. */
  function Burst(key: string, now: int, n: nat): seq<Event> {
    if n == 0 then [] else [Request(key, now)] + Burst(key, now, n - 1)
  }

  /** A request within the window and the allowance is let through, and counted. */
  lemma OneCounts(store: Store, cap: Capacity, opts: string -> Options, events: seq<Event>, key: string, a: int, b: int,
                  now: int, count: nat, resetAt: int, next: Store)
    requires cap.maxStore >= 1 && cap.maxQueue > 1 && count < opts(key).max && a <= now <= b && now < resetAt
    requires store == [Item(key, Entry(count, resetAt))] && next == [Item(key, Entry(count + 1, resetAt))]
    requires events != [] && events[0] == Request(key, now)
    ensures AllowedIn(store, cap, opts, events, key, a, b) == 1 + AllowedIn(next, cap, opts, events[1..], key, a, b)
  {
    assert Put(store, key, Entry(count + 1, resetAt)) == next;
    assert Apply(store, cap, opts, events[0]) == (next, Some(Outcome(true, Max(opts(key).max - (count + 1), 0), resetAt)));
  }

  /** A burst at one moment lets through what is left of the window's allowance. */
  lemma {:induction false} BurstCounts(store: Store, cap: Capacity, opts: string -> Options, events: seq<Event>, key: string, a: int, b: int,
                                       now: int, count: nat, resetAt: int, n: nat, rest: seq<Event>, after: Store)
    requires cap.maxStore >= 1 && cap.maxQueue > 1 && count + n <= opts(key).max && a <= now <= b && now < resetAt
    requires store == [Item(key, Entry(count, resetAt))] && after == [Item(key, Entry(count + n, resetAt))]
    requires events == Burst(key, now, n) + rest
    ensures AllowedIn(store, cap, opts, events, key, a, b) == n + AllowedIn(after, cap, opts, rest, key, a, b)
    decreases n
  {
    if n == 0 {
      assert events == rest;
    } else {
      var next := [Item(key, Entry(count + 1, resetAt))];
      assert events[0] == Request(key, now) && events[1..] == Burst(key, now, n - 1) + rest;
      OneCounts(store, cap, opts, events, key, a, b, now, count, resetAt, next);
      BurstCounts(next, cap, opts, events[1..], key, a, b, now, count + 1, resetAt, n - 1, rest, after);
    }
  }

  /** A request that opens a window is let through, and is the first counted in it. */
  lemma FirstCounts(store: Store, cap: Capacity, opts: string -> Options, events: seq<Event>, key: string, a: int, b: int,
                    now: int, e: Entry, next: Store)
    requires cap.maxStore >= 1 && cap.maxQueue > 1 && a <= now <= b && e.resetAt <= now
    requires store == [] || store == [Item(key, e)]
    requires next == [Item(key, Entry(1, now + opts(key).windowMs))]
    requires events != [] && events[0] == Request(key, now)
    ensures AllowedIn(store, cap, opts, events, key, a, b) == 1 + AllowedIn(next, cap, opts, events[1..], key, a, b)
  {
    assert Put(store, key, Entry(1, now + opts(key).windowMs)) == next;
    assert Evicted(next, cap.maxStore) == next;
    assert Apply(store, cap, opts, events[0]) == (next, Some(Outcome(true, Max(opts(key).max - 1, 0), now + opts(key).windowMs)));
  }

  /** As many requests as are allowed, when a window opens, are all let through. */
  lemma WindowCounts(store: Store, cap: Capacity, opts: string -> Options, key: string, a: int, b: int,
                     now: int, e: Entry, end: int, rest: seq<Event>)
    requires cap.maxStore >= 1 && cap.maxQueue > 1 && opts(key).max >= 1 && end == now + opts(key).windowMs > now
    requires a <= now <= b && e.resetAt <= now && (store == [] || store == [Item(key, e)])
    ensures AllowedIn(store, cap, opts, Burst(key, now, opts(key).max) + rest, key, a, b)
            == opts(key).max + AllowedIn([Item(key, Entry(opts(key).max, end))], cap, opts, rest, key, a, b)
  {
    var max := opts(key).max;
    var events := Burst(key, now, max) + rest;
    var next := [Item(key, Entry(1, end))];
    assert events[0] == Request(key, now) && events[1..] == Burst(key, now, max - 1) + rest;
    FirstCounts(store, cap, opts, events, key, a, b, now, e, next);
    BurstCounts(next, cap, opts, events[1..], key, a, b, now, 1, end, max - 1, rest, [Item(key, Entry(max, end))]);
  }

  /** The factor two is reached, for every window and allowance: as many requests as are allowed at the start of a window,
      and as many again at its end, are all let through. */
  lemma TwiceIsReached(key: string, cap: Capacity, opts: string -> Options, now: int, end: int, max: nat, first: seq<Event>, second: seq<Event>)
    requires cap.maxStore >= 1 && cap.maxQueue > 1 && max == opts(key).max >= 1 && end == now + opts(key).windowMs > now
    requires first == Burst(key, now, max) && second == Burst(key, end, max)
    ensures AllowedIn([], cap, opts, first + second, key, now, end) == 2 * max
  {
    WindowCounts([], cap, opts, key, now, end, now, Entry(0, now), end, second);
    var store := [Item(key, Entry(max, end))];
    assert second + [] == second;
    WindowCounts(store, cap, opts, key, now, end, end, Entry(max, end), end + opts(key).windowMs, []);
  }

  /* ------------------- the memory limiter refines the Redis one --------------- */

  /** Redis for the same events; the cleanup timer does not exist there. */
  ghost function RedisRun(db: map<string, Counter>, opts: string -> Options, events: seq<Event>): seq<Option<Outcome>>
    decreases |events|
  {
    if events == [] then []
    else if events[0].Prune? then [None] + RedisRun(db, opts, events[1..])
    else
      var (next, r) := RedisStep(db, events[0].key, opts(events[0].key), events[0].now);
      [Some(r)] + RedisRun(next, opts, events[1..])
  }

  function MemoryRun(store: Store, cap: Capacity, opts: string -> Options, events: seq<Event>): seq<Option<Outcome>>
    decreases |events|
  {
    if events == [] then []
    else
      var (next, r) := Apply(store, cap, opts, events[0]);
      [r] + MemoryRun(next, cap, opts, events[1..])
  }

  /** Every call of the run finds room for one more entry. */
  ghost predicate BelowCapacity(store: Store, cap: Capacity, opts: string -> Options, events: seq<Event>)
    decreases |events|
  {
    events == [] ||
    (&& (events[0].Request? ==> |store| < Min(cap.maxStore, cap.maxQueue))
     && BelowCapacity(Apply(store, cap, opts, events[0]).0, cap, opts, events[1..]))
  }

  /** Either neither side sees a live counter, or the memory count is the Redis count cut off at max. */
  ghost predicate Matches(entry: Option<Entry>, db: map<string, Counter>, k: string, max: int, now: int) {
    if entry.None? || entry.value.resetAt <= now then !Exists(db, k, now)
    else
      && Exists(db, k, now)
      && db[k].expireAt == Some(entry.value.resetAt)
      && db[k].count >= 1
      && entry.value.count == Min(db[k].count, max)
  }

  ghost predicate AllMatch(store: Store, db: map<string, Counter>, opts: string -> Options, now: int) {
    forall key: string :: Matches(Lookup(store, key), db, key, opts(key).max, now)
  }

  /** Time passing and the cleanup timer cannot be observed. */
  lemma PassTime(store: Store, db: map<string, Counter>, opts: string -> Options, was: int, now: int)
    requires Distinct(store) && AllMatch(store, db, opts, was) && was <= now
    ensures AllMatch(store, db, opts, now) && AllMatch(Pruned(store, now), db, opts, now)
  {
    forall key: string
      ensures Matches(Lookup(store, key), db, key, opts(key).max, now)
      ensures Matches(Lookup(Pruned(store, now), key), db, key, opts(key).max, now)
    {
      assert Matches(Lookup(store, key), db, key, opts(key).max, was);
      LookupFilter(store, (it: Item<Entry>) => it.value.resetAt > now, key);
    }
  }

  lemma OwnEntryMatches(store: Store, db: map<string, Counter>, cap: Capacity, key: string, o: Options, now: int)
    requires Distinct(store) && |store| < Min(cap.maxStore, cap.maxQueue) && o.max >= 1
    requires Matches(Lookup(store, key), db, key, o.max, now)
    ensures var (store', m) := MemoryStep(store, cap, key, o, now);
            var (db', r) := RedisStep(db, key, o, now);
            m == r && Matches(Lookup(store', key), db', key, o.max, now)
  {
    var (next, r) := MemoryStep(store, cap, key, o, now);
    StepCases(store, cap, key, o, now, next, r, key);
  }

  lemma RequestMatches(store: Store, db: map<string, Counter>, cap: Capacity, opts: string -> Options, key: string, now: int)
    requires Distinct(store) && |store| < Min(cap.maxStore, cap.maxQueue)
    requires AllMatch(store, db, opts, now) && opts(key).max >= 1
    ensures var (store', m) := MemoryStep(store, cap, key, opts(key), now);
            var (db', r) := RedisStep(db, key, opts(key), now);
            m == r && AllMatch(store', db', opts, now)
  {
    var (store', r) := MemoryStep(store, cap, key, opts(key), now);
    var db' := RedisStep(db, key, opts(key), now).0;
    assert Matches(Lookup(store, key), db, key, opts(key).max, now);
    OwnEntryMatches(store, db, cap, key, opts(key), now);
    forall other: string
      ensures Matches(Lookup(store', other), db', other, opts(other).max, now)
    {
      if other != key {
        assert Matches(Lookup(store, other), db, other, opts(other).max, now);
        StepCases(store, cap, key, opts(key), now, store', r, other);
      }
    }
  }

  /** For positive allowances and below capacity, both limiters answer every request of every run alike, with
      the cleanup timer firing at any point. */
  lemma {:induction false} MemoryRefinesRedis(store: Store, db: map<string, Counter>, cap: Capacity,
                                              opts: string -> Options, events: seq<Event>, now: int)
    requires forall key: string :: opts(key).max >= 1
    requires TimesFrom(events, now) && BelowCapacity(store, cap, opts, events)
    requires Distinct(store) && AllMatch(store, db, opts, now)
    ensures MemoryRun(store, cap, opts, events) == RedisRun(db, opts, events)
    decreases |events|
  {
    if events != [] {
      var e := events[0];
      PassTime(store, db, opts, now, e.now);
      ApplyKeepsDistinct(store, cap, opts, e);
      var store' := Apply(store, cap, opts, e).0;
      if e.Prune? {
        MemoryRefinesRedis(store', db, cap, opts, events[1..], e.now);
      } else {
        RequestMatches(store, db, cap, opts, e.key, e.now);
        MemoryRefinesRedis(store', RedisStep(db, e.key, opts(e.key), e.now).0, cap, opts, events[1..], e.now);
      }
    }
  }

  /** Both start empty, and then match. */
  lemma EmptyStoresAgree(cap: Capacity, opts: string -> Options, events: seq<Event>, start: int)
    requires forall key: string :: opts(key).max >= 1
    requires TimesFrom(events, start) && BelowCapacity([], cap, opts, events)
    ensures MemoryRun([], cap, opts, events) == RedisRun(map[], opts, events)
  {
    MemoryRefinesRedis([], map[], cap, opts, events, start);
  }

  /** On a first request the two agree exactly when the allowance is positive: otherwise memory still lets it through. */
  lemma FirstRequestAgreesIff(cap: Capacity, key: string, o: Options, now: int)
    requires cap.maxStore >= 1 && cap.maxQueue >= 1
    ensures MemoryStep([], cap, key, o, now).1 == RedisStep(map[], key, o, now).1 <==> o.max >= 1
  {
  }

  /* ------------------------------- what is stored ----------------------------- */

  /** Pruning drops exactly the entries whose window has ended. */
  lemma PruneIsExact(store: Store, now: int, key: string)
    requires Distinct(store)
    ensures var before := Lookup(store, key);
            Lookup(Pruned(store, now), key) == if before.Some? && now < before.value.resetAt then before else None
  {
    LookupFilter(store, (it: Item<Entry>) => it.value.resetAt > now, key);
  }

  /** A first request on a full store costs the entry that was inserted first its place, and no other; the new one goes last. */
  lemma EvictsTheOldest(store: Store, cap: Capacity, k: string, o: Options, now: int)
    requires Distinct(store) && Lookup(store, k).None? && 1 <= cap.maxStore && |store| <= cap.maxStore && |store| < cap.maxQueue
    ensures MemoryStep(store, cap, k, o, now).0 ==
              (if |store| == cap.maxStore then store[1..] else store) + [Item(k, Entry(1, now + o.windowMs))]
  {
    PutShape(store, k, Entry(1, now + o.windowMs));
  }

  /* ------------------------------ what is answered ---------------------------- */

  /** Nothing but requests for k, all before `end`. */
  ghost predicate AllWithin(events: seq<Event>, k: string, end: int) {
    forall i | 0 <= i < |events| :: events[i].Request? && events[i].key == k && events[i].now < end
  }

  lemma {:induction false} RestOfWindow(db: map<string, Counter>, opts: string -> Options, events: seq<Event>, k: string, count: int,
                                        end: int, i: nat)
    requires k in db && db[k] == Counter(count, Some(end)) && AllWithin(events, k, end) && i < |events|
    ensures i < |RedisRun(db, opts, events)|
    ensures RedisRun(db, opts, events)[i] ==
              Some(Outcome(count + i < opts(k).max, Max(opts(k).max - (count + 1 + i), 0), end))
    decreases i
  {
    var next := RedisStep(db, k, opts(k), events[0].now).0;
    if i > 0 {
      RestOfWindow(next, opts, events[1..], k, count + 1, end, i - 1);
      assert RedisRun(db, opts, events)[1..] == RedisRun(next, opts, events[1..]);
    }
  }

  /** The requests of one window: the first max are let through, each is told how many are left, and all are told the end of
      the window, which is windowMs after the first. */
  lemma WindowAnswers(db: map<string, Counter>, opts: string -> Options, events: seq<Event>, k: string, start: int, end: int, i: nat)
    requires opts(k).windowMs >= 1 && end == start + opts(k).windowMs && !Exists(db, k, start)
    requires AllWithin(events, k, end) && i < |events| && events[0].now == start
    ensures i < |RedisRun(db, opts, events)|
    ensures RedisRun(db, opts, events)[i] == Some(Outcome(i < opts(k).max, Max(opts(k).max - 1 - i, 0), end))
  {
    var next := RedisStep(db, k, opts(k), start).0;
    if i > 0 {
      RestOfWindow(next, opts, events[1..], k, 1, end, i - 1);
      assert RedisRun(db, opts, events)[1..] == RedisRun(next, opts, events[1..]);
    }
  }

  /* ------------------------------ callers are separate ------------------------ */

  lemma PrefixedDiffer(a: string, b: string)
    ensures "rl:" + a == "rl:" + b ==> a == b
  {
    assert ("rl:" + a)[3..] == a && ("rl:" + b)[3..] == b;
  }

  /** A call for one caller key leaves the counter of every other one alone, in Redis and, unless it is evicted, in memory;
      so does a failing one. */
  lemma OtherCallersUntouched(store: Store, db: map<string, Counter>, cap: Capacity, o: Options, now: int, fails: Failure,
                              key: string, other: string)
    requires Distinct(store) && key != other
    ensures var (next, r) := MemoryStep(store, cap, "rl:" + key, o, now);
            Lookup(next, "rl:" + other) == Lookup(store, "rl:" + other)
            || (Lookup(next, "rl:" + other).None? && r.allowed && |store| >= cap.maxStore)
    ensures var next := RedisTry(db, "rl:" + key, o, now, fails).0;
            ("rl:" + other in next <==> "rl:" + other in db) && ("rl:" + other in db ==> next["rl:" + other] == db["rl:" + other])
  {
    PrefixedDiffer(key, other);
    var (next, r) := MemoryStep(store, cap, "rl:" + key, o, now);
    StepCases(store, cap, "rl:" + key, o, now, next, r, "rl:" + other);
  }

  /** The requests of callers, as requests for the keys of the two stores. */
  function Scoped(events: seq<Event>): seq<Event> {
    if events == [] then []
    else [if events[0].Request? then Request("rl:" + events[0].key, events[0].now) else events[0]] + Scoped(events[1..])
  }

  /** The run with all callers but one taken out. */
  function Only(events: seq<Event>, key: string): seq<Event> {
    if events == [] then []
    else (if events[0].Request? && events[0].key != key then [] else [events[0]]) + Only(events[1..], key)
  }

  /** The answers one caller gets. */
  function AnswersTo(events: seq<Event>, answers: seq<Option<Outcome>>, key: string): seq<Option<Outcome>> {
    if events == [] || answers == [] then []
    else
      (if events[0].Request? && events[0].key == key then [answers[0]] else [])
      + AnswersTo(events[1..], answers[1..], key)
  }

  /** The part of the store that one key sees. */
  function View(store: Store, k: string): Store {
    var e := Lookup(store, k);
    if e.Some? then [Item(k, e.value)] else []
  }

  /** The entry a request writes when there is room for it (None: it writes none), and its answer. */
  function WithRoom(entry: Option<Entry>, o: Options, now: int): (Option<Entry>, Outcome) {
    if entry.None? || entry.value.resetAt <= now then
      (Some(Entry(1, now + o.windowMs)), Outcome(true, Max(o.max - 1, 0), now + o.windowMs))
    else if entry.value.count >= o.max then (None, Outcome(false, 0, entry.value.resetAt))
    else
      var e := Entry(entry.value.count + 1, entry.value.resetAt);
      (Some(e), Outcome(true, Max(o.max - e.count, 0), e.resetAt))
  }

  lemma StepWithRoom(store: Store, cap: Capacity, k: string, o: Options, now: int, e: Option<Entry>, r: Outcome)
    requires Distinct(store) && |store| < Min(cap.maxStore, cap.maxQueue) && (e, r) == WithRoom(Lookup(store, k), o, now)
    ensures MemoryStep(store, cap, k, o, now) == (if e.Some? then Put(store, k, e.value) else store, r)
  {
    if e.Some? {
      PutDistinct(store, k, e.value);
      assert Evicted(Put(store, k, e.value), cap.maxStore) == Put(store, k, e.value);
    }
  }

  lemma PutView(store: Store, k: string, e: Entry)
    ensures Put(View(store, k), k, e) == View(Put(store, k, e), k)
  {
    LookupPut(store, k, e, k);
    assert Put(View(store, k), k, e) == [Item(k, e)];
  }

  /** With room for one more entry, a request sees only its own key's part of the store. */
  lemma OwnView(store: Store, cap: Capacity, k: string, o: Options, now: int)
    requires Distinct(store) && |store| < Min(cap.maxStore, cap.maxQueue)
    ensures var (next, r) := MemoryStep(store, cap, k, o, now);
            MemoryStep(View(store, k), cap, k, o, now) == (View(next, k), r)
  {
    var view := View(store, k);
    var (e, r) := WithRoom(Lookup(store, k), o, now);
    assert |view| <= |store| && Lookup(view, k) == Lookup(store, k);
    StepWithRoom(store, cap, k, o, now, e, r);
    StepWithRoom(view, cap, k, o, now, e, r);
    if e.Some? {
      PutView(store, k, e.value);
    }
  }

  lemma PruneView(store: Store, now: int, k: string)
    requires Distinct(store)
    ensures Pruned(View(store, k), now) == View(Pruned(store, now), k)
  {
    var live := (it: Item<Entry>) => it.value.resetAt > now;
    LookupFilter(store, live, k);
    if Lookup(store, k).Some? {
      var it: Item<Entry> := Item(k, Lookup(store, k).value);
      assert [it][1..] == [];
      assert Filter([it], live) == if live(it) then [it] else [];
    }
  }

  lemma FirstScoped(events: seq<Event>)
    requires events != []
    ensures Scoped(events)[1..] == Scoped(events[1..])
    ensures Scoped(events)[0] == if events[0].Request? then Request("rl:" + events[0].key, events[0].now) else events[0]
  {
  }

  /** The answers of the in-memory limiter to one caller, below capacity, are those of the run with all other callers
      taken out. */
  lemma {:induction false} MemoryProjects(store: Store, cap: Capacity, opts: string -> Options, events: seq<Event>, key: string,
                                          k: string, all: seq<Event>, own: seq<Event>)
    requires Distinct(store) && k == "rl:" + key && all == Scoped(events) && own == Scoped(Only(events, key))
    requires BelowCapacity(store, cap, opts, all)
    ensures AnswersTo(events, MemoryRun(store, cap, opts, all), key) ==
              AnswersTo(Only(events, key), MemoryRun(View(store, k), cap, opts, own), key)
    decreases |events|
  {
    if events != [] {
      var e := events[0];
      FirstScoped(events);
      var (next, r) := Apply(store, cap, opts, all[0]);
      ApplyKeepsDistinct(store, cap, opts, all[0]);
      MemoryProjects(next, cap, opts, events[1..], key, k, all[1..], Scoped(Only(events[1..], key)));
      assert MemoryRun(store, cap, opts, all)[1..] == MemoryRun(next, cap, opts, all[1..]);
      if e.Request? && e.key != key {
        PrefixedDiffer(e.key, key);
        StepCases(store, cap, all[0].key, opts(all[0].key), e.now, next, r.value, k);
        assert Only(events, key) == Only(events[1..], key);
      } else {
        KeptFirst(store, cap, opts, events, key, k, own, next, r);
      }
    }
  }

  /** The first event stays in the run of the one caller, and does there what it does in the run of all. */
  lemma KeptFirst(store: Store, cap: Capacity, opts: string -> Options, events: seq<Event>, key: string, k: string,
                  own: seq<Event>, next: Store, r: Option<Outcome>)
    requires Distinct(store) && k == "rl:" + key && events != [] && own == Scoped(Only(events, key))
    requires !(events[0].Request? && events[0].key != key)
    requires (next, r) == Apply(store, cap, opts, Scoped(events)[0])
    requires events[0].Request? ==> |store| < Min(cap.maxStore, cap.maxQueue)
    ensures var answers := MemoryRun(View(store, k), cap, opts, own);
            && Only(events, key)[1..] == Only(events[1..], key) && Only(events, key)[0] == events[0]
            && answers[0] == r && answers[1..] == MemoryRun(View(next, k), cap, opts, Scoped(Only(events[1..], key)))
  {
    var kept := Only(events, key);
    assert kept[0] == events[0] && kept[1..] == Only(events[1..], key);
    FirstScoped(events);
    FirstScoped(kept);
    if events[0].Request? {
      OwnView(store, cap, k, opts(k), events[0].now);
    } else {
      PruneView(store, events[0].now, k);
    }
    assert Apply(View(store, k), cap, opts, own[0]) == (View(next, k), r);
  }

  ghost predicate SameAt(db: map<string, Counter>, single: map<string, Counter>, k: string) {
    (k in db <==> k in single) && (k in db ==> db[k] == single[k])
  }

  ghost function RedisAfter(db: map<string, Counter>, opts: string -> Options, e: Event): map<string, Counter> {
    if e.Prune? then db else RedisStep(db, e.key, opts(e.key), e.now).0
  }

  lemma RedisUnfolds(db: map<string, Counter>, opts: string -> Options, events: seq<Event>)
    requires events != []
    ensures RedisRun(db, opts, events)[1..] == RedisRun(RedisAfter(db, opts, events[0]), opts, events[1..])
  {
  }

  /** The first event stays in the run of the one caller, and does there what it does in the run of all. */
  lemma RedisKeptFirst(db: map<string, Counter>, single: map<string, Counter>, opts: string -> Options, events: seq<Event>,
                       key: string, k: string, own: seq<Event>, next: map<string, Counter>)
    requires k == "rl:" + key && events != [] && own == Scoped(Only(events, key)) && SameAt(db, single, k)
    requires !(events[0].Request? && events[0].key != key) && next == RedisAfter(db, opts, Scoped(events)[0])
    ensures var next1 := RedisAfter(single, opts, Scoped(events)[0]);
            && Only(events, key)[1..] == Only(events[1..], key) && Only(events, key)[0] == events[0]
            && SameAt(next, next1, k)
            && RedisRun(single, opts, own)[0] == RedisRun(db, opts, Scoped(events))[0]
            && RedisRun(single, opts, own)[1..] == RedisRun(next1, opts, Scoped(Only(events[1..], key)))
  {
    var kept := Only(events, key);
    assert kept[0] == events[0] && kept[1..] == Only(events[1..], key);
    FirstScoped(events);
    FirstScoped(kept);
    RedisUnfolds(single, opts, own);
  }

  /** ... and those of the Redis limiter are so without any condition. */
  lemma {:induction false} RedisProjects(db: map<string, Counter>, single: map<string, Counter>, opts: string -> Options,
                                         events: seq<Event>, key: string, k: string, all: seq<Event>, own: seq<Event>)
    requires k == "rl:" + key && all == Scoped(events) && own == Scoped(Only(events, key)) && SameAt(db, single, k)
    ensures AnswersTo(events, RedisRun(db, opts, all), key) == AnswersTo(Only(events, key), RedisRun(single, opts, own), key)
    decreases |events|
  {
    if events != [] {
      FirstScoped(events);
      var next := RedisAfter(db, opts, all[0]);
      RedisUnfolds(db, opts, all);
      if events[0].Request? && events[0].key != key {
        PrefixedDiffer(events[0].key, key);
        assert Only(events, key) == Only(events[1..], key);
        RedisProjects(next, single, opts, events[1..], key, k, all[1..], own);
      } else {
        RedisKeptFirst(db, single, opts, events, key, k, own, next);
        RedisProjects(next, RedisAfter(single, opts, all[0]), opts, events[1..], key, k, all[1..], Scoped(Only(events[1..], key)));
      }
    }
  }

  /** What a caller is answered does not depend on the other callers: over Redis in every run, in memory in every run below
      capacity. */
  lemma CallersAreSeparate(cap: Capacity, opts: string -> Options, events: seq<Event>, key: string)
    ensures AnswersTo(events, RedisRun(map[], opts, Scoped(events)), key) ==
              AnswersTo(Only(events, key), RedisRun(map[], opts, Scoped(Only(events, key))), key)
    ensures BelowCapacity([], cap, opts, Scoped(events)) ==>
              AnswersTo(events, MemoryRun([], cap, opts, Scoped(events)), key) ==
                AnswersTo(Only(events, key), MemoryRun([], cap, opts, Scoped(Only(events, key))), key)
  {
    RedisProjects(map[], map[], opts, events, key, "rl:" + key, Scoped(events), Scoped(Only(events, key)));
    if BelowCapacity([], cap, opts, Scoped(events)) {
      MemoryProjects([], cap, opts, events, key, "rl:" + key, Scoped(events), Scoped(Only(events, key)));
    }
  }
}
