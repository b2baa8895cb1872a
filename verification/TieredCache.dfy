/**
 lib/cache/index.ts and lib/cache/redis-cache.ts: getOrSetCache over the in-process cache and Redis.

 Every synchronous stretch of getOrSetCache and every Redis command is one atomic step; any number of calls
 interleave with each other, with invalidations, with failures and with the clock.  Cached lines carry, as
 bookkeeping, when and how they were written.  A Redis key with expiry e answers while now < e.
 */
module TieredCache {
  import opened Common
  import opened OrderedMap
  import opened MemoryCache

  /** A JavaScript value as far as the cache can tell: `null` reads as a miss. */
  datatype Json = Null | Json(text: string)

  /** Where a value in memory came from: a fetch (or a direct setCachedValue) that stored it, or Redis, where it was written, read by this
      process, and then stored. */
  datatype Source = Fetched(at: int) | ViaRedis(writtenAt: int, readAt: int, storedAt: int)

  datatype Line = Line(value: Json, source: Source)

  datatype RedisLine = RedisLine(value: Json, expireAt: int, writtenAt: int)

  datatype Phase =
    | AskRedis
    | RedisReplied(value: Json, writtenAt: int, readAt: int)
    | Fetching
    | WriteBack(value: Json, fetchedAt: int)
    | Returned(value: Json, at: int, source: Source, own: bool)
    | Rejected

  datatype Call = Call(key: string, phase: Phase)

  /** One write of a value for a key: to Redis, or to memory by a fetch or a direct set. */
  datatype Write = Write(toRedis: bool, key: string, value: Json, at: int)

  datatype Config = Config(ttlMs: int, maxEntries: int, hasRedis: bool)

  datatype State = State(now: int, memory: Store<Line>, redis: map<string, RedisLine>, calls: map<nat, Call>, writes: set<Write>)

  datatype Event =
    | Tick(ms: nat)
    | Start(id: nat, key: string)
    | RedisGet(id: nat)
    | RedisGetFails(id: nat)
    | StoreReply(id: nat)
    | FetchDone(id: nat, value: Json)
    | FetchFails(id: nat)
    | RedisSet(id: nat)
    | RedisSetFails(id: nat)
    | SetCached(key: string, value: Json)
    | MemoryDel(key: string)
    | MemoryDelByPrefix(prefix: string)
    | RedisDel(key: string)

  const INIT := State(0, [], map[], map[], {})

  function Move(s: State, id: nat, p: Phase): State
    requires id in s.calls
  {
    s.(calls := s.calls[id := s.calls[id].(phase := p)])
  }

  /** One atomic step; an event that does not fit the state does nothing. */
  function Step(cfg: Config, s: State, e: Event): State {
    match e
    case Tick(ms) => s.(now := s.now + ms)
    case Start(id, key) =>
      if id in s.calls then s
      else
        var (memory, hit) := GetStep(s.memory, key, s.now);
        var phase :=
          if hit.Some? && hit.value.value != Null then Returned(hit.value.value, s.now, hit.value.source, false)
          else if cfg.hasRedis then AskRedis
          else Fetching;
        s.(memory := memory, calls := s.calls[id := Call(key, phase)])
    case RedisGet(id) =>
      if id !in s.calls || s.calls[id].phase != AskRedis then s
      else
        var key := s.calls[id].key;
        if key in s.redis && s.now < s.redis[key].expireAt && s.redis[key].value != Null
        then Move(s, id, RedisReplied(s.redis[key].value, s.redis[key].writtenAt, s.now))
        else Move(s, id, Fetching)
    case RedisGetFails(id) =>
      if id !in s.calls || s.calls[id].phase != AskRedis then s else Move(s, id, Fetching)
    case StoreReply(id) =>
      if id !in s.calls || !s.calls[id].phase.RedisReplied? then s
      else
        var p := s.calls[id].phase;
        var source := ViaRedis(p.writtenAt, p.readAt, s.now);
        Move(s, id, Returned(p.value, s.now, source, false))
          .(memory := SetStep(s.memory, cfg.maxEntries, s.calls[id].key, Line(p.value, source), cfg.ttlMs, s.now))
    case FetchDone(id, value) =>
      if id !in s.calls || s.calls[id].phase != Fetching then s
      else
        var source := Fetched(s.now);
        Move(s, id, if cfg.hasRedis then WriteBack(value, s.now) else Returned(value, s.now, source, true))
          .(memory := SetStep(s.memory, cfg.maxEntries, s.calls[id].key, Line(value, source), cfg.ttlMs, s.now),
            writes := s.writes + {Write(false, s.calls[id].key, value, s.now)})
    case FetchFails(id) =>
      if id !in s.calls || s.calls[id].phase != Fetching then s else Move(s, id, Rejected)
    case RedisSet(id) =>
      if id !in s.calls || !s.calls[id].phase.WriteBack? || cfg.ttlMs <= 0 then s
      else
        var p := s.calls[id].phase;
        Move(s, id, Returned(p.value, s.now, Fetched(p.fetchedAt), true))
          .(redis := s.redis[s.calls[id].key := RedisLine(p.value, s.now + cfg.ttlMs, s.now)],
            writes := s.writes + {Write(true, s.calls[id].key, p.value, s.now)})
    case RedisSetFails(id) =>
      if id !in s.calls || !s.calls[id].phase.WriteBack? then s
      else Move(s, id, Returned(s.calls[id].phase.value, s.now, Fetched(s.calls[id].phase.fetchedAt), true))
    case SetCached(key, value) =>
      s.(memory := SetStep(s.memory, cfg.maxEntries, key, Line(value, Fetched(s.now)), cfg.ttlMs, s.now),
         writes := s.writes + {Write(false, key, value, s.now)})
    case MemoryDel(key) => s.(memory := Delete(s.memory, key))
    case MemoryDelByPrefix(prefix) => s.(memory := DelByPrefixStep(s.memory, prefix))
    case RedisDel(key) => s.(redis := s.redis - {key})
  }

  function Run(cfg: Config, s: State, events: seq<Event>): State
    decreases |events|
  {
    if events == [] then s else Step(cfg, Run(cfg, s, events[..|events| - 1]), events[|events| - 1])
  }

  /* ------------------------------- one call alone ---------------------------- */

  /** The module state of lib/cache/index.ts: the in-process cache and the Redis it shares. */
  class TwoLayers {
    const memory: MemoryCache<Line>
    var redis: map<string, RedisLine>
    const cfg: Config

    constructor (cfg: Config, redis: map<string, RedisLine>)
      ensures memory.Valid() && memory.store == [] && memory.maxEntries == cfg.maxEntries && fresh(memory)
      ensures this.cfg == cfg && this.redis == redis
    {
      this.memory := new MemoryCache(cfg.maxEntries);
      this.cfg := cfg;
      this.redis := redis;
    }

    /** getOrSetCache run to its end without another call in between: the Redis read, its reply, the fetch and
        the write-back happen d1, d2, d3 and d4 after the step before.  None: the fetcher rejects, and so does the call. */
    method GetOrSetCache(key: string, fetched: Option<Json>, now: int, d1: nat, d2: nat, d3: nat, d4: nat,
                         readFails: bool, writeFails: bool)
      returns (r: Option<Json>)
      requires memory.Valid() && memory.maxEntries == cfg.maxEntries
      modifies this, memory
      ensures memory.Valid()
      ensures (memory.store, redis, r) ==
                Alone(cfg, old(memory.store), old(redis), key, fetched, now, d1, d2, d3, d4, readFails, writeFails)
    {
      var inMemory := memory.Get(key, now);
      if inMemory.Some? && inMemory.value.value != Null {
        return Some(inMemory.value.value);
      }
      if cfg.hasRedis && !readFails && key in redis && now + d1 < redis[key].expireAt && redis[key].value != Null {
        var inRedis := redis[key];
        memory.Set(key, Line(inRedis.value, ViaRedis(inRedis.writtenAt, now + d1, now + d1 + d2)), cfg.ttlMs, now + d1 + d2);
        return Some(inRedis.value);
      }
      if fetched.None? {
        return None;
      }
      var t := now + d1 + d2 + d3;
      memory.Set(key, Line(fetched.value, Fetched(t)), cfg.ttlMs, t);
      if cfg.hasRedis && !writeFails && cfg.ttlMs > 0 {
        redis := redis[key := RedisLine(fetched.value, t + d4 + cfg.ttlMs, t + d4)];
      }
      r := fetched;
    }
  }

  /** What a call that runs alone leaves in the two layers, and its answer. */
  function Alone(cfg: Config, memory: Store<Line>, redis: map<string, RedisLine>, key: string, fetched: Option<Json>,
                 now: int, d1: nat, d2: nat, d3: nat, d4: nat, readFails: bool, writeFails: bool)
    : (Store<Line>, map<string, RedisLine>, Option<Json>)
  {
    var (m, hit) := GetStep(memory, key, now);
    if hit.Some? && hit.value.value != Null then (m, redis, Some(hit.value.value))
    else if cfg.hasRedis && !readFails && key in redis && now + d1 < redis[key].expireAt && redis[key].value != Null then
      var stored := now + d1 + d2;
      var line := Line(redis[key].value, ViaRedis(redis[key].writtenAt, now + d1, stored));
      (SetStep(m, cfg.maxEntries, key, line, cfg.ttlMs, stored), redis, Some(redis[key].value))
    else if fetched.None? then (m, redis, None)
    else
      var t := now + d1 + d2 + d3;
      (SetStep(m, cfg.maxEntries, key, Line(fetched.value, Fetched(t)), cfg.ttlMs, t),
       if cfg.hasRedis && !writeFails && cfg.ttlMs > 0
       then redis[key := RedisLine(fetched.value, t + d4 + cfg.ttlMs, t + d4)] else redis,
       fetched)
  }

  /** A call with its answer does not move again. */
  ghost predicate Settled(s: State, id: nat) {
    id in s.calls && (s.calls[id].phase.Returned? || s.calls[id].phase == Rejected)
  }

  /** The answer of a call; None where it rejects. */
  function AnswerOf(p: Phase): Option<Json> {
    if p.Returned? then Some(p.value) else None
  }

  /** The fetcher's turn. */
  function Fetch(id: nat, fetched: Option<Json>): Event {
    if fetched.Some? then FetchDone(id, fetched.value) else FetchFails(id)
  }

  /** The first half of a call that runs alone: Start, and the Redis read d1 later. */
  ghost function Begin(cfg: Config, s: State, id: nat, key: string, d1: nat, readFails: bool): State {
    Step(cfg, Step(cfg, Step(cfg, s, Start(id, key)), Tick(d1)), if readFails then RedisGetFails(id) else RedisGet(id))
  }

  /** The second half: storing the reply, the fetch and the write-back, d2, d3 and d4 after the step before. */
  ghost function Finish(cfg: Config, s: State, id: nat, fetched: Option<Json>, d2: nat, d3: nat, d4: nat, writeFails: bool): State {
    var s3 := Step(cfg, Step(cfg, s, Tick(d2)), StoreReply(id));
    var s4 := Step(cfg, Step(cfg, s3, Tick(d3)), Fetch(id, fetched));
    Step(cfg, Step(cfg, s4, Tick(d4)), if writeFails then RedisSetFails(id) else RedisSet(id))
  }

  ghost predicate HalfWay(cfg: Config, s: State, id: nat, key: string, d1: nat, readFails: bool, t: State) {
    var (m, hit) := GetStep(s.memory, key, s.now);
    && t.memory == m && t.redis == s.redis && t.now == s.now + d1 && id in t.calls && t.calls[id].key == key
    && (if hit.Some? && hit.value.value != Null then t.calls[id].phase.Returned? && t.calls[id].phase.value == hit.value.value
        else if cfg.hasRedis && !readFails && key in s.redis && t.now < s.redis[key].expireAt && s.redis[key].value != Null
        then t.calls[id].phase == RedisReplied(s.redis[key].value, s.redis[key].writtenAt, t.now)
        else t.calls[id].phase == Fetching)
  }

  lemma AloneReads(cfg: Config, s: State, id: nat, key: string, d1: nat, readFails: bool, t: State)
    requires id !in s.calls
    requires t == Begin(cfg, s, id, key, d1, readFails)
    ensures HalfWay(cfg, s, id, key, d1, readFails, t)
  {
    var a := Step(cfg, s, Start(id, key));
    var b := Step(cfg, a, Tick(d1));
    assert b.calls == a.calls && b.memory == a.memory && b.redis == s.redis;
  }

  /** The rest of a call that is not yet settled by Redis: the fetch d2 + d3 later and the write-back d4 after it. */
  lemma AloneFetches(cfg: Config, s: State, id: nat, fetched: Option<Json>, d2: nat, d3: nat, d4: nat, writeFails: bool, t: State)
    requires id in s.calls && s.calls[id].phase == Fetching
    requires t == Finish(cfg, s, id, fetched, d2, d3, d4, writeFails || cfg.ttlMs <= 0)
    ensures Settled(t, id) && AnswerOf(t.calls[id].phase) == fetched
    ensures t.memory == if fetched.None? then s.memory
                        else SetStep(s.memory, cfg.maxEntries, s.calls[id].key, Line(fetched.value, Fetched(s.now + d2 + d3)), cfg.ttlMs, s.now + d2 + d3)
    ensures t.redis == if fetched.Some? && cfg.hasRedis && !writeFails && cfg.ttlMs > 0
                       then s.redis[s.calls[id].key := RedisLine(fetched.value, s.now + d2 + d3 + d4 + cfg.ttlMs, s.now + d2 + d3 + d4)]
                       else s.redis
  {
    var a := Step(cfg, Step(cfg, s, Tick(d2)), StoreReply(id));
    assert a == s.(now := s.now + d2);
    var b := Step(cfg, a, Tick(d3));
    assert b == s.(now := s.now + d2 + d3);
    var c := Step(cfg, b, Fetch(id, fetched));
    var d := Step(cfg, c, Tick(d4));
    assert d.calls == c.calls && d.redis == s.redis && d.memory == c.memory;
  }

  lemma AloneStores(cfg: Config, s: State, id: nat, fetched: Option<Json>, d2: nat, d3: nat, d4: nat, writeFails: bool, t: State)
    requires id in s.calls && s.calls[id].phase.RedisReplied?
    requires t == Finish(cfg, s, id, fetched, d2, d3, d4, writeFails)
    ensures var p := s.calls[id].phase;
            && Settled(t, id) && AnswerOf(t.calls[id].phase) == Some(p.value) && t.redis == s.redis
            && t.memory == SetStep(s.memory, cfg.maxEntries, s.calls[id].key,
                                   Line(p.value, ViaRedis(p.writtenAt, p.readAt, s.now + d2)), cfg.ttlMs, s.now + d2)
  {
    var a := Step(cfg, Step(cfg, s, Tick(d2)), StoreReply(id));
    assert Settled(a, id);
    AloneRests(cfg, a, id, fetched, d3, d4, writeFails);
  }

  /** Once settled, the remaining steps only let time pass. */
  lemma AloneRests(cfg: Config, s: State, id: nat, fetched: Option<Json>, d3: nat, d4: nat, writeFails: bool)
    requires Settled(s, id)
    ensures Step(cfg, Step(cfg, Step(cfg, Step(cfg, s, Tick(d3)), Fetch(id, fetched)), Tick(d4)),
                 if writeFails then RedisSetFails(id) else RedisSet(id)) == s.(now := s.now + d3 + d4)
  {
    var a := Step(cfg, Step(cfg, s, Tick(d3)), Fetch(id, fetched));
    assert a == s.(now := s.now + d3);
    var b := Step(cfg, a, Tick(d4));
    assert b == s.(now := s.now + d3 + d4);
  }

  lemma AloneSettled(cfg: Config, s: State, id: nat, fetched: Option<Json>, d2: nat, d3: nat, d4: nat, writeFails: bool, t: State)
    requires Settled(s, id) && t == Finish(cfg, s, id, fetched, d2, d3, d4, writeFails)
    ensures t == s.(now := s.now + d2 + d3 + d4)
  {
    var a := Step(cfg, Step(cfg, s, Tick(d2)), StoreReply(id));
    assert a == s.(now := s.now + d2);
    AloneRests(cfg, a, id, fetched, d3, d4, writeFails);
  }

  /** A call that runs alone is one interleaving of the system: the steps of the branches it does not take do
      nothing there. */
  lemma AloneIsARun(cfg: Config, s: State, id: nat, key: string, fetched: Option<Json>, d1: nat, d2: nat, d3: nat, d4: nat,
                    readFails: bool, writeFails: bool, half: State, t: State)
    requires id !in s.calls
    requires half == Begin(cfg, s, id, key, d1, readFails)
    requires t == Finish(cfg, half, id, fetched, d2, d3, d4, writeFails || cfg.ttlMs <= 0)
    ensures Settled(t, id)
    ensures (t.memory, t.redis, AnswerOf(t.calls[id].phase)) ==
              Alone(cfg, s.memory, s.redis, key, fetched, s.now, d1, d2, d3, d4, readFails, writeFails)
  {
    AloneReads(cfg, s, id, key, d1, readFails, half);
    if half.calls[id].phase.Returned? {
      EndsInMemory(cfg, s, id, key, fetched, d1, d2, d3, d4, readFails, writeFails, half, t);
    } else if half.calls[id].phase.RedisReplied? {
      EndsFromRedis(cfg, s, id, key, fetched, d1, d2, d3, d4, readFails, writeFails, half, t);
    } else {
      EndsFetched(cfg, s, id, key, fetched, d1, d2, d3, d4, readFails, writeFails, half, t);
    }
  }

  lemma EndsInMemory(cfg: Config, s: State, id: nat, key: string, fetched: Option<Json>, d1: nat, d2: nat, d3: nat, d4: nat,
                     readFails: bool, writeFails: bool, half: State, t: State)
    requires HalfWay(cfg, s, id, key, d1, readFails, half) && half.calls[id].phase.Returned?
    requires t == Finish(cfg, half, id, fetched, d2, d3, d4, writeFails || cfg.ttlMs <= 0)
    ensures Settled(t, id)
    ensures (t.memory, t.redis, AnswerOf(t.calls[id].phase)) ==
              Alone(cfg, s.memory, s.redis, key, fetched, s.now, d1, d2, d3, d4, readFails, writeFails)
  {
    AloneSettled(cfg, half, id, fetched, d2, d3, d4, writeFails || cfg.ttlMs <= 0, t);
  }

  lemma EndsFromRedis(cfg: Config, s: State, id: nat, key: string, fetched: Option<Json>, d1: nat, d2: nat, d3: nat, d4: nat,
                      readFails: bool, writeFails: bool, half: State, t: State)
    requires HalfWay(cfg, s, id, key, d1, readFails, half) && half.calls[id].phase.RedisReplied?
    requires t == Finish(cfg, half, id, fetched, d2, d3, d4, writeFails || cfg.ttlMs <= 0)
    ensures Settled(t, id)
    ensures (t.memory, t.redis, AnswerOf(t.calls[id].phase)) ==
              Alone(cfg, s.memory, s.redis, key, fetched, s.now, d1, d2, d3, d4, readFails, writeFails)
  {
    AloneStores(cfg, half, id, fetched, d2, d3, d4, writeFails || cfg.ttlMs <= 0, t);
  }

  lemma EndsFetched(cfg: Config, s: State, id: nat, key: string, fetched: Option<Json>, d1: nat, d2: nat, d3: nat, d4: nat,
                    readFails: bool, writeFails: bool, half: State, t: State)
    requires HalfWay(cfg, s, id, key, d1, readFails, half) && half.calls[id].phase == Fetching
    requires t == Finish(cfg, half, id, fetched, d2, d3, d4, writeFails || cfg.ttlMs <= 0)
    ensures Settled(t, id)
    ensures (t.memory, t.redis, AnswerOf(t.calls[id].phase)) ==
              Alone(cfg, s.memory, s.redis, key, fetched, s.now, d1, d2, d3, d4, readFails, writeFails)
  {
    AloneFetches(cfg, half, id, fetched, d2, d3, d4, writeFails, t);
  }

  /* -------------------------------- staleness -------------------------------- */

  /** A line in memory was stored ttl before it expires, by a fetch or from a Redis line still alive when read. */
  ghost predicate LineOk(cfg: Config, s: State, key: string, e: CacheEntry<Line>) {
    match e.value.source
    case Fetched(at) => e.expiresAt == at + cfg.ttlMs && at <= s.now && Write(false, key, e.value.value, at) in s.writes
    case ViaRedis(w, r, stored) =>
      && e.expiresAt == stored + cfg.ttlMs && w <= r <= stored <= s.now && r < w + cfg.ttlMs
      && Write(true, key, e.value.value, w) in s.writes
  }

  /** What a finished call may have returned. */
  ghost predicate AnswerOk(cfg: Config, s: State, key: string, p: Phase)
    requires p.Returned?
  {
    match p.source
    case Fetched(at) =>
      && Write(false, key, p.value, at) in s.writes && at <= p.at
      && (!p.own ==> p.at < at + cfg.ttlMs)
    case ViaRedis(w, r, stored) =>
      && Write(true, key, p.value, w) in s.writes && w <= r <= stored <= p.at && r < w + cfg.ttlMs
      && (p.at == stored || p.at < stored + cfg.ttlMs)
  }

  ghost predicate CallOk(cfg: Config, s: State, c: Call) {
    match c.phase
    case RedisReplied(value, w, r) => w <= r <= s.now && r < w + cfg.ttlMs && Write(true, c.key, value, w) in s.writes
    case WriteBack(value, at) => at <= s.now && Write(false, c.key, value, at) in s.writes
    case Returned(_, _, _, _) => AnswerOk(cfg, s, c.key, c.phase)
    case _ => true
  }

  ghost predicate RedisOk(cfg: Config, s: State, key: string, l: RedisLine) {
    l.expireAt == l.writtenAt + cfg.ttlMs && l.writtenAt <= s.now && Write(true, key, l.value, l.writtenAt) in s.writes
  }

  ghost predicate MemoryOk(cfg: Config, s: State, m: Store<Line>) {
    forall it | it in m :: LineOk(cfg, s, it.key, it.value)
  }

  ghost predicate Inv(cfg: Config, s: State) {
    && MemoryOk(cfg, s, s.memory)
    && (forall k | k in s.redis :: RedisOk(cfg, s, k, s.redis[k]))
    && (forall id | id in s.calls :: CallOk(cfg, s, s.calls[id]))
  }

  /** Writes are only added and the clock only advances, so what was in order stays so. */
  ghost predicate Later(s: State, t: State) {
    s.now <= t.now && s.writes <= t.writes
  }

  lemma FilterOk(cfg: Config, s: State, t: State, m: Store<Line>, p: Item<CacheEntry<Line>> -> bool)
    requires MemoryOk(cfg, s, m) && Later(s, t)
    ensures MemoryOk(cfg, t, Filter(m, p))
  {
    forall it | it in Filter(m, p) ensures LineOk(cfg, t, it.key, it.value) {
      FilterMember(m, p, it);
    }
  }

  lemma {:induction false} PutMember<V>(m: seq<Item<V>>, key: string, v: V, it: Item<V>)
    requires it in Put(m, key, v)
    ensures it == Item(key, v) || it in m
  {
    if m != [] && m[0].key != key {
      if it != m[0] {
        PutMember(m[1..], key, v, it);
      }
    }
  }

  lemma SetOk(cfg: Config, s: State, t: State, key: string, line: Line, now: int, next: Store<Line>)
    requires MemoryOk(cfg, s, s.memory) && Later(s, t)
    requires LineOk(cfg, t, key, CacheEntry(line, now + cfg.ttlMs))
    requires next == SetStep(s.memory, cfg.maxEntries, key, line, cfg.ttlMs, now)
    ensures MemoryOk(cfg, t, next)
  {
    var put := Put(s.memory, key, CacheEntry(line, now + cfg.ttlMs));
    var n := Trimmed(put, cfg.maxEntries);
    TrimDropsPrefix(put, cfg.maxEntries, n);
    forall it | it in next ensures LineOk(cfg, t, it.key, it.value) {
      assert it in put;
      PutMember(s.memory, key, CacheEntry(line, now + cfg.ttlMs), it);
    }
  }

  lemma GetOk(cfg: Config, s: State, key: string, memory: Store<Line>, hit: Option<Line>)
    requires MemoryOk(cfg, s, s.memory) && (memory, hit) == GetStep(s.memory, key, s.now)
    ensures MemoryOk(cfg, s, memory)
    ensures hit.Some? ==> AnswerOk(cfg, s, key, Returned(hit.value.value, s.now, hit.value.source, false))
  {
    LookupSome(s.memory, key);
    FilterOk(cfg, s, s, s.memory, (it: Item<CacheEntry<Line>>) => it.key != key);
  }

  lemma StartOk(cfg: Config, s: State, id: nat, key: string, t: State)
    requires Inv(cfg, s) && t == Step(cfg, s, Start(id, key))
    ensures Inv(cfg, t)
  {
    if id !in s.calls {
      var (memory, hit) := GetStep(s.memory, key, s.now);
      GetOk(cfg, s, key, memory, hit);
      assert MemoryOk(cfg, t, memory);
      forall i | i in t.calls ensures CallOk(cfg, t, t.calls[i]) {
        assert i != id ==> CallOk(cfg, s, s.calls[i]);
      }
    }
  }

  lemma FetchDoneOk(cfg: Config, s: State, id: nat, value: Json, t: State)
    requires Inv(cfg, s) && t == Step(cfg, s, FetchDone(id, value))
    ensures Inv(cfg, t)
  {
    if id in s.calls && s.calls[id].phase == Fetching {
      SetOk(cfg, s, t, s.calls[id].key, Line(value, Fetched(s.now)), s.now, t.memory);
      OthersOk(cfg, s, id, t);
    }
  }

  lemma StoreReplyOk(cfg: Config, s: State, id: nat, t: State)
    requires Inv(cfg, s) && t == Step(cfg, s, StoreReply(id))
    ensures Inv(cfg, t)
  {
    if id in s.calls && s.calls[id].phase.RedisReplied? {
      var p := s.calls[id].phase;
      assert CallOk(cfg, s, s.calls[id]);
      SetOk(cfg, s, t, s.calls[id].key, Line(p.value, ViaRedis(p.writtenAt, p.readAt, s.now)), s.now, t.memory);
      OthersOk(cfg, s, id, t);
    }
  }

  lemma RedisSetOk(cfg: Config, s: State, id: nat, t: State)
    requires Inv(cfg, s) && t == Step(cfg, s, RedisSet(id))
    ensures Inv(cfg, t)
  {
    if id in s.calls && s.calls[id].phase.WriteBack? && cfg.ttlMs > 0 {
      assert CallOk(cfg, s, s.calls[id]);
      OthersOk(cfg, s, id, t);
      assert MemoryOk(cfg, t, t.memory);
    }
  }

  /** The calls a step does not move, and the Redis lines it does not write, stay in order. */
  lemma OthersOk(cfg: Config, s: State, id: nat, t: State)
    requires Inv(cfg, s) && Later(s, t) && id in s.calls && id in t.calls
    requires t.calls == s.calls[id := t.calls[id]]
    ensures forall i | i in t.calls && i != id :: CallOk(cfg, t, t.calls[i])
    ensures forall k | k in s.redis :: RedisOk(cfg, t, k, s.redis[k])
  {
    forall i | i in t.calls && i != id ensures CallOk(cfg, t, t.calls[i]) {
      assert CallOk(cfg, s, s.calls[i]);
    }
  }

  lemma MemoryStays(cfg: Config, s: State, t: State)
    requires MemoryOk(cfg, s, s.memory) && Later(s, t)
    ensures MemoryOk(cfg, t, s.memory)
  {
    forall it | it in s.memory ensures LineOk(cfg, t, it.key, it.value) {
      assert LineOk(cfg, s, it.key, it.value);
    }
  }

  /** Steps that only move one call on. */
  lemma MoveOk(cfg: Config, s: State, e: Event, id: nat, t: State)
    requires Inv(cfg, s) && t == Step(cfg, s, e)
    requires e == RedisGet(id) || e == RedisGetFails(id) || e == RedisSetFails(id) || e == FetchFails(id)
    ensures Inv(cfg, t)
  {
    if id in s.calls && t != s {
      assert CallOk(cfg, s, s.calls[id]);
      OthersOk(cfg, s, id, t);
      MemoryStays(cfg, s, t);
      assert CallOk(cfg, t, t.calls[id]) by {
        if e.RedisGet? && s.calls[id].key in s.redis {
          assert RedisOk(cfg, s, s.calls[id].key, s.redis[s.calls[id].key]);
        }
      }
    }
  }

  lemma StepOk(cfg: Config, s: State, e: Event, t: State)
    requires Inv(cfg, s) && t == Step(cfg, s, e)
    ensures Inv(cfg, t)
  {
    match e
    case Start(id, key) => StartOk(cfg, s, id, key, t);
    case FetchDone(id, value) => FetchDoneOk(cfg, s, id, value, t);
    case StoreReply(id) => StoreReplyOk(cfg, s, id, t);
    case RedisSet(id) => RedisSetOk(cfg, s, id, t);
    case SetCached(key, value) => SetOk(cfg, s, t, key, Line(value, Fetched(s.now)), s.now, t.memory); CallsStay(cfg, s, t);
    case MemoryDel(key) => FilterOk(cfg, s, t, s.memory, (it: Item<CacheEntry<Line>>) => it.key != key); CallsStay(cfg, s, t);
    case MemoryDelByPrefix(prefix) =>
      FilterOk(cfg, s, t, s.memory, (it: Item<CacheEntry<Line>>) => !(prefix <= it.key)); CallsStay(cfg, s, t);
    case Tick(ms) => MemoryStays(cfg, s, t); CallsStay(cfg, s, t);
    case RedisGet(id) => MoveOk(cfg, s, e, id, t);
    case RedisGetFails(id) => MoveOk(cfg, s, e, id, t);
    case RedisSetFails(id) => MoveOk(cfg, s, e, id, t);
    case FetchFails(id) => MoveOk(cfg, s, e, id, t);
    case RedisDel(key) => MemoryStays(cfg, s, t); CallsStay(cfg, s, t);
  }

  lemma CallsStay(cfg: Config, s: State, t: State)
    requires Inv(cfg, s) && Later(s, t) && t.calls == s.calls
    requires forall k | k in t.redis :: k in s.redis && t.redis[k] == s.redis[k]
    ensures forall i | i in t.calls :: CallOk(cfg, t, t.calls[i])
    ensures forall k | k in t.redis :: RedisOk(cfg, t, k, t.redis[k])
  {
    forall i | i in t.calls ensures CallOk(cfg, t, t.calls[i]) {
      assert CallOk(cfg, s, s.calls[i]);
    }
  }

  lemma {:induction false} RunOk(cfg: Config, events: seq<Event>)
    ensures Inv(cfg, Run(cfg, INIT, events))
    decreases |events|
  {
    if events != [] {
      RunOk(cfg, events[..|events| - 1]);
      StepOk(cfg, Run(cfg, INIT, events[..|events| - 1]), events[|events| - 1], Run(cfg, INIT, events));
    }
  }

  /** Under every interleaving, an answer that did not come from the call's own fetch is a value written for its
      key: to memory by a fetch or a direct set less than ttl ago, or to Redis at most 2 * ttl - 2 ms ago plus the time that
      reply spent between the Redis server and the in-process cache. */
  lemma Staleness(cfg: Config, events: seq<Event>, id: nat)
    ensures var s := Run(cfg, INIT, events);
            id in s.calls && s.calls[id].phase.Returned? && !s.calls[id].phase.own ==>
              var p := s.calls[id].phase;
              match p.source
              case Fetched(at) =>
                Write(false, s.calls[id].key, p.value, at) in s.writes && at <= p.at && p.at < at + cfg.ttlMs
              case ViaRedis(w, r, stored) =>
                && Write(true, s.calls[id].key, p.value, w) in s.writes
                && w <= r <= stored <= p.at
                && p.at <= w + 2 * cfg.ttlMs + (stored - r) - 2
  {
    RunOk(cfg, events);
    var s := Run(cfg, INIT, events);
    if id in s.calls {
      assert CallOk(cfg, s, s.calls[id]);
    }
  }

  /** Without Redis every answer comes from a fetch, so the bound is ttl. */
  ghost predicate NoRedis(s: State) {
    && s.redis == map[]
    && AllFetched(s.memory)
    && (forall id | id in s.calls ::
          s.calls[id].phase == Fetching || s.calls[id].phase == Rejected || (s.calls[id].phase.Returned? && s.calls[id].phase.source.Fetched?))
  }

  ghost predicate AllFetched(m: Store<Line>) {
    forall it | it in m :: it.value.value.source.Fetched?
  }

  lemma FilterFetched(m: Store<Line>, p: Item<CacheEntry<Line>> -> bool)
    requires AllFetched(m)
    ensures AllFetched(Filter(m, p))
  {
    forall it | it in Filter(m, p) ensures it.value.value.source.Fetched? {
      FilterMember(m, p, it);
    }
  }

  lemma SetFetched(m: Store<Line>, maxEntries: int, key: string, line: Line, ttlMs: int, now: int)
    requires AllFetched(m) && line.source.Fetched?
    ensures AllFetched(SetStep(m, maxEntries, key, line, ttlMs, now))
  {
    var entry := CacheEntry(line, now + ttlMs);
    var put := Put(m, key, entry);
    TrimDropsPrefix(put, maxEntries, Trimmed(put, maxEntries));
    forall it | it in put ensures it.value.value.source.Fetched? {
      PutMember(m, key, entry, it);
    }
  }

  lemma NoRedisStep(cfg: Config, s: State, e: Event, t: State)
    requires !cfg.hasRedis && NoRedis(s) && t == Step(cfg, s, e)
    ensures NoRedis(t)
  {
    match e
    case Start(id, key) =>
      if id !in s.calls {
        LookupSome(s.memory, key);
        FilterFetched(s.memory, (x: Item<CacheEntry<Line>>) => x.key != key);
      }
    case FetchDone(id, value) =>
      if id in s.calls {
        SetFetched(s.memory, cfg.maxEntries, s.calls[id].key, Line(value, Fetched(s.now)), cfg.ttlMs, s.now);
      }
    case SetCached(key, value) => SetFetched(s.memory, cfg.maxEntries, key, Line(value, Fetched(s.now)), cfg.ttlMs, s.now);
    case MemoryDel(key) => FilterFetched(s.memory, (x: Item<CacheEntry<Line>>) => x.key != key);
    case MemoryDelByPrefix(prefix) => FilterFetched(s.memory, (x: Item<CacheEntry<Line>>) => !(prefix <= x.key));
    case _ =>
  }

  lemma {:induction false} MemoryOnlyStaleness(cfg: Config, events: seq<Event>, id: nat)
    requires !cfg.hasRedis
    ensures var s := Run(cfg, INIT, events);
            && NoRedis(s)
            && (id in s.calls && s.calls[id].phase.Returned? && !s.calls[id].phase.own ==>
                  var p := s.calls[id].phase;
                  && p.source.Fetched? && p.at < p.source.at + cfg.ttlMs
                  && Write(false, s.calls[id].key, p.value, p.source.at) in s.writes)
    decreases |events|
  {
    Staleness(cfg, events, id);
    if events != [] {
      MemoryOnlyStaleness(cfg, events[..|events| - 1], id);
      NoRedisStep(cfg, Run(cfg, INIT, events[..|events| - 1]), events[|events| - 1], Run(cfg, INIT, events));
    }
  }

  /** Append one event to a run. */
  lemma Extend(cfg: Config, events: seq<Event>, s: State, e: Event) returns (longer: seq<Event>, t: State)
    requires s == Run(cfg, INIT, events)
    ensures longer == events + [e] && t == Step(cfg, s, e) == Run(cfg, INIT, longer)
  {
    longer, t := events + [e], Step(cfg, s, e);
    assert longer[..|events|] == events;
  }

  /** There is a Redis, room for an entry, and time for it to be read. */
  predicate Ample(cfg: Config) {
    cfg.hasRedis && cfg.maxEntries >= 1 && cfg.ttlMs >= 1
  }

  lemma ReachFetched(cfg: Config, key: string, value: Json) returns (events: seq<Event>, s: State)
    requires Ample(cfg)
    ensures s == Run(cfg, INIT, events)
    ensures s.now == 0 && s.redis == map[] && s.calls == map[0 := Call(key, WriteBack(value, 0))]
    ensures s.memory == [Item(key, CacheEntry(Line(value, Fetched(0)), cfg.ttlMs))]
  {
    s := INIT;
    events := [];
    events, s := Extend(cfg, events, s, Start(0, key));
    events, s := Extend(cfg, events, s, RedisGet(0));
    assert s == State(0, [], map[], map[0 := Call(key, Fetching)], {});
    events, s := Extend(cfg, events, s, FetchDone(0, value));
  }

  /** A run that leaves a value in Redis, written at 0, and nothing in memory. */
  lemma ReachWritten(cfg: Config, key: string, value: Json) returns (events: seq<Event>, s: State)
    requires Ample(cfg)
    ensures s == Run(cfg, INIT, events)
    ensures s.now == 0 && s.memory == [] && s.redis == map[key := RedisLine(value, cfg.ttlMs, 0)] && s.calls.Keys == {0}
  {
    events, s := ReachFetched(cfg, key, value);
    assert Filter(s.memory, (it: Item<CacheEntry<Line>>) => it.key != key) == [];
    events, s := Extend(cfg, events, s, RedisSet(0));
    events, s := Extend(cfg, events, s, MemoryDel(key));
  }

  lemma ReachRead(cfg: Config, key: string, value: Json) returns (events: seq<Event>, s: State)
    requires Ample(cfg) && value != Null
    ensures s == Run(cfg, INIT, events)
    ensures s.now == cfg.ttlMs - 1 && s.memory == [] && s.calls.Keys == {0, 1}
    ensures s.calls[1] == Call(key, RedisReplied(value, 0, cfg.ttlMs - 1))
  {
    events, s := ReachWritten(cfg, key, value);
    events, s := Extend(cfg, events, s, Tick(cfg.ttlMs - 1));
    events, s := Extend(cfg, events, s, Start(1, key));
    assert s.calls.Keys == {0, 1} && s.calls[1] == Call(key, AskRedis);
    events, s := Extend(cfg, events, s, RedisGet(1));
  }

  /** From there, one that stores in memory, d after reading it, what Redis held in the value's last millisecond. */
  lemma ReachStored(cfg: Config, d: nat, key: string, value: Json) returns (events: seq<Event>, s: State)
    requires Ample(cfg) && value != Null
    ensures s == Run(cfg, INIT, events)
    ensures var stored := cfg.ttlMs - 1 + d;
            && s.now == stored && s.calls.Keys == {0, 1}
            && s.memory == [Item(key, CacheEntry(Line(value, ViaRedis(0, cfg.ttlMs - 1, stored)), stored + cfg.ttlMs))]
  {
    events, s := ReachRead(cfg, key, value);
    events, s := Extend(cfg, events, s, Tick(d));
    events, s := Extend(cfg, events, s, StoreReply(1));
  }

  /** The bound is reached, to the millisecond, for every ttl and every reply latency d: a value is written at 0,
      read from Redis in its last millisecond, stored d later, and answered from memory in that line's last one. */
  lemma BoundIsReached(cfg: Config, d: nat, key: string, value: Json) returns (events: seq<Event>)
    requires Ample(cfg) && value != Null
    ensures var s := Run(cfg, INIT, events);
            && 2 in s.calls
            && s.calls[2].phase ==
                 Returned(value, 2 * cfg.ttlMs + d - 2, ViaRedis(0, cfg.ttlMs - 1, cfg.ttlMs - 1 + d), false)
  {
    var s: State;
    events, s := ReachStored(cfg, d, key, value);
    events, s := Extend(cfg, events, s, Tick(cfg.ttlMs - 1));
    events, s := Extend(cfg, events, s, Start(2, key));
  }

  /** The call was answered with a value that had come from Redis with a reply latency of at most d. */
  predicate AnsweredWithin(s: State, id: nat, d: nat) {
    && id in s.calls && s.calls[id].phase.Returned? && !s.calls[id].phase.own && s.calls[id].phase.source.ViaRedis?
    && s.calls[id].phase.source.storedAt - s.calls[id].phase.source.readAt <= d
  }

  predicate YoungerThan(s: State, id: nat, d: nat, age: int) {
    AnsweredWithin(s, id, d) ==> s.calls[id].phase.at < s.calls[id].phase.source.writtenAt + age
  }

  /** Answers are always younger than twice the ttl if and only if replies from Redis take at most a millisecond. */
  lemma YoungerThanTwiceTtlIff(cfg: Config, d: nat, twice: int)
    requires Ample(cfg) && twice == 2 * cfg.ttlMs
    ensures (forall events, id :: YoungerThan(Run(cfg, INIT, events), id, d, twice)) <==> d <= 1
  {
    if d <= 1 {
      forall events, id ensures YoungerThan(Run(cfg, INIT, events), id, d, twice) {
        Staleness(cfg, events, id);
      }
    } else {
      var events := BoundIsReached(cfg, d, "key", Json("value"));
      assert !YoungerThan(Run(cfg, INIT, events), 2, d, twice);
    }
  }

  /* ------------------------------- what is cached ---------------------------- */

  /** No copy of the key that is neither expired nor null, in memory or in a Redis that would be asked. */
  ghost predicate Cold(cfg: Config, memory: Store<Line>, redis: map<string, RedisLine>, key: string, now: int) {
    && (Lookup(memory, key).Some? ==> Lookup(memory, key).value.expiresAt <= now || Lookup(memory, key).value.value.value == Null)
    && (cfg.hasRedis && key in redis ==> redis[key].expireAt <= now || redis[key].value == Null)
  }

  /** Without a copy a call answers what its own fetch gives (or rejects with it), and leaves it in memory for ttlMs and, unless
      that fails, in Redis for ttlMs. */
  lemma ColdIsFetched(cfg: Config, memory: Store<Line>, redis: map<string, RedisLine>, key: string, fetched: Option<Json>, now: int,
                      d1: nat, d2: nat, d3: nat, d4: nat, readFails: bool, writeFails: bool,
                      memory': Store<Line>, redis': map<string, RedisLine>, r: Option<Json>, at: int)
    requires Distinct(memory) && |memory| <= cfg.maxEntries && cfg.maxEntries >= 1 && Cold(cfg, memory, redis, key, now)
    requires (memory', redis', r) == Alone(cfg, memory, redis, key, fetched, now, d1, d2, d3, d4, readFails, writeFails)
    requires at == now + d1 + d2 + d3
    ensures r == fetched
    ensures fetched.Some? ==>
              Lookup(memory', key).Some? && Lookup(memory', key).value.value.value == fetched.value
              && Lookup(memory', key).value.expiresAt == at + cfg.ttlMs
    ensures fetched.Some? && cfg.hasRedis && !writeFails && cfg.ttlMs > 0 ==>
              key in redis' && redis'[key].value == fetched.value && redis'[key].expireAt == at + d4 + cfg.ttlMs
    ensures forall k | k != key :: (k in redis <==> k in redis') && (k in redis ==> redis[k] == redis'[k])
  {
    var (m, hit) := GetStep(memory, key, now);
    GetIsExact(memory, key, now, m, hit, key);
    if fetched.Some? {
      FreshSetSurvives(m, cfg.maxEntries, key, Line(fetched.value, Fetched(at)), cfg.ttlMs, at);
    }
  }

  /** A value that was fetched is answered from memory until its ttl runs out, whatever a fetch would give by then ... */
  lemma SecondCallHits(cfg: Config, memory: Store<Line>, redis: map<string, RedisLine>, key: string, v: Json, now: int,
                       d1: nat, d2: nat, d3: nat, d4: nat, readFails: bool, writeFails: bool, memory': Store<Line>, redis': map<string, RedisLine>,
                       later: int, fetched: Option<Json>, e1: nat, e2: nat, e3: nat, e4: nat, readFails': bool, writeFails': bool)
    requires Distinct(memory) && |memory| <= cfg.maxEntries && cfg.maxEntries >= 1 && Cold(cfg, memory, redis, key, now) && v != Null
    requires (memory', redis', Some(v)) == Alone(cfg, memory, redis, key, Some(v), now, d1, d2, d3, d4, readFails, writeFails)
    requires later < now + d1 + d2 + d3 + cfg.ttlMs
    ensures Alone(cfg, memory', redis', key, fetched, later, e1, e2, e3, e4, readFails', writeFails').2 == Some(v)
  {
    ColdIsFetched(cfg, memory, redis, key, Some(v), now, d1, d2, d3, d4, readFails, writeFails, memory', redis', Some(v), now + d1 + d2 + d3);
  }

  /** ... and by any other process that has no copy of its own, from Redis, until the ttl runs out there; it keeps a copy. */
  lemma OtherProcessHits(cfg: Config, memory: Store<Line>, redis: map<string, RedisLine>, key: string, v: Json, now: int,
                         d1: nat, d2: nat, d3: nat, d4: nat, readFails: bool, memory': Store<Line>, redis': map<string, RedisLine>,
                         other: Store<Line>, later: int, fetched: Option<Json>, e1: nat, e2: nat, e3: nat, e4: nat, writeFails': bool)
    requires Distinct(memory) && |memory| <= cfg.maxEntries && cfg.maxEntries >= 1 && Cold(cfg, memory, redis, key, now) && v != Null
    requires cfg.hasRedis && cfg.ttlMs > 0
    requires (memory', redis', Some(v)) == Alone(cfg, memory, redis, key, Some(v), now, d1, d2, d3, d4, readFails, false)
    requires Distinct(other) && |other| <= cfg.maxEntries && Lookup(other, key).None?
    requires later + e1 < now + d1 + d2 + d3 + d4 + cfg.ttlMs
    ensures var (other', redis'', r) := Alone(cfg, other, redis', key, fetched, later, e1, e2, e3, e4, false, writeFails');
            && r == Some(v) && redis'' == redis'
            && Lookup(other', key).Some? && Lookup(other', key).value.value.value == v
            && Lookup(other', key).value.expiresAt == later + e1 + e2 + cfg.ttlMs
  {
    ColdIsFetched(cfg, memory, redis, key, Some(v), now, d1, d2, d3, d4, readFails, false, memory', redis', Some(v), now + d1 + d2 + d3);
    var (m, hit) := GetStep(other, key, later);
    GetIsExact(other, key, later, m, hit, key);
    var line := Line(v, ViaRedis(redis'[key].writtenAt, later + e1, later + e1 + e2));
    FreshSetSurvives(m, cfg.maxEntries, key, line, cfg.ttlMs, later + e1 + e2);
  }

  /** After an invalidation, by key or by a prefix of it, and with the key gone from Redis, the next call fetches. */
  lemma InvalidatedIsFetched(cfg: Config, s: State, e: Event, key: string, t: State, fetched: Option<Json>,
                             d1: nat, d2: nat, d3: nat, d4: nat, readFails: bool, writeFails: bool)
    requires Distinct(s.memory) && |s.memory| <= cfg.maxEntries && cfg.maxEntries >= 1
    requires e == MemoryDel(key) || (e.MemoryDelByPrefix? && e.prefix <= key)
    requires t == Step(cfg, Step(cfg, s, e), RedisDel(key))
    ensures Alone(cfg, t.memory, t.redis, key, fetched, t.now, d1, d2, d3, d4, readFails, writeFails).2 == fetched
  {
    if e.MemoryDel? {
      DeleteForgets(s.memory, key);
      FilterDistinct(s.memory, (it: Item<CacheEntry<Line>>) => it.key != key);
    } else {
      DelByPrefixExact(s.memory, e.prefix, key);
      FilterDistinct(s.memory, (it: Item<CacheEntry<Line>>) => !(e.prefix <= it.key));
    }
    var (m, r, answer) := Alone(cfg, t.memory, t.redis, key, fetched, t.now, d1, d2, d3, d4, readFails, writeFails);
    ColdIsFetched(cfg, t.memory, t.redis, key, fetched, t.now, d1, d2, d3, d4, readFails, writeFails, m, r, answer, t.now + d1 + d2 + d3);
  }

  /** An invalidation takes nothing else. */
  lemma InvalidationSparesOthers(cfg: Config, s: State, e: Event, t: State, k: string)
    requires Distinct(s.memory) && t == Step(cfg, s, e) && (e.MemoryDel? || e.MemoryDelByPrefix? || e.RedisDel?)
    ensures !(e.MemoryDel? && e.key == k) && !(e.MemoryDelByPrefix? && e.prefix <= k) ==> Lookup(t.memory, k) == Lookup(s.memory, k)
    ensures !(e.RedisDel? && e.key == k) ==> (k in t.redis <==> k in s.redis) && (k in s.redis ==> t.redis[k] == s.redis[k])
  {
    match e
    case MemoryDel(key) => LookupFilter(s.memory, (it: Item<CacheEntry<Line>>) => it.key != key, k);
    case MemoryDelByPrefix(prefix) => DelByPrefixExact(s.memory, prefix, k);
    case _ =>
  }

  /** A value set directly is answered until its ttl runs out. */
  lemma SetIsAnswered(cfg: Config, s: State, key: string, v: Json, t: State, later: int, fetched: Option<Json>,
                      d1: nat, d2: nat, d3: nat, d4: nat, readFails: bool, writeFails: bool)
    requires Distinct(s.memory) && |s.memory| <= cfg.maxEntries && cfg.maxEntries >= 1 && v != Null
    requires t == Step(cfg, s, SetCached(key, v)) && later < s.now + cfg.ttlMs
    ensures Alone(cfg, t.memory, t.redis, key, fetched, later, d1, d2, d3, d4, readFails, writeFails).2 == Some(v)
  {
    FreshSetSurvives(s.memory, cfg.maxEntries, key, Line(v, Fetched(s.now)), cfg.ttlMs, s.now);
  }
}
