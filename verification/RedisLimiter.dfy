/**
 The Redis limiters of lib/rate-limit.ts and lib/rate-limit-shared.ts as a protocol: any number of calls for
 one key, each a sequence of atomic Redis commands, interleaved with each other, with the clock, and with
 calls that die between two commands.  The callers and Redis read one clock.
 */
module RedisLimiter {
  import opened Common
  import Limiter = RateLimit

  datatype Variant = RateLimit | RateLimitShared

  datatype Config = Config(variant: Variant, windowMs: int, max: int)

  type Counter = Limiter.Counter

  datatype Phase = Expiring | ReadingTtl | Done | Dead

  /** A call that has executed INCR: when it read the clock, in which lifetime of the counter, what INCR returned,
      where it stands, whether it has executed PEXPIRE, and the reset time it would answer. */
  datatype Call = Call(began: int, lifetime: nat, count: int, phase: Phase, armed: bool, resetAt: int)

  /** `lifetime` numbers the counters that have existed, and `creator` is the call whose INCR made the latest.
      A key is dropped as soon as the clock reaches its expiry. */
  datatype State = State(now: int, key: Option<Counter>, lifetime: nat, creator: nat, calls: map<nat, Call>)

  datatype Event = Tick(ms: nat) | Incr(id: nat, began: int) | PTtl(id: nat) | PExpire(id: nat) | Die(id: nat)

  const INIT := State(0, None, 0, 0, map[])

  function Live(key: Option<Counter>, now: int): Option<Counter> {
    if key.Some? && key.value.expireAt.Some? && key.value.expireAt.value <= now then None else key
  }

  function AfterIncr(v: Variant, count: int): Phase {
    if v.RateLimitShared? && count == 1 then Expiring else ReadingTtl
  }

  /** PTTL answers -2 for no key and -1 for no expiry; only lib/rate-limit.ts acts on that. */
  function AfterPTtl(v: Variant, key: Option<Counter>): Phase {
    if v.RateLimit? && (key.None? || key.value.expireAt.None?) then Expiring else Done
  }

  function Ttl(key: Option<Counter>, now: int): int {
    if key.None? then -2 else if key.value.expireAt.None? then -1 else key.value.expireAt.value - now
  }

  function AfterPExpire(v: Variant): Phase {
    if v.RateLimit? then Done else ReadingTtl
  }

  function Expired(key: Option<Counter>, windowMs: int, now: int): Option<Counter> {
    if key.None? || windowMs <= 0 then None else Some(key.value.(expireAt := Some(now + windowMs)))
  }

  predicate AtPhase(s: State, id: nat, p: Phase) {
    id in s.calls && s.calls[id].phase == p
  }

  /** One atomic step; an event that does not fit the state does nothing. */
  function Step(cfg: Config, s: State, e: Event): State {
    var key := s.key;
    match e
    case Tick(ms) => s.(now := s.now + ms, key := Live(s.key, s.now + ms))
    case Incr(id, began) =>
      if id in s.calls || began > s.now then s
      else
        var count := if key.None? then 1 else key.value.count + 1;
        var lifetime := if key.None? then s.lifetime + 1 else s.lifetime;
        s.(key := Some(Limiter.Counter(count, if key.None? then None else key.value.expireAt)),
           lifetime := lifetime,
           creator := if key.None? then id else s.creator,
           calls := s.calls[id := Call(began, lifetime, count, AfterIncr(cfg.variant, count), false, began + cfg.windowMs)])
    case PTtl(id) =>
      if !AtPhase(s, id, ReadingTtl) then s
      else
        var ttl := Ttl(key, s.now);
        var call := s.calls[id].(phase := AfterPTtl(cfg.variant, key));
        s.(calls := s.calls[id := if ttl > 0 then call.(resetAt := call.began + ttl) else call])
    case PExpire(id) =>
      if !AtPhase(s, id, Expiring) then s
      else s.(key := Expired(key, cfg.windowMs, s.now),
              calls := s.calls[id := s.calls[id].(phase := AfterPExpire(cfg.variant), armed := true)])
    case Die(id) =>
      if id !in s.calls || s.calls[id].phase == Done then s
      else s.(calls := s.calls[id := s.calls[id].(phase := Dead)])
  }

  function Run(cfg: Config, s: State, events: seq<Event>): State
    decreases |events|
  {
    if events == [] then s else Step(cfg, Run(cfg, s, events[..|events| - 1]), events[|events| - 1])
  }

  /** What a call that is done answers. */
  function Answer(cfg: Config, call: Call): Limiter.Outcome {
    Limiter.Outcome(call.count <= cfg.max, Limiter.Max(cfg.max - call.count, 0), call.resetAt)
  }

  predicate Allowed(cfg: Config, s: State, id: nat) {
    AtPhase(s, id, Done) && Answer(cfg, s.calls[id]).allowed
  }

  /* --------------------- at most max calls per lifetime ---------------------- */

  /** INCR hands out 1, 2, 3, ... within one lifetime. */
  ghost predicate Numbered(s: State) {
    && (s.key.Some? ==> s.key.value.count >= 1)
    && (forall id | id in s.calls :: 1 <= s.calls[id].count && s.calls[id].lifetime <= s.lifetime)
    && (forall id | id in s.calls && s.key.Some? && s.calls[id].lifetime == s.lifetime ::
          s.calls[id].count <= s.key.value.count)
    && (forall a, b | a in s.calls && b in s.calls && a != b && s.calls[a].lifetime == s.calls[b].lifetime ::
          s.calls[a].count != s.calls[b].count)
  }

  function Target(e: Event): nat {
    match e
    case Tick(_) => 0
    case Incr(id, _) => id
    case PTtl(id) => id
    case PExpire(id) => id
    case Die(id) => id
  }

  /** Apart from INCR, a step changes at most the phase of one call, and the key only by its expiry. */
  ghost predicate Quiet(s: State, e: Event, next: State) {
    && next.lifetime == s.lifetime && next.creator == s.creator
    && next.calls.Keys == s.calls.Keys
    && (forall id | id in s.calls :: next.calls[id].count == s.calls[id].count && next.calls[id].lifetime == s.calls[id].lifetime)
    && (forall id | id in s.calls && id != Target(e) :: next.calls[id] == s.calls[id])
    && (next.key.Some? ==> s.key.Some? && next.key.value.count == s.key.value.count)
  }

  lemma OtherStepsAreQuiet(cfg: Config, s: State, e: Event, next: State)
    requires !e.Incr? && next == Step(cfg, s, e)
    ensures Quiet(s, e, next)
  {
  }

  lemma StepNumbered(cfg: Config, s: State, e: Event, next: State)
    requires Numbered(s) && next == Step(cfg, s, e)
    ensures Numbered(next)
  {
    if e.Incr? {
      IncrNumbered(cfg, s, e, next);
    } else {
      OtherStepsAreQuiet(cfg, s, e, next);
      QuietNumbered(s, e, next);
    }
  }

  lemma QuietNumbered(s: State, e: Event, next: State)
    requires Numbered(s) && Quiet(s, e, next)
    ensures Numbered(next)
  {
  }

  lemma IncrNumbered(cfg: Config, s: State, e: Event, next: State)
    requires Numbered(s) && e.Incr? && next == Step(cfg, s, e)
    ensures Numbered(next)
  {
    if next != s {
      var added := next.calls[e.id];
      forall a | a in s.calls ensures next.calls[a] == s.calls[a] && (s.calls[a].lifetime == added.lifetime ==> s.calls[a].count < added.count) {
      }
    }
  }

  lemma {:induction false} RunNumbered(cfg: Config, events: seq<Event>)
    ensures Numbered(Run(cfg, INIT, events))
    decreases |events|
  {
    if events != [] {
      RunNumbered(cfg, events[..|events| - 1]);
      var s := Run(cfg, INIT, events[..|events| - 1]);
      StepNumbered(cfg, s, events[|events| - 1], Step(cfg, s, events[|events| - 1]));
    }
  }

  /** A set whose members carry distinct numbers in 1..n has at most n members. */
  lemma {:induction false} Pigeonhole(ids: set<nat>, calls: map<nat, Call>, n: nat)
    requires forall a | a in ids :: a in calls && 1 <= calls[a].count <= n
    requires forall a, b | a in ids && b in ids && a != b :: calls[a].count != calls[b].count
    ensures |ids| <= n
    decreases n
  {
    if ids != {} {
      if a :| a in ids && calls[a].count == n {
        Pigeonhole(ids - {a}, calls, n - 1);
      } else {
        var a :| a in ids;
        Pigeonhole(ids, calls, n - 1);
      }
    }
  }

  /** Under every interleaving, either limiter allows at most max calls in one lifetime of the counter. */
  lemma AtMostMaxPerLifetime(cfg: Config, events: seq<Event>, lifetime: nat)
    ensures var s := Run(cfg, INIT, events);
            |set id | id in s.calls && s.calls[id].lifetime == lifetime && Allowed(cfg, s, id)|
              <= if cfg.max < 0 then 0 else cfg.max
  {
    RunNumbered(cfg, events);
    var s := Run(cfg, INIT, events);
    var ids := set id | id in s.calls && s.calls[id].lifetime == lifetime && Allowed(cfg, s, id);
    if cfg.max < 0 {
      if a :| a in ids {
        assert false;
      }
    } else {
      Pigeonhole(ids, s.calls, cfg.max);
    }
  }

  /* --------------------- rateLimit: the key gets an expiry ------------------- */

  /** Once a call of the current lifetime has completed, its counter expires. */
  ghost predicate CompletedExpire(s: State) {
    s.key.Some? && s.key.value.expireAt.None? ==>
      forall id | AtPhase(s, id, Done) :: s.calls[id].lifetime < s.lifetime
  }

  /** A call that completes in this step leaves the key absent or with an expiry. */
  lemma CompletionStep(cfg: Config, s: State, e: Event, next: State)
    requires cfg.variant.RateLimit? && Numbered(s) && CompletedExpire(s)
    requires next == Step(cfg, s, e)
    ensures CompletedExpire(next)
    ensures forall id | AtPhase(next, id, Done) && !AtPhase(s, id, Done) ::
              next.key.None? || next.key.value.expireAt.Some?
  {
    if e.Incr? {
      CompletionIncr(cfg, s, e, next);
    } else {
      OtherStepsAreQuiet(cfg, s, e, next);
      assert AtPhase(next, Target(e), Done) && !AtPhase(s, Target(e), Done) ==>
          next.key.None? || next.key.value.expireAt.Some?;
      assert next.key.Some? && next.key.value.expireAt.None? ==> s.key.Some? && s.key.value.expireAt.None?;
    }
  }

  lemma CompletionIncr(cfg: Config, s: State, e: Event, next: State)
    requires cfg.variant.RateLimit? && Numbered(s) && CompletedExpire(s)
    requires e.Incr? && next == Step(cfg, s, e)
    ensures CompletedExpire(next)
    ensures forall a :: AtPhase(next, a, Done) <==> AtPhase(s, a, Done)
  {
    forall a ensures AtPhase(next, a, Done) <==> AtPhase(s, a, Done)
             ensures AtPhase(s, a, Done) ==> next.calls[a] == s.calls[a]
    {
    }
  }

  /** In lib/rate-limit.ts a completed call leaves the key absent or with an expiry, whoever else died on the
      way, and that stays so for the rest of the lifetime. */
  lemma {:induction false} CompletionArmsTheKey(cfg: Config, events: seq<Event>)
    requires cfg.variant.RateLimit?
    ensures CompletedExpire(Run(cfg, INIT, events))
    ensures events != [] ==>
              var before := Run(cfg, INIT, events[..|events| - 1]);
              var s := Run(cfg, INIT, events);
              forall id | AtPhase(s, id, Done) && !AtPhase(before, id, Done) ::
                s.key.None? || s.key.value.expireAt.Some?
    decreases |events|
  {
    if events != [] {
      var past := events[..|events| - 1];
      CompletionArmsTheKey(cfg, past);
      RunNumbered(cfg, past);
      CompletionStep(cfg, Run(cfg, INIT, past), events[|events| - 1], Run(cfg, INIT, events));
    }
  }

  /* ------------- rateLimitShared: only the first call sets the expiry -------- */

  /** The call that created the current counter has executed its PEXPIRE. */
  predicate FirstCallArmed(s: State) {
    s.creator in s.calls && s.calls[s.creator].armed
  }

  ghost predicate SharedInv(s: State) {
    && Numbered(s)
    && (forall id | id in s.calls ::
          && (s.calls[id].armed ==> s.calls[id].count == 1)
          && (s.calls[id].phase == Expiring ==> s.calls[id].count == 1 && !s.calls[id].armed)
          && (s.calls[id].count == 1 && (s.calls[id].lifetime < s.lifetime || s.key.None?) ==> s.calls[id].armed))
    && (s.key.Some? ==>
          && s.key.value.count >= 1
          && s.creator in s.calls && s.calls[s.creator].lifetime == s.lifetime && s.calls[s.creator].count == 1
          && (s.key.value.expireAt.Some? <==> s.calls[s.creator].armed))
  }

  lemma SharedIncr(cfg: Config, s: State, e: Event, next: State)
    requires cfg.variant.RateLimitShared? && SharedInv(s)
    requires e.Incr? && next == Step(cfg, s, e)
    ensures SharedInv(next)
  {
    IncrNumbered(cfg, s, e, next);
    forall a | a in s.calls ensures next.calls[a] == s.calls[a] {
    }
  }

  lemma SharedPExpire(cfg: Config, s: State, id: nat, next: State)
    requires cfg.variant.RateLimitShared? && SharedInv(s) && AtPhase(s, id, Expiring)
    requires next == Step(cfg, s, PExpire(id))
    ensures SharedInv(next)
  {
    StepNumbered(cfg, s, PExpire(id), next);
    assert id == s.creator;
    assert next.calls == s.calls[id := s.calls[id].(phase := ReadingTtl, armed := true)];
  }

  /** Steps that touch no expiry, except by letting the key die of it. */
  lemma SharedPassive(cfg: Config, s: State, e: Event, next: State)
    requires cfg.variant.RateLimitShared? && SharedInv(s) && (e.Tick? || e.PTtl? || e.Die?)
    requires next == Step(cfg, s, e)
    ensures SharedInv(next)
  {
    StepNumbered(cfg, s, e, next);
    OtherStepsAreQuiet(cfg, s, e, next);
    assert next.key == s.key || (next.key.None? && s.key.value.expireAt.Some?);
    forall id | id in s.calls
      ensures next.calls[id].armed == s.calls[id].armed
      ensures next.calls[id].phase == s.calls[id].phase || next.calls[id].phase != Expiring
    {
    }
  }

  lemma StepShared(cfg: Config, s: State, e: Event, next: State)
    requires cfg.variant.RateLimitShared? && SharedInv(s)
    requires next == Step(cfg, s, e)
    ensures SharedInv(next)
  {
    match e
    case Incr(_, _) =>
      SharedIncr(cfg, s, e, next);
    case PExpire(id) =>
      if AtPhase(s, id, Expiring) {
        SharedPExpire(cfg, s, id, next);
      }
    case _ =>
      SharedPassive(cfg, s, e, next);
  }

  lemma {:induction false} RunShared(cfg: Config, events: seq<Event>)
    requires cfg.variant.RateLimitShared?
    ensures SharedInv(Run(cfg, INIT, events))
    decreases |events|
  {
    if events != [] {
      var past := events[..|events| - 1];
      RunShared(cfg, past);
      StepShared(cfg, Run(cfg, INIT, past), events[|events| - 1], Run(cfg, INIT, events));
    }
  }

  /** In lib/rate-limit-shared.ts the counter expires exactly if its first call has got as far as PEXPIRE. */
  lemma SharedExpiresIff(cfg: Config, events: seq<Event>)
    requires cfg.variant.RateLimitShared?
    ensures var s := Run(cfg, INIT, events);
            s.key.Some? ==> (s.key.value.expireAt.Some? <==> FirstCallArmed(s))
  {
    RunShared(cfg, events);
  }

  /** The counter has no expiry, its first call died before PEXPIRE, and it has reached max; every call outside
      `earlier` has been counted beyond max. */
  ghost predicate Stuck(s: State, max: int, earlier: set<nat>) {
    && s.key.Some? && s.key.value.expireAt.None? && s.key.value.count >= max
    && AtPhase(s, s.creator, Dead) && !FirstCallArmed(s)
    && earlier <= s.calls.Keys
    && forall id | id in s.calls && id !in earlier :: s.calls[id].count > max
  }

  lemma StuckStep(cfg: Config, s: State, e: Event, next: State, earlier: set<nat>)
    requires cfg.variant.RateLimitShared? && SharedInv(s)
    requires Stuck(s, cfg.max, earlier)
    requires next == Step(cfg, s, e)
    ensures Stuck(next, cfg.max, earlier) && next.lifetime == s.lifetime
  {
  }

  /** If the first call dies before PEXPIRE, the counter never expires, whatever the other calls complete, and
      every call that finds it at max is refused for ever. */
  lemma {:induction false} DeadFirstCallBlocksForever(cfg: Config, past: seq<Event>, future: seq<Event>)
    requires cfg.variant.RateLimitShared?
    requires var s := Run(cfg, INIT, past); Stuck(s, cfg.max, s.calls.Keys)
    ensures var s := Run(cfg, INIT, past);
            var t := Run(cfg, s, future);
            && SharedInv(t) && t.lifetime == s.lifetime
            && Stuck(t, cfg.max, s.calls.Keys)
            && forall id | id in t.calls && id !in s.calls :: !Allowed(cfg, t, id)
    decreases |future|
  {
    var s := Run(cfg, INIT, past);
    RunShared(cfg, past);
    if future != [] {
      var e := future[|future| - 1];
      DeadFirstCallBlocksForever(cfg, past, future[..|future| - 1]);
      var t := Run(cfg, s, future[..|future| - 1]);
      StuckStep(cfg, t, e, Step(cfg, t, e), s.calls.Keys);
      StepShared(cfg, t, e, Step(cfg, t, e));
    }
  }

  /** n more calls, none of which gets further than INCR. */
  function Crowd(n: nat): seq<Event> {
    if n == 0 then [] else Crowd(n - 1) + [Incr(n, 0)]
  }

  lemma {:induction false} CrowdCounts(cfg: Config, n: nat, events: seq<Event>)
    requires cfg.variant.RateLimitShared? && events == [Incr(0, 0), Die(0)] + Crowd(n)
    ensures var s := Run(cfg, INIT, events);
            && s.now == 0 && s.key == Some(Limiter.Counter(n + 1, None)) && s.creator == 0
            && AtPhase(s, 0, Dead) && !FirstCallArmed(s)
            && forall id | id in s.calls :: id <= n
    decreases n
  {
    if n == 0 {
      assert events[..1] == [Incr(0, 0)] && events[..1][..0] == [];
      var s1 := Step(cfg, INIT, Incr(0, 0));
      assert Run(cfg, INIT, events[..1]) == s1;
      assert Run(cfg, INIT, events) == Step(cfg, s1, Die(0));
    } else {
      var past := events[..|events| - 1];
      assert past == [Incr(0, 0), Die(0)] + Crowd(n - 1) && events[|events| - 1] == Incr(n, 0);
      CrowdCounts(cfg, n - 1, past);
    }
  }

  /** Such a state is reachable for every window and every positive allowance: the first call dies after INCR, and
      max - 1 others arrive. */
  lemma BlockIsReachable(windowMs: int, max: int, cfg: Config, events: seq<Event>)
    requires max >= 1 && cfg == Config(Variant.RateLimitShared, windowMs, max)
    requires events == [Incr(0, 0), Die(0)] + Crowd(max - 1)
    ensures var s := Run(cfg, INIT, events); Stuck(s, max, s.calls.Keys)
  {
    CrowdCounts(cfg, max - 1, events);
  }

  /* --------------------------- the reset time answered ----------------------- */

  /** No reset time answered so far lies after the expiry of the counter there is now, or of any made later. */
  ghost predicate NeverLate(cfg: Config, s: State) {
    && (s.key.Some? && s.key.value.expireAt.Some? ==> s.now < s.key.value.expireAt.value <= s.now + cfg.windowMs)
    && (forall id | id in s.calls :: s.calls[id].began <= s.now && s.calls[id].resetAt <= s.now + cfg.windowMs)
    && (s.key.Some? && s.key.value.expireAt.Some? ==>
          forall id | AtPhase(s, id, Done) :: s.calls[id].resetAt <= s.key.value.expireAt.value)
  }

  lemma StepNeverLate(cfg: Config, s: State, e: Event, next: State)
    requires NeverLate(cfg, s) && next == Step(cfg, s, e)
    ensures NeverLate(cfg, next)
  {
    forall id | AtPhase(next, id, Done) && !AtPhase(s, id, Done) && next.key.Some? && next.key.value.expireAt.Some?
      ensures next.calls[id].resetAt <= next.key.value.expireAt.value
    {
      assert id == Target(e);
    }
  }

  /** In both limiters, on every run, no caller is told a reset time later than the moment the counter expires. */
  lemma {:induction false} ResetAtIsNeverLate(cfg: Config, events: seq<Event>)
    ensures NeverLate(cfg, Run(cfg, INIT, events))
    decreases |events|
  {
    if events != [] {
      var past := events[..|events| - 1];
      ResetAtIsNeverLate(cfg, past);
      StepNeverLate(cfg, Run(cfg, INIT, past), events[|events| - 1], Run(cfg, INIT, events));
    }
  }

  /* ------------------------------- a call on its own ------------------------- */

  /** One call of rateLimitShared for the key k with nobody else about: what it leaves and what it answers. */
  ghost function SharedStep(db: map<string, Counter>, k: string, o: Limiter.Options, now: int):
      (map<string, Counter>, Limiter.Outcome) {
    var before := if Limiter.Exists(db, k, now) then db[k] else Limiter.Counter(0, None);
    var count := before.count + 1;
    var resetAt := if count != 1 && before.expireAt.Some? then before.expireAt.value else now + o.windowMs;
    (if count != 1 then db[k := Limiter.Incremented(before)]
     else if o.windowMs <= 0 then db - {k}
     else db[k := Limiter.Counter(1, Some(now + o.windowMs))],
     Limiter.Outcome(count <= o.max, Limiter.Max(o.max - count, 0), resetAt))
  }

  /** The same where a command may fail: nothing is caught, and the commands before it stand. */
  ghost function SharedTry(db: map<string, Counter>, k: string, o: Limiter.Options, now: int, fails: Limiter.Failure):
      (map<string, Counter>, Option<Limiter.Outcome>) {
    var before := if Limiter.Exists(db, k, now) then db[k] else Limiter.Counter(0, None);
    var (next, r) := SharedStep(db, k, o, now);
    if fails == Limiter.AtIncr then (db, None)
    else if fails == Limiter.AtPExpire && before.count == 0 then (db[k := Limiter.Incremented(before)], None)
    else if fails == Limiter.AtPTtl then (next, None)
    else (next, Some(r))
  }

  /** None: a command threw. */
  method RateLimitShared(redis: Limiter.RedisServer, key: string, o: Limiter.Options, now: int, fails: Limiter.Failure)
    returns (r: Option<Limiter.Outcome>)
    modifies redis
    ensures (redis.db, r) == SharedTry(old(redis.db), "ratelimit:" + key, o, now, fails)
  {
    var resetAt := now + o.windowMs;
    var redisKey := "ratelimit:" + key;
    if fails == Limiter.AtIncr {
      return None;
    }
    var currentCount := redis.Incr(redisKey, now);
    if currentCount == 1 {
      if fails == Limiter.AtPExpire {
        return None;
      }
      redis.PExpire(redisKey, o.windowMs, now);
      assert o.windowMs <= 0 ==> redis.db == old(redis.db) - {redisKey};
    }
    assert redis.db == SharedStep(old(redis.db), redisKey, o, now).0;
    if fails == Limiter.AtPTtl {
      return None;
    }
    var ttlMs := redis.PTtl(redisKey, now);
    assert redis.db == SharedStep(old(redis.db), redisKey, o, now).0;
    var effectiveResetAt := if ttlMs > 0 then now + ttlMs else resetAt;
    r := Some(Limiter.Outcome(currentCount <= o.max, Limiter.Max(o.max - currentCount, 0), effectiveResetAt));
  }

  /** The counter of the state is the one of key k in the database. */
  ghost predicate Holds(s: State, db: map<string, Counter>, k: string) {
    s.key == if Limiter.Exists(db, k, s.now) then Some(db[k]) else None
  }

  /** The three commands of a call, in the order of its limiter. */
  function Commands(v: Variant, id: nat, now: int): seq<Event> {
    [Incr(id, now)] + if v.RateLimit? then [PTtl(id), PExpire(id)] else [PExpire(id), PTtl(id)]
  }

  lemma RunThree(cfg: Config, s: State, a: Event, b: Event, c: Event)
    ensures Run(cfg, s, [a, b, c]) == Step(cfg, Step(cfg, Step(cfg, s, a), b), c)
  {
    assert [a, b, c][..2] == [a, b] && [a, b][..1] == [a] && [a][..0] == [];
    assert Run(cfg, s, [a]) == Step(cfg, s, a);
    assert Run(cfg, s, [a, b]) == Step(cfg, Step(cfg, s, a), b);
  }

  lemma AloneInRateLimit(cfg: Config, s: State, id: nat, db: map<string, Counter>, k: string, o: Limiter.Options, t: State)
    requires cfg.variant.RateLimit? && id !in s.calls && Holds(s, db, k) && o == Limiter.Options(cfg.windowMs, cfg.max)
    requires t == Step(cfg, Step(cfg, Step(cfg, s, Incr(id, s.now)), PTtl(id)), PExpire(id))
    ensures var (next, r) := Limiter.RedisStep(db, k, o, s.now);
            Holds(t, next, k) && AtPhase(t, id, Done) && Answer(cfg, t.calls[id]) == r
  {
  }

  lemma AloneInShared(cfg: Config, s: State, id: nat, db: map<string, Counter>, k: string, o: Limiter.Options, t: State)
    requires cfg.variant.RateLimitShared? && id !in s.calls && Holds(s, db, k) && o == Limiter.Options(cfg.windowMs, cfg.max)
    requires t == Step(cfg, Step(cfg, Step(cfg, s, Incr(id, s.now)), PExpire(id)), PTtl(id))
    ensures var (next, r) := SharedStep(db, k, o, s.now);
            Holds(t, next, k) && AtPhase(t, id, Done) && Answer(cfg, t.calls[id]) == r
  {
  }

  /** A call whose commands nothing comes between leaves and answers what the functional form of its limiter says. */
  lemma AloneIsARun(cfg: Config, s: State, id: nat, db: map<string, Counter>, k: string, o: Limiter.Options, t: State)
    requires id !in s.calls && Holds(s, db, k) && o == Limiter.Options(cfg.windowMs, cfg.max)
    requires t == Run(cfg, s, Commands(cfg.variant, id, s.now))
    ensures var (next, r) := if cfg.variant.RateLimit? then Limiter.RedisStep(db, k, o, s.now) else SharedStep(db, k, o, s.now);
            Holds(t, next, k) && AtPhase(t, id, Done) && Answer(cfg, t.calls[id]) == r
  {
    if cfg.variant.RateLimit? {
      RunThree(cfg, s, Incr(id, s.now), PTtl(id), PExpire(id));
      assert Commands(cfg.variant, id, s.now) == [Incr(id, s.now), PTtl(id), PExpire(id)];
      AloneInRateLimit(cfg, s, id, db, k, o, t);
    } else {
      RunThree(cfg, s, Incr(id, s.now), PExpire(id), PTtl(id));
      assert Commands(cfg.variant, id, s.now) == [Incr(id, s.now), PExpire(id), PTtl(id)];
      AloneInShared(cfg, s, id, db, k, o, t);
    }
  }

  /* --------------------------- the two limiters compared --------------------- */

  ghost predicate Counted(db: map<string, Counter>) {
    forall k | k in db :: db[k].count >= 1
  }

  /** From the same counters the two answer alike; they leave the same counters exactly if the counter of the key is
      absent or has an expiry. */
  lemma LimitersDifferIff(db: map<string, Counter>, k: string, o: Limiter.Options, now: int)
    requires Counted(db)
    ensures SharedStep(db, k, o, now).1 == Limiter.RedisStep(db, k, o, now).1
    ensures SharedStep(db, k, o, now).0 == Limiter.RedisStep(db, k, o, now).0 <==>
              !(Limiter.Exists(db, k, now) && db[k].expireAt.None?)
  {
    var before := if Limiter.Exists(db, k, now) then db[k] else Limiter.Counter(0, None);
    var shared, other := SharedStep(db, k, o, now).0, Limiter.RedisStep(db, k, o, now).0;
    if Limiter.Exists(db, k, now) && db[k].expireAt.None? {
      assert k in shared && shared[k].expireAt.None?;
    }
  }

  /** rateLimitShared for a run of calls, one after the other. */
  ghost function SharedRun(db: map<string, Counter>, opts: string -> Limiter.Options, events: seq<Limiter.Event>):
      seq<Option<Limiter.Outcome>>
    decreases |events|
  {
    if events == [] then []
    else if events[0].Prune? then [None] + SharedRun(db, opts, events[1..])
    else
      var (next, r) := SharedStep(db, events[0].key, opts(events[0].key), events[0].now);
      [Some(r)] + SharedRun(next, opts, events[1..])
  }

  ghost predicate AllExpire(db: map<string, Counter>) {
    forall k | k in db :: db[k].expireAt.Some?
  }

  /** As long as no command fails and calls do not overlap, the two limiters answer every request of every run alike. */
  lemma {:induction false} SharedRefinesRedis(db: map<string, Counter>, opts: string -> Limiter.Options, events: seq<Limiter.Event>)
    requires Counted(db) && AllExpire(db)
    ensures SharedRun(db, opts, events) == Limiter.RedisRun(db, opts, events)
    decreases |events|
  {
    if events != [] {
      if events[0].Prune? {
        SharedRefinesRedis(db, opts, events[1..]);
      } else {
        var e := events[0];
        var next := SharedStep(db, e.key, opts(e.key), e.now).0;
        LimitersDifferIff(db, e.key, opts(e.key), e.now);
        assert forall k | k in next :: k == e.key || (k in db && next[k] == db[k]);
        SharedRefinesRedis(next, opts, events[1..]);
      }
    }
  }

  /** ... and so does the in-memory limiter, below capacity and for positive allowances. */
  lemma ThreeLimitersAgree(cap: Limiter.Capacity, opts: string -> Limiter.Options, events: seq<Limiter.Event>, start: int)
    requires forall key: string :: opts(key).max >= 1
    requires Limiter.TimesFrom(events, start) && Limiter.BelowCapacity([], cap, opts, events)
    ensures Limiter.MemoryRun([], cap, opts, events) == Limiter.RedisRun(map[], opts, events) == SharedRun(map[], opts, events)
  {
    Limiter.EmptyStoresAgree(cap, opts, events, start);
    SharedRefinesRedis(map[], opts, events);
  }
}
