/**
 lib/cache/memory-cache.ts: the bounded in-process cache, an insertion-ordered map whose hits move to the back
 and whose overflow is deleted from the front.
 */
module MemoryCache {
  import opened Common
  import opened OrderedMap

  datatype CacheEntry<+V> = CacheEntry(value: V, expiresAt: int)

  type Store<V> = seq<Item<CacheEntry<V>>>

  /** get: a live entry is deleted and inserted again, an expired one is deleted. */
  function GetStep<V>(m: Store<V>, key: string, now: int): (Store<V>, Option<V>) {
    var entry := Lookup(m, key);
    if entry.None? then (m, None)
    else if entry.value.expiresAt <= now then (Delete(m, key), None)
    else (Delete(m, key) + [Item(key, entry.value)], Some(entry.value.value))
  }

  /** The loop after an insertion: delete the head while the map is too big, but give up at an empty key, which
      JavaScript takes for "no key". */
  function Trim<V>(m: Store<V>, maxEntries: int): Store<V> {
    if |m| <= maxEntries || m == [] || m[0].key == "" then m else Trim(m[1..], maxEntries)
  }

  function SetStep<V>(m: Store<V>, maxEntries: int, key: string, value: V, ttlMs: int, now: int): Store<V> {
    Trim(Put(m, key, CacheEntry(value, now + ttlMs)), maxEntries)
  }

  function DelByPrefixStep<V>(m: Store<V>, prefix: string): Store<V> {
    Filter(m, (it: Item<CacheEntry<V>>) => !(prefix <= it.key))
  }

  class MemoryCache<V> {
    var store: Store<V>
    const maxEntries: int

    ghost predicate Valid()
      reads this
    {
      Distinct(store)
    }

    constructor (maxEntries: int)
      ensures Valid() && store == [] && this.maxEntries == maxEntries
    {
      store := [];
      this.maxEntries := maxEntries;
    }

    method Get(key: string, now: int) returns (r: Option<V>)
      requires Valid()
      modifies this
      ensures Valid() && (store, r) == GetStep(old(store), key, now)
    {
      var entry := Lookup(store, key);
      if entry.None? {
        return None;
      }
      DeleteForgets(store, key);
      if entry.value.expiresAt <= now {
        store := Delete(store, key);
        return None;
      }
      store := Delete(store, key);
      PutShape(store, key, entry.value);
      PutDistinct(store, key, entry.value);
      store := Put(store, key, entry.value);
      r := Some(entry.value.value);
    }

    /** A set leaves the cache within its bound exactly when no empty key stops the deletions, and the entry just
        set is there. */
    method Set(key: string, value: V, ttlMs: int, now: int)
      requires Valid()
      modifies this
      ensures Valid() && store == SetStep(old(store), maxEntries, key, value, ttlMs, now)
      ensures maxEntries >= 1 && |old(store)| <= maxEntries ==> Lookup(store, key) == Some(CacheEntry(value, now + ttlMs))
    {
      PutDistinct(store, key, CacheEntry(value, now + ttlMs));
      store := Put(store, key, CacheEntry(value, now + ttlMs));
      ghost var put := store;
      while |store| > maxEntries
        invariant Trim(store, maxEntries) == Trim(put, maxEntries) && Distinct(store)
        decreases |store|
      {
        if store == [] || store[0].key == "" {
          break;
        }
        DeleteHead(store);
        store := Delete(store, store[0].key);
      }
      if maxEntries >= 1 && |old(store)| <= maxEntries {
        FreshSetSurvives(old(store), maxEntries, key, value, ttlMs, now);
      }
    }

    method Del(key: string)
      requires Valid()
      modifies this
      ensures Valid() && store == Delete(old(store), key)
    {
      DeleteForgets(store, key);
      store := Delete(store, key);
    }

    method DelByPrefix(prefix: string)
      requires Valid()
      modifies this
      ensures Valid() && store == DelByPrefixStep(old(store), prefix)
    {
      ghost var was := store;
      var visiting := store;
      ghost var spared := (it: Item<CacheEntry<V>>) => !(prefix <= it.key);
      FilterVisited(was, spared);
      var i := 0;
      while i < |visiting|
        invariant 0 <= i <= |visiting| && visiting == was
        invariant store == HalfFiltered(was, spared, i) && Distinct(store)
      {
        FilterVisit(was, spared, i);
        if prefix <= visiting[i].key {
          store := Delete(store, visiting[i].key);
        }
        i := i + 1;
      }
    }
  }

  lemma DeleteForgets<V>(m: Store<V>, key: string)
    requires Distinct(m)
    ensures Distinct(Delete(m, key)) && Lookup(Delete(m, key), key).None?
  {
    FilterDistinct(m, (it: Item<CacheEntry<V>>) => it.key != key);
    LookupFilter(m, (it: Item<CacheEntry<V>>) => it.key != key, key);
  }

  /* -------------------------------- the bound -------------------------------- */

  /** How many items trimming drops. */
  function Trimmed<V>(m: Store<V>, maxEntries: int): nat {
    if |m| <= maxEntries || m == [] || m[0].key == "" then 0 else 1 + Trimmed(m[1..], maxEntries)
  }

  lemma {:induction false} TrimmedAt<V>(m: Store<V>, maxEntries: int, n: nat, i: nat)
    requires n == Trimmed(m, maxEntries) && i < n
    ensures i < |m| && m[i].key != "" && |m| - i > maxEntries
  {
    if i > 0 {
      TrimmedAt(m[1..], maxEntries, n - 1, i - 1);
    }
  }

  lemma {:induction false} TrimIsDrop<V>(m: Store<V>, maxEntries: int, n: nat)
    requires n == Trimmed(m, maxEntries)
    ensures n <= |m| && Trim(m, maxEntries) == m[n..]
    ensures n < |m| ==> |m| - n <= maxEntries || m[n].key == ""
  {
    if n > 0 {
      TrimIsDrop(m[1..], maxEntries, n - 1);
      assert m[1..][n - 1..] == m[n..];
    }
  }

  /** They are the shortest prefix whose loss makes the rest fit or brings an empty key to the front. */
  lemma TrimDropsPrefix<V>(m: Store<V>, maxEntries: int, n: nat)
    requires n == Trimmed(m, maxEntries)
    ensures n <= |m| && Trim(m, maxEntries) == m[n..]
    ensures forall i | 0 <= i < n :: m[i].key != "" && |m| - i > maxEntries
    ensures n < |m| ==> |m| - n <= maxEntries || m[n].key == ""
  {
    TrimIsDrop(m, maxEntries, n);
    forall i | 0 <= i < n ensures m[i].key != "" && |m| - i > maxEntries {
      TrimmedAt(m, maxEntries, n, i);
    }
  }

  /** After the loop the cache fits exactly when no empty key stood among the items that had to go. */
  lemma TrimFitsIff<V>(m: Store<V>, maxEntries: nat)
    ensures |Trim(m, maxEntries)| <= maxEntries <==> forall i | 0 <= i < |m| - maxEntries :: m[i].key != ""
  {
    var n := Trimmed(m, maxEntries);
    TrimDropsPrefix(m, maxEntries, n);
    if n < |m| && |m| - n > maxEntries {
      assert m[n].key == "";
    }
  }

  /** The cache stays within its bound over every set when keys are not empty. */
  lemma SetStaysBounded<V>(m: Store<V>, maxEntries: nat, key: string, value: V, ttlMs: int, now: int)
    requires key != "" && forall i | 0 <= i < |m| :: m[i].key != ""
    ensures var next := SetStep(m, maxEntries, key, value, ttlMs, now);
            |next| <= maxEntries && forall i | 0 <= i < |next| :: next[i].key != ""
  {
    var put := Put(m, key, CacheEntry(value, now + ttlMs));
    PutShape(m, key, CacheEntry(value, now + ttlMs));
    TrimFitsIff(put, maxEntries);
    TrimDropsPrefix(put, maxEntries, Trimmed(put, maxEntries));
  }

  /** The entry just set is never the one its own set evicts. */
  lemma FreshSetSurvives<V>(m: Store<V>, maxEntries: nat, key: string, value: V, ttlMs: int, now: int)
    requires Distinct(m) && maxEntries >= 1 && |m| <= maxEntries
    ensures Lookup(SetStep(m, maxEntries, key, value, ttlMs, now), key) == Some(CacheEntry(value, now + ttlMs))
  {
    var e := CacheEntry(value, now + ttlMs);
    var put := Put(m, key, e);
    var n := Trimmed(put, maxEntries);
    TrimDropsPrefix(put, maxEntries, n);
    PutDistinct(m, key, e);
    PutShape(m, key, e);
    LookupPut(m, key, e, key);
    if n > 0 {
      var kept := put[n..];
      assert Lookup(m, key).None? && n == 1;
      assert kept[|kept| - 1] == put[|m|] == Item(key, e);
      LookupDrop(put, n, key);
      LookupItem(kept, |kept| - 1);
    }
  }

  /* ------------------------- least recently used order ----------------------- */

  datatype Op<V> =
    | GetOp(key: string, now: int)
    | SetOp(key: string, value: V, ttlMs: int, now: int)
    | DelOp(key: string)
    | DelByPrefixOp(prefix: string)

  function Apply<V>(m: Store<V>, maxEntries: int, op: Op<V>): Store<V> {
    match op
    case GetOp(key, now) => GetStep(m, key, now).0
    case SetOp(key, value, ttlMs, now) => SetStep(m, maxEntries, key, value, ttlMs, now)
    case DelOp(key) => Delete(m, key)
    case DelByPrefixOp(prefix) => DelByPrefixStep(m, prefix)
  }

  function Run<V>(maxEntries: int, ops: seq<Op<V>>): Store<V> {
    if ops == [] then [] else Apply(Run(maxEntries, ops[..|ops| - 1]), maxEntries, ops[|ops| - 1])
  }

  /** Whether an operation counts as a use of the key: a hit, or the insertion of a key that was absent. */
  predicate Touches<V>(m: Store<V>, op: Op<V>, key: string) {
    match op
    case GetOp(k, now) => k == key && GetStep(m, k, now).1.Some?
    case SetOp(k, _, _, _) => k == key && Lookup(m, k).None?
    case _ => false
  }

  /** The position in the history of the latest use of a key, -1 if there is none. */
  function LastTouch<V>(maxEntries: int, ops: seq<Op<V>>, key: string): int {
    if ops == [] then -1
    else if Touches(Run(maxEntries, ops[..|ops| - 1]), ops[|ops| - 1], key) then |ops| - 1
    else LastTouch(maxEntries, ops[..|ops| - 1], key)
  }

  lemma LastTouchSnoc<V>(maxEntries: int, past: seq<Op<V>>, op: Op<V>, key: string)
    ensures LastTouch(maxEntries, past + [op], key) ==
              if Touches(Run(maxEntries, past), op, key) then |past| else LastTouch(maxEntries, past, key)
  {
    assert (past + [op])[..|past|] == past;
  }

  ghost predicate Ordered<V>(m: Store<V>, t: string -> int) {
    forall i, j | 0 <= i < j < |m| :: t(m[i].key) < t(m[j].key)
  }

  lemma {:induction false} FilterOrdered<V>(m: Store<V>, p: Item<CacheEntry<V>> -> bool, t: string -> int)
    requires Ordered(m, t)
    ensures Ordered(Filter(m, p), t)
  {
    if m != [] {
      FilterOrdered(m[1..], p, t);
      var rest := Filter(m[1..], p);
      forall j | 0 <= j < |rest| ensures t(m[0].key) < t(rest[j].key) {
        FilterMember(m[1..], p, rest[j]);
      }
    }
  }

  lemma {:induction false} LastTouchBelow<V>(maxEntries: int, ops: seq<Op<V>>, key: string)
    ensures LastTouch(maxEntries, ops, key) < |ops|
    decreases |ops|
  {
    if ops != [] {
      LastTouchBelow(maxEntries, ops[..|ops| - 1], key);
    }
  }

  lemma ApplyDistinct<V>(m: Store<V>, maxEntries: int, op: Op<V>, next: Store<V>)
    requires Distinct(m) && next == Apply(m, maxEntries, op)
    ensures Distinct(next)
  {
    match op
    case GetOp(key, now) =>
      DeleteForgets(m, key);
      var entry := Lookup(m, key);
      if entry.Some? {
        PutShape(Delete(m, key), key, entry.value);
        PutDistinct(Delete(m, key), key, entry.value);
      }
    case SetOp(key, value, ttlMs, now) =>
      var put := Put(m, key, CacheEntry(value, now + ttlMs));
      PutDistinct(m, key, CacheEntry(value, now + ttlMs));
      TrimDropsPrefix(put, maxEntries, Trimmed(put, maxEntries));
      LookupDrop(put, Trimmed(put, maxEntries), key);
    case DelOp(key) =>
      DeleteForgets(m, key);
    case DelByPrefixOp(prefix) =>
      FilterDistinct(m, (it: Item<CacheEntry<V>>) => !(prefix <= it.key));
  }

  lemma {:induction false} RunDistinct<V>(maxEntries: int, ops: seq<Op<V>>)
    ensures Distinct(Run(maxEntries, ops))
    decreases |ops|
  {
    if ops != [] {
      RunDistinct(maxEntries, ops[..|ops| - 1]);
      ApplyDistinct(Run(maxEntries, ops[..|ops| - 1]), maxEntries, ops[|ops| - 1], Run(maxEntries, ops));
    }
  }

  lemma AppendOrdered<V>(m: Store<V>, it: Item<CacheEntry<V>>, t: string -> int, t': string -> int)
    requires Ordered(m, t)
    requires forall i | 0 <= i < |m| :: t'(m[i].key) == t(m[i].key) < t'(it.key)
    ensures Ordered(m + [it], t')
  {
  }

  /** A hit moves its entry behind all others. */
  lemma HitOrdered<V>(m: Store<V>, key: string, entry: CacheEntry<V>, t: string -> int, t': string -> int)
    requires Ordered(m, t)
    requires forall k :: if k == key then t(k) < t'(k) else t'(k) == t(k) < t'(key)
    ensures Ordered(Delete(m, key) + [Item(key, entry)], t')
  {
    var p := (it: Item<CacheEntry<V>>) => it.key != key;
    var rest := Delete(m, key);
    FilterOrdered(m, p, t);
    forall i | 0 <= i < |rest| ensures rest[i].key != key {
      FilterMember(m, p, rest[i]);
    }
    AppendOrdered(rest, Item(key, entry), t, t');
  }

  /** Putting appends a new key and leaves a present one where it is. */
  lemma PutOrdered<V>(m: Store<V>, key: string, e: CacheEntry<V>, t: string -> int, t': string -> int)
    requires Ordered(m, t)
    requires if Lookup(m, key).Some? then forall k :: t'(k) == t(k)
             else forall k :: if k == key then t(k) < t'(k) else t'(k) == t(k) < t'(key)
    ensures Ordered(Put(m, key, e), t')
  {
    PutShape(m, key, e);
    if Lookup(m, key).None? {
      LookupSome(m, key);
      AppendOrdered(m, Item(key, e), t, t');
    }
  }

  lemma SetOrdered<V>(m: Store<V>, key: string, e: CacheEntry<V>, maxEntries: int, t: string -> int, t': string -> int)
    requires Ordered(m, t)
    requires if Lookup(m, key).Some? then forall k :: t'(k) == t(k)
             else forall k :: if k == key then t(k) < t'(k) else t'(k) == t(k) < t'(key)
    ensures Ordered(Put(m, key, e), t') && Ordered(Trim(Put(m, key, e), maxEntries), t')
  {
    var put := Put(m, key, e);
    PutOrdered(m, key, e, t, t');
    TrimDropsPrefix(put, maxEntries, Trimmed(put, maxEntries));
  }

  lemma GetOrdered<V>(m: Store<V>, key: string, at: int, t: string -> int, t': string -> int, now: int)
    requires Ordered(m, t) && forall k :: t(k) < now
    requires forall k :: t'(k) == if k == key && GetStep(m, key, at).1.Some? then now else t(k)
    ensures Ordered(GetStep(m, key, at).0, t')
  {
    var entry := Lookup(m, key);
    if entry.Some? && entry.value.expiresAt > at {
      HitOrdered(m, key, entry.value, t, t');
    } else {
      FilterOrdered(m, (it: Item<CacheEntry<V>>) => it.key != key, t');
    }
  }

  lemma DeletesOrdered<V>(m: Store<V>, key: string, prefix: string, t: string -> int, t': string -> int)
    requires Ordered(m, t) && forall k :: t'(k) == t(k)
    ensures Ordered(Delete(m, key), t') && Ordered(DelByPrefixStep(m, prefix), t')
  {
    FilterOrdered(m, (it: Item<CacheEntry<V>>) => it.key != key, t');
    FilterOrdered(m, (it: Item<CacheEntry<V>>) => !(prefix <= it.key), t');
  }

  /** One operation keeps the list sorted by latest use, where t and t' are the latest uses before and after it. */
  lemma ApplyOrdered<V>(m: Store<V>, maxEntries: int, op: Op<V>, t: string -> int, t': string -> int, now: int, next: Store<V>)
    requires Ordered(m, t) && next == Apply(m, maxEntries, op)
    requires forall k :: t(k) < now
    requires forall k :: t'(k) == if Touches(m, op, k) then now else t(k)
    ensures Ordered(next, t')
    ensures op.SetOp? ==> Ordered(Put(m, op.key, CacheEntry(op.value, op.now + op.ttlMs)), t')
  {
    match op
    case GetOp(key, at) => GetOrdered(m, key, at, t, t', now);
    case SetOp(key, value, ttlMs, at) => SetOrdered(m, key, CacheEntry(value, at + ttlMs), maxEntries, t, t');
    case DelOp(key) => DeletesOrdered(m, key, "", t, t');
    case DelByPrefixOp(prefix) => DeletesOrdered(m, "", prefix, t, t');
  }

  /** After every history the list is sorted by latest use, an overwrite not counting as one. */
  lemma {:induction false} RecencyOrder<V>(maxEntries: int, ops: seq<Op<V>>)
    ensures Ordered(Run(maxEntries, ops), (k: string) => LastTouch(maxEntries, ops, k))
    decreases |ops|
  {
    if ops != [] {
      var past := ops[..|ops| - 1];
      RecencyOrder(maxEntries, past);
      forall k: string ensures LastTouch(maxEntries, past, k) < |ops| - 1 {
        LastTouchBelow(maxEntries, past, k);
      }
      ApplyOrdered(Run(maxEntries, past), maxEntries, ops[|ops| - 1],
                   (k: string) => LastTouch(maxEntries, past, k),
                   (k: string) => LastTouch(maxEntries, ops, k), |ops| - 1, Run(maxEntries, ops));
    }
  }

  /** What a set evicts was used less recently than everything it leaves in the cache. */
  lemma EvictsLeastRecentlyUsed<V>(maxEntries: int, past: seq<Op<V>>, setOp: Op<V>, m: Store<V>, next: Store<V>,
                                   gone: string, kept: string)
    requires setOp.SetOp?
    requires m == Run(maxEntries, past) && next == Run(maxEntries, past + [setOp])
    requires Lookup(m, gone).Some? && Lookup(next, gone).None? && Lookup(next, kept).Some?
    ensures LastTouch(maxEntries, past + [setOp], gone) < LastTouch(maxEntries, past + [setOp], kept)
  {
    var ops := past + [setOp];
    var before, after := (k: string) => LastTouch(maxEntries, past, k), (k: string) => LastTouch(maxEntries, ops, k);
    RecencyOrder(maxEntries, past);
    forall k: string ensures before(k) < |past| && after(k) == if k == setOp.key && Lookup(m, k).None? then |past| else before(k) {
      SetTouches(maxEntries, past, setOp, m, k);
    }
    assert ops[..|past|] == past;
    SetEvictsOlder(m, setOp.key, CacheEntry(setOp.value, setOp.now + setOp.ttlMs), maxEntries, before, after, next, gone, kept);
  }

  lemma SetTouches<V>(maxEntries: int, past: seq<Op<V>>, op: Op<V>, m: Store<V>, key: string)
    requires op.SetOp? && m == Run(maxEntries, past)
    ensures LastTouch(maxEntries, past, key) < |past|
    ensures LastTouch(maxEntries, past + [op], key) ==
              if key == op.key && Lookup(m, key).None? then |past| else LastTouch(maxEntries, past, key)
  {
    LastTouchBelow(maxEntries, past, key);
    LastTouchSnoc(maxEntries, past, op, key);
  }

  lemma SetEvictsOlder<V>(m: Store<V>, key: string, e: CacheEntry<V>, maxEntries: int, t: string -> int, t': string -> int,
                          next: Store<V>, gone: string, kept: string)
    requires Ordered(m, t) && next == Trim(Put(m, key, e), maxEntries)
    requires if Lookup(m, key).Some? then forall k :: t'(k) == t(k)
             else forall k :: if k == key then t(k) < t'(k) else t'(k) == t(k) < t'(key)
    requires Lookup(m, gone).Some? && Lookup(next, gone).None? && Lookup(next, kept).Some?
    ensures t'(gone) < t'(kept)
  {
    SetOrdered(m, key, e, maxEntries, t, t');
    SetDropsOlder(m, key, e, maxEntries, next, t', gone, kept);
  }

  lemma SetDropsOlder<V>(m: Store<V>, key: string, e: CacheEntry<V>, maxEntries: int, next: Store<V>, t: string -> int,
                         gone: string, kept: string)
    requires Ordered(Put(m, key, e), t) && next == Trim(Put(m, key, e), maxEntries)
    requires Lookup(m, gone).Some? && Lookup(next, gone).None? && Lookup(next, kept).Some?
    ensures t(gone) < t(kept)
  {
    var put := Put(m, key, e);
    var n := Trimmed(put, maxEntries);
    TrimDropsPrefix(put, maxEntries, n);
    LookupPut(m, key, e, gone);
    DroppedIsOlder(put, n, t, gone, kept);
  }

  lemma DroppedIsOlder<V>(m: Store<V>, n: nat, t: string -> int, gone: string, kept: string)
    requires Ordered(m, t) && n <= |m|
    requires Lookup(m, gone).Some? && Lookup(m[n..], gone).None? && Lookup(m[n..], kept).Some?
    ensures t(gone) < t(kept)
  {
    var next := m[n..];
    LookupSome(m, gone);
    LookupSome(next, gone);
    LookupSome(next, kept);
    var i :| 0 <= i < |m| && m[i].key == gone;
    var j :| 0 <= j < |next| && next[j].key == kept;
    assert forall a | n <= a < |m| :: m[a] == next[a - n];
    assert next[j] == m[n + j];
  }

  /** delByPrefix removes the matching keys, and only them, leaving values and order alone. */
  lemma DelByPrefixExact<V>(m: Store<V>, prefix: string, key: string)
    requires Distinct(m)
    ensures var next := DelByPrefixStep(m, prefix);
            && Lookup(next, key) == (if prefix <= key then None else Lookup(m, key))
            && (forall t: string -> int | Ordered(m, t) :: Ordered(next, t))
  {
    LookupFilter(m, (it: Item<CacheEntry<V>>) => !(prefix <= it.key), key);
    forall t: string -> int | Ordered(m, t) ensures Ordered(DelByPrefixStep(m, prefix), t) {
      FilterOrdered(m, (it: Item<CacheEntry<V>>) => !(prefix <= it.key), t);
    }
  }

  /* ------------------------------ what is answered --------------------------- */

  /** Deleting a present key and putting it back moves it to the end. */
  lemma MovedToTheEnd<V>(m: Store<V>, key: string, k: string)
    requires Distinct(m) && Lookup(m, key).Some?
    ensures var next := Delete(m, key) + [Item(key, Lookup(m, key).value)];
            Lookup(next, k) == Lookup(m, k) && Distinct(next) && |next| <= |m|
  {
    var entry, d := Lookup(m, key).value, Delete(m, key);
    DeleteForgets(m, key);
    DeleteShrinks(m, key);
    LookupFilter(m, (it: Item<CacheEntry<V>>) => it.key != key, k);
    PutShape(d, key, entry);
    PutDistinct(d, key, entry);
    LookupPut(d, key, entry, k);
  }

  lemma DeleteShrinks<V>(m: Store<V>, key: string)
    requires Distinct(m) && Lookup(m, key).Some?
    ensures |Delete(m, key)| == |m| - 1
  {
    LookupSome(m, key);
    var i :| 0 <= i < |m| && m[i].key == key;
    assert m == m[..i] + [m[i]] + m[i + 1..];
    DeleteAt(m[..i], m[i], m[i + 1..]);
  }

  /** A get answers the entry there is, if it has not expired; an expired one goes, and nothing else does. */
  lemma GetIsExact<V>(m: Store<V>, key: string, now: int, next: Store<V>, r: Option<V>, k: string)
    requires Distinct(m) && (next, r) == GetStep(m, key, now)
    ensures r.Some? <==> Lookup(m, key).Some? && now < Lookup(m, key).value.expiresAt
    ensures r.Some? ==> r.value == Lookup(m, key).value.value
    ensures Lookup(next, k) == if k == key && r.None? then None else Lookup(m, k)
    ensures Distinct(next) && |next| <= |m|
  {
    if Lookup(m, key).Some? {
      MovedToTheEnd(m, key, k);
      DeleteForgets(m, key);
      DeleteShrinks(m, key);
      LookupFilter(m, (it: Item<CacheEntry<V>>) => it.key != key, k);
    }
  }

  /** A set with room for the entry makes it the answer for its key, and changes no other. */
  lemma SetIsExact<V>(m: Store<V>, maxEntries: int, key: string, value: V, ttlMs: int, now: int, next: Store<V>, k: string)
    requires Distinct(m) && next == SetStep(m, maxEntries, key, value, ttlMs, now)
    requires |m| < maxEntries || (Lookup(m, key).Some? && |m| <= maxEntries)
    ensures Lookup(next, k) == if k == key then Some(CacheEntry(value, now + ttlMs)) else Lookup(m, k)
  {
    PutDistinct(m, key, CacheEntry(value, now + ttlMs));
    LookupPut(m, key, CacheEntry(value, now + ttlMs), k);
  }

  /** The operation deletes the key. */
  predicate Forgets<V>(op: Op<V>, key: string) {
    (op.DelOp? && op.key == key) || (op.DelByPrefixOp? && op.prefix <= key)
  }

  lemma DeleteIsExact<V>(m: Store<V>, key: string, k: string)
    requires Distinct(m)
    ensures Lookup(Delete(m, key), k) == if k == key then None else Lookup(m, k)
  {
    LookupFilter(m, (it: Item<CacheEntry<V>>) => it.key != key, k);
  }

  lemma GetLeaves<V>(m: Store<V>, k: string, now: int, key: string)
    requires Distinct(m) && Lookup(GetStep(m, k, now).0, key).Some?
    ensures Lookup(GetStep(m, k, now).0, key) == Lookup(m, key)
  {
    GetIsExact(m, k, now, GetStep(m, k, now).0, GetStep(m, k, now).1, key);
  }

  lemma SetLeaves<V>(m: Store<V>, maxEntries: int, e: CacheEntry<V>, k: string, next: Store<V>, key: string)
    requires Distinct(m) && next == Trim(Put(m, k, e), maxEntries) && Lookup(next, key).Some?
    ensures Lookup(next, key) == if k == key then Some(e) else Lookup(m, key)
  {
    var put := Put(m, k, e);
    PutDistinct(m, k, e);
    LookupPut(m, k, e, key);
    TrimDropsPrefix(put, maxEntries, Trimmed(put, maxEntries));
    LookupDrop(put, Trimmed(put, maxEntries), key);
  }

  /** What an operation leaves under a key was there before, or is what it set. */
  lemma ApplyLeaves<V>(m: Store<V>, maxEntries: int, op: Op<V>, next: Store<V>, key: string)
    requires Distinct(m) && next == Apply(m, maxEntries, op) && Lookup(next, key).Some?
    ensures !Forgets(op, key)
    ensures Lookup(next, key) == if op.SetOp? && op.key == key then Some(CacheEntry(op.value, op.now + op.ttlMs)) else Lookup(m, key)
  {
    match op
    case GetOp(k, now) => GetLeaves(m, k, now, key);
    case SetOp(k, value, ttlMs, now) => SetLeaves(m, maxEntries, CacheEntry(value, now + ttlMs), k, next, key);
    case DelOp(k) => DeleteIsExact(m, k, key);
    case DelByPrefixOp(prefix) => DelByPrefixExact(m, prefix, key);
  }

  /** After every history, what a get answers is what the latest set of its key set, less than that set's ttl ago, and the key
      has not been deleted since. */
  lemma {:induction false} AnswersLatestSet<V>(maxEntries: int, ops: seq<Op<V>>, key: string, now: int, v: V) returns (i: nat)
    requires GetStep(Run(maxEntries, ops), key, now).1 == Some(v)
    ensures i < |ops| && ops[i].SetOp? && ops[i].key == key && ops[i].value == v && now < ops[i].now + ops[i].ttlMs
    ensures forall j | i < j < |ops| :: !Forgets(ops[j], key) && !(ops[j].SetOp? && ops[j].key == key)
  {
    var e := Lookup(Run(maxEntries, ops), key).value;
    i := EntryIsLatestSet(maxEntries, ops, key, e);
  }

  lemma {:induction false} EntryIsLatestSet<V>(maxEntries: int, ops: seq<Op<V>>, key: string, e: CacheEntry<V>) returns (i: nat)
    requires Lookup(Run(maxEntries, ops), key) == Some(e)
    ensures i < |ops| && ops[i].SetOp? && ops[i].key == key && e == CacheEntry(ops[i].value, ops[i].now + ops[i].ttlMs)
    ensures forall j | i < j < |ops| :: !Forgets(ops[j], key) && !(ops[j].SetOp? && ops[j].key == key)
    decreases |ops|
  {
    var n := |ops| - 1;
    var m := Run(maxEntries, ops[..n]);
    RunDistinct(maxEntries, ops[..n]);
    ApplyLeaves(m, maxEntries, ops[n], Run(maxEntries, ops), key);
    if ops[n].SetOp? && ops[n].key == key {
      i := n;
    } else {
      i := EntryIsLatestSet(maxEntries, ops[..n], key, e);
      forall j | i < j < |ops| ensures !Forgets(ops[j], key) && !(ops[j].SetOp? && ops[j].key == key) {
        if j < n {
          assert ops[j] == ops[..n][j];
        }
      }
    }
  }
}
