/**
 lib/task-queue.ts: the bounded-concurrency queue, whose `process` is re-entered from inside its own loop.

 A task is what its synchronous part does when called: it may add further tasks, and then either throws or
 suspends at its first await.  Everything between two suspensions is one uninterrupted stretch of calls.
 A call that can throw returns whether it did, and the statements a throw skips are guarded by that.
 Listeners may throw, and do not call the queue.
 */
module TaskQueue {
  import opened Common

  datatype Task = Task(spawns: seq<Task>, throwsAtOnce: bool)

  datatype QueueEvent = AddEvent | NextEvent | CompletedEvent | ErrorEvent

  datatype Listener = Listener(id: nat, throws: bool)

  /** The promise of a started task: its code on the call stack, suspended at an await, or settled by so many calls
      of resolve and reject, of which only the first takes effect. */
  datatype Promise = Active | Suspended | Settled(resolves: nat, rejects: nat)

  const FULFILLED := Settled(1, 0)
  const REJECTED := Settled(0, 1)

  function OnResolve(p: Promise): Promise {
    if p.Settled? then p.(resolves := p.resolves + 1) else FULFILLED
  }

  function OnReject(p: Promise): Promise {
    if p.Settled? then p.(rejects := p.rejects + 1) else REJECTED
  }

  /** A promise settled by its task's outcome, on one path only. */
  function SettledBy(fulfilled: bool): Promise {
    if fulfilled then FULFILLED else REJECTED
  }

  /** The event that goes with an outcome. */
  function EventOf(fulfilled: bool): QueueEvent {
    if fulfilled then CompletedEvent else ErrorEvent
  }

  predicate IsLive(p: Promise) {
    p == Active || p == Suspended
  }

  function Live(ps: seq<Promise>): nat {
    if ps == [] then 0 else Live(ps[..|ps| - 1]) + (if IsLive(ps[|ps| - 1]) then 1 else 0)
  }

  function Count(ps: seq<Promise>, p: Promise): nat {
    if ps == [] then 0 else Count(ps[..|ps| - 1], p) + (if ps[|ps| - 1] == p then 1 else 0)
  }

  lemma {:induction false} CountUpdate(ps: seq<Promise>, k: nat, p: Promise, q: Promise)
    requires k < |ps|
    ensures Count(ps[k := q], p) == Count(ps, p) - (if ps[k] == p then 1 else 0) + (if q == p then 1 else 0)
    ensures Live(ps[k := q]) == Live(ps) - (if IsLive(ps[k]) then 1 else 0) + (if IsLive(q) then 1 else 0)
  {
    var init := ps[..|ps| - 1];
    if k == |ps| - 1 {
      assert ps[k := q][..k] == init;
    } else {
      assert ps[k := q][..|ps| - 1] == init[k := q];
      CountUpdate(init, k, p, q);
    }
  }

  lemma CountAppend(ps: seq<Promise>, p: Promise, q: Promise)
    ensures Count(ps + [q], p) == Count(ps, p) + (if q == p then 1 else 0)
    ensures Live(ps + [q]) == Live(ps) + (if IsLive(q) then 1 else 0)
  {
    assert (ps + [q])[..|ps|] == ps;
  }

  lemma {:induction false} EveryPromiseCounts(ps: seq<Promise>)
    requires forall k | 0 <= k < |ps| :: SettledOnce(ps[k])
    ensures |ps| == Live(ps) + Count(ps, FULFILLED) + Count(ps, REJECTED)
  {
    if ps != [] {
      assert SettledOnce(ps[|ps| - 1]);
      EveryPromiseCounts(ps[..|ps| - 1]);
    }
  }

  /** Not settled yet, or by exactly one call of resolve or of reject. */
  predicate SettledOnce(p: Promise) {
    IsLive(p) || p == FULFILLED || p == REJECTED
  }

  /** A task with everything it will spawn: the measure that bounds re-entrant calls. */
  function Size(t: Task): nat {
    1 + SizeAll(t.spawns)
  }

  function SizeAll(ts: seq<Task>): nat {
    if ts == [] then 0 else Size(ts[0]) + SizeAll(ts[1..])
  }

  lemma {:induction false} SizeAppend(ts: seq<Task>, t: Task)
    ensures SizeAll(ts + [t]) == SizeAll(ts) + Size(t)
  {
    if ts == [] {
      assert ts + [t] == [t];
      assert [t][1..] == [];
    } else {
      assert (ts + [t])[1..] == ts[1..] + [t];
      SizeAppend(ts[1..], t);
    }
  }

  /* ----------------------------------- history ------------------------------- */

  /** What has happened: the tasks added, in order, and for each the number of the started task whose code added it (None:
      added from outside); the tasks whose code was called, in order, and their promises; the events emitted, in order; and
      the listeners called, in order. */
  datatype History = History(added: seq<Task>, adders: seq<Option<nat>>, started: seq<Task>, promises: seq<Promise>,
                             emitted: seq<QueueEvent>, heard: seq<Listener>)

  function Times(events: seq<QueueEvent>, e: QueueEvent): nat {
    if events == [] then 0 else Times(events[..|events| - 1], e) + (if events[|events| - 1] == e then 1 else 0)
  }

  lemma TimesAppend(events: seq<QueueEvent>, last: QueueEvent, e: QueueEvent)
    ensures Times(events + [last], e) == Times(events, e) + (if last == e then 1 else 0)
  {
    assert (events + [last])[..|events|] == events;
  }

  /** The tasks one started task's code (or the outside) has added, in order. */
  function AddedBy(added: seq<Task>, adders: seq<Option<nat>>, who: Option<nat>): seq<Task>
    requires |added| == |adders|
  {
    if added == [] then []
    else
      var n := |added| - 1;
      AddedBy(added[..n], adders[..n], who) + (if adders[n] == who then [added[n]] else [])
  }

  lemma AddedByAppend(added: seq<Task>, adders: seq<Option<nat>>, task: Task, adder: Option<nat>, who: Option<nat>)
    requires |added| == |adders|
    ensures AddedBy(added + [task], adders + [adder], who) == AddedBy(added, adders, who) + (if adder == who then [task] else [])
  {
    assert (added + [task])[..|added|] == added && (adders + [adder])[..|added|] == adders;
  }

  /** Additions by others do not matter. */
  lemma {:induction false} AddedByOthers(added: seq<Task>, adders: seq<Option<nat>>, later: seq<Task>, laters: seq<Option<nat>>,
                                         who: Option<nat>)
    requires |added| == |adders| && |later| == |laters| && added <= later && adders <= laters
    requires forall i | |adders| <= i < |laters| :: laters[i] != who
    ensures AddedBy(later, laters, who) == AddedBy(added, adders, who)
    decreases |later|
  {
    if |added| == |later| {
      assert later == added && laters == adders;
    } else {
      var n := |later| - 1;
      AddedByOthers(added, adders, later[..n], laters[..n], who);
    }
  }

  ghost predicate Spawned(h: History, k: nat)
    requires k < |h.promises| == |h.started| && |h.added| == |h.adders|
  {
    h.promises[k] != Active ==> AddedBy(h.added, h.adders, Some(k)) == h.started[k].spawns
  }

  /** What holds at every point of every stretch of calls, inside nested ones too: the tasks started, followed by those
      queued, are the tasks added; everything a task's code was to add, it has added, in its order; no promise is
      settled twice; and each event has been emitted as often as what it stands for has happened. */
  ghost predicate Inv(concurrency: nat, running: int, queue: seq<Task>, h: History) {
    && h.added == h.started + queue
    && |h.adders| == |h.added| && |h.started| == |h.promises|
    && (forall i | 0 <= i < |h.adders| && h.adders[i].Some? :: h.adders[i].value < |h.promises|)
    && (forall k | 0 <= k < |h.promises| :: SettledOnce(h.promises[k]) && Spawned(h, k))
    && running == Live(h.promises) <= concurrency
    && Times(h.emitted, AddEvent) == |h.added| && Times(h.emitted, NextEvent) == |h.promises|
    && Times(h.emitted, CompletedEvent) == Count(h.promises, FULFILLED)
    && Times(h.emitted, ErrorEvent) == Count(h.promises, REJECTED)
  }

  function WithAdded(h: History, task: Task, adder: Option<nat>): History {
    h.(added := h.added + [task], adders := h.adders + [adder])
  }

  function WithStarted(h: History, t: Task): History {
    h.(started := h.started + [t], promises := h.promises + [Active])
  }

  function WithPromise(h: History, k: nat, p: Promise): History
    requires k < |h.promises|
  {
    h.(promises := h.promises[k := p])
  }

  /** Where the promise of a task stands once its synchronous part is over. */
  function FirstRest(t: Task): Promise {
    if t.throwsAtOnce then REJECTED else Suspended
  }

  /** Nothing that happened is undone; whatever was added since was added by tasks numbered n or above; and whatever
      was started since has run its synchronous part. */
  ghost predicate ExtendsFrom(n: nat, h: History, later: History) {
    && h.added <= later.added && h.adders <= later.adders && h.started <= later.started && h.promises <= later.promises
    && |later.started| == |later.promises| && |later.added| == |later.adders|
    && (forall i | |h.adders| <= i < |later.adders| :: later.adders[i].Some? && later.adders[i].value >= n)
    && (forall k | |h.promises| <= k < |later.promises| :: later.promises[k] == FirstRest(later.started[k]))
  }

  ghost predicate Extends(h: History, later: History) {
    ExtendsFrom(|h.promises|, h, later)
  }

  /** Task `next` was started as number k and has run its synchronous part. */
  ghost predicate RanFrom(before: History, next: Task, k: nat, after: History) {
    && k == |before.promises|
    && ExtendsFrom(k, WithPromise(WithStarted(before, next), k, FirstRest(next)), after)
  }

  lemma PrefixIndex<T>(a: seq<T>, b: seq<T>, i: nat)
    requires a <= b && i < |a|
    ensures a[i] == b[i]
  {
  }

  /** Starting one more task and running its synchronous part extends the history. */
  lemma ExtendsByOne(h: History, before: History, after: History, next: Task, k: nat)
    requires Extends(h, before) && k == |before.promises| && RanFrom(before, next, k, after)
    ensures Extends(h, after)
  {
    var mid := WithPromise(WithStarted(before, next), k, FirstRest(next));
    assert before.promises <= mid.promises;
    forall i | |h.adders| <= i < |before.adders| ensures after.adders[i] == before.adders[i] {
      PrefixIndex(before.adders, after.adders, i);
    }
    forall j | |h.promises| <= j < |mid.promises| ensures after.promises[j] == mid.promises[j] && after.started[j] == mid.started[j] {
      PrefixIndex(mid.promises, after.promises, j);
      PrefixIndex(mid.started, after.started, j);
    }
  }

  /** The code of task number k, called when the history was `called`, has added the first i tasks it adds. */
  ghost predicate Adding(called: History, h: History, next: Task, k: nat, i: nat)
    requires i <= |next.spawns|
  {
    && k < |called.promises| == |called.started| && ExtendsFrom(k, called, h)
    && h.promises[k] == Active && h.started[k] == next
    && AddedBy(h.added, h.adders, Some(k)) == next.spawns[..i]
  }

  /** One more was added, and perhaps ran. */
  lemma AddedNext(called: History, earlier: History, after: History, next: Task, k: nat, i: nat)
    requires i < |next.spawns| && Adding(called, earlier, next, k, i)
    requires Extends(WithAdded(earlier, next.spawns[i], Some(k)), after)
    ensures Adding(called, after, next, k, i + 1)
  {
    var mid := WithAdded(earlier, next.spawns[i], Some(k));
    AddedByAppend(earlier.added, earlier.adders, next.spawns[i], Some(k), Some(k));
    AddedByOthers(mid.added, mid.adders, after.added, after.adders, Some(k));
    forall j | |called.adders| <= j < |mid.adders| ensures after.adders[j] == mid.adders[j] {
      PrefixIndex(mid.adders, after.adders, j);
    }
    forall j | 0 <= j < |mid.promises| ensures after.promises[j] == mid.promises[j] && after.started[j] == mid.started[j] {
      PrefixIndex(mid.promises, after.promises, j);
      PrefixIndex(mid.started, after.started, j);
    }
    assert next.spawns[..i] + [next.spawns[i]] == next.spawns[..i + 1];
  }

  lemma RanTask(before: History, called: History, ran: History, after: History, next: Task, k: nat)
    requires k == |before.promises| == |before.started|
    requires called == WithStarted(before, next).(emitted := called.emitted, heard := called.heard)
    requires ExtendsFrom(k, called, ran) && AddedBy(ran.added, ran.adders, Some(k)) == next.spawns
    requires Extends(WithPromise(ran, k, FirstRest(next)), after)
    ensures k < |after.promises| && RanFrom(before, next, k, after)
    ensures AddedBy(after.added, after.adders, Some(k)) == next.spawns
  {
    var mid := WithPromise(ran, k, FirstRest(next));
    AddedByOthers(ran.added, ran.adders, after.added, after.adders, Some(k));
    forall i | |called.adders| <= i < |mid.adders| ensures after.adders[i] == mid.adders[i] {
      PrefixIndex(mid.adders, after.adders, i);
    }
    forall j | 0 <= j < |mid.promises| ensures after.promises[j] == mid.promises[j] && after.started[j] == mid.started[j] {
      PrefixIndex(mid.promises, after.promises, j);
      PrefixIndex(mid.started, after.started, j);
    }
  }

  lemma EmittedOne(events: seq<QueueEvent>, last: QueueEvent)
    ensures forall e :: Times(events + [last], e) == Times(events, e) + (if last == e then 1 else 0)
  {
    forall e ensures Times(events + [last], e) == Times(events, e) + (if last == e then 1 else 0) {
      TimesAppend(events, last, e);
    }
  }

  lemma AddedInv(c: nat, running: int, queue: seq<Task>, h: History, task: Task, adder: Option<nat>, after: History)
    requires Inv(c, running, queue, h)
    requires after == WithAdded(h, task, adder).(emitted := h.emitted + [AddEvent], heard := after.heard)
    requires adder.Some? ==> adder.value < |h.promises| && h.promises[adder.value] == Active
    ensures Inv(c, running, queue + [task], after)
  {
    EmittedOne(h.emitted, AddEvent);
    forall k | 0 <= k < |h.promises| ensures Spawned(after, k) && SettledOnce(after.promises[k]) {
      assert Spawned(h, k);
      AddedByAppend(h.added, h.adders, task, adder, Some(k));
    }
  }

  lemma StartedInv(c: nat, running: int, queue: seq<Task>, h: History, next: Task, after: History)
    requires Inv(c, running, [next] + queue, h) && running < c
    requires after == WithStarted(h, next).(emitted := h.emitted + [NextEvent], heard := after.heard)
    ensures Inv(c, running + 1, queue, after)
    ensures AddedBy(h.added, h.adders, Some(|h.promises|)) == []
  {
    EmittedOne(h.emitted, NextEvent);
    CountAppend(h.promises, FULFILLED, Active);
    CountAppend(h.promises, REJECTED, Active);
    AddedByOthers([], [], h.added, h.adders, Some(|h.promises|));
    assert h.started + ([next] + queue) == (h.started + [next]) + queue;
    forall k | 0 <= k < |after.promises| ensures Spawned(after, k) && SettledOnce(after.promises[k]) {
      if k < |h.promises| {
        assert Spawned(h, k) && SettledOnce(h.promises[k]);
      }
    }
  }

  lemma PromiseInv(c: nat, running: int, queue: seq<Task>, h: History, k: nat, p: Promise, after: History)
    requires Inv(c, running, queue, h) && k < |h.promises| && IsLive(h.promises[k]) && p != Active && SettledOnce(p)
    requires AddedBy(h.added, h.adders, Some(k)) == h.started[k].spawns
    requires after == WithPromise(h, k, p).(emitted := if p == Suspended then h.emitted else h.emitted + [EventOf(p == FULFILLED)],
                                            heard := after.heard)
    ensures Inv(c, if p == Suspended then running else running - 1, queue, after)
  {
    EmittedOne(h.emitted, EventOf(p == FULFILLED));
    CountUpdate(h.promises, k, FULFILLED, p);
    CountUpdate(h.promises, k, REJECTED, p);
    forall j | 0 <= j < |h.promises| ensures Spawned(after, j) && SettledOnce(after.promises[j]) {
      assert Spawned(h, j) && SettledOnce(h.promises[j]);
    }
  }

  /** What the outside can do: enqueue a task, or let what a suspended task awaits settle (for a number that is not
      suspended there is nothing to settle). */
  datatype Stimulus = Enqueue(task: Task) | Resume(k: nat, fulfilled: bool)

  function Enqueued(stimuli: seq<Stimulus>): seq<Task> {
    if stimuli == [] then []
    else Enqueued(stimuli[..|stimuli| - 1]) + (if stimuli[|stimuli| - 1].Enqueue? then [stimuli[|stimuli| - 1].task] else [])
  }

  function AddedOutside(h: History): seq<Task>
    requires |h.added| == |h.adders|
  {
    AddedBy(h.added, h.adders, None)
  }

  /** Nothing added or started is undone, and what is settled stays as it is. */
  ghost predicate Later(h: History, later: History) {
    && h.added <= later.added && h.started <= later.started && |h.promises| <= |later.promises|
    && forall k | 0 <= k < |h.promises| && !IsLive(h.promises[k]) :: later.promises[k] == h.promises[k]
  }

  lemma EnqueuedOne(h: History, task: Task, later: History)
    requires |h.added| == |h.adders| && Extends(WithAdded(h, task, None), later)
    ensures Later(h, later) && AddedOutside(later) == AddedOutside(h) + [task]
  {
    var mid := WithAdded(h, task, None);
    AddedByAppend(h.added, h.adders, task, None, None);
    AddedByOthers(mid.added, mid.adders, later.added, later.adders, None);
  }

  lemma ResumedOne(h: History, k: nat, p: Promise, later: History)
    requires |h.added| == |h.adders| && k < |h.promises| && IsLive(h.promises[k]) && Extends(WithPromise(h, k, p), later)
    ensures Later(h, later) && AddedOutside(later) == AddedOutside(h)
  {
    AddedByOthers(h.added, h.adders, later.added, later.adders, None);
  }

  lemma LaterTransitive(h: History, mid: History, later: History)
    requires Later(h, mid) && Later(mid, later)
    ensures Later(h, later)
  {
  }

  /* --------------------------------- listeners ------------------------------- */

  type Listeners = map<QueueEvent, seq<Listener>>

  /** Every event has its list of listeners. */
  predicate AllListed(ls: Listeners) {
    ls.Keys == {AddEvent, NextEvent, CompletedEvent, ErrorEvent}
  }

  /** How often the listener is registered for the event. */
  function Registered(ls: Listeners, e: QueueEvent, l: Listener): nat {
    if e in ls then multiset(ls[e])[l] else 0
  }

  /** The calls a listener gets for so many events of one kind. */
  function Calls(ls: Listeners, times: int, e: QueueEvent, l: Listener): int {
    times * Registered(ls, e, l)
  }

  lemma CallsAdd(ls: Listeners, times: int, more: int, e: QueueEvent, l: Listener)
    ensures Calls(ls, times + more, e, l) == Calls(ls, times, e, l) + Calls(ls, more, e, l)
  {
  }

  /** The calls a listener gets for the events of one kind between two moments. */
  function Due(ls: Listeners, h: History, later: History, e: QueueEvent, l: Listener): int {
    Calls(ls, Times(later.emitted, e) - Times(h.emitted, e), e, l)
  }

  /** With the same listeners all the time, this one has been called for every event emitted since, as often as it is
      registered for it. */
  ghost predicate ToldOf(ls: Listeners, h: History, later: History, l: Listener) {
    multiset(later.heard)[l] == multiset(h.heard)[l]
                                + Due(ls, h, later, AddEvent, l) + Due(ls, h, later, NextEvent, l)
                                + Due(ls, h, later, CompletedEvent, l) + Due(ls, h, later, ErrorEvent, l)
  }

  ghost predicate Told(ls: Listeners, h: History, later: History) {
    forall l :: ToldOf(ls, h, later, l)
  }

  lemma DueForOne(ls: Listeners, h: History, last: QueueEvent, later: History, e: QueueEvent, l: Listener)
    requires later.emitted == h.emitted + [last]
    ensures Due(ls, h, later, e, l) == if e == last then Registered(ls, e, l) else 0
  {
    TimesAppend(h.emitted, last, e);
  }

  lemma ToldOne(ls: Listeners, h: History, e: QueueEvent, later: History)
    requires e in ls && later.emitted == h.emitted + [e] && later.heard == h.heard + ls[e]
    ensures Told(ls, h, later)
  {
    forall l ensures ToldOf(ls, h, later, l) {
      DueForOne(ls, h, e, later, AddEvent, l);
      DueForOne(ls, h, e, later, NextEvent, l);
      DueForOne(ls, h, e, later, CompletedEvent, l);
      DueForOne(ls, h, e, later, ErrorEvent, l);
    }
  }

  lemma ToldNothing(ls: Listeners, h: History, later: History)
    requires later.emitted == h.emitted && later.heard == h.heard
    ensures Told(ls, h, later)
  {
    forall l ensures ToldOf(ls, h, later, l) {
    }
  }

  lemma DueAdds(ls: Listeners, h: History, mid: History, later: History, e: QueueEvent, l: Listener)
    ensures Due(ls, h, later, e, l) == Due(ls, h, mid, e, l) + Due(ls, mid, later, e, l)
  {
    CallsAdd(ls, Times(mid.emitted, e) - Times(h.emitted, e), Times(later.emitted, e) - Times(mid.emitted, e), e, l);
  }

  lemma ToldTransitive(ls: Listeners, h: History, mid: History, later: History)
    requires Told(ls, h, mid) && Told(ls, mid, later)
    ensures Told(ls, h, later)
  {
    forall l ensures ToldOf(ls, h, later, l) {
      assert ToldOf(ls, h, mid, l) && ToldOf(ls, mid, later, l);
      DueAdds(ls, h, mid, later, AddEvent, l);
      DueAdds(ls, h, mid, later, NextEvent, l);
      DueAdds(ls, h, mid, later, CompletedEvent, l);
      DueAdds(ls, h, mid, later, ErrorEvent, l);
    }
  }

  /* ------------------------------------ queue -------------------------------- */

  class SimpleQueue {
    const concurrency: nat
    var running: int
    var size: int
    var pending: int
    var queue: seq<Task>
    var listeners: Listeners
    var h: History   // bookkeeping: read by nothing the source does

    ghost predicate Valid()
      reads this
    {
      Inv(concurrency, running, queue, h) && AllListed(listeners)
    }

    ghost predicate Tidy()
      reads this
    {
      size == |queue| && pending == running
    }

    /** What holds besides whenever no call is in progress: every usable slot is used, and the gauges are right. */
    ghost predicate Quiet()
      reads this
    {
      && Valid() && Tidy() && Active !in h.promises
      && (running == concurrency || queue == [])
    }

    constructor (concurrency: nat)
      requires concurrency >= 1
      ensures Quiet() && this.concurrency == concurrency && h == History([], [], [], [], [], [])
    {
      this.concurrency := concurrency;
      running, size, pending, queue := 0, 0, 0, [];
      listeners := map[AddEvent := [], NextEvent := [], CompletedEvent := [], ErrorEvent := []];
      h := History([], [], [], [], [], []);
    }

    method On(event: QueueEvent, listener: Listener)
      requires Quiet()
      modifies this`listeners
      ensures Quiet() && listeners == old(listeners)[event := old(listeners)[event] + [listener]]
    {
      listeners := listeners[event := listeners[event] + [listener]];
    }

    method Notify(listener: Listener) returns (threw: bool)
      modifies this`h
      ensures threw == listener.throws && h == old(h).(heard := old(h).heard + [listener])
    {
      h := h.(heard := h.heard + [listener]);
      threw := listener.throws;
    }

    /** Every listener of the event is called, in order, whichever of them throw, and no throw gets out. */
    method Emit(event: QueueEvent) returns (threw: bool)
      requires AllListed(listeners)
      modifies this`h
      ensures !threw && h.heard == old(h).heard + listeners[event] && h.emitted == old(h).emitted + [event]
      ensures h == old(h).(emitted := h.emitted, heard := h.heard)
    {
      h := h.(emitted := h.emitted + [event]);
      ghost var was := h;
      threw := false;
      var i := 0;
      while i < |listeners[event]| && !threw
        invariant 0 <= i <= |listeners[event]| && !threw
        invariant h == was.(heard := was.heard + listeners[event][..i])
      {
        threw := Notify(listeners[event][i]);
        if threw {
          threw := false;   // the catch
        }
        i := i + 1;
      }
      assert listeners[event][..i] == listeners[event];
    }

    /** `adder` is the number of the task whose code makes the call. */
    method Add(task: Task, adder: Option<nat>)
      requires Valid() && (adder.Some? ==> adder.value < |h.promises| && h.promises[adder.value] == Active)
      modifies this`running, this`size, this`pending, this`queue, this`h
      decreases SizeAll(queue) + Size(task), 1
      ensures Told(listeners, old(h), h)
      ensures Valid() && Tidy() && Extends(WithAdded(old(h), task, adder), h)
      ensures SizeAll(queue) <= old(SizeAll(queue)) + Size(task)
      ensures running == concurrency || queue == []
    {
      ghost var ls := listeners;
      var threw := Emit(AddEvent);
      assert !threw;
      h := WithAdded(h, task, adder);
      ghost var mid := h;
      ToldOne(ls, old(h), AddEvent, mid);
      AddedInv(concurrency, running, queue, old(h), task, adder, h);
      SizeAppend(queue, task);
      queue := queue + [task];
      size := |queue|;
      pending := running;
      Process();
      ToldTransitive(ls, old(h), mid, h);
    }

    method Process()
      requires Valid()
      modifies this`running, this`size, this`pending, this`queue, this`h
      decreases SizeAll(queue), 0
      ensures Told(listeners, old(h), h)
      ensures Valid() && Extends(old(h), h)
      ensures SizeAll(queue) <= old(SizeAll(queue))
      ensures running == concurrency || queue == []
      ensures old(Tidy()) ==> Tidy()
    {
      ghost var ls := listeners;
      ToldNothing(ls, h, h);
      while running < concurrency && queue != []
        invariant Valid() && Extends(old(h), h) && Told(ls, old(h), h)
        invariant SizeAll(queue) <= old(SizeAll(queue))
        invariant old(Tidy()) ==> Tidy()
        decreases SizeAll(queue)
      {
        var next := queue[0];
        ghost var before := h;
        assert queue == [next] + queue[1..];
        queue := queue[1..];
        size := |queue|;
        running := running + 1;
        pending := running;
        RunTask(next);
        ExtendsByOne(old(h), before, h, next, |before.promises|);
        ToldTransitive(ls, old(h), before, h);
      }
    }

    /** next.task(): the synchronous part of the code of task number k, which adds all it adds, in its order. */
    method CallTask(next: Task, k: nat) returns (threw: bool)
      requires Valid() && Tidy() && k < |h.promises| && h.promises[k] == Active && h.started[k] == next
      requires AddedBy(h.added, h.adders, Some(k)) == []
      modifies this`running, this`size, this`pending, this`queue, this`h
      decreases SizeAll(queue) + SizeAll(next.spawns), 2
      ensures Told(listeners, old(h), h)
      ensures threw == next.throwsAtOnce && Valid() && Tidy()
      ensures ExtendsFrom(k, old(h), h) && h.promises[k] == Active && h.started[k] == next
      ensures AddedBy(h.added, h.adders, Some(k)) == next.spawns
      ensures SizeAll(queue) <= old(SizeAll(queue)) + SizeAll(next.spawns)
    {
      ghost var ls := listeners;
      var i := 0;
      ToldNothing(ls, h, h);
      while i < |next.spawns|
        invariant 0 <= i <= |next.spawns| && Told(ls, old(h), h)
        invariant Valid() && Tidy() && Adding(old(h), h, next, k, i)
        invariant SizeAll(queue) + SizeAll(next.spawns[i..]) <= old(SizeAll(queue)) + SizeAll(next.spawns)
      {
        assert next.spawns[i..][1..] == next.spawns[i + 1..];
        ghost var earlier := h;
        Add(next.spawns[i], Some(k));
        AddedNext(old(h), earlier, h, next, k, i);
        ToldTransitive(ls, old(h), earlier, h);
        i := i + 1;
      }
      assert next.spawns[..i] == next.spawns;
      threw := next.throwsAtOnce;
    }

    /** The 'next' event and the async closure up to its first suspension; only the task that was at the head of the
        queue may be run. */
    method RunTask(next: Task)
      requires AllListed(listeners) && running <= concurrency && Inv(concurrency, running - 1, [next] + queue, h) && Tidy()
      modifies this`running, this`size, this`pending, this`queue, this`h
      decreases SizeAll(queue) + SizeAll(next.spawns), 3
      ensures Told(listeners, old(h), h)
      ensures Valid() && Tidy() && |old(h).promises| < |h.promises|
      ensures RanFrom(old(h), next, |old(h).promises|, h)
      ensures AddedBy(h.added, h.adders, Some(|old(h).promises|)) == next.spawns
      ensures SizeAll(queue) <= old(SizeAll(queue)) + SizeAll(next.spawns)
    {
      ghost var ls := listeners;
      var k := |h.promises|;
      var threw := Emit(NextEvent);
      assert !threw;
      h := WithStarted(h, next);
      StartedInv(concurrency, running - 1, queue, old(h), next, h);
      ghost var called := h;
      ToldOne(ls, old(h), NextEvent, called);
      threw := CallTask(next, k);
      ghost var ran := h;
      ToldTransitive(ls, old(h), called, ran);
      if threw {
        Settle(k, false);
      } else {
        PromiseInv(concurrency, running, queue, h, k, Suspended, WithPromise(h, k, Suspended));
        h := WithPromise(h, k, Suspended);
        ToldNothing(ls, ran, h);
      }
      ToldTransitive(ls, old(h), ran, h);
      RanTask(old(h), called, ran, h, next, k);
    }

    method Resolve(k: nat)
      requires k < |h.promises|
      modifies this`h
      ensures h == WithPromise(old(h), k, OnResolve(old(h).promises[k]))
    {
      h := WithPromise(h, k, OnResolve(h.promises[k]));
    }

    method Reject(k: nat)
      requires k < |h.promises|
      modifies this`h
      ensures h == WithPromise(old(h), k, OnReject(old(h).promises[k]))
    {
      h := WithPromise(h, k, OnReject(h.promises[k]));
    }

    /** The try from the moment the awaited task returns or throws, and the catch.  Whatever listeners throw, resolve or
        reject is called by the task's outcome, and never both. */
    method TryCatch(k: nat, fulfilled: bool) returns (threw: bool)
      requires AllListed(listeners) && k < |h.promises| && IsLive(h.promises[k])
      modifies this`h
      ensures !threw && h.heard == old(h).heard + listeners[EventOf(fulfilled)]
      ensures h.emitted == old(h).emitted + [EventOf(fulfilled)]
      ensures h == WithPromise(old(h), k, SettledBy(fulfilled)).(emitted := h.emitted, heard := h.heard)
    {
      threw := !fulfilled;
      if !threw {
        Resolve(k);
        threw := Emit(CompletedEvent);
      }
      if threw {
        Reject(k);
        threw := Emit(ErrorEvent);
      }
    }

    /** The rest of the async closure once the awaited task settles: the try and catch, and the finally. */
    method Settle(k: nat, fulfilled: bool)
      requires Valid() && Tidy() && k < |h.promises| && IsLive(h.promises[k])
      requires AddedBy(h.added, h.adders, Some(k)) == h.started[k].spawns
      modifies this`running, this`size, this`pending, this`queue, this`h
      decreases SizeAll(queue), 1
      ensures Told(listeners, old(h), h)
      ensures Valid() && Tidy() && Extends(WithPromise(old(h), k, SettledBy(fulfilled)), h)
      ensures SizeAll(queue) <= old(SizeAll(queue))
      ensures running == concurrency || queue == []
    {
      ghost var ls := listeners;
      var threw := TryCatch(k, fulfilled);
      assert !threw;
      PromiseInv(concurrency, running, queue, old(h), k, SettledBy(fulfilled), h);
      ghost var mid := h;
      ToldOne(ls, old(h), EventOf(fulfilled), mid);
      running := running - 1;
      pending := running;
      Process();
      ToldTransitive(ls, old(h), mid, h);
    }

    /** From outside: enqueueTask, when no call is in progress. */
    method Enqueue(task: Task)
      requires Quiet()
      modifies this`running, this`size, this`pending, this`queue, this`h
      ensures Told(listeners, old(h), h)
      ensures Quiet() && Extends(WithAdded(old(h), task, None), h)
    {
      Add(task, None);
    }

    /** From outside: what promise k's task awaits settles. */
    method Resume(k: nat, fulfilled: bool)
      requires Quiet() && k < |h.promises| && h.promises[k] == Suspended
      modifies this`running, this`size, this`pending, this`queue, this`h
      ensures Told(listeners, old(h), h)
      ensures Quiet() && Extends(WithPromise(old(h), k, SettledBy(fulfilled)), h)
    {
      assert Spawned(h, k);
      Settle(k, fulfilled);
    }

    method Stimulate(s: Stimulus)
      requires Quiet()
      modifies this`running, this`size, this`pending, this`queue, this`h
      ensures Told(listeners, old(h), h)
      ensures Quiet() && Later(old(h), h)
      ensures AddedOutside(h) == AddedOutside(old(h)) + (if s.Enqueue? then [s.task] else [])
    {
      ghost var ls := listeners;
      ToldNothing(ls, h, h);
      match s {
        case Enqueue(task) =>
          Enqueue(task);
          EnqueuedOne(old(h), task, h);
        case Resume(k, fulfilled) =>
          if k < |h.promises| && h.promises[k] == Suspended {
            Resume(k, fulfilled);
            ResumedOne(old(h), k, SettledBy(fulfilled), h);
          }
      }
    }

    /** Any sequence of stimuli: what is enqueued is added, in order; the tasks whose code is called, followed by those
        queued, are the tasks added, in order; and a settled promise never changes again. */
    method Drive(stimuli: seq<Stimulus>)
      requires Quiet()
      modifies this`running, this`size, this`pending, this`queue, this`h
      ensures Told(listeners, old(h), h)
      ensures Quiet() && Later(old(h), h) && h.added == h.started + queue
      ensures AddedOutside(h) == AddedOutside(old(h)) + Enqueued(stimuli)
    {
      ghost var ls := listeners;
      var i := 0;
      ToldNothing(ls, h, h);
      while i < |stimuli|
        invariant 0 <= i <= |stimuli| && Quiet() && Later(old(h), h) && Told(ls, old(h), h)
        invariant AddedOutside(h) == AddedOutside(old(h)) + Enqueued(stimuli[..i])
      {
        ghost var before := h;
        Stimulate(stimuli[i]);
        LaterTransitive(old(h), before, h);
        ToldTransitive(ls, old(h), before, h);
        assert stimuli[..i + 1][..i] == stimuli[..i];
        i := i + 1;
      }
      assert stimuli[..i] == stimuli;
    }
  }

  /* ----------------------------- what Inv amounts to -------------------------- */

  /** Between calls every slot that can be used is used, and every task added is queued, running or settled. */
  lemma RunningIsMinimum(c: nat, running: int, queue: seq<Task>, h: History)
    requires Inv(c, running, queue, h) && (running == c || queue == [])
    ensures running == Min(c, |h.added| - Count(h.promises, FULFILLED) - Count(h.promises, REJECTED))
    ensures |h.added| == |queue| + running + Count(h.promises, FULFILLED) + Count(h.promises, REJECTED)
  {
    EveryPromiseCounts(h.promises);
  }

  /** Between two moments of an unchanged registration every listener is called exactly as often as it is registered, for each
      task added, for each started, for each promise fulfilled and for each rejected. */
  lemma ListenersAreCalled(c: nat, running: int, queue: seq<Task>, h: History, runningLater: int, queueLater: seq<Task>, later: History,
                           ls: Listeners, l: Listener, added: int, started: int, fulfilled: int, rejected: int)
    requires Inv(c, running, queue, h) && Inv(c, runningLater, queueLater, later) && Told(ls, h, later)
    requires added == |later.added| - |h.added| && started == |later.started| - |h.started|
    requires fulfilled == Count(later.promises, FULFILLED) - Count(h.promises, FULFILLED)
    requires rejected == Count(later.promises, REJECTED) - Count(h.promises, REJECTED)
    ensures multiset(later.heard)[l] == multiset(h.heard)[l] + Calls(ls, added, AddEvent, l) + Calls(ls, started, NextEvent, l)
                                        + Calls(ls, fulfilled, CompletedEvent, l) + Calls(ls, rejected, ErrorEvent, l)
  {
    assert ToldOf(ls, h, later, l);
  }

  lemma {:induction false} AddedByPrefix(added: seq<Task>, adders: seq<Option<nat>>, n: nat, who: Option<nat>)
    requires n <= |added| == |adders|
    ensures AddedBy(added[..n], adders[..n], who) <= AddedBy(added, adders, who)
    decreases |added|
  {
    if n == |added| {
      assert added[..n] == added && adders[..n] == adders;
    } else {
      var m := |added| - 1;
      assert added[..m][..n] == added[..n] && adders[..m][..n] == adders[..n];
      AddedByPrefix(added[..m], adders[..m], n, who);
    }
  }

  /** Starts are first in, first out: between two moments, the tasks whose code was called, in that order, followed by
      those still queued, are those queued at the first, followed by those added since. */
  lemma StartsInOrder(c: nat, running: int, queue: seq<Task>, h: History, runningLater: int, queueLater: seq<Task>, later: History)
    requires Inv(c, running, queue, h) && Inv(c, runningLater, queueLater, later) && Later(h, later)
    ensures later.started[|h.started|..] + queueLater == queue + later.added[|h.added|..]
  {
    var n := |h.started|;
    assert later.added == h.added + later.added[|h.added|..];
    assert later.added[n..] == queue + later.added[|h.added|..];
    assert later.added[n..] == later.started[n..] + queueLater;
  }

  /** Of what one task, or the outside, added, what has been called is the part added first. */
  lemma CalledAreFirstAdded(c: nat, running: int, queue: seq<Task>, h: History, who: Option<nat>, n: nat)
    requires Inv(c, running, queue, h) && n == |h.started|
    ensures AddedBy(h.started, h.adders[..n], who) <= AddedBy(h.added, h.adders, who)
  {
    assert h.added[..n] == h.started;
    AddedByPrefix(h.added, h.adders, n, who);
  }
}
