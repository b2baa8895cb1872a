/**
 One-time pre-keys: the transactions of lib/e2ee-runtime-service.ts that reserve and consume them, the device
 registration of app/api/e2ee/devices/register/route.ts that replaces them, and the cleanup of
 lib/retention-policy.ts that deletes them.  Each transaction is one atomic step; bootstraps interleave freely.
 */
module PreKeys {
  import opened Common

  type RowId = nat
  type Device = string

  datatype Status = Available | Reserved | Consumed

  function Rank(s: Status): nat {
    match s
    case Available => 0
    case Reserved => 1
    case Consumed => 2
  }

  /** A row of OneTimePreKey. */
  datatype Row = Row(device: Device, keyId: string, createdAt: int, status: Status, consumedAt: int)

  type Table = map<RowId, Row>

  /** What findFirst may answer for the AVAILABLE keys of a device in createdAt order; ties are the database's choice. */
  ghost predicate IsOldest(rows: Table, device: Device, pick: Option<RowId>) {
    match pick
    case None => forall r | r in rows && rows[r].device == device :: rows[r].status != Available
    case Some(p) =>
      && p in rows && rows[p].device == device && rows[p].status == Available
      && forall r | r in rows && rows[r].device == device && rows[r].status == Available :: rows[p].createdAt <= rows[r].createdAt
  }

  /** The reserving transaction, given findFirst's answer. */
  function Reserve(rows: Table, pick: Option<RowId>): Table {
    if pick.None? || pick.value !in rows then rows else rows[pick.value := rows[pick.value].(status := Reserved)]
  }

  /** The consuming half of the bootstrap transaction: (device, keyId) is unique, so at most one row matches. */
  function Consume(rows: Table, device: Device, keyId: string, now: int): Table {
    map r | r in rows ::
      if rows[r].device == device && rows[r].keyId == keyId && rows[r].status != Consumed
      then rows[r].(status := Consumed, consumedAt := now) else rows[r]
  }

  /** Retention deletes CONSUMED keys consumed before a date. */
  function Purge(rows: Table, before: int): Table {
    map r | r in rows && !(rows[r].status == Consumed && rows[r].consumedAt < before) :: rows[r]
  }

  /** Registration deletes a device's unconsumed keys and inserts new ones, createdAt being the insertion time.  Ids are
      trimmed beforehand, and entries without one are dropped. */
  function Remaining(rows: Table, device: Device): Table {
    map r | r in rows && !(rows[r].device == device && rows[r].status != Consumed) :: rows[r]
  }

  function Inserted(device: Device, keys: map<RowId, string>, now: int): Table {
    map r | r in keys :: Row(device, keys[r], now, Available, 0)
  }

  /** The unique index on (deviceId, keyId): a registration that violates it is rolled back. */
  ghost predicate Unique(rows: Table) {
    forall a, b | a in rows && b in rows && a != b :: rows[a].device != rows[b].device || rows[a].keyId != rows[b].keyId
  }

  /** A session row: the key it was created with, and, as bookkeeping, the call that created it. */
  datatype Session = Session(bootstrapPreKeyId: Option<string>, createdBy: nat)

  /** The tables, with the two transactions of lib/e2ee-runtime-service.ts. */
  class Database {
    var rows: Table
    var sessions: map<(Device, Device), Session>

    /** The transaction in getRuntimePreKeyBundle; `found` is findFirst's answer. */
    method ReserveKey(ghost device: Device, found: Option<RowId>) returns (reservation: Option<Row>)
      requires IsOldest(rows, device, found)
      modifies this`rows
      ensures rows == Reserve(old(rows), found)
      ensures found.None? ==> rows == old(rows) && reservation == None
      ensures found.Some? ==>
                && rows == old(rows)[found.value := old(rows)[found.value].(status := Reserved)]
                && reservation == Some(old(rows)[found.value].(status := Reserved))
    {
      if found.None? {
        return None;
      }
      rows := rows[found.value := rows[found.value].(status := Reserved)];
      reservation := Some(rows[found.value]);
    }

    /** The transaction in bootstrapDeviceSession: consume the key, then create the session or refresh it. */
    method BootstrapSession(call: nat, initiator: Device, recipient: Device, keyId: Option<string>,
                            selected: Option<RowId>, now: int)
      requires Unique(rows)
      requires Truthy(keyId) ==>
                 if selected.Some? then selected.value in rows && rows[selected.value].device == recipient && rows[selected.value].keyId == keyId.value
                 else forall r | r in rows :: rows[r].device != recipient || rows[r].keyId != keyId.value
      modifies this
      ensures rows == if Truthy(keyId) then Consume(old(rows), recipient, keyId.value, now) else old(rows)
      ensures rows.Keys == old(rows).Keys
      ensures forall r | r in rows ::
                var row := old(rows)[r];
                rows[r] == if Truthy(keyId) && row.device == recipient && row.keyId == keyId.value
                           then row.(status := Consumed, consumedAt := if row.status == Consumed then row.consumedAt else now)
                           else row
      ensures sessions == if (initiator, recipient) in old(sessions) then old(sessions)
                          else old(sessions)[(initiator, recipient) := Session(keyId, call)]
    {
      if Truthy(keyId) && selected.Some? && rows[selected.value].status != Consumed {
        rows := rows[selected.value := rows[selected.value].(status := Consumed, consumedAt := now)];
      }
      if (initiator, recipient) !in sessions {
        sessions := sessions[(initiator, recipient) := Session(keyId, call)];
      }
    }
  }

  /* --------------------------------- the system ------------------------------ */

  /** A key handed to a call, as it was when handed out. */
  datatype Handout = Handout(call: nat, row: RowId, device: Device, keyId: string, createdAt: int)

  /** The tables, and the history: what was handed out in order, the calls that have reserved or bootstrapped,
      the rows ever inserted, and where rows went. */
  datatype State = State(
    now: int, rows: Table, sessions: map<(Device, Device), Session>,
    handed: seq<Handout>, reserved: map<nat, (Device, Option<string>)>, finished: set<nat>,
    inserted: set<RowId>, purged: set<RowId>, replaced: set<RowId>)

  datatype Event =
    | Tick(ms: nat)
    | ReserveTx(call: nat, device: Device, found: Option<RowId>)
    | BootstrapTx(call: nat, initiator: Device)
    | RetentionTx(before: int)
    | RegisterTx(device: Device, keys: map<RowId, string>)

  const INIT := State(0, map[], map[], [], map[], {}, {}, {}, {})

  function ReserveState(s: State, call: nat, device: Device, found: Option<RowId>): State {
    s.(rows := Reserve(s.rows, found),
       reserved := s.reserved[call := (device, if found.Some? && found.value in s.rows then Some(s.rows[found.value].keyId) else None)],
       handed := if found.Some? && found.value in s.rows
                 then s.handed + [Handout(call, found.value, device, s.rows[found.value].keyId, s.rows[found.value].createdAt)]
                 else s.handed)
  }

  function BootstrapState(s: State, call: nat, initiator: Device): State
    requires call in s.reserved
  {
    var (device, keyId) := s.reserved[call];
    s.(rows := if Truthy(keyId) then Consume(s.rows, device, keyId.value, s.now) else s.rows,
       sessions := if (initiator, device) in s.sessions then s.sessions else s.sessions[(initiator, device) := Session(keyId, call)],
       finished := s.finished + {call})
  }

  function RetentionState(s: State, before: int): State {
    s.(rows := Purge(s.rows, before), purged := s.purged + (s.rows.Keys - Purge(s.rows, before).Keys))
  }

  function RegisterState(s: State, device: Device, keys: map<RowId, string>): State {
    s.(rows := Remaining(s.rows, device) + Inserted(device, keys, s.now),
       inserted := s.inserted + keys.Keys,
       replaced := s.replaced + (s.rows.Keys - Remaining(s.rows, device).Keys))
  }

  /** Which events the code and the database allow in a state. */
  ghost predicate Enabled(s: State, e: Event) {
    match e
    case Tick(ms) => true
    case ReserveTx(call, device, found) => call !in s.reserved && IsOldest(s.rows, device, found)
    case BootstrapTx(call, initiator) => call in s.reserved && call !in s.finished
    case RetentionTx(before) => true
    case RegisterTx(device, keys) =>
      keys.Keys !! s.inserted && (forall r | r in keys :: keys[r] != "") && Unique(Remaining(s.rows, device) + Inserted(device, keys, s.now))
  }

  function Step(s: State, e: Event): State {
    match e
    case Tick(ms) => s.(now := s.now + ms)
    case ReserveTx(call, device, found) => ReserveState(s, call, device, found)
    case BootstrapTx(call, initiator) => if call in s.reserved then BootstrapState(s, call, initiator) else s
    case RetentionTx(before) => RetentionState(s, before)
    case RegisterTx(device, keys) => RegisterState(s, device, keys)
  }

  predicate HandedOut(s: State, device: Device, keyId: string) {
    exists i :: 0 <= i < |s.handed| && s.handed[i].device == device && s.handed[i].keyId == keyId
  }

  /** The event is a registration that brings a key id of its device that some call already holds. */
  ghost predicate BringsHandedOut(s: State, e: Event) {
    e.RegisterTx? && exists r :: r in e.keys && HandedOut(s, e.device, e.keys[r])
  }

  function Run(events: seq<Event>): State {
    if events == [] then INIT else Step(Run(events[..|events| - 1]), events[|events| - 1])
  }

  /** Every event of the run was enabled when it happened, and, if asked, no registration brought a handed-out id. */
  ghost predicate Legal(events: seq<Event>, noReuse: bool)
    decreases |events|
  {
    events == [] ||
    (&& Legal(events[..|events| - 1], noReuse)
     && Enabled(Run(events[..|events| - 1]), events[|events| - 1])
     && (noReuse ==> !BringsHandedOut(Run(events[..|events| - 1]), events[|events| - 1])))
  }

  /* ------------------- status order and conservation of rows ----------------- */

  /** No step moves a row's status backwards or changes anything else about it, and a row leaves the table only
      CONSUMED by retention or unconsumed by a registration of its own device. */
  lemma StatusOnlyAdvances(s: State, e: Event, r: RowId)
    requires Enabled(s, e) && r in s.rows
    requires s.rows.Keys <= s.inserted
    ensures var t := Step(s, e);
            if r in t.rows then
              && Rank(s.rows[r].status) <= Rank(t.rows[r].status)
              && t.rows[r].device == s.rows[r].device && t.rows[r].keyId == s.rows[r].keyId
              && t.rows[r].createdAt == s.rows[r].createdAt
            else
              || (e.RetentionTx? && s.rows[r].status == Consumed && r in t.purged)
              || (e.RegisterTx? && s.rows[r].status != Consumed && e.device == s.rows[r].device && r in t.replaced)
  {
  }

  /** Every row ever inserted is in the table, purged after consumption, or replaced by a registration. */
  ghost predicate Conserved(s: State) {
    && s.inserted == s.rows.Keys + s.purged + s.replaced
    && s.rows.Keys !! s.purged && s.rows.Keys !! s.replaced && s.purged !! s.replaced
  }

  lemma StepConserves(s: State, e: Event, t: State)
    requires Conserved(s) && Enabled(s, e) && t == Step(s, e)
    ensures Conserved(t)
  {
    match e
    case RetentionTx(before) =>
      assert t.rows.Keys <= s.rows.Keys;
    case RegisterTx(device, keys) =>
      assert t.rows.Keys == Remaining(s.rows, device).Keys + keys.Keys;
      assert Remaining(s.rows, device).Keys <= s.rows.Keys;
    case _ =>
      assert t.rows.Keys == s.rows.Keys;
  }

  lemma {:induction false} RowsAreConserved(events: seq<Event>)
    requires Legal(events, false)
    ensures Conserved(Run(events))
    decreases |events|
  {
    if events != [] {
      RowsAreConserved(events[..|events| - 1]);
      StepConserves(Run(events[..|events| - 1]), events[|events| - 1], Run(events));
    }
  }

  /* -------------------------- handed out once, oldest first ------------------- */

  ghost predicate RowsKnown(s: State) {
    && Conserved(s) && Unique(s.rows)
    && forall r | r in s.rows :: s.rows[r].createdAt <= s.now
  }

  ghost predicate HandoutsKnown(s: State) {
    forall i | 0 <= i < |s.handed| ::
      var h := s.handed[i];
      && h.row in s.inserted && h.createdAt <= s.now
      && h.call in s.reserved && s.reserved[h.call] == (h.device, Some(h.keyId))
  }

  /** A row in the table that was handed out is no longer available, and the handout still describes it. */
  ghost predicate HandoutsTaken(s: State) {
    forall i, r | 0 <= i < |s.handed| && r in s.rows && s.handed[i].row == r ::
      s.rows[r].status != Available && s.rows[r].device == s.handed[i].device && s.rows[r].keyId == s.handed[i].keyId
  }

  ghost predicate AvailableAreNewer(s: State) {
    forall i, r | 0 <= i < |s.handed| && r in s.rows && s.rows[r].status == Available && s.rows[r].device == s.handed[i].device ::
      s.handed[i].createdAt <= s.rows[r].createdAt
  }

  ghost predicate HandoutsInOrder(s: State) {
    forall i, j | 0 <= i < j < |s.handed| ::
      && s.handed[i].row != s.handed[j].row
      && s.handed[i].call != s.handed[j].call
      && (s.handed[i].device == s.handed[j].device ==> s.handed[i].createdAt <= s.handed[j].createdAt)
  }

  ghost predicate HandedInv(s: State) {
    RowsKnown(s) && HandoutsKnown(s) && HandoutsTaken(s) && AvailableAreNewer(s) && HandoutsInOrder(s)
  }

  lemma ReserveKeepsHanded(s: State, call: nat, device: Device, found: Option<RowId>, t: State)
    requires HandedInv(s) && call !in s.reserved && IsOldest(s.rows, device, found) && t == ReserveState(s, call, device, found)
    ensures HandedInv(t)
  {
    assert t.rows.Keys == s.rows.Keys;
    if found.Some? {
      ReserveAppends(s, call, device, found.value, t);
    }
  }

  lemma ReserveAppends(s: State, call: nat, device: Device, p: RowId, t: State)
    requires HandedInv(s) && call !in s.reserved && IsOldest(s.rows, device, Some(p)) && t == ReserveState(s, call, device, Some(p))
    ensures HandedInv(t)
  {
    var h := Handout(call, p, device, s.rows[p].keyId, s.rows[p].createdAt);
    var row := s.rows[p].(status := Reserved);
    assert t.rows.Keys == s.rows.Keys;
    forall i | 0 <= i < |s.handed| ensures s.handed[i].call in s.reserved && s.handed[i].row != p {
    }
    ReserveKeepsTaken(s, p, row, h, t);
    ReserveKeepsNewer(s, p, row, h, t);
    ReserveKeepsOrder(s, h, t);
    assert RowsKnown(t);
    assert HandoutsKnown(t);
  }

  lemma ReserveKeepsTaken(s: State, p: RowId, row: Row, h: Handout, t: State)
    requires p in s.rows && row == s.rows[p].(status := Reserved) && t.rows == s.rows[p := row]
    requires h.row == p && h.device == row.device && h.keyId == row.keyId && t.handed == s.handed + [h]
    requires HandoutsTaken(s)
    ensures HandoutsTaken(t)
  {
  }

  lemma ReserveKeepsNewer(s: State, p: RowId, row: Row, h: Handout, t: State)
    requires p in s.rows && row == s.rows[p].(status := Reserved) && t.rows == s.rows[p := row]
    requires IsOldest(s.rows, h.device, Some(p)) && h.createdAt == row.createdAt && t.handed == s.handed + [h]
    requires AvailableAreNewer(s)
    ensures AvailableAreNewer(t)
  {
  }

  lemma ReserveKeepsOrder(s: State, h: Handout, t: State)
    requires t.handed == s.handed + [h] && HandoutsInOrder(s) && AvailableAreNewer(s)
    requires forall i | 0 <= i < |s.handed| :: s.handed[i].call != h.call && s.handed[i].row != h.row
    requires h.row in s.rows && s.rows[h.row].status == Available && s.rows[h.row].device == h.device
    requires s.rows[h.row].createdAt == h.createdAt
    ensures HandoutsInOrder(t)
  {
  }

  lemma BootstrapKeepsHanded(s: State, call: nat, initiator: Device, t: State)
    requires HandedInv(s) && call in s.reserved && call !in s.finished && t == BootstrapState(s, call, initiator)
    ensures HandedInv(t)
  {
    StepConserves(s, BootstrapTx(call, initiator), t);
    assert t.rows.Keys == s.rows.Keys;
    forall r | r in s.rows
      ensures t.rows[r].device == s.rows[r].device && t.rows[r].keyId == s.rows[r].keyId && t.rows[r].createdAt == s.rows[r].createdAt
      ensures t.rows[r].status == Available ==> s.rows[r].status == Available
    {
    }
  }

  lemma RetentionKeepsHanded(s: State, before: int, t: State)
    requires HandedInv(s) && t == RetentionState(s, before)
    ensures HandedInv(t)
  {
    StepConserves(s, RetentionTx(before), t);
    assert forall r | r in t.rows :: r in s.rows && t.rows[r] == s.rows[r];
  }

  lemma RegisterKeepsHanded(s: State, device: Device, keys: map<RowId, string>, t: State)
    requires HandedInv(s) && Enabled(s, RegisterTx(device, keys)) && t == RegisterState(s, device, keys)
    ensures HandedInv(t)
  {
    StepConserves(s, RegisterTx(device, keys), t);
    forall r | r in t.rows
      ensures if r in keys then t.rows[r] == Row(device, keys[r], s.now, Available, 0)
              else r in s.rows && t.rows[r] == s.rows[r]
    {
    }
    forall i | 0 <= i < |s.handed| ensures s.handed[i].row !in keys {
    }
  }

  lemma StepKeepsHanded(s: State, e: Event, t: State)
    requires HandedInv(s) && Enabled(s, e) && t == Step(s, e)
    ensures HandedInv(t)
  {
    match e
    case Tick(ms) =>
      assert t.rows == s.rows && t.handed == s.handed && t.now >= s.now;
    case ReserveTx(call, device, found) => ReserveKeepsHanded(s, call, device, found, t);
    case BootstrapTx(call, initiator) => BootstrapKeepsHanded(s, call, initiator, t);
    case RetentionTx(date) => RetentionKeepsHanded(s, date, t);
    case RegisterTx(device, keys) => RegisterKeepsHanded(s, device, keys, t);
  }

  lemma {:induction false} HandedInvariant(events: seq<Event>, noReuse: bool)
    requires Legal(events, noReuse)
    ensures HandedInv(Run(events))
    decreases |events|
  {
    if events != [] {
      HandedInvariant(events[..|events| - 1], noReuse);
      StepKeepsHanded(Run(events[..|events| - 1]), events[|events| - 1], Run(events));
    }
  }

  /** Over every run no row is handed to two calls, and a device's keys are handed out oldest first. */
  lemma OncePerRowOldestFirst(events: seq<Event>, i: nat, j: nat)
    requires Legal(events, false) && i < j < |Run(events).handed|
    ensures var s := Run(events);
            && s.handed[i].row != s.handed[j].row && s.handed[i].call != s.handed[j].call
            && (s.handed[i].device == s.handed[j].device ==> s.handed[i].createdAt <= s.handed[j].createdAt)
  {
    HandedInvariant(events, false);
  }

  /* ------------------------- what becomes of a handed-out key ----------------- */

  /** Key ids are not empty, only calls that have reserved finish, and the row handed to a finished call is CONSUMED for
      as long as it is in the table. */
  ghost predicate FinishedInv(s: State) {
    && (forall r | r in s.rows :: s.rows[r].keyId != "")
    && s.finished <= s.reserved.Keys
    && forall i | 0 <= i < |s.handed| && s.handed[i].call in s.finished && s.handed[i].row in s.rows ::
         s.rows[s.handed[i].row].status == Consumed
  }

  lemma BootstrapFinishes(s: State, call: nat, initiator: Device, t: State, i: nat)
    requires HandedInv(s) && FinishedInv(s) && call in s.reserved && t == BootstrapState(s, call, initiator)
    requires i < |s.handed| && s.handed[i].call in t.finished && s.handed[i].row in s.rows
    ensures t.rows[s.handed[i].row].status == Consumed
  {
    var h := s.handed[i];
    assert s.rows[h.row].device == h.device && s.rows[h.row].keyId == h.keyId && s.rows[h.row].keyId != "";
    assert s.reserved[h.call] == (h.device, Some(h.keyId));
  }

  lemma RegisterFinishes(s: State, device: Device, keys: map<RowId, string>, t: State)
    requires HandedInv(s) && FinishedInv(s) && Enabled(s, RegisterTx(device, keys)) && t == RegisterState(s, device, keys)
    ensures FinishedInv(t)
  {
    forall i | 0 <= i < |s.handed| ensures s.handed[i].row !in keys {
    }
    forall r | r in t.rows ensures t.rows[r].keyId != "" && (r !in keys ==> r in s.rows && t.rows[r] == s.rows[r]) {
    }
  }

  lemma StepFinishes(s: State, e: Event, t: State)
    requires HandedInv(s) && FinishedInv(s) && Enabled(s, e) && t == Step(s, e)
    ensures FinishedInv(t)
  {
    match e
    case ReserveTx(call, device, found) =>
      forall i | 0 <= i < |s.handed| ensures t.handed[i] == s.handed[i] && Some(s.handed[i].row) != found {
      }
    case BootstrapTx(call, initiator) =>
      forall i | 0 <= i < |s.handed| && s.handed[i].call in t.finished && s.handed[i].row in s.rows
        ensures t.rows[s.handed[i].row].status == Consumed
      {
        BootstrapFinishes(s, call, initiator, t, i);
      }
    case RegisterTx(device, keys) =>
      RegisterFinishes(s, device, keys, t);
    case _ =>
      assert t.handed == s.handed;
      assert forall r | r in t.rows :: r in s.rows && t.rows[r] == s.rows[r];
  }

  lemma {:induction false} RunFinishes(events: seq<Event>)
    requires Legal(events, false)
    ensures HandedInv(Run(events)) && FinishedInv(Run(events))
    decreases |events|
  {
    HandedInvariant(events, false);
    if events != [] {
      RunFinishes(events[..|events| - 1]);
      StepFinishes(Run(events[..|events| - 1]), events[|events| - 1], Run(events));
    }
  }

  /** Over every run, the key handed to a call that has finished its bootstrap is CONSUMED for as long as its row is in
      the table; otherwise retention has deleted it, or a registration of the device did, at a moment when it was still
      RESERVED and the call had not finished: the n-th event. */
  lemma FinishedIsConsumed(events: seq<Event>, h: Handout) returns (n: nat)
    requires Legal(events, false) && h in Run(events).handed && h.call in Run(events).finished
    ensures var s := Run(events);
            if h.row in s.rows then
              s.rows[h.row].status == Consumed && s.rows[h.row].device == h.device && s.rows[h.row].keyId == h.keyId
            else
              h.row in s.purged || (h.row in s.replaced && ReplacedAt(events, h, n))
  {
    RunFinishes(events);
    var s := Run(events);
    var i :| 0 <= i < |s.handed| && s.handed[i] == h;
    n := 0;
    if h.row in s.replaced {
      n := ReplacedWhileReserved(events, h);
    }
  }

  /** The n-th event is a registration of the device that finds the key RESERVED and its call unfinished. */
  ghost predicate ReplacedAt(events: seq<Event>, h: Handout, n: nat) {
    && n < |events| && events[n].RegisterTx? && events[n].device == h.device
    && h in Run(events[..n]).handed && h.call !in Run(events[..n]).finished
    && h.row in Run(events[..n]).rows && Run(events[..n]).rows[h.row].status == Reserved
    && h.row !in Run(events[..n + 1]).rows
  }

  lemma {:induction false} ReplacedWhileReserved(events: seq<Event>, h: Handout) returns (n: nat)
    requires Legal(events, false) && h in Run(events).handed && h.row in Run(events).replaced
    ensures ReplacedAt(events, h, n)
    decreases |events|
  {
    var past, e := events[..|events| - 1], events[|events| - 1];
    var s, t := Run(past), Run(events);
    RunFinishes(past);
    RunFinishes(events);
    HandedBefore(s, e, t, h);
    if h.row in s.replaced {
      n := ReplacedWhileReserved(past, h);
      assert events[..n] == past[..n] && events[..n + 1] == past[..n + 1];
    } else {
      n := |past|;
      assert events[..n + 1] == events;
      var i :| 0 <= i < |s.handed| && s.handed[i] == h;
      StatusOnlyAdvances(s, e, h.row);
    }
  }

  /** A row that is gone was handed out before the step that removed it. */
  lemma HandedBefore(s: State, e: Event, t: State, h: Handout)
    requires HandedInv(s) && HandedInv(t) && Enabled(s, e) && t == Step(s, e)
    requires h in t.handed && h.row in t.replaced
    ensures h in s.handed && (h.row in s.replaced || (h.row in s.rows && e.RegisterTx?))
  {
    if e.ReserveTx? {
      assert t.rows.Keys == s.rows.Keys && t.replaced == s.replaced;
    }
  }

  /** A bootstrap consumes the key its call reserved, if the table has it, and nothing else; and afterwards there is a
      session, which names that key if the bootstrap made it. */
  lemma BootstrapIsExact(s: State, call: nat, initiator: Device, t: State, device: Device, keyId: Option<string>, r: RowId)
    requires Enabled(s, BootstrapTx(call, initiator)) && t == Step(s, BootstrapTx(call, initiator))
    requires s.reserved[call] == (device, keyId)
    ensures r in t.rows <==> r in s.rows
    ensures r in t.rows ==>
              t.rows[r] == if Some(s.rows[r].keyId) == keyId && keyId.value != "" && s.rows[r].device == device
                           then s.rows[r].(status := Consumed, consumedAt := if s.rows[r].status == Consumed then s.rows[r].consumedAt else s.now)
                           else s.rows[r]
    ensures t.sessions.Keys == s.sessions.Keys + {(initiator, device)} && t.finished == s.finished + {call}
    ensures forall p | p in t.sessions :: t.sessions[p] == if p in s.sessions then s.sessions[p] else Session(keyId, call)
  {
  }

  /** Retention deletes exactly the keys consumed before the date, and changes no other. */
  lemma RetentionIsExact(s: State, before: int, t: State, r: RowId)
    requires t == Step(s, RetentionTx(before))
    ensures r in t.rows <==> r in s.rows && (s.rows[r].status != Consumed || s.rows[r].consumedAt >= before)
    ensures r in t.rows ==> t.rows[r] == s.rows[r]
    ensures t.sessions == s.sessions && t.reserved == s.reserved && t.finished == s.finished
  {
  }

  /** A registration leaves the device its consumed keys and the new ones, all AVAILABLE, and other devices everything. */
  lemma RegistrationIsExact(s: State, device: Device, keys: map<RowId, string>, t: State, r: RowId)
    requires Conserved(s) && Enabled(s, RegisterTx(device, keys)) && t == Step(s, RegisterTx(device, keys))
    ensures r in t.rows <==> r in keys || (r in s.rows && (s.rows[r].device != device || s.rows[r].status == Consumed))
    ensures r in t.rows ==> t.rows[r] == if r in keys then Row(device, keys[r], s.now, Available, 0) else s.rows[r]
    ensures t.sessions == s.sessions && t.reserved == s.reserved && t.finished == s.finished
  {
  }

  /* ----------------------- without reuse: once per key ----------------------- */

  /** A key id of a device names one row for ever, so a handed-out key is no other row's, and a session's key
      was handed to the call that created it. */
  ghost predicate KeyInv(s: State) {
    && (forall i, r | 0 <= i < |s.handed| && r in s.rows && r != s.handed[i].row ::
          s.rows[r].device != s.handed[i].device || s.rows[r].keyId != s.handed[i].keyId)
    && (forall i, j | 0 <= i < j < |s.handed| ::
          s.handed[i].device != s.handed[j].device || s.handed[i].keyId != s.handed[j].keyId)
  }

  ghost predicate SessionInv(s: State) {
    && (forall p | p in s.sessions ::
          var call := s.sessions[p].createdBy;
          && call in s.finished && call in s.reserved
          && s.reserved[call] == (p.1, s.sessions[p].bootstrapPreKeyId))
    && (forall p, q | p in s.sessions && q in s.sessions && p != q :: s.sessions[p].createdBy != s.sessions[q].createdBy)
    && (forall call | call in s.reserved && s.reserved[call].1.Some? ::
          exists i :: 0 <= i < |s.handed| && s.handed[i].call == call)
  }

  lemma ReserveKeepsKeys(s: State, call: nat, device: Device, p: RowId, t: State)
    requires HandedInv(s) && KeyInv(s) && p in s.rows && s.rows[p].status == Available && s.rows[p].device == device
    requires t == ReserveState(s, call, device, Some(p))
    ensures KeyInv(t)
  {
    assert t.handed[..|s.handed|] == s.handed;
    forall i | 0 <= i < |s.handed| ensures t.handed[i] == s.handed[i] && s.handed[i].row != p {
      assert t.handed[i] == t.handed[..|s.handed|][i];
    }
  }

  lemma RegisterKeepsKeys(s: State, device: Device, keys: map<RowId, string>, t: State)
    requires HandedInv(s) && KeyInv(s) && !BringsHandedOut(s, RegisterTx(device, keys)) && t == RegisterState(s, device, keys)
    ensures KeyInv(t)
  {
    forall i, r | 0 <= i < |s.handed| && r in t.rows && r != s.handed[i].row
      ensures t.rows[r].device != s.handed[i].device || t.rows[r].keyId != s.handed[i].keyId
    {
      if r in keys {
        assert t.rows[r].device == device && t.rows[r].keyId == keys[r];
        assert !HandedOut(s, device, keys[r]);
      } else {
        assert r in s.rows && t.rows[r] == s.rows[r];
      }
    }
  }

  lemma StepKeepsKeys(s: State, e: Event, t: State)
    requires HandedInv(s) && KeyInv(s) && Enabled(s, e) && !BringsHandedOut(s, e) && t == Step(s, e)
    ensures KeyInv(t)
  {
    match e
    case ReserveTx(call, device, found) =>
      if found.Some? {
        ReserveKeepsKeys(s, call, device, found.value, t);
      }
    case RegisterTx(device, keys) =>
      RegisterKeepsKeys(s, device, keys, t);
    case _ =>
      assert t.handed == s.handed;
      assert forall r | r in t.rows :: r in s.rows && t.rows[r].device == s.rows[r].device && t.rows[r].keyId == s.rows[r].keyId;
  }

  lemma StepKeepsSessions(s: State, e: Event, t: State)
    requires SessionInv(s) && Enabled(s, e) && t == Step(s, e)
    ensures SessionInv(t)
  {
    if e.ReserveTx? {
      forall call | call in t.reserved && t.reserved[call].1.Some?
        ensures exists i :: 0 <= i < |t.handed| && t.handed[i].call == call
      {
        if call == e.call {
          assert t.handed[|s.handed|].call == call;
        } else {
          var i :| 0 <= i < |s.handed| && s.handed[i].call == call;
          assert t.handed[i] == s.handed[i];
        }
      }
    }
  }

  lemma {:induction false} KeyInvariants(events: seq<Event>)
    requires Legal(events, true)
    ensures HandedInv(Run(events)) && KeyInv(Run(events)) && SessionInv(Run(events))
    decreases |events|
  {
    HandedInvariant(events, true);
    if events != [] {
      var before, e := Run(events[..|events| - 1]), events[|events| - 1];
      KeyInvariants(events[..|events| - 1]);
      StepKeepsKeys(before, e, Run(events));
      StepKeepsSessions(before, e, Run(events));
    }
  }

  /** If no registration brings an id of its device that is handed out, no key is handed to two calls. */
  lemma OncePerKey(events: seq<Event>, i: nat, j: nat)
    requires Legal(events, true) && i < j < |Run(events).handed|
    ensures var s := Run(events);
            (s.handed[i].device, s.handed[i].keyId) != (s.handed[j].device, s.handed[j].keyId)
  {
    KeyInvariants(events);
  }

  /** A row that matches a call's reservation has been reserved. */
  lemma ReservedIsTaken(s: State, call: nat, r: RowId)
    requires HandedInv(s) && KeyInv(s) && SessionInv(s)
    requires r in s.rows && call in s.reserved && s.reserved[call] == (s.rows[r].device, Some(s.rows[r].keyId))
    ensures s.rows[r].status != Available
  {
    var i :| 0 <= i < |s.handed| && s.handed[i].call == call;
    assert s.reserved[call] == (s.handed[i].device, Some(s.handed[i].keyId));
    assert s.handed[i].row == r;
  }

  /** Then consumption always follows a reservation: a status never moves two steps at once. */
  lemma StatusStepsByOne(events: seq<Event>, s: State, e: Event, t: State, r: RowId)
    requires Legal(events, true) && s == Run(events) && Enabled(s, e) && !BringsHandedOut(s, e) && t == Step(s, e)
    requires r in s.rows && r in t.rows
    ensures Rank(t.rows[r].status) <= Rank(s.rows[r].status) + 1
  {
    KeyInvariants(events);
    if e.BootstrapTx? {
      if t.rows[r].status != s.rows[r].status {
        ReservedIsTaken(s, e.call, r);
      }
    }
  }

  /** Then no two sessions record the same key of the same device. */
  lemma SessionsShareNoKey(events: seq<Event>, s: State, p: (Device, Device), q: (Device, Device))
    requires Legal(events, true) && s == Run(events)
    requires p in s.sessions && q in s.sessions && p != q && p.1 == q.1
    requires s.sessions[p].bootstrapPreKeyId.Some?
    ensures s.sessions[p].bootstrapPreKeyId != s.sessions[q].bootstrapPreKeyId
  {
    KeyInvariants(events);
    if s.sessions[q].bootstrapPreKeyId.Some? {
      var i :| 0 <= i < |s.handed| && s.handed[i].call == s.sessions[p].createdBy;
      var j :| 0 <= j < |s.handed| && s.handed[j].call == s.sessions[q].createdBy;
      assert s.handed[i].call != s.handed[j].call;
      assert (s.handed[i].device, Some(s.handed[i].keyId)) == (p.1, s.sessions[p].bootstrapPreKeyId);
      assert (s.handed[j].device, Some(s.handed[j].keyId)) == (q.1, s.sessions[q].bootstrapPreKeyId);
    }
  }

  /** After a registration the device's next reservation can take exactly the new keys. */
  lemma NewKeysAreNext(s: State, device: Device, keys: map<RowId, string>, t: State, call: nat, r: RowId)
    requires Enabled(s, RegisterTx(device, keys)) && t == Step(s, RegisterTx(device, keys)) && call !in s.reserved
    ensures Enabled(t, ReserveTx(call, device, Some(r))) <==> r in keys
    ensures r in keys ==> r in t.rows && t.rows[r].keyId == keys[r]
  {
    forall q | q in t.rows && t.rows[q].device == device && t.rows[q].status == Available
      ensures q in keys && t.rows[q].createdAt == s.now
    {
    }
  }

  /** Exactly these registrations do harm: after any history, once a device has registered, its next reservation can hand
      out a key that some call already holds if and only if the registration brought one. */
  lemma SecondHandoutIff(s: State, device: Device, keys: map<RowId, string>, t: State, call: nat)
    requires Enabled(s, RegisterTx(device, keys)) && t == Step(s, RegisterTx(device, keys)) && call !in s.reserved
    ensures (exists r :: Enabled(t, ReserveTx(call, device, Some(r))) && HandedOut(t, device, t.rows[r].keyId))
            <==> BringsHandedOut(s, RegisterTx(device, keys))
  {
    assert t.handed == s.handed;
    if r :| Enabled(t, ReserveTx(call, device, Some(r))) && HandedOut(t, device, t.rows[r].keyId) {
      NewKeysAreNext(s, device, keys, t, call, r);
      assert HandedOut(s, device, keys[r]);
    }
    if BringsHandedOut(s, RegisterTx(device, keys)) {
      var r :| r in keys && HandedOut(s, device, keys[r]);
      NewKeysAreNext(s, device, keys, t, call, r);
      assert HandedOut(t, device, t.rows[r].keyId);
    }
  }

  /** And that reservation then hands the key out again: two calls hold it. */
  lemma ReusedIdIsHandedTwice(s: State, device: Device, keys: map<RowId, string>, r: RowId, call: nat, t: State, u: State, i: nat)
    requires Enabled(s, RegisterTx(device, keys)) && t == Step(s, RegisterTx(device, keys)) && call !in s.reserved
    requires r in keys && i < |s.handed| && s.handed[i].device == device && s.handed[i].keyId == keys[r]
    requires u == Step(t, ReserveTx(call, device, Some(r)))
    ensures Enabled(t, ReserveTx(call, device, Some(r)))
    ensures |u.handed| == |s.handed| + 1 && u.handed[i] == s.handed[i]
    ensures (u.handed[|s.handed|].call, u.handed[|s.handed|].device, u.handed[|s.handed|].keyId) == (call, device, s.handed[i].keyId)
  {
    forall q | q in t.rows
      ensures if q in keys then t.rows[q] == Row(device, keys[q], s.now, Available, 0)
              else s.rows[q] == t.rows[q] && (t.rows[q].device == device ==> t.rows[q].status == Consumed)
    {
    }
    assert r in t.rows;
  }
}
