/**
 History pagination: getMessageHistoryExtended of lib/messaging-service.ts, with the cache bypassed, over a fixed
 snapshot of the table and of the clock.  The database may answer rows with equal timestamps in any order, and in a
 different one each time it is asked.
 */
module Pagination {
  import opened Common

  type MessageId = string
  type UserId = string

  datatype Message = Message(id: MessageId, senderId: UserId, recipientId: Option<UserId>, groupId: Option<string>,
                             createdAt: int, isDeleted: bool, expiresAt: Option<int>)

  datatype Query = Query(userId: UserId, recipientId: Option<UserId>, groupId: Option<string>)

  datatype Page = Page(messages: seq<Message>, nextCursor: Option<MessageId>)

  datatype Error = AccessDenied | TargetRequired

  /* --------------------------------- the filter ------------------------------ */

  /** The where object as it stands when the query runs: a group overrides a recipient, and the direct branch
      replaces the expiry alternative by its own. */
  predicate Matches(m: Message, q: Query, now: int) {
    && !m.isDeleted
    && (if Truthy(q.groupId) then m.groupId == q.groupId && (m.expiresAt.None? || m.expiresAt.value > now)
        else
          && Truthy(q.recipientId)
          && ((m.senderId == q.userId && m.recipientId == q.recipientId)
              || (m.senderId == q.recipientId.value && m.recipientId == Some(q.userId))))
  }

  /** Both ends of a direct conversation ask for the same messages. */
  lemma DirectHistoryIsShared(m: Message, a: UserId, b: UserId, now: int)
    requires a != "" && b != ""
    ensures Matches(m, Query(a, Some(b), None), now) == Matches(m, Query(b, Some(a), None), now)
  {
  }

  /** Expired messages leave group history but stay in direct history. */
  lemma ExpiryFiltersGroupsOnly(m: Message, q: Query, now: int)
    requires Matches(m.(expiresAt := None), q, now) && m.expiresAt.Some? && m.expiresAt.value <= now
    ensures Matches(m, q, now) <==> !Truthy(q.groupId)
  {
  }

  /* -------------------------------- the database ----------------------------- */

  /** The rows of a table that match. */
  ghost function Found(table: set<Message>, q: Query, now: int): set<Message> {
    set m | m in table && Matches(m, q, now)
  }

  /** An order in which the database may return the rows found: newest first, ties in any order. */
  ghost predicate IsNewestFirst(order: seq<Message>, found: set<Message>) {
    && (forall m :: m in order <==> m in found)
    && (forall i, j | 0 <= i < j < |order| :: order[i].id != order[j].id && order[i].createdAt >= order[j].createdAt)
  }

  function IndexOf(order: seq<Message>, id: MessageId): (i: nat)
    ensures i <= |order|
    ensures i < |order| ==> order[i].id == id
    ensures forall k | 0 <= k < i :: order[k].id != id
  {
    if order == [] || order[0].id == id then 0 else IndexOf(order[1..], id) + 1
  }

  /** Where a page starts: at the head, or one row past the cursor (nowhere if the cursor is no row of the result). */
  function Start(order: seq<Message>, cursor: Option<MessageId>): (p: nat)
    ensures p <= |order|
  {
    if !Truthy(cursor) then 0
    else
      var i := IndexOf(order, cursor.value);
      if i < |order| then i + 1 else |order|
  }

  /** findMany with take, and with cursor and skip: 1 when there is a cursor. */
  function FindMany(order: seq<Message>, cursor: Option<MessageId>, take: nat): seq<Message> {
    var p := Start(order, cursor);
    if p + take <= |order| then order[p..p + take] else order[p..]
  }

  /* ---------------------------------- one page ------------------------------- */

  function Reversed(s: seq<Message>): (r: seq<Message>)
    ensures |r| == |s|
    ensures forall i | 0 <= i < |s| :: r[i] == s[|s| - 1 - i]
  {
    seq(|s|, i requires 0 <= i < |s| => s[|s| - 1 - i])
  }

  function EffectiveLimit(limit: nat): nat {
    if limit < 100 then limit else 100
  }

  /** The page made of the rows found, one more than fit having been asked for. */
  function PageOf(messages: seq<Message>, size: nat): Page {
    var hasMore := |messages| > size;
    var result := Reversed(if hasMore then messages[..size] else messages);
    Page(result, if hasMore && |result| > 0 then Some(result[0].id) else None)
  }

  function PageFor(order: seq<Message>, cursor: Option<MessageId>, limit: nat): Page {
    var size := EffectiveLimit(limit);
    PageOf(FindMany(order, cursor, size + 1), size)
  }

  function History(order: seq<Message>, q: Query, cursor: Option<MessageId>, limit: nat, allowed: bool): Result<Page, Error> {
    if !allowed then Err(AccessDenied)
    else if !Truthy(q.groupId) && !Truthy(q.recipientId) then Err(TargetRequired)
    else Ok(PageFor(order, cursor, limit))
  }

  /** `order` stands for the database's answer to the where object. */
  method GetMessageHistoryExtended(order: seq<Message>, q: Query, cursor: Option<MessageId>, limit: nat, allowed: bool)
    returns (result: Result<Page, Error>)
    ensures result == History(order, q, cursor, limit, allowed)
    ensures !allowed ==> result == Err(AccessDenied)
    ensures allowed ==> (result == Err(TargetRequired) <==> !Truthy(q.groupId) && !Truthy(q.recipientId))
    ensures result.Ok? ==> |result.value.messages| <= limit && |result.value.messages| <= 100
  {
    if !allowed {
      return Err(AccessDenied);
    }
    var effectiveLimit := if limit < 100 then limit else 100;
    if !Truthy(q.groupId) && !Truthy(q.recipientId) {
      return Err(TargetRequired);
    }
    var messages := FindMany(order, cursor, effectiveLimit + 1);
    var page := BuildPage(messages, effectiveLimit);
    result := Ok(page);
  }

  /** The page is reversed in place, so nextCursor is read from the reversed page: the oldest message shown. */
  method BuildPage(messages: seq<Message>, size: nat) returns (page: Page)
    ensures page == PageOf(messages, size)
  {
    var hasMore := |messages| > size;
    var slice := if hasMore then messages[..size] else messages;
    var result := new Message[|slice|](i requires 0 <= i < |slice| => slice[i]);
    assert result[..] == slice;
    ReverseInPlace(result);
    var nextCursor: Option<MessageId> := None;
    if hasMore && result.Length > 0 {
      nextCursor := Some(result[0].id);
    }
    page := Page(result[..], nextCursor);
  }

  method ReverseInPlace(a: array<Message>)
    modifies a
    ensures a[..] == Reversed(old(a[..]))
  {
    forall i | 0 <= i < a.Length {
      a[i] := a[a.Length - 1 - i];
    }
  }

  /* --------------------------------- the walk -------------------------------- */

  /** The database may answer the request with this page. */
  ghost predicate Answers(found: set<Message>, limit: nat, cursor: Option<MessageId>, page: Page) {
    exists order :: IsNewestFirst(order, found) && page == PageFor(order, cursor, limit)
  }

  /** Which page may answer which cursor. */
  type Server = (Option<MessageId>, Page) -> bool

  ghost function Database(found: set<Message>, limit: nat): Server {
    (cursor: Option<MessageId>, page: Page) => Answers(found, limit, cursor, page)
  }

  /** The answers a client gets that starts at a cursor and follows nextCursor. */
  predicate IsWalk(pages: seq<Page>, answers: Server, cursor: Option<MessageId>) {
    pages == [] ||
    (&& answers(cursor, pages[0])
     && (|pages| > 1 ==> pages[0].nextCursor.Some?)
     && IsWalk(pages[1..], answers, pages[0].nextCursor))
  }

  /** A walk from the head that has come to its end; the database may choose an order anew for each page. */
  ghost predicate IsFullWalk(pages: seq<Page>, found: set<Message>, limit: nat) {
    IsWalk(pages, Database(found, limit), None) && pages != [] && pages[|pages| - 1].nextCursor.None?
  }

  /** Each page is put in front of those loaded before it. */
  function Loaded(pages: seq<Page>): seq<Message> {
    if pages == [] then [] else Loaded(pages[1..]) + pages[0].messages
  }

  predicate NoDuplicates(s: seq<Message>) {
    forall i, j | 0 <= i < j < |s| :: s[i] != s[j]
  }

  predicate OldestFirst(s: seq<Message>) {
    forall i, j | 0 <= i < j < |s| :: s[i].createdAt <= s[j].createdAt
  }

  /** Every message found, once, and nothing else. */
  ghost predicate ExactlyOnce(s: seq<Message>, found: set<Message>) {
    (forall m :: m in s <==> m in found) && NoDuplicates(s)
  }

  ghost predicate NonEmptyIds(found: set<Message>) {
    forall m | m in found :: m.id != ""
  }

  /** No other message found has the same timestamp. */
  ghost predicate Alone(m: Message, found: set<Message>) {
    forall other | other in found && other != m :: other.createdAt != m.createdAt
  }

  /** n is a whole number of pages. */
  predicate WholePages(n: int, size: nat)
    requires size > 0
  {
    n == 0 || (n >= size && WholePages(n - size, size))
  }

  /** Position i is the last of a full page that is not the last page. */
  predicate EndsPage(i: nat, size: nat, n: nat)
    requires size > 0
  {
    i + 1 < n && WholePages(i + 1, size)
  }

  /** Every message at the end of a page, with more behind it, is alone at its time. */
  ghost predicate PageEndsAlone(order: seq<Message>, found: set<Message>, size: nat)
    requires size > 0
  {
    forall i | 0 <= i < |order| && EndsPage(i, size, |order|) :: Alone(order[i], found)
  }

  /* ------------------- a message alone has its place ------------------------- */

  lemma {:induction false} DistinctCard(s: seq<Message>, members: set<Message>)
    requires (forall m :: m in s <==> m in members) && NoDuplicates(s)
    ensures |s| == |members|
  {
    if s == [] {
      assert members == {};
    } else {
      var rest, others := s[1..], members - {s[0]};
      assert s == [s[0]] + rest && s[0] in s;
      forall m ensures m in rest <==> m in others {
        if m in rest {
          var k :| 0 <= k < |rest| && rest[k] == m;
          assert s[k + 1] == m;
        }
      }
      DistinctCard(rest, others);
    }
  }

  ghost function Newer(found: set<Message>, t: int): set<Message> {
    set m | m in found && m.createdAt > t
  }

  /** Before a message that is alone stand exactly the newer ones. */
  lemma NewerStandBefore(order: seq<Message>, found: set<Message>, p: nat)
    requires IsNewestFirst(order, found) && p < |order| && Alone(order[p], found)
    ensures forall m :: m in order[..p] <==> m in Newer(found, order[p].createdAt)
    ensures |Newer(found, order[p].createdAt)| == p
  {
    var newer := Newer(found, order[p].createdAt);
    forall m ensures m in order[..p] <==> m in newer {
      if m in order[..p] {
        var k :| 0 <= k < p && order[k] == m;
        assert m in order && order[k].id != order[p].id;
      }
      if m in newer {
        assert m in order;
        var k :| 0 <= k < |order| && order[k] == m;
        assert k < p;
        assert order[..p][k] == m;
      }
    }
    DistinctCard(order[..p], newer);
  }

  /** In every order the message that is alone stands at the same place, behind the same messages. */
  lemma SamePlace(order: seq<Message>, other: seq<Message>, found: set<Message>, p: nat, e: nat)
    requires IsNewestFirst(order, found) && IsNewestFirst(other, found) && p < |order| && Alone(order[p], found) && e == p + 1
    ensures p < |other| && other[p] == order[p]
    ensures forall m :: m in other[..e] <==> m in order[..e]
  {
    var a := order[p];
    assert a in order && a in other;
    var k :| 0 <= k < |other| && other[k] == a;
    NewerStandBefore(order, found, p);
    NewerStandBefore(other, found, k);
    assert k == p;
    assert order[..e] == order[..p] + [a] && other[..e] == other[..p] + [a];
    forall m ensures m in other[..e] <==> m in order[..e] {
      assert m in order[..p] <==> m in other[..p];
    }
  }

  lemma SameLength(order: seq<Message>, other: seq<Message>, found: set<Message>)
    requires IsNewestFirst(order, found) && IsNewestFirst(other, found)
    ensures |order| == |other|
  {
    DistinctCard(order, found);
    DistinctCard(other, found);
  }

  /* ------------------------------- pages by place ---------------------------- */

  /** The page that starts at position p. */
  function PageAt(order: seq<Message>, p: nat, size: nat): Page
    requires p <= |order| && size > 0
  {
    if p + size < |order| then Page(Reversed(order[p..p + size]), Some(order[p + size - 1].id))
    else Page(Reversed(order[p..]), None)
  }

  lemma PageIsPageAt(order: seq<Message>, cursor: Option<MessageId>, limit: nat, p: nat)
    requires limit > 0 && Start(order, cursor) == p
    ensures PageFor(order, cursor, limit) == PageAt(order, p, EffectiveLimit(limit))
  {
    var size := EffectiveLimit(limit);
    var messages := FindMany(order, cursor, size + 1);
    if p + size < |order| {
      assert messages == order[p..p + size + 1] && messages[..size] == order[p..p + size];
    } else {
      assert messages == order[p..];
    }
  }

  lemma {:induction false} IndexOfDistinct(order: seq<Message>, i: nat)
    requires i < |order| && forall j | 0 <= j < i :: order[j].id != order[i].id
    ensures IndexOf(order, order[i].id) == i
  {
    if i > 0 {
      var rest := order[1..];
      forall j | 0 <= j < i - 1 ensures rest[j].id != rest[i - 1].id {
        assert rest[j] == order[j + 1];
      }
      IndexOfDistinct(rest, i - 1);
    }
  }

  /** Following the cursor of a page continues right after it. */
  lemma StartAfter(order: seq<Message>, found: set<Message>, i: nat)
    requires IsNewestFirst(order, found) && NonEmptyIds(found) && i < |order|
    ensures Start(order, Some(order[i].id)) == i + 1
  {
    assert order[i] in order;
    IndexOfDistinct(order, i);
  }

  lemma ReversedIs(s: seq<Message>, r: seq<Message>, found: set<Message>, order: seq<Message>, p: nat, e: nat)
    requires IsNewestFirst(order, found) && p <= e <= |order| && s == order[p..e] && r == Reversed(s)
    ensures (forall m :: m in r <==> m in s) && NoDuplicates(r) && OldestFirst(r)
  {
    forall m | m in s ensures m in r {
      var i :| 0 <= i < |s| && s[i] == m;
      assert r[|s| - 1 - i] == m;
    }
    forall i, j | 0 <= i < j < |r| ensures r[i] != r[j] && r[i].createdAt <= r[j].createdAt {
      assert r[i] == order[e - 1 - i] && r[j] == order[e - 1 - j];
    }
  }

  /* ------------------ pages that end alone lose nothing ---------------------- */

  /** The cursor stands behind the first p messages, in every order alike. */
  ghost predicate StandsAt(cursor: Option<MessageId>, p: nat, ref: seq<Message>, found: set<Message>)
    requires p <= |ref|
  {
    if p == 0 then cursor == None else cursor == Some(ref[p - 1].id) && Alone(ref[p - 1], found)
  }

  lemma SameStart(ref: seq<Message>, order: seq<Message>, found: set<Message>, cursor: Option<MessageId>, p: nat)
    requires IsNewestFirst(ref, found) && IsNewestFirst(order, found) && NonEmptyIds(found)
    requires p <= |ref| && StandsAt(cursor, p, ref, found)
    ensures p <= |order| && Start(order, cursor) == p
    ensures forall m :: m in order[p..] <==> m in ref[p..]
  {
    if p > 0 {
      SamePlace(ref, order, found, p - 1, p);
      StartAfter(order, found, p - 1);
    }
    assert forall m :: m in order[..p] <==> m in ref[..p];
    forall m ensures m in order[p..] <==> m in ref[p..] {
      RestOfOrder(order, found, p, m);
      RestOfOrder(ref, found, p, m);
    }
  }

  lemma RestOfOrder(order: seq<Message>, found: set<Message>, p: nat, m: Message)
    requires IsNewestFirst(order, found) && p <= |order|
    ensures m in order[p..] <==> m in found && m !in order[..p]
  {
    assert order == order[..p] + order[p..];
    forall i, j | 0 <= j < p <= i < |order| ensures order[j] != order[i] {
      assert order[j].id != order[i].id;
    }
    if m in order[p..] {
      var i :| p <= i < |order| && order[i] == m;
      assert forall j | 0 <= j < p :: order[j] != m;
    }
  }

  /** A page that starts at p, and the next, which starts where it ends. */
  lemma NextStands(ref: seq<Message>, order: seq<Message>, found: set<Message>, size: nat, p: nat, e: nat, page: Page)
    requires IsNewestFirst(ref, found) && IsNewestFirst(order, found) && size > 0 && PageEndsAlone(ref, found, size)
    requires WholePages(p, size) && e == p + size < |ref| == |order| && page == PageAt(order, p, size)
    ensures StandsAt(page.nextCursor, e, ref, found) && WholePages(e, size)
  {
    assert e - size == p && WholePages(e, size);
    assert EndsPage(e - 1, size, |ref|);
    SamePlace(ref, order, found, e - 1, e);
  }

  /** What lies between two places, and behind the second. */
  lemma SplitRest(order: seq<Message>, found: set<Message>, p: nat, e: nat, later: seq<Message>, page: seq<Message>)
    requires IsNewestFirst(order, found) && p <= e <= |order| && page == Reversed(order[p..e])
    requires (forall m :: m in later <==> m in order[e..]) && NoDuplicates(later) && OldestFirst(later)
    ensures forall m :: m in later + page <==> m in order[p..]
    ensures NoDuplicates(later + page) && OldestFirst(later + page)
  {
    ReversedIs(order[p..e], page, found, order, p, e);
    assert order[p..] == order[p..e] + order[e..];
    forall i, j | 0 <= i < |later| && 0 <= j < |page| ensures later[i] != page[j] && later[i].createdAt <= page[j].createdAt {
      assert later[i] in later && page[j] in page;
      var x :| 0 <= x < |order| - e && order[e..][x] == later[i];
      var y :| 0 <= y < e - p && order[p..e][y] == page[j];
      assert order[p + y].id != order[e + x].id && order[p + y].createdAt >= order[e + x].createdAt;
    }
  }

  /** Pages that start at p have loaded, if they came to the end, exactly what lies behind p, once, oldest first; and they
      came to the end exactly if there are that many. */
  ghost predicate Shows(pages: seq<Page>, ref: seq<Message>, size: nat, p: nat)
    requires pages != [] && p <= |ref|
  {
    var ended := pages[|pages| - 1].nextCursor.None?;
    && (ended ==> Holds(Loaded(pages), ref[p..]))
    && (ended <==> |ref| <= p + Offset(|pages|, size))
    && (|pages| > 1 ==> p + Offset(|pages| - 1, size) < |ref|)
  }

  ghost predicate Holds(all: seq<Message>, rest: seq<Message>) {
    (forall m :: m in all <==> m in rest) && NoDuplicates(all) && OldestFirst(all)
  }

  ghost predicate AnswersAt(answers: Server, found: set<Message>, limit: nat, cursor: Option<MessageId>, page: Page) {
    answers(cursor, page) ==> Answers(found, limit, cursor, page)
  }

  /** The server answers nothing the database may not answer. */
  ghost predicate OnlyAnswers(answers: Server, found: set<Message>, limit: nat) {
    forall cursor, page :: AnswersAt(answers, found, limit, cursor, page)
  }

  /** The first page of a walk that stands at p is the one at p, of some order. */
  lemma FirstPage(pages: seq<Page>, ref: seq<Message>, found: set<Message>, answers: Server, limit: nat, size: nat, cursor: Option<MessageId>, p: nat)
    returns (order: seq<Message>)
    requires OnlyAnswers(answers, found, limit)
    requires IsNewestFirst(ref, found) && NonEmptyIds(found) && limit > 0 && size == EffectiveLimit(limit)
    requires p <= |ref| && StandsAt(cursor, p, ref, found)
    requires IsWalk(pages, answers, cursor) && pages != []
    ensures IsNewestFirst(order, found) && |order| == |ref| && pages[0] == PageAt(order, p, size)
    ensures forall m :: m in order[p..] <==> m in ref[p..]
    ensures IsWalk(pages[1..], answers, pages[0].nextCursor) && (|pages| > 1 ==> pages[0].nextCursor.Some?)
  {
    assert AnswersAt(answers, found, limit, cursor, pages[0]);
    order :| IsNewestFirst(order, found) && pages[0] == PageFor(order, cursor, limit);
    SameStart(ref, order, found, cursor, p);
    SameLength(ref, order, found);
    PageIsPageAt(order, cursor, limit, p);
  }

  /** Where page boundaries fall on messages that are alone, a walk loses and repeats nothing. */
  lemma {:induction false} GoodWalk(pages: seq<Page>, ref: seq<Message>, found: set<Message>, answers: Server, limit: nat, size: nat,
                                    cursor: Option<MessageId>, p: nat)
    requires OnlyAnswers(answers, found, limit)
    requires IsNewestFirst(ref, found) && NonEmptyIds(found) && limit > 0 && size == EffectiveLimit(limit)
    requires PageEndsAlone(ref, found, size) && p <= |ref| && WholePages(p, size) && StandsAt(cursor, p, ref, found)
    requires IsWalk(pages, answers, cursor) && pages != []
    ensures Shows(pages, ref, size, p)
    decreases |pages|
  {
    var rest, e := pages[1..], p + size;
    if e >= |ref| {
      StepToEnd(pages, ref, found, answers, limit, size, cursor, p);
    } else {
      StepOn(pages, rest, ref, found, answers, limit, size, cursor, p, e);
      if rest != [] {
        GoodWalk(rest, ref, found, answers, limit, size, pages[0].nextCursor, e);
      }
      StepJoins(pages, rest, ref, found, answers, limit, size, cursor, p, e);
    }
  }

  lemma StepToEnd(pages: seq<Page>, ref: seq<Message>, found: set<Message>, answers: Server, limit: nat, size: nat, cursor: Option<MessageId>, p: nat)
    requires OnlyAnswers(answers, found, limit)
    requires IsNewestFirst(ref, found) && NonEmptyIds(found) && limit > 0 && size == EffectiveLimit(limit)
    requires p <= |ref| <= p + size && StandsAt(cursor, p, ref, found) && IsWalk(pages, answers, cursor) && pages != []
    ensures Shows(pages, ref, size, p)
  {
    var order := FirstPage(pages, ref, found, answers, limit, size, cursor, p);
    assert pages[0].nextCursor.None?;
    assert pages == [pages[0]];
    LastPage(pages, ref, order, found, size, p);
  }

  /** Where a page with more behind it leads, and what the rest shows is joined to it. */
  lemma StepOn(pages: seq<Page>, rest: seq<Page>, ref: seq<Message>, found: set<Message>, answers: Server, limit: nat, size: nat,
               cursor: Option<MessageId>, p: nat, e: nat)
    requires OnlyAnswers(answers, found, limit)
    requires IsNewestFirst(ref, found) && NonEmptyIds(found) && limit > 0 && size == EffectiveLimit(limit)
    requires PageEndsAlone(ref, found, size) && WholePages(p, size) && e == p + size < |ref| && StandsAt(cursor, p, ref, found)
    requires IsWalk(pages, answers, cursor) && pages != [] && rest == pages[1..]
    ensures IsWalk(rest, answers, pages[0].nextCursor) && StandsAt(pages[0].nextCursor, e, ref, found) && WholePages(e, size)
  {
    var order := FirstPage(pages, ref, found, answers, limit, size, cursor, p);
    NextStands(ref, order, found, size, p, e, pages[0]);
  }

  lemma StepJoins(pages: seq<Page>, rest: seq<Page>, ref: seq<Message>, found: set<Message>, answers: Server, limit: nat, size: nat,
                  cursor: Option<MessageId>, p: nat, e: nat)
    requires OnlyAnswers(answers, found, limit)
    requires IsNewestFirst(ref, found) && NonEmptyIds(found) && limit > 0 && size == EffectiveLimit(limit)
    requires e == p + size < |ref| && StandsAt(cursor, p, ref, found) && IsWalk(pages, answers, cursor)
    requires pages != [] && rest == pages[1..] && StandsAt(pages[0].nextCursor, e, ref, found)
    requires rest == [] || Shows(rest, ref, size, e)
    ensures Shows(pages, ref, size, p)
  {
    var order := FirstPage(pages, ref, found, answers, limit, size, cursor, p);
    assert pages == [pages[0]] + rest;
    if rest == [] {
      OnlyPage(pages, ref, order, size, p, e);
    } else {
      GoodStep(pages, rest, ref, order, found, size, p, e);
    }
  }

  lemma OnlyPage(pages: seq<Page>, ref: seq<Message>, order: seq<Message>, size: nat, p: nat, e: nat)
    requires size > 0 && e == p + size < |ref| == |order| && pages == [PageAt(order, p, size)]
    ensures Shows(pages, ref, size, p)
  {
    assert Offset(1, size) == Offset(0, size) + size;
  }

  lemma LastPage(pages: seq<Page>, ref: seq<Message>, order: seq<Message>, found: set<Message>, size: nat, p: nat)
    requires IsNewestFirst(order, found) && size > 0 && p <= |order| == |ref| <= p + size
    requires pages == [PageAt(order, p, size)] && forall m :: m in order[p..] <==> m in ref[p..]
    ensures Shows(pages, ref, size, p)
  {
    var page := pages[0].messages;
    assert pages[1..] == [] && Loaded(pages) == page;
    assert order[p..] == order[p..|order|];
    assert Offset(1, size) == Offset(0, size) + size;
    ReversedIs(order[p..], page, found, order, p, |order|);
  }

  lemma GoodStep(pages: seq<Page>, rest: seq<Page>, ref: seq<Message>, order: seq<Message>, found: set<Message>, size: nat, p: nat, e: nat)
    requires IsNewestFirst(ref, found) && IsNewestFirst(order, found) && NonEmptyIds(found) && size > 0
    requires e == p + size < |ref| == |order| && pages == [PageAt(order, p, size)] + rest && rest != [] && Shows(rest, ref, size, e)
    requires StandsAt(pages[0].nextCursor, e, ref, found) && forall m :: m in order[p..] <==> m in ref[p..]
    ensures Shows(pages, ref, size, p)
  {
    var n, shown := |rest|, Loaded(rest);
    assert |pages| == n + 1 && pages[n] == rest[n - 1] && pages[1..] == rest;
    assert Offset(n + 1, size) == Offset(n, size) + size;
    assert Offset(n, size) == Offset(n - 1, size) + size;
    if rest[n - 1].nextCursor.None? {
      JoinHolds(shown, pages[0], ref, order, found, size, p, e);
    }
  }

  lemma JoinHolds(shown: seq<Message>, page: Page, ref: seq<Message>, order: seq<Message>, found: set<Message>, size: nat, p: nat, e: nat)
    requires IsNewestFirst(ref, found) && IsNewestFirst(order, found) && NonEmptyIds(found) && size > 0
    requires e == p + size < |ref| == |order| && page == PageAt(order, p, size) && Holds(shown, ref[e..])
    requires StandsAt(page.nextCursor, e, ref, found) && forall m :: m in order[p..] <==> m in ref[p..]
    ensures Holds(shown + page.messages, ref[p..])
  {
    SameStart(ref, order, found, page.nextCursor, e);
    SplitRest(order, found, p, e, shown, page.messages);
  }

  /** k pages behind the head. */
  function Offset(k: nat, size: nat): nat {
    if k == 0 then 0 else Offset(k - 1, size) + size
  }

  lemma {:induction false} OffsetIsProduct(k: nat, size: nat)
    ensures Offset(k, size) == k * size
  {
    if k > 0 {
      OffsetIsProduct(k - 1, size);
      assert k * size == (k - 1) * size + size;
    }
  }

  /* ---------------- a tie at the end of a page can lose or repeat ------------- */

  /** A page that the database may answer from the order, and where its rows are found. */
  ghost predicate ServesAt(order: seq<Message>, answers: Server, size: nat, cursor: Option<MessageId>, p: nat)
    requires size > 0 && p <= |order|
  {
    Start(order, cursor) == p ==> answers(cursor, PageAt(order, p, size))
  }

  predicate IsFollowed(order: seq<Message>, i: nat)
    requires i < |order|
  {
    Start(order, Some(order[i].id)) == i + 1
  }

  ghost predicate Serves(order: seq<Message>, answers: Server, size: nat)
    requires size > 0
  {
    && (forall cursor, p | 0 <= p <= |order| :: ServesAt(order, answers, size, cursor, p))
    && (forall i | 0 <= i < |order| :: IsFollowed(order, i))
  }

  lemma OrderServes(order: seq<Message>, found: set<Message>, limit: nat, size: nat, answers: Server)
    requires IsNewestFirst(order, found) && NonEmptyIds(found) && limit > 0 && size == EffectiveLimit(limit)
    requires answers == Database(found, limit)
    ensures Serves(order, answers, size)
  {
    forall cursor, p | 0 <= p <= |order| ensures ServesAt(order, answers, size, cursor, p) {
      if Start(order, cursor) == p {
        PageIsPageAt(order, cursor, limit, p);
      }
    }
    forall i | 0 <= i < |order| ensures IsFollowed(order, i) {
      StartAfter(order, found, i);
    }
  }

  lemma WalkOne(page: Page, answers: Server, cursor: Option<MessageId>)
    requires answers(cursor, page)
    ensures IsWalk([page], answers, cursor) && Loaded([page]) == page.messages
  {
    assert [page][1..] == [];
  }

  lemma WalkCons(page: Page, rest: seq<Page>, pages: seq<Page>, answers: Server, cursor: Option<MessageId>)
    requires answers(cursor, page) && pages == [page] + rest && rest != [] && page.nextCursor.Some?
    requires IsWalk(rest, answers, page.nextCursor)
    ensures IsWalk(pages, answers, cursor) && Loaded(pages) == Loaded(rest) + page.messages
    ensures pages[|pages| - 1] == rest[|rest| - 1]
  {
    assert pages[1..] == rest && pages[0] == page;
  }

  /** The page from p to e, and where it leads. */
  lemma ServePage(order: seq<Message>, answers: Server, size: nat, cursor: Option<MessageId>, p: nat, e: nat)
    returns (page: Page)
    requires size > 0 && Serves(order, answers, size) && e == p + size < |order| && Start(order, cursor) == p
    ensures answers(cursor, page) && page == Page(Reversed(order[p..e]), Some(order[e - 1].id))
    ensures Start(order, page.nextCursor) == e
  {
    page := PageAt(order, p, size);
    assert ServesAt(order, answers, size, cursor, p);
    assert IsFollowed(order, e - 1);
  }

  lemma ServeLast(order: seq<Message>, answers: Server, size: nat, cursor: Option<MessageId>, p: nat) returns (page: Page)
    requires size > 0 && Serves(order, answers, size) && p <= |order| <= p + size && Start(order, cursor) == p
    ensures answers(cursor, page) && page == Page(Reversed(order[p..]), None)
  {
    page := PageAt(order, p, size);
    assert ServesAt(order, answers, size, cursor, p);
  }

  /** The pages of one order from position p to its end. */
  lemma {:induction false} TailWalks(order: seq<Message>, answers: Server, size: nat, cursor: Option<MessageId>, p: nat)
    returns (pages: seq<Page>)
    requires size > 0 && Serves(order, answers, size) && p <= |order| && Start(order, cursor) == p
    ensures pages != [] && IsWalk(pages, answers, cursor) && pages[|pages| - 1].nextCursor.None?
    ensures Loaded(pages) == Reversed(order[p..])
    decreases |order| - p
  {
    var e := p + size;
    if e < |order| {
      var page := ServePage(order, answers, size, cursor, p, e);
      var rest := TailWalks(order, answers, size, page.nextCursor, e);
      pages := [page] + rest;
      WalkCons(page, rest, pages, answers, cursor);
      SplitReversed(order, p, e, |order|);
    } else {
      var page := ServeLast(order, answers, size, cursor, p);
      pages := [page];
      WalkOne(page, answers, cursor);
    }
  }

  lemma SplitReversed(order: seq<Message>, p: nat, q: nat, e: nat)
    requires p <= q <= e <= |order|
    ensures Reversed(order[p..e]) == Reversed(order[q..e]) + Reversed(order[p..q])
    ensures e == |order| ==> order[p..e] == order[p..] && order[q..e] == order[q..]
  {
    assert order[p..e] == order[p..q] + order[q..e];
  }

  lemma Join(order: seq<Message>, p: nat, q: nat, e: nat, behind: seq<Message>, shown: seq<Message>, page: seq<Message>)
    requires p <= q <= e <= |order| && shown == behind + Reversed(order[q..e]) && page == Reversed(order[p..q])
    ensures shown + page == behind + Reversed(order[p..e])
  {
    SplitReversed(order, p, q, e);
    assert (behind + Reversed(order[q..e])) + page == behind + (Reversed(order[q..e]) + page);
  }

  /** The next page on the way to e; if it ends there, it leads to where the tail starts. */
  lemma HeadPage(order: seq<Message>, answers: Server, size: nat, cursor: Option<MessageId>, p: nat, q: nat, e: nat,
                 last: Option<MessageId>) returns (page: Page)
    requires size > 0 && Serves(order, answers, size) && q == p + size <= e < |order| && Start(order, cursor) == p
    requires last == Some(order[e - 1].id)
    ensures answers(cursor, page) && page.messages == Reversed(order[p..q]) && page.nextCursor.Some?
    ensures Start(order, page.nextCursor) == q && (q == e ==> page.nextCursor == last)
  {
    page := ServePage(order, answers, size, cursor, p, q);
  }

  /** The pages of one order from position p up to e, and then other pages. */
  lemma {:induction false} HeadWalks(order: seq<Message>, answers: Server, size: nat, cursor: Option<MessageId>,
                                     p: nat, e: nat, d: int, tail: seq<Page>, last: Option<MessageId>) returns (pages: seq<Page>)
    requires size > 0 && Serves(order, answers, size) && 0 < e < |order| && e == p + d && WholePages(d, size)
    requires Start(order, cursor) == p && last == Some(order[e - 1].id) && (d == 0 ==> cursor == last)
    requires tail != [] && tail[|tail| - 1].nextCursor.None? && IsWalk(tail, answers, last)
    ensures pages != [] && IsWalk(pages, answers, cursor) && pages[|pages| - 1].nextCursor.None?
    ensures p <= e && Loaded(pages) == Loaded(tail) + Reversed(order[p..e])
    decreases d
  {
    if d == 0 {
      pages := tail;
      assert Reversed(order[p..e]) == [];
    } else {
      var q, left := p + size, d - size;
      assert WholePages(left, size) && left >= 0;
      var page := HeadPage(order, answers, size, cursor, p, q, e, last);
      var rest := HeadWalks(order, answers, size, page.nextCursor, q, e, left, tail, last);
      pages := [page] + rest;
      WalkCons(page, rest, pages, answers, cursor);
      Join(order, p, q, e, Loaded(tail), Loaded(rest), page.messages);
    }
  }

  /** The same order with neighbours i and i + 1 exchanged. */
  function Swapped(order: seq<Message>, i: nat): seq<Message>
    requires i + 1 < |order|
  {
    order[i := order[i + 1]][i + 1 := order[i]]
  }

  lemma SwappedIsNewestFirst(order: seq<Message>, i: nat, found: set<Message>, other: seq<Message>)
    requires IsNewestFirst(order, found) && i + 1 < |order| && order[i].createdAt == order[i + 1].createdAt
    requires other == Swapped(order, i)
    ensures IsNewestFirst(other, found)
  {
    forall m ensures m in other <==> m in order {
      if m in order {
        var k :| 0 <= k < |order| && order[k] == m;
        assert other[if k == i then i + 1 else if k == i + 1 then i else k] == m;
      }
    }
  }

  /** A full walk that shows the first k pages of one order and goes on in another, from wherever that finds the cursor. */
  lemma ChangeOfOrder(order: seq<Message>, other: seq<Message>, found: set<Message>, limit: nat, size: nat, e: nat, from: nat)
    returns (pages: seq<Page>)
    requires IsNewestFirst(order, found) && IsNewestFirst(other, found) && NonEmptyIds(found)
    requires limit > 0 && size == EffectiveLimit(limit) && WholePages(e, size) && 0 < e < |order|
    requires from <= |other| && Start(other, Some(order[e - 1].id)) == from
    ensures IsFullWalk(pages, found, limit) && Loaded(pages) == Reversed(other[from..]) + Reversed(order[..e])
  {
    var cursor := Some(order[e - 1].id);
    var answers := Database(found, limit);
    OrderServes(order, found, limit, size, answers);
    OrderServes(other, found, limit, size, answers);
    var tail := TailWalks(other, answers, size, cursor, from);
    pages := HeadWalks(order, answers, size, None, 0, e, e, tail, cursor);
    assert order[0..e] == order[..e];
  }

  /** If the message that ends a page ties with its successor, a full walk can skip the successor for good. */
  lemma TieSkipsAMessage(order: seq<Message>, found: set<Message>, limit: nat, size: nat, e: nat) returns (pages: seq<Page>)
    requires IsNewestFirst(order, found) && NonEmptyIds(found)
    requires limit > 0 && size == EffectiveLimit(limit) && WholePages(e, size) && 0 < e < |order|
    requires order[e - 1].createdAt == order[e].createdAt
    ensures IsFullWalk(pages, found, limit) && order[e] in found && order[e] !in Loaded(pages)
  {
    var other := Swapped(order, e - 1);
    SwappedIsNewestFirst(order, e - 1, found, other);
    assert other[e] == order[e - 1];
    StartAfter(other, found, e);
    pages := ChangeOfOrder(order, other, found, limit, size, e, e + 1);
    assert order[e] in order;
    assert other[e + 1..] == order[e + 1..];
    LeftOut(order, found, e, Loaded(pages));
  }

  lemma LeftOut(order: seq<Message>, found: set<Message>, e: nat, loaded: seq<Message>)
    requires IsNewestFirst(order, found) && e < |order| && loaded == Reversed(order[e + 1..]) + Reversed(order[..e])
    ensures order[e] !in loaded
  {
    var late := |order| - (e + 1);
    forall x | 0 <= x < |loaded| ensures loaded[x] != order[e] {
      if x < late {
        assert loaded[x] == order[|order| - 1 - x];
      } else {
        assert loaded[x] == order[e - 1 - (x - late)];
      }
    }
  }

  /** If it ties with its predecessor, a full walk can show the predecessor twice. */
  lemma TieRepeatsAMessage(order: seq<Message>, found: set<Message>, limit: nat, size: nat, e: nat) returns (pages: seq<Page>)
    requires IsNewestFirst(order, found) && NonEmptyIds(found)
    requires limit > 0 && size == EffectiveLimit(limit) && WholePages(e, size) && 1 < e < |order|
    requires order[e - 2].createdAt == order[e - 1].createdAt
    ensures IsFullWalk(pages, found, limit) && !NoDuplicates(Loaded(pages))
  {
    var other := Swapped(order, e - 2);
    SwappedIsNewestFirst(order, e - 2, found, other);
    assert other[e - 2] == order[e - 1] && other[e - 1] == order[e - 2];
    StartAfter(other, found, e - 2);
    pages := ChangeOfOrder(order, other, found, limit, size, e, e - 1);
    ShownTwice(order, other, e, Loaded(pages));
  }

  lemma ShownTwice(order: seq<Message>, other: seq<Message>, e: nat, loaded: seq<Message>)
    requires 1 < e <= |order| == |other| && other[e - 1] == order[e - 2]
    requires loaded == Reversed(other[e - 1..]) + Reversed(order[..e])
    ensures !NoDuplicates(loaded)
  {
    var late := |other| - (e - 1);
    assert loaded[late - 1] == other[e - 1];
    assert loaded[late + 1] == order[e - 2];
  }

  /** A message that is not alone ties with a neighbour. */
  lemma TiesWithNeighbour(order: seq<Message>, found: set<Message>, i: nat)
    requires IsNewestFirst(order, found) && i < |order| && !Alone(order[i], found)
    ensures || (i + 1 < |order| && order[i].createdAt == order[i + 1].createdAt)
            || (i > 0 && order[i - 1].createdAt == order[i].createdAt)
  {
    var other :| other in found && other != order[i] && other.createdAt == order[i].createdAt;
    assert other in order;
    var j :| 0 <= j < |order| && order[j] == other;
    if j > i {
      assert order[i].createdAt >= order[i + 1].createdAt >= order[j].createdAt;
    } else {
      assert order[j].createdAt >= order[i - 1].createdAt >= order[i].createdAt;
    }
  }

  lemma TieBreaksExactlyOnce(order: seq<Message>, found: set<Message>, limit: nat, size: nat, i: nat) returns (pages: seq<Page>)
    requires IsNewestFirst(order, found) && NonEmptyIds(found) && limit > 0 && size == EffectiveLimit(limit)
    requires i < |order| && EndsPage(i, size, |order|) && !Alone(order[i], found)
    ensures IsFullWalk(pages, found, limit) && !ExactlyOnce(Loaded(pages), found)
  {
    TiesWithNeighbour(order, found, i);
    if order[i].createdAt == order[i + 1].createdAt {
      pages := TieSkipsAMessage(order, found, limit, size, i + 1);
    } else {
      pages := TieRepeatsAMessage(order, found, limit, size, i + 1);
    }
  }

  /* ------------------------------- what is shown ----------------------------- */

  /** A message of the conversation asked for, seen by the one who asks. */
  ghost predicate Belongs(m: Message, q: Query, now: int) {
    && !m.isDeleted
    && if Truthy(q.groupId) then m.groupId == q.groupId && (m.expiresAt.Some? ==> now < m.expiresAt.value)
       else Truthy(q.recipientId) && (if m.senderId == q.userId && m.recipientId == q.recipientId then true
                                      else Some(m.senderId) == q.recipientId && m.recipientId == Some(q.userId))
  }

  /** The reverse of a stretch of the order. */
  lemma ReversedStretch(order: seq<Message>, start: nat, n: nat, shown: seq<Message>)
    requires start + n <= |order| && shown == Reversed(order[start..start + n])
    ensures |shown| == n && forall i | 0 <= i < n :: shown[i] == order[start + n - 1 - i]
  {
  }

  lemma PageAtIsExact(order: seq<Message>, start: nat, size: nat, n: nat, page: Page)
    requires start <= |order| && size > 0 && page == PageAt(order, start, size) && n == Min(size, |order| - start)
    ensures |page.messages| == n && forall i | 0 <= i < n :: page.messages[i] == order[start + n - 1 - i]
    ensures page.nextCursor == if start + n < |order| then Some(order[start + n - 1].id) else None
  {
    assert order[start..] == order[start..|order|];
    ReversedStretch(order, start, n, page.messages);
  }

  /** The page behind a row, or the first one: the newest min(limit, 100) of the messages after it, oldest first, and a
      cursor, the id of the oldest shown, exactly if there are more. */
  lemma PageIsExact(order: seq<Message>, found: set<Message>, cursor: Option<MessageId>, limit: nat, start: nat, n: nat, page: Page)
    requires IsNewestFirst(order, found) && NonEmptyIds(found) && limit > 0 && page == PageFor(order, cursor, limit)
    requires if start == 0 then cursor == None else start <= |order| && cursor == Some(order[start - 1].id)
    requires n == Min(if limit > 100 then 100 else limit, |order| - start)
    ensures |page.messages| == n && forall i | 0 <= i < n :: page.messages[i] == order[start + n - 1 - i]
    ensures page.nextCursor == if start + n < |order| then Some(order[start + n - 1].id) else None
  {
    assert Start(order, cursor) == start by {
      if start > 0 {
        StartAfter(order, found, start - 1);
      }
    }
    PageIsPageAt(order, cursor, limit, start);
    PageAtIsExact(order, start, EffectiveLimit(limit), n, page);
  }

  /** Whatever is asked, nobody is shown a message without access to the conversation, nor one that is deleted, gone from the
      table, or of another group or another pair of people. */
  lemma OnlyOwnMessages(table: set<Message>, q: Query, now: int, order: seq<Message>, cursor: Option<MessageId>, limit: nat,
                        allowed: bool, page: Page, m: Message)
    requires IsNewestFirst(order, Found(table, q, now)) && History(order, q, cursor, limit, allowed) == Ok(page)
    requires m in page.messages
    ensures allowed && m in table && Belongs(m, q, now)
  {
    var found := FindMany(order, cursor, EffectiveLimit(limit) + 1);
    var i :| 0 <= i < |page.messages| && page.messages[i] == m;
    assert exists k :: 0 <= k < |found| && found[k] == m;
    assert m in order;
  }

  /** ... and a walk to the end shows all the others: exactly those. */
  lemma LoadedIff(pages: seq<Page>, table: set<Message>, q: Query, now: int, found: set<Message>, order: seq<Message>, limit: nat, m: Message)
    requires found == Found(table, q, now) && NonEmptyIds(found) && IsNewestFirst(order, found) && limit > 0
    requires PageEndsAlone(order, found, EffectiveLimit(limit)) && IsFullWalk(pages, found, limit)
    ensures m in Loaded(pages) <==> m in table && Belongs(m, q, now)
  {
    GoodWalk(pages, order, found, Database(found, limit), limit, EffectiveLimit(limit), None, 0);
    assert order[0..] == order;
  }

  /* -------------------------------- the results ------------------------------ */

  /** For every limit of at least 1: every full walk loads every matching message exactly once, in whatever orders the
      database answers, if and only if every message that ends a page with more behind it is alone at its time. */
  lemma PagesPartitionIff(table: set<Message>, q: Query, now: int, found: set<Message>, order: seq<Message>, limit: nat, size: nat)
    requires found == Found(table, q, now) && NonEmptyIds(found) && IsNewestFirst(order, found)
    requires limit > 0 && size == EffectiveLimit(limit)
    ensures (forall pages | IsFullWalk(pages, found, limit) :: ExactlyOnce(Loaded(pages), found)) <==> PageEndsAlone(order, found, size)
  {
    if PageEndsAlone(order, found, size) {
      forall pages | IsFullWalk(pages, found, limit) ensures ExactlyOnce(Loaded(pages), found) {
        GoodWalk(pages, order, found, Database(found, limit), limit, size, None, 0);
        assert order[0..] == order;
      }
    } else {
      var i :| 0 <= i < |order| && EndsPage(i, size, |order|) && !Alone(order[i], found);
      var pages := TieBreaksExactlyOnce(order, found, limit, size, i);
    }
  }

  /** In particular with distinct timestamps the pages, each put in front of the last, are exactly the matching messages,
      each once, strictly oldest first. */
  lemma PagesPartitionTheConversation(pages: seq<Page>, table: set<Message>, q: Query, now: int, found: set<Message>, limit: nat,
                                      all: seq<Message>)
    requires found == Found(table, q, now) && NonEmptyIds(found) && limit > 0 && (forall m | m in found :: Alone(m, found))
    requires IsFullWalk(pages, found, limit) && all == Loaded(pages)
    ensures forall m :: m in all <==> m in table && Matches(m, q, now)
    ensures forall i, j | 0 <= i < j < |all| :: all[i].createdAt < all[j].createdAt
  {
    assert Answers(found, limit, None, pages[0]);
    var order :| IsNewestFirst(order, found) && pages[0] == PageFor(order, None, limit);
    AllAlone(order, found, EffectiveLimit(limit));
    GoodWalk(pages, order, found, Database(found, limit), limit, EffectiveLimit(limit), None, 0);
    assert order[0..] == order;
    StrictlyOldestFirst(all, found);
  }

  lemma AllAlone(order: seq<Message>, found: set<Message>, size: nat)
    requires size > 0 && IsNewestFirst(order, found) && forall m | m in found :: Alone(m, found)
    ensures PageEndsAlone(order, found, size)
  {
    forall i | 0 <= i < |order| ensures Alone(order[i], found) {
      assert order[i] in order;
    }
  }

  lemma StrictlyOldestFirst(all: seq<Message>, found: set<Message>)
    requires (forall m :: m in all <==> m in found) && NoDuplicates(all) && OldestFirst(all) && forall m | m in found :: Alone(m, found)
    ensures forall i, j | 0 <= i < j < |all| :: all[i].createdAt < all[j].createdAt
  {
    forall i, j | 0 <= i < j < |all| ensures all[i].createdAt < all[j].createdAt {
      assert all[i] in all && all[j] in all && all[i] != all[j];
      assert Alone(all[i], found);
    }
  }

  /** Such walks end: with n matching messages and pages of size s, null comes on page max(1, ⌈n / s⌉), and not before. */
  lemma WalkEnds(pages: seq<Page>, found: set<Message>, order: seq<Message>, limit: nat, size: nat, n: nat)
    requires NonEmptyIds(found) && IsNewestFirst(order, found) && limit > 0 && size == EffectiveLimit(limit)
    requires PageEndsAlone(order, found, size) && IsWalk(pages, Database(found, limit), None) && n == |pages| > 0
    ensures pages[n - 1].nextCursor.None? <==> |order| <= n * size
    ensures n > 1 ==> (n - 1) * size < |order|
  {
    GoodWalk(pages, order, found, Database(found, limit), limit, size, None, 0);
    OffsetIsProduct(n, size);
    OffsetIsProduct(n - 1, size);
  }

  /** A limit of 0 shows nothing and says there is nothing more. */
  lemma LimitZeroLoadsNothing(order: seq<Message>, cursor: Option<MessageId>)
    ensures PageFor(order, cursor, 0) == Page([], None)
  {
  }
}
