/**
 The cached pages of a conversation and what invalidates them: getConversationKey and invalidateConversationCaches
 of lib/messaging-service.ts over the memory layer of lib/cache.
 */
module ConversationCache {
  import opened Common
  import opened Strings
  import opened ConversationId
  import opened OrderedMap
  import MemoryCache

  const NAMESPACE := "conversation-metadata"

  function GetConversationKey(userId: string, recipientId: Option<string>, groupId: Option<string>, le: Order): string {
    if Truthy(groupId) then "group" + ":" + groupId.value
    else if !Truthy(recipientId) then "unknown"
    else
      var id := CanonicalizeDirectConversationId(userId, recipientId.value, le);
      if id.Some? then id.value else "unknown"
  }

  /** `${namespace}:conversation:${user}:${rest}`. */
  function UserKey(userId: string, rest: string): string {
    NAMESPACE + ":" + ("conversation" + ":" + (userId + ":" + rest))
  }

  /** The memory key of a cached page. */
  function PageKey(userId: string, conversationKey: string, cursor: string): string {
    UserKey(userId, conversationKey + ":" + cursor)
  }

  function Prefix(userId: string, recipientId: Option<string>, groupId: Option<string>, le: Order): string {
    UserKey(userId, GetConversationKey(userId, recipientId, groupId, le) + ":")
  }

  /** invalidateConversationCaches: the caller's pages, and the recipient's if there is one. */
  function Invalidated<V>(m: MemoryCache.Store<V>, userId: string, recipientId: Option<string>, groupId: Option<string>, le: Order): MemoryCache.Store<V> {
    var own := MemoryCache.DelByPrefixStep(m, Prefix(userId, recipientId, groupId, le));
    if !Truthy(recipientId) then own
    else MemoryCache.DelByPrefixStep(own, Prefix(recipientId.value, Some(userId), None, le))
  }

  method InvalidateConversationCaches<V>(memory: MemoryCache.MemoryCache<V>, userId: string, recipientId: Option<string>,
                                         groupId: Option<string>, le: Order)
    requires memory.Valid()
    modifies memory
    ensures memory.Valid() && memory.store == Invalidated(old(memory.store), userId, recipientId, groupId, le)
  {
    memory.DelByPrefix(Prefix(userId, recipientId, groupId, le));
    if Truthy(recipientId) {
      memory.DelByPrefix(Prefix(recipientId.value, Some(userId), None, le));
    }
  }

  /** Colon-free first parts are compared whole. */
  lemma {:induction false} PartPrefix(x: string, y: string, r: string, t: string)
    requires ':' !in x && ':' !in y
    ensures x + ":" + r <= y + ":" + t <==> x == y && r <= t
    decreases |x|
  {
    var p, s := x + ":" + r, y + ":" + t;
    HeadPrefix(p, s);
    assert x != "" ==> x[0] in x;
    assert y != "" ==> y[0] in y;
    if x == "" {
      assert p[1..] == r;
      assert y == "" ==> s[1..] == t;
    } else if y != "" {
      assert p[1..] == x[1..] + ":" + r && s[1..] == y[1..] + ":" + t;
      PartPrefix(x[1..], y[1..], r, t);
      assert x == [x[0]] + x[1..] && y == [y[0]] + y[1..];
    }
  }

  lemma HeadPrefix(p: string, s: string)
    requires p != "" && s != ""
    ensures p <= s <==> p[0] == s[0] && p[1..] <= s[1..]
  {
    if p[0] == s[0] && p[1..] <= s[1..] {
      assert s == [s[0]] + s[1..] && p == [p[0]] + p[1..];
      assert s[..|p|] == [s[0]] + s[1..][..|p| - 1];
    }
    if p <= s {
      assert s[..|p|] == p;
      assert s[1..][..|p| - 1] == p[1..];
    }
  }

  /** The two sides of a direct conversation file its pages under one conversation key. */
  lemma KeyIsShared(a: string, b: string, le: Order)
    requires Total(le) && GoodId(a) && GoodId(b)
    ensures GetConversationKey(a, Some(b), None, le) == GetConversationKey(b, Some(a), None, le)
  {
    CanonicalIsSymmetric(a, b, le);
  }

  /** One prefix covers exactly one user's pages of one direct conversation. */
  lemma DirectPrefixCovers(user: string, l: string, r: string, owner: string, x: string, y: string, cursor: string)
    requires GoodId(user) && GoodId(l) && GoodId(r) && GoodId(owner) && GoodId(x) && GoodId(y)
    ensures UserKey(user, Dm(l, r) + ":") <= PageKey(owner, Dm(x, y), cursor) <==> user == owner && l == x && r == y
  {
    var (rest, pageRest) := (Dm(l, r) + ":", Dm(x, y) + ":" + cursor);
    PartPrefix(NAMESPACE, NAMESPACE, "conversation" + ":" + (user + ":" + rest), "conversation" + ":" + (owner + ":" + pageRest));
    PartPrefix("conversation", "conversation", user + ":" + rest, owner + ":" + pageRest);
    PartPrefix(user, owner, rest, pageRest);
    DmPrefixCovers(l, r, x, y, cursor, rest, pageRest);
  }

  lemma DmPrefixCovers(l: string, r: string, x: string, y: string, cursor: string, rest: string, pageRest: string)
    requires GoodId(l) && GoodId(r) && GoodId(x) && GoodId(y)
    requires rest == Dm(l, r) + ":" && pageRest == Dm(x, y) + ":" + cursor
    ensures rest <= pageRest <==> l == x && r == y
  {
    assert l + ":" + r + ":" == l + ":" + (r + ":" + "");
    assert x + ":" + y + ":" + cursor == x + ":" + (y + ":" + cursor);
    assert rest == DM_PREFIX + ":" + (l + ":" + (r + ":" + ""));
    assert pageRest == DM_PREFIX + ":" + (x + ":" + (y + ":" + cursor));
    PartPrefix(DM_PREFIX, DM_PREFIX, l + ":" + (r + ":" + ""), x + ":" + (y + ":" + cursor));
    PartPrefix(l, x, r + ":" + "", y + ":" + cursor);
    PartPrefix(r, y, "", cursor);
  }

  lemma GroupPrefixCovers(user: string, group: string, owner: string, other: string, cursor: string)
    requires GoodId(user) && GoodId(group) && GoodId(owner) && GoodId(other)
    ensures UserKey(user, "group" + ":" + group + ":") <= PageKey(owner, "group" + ":" + other, cursor) <==> user == owner && group == other
  {
    var (rest, pageRest) := ("group" + ":" + group + ":", "group" + ":" + other + ":" + cursor);
    PartPrefix(NAMESPACE, NAMESPACE, "conversation" + ":" + (user + ":" + rest), "conversation" + ":" + (owner + ":" + pageRest));
    PartPrefix("conversation", "conversation", user + ":" + rest, owner + ":" + pageRest);
    PartPrefix(user, owner, rest, pageRest);
    assert rest == "group" + ":" + (group + ":" + "") && pageRest == "group" + ":" + (other + ":" + cursor);
    PartPrefix("group", "group", group + ":" + "", other + ":" + cursor);
    PartPrefix(group, other, "", cursor);
  }

  /** Invalidating a direct conversation from either end removes exactly both ends' pages of it, whatever their cursor,
      and no page of any other direct conversation. */
  lemma DirectInvalidationIsExact<V>(m: MemoryCache.Store<V>, a: string, b: string, owner: string, x: string, y: string,
                                     cursor: string, le: Order, page: string, gone: bool)
    requires Total(le) && Distinct(m)
    requires GoodId(a) && GoodId(b) && GoodId(owner) && GoodId(x) && GoodId(y)
    requires page == PageKey(owner, GetConversationKey(x, Some(y), None, le), cursor)
    requires gone == ((owner == a || owner == b) && {x, y} == {a, b})
    ensures Lookup(Invalidated(m, a, Some(b), None, le), page) == if gone then None else Lookup(m, page)
  {
    var id, other := GetConversationKey(a, Some(b), None, le), GetConversationKey(x, Some(y), None, le);
    KeyIsShared(a, b, le);
    SamePairSameKey(a, b, x, y, le);
    PrefixCoversKey(a, a, b, owner, x, y, cursor, le);
    PrefixCoversKey(b, a, b, owner, x, y, cursor, le);
    var own := MemoryCache.DelByPrefixStep(m, UserKey(a, id + ":"));
    MemoryCache.DelByPrefixExact(m, UserKey(a, id + ":"), page);
    FilterDistinct(m, (it: Item<MemoryCache.CacheEntry<V>>) => !(UserKey(a, id + ":") <= it.key));
    MemoryCache.DelByPrefixExact(own, UserKey(b, id + ":"), page);
  }

  lemma SamePairSameKey(a: string, b: string, x: string, y: string, le: Order)
    requires Total(le) && GoodId(a) && GoodId(b) && GoodId(x) && GoodId(y)
    ensures GetConversationKey(a, Some(b), None, le) == GetConversationKey(x, Some(y), None, le) <==> {x, y} == {a, b}
  {
    TrimTrims(a);
    TrimTrims(b);
    TrimTrims(x);
    TrimTrims(y);
    if GetConversationKey(a, Some(b), None, le) == GetConversationKey(x, Some(y), None, le) {
      IdDeterminesThePair(a, b, x, y, le);
    }
    if {x, y} == {a, b} {
      assert a in {x, y} && b in {x, y} && x in {a, b} && y in {a, b};
      CanonicalIsSymmetric(a, b, le);
    }
  }

  lemma PrefixCoversKey(user: string, a: string, b: string, owner: string, x: string, y: string, cursor: string, le: Order)
    requires Total(le) && GoodId(user) && GoodId(a) && GoodId(b) && GoodId(owner) && GoodId(x) && GoodId(y)
    ensures var id, other := GetConversationKey(a, Some(b), None, le), GetConversationKey(x, Some(y), None, le);
            UserKey(user, id + ":") <= PageKey(owner, other, cursor) <==> user == owner && id == other
  {
    TrimTrims(a);
    TrimTrims(b);
    TrimTrims(x);
    TrimTrims(y);
    var (l, r) := if le(a, b) then (a, b) else (b, a);
    var (u, v) := if le(x, y) then (x, y) else (y, x);
    DirectPrefixCovers(user, l, r, owner, u, v, cursor);
    SplitDm(l, r);
    SplitDm(u, v);
    assert Dm(l, r) == Dm(u, v) ==> [DM_PREFIX, l, r][1] == [DM_PREFIX, u, v][1] && [DM_PREFIX, l, r][2] == [DM_PREFIX, u, v][2];
  }

  /** Invalidating a group conversation removes the acting member's pages only: every other member keeps the page it
      has cached until it expires. */
  lemma GroupInvalidationReachesOnlyTheActor<V>(m: MemoryCache.Store<V>, user: string, group: string, owner: string, other: string,
                                                cursor: string, le: Order, page: string)
    requires Distinct(m) && GoodId(user) && GoodId(group) && GoodId(owner) && GoodId(other)
    requires page == PageKey(owner, GetConversationKey(owner, None, Some(other), le), cursor)
    ensures Lookup(Invalidated(m, user, None, Some(group), le), page) ==
              if owner == user && other == group then None else Lookup(m, page)
  {
    GroupPrefixCovers(user, group, owner, other, cursor);
    MemoryCache.DelByPrefixExact(m, UserKey(user, "group" + ":" + group + ":"), page);
  }
}
