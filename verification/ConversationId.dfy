/**
 Conversation ids: lib/conversation-id.ts, and the direct ids the client builds in app/chat/chat-state.ts.
 `le` stands for the order of localeCompare.
 */
module ConversationId {
  import opened Common
  import opened Strings

  const DM_PREFIX := "dm"

  type Order = (string, string) -> bool

  ghost predicate Total(le: Order) {
    && (forall x, y :: le(x, y) || le(y, x))
    && (forall x, y :: le(x, y) && le(y, x) ==> x == y)
  }

  /* ---------------------------------- strings -------------------------------- */

  /** The characters String.prototype.trim removes. */
  predicate IsSpace(c: char) {
    || '\U{0009}' <= c <= '\U{000D}' || c == ' ' || c == '\U{00A0}' || c == '\U{1680}' || '\U{2000}' <= c <= '\U{200A}'
    || c == '\U{2028}' || c == '\U{2029}' || c == '\U{202F}' || c == '\U{205F}' || c == '\U{3000}' || c == '\U{FEFF}'
  }

  function TrimStart(s: string): string {
    if s != "" && IsSpace(s[0]) then TrimStart(s[1..]) else s
  }

  function TrimEnd(s: string): string {
    if s != "" && IsSpace(s[|s| - 1]) then TrimEnd(s[..|s| - 1]) else s
  }

  function Trim(s: string): string {
    TrimEnd(TrimStart(s))
  }

  predicate Trimmed(s: string) {
    s == "" || (!IsSpace(s[0]) && !IsSpace(s[|s| - 1]))
  }

  lemma {:induction false} TrimStartTrims(s: string)
    ensures var t := TrimStart(s);
            && (t == "" || !IsSpace(t[0])) && (forall c | c in t :: c in s) && (forall c | c in s && !IsSpace(c) :: c in t)
  {
    if s != "" && IsSpace(s[0]) {
      TrimStartTrims(s[1..]);
      assert forall c | c in s[1..] :: c in s;
      assert s == [s[0]] + s[1..];
    }
  }

  lemma {:induction false} TrimEndTrims(s: string)
    requires s == "" || !IsSpace(s[0])
    ensures var t := TrimEnd(s); Trimmed(t) && (forall c | c in t :: c in s) && (forall c | c in s && !IsSpace(c) :: c in t)
  {
    if s != "" && IsSpace(s[|s| - 1]) {
      TrimEndTrims(s[..|s| - 1]);
      assert forall c | c in s[..|s| - 1] :: c in s;
      assert s == s[..|s| - 1] + [s[|s| - 1]];
    }
  }

  /** Trimming leaves a trimmed text, keeps every character that is no blank, and is the identity on trimmed texts. */
  lemma TrimTrims(s: string)
    ensures Trimmed(Trim(s)) && (Trimmed(s) ==> Trim(s) == s)
    ensures (forall c | c in Trim(s) :: c in s) && (forall c | c in s && !IsSpace(c) :: c in Trim(s))
  {
    TrimStartTrims(s);
    TrimEndTrims(TrimStart(s));
  }

  /** An id as the database makes them: not empty, no blanks around it, no colon in it. */
  predicate GoodId(s: string) {
    s != "" && Trimmed(s) && ':' !in s
  }

  predicate IsHex(c: char) {
    '0' <= c <= '9' || 'a' <= c <= 'f' || 'A' <= c <= 'F'
  }

  /** The pattern the code takes for a UUID: eight hex digits, a dash, and 27 hex digits or dashes. */
  predicate IsUuidLike(s: string) {
    && |s| == 36 && s[8] == '-'
    && (forall i | 0 <= i < 8 :: IsHex(s[i]))
    && (forall i | 9 <= i < 36 :: IsHex(s[i]) || s[i] == '-')
  }

  lemma UuidIsGood(s: string)
    requires IsUuidLike(s)
    ensures GoodId(s)
  {
    forall i | 0 <= i < |s| ensures !IsSpace(s[i]) && s[i] != ':' {
      if i < 8 {
        assert IsHex(s[i]);
      } else if i > 8 {
        assert IsHex(s[i]) || s[i] == '-';
      }
    }
  }

  /** map(trim).filter(Boolean). */
  function TrimmedParts(parts: seq<string>): seq<string> {
    if parts == [] then []
    else
      var p := Trim(parts[0]);
      (if p == "" then [] else [p]) + TrimmedParts(parts[1..])
  }

  /** s.startsWith("dm:"). */
  predicate HasDmPrefix(s: string) {
    DM_PREFIX + ":" <= s
  }

  function Dm(left: string, right: string): string {
    DM_PREFIX + ":" + (left + ":" + right)
  }

  /* -------------------------------- the functions ---------------------------- */

  function CanonicalizeDirectConversationId(userA: string, userB: string, le: Order): Option<string> {
    var a, b := Trim(userA), Trim(userB);
    if a == "" || b == "" then None
    else Some(if le(a, b) then Dm(a, b) else Dm(b, a))
  }

  /** The two-part case of both branches; None where the number of parts is not two. */
  function FromParts(parts: seq<string>, le: Order): Option<string> {
    if |parts| != 2 then None else CanonicalizeDirectConversationId(parts[0], parts[1], le)
  }

  function NormalizeConversationId(raw: string, currentUserId: Option<string>, le: Order): Option<string> {
    var normalized := Trim(raw);
    if normalized == "" then None
    else if HasDmPrefix(normalized) then FromParts(TrimmedParts(Split(normalized, ':')[1..]), le)
    else if ':' in normalized && |TrimmedParts(Split(normalized, ':'))| == 2 then FromParts(TrimmedParts(Split(normalized, ':')), le)
    else if currentUserId.Some? && currentUserId.value != "" && IsUuidLike(normalized)
    then CanonicalizeDirectConversationId(currentUserId.value, normalized, le)
    else Some(normalized)
  }

  function ParseDirectConversationPeer(conversationId: string, currentUserId: string, le: Order): Option<string> {
    var canonical := NormalizeConversationId(conversationId, Some(currentUserId), le);
    if canonical.None? || !HasDmPrefix(canonical.value) then None
    else
      var parts := Split(canonical.value, ':');
      if |parts| < 3 || parts[1] == "" || parts[2] == "" then None
      else if parts[1] != currentUserId && parts[2] != currentUserId then None
      else Some(if parts[1] == currentUserId then parts[2] else parts[1])
  }

  /** buildConversationId of the client. */
  function BuildConversationId(currentUserId: string, recipientId: string, groupId: string): string {
    if groupId != "" then groupId
    else if currentUserId != "" && recipientId != "" then Dm(currentUserId, recipientId)
    else ""
  }

  /* ---------------------------- every spelling agrees ------------------------ */

  lemma CanonicalIsSymmetric(a: string, b: string, le: Order)
    requires Total(le)
    ensures CanonicalizeDirectConversationId(a, b, le) == CanonicalizeDirectConversationId(b, a, le)
  {
  }

  lemma SplitPair(a: string, b: string)
    requires ':' !in a && ':' !in b
    ensures Split(a + ":" + b, ':') == [a, b]
  {
    SplitWhole(b, ':');
    SplitFirst(a, ':', b, a + ":" + b);
  }

  lemma SplitDm(a: string, b: string)
    requires ':' !in a && ':' !in b
    ensures Split(Dm(a, b), ':') == [DM_PREFIX, a, b] && HasDmPrefix(Dm(a, b))
  {
    SplitPair(a, b);
    SplitFirst(DM_PREFIX, ':', a + ":" + b, Dm(a, b));
  }

  lemma GoodParts(a: string, b: string)
    requires GoodId(a) && GoodId(b)
    ensures TrimmedParts([a, b]) == [a, b]
  {
    TrimTrims(a);
    TrimTrims(b);
    assert [a, b][0] == a && [a, b][1..] == [b] && [b][1..] == [];
    assert TrimmedParts([b]) == [b];
  }

  lemma PairIsTrimmed(a: string, b: string)
    requires GoodId(a) && GoodId(b)
    ensures Trimmed(a + ":" + b) && Trim(a + ":" + b) == a + ":" + b
    ensures Trimmed(Dm(a, b)) && Trim(Dm(a, b)) == Dm(a, b)
  {
    var pair := a + ":" + b;
    assert pair[0] == a[0] && pair[|pair| - 1] == b[|b| - 1];
    var dm := Dm(a, b);
    assert dm[0] == 'd' && dm[|dm| - 1] == b[|b| - 1];
    TrimTrims(pair);
    TrimTrims(dm);
  }

  lemma PrefixedSpelling(a: string, b: string, user: Option<string>, le: Order)
    requires GoodId(a) && GoodId(b)
    ensures NormalizeConversationId(Dm(a, b), user, le) == CanonicalizeDirectConversationId(a, b, le)
  {
    PairIsTrimmed(a, b);
    SplitDm(a, b);
    GoodParts(a, b);
    assert [DM_PREFIX, a, b][1..] == [a, b];
  }

  /** A bare pair means the direct conversation, unless its first half reads as the prefix. */
  lemma BareSpelling(a: string, b: string, user: Option<string>, le: Order)
    requires GoodId(a) && GoodId(b)
    ensures NormalizeConversationId(a + ":" + b, user, le) ==
              if a == DM_PREFIX then None else CanonicalizeDirectConversationId(a, b, le)
  {
    var pair := a + ":" + b;
    PairIsTrimmed(a, b);
    SplitPair(a, b);
    GoodParts(a, b);
    if a == DM_PREFIX {
      TrimTrims(b);
      assert [a, b][1..] == [b] && TrimmedParts([b]) == [b];
    } else {
      PrefixIsFirstPart(a, b, pair);
      assert pair[|a|] == ':';
    }
  }

  lemma PrefixIsFirstPart(a: string, b: string, pair: string)
    requires ':' !in a && pair == a + ":" + b
    ensures HasDmPrefix(pair) <==> a == DM_PREFIX
  {
    assert HasDmPrefix(pair) ==> |pair| >= 3 && pair[..3] == DM_PREFIX + ":" && pair[0] == 'd' && pair[1] == 'm' && pair[2] == ':';
    if |a| > 2 {
      assert pair[2] == a[2];
    } else if |a| == 2 {
      assert pair[..2] == a;
    } else {
      assert pair[|a|] == ':';
    }
  }

  lemma NoColonNoPrefix(s: string)
    requires ':' !in s
    ensures !HasDmPrefix(s)
  {
    assert |s| >= 3 ==> s[2] in s;
    assert (DM_PREFIX + ":")[2] == ':';
  }

  lemma UuidSpelling(peer: string, user: string, le: Order)
    requires IsUuidLike(peer) && user != ""
    ensures NormalizeConversationId(peer, Some(user), le) == CanonicalizeDirectConversationId(user, peer, le)
  {
    UuidIsGood(peer);
    TrimTrims(peer);
    NoColonNoPrefix(peer);
  }

  /** Both ends of a direct conversation, however they spell it, mean one id: prefixed or bare, in either order (bare
      only if the first id is not "dm" itself), as the client builds it, or by the peer's id when that is a UUID. */
  lemma OneIdForADirectConversation(a: string, b: string, user: Option<string>, le: Order, id: Option<string>)
    requires Total(le) && GoodId(a) && GoodId(b) && id == CanonicalizeDirectConversationId(a, b, le)
    ensures id.Some?
    ensures NormalizeConversationId(Dm(a, b), user, le) == id && NormalizeConversationId(Dm(b, a), user, le) == id
    ensures NormalizeConversationId(BuildConversationId(a, b, ""), user, le) == id
    ensures NormalizeConversationId(a + ":" + b, user, le) == id <==> a != DM_PREFIX
    ensures NormalizeConversationId(b + ":" + a, user, le) == id <==> b != DM_PREFIX
    ensures IsUuidLike(b) ==> NormalizeConversationId(b, Some(a), le) == id
    ensures IsUuidLike(a) ==> NormalizeConversationId(a, Some(b), le) == id
  {
    TrimTrims(a);
    TrimTrims(b);
    CanonicalIsSymmetric(a, b, le);
    PrefixedSpelling(a, b, user, le);
    PrefixedSpelling(b, a, user, le);
    BareSpelling(a, b, user, le);
    BareSpelling(b, a, user, le);
    if IsUuidLike(b) {
      UuidSpelling(b, a, le);
    }
    if IsUuidLike(a) {
      UuidSpelling(a, b, le);
    }
  }

  /** Different pairs of people never share an id. */
  lemma IdDeterminesThePair(a: string, b: string, c: string, d: string, le: Order)
    requires GoodId(a) && GoodId(b) && GoodId(c) && GoodId(d)
    requires CanonicalizeDirectConversationId(a, b, le) == CanonicalizeDirectConversationId(c, d, le)
    ensures {a, b} == {c, d}
  {
    TrimTrims(a);
    TrimTrims(b);
    TrimTrims(c);
    TrimTrims(d);
    SplitDm(a, b);
    SplitDm(b, a);
    SplitDm(c, d);
    SplitDm(d, c);
    var parts := Split(CanonicalizeDirectConversationId(a, b, le).value, ':');
    assert {parts[1], parts[2]} == {a, b};
    assert {parts[1], parts[2]} == {c, d};
  }

  /* ------------------------------- parsing inverts --------------------------- */

  /** From the id either participant gets the other, and nobody else gets anyone. */
  lemma ParseInverts(a: string, b: string, user: string, le: Order)
    requires Total(le) && GoodId(a) && GoodId(b)
    ensures ParseDirectConversationPeer(Dm(a, b), user, le) ==
              if user == a then Some(b) else if user == b then Some(a) else None
  {
    PrefixedSpelling(a, b, Some(user), le);
    TrimTrims(a);
    TrimTrims(b);
    SplitDm(a, b);
    SplitDm(b, a);
  }

  /* -------------------------------- idempotence ------------------------------ */

  lemma {:induction false} PartsAreGood(parts: seq<string>, i: nat)
    requires (forall k | 0 <= k < |parts| :: ':' !in parts[k]) && i < |TrimmedParts(parts)|
    ensures GoodId(TrimmedParts(parts)[i])
  {
    var p := Trim(parts[0]);
    TrimTrims(parts[0]);
    assert ':' !in parts[0];
    if p == "" {
      PartsAreGood(parts[1..], i);
    } else if i > 0 {
      PartsAreGood(parts[1..], i - 1);
    }
  }

  /** Two parts of a split make a canonical id that normalises to itself. */
  lemma FromPartsIsStable(text: string, parts: seq<string>, user: Option<string>, le: Order)
    requires Total(le) && |TrimmedParts(parts)| == 2 && forall k | 0 <= k < |parts| :: ':' !in parts[k]
    ensures var id := FromParts(TrimmedParts(parts), le);
            id.Some? && NormalizeConversationId(id.value, user, le) == id
  {
    var l, r := TrimmedParts(parts)[0], TrimmedParts(parts)[1];
    PartsAreGood(parts, 0);
    PartsAreGood(parts, 1);
    GoodIsStable(l, r, user, le);
  }

  lemma GoodIsStable(l: string, r: string, user: Option<string>, le: Order)
    requires Total(le) && GoodId(l) && GoodId(r)
    ensures var id := CanonicalizeDirectConversationId(l, r, le);
            id.Some? && NormalizeConversationId(id.value, user, le) == id
  {
    TrimTrims(l);
    TrimTrims(r);
    CanonicalIsSymmetric(l, r, le);
    PrefixedSpelling(l, r, user, le);
    PrefixedSpelling(r, l, user, le);
  }

  /** Normalising twice is normalising once, for every text, if the user id (when there is one) has no colon. */
  lemma NormalizeIsIdempotent(raw: string, user: Option<string>, le: Order, id: string)
    requires Total(le) && (user.Some? ==> ':' !in user.value)
    requires NormalizeConversationId(raw, user, le) == Some(id)
    ensures NormalizeConversationId(id, user, le) == Some(id)
  {
    var n := Trim(raw);
    var parts := Split(n, ':');
    TrimTrims(raw);
    forall k | 0 <= k < |parts| ensures ':' !in parts[k] {
      SplitParts(n, ':', k);
    }
    if HasDmPrefix(n) {
      FromPartsIsStable(n, parts[1..], user, le);
    } else if ':' in n && |TrimmedParts(parts)| == 2 {
      FromPartsIsStable(n, parts, user, le);
    } else if user.Some? && user.value != "" && IsUuidLike(n) {
      TrimTrims(user.value);
      UuidIsGood(n);
      TrimTrims(n);
      CanonicalOfTrimmed(user.value, n, le);
      GoodIsStable(Trim(user.value), n, user, le);
    } else {
      TrimTrims(n);
    }
  }

  lemma CanonicalOfTrimmed(a: string, b: string, le: Order)
    ensures CanonicalizeDirectConversationId(a, b, le) == CanonicalizeDirectConversationId(Trim(a), b, le)
  {
    TrimTrims(a);
    TrimTrims(Trim(a));
  }

  /** Joining two texts adds up their parts. */
  lemma {:induction false} SplitCountAdds(a: string, sep: char, b: string, joined: string)
    requires joined == a + [sep] + b
    ensures |Split(joined, sep)| == |Split(a, sep)| + |Split(b, sep)|
  {
    if a == "" {
      assert joined[1..] == b;
    } else {
      assert joined[1..] == a[1..] + [sep] + b;
      SplitCountAdds(a[1..], sep, b, joined[1..]);
    }
  }

  lemma DmPartCount(l: string, r: string)
    ensures |Split(Dm(l, r), ':')| == 1 + |Split(l, ':')| + |Split(r, ':')|
  {
    SplitCountAdds(l, ':', r, l + ":" + r);
    SplitCountAdds(DM_PREFIX, ':', l + ":" + r, Dm(l, r));
    SplitWhole(DM_PREFIX, ':');
  }

  /** Normalising a prefixed text gives a text of exactly three parts, or nothing. */
  lemma PrefixedGivesThreeParts(id: string, user: Option<string>, le: Order, again: string)
    requires Total(le) && Trim(id) == id && HasDmPrefix(id) && NormalizeConversationId(id, user, le) == Some(again)
    ensures |Split(again, ':')| == 3
  {
    var parts := Split(id, ':')[1..];
    forall k | 0 <= k < |parts| ensures ':' !in parts[k] {
      SplitParts(id, ':', k + 1);
    }
    var l, r := TrimmedParts(parts)[0], TrimmedParts(parts)[1];
    PartsAreGood(parts, 0);
    PartsAreGood(parts, 1);
    TrimTrims(l);
    TrimTrims(r);
    SplitDm(l, r);
    SplitDm(r, l);
  }

  /** An id with a colon inside one of its halves does not normalise to itself. */
  lemma ColonInsideIsUnstable(l: string, r: string, user: Option<string>, le: Order, id: string)
    requires Total(le) && id == Dm(l, r) && r != "" && Trimmed(r) && (':' in l || ':' in r)
    ensures NormalizeConversationId(id, user, le) != Some(id)
  {
    SplitCount(l, ':');
    SplitCount(r, ':');
    DmPartCount(l, r);
    assert id[0] == 'd' && id[|id| - 1] == r[|r| - 1];
    TrimTrims(id);
    if NormalizeConversationId(id, user, le) == Some(id) {
      PrefixedGivesThreeParts(id, user, le, id);
    }
  }

  /** The condition is needed: if the user id has a colon, what a UUID peer normalises to never normalises to itself. */
  lemma ColonInUserIdBreaksIt(user: string, peer: string, le: Order, id: string)
    requires Total(le) && ':' in user && IsUuidLike(peer) && id == (if le(Trim(user), peer) then Dm(Trim(user), peer) else Dm(peer, Trim(user)))
    ensures NormalizeConversationId(peer, Some(user), le) == Some(id)
    ensures NormalizeConversationId(id, Some(user), le) != Some(id)
  {
    var u := Trim(user);
    TrimTrims(user);
    UuidIsGood(peer);
    TrimTrims(peer);
    UuidSpelling(peer, user, le);
    ColonInsideIsUnstable(u, peer, Some(user), le, Dm(u, peer));
    ColonInsideIsUnstable(peer, u, Some(user), le, Dm(peer, u));
  }

  /** Normalisation is idempotent on all texts exactly when no user id is given or the one given has no colon. */
  lemma IdempotentIff(user: Option<string>, le: Order)
    requires Total(le)
    ensures (forall raw, id | NormalizeConversationId(raw, user, le) == Some(id) :: NormalizeConversationId(id, user, le) == Some(id))
            <==> user.None? || ':' !in user.value
  {
    if user.None? || ':' !in user.value {
      forall raw, id | NormalizeConversationId(raw, user, le) == Some(id) ensures NormalizeConversationId(id, user, le) == Some(id) {
        NormalizeIsIdempotent(raw, user, le, id);
      }
    } else {
      var peer := seq(36, i requires 0 <= i < 36 => if i == 8 then '-' else '0');
      var u := Trim(user.value);
      ColonInUserIdBreaksIt(user.value, peer, le, if le(u, peer) then Dm(u, peer) else Dm(peer, u));
    }
  }
}
