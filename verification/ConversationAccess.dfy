/**
 Who may read and write a conversation: lib/conversation-access.ts.  A query that fails answers null like one that
 finds nothing, so the database is what its queries find.
 */
module ConversationAccess {
  import opened Common
  import opened ConversationId
  import opened Strings

  datatype Membership = Membership(role: string, isMuted: bool)

  /** Group ids, memberships by (group, user), and for every user whether they are banned. */
  datatype Database = Database(groups: set<string>, members: map<(string, string), Membership>, isBanned: map<string, bool>)

  datatype Reason =
    | MissingConversationId | MissingGroupMembership | InvalidDirectConversation | InvalidDirectPeer | MemberMuted

  datatype Access = Group(groupId: string, membershipRole: string, isMuted: bool) | Direct(peerUserId: string) | Denied(reason: Reason)

  datatype Action = ReadConversation | JoinConversation | SendMessage | WriteAttachment

  datatype Target = Target(conversationId: Option<string>, groupId: Option<string>, recipientId: Option<string>)

  function ResolveTargetConversationId(target: Target, userId: string, le: Order): Option<string> {
    if Truthy(target.groupId) then target.groupId
    else if Truthy(target.conversationId) then target.conversationId
    else if Truthy(target.recipientId) then
      var id := NormalizeConversationId(target.recipientId.value, Some(userId), le);
      if id.Some? then id else target.recipientId
    else None
  }

  function WithPeer(db: Database, peer: Option<string>): Access {
    if !Truthy(peer) then Denied(InvalidDirectConversation)
    else if peer.value !in db.isBanned || db.isBanned[peer.value] then Denied(InvalidDirectPeer)
    else Direct(peer.value)
  }

  function AuthorizeNormalized(db: Database, id: string, userId: string, le: Order): Access {
    if id in db.groups then
      if (id, userId) !in db.members then Denied(MissingGroupMembership)
      else Group(id, db.members[(id, userId)].role, db.members[(id, userId)].isMuted)
    else
      var parsed := ParseDirectConversationPeer(id, userId, le);
      WithPeer(db, if parsed.Some? then parsed else if id == userId then None else Some(id))
  }

  function AuthorizeConversationAccess(db: Database, conversationId: string, userId: string, le: Order): Access {
    var normalized := NormalizeConversationId(conversationId, Some(userId), le);
    if !Truthy(normalized) then Denied(MissingConversationId)
    else AuthorizeNormalized(db, normalized.value, userId, le)
  }

  /** The decision of evaluateConversationAction: the reason, where the action is refused. */
  function EvaluateConversationAction(action: Action, access: Access): Option<Reason> {
    if access.Denied? then Some(access.reason)
    else if (action == SendMessage || action == WriteAttachment) && access.Group? && access.isMuted then Some(MemberMuted)
    else None
  }

  function AuthorizeConversationAction(db: Database, userId: string, target: Target, action: Action, le: Order): Option<Reason> {
    var id := ResolveTargetConversationId(target, userId, le);
    if !Truthy(id) then Some(MissingConversationId)
    else EvaluateConversationAction(action, AuthorizeConversationAccess(db, id.value, userId, le))
  }

  /** Ids in the tables have no colon. */
  ghost predicate PlainIds(db: Database) {
    (forall g | g in db.groups :: ':' !in g) && (forall u | u in db.isBanned :: ':' !in u)
  }

  lemma CanonicalHasColon(x: string, y: string, le: Order)
    requires GoodId(x) && GoodId(y)
    ensures var id := CanonicalizeDirectConversationId(x, y, le);
            id.Some? && id.value != "" && ':' in id.value && (id == Some(Dm(x, y)) || id == Some(Dm(y, x)))
  {
    TrimTrims(x);
    TrimTrims(y);
    assert Dm(x, y)[2] == ':' && Dm(y, x)[2] == ':';
  }

  /** Access to the conversation of x and y, however it is spelled, is exactly: x reaches y, y reaches x, if the other
      exists and is not banned; nobody else gets in. */
  lemma DirectAccess(db: Database, raw: string, x: string, y: string, user: string, le: Order)
    requires Total(le) && PlainIds(db) && GoodId(x) && GoodId(y) && ':' !in user
    ensures NormalizeConversationId(raw, Some(user), le) == CanonicalizeDirectConversationId(x, y, le) ==>
              AuthorizeConversationAccess(db, raw, user, le) ==
                if user == x then WithPeer(db, Some(y)) else if user == y then WithPeer(db, Some(x)) else Denied(InvalidDirectPeer)
  {
    CanonicalHasColon(x, y, le);
    ParseInverts(x, y, user, le);
    ParseInverts(y, x, user, le);
  }

  /** A normalised id is never empty, and one with the prefix is the canonical id of two good ids. */
  lemma PrefixedIsCanonical(raw: string, user: string, le: Order, id: string) returns (l: string, r: string)
    requires Total(le) && GoodId(user) && NormalizeConversationId(raw, Some(user), le) == Some(id)
    ensures id != ""
    ensures HasDmPrefix(id) ==> GoodId(l) && GoodId(r) && CanonicalizeDirectConversationId(l, r, le) == Some(id)
  {
    var n := Trim(raw);
    var parts := Split(n, ':');
    l, r := user, n;
    forall k | 0 <= k < |parts| ensures ':' !in parts[k] {
      SplitParts(n, ':', k);
    }
    if HasDmPrefix(n) || (':' in n && |TrimmedParts(parts)| == 2) {
      var halves := if HasDmPrefix(n) then parts[1..] else parts;
      PartsAreGood(halves, 0);
      PartsAreGood(halves, 1);
      l, r := TrimmedParts(halves)[0], TrimmedParts(halves)[1];
    } else if IsUuidLike(n) {
      UuidIsGood(n);
    }
  }

  lemma CanonicalHasPrefix(x: string, y: string, le: Order)
    ensures var id := CanonicalizeDirectConversationId(x, y, le); id.Some? ==> HasDmPrefix(id.value)
  {
  }

  /** The canonical id of two people names one of them to the other, and nobody to anyone else. */
  lemma PairNames(l: string, r: string, user: string, p: string, le: Order)
    requires Total(le) && GoodId(l) && GoodId(r) && GoodId(user)
    ensures (if user == l then p == r else user == r && p == l) <==>
              GoodId(p) && CanonicalizeDirectConversationId(l, r, le) == CanonicalizeDirectConversationId(user, p, le)
  {
    CanonicalIsSymmetric(l, r, le);
    if GoodId(p) && CanonicalizeDirectConversationId(l, r, le) == CanonicalizeDirectConversationId(user, p, le) {
      IdDeterminesThePair(l, r, user, p, le);
    }
  }

  /** A normalised text without the prefix is looked up as it stands. */
  lemma UnprefixedAccess(db: Database, raw: string, user: string, id: string, le: Order)
    requires Total(le) && GoodId(user) && NormalizeConversationId(raw, Some(user), le) == Some(id) && !HasDmPrefix(id)
    requires id !in db.groups
    ensures AuthorizeConversationAccess(db, raw, user, le) == WithPeer(db, if id == user then None else Some(id))
  {
    var l, r := PrefixedIsCanonical(raw, user, le, id);
    NormalizeIsIdempotent(raw, Some(user), le, id);
  }

  /** Whatever text is sent, the answer is a direct conversation with p exactly if p exists and is not banned, and the
      text is the id of the user and p, in any spelling, or p itself (and no group is called that). */
  lemma DirectIff(db: Database, raw: string, user: string, p: string, le: Order)
    requires Total(le) && PlainIds(db) && GoodId(user)
    ensures AuthorizeConversationAccess(db, raw, user, le) == Direct(p) <==>
              var text := NormalizeConversationId(raw, Some(user), le);
              && p in db.isBanned && !db.isBanned[p]
              && ((GoodId(p) && text == CanonicalizeDirectConversationId(user, p, le))
                  || (text == Some(p) && p != user && p !in db.groups))
  {
    var text := NormalizeConversationId(raw, Some(user), le);
    CanonicalHasPrefix(user, p, le);
    if text.Some? {
      var id := text.value;
      var l, r := PrefixedIsCanonical(raw, user, le, id);
      if HasDmPrefix(id) {
        CanonicalHasColon(l, r, le);
        DirectAccess(db, raw, l, r, user, le);
        PairNames(l, r, user, p, le);
      } else if id !in db.groups {
        UnprefixedAccess(db, raw, user, id, le);
      }
    } else if GoodId(p) {
      CanonicalHasColon(user, p, le);
    }
  }

  /** ... and a group exactly if the text names one, and the user is a member of it. */
  lemma GroupIff(db: Database, raw: string, user: string, g: string, role: string, muted: bool, le: Order)
    ensures AuthorizeConversationAccess(db, raw, user, le) == Access.Group(g, role, muted) <==>
              && NormalizeConversationId(raw, Some(user), le) == Some(g) && g in db.groups
              && (g, user) in db.members && db.members[(g, user)] == Membership(role, muted)
  {
  }

  /** Only the two people named are ever let into a direct conversation. */
  lemma OnlyParticipantsEnter(db: Database, x: string, y: string, user: string, action: Action, le: Order)
    requires Total(le) && PlainIds(db) && GoodId(x) && GoodId(y) && ':' !in user
    ensures AuthorizeConversationAction(db, user, Target(Some(Dm(x, y)), None, None), action, le) == None <==>
              || (user == x && y in db.isBanned && !db.isBanned[y])
              || (user == y && x in db.isBanned && !db.isBanned[x])
  {
    PrefixedSpelling(x, y, Some(user), le);
    DirectAccess(db, Dm(x, y), x, y, user, le);
  }

  /** Naming a UUID recipient reaches exactly that person. */
  lemma RecipientAccess(db: Database, user: string, peer: string, action: Action, le: Order)
    requires Total(le) && PlainIds(db) && GoodId(user) && IsUuidLike(peer)
    ensures AuthorizeConversationAction(db, user, Target(None, None, Some(peer)), action, le) == None <==>
              peer in db.isBanned && !db.isBanned[peer]
  {
    UuidIsGood(peer);
    UuidSpelling(peer, user, le);
    CanonicalHasColon(user, peer, le);
    var id := CanonicalizeDirectConversationId(user, peer, le).value;
    CanonicalIsSymmetric(user, peer, le);
    PrefixedSpelling(user, peer, Some(user), le);
    PrefixedSpelling(peer, user, Some(user), le);
    DirectAccess(db, id, user, peer, user, le);
  }

  /** A group's id names the group, to its members, exactly when it does not look like a UUID: one that does is taken
      for a person's, so its members are refused like everybody else (unless a user has the same id). */
  lemma GroupAccess(db: Database, group: string, user: string, le: Order)
    requires Total(le) && PlainIds(db) && GoodId(user) && GoodId(group) && group in db.groups
    ensures AuthorizeConversationAccess(db, group, user, le) ==
              if IsUuidLike(group) then WithPeer(db, Some(group))
              else if (group, user) in db.members
              then Access.Group(group, db.members[(group, user)].role, db.members[(group, user)].isMuted)
              else Denied(MissingGroupMembership)
  {
    TrimTrims(group);
    NoColonNoPrefix(group);
    if IsUuidLike(group) {
      UuidSpelling(group, user, le);
      DirectAccess(db, group, user, group, user, le);
      assert group != user || WithPeer(db, Some(group)) == WithPeer(db, Some(user));
    }
  }

  /** In a group a member may read and join, and may send and attach exactly when not muted; nobody else may do
      anything.  This holds for the ids that name groups at all. */
  lemma GroupActions(db: Database, group: string, user: string, action: Action, le: Order)
    requires Total(le) && PlainIds(db) && GoodId(user) && GoodId(group) && group in db.groups && !IsUuidLike(group)
    ensures AuthorizeConversationAction(db, user, Target(None, Some(group), None), action, le) ==
              if (group, user) !in db.members then Some(MissingGroupMembership)
              else if (action == SendMessage || action == WriteAttachment) && db.members[(group, user)].isMuted then Some(MemberMuted)
              else None
  {
    GroupAccess(db, group, user, le);
  }

  /** ... and with a UUID for its id, as the schema assigns them, every action of every member is refused. */
  lemma UuidGroupRefusesItsMembers(db: Database, group: string, user: string, action: Action, le: Order)
    requires Total(le) && PlainIds(db) && GoodId(user) && group in db.groups && IsUuidLike(group) && group !in db.isBanned
    ensures AuthorizeConversationAction(db, user, Target(None, Some(group), None), action, le) == Some(InvalidDirectPeer)
  {
    UuidIsGood(group);
    GroupAccess(db, group, user, le);
  }

  /** Of the ways to name a target the group counts first, then the conversation, then the recipient; with none there is no
      access. */
  lemma FirstTargetCounts(db: Database, user: string, target: Target, action: Action, le: Order)
    ensures var answer := AuthorizeConversationAction(db, user, target, action, le);
            if Truthy(target.groupId) then answer == AuthorizeConversationAction(db, user, Target(None, target.groupId, None), action, le)
            else if Truthy(target.conversationId)
            then answer == AuthorizeConversationAction(db, user, Target(target.conversationId, None, None), action, le)
            else if Truthy(target.recipientId)
            then answer == AuthorizeConversationAction(db, user, Target(None, None, target.recipientId), action, le)
            else answer == Some(MissingConversationId)
  {
  }

  /** An action is allowed exactly on a conversation one has access to, unless it writes and one is muted there. */
  lemma ActionIff(db: Database, user: string, id: string, action: Action, le: Order)
    requires id != ""
    ensures var access := AuthorizeConversationAccess(db, id, user, le);
            var answer := AuthorizeConversationAction(db, user, Target(Some(id), None, None), action, le);
            && (answer == None <==> !access.Denied? && !(access.Group? && access.isMuted && (action == SendMessage || action == WriteAttachment)))
            && (access.Denied? ==> answer == Some(access.reason))
            && (!access.Denied? && answer.Some? ==> answer == Some(MemberMuted))
  {
  }
}
