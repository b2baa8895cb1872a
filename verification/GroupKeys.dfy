/**
 Group sender keys: lib/crypto/group-sender-keys.ts, and the way app/chat/MessageComposer.tsx drives it.

 Keys are terms: the two HMAC labels are injective constructors, random values are numbers drawn once, and
 AES-GCM opens exactly under the key and nonce that sealed.
 */
module GroupKeys {
  import opened Common

  type GroupId = string
  type UserId = string
  type Nonce = nat

  /** HMAC(chain, "chain:i") is Next(chain, i). */
  datatype ChainKey = Seed(random: nat) | Next(previous: ChainKey, index: int)

  /** HMAC(chain, "message:i"). */
  datatype MessageKey = MessageKey(chain: ChainKey, index: int)

  datatype SenderKeyState = SenderKeyState(chainKey: ChainKey, senderPublicKey: nat, keyGeneration: int, chainIndex: int)

  datatype Envelope = Envelope(userId: UserId, identityKey: string)

  /** JSON of the chain key and generation, sealed under a member's identity key. */
  datatype Wrapped = Wrapped(identityKey: string, nonce: Nonce, chainKey: ChainKey, keyGeneration: int)

  datatype WrappedKey = WrappedKey(recipientUserId: UserId, wrapped: Wrapped, nonce: Nonce)

  datatype Distribution = Distribution(groupId: GroupId, senderPublicKey: nat, keyGeneration: int, wrappedKeys: seq<WrappedKey>)

  datatype Ciphertext = Ciphertext(key: MessageKey, nonce: Nonce, plaintext: string)

  datatype GroupMessage = GroupMessage(ciphertext: Ciphertext, nonce: Nonce, keyGeneration: int, messageIndex: int)

  datatype Received = Received(chainKey: ChainKey, keyGeneration: int, senderPublicKey: nat)

  datatype Error = MissingSenderKey | NoInboundKey | DecryptionFailed

  /* ------------------------------- specification ----------------------------- */

  function Generated(random: nat): SenderKeyState {
    SenderKeyState(Seed(random), random, 0, 0)
  }

  /** What distributeSenderKey leaves in the store: the existing state, or a new one. */
  function Distributed(existing: Option<SenderKeyState>, random: nat): SenderKeyState {
    if existing.Some? then existing.value else Generated(random)
  }

  function Rotated(previous: Option<SenderKeyState>, random: nat): SenderKeyState {
    Generated(random).(keyGeneration := if previous.Some? then previous.value.keyGeneration + 1 else 0)
  }

  function Advanced(state: SenderKeyState): SenderKeyState {
    state.(chainKey := Next(state.chainKey, state.chainIndex), chainIndex := state.chainIndex + 1)
  }

  function Sealed(state: SenderKeyState, plaintext: string, nonce: Nonce): GroupMessage {
    GroupMessage(Ciphertext(MessageKey(state.chainKey, state.chainIndex), nonce, plaintext), nonce,
                 state.keyGeneration, state.chainIndex)
  }

  function Wrap(state: SenderKeyState, member: Envelope, nonce: Nonce): WrappedKey {
    WrappedKey(member.userId, Wrapped(member.identityKey, nonce, state.chainKey, state.keyGeneration), nonce)
  }

  /** One wrapped key a member, in the members' order, each under its own nonce. */
  function WrapAll(state: SenderKeyState, members: seq<Envelope>, nonces: seq<Nonce>): (wrapped: seq<WrappedKey>)
    requires |nonces| == |members|
    ensures |wrapped| == |members|
    ensures forall i | 0 <= i < |members| :: wrapped[i] == Wrap(state, members[i], nonces[i])
  {
    seq(|members|, i requires 0 <= i < |members| => Wrap(state, members[i], nonces[i]))
  }

  function Payload(groupId: GroupId, state: SenderKeyState, members: seq<Envelope>, nonces: seq<Nonce>): Distribution
    requires |nonces| == |members|
  {
    Distribution(groupId, state.senderPublicKey, state.keyGeneration, WrapAll(state, members, nonces))
  }

  function ReceiveSenderKey(wrapped: Wrapped, nonce: Nonce, senderPublicKey: nat, identityKey: string): Result<Received, Error> {
    if wrapped.identityKey == identityKey && wrapped.nonce == nonce
    then Ok(Received(wrapped.chainKey, wrapped.keyGeneration, senderPublicKey)) else Err(DecryptionFailed)
  }

  /** decryptGroupMessage, given the inbound key stored for the message's generation. */
  function Opened(incoming: Option<ChainKey>, ciphertext: Ciphertext, nonce: Nonce, messageIndex: int): Result<string, Error> {
    if incoming.None? then Err(NoInboundKey)
    else if ciphertext.key == MessageKey(incoming.value, messageIndex) && ciphertext.nonce == nonce
    then Ok(ciphertext.plaintext)
    else Err(DecryptionFailed)
  }

  /* ---------------------------------- the store ------------------------------ */

  function Find<K, V>(m: map<K, V>, k: K): Option<V> {
    if k in m then Some(m[k]) else None
  }

  /** A client's key/value store. */
  class KeyStore {
    var states: map<GroupId, SenderKeyState>
    var inbound: map<(GroupId, UserId, int), ChainKey>

    method DistributeSenderKey(groupId: GroupId, members: seq<Envelope>, random: nat, nonces: seq<Nonce>)
      returns (payload: Distribution)
      requires |nonces| == |members|
      modifies this`states
      ensures states == old(states)[groupId := Distributed(Find(old(states), groupId), random)]
      ensures payload == Payload(groupId, states[groupId], members, nonces)
    {
      var existing := Find(states, groupId);
      var state: SenderKeyState;
      if existing.Some? {
        state := existing.value;
      } else {
        state := Generated(random);
      }
      states := states[groupId := state];

      var wrappedKeys: seq<WrappedKey> := [];
      while |wrappedKeys| < |members|
        invariant |wrappedKeys| <= |members|
        invariant wrappedKeys == WrapAll(state, members, nonces)[..|wrappedKeys|]
      {
        wrappedKeys := wrappedKeys + [Wrap(state, members[|wrappedKeys|], nonces[|wrappedKeys|])];
      }
      payload := Distribution(groupId, state.senderPublicKey, state.keyGeneration, wrappedKeys);
    }

    method RotateSenderKey(groupId: GroupId, members: seq<Envelope>, random: nat, nonces: seq<Nonce>)
      returns (payload: Distribution)
      requires |nonces| == |members|
      modifies this`states
      ensures states == old(states)[groupId := Rotated(Find(old(states), groupId), random)]
      ensures payload == Payload(groupId, states[groupId], members, nonces)
    {
      var previous := Find(states, groupId);
      var next := Generated(random);
      next := next.(keyGeneration := (if previous.Some? then previous.value.keyGeneration else -1) + 1);
      next := next.(chainIndex := 0);
      states := states[groupId := next];
      payload := DistributeSenderKey(groupId, members, random, nonces);
    }

    method EncryptGroupMessage(groupId: GroupId, plaintext: string, nonce: Nonce) returns (result: Result<GroupMessage, Error>)
      modifies this`states
      ensures groupId !in old(states) ==> result == Err(MissingSenderKey) && states == old(states)
      ensures groupId in old(states) ==>
                && result == Ok(Sealed(old(states)[groupId], plaintext, nonce))
                && states == old(states)[groupId := Advanced(old(states)[groupId])]
    {
      if groupId !in states {
        return Err(MissingSenderKey);
      }
      var state := states[groupId];
      var ciphertext := Ciphertext(MessageKey(state.chainKey, state.chainIndex), nonce, plaintext);
      state := state.(chainKey := Next(state.chainKey, state.chainIndex));
      var usedIndex := state.chainIndex;
      state := state.(chainIndex := state.chainIndex + 1);
      states := states[groupId := state];
      result := Ok(GroupMessage(ciphertext, nonce, state.keyGeneration, usedIndex));
    }

    method StoreReceivedSenderKey(groupId: GroupId, senderId: UserId, keyGeneration: int, chainKey: ChainKey)
      modifies this`inbound
      ensures inbound == old(inbound)[(groupId, senderId, keyGeneration) := chainKey]
    {
      inbound := inbound[(groupId, senderId, keyGeneration) := chainKey];
    }

    method DecryptGroupMessage(groupId: GroupId, senderId: UserId, ciphertext: Ciphertext, nonce: Nonce,
                               keyGeneration: int, messageIndex: int) returns (result: Result<string, Error>)
      ensures result == Opened(Find(inbound, (groupId, senderId, keyGeneration)), ciphertext, nonce, messageIndex)
    {
      if (groupId, senderId, keyGeneration) !in inbound {
        return Err(NoInboundKey);
      }
      var messageKey := MessageKey(inbound[(groupId, senderId, keyGeneration)], messageIndex);
      if ciphertext.key == messageKey && ciphertext.nonce == nonce {
        result := Ok(ciphertext.plaintext);
      } else {
        result := Err(DecryptionFailed);
      }
    }
  }

  /** A distribution reaches exactly the members it names: each unwraps the sender's chain key and generation with
      its own identity key, and no other identity key unwraps it. */
  lemma DistributionReachesMembers(groupId: GroupId, state: SenderKeyState, members: seq<Envelope>, nonces: seq<Nonce>, i: nat,
                                   identityKey: string)
    requires |nonces| == |members| && i < |members|
    ensures var d := Payload(groupId, state, members, nonces);
            var entry := d.wrappedKeys[i];
            && entry.recipientUserId == members[i].userId
            && (ReceiveSenderKey(entry.wrapped, entry.nonce, d.senderPublicKey, identityKey) ==
                if identityKey == members[i].identityKey
                then Ok(Received(state.chainKey, state.keyGeneration, state.senderPublicKey)) else Err(DecryptionFailed))
  {
    assert WrapAll(state, members, nonces)[i] == Wrap(state, members[i], nonces[i]);
  }

  /* ------------------------------- the hash chain ---------------------------- */

  function Root(k: ChainKey): nat {
    match k
    case Seed(random) => random
    case Next(previous, _) => Root(previous)
  }

  function Depth(k: ChainKey): nat {
    match k
    case Seed(_) => 0
    case Next(previous, _) => Depth(previous) + 1
  }

  /** Every link was derived at the index that is its position. */
  predicate IsChain(k: ChainKey) {
    match k
    case Seed(_) => true
    case Next(previous, index) => index == Depth(previous) && IsChain(previous)
  }

  /** A seed and a position name one chain key. */
  lemma {:induction false} ChainDetermined(a: ChainKey, b: ChainKey)
    requires IsChain(a) && IsChain(b) && Root(a) == Root(b) && Depth(a) == Depth(b)
    ensures a == b
  {
    if a.Next? {
      ChainDetermined(a.previous, b.previous);
    }
  }

  /* ----------------------------------- runs ---------------------------------- */

  /** What one sender put on the wire: a distribution of a chain key, or a message sealed with one. */
  datatype Offer = Offer(keyGeneration: int, chainKey: ChainKey)

  datatype Sent = Sent(chainKey: ChainKey, message: GroupMessage)

  /** One sender in one group, and what the group's members have stored from it. */
  datatype World = World(drawn: nat, own: Option<SenderKeyState>, offers: seq<Offer>, sent: seq<Sent>,
                         inbound: map<(UserId, int), ChainKey>)

  /** Lose is the sender's browser storage being cleared; a member may process any offer, any time, repeatedly. */
  datatype Event = Distribute | Rotate | Encrypt(plaintext: string) | Receive(member: UserId, offer: nat) | Lose

  const INIT := World(0, None, [], [], map[])

  function Offered(w: World, state: SenderKeyState): World {
    w.(drawn := w.drawn + 1, own := Some(state), offers := w.offers + [Offer(state.keyGeneration, state.chainKey)])
  }

  function Step(w: World, e: Event): World {
    match e
    case Distribute => Offered(w, Distributed(w.own, w.drawn))
    case Rotate => Offered(w, Rotated(w.own, w.drawn))
    case Encrypt(plaintext) =>
      if w.own.None? then w
      else w.(own := Some(Advanced(w.own.value)),
              sent := w.sent + [Sent(w.own.value.chainKey, Sealed(w.own.value, plaintext, |w.sent|))])
    case Receive(member, offer) =>
      if offer >= |w.offers| then w
      else w.(inbound := w.inbound[(member, w.offers[offer].keyGeneration) := w.offers[offer].chainKey])
    case Lose => w.(own := None)
  }

  function Run(events: seq<Event>): World {
    if events == [] then INIT else Step(Run(events[..|events| - 1]), events[|events| - 1])
  }

  /** The sender's state is its chain's tip; every message was sealed strictly before the tip, all at different places. */
  ghost predicate ChainInv(w: World) {
    && (w.own.Some? ==>
          var own := w.own.value;
          IsChain(own.chainKey) && Depth(own.chainKey) == own.chainIndex && Root(own.chainKey) < w.drawn)
    && (forall i | 0 <= i < |w.sent| ::
          var s := w.sent[i];
          && IsChain(s.chainKey) && s.message.messageIndex == Depth(s.chainKey) && Root(s.chainKey) < w.drawn
          && s.message.ciphertext.key == MessageKey(s.chainKey, s.message.messageIndex)
          && s.message.ciphertext.nonce == s.message.nonce
          && (w.own.Some? && Root(s.chainKey) == Root(w.own.value.chainKey) ==> Depth(s.chainKey) < Depth(w.own.value.chainKey)))
    && (forall i, j | 0 <= i < j < |w.sent| :: w.sent[i].chainKey != w.sent[j].chainKey)
  }

  lemma StepKeepsChain(w: World, e: Event, next: World)
    requires ChainInv(w) && next == Step(w, e)
    ensures ChainInv(next)
  {
    if e.Encrypt? && w.own.Some? {
      var own := w.own.value;
      assert next.sent[..|w.sent|] == w.sent;
      forall i | 0 <= i < |w.sent| ensures next.sent[i] == w.sent[i] && w.sent[i].chainKey != own.chainKey {
        assert next.sent[i] == next.sent[..|w.sent|][i];
      }
    }
  }

  lemma {:induction false} ChainInvariant(events: seq<Event>)
    ensures ChainInv(Run(events))
  {
    if events != [] {
      ChainInvariant(events[..|events| - 1]);
      StepKeepsChain(Run(events[..|events| - 1]), events[|events| - 1], Run(events));
    }
  }

  /** Over every run, whatever is rotated, redistributed or lost, no two messages share a message key. */
  lemma KeysNeverRepeat(events: seq<Event>, i: nat, j: nat)
    requires i < j < |Run(events).sent|
    ensures Run(events).sent[i].message.ciphertext.key != Run(events).sent[j].message.ciphertext.key
  {
    ChainInvariant(events);
  }

  /* --------------------- generation and index strictly increase -------------- */

  predicate Before(g: int, i: int, h: int, j: int) {
    g < h || (g == h && i < j)
  }

  /** Every message comes before the sender's next place, and messages come one after the other. */
  ghost predicate Ordered(w: World) {
    && (w.own.None? ==> w.sent == [])
    && (forall i | 0 <= i < |w.sent| ::
          Before(w.sent[i].message.keyGeneration, w.sent[i].message.messageIndex, w.own.value.keyGeneration, w.own.value.chainIndex))
    && (forall i, j | 0 <= i < j < |w.sent| ::
          Before(w.sent[i].message.keyGeneration, w.sent[i].message.messageIndex,
                 w.sent[j].message.keyGeneration, w.sent[j].message.messageIndex))
  }

  lemma StepKeepsOrder(w: World, e: Event, next: World)
    requires Ordered(w) && e != Lose && next == Step(w, e)
    ensures Ordered(next)
  {
    if e.Encrypt? && w.own.Some? {
      assert next.sent[..|w.sent|] == w.sent;
      forall i | 0 <= i < |w.sent| ensures next.sent[i] == w.sent[i] {
        assert next.sent[i] == next.sent[..|w.sent|][i];
      }
    }
  }

  /** Over every run in which the store is kept, (keyGeneration, messageIndex) strictly increases lexicographically
      from each message to the next. */
  lemma {:induction false} GenerationAndIndexIncrease(events: seq<Event>)
    requires Lose !in events
    ensures Ordered(Run(events))
  {
    if events != [] {
      GenerationAndIndexIncrease(events[..|events| - 1]);
      StepKeepsOrder(Run(events[..|events| - 1]), events[|events| - 1], Run(events));
    }
  }

  /** A cleared store starts again at generation 0, index 0, so the pair repeats; the keys still do not. */
  lemma LossRepeatsThePair(w: World, first: GroupMessage, second: GroupMessage, u: World, p: string, q: string)
    requires u == Step(Step(Step(w, Lose), Distribute), Encrypt(p)) && first == u.sent[|u.sent| - 1].message
    requires var v := Step(Step(Step(u, Lose), Distribute), Encrypt(q));
             second == v.sent[|v.sent| - 1].message
    ensures first.keyGeneration == second.keyGeneration == 0 && first.messageIndex == second.messageIndex == 0
    ensures first.ciphertext.key != second.ciphertext.key
  {
    var a := Step(Step(u, Lose), Distribute);
    assert a.own == Some(Generated(u.drawn)) && u.drawn == w.drawn + 1;
    var b := Step(Step(w, Lose), Distribute);
    assert b.own == Some(Generated(w.drawn));
  }

  /* -------------------------------- who can read ----------------------------- */

  /** What a member gets from a message, with what it has stored now. */
  function Read(w: World, member: UserId, message: GroupMessage): Result<string, Error> {
    Opened(Find(w.inbound, (member, message.keyGeneration)), message.ciphertext, message.nonce, message.messageIndex)
  }

  /** A member reads a message exactly when the inbound key it stores for that generation is the sender's chain key
      at that index; a failed read answers no other text. */
  lemma ReadsIff(events: seq<Event>, w: World, member: UserId, x: nat)
    requires w == Run(events) && x < |w.sent|
    ensures var s := w.sent[x];
            && (Read(w, member, s.message).Ok? <==>
                Find(w.inbound, (member, s.message.keyGeneration)) == Some(s.chainKey))
            && (Read(w, member, s.message).Ok? ==> Read(w, member, s.message) == Ok(s.message.ciphertext.plaintext))
  {
    ChainInvariant(events);
  }

  /** Offers are chain keys, and what a member stores for a generation was offered for that generation. */
  ghost predicate OfferInv(w: World) {
    && (forall o | 0 <= o < |w.offers| :: IsChain(w.offers[o].chainKey))
    && (forall k | k in w.inbound :: exists o :: 0 <= o < |w.offers| && w.offers[o] == Offer(k.1, w.inbound[k]))
  }

  lemma StepKeepsOffers(w: World, e: Event, next: World)
    requires ChainInv(w) && OfferInv(w) && next == Step(w, e)
    ensures OfferInv(next)
  {
    assert next.offers[..|w.offers|] == w.offers;
    forall o | 0 <= o < |w.offers| ensures next.offers[o] == w.offers[o] {
      assert next.offers[o] == next.offers[..|w.offers|][o];
    }
    forall k | k in next.inbound ensures exists o :: 0 <= o < |next.offers| && next.offers[o] == Offer(k.1, next.inbound[k]) {
      if e.Receive? && e.offer < |w.offers| && k == (e.member, w.offers[e.offer].keyGeneration) {
        assert next.offers[e.offer] == Offer(k.1, next.inbound[k]);
      } else {
        var o :| 0 <= o < |w.offers| && w.offers[o] == Offer(k.1, w.inbound[k]);
        assert next.offers[o] == w.offers[o];
      }
    }
  }

  lemma {:induction false} OfferInvariant(events: seq<Event>)
    ensures OfferInv(Run(events))
  {
    if events != [] {
      OfferInvariant(events[..|events| - 1]);
      ChainInvariant(events[..|events| - 1]);
      StepKeepsOffers(Run(events[..|events| - 1]), events[|events| - 1], Run(events));
    }
  }

  /** The offer was made on the message's chain, at the very index the message was sent at. */
  predicate MadeAt(o: Offer, s: Sent) {
    Root(o.chainKey) == Root(s.chainKey) && Depth(o.chainKey) == s.message.messageIndex
  }

  /** A member reads a message exactly when what it stores for the generation is an offer made at the message's own
      index of the message's chain: an earlier offer will not do, nor a later one. */
  lemma ReadsIffOfferedAtThatIndex(events: seq<Event>, w: World, member: UserId, x: nat)
    requires w == Run(events) && x < |w.sent|
    ensures var s := w.sent[x];
            Read(w, member, s.message).Ok? <==>
              exists o :: && 0 <= o < |w.offers| && w.offers[o].keyGeneration == s.message.keyGeneration
                          && Find(w.inbound, (member, s.message.keyGeneration)) == Some(w.offers[o].chainKey)
                          && MadeAt(w.offers[o], s)
  {
    ChainInvariant(events);
    OfferInvariant(events);
    var s := w.sent[x];
    var k := (member, s.message.keyGeneration);
    if k in w.inbound {
      var o :| 0 <= o < |w.offers| && w.offers[o] == Offer(k.1, w.inbound[k]);
      if Root(w.inbound[k]) == Root(s.chainKey) && Depth(w.inbound[k]) == s.message.messageIndex {
        ChainDetermined(w.inbound[k], s.chainKey);
      }
      assert Read(w, member, s.message).Ok? ==> MadeAt(w.offers[o], s);
    }
  }

  /** At any moment a member can read at most one message of each generation. */
  lemma ReadsOneMessageAGeneration(events: seq<Event>, w: World, member: UserId, x: nat, y: nat)
    requires w == Run(events) && x < |w.sent| && y < |w.sent|
    requires w.sent[x].message.keyGeneration == w.sent[y].message.keyGeneration
    requires Read(w, member, w.sent[x].message).Ok? && Read(w, member, w.sent[y].message).Ok?
    ensures x == y
  {
    ChainInvariant(events);
  }

  /* --------------------------- distribute, then encrypt ---------------------- */

  /** Every listed member processes one offer. */
  function ReceiveAll(w: World, members: seq<UserId>, offer: nat): World {
    if members == [] then w else Step(ReceiveAll(w, members[..|members| - 1], offer), Receive(members[|members| - 1], offer))
  }

  lemma {:induction false} ReceiveAllStores(w: World, members: seq<UserId>, offer: nat, r: World)
    requires offer < |w.offers| && r == ReceiveAll(w, members, offer)
    ensures r.own == w.own && r.offers == w.offers && r.sent == w.sent && r.drawn == w.drawn
    ensures forall m | m in members ::
              Find(r.inbound, (m, w.offers[offer].keyGeneration)) == Some(w.offers[offer].chainKey)
  {
    if members != [] {
      var rest := members[..|members| - 1];
      ReceiveAllStores(w, rest, offer, ReceiveAll(w, rest, offer));
      assert members == rest + [members[|members| - 1]];
    }
  }

  /** The composer's send: distribute, let the members store, encrypt. */
  function Send(w: World, members: seq<UserId>, plaintext: string): World {
    Step(ReceiveAll(Step(w, Distribute), members, |w.offers|), Encrypt(plaintext))
  }

  /** From every state, a message sent this way adds exactly one message, and every member who stored reads it. */
  lemma DistributeThenEncryptDelivers(w: World, members: seq<UserId>, plaintext: string, r: World)
    requires r == Send(w, members, plaintext)
    ensures |r.sent| == |w.sent| + 1 && r.sent[..|w.sent|] == w.sent
    ensures forall m | m in members :: Read(r, m, r.sent[|w.sent|].message) == Ok(plaintext)
  {
    var a := Step(w, Distribute);
    var b := ReceiveAll(a, members, |w.offers|);
    ReceiveAllStores(a, members, |w.offers|, b);
    assert a.offers[|w.offers|].chainKey == a.own.value.chainKey;
  }

  /** ... and nothing but storing another offer of that generation takes it away. */
  lemma ReadUntilOverwritten(w: World, e: Event, member: UserId, message: GroupMessage)
    requires e.Receive? && e.member == member && e.offer < |w.offers| ==> w.offers[e.offer].keyGeneration != message.keyGeneration
    ensures Read(Step(w, e), member, message) == Read(w, member, message)
  {
  }

  /* --------------------------- what the composer emits ----------------------- */

  /** The socket payload, as the receiver's handler reads it; the relay passes it on unchanged. */
  datatype SocketPayload = SocketPayload(groupId: Option<GroupId>, senderUserId: Option<UserId>, senderPublicKey: Option<nat>,
                                         wrappedKey: Option<Wrapped>, nonce: Option<Nonce>, keyGeneration: Option<int>,
                                         wrappedKeys: Option<seq<WrappedKey>>)

  /** What submit emits: the list of wrapped keys, but no sender and no key of its own. */
  function Emitted(d: Distribution): SocketPayload {
    SocketPayload(Some(d.groupId), None, None, None, None, Some(d.keyGeneration), Some(d.wrappedKeys))
  }

  /** processSenderKeyDistribution: what is stored, if anything. */
  function Processed(p: SocketPayload, conversation: GroupId, identityKey: string): Option<((GroupId, UserId, int), ChainKey)> {
    if p.wrappedKey.None? || p.nonce.None? || p.senderUserId.None? || p.senderPublicKey.None? then None
    else if p.groupId != Some(conversation) then None
    else
      match ReceiveSenderKey(p.wrappedKey.value, p.nonce.value, p.senderPublicKey.value, identityKey)
      case Err(_) => None
      case Ok(received) =>
        Some(((conversation, p.senderUserId.value, if p.keyGeneration.Some? then p.keyGeneration.value else received.keyGeneration),
              received.chainKey))
  }

  /** A payload that names its sender and carries the member's own wrapped key is stored under the sender's generation;
      the payload that is emitted never is, so the discipline above needs the payload to be completed on the way. */
  lemma EmittedIsDropped(groupId: GroupId, state: SenderKeyState, members: seq<Envelope>, nonces: seq<Nonce>, i: nat, sender: UserId)
    requires |nonces| == |members| && i < |members|
    ensures var d := Payload(groupId, state, members, nonces);
            var completed := Emitted(d).(senderUserId := Some(sender), senderPublicKey := Some(d.senderPublicKey),
                                         wrappedKey := Some(d.wrappedKeys[i].wrapped), nonce := Some(d.wrappedKeys[i].nonce));
            && Processed(Emitted(d), groupId, members[i].identityKey) == None
            && Processed(completed, groupId, members[i].identityKey) == Some(((groupId, sender, state.keyGeneration), state.chainKey))
  {
    DistributionReachesMembers(groupId, state, members, nonces, i, members[i].identityKey);
  }
}
