/**
 The Double Ratchet of lib/crypto.ts.

 Cryptography is symbolic.  A key pair is a number and its public point is the same number; an ECDH
 output is the unordered pair of the two numbers; every HKDF or HMAC output is a constructor applied
 to its inputs; an AES-GCM ciphertext opens under exactly its own key and nonce.  Randomness (new key
 pairs, nonces) is a parameter.
 */
module Ratchet {
  import opened Common

  type KeyPair = nat

  /** A public key as it travels: base64 text.  `point` is None when the text is not a curve point.
      Two texts can spell one point, because whitespace is dropped before decoding. */
  datatype WireKey = WireKey(point: Option<KeyPair>, spelling: nat)

  datatype Term =
    | Empty
    | Shared(lo: nat, hi: nat)
    | InitialRoot(dh1: Term, dh2: Term)
    | RootKey(root: Term, dh: Term)
    | ChainKey(root: Term, dh: Term)
    | NextChain(chain: Term)
    | MessageKey(chain: Term)

  datatype RatchetState = RatchetState(
    rootKey: Term,
    dhSendingKeyPair: KeyPair,
    dhRemotePublicKey: WireKey,
    sendingChainKey: Term,
    receivingChainKey: Term,
    sendingMessageNumber: nat,
    receivingMessageNumber: int,
    previousChainLength: nat)

  datatype Header = Header(publicKey: WireKey, messageNumber: int, previousChainLength: int)

  datatype Ciphertext = Sealed(key: Term, nonce: nat, plaintext: string) | Garbage

  datatype Packet = Packet(ciphertext: Ciphertext, nonce: nat, header: Header)

  datatype Error = NoSession | BadPublicKey | ChainNotEnabled | OutOfRange | CannotOpen

  function ExportPublicKey(k: KeyPair): WireKey {
    WireKey(Some(k), 0)
  }

  /** ECDH: both ends compute the same term. */
  function Dh(mine: KeyPair, theirs: KeyPair): Term {
    if mine <= theirs then Shared(mine, theirs) else Shared(theirs, mine)
  }

  function Open(key: Term, nonce: nat, c: Ciphertext): Option<string> {
    if c.Sealed? && c.key == key && c.nonce == nonce then Some(c.plaintext) else None
  }

  /** The chain key `steps` HMAC applications after `chain`. */
  function Advance(chain: Term, steps: nat): Term {
    if steps == 0 then chain else NextChain(Advance(chain, steps - 1))
  }

  /* ------------------------------ session start ------------------------------ */

  function InitiatorState(identity: KeyPair, preKey: KeyPair, preKeyText: WireKey, newPair: KeyPair): RatchetState {
    var dh3 := Dh(newPair, preKey);
    var initialRoot := InitialRoot(Dh(identity, preKey), Dh(newPair, preKey));
    RatchetState(RootKey(initialRoot, dh3), newPair, preKeyText, ChainKey(initialRoot, dh3), Empty, 0, 0, 0)
  }

  function ResponderState(preKey: KeyPair, senderIdentity: KeyPair, senderRatchet: KeyPair,
                          senderRatchetText: WireKey, newPair: KeyPair): RatchetState {
    var dh3 := Dh(preKey, senderRatchet);
    var initialRoot := InitialRoot(Dh(preKey, senderIdentity), Dh(preKey, senderRatchet));
    RatchetState(RootKey(initialRoot, dh3), newPair, senderRatchetText, Empty, ChainKey(initialRoot, dh3), 0, 0, 0)
  }

  /* ------------------------ one step of the stored state --------------------- */

  function PerformDhRatchet(st: RatchetState, remote: WireKey, newPair: KeyPair): Result<RatchetState, Error> {
    if remote.point.None? then Err(BadPublicKey)
    else
      var dhReceive := Dh(st.dhSendingKeyPair, remote.point.value);
      var root1 := RootKey(st.rootKey, dhReceive);
      var dhSend := Dh(newPair, remote.point.value);
      Ok(RatchetState(RootKey(root1, dhSend), newPair, remote, ChainKey(root1, dhSend),
                      ChainKey(st.rootKey, dhReceive), 0, 0, st.sendingMessageNumber))
  }

  /** What one ratchetEncrypt call does to the state it read. */
  function Encrypt(st: RatchetState, plaintext: string, nonce: nat): Result<(RatchetState, Packet), Error> {
    if st.sendingChainKey == Empty then Err(ChainNotEnabled)
    else
      var header := Header(ExportPublicKey(st.dhSendingKeyPair), st.sendingMessageNumber, st.previousChainLength);
      var c := Sealed(MessageKey(st.sendingChainKey), nonce, plaintext);
      Ok((st.(sendingChainKey := NextChain(st.sendingChainKey),
              sendingMessageNumber := st.sendingMessageNumber + 1),
          Packet(c, nonce, header)))
  }

  /** The state whose receiving chain a header selects. */
  function Select(st: RatchetState, h: Header, newPair: KeyPair): Result<RatchetState, Error> {
    if h.publicKey != st.dhRemotePublicKey then PerformDhRatchet(st, h.publicKey, newPair) else Ok(st)
  }

  /** What one ratchetDecrypt call does, with the skip-ahead loop in closed form. */
  function Decrypt(st: RatchetState, c: Ciphertext, nonce: nat, h: Header, newPair: KeyPair)
    : Result<(RatchetState, string), Error>
  {
    var selected := Select(st, h, newPair);
    if selected.Err? then Err(selected.error)
    else
      var mid := selected.value;
      if h.messageNumber < mid.receivingMessageNumber then Err(OutOfRange)
      else if mid.receivingChainKey == Empty then Err(ChainNotEnabled)
      else
        var skipped := h.messageNumber - mid.receivingMessageNumber;
        var unsealed := Open(MessageKey(Advance(mid.receivingChainKey, skipped)), nonce, c);
        if unsealed.None? then Err(CannotOpen)
        else Ok((mid.(receivingChainKey := Advance(mid.receivingChainKey, skipped + 1),
                      receivingMessageNumber := h.messageNumber + 1),
                 unsealed.value))
  }

  /* --------------------------- the per-peer store ---------------------------- */

  /** The IndexedDB object store: one ratchet state per peer. */
  class SessionStore {
    var sessions: map<string, RatchetState>

    method InitRatchetSession(identity: KeyPair, preKeyText: WireKey, peer: string, newPair: KeyPair)
      returns (r: Result<Header, Error>)
      modifies this
      ensures preKeyText.point.None? ==> r == Err(BadPublicKey) && sessions == old(sessions)
      ensures preKeyText.point.Some? ==>
                && r == Ok(Header(ExportPublicKey(newPair), 0, 0))
                && sessions == old(sessions)[peer := InitiatorState(identity, preKeyText.point.value, preKeyText, newPair)]
    {
      if preKeyText.point.None? {
        return Err(BadPublicKey);
      }
      sessions := sessions[peer := InitiatorState(identity, preKeyText.point.value, preKeyText, newPair)];
      r := Ok(Header(ExportPublicKey(newPair), 0, 0));
    }

    method InitRatchetSessionResponder(preKey: KeyPair, identityText: WireKey, ratchetText: WireKey,
                                       peer: string, newPair: KeyPair)
      returns (r: Result<RatchetState, Error>)
      modifies this
      ensures r.Ok? <==> identityText.point.Some? && ratchetText.point.Some?
      ensures r.Err? ==> r.error == BadPublicKey && sessions == old(sessions)
      ensures r.Ok? ==>
                && r.value == ResponderState(preKey, identityText.point.value, ratchetText.point.value, ratchetText, newPair)
                && sessions == old(sessions)[peer := r.value]
    {
      if identityText.point.None? || ratchetText.point.None? {
        return Err(BadPublicKey);
      }
      var st := ResponderState(preKey, identityText.point.value, ratchetText.point.value, ratchetText, newPair);
      sessions := sessions[peer := st];
      r := Ok(st);
    }

    method RatchetEncrypt(peer: string, plaintext: string, nonce: nat) returns (r: Result<Packet, Error>)
      modifies this
      ensures peer !in old(sessions) ==> r == Err(NoSession)
      ensures r.Err? ==> sessions == old(sessions)
      ensures peer in old(sessions) ==>
                match Encrypt(old(sessions)[peer], plaintext, nonce)
                case Err(e) => r == Err(e)
                case Ok((st, packet)) => r == Ok(packet) && sessions == old(sessions)[peer := st]
    {
      if peer !in sessions {
        return Err(NoSession);
      }
      var st := sessions[peer];
      if st.sendingChainKey == Empty {
        return Err(ChainNotEnabled);
      }
      var messageKey := MessageKey(st.sendingChainKey);
      var newChainKey := NextChain(st.sendingChainKey);
      var header := Header(ExportPublicKey(st.dhSendingKeyPair), st.sendingMessageNumber, st.previousChainLength);
      var updated := st.(sendingChainKey := newChainKey, sendingMessageNumber := st.sendingMessageNumber + 1);
      sessions := sessions[peer := updated];
      r := Ok(Packet(Sealed(messageKey, nonce, plaintext), nonce, header));
    }

    /** The skip-ahead loop walks the chain one HMAC at a time; nothing is stored unless AES-GCM opens. */
    method RatchetDecrypt(peer: string, c: Ciphertext, nonce: nat, h: Header, newPair: KeyPair)
      returns (r: Result<string, Error>)
      modifies this
      ensures peer !in old(sessions) ==> r == Err(NoSession)
      ensures r.Err? ==> sessions == old(sessions)
      ensures peer in old(sessions) ==>
                match Decrypt(old(sessions)[peer], c, nonce, h, newPair)
                case Err(e) => r == Err(e)
                case Ok((st, text)) => r == Ok(text) && sessions == old(sessions)[peer := st]
    {
      if peer !in sessions {
        return Err(NoSession);
      }
      var st := sessions[peer];
      if h.publicKey != st.dhRemotePublicKey {
        var ratcheted := PerformDhRatchet(st, h.publicKey, newPair);
        if ratcheted.Err? {
          return Err(ratcheted.error);
        }
        st := ratcheted.value;
      }
      var chainKey := st.receivingChainKey;
      var messageKey: Option<Term> := None;
      var i := st.receivingMessageNumber;
      while i <= h.messageNumber
        invariant i == st.receivingMessageNumber || st.receivingMessageNumber <= i <= h.messageNumber + 1
        invariant st.receivingMessageNumber <= i
        invariant chainKey == Advance(st.receivingChainKey, i - st.receivingMessageNumber)
        invariant st.receivingMessageNumber < i ==> st.receivingChainKey != Empty
        invariant messageKey ==
                    if st.receivingMessageNumber < i == h.messageNumber + 1
                    then Some(MessageKey(Advance(st.receivingChainKey, h.messageNumber - st.receivingMessageNumber)))
                    else None
      {
        if chainKey == Empty {
          return Err(ChainNotEnabled);
        }
        if i == h.messageNumber {
          messageKey := Some(MessageKey(chainKey));
        }
        chainKey := NextChain(chainKey);
        i := i + 1;
      }
      if messageKey.None? {
        return Err(OutOfRange);
      }
      var unsealed := Open(messageKey.value, nonce, c);
      if unsealed.None? {
        return Err(CannotOpen);
      }
      sessions := sessions[peer := st.(receivingChainKey := chainKey, receivingMessageNumber := h.messageNumber + 1)];
      r := Ok(unsealed.value);
    }
  }

  /* --------------------- no message key is used twice ------------------------ */

  /** How many root-key steps lie under a root term. */
  function RootDepth(root: Term): nat {
    if root.RootKey? then 1 + RootDepth(root.root) else 0
  }

  /** The depth of the root a chain key (or one of its successors) was derived from. */
  function ChainDepth(chain: Term): nat {
    match chain
    case ChainKey(root, _) => RootDepth(root)
    case NextChain(c) => ChainDepth(c)
    case _ => 0
  }

  function ChainIndex(chain: Term): nat {
    if chain.NextChain? then 1 + ChainIndex(chain.chain) else 0
  }

  lemma {:induction false} AdvanceCoordinates(chain: Term, steps: nat)
    ensures ChainDepth(Advance(chain, steps)) == ChainDepth(chain)
    ensures ChainIndex(Advance(chain, steps)) == ChainIndex(chain) + steps
    ensures chain != Empty ==> Advance(chain, steps) != Empty
  {
    if steps > 0 {
      AdvanceCoordinates(chain, steps - 1);
    }
  }

  /** What both initialisers establish and every step keeps. */
  ghost predicate WellFormed(st: RatchetState) {
    && (st.sendingChainKey != Empty ==>
          ChainDepth(st.sendingChainKey) < RootDepth(st.rootKey)
          && ChainIndex(st.sendingChainKey) == st.sendingMessageNumber)
    && (st.receivingChainKey != Empty ==>
          ChainDepth(st.receivingChainKey) < RootDepth(st.rootKey)
          && ChainIndex(st.receivingChainKey) == st.receivingMessageNumber)
    && (st.sendingChainKey != Empty && st.receivingChainKey != Empty ==>
          ChainDepth(st.sendingChainKey) != ChainDepth(st.receivingChainKey))
  }

  /** The keys that lie behind a state: on an abandoned chain, or below the position of a current one. */
  ghost predicate Spent(st: RatchetState, key: Term) {
    && key.MessageKey?
    && ChainDepth(key.chain) < RootDepth(st.rootKey)
    && (st.sendingChainKey != Empty && ChainDepth(key.chain) == ChainDepth(st.sendingChainKey) ==>
          ChainIndex(key.chain) < ChainIndex(st.sendingChainKey))
    && (st.receivingChainKey != Empty && ChainDepth(key.chain) == ChainDepth(st.receivingChainKey) ==>
          ChainIndex(key.chain) < ChainIndex(st.receivingChainKey))
  }

  /** One call on a session, successful or not, with arbitrary (possibly hostile) arguments. */
  datatype Call =
    | Send(plaintext: string, nonce: nat)
    | Receive(ciphertext: Ciphertext, nonce: nat, header: Header, newPair: KeyPair)

  /** The state after a call, and the message key the call used if it succeeded. */
  function Perform(st: RatchetState, call: Call): (RatchetState, Option<Term>) {
    match call
    case Send(plaintext, nonce) =>
      var r := Encrypt(st, plaintext, nonce);
      if r.Ok? then (r.value.0, Some(r.value.1.ciphertext.key)) else (st, None)
    case Receive(c, nonce, h, newPair) =>
      var r := Decrypt(st, c, nonce, h, newPair);
      if r.Ok? then (r.value.0, Some(c.key)) else (st, None)
  }

  /** next lies no less far along than st, and key is crossed on the way. */
  ghost predicate Crosses(st: RatchetState, key: Term, next: RatchetState) {
    && WellFormed(next)
    && !Spent(st, key) && Spent(next, key)
    && (forall k | Spent(st, k) :: Spent(next, k))
  }

  /** A receiving chain moved `skipped` + 1 keys on crosses the key it stopped at. */
  lemma ReceivingCrosses(mid: RatchetState, skipped: nat, key: Term, next: RatchetState)
    requires WellFormed(mid) && mid.receivingChainKey != Empty
    requires key == MessageKey(Advance(mid.receivingChainKey, skipped))
    requires next == mid.(receivingChainKey := Advance(mid.receivingChainKey, skipped + 1),
                          receivingMessageNumber := mid.receivingMessageNumber + skipped + 1)
    ensures Crosses(mid, key, next)
  {
    AdvanceCoordinates(mid.receivingChainKey, skipped);
    AdvanceCoordinates(mid.receivingChainKey, skipped + 1);
  }

  /** A DH step leaves every key behind spent, and both its chains start on unspent keys. */
  lemma DhStepPreserves(st: RatchetState, remote: WireKey, newPair: KeyPair, mid: RatchetState)
    requires WellFormed(st) && PerformDhRatchet(st, remote, newPair) == Ok(mid)
    ensures WellFormed(mid)
    ensures forall k | Spent(st, k) :: Spent(mid, k)
    ensures forall n: nat :: !Spent(st, MessageKey(Advance(mid.receivingChainKey, n)))
  {
    forall n: nat ensures !Spent(st, MessageKey(Advance(mid.receivingChainKey, n))) {
      AdvanceCoordinates(mid.receivingChainKey, n);
    }
  }

  lemma ReceiveCrosses(st: RatchetState, c: Ciphertext, nonce: nat, h: Header, newPair: KeyPair, next: RatchetState, text: string)
    requires WellFormed(st) && Decrypt(st, c, nonce, h, newPair) == Ok((next, text))
    ensures Crosses(st, c.key, next)
  {
    var mid := Select(st, h, newPair).value;
    if h.publicKey != st.dhRemotePublicKey {
      DhStepPreserves(st, h.publicKey, newPair, mid);
    }
    ReceivingCrosses(mid, h.messageNumber - mid.receivingMessageNumber, c.key, next);
  }

  lemma PerformSpends(st: RatchetState, call: Call, next: RatchetState, used: Option<Term>)
    requires WellFormed(st) && (next, used) == Perform(st, call)
    ensures WellFormed(next)
    ensures used.Some? ==> Crosses(st, used.value, next)
    ensures used.None? ==> next == st
  {
    match call
    case Send(plaintext, nonce) =>
    case Receive(c, nonce, h, newPair) =>
      var r := Decrypt(st, c, nonce, h, newPair);
      if r.Ok? {
        ReceiveCrosses(st, c, nonce, h, newPair, r.value.0, r.value.1);
      }
  }

  /** The key each call of a run used, None where the call failed. */
  function KeysUsed(st: RatchetState, calls: seq<Call>): seq<Option<Term>>
    decreases |calls|
  {
    if calls == [] then []
    else
      var (next, used) := Perform(st, calls[0]);
      [used] + KeysUsed(next, calls[1..])
  }

  lemma {:induction false} LaterKeysAreUnspent(st: RatchetState, calls: seq<Call>, j: nat)
    requires WellFormed(st) && j < |calls|
    ensures |KeysUsed(st, calls)| == |calls|
    ensures KeysUsed(st, calls)[j].Some? ==> !Spent(st, KeysUsed(st, calls)[j].value)
    decreases |calls|
  {
    var (next, used) := Perform(st, calls[0]);
    PerformSpends(st, calls[0], next, used);
    if j > 0 {
      LaterKeysAreUnspent(next, calls[1..], j - 1);
    } else if |calls| > 1 {
      LaterKeysAreUnspent(next, calls[1..], 0);
    }
  }

  /** Over any run of one session no message key is used twice, in either direction or across directions. */
  lemma {:induction false} KeysNeverRepeat(st: RatchetState, calls: seq<Call>, i: nat, j: nat)
    requires WellFormed(st) && i < j < |calls|
    ensures |KeysUsed(st, calls)| == |calls|
    ensures var keys := KeysUsed(st, calls); keys[i].Some? && keys[j].Some? ==> keys[i] != keys[j]
    decreases |calls|
  {
    var (next, used) := Perform(st, calls[0]);
    PerformSpends(st, calls[0], next, used);
    LaterKeysAreUnspent(next, calls[1..], j - 1);
    if i > 0 {
      KeysNeverRepeat(next, calls[1..], i - 1, j - 1);
    }
  }

  lemma {:induction false} UsedKeyOpensCiphertext(st: RatchetState, calls: seq<Call>, i: nat)
    requires WellFormed(st) && i < |calls| && calls[i].Receive?
    ensures |KeysUsed(st, calls)| == |calls|
    ensures KeysUsed(st, calls)[i].Some? ==>
              calls[i].ciphertext.Sealed? && KeysUsed(st, calls)[i].value == calls[i].ciphertext.key
    decreases |calls|
  {
    var (next, used) := Perform(st, calls[0]);
    PerformSpends(st, calls[0], next, used);
    LaterKeysAreUnspent(st, calls, 0);
    if i > 0 {
      UsedKeyOpensCiphertext(next, calls[1..], i - 1);
    }
  }

  /** A ciphertext delivered twice, under whatever nonces, headers and intervening traffic, opens at most once. */
  lemma DecryptsAtMostOnce(st: RatchetState, calls: seq<Call>, i: nat, j: nat)
    requires WellFormed(st) && i < j < |calls|
    requires calls[i].Receive? && calls[j].Receive? && calls[i].ciphertext == calls[j].ciphertext
    ensures |KeysUsed(st, calls)| == |calls|
    ensures KeysUsed(st, calls)[i].None? || KeysUsed(st, calls)[j].None?
  {
    KeysNeverRepeat(st, calls, i, j);
    UsedKeyOpensCiphertext(st, calls, i);
    UsedKeyOpensCiphertext(st, calls, j);
  }

  lemma InitialStatesAreWellFormed(identity: KeyPair, preKey: KeyPair, ratchet: KeyPair, text: WireKey, newPair: KeyPair)
    ensures WellFormed(InitiatorState(identity, preKey, text, newPair))
    ensures WellFormed(ResponderState(preKey, identity, ratchet, text, newPair))
  {
  }

  /* -------------------- delivery along one sending chain --------------------- */

  /** The packets a session emits for a list of (plaintext, nonce) pairs. */
  function SendAll(st: RatchetState, texts: seq<(string, nat)>): (r: (RatchetState, seq<Packet>))
    requires st.sendingChainKey != Empty
    ensures |r.1| == |texts| && r.0.sendingChainKey != Empty
    ensures r.0.rootKey == st.rootKey && r.0.dhSendingKeyPair == st.dhSendingKeyPair
    ensures r.0.dhRemotePublicKey == st.dhRemotePublicKey
    decreases |texts|
  {
    if texts == [] then (st, [])
    else
      var (next, packet) := Encrypt(st, texts[0].0, texts[0].1).value;
      var (final, rest) := SendAll(next, texts[1..]);
      (final, [packet] + rest)
  }

  /** Message i of a chain carries its number and is sealed under the key i steps down the chain. */
  lemma {:induction false} SendAllPacket(st: RatchetState, texts: seq<(string, nat)>, i: nat)
    requires st.sendingChainKey != Empty && i < |texts|
    ensures SendAll(st, texts).1[i] ==
              Packet(Sealed(MessageKey(Advance(st.sendingChainKey, i)), texts[i].1, texts[i].0), texts[i].1,
                     Header(ExportPublicKey(st.dhSendingKeyPair), st.sendingMessageNumber + i, st.previousChainLength))
    decreases |texts|
  {
    if i > 0 {
      SendAllPacket(Encrypt(st, texts[0].0, texts[0].1).value.0, texts[1..], i - 1);
      AdvanceShift(st.sendingChainKey, i - 1);
    }
  }

  /** After a DH step messages are numbered from 0 again, under the new public key, and say how many were sent before it. */
  lemma HeadersAfterDhStep(st: RatchetState, remote: WireKey, newPair: KeyPair, mid: RatchetState, texts: seq<(string, nat)>, i: nat)
    requires PerformDhRatchet(st, remote, newPair) == Ok(mid) && i < |texts|
    ensures mid.sendingChainKey != Empty
    ensures SendAll(mid, texts).1[i].header == Header(ExportPublicKey(newPair), i, st.sendingMessageNumber)
  {
    SendAllPacket(mid, texts, i);
  }

  lemma {:induction false} AdvanceShift(chain: Term, n: nat)
    ensures Advance(NextChain(chain), n) == Advance(chain, n + 1)
  {
    if n > 0 {
      AdvanceShift(chain, n - 1);
    }
  }

  lemma {:induction false} AdvanceAdds(chain: Term, m: nat, n: nat)
    ensures Advance(Advance(chain, m), n) == Advance(chain, m + n)
    decreases n
  {
    if n > 0 {
      AdvanceAdds(chain, m, n - 1);
    }
  }

  predicate Within(order: seq<nat>, n: nat) {
    forall i | 0 <= i < |order| :: order[i] < n
  }

  /** Feed the receiver the packets with the given positions; None as soon as one fails. */
  function ReceiveAll(st: RatchetState, packets: seq<Packet>, order: seq<nat>, newPair: KeyPair)
    : Option<(RatchetState, seq<string>)>
    requires Within(order, |packets|)
    decreases |order|
  {
    if order == [] then Some((st, []))
    else
      var p := packets[order[0]];
      var r := Decrypt(st, p.ciphertext, p.nonce, p.header, newPair);
      if r.Err? then None
      else
        var rest := ReceiveAll(r.value.0, packets, order[1..], newPair);
        if rest.None? then None else Some((rest.value.0, [r.value.1] + rest.value.1))
  }

  ghost predicate Increasing(order: seq<nat>) {
    forall i, j | 0 <= i < j < |order| :: order[i] < order[j]
  }

  function Plaintexts(texts: seq<(string, nat)>, order: seq<nat>): seq<string>
    requires Within(order, |texts|)
  {
    seq(|order|, i requires 0 <= i < |order| => texts[order[i]].0)
  }

  /** The receiver stands at position `at` of the sender's chain, whose key there is Advance(base, at). */
  ghost predicate Listening(r: RatchetState, sender: KeyPair, base: Term, at: nat) {
    && base != Empty
    && r.dhRemotePublicKey == ExportPublicKey(sender)
    && r.receivingChainKey == Advance(base, at)
    && r.receivingMessageNumber == at
  }

  lemma DeliverOne(r: RatchetState, s: RatchetState, texts: seq<(string, nat)>, at: nat, k: nat, newPair: KeyPair, p: Packet)
    requires s.sendingChainKey != Empty && s.sendingMessageNumber == 0 && k < |texts|
    requires p == SendAll(s, texts).1[k]
    requires Listening(r, s.dhSendingKeyPair, s.sendingChainKey, at)
    ensures ReadsFrom(r, s.sendingChainKey, at, p, k, texts[k].0, newPair)
  {
    SendAllPacket(s, texts, k);
    ReadOne(r, s.dhSendingKeyPair, s.sendingChainKey, at, p, k, texts[k].0, newPair);
  }

  /** p opens exactly when its position k has not been passed, to `text`, and moves the receiver just past it. */
  ghost predicate ReadsFrom(r: RatchetState, base: Term, at: int, p: Packet, k: nat, text: string, newPair: KeyPair) {
    var d := Decrypt(r, p.ciphertext, p.nonce, p.header, newPair);
    && (d.Ok? <==> at <= k)
    && (d.Ok? ==> d.value == (r.(receivingChainKey := Advance(base, k + 1), receivingMessageNumber := k + 1), text))
  }

  lemma ReadOne(r: RatchetState, sender: KeyPair, base: Term, at: nat, p: Packet, k: nat, text: string, newPair: KeyPair)
    requires Listening(r, sender, base, at)
    requires p.ciphertext == Sealed(MessageKey(Advance(base, k)), p.nonce, text)
    requires p.header.publicKey == ExportPublicKey(sender) && p.header.messageNumber == k
    ensures ReadsFrom(r, base, at, p, k, text, newPair)
  {
    AdvanceCoordinates(base, at);
    if at <= k {
      AdvanceAdds(base, at, k - at);
      AdvanceAdds(base, at, k - at + 1);
    }
  }

  /** Any strictly increasing selection of a chain's messages, with any gaps, decrypts to its plaintexts. */
  lemma {:induction false} DeliverIncreasing(r: RatchetState, s: RatchetState, texts: seq<(string, nat)>,
                                             order: seq<nat>, at: nat, newPair: KeyPair)
    requires s.sendingChainKey != Empty && s.sendingMessageNumber == 0
    requires Within(order, |texts|) && Increasing(order) && (order != [] ==> at <= order[0])
    requires Listening(r, s.dhSendingKeyPair, s.sendingChainKey, at)
    ensures var got := ReceiveAll(r, SendAll(s, texts).1, order, newPair);
            && got.Some? && got.value.1 == Plaintexts(texts, order)
            && got.value.0 == r.(receivingChainKey := got.value.0.receivingChainKey,
                                 receivingMessageNumber := got.value.0.receivingMessageNumber)
    decreases |order|
  {
    if order != [] {
      var p := SendAll(s, texts).1[order[0]];
      DeliverOne(r, s, texts, at, order[0], newPair, p);
      var next := Decrypt(r, p.ciphertext, p.nonce, p.header, newPair).value.0;
      DeliverIncreasing(next, s, texts, order[1..], order[0] + 1, newPair);
    }
  }

  /* ----------------------------- X3DH-style start ---------------------------- */

  /** Initiator and responder agree on the root and the first chain, so every increasing selection of the
      initiator's messages reaches its plaintexts. */
  lemma FirstChainDelivers(identity: KeyPair, preKey: KeyPair, ephemeral: KeyPair, own: KeyPair,
                           texts: seq<(string, nat)>, order: seq<nat>, newPair: KeyPair)
    requires Within(order, |texts|)
    requires Increasing(order)
    ensures var alice := InitiatorState(identity, preKey, ExportPublicKey(preKey), ephemeral);
            var bob := ResponderState(preKey, identity, ephemeral, ExportPublicKey(ephemeral), own);
            && alice.rootKey == bob.rootKey
            && alice.sendingChainKey == bob.receivingChainKey
            && var got := ReceiveAll(bob, SendAll(alice, texts).1, order, newPair);
               got.Some? && got.value.1 == Plaintexts(texts, order)
  {
    var alice := InitiatorState(identity, preKey, ExportPublicKey(preKey), ephemeral);
    var bob := ResponderState(preKey, identity, ephemeral, ExportPublicKey(ephemeral), own);
    DeliverIncreasing(bob, alice, texts, order, 0, newPair);
  }

  /* ------------------------------- ping-pong --------------------------------- */

  /** S has taken one DH step that R has not seen yet. */
  ghost predicate Ahead(s: RatchetState, r: RatchetState) {
    var dh := Dh(s.dhSendingKeyPair, r.dhSendingKeyPair);
    && s.rootKey == RootKey(r.rootKey, dh)
    && s.sendingChainKey == ChainKey(r.rootKey, dh)
    && s.sendingMessageNumber == 0
    && s.dhRemotePublicKey == ExportPublicKey(r.dhSendingKeyPair)
    && r.dhRemotePublicKey != ExportPublicKey(s.dhSendingKeyPair)
  }

  /** The pair is met by the initiator and a responder that keeps the pre-key pair and the initial root for its
      first DH step, which is not what InitRatchetSessionResponder stores. */
  lemma InitiatorLeadsAPreKeyResponder(identity: KeyPair, preKey: KeyPair, ephemeral: KeyPair, r: RatchetState)
    requires r.rootKey == InitialRoot(Dh(preKey, identity), Dh(preKey, ephemeral))
    requires r.dhSendingKeyPair == preKey && r.dhRemotePublicKey != ExportPublicKey(ephemeral)
    ensures Ahead(InitiatorState(identity, preKey, ExportPublicKey(preKey), ephemeral), r)
    ensures forall own, text :: !Ahead(InitiatorState(identity, preKey, ExportPublicKey(preKey), ephemeral),
                                       ResponderState(preKey, identity, ephemeral, text, own))
  {
    forall own, text
      ensures !Ahead(InitiatorState(identity, preKey, ExportPublicKey(preKey), ephemeral),
                     ResponderState(preKey, identity, ephemeral, text, own))
    {
      var alice := InitiatorState(identity, preKey, ExportPublicKey(preKey), ephemeral);
      var bob := ResponderState(preKey, identity, ephemeral, text, own);
      assert RootDepth(alice.rootKey) == RootDepth(bob.rootKey) == 1;
      assert RootDepth(RootKey(bob.rootKey, Dh(ephemeral, own))) == 2;
    }
  }

  /** One turn: the messages the leading side sends, which of them arrive, and the key pair the other side
      generates on the first arrival. */
  datatype Turn = Turn(texts: seq<(string, nat)>, order: seq<nat>, newPair: KeyPair)

  ghost predicate TurnOk(t: Turn, r: RatchetState) {
    && t.order != []
    && Increasing(t.order)
    && Within(t.order, |t.texts|)
    && t.newPair != r.dhSendingKeyPair
  }

  /** R receiving S's messages derives S's root and chain, reads every message, and ends one step ahead of S. */
  lemma TurnSwapsTheLead(s: RatchetState, r: RatchetState, t: Turn)
    requires Ahead(s, r) && TurnOk(t, r)
    ensures var (s', packets) := SendAll(s, t.texts);
            var got := ReceiveAll(r, packets, t.order, t.newPair);
            && got.Some? && got.value.1 == Plaintexts(t.texts, t.order)
            && got.value.0.dhSendingKeyPair == t.newPair
            && Ahead(got.value.0, s')
  {
    var (s', packets) := SendAll(s, t.texts);
    var k := t.order[0];
    SendAllPacket(s, t.texts, k);
    var mid := PerformDhRatchet(r, packets[k].header.publicKey, t.newPair).value;
    assert Listening(mid, s.dhSendingKeyPair, s.sendingChainKey, 0);
    DeliverIncreasing(mid, s, t.texts, t.order, 0, t.newPair);
    var p := packets[k];
    assert Decrypt(r, p.ciphertext, p.nonce, p.header, t.newPair) == Decrypt(mid, p.ciphertext, p.nonce, p.header, t.newPair);
  }

  /** Play the turns, the sides alternating; None as soon as a message is not read. */
  function Play(s: RatchetState, r: RatchetState, turns: seq<Turn>): Option<seq<seq<string>>>
    requires forall t | t in turns :: Within(t.order, |t.texts|)
    decreases |turns|
  {
    if turns == [] then Some([])
    else if s.sendingChainKey == Empty then None
    else
      var t := turns[0];
      assert t in turns;
      var (s', packets) := SendAll(s, t.texts);
      var got := ReceiveAll(r, packets, t.order, t.newPair);
      if got.None? then None
      else
        var rest := Play(got.value.0, s', turns[1..]);
        if rest.None? then None else Some([got.value.1] + rest.value)
  }

  /** Freshness: each new key pair differs from the one it replaces. */
  ghost predicate TurnsOk(turns: seq<Turn>, receiverKey: KeyPair, senderKey: KeyPair)
    decreases |turns|
  {
    turns == [] ||
    (var t := turns[0];
     && t.order != [] && Increasing(t.order) && Within(t.order, |t.texts|)
     && t.newPair != receiverKey
     && TurnsOk(turns[1..], senderKey, t.newPair))
  }

  /** From any pair one DH step apart, every delivered message of every turn of an unbounded exchange is read. */
  lemma {:induction false} PingPong(s: RatchetState, r: RatchetState, turns: seq<Turn>)
    requires forall t | t in turns :: Within(t.order, |t.texts|)
    requires Ahead(s, r)
    requires TurnsOk(turns, r.dhSendingKeyPair, s.dhSendingKeyPair)
    ensures var got := Play(s, r, turns);
            && got.Some? && |got.value| == |turns|
            && forall i | 0 <= i < |turns| :: turns[i] in turns && got.value[i] == Plaintexts(turns[i].texts, turns[i].order)
    decreases |turns|
  {
    if turns != [] {
      var t := turns[0];
      TurnSwapsTheLead(s, r, t);
      var (s', packets) := SendAll(s, t.texts);
      PingPong(ReceiveAll(r, packets, t.order, t.newPair).value.0, s', turns[1..]);
    }
  }

  /* --------------- what the code's own two initialisers allow ---------------- */

  /** Two honest ends and a network that keeps every packet and delivers any of them, in any order, any number of times. */
  datatype Link = Link(alice: RatchetState, bob: RatchetState, toBob: seq<Packet>, toAlice: seq<Packet>)

  datatype LinkEvent =
    | AliceSends(text: string, nonce: nat)
    | BobSends(text: string, nonce: nat)
    | BobGets(k: nat, newPair: KeyPair)
    | AliceGets(k: nat, newPair: KeyPair)

  function LinkStep(l: Link, e: LinkEvent): Link {
    match e
    case AliceSends(text, nonce) =>
      var r := Encrypt(l.alice, text, nonce);
      if r.Err? then l else l.(alice := r.value.0, toBob := l.toBob + [r.value.1])
    case BobSends(text, nonce) =>
      var r := Encrypt(l.bob, text, nonce);
      if r.Err? then l else l.(bob := r.value.0, toAlice := l.toAlice + [r.value.1])
    case BobGets(k, newPair) =>
      if k >= |l.toBob| then l
      else
        var r := Decrypt(l.bob, l.toBob[k].ciphertext, l.toBob[k].nonce, l.toBob[k].header, newPair);
        if r.Err? then l else l.(bob := r.value.0)
    case AliceGets(k, newPair) =>
      if k >= |l.toAlice| then l
      else
        var r := Decrypt(l.alice, l.toAlice[k].ciphertext, l.toAlice[k].nonce, l.toAlice[k].header, newPair);
        if r.Err? then l else l.(alice := r.value.0)
  }

  function LinkRun(l: Link, events: seq<LinkEvent>): Link {
    if events == [] then l else LinkStep(LinkRun(l, events[..|events| - 1]), events[|events| - 1])
  }

  function LinkStart(identity: KeyPair, preKey: KeyPair, ephemeral: KeyPair, own: KeyPair): Link {
    Link(InitiatorState(identity, preKey, ExportPublicKey(preKey), ephemeral),
         ResponderState(preKey, identity, ephemeral, ExportPublicKey(ephemeral), own), [], [])
  }

  ghost predicate LinkInv(start: Link, l: Link) {
    var base := start.alice.sendingChainKey;
    && l.toAlice == []
    && l.bob.sendingChainKey == Empty
    && l.alice == start.alice.(sendingChainKey := Advance(base, |l.toBob|), sendingMessageNumber := |l.toBob|)
    && 0 <= l.bob.receivingMessageNumber
    && Listening(l.bob, start.alice.dhSendingKeyPair, base, l.bob.receivingMessageNumber)
    && forall k | 0 <= k < |l.toBob| ::
         && l.toBob[k].header.publicKey == ExportPublicKey(start.alice.dhSendingKeyPair)
         && l.toBob[k].header.messageNumber == k
         && l.toBob[k].ciphertext.Sealed?
         && l.toBob[k].ciphertext.key == MessageKey(Advance(base, k))
         && l.toBob[k].ciphertext.nonce == l.toBob[k].nonce
  }

  /** In a reachable link, packet k opens at Bob exactly when k has not been passed, and then gives its plaintext. */
  lemma BobReadsExactly(start: Link, l: Link, k: nat, newPair: KeyPair)
    requires LinkInv(start, l) && start.alice.sendingChainKey != Empty && k < |l.toBob|
    ensures ReadsFrom(l.bob, start.alice.sendingChainKey, l.bob.receivingMessageNumber, l.toBob[k], k,
                      l.toBob[k].ciphertext.plaintext, newPair)
  {
    ReadOne(l.bob, start.alice.dhSendingKeyPair, start.alice.sendingChainKey, l.bob.receivingMessageNumber,
            l.toBob[k], k, l.toBob[k].ciphertext.plaintext, newPair);
  }

  lemma {:induction false} LinkInvariant(identity: KeyPair, preKey: KeyPair, ephemeral: KeyPair, own: KeyPair,
                                         events: seq<LinkEvent>)
    ensures var start := LinkStart(identity, preKey, ephemeral, own); LinkInv(start, LinkRun(start, events))
    decreases |events|
  {
    var start := LinkStart(identity, preKey, ephemeral, own);
    if events != [] {
      var before := events[..|events| - 1];
      LinkInvariant(identity, preKey, ephemeral, own, before);
      LinkStepInvariant(start, LinkRun(start, before), events[|events| - 1]);
    }
  }

  lemma LinkStepInvariant(start: Link, l: Link, e: LinkEvent)
    requires LinkInv(start, l)
    requires start.alice.sendingChainKey != Empty && start.alice.sendingMessageNumber == 0
    ensures LinkInv(start, LinkStep(l, e))
  {
    match e
    case AliceSends(text, nonce) =>
      AdvanceCoordinates(start.alice.sendingChainKey, |l.toBob|);
    case BobGets(k, newPair) =>
      if k < |l.toBob| {
        BobReadsExactly(start, l, k, newPair);
      }
    case _ =>
  }

  /** Started by the two initialisers, a session never leaves its first chain: whatever is delivered, the
      responder's every attempt to send fails, nothing ever reaches the initiator, and packet k is readable
      exactly while the responder has not passed it. */
  lemma ResponderNeverReplies(identity: KeyPair, preKey: KeyPair, ephemeral: KeyPair, own: KeyPair,
                              events: seq<LinkEvent>, text: string, nonce: nat, k: nat, newPair: KeyPair)
    ensures var l := LinkRun(LinkStart(identity, preKey, ephemeral, own), events);
            && Encrypt(l.bob, text, nonce) == Err(ChainNotEnabled)
            && l.toAlice == []
            && l.alice.dhSendingKeyPair == ephemeral
            && (k < |l.toBob| ==>
                  var p := l.toBob[k];
                  var r := Decrypt(l.bob, p.ciphertext, p.nonce, p.header, newPair);
                  && (r.Ok? <==> l.bob.receivingMessageNumber <= k)
                  && (r.Ok? ==> r.value.1 == p.ciphertext.plaintext))
  {
    LinkInvariant(identity, preKey, ephemeral, own, events);
    var start := LinkStart(identity, preKey, ephemeral, own);
    var l := LinkRun(start, events);
    if k < |l.toBob| {
      BobReadsExactly(start, l, k, newPair);
    }
  }

  /** A responder session can send exactly when some call has made it take a DH step. */
  ghost predicate TookDhStep(st: RatchetState, calls: seq<Call>)
    decreases |calls|
  {
    calls != [] &&
    (|| (calls[0].Receive? && calls[0].header.publicKey != st.dhRemotePublicKey && Perform(st, calls[0]).1.Some?)
     || TookDhStep(Perform(st, calls[0]).0, calls[1..]))
  }

  function After(st: RatchetState, calls: seq<Call>): RatchetState
    decreases |calls|
  {
    if calls == [] then st else After(Perform(st, calls[0]).0, calls[1..])
  }

  lemma {:induction false} SendsOnlyAfterDhStep(st: RatchetState, calls: seq<Call>)
    requires st.sendingChainKey == Empty
    ensures After(st, calls).sendingChainKey != Empty <==> TookDhStep(st, calls)
    decreases |calls|
  {
    if calls != [] {
      var next := Perform(st, calls[0]).0;
      if next.sendingChainKey == Empty {
        SendsOnlyAfterDhStep(next, calls[1..]);
      } else {
        SendingChainStays(next, calls[1..]);
      }
    }
  }

  lemma {:induction false} SendingChainStays(st: RatchetState, calls: seq<Call>)
    requires st.sendingChainKey != Empty
    ensures After(st, calls).sendingChainKey != Empty
    decreases |calls|
  {
    if calls != [] {
      SendingChainStays(Perform(st, calls[0]).0, calls[1..]);
    }
  }
}
