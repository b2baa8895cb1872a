/**
 Session tokens: lib/session.ts and its Edge twin lib/session-edge.ts.

 HMAC, AES-256-GCM, SHA-256, UTF-8 and JSON are unknown functions with the laws the code relies on; random
 bytes and the clock are parameters.  What the two base64 decoders do with characters outside the base64url
 alphabet is left open as two more unknown functions.
 */
module SessionToken {
  import opened Common
  import opened Strings
  import opened Base64Url

  const TOKEN_VERSION := "2"
  const SESSION_TTL_MS := 1000 * 60 * 60 * 24 * 7

  datatype User = User(userId: string, role: string, needsPasswordChange: bool, sessionVersion: int)

  datatype SessionData = SessionData(
    user: User, csrfToken: string, issuedAt: int, userAgentHash: Option<string>, ipHash: Option<string>, expiresAt: int)

  datatype Context = Context(userAgent: Option<string>, ip: Option<string>)

  /** JSON.parse: a text that is no JSON, the text `null`, or a value to read a session from (one that is no object
      gives a session without a user id). */
  datatype Parsed = Malformed | Null | Session(session: SessionData)

  datatype Primitives = Primitives(
    sign: string -> Bytes,
    legacySign: string -> Bytes,
    sha256Hex: string -> string,
    seal: (Bytes, string) -> (Bytes, Bytes),
    unseal: (Bytes, Bytes, Bytes) -> Option<string>,
    stringify: SessionData -> string,
    parse: string -> Parsed,
    utf8: Bytes -> string,
    bufferForeign: string -> Bytes,
    atobForeign: string -> Option<Bytes>)

  ghost predicate Lawful(c: Primitives) {
    && (forall data :: |c.sign(data)| == 32)
    && (forall iv, text :: |c.seal(iv, text).1| == 16 && (text != "" ==> c.seal(iv, text).0 != []))
    && (forall iv, text :: c.unseal(iv, c.seal(iv, text).0, c.seal(iv, text).1) == Some(text))
    && (forall session :: c.stringify(session) != "" && c.parse(c.stringify(session)) == Session(session))
  }

  /* --------------------------------- decoding -------------------------------- */

  predicate IsUrlText(s: string) {
    forall i | 0 <= i < |s| :: IsUrlChar(s[i])
  }

  /** Buffer.from(…, 'base64'): never throws, and ignores a character left over after the last group. */
  function BufferDecode(c: Primitives, s: string): Bytes {
    if !IsUrlText(s) then c.bufferForeign(s)
    else
      var whole := Decode(Restored(if |s| % 4 == 1 then s[..|s| - 1] else s));
      if whole.Some? then whole.value else []
  }

  /** atob: None where it throws. */
  function AtobDecode(c: Primitives, s: string): Option<Bytes> {
    if IsUrlText(s) then Decode(Restored(s)) else c.atobForeign(s)
  }

  /* ----------------------------- create and verify --------------------------- */

  function HashOptional(c: Primitives, value: Option<string>): Option<string> {
    if value.None? || value.value == "" then None else Some(c.sha256Hex(value.value))
  }

  function NewSession(c: Primitives, user: User, csrf: string, ctx: Context, bindIp: bool, now: int): SessionData {
    SessionData(user, csrf, now, HashOptional(c, ctx.userAgent), if bindIp then HashOptional(c, ctx.ip) else None,
                now + SESSION_TTL_MS)
  }

  function Dotted(version: string, iv: string, ciphertext: string, tag: string): string {
    version + "." + (iv + "." + (ciphertext + "." + tag))
  }

  function CreateSessionToken(c: Primitives, session: SessionData, iv: Bytes): string {
    var (ciphertext, tag) := c.seal(iv, c.stringify(session));
    var dataToSign := Dotted(TOKEN_VERSION, UrlEncode(iv), UrlEncode(ciphertext), UrlEncode(tag));
    dataToSign + "." + UrlEncode(c.sign(dataToSign))
  }

  /** The session a valid token stands for: an absent time or version is filled in. */
  function Normalised(session: SessionData, now: int): SessionData {
    session.(issuedAt := if session.issuedAt == 0 then now else session.issuedAt,
             user := if session.user.sessionVersion == 0 then session.user.(sessionVersion := 1) else session.user)
  }

  function ValidateSessionData(c: Primitives, session: SessionData, ctx: Context, now: int): Option<SessionData> {
    if session.user.userId == "" || session.expiresAt <= now then None
    else if Truthy(session.userAgentHash) && session.userAgentHash != HashOptional(c, ctx.userAgent) then None
    else if Truthy(session.ipHash) && session.ipHash != HashOptional(c, ctx.ip) then None
    else Some(Normalised(session, now))
  }

  /** On Node the catch also sees validateSessionData fail on null. */
  function ParseAndValidate(c: Primitives, text: string, ctx: Context, now: int): Option<SessionData> {
    match c.parse(text)
    case Session(session) => ValidateSessionData(c, session, ctx, now)
    case _ => None
  }

  predicate AllPresent(parts: seq<string>) {
    forall i | 0 <= i < |parts| :: parts[i] != ""
  }

  /** A five-part token, on Node. */
  function VerifyV2(c: Primitives, version: string, iv: string, ciphertext: string, tag: string, signature: string,
                    ctx: Context, now: int): Option<SessionData> {
    if version != TOKEN_VERSION then None
    else if BufferDecode(c, signature) != c.sign(Dotted(version, iv, ciphertext, tag)) then None
    else
      var plaintext := c.unseal(BufferDecode(c, iv), BufferDecode(c, ciphertext), BufferDecode(c, tag));
      if !Truthy(plaintext) then None else ParseAndValidate(c, plaintext.value, ctx, now)
  }

  /** A two-part token of the older format, on Node. */
  function VerifyLegacy(c: Primitives, payload: string, signature: string, ctx: Context, now: int): Option<SessionData> {
    if signature != UrlEncode(c.legacySign(payload)) then None
    else ParseAndValidate(c, c.utf8(BufferDecode(c, payload)), ctx, now)
  }

  /** verifySessionToken of lib/session.ts. */
  function Verify(c: Primitives, token: string, ctx: Context, now: int): Option<SessionData> {
    var parts := Split(token, '.');
    if !AllPresent(parts) then None
    else if |parts| == 5 then VerifyV2(c, parts[0], parts[1], parts[2], parts[3], parts[4], ctx, now)
    else if |parts| == 2 then VerifyLegacy(c, parts[0], parts[1], ctx, now)
    else None
  }

  datatype Thrown = Thrown

  /** On the Edge validateSessionData is asynchronous and not awaited inside the try, so on null it rejects the call. */
  function ParseAndValidateEdge(c: Primitives, text: string, ctx: Context, now: int): Result<Option<SessionData>, Thrown> {
    match c.parse(text)
    case Session(session) => Ok(ValidateSessionData(c, session, ctx, now))
    case Malformed => Ok(None)
    case Null => Err(Thrown)
  }

  /** WebCrypto takes the tag as the last 16 bytes of what it decrypts. */
  function EdgeUnseal(c: Primitives, iv: Option<Bytes>, ciphertext: Option<Bytes>, tag: Option<Bytes>): Option<string> {
    if iv.None? || ciphertext.None? || tag.None? then None
    else
      var combined := ciphertext.value + tag.value;
      if |combined| < 16 then None
      else c.unseal(iv.value, combined[..|combined| - 16], combined[|combined| - 16..])
  }

  /** A five-part token, on the Edge. */
  function VerifyV2Edge(c: Primitives, version: string, iv: string, ciphertext: string, tag: string, signature: string,
                        ctx: Context, now: int): Result<Option<SessionData>, Thrown> {
    if version != TOKEN_VERSION then Ok(None)
    else
      var provided := AtobDecode(c, signature);
      if provided.None? then Err(Thrown)
      else if provided.value != c.sign(Dotted(version, iv, ciphertext, tag)) then Ok(None)
      else
        var plaintext := EdgeUnseal(c, AtobDecode(c, iv), AtobDecode(c, ciphertext), AtobDecode(c, tag));
        if !Truthy(plaintext) then Ok(None) else ParseAndValidateEdge(c, plaintext.value, ctx, now)
  }

  /** A two-part token, on the Edge. */
  function VerifyLegacyEdge(c: Primitives, payload: string, signature: string, ctx: Context, now: int):
      Result<Option<SessionData>, Thrown> {
    var bytes := AtobDecode(c, payload);
    if signature != UrlEncode(c.legacySign(payload)) || bytes.None? then Ok(None)
    else ParseAndValidateEdge(c, c.utf8(bytes.value), ctx, now)
  }

  /** getSessionFromCookieHeaderEdge of lib/session-edge.ts, from the token on. */
  function VerifyEdge(c: Primitives, token: string, ctx: Context, now: int): Result<Option<SessionData>, Thrown> {
    var parts := Split(token, '.');
    if !AllPresent(parts) then Ok(None)
    else if |parts| == 5 then VerifyV2Edge(c, parts[0], parts[1], parts[2], parts[3], parts[4], ctx, now)
    else if |parts| == 2 then VerifyLegacyEdge(c, parts[0], parts[1], ctx, now)
    else Ok(None)
  }

  /* -------------------------------- round trip ------------------------------- */

  lemma UrlTextHasNoDot(s: string)
    requires IsUrlText(s)
    ensures '.' !in s
  {
  }

  /** Five dot-free texts joined by dots split into themselves. */
  lemma SplitDotted(version: string, iv: string, ciphertext: string, tag: string, signature: string, token: string)
    requires '.' !in version && '.' !in iv && '.' !in ciphertext && '.' !in tag && '.' !in signature
    requires token == Dotted(version, iv, ciphertext, tag) + "." + signature
    ensures Split(token, '.') == [version, iv, ciphertext, tag, signature]
  {
    var t3 := tag + "." + signature;
    var t2 := ciphertext + "." + t3;
    var t1 := iv + "." + t2;
    DottedIsNested(version, iv, ciphertext, tag, signature);
    SplitNested(version, iv, ciphertext, tag, signature, t3, t2, t1, token);
  }

  lemma DottedIsNested(version: string, iv: string, ciphertext: string, tag: string, signature: string)
    ensures Dotted(version, iv, ciphertext, tag) + "." + signature ==
              version + "." + (iv + "." + (ciphertext + "." + (tag + "." + signature)))
  {
    var a := ciphertext + "." + tag;
    var b := iv + "." + a;
    assert a + "." + signature == ciphertext + "." + (tag + "." + signature);
    assert b + "." + signature == iv + "." + (a + "." + signature);
    assert (version + "." + b) + "." + signature == version + "." + (b + "." + signature);
  }

  lemma SplitNested(version: string, iv: string, ciphertext: string, tag: string, signature: string,
                    t3: string, t2: string, t1: string, token: string)
    requires '.' !in version && '.' !in iv && '.' !in ciphertext && '.' !in tag && '.' !in signature
    requires t3 == tag + "." + signature && t2 == ciphertext + "." + t3 && t1 == iv + "." + t2 && token == version + "." + t1
    ensures Split(token, '.') == [version, iv, ciphertext, tag, signature]
  {
    SplitWhole(signature, '.');
    SplitFirst(tag, '.', signature, t3);
    SplitFirst(ciphertext, '.', t3, t2);
    SplitFirst(iv, '.', t2, t1);
    SplitFirst(version, '.', t1, token);
  }

  lemma EncodedDecodes(c: Primitives, b: Bytes)
    ensures IsUrlText(UrlEncode(b)) && '.' !in UrlEncode(b) && (b != [] ==> UrlEncode(b) != "")
    ensures BufferDecode(c, UrlEncode(b)) == b && AtobDecode(c, UrlEncode(b)) == Some(b)
  {
    UrlEncodeRestores(b);
    UrlRoundTrip(b);
    UrlTextHasNoDot(UrlEncode(b));
  }

  /** A created token has exactly five non-empty parts, and each decodes to what was put in. */
  lemma CreatedTokenParts(c: Primitives, session: SessionData, iv: Bytes, ciphertext: Bytes, tag: Bytes, data: string, token: string)
    requires Lawful(c) && iv != []
    requires (ciphertext, tag) == c.seal(iv, c.stringify(session))
    requires data == Dotted(TOKEN_VERSION, UrlEncode(iv), UrlEncode(ciphertext), UrlEncode(tag))
    requires token == CreateSessionToken(c, session, iv)
    ensures Split(token, '.') ==
              [TOKEN_VERSION, UrlEncode(iv), UrlEncode(ciphertext), UrlEncode(tag), UrlEncode(c.sign(data))]
    ensures AllPresent(Split(token, '.'))
  {
    SealedIsPresent(c, session, iv, ciphertext, tag, data);
    FiveParts(c, iv, ciphertext, tag, c.sign(data), data, token);
  }

  lemma SealedIsPresent(c: Primitives, session: SessionData, iv: Bytes, ciphertext: Bytes, tag: Bytes, data: string)
    requires Lawful(c) && (ciphertext, tag) == c.seal(iv, c.stringify(session))
    ensures ciphertext != [] && tag != [] && c.sign(data) != []
  {
    assert c.stringify(session) != "";
    assert |c.seal(iv, c.stringify(session)).1| == 16;
    assert |c.sign(data)| == 32;
  }

  lemma FiveParts(c: Primitives, iv: Bytes, ciphertext: Bytes, tag: Bytes, signature: Bytes, data: string, token: string)
    requires iv != [] && ciphertext != [] && tag != [] && signature != []
    requires data == Dotted(TOKEN_VERSION, UrlEncode(iv), UrlEncode(ciphertext), UrlEncode(tag))
    requires token == data + "." + UrlEncode(signature)
    ensures Split(token, '.') == [TOKEN_VERSION, UrlEncode(iv), UrlEncode(ciphertext), UrlEncode(tag), UrlEncode(signature)]
    ensures AllPresent(Split(token, '.'))
  {
    EncodedDecodes(c, iv);
    EncodedDecodes(c, ciphertext);
    EncodedDecodes(c, tag);
    EncodedDecodes(c, signature);
    FiveTexts(UrlEncode(iv), UrlEncode(ciphertext), UrlEncode(tag), UrlEncode(signature), token);
  }

  lemma FiveTexts(iv: string, ciphertext: string, tag: string, signature: string, token: string)
    requires '.' !in iv && '.' !in ciphertext && '.' !in tag && '.' !in signature
    requires iv != "" && ciphertext != "" && tag != "" && signature != ""
    requires token == Dotted(TOKEN_VERSION, iv, ciphertext, tag) + "." + signature
    ensures Split(token, '.') == [TOKEN_VERSION, iv, ciphertext, tag, signature] && AllPresent(Split(token, '.'))
  {
    SplitDotted(TOKEN_VERSION, iv, ciphertext, tag, signature, token);
  }

  lemma TagIsLast(ciphertext: Bytes, tag: Bytes)
    requires |tag| == 16
    ensures var combined := ciphertext + tag;
            combined[..|combined| - 16] == ciphertext && combined[|combined| - 16..] == tag
  {
  }

  lemma CreatedIsValidated(c: Primitives, session: SessionData, iv: Bytes, ctx: Context, now: int)
    requires Lawful(c) && iv != []
    ensures Verify(c, CreateSessionToken(c, session, iv), ctx, now) == ValidateSessionData(c, session, ctx, now)
    ensures VerifyEdge(c, CreateSessionToken(c, session, iv), ctx, now) == Ok(ValidateSessionData(c, session, ctx, now))
  {
    var (ciphertext, tag) := c.seal(iv, c.stringify(session));
    var data := Dotted(TOKEN_VERSION, UrlEncode(iv), UrlEncode(ciphertext), UrlEncode(tag));
    CreatedTokenParts(c, session, iv, ciphertext, tag, data, CreateSessionToken(c, session, iv));
    EncodedDecodes(c, iv);
    EncodedDecodes(c, ciphertext);
    EncodedDecodes(c, tag);
    EncodedDecodes(c, c.sign(data));
    TagIsLast(ciphertext, tag);
    assert c.unseal(iv, ciphertext, tag) == Some(c.stringify(session));
  }

  /** The hash recorded or compared for an optional value: none for an absent or an empty one. */
  ghost predicate IsHashOf(c: Primitives, hash: Option<string>, value: Option<string>) {
    hash == if Truthy(value) then Some(c.sha256Hex(value.value)) else None
  }

  /** Verifying a created token, on Node and on the Edge alike, gives back the very session it was created from, an absent
      time or version filled in, exactly if the session has a user, has not expired, and each hash it records is that of
      the request. */
  lemma TokenRoundTrip(c: Primitives, session: SessionData, iv: Bytes, ctx: Context, now: int)
    requires Lawful(c) && iv != []
    ensures VerifyEdge(c, CreateSessionToken(c, session, iv), ctx, now) == Ok(Verify(c, CreateSessionToken(c, session, iv), ctx, now))
    ensures Verify(c, CreateSessionToken(c, session, iv), ctx, now) ==
              if && session.user.userId != "" && now < session.expiresAt
                 && (Truthy(session.userAgentHash) ==> IsHashOf(c, session.userAgentHash, ctx.userAgent))
                 && (Truthy(session.ipHash) ==> IsHashOf(c, session.ipHash, ctx.ip))
              then Some(SessionData(
                User(session.user.userId, session.user.role, session.user.needsPasswordChange,
                     if session.user.sessionVersion == 0 then 1 else session.user.sessionVersion),
                session.csrfToken, if session.issuedAt == 0 then now else session.issuedAt,
                session.userAgentHash, session.ipHash, session.expiresAt))
              else None
  {
    CreatedIsValidated(c, session, iv, ctx, now);
  }

  /** The token of a user is accepted, in any context, exactly until it expires, a week after it was issued, if the user has
      an id and the user agent and (when bound) the address hash to what they hashed to at creation, where they were
      present then; and what is accepted is, field by field, what the token was issued for. */
  lemma AcceptedInContext(c: Primitives, user: User, csrf: string, ctx: Context, bindIp: bool, issued: int, iv: Bytes,
                          other: Context, now: int, token: string, answer: Option<SessionData>)
    requires Lawful(c) && iv != [] && (forall text :: c.sha256Hex(text) != "")
    requires token == CreateSessionToken(c, NewSession(c, user, csrf, ctx, bindIp, issued), iv)
    requires answer == Verify(c, token, other, now)
    ensures VerifyEdge(c, token, other, now) == Ok(answer)
    ensures answer.Some? <==>
              && user.userId != "" && now < issued + 7 * 24 * 60 * 60 * 1000
              && (Truthy(ctx.userAgent) ==> Truthy(other.userAgent) && c.sha256Hex(other.userAgent.value) == c.sha256Hex(ctx.userAgent.value))
              && (bindIp && Truthy(ctx.ip) ==> Truthy(other.ip) && c.sha256Hex(other.ip.value) == c.sha256Hex(ctx.ip.value))
    ensures answer.Some? ==>
              var v := answer.value;
              && v.user.userId == user.userId && v.user.role == user.role
              && v.user.needsPasswordChange == user.needsPasswordChange
              && v.user.sessionVersion == (if user.sessionVersion == 0 then 1 else user.sessionVersion)
              && v.csrfToken == csrf && v.expiresAt == issued + 7 * 24 * 60 * 60 * 1000
              && v.issuedAt == (if issued == 0 then now else issued)
              && IsHashOf(c, v.userAgentHash, ctx.userAgent)
              && (if bindIp then IsHashOf(c, v.ipHash, ctx.ip) else v.ipHash == None)
  {
    TokenRoundTrip(c, NewSession(c, user, csrf, ctx, bindIp, issued), iv, other, now);
  }

  /** In particular in the context it was created in. */
  lemma AcceptedUntilExpiry(c: Primitives, user: User, csrf: string, ctx: Context, bindIp: bool, issued: int, iv: Bytes, now: int,
                            token: string, answer: Option<SessionData>)
    requires Lawful(c) && iv != [] && (forall text :: c.sha256Hex(text) != "")
    requires token == CreateSessionToken(c, NewSession(c, user, csrf, ctx, bindIp, issued), iv)
    requires answer == Verify(c, token, ctx, now)
    ensures answer.Some? <==> user.userId != "" && now < issued + 7 * 24 * 60 * 60 * 1000
    ensures answer.Some? && user.sessionVersion >= 1 ==> answer.value.user == user && answer.value.csrfToken == csrf
  {
    AcceptedInContext(c, user, csrf, ctx, bindIp, issued, iv, ctx, now, token, answer);
  }

  /* ----------------------------- nothing else passes ------------------------- */

  /** The text is a session that passes in this context and is answered as v. */
  ghost predicate Passes(c: Primitives, text: string, ctx: Context, now: int, v: SessionData) {
    match c.parse(text)
    case Session(session) =>
      && session.user.userId != "" && now < session.expiresAt
      && (Truthy(session.userAgentHash) ==> IsHashOf(c, session.userAgentHash, ctx.userAgent))
      && (Truthy(session.ipHash) ==> IsHashOf(c, session.ipHash, ctx.ip))
      && v.user.userId == session.user.userId && v.user.role == session.user.role
      && v.user.needsPasswordChange == session.user.needsPasswordChange
      && v.user.sessionVersion == (if session.user.sessionVersion == 0 then 1 else session.user.sessionVersion)
      && v.csrfToken == session.csrfToken && v.expiresAt == session.expiresAt
      && v.issuedAt == (if session.issuedAt == 0 then now else session.issuedAt)
      && v.userAgentHash == session.userAgentHash && v.ipHash == session.ipHash
    case _ => false
  }

  /** The last dot of a token divides it into what is signed and its signature. */
  lemma LastPart(token: string, parts: seq<string>) returns (data: string, signature: string)
    requires parts == Split(token, '.') && (|parts| == 2 || |parts| == 5)
    ensures token == data + "." + signature && '.' !in signature && signature == parts[|parts| - 1]
    ensures data == if |parts| == 2 then parts[0] else Dotted(parts[0], parts[1], parts[2], parts[3])
  {
    SplitJoins(token, '.');
    SplitParts(token, '.', |parts| - 1);
    signature := parts[|parts| - 1];
    if |parts| == 2 {
      data := parts[0];
      assert parts[1..] == [signature];
    } else {
      data := Dotted(parts[0], parts[1], parts[2], parts[3]);
      assert parts[1..][1..] == parts[2..] && parts[2..][1..] == parts[3..] && parts[3..][1..] == parts[4..] == [signature];
      assert Joined(parts[3..], '.') == parts[3] + "." + signature;
      assert Joined(parts[2..], '.') == parts[2] + "." + Joined(parts[3..], '.');
      assert Joined(parts[1..], '.') == parts[1] + "." + Joined(parts[2..], '.');
      DottedIsNested(parts[0], parts[1], parts[2], parts[3], signature);
    }
  }

  /** Whatever token Node accepts, what stands before its last dot is signed by what stands behind it: in five parts under
      the present key, the sealed text being the session answered; in two under the older one, the session in clear. */
  lemma OnlySignedIsAccepted(c: Primitives, token: string, ctx: Context, now: int, v: SessionData)
    returns (data: string, signature: string, text: string)
    requires Verify(c, token, ctx, now) == Some(v)
    ensures token == data + "." + signature && '.' !in signature && Passes(c, text, ctx, now, v)
    ensures var parts := Split(token, '.');
            if |parts| == 5 then
              && parts[0] == "2" && BufferDecode(c, signature) == c.sign(data)
              && c.unseal(BufferDecode(c, parts[1]), BufferDecode(c, parts[2]), BufferDecode(c, parts[3])) == Some(text)
            else
              |parts| == 2 && signature == UrlEncode(c.legacySign(data)) && text == c.utf8(BufferDecode(c, data))
  {
    var parts := Split(token, '.');
    data, signature := LastPart(token, parts);
    if |parts| == 5 {
      text := c.unseal(BufferDecode(c, parts[1]), BufferDecode(c, parts[2]), BufferDecode(c, parts[3])).value;
    } else {
      text := c.utf8(BufferDecode(c, data));
    }
  }

  /** The same for the Edge, with its own decoder. */
  lemma OnlySignedIsAcceptedEdge(c: Primitives, token: string, ctx: Context, now: int, v: SessionData)
    returns (data: string, signature: string, text: string)
    requires VerifyEdge(c, token, ctx, now) == Ok(Some(v))
    ensures token == data + "." + signature && '.' !in signature && Passes(c, text, ctx, now, v)
    ensures if |Split(token, '.')| == 5 then Split(token, '.')[0] == "2" && AtobDecode(c, signature) == Some(c.sign(data))
            else |Split(token, '.')| == 2 && signature == UrlEncode(c.legacySign(data))
  {
    var parts := Split(token, '.');
    data, signature := LastPart(token, parts);
    if |parts| == 5 {
      text := EdgeUnseal(c, AtobDecode(c, parts[1]), AtobDecode(c, parts[2]), AtobDecode(c, parts[3])).value;
    } else {
      text := c.utf8(AtobDecode(c, data).value);
    }
  }

  /* ------------------------- Node and Edge agree ----------------------------- */

  lemma FromUrlIsStandard(s: string)
    requires IsUrlText(s)
    ensures forall i | 0 <= i < |s| :: ValueOf(MapChars(FromUrlChar, s)[i]).Some?
  {
    forall i | 0 <= i < |s| ensures ValueOf(FromUrlChar(s[i])).Some? {
      assert IsUrlChar(s[i]);
    }
  }

  /** On URL text the two decoders differ only in what they do with a left-over character. */
  lemma DecodersAgree(c: Primitives, s: string)
    requires IsUrlText(s)
    ensures if |s| % 4 == 1 then AtobDecode(c, s).None? else AtobDecode(c, s) == Some(BufferDecode(c, s))
  {
    FromUrlIsStandard(s);
    DecodesIff(MapChars(FromUrlChar, s), Padding(|s|));
  }

  lemma WholeGroupsRestore(whole: string)
    requires IsUrlText(whole) && |whole| % 4 == 0
    ensures Restored(whole) == MapChars(FromUrlChar, whole)
    ensures forall c | c in Restored(whole) :: ValueOf(c).Some?
  {
    FromUrlIsStandard(whole);
    assert Padding(|whole|) == "";
  }

  lemma WholeGroupsDecode(text: string, d: Option<Bytes>)
    requires (forall c | c in text :: ValueOf(c).Some?) && d == Decode(text)
    ensures d.Some? ==> |d.value| % 3 == 0
  {
    DecodedLength(text);
  }

  /** What a character after the last group adds: nothing. */
  lemma LeftOverIsDropped(c: Primitives, s: string, text: string, d: Option<Bytes>)
    requires IsUrlText(s) && |s| % 4 == 1 && text == Restored(s[..|s| - 1]) && d == Decode(text)
    ensures BufferDecode(c, s) == if d.Some? then d.value else []
  {
  }

  /** A signature with a left-over character never has 32 bytes. */
  lemma LeftOverNeverSigns(c: Primitives, s: string, whole: string)
    requires IsUrlText(s) && |s| % 4 == 1 && whole == s[..|s| - 1]
    ensures |BufferDecode(c, s)| != 32
  {
    assert IsUrlText(whole);
    WholeGroupsRestore(whole);
    var text := Restored(whole);
    WholeGroupsDecode(text, Decode(text));
    LeftOverIsDropped(c, s, text, Decode(text));
  }

  /** The two ways of handing ciphertext and tag to AES-GCM agree on a 16-byte tag. */
  lemma UnsealsAgree(c: Primitives, iv: string, ciphertext: string, tag: string)
    requires IsUrlText(iv) && |iv| % 4 != 1 && IsUrlText(ciphertext) && |ciphertext| % 4 != 1 && IsUrlText(tag) && |tag| % 4 != 1
    requires |BufferDecode(c, tag)| == 16
    ensures EdgeUnseal(c, AtobDecode(c, iv), AtobDecode(c, ciphertext), AtobDecode(c, tag)) ==
              c.unseal(BufferDecode(c, iv), BufferDecode(c, ciphertext), BufferDecode(c, tag))
  {
    DecodersAgree(c, iv);
    DecodersAgree(c, ciphertext);
    DecodersAgree(c, tag);
    TagIsLast(BufferDecode(c, ciphertext), BufferDecode(c, tag));
  }

  lemma SignaturesAgree(c: Primitives, signature: string, expected: Bytes)
    requires IsUrlText(signature) && |expected| == 32
    ensures if |signature| % 4 == 1 then AtobDecode(c, signature).None? && BufferDecode(c, signature) != expected
            else AtobDecode(c, signature) == Some(BufferDecode(c, signature))
  {
    DecodersAgree(c, signature);
    if |signature| % 4 == 1 {
      LeftOverNeverSigns(c, signature, signature[..|signature| - 1]);
    }
  }

  /** The token is signed and what it seals is the text `null`. */
  predicate SealsNull(c: Primitives, version: string, iv: string, ciphertext: string, tag: string, signature: string) {
    var plaintext := c.unseal(BufferDecode(c, iv), BufferDecode(c, ciphertext), BufferDecode(c, tag));
    && BufferDecode(c, signature) == c.sign(Dotted(version, iv, ciphertext, tag))
    && Truthy(plaintext) && c.parse(plaintext.value).Null?
  }

  lemma V2Agrees(c: Primitives, version: string, iv: string, ciphertext: string, tag: string, signature: string, ctx: Context, now: int)
    requires Lawful(c) && IsUrlText(signature)
    requires IsUrlText(iv) && |iv| % 4 != 1 && IsUrlText(ciphertext) && |ciphertext| % 4 != 1 && IsUrlText(tag) && |tag| % 4 != 1
    requires |BufferDecode(c, tag)| == 16
    ensures var throws := version == TOKEN_VERSION && (|signature| % 4 == 1 || SealsNull(c, version, iv, ciphertext, tag, signature));
            && VerifyV2Edge(c, version, iv, ciphertext, tag, signature, ctx, now) ==
                 (if throws then Err(Thrown) else Ok(VerifyV2(c, version, iv, ciphertext, tag, signature, ctx, now)))
            && (throws ==> VerifyV2(c, version, iv, ciphertext, tag, signature, ctx, now) == None)
  {
    var expected := c.sign(Dotted(version, iv, ciphertext, tag));
    assert |expected| == 32;
    UnsealsAgree(c, iv, ciphertext, tag);
    SignaturesAgree(c, signature, expected);
  }

  /** On five-part tokens over the URL alphabet with whole groups and a 16-byte tag, the Edge verifier agrees with
      the Node one except in exactly two cases, where it throws and Node answers null: a signature with a left-over
      character, and a signed token that seals the text `null`. */
  lemma EdgeAgreesWithNode(c: Primitives, token: string, ctx: Context, now: int, parts: seq<string>, throws: bool)
    requires Lawful(c) && parts == Split(token, '.') && |parts| == 5
    requires forall i | 1 <= i < 5 :: IsUrlText(parts[i])
    requires forall i | 1 <= i < 4 :: |parts[i]| % 4 != 1
    requires |BufferDecode(c, parts[3])| == 16
    requires throws <==> && AllPresent(parts) && parts[0] == TOKEN_VERSION
                         && (|parts[4]| % 4 == 1 || SealsNull(c, parts[0], parts[1], parts[2], parts[3], parts[4]))
    ensures VerifyEdge(c, token, ctx, now) == if throws then Err(Thrown) else Ok(Verify(c, token, ctx, now))
    ensures throws ==> Verify(c, token, ctx, now) == None
  {
    V2Agrees(c, parts[0], parts[1], parts[2], parts[3], parts[4], ctx, now);
  }

  /** On two-part tokens whose payload is URL text with whole groups they agree except on a signed `null`. */
  lemma LegacyAgrees(c: Primitives, payload: string, signature: string, ctx: Context, now: int, throws: bool)
    requires IsUrlText(payload) && |payload| % 4 != 1
    requires throws <==> signature == UrlEncode(c.legacySign(payload)) && c.parse(c.utf8(BufferDecode(c, payload))).Null?
    ensures VerifyLegacyEdge(c, payload, signature, ctx, now) ==
              if throws then Err(Thrown) else Ok(VerifyLegacy(c, payload, signature, ctx, now))
    ensures throws ==> VerifyLegacy(c, payload, signature, ctx, now) == None
  {
    DecodersAgree(c, payload);
  }
}
