# Elahe Messenger: a verified model of its hard parts

This project models, in Dafny 4.11, the parts of the messenger whose correctness is decided by small pieces of
stateful code, and proves what those pieces promise (or exactly when they keep the promise). Run
`dafny verify dfyconfig.toml` in this directory to check all of it.

| module | models | main results |
|---|---|---|
| `Ratchet` | the Double Ratchet of `lib/crypto.ts` | keys never repeat, at-most-once decryption, unbounded ping-pong, and what the two initialisers really allow |
| `RateLimit` | the fixed-window limiter of `lib/rate-limit.ts`, in memory and over Redis | sliding-window bound, capacity, refinement between the two stores, callers kept apart |
| `RedisLimiter` | `lib/rate-limit.ts` and `lib/rate-limit-shared.ts` as interleaved Redis commands | at most max per counter lifetime; when the counter gets an expiry; when the two limiters agree |
| `MemoryCache`, `OrderedMap` | the LRU/TTL map of `lib/cache/memory-cache.ts` | recency order over every history, the bound and when it fails |
| `TieredCache` | `getOrSetCache` over memory and Redis | staleness under every interleaving, with a bound that is met exactly; what is cached and when it is fetched again |
| `PreKeys` | one-time pre-keys in `lib/e2ee-runtime-service.ts` | conservation, oldest first, status order, consumption, and exactly when a key has one caller |
| `TaskQueue` | the re-entrant `SimpleQueue` of `lib/task-queue.ts` | the tasks started are those added, first in first out, over any history; occupancy; settle once; listeners called; termination |
| `Base64Url`, `Strings`, `SessionToken` | session tokens, on Node and on the Edge | round trip field by field, expiry, only what was signed passes, agreement of the two verifiers |
| `Revocation` | `sessionVersion` and every action that writes it | revoked for ever; acceptance and bans characterised over runs |
| `Lockout` | the login lockout | the guessing budget of any interval, and that it is reached; restrictions hold |
| `GroupKeys` | group sender keys | keys never repeat, who can read what, delivery by distribute-then-encrypt |
| `Pagination` | message history pages | exactly when the pages partition the conversation |
| `ConversationId`, `ConversationAccess`, `ConversationCache` | conversation ids, authorisation, and the cached pages they name | one id a conversation, exact access, exact invalidation |

Where the source changes state (stores, tables, queues, limiters) the model is a class whose methods are proved
against specification functions; where many callers interleave, the same functions are the steps of a state machine,
and the results are about every run of it. `Common` holds `Option`, `Result`, the minimum and JavaScript's truth of a string.

Conventions. Cryptography is symbolic: ECDH outputs are unordered pairs, KDF and HMAC outputs are constructors applied
to their inputs, and an AES-GCM ciphertext opens exactly under its own key and nonce. Random values, clocks and answers
of the network are parameters. One database transaction, one Redis command and one stretch of JavaScript between two
awaits are one atomic step. Times are whole milliseconds, and a Redis key with expiry `e` answers while `now < e`.

## Where the code does not do what it, or its documentation, says

Each of these is a proved lemma, with the exact condition under which the intended behaviour holds.

- A responder created by `initRatchetSessionResponder` can never reply: its sending chain is empty, only a DH step fills
  it, and the initiator never presents a new key (`Ratchet.ResponderNeverReplies`, `Ratchet.SendsOnlyAfterDhStep`).
  Ping-pong works from the pair that section 3.3 of "The Double Ratchet Algorithm" starts from, which is not the one the code stores
  (`Ratchet.InitiatorLeadsAPreKeyResponder`). Messages that are skipped are lost; `previousChainLength` is never read.
- A cached value is younger than `2 * ttl` in every run exactly if Redis replies are in flight for at most a millisecond;
  each further millisecond makes it a millisecond older (`TieredCache.YoungerThanTwiceTtlIff`, `TieredCache.BoundIsReached`).
- With an allowance of 0 or less the in-memory limiter lets a first request through and Redis does not
  (`RateLimit.FirstRequestAgreesIff`).
- In `rateLimitShared` the counter expires exactly if the call that created it gets as far as `PEXPIRE`; otherwise
  every call that finds the counter at its maximum is refused for ever (`RedisLimiter.SharedExpiresIff`,
  `RedisLimiter.DeadFirstCallBlocksForever`). It differs from `rateLimit` exactly on a counter without an expiry
  (`RedisLimiter.LimitersDifferIff`).
- An empty key at the front stops the LRU eviction (`MemoryCache.TrimFitsIff`).
- After a device registers, its next reservation can hand out a key that some call already holds if and only if the
  registration brought a handed-out id (`PreKeys.SecondHandoutIff`, `PreKeys.ReusedIdIsHandedTwice`).
- On tokens of well-formed base64 parts the Edge verifier agrees with the Node one except on a signature with a left-over
  character and on a signed payload that is the JSON text `null`, where it rejects and Node answers null
  (`SessionToken.EdgeAgreesWithNode`, `SessionToken.LegacyAgrees`).
- The bootstrap reset of an administrator changes role and password without incrementing `sessionVersion`, so it revokes
  nothing (`Revocation.BootstrapResetRevokesNothing`).
- "Admin accounts must remain approved" holds for the approval toggle and not for the moderation action
  (`Revocation.AdminsKeepStanding`).
- A group message is readable exactly with a sender key distributed at that message's own index, so a member can read at
  most one message of a generation at a time (`GroupKeys.ReadsOneMessageAGeneration`); and the payload the composer
  emits lacks the fields its receiver insists on (`GroupKeys.EmittedIsDropped`).
- Direct history keeps expired messages (`Pagination.ExpiryFiltersGroupsOnly`).
- Every walk through the pages shows every message exactly once if and only if every message that ends a page with another
  behind it shares its timestamp with no other (`Pagination.PagesPartitionIff`); otherwise a message can be missing
  (`Pagination.TieSkipsAMessage`) or appear twice (`Pagination.TieRepeatsAMessage`).
- A group whose id looks like a UUID, as the schema's default makes it, is taken for a person, and all its members are
  refused (`ConversationAccess.UuidGroupRefusesItsMembers`).
- Invalidating a group conversation leaves the other members' cached pages (`ConversationCache.GroupInvalidationReachesOnlyTheActor`).

## Model

| member | source | states |
|---|---|---|
| Ratchet.SessionStore.InitRatchetSession | lib/crypto.ts:361-404 | the initiator's stored state and first header; an unusable pre-key stores nothing |
| Ratchet.SessionStore.InitRatchetSessionResponder | lib/crypto.ts:409-445 | the responder's stored state, with an empty sending chain; an unusable key stores nothing |
| Ratchet.SessionStore.RatchetEncrypt | lib/crypto.ts:490-530 | exactly the packet and stored state of one chain step; every failure leaves the store unchanged |
| Ratchet.SessionStore.RatchetDecrypt | lib/crypto.ts:538-594 | the skip-ahead loop derives the key `n` steps down the chain; every failure, at any point, leaves the store unchanged |
| Ratchet.InitialStatesAreWellFormed | lib/crypto.ts:385-441 | both initialisers establish the invariant every later call keeps |
| Ratchet.PerformSpends | lib/crypto.ts:490-594 | any call, with hostile arguments, either changes nothing or uses a key that lay ahead of the state and now lies behind it, with everything behind staying behind |
| Ratchet.KeysNeverRepeat | lib/crypto.ts:490-594 | over any run of one session no message key is used twice, sending or receiving |
| Ratchet.DecryptsAtMostOnce | lib/crypto.ts:552-587 | a ciphertext delivered twice, under any headers and traffic, opens at most once, also after later DH steps |
| Ratchet.DhStepPreserves | lib/crypto.ts:450-478 | a DH step leaves every used key behind and starts a receiving chain none of whose keys was used |
| Ratchet.HeadersAfterDhStep | lib/crypto.ts:450-478 | after a DH step messages are numbered from 0 under the new public key, and say how many were sent before it |
| Ratchet.FirstChainDelivers | lib/crypto.ts:361-445 | both ends compute one root and one first chain, and every increasing selection of the initiator's messages, with any gaps, decrypts to its plaintexts |
| Ratchet.DeliverIncreasing | lib/crypto.ts:552-587 | from any point of a chain, skip-ahead derives the sender's key for every strictly increasing selection |
| Ratchet.TurnSwapsTheLead | lib/crypto.ts:450-478 | receiving from a side one DH step ahead derives its root and chain, reads its messages and puts the receiver one step ahead |
| Ratchet.PingPong | lib/crypto.ts:450-594 | hence every delivered message of every turn of an unbounded exchange is read |
| Ratchet.InitiatorLeadsAPreKeyResponder | lib/crypto.ts:425-441 | the initiator is one step ahead of a responder that keeps the pre-key pair and initial root, and never of the state the code stores |
| Ratchet.BobReadsExactly | lib/crypto.ts:538-594 | in a session of the two initialisers a packet opens exactly while its number has not been passed |
| Ratchet.ResponderNeverReplies | lib/crypto.ts:432-441 | over every run of the code's own two ends, whatever the network does, the responder's sends all fail and the session stays on its first chain |
| Ratchet.SendsOnlyAfterDhStep | lib/crypto.ts:497-500 | a state with an empty sending chain can send exactly once some successful receive has taken a DH step |
| RateLimit.RateLimiter.PruneExpiredEntries | lib/rate-limit.ts:46-59 | deleting during the iteration keeps exactly the unexpired entries, in order |
| RateLimit.RateLimiter.EvictOldestIfNeeded | lib/rate-limit.ts:61-72 | drops exactly the longest-inserted surplus |
| RateLimit.RateLimiter.RateLimit | lib/rate-limit.ts:142-212 | under which key the caller is counted, which store answers, what it answers and what it leaves, on all paths, including a Redis that fails at any of its three commands, with and without fail-closed |
| RateLimit.RateLimiter.CountInRedis | lib/rate-limit.ts:153-171 | INCR, PTTL and PEXPIRE together are one step of a counter with a window; where one fails, those before it stand |
| RateLimit.RateLimiter.CountInMemory | lib/rate-limit.ts:184-212 | the in-memory branch, with its two caps, is one step of the store |
| RateLimit.StepKeepsCapacity | lib/rate-limit.ts:61-72 | the store never outgrows the smaller of the two caps |
| RateLimit.StepCases | lib/rate-limit.ts:184-212 | a call changes its own key's entry as counted and other keys' entries only by eviction |
| RateLimit.PruneIsExact | lib/rate-limit.ts:46-59 | pruning drops exactly the entries whose window has ended |
| RateLimit.EvictsTheOldest | lib/rate-limit.ts:61-72 | a first request on a full store costs exactly the entry inserted first its place, and its own goes last |
| RateLimit.WindowAnswers | lib/rate-limit.ts:153-171 | of the requests of one window the first max are let through, each is told how many are left, and all are told the end of the window |
| RateLimit.OtherCallersUntouched | lib/rate-limit.ts:148-212 | a call for one caller key, failing or not, leaves the counter of every other alone, in memory unless it is evicted |
| RateLimit.MemoryProjects | lib/rate-limit.ts:184-212 | below capacity, what one caller is answered in memory in any run is what it is answered in the run with all other callers taken out |
| RateLimit.RedisProjects | lib/rate-limit.ts:153-171 | over Redis the same without a condition |
| RateLimit.CallersAreSeparate | lib/rate-limit.ts:148-212 | both, for runs from empty stores |
| RateLimit.SlidingWindow | lib/rate-limit.ts:184-212 | over every run with non-decreasing time in which the key is not evicted, any closed interval of windowMs holds at most twice the allowance |
| RateLimit.TwiceIsReached | lib/rate-limit.ts:196-211 | for every window and allowance the factor two is reached |
| RateLimit.MemoryRefinesRedis | lib/rate-limit.ts:150-212 | with positive allowances and below capacity both stores answer every request of every run alike, the cleanup timer firing anywhere |
| RateLimit.EmptyStoresAgree | lib/rate-limit.ts:150-212 | in particular when both start empty |
| RateLimit.PassTime | lib/rate-limit.ts:46-59 | neither time passing nor pruning can be observed |
| RateLimit.FirstRequestAgreesIff | lib/rate-limit.ts:164-202 | on a first request the stores agree if and only if the allowance is positive |
| RedisLimiter.AtMostMaxPerLifetime | lib/rate-limit.ts:153-171 | under every interleaving of many callers, with callers dying, at most max calls are allowed in one lifetime of the counter |
| RedisLimiter.CompletionArmsTheKey | lib/rate-limit.ts:157-162 | any call that completes leaves the key absent or with an expiry, whoever died before |
| RedisLimiter.SharedExpiresIff | lib/rate-limit-shared.ts:32-37 | the counter has an expiry if and only if its first call has executed PEXPIRE |
| RedisLimiter.DeadFirstCallBlocksForever | lib/rate-limit-shared.ts:32-42 | if that call died, every call that finds the counter at max is refused for ever |
| RedisLimiter.BlockIsReachable | lib/rate-limit-shared.ts:32-35 | for every window and positive allowance such a state is reachable |
| RedisLimiter.ResetAtIsNeverLate | lib/rate-limit-shared.ts:37-45 | over every interleaving of either limiter, no reset time a completed call answered lies after the expiry of the counter |
| RedisLimiter.RateLimitShared | lib/rate-limit-shared.ts:24-46 | what a call on its own leaves and answers, and what stands when a command fails |
| RedisLimiter.AloneIsARun | lib/rate-limit.ts:153-171 | a call of either limiter whose commands nothing interrupts leaves and answers what its functional form says |
| RedisLimiter.LimitersDifferIff | lib/rate-limit-shared.ts:32-45 | from the same counters both limiters answer alike, and leave the same counters if and only if the counter of the key is absent or has an expiry |
| RedisLimiter.SharedRefinesRedis | lib/rate-limit-shared.ts:32-45 | hence calls one after the other are answered alike by both on every run |
| RedisLimiter.ThreeLimitersAgree | lib/rate-limit.ts:150-212 | and, below capacity and with positive allowances, by the in-memory limiter too |
| MemoryCache.MemoryCache.Get | lib/cache/memory-cache.ts:11-21 | a hit moves its entry to the back, an expired entry goes, a miss changes nothing |
| MemoryCache.MemoryCache.Set | lib/cache/memory-cache.ts:23-30 | the loop leaves the trimmed map, with the entry just set in it |
| MemoryCache.MemoryCache.DelByPrefix | lib/cache/memory-cache.ts:36-40 | deleting during the iteration removes exactly the matching keys |
| MemoryCache.GetIsExact | lib/cache/memory-cache.ts:11-21 | a get answers the entry there is if it has not expired, an expired one goes, and no other entry changes |
| MemoryCache.SetIsExact | lib/cache/memory-cache.ts:23-30 | a set with room makes the value the answer for its key until its ttl is over, and changes no other |
| MemoryCache.AnswersLatestSet | lib/cache/memory-cache.ts:11-40 | after every history what a get answers is what the latest set of its key set, less than its ttl ago, and not deleted since |
| MemoryCache.TrimFitsIff | lib/cache/memory-cache.ts:25-29 | the cache fits after the loop if and only if no empty key stood among the items that had to go |
| MemoryCache.SetStaysBounded | lib/cache/memory-cache.ts:23-30 | with non-empty keys every set ends within maxEntries |
| MemoryCache.FreshSetSurvives | lib/cache/memory-cache.ts:23-30 | the entry just set is never evicted by its own set |
| MemoryCache.RecencyOrder | lib/cache/memory-cache.ts:11-40 | after every history the entries stand in order of their latest hit or insertion; an overwrite does not count |
| MemoryCache.EvictsLeastRecentlyUsed | lib/cache/memory-cache.ts:25-29 | what a set evicts was used less recently than everything it leaves |
| MemoryCache.DelByPrefixExact | lib/cache/memory-cache.ts:36-40 | prefix deletion removes the matching keys only and keeps values and order |
| TieredCache.TwoLayers.GetOrSetCache | lib/cache/index.ts:23-54 | what a call run to its end leaves in memory and Redis and answers, with any delays and failures, a rejecting fetcher included |
| TieredCache.AloneIsARun | lib/cache/index.ts:23-54 | that method is one interleaving of the state machine |
| TieredCache.ColdIsFetched | lib/cache/index.ts:23-54 | without a live copy a call answers what its fetch gives, or rejects with it, and leaves it in memory and Redis for ttl |
| TieredCache.SecondCallHits | lib/cache/index.ts:28-32 | a fetched value is answered from memory until its ttl is over |
| TieredCache.OtherProcessHits | lib/cache/index.ts:34-41 | and by any other process from Redis, which then keeps a copy |
| TieredCache.InvalidatedIsFetched | lib/cache/index.ts:56-68 | after an invalidation by key or prefix the next call fetches |
| TieredCache.InvalidationSparesOthers | lib/cache/index.ts:56-68 | an invalidation takes no other key |
| TieredCache.SetIsAnswered | lib/cache/index.ts:17-21 | a value set directly is answered until its ttl is over |
| TieredCache.Staleness | lib/cache/index.ts:23-68 | under every interleaving an answer not fetched by the call itself was written to memory less than ttl ago, or to Redis at most 2·ttl − 2 ms plus the reply's latency ago |
| TieredCache.MemoryOnlyStaleness | lib/cache/index.ts:28-49 | without Redis the bound is ttl |
| TieredCache.BoundIsReached | lib/cache/index.ts:36-40 | for every ttl and latency there is a run in which an answer is exactly that old |
| TieredCache.YoungerThanTwiceTtlIff | lib/cache/index.ts:36-40 | every answer of every run is younger than 2·ttl if and only if replies take at most 1 ms |
| PreKeys.Database.ReserveKey | lib/e2ee-runtime-service.ts:62-75 | the oldest available key of the device becomes RESERVED and is returned; none, and nothing changes |
| PreKeys.Database.BootstrapSession | lib/e2ee-runtime-service.ts:115-157 | every key of the recipient with that id is CONSUMED, now if it was not yet; every other row is unchanged; and the session row is created once with its key |
| PreKeys.StatusOnlyAdvances | lib/e2ee-runtime-service.ts:70-124 | no step moves a status back; a row leaves only CONSUMED by retention or unconsumed by a registration of its device |
| PreKeys.BootstrapIsExact | lib/e2ee-runtime-service.ts:115-157 | the same of a step of the system, for the key the call reserved |
| PreKeys.RetentionIsExact | lib/retention-policy.ts:48-61 | retention deletes exactly the keys consumed before the date |
| PreKeys.RegistrationIsExact | app/api/e2ee/devices/register/route.ts:97-109 | a registration leaves the device its consumed keys and the new ones, all AVAILABLE, and other devices everything |
| PreKeys.FinishedIsConsumed | lib/e2ee-runtime-service.ts:115-125 | over every run the key handed to a call that has finished is CONSUMED as long as its row is there; else retention deleted it, or a registration did that found it RESERVED and the call unfinished |
| PreKeys.RowsAreConserved | lib/retention-policy.ts:48-61 | over every run, rows inserted = rows present + purged + replaced, without overlap |
| PreKeys.OncePerRowOldestFirst | lib/e2ee-runtime-service.ts:62-75 | over every interleaving no row is handed to two calls and a device's keys go oldest first |
| PreKeys.OncePerKey | lib/e2ee-runtime-service.ts:62-75 | if no registration brings an id of its device that is handed out, no key is handed out twice |
| PreKeys.StatusStepsByOne | lib/e2ee-runtime-service.ts:115-125 | then no status moves two steps at once |
| PreKeys.SessionsShareNoKey | lib/e2ee-runtime-service.ts:126-146 | then no two sessions record one device's same key |
| PreKeys.SecondHandoutIff | app/api/e2ee/devices/register/route.ts:97-109 | in any state, after a registration the device's next reservation can hand out a key already held if and only if the registration brought one |
| PreKeys.ReusedIdIsHandedTwice | app/api/e2ee/devices/register/route.ts:97-109 | that reservation hands the key to a second call, whatever else was registered |
| TaskQueue.SimpleQueue.Emit | lib/task-queue.ts:26-32 | the listeners of the event, and no others, are called, in order, whichever throw, and no throw gets out |
| TaskQueue.SimpleQueue.Add | lib/task-queue.ts:34-42 | appends this task, recorded as added by its adder, and processes; the invariant holds inside nested calls too |
| TaskQueue.SimpleQueue.Process | lib/task-queue.ts:44-68 | terminates under re-entry, starts exactly the head of the queue each time, undoes nothing, and ends with every slot used or the queue empty |
| TaskQueue.SimpleQueue.CallTask | lib/task-queue.ts:53 | the code of the started task adds exactly the tasks it is to add, in its order, while nested runs go on |
| TaskQueue.SimpleQueue.RunTask | lib/task-queue.ts:48-58 | the task given is the one started and run; if its synchronous part throws, its own promise is rejected and no other |
| TaskQueue.SimpleQueue.TryCatch | lib/task-queue.ts:53-61 | whatever listeners throw, exactly one of resolve and reject is called, by the task's outcome, with its event |
| TaskQueue.SimpleQueue.Settle | lib/task-queue.ts:53-65 | settles exactly its promise, gives the slot back and processes |
| TaskQueue.SimpleQueue.Enqueue | lib/task-queue.ts:95-98 | from rest to rest, with this addition recorded |
| TaskQueue.SimpleQueue.Resume | lib/task-queue.ts:55-65 | from rest to rest when an awaited promise settles |
| TaskQueue.SimpleQueue.Drive | lib/task-queue.ts:34-68 | over any sequence of stimuli what is enqueued is added in order, what was added is what was started followed by the queue, a settled promise never changes again, and every listener is called for every event emitted |
| TaskQueue.RunningIsMinimum | lib/task-queue.ts:44-50 | at rest running = min(concurrency, outstanding) and added = queued + running + settled |
| TaskQueue.ListenersAreCalled | lib/task-queue.ts:26-60 | between two moments a listener is called exactly as often as it is registered, for each task added, each started, each promise fulfilled and each rejected |
| TaskQueue.StartsInOrder | lib/task-queue.ts:44-50 | between any two moments, the tasks started in between, in order, followed by the queue, are the earlier queue followed by what was added |
| TaskQueue.CalledAreFirstAdded | lib/task-queue.ts:34-53 | of what any one task, or the outside, adds, the part that has been called is the part added first |
| Base64Url.DecodeEncode | lib/session.ts:61-62 | base64 decoding undoes encoding on every byte string |
| Base64Url.GroupIsBigEndian | lib/session.ts:61-62 | the four characters of three bytes spell them, most significant bits first |
| Base64Url.UrlEncodeRestores | lib/session-edge.ts:62-69 | the encoder's text is over the URL alphabet, never one past a group, and restores to the standard text |
| Base64Url.UrlRoundTrip | lib/session.ts:61-68 | stripping and restoring alphabet and padding inverts on every byte string |
| Base64Url.DecodesIff | lib/session-edge.ts:51-54 | restored URL text decodes if and only if it is not one character past a group |
| Base64Url.DecodedLength | lib/session.ts:64-67 | text without padding decodes to whole groups of three bytes |
| Base64Url.SafeEqual | lib/session-edge.ts:121-128 | the XOR fold is zero exactly when the strings are equal |
| SessionToken.CreatedTokenParts | lib/session.ts:141-147 | a created token splits into exactly five non-empty parts, which are the ones put in |
| SessionToken.TokenRoundTrip | lib/session.ts:130-177 | verifying a created token, on Node and on the Edge, gives back, field by field, the session it was created from, exactly if it has a user, has not expired and its hashes fit the request |
| SessionToken.AcceptedUntilExpiry | lib/session.ts:130-139 | in its own context a token is accepted exactly until it expires, for every user with an id, and stands for that user |
| SessionToken.AcceptedInContext | lib/session.ts:120-228 | in any context, on Node and on the Edge: exactly when a user's token is accepted, and every field of what is answered |
| SessionToken.OnlySignedIsAccepted | lib/session.ts:152-206 | whatever token Node accepts, what precedes its last dot is signed by what follows it, and what is answered is what that seals (or, in the older format, spells) |
| SessionToken.OnlySignedIsAcceptedEdge | lib/session-edge.ts:146-219 | the same on the Edge |
| SessionToken.DecodersAgree | lib/session-edge.ts:51-60 | on URL text the two decoders differ only on a left-over character |
| SessionToken.EdgeAgreesWithNode | lib/session-edge.ts:187-209 | on five-part tokens of URL text with whole groups and a 16-byte tag both verifiers agree, except in exactly two cases in which the Edge throws: a left-over signature character, and a signed `null` |
| SessionToken.LegacyAgrees | lib/session-edge.ts:146-166 | on the older format, with a payload of URL text in whole groups, they agree except on a signed `null` |
| Revocation.UserTable.UpdateUserRole | app/actions/admin.ts:142-165 | who may, what is refused, what is written |
| Revocation.UserTable.ToggleUserApproval | app/actions/admin.ts:213-254 | the same; an administrator stays approved |
| Revocation.UserTable.ToggleBanUser | app/actions/admin.ts:322-348 | the same; an administrator is not banned |
| Revocation.UserTable.ApplyModerationAction | app/actions/admin.ts:656-715 | the same for the eight moderation actions |
| Revocation.UserTable.RecoverPassword | app/actions/auth-legacy.ts:664-703 | refused for banned accounts and wrong answers; else new password and new version |
| Revocation.UserTable.ResetPasswordWithCode | app/actions/email-verification.ts:230-252 | the same for a mailed code |
| Revocation.UserTable.UpdateAdminCredentials | app/actions/auth-legacy.ts:718-771 | only a live administrator, for the own row |
| Revocation.UserTable.ChangeAdminPassword | app/actions/auth-legacy.ts:777-832 | only with the current password |
| Revocation.UserTable.ResetExistingAdmin | lib/auth-utils.ts:109-122 | the reset writes role, approval and password, and leaves the version |
| Revocation.AdminSessionIff | app/actions/admin.ts:23-34 | exactly which sessions pass as an administrator's |
| Revocation.AllowedIff | app/actions/admin.ts:142-254 | exactly when each action goes ahead |
| Revocation.ActionIsExact | app/actions/admin.ts:656-715 | field by field, what each action that goes ahead leaves in its account's row; every other row, and any row after a refusal, is unchanged |
| Revocation.BannedAsLastSet | app/actions/admin.ts:322-348 | over every run an account is banned exactly as the latest effective ban, unban or toggle left it, and while it is banned no session of it is accepted |
| Revocation.IssuedIsCarried | lib/session.ts:208-228 | a token made from a session verifies to that session, version 0 being read as 1 |
| Revocation.EveryChangeBumps | app/actions/admin.ts:152-156 | versions never fall, and every change of role, ban, approval or password increments by exactly one, except the bootstrap reset |
| Revocation.AdminsKeepStanding | app/actions/admin.ts:231-233 | no step bans an administrator, and an approved one loses approval exactly by the moderation action, never by the toggle |
| Revocation.RevokedForEver | lib/session-auth.ts:4-16 | over every run, once a step increments an account's version, no earlier session of it nor anything obtained from the same login by any chain of issuing and rotating is accepted again |
| Revocation.AcceptedIff | lib/session-auth.ts:9-12 | a session is accepted if and only if its account is not banned, is approved, and no step since the read it stems from incremented the version |
| Revocation.RoleCheckAddsNothing | lib/fresh-session.ts:23-30 | in runs without a bootstrap reset the role check never refuses what the version check accepts |
| Revocation.BootstrapResetRevokesNothing | lib/auth-utils.ts:111-122 | after a bootstrap reset every live session passes the version check still, and the role check exactly if it was an administrator's |
| Revocation.RevokedAdminsChangeNothing | app/actions/admin.ts:23-34 | no administrative action by a session revoked that way changes any row |
| Lockout.UserRow.LoginUser | app/actions/auth-legacy.ts:505-554 | the answer and the counters after every login attempt |
| Lockout.UserRow.RestrictFor24Hours | app/actions/admin.ts:674-676 | the restriction overwrites the lock, except for an administrator |
| Lockout.UserRow.RecoverPassword | app/actions/auth-legacy.ts:673-700 | a recovery clears both counters or changes nothing |
| Lockout.LogsInIff | app/actions/auth-legacy.ts:505-554 | exactly when a login succeeds, and that it clears lock and count |
| Lockout.LockedIff | app/actions/auth-legacy.ts:505-509 | exactly when a login is answered as locked, the minutes told, and that nothing changes then |
| Lockout.WrongIsCounted | app/actions/auth-legacy.ts:513-528 | a wrong password is counted and locks for 15 minutes from the fifth on; a right one for a banned or unapproved account changes nothing |
| Lockout.RestrictionHolds | app/actions/admin.ts:674-676 | for 24 hours after a restriction, over every run without a recovery, every login is answered as locked |
| Lockout.RecoveryClears | app/actions/auth-legacy.ts:691-700 | a recovery clears lock and count and nothing else |
| Lockout.BannedNeverLogsIn | app/actions/auth-legacy.ts:535-545 | over every run without a moderation a banned or unapproved account never logs in |
| Lockout.StepPays | app/actions/auth-legacy.ts:513-528 | every step's wrong-password check is paid from a budget that only a success or recovery tops up, by at most five |
| Lockout.GuessesAreBounded | app/actions/auth-legacy.ts:505-554 | from any account, with any restrictions, a closed interval contains at most 5·(clearings in it + 1) + ⌊length / 15 min⌋ wrong-password checks |
| Lockout.LockoutBound | app/actions/auth-legacy.ts:505-554 | without success or recovery: at most 5 + ⌊length / 15 min⌋ |
| Lockout.BoundIsReached | app/actions/auth-legacy.ts:516-520 | for every length there is a run that meets the bound |
| GroupKeys.KeyStore.DistributeSenderKey | lib/crypto/group-sender-keys.ts:132-158 | keeps the existing state or makes one, and wraps its chain key for each member in order |
| GroupKeys.KeyStore.RotateSenderKey | lib/crypto/group-sender-keys.ts:187-194 | a new seed, the next generation, index 0, distributed |
| GroupKeys.KeyStore.EncryptGroupMessage | lib/crypto/group-sender-keys.ts:196-220 | sealed at the current place, and the chain moves one step; without a state it fails and changes nothing |
| GroupKeys.KeyStore.StoreReceivedSenderKey | lib/crypto/group-sender-keys.ts:243-250 | overwrites the inbound key of that sender and generation only |
| GroupKeys.KeyStore.DecryptGroupMessage | lib/crypto/group-sender-keys.ts:222-241 | what decryption answers, on all paths |
| GroupKeys.DistributionReachesMembers | lib/crypto/group-sender-keys.ts:137-185 | each named member unwraps the chain key and generation with its own identity key, and no other key unwraps them |
| GroupKeys.KeysNeverRepeat | lib/crypto/group-sender-keys.ts:187-220 | over every run of distribute, rotate, encrypt and lost stores, no two messages share a message key |
| GroupKeys.GenerationAndIndexIncrease | lib/crypto/group-sender-keys.ts:187-220 | while the store is kept, (keyGeneration, messageIndex) strictly increases lexicographically |
| GroupKeys.LossRepeatsThePair | lib/crypto/group-sender-keys.ts:133-135 | after a lost store the pair repeats, from every state |
| GroupKeys.ReadsIff | lib/crypto/group-sender-keys.ts:230-240 | a member reads a message if and only if the inbound key it stores is the sender's chain key at that index |
| GroupKeys.ReadsIffOfferedAtThatIndex | lib/crypto/group-sender-keys.ts:230-250 | over runs: if and only if what it stores was distributed at that very index of that chain |
| GroupKeys.ReadsOneMessageAGeneration | lib/crypto/group-sender-keys.ts:230-233 | at any moment at most one message of a generation is readable to a member |
| GroupKeys.DistributeThenEncryptDelivers | app/chat/MessageComposer.tsx:111-117 | from every state, distributing, letting members store and then encrypting is read by every one of them |
| GroupKeys.ReadUntilOverwritten | lib/crypto/group-sender-keys.ts:243-250 | nothing but storing another key of that generation takes it away |
| GroupKeys.EmittedIsDropped | app/chat/MessageComposer.tsx:59-74 | the emitted payload is never stored; the same payload completed with sender, public key and the member's own wrapped key always is |
| Pagination.GetMessageHistoryExtended | lib/messaging-service.ts:84-121 | no access and no target are errors, nothing else is; the page, of at most min(limit, 100) messages, and its cursor |
| Pagination.BuildPage | lib/messaging-service.ts:117-119 | the cursor is read after the in-place reversal: the oldest message shown |
| Pagination.ReverseInPlace | lib/messaging-service.ts:119 | the array ends reversed |
| Pagination.PageIsExact | lib/messaging-service.ts:109-119 | the page behind a row is the newest min(limit, 100) messages after it, oldest first, with the oldest as cursor exactly if there are more |
| Pagination.OnlyOwnMessages | lib/messaging-service.ts:93-107 | nobody is shown a message without access, nor one deleted, or of another group or pair of people |
| Pagination.LoadedIff | lib/messaging-service.ts:97-119 | and a walk to the end loads exactly the others, when the ends of pages do not tie |
| Pagination.DirectHistoryIsShared | lib/messaging-service.ts:101-104 | both ends of a direct conversation ask for the same messages |
| Pagination.ExpiryFiltersGroupsOnly | lib/messaging-service.ts:97-104 | an expired message leaves group history and stays in direct history |
| Pagination.PagesPartitionTheConversation | lib/messaging-service.ts:96-119 | with distinct timestamps and a limit of at least 1, the pages, each put in front, are exactly the matching messages, each once, oldest first, whatever order the database uses |
| Pagination.PagesPartitionIff | lib/messaging-service.ts:96-119 | for every limit of at least 1, every full walk loads each matching message exactly once if and only if each message that ends a page before the last shares its timestamp with no other |
| Pagination.WalkEnds | lib/messaging-service.ts:117-119 | the cursor is null on page max(1, ⌈n / size⌉) and not before |
| Pagination.LimitZeroLoadsNothing | lib/messaging-service.ts:96-119 | a limit of 0 shows nothing and ends |
| Pagination.TieSkipsAMessage | lib/messaging-service.ts:109-115 | wherever the order ties across the end of a page there is a full walk that never loads the message behind it |
| Pagination.TieRepeatsAMessage | lib/messaging-service.ts:109-119 | wherever a message that ends a page, with another page behind, ties with the one before it there is a full walk that loads a message twice |
| ConversationId.CanonicalIsSymmetric | lib/conversation-id.ts:5-11 | the canonical id does not depend on the order of the two ids |
| ConversationId.OneIdForADirectConversation | lib/conversation-id.ts:13-33 | every spelling from either end gives one id; the bare pair if and only if its first half is not "dm" |
| ConversationId.IdDeterminesThePair | lib/conversation-id.ts:5-11 | different pairs never share an id |
| ConversationId.ParseInverts | lib/conversation-id.ts:35-42 | either participant gets the other from the id, anybody else gets nobody |
| ConversationId.NormalizeIsIdempotent | lib/conversation-id.ts:13-33 | normalising twice is normalising once, for every text |
| ConversationId.IdempotentIff | lib/conversation-id.ts:28-30 | this holds for all texts if and only if no user id is given or it has no colon |
| ConversationAccess.DirectAccess | lib/conversation-access.ts:40-79 | the full answer for every spelling of a direct conversation |
| ConversationAccess.DirectIff | lib/conversation-access.ts:40-79 | for every text sent, the answer is a direct conversation with p if and only if p exists and is not banned and the text is the id of the user and p, or p itself |
| ConversationAccess.GroupIff | lib/conversation-access.ts:44-65 | for every text sent, the answer is a group if and only if the text names it and the user is a member |
| ConversationAccess.FirstTargetCounts | lib/conversation-access.ts:21-26 | the group named counts first, then the conversation, then the recipient; with none there is no access |
| ConversationAccess.ActionIff | lib/conversation-access.ts:28-38 | an action is allowed exactly with access, unless it writes to a group one is muted in |
| ConversationAccess.OnlyParticipantsEnter | lib/conversation-access.ts:67-93 | access to x and y's conversation exactly for x or y, when the other exists and is not banned |
| ConversationAccess.RecipientAccess | lib/conversation-access.ts:21-26 | naming a UUID recipient is allowed exactly if that person exists and is not banned |
| ConversationAccess.GroupAccess | lib/conversation-access.ts:44-65 | a group id reaches the group's members if and only if it does not look like a UUID |
| ConversationAccess.GroupActions | lib/conversation-access.ts:28-38 | a muted member may read and join, not send or attach; non-members nothing |
| ConversationAccess.UuidGroupRefusesItsMembers | lib/conversation-access.ts:44-77 | with a UUID id every action of every member is refused |
| ConversationCache.InvalidateConversationCaches | lib/messaging-service.ts:62-66 | which prefixes are deleted from the memory layer |
| ConversationCache.KeyIsShared | lib/messaging-service.ts:45-49 | both sides file a direct conversation under one key |
| ConversationCache.DirectInvalidationIsExact | lib/messaging-service.ts:62-66 | from either end, exactly both ends' pages of that conversation go, at every cursor |
| ConversationCache.GroupInvalidationReachesOnlyTheActor | lib/messaging-service.ts:62-64 | for a group, exactly the acting member's pages go |

## Left out

- Everything that runs inside WebCrypto, Node's crypto, argon2, IndexedDB, Prisma, Redis, BullMQ and the socket server; React components, pages, logging, metrics, mail, storage and health checks.
- The ratchet's skipped-message keys and a responder's first reply, which the code does not have; header numbers that are not integers; the legacy message encryption of `lib/crypto.ts`.
- Two calls of `ratchetEncrypt` or `ratchetDecrypt` on one session that overlap between reading and writing the stored state: each call is one step here.
- Limits of JavaScript numbers: counters and times are unbounded integers; the concurrency of the queue, the cache size and the allowances are whole numbers.
- `RateLimit`, `RedisLimiter`: window defaults and presets read from the environment; a caller's clock that differs from Redis's.
- The SCAN cursor loop of `lib/cache/redis-cache.ts` `delByPrefix`: in `TieredCache` its deletions are single steps in any order.
- `PreKeys`: the non-reserving fallback `getRuntimePublicBundle`; the choice of the recipient's device; revoking a device; rows CONSUMED without a date; and two transactions that see each other half done.
- `TaskQueue`: task results, and listeners that call back into the queue.
- Reading the token out of the cookie header, cookie options, the byte-copying loops of `lib/session-edge.ts`, and what the base64 decoders do outside the URL alphabet.
- `Revocation`: the validation of forms (password policy, user-name uniqueness) before an action, and audit rows. The toggle of a ban reads and writes in one step.
- `Lockout`: the per-address attempt limit and captcha in front of the account check; login attempts that overlap between reading and updating the row.
- `GroupKeys`: colons in group or user ids, which would let two store keys coincide; the sender key and key-pair fields that are carried but never used.
- `Pagination`: negative limits; a page served from the cache (whose key lacks the limit); a clock or table that moves between pages; cursors that name no row of the result.
- `ConversationId`: `localeCompare` is any total order, so strings that compare equal without being equal are not covered.
- A monotone delivery status, because the code does not keep one; the validators that look a value up in a fixed list (message lifetimes, locales, upload types).
