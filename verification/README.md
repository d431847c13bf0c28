# Cogniplane: a verified model of its stateful core

This project models the parts of Cogniplane in which state, interleaving and
arithmetic carry the promises of the product, and proves those promises for
every input and every run. It verifies with Dafny 4.11:

    dafny verify dfyconfig.toml

| file | models |
|---|---|
| `refresh_store.dfy`, `refresh_protocol.dfy`, `refresh_theorems.dfy`, `auth_session.dfy` | refresh-token rotation: three Lua scripts over expiring Redis keys, any number of interleaving handlers, the `/auth/refresh` and `/auth/logout` handlers |
| `nonce_store.dfy`, `proxy_signature.dfy` | signed proxy requests and the replay-safe nonce store |
| `pg_client.dfy`, `tenant_pool.dfy`, `like_pattern.dfy` | tenant-scoped transactions over a shared connection pool, and LIKE escaping |
| `reconnect.dfy`, `turn_stream.dfy` | the connect stream: saved history, captured turn, live events |
| `csp_sources.dfy`, `csp_policy.dfy` | widget content security policy sources: grammar, covering, intersection |
| `ip_address.dfy`, `ipv6.dfy`, `ipv6_grammar.dfy`, `host_guard.dfy` | IP literals: text, groups, the standard's grammar, private and reserved ranges |
| `base32.dfy`, `totp.dfy`, `recovery_codes.dfy`, `uuid.dfy` | base32 in 32-bit arithmetic, one-time codes, recovery codes, UUIDv7 |
| `async_queue.dfy`, `migrations.dfy`, `tenant_roles.dfy` | the async queue, migration runs, role changes and removals under the membership lock |
| `text.dfy`, `numerals.dfy`, `wrappers.dfy` | strings, numbers, `Option` and `Result` |

## How it is modelled

A function is the specification of an operation. Where the source changes
things step by step, a method or a class does the same steps and is proved to
compute that function; the theorems are about the function and about runs of a
state machine whose steps use it. In a machine each script, statement or
synchronous block is one step, and steps of different callers interleave freely.

Hypotheses are part of the statements, not of the reading:

- **Refresh.** A Redis call that throws had no effect. A handler issues less
  than one family TTL after its claim. For the absolute lifetime only: no issue
  finds the login-at key of its family expired. `RestoreAfterIssueDoublesTheFamily`,
  `LateIssueRun` and `StraddleWitness` show that each one is needed.
- **Proxy signature.** HMAC, SHA-256 and HKDF are uninterpreted functions. The
  theorems that conclude something about the signer assume that they are
  injective.
- **Nonce store.** One retention value for the life of the store and durable
  state, as the contract in the source demands; clocks are arbitrary.
- **Tenant pool.** A statement can be refused, be lost on the way, lose its
  answer, or end the session. A session that ended rolled back.
- **Connect stream.** A turn logs `turn_started` before it writes to its row;
  `WriteBeforeStartedShowsTwice` shows that this is needed.
- **Roles.** Existing memberships change only in transactions that take the
  membership lock; a first login adds a member without it.

Findings, where the code does less than a reader may expect:

- Two bits of the 76-bit UUID tail are never written, so one same-millisecond
  step in 2^62 can sort backward (`TextIncreasesExactly`, `LostOrderSortsBackward`).
- Returning from `withTenantScope` does not mean that anything was committed
  (`ReturnedIsNotCommitted`). It does exactly when the server refused no
  statement of the callback (`AllOrNothing`).
- A comment at apps/backend/src/lib/db.ts:22-24 says that after a lax release
  the next borrower's queries run under the previous tenant. A next
  `withTenantScope` sets its own tenant again (`ScopedCallsKeepTheirTenant`); the leak concerns a next
  `withTransaction` or a plain query, and the writes that should have been
  rolled back (`LaxReleaseCrossesTenants`).
- The duplicate check for migration versions compares digits as text, so `5_`
  and `005_` pass together (`PaddingEscapesTheCheck`). Accepted files have
  distinct numbers exactly when no two prefixes differ in leading zeros only
  (`AcceptedVersionsDistinctExactly`).
- The IPv6 parser alone reads three kinds of text that RFC 4291 does not have
  (`ExpandMeetsRfc`); the platform's test for an IP literal stands before it.
- A TOTP clock in the first 30 seconds of 1970 asks for step -1, which the
  counter buffer refuses (`Totp.Match`).
- A comment at apps/backend/src/lib/url-validation.ts:24-29 says that the resolver
  reads any part that starts with `0x` as a number. The text tests catch such a
  part with a hexadecimal letter only when the first part has the prefix:
  `1.2.3.0xfe` is not refused (`LaterHexPartPasses`; the exact condition is
  `DottedNumbersRefusedExactly`). The lookup hook of that file, which is not part
  of this model, judges the address that such a name resolves to.

## Model

| member | source | states |
|---|---|---|
| RefreshTheorems.AtMostOneCredential | apps/backend/src/routes/auth-session.ts:314-440 | In every reachable state of every interleaving, the live jtis of a family plus the handlers that hold a consumed jti of it number at most one. |
| RefreshTheorems.TokensFormOneChain | apps/backend/src/routes/auth-session.ts:372-399 | Each jti has at most one successor; it stands next to it in its family's chain and carries the same sign-in facts as the login. |
| RefreshTheorems.AnswersAgree | apps/backend/src/services/auth/refresh-token-rotation-service.ts:48-54 | All handlers that presented one jti and answered 200 answered with the same successor: the winner, a concurrent caller that found the cached result, and one that waited for it. |
| RefreshTheorems.MarkerNamesSuccessor | apps/backend/src/services/auth/refresh-token-rotation-service.ts:51-53 | In every reachable state a finished marker, read by a claim or by a poll, names the successor that the rotation of that jti issued. |
| RefreshTheorems.ReplayDetected | apps/backend/src/lib/refresh-token-store.ts:89-95 | A replaced jti, presented when its marker is gone and its family is active and young enough, is reported as a replay of its own family and changes nothing. |
| RefreshTheorems.ReplayDetectedAfterGrace | apps/backend/src/lib/refresh-token-store.ts:79-95 | However its rotation ended, a replaced jti that is presented one grace period later in an active young family is a replay: no marker outlives the grace period. |
| RefreshTheorems.ClaimAnswersExactly | apps/backend/src/lib/refresh-token-store.ts:61-97 | In every reachable state each of the six replies holds if and only if its keys are so: a stored jti of an active young family is claimed; a replay is reported only without a stored jti and without a marker; a marker is reported as it is; not found means that family, jti and marker are gone; only a claim and an expiry change the store. |
| RefreshTheorems.SecondClaimWaits | apps/backend/src/lib/refresh-token-store.ts:79-92 | After a successful claim, until the grace period ends, a second claim of that jti in the active young family leaves the store unchanged and sends its handler to wait. |
| RefreshTheorems.WaiterIsServed | apps/backend/src/lib/refresh-token-store.ts:277-293 | A waiting handler answers with the successor exactly when it reads a finished marker, goes on waiting exactly while the marker is pending, and refuses when it gives up. |
| RefreshTheorems.LateCallerIsServed | apps/backend/src/services/auth/refresh-token-rotation-service.ts:48-54 | A handler that claims after the rotation finished answers with the same successor at once and changes nothing. |
| RefreshTheorems.FinishedRotationServesWaiters | apps/backend/src/lib/refresh-token-store.ts:265-293 | Once a rotation is completed, every handler that waits for its jti answers with the successor at its next poll within the grace period. |
| RefreshTheorems.ReplayIsActedOn | apps/backend/src/routes/auth-session.ts:332-355 | A handler whose claim found a replay revokes the family of the token and then refuses. |
| RefreshTheorems.FailedRotationIsUndone | apps/backend/src/routes/auth-session.ts:396-420 | A handler that fails between claim and issue leaves the store exactly as its claim found it, while the family is active. |
| RefreshTheorems.IssueExactly | apps/backend/src/lib/refresh-token-store.ts:47-59 | An issue stores the new jti and extends its family's chain by it, for one TTL, unless the family is revoked: then nothing changes and the handler can still restore. |
| RefreshTheorems.RevocationIsFinal | apps/backend/src/lib/refresh-token-store.ts:300-305 | After a family is revoked no later claim of any of its tokens succeeds and no token joins it, also after the revoked marker expired. |
| RefreshTheorems.LateIssueReopens | apps/backend/src/lib/refresh-token-store.ts:47-59 | On any store: one TTL after a revocation the issue script makes the family active again; one millisecond earlier it refuses. |
| RefreshTheorems.LateIssueRun | apps/backend/src/lib/refresh-token-store.ts:47-59 | The issue deadline is needed: a run from a login on in which the family is revoked, one TTL passes, the handler issues, and a token of the revoked family can be claimed. |
| RefreshTheorems.ClaimRestoreIdentity | apps/backend/src/lib/refresh-token-store.ts:99-132 | A successful claim followed by a restore while the family key lives gives back exactly the store before the claim, expiry of the jti included. |
| RefreshTheorems.RestoreDeclinesExactly | apps/backend/src/lib/refresh-token-store.ts:107-128 | For a handler between claim and issue, the restore succeeds if and only if its family is active. |
| RefreshTheorems.RestoresNeverExtend | apps/backend/src/lib/refresh-token-store.ts:112-115 | Over any run, with any number of claims and restores, a stored jti expires exactly when it was issued to expire. |
| RefreshTheorems.TokensImmutable | apps/backend/src/routes/auth-session.ts:372-394 | A signed token never changes in a run: family, facts, predecessor and expiry. |
| RefreshTheorems.RestoreAfterIssueDoublesTheFamily | apps/backend/src/routes/auth-session.ts:401-403 | The failed-call hypothesis is needed: a restore after an issue that took effect leaves two live jtis in the family. |
| RefreshTheorems.AbsoluteLifetime | apps/backend/src/lib/refresh-token-store.ts:68-77 | However many rotations happen, no claim succeeds once the absolute lifetime has passed since the login, on the callers' clock or on the server's, if no issue finds the login-at key expired. |
| RefreshTheorems.StraddleWitness | apps/backend/src/lib/refresh-token-store.ts:53-55 | That hypothesis is needed: with the deployed constants a run whose last claim and issue straddle day 30 lets a token be claimed past day 30. |
| RefreshTheorems.StraddlingIssueRenews | apps/backend/src/lib/refresh-token-store.ts:53-55 | It is exactly what is needed: the first issue of any run that finds the login-at key expired is past the lifetime, and its token can then be claimed for one more lifetime, within its own TTL. |
| RefreshTheorems.RevokedStep | apps/backend/src/routes/auth-session.ts:314-440 | No step of the machine lifts a revocation or adds to the chain of a revoked family. |
| RefreshProtocol.InvStep | apps/backend/src/routes/auth-session.ts:314-440 | Every step of every handler, waiting ones included, and every login, logout or clock step keeps the invariant that ties keys, tokens, chains and phases together. |
| RefreshProtocol.PolledHandlerOk | apps/backend/src/lib/refresh-token-store.ts:277-293 | Whatever marker a waiting handler reads, it answers only with the real successor of the jti it presented. |
| RefreshProtocol.InvRun | apps/backend/src/routes/auth-session.ts:314-440 | The invariant holds after every run. |
| RefreshProtocol.ClaimMakesHolder | apps/backend/src/lib/refresh-token-store.ts:79-91 | A successful claim found the jti stored as its family's newest token and makes its handler the one holder; a finished marker names the real successor. |
| RefreshProtocol.NoOtherJtiOfFamily | apps/backend/src/lib/refresh-token-store.ts:47-97 | While the newest jti of a family is consumed, no jti of that family is stored. |
| RefreshStore.KeysDisjoint | apps/backend/src/lib/refresh-token-store.ts:22-36 | The four key names are injective and never collide, so four maps model one Redis key space. |
| RefreshStore.RefreshRedis.Issue | apps/backend/src/lib/refresh-token-store.ts:47-59 | Command by command, the issue script computes the specified new store and reply: nothing changes for a revoked family, the login-at key is written only when it is gone. |
| RefreshStore.RefreshRedis.Claim | apps/backend/src/lib/refresh-token-store.ts:61-97 | Command by command, the claim script computes the specified new store and one of its six replies; `ClaimAnswersExactly` says when each reply is given. |
| RefreshStore.RefreshRedis.Restore | apps/backend/src/lib/refresh-token-store.ts:116-132 | Command by command, the restore script computes the specified new store and reply. |
| RefreshStore.ForeignJtiIsReplay | apps/backend/src/lib/refresh-token-store.ts:79-86 | A jti stored for another family than the token names is consumed and reported as a replay of the stored family. |
| RefreshStore.CompletedRotationAnswers | apps/backend/src/lib/refresh-token-store.ts:265-275 | While the grace period lasts, a completed rotation answers a claim of the consumed jti with its successor instead of a replay, and declines a restore. |
| RefreshStore.RevokedFamilyAnswers | apps/backend/src/lib/refresh-token-store.ts:300-305 | Until its TTL ends a revoked family answers every claim with revoked, refuses every issue and restore, and nothing changes; revoking again is idempotent. |
| RefreshStore.RestoreUndoesClaim | apps/backend/src/lib/refresh-token-store.ts:99-132 | Restoring at any later time with the family active undoes a claim exactly, when jti and family key expire together. |
| AuthSession.WaitForRotation | apps/backend/src/lib/refresh-token-store.ts:277-293 | The result is that of the first marker that is not pending: its successor if it is finished, none if it is gone; none when the polls end. |
| AuthSession.Refresh | apps/backend/src/routes/auth-session.ts:259-441 | A missing cookie gives 401 and the membership decides before the claim. Without a fault: a replayed jti of an active young family gives 401 and the family is revoked; a revoked, expired or too old family gives 401, and one that is too old is revoked; a finished marker gives 200 with its successor, a pending one the first finished poll; 503 happens only while a pending marker is stored and no poll finished; a live jti rotates, and the store changes by its claim, issue and marker only. With faults a 503 leaves the store as it was unless the compensation itself failed. After a 401 or 403 the family is not active and the jti cannot be claimed. |
| AuthSession.Logout | apps/backend/src/routes/auth-session.ts:443-475 | The cookie is cleared unless the token names a family whose revocation failed; when it names one, the family is revoked. |
| AuthSession.ReachableIsConsistent | apps/backend/src/routes/auth-session.ts:314-440 | What the handler assumes of the store about a signed token holds in every reachable state. |
| NonceStore.Store.Admit | apps/backend/src/lib/mcp-proxy-signature.ts:275-280 | The five steps, assignment by assignment, compute the specified verdict and new state. |
| NonceStore.AlwaysFaithful | apps/backend/src/lib/mcp-proxy-signature.ts:275-283 | After any run the mark is the latest clock seen, every entry was accepted, and every accepted nonce not passed by the mark is recorded. |
| NonceStore.AcceptedExactly | apps/backend/src/lib/mcp-proxy-signature.ts:275-286 | For any clocks: a request is accepted if and only if its `until` is not passed by the latest clock and no accepted request with its nonce is still to be kept. |
| NonceStore.StaleExactly | apps/backend/src/lib/mcp-proxy-signature.ts:275-280 | A request is stale if and only if the latest clock passed its `until`, and a replay if and only if it is not stale and an accepted request with its nonce is still to be kept. |
| NonceStore.NeverAcceptedTwice | apps/backend/src/lib/mcp-proxy-signature.ts:282-284 | For any clocks, forward or backward, no (nonce, timestamp) is accepted twice. |
| NonceStore.FreshRequestAccepted | apps/backend/src/lib/mcp-proxy-signature.ts:271-279 | A request inside its verifier's window, from a caller whose clock is not behind the mark, with a nonce never accepted before, is accepted. |
| NonceStore.KeptEntriesBounded | apps/backend/src/lib/mcp-proxy-signature.ts:275-280 | After an accepting operation every kept entry lies between the mark and the mark plus skew plus retention. |
| NonceStore.RaisedRetentionReplays | apps/backend/src/lib/mcp-proxy-signature.ts:289-292 | A larger retention later in the life of the store accepts a deleted nonce again. |
| ProxySignature.EitherSpellingIsRead | apps/backend/src/lib/mcp-proxy-signature.ts:234-242 | Headers under their exact names, whatever the lower-case ones say, or all under their lower-case names, are read back in full; of a repeated header the first value counts. |
| ProxySignature.CanonicalInjective | apps/backend/src/lib/mcp-proxy-signature.ts:134-146 | Newline-free parts with one canonical string are equal in all eight fields. |
| ProxySignature.KeyInfoInjective | apps/backend/src/lib/mcp-proxy-signature.ts:80-95 | Two (tenant, server) scopes never share the info that their key is derived from. |
| ProxySignature.ClockTextParses | apps/backend/src/lib/mcp-proxy-signature.ts:349-354 | The signer's clock text, for any safe integer, is a timestamp that the verifier reads back. |
| ProxySignature.VerifyAcceptsSigned | apps/backend/src/lib/mcp-proxy-signature.ts:156-184 | What was signed for a server is accepted by that server for any clock in the window, with exactly the signed fields. |
| ProxySignature.AcceptedParts | apps/backend/src/lib/mcp-proxy-signature.ts:307-386 | An acceptance means that all headers are present and newline-free, the server is right, the timestamp is in the window, and hash and HMAC match. |
| ProxySignature.AcceptsExactly | apps/backend/src/lib/mcp-proxy-signature.ts:307-386 | A request is accepted if and only if all ten headers are there, the fields have no newline, version and server are right, the timestamp is readable and in the window, and hash and HMAC match; options that are out of range are an error. |
| ProxySignature.RejectionIsTrue | apps/backend/src/lib/mcp-proxy-signature.ts:327-371 | Every rejection names something that is wrong with the request, so a request with one fault is refused for that one. |
| ProxySignature.SignFailsExactly | apps/backend/src/lib/mcp-proxy-signature.ts:156-172 | Signing fails exactly when a field holds a newline. |
| ProxySignature.TimestampForms | apps/backend/src/lib/mcp-proxy-signature.ts:349-354 | A sign or a seventeenth digit makes a timestamp unreadable; leading zeros do not. |
| ProxySignature.SignedTexts | apps/backend/src/lib/mcp-proxy-signature.ts:134-146 | The signed text is the version and the eight fields, line by line, and a key is derived from prefix, tenant and server. |
| ProxySignature.AcceptanceForcesSigned | apps/backend/src/lib/mcp-proxy-signature.ts:307-386 | With an injective HMAC and hash, accepting a signature made by the signer forces every field, the body and the key to be the signed ones. |
| ProxySignature.OtherServersReject | apps/backend/src/lib/mcp-proxy-signature.ts:76-95 | With an injective key derivation too, no other (tenant, server) key accepts that signature. |
| ProxySignature.SignedRequestAdmittedOnce | apps/backend/src/lib/mcp-proxy-signature.ts:265-286 | Verifier and nonce store together admit one signed request at most once, whatever the verifiers' options, clocks and delays. |
| PgClient.Client.RollbackQuietly | apps/backend/src/lib/db.ts:28-36 | No reported failure means that the session has no transaction, tenant or pending write; a failure means that the session ended or the ROLLBACK was not answered. |
| PgClient.Client.RunCallback | apps/backend/src/lib/db.ts:148 | Inside the transaction a callback makes nothing durable and runs every statement under the tenant that was set; without faults all its writes are pending. |
| PgClient.Client.WithTenantScope | apps/backend/src/lib/db.ts:134-157 | A client that is not destroyed carries no transaction and no tenant, and one is destroyed only when its session ended or its ROLLBACK failed; every callback statement ran under the given tenant; a throwing callback commits nothing; a call that returns made durable exactly the writes that ran, or nothing if the server refused one of its statements; without faults all writes become durable. |
| PgClient.Client.WithTransaction | apps/backend/src/lib/db.ts:38-57 | The same without a tenant. |
| TenantPool.InvStep | apps/backend/src/lib/db.ts:134-157 | Every step of any borrower, with any statement failing in any of five ways, keeps the pool invariant. |
| TenantPool.InvRun | apps/backend/src/lib/db.ts:134-157 | The pool invariant holds after every run. |
| TenantPool.PoolIsClean | apps/backend/src/lib/db.ts:139-155 | In every reachable state idle connections carry no transaction, tenant or pending write, and no connection has two borrowers. |
| TenantPool.StatementsRunUnderTheirTenant | apps/backend/src/lib/db.ts:134-157 | Every statement that ran for a callback ran under exactly that call's tenant. |
| TenantPool.AllOrNothing | apps/backend/src/lib/db.ts:145-153 | A call makes all of its writes durable or none, and none before its COMMIT; a call that returned made them durable if and only if the server refused no statement of its callback. |
| TenantPool.ReleaseExactly | apps/backend/src/lib/db.ts:50-56 | A released connection is clean and idle again, unless its ROLLBACK failed: then it is gone. |
| TenantPool.OnlyFailedRollbackDestroys | apps/backend/src/lib/db.ts:38-57 | Only a ROLLBACK that failed destroys a connection; every other failure leads to a ROLLBACK first, and no scoped callback starts before its tenant is set. |
| TenantPool.LaxReleaseCrossesTenants | apps/backend/src/lib/db.ts:18-26 | Releasing without the rollback error lets another call run under the first call's tenant and commit its rolled-back write. |
| TenantPool.ReturnedIsNotCommitted | apps/backend/src/lib/db.ts:146-150 | A call that swallows a refused statement returns although nothing was committed. |
| TenantPool.ScopedCallsKeepTheirTenant | apps/backend/src/lib/db.ts:144-148 | Even when clients with a failed rollback are released as they are, every statement of a tenant-scoped call runs under its own tenant. |
| LikePattern.EscapedPrefix | apps/backend/src/lib/db.ts:159-163 | Before any rest of a pattern, an escaped query consumes exactly the query. |
| LikePattern.EscapedMatchesItself | apps/backend/src/lib/db.ts:159-163 | An escaped query alone matches the query and nothing else. |
| LikePattern.ContainsPattern | apps/backend/src/lib/db.ts:159-163 | Between percent signs an escaped query matches exactly the strings that contain it. |
| LikePattern.UnescapedIsNotLiteral | apps/backend/src/lib/db.ts:159-163 | Without escaping, a query with a wildcard matches a string that does not contain it. |
| Reconnect.TurnStartedRowId | apps/backend/src/routes/session-turn-stream.ts:136-143 | The row of the first turn_started event, or none exactly when no event is one. |
| Reconnect.StartedRowFinds | apps/backend/src/routes/session-turn-stream.ts:136-143 | A found row is that of the first turn_started event; without one no event is turn_started. |
| Reconnect.WithoutKeeps | apps/backend/src/routes/sessions.ts:331-333 | Leaving out the turn's row removes that row and keeps every other in order. |
| Reconnect.DecideIsSafe | apps/backend/src/routes/sessions.ts:311-333 | Whatever was captured and read: an attached client is sent the earlier rows and at most the turn's empty row; with the row named, exactly the earlier rows. |
| Reconnect.InvStep | apps/backend/src/routes/sessions.ts:298-333 | Every step of the turn, its row, the bus or the handler keeps the invariant about capture, history and row. |
| Reconnect.InvRun | apps/backend/src/routes/sessions.ts:298-333 | The invariant holds after every interleaving. |
| Reconnect.ReplyShownOnce | apps/backend/src/routes/sessions.ts:298-353 | In every interleaving an attached client never gets the saved reply's text besides its replay, and the replay misses no event from the first on; a client that is not attached gets the history as it was read. |
| Reconnect.GivenUpOnlyWhenNeeded | apps/backend/src/routes/sessions.ts:321-329 | A captured turn is given up if and only if its queue overflowed, or its name has not reached the replay and the history shows text after the prompt. |
| Reconnect.CaptureExactly | apps/backend/src/routes/session-turn-stream.ts:97-134 | Capturing succeeds if and only if the local turn is open and its whole log is kept and fits, or the bus works and has dropped nothing that came before what it holds; then all of that is captured. |
| Reconnect.CatchUpExactly | apps/backend/src/routes/sessions.ts:310 | Catching up reads on to the end of the bus, or nothing when the bus has dropped some of what is missing. |
| Reconnect.LocalTurnIsReplayed | apps/backend/src/routes/session-turn-stream.ts:36-95 | A captured local turn stays attached, with every event that it logs from then on, as long as the log fits the cap. |
| Reconnect.HasReplyExactly | apps/backend/src/routes/sessions.ts:311-329 | The history shows a reply exactly when a row that is not empty stands behind the newest prompt. |
| Reconnect.WriteBeforeStartedShowsTwice | apps/backend/src/routes/sessions.ts:317-320 | The environment rule is needed: a turn that writes its row before turn_started is shown twice. |
| TurnStream.LocalTurnQueue.Open | apps/backend/src/routes/session-turn-stream.ts:39-51 | The queue starts with the whole replay, in order, unless its frames exceed the cap. |
| TurnStream.LocalTurnQueue.Push | apps/backend/src/routes/session-turn-stream.ts:69-81 | The byte counter stays the sum of the pending frame sizes, never above the cap; passing the cap drops everything and unsubscribes. |
| TurnStream.LocalTurnQueue.Deliver | apps/backend/src/routes/session-turn-stream.ts:41-46 | An event is appended, the end of the turn only closes, and nothing happens after an overflow. |
| TurnStream.LocalTurnQueue.Shift | apps/backend/src/routes/session-turn-stream.ts:58-62 | The oldest event is handed out and its frame size leaves the counter. |
| TurnStream.Pump | apps/backend/src/routes/session-turn-stream.ts:200-220 | Whatever happens the client gets events the log delivered, in its order and without a gap, and without an overflow every one; the stream ends exactly at the end of the turn or an overflow. |
| TurnStream.FreshIncreases | apps/backend/src/routes/session-turn-stream.ts:247-254 | For any batch at all, what is written goes strictly up and stops at the terminal event. |
| TurnStream.FreshOfNext | apps/backend/src/routes/session-turn-stream.ts:247-254 | A batch that continues the stream is written whole, up to the terminal event. |
| TurnStream.WriteBatch | apps/backend/src/routes/session-turn-stream.ts:247-255 | The loop over a batch writes its new entries, keeps the last number, and closes exactly at a terminal event. |
| TurnStream.NextBatch | apps/backend/src/routes/session-turn-stream.ts:256-262 | The next batch is written if and only if a wait is left, the client is there, the bus answers without a gap, an empty answer comes with a live owner, and the requester may read. |
| TurnStream.StreamBatches | apps/backend/src/routes/session-turn-stream.ts:243-262 | The loop writes the specified stream: what the replay adds, and then what each answer adds, until a terminal event or a round that does not go on. |
| TurnStream.StreamRemote | apps/backend/src/routes/session-turn-stream.ts:227-270 | What is written is the first batch and then, as long as each round goes on, what each answer adds: numbers strictly increase and nothing follows a terminal event; with a bus that serves the log, the client gets a gap-free prefix of the turn, and while nothing stops the stream, up to the terminal event or the last event any wait served. |
| TurnStream.RoundExactly | apps/backend/src/routes/session-turn-stream.ts:244-262 | One more round is streamed if and only if nothing terminal was written, the client is there and may read, the bus answers without a gap, and the answer brings something or the owner lives. |
| TurnStream.NothingAfterTheEnd | apps/backend/src/routes/session-turn-stream.ts:244-262 | The rounds from the first one on that withdraws access, loses the client or the owner, or has a gap, do not change what is written. |
| TurnStream.EveryEntryWasServed | apps/backend/src/routes/session-turn-stream.ts:244-262 | Every written entry came in the captured replay or in an answer up to which the client was there and could read. |
| TurnStream.Continues | apps/backend/src/routes/session-turn-stream.ts:257 | A gap-free batch extends a prefix of the log to a longer prefix. |
| Base32.EncodeBytes | apps/backend/src/lib/totp.ts:14-28 | The loop, in wrapping 32-bit arithmetic with an accumulator that is never masked, writes the bits of the bytes five at a time. |
| Base32.DecodeText | apps/backend/src/lib/totp.ts:30-46 | The loop, in the same arithmetic, reads back the bits eight at a time, or reports the first character outside the alphabet. |
| Base32.EncodedLength | apps/backend/src/lib/totp.ts:14-28 | The length is the ceiling of 8n/5, as in section 6 of RFC 4648 without padding. |
| Base32.EncodedAlphabet | apps/backend/src/lib/totp.ts:12-28 | Every character is in the alphabet. |
| Base32.DecodeUndoesEncode | apps/backend/src/lib/totp.ts:14-46 | Decoding undoes encoding for every byte string. |
| Base32.RefusedExactly | apps/backend/src/lib/totp.ts:30-46 | A text is refused if and only if it holds a character that is neither ignored nor, in upper case, in the alphabet. |
| Base32.SpellingDoesNotCount | apps/backend/src/lib/totp.ts:31 | Blanks, dashes and padding may stand anywhere, and a letter may be small. |
| Base32.DecodedBits | apps/backend/src/lib/totp.ts:32-45 | What is read are the bits of the characters, all but the at most seven that complete no byte. |
| Base32.EncodeUndoesDecode | apps/backend/src/lib/totp.ts:14-46 | A clean text of whole groups of eight characters is the encoding of what it decodes to. |
| RecoveryCodes.NormalizeUndoesFormat | apps/backend/src/lib/recovery-codes.ts:16-23 | Normalizing a formatted code gives back the raw characters. |
| RecoveryCodes.GeneratedCode | apps/backend/src/lib/recovery-codes.ts:36-41 | A generated code has the accepted shape, stands for its ten random bytes, and hashes to the stored hash with or without its dashes. |
| RecoveryCodes.HashesAgreeExactly | apps/backend/src/lib/recovery-codes.ts:29-41 | Two inputs have one hash if and only if their normal forms are equal, and two generated codes if and only if their random bytes are equal, when the HMAC is injective. |
| RecoveryCodes.ShapeExactly | apps/backend/src/lib/recovery-codes.ts:25-27 | An input has the shape of a code if and only if it is, up to blanks, dashes and case, the code of ten bytes. |
| RecoveryCodes.TypingDoesNotCount | apps/backend/src/lib/recovery-codes.ts:21-23 | Blanks, dashes and case do not change the form that is hashed. |
| RecoveryCodes.FormatExactly | apps/backend/src/lib/recovery-codes.ts:16-18 | A code is shown as four groups of four with dashes between. |
| Totp.Truncate | apps/backend/src/lib/totp.ts:62-64 | The truncated value fits 31 bits. |
| Totp.TruncateExactly | apps/backend/src/lib/totp.ts:62-65 | The truncated value is the low 31 bits of the four bytes, most significant first, at the offset that the last nibble names. |
| Totp.StandardExample | apps/backend/src/lib/totp.ts:62-65 | The example of section 5.4 of RFC 4226 gives its code. |
| Totp.StepExactly | apps/backend/src/lib/totp.ts:53-55 | Steps are periods of thirty seconds. |
| Totp.TypedCode | apps/backend/src/lib/totp.ts:74-75 | A code typed with a blank anywhere is still the candidate. |
| Totp.OtherCharactersFail | apps/backend/src/lib/totp.ts:74-75 | Any other character makes the candidate no code at all. |
| Totp.CodeShape | apps/backend/src/lib/totp.ts:58-66 | Every code is six digits that read back as the truncated value modulo a million. |
| Totp.Match | apps/backend/src/lib/totp.ts:73-85 | The result is the earliest step of the three-step window whose code is the candidate, or none exactly when no step matches; malformed candidates match nothing. |
| Uuid.Generator.Next | apps/backend/src/lib/uuid.ts:9-49 | The module state advances as specified for any clock, and the buffer written in place is the text of that state; from 2^48 milliseconds on it throws. |
| Uuid.Generator.WriteUIntBE | apps/backend/src/lib/uuid.ts:36-46 | Exactly the named bytes are written, most significant first. |
| Uuid.AlwaysIncreases | apps/backend/src/lib/uuid.ts:24-33 | For any clock the pair (ms, tail) strictly increases. |
| Uuid.LayoutValue | apps/backend/src/lib/uuid.ts:35-46 | The sixteen bytes as a number: all bits of ms, version 7, the top twelve tail bits, the variant and the low 62 tail bits; bits 62 and 63 are lost. |
| Uuid.TextOrder | apps/backend/src/lib/uuid.ts:48-49 | Texts sort exactly by the bits they carry, and equal texts carry equal bits. |
| Uuid.TextIncreasesExactly | apps/backend/src/lib/uuid.ts:9-49 | While ms fits, the text strictly increases from call to call if and only if the step is not a same-millisecond increment that wraps the low 62 bits without a carry into bit 64. |
| Uuid.KeyIncreasesExactly | apps/backend/src/lib/uuid.ts:24-46 | The written bits increase on exactly the same steps, and decrease on the others. |
| Uuid.LostOrderSortsBackward | apps/backend/src/lib/uuid.ts:40 | On such a step the next text really sorts before the last one. |
| Uuid.CountsWithinMillisecond | apps/backend/src/lib/uuid.ts:24-31 | While the millisecond stands still the tail counts the calls. |
| Uuid.TextsDistinct | apps/backend/src/lib/uuid.ts:9-49 | Among fewer than 2^62 calls no two texts are equal. |
| Uuid.NewMillisecondIsRandom | apps/backend/src/lib/uuid.ts:11-22 | On a new millisecond the tail is the number that the ten random bytes write in base 256, modulo 2^76. |
| Uuid.GeneratorsCollideExactly | apps/backend/src/lib/uuid.ts:34-49 | Two generators that start one millisecond give one text if and only if their random bytes agree on the 74 bits that are written. |
| Uuid.EqualTextsExactly | apps/backend/src/lib/uuid.ts:34-49 | Two texts of one millisecond are equal if and only if their tails agree on the written bits. |
| Uuid.CountsOnAsOneNumber | apps/backend/src/lib/uuid.ts:24-31 | While the clock does not pass the last millisecond, millisecond and tail count on as one number. |
| CspSources.ParseSound | packages/shared-types/src/csp-sources.ts:66-116 | An accepted text is a spelling of the source that is read: scheme, optional wildcard, valid public host, optional port, in a list that allows the scheme; at most 300 characters. |
| CspSources.ParseComplete | packages/shared-types/src/csp-sources.ts:66-116 | Every spelling of a valid source, in any case, with the default port written or not, is accepted and read as that source with its normal form. |
| CspSources.ParseExactly | packages/shared-types/src/csp-sources.ts:66-116 | For every text and source: the text is accepted and read as that source if and only if it is a spelling of it within the length limit and the list allows it. |
| CspSources.RefusalHasReason | packages/shared-types/src/csp-sources.ts:66-116 | Every refusal names something that is wrong with the value: its type, length, characters, scheme, user info, path, port, wildcard, host or reserved name. |
| CspSources.NormalFormIsRead | packages/shared-types/src/csp-sources.ts:69-115 | The length limit shuts out no valid source: each one is read back from its normal form. |
| CspSources.TwoLabelHost | packages/shared-types/src/csp-sources.ts:102-107 | Any two good labels, the last one neither a number nor a reserved name, make a valid host. |
| CspSources.ReservedNamesNeverPass | packages/shared-types/src/csp-sources.ts:49-52 | With the names in use an accepted source never has a number or a reserved name as its top label. |
| CspSources.HostErrorExactly | packages/shared-types/src/csp-sources.ts:100-112 | A host passes the chain of checks exactly when the grammar allows it. |
| CspSources.ParseHostExactly | packages/shared-types/src/csp-sources.ts:97-115 | The host part is read exactly when it spells a valid host, with the wildcard flag that was written. |
| CspSources.ParsePortExactly | packages/shared-types/src/csp-sources.ts:92-94 | A port text is accepted exactly when it is the decimal numeral of 1 to 65535. |
| CspSources.SplitAtPort | packages/shared-types/src/csp-sources.ts:85-95 | Host and port are separated at the only colon, and 443 becomes the default port. |
| CspSources.NormalFormIsFixed | packages/shared-types/src/csp-sources.ts:114-115 | The normal form of an accepted text is accepted in the same list and is its own normal form. |
| CspSources.NormalFormDecides | packages/shared-types/src/csp-sources.ts:114-115 | Two accepted texts with one normal form are the same source, whatever lists they came from. |
| CspPolicy.EndsWithIsProperLabelSuffix | packages/shared-types/src/csp-sources.ts:126 | A text ends with a dot and another text exactly when the labels of the second are a proper suffix of the labels of the first. |
| CspPolicy.CoversExactly | packages/shared-types/src/csp-sources.ts:119-127 | One source covers another if and only if it matches every (scheme, host labels, port) that the other matches. |
| CspPolicy.ApprovedSources | packages/shared-types/src/csp-sources.ts:167-172 | The loop reads the good approvals of one list, in order. |
| CspPolicy.AllowedSources | packages/shared-types/src/csp-sources.ts:173-180 | The loop keeps the covered good values, in order of first appearance. |
| CspPolicy.IntersectCspDeclarations | packages/shared-types/src/csp-sources.ts:159-184 | The loops compute the specified intersection, list by list. |
| CspPolicy.ParseCspDeclarations | packages/shared-types/src/csp-sources.ts:139-152 | The loops compute the good sources of every list, grouped by list. |
| CspPolicy.CollectExactly | packages/shared-types/src/csp-sources.ts:142-149 | A normal form is collected exactly when some value has it, never more of them than values. |
| CspPolicy.CollectDistinct | packages/shared-types/src/csp-sources.ts:142-149 | No normal form is collected twice. |
| CspPolicy.CollectGrows | packages/shared-types/src/csp-sources.ts:142-149 | Later values only add at the end, so the order is that of first appearance. |
| CspPolicy.FirstValuesCount | packages/shared-types/src/csp-sources.ts:129-134 | Only the first 25 values of a declared list count, and an absent list stays absent. |
| CspPolicy.ApprovableExactly | packages/shared-types/src/csp-sources.ts:135-152 | An administrator is offered exactly the normal forms of the good values that count, each under its list. |
| CspPolicy.ApprovableDistinct | packages/shared-types/src/csp-sources.ts:139-152 | Nothing is offered twice. |
| CspPolicy.AllowedExactly | packages/shared-types/src/csp-sources.ts:173-181 | The widget gets a source exactly when it declared it and one approval of that list includes all of its addresses. |
| CspPolicy.NeverMoreThanApproved | packages/shared-types/src/csp-sources.ts:154-158 | No address reaches the policy without an approval of the same list that matches it. |
| CspPolicy.IntersectionIsIdempotent | packages/shared-types/src/csp-sources.ts:159-184 | Limiting the result again by the same approvals changes nothing. |
| CspPolicy.IntersectionIsMonotone | packages/shared-types/src/csp-sources.ts:159-184 | More approvals allow no less, and which lists appear does not depend on the approvals. |
| CspPolicy.ApprovableSuffices | packages/shared-types/src/csp-sources.ts:135-138 | Approving everything that can be approved gives the widget every good source it declared, and nothing else. |
| IpAddress.OctetsMeetBlocks | apps/backend/src/lib/url-validation.ts:51-75 | The comparisons on octets are membership of the 32-bit address in fourteen address blocks. |
| IpAddress.PublicIpv4Exactly | apps/backend/src/lib/url-validation.ts:35-78 | A text passes if and only if it is the canonical dotted quad of an address outside every block; everything else is refused. |
| IpAddress.DottedVerdict | apps/backend/src/lib/url-validation.ts:35-78 | The verdict on a canonical quad is the block list on its address. |
| Ipv6.ParseGroups | apps/backend/src/lib/url-validation.ts:96-116 | The loop that pushes groups computes the groups of a segment, or null. |
| Ipv6.ExpandIpv6 | apps/backend/src/lib/url-validation.ts:86-131 | The parser, zone and zero run included, computes the specified expansion. |
| Ipv6.GroupsExactly | apps/backend/src/lib/url-validation.ts:98-115 | Parts between colons give exactly the groups they spell: one to four hexadecimal digits each, the last one possibly a dotted quad. |
| Ipv6.ExpandExactly | apps/backend/src/lib/url-validation.ts:86-131 | The parser returns eight groups if and only if the text spells them, in a grammar that is wider than the standard's; so a text spells at most one address. |
| Ipv6Grammar.ExpandMeetsRfc | apps/backend/src/lib/url-validation.ts:86-131 | A text spells eight groups in the grammar of section 2.2 of RFC 4291 if and only if the parser returns them and the text has no empty zero run, no dotted quad before the run, and no octet with a leading zero. |
| Ipv6Grammar.EmptyRunIsRead | apps/backend/src/lib/url-validation.ts:128-130 | The parser reads every text with all eight groups and `::` at any place, which the standard does not have. |
| Ipv6Grammar.QuadBeforeRunIsRead | apps/backend/src/lib/url-validation.ts:103-110 | It reads a dotted quad before the zero run, which the standard does not have. |
| Ipv6Grammar.PaddedQuadIsRead | apps/backend/src/lib/url-validation.ts:105-109 | It reads a dotted quad with a padded octet, which is no standard IPv4 text. |
| Ipv6Grammar.PaddedIsQuad | apps/backend/src/lib/url-validation.ts:105-109 | Such quads exist for every octet below 100, and the padded octet keeps its value. |
| Ipv6.ExpandUndoesPrint | apps/backend/src/lib/url-validation.ts:86-131 | Writing any eight 16-bit groups and expanding the text gives the groups back. |
| Ipv6.CaseAndZerosDoNotCount | apps/backend/src/lib/url-validation.ts:112-113 | Neither the case of a digit nor a leading zero changes the group that is read. |
| Ipv6.SpelledFits | apps/backend/src/lib/url-validation.ts:107-113 | Every group that a text spells fits 16 bits. |
| HostGuard.ColonIsNotNumeric | apps/backend/src/lib/url-validation.ts:143-149 | No text with a colon is caught by the tests for numeric host names, so they never decide for an IPv6 address. |
| HostGuard.OtherHostRefusedExactly | apps/backend/src/lib/url-validation.ts:133-242 | A host that the platform calls neither IPv4 nor IPv6 is refused if and only if its text is built from digits, dots and x only, or its dotted parts are hexadecimal and the first one has the prefix. |
| HostGuard.DottedNumbersRefusedExactly | apps/backend/src/lib/url-validation.ts:12-31 | Dotted parts that are decimal, octal or prefixed hexadecimal numbers are refused if and only if no part has a hexadecimal letter or the first part has the prefix. |
| HostGuard.WholeNumberRefused | apps/backend/src/lib/url-validation.ts:12-18 | A whole address written as one decimal number is refused. |
| HostGuard.OctalQuadRefused | apps/backend/src/lib/url-validation.ts:12-18 | A dotted quad of digits, with whatever leading zeros, is refused when the platform does not call it IPv4. |
| HostGuard.LaterHexPartPasses | apps/backend/src/lib/url-validation.ts:24-31 | A hexadecimal part with letters behind a decimal first part is not caught. |
| HostGuard.OrdinaryNamePasses | apps/backend/src/lib/url-validation.ts:20-31 | A name with a letter that no hexadecimal number has is not refused. |
| HostGuard.Ipv4HostExactly | apps/backend/src/lib/url-validation.ts:139-141 | What the platform calls IPv4 passes if and only if it is the canonical text of an address outside every block. |
| HostGuard.FormsOfAnAddress | apps/backend/src/lib/url-validation.ts:133-152 | An IPv6 text, bare, in brackets, with a zone, or with both, gets the verdict of its groups. |
| HostGuard.VerdictIsOfTheAddress | apps/backend/src/lib/url-validation.ts:133-157 | Any text of an IPv6 address, in brackets or with a zone, gets the verdict of its eight groups. |
| HostGuard.SameAddressSameVerdict | apps/backend/src/lib/url-validation.ts:133-241 | Two texts of one address get one verdict. |
| HostGuard.UnreadableIsBlocked | apps/backend/src/lib/url-validation.ts:151-154 | What the platform calls IPv6 but the parser cannot read is refused. |
| HostGuard.EmbeddedExactly | apps/backend/src/lib/url-validation.ts:165-171 | Classifying the quad written from two groups is the block list on their 32 bits. |
| HostGuard.BlockedExactly | apps/backend/src/lib/url-validation.ts:156-238 | An IPv6 address is refused if and only if it lies under one of five prefixes, or the IPv4 address that its form holds lies in an IPv4 block; only ISATAP yields to 6to4 and Teredo. |
| HostGuard.Ipv6HostBlockedExactly | apps/backend/src/lib/url-validation.ts:133-242 | The same for the whole guard, from the host text. |
| HostGuard.MappedLikeBare | apps/backend/src/lib/url-validation.ts:160-172 | An IPv4-mapped address is judged like the bare IPv4 address. |
| HostGuard.MappedTextSpells | apps/backend/src/lib/url-validation.ts:104-110 | The text `::ffff:a.b.c.d` spells the groups of the IPv4-mapped address. |
| HostGuard.MappedMetadataIsBlocked | apps/backend/src/lib/url-validation.ts:160-172 | The instance-metadata address written as an IPv4-mapped one is refused. |
| AsyncQueue.Queue.constructor | apps/backend/src/lib/async-queue.ts:10-18 | A new queue is valid and empty. |
| AsyncQueue.Queue.Push | apps/backend/src/lib/async-queue.ts:24-41 | Accepted exactly when the queue is open and somebody waits or there is room; the oldest waiting call gets the value, else it is buffered; the k-th call that got a value got the k-th accepted one. |
| AsyncQueue.Queue.End | apps/backend/src/lib/async-queue.ts:43-53 | Whoever waits is told the end; buffered values stay; nobody else's answer changes. |
| AsyncQueue.Queue.SetError | apps/backend/src/lib/async-queue.ts:64-75 | The first error before a close is kept and rejects exactly the waiting calls. |
| AsyncQueue.Queue.Next | apps/backend/src/lib/async-queue.ts:77-93 | One more call gets the error, the oldest value, the end, or a place in the line, in that order; buffer and waiters are never both in use. |
| Migrations.Client.ApplyMigrations | apps/backend/src/scripts/migrate-lib.ts:50-117 | The loop on one connection computes the specified run under every fate of each file's transaction, returns exactly the files it applied, and leaves no transaction open. |
| Migrations.MigrateKeepsOnceEach | apps/backend/src/scripts/migrate-lib.ts:73-106 | A run, however it ends, a lost answer to COMMIT included, keeps every file's SQL applied at most once and recorded. |
| Migrations.EachFileAtMostOnce | apps/backend/src/scripts/migrate-lib.ts:73-106 | Over any history of runs, with any files and any failing SQL, record or COMMIT, effective or not, a file's SQL takes effect at most once and nothing is taken back. |
| Migrations.FailureMeans | apps/backend/src/scripts/migrate-lib.ts:95-105 | A run that failed at a file had applied every pending file before it, and that file's SQL took effect exactly when its record did. |
| Migrations.ChangedMeans | apps/backend/src/scripts/migrate-lib.ts:85-91 | A run that reports a changed file had applied every pending file before it, changed nothing more, and left that file's record as it was. |
| Migrations.LostAnswerIsSkipped | apps/backend/src/scripts/migrate-lib.ts:81-93 | When COMMIT took effect but its answer was lost, the run fails and every later run skips the file. |
| Migrations.SucceedsExactly | apps/backend/src/scripts/migrate-lib.ts:73-111 | A run succeeds if and only if no recorded file changed and the transaction of every pending file succeeds. |
| Migrations.SuccessMeans | apps/backend/src/scripts/migrate-lib.ts:73-111 | A successful run applied the pending files in order, and every file is recorded with its checksum. |
| Migrations.RepeatIsNoOp | apps/backend/src/scripts/migrate-lib.ts:81-93 | A successful run repeated on the same files changes nothing and succeeds, whatever the server would do. |
| Migrations.ChangedFileStops | apps/backend/src/scripts/migrate-lib.ts:85-91 | A run that has an applied file with changed contents fails. |
| Migrations.AssertUniqueVersionPrefixes | apps/backend/src/scripts/migrate-lib.ts:18-32 | The loop reports a pair of files that share a digit prefix, and none exactly when no two do. |
| Migrations.VersionPrefixExactly | apps/backend/src/scripts/migrate-lib.ts:21 | A version prefix is the longest run of digits that the name starts with. |
| Migrations.SameNumberExactly | apps/backend/src/scripts/migrate-lib.ts:21-24 | Two digit texts write one number exactly when they differ in leading zeros only. |
| Migrations.AcceptedVersionsDistinctExactly | apps/backend/src/scripts/migrate-lib.ts:9-17 | The files of an accepted list have distinct version numbers if and only if no two of their prefixes differ in leading zeros only. |
| Migrations.EqualWidthsAreDistinct | apps/backend/src/scripts/migrate-lib.ts:9-17 | So they do whenever all prefixes have one width. |
| Migrations.PaddingEscapesTheCheck | apps/backend/src/scripts/migrate-lib.ts:21-24 | 5 and 005 are accepted together although they are one version. |
| TenantRoles.InvStep | apps/backend/src/routes/tenant.ts:437-500 | Every statement of every interleaved transaction keeps the invariant: only the holder of the membership lock runs, and what it read is still so. |
| TenantRoles.StepAuthorised | apps/backend/src/routes/tenant.ts:453-483 | A step that changes a member's role or removes the member is the commit of one request by another member, a manager with a current session at that moment, an owner when the old or new role is above member; owners are never changed; only an active local account becomes owner. |
| TenantRoles.OwnersStayAndChangesAreAuthorised | apps/backend/src/services/member-authority.ts:10-21 | In every interleaving the set of owners never shrinks and every change is authorised when it commits. |
| TenantRoles.DecideExactly | apps/backend/src/routes/tenant.ts:453-483 | A request is done if and only if the table permits it: an owner may do anything but touch an owner or promote an inactive account, an admin may keep or remove members; every refusal says what is so. |
| TenantRoles.CommitExactly | apps/backend/src/routes/tenant.ts:453-500 | A commit does what was asked, to that member only, if and only if the table permits it to the role that was read; otherwise it changes no membership. |
| TenantRoles.UndisturbedRequest | apps/backend/src/routes/tenant.ts:437-500 | A request that gets the lock and is not disturbed is carried out if and only if the table permits it to the role that its actor has with a current session. |
| TenantRoles.AdmittedExactly | apps/backend/src/routes/tenant.ts:404-431 | The route lets a request through to its transaction if and only if the sender is a manager, acts on somebody else, and is an owner when the role is above member. |
| TenantRoles.OwnerDemotes | apps/backend/src/routes/tenant.ts:453-483 | From the state in which an admin's removal has read its roles, the owner's demotion of that admin runs to its commit if nobody has to wait. |
| TenantRoles.AdminChecks | apps/backend/src/routes/tenant.ts:442-456 | From the arrival of both requests the admin's removal reaches that state. |
| TenantRoles.WithoutTheLockADemotedAdminFinishes | apps/backend/src/services/member-authority.ts:17-21 | The lock forbids that run; without it one run leads from the arrival of both requests through the demotion to a removal by a plain member. |

## Left out

- AuthSession.Refresh: one handler call at a time, with the values it polls as a list; its interleavings, waiting included, are those of `RefreshProtocol`, and `MarkerNamesSuccessor` says what a polled value can be. The browser-origin check, the rate limit, audit events and the kept reuse marker are not modelled.
- RefreshStore.RefreshRedis.Claim: markers carry the successor jti instead of a JSON pair of signed tokens; a malformed cached result is not modelled.
- RefreshProtocol.InvStep: a Redis call that throws after it took effect is excluded by hypothesis.
- ProxySignature.VerifyAcceptsSigned: real cryptography and constant-time comparison are uninterpreted; clocks are integers, so a `now` that is not finite does not arise.
- PgClient.Client.WithTenantScope: the pool's queueing, timeouts and the row-level policies themselves; a statement is a write with an owner.
- Reconnect.ReplyShownOnce: one turn per session and connection; a row's text stands for its text, reasoning, tools and plan; paging of the history is not modelled.
- TurnStream.Pump: the heartbeat, the client's disconnect and the access check during a local stream, which only end it earlier.
- TurnStream.StreamRemote: keep-alive comments and exceptions of the bus, which only end the stream.
- Base32.DecodeText: upper-casing is that of ASCII letters; the few other characters whose JavaScript upper case is a base32 letter are refused here.
- RecoveryCodes.GeneratedCode: the same limit on upper-casing; the HMAC is an uninterpreted function.
- Totp.Match: HMAC-SHA1 is an uninterpreted function of twenty bytes; the constant-time comparison is equality; a clock before 1970 is not modelled.
- Uuid.Generator.Next: random bytes and the clock are inputs.
- CspSources.ParseComplete: the public suffix list is a predicate on a lower-case host.
- HostGuard.VerdictIsOfTheAddress: the platform's test for an IP literal is a function of the host; nothing is assumed about it.
- AsyncQueue.Queue.Next: a promise is its entry in a list of answers; the async-iterator wrapper is not modelled.
- Migrations.Client.ApplyMigrations: reading and sorting the directory, the advisory lock and timeouts, the post-migration hook; a failing read or checksum update outside a file's transaction.
- TenantRoles.StepAuthorised: step-up proof, link cancelling, MFA policy, job pausing, marking a removed local account and audit rows inside the same transactions; other manager actions on accounts.
- HTTP, cookies, SSE framing, logging and audit text: plumbing without state worth proving.
- DNS lookup, agents and URL schemas of `url-validation.ts`: calls into other code.
- The other routes, the sign-in ceremonies, configuration, the model catalogue and the frontend: they would add single-branch facts only.
