# Refresh-session lifecycle of http-rest-api, in Dafny

This project models the token-rotation core of the `http-rest-api` service.
A client device is identified by a user id and a fingerprint.
`/session-create` gives the device an access token (15 minutes) and a refresh token (24 hours).
The service keeps a session document holding the bcrypt hash of the refresh token.
`/session-refresh` exchanges a refresh token for a new pair and rotates the stored session.
`/session-delete` revokes one session.
`/delete-all-sessions` revokes every session of the user.
Refresh tokens travel in standard padded base 64; the access token is returned as the signed JWT string.

Module layout, following the Go packages:

- `Types`: Go strings as byte sequences, the error values, and the `Result`/`Outcome` wrappers for Go's error returns.
- `Primitives`: bcrypt and HS512 JWT as uninterpreted values (`Hasher`, `Jwt`), with only these stated properties:
  - bcrypt verifies `hash == digest(secret)`; `digest` is not assumed injective;
  - `SoundJwt`: a signed token parses back, exactly while its claims are valid, to those claims after the JSON round trip of the payload (`JsonClaims`: invalid UTF-8 bytes in the two strings become U+FFFD), and whatever a parse returns holds valid UTF-8;
  - `StableJwt`: the claims a token parses to do not depend on the clock.
- `Utf8`: UTF-8 validity as Go's `utf8.DecodeRune` reads it, and `Sanitize`, what `encoding/json` does to a string that is not valid UTF-8.
- `Base64` (section 4 of RFC 4648, as Go's `StdEncoding`), `Decimal` (`%d` rendering and its reader), `ObjectIds` (24 hex digits).
- `RefreshSessions`, `Tokens`, `Users`: the model package (`refreshsession.go`, `token.go`, `user.go`).
- `SessionStore`, `UserStore`: the two repositories over in-memory collections.
  - Each driver call (`InsertOne`, `FindOne`, `DeleteOne`, `DeleteMany`) is one atomic step on a sequence of documents.
  - Fresh ObjectIDs come from a counter.
  - Every repository method is proved equal to a pure function over a table value (`Insert`, `Check`, `DeleteById`, `DeleteAll`, `CreateUser`, `FindEmail`, `FindId`).
- `ApiServer`:
  - the four session handlers as methods of a `Server` that owns the two repositories;
  - each method is proved equal to a pure specification (`CreateSessionSpec`, `RefreshSpec`, `RevokeSpec`, `RevokeAllSpec`) that returns the response and the new session table.
- `Protocol`: lemmas over sequences of handler calls: rotation, replay, create-then-refresh, revoke-then-refresh.
  - Token claims have one-second resolution and carry no nonce. So a refresh in the same second the presented token was minted re-issues that very token, and the new session accepts it again (`Protocol.SameSecondReplayAccepted`). Rotation gives a different token only in a later second (`Protocol.RotationIssuesFreshToken`).

How the outside world enters the model:

- The clock is a parameter `now` (Unix seconds).
- The signing secret and the bcrypt/JWT implementations are the `Env` parameter.
- A request body that fails to decode as JSON is `None`.
- `FindOne` may return any matching document; its choice is a ghost out-parameter `pick` of the methods and an argument of the specifications.

## Model

| member | source | states |
|---|---|---|
| RefreshSessions.EncryptToken | internal/app/model/refreshsession.go:43-50 | Succeeds exactly when bcrypt accepts the token; the hash then verifies against the token; an error is a hashing error |
| RefreshSessions.RefreshSession.CreateRefreshSession | internal/app/model/refreshsession.go:24-41 | Fails exactly when hashing fails, then with the record unchanged; otherwise sets user id, fingerprint, plaintext token, hash `digest(rt)`, and the `%d` renderings of now+86400 and now, which parse back to those integers |
| RefreshSessions.RefreshSession.Decoded | internal/app/store/refreshsessionrepository.go:45 | The record `Decode` fills from a stored document: `_id`, user id, fingerprint and both times as stored, the stored hash (key `refresh_token`) in `RefreshToken`, and `EncryptedRefreshToken` empty, since the document has no such key |
| RefreshSessions.RefreshSession.CompareRefreshToken | internal/app/model/refreshsession.go:53-55 | True exactly when the stored `RefreshToken` is the bcrypt hash of the argument; reads the record only |
| RefreshSessions.CompareAcceptsHashedToken | internal/app/model/refreshsession.go:53-55 | A record holding the hash of `s` accepts `s` |
| Decimal.ParseFormat | internal/app/model/refreshsession.go:37-38 | Parsing the decimal rendering of an integer gives the integer back |
| Decimal.FormatIntInjective | internal/app/model/refreshsession.go:37-38 | Distinct instants have distinct renderings |
| Tokens.AccessClaims | internal/app/model/token.go:51-58 | The access claims carry the caller's user id and fingerprint, IssuedAt = now, ExpiresAt = now + 900 |
| Tokens.RefreshClaims | internal/app/model/token.go:73-80 | The refresh claims carry the caller's user id and fingerprint, IssuedAt = now, ExpiresAt = now + 86400 |
| Tokens.CreateAccess | internal/app/model/token.go:49-68 | Succeeds exactly when signing the access claims succeeds, returning that signature; otherwise a signing error |
| Tokens.CreateRefresh | internal/app/model/token.go:71-90 | Succeeds exactly when signing the refresh claims succeeds, returning that signature; otherwise a signing error |
| Tokens.CreatePairTokens | internal/app/model/token.go:19-46 | Succeeds exactly when both signings succeed; the map's keys are exactly accessToken and refreshToken, holding the two tokens; otherwise no map and the signing error |
| Tokens.PairCarriesCallerClaims | internal/app/model/token.go:19-46 | With a sound signer, each token of the pair parses back while valid to claims carrying the caller's user id and fingerprint as JSON returns them (`Utf8.Sanitize`), and is rejected after; for valid UTF-8 input these are exactly the caller's |
| Primitives.JsonClaims | internal/app/model/token.go:82-84 | The claims a signed token carries after `json.Marshal`/`json.Unmarshal`: both strings valid UTF-8, the two times unchanged |
| Utf8.SanitizeValid | internal/app/model/token.go:84 | The JSON-sanitised form of any string is valid UTF-8 |
| Utf8.SanitizeFixesExactlyValid | internal/app/model/token.go:84 | Sanitising leaves a string unchanged if and only if it is valid UTF-8 |
| Utf8.AsciiValid | internal/app/model/token.go:84 | Every ASCII string is valid UTF-8 |
| Utf8.RuneWidthPrefix | internal/app/model/token.go:84 | The width of a leading UTF-8 sequence depends only on its own bytes |
| Tokens.LifetimeWindows | internal/app/model/token.go:55-56 | The access token is valid up to 15 minutes after issue, the refresh token up to 24 hours |
| Tokens.Token.ParseToken | internal/app/model/token.go:93-106 | Succeeds exactly when the token parses under the key at `now`, and then the receiver holds exactly the token's claims; otherwise a token error |
| Tokens.DecodeFromBase64 | internal/app/model/token.go:109-116 | Succeeds exactly when the input without line breaks is well formed (whole quanta, alphabet characters before the last quantum, which is `aaaa`, `aaa=` or `aa==`); it then holds only alphabet, pad and line-break bytes; every failure is a base 64 error |
| Tokens.DecodeFromBase64OfEncode | internal/app/model/token.go:109-116 | Decoding what the handlers' encoder produced gives back the raw token, for every byte string |
| Base64.Encode | internal/app/apiserver/apiserver.go:143 | The encoding has length 4·⌈n/3⌉ and uses only alphabet and pad characters |
| Base64.Decode | internal/app/model/token.go:110 | Succeeds exactly when the input without line breaks is `WellFormed`: whole quanta, alphabet characters before the last quantum, and a last quantum `aaaa`, `aaa=` or `aa==` (so `====`, `A===`, `AB=C` and `AA==AAAA` fail); failures are base 64 errors |
| Base64.DecodeCleanAccepts | internal/app/model/token.go:110 | The decoder on input without line breaks succeeds if and only if the input is `WellFormed` |
| Base64.DecodeEncode | internal/app/apiserver/apiserver.go:143 | `Decode(Encode(b)) == Ok(b)` for every byte string `b` |
| Users.EncryptString | internal/app/model/user.go:30-36 | Succeeds exactly when bcrypt accepts the password; the hash then verifies against it |
| Users.User.BeforeCreate | internal/app/model/user.go:17-28 | An empty password is kept, with no error. A non-empty one is replaced by its hash, after which `ComparePassword` accepts the old password. A hashing failure returns the error and keeps the password. Only the password field may change |
| Users.User.ComparePassword | internal/app/model/user.go:39-41 | True exactly when the stored password is the bcrypt hash of the candidate; reads the user only |
| ObjectIds.Hex | internal/app/store/refreshsessionrepository.go:51 | An ObjectID is written as 24 hexadecimal digits |
| ObjectIds.FromHex | internal/app/store/refreshsessionrepository.go:59-62 | Succeeds exactly on 24 hexadecimal digits, giving an id in the ObjectID space; otherwise an error (always `InvalidHex` in the model) |
| ObjectIds.FromHexOfHex | internal/app/store/refreshsessionrepository.go:59 | Reading back the hex form of an id gives the id |
| ObjectIds.HexInjective | internal/app/store/refreshsessionrepository.go:51 | Distinct ids have distinct hex forms |
| SessionStore.NewSessionDoc | internal/app/store/refreshsessionrepository.go:20-29 | The inserted document has the arguments' user id and fingerprint and holds a hash that verifies `rt`, with timestamps parsing to now+86400 and now. When hashing fails it is the all-empty record, since the error is discarded |
| SessionStore.Insert | internal/app/store/refreshsessionrepository.go:19-35 | Keeps the table valid; succeeds exactly while ids remain, appending one document under a fresh id; on failure the table is unchanged |
| SessionStore.RefreshSessionRepository.CreateNewSession | internal/app/store/refreshsessionrepository.go:19-35 | The response and the new collection are those of `Insert` |
| SessionStore.Check | internal/app/store/refreshsessionrepository.go:38-55 | `ErrNoDocuments` exactly when no document matches (user id, fingerprint). Otherwise the picked matching document decides: its hex id when its hash verifies `rt`, `ErrInvalidToken` when not |
| SessionStore.CheckSingleMatch | internal/app/store/refreshsessionrepository.go:45-54 | With a single matching document the answer no longer depends on `FindOne`'s choice |
| SessionStore.RefreshSessionRepository.CheckRefreshSession | internal/app/store/refreshsessionrepository.go:38-55 | `ErrNoDocuments` exactly when no document has that user id and fingerprint; otherwise success only for a matching document whose stored hash accepts the token, answered with that document's hex id, and `ErrInvalidToken` elsewhere; for the pick `FindOne` makes the answer is `Check`; nothing changes |
| SessionStore.DeleteFirst | internal/app/store/refreshsessionrepository.go:76-83 | Deletes one document with the id (count 1) or nothing (count 0, exactly when no document has it) |
| SessionStore.RemoveUnique | internal/app/store/refreshsessionrepository.go:96-99 | With distinct ids, removing the document at `k` removes every document with its id and keeps every other one |
| SessionStore.DeleteById | internal/app/store/refreshsessionrepository.go:58-102 | A malformed id gives an error and no change. An id no document has gives `ErrDocumentNotFound` and no change. Otherwise exactly the document with that id is removed |
| SessionStore.DeleteCheckedSession | internal/app/store/refreshsessionrepository.go:59-63 | Deleting by the hex id of a stored document removes exactly that document |
| SessionStore.DeleteTwiceFails | internal/app/store/refreshsessionrepository.go:81-83 | Deleting the same id a second time gives `ErrDocumentNotFound` and changes nothing |
| SessionStore.RefreshSessionRepository.DeleteOne | internal/app/store/refreshsessionrepository.go:76 | The count and collection are those of `DeleteFirst` |
| SessionStore.RefreshSessionRepository.DeleteRefreshSession | internal/app/store/refreshsessionrepository.go:58-102 | Response and new collection are those of `DeleteById`; the second `DeleteOne` is proved to delete nothing |
| SessionStore.KeepOthers | internal/app/store/refreshsessionrepository.go:119 | Keeps exactly the documents of other users; nothing is removed exactly when the user has none |
| SessionStore.KeepOthersUnchanged | internal/app/store/refreshsessionrepository.go:119-126 | When the user has no documents, `DeleteMany` leaves the collection as it was |
| SessionStore.KeepOthersDistinct | internal/app/store/refreshsessionrepository.go:119 | `DeleteMany` keeps the remaining ids distinct |
| SessionStore.DeleteAll | internal/app/store/refreshsessionrepository.go:105-139 | Fails with `ErrDocumentNotFound` and no change exactly when the user had no documents; otherwise removes exactly that user's documents |
| SessionStore.RefreshSessionRepository.DeleteMany | internal/app/store/refreshsessionrepository.go:119 | The collection afterwards is `KeepOthers`, and the count is how many documents went |
| SessionStore.RefreshSessionRepository.DeleteAllRefreshSessions | internal/app/store/refreshsessionrepository.go:105-139 | Response and new collection are those of `DeleteAll` |
| UserStore.CreateUser | internal/app/store/userrepository.go:19-36 | A hashing failure gives ("", nil) with nothing inserted. An exhausted id space gives the insert error and no change. Otherwise one document with the email and the (hashed) password, whose hex id is returned |
| UserStore.UserRepository.Create | internal/app/store/userrepository.go:19-36 | Runs `BeforeCreate`, then the insert; the answer and the collection are those of `CreateUser` |
| UserStore.FindEmail | internal/app/store/userrepository.go:39-50 | A stored document with that email, or `ErrNoDocuments` exactly when none exists |
| UserStore.UserRepository.FindByEmail | internal/app/store/userrepository.go:39-50 | `ErrNoDocuments` exactly when no document has that email; otherwise one stored document with that email; for the pick `FindOne` makes the answer is `FindEmail`; nothing changes |
| UserStore.FindId | internal/app/store/userrepository.go:52-67 | A malformed id is refused before any lookup. Otherwise the document with that id, or `ErrNoDocuments` exactly when none has it |
| UserStore.UserRepository.FindByID | internal/app/store/userrepository.go:52-67 | The answer is `FindId`; distinct ids make `FindOne`'s choice unique; nothing changes |
| UserStore.CreateThenFindId | internal/app/store/userrepository.go:33-35 | Looking up the id `Create` returned finds exactly the inserted user |
| UserStore.CreateThenFindEmail | internal/app/store/userrepository.go:25-28 | After a user is inserted, looking it up by email succeeds |
| ApiServer.Transport | internal/app/apiserver/apiserver.go:143-144 | Only the refresh token is replaced, and it decodes back to the raw token |
| ApiServer.IssuePair | internal/app/apiserver/apiserver.go:130-146 | 200 exactly when signing succeeds and ids remain. A 200 stores one new session for the raw refresh token and answers with the access token and the base 64 refresh token. A 401 changes nothing |
| ApiServer.Presented | internal/app/apiserver/apiserver.go:164-174 | Succeeds exactly when the body decodes from base 64 and the token parses, giving the raw token and its claims |
| ApiServer.CreateSessionSpec | internal/app/apiserver/apiserver.go:111-148 | 400 exactly on a body that does not decode. An unknown user gives 401 and no change. Every non-200 keeps the store. 200 exactly when the user exists, signing succeeds and ids remain |
| ApiServer.Server.SessionCreate | internal/app/apiserver/apiserver.go:111-148 | Response and session collection are those of `CreateSessionSpec` |
| ApiServer.RefreshSpec | internal/app/apiserver/apiserver.go:150-202 | 400 exactly on a body that does not decode. A decode, parse or session-check failure gives 401 and no change. 200 exactly when all checks pass, signing succeeds and ids remain |
| ApiServer.Server.SessionRefresh | internal/app/apiserver/apiserver.go:150-202 | Response and session collection are those of `RefreshSpec` at `FindOne`'s pick |
| ApiServer.RevokeSpec | internal/app/apiserver/apiserver.go:204-244 | 400 exactly on a body that does not decode; 401 with no change on any failed check; 200 exactly when decode, parse and session check pass |
| ApiServer.Server.DeleteSession | internal/app/apiserver/apiserver.go:204-244 | Response and session collection are those of `RevokeSpec` |
| ApiServer.RevokeAllSpec | internal/app/apiserver/apiserver.go:246-284 | 200 exactly when the token decodes and parses and its user has sessions, with no hash check. On 200 exactly that user's sessions go. Otherwise 400/401 and no change |
| ApiServer.Server.DeleteAllSessions | internal/app/apiserver/apiserver.go:246-284 | Response and session collection are those of `RevokeAllSpec` |
| ApiServer.Server.Issue | internal/app/apiserver/apiserver.go:184-200 | Response and session collection are those of `IssuePair`, with the refresh token overwritten in the map |
| Protocol.CreateStoresVerifyingSession | internal/app/apiserver/apiserver.go:137-146 | A 200 create appends one session under a fresh id. When bcrypt accepts the token, the session is for the device and holds `digest(raw token)`. The response has the access token as minted and a refresh token that decodes to the raw one |
| Protocol.RefreshRotatesSession | internal/app/apiserver/apiserver.go:176-200 | A 200 refresh removes exactly the picked session (the device's, whose hash accepts the token) and appends one for the newly issued token, which the response carries |
| Protocol.RefreshLateFailureLosesSession | internal/app/apiserver/apiserver.go:182-195 | When the check passes but signing or inserting fails, the matched session is already deleted: 401, and the table is the old one without that document |
| Protocol.ReplayRejected | internal/app/apiserver/apiserver.go:176-191 | After a rotation, presenting the old token again gives 401 and no change, unless the new session's hash or another of the device's sessions accepts it |
| Protocol.SameSecondReplayAccepted | internal/app/model/token.go:77-78 | A rotation in the same second as the presented token's minting re-issues that very token, and the new session accepts it |
| Protocol.RotationIssuesFreshToken | internal/app/model/token.go:73-89 | With a sound signer, a rotation in another second than the presented token's issue time issues a different token |
| Protocol.CreateThenRefreshSucceeds | internal/app/apiserver/apiserver.go:137-200 | A fresh device whose fingerprint is valid UTF-8 (as every string `json.Decode` yields) can refresh with the token from its create response at any time within 24 hours, given bcrypt accepts it, signing works and ids remain |
| Protocol.KnownUserIdSurvivesJson | internal/app/apiserver/apiserver.go:124-128 | A user id that finds a stored user is 24 hex digits, so the JSON round trip of the claims leaves it unchanged |
| Protocol.CreateNonUtf8ThenRefreshFails | internal/app/apiserver/apiserver.go:137-200 | A session created for a fingerprint that is not valid UTF-8 cannot be refreshed with its own token: the token carries the sanitised fingerprint, the check finds no document, and the answer is 401 with no change |
| Protocol.RevokeRemovesOnlyMatchedSession | internal/app/apiserver/apiserver.go:218-236 | A 200 revoke removes exactly the picked session; every other session, of the user or anyone else, stays |
| Protocol.RevokeThenRefreshRejected | internal/app/apiserver/apiserver.go:230-236 | After a revoke, refreshing with the same token gives 401 and no change, unless another session of the device accepts it |
| Protocol.RevokeAllThenRefreshFails | internal/app/apiserver/apiserver.go:272 | After revoking all of a user's sessions, every refresh with a token of that user gives 401 (`ErrNoDocuments`) and changes nothing |

## Left out

- HTTP routing, JSON encoding and decoding, status writing and logging (`Start`, `configureLogger`, `configureRouter`, `configureStore`, `error`, `respond`). A request is its decoded body or `None`; a response is a status and a body value. A body that is the JSON literal `null` decodes without error to a nil request, which the handlers then dereference and panic on; the model has no outcome for that case. Strings that `json.Decode` yields are valid UTF-8, but the model's requests admit any bytes; `Protocol.CreateThenRefreshSucceeds` and `Protocol.CreateNonUtf8ThenRefreshFails` state the two cases.
- `handleUsersCreate`: it does not compile as written. `id` and `err` are scoped to the `if` at internal/app/apiserver/apiserver.go line 96 but used at line 101, and `primitive` is not imported. Its repository call `UserRepository.Create` is modelled.
- MongoDB client, sessions and transactions (`StartSession`, `StartTransaction`, `CommitTransaction`, `EndSession`, `WithSession`) and their error paths. Each driver call is one atomic step.
  - So concurrent clients and the race between a rotation's delete and its insert are not modelled.
  - The transaction's `DeleteOne` in `DeleteRefreshSession`, and `DeleteMany` in `DeleteAllRefreshSessions`, pass `ctx` rather than the session context, so neither was ever bound to its transaction; the model's atomic step says nothing about it.
- Driver failures other than running out of ObjectIDs: the model's `InsertOne` fails only when the id space is used up, and `FindOne`/`DeleteOne`/`DeleteMany` do not fail.
- ObjectID generation (timestamp, machine and counter bytes): ids come from a counter below 16^24.
- bcrypt and HS512 internals: hashing, HMAC, JWS serialisation. The signing secret from `os.Getenv("token_password")` is a parameter.
- The 72-byte bcrypt limit: `Hasher` is arbitrary, so every lemma holds for any hasher, but none is specialised to bcrypt's treatment of long inputs. A refresh JWT is longer than 72 bytes.
  - A bcrypt that compares only the first 72 bytes may accept every refresh token of the same user. Then the hypothesis of `Protocol.ReplayRejected`, that no remaining hash accepts the replayed token, can fail.
  - A bcrypt that rejects inputs over 72 bytes (`rejects`) makes every create store the all-empty record. Then the hypothesis of `Protocol.CreateThenRefreshSucceeds`, that the hash was accepted, can fail.
- The clock: the source reads `time.Now()` several times per handler (twice in `CreateRefreshSession`, twice per token). The model reads it once, as `now`, so "IssuedAt = now" and "ExpiresAt = now + TTL" hold exactly.
- 64-bit width of Unix times: times are unbounded integers, so `now + 86400` cannot wrap.
- ObjectIds.FromHex: every error of `primitive.ObjectIDFromHex` is `InvalidHex`. For a 24-byte string with a non-hex byte, Go returns the error of `hex.DecodeString` instead, whose text differs in the 401 body of `handleSessionCreate`; the model does not tell the two apart.
- Decimal.ParseInt: has no 64-bit range check; it is used only to state that the stored timestamps read back.
- Tokens.Token.ParseToken: says nothing about the receiver's fields after a failure. jwt-go decodes the payload into the receiver before checking the signature, so they may have changed; the handlers return at once in that case.
- UserStore.UserRepository.FindByEmail: returns the stored document, not a decoded `*model.User`.
- UserStore.UserRepository.FindByID: returns the stored document, not a decoded `*model.User`.
- SessionStore.RefreshSessionRepository.CheckRefreshSession: which matching document `FindOne` returns is left open; every result is proved for whichever pick it makes.
- Protocol.ReplayRejected: assumes `StableJwt`, that a token's claims do not depend on the clock.
- Protocol.RevokeThenRefreshRejected: assumes `StableJwt`, that a token's claims do not depend on the clock.
- Configuration, `cmd/apiserver/main.go` and the memoised repository getters of `store.go`: process start-up and wiring.
