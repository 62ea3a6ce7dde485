# Article-sharing back ends: authentication and authorization

This project models the two Express back ends of the article-sharing
application. Users register and log in. Logged-in users post links
("articles"). An article may be deleted by its owner or by an administrator.

- **Session variant** (`P4/vibes/server.js`, module `SessionServer`). Login
  state is a server-side session record `{userId, username, role}`, keyed by
  the client's session cookie.
- **Token variant** (`P4/manual/server.js`, module `TokenServer`). Login
  issues a signed token carrying `{id, username, role}`. The client sends the
  token back in the `Authorization: Bearer <token>` header.

Each server is a class. Its fields are the Users and Articles tables (maps
from row id to row), the two AUTOINCREMENT counters and, for the session
variant, the session store. Each route is one method. Its postcondition gives
the status code, the reply body and the whole new state, in every branch.
Each request runs atomically. `Valid()` is the invariant every route keeps:
- ids are positive and below the counters;
- usernames are unique (the UNIQUE column);
- in the session variant, every article's owner is an existing user, and
  every session names an existing user with that user's stored name and role.

The shared pieces are separate modules:
- `Auth`: the `Principal` claim set and the delete rule `CanDelete` (admin or
  owner). Both servers use it, and it agrees with the display predicate of
  both clients (`P4/vibes/public/app.js:214`, `P4/manual/client/src/App.js:80`).
- `Bcrypt`: a symbolic password hash. The salt is a parameter, and a digest
  accepts exactly the password it was made from.
- `Jwt`: a stand-in for `jwt.sign`/`jwt.verify`. A token is the id, the role,
  the escaped username and a keyed checksum, separated by dots. Verification
  parses the fields and accepts only the exact text that signing those claims
  produces.
- `Strings`: JavaScript's `split`/`join`, the escape and decimal digits.

The methods outside the classes (`Startup`, `AliceAndBob`,
`DuplicateRegistration`, `RefusedDeletes`, `AdminDeletes`, `LogoutThenMe`,
`Logins`, `AlicePosts`, `BobRefused`, `NoTokenRefused`, `BadTokenRefused`)
are end-to-end scenarios. Each builds a fresh server and runs a sequence of
requests, and its postcondition fixes the replies it gets.

Behaviour of the code worth knowing, which the model follows:
- the session variant's register replies 200 (`res.json`), where the token
  variant's register replies 201 (`P4/manual/server.js:76`);
- the token variant's login replies 400 "User not found" for an unknown name
  and 200 "Not Allowed" for a wrong password, so it tells the two apart;
- the token variant replies 403, not 401, to a token that does not verify;
- no token carries an expiry (`jwt.sign` is called without `expiresIn`);
- the token variant's register does no shape checks at all.

## Model

| member | source | states |
|---|---|---|
| `Auth.CanDelete` | P4/manual/server.js:126 | the admin-or-owner rule (also P4/vibes/server.js:252, negated there): an admin may delete an article of any owner, a user exactly the articles whose owner id is its own id |
| `Bcrypt.Hash` | P4/vibes/server.js:111 | the digest records the salt it was made with, and comparing the same password against it succeeds |
| `Bcrypt.VerifyOnlyOriginal` | P4/vibes/server.js:156 | a digest accepts no password other than the one it was made from |
| `Bcrypt.SaltedHashesDiffer` | P4/manual/server.js:71 | two hashes of one password with different salts are different digests |
| `Strings.Split` | P4/manual/server.js:55 | `split` gives at least one part, no part contains the separator, and joining the parts gives back the input |
| `Strings.SplitPrefix` | P4/manual/server.js:55 | splitting after a separator-free prefix attaches that prefix to the first part |
| `Strings.SplitJoin` | P4/manual/server.js:55 | `split` undoes `join` when no part contains the separator |
| `Strings.JoinAvoids` | P4/manual/server.js:90 | a character that is not the separator and occurs in no part does not occur in the join |
| `Strings.Escape` | P4/manual/server.js:90 | an escaped username contains neither the field separator nor a space |
| `Strings.EscapeRoundTrip` | P4/manual/server.js:90 | unescaping an escaped username gives it back |
| `Strings.Digits` | P4/manual/server.js:90 | the decimal form of an id is non-empty and made only of digits |
| `Strings.DigitsRoundTrip` | P4/manual/server.js:90 | parsing the decimal form of an id gives the id back |
| `Jwt.Sign` | P4/manual/server.js:90 | a signed token is non-empty and has no space, so it survives the `Bearer <token>` header |
| `Jwt.Decode` | P4/manual/server.js:58-61 | a token verifies only if it is exactly the token signed for the claims it yields |
| `Jwt.TokenRoundTrip` | P4/manual/server.js:58-60 | verifying a token signed for some claims gives back exactly those claims |
| `TokenServer.BearerToken` | P4/manual/server.js:54-56 | the token is the second word of `split(' ')` of the `Authorization` header exactly when that word exists and is non-empty; it is then space-free; an absent header gives none |
| `TokenServer.BearerOf` | P4/manual/server.js:55 | for any first word, `word + " " + token` yields the token |
| `TokenServer.OneWordHeader` | P4/manual/server.js:55-56 | a header without a second word yields no token |
| `TokenServer.Authenticate` | P4/manual/server.js:53-63 | 401 exactly when there is no token, 403 exactly when the token does not verify; a token that verifies authenticates as exactly the claims it decodes to, whose signature is that token |
| `TokenServer.IssuedTokenAuthenticates` | P4/manual/server.js:89-91 | the token issued for some claims, sent as `Bearer <token>`, authenticates as exactly those claims |
| `TokenServer.UnsignedTokenRejected` | P4/manual/server.js:58-59 | a bearer token without the separators of a signed token is answered 403 |
| `TokenServer.StatusText` | P4/manual/server.js:56-59 | defines the body `sendStatus` sends, the reason phrase "Unauthorized" for 401 and "Forbidden" for 403; `NoTokenRefused` and `BadTokenRefused` fix those replies end to end |
| `TokenServer.UniqueUsernames` | P4/manual/server.js:25 | the UNIQUE column: two rows with the same non-NULL username are the same row; NULL names may repeat |
| `TokenServer.UniqueUsernamesIff` | P4/manual/server.js:25 | uniqueness holds exactly when no non-NULL name is held by more than one row |
| `TokenServer.FindUser` | P4/manual/server.js:86 | the lookup returns a row whose username is the name, or none when no row has it |
| `TokenServer.Server.constructor` | P4/manual/server.js:21-37 | the server starts with empty tables and both counters at 1 |
| `TokenServer.Server.SeedAdmin` | P4/manual/server.js:40-49 | inserts admin/admin with role admin only when no user named admin exists, else changes nothing; afterwards an admin row exists |
| `TokenServer.Server.Register` | P4/manual/server.js:68-81 | missing password gives 500 and no change; a taken name gives 400 and no change; otherwise exactly one row with role user and a fresh id is added and the reply is 201 |
| `TokenServer.Server.Login` | P4/manual/server.js:84-96 | changes nothing; unknown name gives 400 "User not found"; missing password gives no reply; a correct password gives a token for exactly the stored id, name and role plus those fields; a wrong password gives 200 "Not Allowed" |
| `TokenServer.Server.PostArticle` | P4/manual/server.js:107-115 | a refused token changes nothing; otherwise exactly one row is added whose owner id and username are the token's claims, and the reply echoes them |
| `TokenServer.Server.DeleteArticle` | P4/manual/server.js:118-135 | a refused token or a missing id (404) changes nothing, whatever the role; an admin or the owner removes exactly that row; anyone else gets 403 and nothing changes |
| `TokenServer.AliceAndBob` | P4/manual/server.js:68-81 | after the seed and two registrations, the table holds admin, alice and bob with ids 1, 2, 3 |
| `TokenServer.Logins` | P4/manual/server.js:84-96 | alice's login yields a token that verifies to her claims; an unknown name gives 400 and a wrong password gives 200 "Not Allowed" |
| `TokenServer.AlicePosts` | P4/manual/server.js:107-115 | alice logs in (lines 84-96) and the token she gets posts an article recorded with her id and username |
| `TokenServer.BobRefused` | P4/manual/server.js:84-96 | bob logs in and gets the token signed for (3, bob, user); that token may not delete alice's article (lines 126-133): 403 and the article stays |
| `TokenServer.NoTokenRefused` | P4/manual/server.js:54-56 | a header without a second word gives 401 and the article stays |
| `TokenServer.BadTokenRefused` | P4/manual/server.js:58-59 | a token that does not verify gives 403 and the article stays |
| `TokenServer.AdminDeletes` | P4/manual/server.js:84-96 | admin/admin logs in and gets the token signed for (1, admin, admin); that token deletes alice's article (lines 126-129) and it is gone |
| `SessionServer.ValidateRegistration` | P4/vibes/server.js:98-108 | registration passes the checks exactly when the name has at least 3 and the password at least 4 characters; each message is given exactly when its check is the first to fail |
| `SessionServer.Present` | P4/vibes/server.js:98 | defines JavaScript truthiness of a body field, negated in the `!username` and `!password` tests (and `!url` at line 198): present with at least one character; `ValidateRegistration` states its checks through it |
| `SessionServer.UniqueUsernames` | P4/vibes/server.js:38 | the UNIQUE column: two rows with the same username are the same row |
| `SessionServer.UniqueUsernamesIff` | P4/vibes/server.js:38 | uniqueness holds exactly when no name is held by more than one row |
| `SessionServer.FindUser` | P4/vibes/server.js:146 | the lookup returns a row whose username is the name, or none when no row has it |
| `SessionServer.SessionPrincipal` | P4/vibes/server.js:87-93 | defines `isAuthenticated`: the session record when the session exists and its userId is truthy |
| `SessionServer.SessionAuthenticates` | P4/vibes/server.js:87-93 | with positive user ids and every session matching its user, a cookie authenticates exactly when it has a session, as that session record, which names a stored user with its name and role |
| `SessionServer.Server.constructor` | P4/vibes/server.js:33-56 | the server starts with empty tables, no sessions and both counters at 1 |
| `SessionServer.Server.CreateAdminUser` | P4/vibes/server.js:58-85 | inserts admin/admin with role admin only when no user named admin exists, else changes nothing; afterwards an admin row exists |
| `SessionServer.Server.Register` | P4/vibes/server.js:95-137 | a failed shape check gives 400 with that check's message and no change; a taken name gives 400 "Username already exists" and no change; otherwise exactly one user with role user and a fresh id is added, the session becomes (id, name, user) and the reply carries those three fields |
| `SessionServer.Server.Login` | P4/vibes/server.js:139-174 | tables never change; missing fields give 400; unknown name and wrong password both give 401 "Invalid username or password" with the session untouched; success sets the session to the stored id, name and role and replies with exactly those |
| `SessionServer.Server.Logout` | P4/vibes/server.js:176-183 | the caller's session is removed, no other session or table changes, and the caller is no longer authenticated |
| `SessionServer.Server.Me` | P4/vibes/server.js:185-193 | 401 without an authenticated session, otherwise the session's principal; a 200 reply reports a stored user's id, name and role |
| `SessionServer.Server.ListArticles` | P4/vibes/server.js:224-236 | 401 without an authenticated session, otherwise exactly the articles whose owner exists, each with its owner's username |
| `SessionServer.Server.AddArticle` | P4/vibes/server.js:195-222 | no session gives 401, a missing URL or one the URL parser refuses gives 400, all with no change; otherwise exactly one article owned by the session's userId is added with a fresh id |
| `SessionServer.Server.DeleteArticle` | P4/vibes/server.js:238-263 | no session gives 401 and a missing id gives 404 whatever the role, both with no change; an admin or the owner removes exactly that article; anyone else gets 403 and nothing changes |
| `SessionServer.Startup` | P4/vibes/server.js:54 | after startup the only user is the seeded admin with id 1 |
| `SessionServer.AliceAndBob` | P4/vibes/server.js:113-131 | registering alice and bob logs each in with ids 2 and 3, and alice's article is recorded with owner 2 |
| `SessionServer.DuplicateRegistration` | P4/vibes/server.js:113-120 | registering a taken name gives 400 "Username already exists" and exactly one row keeps that name |
| `SessionServer.RefusedDeletes` | P4/vibes/server.js:243-254 | bob gets 403, a client without a session 401, an unknown id 404, and the article stays |
| `SessionServer.AdminDeletes` | P4/vibes/server.js:162-169 | admin/admin logs in as (1, admin, admin), deletes alice's article, and the listing no longer has it |
| `SessionServer.LogoutThenMe` | P4/vibes/server.js:176-193 | /api/me answers with alice's principal before logout and 401 after it |

## Left out

- Express routing, static files, the catch-all `index.html` route, CORS and `app.listen`: these are transport.
- SQLite itself, the `CREATE TABLE` statements and the callbacks: the tables are maps with a counter, and each request is atomic.
- The 500 replies for store failures (`Database error`, `Error creating user`, and so on) in both variants: the model's store never fails. The token variant's 500 for a missing password is modelled, because `bcrypt.hash` always throws on it.
- If the token variant's login gets no password, the rejection from `bcrypt.compare` is unhandled. The model gives `NoReply` and the state is unchanged; the crash of the process is not modelled.
- bcrypt's salting, work factor and 72-byte truncation: `Hash` takes the salt as a parameter and matches a password exactly.
- JWT cryptography: `Jwt.Sign` is a keyed checksum, not a MAC. The model proves the round trip and that a token verifies only as its own claims. It does not prove that a token cannot be forged without the key.
- The `iat` claim that `jwt.sign` adds: it depends on the clock and no handler reads it.
- Session cookie expiry (`maxAge`) and cookie issuance: a session is keyed by the cookie value the request carries, and logout deletes that entry. Because the session store is in memory, it empties on a restart; that is not modelled.
- `new URL(url)`: whether the URL parses is the `urlParses` parameter of `AddArticle`.
- The article listing's order (`ORDER BY created_at DESC`): `ListArticles` returns a map from id to row. The token variant's unauthenticated `GET /articles` is not part of this model.
- Request-body fields are strings or absent. A JSON number or object in place of a string is not modelled. Lengths count Unicode characters; JavaScript counts UTF-16 code units.
- The path parameter `:id` is taken as an already-parsed row id; a non-numeric id is not modelled.
- The clients (`P4/vibes/public/app.js`, `P4/manual/client/src/App.js`) are not part of this model. Their delete-button predicate is the same rule as `Auth.CanDelete`.
- Rate limiting: no code for it exists in these servers.
