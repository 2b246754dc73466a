# Notes backend: ownership, identity and credentials

A model of a small multi-user notes service. Users register and log in with a name and
password. Login issues a bearer token whose subject is the user's name and which expires
30 minutes after issue. Every note handler first resolves the token to a stored user (the
caller), then enforces that only a note's owner may delete it. Users can be listed by any
resolved caller. Users can be updated or deleted by anyone, with no ownership rule.

The store is one object, `Backend.Store`, with two tables: `users` and `notes`. Each is a
map from primary key to record, and the records have the fields of the two table classes.
The handlers that write the tables are methods of `Store`. The handlers that only read
them are functions of the tables. Each function or method says which error every input
leads to and what the tables hold afterwards.

The note handlers exist twice: once in `backend/main.py`, once in `backend/routers/notes.py`.
The two copies have the same statements. They are modelled once, by the functions of
`NoteAccess` and the note methods of `Store`. The rows below that cite the router file name
the members that model its handlers.

Modules, leaf first:

- `Models`: records, `Option`, `Result`, and the HTTP errors with their exact status codes and messages.
- `Tables`: SQLite primary keys.
  - A query with no `ORDER BY` reads rows in key order, so `.first()` is the least matching key.
  - A row inserted without a key gets the largest key plus one, or 1 in an empty table.
  - Inserting a key that already exists fails.
- `Security`: token claims, issuing a token, and what decoding accepts.
- `SqlLike`: the text filter, which is SQLite's `LIKE`.
- `NoteAccess`: the ownership rules and the listing filter.
- `Identity`: looking up a user by name, resolving a token to the caller, and login.
- `Backend`: the handlers.
- `Scenario`: a client that chains the handlers. Two users register, one logs in and forges a note's owner, and the other is refused.

Where the code behaves differently from what its names suggest, the model follows the code:

- The search filter `Notes.title.contains(q)` runs as `title LIKE '%' || q || '%'` on SQLite. That match ignores the case of ASCII letters, reads `%` and `_` in `q` as wildcards, and escapes nothing, so it is not the exact substring test the name `contains` suggests. `SqlLike.ContainsIsFoldedSubstring` shows that for a query without wildcards the filter is a substring test up to ASCII case. `SqlLike.FilterIgnoresCase` shows that `Alpha` passes the query `alpha`.
- Deleting a missing note answers 403. Updating a missing note answers 404.
- The note update handler checks, then returns, and writes nothing. It returns `None` under `response_model=Notes`, so the owner's `PUT /notes/{id}` fails the response validation and the client receives a 500.
- Updating a user with an empty password fails before anything is written: the hash variable is never bound, which raises an unhandled exception (500).
- Deleting a user does not delete that user's notes, because SQLite does not enforce foreign keys by default. If the deleted user held the largest key, the next user registered without a key can get the same key, and with it the old user's notes (`Backend.OrphanedNotesPassToNextUser`).
- Names are not unique, and login and token resolution only ever consider the first user of a name (`Identity.LaterNamesakeCannotLogIn`).

## Model

| member | source | states |
|---|---|---|
| `Tables.Least` | backend/main.py:54-55 | the least key of a non-empty key set, which is the row `.first()` returns |
| `Tables.FreshKey` | backend/models.py:5 | the key given to a row inserted without one is not in use, exceeds every key in use, and is 1 in an empty table |
| `Tables.AllocateKey` | backend/main.py:129-131 | an insert uses the client's key or a fresh one, and fails exactly when the client's key is taken |
| `Tables.DeletedGreatestKeyIsReused` | backend/main.py:185-196 | after the greatest key of a gap-free key set is deleted, the next store-assigned key is that same key |
| `Security.CreateAccessToken` | backend/main.py:29-34 | the issued token carries the given claims unchanged plus `exp` = issue time + 30 minutes, signed with the server's key and algorithm |
| `Security.Decode` | backend/main.py:46-52 | a token decodes only if it is signed with the server's key and algorithm, has not expired, and its `sub` is text whenever it is present; decoding returns exactly the signed claims. A token without `sub` decodes; only `Identity.CurrentUser` rejects it |
| `Security.TokenRoundTrip` | backend/main.py:29-52 | a token issued at time t decodes to its claims at every time up to t + 1800 s, and to nothing after that |
| `SqlLike.ContainsIsFoldedSubstring` | backend/main.py:96-99 | for a query without `%` or `_`, the title/content filter holds iff the query occurs in the field up to ASCII case |
| `SqlLike.OccurrencePassesFilter` | backend/routers/notes.py:37-40 | a field that contains the query verbatim always passes the filter, whatever characters the query has |
| `SqlLike.FilterIgnoresCase` | backend/main.py:98 | the filter treats `Alpha` as containing `alpha`, although that is not an exact substring |
| `NoteAccess.Stamp` | backend/routers/notes.py:20-25 | a created note's owner is the caller whatever owner the client sent; title and content are kept; the id is the allocated key |
| `NoteAccess.Listing` | backend/routers/notes.py:33-43 | the listing holds only the caller's notes, unchanged. If `q` is absent or empty it holds all of them. Otherwise it holds exactly those whose title OR content passes the filter |
| `NoteAccess.ListingBySubstring` | backend/main.py:93-102 | for a non-empty, wildcard-free query, a note is listed iff the caller owns it and the query occurs in its title or content up to ASCII case |
| `NoteAccess.ListingKeepsExactMatches` | backend/routers/notes.py:34-43 | every caller-owned note whose title or content contains the query verbatim is listed |
| `NoteAccess.UpdateCheck` | backend/routers/notes.py:50-56 | for the router's update: a missing id gives 404, then a non-owner gives 403; it passes iff the note exists and the caller owns it |
| `NoteAccess.DeleteCheck` | backend/routers/notes.py:65-73 | for the router's delete: a missing id gives 403 "notes not found", then a non-owner gives 403 "Not your own notes"; it passes iff the caller owns the note |
| `NoteAccess.ChecksDifferOnlyOnMissingNote` | backend/main.py:176-213 | update and delete admit the same callers; for a missing note their status codes differ (404 against 403) |
| `Identity.FirstUserKey` | backend/main.py:54-55 | the least key whose user has the name, or none iff no user has it |
| `Identity.Subject` | backend/main.py:47-50 | the `sub` claim of a token that decodes; none if decoding fails or `sub` is absent |
| `Identity.CurrentUser` | backend/main.py:37-58 | every failure is the same 401 credentials error. Success holds iff the token decodes with a `sub` that some user has, and the result is the first user of that name |
| `Identity.Login` | backend/main.py:104-122 | 401 unless the first user of the name exists and its stored hash verifies the password. On success the token type is "bearer" and the token is the one issued for `{sub: name}` at the current time |
| `Identity.LoginThenResolve` | backend/main.py:110-122 | a token from a successful login resolves to the user who logged in until 30 minutes after login, and to the 401 credentials error after that |
| `Identity.StoredHashAdmitsLogin` | backend/main.py:114 | if `verify` accepts what `hash` produced, the first user of a name logs in with the password whose hash is stored |
| `Identity.LaterNamesakeCannotLogIn` | backend/main.py:110-114 | a user whose name an earlier user also has cannot log in, even with its own password |
| `Identity.DeletedSubjectIsRejected` | backend/main.py:53-57 | a token whose subject's only user has been deleted resolves to the 401 credentials error |
| `Backend.ReadMyNotes` | backend/main.py:86-102 | 401 for an unresolved caller; otherwise the caller's listing for `q` |
| `Backend.UpdateNotes` | backend/main.py:171-182 | 401, then 404 for a missing id, then 403 for a non-owner; succeeds iff the caller owns the note; it is a function of the tables, so no note changes |
| `Backend.ReadUser` | backend/main.py:134-142 | fails (401) iff the caller does not resolve; otherwise returns every user |
| `Backend.OrphanedNotesPassToNextUser` | backend/main.py:185-196 | a deleted user's notes remain, and they are listed for the next user who receives the same key |
| `Backend.Store.CheckMyNotes` | backend/main.py:73-84 | 401 changes nothing. A taken client key gives 500 and changes nothing. Otherwise the note is added under its key and nothing else changes. Its owner is the key of the first user the token's subject names, because every user is stored under its own id |
| `Backend.Store.DeleteNotes` | backend/main.py:198-218 | 401, then 403 for a missing id, then 403 for a non-owner, each changing nothing; for the owner, exactly that note is removed. The router's delete (backend/routers/notes.py:58-77) is the same |
| `Backend.Store.CreateUser` | backend/main.py:124-132 | the user is stored under its own or a fresh key, with password = hash(supplied) and name and age as supplied; a taken key gives 500; notes unchanged |
| `Backend.Store.UpdateUser` | backend/main.py:145-169 | 404 if absent; 500 for an empty password; 500 if the new id is absent or belongs to another user. Otherwise the row moves to the new id with name, age and hash(new password). Notes are unchanged |
| `Backend.Store.DeleteUser` | backend/main.py:185-196 | 404 if absent and nothing changes; otherwise exactly that user is removed and every note stays |

## Left out

- HTTP routing, dependency injection, request parsing and response shaping are left out, being framework machinery. This includes the 401 for a missing `Authorization` header.
- `check_my_profile` returns the resolved caller as it is, so its behaviour is `Identity.CurrentUser`'s and it has no member of its own.
- The debugging `print` in `read_user` is left out: it is output only.
- bcrypt is left out because it is foreign code. `hash` is a field of `Store` and `verify` is a parameter of `Identity.Login`. `Identity.StoredHashAdmitsLogin` states what follows once `verify` accepts what `hash` produced.
- Backend.Store.CreateUser and Backend.Store.UpdateUser: `hash` is one fixed function, so the model gives equal passwords equal hashes. bcrypt draws a random salt on every call, which the model leaves out: two users with the same password store different hashes in the program.
- Security.Decode: the library's signature check is replaced by a symbolic one, because the cryptography is foreign. A `Signed` token with the server's key and algorithm is a valid signature; a `Garbled` token or any other key or algorithm is an invalid one.
- Security.Decode: `nbf`, `iat`, `aud` and the other registered claims are not checked, because the issuer never sets them. An `exp` that is not a number counts as a decoding failure, while the library would also accept a numeric string.
- The clock is the parameter `now`, in whole seconds.
- The SQLite engine, sessions and the database URL and dotenv setup (`backend/database.py`) are replaced by the in-memory maps. The engine's 64-bit key limit is not modelled, nor its random key choice after the largest possible key.
- Backend.Store.CreateUser and Backend.Store.UpdateUser: integers are unbounded, so they store any `age` and any `id`. In the program, a value outside the signed 64-bit range makes the insert or update fail with 500.
- Backend.UpdateNotes: its `Ok` means that both checks passed. The model does not state the 500 that the response validation then gives the owner.
- Backend.ReadMyNotes and Backend.ReadUser return the selected rows as a map from key to record. They do not state the order of the returned list, which is key order.
- Concurrent requests and transaction isolation are left out: each handler is modelled as one atomic step.
- The `dependencies` module that the router imports `get_current_user` from is not part of this model. The router's handlers are modelled with `Identity.CurrentUser`, the same check as in `backend/main.py`.
- The tests are left out. They call `/register` and `/`, which `backend/main.py` does not define.
