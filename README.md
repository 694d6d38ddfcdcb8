# Notes service handlers, modelled in Dafny

This project models the request handlers of a small multi-user notes backend. Users register with an email and a password, then log in to get a bearer token. With that token they create, list, read and delete their own text notes.

The store is two tables kept in memory as sequences of rows in insertion order:

- `users`: rows `User(id, email, passwordHash)`;
- `notes`: rows `Note(id, title, content, userId)`.

The class `NotesApi.NotesApp` holds both tables. Its invariant `Valid()` requires:

- emails are unique;
- the primary keys of both tables are positive and distinct;
- every note's owner exists;
- every stored note has a non-empty title and a non-empty content.

The handlers come in two kinds:

- the three that change the tables are methods: `Register`, `CreateNote` and `DeleteNote`;
- the three read-only queries are functions of the tables: `Login`, `GetNotes` and `GetNote`.

Each handler returns a `Response`:

- `Ok(body)` for a 200 response;
- `Err400`, `Err401` or `Err404` for the HTTP errors the handlers raise;
- `Err422` when request-body validation rejects the input before the handler runs;
- `Err500` when the handler crashes.

Module `Tables` models the queries the handlers run: a lookup by email, the listing of one owner's notes, a lookup by note id and owner, removal of a row, and the key a new row gets. The lemmas about them are in the same module. The key follows SQLite's rule for an integer primary key without AUTOINCREMENT: one more than the largest key in the table, or 1 when the table is empty.

Password hashing is abstract. A `Crypt` value holds two functions:

- `hash(password, salt)`: the salt stands for the randomness of the salted hash;
- `verify(password, stored)`: checks a password against a stored hash.

The only property ever assumed of these functions is `RoundTrips`: a password verifies against its own hash. It is a precondition of `NotesApi.RegisteredUserCanLogIn` and of the sign-up scenario, and of nothing else.

Tokens carry only their subject claim. The protected handlers receive a token that has already been verified.

Two client methods walk through the sign-up and note flows; Dafny verifies both, and each step follows from the handlers' contracts:

- `NotesApi.SignUpScenario`: register; a duplicate register is refused; a short password is refused; login issues a token for the email; a wrong password is refused.
- `NotesApi.NoteScenario`: create a note; list it; a second user can neither read nor delete it; delete it; it is gone.

A token's subject may name no user. The handlers treat that case differently:

- `create_note` checks for it and answers 401.
- `get_notes`, `get_note` and `delete_note` use `user.id` without checking, so they crash. The model answers `Err500` for that case, not 401.

## Model

| member | source | states |
|---|---|---|
| `Records.Response.Status` | backend/main.py:126-127 | a response is 200 exactly when it is `Ok`; every error outcome has a 4xx or 5xx code |
| `Tables.NextId` | backend/main.py:43 | a new key is greater than every key in use and one more than some key in use (so one more than the largest), or 1 for an empty table |
| `Tables.NextIdIsFresh` | backend/main.py:52 | a new key is positive, is not in use, and keeps the keys positive and distinct |
| `Tables.FindUserByEmail` | backend/main.py:125 | the result is the first user with the email; it is none exactly when no user has that email |
| `Tables.FindStoredUser` | backend/main.py:44 | with unique emails, looking up a stored user's email returns that user |
| `Tables.FindUserAfterAppend` | backend/main.py:128-130 | after appending a user, a lookup returns the earlier match if one exists, else the new user if its email matches, else none |
| `Tables.AppendFreshEmail` | backend/main.py:125-130 | appending a user whose email matches no user keeps emails unique |
| `Tables.NotesOf` | backend/main.py:162 | a note is listed exactly when it is in the table and owned by the given user |
| `Tables.NotesOfConcat` | backend/main.py:162 | the listing of two concatenated tables is the concatenation of their listings |
| `Tables.NotesOfSingle` | backend/main.py:162 | a single note is listed for its owner and for nobody else |
| `Tables.AppendNoteListing` | backend/main.py:151-153 | appending a note adds it at the end of its owner's listing and changes no other user's listing |
| `Tables.AppendNoteKeepsTables` | backend/main.py:151-153 | appending a valid note with the next key and an existing owner keeps keys distinct, owners existing and texts non-empty |
| `Tables.OwnedNote` | backend/main.py:180 | the note returned is in the table and matches both the id and the owner; there is none exactly when no note matches both |
| `Tables.FindOwnedNote` | backend/main.py:170 | the result is the first position whose note matches both the id and the owner; it is none exactly when no note matches both |
| `Tables.FindById` | backend/main.py:170 | reference search by id alone: none exactly when no note has the id, otherwise a note with that id |
| `Tables.OwnedNoteSeesOnlyOwnList` | backend/main.py:170-172 | a lookup by id and owner yields exactly what a search by id within the owner's own listing yields |
| `Tables.ForeignNotesInvisible` | backend/main.py:170-172 | two tables with the same notes for a user answer every lookup by that user alike, whether found or not |
| `Tables.InsertForeignNote` | backend/main.py:180-182 | inserting another user's note anywhere in the table does not change any lookup by this user |
| `Tables.RemoveAt` | backend/main.py:183 | removing a position drops that one row; the rows before it and after it keep their order |
| `Tables.RemoveAtExactlyOne` | backend/main.py:183 | with distinct keys, the removed note is gone, every note with another id stays, and keys stay distinct |
| `Tables.RemoveAtOthersUnchanged` | backend/main.py:183 | removing a note leaves every other user's listing unchanged |
| `Records.ValidUserCreate` | backend/main.py:73 | a register or login body is accepted only with a password of at least six characters |
| `Records.ValidNoteIn` | backend/main.py:83-84 | a note body is accepted only with a non-empty title and a non-empty content |
| `NotesApi.NotesApp.Valid` | backend/main.py:43-55 | the store invariant: unique emails, positive distinct keys in both tables, every note's owner exists, every note's text non-empty; it implies no row appears twice in either table |
| `NotesApi.NotesApp.constructor` | backend/main.py:61 | the store starts with empty tables and satisfies the invariant |
| `NotesApi.NotesApp.Register` | backend/main.py:123-132 | a short password gives 422 and a taken email gives 400, both leaving the tables unchanged; otherwise exactly one user is appended with a fresh id, the email, and the salted hash of the password; the response is that user without the hash; the invariant is kept |
| `NotesApi.NotesApp.Login` | backend/main.py:134-141 | a short password gives 422; no user with the email gives 401; every outcome is a token, 422 or 401, and a valid body that fails is always 401, in particular when the first user with the email has a hash the password does not verify against; on success the token's subject is the email and its type is `bearer`; with unique emails, success holds exactly when a user with the email has a hash the password verifies against |
| `NotesApi.NotesApp.CreateNote` | backend/main.py:144-155 | an empty title or content gives 422; a subject naming no user gives 401; both leave the tables unchanged; otherwise exactly one note is appended with a fresh id, the given text and the caller as owner; the caller's listing gains just that note; other users' listings and the users table are unchanged |
| `NotesApi.NotesApp.GetNotes` | backend/main.py:157-163 | the result is 500 exactly when the subject names no user; otherwise it holds exactly that user's notes, in table order |
| `NotesApi.NotesApp.GetNote` | backend/main.py:165-173 | 500 exactly when the subject names no user; otherwise success exactly when some note has both the id and the caller as owner, and the note returned is such a note; every other case is the same 404 |
| `NotesApi.NotesApp.DeleteNote` | backend/main.py:175-185 | 500 exactly when the subject names no user; otherwise success exactly when a note matches both id and owner; success makes the table the old one with exactly that row removed and every other row in order, and leaves other users' listings and the users table unchanged; a missing note and another user's note give the same 404 and change nothing |
| `NotesApi.RegisteredUserCanLogIn` | backend/main.py:128-141 | after a user is appended to a table where its email was free, as register does, login with the same email and password returns a bearer token for that email |
| `NotesApi.OwnerCanGetStoredNote` | backend/main.py:151-173 | with distinct note ids, every stored note is returned to its owner when the owner asks for its id |
| `NotesApi.GetNoteIgnoresOtherUsers` | backend/main.py:165-173 | two stores with the same users that agree on the caller's notes give the same response to every single-note request from the caller |

## Left out

- Database plumbing is not modelled: the engine, the session lifecycle, schema creation, and commit/refresh (backend/main.py:25-31, 61, 109-114). The tables are in-memory sequences, and every handler is a single atomic step.
- bcrypt is not modelled (backend/main.py:34-38). `Crypt` is abstract, and the only property assumed is that a password verifies against its own hash. Nothing is assumed about a wrong password failing to verify; the sign-up scenario assumes it for its one sample password.
- JWT is not modelled: issuing, signing and expiry, `jwt_required`, the secret key and its environment loading, and the `AuthJWTException` handler (backend/main.py:16-26, 64-69, 117-119, 146, 159, 167, 177). The handlers take an already verified `Token`, so a missing, malformed or expired token has no outcome in the model. Login's token is just its subject.
- `EmailStr` format validation and normalisation are not modelled (backend/main.py:72, 77). An email is an opaque string standing for the already-normalised value (whitespace stripped, domain lower-cased), so `a@X.com` and `a@x.com` are one account only once normalised. The 422 for a malformed email is not produced.
- The `created_at` and `updated_at` timestamps are not modelled (backend/main.py:46, 56-57, 78, 89). They come from the clock and no handler reads them. `UserOut` and the returned note therefore omit them.
- The ORM relationships `notes` and `owner` are not modelled (backend/main.py:48, 59). No handler uses them.
- CORS and HTTP routing are not modelled (backend/main.py:94-107).
- Concurrent requests are not modelled. Two registrations of the same email racing past the duplicate check, and the database's unique-constraint error in that race, do not arise in a sequential model.
- Rows come back in insertion order, the store default for queries without an ORDER BY.
- Keys are unbounded integers. SQLite's fallback when the largest rowid reaches 2^63-1 (it then picks a random unused key) is not modelled.
