# Wellness tracker: account and check-in store

A Dafny model of the storage and session logic behind the wellness-tracker
app's three screens (`main.py`):

- **Login screen.** Registers accounts with a salted PBKDF2 password hash
  (`hash_password`) and logs users in by checking that hash
  (`verify_password`).
- **Check-in screen.** Saves a daily check-in: three scores, three
  gratitude texts and a free-text note.
- **Data view.** Lists the user's ten most recent check-ins, newest first.

The two SQLite tables (`users`, `checkins`) are sequences of rows in
insertion order. The app's `current_user_id` is an `Option<int>`. Together
they are the state of the `Tracker` class, and its invariant `Valid()`
holds:

- the ids of each table are positive and distinct;
- usernames are unique;
- every stored username and gratitude text is already stripped, and the
  three gratitude texts are non-empty;
- every check-in and the logged-in user refer to an existing user.

Every state-changing method preserves `Valid()`. Each method states its
whole new state, names which of the source's outcomes it reached, and
leaves the other fields unchanged.

Modules:

- `Wrappers`: `Option`.
- `Text`:
  - Python's `str.strip()` over the exact set of characters `str.isspace`
    accepts;
  - SQLite's BINARY text order, which `ORDER BY date_posted` uses. It is
    proved reflexive, total, antisymmetric and transitive.
- `Security`:
  - `hash_password` and `verify_password`. PBKDF2-HMAC-SHA256 is a
    deterministic but otherwise unknown function `kdf` from (password,
    salt) to a 32-byte key, the default length for SHA-256.
  - The 32 random bytes behind `secrets.token_hex(32)` are a parameter.
  - `bytes.hex()` is written out, and proved injective.
- `Tables`:
  - the row types and the table invariants;
  - the rowid SQLite assigns on insert (one more than the largest id);
  - the `SELECT ... WHERE username = ?` lookup.
- `Queries`: the data view's `SELECT ... WHERE user_id = ? ORDER BY
  date_posted DESC LIMIT 10`. It is a filter, an insertion sort and a
  take. An independent predicate `IsRecentPage` says what the query means,
  and the query is proved to meet it.
- `WellnessTracker`:
  - the login decision `Authenticate`;
  - class `Tracker` with `Register`, `Login`, `Logout` and `SaveCheckin`;
  - class `DataView`, whose `LoadData` clears and refills the list in a
    loop.
- `Scenario`: short client sessions (register twice; log in after
  registering; save while logged in; save after logout), checked against
  the contracts above.

Three behaviours of the code worth noting:

- **Equal timestamps.** The query has no tie-break, so SQLite may return
  check-ins with equal timestamps in any order. `IsRecentPage`, the
  statement of what the query promises, leaves that order open. The query
  function `RecentCheckins` must pick one order, and it keeps such rows in
  table order.
- **Username check.** `register` hashes the password before the `INSERT`,
  and the `UNIQUE` constraint detects a taken username. The model reaches
  the same outcome with a lookup, and no row is written.
- **Failed login.** A failed login leaves `current_user_id` as it was. It
  does not clear it.

## Model

| member | source | states |
|---|---|---|
| Text.Strip | main.py:108-113 | the stripped text is empty exactly when the input is all whitespace, which is when `not username` rejects it; otherwise it neither starts nor ends with whitespace and is no longer than the input |
| Text.StripIsSlice | main.py:108 | `strip()` removes only a whitespace prefix and a whitespace suffix: the result is a slice `s[i..j]` with whitespace before `i` and after `j` |
| Text.StripKeepsStripped | main.py:83 | a text already stripped (as every stored username is) is returned unchanged by `strip()` |
| Text.StripIdempotent | main.py:153-155 | stripping twice gives the same text as stripping once |
| Text.TextLe | main.py:231 | the BINARY order on `date_posted` texts; every text is ordered before-or-equal to itself |
| Text.TextLeTotal | main.py:231 | any two `date_posted` texts are comparable, so `ORDER BY` can order any rows |
| Text.TextLeAntisymmetric | main.py:231 | two texts each ordered before-or-equal to the other are equal |
| Text.TextLeTransitive | main.py:231 | the BINARY order is transitive |
| Security.Hex | main.py:67 | `bytes.hex()` gives two lower-case hex digits per byte |
| Security.HexInjective | main.py:72 | equal hex texts come from equal key bytes, so comparing hex strings compares keys |
| Security.HashPassword | main.py:63-67 | the (hash, salt) pair returned verifies with the same password (round trip with `verify_password`); the salt is 64 hex digits, and so is the hash |
| Security.VerifyPassword | main.py:69-72 | accepts when the hex text of the key rederived under the stored salt equals the stored hash; only a 64-digit hex text can be accepted |
| Security.VerifyOnlyMatchingKey | main.py:69-72 | a password verifies against a stored pair exactly when its derived key under that salt equals the registered password's |
| Security.DistinctTokensDistinctSalts | main.py:65 | two registrations drawing different random tokens store different salts |
| Tables.NextRowId | main.py:32 | the rowid given to a new row is at least 1 and larger than every id in the table (so it is fresh), and it is 1 or one more than an existing id |
| Tables.AppendUser | main.py:30-37 | appending a well-formed user with a fresh name and the next rowid keeps ids distinct and usernames unique, keeps the check-ins' user references valid and keeps every existing user id present |
| Tables.AppendCheckIn | main.py:40-53 | appending a well-formed check-in for an existing user with the next rowid keeps the `checkins` invariants |
| Tables.FindUser | main.py:92 | a row found has exactly the looked-up username and comes from the table; nothing is found exactly when no row has that username |
| Tables.FindUserUnique | main.py:92 | with unique usernames, looking up a row's username returns that row |
| Tables.FindUserAppended | main.py:122-123 | a row appended under a fresh name is the one a lookup of that name returns |
| Queries.OwnedBy | main.py:230 | `WHERE user_id = ?` keeps each of the user's rows with its multiplicity and no other row |
| Queries.InsertNewestFirst | main.py:231 | inserting a row into the ordered result adds exactly that row |
| Queries.InsertKeepsNewestFirst | main.py:231 | inserting into a newest-first sequence keeps it newest first |
| Queries.SortNewestFirst | main.py:231 | the ordering step is a permutation of its input |
| Queries.SortIsNewestFirst | main.py:231 | the ordering step yields rows in non-increasing `date_posted` order |
| Queries.LimitOfNewestFirst | main.py:232 | `LIMIT n` of a newest-first sequence keeps min(n, length) rows, newest first, and none it drops is newer than one it keeps |
| Queries.RecentCheckins | main.py:227-233 | the query's result meets `IsRecentPage`: min(10, number of the user's rows) rows, all the user's, all from the table, newest first, with no dropped row of the user newer than a returned one |
| Queries.RecentCheckinsIsPage | main.py:227-233 | filtering on `user_id`, sorting newest first and taking 10 meets `IsRecentPage` |
| Queries.NewestFirstOnlyTies | main.py:231 | two rows that a newest-first order lists out of `date_posted` order have equal timestamps, so ties are the only freedom the order leaves |
| Queries.RecentCheckinsAllWhenFew | main.py:227-233 | with at most 10 rows the user gets every one of their check-ins |
| Queries.RecentCheckinsEmpty | main.py:227-236 | a user with no check-ins gets an empty result, which the view shows as "No Check-ins Found" |
| Queries.LatestCheckInFirst | main.py:227-233 | a check-in posted strictly later than all the user's other rows is the first row the query returns |
| WellnessTracker.Authenticate | main.py:82-103 | login reports missing fields exactly when the stripped username or the password is empty; a success names a row with that exact username whose stored hash verifies |
| WellnessTracker.AuthenticateExactly | main.py:83-98 | with unique usernames, login succeeds with id `i` if and only if both fields are given and the row with id `i` has the stripped username and a hash the password verifies |
| WellnessTracker.NewUser | main.py:120-123 | the row `register` inserts: its stored hash and salt verify with the registered password, both are hex, and the salt is the hex text of the random token |
| WellnessTracker.LoginAfterRegister | main.py:92-98 | logging in with the name and password just registered yields the registered id |
| WellnessTracker.LoginRejectsOtherPassword | main.py:95-103 | a password whose derived key differs from the registered one is rejected for that user, with the same outcome as an unknown user |
| WellnessTracker.Tracker.constructor | main.py:24-56 | a new database has both tables empty and nobody logged in; the invariants hold |
| WellnessTracker.Tracker.Register | main.py:107-130 | empty fields, a password under 6 characters and a taken username are refused, each exactly when it occurs, and leave `users` unchanged; otherwise one row with the stripped name and the salted hash is appended under the next rowid; the invariants hold and nothing else changes |
| WellnessTracker.Tracker.InsertUser | main.py:122-124 | the `INSERT` appends exactly the given row and keeps the invariants |
| WellnessTracker.Tracker.Login | main.py:82-105 | the outcome is `Authenticate` on the table; `current_user_id` becomes the row's id on success and is otherwise unchanged; both tables are unchanged |
| WellnessTracker.Tracker.StartSession | main.py:97-98 | `current_user_id` becomes the given registered user's id, the invariants hold and neither table changes |
| WellnessTracker.Tracker.Logout | main.py:203-206 | `current_user_id` becomes None and neither table changes (the data view's `logout`, main.py:273-276, is the same code) |
| WellnessTracker.Tracker.SaveCheckin | main.py:144-185 | refused exactly when nobody is logged in, or (someone being logged in) exactly when a stripped gratitude text is empty, with no row written; otherwise exactly one row is appended with the current user, the timestamp, the scores and the stripped texts under the next rowid; the invariants hold and nothing else changes |
| WellnessTracker.Tracker.InsertCheckIn | main.py:176-182 | the `INSERT` appends exactly the given row and keeps the invariants |
| WellnessTracker.DataView.LoadData | main.py:216-243 | with nobody logged in the list is untouched; otherwise it holds one entry per row of the query, in the query's order, or the single "No Check-ins Found" item when there are none |
| WellnessTracker.DataView.Show | main.py:236-256 | the list is cleared and refilled with the summary of each row in order, or with the single empty-result item |

## Left out

- Kivy screens, navigation (`self.manager.current`), status-label messages and list-item widgets: these are UI. Each operation instead returns which outcome it reached.
- Opening and closing the SQLite connection and running the `CREATE TABLE IF NOT EXISTS` statements (main.py:18-59) are I/O. The constructor models a new, empty database. A database that already exists on disk is a `Tracker` in any state satisfying `Valid()`, which every method takes as given.
- PBKDF2-HMAC-SHA256, its iteration count and the UTF-8 encoding of password and salt: foreign cryptography, modelled as the unknown deterministic function `kdf`.
- `secrets.token_hex(32)` is a random source. Its 32 bytes are a parameter (`token`).
- `datetime.now()` is a clock. The timestamp text is a parameter (`now`).
- The slider values' float-to-int conversion (main.py:164-166): the scores are integer parameters.
- The broad `except Exception` paths (storage errors) in login, register, save and load, and the widget resets after a save (main.py:186-198): these are failures of the external store and UI actions.
- The foreign-key clause on `checkins.user_id` is not enforced by SQLite by default. The model instead keeps it as an invariant: only a logged-in, registered user can save.
- The constant-time comparison of password hashes: the source uses ordinary string equality, and timing is outside a functional model.
- WellnessTracker.DataView.LoadData: the entries hold the selected columns (`Summary`), not the formatted `%b %d, %I:%M %p` text or the "Invalid date format" fallback, because date formatting is left out.
- WellnessTracker.DataView.LoadData: the "Error Loading Data" item for a failing query is not modelled, because storage errors are left out.
- Tables.NextRowId: the 64-bit rowid ceiling, at which SQLite starts picking random unused ids, is not modelled. Ids are unbounded integers.
- Queries.RecentCheckinsIsPage: says nothing about the order of check-ins with equal timestamps, because the query names no tie-break.
- WellnessTracker.DataView.LoadData: among check-ins with equal timestamps, the model shows them in table order and decides by table order which of them survive `LIMIT 10`. SQLite does not promise this order. What every result is promised is `IsRecentPage`, which `RecentCheckins` ensures.
