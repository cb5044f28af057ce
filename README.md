# Authentication and session core, modelled in Dafny

The model covers the decision logic of an authentication API. It is split into five pieces, one per source file:

- **Path gate** (`Auth`, `0x01-Basic_authentication/api/v1/auth/auth.py`). `require_auth` decides whether a request path needs authentication, given exempt patterns. A pattern is either an exact path or a prefix ending in `*`. The same file has the `Authorization` header accessor and the base `current_user`, which never identifies anyone.
- **Basic credentials** (`BasicAuth`, `0x02-Session_authentication/api/v1/auth/basic_auth.py`). This is the `Basic` scheme of RFC 7617 section 2. The code strips `Basic `, decodes Base64 (RFC 4648 section 4) and then UTF-8, and splits `user-id ":" password` at the first colon. It then looks the user up by email and checks the password. Every malformed stage gives None.
- **Expiring sessions** (`SessionExp`, `session_exp_auth.py`). This is an in-memory table from session id to `{user_id, created_at}`. The duration comes from the `SESSION_DURATION` setting. Lookup expires entries lazily: with a positive duration `d`, an entry stops resolving once `created_at + d < now`.
- **Persisted sessions** (`SessionDb`, `session_db_auth.py`). Each session is also stored as a `UserSession(user_id, session_id)` record. Lookup and destroy scan the records in storage order. The lookup applies no expiry.
- **User table** (`UserDb`, `0x03-user_authentication_service/db.py`). `add_user` appends a row with a fresh id. `find_user_by` demands exactly one matching row. `update_user` sets columns by name in argument order, and it is not rolled back when a later key is bad.

Supporting modules:

- `Wrappers` holds `Option` (Python's None) and `Result` (a value or the exception raised).
- `PyStr` models `startswith`, `endswith` and `split(sep, 1)`.
- `PyInt` models Python's `int()` on text and `str()` on integers, which the duration setting goes through.

How the model is shaped:

- The pure code (`auth.py`, `basic_auth.py`) is written as functions and lemmas.
- The code that changes state in place is written as classes whose methods have `modifies` clauses: `SessionExpAuth`, `SessionDBAuth` and `DB`.
- Each such method is proved against a function on values (`Resolve`, `FirstMatch`/`Lookup`/`RemoveFirst`, `Locate`/`ApplyKwargs`/`NextId`). Lemmas about those functions prove the properties.
- `SessionDBAuth` holds the `SessionExpAuth` state it inherits as a field, and its `CreateSession` calls the inherited method.

These collaborators become parameters:

- Base64 and UTF-8 decoding are `BasicAuth.Codecs`, partial functions where None is the library's exception.
- `User.search` and `is_valid_password` are `BasicAuth.Directory`.
- The clock is the `now` argument, in whole seconds.
- The parent `SessionAuth.create_session` result is the `parentSessionId` argument.
- `session_cookie(request)` is the `sessionCookie` argument.
- `getenv("SESSION_DURATION")` is the `setting` argument.

Points where the code behaves differently from what one might expect of it:

- `user_object_from_credentials` does not deny when several users share an email. It checks only the first search result (`BasicAuth.SeveralMatchesFirstDecides`).
- The persisted session variant is not equivalent to the in-memory one. Its lookup skips the expiry check (`SessionDb.StoredSessionOutlivesExpiry`).
- `update_user` accepts any column, including `id` and `email`.
- `SessionDBAuth.destroy_session` removes the stored record but not the inherited in-memory entry. The model keeps that: `DestroySession` modifies only `storage`.

## Model

| member | source | states |
|---|---|---|
| `PyStr.SplitOnce` | 0x02-Session_authentication/api/v1/auth/basic_auth.py:51-53 | `split(sep, 1)` gives one part exactly when `sep` is absent. Otherwise it gives two parts: the first has no `sep`, and `first + sep + second` is the input |
| `PyStr.SplitOnceOfJoin` | 0x02-Session_authentication/api/v1/auth/basic_auth.py:51-56 | splitting `a + sep + b`, where `a` has no `sep`, gives exactly `[a, b]` |
| `Auth.Exempts` | 0x01-Basic_authentication/api/v1/auth/auth.py:31-36 | every pattern exempts the identical path; a pattern without a trailing `*` exempts exactly that path; a `*` pattern exempts exactly the paths that agree with it, character by character, on everything before its `*` |
| `Auth.AnyExempts` | 0x01-Basic_authentication/api/v1/auth/auth.py:30-38 | the in-order scan with early return finds an exempting pattern iff one exists in the list |
| `Auth.RequireAuth` | 0x01-Basic_authentication/api/v1/auth/auth.py:13-38 | a None path, a None list and an empty list all give True; otherwise the result is False iff some pattern exempts the path (a `*` pattern by prefix, any other by equality) |
| `Auth.RequireAuthIgnoresOrder` | 0x01-Basic_authentication/api/v1/auth/auth.py:29-38 | two pattern lists containing the same patterns give the same decision for every path, whatever their order and repetitions |
| `Auth.ExactPatternExemptsOnlyItself` | 0x01-Basic_authentication/api/v1/auth/auth.py:35-36 | a pattern not ending in `*` exempts a path iff the path equals it |
| `Auth.NoTrailingSlashNormalisation` | 0x01-Basic_authentication/api/v1/auth/auth.py:35-36 | `/api/v1/status/` as an exact pattern does not exempt `/api/v1/status` but does exempt itself |
| `Auth.WildcardExemptsPrefix` | 0x01-Basic_authentication/api/v1/auth/auth.py:31-34 | a `*` pattern anywhere in the list exempts every path starting with the pattern minus its `*` |
| `Auth.StarExemptsEveryPath` | 0x01-Basic_authentication/api/v1/auth/auth.py:31-34 | a list containing the pattern `*` exempts every present path |
| `Auth.StatusWildcardExamples` | 0x01-Basic_authentication/api/v1/auth/auth.py:31-38 | the status wildcard exempts `/api/v1/status/x` and not `/api/v1/other` |
| `Auth.AuthorizationHeader` | 0x01-Basic_authentication/api/v1/auth/auth.py:40-52 | None without a request; otherwise present iff the request has an `Authorization` header, and then equal to its value |
| `Auth.CurrentUser` | 0x01-Basic_authentication/api/v1/auth/auth.py:54-63 | the base class never identifies a user |
| `BasicAuth.ExtractBase64AuthorizationHeader` | 0x02-Session_authentication/api/v1/auth/basic_auth.py:15-24 | present iff the header is present and starts with `Basic `; the header is then `Basic ` plus the result, so the result is exactly the suffix and may be empty |
| `BasicAuth.DecodeBase64AuthorizationHeader` | 0x02-Session_authentication/api/v1/auth/basic_auth.py:26-36 | None for a missing token, a Base64 failure or a UTF-8 failure; otherwise the UTF-8 text of the decoded bytes |
| `BasicAuth.ExtractUserCredentials` | 0x02-Session_authentication/api/v1/auth/basic_auth.py:38-56 | both parts present or both None; present iff the text exists and contains `:`; the email has no `:`, and `email + ":" + password` is the text |
| `BasicAuth.ExtractUserCredentialsRoundTrip` | 0x02-Session_authentication/api/v1/auth/basic_auth.py:50-56 | extracting from `e + ":" + p`, where `e` has no `:`, gives back `(e, p)` |
| `BasicAuth.UserObjectFromCredentials` | 0x02-Session_authentication/api/v1/auth/basic_auth.py:58-80 | a user iff both credentials are present, the search succeeds and is non-empty, and the first result passes the password check; that first result is the user |
| `BasicAuth.SeveralMatchesFirstDecides` | 0x02-Session_authentication/api/v1/auth/basic_auth.py:72-80 | with several users for one email, the first alone decides: it is returned when its password check passes, otherwise nothing is |
| `BasicAuth.CurrentUser` | 0x02-Session_authentication/api/v1/auth/basic_auth.py:82-105 | None when the request, header, token, decoded text or credentials are missing; otherwise `user_object_from_credentials` of the extracted pair |
| `BasicAuth.WellFormedHeaderAuthenticates` | 0x02-Session_authentication/api/v1/auth/basic_auth.py:82-105 | an `Authorization: Basic <token>` header whose token decodes to `email:password` (no colon in the email) authenticates exactly as that pair does |
| `BasicAuth.OtherSchemeIsDenied` | 0x02-Session_authentication/api/v1/auth/basic_auth.py:21-22 | a header that does not start with `Basic ` never yields a user |
| `PyInt.ParseInt` | 0x02-Session_authentication/api/v1/auth/session_exp_auth.py:18 | `int()` accepts only text that, after stripping whitespace, is non-empty and ends in a digit. A leading `-` gives a result ≤ 0, anything else a result ≥ 0. Unsigned accepted text is a digit string |
| `PyInt.ParseIntOfPadded` | 0x02-Session_authentication/api/v1/auth/session_exp_auth.py:16-18 | whitespace `int()` strips (ASCII tab to carriage return, space, and the Unicode spaces above U+007F, but not U+001C to U+001F) before and after text with no such whitespace at either end leaves the parse unchanged |
| `PyInt.ParseIntOfShow` | 0x02-Session_authentication/api/v1/auth/session_exp_auth.py:16-18 | `int(str(n)) == n` for every integer `n` |
| `PyInt.ParseIntPaddedExample` | 0x02-Session_authentication/api/v1/auth/session_exp_auth.py:16-18 | whitespace around the setting is ignored: `" 42\n"` parses to 42 |
| `PyInt.ParseIntSignExample` | 0x02-Session_authentication/api/v1/auth/session_exp_auth.py:16-18 | a leading sign is accepted: `"-7"` parses to -7 |
| `PyInt.ParseIntGroupsExample` | 0x02-Session_authentication/api/v1/auth/session_exp_auth.py:16-18 | single underscores between digits are accepted: `"1_000"` parses to 1000 |
| `PyInt.ParseIntRejectsWordsExample` | 0x02-Session_authentication/api/v1/auth/session_exp_auth.py:17-20 | the empty string and `"abc"` are not integers |
| `PyInt.ParseIntRejectsDoubleUnderscoreExample` | 0x02-Session_authentication/api/v1/auth/session_exp_auth.py:17-20 | `"1__0"` is not an integer |
| `PyInt.ParseIntRejectsSeparatorControlExample` | 0x02-Session_authentication/api/v1/auth/session_exp_auth.py:17-20 | `"\x1c42"` is not an integer: U+001C to U+001F are not stripped, so such a setting gives duration 0 |
| `PyInt.ParseIntRejectsFractionExample` | 0x02-Session_authentication/api/v1/auth/session_exp_auth.py:17-20 | `"3.5"` is not an integer |
| `SessionExp.ParseDuration` | 0x02-Session_authentication/api/v1/auth/session_exp_auth.py:16-20 | the duration is the integer `int()` makes of the setting, and 0 when the setting is absent or not an integer |
| `SessionExp.ParseDurationOfDecimal` | 0x02-Session_authentication/api/v1/auth/session_exp_auth.py:16-20 | a setting written as the decimal form of `n` configures exactly `n` seconds |
| `SessionExp.Resolve` | 0x02-Session_authentication/api/v1/auth/session_exp_auth.py:37-59 | None for a None id, an unknown id or an entry without `created_at`. Any user returned is the stored one. With duration ≤ 0 it returns the stored user at any time. With duration `d > 0` it returns the stored user while `now ≤ created_at + d`, and None once `created_at + d < now` |
| `SessionExp.ResolveAfterRecord` | 0x02-Session_authentication/api/v1/auth/session_exp_auth.py:29-59 | after recording `u` under an id at time `t`, that id resolves to `u` at any `t'` with `d ≤ 0` or `t' ≤ t + d`, and to None after that |
| `SessionExp.ResolveOtherIdsAfterRecord` | 0x02-Session_authentication/api/v1/auth/session_exp_auth.py:34 | recording one id changes what no other id resolves to |
| `SessionExp.ExpiredStaysExpired` | 0x02-Session_authentication/api/v1/auth/session_exp_auth.py:51-59 | an id that resolves to None at some time resolves to None at every later time |
| `SessionExp.ExpiryBoundary` | 0x02-Session_authentication/api/v1/auth/session_exp_auth.py:55-59 | with `d > 0`, a session created at `t0` resolves at `t0 + d - 1` and at `t0 + d` (strict comparison), and not at `t0 + d + 1` |
| `SessionExp.SessionExpAuth.constructor` | 0x02-Session_authentication/api/v1/auth/session_exp_auth.py:13-20 | the duration is `ParseDuration` of the setting and the table is empty |
| `SessionExp.SessionExpAuth.CreateSession` | 0x02-Session_authentication/api/v1/auth/session_exp_auth.py:22-35 | returns the parent's result. When that is None the table is unchanged. Otherwise the table gains `{user_id, created_at: now}` under that id, every other key keeps its value, and the id resolves to the user at every time up to `now + d` |
| `SessionExp.SessionExpAuth.UserIdForSessionId` | 0x02-Session_authentication/api/v1/auth/session_exp_auth.py:37-59 | returns `Resolve` of the current table, duration and clock, and modifies nothing, so expired entries stay stored |
| `SessionDb.FirstMatch` | 0x02-Session_authentication/api/v1/auth/session_db_auth.py:33-36 | the position of the first record, in storage order, with the given session id; None iff no record has it |
| `SessionDb.Lookup` | 0x02-Session_authentication/api/v1/auth/session_db_auth.py:26-38 | None for a None id, and None when no record has the id. Otherwise the user of the first record, in storage order, with that id. Any user returned belongs to a stored record with that session id |
| `SessionDb.RemoveFirst` | 0x02-Session_authentication/api/v1/auth/session_db_auth.py:50-57 | without a matching record, storage is unchanged. Otherwise exactly the first matching record is removed: the records before it and the records after it stay, in order, and the rest is a sub-multiset of the old storage |
| `SessionDb.LookupFindsUniqueRecord` | 0x02-Session_authentication/api/v1/auth/session_db_auth.py:33-38 | with unique ids, every stored session id resolves to its record's user |
| `SessionDb.LookupAfterAppend` | 0x02-Session_authentication/api/v1/auth/session_db_auth.py:22-24 | appending a record for an id not yet stored makes that id resolve to the record's user |
| `SessionDb.LookupOthersAfterAppend` | 0x02-Session_authentication/api/v1/auth/session_db_auth.py:22-24 | appending a record leaves the lookup of every other id unchanged |
| `SessionDb.DestroyedSessionIsGone` | 0x02-Session_authentication/api/v1/auth/session_db_auth.py:33-38 | with unique ids, after a destroy that id has no record left, so a second destroy returns False and a lookup returns None |
| `SessionDb.FirstMatchAfterRemoval` | 0x02-Session_authentication/api/v1/auth/session_db_auth.py:51-55 | removing a record whose id is not `other` leaves the lookup of `other` unchanged |
| `SessionDb.DestroyKeepsOtherSessions` | 0x02-Session_authentication/api/v1/auth/session_db_auth.py:51-55 | destroying one id leaves what every other id resolves to unchanged |
| `SessionDb.RemoveKeepsUnique` | 0x02-Session_authentication/api/v1/auth/session_db_auth.py:51-55 | removing a record keeps stored session ids unique |
| `SessionDb.SessionLifecycle` | 0x02-Session_authentication/api/v1/auth/session_db_auth.py:14-57 | for a fresh id: create, then resolve to the user, then destroy. Storage is back to what it was and the id resolves to None |
| `SessionDb.StoredSessionOutlivesExpiry` | 0x02-Session_authentication/api/v1/auth/session_db_auth.py:26-38 | a stored session is still found at a time when the inherited expiring table already treats it as expired |
| `SessionDb.SessionDBAuth.constructor` | 0x02-Session_authentication/api/v1/auth/session_db_auth.py:10-11 | the inherited state is as `SessionExpAuth.__init__` sets it, and storage holds the records already persisted |
| `SessionDb.SessionDBAuth.CreateSession` | 0x02-Session_authentication/api/v1/auth/session_db_auth.py:14-24 | returns the inherited `create_session` result. On None, neither the table nor storage changes. On an id, the inherited table is updated and exactly one `UserSession(user_id, id)` is appended |
| `SessionDb.SessionDBAuth.UserIdForSessionId` | 0x02-Session_authentication/api/v1/auth/session_db_auth.py:26-38 | the scan returns `Lookup` of the stored records: the first matching record's user, with no clock and no expiry |
| `SessionDb.SessionDBAuth.DestroySession` | 0x02-Session_authentication/api/v1/auth/session_db_auth.py:40-57 | False with storage unchanged when there is no request or no cookie. Otherwise it returns True iff some record has the cookie's id, and storage becomes `RemoveFirst`: only the first such record is gone |
| `UserDb.SetColumn` | 0x03-user_authentication_service/db.py:96-98 | setting one column gives it the new value and leaves every other column as it was |
| `UserDb.Locate` | 0x03-user_authentication_service/db.py:52-73 | a row only when every filter names a column and exactly one row matches all filters. `NoResultFound` iff the filters are valid and no row matches. `InvalidRequestError` iff some filter is not a column or two rows match. No other error |
| `UserDb.NextId` | 0x03-user_authentication_service/db.py:46-49 | the new id is above every existing id: one more than the largest one, or 1 for an empty table |
| `UserDb.ApplyKwargs` | 0x03-user_authentication_service/db.py:95-100 | the loop reports a bad key iff some key is not a column. The key reported is not a column, and every key before it is. Columns no key names keep their value |
| `UserDb.ApplyKwargsEffect` | 0x03-user_authentication_service/db.py:95-100 | the loop stops at the first key that is not a column, or at none. Each column assigned before that point holds the last value given for it, and every other column keeps its value: the partial update is not rolled back |
| `UserDb.ApplyDistinctColumns` | 0x03-user_authentication_service/db.py:95-98 | with distinct column keys, the update succeeds, every named column holds its value, and unnamed columns are unchanged |
| `UserDb.AddedUserFoundById` | 0x03-user_authentication_service/db.py:46-50 | a newly added row is the one row found by its id |
| `UserDb.DuplicateEmailIsAmbiguous` | 0x03-user_authentication_service/db.py:46-73 | adding two users with the same email is allowed, and finding by that email then raises `InvalidRequestError` |
| `UserDb.DB.constructor` | 0x03-user_authentication_service/db.py:18-24 | a new DB has an empty users table |
| `UserDb.DB.AddUser` | 0x03-user_authentication_service/db.py:35-50 | appends and returns one row with the given email and hashed password, id `NextId`, and null session id and reset token. The id differs from every existing id, and existing rows are untouched |
| `UserDb.DB.FindUserBy` | 0x03-user_authentication_service/db.py:52-73 | the row `Locate` picks, or the exception it names |
| `UserDb.DB.UpdateUser` | 0x03-user_authentication_service/db.py:75-102 | an unknown id gives `ValueError` and no change. Otherwise only that row changes, to what `ApplyKwargs` makes of it. The first non-column key gives `ValueError`, with earlier assignments kept |

## Left out

- `Auth.AuthorizationHeader`: the header name is matched exactly, whereas Flask's header lookup ignores case.
- `isinstance` checks in `basic_auth.py`: arguments are `Option<string>`. A non-string argument behaves like None in the source (None is returned), and it is not modelled separately.
- The `TypeVar` annotations in `auth.py` and `basic_auth.py`: `TypeVar` is not imported there. The model treats the two modules as if they load.
- `basic_auth.py` imports the `Auth` of its own project directory. That copy is not part of this model, and the `auth.py` of `0x01-Basic_authentication` stands in for it.
- Base64 and UTF-8 decoding, `User.search` and `User.is_valid_password` are library code, or code outside the five files modelled here. They are parameters (`Codecs`, `Directory`), not implementations.
- `SessionAuth` (the parent class) is not part of this model: its `create_session`, its id generation, `session_cookie`, and where `user_id_by_session_id` starts. Its create result and the cookie are parameters. The table starts empty for each object, although in the source it may be shared through the parent.
- `datetime.now()` and `timedelta` are integer seconds taken as the `now` argument; sub-second precision is not modelled. `getenv` is the `setting` argument.
- `PyInt.ParseInt`: only ASCII digits are accepted. `int()` also accepts other Unicode decimal digits.
- `PyInt.ParseIntOfShow`: holds for every integer in the model. CPython's `int()` refuses decimal text longer than 4300 digits (`sys.int_info.default_max_str_digits`), so in the source the round trip fails beyond that length.
- `SessionExp.Resolve`: integer seconds are unbounded in the model. In the source, `timedelta(seconds=session_duration)` raises `OverflowError` once the duration exceeds 999999999 days (about 8.64·10^13 seconds). `created_at + timedelta(...)` raises it once the sum passes `datetime.max` (year 9999), i.e. for positive durations above roughly 2.5·10^11 seconds. With such a duration, every lookup of a stored entry with a creation time raises, where the model returns the user. The same applies to `SessionExp.SessionExpAuth.UserIdForSessionId`.
- `models.storage`, `UserSession.save()`/`remove()` and file persistence: storage is a field holding the records in insertion order. It belongs to each `SessionDBAuth` object rather than being global state.
- `UserDb.DB.constructor`: each `DB` object has its own table. In the source, every `DB` opens the same file `sqlite:///a.db`, and a new `DB()` drops and recreates the table for all of them. That sharing is not modelled.
- SQLAlchemy and SQLite: the engine, the memoised session, `commit` and the identity map are left out. So are comparison by SQLite type affinity (filters compare values exactly), integrity errors at commit, and the random rowid chosen once the largest id reaches 2^63 - 1.
- `UserDb.DB.UpdateUser`: requires each value to fit the type of the column it names. A mismatch would only fail inside the storage engine, which is not modelled.
- `UserDb.DB.UpdateUser`: only the five columns count as attributes. `hasattr` is also true for other Python attributes of the mapped class (such as `metadata`); setting those is not modelled.
- `0x03-user_authentication_service/auth.py` (bcrypt hashing), `app.py` (HTTP routing) and `main.py` (HTTP client) are foreign or I/O code. `app.py` calls registration, login, session and reset-token operations (`register_user`, `valid_login`, `create_session`, `get_reset_password_token` and others) that `0x03-user_authentication_service/auth.py` does not define. Those operations are not modelled.
- Concurrency and store atomicity: the code has none.
