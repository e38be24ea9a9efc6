# Authentication core of alx-backend-user-data, in Dafny

This project models the authentication logic of the four exercise folders of
the repository, one Dafny module per source file:

- **Path exclusion gate** (`require_auth`) in its two generations: the
  Basic-auth membership test (`BasicAuthBase`) and the Session-auth version
  with wildcard entries ending in `*` (`SessionAuthBase`). The Session-auth
  version keeps the source's scanning loop as the method `RequireAuth`. That
  method is proved equal to the predicate `RequiresAuth` ("no entry excludes
  the normalised path"), and the properties of the gate are stated about that
  predicate.
- **Basic header prefix extraction** (`BasicAuth`): the exact, case-sensitive
  `"Basic "` prefix, with its round trip.
- **Session stores with lazy expiry**: `SessionExpiry.SessionExpAuth` keeps a
  map from session id to `{user_id, created_at}`. `SessionDb.SessionDBAuth`
  keeps a table of `UserSession` records, looks sessions up by their first
  record, and adds `destroy_session`. Both share one expiry rule,
  `SessionExpiry.StillValid`. Expired entries are never purged.
- **Request gate** (`App`): choosing the auth variant from `AUTH_TYPE`, and the
  `before_request` chain. The chain ends in pass, current user attached,
  401 or 403.
- **Login and logout views** (`SessionViews`): the ordered 400/400/404/401
  checks, and one session created on success.
- **User table** (`UserDb.DB`): `add_user` and `find_user_by` over an
  in-memory `users` table, with the whitelist of filter keys.
- **Log redaction** (`FilteredLogger`): `filter_datum` as a loop over the
  fields. Each `re.sub` is a recursive left-to-right rewrite, `Redact`.

Time, id generation and the collaborators the modelled code calls but does not
define are explicit parameters:

- `now` is an integer number of seconds.
- `freshId` stands for `uuid4()`.
- `parentSessionId` is what the parent class's `create_session` answers.
- `sessionCookie` is what `session_cookie(request)` answers.
- `basicUser` is what the Session API's `BasicAuth.current_user` answers.
- `isValidPassword` stands for `User.is_valid_password`.
- The stored users are a sequence searched in order, as `User.search(...)[0]`
  does.

Every "first record that matches" lookup uses one generic search,
`Search.FirstWhere`. This covers the session table, the stored users and the
`users` table.

Python's `None` is `Option.None`. An input that may be "None or not a
string" is `None` in both cases, because the source treats the two alike.

## Model

| member | source | states |
|---|---|---|
| Text.WithTrailingSlash | 0x02-Session_authentication/api/v1/auth/auth.py:21-23 | the normalised path ends with `/`, starts with the path, is at most one longer, and equals the path when it already ends with `/` |
| Text.WithTrailingSlashTolerant | 0x01-Basic_authentication/api/v1/auth/auth.py:21-23 | normalising is idempotent, and a path without a trailing `/` normalises to the same string as the path with one |
| Text.TakeIsPrefixTest | 0x02-Session_authentication/api/v1/auth/auth.py:34 | comparing `path[:len(p)]` with `p` is exactly a prefix test |
| BasicAuthBase.RequireAuth | 0x01-Basic_authentication/api/v1/auth/auth.py:11-26 | no authentication is required iff the path is non-empty and the exclusion list holds the path itself (when it ends with `/`) or the path followed by `/` (when it does not) |
| BasicAuthBase.EmptyInputsRequireAuth | 0x01-Basic_authentication/api/v1/auth/auth.py:17-19 | a missing or empty path or exclusion list means authentication is required |
| BasicAuthBase.RequireAuthSlashTolerant | 0x01-Basic_authentication/api/v1/auth/auth.py:21-23 | `/x` and `/x/` always get the same answer |
| BasicAuthBase.RequireAuthIsNonMembership | 0x01-Basic_authentication/api/v1/auth/auth.py:25-26 | otherwise authentication is required iff the normalised path is not in the list |
| BasicAuthBase.AuthorizationHeader | 0x01-Basic_authentication/api/v1/auth/auth.py:28-29 | always None |
| BasicAuthBase.CurrentUser | 0x01-Basic_authentication/api/v1/auth/auth.py:31-32 | always None |
| BasicAuth.ExtractBase64AuthorizationHeader | 0x01-Basic_authentication/api/v1/auth/basic_auth.py:10-19 | a result exists iff the header is a string starting with exactly `"Basic "`; the header is then `"Basic "` followed by the result, which is 6 characters shorter |
| BasicAuth.ExtractAfterPrefix | 0x01-Basic_authentication/api/v1/auth/basic_auth.py:19 | round trip: extracting from `"Basic " + s` gives `s` |
| BasicAuth.ExtractRejectsOtherSchemes | 0x01-Basic_authentication/api/v1/auth/basic_auth.py:15-17 | `"basic x"`, `"Basicx"`, `"Bearer xxx"` and `"Basic"` give None |
| SessionAuthBase.RequireAuth | 0x02-Session_authentication/api/v1/auth/auth.py:11-38 | the scanning loop answers exactly `RequiresAuth`: False iff some entry excludes the normalised path |
| SessionAuthBase.EmptyInputsRequireAuth | 0x02-Session_authentication/api/v1/auth/auth.py:17-19 | a missing or empty path or exclusion list means authentication is required |
| SessionAuthBase.RequiresAuthSlashTolerant | 0x02-Session_authentication/api/v1/auth/auth.py:21-23 | `/x` and `/x/` always get the same answer |
| SessionAuthBase.SlashEntryExcludesExactly | 0x02-Session_authentication/api/v1/auth/auth.py:27-30 | an entry ending in `/` excludes exactly the paths whose normalised form equals it |
| SessionAuthBase.WildcardEntryExcludesPrefix | 0x02-Session_authentication/api/v1/auth/auth.py:32-35 | an entry ending in `*` excludes exactly the paths whose normalised form starts with the entry minus its `*` |
| SessionAuthBase.WildcardExamples | 0x02-Session_authentication/api/v1/auth/auth.py:32-35 | `/api/public*` excludes `/api/publicfoo` and `/api/public/` |
| SessionAuthBase.InertEntryIgnored | 0x02-Session_authentication/api/v1/auth/auth.py:25-35 | an entry ending in neither `/` nor `*`, wherever placed, never changes the answer |
| SessionAuthBase.OrderIrrelevant | 0x02-Session_authentication/api/v1/auth/auth.py:25-38 | two lists with the same entries give the same answer, whatever their order or repetitions |
| SessionAuthBase.AgreesWithMembershipGate | 0x01-Basic_authentication/api/v1/auth/auth.py:11-26 | for lists whose entries all end in `/`, the wildcard-aware gate agrees with the membership gate |
| SessionAuthBase.AuthorizationHeader | 0x02-Session_authentication/api/v1/auth/auth.py:40-47 | a value exists iff there is a request with an `Authorization` header, and it is that header's value |
| SessionAuthBase.CurrentUser | 0x02-Session_authentication/api/v1/auth/auth.py:49-51 | always None |
| SessionExpiry.DurationFromSetting | 0x02-Session_authentication/api/v1/auth/session_exp_auth.py:17-22 | a missing or non-integer `SESSION_DURATION` gives 0, an integer gives itself |
| SessionExpiry.ExpiryIsPermanent | 0x02-Session_authentication/api/v1/auth/session_exp_auth.py:65-68 | once expired at some time, a session is expired at every later time |
| SessionExpiry.SessionExpAuth.constructor | 0x02-Session_authentication/api/v1/auth/session_exp_auth.py:15-22 | the store starts empty, with the configured duration |
| SessionExpiry.SessionExpAuth.UserIdForSessionId | 0x02-Session_authentication/api/v1/auth/session_exp_auth.py:44-71 | a user id is only ever the one stored for that session id; the lookup is a read and changes nothing |
| SessionExpiry.SessionExpAuth.CreateSession | 0x02-Session_authentication/api/v1/auth/session_exp_auth.py:24-42 | no parent id (or an empty one) gives None and an unchanged map; otherwise the map gains `sid -> {user_id, now}`, every other entry is kept, `sid` is returned, and looking it up at `now` gives the user id for any duration |
| SessionExpiry.UnknownSessionHasNoUser | 0x02-Session_authentication/api/v1/auth/session_exp_auth.py:48-50 | an id not in the map gives None |
| SessionExpiry.UnboundedSessionsNeverExpire | 0x02-Session_authentication/api/v1/auth/session_exp_auth.py:55-57 | with duration <= 0 the stored user id is returned however old the entry |
| SessionExpiry.MissingCreationTimeRefused | 0x02-Session_authentication/api/v1/auth/session_exp_auth.py:61-63 | with duration > 0 an entry without `created_at` gives None |
| SessionExpiry.StoredSessionLifetime | 0x02-Session_authentication/api/v1/auth/session_exp_auth.py:44-71 | in a store kept by its own constructor and `create_session` (every entry has `created_at`), a stored session answers its owner until `created_at + duration` inclusive, for ever when the duration is not positive, and None afterwards |
| SessionExpiry.LookupExpiresAfterDuration | 0x02-Session_authentication/api/v1/auth/session_exp_auth.py:65-71 | with duration > 0 the result is None iff `now > created_at + duration`, else the stored user id |
| SessionExpiry.SixtySecondExample | 0x02-Session_authentication/api/v1/auth/session_exp_auth.py:65-71 | with a 60 s duration: found at `t0+59` and `t0+60`, None at `t0+61` |
| Search.FirstWhere | 0x03-user_authentication_service/db.py:65-70 | the index found satisfies the condition and no earlier element does; None iff no element does |
| SessionDb.FirstSession | 0x02-Session_authentication/api/v1/auth/session_db_auth.py:36-40 | the index found holds the id and no earlier record does; None iff no record holds it |
| SessionDb.RemoveOnlyMatch | 0x02-Session_authentication/api/v1/auth/session_db_auth.py:75-77 | removing the only record of an id from a table of distinct ids keeps ids distinct and leaves none with that id |
| SessionDb.SessionDBAuth.constructor | 0x02-Session_authentication/api/v1/auth/session_exp_auth.py:17-22 | an empty table with the configured duration |
| SessionDb.SessionDBAuth.UserIdForSessionId | 0x02-Session_authentication/api/v1/auth/session_db_auth.py:32-58 | a user id is only returned when some record carries the session id |
| SessionDb.SessionDBAuth.CreateSession | 0x02-Session_authentication/api/v1/auth/session_db_auth.py:14-30 | a non-string user id gives None and stores nothing; otherwise exactly one record `{fresh id, user_id, now}` is appended and its id returned; a fresh id resolves to the user at `now`; distinct ids stay distinct |
| SessionDb.SessionDBAuth.DestroySession | 0x02-Session_authentication/api/v1/auth/session_db_auth.py:60-79 | True iff there is a request, a non-empty cookie value and the session resolves now to a non-empty user id; then exactly the first matching record is removed, else nothing changes; with distinct ids the session then resolves to None at every time |
| SessionDb.LookupUsesFirstRecord | 0x02-Session_authentication/api/v1/auth/session_db_auth.py:36-58 | the first record with the id decides: its user id while it is alive, else None |
| SessionDb.UnknownSessionHasNoUser | 0x02-Session_authentication/api/v1/auth/session_db_auth.py:36-40 | no record with the id gives None |
| SessionDb.ExpiredSessionResolvesToNone | 0x02-Session_authentication/api/v1/auth/session_db_auth.py:46-55 | with duration > 0 a first record without creation time, or past `created_at + duration`, gives None |
| App.SelectAuth | 0x02-Session_authentication/api/v1/app.py:16-31 | `auth`, `basic_auth`, `session_auth` select Auth, BasicAuth, SessionAuth; any other value leaves authentication unset |
| App.CurrentUser | 0x02-Session_authentication/api/v1/app.py:51-55 | only the Basic variant can resolve a user; Auth and SessionAuth answer None |
| App.BeforeRequest | 0x02-Session_authentication/api/v1/app.py:34-55 | an abort is 401 or 403; a user is attached only under BasicAuth and is the one it resolved; anything but a plain pass happens only on a protected path |
| App.NoAuthPassesEverything | 0x02-Session_authentication/api/v1/app.py:39-40 | with no auth configured every request passes |
| App.ExcludedPathPasses | 0x02-Session_authentication/api/v1/app.py:42-46 | an excluded path passes whatever its headers |
| App.StatusPagesPass | 0x02-Session_authentication/api/v1/app.py:42-46 | the status, unauthorized and forbidden paths, each with and without its trailing `/` (six paths), pass whatever the headers |
| App.UsersPathIsProtected | 0x02-Session_authentication/api/v1/app.py:42-46 | `/api/v1/users` is not excluded |
| App.MissingHeaderIsUnauthorized | 0x02-Session_authentication/api/v1/app.py:48-49 | on a protected path a missing or empty header gives 401, whatever the current user |
| App.NoCurrentUserIsForbidden | 0x02-Session_authentication/api/v1/app.py:51-52 | a present header but no current user gives 403 |
| App.ResolvedUserAttached | 0x02-Session_authentication/api/v1/app.py:54-55 | otherwise the request carries the resolved user |
| App.PlainAndSessionNeverAuthenticate | 0x02-Session_authentication/api/v1/app.py:48-52 | under Auth or SessionAuth a protected path always aborts |
| SessionViews.FirstWithEmail | 0x02-Session_authentication/api/v1/views/session_auth.py:28-32 | the index found holds the email and no earlier user does; None iff no user has it |
| SessionViews.LoginDecision | 0x02-Session_authentication/api/v1/views/session_auth.py:18-36 | success only with both fields present, for a stored user with that email whose password is valid; failures are 400, 401 or 404 |
| SessionViews.MissingEmailFirst | 0x02-Session_authentication/api/v1/views/session_auth.py:18-21 | a missing or empty email gives 400 "email missing" whatever the password |
| SessionViews.MissingPasswordSecond | 0x02-Session_authentication/api/v1/views/session_auth.py:23-26 | then a missing or empty password gives 400 "password missing" |
| SessionViews.UnknownEmailNotFound | 0x02-Session_authentication/api/v1/views/session_auth.py:28-32 | then no user with that email gives 404 |
| SessionViews.FirstUserDecides | 0x02-Session_authentication/api/v1/views/session_auth.py:28-36 | the first user with the email is checked: wrong password gives 401, right password logs that user in |
| SessionViews.Login | 0x02-Session_authentication/api/v1/views/session_auth.py:10-50 | a refusal answers the decision's error and creates no session; a success creates exactly one session for `user.id` and sets the cookie to its id |
| SessionViews.Logout | 0x02-Session_authentication/api/v1/views/session_auth.py:53-67 | success iff there is a request and a non-empty cookie naming a live session with a non-empty owner; on success exactly the first record with that id is removed, and with distinct ids the session then resolves to None at every time; otherwise the table is unchanged |
| UserDb.FirstMatch | 0x03-user_authentication_service/db.py:65-66 | the index found satisfies every filter and no earlier row does; None iff no row does |
| UserDb.FindByEmailAfterAdd | 0x03-user_authentication_service/db.py:34-49 | round trip: after appending a row with email `e`, filtering by `email=e` finds a row with email `e` |
| UserDb.DB.constructor | 0x03-user_authentication_service/db.py:17-23 | a new database has an empty users table |
| UserDb.DB.AddUser | 0x03-user_authentication_service/db.py:34-49 | exactly one row with the email, hashed password and next id is appended and returned; existing rows are unchanged |
| UserDb.DB.FindUserBy | 0x03-user_authentication_service/db.py:51-73 | InvalidRequestError iff some key is outside the whitelist, even if a row would match; NoResultFound iff keys are valid and no row matches; otherwise the first row satisfying every filter |
| FilteredLogger.FirstSep | 0x00-personal_data/filtered_logger.py:48 | the position found holds the separator and none between the start and it does; None iff no separator follows |
| FilteredLogger.Redact | 0x00-personal_data/filtered_logger.py:48-49 | one `re.sub`: an empty line stays empty and only an empty line becomes empty; what it does to each part of a line is stated by PlainTextPreserved, NoKeyNoChange, ValueRedacted, NoSeparatorNoChange and KeyNotAnchored |
| FilteredLogger.FilterDatum | 0x00-personal_data/filtered_logger.py:35-50 | the loop applies the fields in list order, each rewrite working on the previous result |
| FilteredLogger.NoFieldsNoChange | 0x00-personal_data/filtered_logger.py:46-50 | with no fields the message is returned unchanged |
| FilteredLogger.PlainTextPreserved | 0x00-personal_data/filtered_logger.py:48-49 | text in which no `field=` starts is copied unchanged |
| FilteredLogger.NoKeyNoChange | 0x00-personal_data/filtered_logger.py:48-49 | a message without `field=` is unchanged |
| FilteredLogger.ValueRedacted | 0x00-personal_data/filtered_logger.py:48-49 | `field=<value><sep>`, the value holding no separator, becomes `field=<redaction><sep>`, and the rest is rewritten on its own |
| FilteredLogger.ValueRedactedChar | 0x00-personal_data/filtered_logger.py:48-49 | the same for a one-character separator absent from the value |
| FilteredLogger.NoSeparatorNoChange | 0x00-personal_data/filtered_logger.py:48 | a `field=` with no separator after it is left unredacted |
| FilteredLogger.KeyNotAnchored | 0x00-personal_data/filtered_logger.py:48 | matching is not anchored at a key boundary: text before `field=` does not stop the redaction |
| FilteredLogger.NameRedactsUsername | 0x00-personal_data/filtered_logger.py:48 | field `name` turns `username=bob;` into `username=***;` |

## Left out

- Base64 decoding, credential splitting and the Basic `current_user` of the
  Session-auth API are not part of this model. Their files are not among
  those modelled. `App.BeforeRequest` takes that user as the parameter
  `basicUser`.
- Password hashing with bcrypt (`hash_password`, `_hash_password`) is left
  out. It wraps a library with random salts.
- `User.is_valid_password`, `User.search`, `to_json`, the `UserSession`
  `save`/`search`/`remove` methods and `created_at` belong to
  `models/base.py` and `models/user.py`. Those files are not part of this
  model. They are parameters or plain sequences here: `save` appends a
  record, `remove` deletes that one record, and `search` returns matches in
  storage order.
- The parent `create_session` that `SessionExpAuth.create_session` calls is
  not defined in the repository, because `SessionAuth` is empty
  (`0x02-Session_authentication/api/v1/auth/session_auth.py`). Its answer
  is the parameter `parentSessionId`. `session_cookie` is likewise the
  parameter `sessionCookie`.
- `uuid4()`, `datetime.now()`/`utcnow()` and the environment variables
  (`AUTH_TYPE`, `SESSION_DURATION`, `SESSION_NAME`) are not read. They are
  parameters. The cookie name plays no part in any decision, so it is not
  modelled.
- `SessionViews.Login` creates the session in a `SessionDBAuth` store, the
  only `create_session` whose code does not depend on an undefined parent.
  `app.py` never selects `SessionDBAuth`, and `SessionAuth` has no
  `create_session`.
- `SessionViews.Logout`: the failure branch calls `abort`, which the module
  never imports. It is modelled only as "not logged out", not as a 404 or 500
  response.
- `user_id_by_session_id` is a class attribute shared by every instance.
  Here it is one store owned by one object. Concurrent access is not
  modelled.
- `SessionDb.SessionDBAuth.CreateSession` does not check that `uuid4`'s id
  is unused, and neither does the source. The round trip and the distinct-ids
  invariant are therefore stated for a fresh id.
- `UserDb.DB.FindUserBy`: `.first()` is taken to return the first matching
  row in insertion order. A filter value whose type differs from its column
  never matches. SQLite's own type coercion is not modelled.
- `FilteredLogger.FilterDatum`: field names and the separator are taken
  literally. A regular-expression metacharacter in them would change the
  pattern, and the `.` of the pattern would stop at a newline. Neither is
  modelled. `RedactingFormatter.format`, `get_logger`, `get_db` and `main`
  are logging and MySQL I/O.
- `FilteredLogger.Redact`: the replacement `f'{f}={redaction}{separator}'` is
  an `re.sub` template, so a backslash in the redaction, field or separator
  would be read as an escape or a group reference (`\n`, `\1`). The model
  copies the replacement literally.
- `Models.Request`: the web framework looks up header names case-insensitively
  (`request.headers.get('Authorization')` also finds `authorization`). The
  model looks up the exact key `Authorization`, so `SessionAuthBase.AuthorizationHeader`
  and `App.BeforeRequest` assume headers arrive under their canonical name.
- Flask plumbing (error handlers, CORS, blueprints, `app.run`, response
  objects) and the 0x03 Flask app and its test script are left out.
  Their routes call `Auth` methods that do not exist in the 0x03 `auth.py`.
