# Mergington High School activities API, modelled in Dafny

The system is a small web backend. Teachers log in with a username and
password. A login creates a session, and the browser carries its token in the
`session_token` cookie. A logged-in caller can sign students, identified by
email, up for extracurricular activities and take them off again. Anyone can
list the activities.

All state lives in memory in two mutable tables:

- the **session registry**, from token to username;
- the **activity catalog**, from activity name to a record with a
  description, a schedule, a `max_participants` number and an ordered roster
  of emails.

The teacher credentials are loaded once at start-up and never change.

The model has three modules:

- `Roster` (`roster.dfy`) states the Python list operations the handlers use
  on a roster. Membership is `in`, `append` is `+ [x]`, and `list.remove` is
  `RemoveFirst`, which deletes the first occurrence. The module proves the
  facts that keep a roster free of duplicates.
- `Catalog` (`catalog.dfy`) holds the activity record, the handler outcome
  with its HTTP status, and the seed catalog. It also holds signup and
  unregister as pure functions from the old catalog to an outcome and a new
  catalog, and the lemmas about them, such as the duplicate-free invariant,
  signup twice, unregister undoing signup, and capacity never being checked.
- `SchoolApi` (`app.dfy`) holds the class `Server` with the fields
  `sessions`, `teachers` (a `const`) and `activities`. The read-only
  endpoints are `reads this` functions. The four handlers that change state
  are `modifies this` methods. Their postconditions give the new state
  exactly in terms of `old(...)`, and they tie the catalog's new value to
  the `Catalog` functions. The module ends with a client method that runs
  the Chess Club walk-through from start-up to logout.

Conventions:

- The cookie is `NoCookie | Token(value)`. The handlers test it with Python
  truthiness (`if session_token and ...`), so an empty token counts as absent
  (`HasToken`).
- The login token is a parameter of `Login` that stands in for
  `secrets.token_urlsafe(32)`. Its precondition, non-empty and not already a
  key of `sessions`, is what that generator provides.
- The mutating methods do not require the object invariant `Valid()`. Each
  one promises `old(Valid()) ==> Valid()`. `Valid()` says three things: every
  session's username is a teacher, no session has the empty token, and no
  roster holds an email twice.

## Model

| member | source | states |
|---|---|---|
| `Roster.IndexOf` | src/app.py:197 | the position `list.remove` deletes at holds the email, and no earlier position does |
| `Roster.RemoveFirst` | src/app.py:197 | `list.remove` shortens the roster by one, and the result is the roster with exactly the first occurrence taken out, the elements before and after keeping their order |
| `Roster.AppendNoDuplicates` | src/app.py:165-172 | appending keeps a roster duplicate-free if and only if it was duplicate-free and did not already hold the email |
| `Roster.RemoveFirstMultiset` | src/app.py:197 | removal takes exactly one copy of the email out of the roster's multiset and nothing else |
| `Roster.RemoveFirstKeepsOthers` | src/app.py:197 | any other email is on the roster after removal if and only if it was before |
| `Roster.RemoveFirstNoDuplicates` | src/app.py:190-197 | on a duplicate-free roster, removal keeps it duplicate-free and leaves no copy of the email |
| `Roster.RemoveFirstOfAppend` | src/app.py:172-197 | removing an email just appended to a roster that lacked it gives back the original roster |
| `Catalog.Outcome.StatusCode` | src/app.py:147-168 | Unauthorized answers 401, NotFound answers 404, the two roster-membership errors answer 400, and only success answers 200 |
| `Catalog.Signup` | src/app.py:158-173 | NotFound if and only if the activity is unknown. AlreadyRegistered if and only if it exists and the email is on its roster. Both errors leave the catalog unchanged. Otherwise the email is appended to that roster, every other field and activity is unchanged, and the key set is the same. The capacity plays no part |
| `Catalog.Unregister` | src/app.py:183-198 | NotFound if and only if the activity is unknown. NotRegistered if and only if it exists and the email is not on its roster. Both errors leave the catalog unchanged. Otherwise the first occurrence is cut out, the roster is shorter by one, and everything else is unchanged |
| `Catalog.SignupKeepsRostersDistinct` | src/app.py:165-172 | signup preserves the invariant that no roster holds an email twice |
| `Catalog.UnregisterKeepsRostersDistinct` | src/app.py:190-197 | unregister preserves that invariant, and on success the email is no longer on the roster at all |
| `Catalog.UnregisterRemovesOneCopy` | src/app.py:197 | a successful unregister removes exactly one copy of the email from the roster's multiset |
| `Catalog.SignupTwice` | src/app.py:165-172 | signing up a new email twice succeeds, then answers AlreadyRegistered with no change, so the roster grows by exactly one |
| `Catalog.SignupIgnoresCapacity` | src/app.py:158-173 | a new email is appended even when the roster is already at or above `max_participants` |
| `Catalog.UnregisterUndoesSignup` | src/app.py:158-198 | unregistering an email right after signing it up succeeds and restores the catalog exactly |
| `Catalog.Seed` | src/app.py:44-99 | the nine seeded activities, field for field; its contract states the key set is exactly those nine names |
| `Catalog.SeedRostersDistinct` | src/app.py:44-99 | every seeded activity has two distinct students and a capacity above that, so the invariant holds at start-up |
| `Catalog.SeedChessClub` | src/app.py:45-50 | the seeded Chess Club has capacity 12 and the roster `michael@`, `daniel@` |
| `SchoolApi.Server.constructor` | src/app.py:27-99 | start-up has the credentials as loaded, no sessions and the seed catalog, and the invariant holds |
| `SchoolApi.Server.AuthStatus` | src/app.py:136-141 | reports authenticated if and only if the cookie is non-empty and a key of `sessions`, with `sessions[token]` as the user. Under the invariant, that user is a teacher |
| `SchoolApi.Server.RequireAuth` | src/app.py:144-148 | the guard admits exactly the callers that the status endpoint reports as authenticated, and yields the same username |
| `SchoolApi.Server.GetActivities` | src/app.py:107-109 | returns the whole live catalog, each record as it stands |
| `SchoolApi.Server.Login` | src/app.py:112-124 | succeeds if and only if the username is a teacher and the passwords match. It then adds exactly `token -> username` to `sessions`, and that token authenticates as that user. On failure it answers Unauthorized with `sessions` unchanged. The catalog never changes and the invariant is kept |
| `SchoolApi.Server.Logout` | src/app.py:127-133 | always succeeds. It removes the cookie's token from `sessions` and is a no-op when the token was not there, so it is idempotent. Afterwards the cookie does not authenticate. The catalog is unchanged |
| `SchoolApi.Server.SignupForActivity` | src/app.py:151-173 | without a session the answer is Unauthorized and the catalog is untouched, so authentication comes first. With one, the outcome and the new catalog are `Catalog.Signup` of the old catalog. `sessions` is never changed and the invariant is kept |
| `SchoolApi.Server.UnregisterFromActivity` | src/app.py:176-198 | the same guard, then the outcome and the new catalog are `Catalog.Unregister` of the old catalog. `sessions` is never changed and the invariant is kept |
| `SchoolApi.ChessClubScenario` | src/app.py:112-173 | from start-up: signup without a session answers Unauthorized, a teacher's login succeeds, and the same signup then succeeds and lists zoe@ as Chess Club's third participant. Repeating it answers AlreadyRegistered. After logout the token is refused |

## Left out

- FastAPI plumbing is not modelled: app construction, route decorators, the static-files mount and the root redirect (src/app.py:18-24, 102-104).
- `load_teachers` is not modelled because it is file I/O and JSON parsing (src/app.py:30-36). The credentials are a constructor parameter, fixed afterwards.
- `secrets.token_urlsafe(32)` is not modelled because it is randomness. The token is passed to `Login`, which requires it to be non-empty and absent from `sessions`.
- `secrets.compare_digest` is modelled as plain string equality. Its constant-time behaviour is a timing concern. Its `TypeError` on non-ASCII `str` arguments, which would surface as a server error, is not modelled.
- Setting and deleting the cookie, and its 24-hour max-age, are not modelled. They are response headers with no server-side state. Sessions never expire on the server, and the model keeps that.
- `LoginRequest` body validation and the response message texts are not modelled (src/app.py:39-41, 122, 133, 173, 198). A successful handler answers `Ok`.
- Concurrency is not modelled. The source has no locking, and each handler is modelled as one atomic step.
- The order of the `GET /activities` listing is not modelled. The source returns a dict whose insertion order (src/app.py:44-99, 109) is the JSON order; a Dafny `map` has no order. No handler depends on it.
