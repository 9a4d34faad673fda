# Per-request authentication gate, in Dafny

This project models the OpenHIM-style authentication middleware of the
Hearth FHIR server (`lib/security/openhim-style-authentication.js`). It
proves properties of that model. For every request the gate runs these steps:

1. It reads the `auth-username`, `auth-ts`, `auth-salt` and `auth-token` headers.
2. It rejects a timestamp that lies outside a window of `authWindowSeconds` around now.
3. It looks the user up by email.
4. It refuses a locked account.
5. It recomputes the token as the hex SHA-512 of the stored `hash`, then the salt, then the timestamp, and compares it with `auth-token`.

There are four outcomes:

- a 401 with the login `Unauthorized` outcome (`Denied`);
- a 500 (`ServerError`);
- the sanitized user attached to `res.locals` and `next()` called (`Allowed`);
- `Uncaught`, where the user is found and unlocked but the stored `hash` is not a string. `hash.update` then throws inside the lookup callback, so no response is sent and `next` is not called.

Modules, one per part of the gate:

- `Wrappers`: `Option`.
- `Values`: the values a user document holds and JavaScript truthiness on them.
- `Dates`: ECMAScript time values, `TimeClip`, `setSeconds` arithmetic and `<` on dates, where NaN compares false.
- `Freshness`: `hasRequestExpired`.
- `Users`: the user record as a map, the `locked` test, and sanitization as key removal.
- `Token`: `userHash`.
- `Authentication`: headers, store, outcome, effects and `Authenticate`.
- `AuthenticationProperties`: lemmas relating several runs of the gate.

The foreign parts of the gate are inputs:

- the clock reading `now`, in milliseconds;
- the configured window, in seconds;
- `Date.parse`, a function to `Option<int>` where `None` is NaN;
- the hex SHA-512 digest, a function over the concatenated input;
- the store, either `Unreachable` (getDB fails) or `Connected(findOne)`, where `findOne` maps an email to `QueryError`, `NotFound` or `Found(user)`.

`Authenticate` returns the outcome together with the store calls it made (`GetDb`, then `FindOne(email)`). This is how the ordering properties are stated.

An unparseable timestamp does not fail closed. `new Date(NaN)` compares false against both bounds, so `hasRequestExpired` returns false and the request goes on to the lookup. `Freshness.HasRequestExpired` states this. `AuthenticationProperties.UnparseableCredentialNeverExpires` shows the consequence: a credential admitted with such a timestamp is admitted at every instant.

## Model

| member | source | states |
|---|---|---|
| `Dates.ReassembleTime` | lib/security/openhim-style-authentication.js:26-28 | splitting a time value into its day, hour, minute, second and millisecond fields (`Day`, `HourFromTime`, `MinFromTime`, `SecFromTime`, `msFromTime`) and rebuilding it with `MakeDate(Day, MakeTime(...))` gives the same value. This is the fact `setSeconds` relies on |
| `Dates.AddSeconds` | lib/security/openhim-style-authentication.js:25-28 | `d.setSeconds(d.getSeconds() + s)` follows the ECMAScript algorithm at a fixed UTC offset. It takes the local time's fields, replaces the seconds, rebuilds the date with `MakeTime` and `MakeDate`, converts back to UTC and applies `TimeClip`. Proved from that algorithm: the date moves by exactly s·1000 ms, and the result is NaN exactly when that leaves the ±8.64e15 ms range |
| `Dates.AddSecondsIgnoresOffset` | lib/security/openhim-style-authentication.js:25-28 | at a fixed UTC offset, which offset the server runs at does not change where `setSeconds` moves a date. So the model computes the bounds at offset 0 |
| `Freshness.HasRequestExpired` | lib/security/openhim-style-authentication.js:21-34 | an unparseable timestamp never expires. With both bounds valid dates, expired holds iff the instant is strictly before now − window·1000 or strictly after now + window·1000, so both bounds are inclusive. The same holds on every input when the window is non-negative, even if a bound leaves the date range. When the window pushes both bounds out of the date range, nothing expires. The comparisons `requestDate < from` and `requestDate > to` are `Dates.Before`, which is false when either side is NaN. The request date is `Freshness.RequestDate`: the parsed value passed through `Dates.TimeClip`, so a value outside ±8.64e15 ms is NaN like an unparseable one |
| `Freshness.UnparseableNeverExpires` | lib/security/openhim-style-authentication.js:30-33 | a timestamp the parser rejects is fresh at every instant and under every window. It is a corollary of the first clause of `Freshness.HasRequestExpired`, named for the replay consequence |
| `Freshness.NegativeWindowExpiresEveryDate` | lib/security/openhim-style-authentication.js:24-33 | with a negative window whose two bounds are both valid dates, `from` lies after `to`, so every valid request date is expired |
| `Freshness.FreshnessIsRelative` | lib/security/openhim-style-authentication.js:24-33 | for two valid request dates, each judged at an instant whose two bounds are valid dates, the freshness verdicts agree whenever the request dates lie at the same offset from their instants |
| `Users.Sanitize` | lib/security/openhim-style-authentication.js:83-84 | the sanitized user has no `hash` and no `salt`, keeps every other property with its value, and gains none |
| `Users.SanitizeIdempotent` | lib/security/openhim-style-authentication.js:83-85 | sanitizing again changes nothing, and sanitizing does not change whether the account reads as locked |
| `Token.UserHashDependsOnlyOnConcatenation` | lib/security/openhim-style-authentication.js:36-42 | the expected token is deterministic. It depends on user, salt and timestamp only through the concatenation of stored hash, salt and timestamp. This and `AuthenticationProperties.AllowedExactly` are the proved statements about the token. The expected token is `Token.UserHash`, which is `None` when `hash.update` would throw on a non-string stored `hash` |
| `Token.SaltTimestampBoundaryIsFree` | lib/security/openhim-style-authentication.js:38-40 | moving a character from the end of the salt to the front of the timestamp gives the same expected token. It is an instance of `Token.UserHashDependsOnlyOnConcatenation` |
| `Authentication.ReadClaim` | lib/security/openhim-style-authentication.js:46-51 | a claim is read iff all four credential headers are present and non-empty. Each claim field is the value of its own header. The truthiness test on one header is `Authentication.HeaderGiven` |
| `Authentication.Effects` | lib/security/openhim-style-authentication.js:53-89 | the modelling definition of the response and `next` calls of each outcome. Its contract: `next` is called iff the request is admitted, and it is the last effect. An admission attaches the outcome's user to `res.locals` before `next`, and no other user is ever attached. A denial or a store failure sends exactly one response and nothing else. Every response is the login 401 of a denial or the 500 of a store failure |
| `Authentication.Verify` | lib/security/openhim-style-authentication.js:74-90 | after the lookup: a query error is exactly a 500. An unknown user is denied. A locked user is denied. Admission holds iff the user is found, is unlocked and the token equals the expected one, and the attached user is the sanitized stored record. A throw happens iff an unlocked user's stored hash is not a string. `user.locked` is read with JavaScript truthiness by `Users.IsLocked`, which applies `Values.Truthy` (JavaScript ToBoolean) to the property |
| `Authentication.Authenticate` | lib/security/openhim-style-authentication.js:45-94 | the store calls are none, getDB alone, or getDB then findOne by the request's `auth-username`. Missing headers are denied with no store call. A 500 comes only from a store failure. An admitted user is the found record without `hash` and `salt`, with every other property unchanged |
| `AuthenticationProperties.MissingHeaderDenied` | lib/security/openhim-style-authentication.js:51-54 | any one credential header missing or empty gives a 401 with no store call, whatever the other inputs |
| `AuthenticationProperties.OutOfWindowDenied` | lib/security/openhim-style-authentication.js:56-59 | a timestamp that parses to a valid date (within ±8.64e15 ms) outside the inclusive window, whether too old or in the future, gives a 401 before any store call. The window is non-negative, or both its bounds are valid dates |
| `AuthenticationProperties.InWindowReachesStore` | lib/security/openhim-style-authentication.js:56-61 | a timestamp that parses to a valid date inside the window, bounds included, is never the reason for a denial, and the store is called. The window is non-negative, or both its bounds are valid dates |
| `AuthenticationProperties.UnparseableTimestampReachesStore` | lib/security/openhim-style-authentication.js:21-61 | with all headers given, an unparseable timestamp is not denied as expired, and the flow reaches the store |
| `AuthenticationProperties.StoreCalledIffPreChecksPass` | lib/security/openhim-style-authentication.js:51-68 | the store is called iff the header and freshness checks pass, and getDB is always the first call |
| `AuthenticationProperties.UncalledStoreIsIrrelevant` | lib/security/openhim-style-authentication.js:51-61 | when the store is not called, every other store yields the same decision |
| `AuthenticationProperties.OnlyTheQueriedEmailMatters` | lib/security/openhim-style-authentication.js:67-68 | two stores that agree on reachability and on the answer for the request's email yield the same decision |
| `AuthenticationProperties.ServerErrorExactlyOnStoreFailure` | lib/security/openhim-style-authentication.js:61-72 | a 500 happens iff the pre-checks pass and either getDB or findOne fails. It is one 500 response, never a 401 and never `next` |
| `AuthenticationProperties.UnknownOrLockedDeniedWhateverToken` | lib/security/openhim-style-authentication.js:74-80 | an unknown or locked user is denied, with the same decision for any two tokens, whatever the stored hash holds. The lock is checked before the token |
| `AuthenticationProperties.MalformedStoredHashThrows` | lib/security/openhim-style-authentication.js:77-81 | a found, unlocked user whose stored hash is missing or not a string makes the gate throw, with no response and no `next` |
| `AuthenticationProperties.AllowedExactly` | lib/security/openhim-style-authentication.js:81-86 | admission holds iff all of these hold: the headers are given, the request is fresh, the user is found and unlocked, and `auth-token` equals the digest of the stored hash, then the salt, then the timestamp. The attached user is the sanitized stored record. This is the direct statement of `Token.UserHash` inside the gate |
| `AuthenticationProperties.ExactlyOneTokenAdmits` | lib/security/openhim-style-authentication.js:81-90 | take a fresh request for an unlocked user with a string hash. Some token is admitted, and every admitted token equals the expected one |
| `AuthenticationProperties.ReplayWithinWindowAdmitted` | lib/security/openhim-style-authentication.js:21-34 | an admitted credential is admitted again, with the same decision, at any instant whose window still contains its timestamp. The timestamp must parse to a valid date, and the window must be non-negative or have both bounds valid at the new instant |
| `AuthenticationProperties.UnparseableCredentialNeverExpires` | lib/security/openhim-style-authentication.js:21-34 | an admitted credential whose timestamp does not parse is admitted at every instant and under every window |
| `AuthenticationProperties.DenialsAreIndistinguishable` | lib/security/openhim-style-authentication.js:51-90 | any two denials, whichever check failed, have the same visible effect: one 401 login `Unauthorized`. It holds by construction: every 401 site in the source is the same `res.status(401).send(...)` statement, and `Effects` maps every denial to that one response. The lemma restates that table |
| `AuthenticationProperties.NextCalledOnceOnlyWhenAllowed` | lib/security/openhim-style-authentication.js:81-90 | `next` is called exactly once on admission and never otherwise. An admitted request gets no response from the gate, and any other gets at most one. It holds by construction of `Effects`, which lists the `res` and `next` calls of each outcome. The lemma restates that table |

## Left out

- `perfomance/load.js` is left out. It is a k6 traffic generator that does only HTTP I/O.
- SHA-512 and hex encoding are a function parameter. That changing one input changes the token (collision resistance) cannot be stated about it.
- Token.UserHash: the digest is taken over the concatenated string. `hash.update` UTF-8-encodes each of the three pieces separately, and the two readings differ only when a lone surrogate sits at a boundary between pieces.
- `Date.parse` and the clock are inputs. The two `new Date()` reads are taken as one instant.
- Dates.AddSeconds: the UTC offset is fixed. A change of offset (daylight saving) between now and a bound is not modelled, although it shifts that bound by the change.
- `config.getConf` is replaced by an integer window parameter. A missing setting, which makes both bounds NaN so that nothing expires, is not modelled. Nor is a fractional or string-valued setting.
- Values.Value: numbers are integers, so fractions, NaN and -0 are not modelled. A Buffer-valued stored `hash`, which `hash.update` would accept, is treated as a non-string that throws.
- What happens to the process after the uncaught TypeError is not modelled. `Uncaught` records only that the gate sends no response and does not call `next`.
- The Mongo connection, the callback asynchrony and concurrency between requests are left out. The store is one answer per request.
- Winston logging is left out, including the `req.params.email` log strings. `DenialReason` marks which log line a denial takes and nothing more.
- The operation-outcome body construction is left out. A response is its status and an outcome tag.
- Single-use nonce tracking is left out because the source has none. The replay lemmas state the consequence.
- Freshness.HasRequestExpired: no clause covers a negative window with exactly one bound out of the date range. In that case the one valid bound still decides alone. For example, with now = 1e15 ms and a window of −8e12 s, a date of −8e15 ms is not expired, although the window is empty. Such a setting is a misconfiguration, and the model computes it as the code does.
- Users.Sanitize: the source deletes `hash` and `salt` from the fetched object in place and attaches that same object. The model builds a new map instead. Nothing else holds the fetched object, so the attached record is the same.
