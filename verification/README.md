# Login-attempt throttle of the authentication service

This project is a Dafny model of the login check in
`src/api/components/authentication/authentication-service.js`.

The service keeps one process-wide table, `loginAttempts`. It maps each email
to a record `{attempts, lastAttempt}` and creates that record lazily as
`{0, null}`.

`handleLoginAttempt(email, success)` updates the record:
- A success resets it.
- A failure adds one to `attempts` and stamps `lastAttempt` with the current time.
- When the raised count reaches `MAX_LOGIN_ATTEMPTS` (5), the failure throws
  `Too many failed login attempts`.

`checkLoginCredentials(email, password)` works in this order:
1. It records a failure first (the pre-check).
2. It looks the user up.
3. It compares the password with the stored hash. An unknown email is compared
   with a filler string instead.
4. On a match it records a success and returns `{email, name, user_id, token}`.
   Otherwise it throws `Wrong email or password`.

## How the model is laid out

- `authentication_service.dfy`, module `AuthenticationService`:
  - The constants and the attempt record.
  - `RecordAttempt` and `CheckCredentials`, pure functions giving the effect of
    one call on the table.
  - The class `LoginGuard`. Its field `loginAttempts: map<string, AttemptRecord>`
    is the module-level table. Its methods `HandleLoginAttempt` and
    `CheckLoginCredentials` update the table step by step as the code does.
    Each method is proved to agree with the matching function.
  - The thrown errors are the values of `AttemptOutcome` and `LoginResult`.
- `throttle_properties.dfy`, module `ThrottleProperties`: `RunChecks`, which
  serves a sequence of login checks, and lemmas about runs of checks.

## Collaborators

These are parameters of the model, gathered in the datatype `Backend`:
- The repository's `getUserByEmail`. It yields a user, no user, or a failed
  query; the failed query is the repository's `Failed to fetch user by email`
  error, which the check throws on.
- `passwordMatched`.
- `generateToken`.

`Date.now()` is the parameter `now`.

## Behaviour the model follows

The comments at lines 58 and 62 describe a lockout that lifts after
`LOGIN_TIMEOUT_DURATION` (30 minutes). The code cannot do that:
- Line 54 writes `lastAttempt := now` just before line 59 compares
  `now - lastAttempt` with the timeout.
- So the elapsed time is always 0, and the reset at lines 63-64 never runs.
- The model keeps that branch and proves it unreachable. `RecordAttempt`
  throws exactly when the raised count reaches 5, at any time.

Because the pre-check runs before the password is checked:
- The fifth check in a row is refused even with the correct password.
- For checks that do not overlap, a locked email can no longer reach the success
  path, so the lock lasts as long as the process does (`LockIsPermanent`,
  `LockOutlastsTimeout`). Overlapping checks are described under "Left out".

A rejected check is recorded once: line 27 throws without a second call to
`handleLoginAttempt` (`RejectedChecksAccumulate`).

## Model

| member | source | states |
|---|---|---|
| `AuthenticationService.RecordAttempt` | src/api/components/authentication/authentication-service.js:34-67 | A success never throws and leaves the email's record at `{0, null}`. A failure raises the count by exactly one and stamps `now`. A failure throws exactly when the raised count is at least 5, whatever the clock says. Only the given email's entry is created or changed, and the key set grows by that email alone. Every call keeps `attempts == 0 <==> lastAttempt == null`. |
| `AuthenticationService.CheckCredentials` | src/api/components/authentication/authentication-service.js:9-32 | The lockout error is raised exactly when the email's count was already at least 4, before any lookup, whatever the password. A session is returned exactly when there is no lockout, the user exists and the password matches. The session holds the stored email, name and id and the token generated for them, and the count is then reset. An unknown email never logs in. A failed lookup is reported exactly when the pre-check passed and the query failed. The wrong-credentials error is returned exactly when the pre-check passed, the query did not fail and the credentials are refused, for a known or an unknown email. Every outcome other than a session counts the call exactly once, with no second recording. |
| `AuthenticationService.LoginGuard.constructor` | src/api/components/authentication/authentication-service.js:7 | The table starts empty and consistent. |
| `AuthenticationService.LoginGuard.HandleLoginAttempt` | src/api/components/authentication/authentication-service.js:34-67 | The in-place updates (lazy insertion, reset, increment and stamp, the timeout comparison) leave the table and the outcome exactly as `RecordAttempt` gives them. The consistency invariant is kept. |
| `AuthenticationService.LoginGuard.CheckLoginCredentials` | src/api/components/authentication/authentication-service.js:9-32 | The sequence pre-check, lookup, password comparison against the stored or filler password, then reset on a match leaves the table and the result exactly as `CheckCredentials` gives them. The invariant is kept. |
| `ThrottleProperties.RunChecks` | src/api/components/authentication/authentication-service.js:7-32 | Serving a sequence of checks against the shared table gives exactly one result per check. |
| `ThrottleProperties.RunPreservesWellFormed` | src/api/components/authentication/authentication-service.js:34-67 | Every table reached by any sequence of checks still has `attempts == 0 <==> lastAttempt == null` for every email. |
| `ThrottleProperties.OtherEmailsUntouched` | src/api/components/authentication/authentication-service.js:34-41 | Checks for other emails neither create nor change an email's record. |
| `ThrottleProperties.LockIsPermanent` | src/api/components/authentication/authentication-service.js:53-65 | Once an email's count is at least 4, every later check for it that does not overlap another check is refused with the lockout, whatever its password or time. The count grows by one per such check. |
| `ThrottleProperties.RejectedChecksAccumulate` | src/api/components/authentication/authentication-service.js:9-28 | A run of checks with wrong credentials for one email raises the count by the length of the run. The i-th check of the run is refused with the lockout exactly when the count it raises reaches 5, and otherwise fails with wrong email or password. |
| `ThrottleProperties.FifthCheckLockedEvenWithCorrectPassword` | src/api/components/authentication/authentication-service.js:9-18 | For an email never seen before, four rejected checks fail with wrong email or password. A fifth check with the correct password is refused with the lockout. |
| `ThrottleProperties.SuccessRestartsCount` | src/api/components/authentication/authentication-service.js:45-54 | A successful check below the threshold returns the session and clears the record. A following rejected check leaves the count at 1, stamped with its time. |
| `ThrottleProperties.LockOutlastsTimeout` | src/api/components/authentication/authentication-service.js:57-65 | A failure recorded 30 minutes or more after the previous one still throws once the threshold is reached. The count keeps growing instead of restarting. |

## Left out

- The database query, the bcrypt comparison and the token signer are parameters. Their own behaviour is not modelled. They are fixed functions for a whole run of checks (`RunChecks` passes one `Backend`), so the user table never changes between checks, and a token depends only on the user's email and id, whereas a real signer also reads the clock.
- A rejected `passwordMatched` promise (a hashing error) is not modelled. The comparison is a total function, while a failed user lookup is modelled.
- Each login check runs as one atomic step. In the code, `checkLoginCredentials` awaits the lookup and the comparison, so concurrent checks for the same email can interleave between the pre-check and the reset. A check already past its pre-check can therefore still clear a lock set in the meantime: from a count of 3, check A with the correct password raises it to 4 and awaits the lookup, check B raises it to 5 and is refused, and then A matches and resets the count to 0. `LockIsPermanent` holds only for checks that do not overlap. `handleLoginAttempt` itself has no `await` and runs to completion.
- The success path reads the clock a second time. The model passes the same `now`, which that path never uses.
- The table is a plain JavaScript object. An email equal to an inherited property name (`toString`, `constructor`, `__proto__`) finds a truthy entry that is not an attempt record, so its count becomes `NaN` and never locks. The model treats the table as an ordinary dictionary.
- The count is a JavaScript number, exact up to 2^53. The model uses an unbounded `nat`.
- The repository layer, the bangking and mBanking services, controllers, validators and routers are not part of this model. They are database calls, hashing calls, request handlers and schema declarations around the login check.
- Records are never evicted or persisted, and the model does not add either.
