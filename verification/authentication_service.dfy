/**
 The login-attempt throttle of the authentication service.

 A process-wide table maps each email to an attempt record. Every login check
 first records a failure for the email (the pre-check), which raises the
 lockout once the count reaches MAX_LOGIN_ATTEMPTS; only a successful login
 resets the record. The clock, the user lookup, the password comparison and
 the token generator are passed in.
 */
module AuthenticationService {

  /** Threshold at which a failed attempt is refused. */
  const MAX_LOGIN_ATTEMPTS: nat := 5
  /** Thirty minutes, in milliseconds. */
  const LOGIN_TIMEOUT_DURATION: int := 30 * 60 * 1000
  /** Stored password checked against when the email is unknown. */
  const PASSWORD_FILLER: string := "<RANDOM_PASSWORD_FILLER>"

  datatype Option<T> = None | Some(value: T)

  /** One entry of the table: `lastAttempt` is `None` where the source holds null. */
  datatype AttemptRecord = AttemptRecord(attempts: nat, lastAttempt: Option<int>)

  /** The record a missing entry is created as. */
  const FRESH: AttemptRecord := AttemptRecord(0, None)

  type AttemptTable = map<string, AttemptRecord>

  /** A record is consistent when it has a timestamp exactly when it has a count. */
  predicate WellFormed(rec: AttemptRecord) {
    rec.attempts == 0 <==> rec.lastAttempt.None?
  }

  predicate WellFormedTable(table: AttemptTable) {
    forall e :: e in table ==> WellFormed(table[e])
  }

  /** The record of `email`, reading a missing entry as the fresh record it would be created as. */
  function Entry(table: AttemptTable, email: string): AttemptRecord {
    if email in table then table[email] else FRESH
  }

  /** How a call of the attempt recorder ends: it returns, or it throws the lockout error. */
  datatype AttemptOutcome = Recorded | TooManyFailedAttempts

  datatype AttemptStep = AttemptStep(table: AttemptTable, outcome: AttemptOutcome)

  /**
   The effect of one call of the attempt recorder on the table at time `now`.
   The timestamp of a failure is written before it is compared with `now`,
   so the elapsed time is always zero and the reset branch is never taken.
   */
  function RecordAttempt(table: AttemptTable, email: string, success: bool, now: int): (r: AttemptStep)
    // a success never throws and leaves the email's record fresh
    ensures success ==> r.outcome == Recorded && r.table == table[email := FRESH]
    // a failure adds exactly one to the count and stamps the time
    ensures !success ==> r.table == table[email := AttemptRecord(Entry(table, email).attempts + 1, Some(now))]
    // a failure throws exactly when the raised count reaches the threshold, whatever the time
    ensures !success ==> (r.outcome == TooManyFailedAttempts <==> Entry(table, email).attempts + 1 >= MAX_LOGIN_ATTEMPTS)
    // only the given email's entry is created or changed
    ensures r.table.Keys == table.Keys + {email}
    ensures forall e :: e != email && e in table ==> r.table[e] == table[e]
    ensures WellFormed(r.table[email])
    ensures WellFormedTable(table) ==> WellFormedTable(r.table)
  {
    var entry := Entry(table, email);
    if success then
      AttemptStep(table[email := FRESH], Recorded)
    else
      var stamped := AttemptRecord(entry.attempts + 1, Some(now));
      if stamped.attempts >= MAX_LOGIN_ATTEMPTS then
        if now - stamped.lastAttempt.value < LOGIN_TIMEOUT_DURATION then
          AttemptStep(table[email := stamped], TooManyFailedAttempts)
        else
          AttemptStep(table[email := FRESH], Recorded)
      else
        AttemptStep(table[email := stamped], Recorded)
  }

  /** A stored user, as the lookup by email returns it. */
  datatype User = User(email: string, name: string, id: string, password: string)

  /** What the lookup by email yields: a user, no user, or a failed query. */
  datatype Lookup = Found(user: User) | NotFound | FetchFailed

  /**
   The collaborators of a login check: the user lookup, the password
   comparison (candidate, stored) and the token generator (email, id).
   */
  datatype Backend = Backend(
    getUserByEmail: string -> Lookup,
    passwordMatched: (string, string) -> bool,
    generateToken: (string, string) -> string)

  /** What a successful login returns. */
  datatype Session = Session(email: string, name: string, userId: string, token: string)

  /** How a login check ends: a session, or one of the three errors it can throw. */
  datatype LoginResult =
    | LoggedIn(session: Session)
    | WrongEmailOrPassword
    | TooManyAttempts
    | FailedToFetchUser

  datatype CheckStep = CheckStep(table: AttemptTable, result: LoginResult)

  /** The session issued to `user`. */
  function SessionFor(b: Backend, user: User): Session {
    Session(user.email, user.name, user.id, b.generateToken(user.email, user.id))
  }

  /** True when the credentials would be accepted: the user exists and the password matches. */
  predicate Accepted(b: Backend, email: string, password: string) {
    b.getUserByEmail(email).Found? && b.passwordMatched(password, b.getUserByEmail(email).user.password)
  }

  /**
   The effect of one login check at time `now`: a failure is recorded before
   the lookup, and a matching password then resets the record.
   */
  function CheckCredentials(table: AttemptTable, email: string, password: string, now: int, b: Backend): (r: CheckStep)
    // the lockout is decided by the count alone, before any lookup or password check
    ensures r.result == TooManyAttempts <==> Entry(table, email).attempts + 1 >= MAX_LOGIN_ATTEMPTS
    // a session is returned exactly when not locked out and the credentials are accepted
    ensures r.result.LoggedIn? <==> Entry(table, email).attempts + 1 < MAX_LOGIN_ATTEMPTS && Accepted(b, email, password)
    ensures r.result.LoggedIn? ==>
      && r.result.session == SessionFor(b, b.getUserByEmail(email).user)
      && r.table == table[email := FRESH]
    // an unknown email never logs in, even though the filler password is still compared
    ensures b.getUserByEmail(email).NotFound? ==> r.result in {WrongEmailOrPassword, TooManyAttempts}
    // a failed lookup is reported as such once the pre-check has passed
    ensures r.result == FailedToFetchUser <==>
      Entry(table, email).attempts + 1 < MAX_LOGIN_ATTEMPTS && b.getUserByEmail(email).FetchFailed?
    // otherwise refused credentials, known email or not, end in the wrong-credentials error
    ensures r.result == WrongEmailOrPassword <==>
      && Entry(table, email).attempts + 1 < MAX_LOGIN_ATTEMPTS
      && !b.getUserByEmail(email).FetchFailed?
      && !Accepted(b, email, password)
    // every other outcome has counted this call exactly once
    ensures !r.result.LoggedIn? ==>
      r.table == table[email := AttemptRecord(Entry(table, email).attempts + 1, Some(now))]
    ensures WellFormedTable(table) ==> WellFormedTable(r.table)
  {
    var pre := RecordAttempt(table, email, false, now);
    if pre.outcome == TooManyFailedAttempts then
      CheckStep(pre.table, TooManyAttempts)
    else
      var lookup := b.getUserByEmail(email);
      if lookup.FetchFailed? then
        CheckStep(pre.table, FailedToFetchUser)
      else
        var userPassword := if lookup.Found? then lookup.user.password else PASSWORD_FILLER;
        var passwordChecked := b.passwordMatched(password, userPassword);
        if lookup.Found? && passwordChecked then
          var post := RecordAttempt(pre.table, email, true, now);
          CheckStep(post.table, LoggedIn(SessionFor(b, lookup.user)))
        else
          CheckStep(pre.table, WrongEmailOrPassword)
  }

  /** The module-level attempt table and the two functions that use it. */
  class LoginGuard {
    var loginAttempts: AttemptTable

    ghost predicate Valid()
      reads this
    {
      WellFormedTable(loginAttempts)
    }

    /** The table starts empty when the process starts. */
    constructor ()
      ensures Valid() && loginAttempts == map[]
    {
      loginAttempts := map[];
    }

    /** Records one attempt for `email`; `outcome` tells whether the call threw the lockout. */
    method HandleLoginAttempt(email: string, success: bool, now: int) returns (outcome: AttemptOutcome)
      requires Valid()
      modifies this
      ensures Valid()
      ensures RecordAttempt(old(loginAttempts), email, success, now) == AttemptStep(loginAttempts, outcome)
    {
      if email !in loginAttempts {
        loginAttempts := loginAttempts[email := FRESH];
      }
      var rec := loginAttempts[email];
      if success {
        rec := rec.(attempts := 0);
        rec := rec.(lastAttempt := None);
        loginAttempts := loginAttempts[email := rec];
        return Recorded;
      }
      rec := rec.(attempts := rec.attempts + 1);
      rec := rec.(lastAttempt := Some(now));
      outcome := Recorded;
      if rec.attempts >= MAX_LOGIN_ATTEMPTS {
        if now - rec.lastAttempt.value < LOGIN_TIMEOUT_DURATION {
          outcome := TooManyFailedAttempts;
        } else {
          rec := FRESH;
        }
      }
      loginAttempts := loginAttempts[email := rec];
    }

    /** One login check: the pre-check, the lookup, the password comparison and, on a match, the reset. */
    method CheckLoginCredentials(email: string, password: string, now: int, b: Backend) returns (result: LoginResult)
      requires Valid()
      modifies this
      ensures Valid()
      ensures CheckCredentials(old(loginAttempts), email, password, now, b) == CheckStep(loginAttempts, result)
    {
      var pre := HandleLoginAttempt(email, false, now);
      if pre == TooManyFailedAttempts {
        return TooManyAttempts;
      }
      var lookup := b.getUserByEmail(email);
      if lookup.FetchFailed? {
        return FailedToFetchUser;
      }
      var userPassword := if lookup.Found? then lookup.user.password else PASSWORD_FILLER;
      var passwordChecked := b.passwordMatched(password, userPassword);
      if lookup.Found? && passwordChecked {
        var _ := HandleLoginAttempt(email, true, now);
        return LoggedIn(SessionFor(b, lookup.user));
      } else {
        return WrongEmailOrPassword;
      }
    }
  }
}
