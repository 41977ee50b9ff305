/**
 Properties of successive login checks against one attempt table: the count
 of consecutive rejected checks, the lockout that never lifts, and the
 independence of different emails.
 */
module ThrottleProperties {
  import opened AuthenticationService

  /** One inbound login check: the email, the candidate password and the clock reading. */
  datatype Request = Request(email: string, password: string, now: int)

  datatype Trace = Trace(table: AttemptTable, results: seq<LoginResult>)

  /** The table after serving `reqs` in order, and the result of each check. */
  function RunChecks(table: AttemptTable, reqs: seq<Request>, b: Backend): (r: Trace)
    ensures |r.results| == |reqs|
    decreases |reqs|
  {
    if reqs == [] then Trace(table, [])
    else
      var step := CheckCredentials(table, reqs[0].email, reqs[0].password, reqs[0].now, b);
      var rest := RunChecks(step.table, reqs[1..], b);
      Trace(rest.table, [step.result] + rest.results)
  }

  /** The number of requests in `reqs` for `email`. */
  function CountFor(reqs: seq<Request>, email: string): nat {
    if reqs == [] then 0
    else (if reqs[0].email == email then 1 else 0) + CountFor(reqs[1..], email)
  }

  /** Every table reached from a consistent table is consistent. */
  lemma {:induction false} RunPreservesWellFormed(table: AttemptTable, reqs: seq<Request>, b: Backend)
    requires WellFormedTable(table)
    ensures WellFormedTable(RunChecks(table, reqs, b).table)
    decreases |reqs|
  {
    if reqs != [] {
      var step := CheckCredentials(table, reqs[0].email, reqs[0].password, reqs[0].now, b);
      RunPreservesWellFormed(step.table, reqs[1..], b);
    }
  }

  /** Checks for other emails neither create nor change the record of `email`. */
  lemma {:induction false} OtherEmailsUntouched(table: AttemptTable, reqs: seq<Request>, b: Backend, email: string)
    requires forall i :: 0 <= i < |reqs| ==> reqs[i].email != email
    ensures email in RunChecks(table, reqs, b).table <==> email in table
    ensures Entry(RunChecks(table, reqs, b).table, email) == Entry(table, email)
    decreases |reqs|
  {
    if reqs != [] {
      var step := CheckCredentials(table, reqs[0].email, reqs[0].password, reqs[0].now, b);
      OtherEmailsUntouched(step.table, reqs[1..], b, email);
    }
  }

  /**
   Once an email's count has reached MAX_LOGIN_ATTEMPTS - 1, every later check
   for it is refused with the lockout, whatever the password and however much
   time has passed, and each such check still adds one to the count.
   */
  lemma {:induction false} LockIsPermanent(table: AttemptTable, reqs: seq<Request>, b: Backend, email: string)
    requires Entry(table, email).attempts + 1 >= MAX_LOGIN_ATTEMPTS
    ensures forall i :: 0 <= i < |reqs| && reqs[i].email == email ==>
      RunChecks(table, reqs, b).results[i] == TooManyAttempts
    ensures Entry(RunChecks(table, reqs, b).table, email).attempts == Entry(table, email).attempts + CountFor(reqs, email)
    decreases |reqs|
  {
    if reqs != [] {
      var step := CheckCredentials(table, reqs[0].email, reqs[0].password, reqs[0].now, b);
      assert Entry(step.table, email).attempts == Entry(table, email).attempts + (if reqs[0].email == email then 1 else 0);
      LockIsPermanent(step.table, reqs[1..], b, email);
      var run := RunChecks(table, reqs, b);
      forall i | 0 <= i < |reqs| && reqs[i].email == email
        ensures run.results[i] == TooManyAttempts
      {
        if i > 0 { assert reqs[1..][i - 1] == reqs[i]; }
      }
    }
  }

  /** The credentials of `req` are refused: the user is unknown, or the lookup found the user and the password differs. */
  predicate Rejected(b: Backend, req: Request) {
    b.getUserByEmail(req.email).NotFound?
    || (b.getUserByEmail(req.email).Found? && !Accepted(b, req.email, req.password))
  }

  /**
   A run of rejected checks for one email counts each check once: the count
   grows by the length of the run, and the i-th check is refused with the
   lockout exactly when the count it raises reaches MAX_LOGIN_ATTEMPTS.
   */
  lemma {:induction false} RejectedChecksAccumulate(table: AttemptTable, reqs: seq<Request>, b: Backend, email: string)
    requires forall i :: 0 <= i < |reqs| ==> reqs[i].email == email && Rejected(b, reqs[i])
    ensures Entry(RunChecks(table, reqs, b).table, email).attempts == Entry(table, email).attempts + |reqs|
    ensures forall i :: 0 <= i < |reqs| ==>
      RunChecks(table, reqs, b).results[i] ==
        if Entry(table, email).attempts + i + 1 >= MAX_LOGIN_ATTEMPTS then TooManyAttempts else WrongEmailOrPassword
    decreases |reqs|
  {
    if reqs != [] {
      var step := CheckCredentials(table, email, reqs[0].password, reqs[0].now, b);
      assert Entry(step.table, email).attempts == Entry(table, email).attempts + 1;
      RejectedChecksAccumulate(step.table, reqs[1..], b, email);
      var run := RunChecks(table, reqs, b);
      forall i | 0 <= i < |reqs|
        ensures run.results[i] ==
          if Entry(table, email).attempts + i + 1 >= MAX_LOGIN_ATTEMPTS then TooManyAttempts else WrongEmailOrPassword
      {
        if i > 0 { assert reqs[1..][i - 1] == reqs[i]; }
      }
    }
  }

  /**
   From a table that has never seen `email`, four rejected checks are answered
   with the wrong-credentials error, and a fifth check is refused with the
   lockout even when its password is correct.
   */
  lemma FifthCheckLockedEvenWithCorrectPassword(table: AttemptTable, failures: seq<Request>, last: Request, b: Backend)
    requires |failures| == MAX_LOGIN_ATTEMPTS - 1
    requires last.email !in table
    requires forall i :: 0 <= i < |failures| ==> failures[i].email == last.email && Rejected(b, failures[i])
    requires Accepted(b, last.email, last.password)
    ensures forall i :: 0 <= i < |failures| ==> RunChecks(table, failures, b).results[i] == WrongEmailOrPassword
    ensures RunChecks(table, failures + [last], b).results[|failures|] == TooManyAttempts
  {
    RejectedChecksAccumulate(table, failures, b, last.email);
    RunAppend(table, failures, [last], b);
    var mid := RunChecks(table, failures, b).table;
    assert RunChecks(mid, [last], b).results[0] == TooManyAttempts;
  }

  /** A success before the count reaches the threshold clears it: the next rejected check counts from one. */
  lemma SuccessRestartsCount(table: AttemptTable, ok: Request, next: Request, b: Backend)
    requires Entry(table, ok.email).attempts + 1 < MAX_LOGIN_ATTEMPTS
    requires Accepted(b, ok.email, ok.password)
    requires next.email == ok.email && Rejected(b, next)
    ensures RunChecks(table, [ok, next], b).results == [LoggedIn(SessionFor(b, b.getUserByEmail(ok.email).user)), WrongEmailOrPassword]
    ensures Entry(RunChecks(table, [ok, next], b).table, ok.email) == AttemptRecord(1, Some(next.now))
  {
    var s1 := CheckCredentials(table, ok.email, ok.password, ok.now, b);
    assert Entry(s1.table, ok.email) == FRESH;
    var s2 := CheckCredentials(s1.table, next.email, next.password, next.now, b);
    assert s2.result == WrongEmailOrPassword;
    assert Entry(s2.table, ok.email) == AttemptRecord(1, Some(next.now));
    assert [ok, next][1..] == [next];
    assert RunChecks(s1.table, [next], b) == Trace(s2.table, [s2.result]);
  }

  /**
   The timeout never lifts a lockout: a failure recorded at least
   LOGIN_TIMEOUT_DURATION after the previous one still throws once the count
   has reached the threshold, and the count keeps growing instead of restarting.
   */
  lemma LockOutlastsTimeout(table: AttemptTable, email: string, now: int)
    requires email in table && table[email].attempts + 1 >= MAX_LOGIN_ATTEMPTS
    requires table[email].lastAttempt.Some? && now - table[email].lastAttempt.value >= LOGIN_TIMEOUT_DURATION
    ensures RecordAttempt(table, email, false, now).outcome == TooManyFailedAttempts
    ensures RecordAttempt(table, email, false, now).table[email].attempts == table[email].attempts + 1
  {
  }

  /** Serving two batches one after the other is serving their concatenation. */
  lemma {:induction false} RunAppend(table: AttemptTable, xs: seq<Request>, ys: seq<Request>, b: Backend)
    ensures RunChecks(table, xs + ys, b)
         == var mid := RunChecks(table, xs, b);
            var last := RunChecks(mid.table, ys, b);
            Trace(last.table, mid.results + last.results)
    decreases |xs|
  {
    if xs == [] {
      assert xs + ys == ys;
    } else {
      var zs := xs + ys;
      assert zs[0] == xs[0] && zs[1..] == xs[1..] + ys;
      var step := CheckCredentials(table, xs[0].email, xs[0].password, xs[0].now, b);
      RunAppend(step.table, xs[1..], ys, b);
      var left := RunChecks(step.table, xs[1..], b);
      var right := RunChecks(left.table, ys, b);
      calc {
        RunChecks(table, zs, b);
        Trace(RunChecks(step.table, zs[1..], b).table, [step.result] + RunChecks(step.table, zs[1..], b).results);
        Trace(right.table, [step.result] + (left.results + right.results));
        { assert [step.result] + (left.results + right.results) == ([step.result] + left.results) + right.results; }
        Trace(right.table, ([step.result] + left.results) + right.results);
      }
    }
  }
}
