/** The console sign-in and its lock-out: models/operator.go, operator_attempt_impl.go, routes/operator.go. */
module OperatorDoor {
  import opened Common

  const OPERATOR_LOCK_AFTER := 5
  const SECOND := 1_000_000_000
  const OPERATOR_LOCK_FOR := 900 * SECOND

  /** Clock readings, in nanoseconds after Go's zero time. */
  type Instant = t: int | 0 < t witness 1

  /** One address's state; no instant is Go's zero time. */
  datatype Attempt = Attempt(failed: nat, lockedUntil: Option<Instant>)
  {
    predicate Locked(now: Instant) {
      lockedUntil.Some? && now < lockedUntil.value
    }

    function TriesLeft(): nat {
      if OPERATOR_LOCK_AFTER > failed then OPERATOR_LOCK_AFTER - failed else 0
    }

    function Fail(now: Instant): Attempt {
      var a := if lockedUntil.Some? && now >= lockedUntil.value then Attempt(0, None) else this;
      var failed' := a.failed + 1;
      Attempt(failed', if failed' >= OPERATOR_LOCK_AFTER then Some(now + OPERATOR_LOCK_FOR) else a.lockedUntil)
    }
  }

  const FRESH := Attempt(0, None)

  /** A stored credential, one per address. */
  datatype Credential = Credential(subject: string, hash: string, disabled: bool)

  type Attempts = map<string, Attempt>
  type Credentials = map<string, Credential>

  /** What password.go's Verify makes of a stored hash and a password; it panics where Argon2id does. */
  datatype Verdict = Match | Mismatch | Unreadable | Panics
  type Verify = (string, string) -> Verdict

  datatype SignIn = SignIn(email: string, password: string, now: Instant)

  datatype Answer =
    | BadRequest                                            // 400
    | Refused(triesLeft: nat)                               // 401
    | TooManyTries(retryAfter: int, lockedUntil: Instant)   // 429
    | MintFailed                                            // 500
    | SignedIn(subject: string)                             // 201
    | Aborted                                               // the handler panicked: no answer

  function AttemptFor(m: Attempts, email: string): Attempt {
    if email in m then m[email] else FRESH
  }

  predicate Matches(c: Credentials, verify: Verify, r: SignIn) {
    r.email in c && !c[r.email].disabled && verify(c[r.email].hash, r.password).Match?
  }

  predicate Aborts(c: Credentials, verify: Verify, r: SignIn) {
    r.email in c && !c[r.email].disabled && verify(c[r.email].hash, r.password).Panics?
  }

  /** writeOperatorLocked, for an address locked at `now`. */
  function LockedAnswer(a: Attempt, now: Instant): Answer
    requires a.lockedUntil.Some? && now < a.lockedUntil.value
  {
    var retry := (a.lockedUntil.value - now) / SECOND;
    TooManyTries(if retry < 1 then 1 else retry, a.lockedUntil.value)
  }

  predicate WellFormed(r: SignIn) {
    r.email != "" && r.password != ""
  }

  /** Whether the request gets past the lock. */
  predicate Evaluates(m: Attempts, r: SignIn) {
    WellFormed(r) && !AttemptFor(m, r.email).Locked(r.now)
  }

  function AfterSignIn(m: Attempts, c: Credentials, verify: Verify, r: SignIn): Attempts {
    if !Evaluates(m, r) || Aborts(c, verify, r) then m
    else if Matches(c, verify, r) then m - {r.email}
    else m[r.email := AttemptFor(m, r.email).Fail(r.now)]
  }

  function AnswerTo(m: Attempts, c: Credentials, verify: Verify, r: SignIn, mintFails: bool): Answer {
    var a := AttemptFor(m, r.email);
    if !WellFormed(r) then BadRequest
    else if a.Locked(r.now) then LockedAnswer(a, r.now)
    else if Aborts(c, verify, r) then Aborted
    else if Matches(c, verify, r) then if mintFails then MintFailed else SignedIn(c[r.email].subject)
    else
      var after := a.Fail(r.now);
      if after.Locked(r.now) then LockedAnswer(after, r.now) else Refused(after.TriesLeft())
  }

  // ----- What an attempt does, field by field -----

  /** A wrong password: one more than was counted, or the first again once a lock has run out; the fifth locks for
      fifteen minutes. */
  lemma FailLaw(a: Attempt, now: Instant)
    ensures var lapsed := a.lockedUntil.Some? && a.lockedUntil.value <= now;
            var next := a.Fail(now);
            && next.failed == (if lapsed then 1 else a.failed + 1)
            && next.lockedUntil
               == if next.failed >= 5 then Some(now + 900_000_000_000) else if lapsed then None else a.lockedUntil
  {
  }

  /** A sign-in past the lock: a right password leaves no row for its address, a wrong one counts against it. */
  lemma SignInLaw(m: Attempts, c: Credentials, verify: Verify, r: SignIn, mintFails: bool)
    ensures var a := if r.email in m then m[r.email] else Attempt(0, None);
            var n := AfterSignIn(m, c, verify, r);
            var answer := AnswerTo(m, c, verify, r, mintFails);
            var held := r.email in c && !c[r.email].disabled;
            if r.email == "" || r.password == "" then n == m && answer == BadRequest
            else if a.lockedUntil.Some? && r.now < a.lockedUntil.value then
              var retry := (a.lockedUntil.value - r.now) / 1_000_000_000;
              && n == m && answer == TooManyTries(if retry < 1 then 1 else retry, a.lockedUntil.value)
            else if held && verify(c[r.email].hash, r.password) == Panics then n == m && answer == Aborted
            else if held && verify(c[r.email].hash, r.password) == Match then
              n == m - {r.email} && answer == if mintFails then MintFailed else SignedIn(c[r.email].subject)
            else
              var failed := if a.lockedUntil.Some? then 1 else a.failed + 1;
              var until := if failed >= 5 then Some(r.now + 900_000_000_000) else None;
              && n == m[r.email := Attempt(failed, until)]
              && answer == if until.Some? then TooManyTries(900, until.value) else Refused(5 - failed)
  {
    FailLaw(AttemptFor(m, r.email), r.now);
  }

  class Door {
    var attempts: Attempts
    var credentials: Credentials
    const verify: Verify

    constructor (credentials: Credentials, verify: Verify)
      ensures attempts == map[] && this.credentials == credentials && this.verify == verify
    {
      attempts, this.credentials, this.verify := map[], credentials, verify;
    }

    method RecordFailure(email: string, now: Instant) returns (next: Attempt)
      modifies this`attempts
      ensures next == AttemptFor(old(attempts), email).Fail(now)
      ensures attempts == old(attempts)[email := next]
      ensures var a := if email in old(attempts) then old(attempts)[email] else Attempt(0, None);
              var lapsed := a.lockedUntil.Some? && a.lockedUntil.value <= now;
              && next.failed == (if lapsed then 1 else a.failed + 1)
              && next.lockedUntil
                 == if next.failed >= 5 then Some(now + 900_000_000_000) else if lapsed then None else a.lockedUntil
    {
      FailLaw(AttemptFor(attempts, email), now);
      next := AttemptFor(attempts, email).Fail(now);
      attempts := attempts[email := next];
    }

    method ClearAttempts(email: string)
      modifies this`attempts
      ensures attempts == old(attempts) - {email}
    {
      attempts := attempts - {email};
    }

    /** OperatorStore.Verifier: the credential and its hash, or why there is none to use. */
    method Verifier(email: string) returns (found: Option<Credential>)
      ensures found.Some? <==> email in credentials && !credentials[email].disabled
      ensures found.Some? ==> found.value == credentials[email]
    {
      if email !in credentials || credentials[email].disabled {
        return None;
      }
      return Some(credentials[email]);
    }

    /** OperatorSignIn, with the address already normalized. */
    method OperatorSignIn(r: SignIn, mintFails: bool) returns (answer: Answer)
      modifies this`attempts
      ensures answer == AnswerTo(old(attempts), credentials, verify, r, mintFails)
      ensures attempts == AfterSignIn(old(attempts), credentials, verify, r)
      ensures var m := old(attempts);
              var a := if r.email in m then m[r.email] else Attempt(0, None);
              var held := r.email in credentials && !credentials[r.email].disabled;
              if r.email == "" || r.password == "" then attempts == m && answer == BadRequest
              else if a.lockedUntil.Some? && r.now < a.lockedUntil.value then
                var retry := (a.lockedUntil.value - r.now) / 1_000_000_000;
                && attempts == m && answer == TooManyTries(if retry < 1 then 1 else retry, a.lockedUntil.value)
              else if held && verify(credentials[r.email].hash, r.password) == Panics then
                attempts == m && answer == Aborted
              else if held && verify(credentials[r.email].hash, r.password) == Match then
                && attempts == m - {r.email}
                && answer == if mintFails then MintFailed else SignedIn(credentials[r.email].subject)
              else
                var failed := if a.lockedUntil.Some? then 1 else a.failed + 1;
                var until := if failed >= 5 then Some(r.now + 900_000_000_000) else None;
                && attempts == m[r.email := Attempt(failed, until)]
                && answer == if until.Some? then TooManyTries(900, until.value) else Refused(5 - failed)
    {
      SignInLaw(attempts, credentials, verify, r, mintFails);
      if r.email == "" || r.password == "" {
        return BadRequest;
      }
      var attempt := AttemptFor(attempts, r.email);
      if attempt.Locked(r.now) {
        return LockedAnswer(attempt, r.now);
      }
      var cred := Verifier(r.email);
      var verdict := if cred.Some? then verify(cred.value.hash, r.password) else Mismatch;
      if verdict.Panics? {
        return Aborted;
      }
      var matched := verdict.Match?;
      if !matched {
        var after := RecordFailure(r.email, r.now);
        if after.Locked(r.now) {
          return LockedAnswer(after, r.now);
        }
        return Refused(after.TriesLeft());
      }
      ClearAttempts(r.email);
      return if mintFails then MintFailed else SignedIn(cred.value.subject);
    }
  }

  // ----- Every reachable state -----

  /** A request, and the credential table at its time: accounts come and go, and passwords change. */
  datatype Visit = Visit(credentials: Credentials, request: SignIn)

  function AfterVisit(m: Attempts, verify: Verify, v: Visit): Attempts {
    AfterSignIn(m, v.credentials, verify, v.request)
  }

  function Run(m: Attempts, verify: Verify, vs: seq<Visit>): Attempts {
    if vs == [] then m else AfterVisit(Run(m, verify, vs[..|vs| - 1]), verify, vs[|vs| - 1])
  }

  /** At most five failures, and five exactly when a lock is set. */
  predicate Bounded(a: Attempt) {
    a.failed <= OPERATOR_LOCK_AFTER && (a.failed == OPERATOR_LOCK_AFTER <==> a.lockedUntil.Some?)
  }

  lemma {:induction false} EveryRunIsBounded(verify: Verify, vs: seq<Visit>, email: string)
    ensures Bounded(AttemptFor(Run(map[], verify, vs), email))
  {
    if vs != [] {
      EveryRunIsBounded(verify, vs[..|vs| - 1], email);
      EveryRunIsBounded(verify, vs[..|vs| - 1], vs[|vs| - 1].request.email);
    }
  }

  /** From any reachable state, a refusal leaves one to four tries, the attempt that uses up the
      fifth is answered with the lock, and a fresh lock asks for the whole lock-out. */
  lemma {:induction false} AnswersAreInRange(verify: Verify, past: seq<Visit>, v: Visit, mintFails: bool)
    ensures var m := Run(map[], verify, past);
            var a := AttemptFor(m, v.request.email);
            match AnswerTo(m, v.credentials, verify, v.request, mintFails)
            case Refused(left) => 1 <= left <= 4 && left == if a.lockedUntil.None? then 4 - a.failed else 4
            case TooManyTries(retry, until) =>
              retry >= 1 && (Evaluates(m, v.request) ==> retry == 900 && a.failed == 4)
            case _ => true
  {
    EveryRunIsBounded(verify, past, v.request.email);
  }

  /** A sign-in gets its subject's session exactly when it is not locked out and matches. */
  lemma SignsInExactly(m: Attempts, c: Credentials, verify: Verify, r: SignIn)
    requires WellFormed(r) && r.email in c
    ensures AnswerTo(m, c, verify, r, false) == SignedIn(c[r.email].subject)
            <==> !AttemptFor(m, r.email).Locked(r.now) && Matches(c, verify, r)
  {
  }

  /** Whoever is let in, or would be but for the minter, leaves nothing counted against the address, and the next
      wrong password finds four tries left. */
  lemma {:induction false} SuccessForgets(
    verify: Verify, past: seq<Visit>, v: Visit, mintFails: bool, next: Visit, mintFails': bool)
    requires var answer := AnswerTo(Run(map[], verify, past), v.credentials, verify, v.request, mintFails);
             answer.SignedIn? || answer.MintFailed?
    requires next.request.email == v.request.email && next.request.password != ""
    requires v.request.email in next.credentials && !next.credentials[v.request.email].disabled ==>
               verify(next.credentials[v.request.email].hash, next.request.password) in {Mismatch, Unreadable}
    ensures var m := Run(map[], verify, past + [v]);
            && v.request.email !in m
            && (forall e :: e != v.request.email ==>
                              && (e in m <==> e in Run(map[], verify, past))
                              && (e in m ==> m[e] == Run(map[], verify, past)[e]))
            && AnswerTo(m, next.credentials, verify, next.request, mintFails') == Refused(4)
  {
    RunOneMore(verify, past, v);
    SignInLaw(Run(map[], verify, past), v.credentials, verify, v.request, mintFails);
    SignInLaw(Run(map[], verify, past + [v]), next.credentials, verify, next.request, mintFails');
  }

  lemma RunOneMore(verify: Verify, past: seq<Visit>, v: Visit)
    ensures Run(map[], verify, past + [v]) == AfterVisit(Run(map[], verify, past), verify, v)
  {
    assert (past + [v])[..|past + [v]| - 1] == past;
  }

  // ----- What is counted -----

  /** The visit names the address, finds no lock in force and has its password judged. */
  predicate Judged(verify: Verify, past: seq<Visit>, v: Visit, email: string) {
    var m := Run(map[], verify, past);
    var c := v.credentials;
    && v.request.email == email && email != "" && v.request.password != ""
    && (email in m && m[email].lockedUntil.Some? ==> m[email].lockedUntil.value <= v.request.now)
    && (email in c && !c[email].disabled ==> verify(c[email].hash, v.request.password) != Panics)
  }

  predicate GotIn(verify: Verify, past: seq<Visit>, v: Visit, email: string) {
    var c := v.credentials;
    && Judged(verify, past, v, email)
    && email in c && !c[email].disabled && verify(c[email].hash, v.request.password) == Match
  }

  predicate Mistyped(verify: Verify, past: seq<Visit>, v: Visit, email: string) {
    Judged(verify, past, v, email) && !GotIn(verify, past, v, email)
  }

  /** A wrong password after a lock that had run out. */
  predicate StartsAgain(verify: Verify, past: seq<Visit>, v: Visit, email: string) {
    var m := Run(map[], verify, past);
    Mistyped(verify, past, v, email) && email in m && m[email].lockedUntil.Some?
  }

  /** The count starts with the later of the visit after the last success and the last that starts again. */
  predicate CountsFrom(verify: Verify, vs: seq<Visit>, from: nat, email: string) {
    && from <= |vs|
    && (|| from == 0
        || GotIn(verify, vs[..from - 1], vs[from - 1], email)
        || (from < |vs| && StartsAgain(verify, vs[..from], vs[from], email)))
    && (forall i :: from <= i < |vs| ==> !GotIn(verify, vs[..i], vs[i], email))
    && (forall i :: from < i < |vs| ==> !StartsAgain(verify, vs[..i], vs[i], email))
  }

  function WrongFrom(verify: Verify, vs: seq<Visit>, from: nat, email: string): nat {
    if |vs| <= from then 0
    else
      var past, v := vs[..|vs| - 1], vs[|vs| - 1];
      WrongFrom(verify, past, from, email) + if Mistyped(verify, past, v, email) then 1 else 0
  }

  lemma CountsFromBefore(verify: Verify, vs: seq<Visit>, from: nat, email: string)
    requires CountsFrom(verify, vs, from, email) && from < |vs|
    requires !(from == |vs| - 1 && StartsAgain(verify, vs[..from], vs[from], email))
    ensures CountsFrom(verify, vs[..|vs| - 1], from, email)
  {
    var past := vs[..|vs| - 1];
    forall i: nat | i <= |past| ensures past[..i] == vs[..i] {
    }
    forall i: nat | from <= i < |past|
      ensures !GotIn(verify, past[..i], past[i], email)
              && (from < i ==> !StartsAgain(verify, past[..i], past[i], email))
    {
      assert past[..i] == vs[..i] && past[i] == vs[i];
    }
  }

  /** One visit and the count: nothing, to nothing, to one, or one more. */
  lemma VisitCounts(verify: Verify, past: seq<Visit>, v: Visit, email: string)
    ensures var before, after := AttemptFor(Run(map[], verify, past), email).failed,
                                 AttemptFor(Run(map[], verify, past + [v]), email).failed;
            after == if !Judged(verify, past, v, email) then before
                     else if GotIn(verify, past, v, email) then 0
                     else if StartsAgain(verify, past, v, email) then 1
                     else before + 1
  {
    RunOneMore(verify, past, v);
    SignInLaw(Run(map[], verify, past), v.credentials, verify, v.request, false);
  }

  /** In every reachable state the number on an address's row is the number of wrong passwords judged since the last
      success, or since the last one that met a lock run out, whichever is later. */
  lemma {:induction false} FailedIsTheCount(verify: Verify, vs: seq<Visit>, from: nat, email: string)
    requires CountsFrom(verify, vs, from, email)
    ensures AttemptFor(Run(map[], verify, vs), email).failed == WrongFrom(verify, vs, from, email)
    decreases |vs|
  {
    if vs != [] {
      var past, v := vs[..|vs| - 1], vs[|vs| - 1];
      assert vs == past + [v];
      VisitCounts(verify, past, v, email);
      if from < |vs| && !(from == |vs| - 1 && StartsAgain(verify, past, v, email)) {
        CountsFromBefore(verify, vs, from, email);
        FailedIsTheCount(verify, past, from, email);
      }
    }
  }

  /** And there always is such a visit to count from. */
  lemma {:induction false} CountStarts(verify: Verify, vs: seq<Visit>, email: string) returns (from: nat)
    ensures CountsFrom(verify, vs, from, email)
  {
    if vs == [] {
      from := 0;
    } else {
      var past, v := vs[..|vs| - 1], vs[|vs| - 1];
      if GotIn(verify, past, v, email) {
        from := |vs|;
      } else if StartsAgain(verify, past, v, email) {
        from := |vs| - 1;
      } else {
        from := CountStarts(verify, past, email);
        forall i: nat | i <= |past| ensures past[..i] == vs[..i] {
        }
        forall i: nat | from <= i < |vs|
          ensures !GotIn(verify, vs[..i], vs[i], email)
                  && (from < i ==> !StartsAgain(verify, vs[..i], vs[i], email))
        {
          assert i < |past| ==> past[..i] == vs[..i] && past[i] == vs[i];
        }
      }
    }
  }

  // ----- The guess budget -----

  /** How many of the requests for one address get past the lock and are judged. */
  function Evaluations(m: Attempts, verify: Verify, vs: seq<Visit>, email: string): nat
    decreases vs
  {
    if vs == [] then 0
    else
      var v := vs[0];
      var judged := v.request.email == email && Evaluates(m, v.request) && !Aborts(v.credentials, verify, v.request);
      (if judged then 1 else 0)
      + Evaluations(AfterVisit(m, verify, v), verify, vs[1..], email)
  }

  /** The requests for `email` come in clock order within [start, end], and none succeeds. */
  predicate WrongWithin(verify: Verify, vs: seq<Visit>, email: string, start: int, end: int)
    decreases vs
  {
    vs != [] ==>
      var r := vs[0].request;
      if r.email == email
      then start <= r.now <= end && !Matches(vs[0].credentials, verify, r)
           && WrongWithin(verify, vs[1..], email, r.now, end)
      else WrongWithin(verify, vs[1..], email, start, end)
  }

  /** What is left of the budget over [start, end], by how far the address already is. */
  function Budget(a: Attempt, start: int, end: int): int
    requires start <= end
  {
    if a.lockedUntil.None? then 5 * ((end - start) / OPERATOR_LOCK_FOR + 1) - a.failed
    else if a.lockedUntil.value <= start then 5 * ((end - start) / OPERATOR_LOCK_FOR + 1)
    else if end < a.lockedUntil.value then 0
    else 5 * ((end - a.lockedUntil.value) / OPERATOR_LOCK_FOR + 1)
  }

  lemma BudgetShrinks(a: Attempt, start: int, now: int, end: int)
    requires start <= now <= end
    ensures Budget(a, now, end) <= Budget(a, start, end)
  {
    assert (end - now) / OPERATOR_LOCK_FOR <= (end - start) / OPERATOR_LOCK_FOR;
  }

  /** One wrong password costs one of the budget. */
  lemma FailureCostsOne(a: Attempt, now: Instant, end: int)
    requires Bounded(a) && !a.Locked(now) && now <= end
    ensures Bounded(a.Fail(now)) && 1 + Budget(a.Fail(now), now, end) <= Budget(a, now, end)
  {
    var q := (end - now) / OPERATOR_LOCK_FOR;
    if end - now >= OPERATOR_LOCK_FOR {
      assert (end - now - OPERATOR_LOCK_FOR) / OPERATOR_LOCK_FOR == q - 1;
    }
  }

  lemma {:induction false} EvaluationsFitTheBudget(
    m: Attempts, verify: Verify, vs: seq<Visit>, email: string, start: int, end: int)
    requires Bounded(AttemptFor(m, email)) && start <= end && WrongWithin(verify, vs, email, start, end)
    ensures Evaluations(m, verify, vs, email) <= Budget(AttemptFor(m, email), start, end)
    decreases vs
  {
    var a := AttemptFor(m, email);
    if vs != [] {
      var r := vs[0].request;
      var n := AfterVisit(m, verify, vs[0]);
      if r.email != email {
        assert AttemptFor(n, email) == a;
        EvaluationsFitTheBudget(n, verify, vs[1..], email, start, end);
      } else {
        BudgetShrinks(a, start, r.now, end);
        if Evaluates(m, r) {
          FailureCostsOne(a, r.now, end);
        }
        EvaluationsFitTheBudget(n, verify, vs[1..], email, r.now, end);
      }
    }
  }

  /** From any state the handler reaches, a run of wrong passwords for one address over a span of time has at
      most 5 * (span / L + 1) of them judged, whatever other addresses and the credentials do meanwhile. */
  lemma {:induction false} GuessesAreBudgeted(
    verify: Verify, past: seq<Visit>, vs: seq<Visit>, email: string, start: int, span: nat)
    requires WrongWithin(verify, vs, email, start, start + span)
    ensures Evaluations(Run(map[], verify, past), verify, vs, email) <= 5 * (span / OPERATOR_LOCK_FOR + 1)
  {
    var m := Run(map[], verify, past);
    EveryRunIsBounded(verify, past, email);
    EvaluationsFitTheBudget(m, verify, vs, email, start, start + span);
    var a := AttemptFor(m, email);
    if a.lockedUntil.Some? && start < a.lockedUntil.value <= start + span {
      assert (start + span - a.lockedUntil.value) / OPERATOR_LOCK_FOR <= span / OPERATOR_LOCK_FOR;
    }
  }

  // ----- One answer for every cause -----

  function Transcript(m: Attempts, verify: Verify, vs: seq<Visit>): seq<Answer>
    decreases vs
  {
    if vs == [] then []
    else
      [AnswerTo(m, vs[0].credentials, verify, vs[0].request, false)]
      + Transcript(AfterVisit(m, verify, vs[0]), verify, vs[1..])
  }

  predicate NoneMatches(verify: Verify, vs: seq<Visit>) {
    forall i :: 0 <= i < |vs| ==> !Matches(vs[i].credentials, verify, vs[i].request)
  }

  predicate SameRequests(vs: seq<Visit>, us: seq<Visit>) {
    |vs| == |us| && forall i :: 0 <= i < |vs| ==> vs[i].request == us[i].request
  }

  /** No request that gets past the lock meets a stored hash that Verify panics on. */
  predicate NeverAborts(m: Attempts, verify: Verify, vs: seq<Visit>)
    decreases vs
  {
    vs == []
    || (!(Evaluates(m, vs[0].request) && Aborts(vs[0].credentials, verify, vs[0].request))
        && NeverAborts(AfterVisit(m, verify, vs[0]), verify, vs[1..]))
  }

  /** Wrong sign-ins are answered alike whatever the credential tables hold, request by request: no credential, a
      disabled one, an unreadable hash or a working one. The one way to tell two apart is a hash that panics. */
  lemma {:induction false} TranscriptsAreEqual(m: Attempts, verify: Verify, vs: seq<Visit>, us: seq<Visit>)
    requires SameRequests(vs, us) && NoneMatches(verify, vs) && NoneMatches(verify, us) && NeverAborts(m, verify, us)
    ensures Transcript(m, verify, vs) == Transcript(m, verify, us) <==> NeverAborts(m, verify, vs)
    decreases vs
  {
    if vs != [] {
      var x, y := Transcript(m, verify, vs), Transcript(m, verify, us);
      var r := vs[0].request;
      assert us[0].request == r && !Matches(us[0].credentials, verify, r) && !Matches(vs[0].credentials, verify, r);
      if Evaluates(m, r) && Aborts(vs[0].credentials, verify, r) {
        assert x[0].Aborted? && !y[0].Aborted?;
      } else {
        var n := AfterVisit(m, verify, vs[0]);
        assert AfterVisit(m, verify, us[0]) == n && x[0] == y[0];
        TranscriptsAreEqual(n, verify, vs[1..], us[1..]);
        assert x[1..] == Transcript(n, verify, vs[1..]) && y[1..] == Transcript(n, verify, us[1..]);
        assert x == [x[0]] + x[1..] && y == [y[0]] + y[1..];
      }
    }
  }

  // ----- Failures below the threshold never expire -----

  /** In every reachable state a wrong password that gets past the lock locks the address exactly when four
      failures are already counted, at whatever distance in time, and it is judged. */
  lemma {:induction false} LocksExactlyOnTheFifth(verify: Verify, past: seq<Visit>, v: Visit)
    requires Evaluates(Run(map[], verify, past), v.request) && !Matches(v.credentials, verify, v.request)
    ensures var m := Run(map[], verify, past);
            AttemptFor(AfterVisit(m, verify, v), v.request.email).Locked(v.request.now)
            <==> AttemptFor(m, v.request.email).failed == 4 && !Aborts(v.credentials, verify, v.request)
  {
    EveryRunIsBounded(verify, past, v.request.email);
  }

  /** Five wrong passwords from a fresh address lock it, however far apart they come. */
  lemma FifthFailureLocks(t: seq<Instant>)
    requires |t| == 5
    ensures var a := FRESH.Fail(t[0]).Fail(t[1]).Fail(t[2]).Fail(t[3]);
            a == Attempt(4, None) && a.Fail(t[4]) == Attempt(5, Some(t[4] + OPERATOR_LOCK_FOR))
  {
  }
}
