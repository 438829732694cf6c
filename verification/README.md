# Sign-in, sessions and credentials: a Dafny model

This project models the stateful parts of the mwanachama authentication module and proves what they keep:

- **The last-seen throttle** (`Throttle`, `SignInProject`, `LastSeenSystem`). A host process remembers when it last
  asked the identity project to move a session's last-seen time, and the project throttles the write once more. The
  class `LastSeen` is the in-process half and the class `Project` the installed touch and end functions;
  `LastSeenSystem` interleaves any number of hosts, in-flight touches, endings, sign-ins and sign-outs over one
  project, down to the gap between a touch's select and its write and to what the host makes of the answer.
- **The session store** (`TimeText`, `Ordering`, `SessionStore`, `SessionRuns`). Rows hold instants as text and are
  filtered by comparing text. The calendar, the fixed-width layout and the order of strings are modelled, the text
  order is proved to be the time order, and every method of the store is proved to act on a plain set of sessions,
  run alone or interleaved at its two statements.
- **The device and recovery doors** (`AuthStore`, `AuthDoors`, `AuthHandlers`, `LateSessions`). Requests interleave at
  their repository calls: read the device, issue a challenge, look one up, spend it with a guarded write, judge the
  answer, sweep the devices, mint.
- **The console's lock-out** (`OperatorDoor`), request by request.
- **Phone bindings** (`PhoneBinding`), with callers racing between read, insert-if-absent and re-read.
- **The salt register** (`SaltRegister`, `SaltRuns`), with retirements interleaved at their two statements.
- **The codecs** (`Rfc4648`, `Rfc4648Text`, `KeyMaterial`, `PasswordVerifier`): base64 and hex (RFC 4648, sections 4, 5
  and 8), key material in three encodings, and the PHC verifier string with the scanning rules of `fmt.Sscanf`.
- **The doors on top of the codecs** (`EndToEnd`).

Where the code works by changing state the model is a class whose methods are proved against specification functions,
and state besides, field by field, what they answer and what they leave. Runs are sequences of steps; a step that cannot be taken changes nothing, so every sequence is a run and
the theorems hold of all of them. Argon2id (RFC 9106), Ed25519 (RFC 8032), HMAC and SHA-256 are uninterpreted
functions: SHA-256 is taken to be without collisions where the store compares digests, and Argon2id to give a key of
the length asked for when it is asked for at least one pass, lane and byte, and to panic otherwise. Clocks, minted
ids, random salts and failures of the driver are parameters.

## Where the code and its documentation differ

The model follows the code.

- `documentation/2. design/identity-sessions.md:82-84` says that with one host the list is at most two minutes
  behind. The project's guard is strict, so two grants exactly one throttle apart leave the second unwritten:
  `LastSeenSystem.OneHostLagsAlmostTwoThrottles` is a run of one host that lags by two throttles less a nanosecond,
  and `LastSeenSystem.OneThrottleHoldsExactlyWhen` says exactly when one throttle does suffice for the requests a
  claim keeps back. Two throttles always do, once the touch behind the claim is served.
- `models/operator.go:150-153` says the five failures are consecutive within one window. Failures below the
  threshold never expire; `models/dev1698_lockout_reset_test.go` pins that, and
  `OperatorDoor.LocksExactlyOnTheFifth` proves it.
- `models/phonesalt.go:21-25` says that `Retire` refuses to leave no salt live. It does not, and
  `phonesalt_impl_test.go` relies on that. `SaltRuns.RetirementEmptiesExactlyWhen` says exactly when it leaves
  none, and `SaltRuns.RotationPassesThroughNone` what can follow.
- `models/phonesalt.go:54-56` describes `ErrPhoneSaltRetired` as the answer for a salt already retired. A caller
  whose update runs before a salt is provisioned and whose count runs after is given it for a live one:
  `SaltRuns.LiveSaltReportedRetired`. `SaltRuns.RefusalsExactly` and `SaltRuns.RetireAnswersExactly` say exactly
  when, and `SaltRuns.RefusalIsRightForAKnownSalt` that it never happens to a caller whose salt had a row.
- `models/auth.go:62-66` says a signed-out device may never verify again. `DeviceVerify` reads the device once, first,
  so a request that has read it is not reached by a later sign-out: `LateSessions.SessionAfterSignOut` is a run in
  which a session is minted for a device after it signed itself out, and `LateSessions.SessionAfterRecovery` one in
  which an ejected handset is given a session after the recovery's own. `AuthDoors.LateSessionsHadReadTheDevice` says
  only such requests get one, and `LateSessions.LateSessionExactlyWhen` exactly which of them can, over every
  continuation of the run.
- `routes/operator.go:25-31` says one sentence answers every failed console sign-in. A stored verifier of no passes, no
  lanes or an empty key makes Argon2id panic, and the handler with it, before the failure is counted. `Hash` never
  prints one; `OperatorDoor.TranscriptsAreEqual` shows it is the one exception, and `EndToEnd.SignInAbortsExactly`
  says exactly which verifiers do it.

## Model

| member | source | states |
|---|---|---|
| Throttle.Sub | last_seen.go:55-63 | Go's saturating time difference decides "at least one throttle" exactly, even against the zero time |
| Throttle.KeyIsInjective | last_seen.go:30 | two subject and session pairs never share a throttle key |
| Throttle.LastSeen.Claim | last_seen.go:49-68 | the sweeping loop and the grant: granted if and only if the key holds no reading less than 120 seconds older, which it then becomes; a due sweep drops exactly the entries 120 seconds old and sets its own reading, and nothing else changes |
| Throttle.LastSeen.Release | last_seen.go:70-76 | an entry goes if and only if it still holds the reading of the claim that failed, and no other entry moves |
| Throttle.LastSeen.Touch | last_seen.go:24-40 | a request alone: unreadable ids change nothing, a held reading is answered nil and kept, a success leaves its own reading, a failure is returned and leaves none |
| Throttle.SweepIsInvisible | last_seen.go:55-62 | in clock order, every claim is answered as by a map that never drops an entry |
| Throttle.GrantsStayApart | last_seen.go:31-68 | with readings at most s out of order, two grants of one key with no release between are T - s apart |
| Throttle.SweptBoundsEntries | last_seen.go:55-66 | the last sweep is never ahead of the clock and every entry is less than T behind it |
| Throttle.MapHoldsOnlyRecentGrants | last_seen.go:49-68 | after a claim each entry left is a grant made less than 2T ago |
| Throttle.InFlightGrantsStayApart | last_seen.go:31-38 | grants of one key in flight together have distinct readings, at least T apart |
| Throttle.ReleaseHitsOnlyItsOwnClaim | last_seen.go:70-76 | a late failure leaves alone every grant of its key with a later reading, settled or not |
| Throttle.LateFailureChangesNothing | last_seen.go:31-38 | in a process, a grant made while an older touch of its key is on its way is at least T later, and the older one's failure changes nothing, however late |
| Throttle.FailureIsRetried | last_seen.go:35-37 | once the latest grant of a key fails, the next claim of that key is granted at any reading, whatever older grants of the key settle in between |
| SignInProject.Project.TouchSignInSession | identity_sessions_sql.go:119-138 | the guarded upsert: the row becomes the instant if and only if the session is the subject's own, not past its end and last seen more than one throttle ago; it never goes back, and no other row changes |
| SignInProject.TouchWritesExactlyWhen | identity_sessions_sql.go:119-138 | the same of the specification that the interleaved runs step by |
| SignInProject.Project.EndSignInSession | identity_sessions_sql.go:100-118 | true if and only if the session is the subject's own, which is then removed with exactly its tokens and its row; otherwise nothing changes |
| SignInProject.Project.Touch | identity_sessions.go:105-120 | run alone: unreadable ids are not found and change nothing, missing functions and other failures have their own answers, a session already gone is no failure |
| SignInProject.Project.End | identity_sessions.go:89-103 | unreadable ids and other people's sessions are not found and change nothing, a call that never ran has its own answers, and the subject's own session is removed |
| SignInProject.EndRemovesExactlyOneSession | identity_sessions_sql.go:58-66 | an ending takes a session of the subject's own, exactly its refresh tokens and its last-seen row, anybody else's changes nothing, and a second ending does nothing |
| LastSeenSystem.EveryRunKeepsRowsAndMarks | identity_sessions_sql.go:127-135 | in every reachable system each row holds the last write of its session, writes are spaced, and a served touch left its mark |
| LastSeenSystem.RunsAreOnward | identity_sessions_sql.go:100-138 | rows and write histories only grow, owners stay, and an ending lasts |
| LastSeenSystem.GrantedTouchIsFresh | last_seen.go:35-39 | a served request keeps the stored time within T of it for as long as the session lives, for any number of hosts |
| LastSeenSystem.DenialRestsOnAGrant | last_seen.go:63-64 | a denied request follows a grant of the same host, subject and session, less than T earlier |
| LastSeenSystem.DeniedRequestIsLessThanTwoThrottlesStale | last_seen.go:24-68 | once the touch behind a denial is served, the stored time is less than 2T behind the denied request, and stays so |
| LastSeenSystem.OneThrottleHoldsExactlyWhen | identity_sessions_sql.go:133-135 | in any reachable system, every request a held claim keeps back, in this and all later systems, sees at most T of lag if and only if the touch moves the row or finds it no more than an instant behind the claim |
| LastSeenSystem.FreshIsPrompt | identity_sessions_sql.go:127-135 | the same half without asking that the claim is still held |
| LastSeenSystem.OneHostLagsAlmostTwoThrottles | identity_sessions_sql.go:135 | a run of a single host whose last request is answered 2T - 1 after the stored time |
| LastSeenSystem.WritesAreSpaced | identity_sessions_sql.go:127-135 | the i-th and j-th writes of one session are more than (j - i) T apart |
| LastSeenSystem.WritesInASpanAreFew | identity_sessions_sql.go:127-135 | a span D of project time holds at most D / T + 1 writes of one session |
| LastSeenSystem.RowsReferToSessions | identity_sessions_sql.go:62-65 | no last-seen row outlives its session |
| LastSeenSystem.EndedStaysEnded | identity_sessions_sql.go:100-138 | after an ending no touch, however interleaved, brings the session or its row back |
| LastSeenSystem.SessionEndsExactlyWhen | identity_sessions_sql.go:100-118 | in every reachable system a step takes a session away if and only if it is a sign-out of it or an ending of it asked for by its own user |
| LastSeenSystem.SessionStays | identity_sessions_sql.go:100-118 | so a session stays, with its user, through every run without such a step |
| LastSeenSystem.TouchAlone | identity_sessions_sql.go:119-138 | in any system, a touch whose select and write meet no other step leaves the tables that the whole function does |
| LastSeenSystem.OvertakenTouchIsAnsweredDone | identity_sessions.go:105-120 | in every run, a touch whose session is ended between its select and its write is answered without error, leaves its host's map as it was and writes nothing |
| LastSeenSystem.RetriedExactlyOnError | last_seen.go:35-38 | while its claim is held, a touch that ends lets the next request of its session through if and only if it is answered with an error or the throttle has passed |
| TimeText.DaysFollowDates | store.go:46 | day numbers rise with year, month and day |
| TimeText.DatesFollowDays | store.go:46 | dates rise with day numbers |
| TimeText.DateOfDayNumber | store.go:46 | the calendar date found for a day number is the one that has it |
| TimeText.ValidDatesAreGregorian | store.go:46 | the valid dates are those of the twelve months with their literal lengths, February a day longer in the years the Gregorian rule names |
| TimeText.DayNumberIsCivil | store.go:46 | the day number of every valid date is the closed civil formula over years that start in March |
| TimeText.ClockIsGregorian | store.go:46 | the numbers written for an instant are a Gregorian date and a clock reading, and count back to the instant in days of 24 hours |
| TimeText.StoredTime | store.go:46 | every instant from year 0 to year 9999 is written in thirty characters |
| TimeText.ParseOfStored | store.go:46 | reading a stored time gives back the instant written |
| TimeText.TextOrderIsTimeOrder | store.go:46 | for all such instants the text of one is before the text of another if and only if the instant is, and equal only if equal |
| TimeText.StoredTimeLayout | session_impl_test.go:201 | the layout: year, month, day, T, hour, minute, second, nine digits of fraction, Z, each with its leading zeros |
| SessionStore.StoredTimeIsFaithful | session_impl.go:118-125 | columns written with stored times and a collision-free digest read back, and sort, as what they stand for |
| SessionStore.RowStandsForSession | session_impl.go:177-181 | the filter over text columns is exactly SessionRecord.Live, and the row reads back as the record |
| SessionStore.RowOrderIsTimeOrder | session_impl.go:139-143 | ordering rows by text is ordering records by last use, newest first, then id |
| SessionStore.EveryRunIsSound | session_impl.go:79-175 | after any run ids name their own records, tokens are never shared, and a session is used no earlier than it started |
| SessionStore.SessionsOnlyMoveForward | session_impl.go:118-175 | sessions are never lost, last use never decreases, an end is written once, and an ended session never changes again |
| SessionStore.LastUseIsTheLatestTouch | session_impl.go:118-137 | after any run a session's last use is its start or the instant of a touch that reached it open, whichever is latest |
| SessionStore.EndIsTheFirstEnding | session_impl.go:155-175 | and its end is the instant of the first ending by its subject, or none if there was none |
| SessionStore.OnlyItsSubjectEndsASession | session_impl.go:155-175 | a session stays open through every run in which its own subject does not end it |
| SessionStore.Store.constructor | session_impl.go:66-77 | the empty store, with stored times for its columns, stands for no sessions |
| SessionStore.Store.Start | session_impl.go:79-104 | refuses blank subjects, empty tokens, past expiries and taken ids or tokens, and otherwise adds that one session, last used at its start |
| SessionStore.Store.ByToken | session_impl.go:106-116 | answers the one session of that token that is live, and not found exactly when there is none |
| SessionStore.Store.Touch | session_impl.go:118-137 | last use becomes the larger of itself and the instant and nothing else changes, for an open session; any other is not found |
| SessionStore.Store.End | session_impl.go:155-175 | stamps the instant on the subject's own session once and nothing else, succeeds again afterwards without moving it, and finds nobody else's |
| SessionStore.Store.ListLive | session_impl.go:139-153 | exactly the subject's live sessions, by last use descending and then id |
| SessionStore.LiveRows | session_impl.go:139-144 | the ordered query: every row it should return, none besides, in strict order |
| SessionRuns.EveryRunIsOfWholeOperations | session_impl.go:79-175 | however callers interleave at their statements, the sessions are those of a run of whole operations, and sound |
| SessionRuns.EveryAnswerLinearizes | session_impl.go:118-175 | every answered call on a session that had a row, and every refused one, took effect at one of its own statements exactly as the whole operation |
| SessionRuns.MissTakesEffectAtTheRead | session_impl.go:132-136 | one whose update changes none is answered at its read as the whole operation would be there, and that would change nothing if and only if no row has been started since that it would move |
| SessionRuns.AnswersAreHonest | session_impl.go:118-175 | of a session that had a row, a successful touch finds its last use at or past its instant, a refused one finds it ended, and an ending succeeds if and only if the session is the subject's, then ended |
| AuthStore.Store.RegisterDevice | device_impl.go:28-46 | a checked device with a free id is stored as given, with an id and a date where it had none, and anything else changes nothing |
| AuthStore.Store.SignOutDevice | device_impl.go:60-82 | needs a reason, keeps the first instant and the first reason, and changes nothing else |
| AuthStore.Store.SignOutOtherDevices | device_impl.go:84-127 | the two loops sign out exactly the subject's live devices but the kept one, and list exactly those, by id |
| AuthStore.Store.LiveDevices | device_impl.go:84-107 | the select finds exactly the subject's live devices but the kept one, each once |
| AuthStore.Store.InOrder | device_impl.go:115-127 | the answer lists each stamped device once, by id |
| AuthStore.Store.CreateChallenge | challenge_impl.go:10-28 | a checked challenge with a free id is stored as given, with an id where it had none and five minutes where it had no expiry, and anything else changes nothing |
| AuthStore.Store.ConsumeChallenge | challenge_impl.go:42-66 | run alone, the read and the guarded write are one consumption: it succeeds if and only if the challenge is stored, unspent and unexpired, and changes its flag alone |
| AuthStore.SignOutOutlives | device_impl.go:60-82 | a second sign-out changes nothing, and the pair of instant and reason stays together |
| AuthStore.SweepEndsExactly | device_impl.go:84-127 | a sweep changes a device if and only if it is the subject's, live and not kept, and then to its own instant and reason |
| AuthDoors.EveryRunKeeps | routes/device.go:80-132 | in every reachable world a request past its spend holds the stored, spent challenge that it alone flipped |
| AuthDoors.RunIsOnward | challenge_impl.go:42-66 | challenges only become consumed, and devices only become signed out |
| AuthDoors.ConsumptionLinearizes | challenge_impl.go:42-66 | in every interleaving each half of the consumption answers as an indivisible one would at that moment |
| AuthDoors.FlippedOnce | challenge_impl.go:53-63 | no two steps of a run flip one challenge |
| AuthDoors.DoorsAreRegistered | routes/device.go:91-98 | every device that a request or a session speaks for is the registered row of its id, as it was when live |
| AuthDoors.SessionsComeFromSpentChallenges | routes/device.go:91-130 | each session comes from a consumed challenge of its door's kind, for the subject stored on it, with an answer accepted for the key of the device registered under its device id |
| AuthDoors.DeviceChallengesNameTheirOwners | routes/device.go:49-60 | in every run a device challenge is for the subject of the device it names, but for one the application stored itself |
| AuthDoors.DeviceSessionsAreForTheOwner | routes/device.go:99-125 | so a device session is for the subject of the device that answered, which the handler never compares |
| AuthDoors.OneChallengeAtMostOneSession | challenge_impl.go:53-63 | no two sessions come from one challenge |
| AuthDoors.OneChallengeAtMostOneComparison | routes/device.go:91-118 | each challenge gets at most one proof comparison, right or wrong |
| AuthDoors.SessionsWereCompared | routes/device.go:114-118 | a challenge that gave a session was compared exactly once, but for a gateway that compares none |
| AuthDoors.SpentIsRefusedForever | challenge_impl.go:42-52 | a challenge once spent is not found at every later moment |
| AuthDoors.SignedOutForever | device_impl.go:60-82 | a device's sign-out keeps its instant and reason through every later step |
| AuthDoors.SignedOutDeviceIsRefused | routes/device.go:91-98 | a request that has not read the device by its sign-out, arrived or not, never gets a session for it |
| AuthDoors.LateSessionsHadReadTheDevice | routes/device.go:91-98 | a session minted for a device after its sign-out belongs to a request that had read the device before |
| LateSessions.LateSessionExactlyWhen | routes/device.go:91-130 | with the device signed out, some continuation of the run gives a request a session for it if and only if the request had read the device and its challenge is unspent and rightly answered, or not looked for yet and still to come |
| LateSessions.LateSessionAlone | routes/device.go:91-130 | with nothing in between and at a given instant, if and only if it had read the device and its challenge and answer are good then |
| LateSessions.SessionAfterSignOut | models/auth.go:62-66 | it happens: for every device and challenge that would do, a run that mints after the device signed itself out |
| LateSessions.SessionAfterRecovery | routes/recovery.go:79-94 | the sweep has the same gap: a run that mints for an ejected handset after the recovery has minted |
| AuthDoors.RecoveryEjectsBeforeItMints | routes/recovery.go:79-94 | whenever recovery has minted, every device its subject held at the sweep is signed out, then and ever after |
| AuthDoors.SweepRecordIsExact | device_impl.go:84-127 | a sweep's list is exactly the devices that this sweep changed |
| AuthHandlers.DeviceRequestAlone | routes/device.go:80-132 | in any reachable world, an interleaved request that meets no other ends as the handler's method does |
| AuthHandlers.RecoveryRequestAlone | routes/recovery.go:64-96 | the same for recovery, with the sweep failing or not |
| AuthHandlers.DeviceDoorOpensExactly | routes/device.go:91-130 | in any reachable world, such a request gets a session if and only if the device is stored and not signed out, its own device challenge is stored, unspent and unexpired, and the answer is not empty and is proved on the stored key and secret or not looked at |
| AuthHandlers.RecoveryDoorOpensExactly | routes/recovery.go:73-94 | and a recovery request if and only if it brings the secret of a stored, unspent and unexpired recovery challenge, and exactly then the live devices of its subject are signed out |
| AuthHandlers.DeviceChallengeAlone | routes/device.go:49-67 | an issuing request that meets no other ends as the handler's method does, with the nonce drawn for it as the stored secret |
| AuthHandlers.RecoveryRequestedAlone | routes/recovery.go:23-54 | the same for a recovery code and the subject asked for |
| AuthHandlers.DeviceChallenge | routes/device.go:49-67 | a live device gets a stored challenge of its own kind, id and subject, with the nonce drawn for it and five minutes to live, shown without the subject; any other is not found and stores nothing |
| AuthHandlers.RecoveryRequest | routes/recovery.go:23-54 | a code is stored for the subject asked for, with five minutes to live, and shown only where the application echoes it |
| AuthHandlers.DeviceVerify | routes/device.go:80-132 | the handler alone: 201 with a session for the challenge's subject if and only if device, challenge and answer are right and the minter does not fail; the challenge is spent before the answer is judged, so a wrong answer burns it |
| AuthHandlers.RecoveryVerify | routes/recovery.go:64-96 | the handler alone: spend, judge, sweep every live device of the subject, and only then mint; a failed sweep is answered 500, changes no device and mints nothing |
| OperatorDoor.Door.RecordFailure | operator_attempt_impl.go:26-49 | one more failure on that address's row, or the first again after a lock that has run out, locked for 900 seconds from the fifth; no other row changes |
| OperatorDoor.Door.ClearAttempts | operator_attempt_impl.go:51-59 | the address's row goes, and no other |
| OperatorDoor.Door.Verifier | operator_impl.go:66-79 | a credential is found exactly when there is one and it is not disabled |
| OperatorDoor.Door.OperatorSignIn | routes/operator.go:46-113 | every answer and every row it leaves: the lock is checked first, a wrong password is counted, a right one leaves no row whether or not the minter fails |
| OperatorDoor.SuccessForgets | routes/operator.go:102-112 | in every reachable state a right password leaves no row for its address and every other row as it was, and the next wrong one is answered with four tries left |
| OperatorDoor.FailedIsTheCount | models/operator.go:148-164 | in every reachable state the count of an address is the number of wrong passwords judged since the later of its last success and the last that met a lock run out |
| OperatorDoor.CountStarts | models/operator.go:148-164 | there always is such a visit to count from |
| OperatorDoor.EveryRunIsBounded | models/operator.go:154-164 | in every reachable state, with credentials changing from request to request, an address has at most five failures, and five exactly when a lock is set |
| OperatorDoor.AnswersAreInRange | routes/operator.go:117-128 | a refusal leaves one to four tries, four after a lock that has run out and one fewer than before otherwise; the fifth failure is answered with the lock, and a fresh lock asks for 900 seconds |
| OperatorDoor.EvaluationsFitTheBudget | models/operator.go:135-164 | the passwords judged never exceed what is left of the budget, from any bounded state |
| OperatorDoor.GuessesAreBudgeted | routes/operator.go:61-104 | from any reachable state, wrong passwords for one address over a span D have at most 5 (D / L + 1) judged, whatever other addresses and the credentials do |
| OperatorDoor.TranscriptsAreEqual | routes/operator.go:67-128 | any sequence of wrong sign-ins gets the answers it would get with any other credential tables, if and only if no request past the lock meets a verifier that panics |
| OperatorDoor.LocksExactlyOnTheFifth | models/operator.go:148-164 | a wrong password past the lock locks if and only if four failures are counted, however old they are, and it is judged |
| OperatorDoor.FifthFailureLocks | models/dev1698_lockout_reset_test.go:1-20 | five failures at any five instants lock the address |
| PhoneBinding.Store.SubjectIDForPhone | phoneattempt_impl.go:62-93 | run alone, read, insert and re-read are one get-or-create: a bound number keeps its subject, an empty mint binds nothing, any other mint is bound and answered |
| PhoneBinding.BindingsAndAnswersArePermanent | phoneattempt_impl.go:80-88 | a binding once written never changes, and neither does an answer |
| PhoneBinding.AnswersAgree | phoneattempt_impl.go:62-93 | all non-empty answers for one number are equal, whenever they were given and however callers raced or gave up |
| PhoneBinding.RereadFinds | phoneattempt_impl.go:88-92 | the second read always finds a non-empty binding |
| PhoneBinding.OnlyAMintBinds | phoneattempt_impl.go:71-84 | a binding appears only by a caller's own non-empty mint for that number; an empty mint writes nothing |
| PhoneBinding.EveryAnswerLinearizes | phoneattempt_impl.go:62-93 | every answered call took effect at one of its own steps exactly as an indivisible get-or-create |
| SaltRegister.PhoneSaltStore.Provision | phonesalt_impl.go:71-91 | refused if and only if the id is taken or a salt is live, and otherwise stored live with the key, setter and instant given |
| SaltRegister.PhoneSaltStore.Retire | phonesalt_impl.go:93-122 | needs an actor, stamps the pair once on a live row and nothing else, and tells an absent salt from a retired one |
| SaltRegister.PhoneSaltStore.LiveRecord | phonesalt_impl.go:124-131 | a live row exactly when there is one |
| SaltRegister.PhoneSaltStore.Hash | phonesalt_impl.go:30-45 | the HMAC under the one live salt with its id, not found exactly when none is live, and the key buffer zeroed either way |
| SaltRegister.PhoneSaltStore.Live | phonesalt_impl.go:47-56 | the live salt's facts, or not found exactly when none is live |
| SaltRegister.PhoneSaltStore.RowsNewestFirst | phonesalt_impl.go:59-60 | the ordered query: every row once, strictly descending by id |
| SaltRegister.PhoneSaltStore.List | phonesalt_impl.go:58-69 | every salt's facts, strictly descending by id |
| SaltRuns.EveryRunIsSound | provision.go:84-92 | in every reachable table at most one salt is live, and the retirement pair is whole or absent |
| SaltRuns.SaltsOnlyMoveForward | phonesalt_impl.go:97-103 | rows are never lost, key and origin never change, and a retirement once written never changes |
| SaltRuns.RowsAreAsProvisioned | phonesalt_impl.go:71-103 | in every reachable table a row holds the key, setter and instant of a Provision made when its id was unused and no salt was live, and a retirement it carries is one asked for since |
| SaltRuns.RetiredForever | phonesalt_impl.go:97-99 | a retired salt is never live again |
| SaltRuns.RetirementEmptiesExactlyWhen | phonesalt_impl.go:93-103 | in any reachable table with a live salt, a retirement leaves none live if and only if it names the live one and an actor |
| SaltRuns.RotationPassesThroughNone | phonesalt_impl.go:71-103 | after that exactly the unused ids can be provisioned, each as the only live one |
| SaltRuns.RetireAnswersAreHonest | phonesalt_impl.go:97-121 | success is told exactly to the caller whose update stamped the row, with its own stamp, which stays |
| SaltRuns.RefusalsExactly | phonesalt_impl.go:107-116 | at the second statement, "already retired" is answered if and only if the update met a retired row, or none and one is there now; of a live salt if and only if it was provisioned in between |
| SaltRuns.RefusalIsRightForAKnownSalt | phonesalt_impl.go:107-116 | for a salt that has a row when the retirement is asked for, "already retired" is answered if and only if it was, and success if and only if it was live |
| SaltRuns.RetireAnswersExactly | phonesalt_impl.go:93-122 | the whole answer of an interleaved retirement, from the rows at its two statements |
| SaltRuns.OneCallerRetires | phonesalt_impl.go:97-106 | of all callers retiring one salt at most one succeeds |
| SaltRuns.LiveSaltReportedRetired | phonesalt_impl.go:107-114 | a run in which a live salt is reported as already retired |
| SaltRuns.AnswersHideTheKey | models/phonesalt.go:6-12 | two runs that differ only in the keys provisioned answer every Provision and Retire and show every reader the same facts |
| Rfc4648.RoundTrip | password.go:71-75 | encoded bytes decode to themselves in all three base64 variants, with line breaks put in anywhere |
| Rfc4648.DecodesExactly | password.go:101-108 | a text decodes to given bytes if and only if, line breaks dropped and spare bits cleared, it is their encoding |
| Rfc4648Text.AlphabetIsListed | password.go:71-75 | the two base64 alphabets, character by character, written and read |
| Rfc4648Text.ValueIsListed | proof.go:94-96 | a character is read if and only if it is listed |
| Rfc4648Text.WrittenByGroups | password.go:71-75 | bytes are written six bits to a character, first bits first, short groups zero-filled and padded where the encoding pads |
| Rfc4648Text.ReadByGroups | password.go:101-108 | a group is read as the bytes its bits spell, the spare ones of a short group left aside |
| Rfc4648Text.TextsExactly | password.go:101-108 | a text decodes if and only if without its line breaks it is characters of the alphabet, of a possible length, and padded as the encoding pads |
| Rfc4648Text.BreaksAreIgnored | proof.go:94-96 | a carriage return or a newline anywhere changes nothing that is decoded |
| Rfc4648.GroupsHaveLength | proof.go:94-101 | the decoded size fixes the length of a base64 text |
| Rfc4648.HexRoundTrip | proof.go:97 | encoded bytes decode to themselves in hex |
| Rfc4648.HexDecodesExactly | proof.go:97 | a text is the hex of given bytes if and only if in lower case it is their encoding |
| Rfc4648Text.HexDigitsAreListed | proof.go:97 | the sixteen digits, written in lower case and read in either |
| Rfc4648Text.HexByteIsWritten | proof.go:97 | each byte is its two digits, high one first, at twice its place |
| Rfc4648Text.HexTextsExactly | proof.go:97 | a text is hex if and only if it is pairs of digits of either case and nothing else |
| KeyMaterial.DecodeKeyMaterial | proof.go:90-104 | the trial loop answers with standard base64, else raw base64url, else hex, whichever first yields the wanted size, and with nothing for an empty text |
| KeyMaterial.OneFormAtMost | proof.go:90-104 | at 32 and at 64 bytes no text is read by two of the three decoders |
| KeyMaterial.HitsAgree | proof.go:94-101 | at every size but one byte, two decoders that both succeed give the same bytes |
| KeyMaterial.OrderMattersOnlyForOneByte | proof.go:94-98 | every order of the three trials answers alike for all texts if and only if the wanted size is not one |
| KeyMaterial.AmbiguousByte | proof.go:94-98 | "ab" is one byte in base64url and another in hex |
| KeyMaterial.MaterialExactly | proof.go:85-104 | a text is material of the wanted size if and only if its normal spelling is the encoding of that many bytes in some form |
| KeyMaterial.EveryFormDecodes | proof.go:45-49 | bytes of any size from two up, in any of the three forms, decode back to themselves |
| KeyMaterial.VerifyDeviceProof | proof.go:50-63 | unusable exactly when the key is not 32 bytes, valid exactly when both parts decode and Ed25519 accepts them |
| KeyMaterial.IsPublicKeyMaterial | proof.go:80-83 | true exactly for what VerifyDeviceProof can use as a key |
| KeyMaterial.VerdictIgnoresTheForm | proof.go:45-63 | in whichever forms a key and a signature are written the verdict is Ed25519's own |
| PasswordVerifier.PrintedHasSixParts | password.go:84-86 | a printed verifier splits on the dollar sign into exactly its six parts |
| PasswordVerifier.PrintedParses | password.go:71-108 | memory, passes, lanes, salt and key all read back exactly, for every cost in range |
| PasswordVerifier.PrintedLayout | password.go:71-75 | the stored string spelled out, with its costs in decimal |
| PasswordVerifier.DecimalIsPlain | password.go:71-75 | a cost prints as the digits of its value with no zero in front |
| PasswordVerifier.HashLayout | password.go:62-76 | what Hash stores for a long enough password: $argon2id$v=19$m=65536,t=1,p=4$, the salt and the 32-byte key derived at that cost |
| PasswordVerifier.HashVerifies | password.go:62-76 | a password is hashed if and only if it has twelve characters, and its verifier matches exactly the passwords that derive the same key |
| PasswordVerifier.VerifiesAtTheStoredCost | password.go:109-112 | Verify derives at the stored cost and key length, not at the constants |
| PasswordVerifier.PrintingIsInjective | password.go:71-75 | two verifiers are printed alike only if they are the same |
| PasswordVerifier.TwoSaltsTwoHashes | password_test.go:31-41 | hashes of one password under two salts differ |
| PasswordVerifier.UintsScannedExactly | password.go:98-100 | the scanner takes exactly the unsigned numbers that fit, white space before them and no newline |
| PasswordVerifier.IntsScannedExactly | password.go:89-92 | the same for a 64-bit number with a sign |
| PasswordVerifier.CostsScannedExactly | password.go:93-100 | the cost field reads as given numbers if and only if it spells them within 32, 32 and 8 bits |
| PasswordVerifier.ParsedExactly | password.go:83-108 | a string reads as a verifier if and only if it spells that verifier |
| PasswordVerifier.UnreadableExactly | password.go:52-59 | Verify answers unreadable if and only if the string spells no verifier, whatever the password |
| PasswordVerifier.PanicsExactly | password.go:109-112 | Verify panics if and only if the string spells a verifier of no passes, no lanes or an empty key |
| PasswordVerifier.ReadingIsIdempotent | password.go:83-108 | whatever is read is in range, and printing it and reading it again changes nothing |
| EndToEnd.DeviceSessionsAreSigned | routes/device.go:91-130 | every device session rests on an Ed25519 signature, by the 32-byte key of the device registered under its challenge's device id, over the secret of that challenge, which it spent |
| EndToEnd.SignedRequestOpensTheDoor | routes/device.go:91-130 | a device request that meets no other gets a session if and only if the device, its challenge and a 64-byte signature that Ed25519 accepts under the device's 32-byte key are right |
| EndToEnd.SignInAbortsExactly | routes/operator.go:77-83 | a console sign-in is aborted if and only if the address's enabled credential holds a verifier of no passes, no lanes or an empty key |
| EndToEnd.EnrolledOperatorSignsIn | routes/operator.go:61-112 | from any reachable state an enrolled operator is signed in if and only if the address is not locked and the password derives the stored key |

## Left out

- `list_sign_in_sessions` and `IdentitySessions.List` (identity_sessions_sql.go:77-99): a read-only projection.
- Grants, revokes and role names in the installed script: text templates.
- gorm, `specstore`, migrations, legacy adoption and the matching of driver errors (errors.go): tables are maps with atomic guarded updates.
- HTTP decoding and encoding, the route table, `Normalize` and `ValidEmail`: handlers are step sequences over decoded values.
- User-agent classification (device_class.go, user_agent.go) and phone number canonicalization: tables and a library.
- `SetVerification` and `AgeDays`: single-branch facts.
- Years outside 0000 to 9999, and the monotonic clock readings Go carries beside wall times.
- SessionStore.Store.Start: the declared pattern of the token digest is taken to hold, since the digest is always 64 hex digits.
- AuthHandlers.DeviceVerify: the methods run on a store that does not fail, but for the sweep; the steps of `AuthDoors` let any call fail.
- AuthStore.Store.SignOutOtherDevices: the transaction is one step, so a device registered while it runs is not modelled.
- OperatorDoor.Door.RecordFailure: a read and then an upsert, with no recheck; requests for one address are handled one after another, since two that interleave may count as one failure.
- OperatorDoor.AnswersAreInRange: Retry-After is modelled as whole seconds by integer division, where the code truncates a floating-point number of seconds; failures of the store itself, answered 500, are not modelled.
- The phone door's `PhoneAttempt` (models/auth.go, phoneattempt_impl.go:13-60), a twin of the console's automaton with the lock-out as a parameter.
- PasswordVerifier.PanicsExactly: a stored memory cost beyond what the machine has is not modelled.
- PasswordVerifier.ParsedExactly: strings are sequences of characters, so bytes that are not UTF-8 in a stored verifier are not modelled.
- Timing, randomness and cryptographic strength.
