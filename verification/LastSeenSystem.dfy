/** Many host processes, each with its own throttle, in front of one project. */
module LastSeenSystem {
  import opened Common
  import T = Throttle
  import P = SignInProject

  const LAST_SEEN_THROTTLE := T.LAST_SEEN_THROTTLE

  /** A granted touch on its way: the host has claimed, then the project's transaction has selected. */
  datatype Phase = Asking | Selected(now: int, hit: bool)
  datatype Touch = Touch(host: nat, subject: string, session: string, at: int, phase: Phase)

  /** What has happened: a grant, a denial by an earlier claim, a touch that reached a live session's row, and
      what a host made of a touch's answer. */
  datatype Event =
    | Granted(host: nat, subject: string, session: string, at: int)
    | Denied(host: nat, subject: string, session: string, at: int, since: int)
    | Served(host: nat, subject: string, session: string, at: int, now: int)
    | Answered(host: nat, subject: string, session: string, at: int, answer: P.HostAnswer)

  datatype System = System(
    hosts: map<nat, T.State>,
    inFlight: map<nat, Touch>,
    project: P.Tables,
    known: set<string>,              // every session id there has ever been
    log: set<Event>,
    writes: map<string, seq<int>>    // the last-seen times written, per session, oldest first
  )

  const START := System(map[], map[], P.Tables(map[], map[], map[]), {}, {}, map[])

  datatype Step =
    | Request(id: nat, host: nat, subject: string, session: string, at: int)
    | Begin(id: nat, now: int)                // the transaction starts and selects the session
    | Write(id: nat, answered: bool)          // the upsert; `answered` is false when its answer is lost
    | Fail(id: nat, err: P.DbError)           // the call fails before anything is written
    | EndSession(subject: string, session: string)
    | SignIn(session: string, user: string, notAfter: Option<int>)   // the project's own sign-in
    | SignOut(session: string)                                       // the project's own sign-out
    | Extend(session: string, notAfter: Option<int>)

  function HostState(s: System, h: nat): T.State {
    if h in s.hosts then s.hosts[h] else T.FRESH
  }

  /** Canonical ids hold no slash, session ids are never minted twice, and the
      project's clock is not behind the reading the host took. */
  predicate Enabled(s: System, step: Step) {
    match step
    case Request(id, _, subject, session, _) => id !in s.inFlight && '/' !in subject
    case Begin(id, now) => id in s.inFlight && s.inFlight[id].phase.Asking? && now >= s.inFlight[id].at
    case Write(id, _) => id in s.inFlight && s.inFlight[id].phase.Selected?
    case Fail(id, err) => id in s.inFlight && err != P.SessionGone
    case EndSession(_, _) => true
    case SignIn(session, _, _) => session !in s.known
    case SignOut(_) => true
    case Extend(session, _) => session in s.project.sessions
  }

  function Request1(s: System, step: Step): System
    requires step.Request?
  {
    var Request(id, h, subject, session, at) := step;
    var t, key := HostState(s, h), T.Key(subject, session);
    var s1 := s.(hosts := s.hosts[h := T.Claimed(t, key, at)]);
    if T.Grants(t, key, at) then
      s1.(inFlight := s.inFlight[id := Touch(h, subject, session, at, Asking)],
          log := s.log + {Granted(h, subject, session, at)})
    else if key in t.touched then
      s1.(log := s.log + {Denied(h, subject, session, at, t.touched[key])})
    else
      s1
  }

  function Begin1(s: System, id: nat, now: int): System
    requires id in s.inFlight
  {
    var c := s.inFlight[id];
    s.(inFlight := s.inFlight[id := c.(phase := Selected(now, P.Selects(s.project, c.subject, c.session, now)))])
  }

  function WritesOf(s: System, session: string): seq<int> {
    if session in s.writes then s.writes[session] else []
  }

  /** Whether a touch that selected its session also moves the row. */
  predicate MovesRow(s: System, c: Touch)
    requires c.phase.Selected?
  {
    c.phase.hit && P.Upserted(s.project, c.session, c.phase.now).1 == P.Written
  }

  predicate Serves(s: System, c: Touch)
    requires c.phase.Selected?
  {
    c.phase.hit && P.Upserted(s.project, c.session, c.phase.now).1 != P.Gone
  }

  /** What the driver reports of the write: a lost answer, or the foreign key's refusal, or nothing. */
  function WriteError(s: System, c: Touch, answered: bool): Option<P.DbError>
    requires c.phase.Selected?
  {
    if !answered then Some(P.OtherFailure)
    else if c.phase.hit && P.Upserted(s.project, c.session, c.phase.now).1 == P.Gone then Some(P.SessionGone)
    else None
  }

  function AnswerEvent(c: Touch, err: Option<P.DbError>): Event {
    Answered(c.host, c.subject, c.session, c.at, P.TouchAnswerFor(err))
  }

  /** LastSeen.Touch after the call: the claim is released exactly when IdentitySessions.Touch answers with an error. */
  function HostsAfter(s: System, c: Touch, err: Option<P.DbError>): map<nat, T.State> {
    if P.TouchAnswerFor(err) == P.Done then s.hosts
    else s.hosts[c.host := T.Released(HostState(s, c.host), T.Key(c.subject, c.session), c.at)]
  }

  function Write1(s: System, id: nat, answered: bool): System
    requires id in s.inFlight && s.inFlight[id].phase.Selected?
  {
    var c := s.inFlight[id];
    var err := WriteError(s, c, answered);
    System(
      HostsAfter(s, c, err),
      s.inFlight - {id},
      if c.phase.hit then P.Upserted(s.project, c.session, c.phase.now).0 else s.project,
      s.known,
      if answered && Serves(s, c)
      then s.log + {AnswerEvent(c, err), Served(c.host, c.subject, c.session, c.at, c.phase.now)}
      else s.log + {AnswerEvent(c, err)},
      if MovesRow(s, c) then s.writes[c.session := WritesOf(s, c.session) + [c.phase.now]] else s.writes)
  }

  function Fail1(s: System, id: nat, err: P.DbError): System
    requires id in s.inFlight
  {
    var c := s.inFlight[id];
    s.(hosts := HostsAfter(s, c, Some(err)), inFlight := s.inFlight - {id}, log := s.log + {AnswerEvent(c, Some(err))})
  }

  /** One step; a step that cannot be taken changes nothing, so every sequence of steps is a run. */
  function Next(s: System, step: Step): System {
    if !Enabled(s, step) then s
    else
      match step
      case Request(_, _, _, _, _) => Request1(s, step)
      case Begin(id, now) => Begin1(s, id, now)
      case Write(id, answered) => Write1(s, id, answered)
      case Fail(id, err) => Fail1(s, id, err)
      case EndSession(subject, session) => s.(project := P.Ended(s.project, subject, session))
      case SignIn(session, user, notAfter) =>
        s.(project := s.project.(sessions := s.project.sessions[session := P.Session(user, notAfter)]),
           known := s.known + {session})
      case SignOut(session) => s.(project := P.WithoutSession(s.project, session))
      case Extend(session, notAfter) =>
        var extended := s.project.sessions[session].(notAfter := notAfter);
        s.(project := s.project.(sessions := s.project.sessions[session := extended]))
  }

  function After(steps: seq<Step>): System {
    if steps == [] then START else Next(After(steps[..|steps| - 1]), steps[|steps| - 1])
  }

  // ----- What every step keeps -----

  predicate Spaced(w: seq<int>) {
    forall i :: 0 < i < |w| ==> w[i] - w[i - 1] > LAST_SEEN_THROTTLE
  }

  /** The last-seen row of one session, against everything ever written for it. */
  predicate RowTellsWrites(p: P.Tables, w: seq<int>, x: string) {
    && Spaced(w)
    && (x in p.seen ==> x in p.sessions)
    && (x in p.sessions ==> if w == [] then x !in p.seen else x in p.seen && p.seen[x] == w[|w| - 1])
  }

  ghost predicate RowsTellWrites(s: System) {
    && s.project.sessions.Keys <= s.known
    && (forall x :: RowTellsWrites(s.project, WritesOf(s, x), x))
    && (forall x :: x !in s.known ==> WritesOf(s, x) == [])
  }

  /** A touch that hit a session left its row at most T behind the touch's own instant. */
  predicate Marked(s: System, x: string, now: int) {
    && x in s.known
    && (x in s.project.sessions ==> x in s.project.seen && s.project.seen[x] >= now - LAST_SEEN_THROTTLE)
  }

  ghost predicate ServedLeavesItsMark(s: System) {
    && (forall id :: id in s.inFlight && s.inFlight[id].phase.Selected? ==>
          s.inFlight[id].at <= s.inFlight[id].phase.now)
    && (forall e :: e in s.log && e.Served? ==> e.at <= e.now && Marked(s, e.session, e.now))
  }

  lemma TableOnlyStepsKeepRows(s: System, step: Step)
    requires RowsTellWrites(s) && !step.Write?
    ensures RowsTellWrites(Next(s, step))
  {
    var t := Next(s, step);
    forall x ensures RowTellsWrites(t.project, WritesOf(t, x), x) {
      assert WritesOf(t, x) == WritesOf(s, x);
      assert RowTellsWrites(s.project, WritesOf(s, x), x);
    }
    forall x | x !in t.known ensures WritesOf(t, x) == [] {
      assert WritesOf(t, x) == WritesOf(s, x);
    }
  }

  lemma WriteKeepsRow(s: System, id: nat, answered: bool, x: string)
    requires RowTellsWrites(s.project, WritesOf(s, x), x) && Enabled(s, Write(id, answered))
    ensures var t := Write1(s, id, answered); RowTellsWrites(t.project, WritesOf(t, x), x)
  {
    var c := s.inFlight[id];
    if MovesRow(s, c) && x == c.session {
      SpacedGrows(WritesOf(s, x), c.phase.now);
    }
  }

  lemma WriteKeepsRows(s: System, id: nat, answered: bool)
    requires RowsTellWrites(s) && Enabled(s, Write(id, answered))
    ensures RowsTellWrites(Write1(s, id, answered))
  {
    forall x ensures var t := Write1(s, id, answered); RowTellsWrites(t.project, WritesOf(t, x), x) {
      WriteKeepsRow(s, id, answered, x);
    }
  }

  lemma SpacedGrows(w: seq<int>, now: int)
    requires Spaced(w) && (w != [] ==> now - w[|w| - 1] > LAST_SEEN_THROTTLE)
    ensures Spaced(w + [now])
  {
  }

  /** What no step undoes for one session: an ending lasts, its owner stays, its row only moves forward. */
  predicate OnwardAt(s: System, t: System, x: string) {
    && (x in s.known && x in t.project.sessions ==>
          x in s.project.sessions && t.project.sessions[x].user == s.project.sessions[x].user)
    && (x in s.project.seen && x in t.project.sessions ==>
          x in t.project.seen && t.project.seen[x] >= s.project.seen[x])
    && WritesOf(s, x) <= WritesOf(t, x)
  }

  ghost predicate Onward(s: System, t: System) {
    s.known <= t.known && s.log <= t.log && forall x :: OnwardAt(s, t, x)
  }

  lemma StepIsOnward(s: System, step: Step)
    ensures Onward(s, Next(s, step))
  {
    forall x ensures OnwardAt(s, Next(s, step), x) {
      StepIsOnwardAt(s, step, x);
    }
  }

  lemma StepIsOnwardAt(s: System, step: Step, x: string)
    ensures OnwardAt(s, Next(s, step), x)
  {
    if step.Write? && Enabled(s, step) {
      WriteIsOnwardAt(s, step.id, step.answered, x);
    }
  }

  lemma WriteIsOnwardAt(s: System, id: nat, answered: bool, x: string)
    requires Enabled(s, Write(id, answered))
    ensures OnwardAt(s, Write1(s, id, answered), x)
  {
    var c, t := s.inFlight[id], Write1(s, id, answered);
    assert t.writes
        == if MovesRow(s, c) then s.writes[c.session := WritesOf(s, c.session) + [c.phase.now]] else s.writes;
  }

  lemma OnwardKeepsMarks(s: System, t: System, x: string, now: int)
    requires Onward(s, t) && Marked(s, x, now) && RowTellsWrites(s.project, WritesOf(s, x), x)
    ensures Marked(t, x, now)
  {
    assert OnwardAt(s, t, x);
  }

  lemma WriteLeavesMark(s: System, id: nat)
    requires RowsTellWrites(s) && Enabled(s, Write(id, true)) && Serves(s, s.inFlight[id])
    ensures Marked(Write1(s, id, true), s.inFlight[id].session, s.inFlight[id].phase.now)
  {
  }

  lemma StepKeepsMarks(s: System, step: Step)
    requires RowsTellWrites(s) && ServedLeavesItsMark(s)
    ensures ServedLeavesItsMark(Next(s, step))
  {
    var t := Next(s, step);
    StepIsOnward(s, step);
    forall e | e in t.log && e.Served? ensures e.at <= e.now && Marked(t, e.session, e.now) {
      if e in s.log {
        assert RowTellsWrites(s.project, WritesOf(s, e.session), e.session);
        OnwardKeepsMarks(s, t, e.session, e.now);
      } else {
        WriteLeavesMark(s, step.id);
      }
    }
  }

  lemma {:induction false} EveryRunKeepsRowsAndMarks(steps: seq<Step>)
    ensures RowsTellWrites(After(steps)) && ServedLeavesItsMark(After(steps))
  {
    if steps != [] {
      var s, step := After(steps[..|steps| - 1]), steps[|steps| - 1];
      EveryRunKeepsRowsAndMarks(steps[..|steps| - 1]);
      StepKeepsMarks(s, step);
      if step.Write? && Enabled(s, step) {
        WriteKeepsRows(s, step.id, step.answered);
      } else if !step.Write? {
        TableOnlyStepsKeepRows(s, step);
      }
    }
  }

  lemma {:induction false} RunsAreOnward(steps: seq<Step>, n: nat)
    requires n <= |steps|
    ensures Onward(After(steps[..n]), After(steps))
  {
    if n == |steps| {
      assert steps[..n] == steps;
    } else {
      var prev := steps[..|steps| - 1];
      RunsAreOnward(prev, n);
      assert prev[..n] == steps[..n];
      StepIsOnward(After(prev), steps[|steps| - 1]);
      EveryRunKeepsRowsAndMarks(steps[..n]);
      OnwardComposes(After(steps[..n]), After(prev), After(steps));
    }
  }

  lemma OnwardComposes(s: System, t: System, u: System)
    requires Onward(s, t) && Onward(t, u) && RowsTellWrites(s)
    ensures Onward(s, u)
  {
    forall x ensures OnwardAt(s, u, x) {
      assert OnwardAt(s, t, x) && OnwardAt(t, u, x);
      assert RowTellsWrites(s.project, WritesOf(s, x), x);
    }
  }

  // ----- Staleness -----

  /** Where a host's entries come from, and what a denial rests on. */
  ghost predicate EntriesAreLogged(s: System) {
    && (forall h, k :: h in s.hosts && k in s.hosts[h].touched ==> EntryIsLogged(s.log, h, k, s.hosts[h].touched[k]))
    && (forall e :: e in s.log && e.Denied? ==>
          e.at - e.since < LAST_SEEN_THROTTLE && Granted(e.host, e.subject, e.session, e.since) in s.log)
  }

  ghost predicate EntryIsLogged(log: set<Event>, h: nat, k: string, at: int) {
    exists u, x :: '/' !in u && T.Key(u, x) == k && Granted(h, u, x, at) in log
  }

  lemma RequestKeepsEntriesLogged(s: System, step: Step)
    requires EntriesAreLogged(s) && step.Request? && Enabled(s, step)
    ensures EntriesAreLogged(Request1(s, step))
  {
    var Request(id, h, subject, session, at) := step;
    var t, s1, key := HostState(s, h), Request1(s, step), T.Key(subject, session);
    assert s.log <= s1.log;
    forall h', k | h' in s1.hosts && k in s1.hosts[h'].touched
      ensures EntryIsLogged(s1.log, h', k, s1.hosts[h'].touched[k])
    {
      if h' == h && k == key && T.Grants(t, key, at) {
        assert Granted(h, subject, session, at) in s1.log;
      } else {
        assert h' in s.hosts && k in s.hosts[h'].touched && s1.hosts[h'].touched[k] == s.hosts[h'].touched[k];
        assert EntryIsLogged(s.log, h', k, s.hosts[h'].touched[k]);
        var u, x :| '/' !in u && T.Key(u, x) == k && Granted(h', u, x, s.hosts[h'].touched[k]) in s.log;
        assert Granted(h', u, x, s.hosts[h'].touched[k]) in s1.log;
      }
    }
    if !T.Grants(t, key, at) {
      assert EntryIsLogged(s.log, h, key, t.touched[key]);
      var u, x :| '/' !in u && T.Key(u, x) == key && Granted(h, u, x, t.touched[key]) in s.log;
      T.KeyIsInjective(u, x, subject, session);
    }
  }

  lemma {:induction false} EveryRunLogsItsEntries(steps: seq<Step>)
    ensures EntriesAreLogged(After(steps))
  {
    if steps != [] {
      var s, step := After(steps[..|steps| - 1]), steps[|steps| - 1];
      EveryRunLogsItsEntries(steps[..|steps| - 1]);
      if step.Request? && Enabled(s, step) {
        RequestKeepsEntriesLogged(s, step);
      } else {
        OtherStepsKeepEntriesLogged(s, step);
      }
    }
  }

  lemma OtherStepsKeepEntriesLogged(s: System, step: Step)
    requires EntriesAreLogged(s) && !(step.Request? && Enabled(s, step))
    ensures EntriesAreLogged(Next(s, step))
  {
    var t := Next(s, step);
    assert s.log <= t.log;
    forall h, k | h in t.hosts && k in t.hosts[h].touched ensures EntryIsLogged(t.log, h, k, t.hosts[h].touched[k]) {
      assert h in s.hosts && k in s.hosts[h].touched && t.hosts[h].touched[k] == s.hosts[h].touched[k];
      var u, x :| '/' !in u && T.Key(u, x) == k && Granted(h, u, x, s.hosts[h].touched[k]) in s.log;
      assert Granted(h, u, x, s.hosts[h].touched[k]) in t.log;
    }
  }

  /** A granted touch that reached the session keeps the stored time within T of it, for as long as the session
      lives. */
  lemma {:induction false} GrantedTouchIsFresh(steps: seq<Step>, n: nat, e: Event)
    requires n <= |steps| && e in After(steps[..n]).log && e.Served?
    requires e.session in After(steps).project.sessions
    ensures e.session in After(steps).project.seen
    ensures After(steps).project.seen[e.session] >= e.at - LAST_SEEN_THROTTLE
  {
    RunsAreOnward(steps, n);
    EveryRunKeepsRowsAndMarks(steps);
    assert Marked(After(steps), e.session, e.now);
  }

  /** A request a host answers by itself was denied by an earlier grant to the same subject and session. */
  lemma {:induction false} DenialRestsOnAGrant(steps: seq<Step>, d: Event)
    requires d in After(steps).log && d.Denied?
    ensures Granted(d.host, d.subject, d.session, d.since) in After(steps).log
    ensures d.at - d.since < LAST_SEEN_THROTTLE
  {
    EveryRunLogsItsEntries(steps);
  }

  /** Once the touch behind a denial has reached the session, the stored time is
      less than 2T behind the denied request, and stays so while the session lives. */
  lemma {:induction false} DeniedRequestIsLessThanTwoThrottlesStale(steps: seq<Step>, n: nat, d: Event, now: int)
    requires n <= |steps| && d in After(steps[..n]).log && d.Denied?
    requires Served(d.host, d.subject, d.session, d.since, now) in After(steps[..n]).log
    requires d.session in After(steps).project.sessions
    ensures d.session in After(steps).project.seen
    ensures After(steps).project.seen[d.session] > d.at - 2 * LAST_SEEN_THROTTLE
  {
    RunsAreOnward(steps, n);
    EveryRunLogsItsEntries(steps);
    GrantedTouchIsFresh(steps, n, Served(d.host, d.subject, d.session, d.since, now));
  }

  // ----- One throttle is not a bound, even for one host -----

  /** No denial that rests on this claim is more than T ahead of the stored time, while the session lives. */
  predicate Prompt(t: System, c: Touch, d: Event) {
    && d in t.log && d.Denied?
    && d.host == c.host && d.subject == c.subject && d.session == c.session && d.since == c.at
    && c.session in t.project.sessions
    ==> c.session in t.project.seen && d.at - t.project.seen[c.session] <= LAST_SEEN_THROTTLE
  }

  /** And so in every later system. */
  ghost predicate OneThrottleSuffices(steps: seq<Step>, c: Touch) {
    forall more: seq<Step>, d: Event :: Prompt(After(steps + more), c, d)
  }

  /** The touch moved the row, or found it at most an instant behind the claim. */
  predicate Fresh(s: System, c: Touch)
    requires c.phase.Selected?
  {
    MovesRow(s, c) || (c.session in s.project.seen && s.project.seen[c.session] >= c.at - 1)
  }

  /** A write about to be made, for a session that is still there. */
  predicate Serving(s: System, id: nat) {
    && Enabled(s, Write(id, true)) && s.inFlight[id].phase.hit && s.inFlight[id].session in s.project.sessions
  }

  lemma AfterOneMore(steps: seq<Step>, step: Step)
    ensures After(steps + [step]) == Next(After(steps), step)
  {
    assert (steps + [step])[..|steps + [step]| - 1] == steps;
  }

  lemma {:induction false} InFlightIsSound(steps: seq<Step>, id: nat)
    requires id in After(steps).inFlight
    ensures '/' !in After(steps).inFlight[id].subject
    ensures After(steps).inFlight[id].phase.Selected?
            ==> After(steps).inFlight[id].at <= After(steps).inFlight[id].phase.now
  {
    var prev := steps[..|steps| - 1];
    if id in After(prev).inFlight {
      InFlightIsSound(prev, id);
    }
  }

  /** A fresh row keeps every denial of its claim within one throttle. */
  lemma {:induction false} FreshIsPrompt(steps: seq<Step>, id: nat, more: seq<Step>, d: Event)
    requires Serving(After(steps), id) && Fresh(After(steps), After(steps).inFlight[id])
    ensures Prompt(After(steps + [Write(id, true)] + more), After(steps).inFlight[id], d)
  {
    var c, wrote := After(steps).inFlight[id], steps + [Write(id, true)];
    var t, u := After(wrote), After(wrote + more);
    AfterOneMore(steps, Write(id, true));
    InFlightIsSound(steps, id);
    assert c.session in t.project.seen && t.project.seen[c.session] >= c.at - 1;
    assert (wrote + more)[..|wrote|] == wrote;
    RunsAreOnward(wrote + more, |wrote|);
    assert OnwardAt(t, u, c.session);
    if d in u.log && d.Denied? {
      DenialRestsOnAGrant(wrote + more, d);
    }
  }

  predicate StillClaimed(s: System, c: Touch) {
    var key := T.Key(c.subject, c.session);
    key in HostState(s, c.host).touched && HostState(s, c.host).touched[key] == c.at
  }

  /** The last request a claim can keep back. */
  function LastDenied(id: nat, c: Touch): Step {
    Request(id, c.host, c.subject, c.session, c.at + LAST_SEEN_THROTTLE - 1)
  }

  lemma LastDeniedIsDenied(s: System, id: nat, c: Touch)
    requires StillClaimed(s, c) && '/' !in c.subject && id !in s.inFlight
    ensures var d := Denied(c.host, c.subject, c.session, c.at + LAST_SEEN_THROTTLE - 1, c.at);
            d in Next(s, LastDenied(id, c)).log && Next(s, LastDenied(id, c)).project == s.project
  {
  }

  /** Every request that a claim keeps back, now or later, sees at most T of lag, exactly when its touch moved
      the row or found it no more than an instant behind the claim. */
  lemma {:induction false} OneThrottleHoldsExactlyWhen(steps: seq<Step>, id: nat)
    requires Serving(After(steps), id) && StillClaimed(After(steps), After(steps).inFlight[id])
    ensures OneThrottleSuffices(steps + [Write(id, true)], After(steps).inFlight[id])
            <==> Fresh(After(steps), After(steps).inFlight[id])
  {
    var s, c, wrote := After(steps), After(steps).inFlight[id], steps + [Write(id, true)];
    if Fresh(s, c) {
      forall more, d ensures Prompt(After(wrote + more), c, d) {
        FreshIsPrompt(steps, id, more, d);
      }
    } else {
      InFlightIsSound(steps, id);
      AfterOneMore(steps, Write(id, true));
      LastDeniedIsDenied(After(wrote), id, c);
      AfterOneMore(wrote, LastDenied(id, c));
      var d := Denied(c.host, c.subject, c.session, c.at + LAST_SEEN_THROTTLE - 1, c.at);
      assert !Prompt(After(wrote + [LastDenied(id, c)]), c, d);
    }
  }

  const DAWN := 10 * LAST_SEEN_THROTTLE

  /** Two grants exactly T apart: the second is kept out by the strict guard. */
  const LAGGING: seq<Step> := [
    SignIn("x", "u", None),
    Request(0, 0, "u", "x", DAWN), Begin(0, DAWN), Write(0, true),
    Request(1, 0, "u", "x", DAWN + LAST_SEEN_THROTTLE), Begin(1, DAWN + LAST_SEEN_THROTTLE), Write(1, true),
    Request(2, 0, "u", "x", DAWN + 2 * LAST_SEEN_THROTTLE - 1)
  ]

  /** One host, and a request answered without a write 2T - 1 after the stored time: 2T cannot be lowered. */
  lemma OneHostLagsAlmostTwoThrottles()
    ensures var s := After(LAGGING);
            && s.hosts.Keys == {0}
            && Denied(0, "u", "x", DAWN + 2 * LAST_SEEN_THROTTLE - 1, DAWN + LAST_SEEN_THROTTLE) in s.log
            && Served(0, "u", "x", DAWN + LAST_SEEN_THROTTLE, DAWN + LAST_SEEN_THROTTLE) in s.log
            && "x" in s.project.seen && s.project.seen["x"] == DAWN
  {
    var key, noon := T.Key("u", "x"), DAWN + LAST_SEEN_THROTTLE;
    var s4 := After(LAGGING[..4]);
    FirstTouch();
    assert LAGGING[..5][..4] == LAGGING[..4];
    var s5 := After(LAGGING[..5]);
    assert s5.project == s4.project;
    assert s5.hosts == map[0 := T.State(map[key := noon], noon)];
    assert s5.inFlight == map[1 := Touch(0, "u", "x", noon, Asking)];
    assert LAGGING[..6][..5] == LAGGING[..5];
    var s6 := After(LAGGING[..6]);
    assert s6.project == s4.project && s6.hosts == s5.hosts;
    assert s6.inFlight == map[1 := Touch(0, "u", "x", noon, Selected(noon, true))];
    assert LAGGING[..7][..6] == LAGGING[..6];
    var s7 := After(LAGGING[..7]);
    assert s7.project == s4.project && s7.hosts == s5.hosts && s7.inFlight == map[];
    assert LAGGING[..7] == LAGGING[..|LAGGING| - 1];
  }

  lemma FirstTouch()
    ensures var s := After(LAGGING[..4]);
            && s.project == P.Tables(map["x" := P.Session("u", None)], map[], map["x" := DAWN]) && s.inFlight == map[]
            && s.hosts == map[0 := T.State(map[T.Key("u", "x") := DAWN], DAWN)]
  {
    assert LAGGING[..1][..0] == [];
    assert LAGGING[..2][..1] == LAGGING[..1];
    assert LAGGING[..3][..2] == LAGGING[..2];
    assert LAGGING[..4][..3] == LAGGING[..3];
    assert After(LAGGING[..1]).project == P.Tables(map["x" := P.Session("u", None)], map[], map[]);
    assert After(LAGGING[..2]).inFlight == map[0 := Touch(0, "u", "x", DAWN, Asking)];
    assert After(LAGGING[..3]).inFlight == map[0 := Touch(0, "u", "x", DAWN, Selected(DAWN, true))];
  }

  // ----- Spacing of writes -----

  /** Successive writes of one session's row are more than T apart, whatever the hosts do. */
  lemma {:induction false} WritesAreSpaced(steps: seq<Step>, x: string, i: nat, j: nat)
    requires i < j < |WritesOf(After(steps), x)|
    ensures WritesOf(After(steps), x)[j] - WritesOf(After(steps), x)[i] > (j - i) * LAST_SEEN_THROTTLE
  {
    EveryRunKeepsRowsAndMarks(steps);
    assert RowTellsWrites(After(steps).project, WritesOf(After(steps), x), x);
    SpacedAdds(WritesOf(After(steps), x), i, j);
  }

  lemma {:induction false} SpacedAdds(w: seq<int>, i: nat, j: nat)
    requires Spaced(w) && i < j < |w|
    ensures w[j] - w[i] > (j - i) * LAST_SEEN_THROTTLE
    decreases j
  {
    if i + 1 < j {
      SpacedAdds(w, i, j - 1);
    }
  }

  /** Any span of project time holds at most span / T + 1 writes of one session. */
  lemma {:induction false} WritesInASpanAreFew(steps: seq<Step>, x: string, i: nat, j: nat, span: nat)
    requires i <= j < |WritesOf(After(steps), x)|
    requires WritesOf(After(steps), x)[j] - WritesOf(After(steps), x)[i] <= span
    ensures j - i + 1 <= span / LAST_SEEN_THROTTLE + 1
  {
    if i < j {
      WritesAreSpaced(steps, x, i, j);
    }
  }

  // ----- Ending -----

  /** Every last-seen row refers to a session that exists. */
  lemma {:induction false} RowsReferToSessions(steps: seq<Step>)
    ensures P.ReferencesHold(After(steps).project)
  {
    EveryRunKeepsRowsAndMarks(steps);
    var s := After(steps);
    forall x | x in s.project.seen ensures x in s.project.sessions {
      assert RowTellsWrites(s.project, WritesOf(s, x), x);
    }
  }

  /** After an ending no later touch brings the session or its row back. */
  lemma {:induction false} EndedStaysEnded(steps: seq<Step>, n: nat, x: string)
    requires n <= |steps| && x in After(steps[..n]).known && x !in After(steps[..n]).project.sessions
    ensures x !in After(steps).project.sessions && x !in After(steps).project.seen
  {
    RunsAreOnward(steps, n);
    assert OnwardAt(After(steps[..n]), After(steps), x);
    RowsReferToSessions(steps);
  }

  /** One step takes a session from the table exactly when it is an ending by the session's own user, or the
      project's own sign-out of it. */
  lemma {:induction false} SessionEndsExactlyWhen(steps: seq<Step>, step: Step, x: string)
    requires x in After(steps).project.sessions
    ensures x !in After(steps + [step]).project.sessions
            <==> step == SignOut(x) || step == EndSession(After(steps).project.sessions[x].user, x)
  {
    AfterOneMore(steps, step);
  }

  /** A session stays, with its user, through every run in which its own user does not end it and the project does
      not sign it out, whatever anybody else tries. */
  lemma {:induction false} SessionStays(steps: seq<Step>, n: nat, x: string)
    requires n <= |steps| && x in After(steps[..n]).project.sessions
    requires forall i :: n <= i < |steps| ==>
                           steps[i] != SignOut(x)
                           && steps[i] != EndSession(After(steps[..n]).project.sessions[x].user, x)
    ensures x in After(steps).project.sessions
    ensures After(steps).project.sessions[x].user == After(steps[..n]).project.sessions[x].user
  {
    if n == |steps| {
      assert steps[..n] == steps;
    } else {
      var prev, last := steps[..|steps| - 1], steps[|steps| - 1];
      assert prev[..n] == steps[..n] && steps == prev + [last];
      SessionStays(prev, n, x);
      SessionEndsExactlyWhen(prev, last, x);
      EveryRunKeepsRowsAndMarks(prev);
      StepIsOnwardAt(After(prev), last, x);
    }
  }

  /** A touch with nothing between its statements writes exactly when the session is the subject's, has not
      reached its end and has no last-seen time within the throttle, and then the transaction's instant. */
  lemma TouchAlone(s: System, id: nat, now: int)
    requires Enabled(s, Begin(id, now))
    ensures var c := s.inFlight[id];
            var t := Next(Next(s, Begin(id, now)), Write(id, true));
            var writes :=
              && c.session in s.project.sessions && s.project.sessions[c.session].user == c.subject
              && (s.project.sessions[c.session].notAfter.None? || s.project.sessions[c.session].notAfter.value > now)
              && (c.session !in s.project.seen || now - s.project.seen[c.session] > LAST_SEEN_THROTTLE);
            t.project == if writes then s.project.(seen := s.project.seen[c.session := now]) else s.project
  {
    P.TouchWritesExactlyWhen(s.project, s.inFlight[id].subject, s.inFlight[id].session, now);
  }

  /** A touch that selected its session before the session was ended, at whatever step, and writes after:
      the write is refused, the host is answered Done, its map stays as it was, and nothing else changes. */
  lemma {:induction false} OvertakenTouchIsAnsweredDone(steps: seq<Step>, n: nat, id: nat)
    requires n < |steps| && id in After(steps[..n]).inFlight && id in After(steps).inFlight
    requires After(steps).inFlight[id] == After(steps[..n]).inFlight[id]
    requires After(steps).inFlight[id].phase.Selected? && After(steps).inFlight[id].phase.hit
    requires After(steps).inFlight[id].session in After(steps[..n]).project.sessions
    requires After(steps).inFlight[id].session !in After(steps[..n + 1]).project.sessions
    ensures var s, c := After(steps), After(steps).inFlight[id];
            var t := Next(s, Write(id, true));
            && t.log == s.log + {Answered(c.host, c.subject, c.session, c.at, P.Done)}
            && t.hosts == s.hosts && t.project == s.project && t.writes == s.writes && t.inFlight == s.inFlight - {id}
            && c.session !in t.project.sessions && c.session !in t.project.seen
  {
    var s, c := After(steps), After(steps).inFlight[id];
    EveryRunKeepsRowsAndMarks(steps[..n]);
    assert steps[..n + 1][..n] == steps[..n];
    RunsAreOnward(steps[..n + 1], n);
    EndedStaysEnded(steps, n + 1, c.session);
  }

  /** What the host makes of the end of a call. */
  function AnswerOf(s: System, step: Step): P.HostAnswer
    requires (step.Write? || step.Fail?) && Enabled(s, step)
  {
    P.TouchAnswerFor(if step.Write? then WriteError(s, s.inFlight[step.id], step.answered) else Some(step.err))
  }

  /** While its claim is held, a touch that comes to an end lets the next request of its session through exactly
      when it is answered with an error or the throttle has passed; a session gone by then is no error. */
  lemma RetriedExactlyOnError(s: System, step: Step, at: int)
    requires (step.Write? || step.Fail?) && Enabled(s, step) && StillClaimed(s, s.inFlight[step.id])
    ensures var c, t := s.inFlight[step.id], Next(s, step);
            && Answered(c.host, c.subject, c.session, c.at, AnswerOf(s, step)) in t.log
            && (T.Grants(HostState(t, c.host), T.Key(c.subject, c.session), at)
                <==> AnswerOf(s, step) != P.Done || at - c.at >= LAST_SEEN_THROTTLE)
            && (AnswerOf(s, step) != P.Done <==> step.Fail? || !step.answered)
  {
    var c, t := s.inFlight[step.id], Next(s, step);
    var key := T.Key(c.subject, c.session);
    assert StillClaimed(t, c) <==> AnswerOf(s, step) == P.Done;
    assert key !in HostState(t, c.host).touched ==> T.Grants(HostState(t, c.host), key, at);
  }
}
