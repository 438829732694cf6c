/** The identity project's tables and the touch and end functions installed in it (identity_sessions_sql.go). */
module SignInProject {
  import opened Common
  import opened Throttle

  datatype Session = Session(user: string, notAfter: Option<int>)

  /** auth.sessions, auth.refresh_tokens (token to session) and sign_in_private.session_last_seen. */
  datatype Tables = Tables(sessions: map<string, Session>, tokens: map<string, string>, seen: map<string, int>)

  /** The foreign key session_last_seen.session_id -> auth.sessions.id. */
  predicate ReferencesHold(p: Tables) {
    p.seen.Keys <= p.sessions.Keys
  }

  /** The rows the touch selects: the subject's own session, not past its end. */
  predicate Selects(p: Tables, subject: string, session: string, now: int) {
    && session in p.sessions
    && p.sessions[session].user == subject
    && (p.sessions[session].notAfter.None? || p.sessions[session].notAfter.value > now)
  }

  /** The guard of the conflict clause, or no conflict at all. */
  predicate Moves(seen: map<string, int>, session: string, now: int) {
    session in seen ==> seen[session] < now - LAST_SEEN_THROTTLE
  }

  datatype WriteOutcome = Gone | Written | Kept

  /** The insert half of the touch, for a session its select found: the foreign key is checked at the write. */
  function Upserted(p: Tables, session: string, now: int): (Tables, WriteOutcome) {
    if session !in p.sessions then (p, Gone)
    else if Moves(p.seen, session, now) then (p.(seen := p.seen[session := now]), Written)
    else (p, Kept)
  }

  function Touched(p: Tables, subject: string, session: string, now: int): Tables {
    if Selects(p, subject, session, now) then Upserted(p, session, now).0 else p
  }

  predicate Owns(p: Tables, subject: string, session: string) {
    session in p.sessions && p.sessions[session].user == subject
  }

  /** Deleting a session row cascades to its last-seen row. */
  function WithoutSession(p: Tables, session: string): Tables {
    p.(sessions := p.sessions - {session}, seen := p.seen - {session})
  }

  function WithoutTokensOf(p: Tables, session: string): Tables {
    p.(tokens := map t | t in p.tokens && p.tokens[t] != session :: p.tokens[t])
  }

  function Ended(p: Tables, subject: string, session: string): Tables {
    if Owns(p, subject, session) then WithoutSession(WithoutTokensOf(p, session), session) else p
  }

  /** Only the session's own user ends it; that takes away exactly the session, its tokens and its last-seen row,
      and anybody else changes nothing. */
  lemma EndRemovesExactlyOneSession(p: Tables, subject: string, session: string)
    ensures var q := Ended(p, subject, session);
            if session in p.sessions && p.sessions[session].user == subject then
              && q.sessions == p.sessions - {session}
              && q.seen == p.seen - {session}
              && (forall t :: t in q.tokens <==> t in p.tokens && p.tokens[t] != session)
              && (forall t :: t in q.tokens ==> q.tokens[t] == p.tokens[t])
            else q == p
    ensures ReferencesHold(p) ==> ReferencesHold(Ended(p, subject, session))
    ensures Ended(Ended(p, subject, session), subject, session) == Ended(p, subject, session)
  {
  }

  /** A touch writes exactly when the session is the subject's, has not reached its end and has no last-seen time
      within the throttle, and then its own instant; it changes nothing else. */
  lemma TouchWritesExactlyWhen(p: Tables, subject: string, session: string, now: int)
    ensures var writes :=
              && session in p.sessions && p.sessions[session].user == subject
              && (p.sessions[session].notAfter.None? || p.sessions[session].notAfter.value > now)
              && (session !in p.seen || now - p.seen[session] > LAST_SEEN_THROTTLE);
            Touched(p, subject, session, now) == if writes then p.(seen := p.seen[session := now]) else p
  {
  }

  /** What the project answers and what the host makes of it. */
  datatype DbError = SessionGone | FunctionsMissing | OtherFailure
  datatype HostAnswer = Done | NotFound | Missing | Failed

  /** IdentitySessions.Touch: a foreign-key refusal means the session is gone, which is no failure. */
  function TouchAnswerFor(err: Option<DbError>): HostAnswer {
    match err
    case None => Done
    case Some(SessionGone) => Done
    case Some(FunctionsMissing) => Missing
    case Some(OtherFailure) => Failed
  }

  class Project {
    var sessions: map<string, Session>
    var tokens: map<string, string>
    var seen: map<string, int>

    function Abstract(): Tables
      reads this
    {
      Tables(sessions, tokens, seen)
    }

    constructor ()
      ensures Abstract() == Tables(map[], map[], map[])
    {
      sessions, tokens, seen := map[], map[], map[];
    }

    /** touch_sign_in_session, with `now` the transaction's start. */
    method TouchSignInSession(subject: string, session: string, now: int)
      requires ReferencesHold(Abstract())
      modifies this`seen
      ensures Abstract() == Touched(old(Abstract()), subject, session, now)
      ensures ReferencesHold(Abstract())
      ensures session in old(seen) ==> session in seen && seen[session] >= old(seen)[session]
      ensures seen == if && session in sessions && sessions[session].user == subject
                         && (sessions[session].notAfter.None? || sessions[session].notAfter.value > now)
                         && (session in old(seen) ==> now - old(seen)[session] > LAST_SEEN_THROTTLE)
                      then old(seen)[session := now] else old(seen)
      ensures session in sessions && sessions[session].user == subject
              && (sessions[session].notAfter.None? || sessions[session].notAfter.value > now) ==>
                session in seen && seen[session] >= now - LAST_SEEN_THROTTLE
      ensures forall s :: s != session ==> (s in seen <==> s in old(seen)) && (s in seen ==> seen[s] == old(seen)[s])
    {
      if session in sessions && sessions[session].user == subject
         && (sessions[session].notAfter.None? || sessions[session].notAfter.value > now)
      {
        if session !in seen {
          seen := seen[session := now];
        } else if seen[session] < now - LAST_SEEN_THROTTLE {
          seen := seen[session := now];
        }
      }
    }

    /** IdentitySessions.Touch run alone; `canonical` is uuid.Parse and `fault` why the call never ran,
        if it did not. */
    method Touch(
      canonical: string -> Option<string>, subjectID: string, sessionID: string, now: int, fault: Option<DbError>)
      returns (answer: HostAnswer)
      requires ReferencesHold(Abstract())
      modifies this`seen
      ensures canonical(subjectID).None? || canonical(sessionID).None? ==>
                answer == NotFound && Abstract() == old(Abstract())
      ensures canonical(subjectID).Some? && canonical(sessionID).Some? ==>
                && (fault.None? || fault == Some(SessionGone) ==> answer == Done)
                && (fault == Some(FunctionsMissing) ==> answer == Missing)
                && (fault == Some(OtherFailure) ==> answer == Failed)
                && answer == TouchAnswerFor(fault)
                && Abstract()
                   == if fault.Some? then old(Abstract())
                      else Touched(old(Abstract()), canonical(subjectID).value, canonical(sessionID).value, now)
      ensures ReferencesHold(Abstract())
    {
      var subject, session := canonical(subjectID), canonical(sessionID);
      if subject.None? || session.None? {
        return NotFound;
      }
      if fault.None? {
        TouchSignInSession(subject.value, session.value, now);
      }
      return TouchAnswerFor(fault);
    }

    /** end_sign_in_session. */
    method EndSignInSession(subject: string, session: string) returns (ended: bool)
      requires ReferencesHold(Abstract())
      modifies this
      ensures ended <==> session in old(sessions) && old(sessions)[session].user == subject
      ensures !ended ==> sessions == old(sessions) && tokens == old(tokens) && seen == old(seen)
      ensures ended ==> sessions == old(sessions) - {session} && seen == old(seen) - {session}
      ensures ended ==> forall t :: t in tokens <==> t in old(tokens) && old(tokens)[t] != session
      ensures forall t :: t in tokens ==> t in old(tokens) && tokens[t] == old(tokens)[t]
      ensures Abstract() == Ended(old(Abstract()), subject, session)
      ensures ReferencesHold(Abstract())
    {
      if session !in sessions || sessions[session].user != subject {
        return false;
      }
      tokens := map t | t in tokens && tokens[t] != session :: tokens[t];
      sessions := sessions - {session};
      seen := seen - {session};
      return true;
    }

    /** IdentitySessions.End; `canonical` is uuid.Parse and `fault` why the call never ran, if it did not. */
    method End(canonical: string -> Option<string>, subjectID: string, sessionID: string, fault: Option<DbError>)
      returns (answer: HostAnswer)
      requires ReferencesHold(Abstract())
      modifies this
      ensures canonical(subjectID).None? || canonical(sessionID).None? ==> answer == NotFound
      ensures canonical(subjectID).Some? && canonical(sessionID).Some? && fault.Some? ==>
                answer == if fault == Some(FunctionsMissing) then Missing else Failed
      ensures canonical(subjectID).Some? && canonical(sessionID).Some? && fault.None? ==>
                var u, x := canonical(subjectID).value, canonical(sessionID).value;
                answer == if x in old(sessions) && old(sessions)[x].user == u then Done else NotFound
      ensures answer != Done ==> sessions == old(sessions) && tokens == old(tokens) && seen == old(seen)
      ensures answer == Done ==>
                var x := canonical(sessionID).value;
                && sessions == old(sessions) - {x} && seen == old(seen) - {x}
                && (forall t :: t in tokens <==> t in old(tokens) && old(tokens)[t] != x)
                && (forall t :: t in tokens ==> tokens[t] == old(tokens)[t])
      ensures ReferencesHold(Abstract())
    {
      var subject, session := canonical(subjectID), canonical(sessionID);
      if subject.None? || session.None? {
        return NotFound;
      }
      if fault.Some? {
        return if fault == Some(FunctionsMissing) then Missing else Failed;
      }
      var ended := EndSignInSession(subject.value, session.value);
      return if ended then Done else NotFound;
    }
  }
}
