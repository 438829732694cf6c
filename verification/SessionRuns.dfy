/** The session store under callers that interleave at their statements: a touch or an ending is a guarded
    update and, when that changes no row, a read that says why (session_impl.go). */
module SessionRuns {
  import opened Common
  import opened SessionStore
  import opened TimeText

  /** A touch or an ending under way or answered; `known` is whether its id named a row at the update. */
  datatype Call = Call(op: Op, known: bool, answer: Option<Result<(), SessionError>>)

  datatype World = World(sessions: Sessions, calls: map<nat, Call>)

  const EMPTY := World(map[], map[])

  datatype Step =
    | Begin(id: string, start: SessionStart, now: Instant)   // Start, a single insert
    | Update(pid: nat, op: Op)
    | Explain(pid: nat)

  /** The update changes a row. */
  predicate Moves(m: Sessions, op: Op) {
    match op
    case Touch(id, at) => Open(m, id) && m[id].record.lastUsedAt < at
    case End(subject, id, _) => Holds(m, subject, id) && Open(m, id)
    case Start(_, _, _) => false
  }

  /** What the read finds: an open session of that id, or any of the subject's own. */
  predicate Finds(m: Sessions, op: Op) {
    match op
    case Touch(id, _) => Open(m, id)
    case End(subject, id, _) => Holds(m, subject, id)
    case Start(_, _, _) => false
  }

  function AnswerFor(found: bool): Result<(), SessionError> {
    if found then Ok(()) else Err(NotFound)
  }

  predicate CanUpdate(w: World, step: Step) {
    step.Update? && step.pid !in w.calls && !step.op.Start?
  }

  predicate CanExplain(w: World, step: Step) {
    step.Explain? && step.pid in w.calls && w.calls[step.pid].answer.None?
  }

  /** An ending with an empty subject or id is refused before any statement. */
  function FirstAnswer(m: Sessions, op: Op): Option<Result<(), SessionError>> {
    if Moves(m, op) then Some(Ok(()))
    else if op.End? && (op.subject == "" || op.id == "") then Some(Err(NotFound))
    else None
  }

  function SessionsAfter(w: World, step: Step): Sessions {
    match step
    case Begin(id, start, now) => Apply(w.sessions, Start(id, start, now))
    case Update(_, op) => if CanUpdate(w, step) then Apply(w.sessions, op) else w.sessions
    case Explain(_) => w.sessions
  }

  function CallsAfter(w: World, step: Step): map<nat, Call> {
    match step
    case Begin(_, _, _) => w.calls
    case Update(pid, op) =>
      if CanUpdate(w, step) then w.calls[pid := Call(op, op.id in w.sessions, FirstAnswer(w.sessions, op))] else w.calls
    case Explain(pid) =>
      if CanExplain(w, step)
      then w.calls[pid := w.calls[pid].(answer := Some(AnswerFor(Finds(w.sessions, w.calls[pid].op))))] else w.calls
  }

  /** One statement; a step that cannot be taken changes nothing. */
  function Next(w: World, step: Step): World {
    World(SessionsAfter(w, step), CallsAfter(w, step))
  }

  function After(steps: seq<Step>): World {
    if steps == [] then EMPTY else Next(After(steps[..|steps| - 1]), steps[|steps| - 1])
  }

  // ----- The table is that of a run of whole operations -----

  /** The operations whose statements reached the table, in order. */
  function Ops(steps: seq<Step>): seq<Op> {
    if steps == [] then []
    else
      var prev, step := steps[..|steps| - 1], steps[|steps| - 1];
      match step
      case Begin(id, start, now) => Ops(prev) + [Start(id, start, now)]
      case Update(_, op) => if CanUpdate(After(prev), step) then Ops(prev) + [op] else Ops(prev)
      case Explain(_) => Ops(prev)
  }

  /** However statements interleave, the sessions are those of a run of whole operations, so all that holds
      of runs holds here. */
  lemma {:induction false} EveryRunIsOfWholeOperations(steps: seq<Step>)
    ensures After(steps).sessions == Run(map[], Ops(steps)) && Sound(After(steps).sessions)
  {
    if steps != [] {
      var prev, step := steps[..|steps| - 1], steps[|steps| - 1];
      EveryRunIsOfWholeOperations(prev);
      match step
      case Begin(id, start, now) => RunOneMore(map[], Ops(prev), Start(id, start, now));
      case Update(_, op) => RunOneMore(map[], Ops(prev), op);
      case Explain(_) =>
    }
    EveryRunIsSound(map[], Ops(steps));
  }

  // ----- What a caller is told -----

  /** A call that changed nothing and whose id was known has nothing left to change. */
  predicate NothingToMove(m: Sessions, op: Op) {
    !op.Start? && op.id in m && !Moves(m, op)
  }

  predicate Succeeded(c: Call) {
    c.answer.Some? && c.answer.value.Ok?
  }

  predicate Refused(c: Call) {
    c.answer.Some? && c.answer.value.Err?
  }

  predicate TouchKept(m: Sessions, c: Call)
    requires c.op.Touch?
  {
    c.known ==>
      && c.op.id in m
      && (Succeeded(c) ==> m[c.op.id].record.lastUsedAt >= c.op.at)
      && (Refused(c) ==> m[c.op.id].record.Ended())
  }

  predicate EndKept(m: Sessions, c: Call)
    requires c.op.End?
  {
    && (c.answer.None? ==> c.op.subject != "" && c.op.id != "")
    && (c.known ==>
          && c.op.id in m
          && (c.answer.Some? ==> (Succeeded(c) <==> Holds(m, c.op.subject, c.op.id)))
          && (Succeeded(c) ==> m[c.op.id].record.Ended()))
  }

  predicate CallKept(w: World, pid: nat) {
    pid in w.calls ==>
      var c := w.calls[pid];
      && (c.answer.None? && c.known ==> NothingToMove(w.sessions, c.op))
      && match c.op
         case Touch(_, _) => TouchKept(w.sessions, c)
         case End(_, _, _) => EndKept(w.sessions, c)
         case Start(_, _, _) => false
  }

  lemma StepKeepsCall(w: World, step: Step, pid: nat)
    requires CallKept(w, pid)
    ensures CallKept(Next(w, step), pid)
  {
  }

  lemma {:induction false} EveryRunKeepsCalls(steps: seq<Step>, pid: nat)
    ensures CallKept(After(steps), pid)
  {
    if steps != [] {
      EveryRunKeepsCalls(steps[..|steps| - 1], pid);
      StepKeepsCall(After(steps[..|steps| - 1]), steps[|steps| - 1], pid);
    }
  }

  /** What the whole operation would answer. */
  function WholeAnswer(m: Sessions, op: Op): Result<(), SessionError> {
    AnswerFor(Finds(m, op))
  }

  /** A call whose update changed none is answered at its read as the whole operation would be there, and
      that would change nothing either, exactly when it would not move a row started since the update. */
  lemma {:induction false} MissTakesEffectAtTheRead(steps: seq<Step>, pid: nat)
    requires pid in After(steps).calls && After(steps).calls[pid].answer.None?
    ensures var w, c, t := After(steps), After(steps).calls[pid], Next(After(steps), Explain(pid));
            && t.sessions == w.sessions
            && t.calls[pid].answer == Some(WholeAnswer(w.sessions, c.op))
            && (Apply(w.sessions, c.op) == w.sessions <==> c.known || !Moves(w.sessions, c.op))
  {
    var w, c := After(steps), After(steps).calls[pid];
    EveryRunKeepsCalls(steps, pid);
    if Moves(w.sessions, c.op) {
      assert Apply(w.sessions, c.op)[c.op.id] != w.sessions[c.op.id];
    }
  }

  predicate Taken(w: World, step: Step) {
    CanUpdate(w, step) || CanExplain(w, step)
  }

  /** At step n, a statement of the call's own, its answer and the sessions are those of the whole operation there. */
  predicate TakesEffect(steps: seq<Step>, n: nat, pid: nat, op: Op, answer: Result<(), SessionError>)
    requires n < |steps|
  {
    var before, after := After(steps[..n]), After(steps[..n + 1]);
    && Taken(before, steps[n]) && steps[n].pid == pid
    && answer == WholeAnswer(before.sessions, op) && after.sessions == Apply(before.sessions, op)
  }

  ghost predicate HasEffect(steps: seq<Step>, pid: nat, op: Op, answer: Result<(), SessionError>) {
    exists n :: 0 <= n < |steps| && TakesEffect(steps, n, pid, op, answer)
  }

  lemma EffectStays(steps: seq<Step>, pid: nat, op: Op, answer: Result<(), SessionError>)
    requires steps != [] && HasEffect(steps[..|steps| - 1], pid, op, answer)
    ensures HasEffect(steps, pid, op, answer)
  {
    var prev := steps[..|steps| - 1];
    var n :| 0 <= n < |prev| && TakesEffect(prev, n, pid, op, answer);
    assert prev[..n] == steps[..n] && prev[..n + 1] == steps[..n + 1];
    assert TakesEffect(steps, n, pid, op, answer);
  }

  /** The statement that answers a call is one at which it takes effect, unless it is the read of a call that
      named no row at its update and now succeeds. */
  lemma AnsweringTakesEffect(w: World, step: Step, pid: nat)
    requires pid in Next(w, step).calls && Next(w, step).calls[pid].answer.Some?
    requires !(pid in w.calls && w.calls[pid].answer.Some?)
    requires CallKept(w, pid) && (Next(w, step).calls[pid].known || Refused(Next(w, step).calls[pid]))
    ensures var c := Next(w, step).calls[pid];
            && Taken(w, step) && step.pid == pid
            && c.answer == Some(WholeAnswer(w.sessions, c.op)) && Next(w, step).sessions == Apply(w.sessions, c.op)
  {
  }

  /** Linearization: however they interleave, every answered call on a session that had a row, and every refused
      one, took effect at one of its own statements exactly as the whole operation would have there. */
  lemma {:induction false} EveryAnswerLinearizes(steps: seq<Step>, pid: nat)
    requires pid in After(steps).calls && After(steps).calls[pid].answer.Some?
    requires After(steps).calls[pid].known || Refused(After(steps).calls[pid])
    ensures var c := After(steps).calls[pid];
            exists n :: 0 <= n < |steps| && TakesEffect(steps, n, pid, c.op, c.answer.value)
  {
    var prev, step, c := steps[..|steps| - 1], steps[|steps| - 1], After(steps).calls[pid];
    if pid in After(prev).calls && After(prev).calls[pid].answer.Some? {
      EveryAnswerLinearizes(prev, pid);
      assert HasEffect(prev, pid, c.op, c.answer.value);
      EffectStays(steps, pid, c.op, c.answer.value);
      assert HasEffect(steps, pid, c.op, c.answer.value);
    } else {
      EveryRunKeepsCalls(prev, pid);
      AnsweringTakesEffect(After(prev), step, pid);
      assert steps[..|prev|] == prev && steps[..|prev| + 1] == steps;
      assert TakesEffect(steps, |prev|, pid, c.op, c.answer.value);
    }
  }

  /** Of a session that had a row: a touch told it succeeded left, or found, its last use at or past its own
      instant; a touch told not found is of an ended session; an ending succeeds exactly for the subject's
      own session, which is then ended. All of it stays so. */
  lemma {:induction false} AnswersAreHonest(steps: seq<Step>, pid: nat)
    requires pid in After(steps).calls && After(steps).calls[pid].answer.Some? && After(steps).calls[pid].known
    ensures var m, c := After(steps).sessions, After(steps).calls[pid];
            && c.op.id in m
            && (c.op.Touch? ==>
                  if Succeeded(c) then m[c.op.id].record.lastUsedAt >= c.op.at else m[c.op.id].record.Ended())
            && (c.op.End? ==>
                  && (Succeeded(c) <==> Holds(m, c.op.subject, c.op.id))
                  && (Succeeded(c) ==> m[c.op.id].record.Ended()))
  {
    EveryRunKeepsCalls(steps, pid);
  }
}
