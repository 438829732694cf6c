/** Which subject a phone number reaches (phoneattempt_impl.go), agreed on by callers that race. */
module PhoneBinding {
  import opened Common

  type Bindings = map<string, string>

  /** What a caller may believe: the number is looked up or bound in one go. */
  function GetOrCreate(m: Bindings, phone: string, minted: string): (string, Bindings) {
    if phone in m then (m[phone], m)
    else if minted == "" then ("", m)
    else (minted, m[phone := minted])
  }

  /** INSERT ... ON CONFLICT DO NOTHING */
  function InsertIfAbsent(m: Bindings, phone: string, subject: string): Bindings {
    if phone in m then m else m[phone := subject]
  }

  class Store {
    var bindings: Bindings

    method Binding(phone: string) returns (held: Option<string>)
      ensures held == if phone in bindings then Some(bindings[phone]) else None
    {
      return if phone in bindings then Some(bindings[phone]) else None;
    }

    /** Read, insert if absent, read again; `minted` is what mintSubject would answer. */
    method SubjectIDForPhone(phone: string, minted: string) returns (subject: string)
      modifies this`bindings
      ensures (subject, bindings) == GetOrCreate(old(bindings), phone, minted)
      ensures phone in old(bindings) ==> subject == old(bindings)[phone] && bindings == old(bindings)
      ensures phone !in old(bindings) && minted == "" ==> subject == "" && bindings == old(bindings)
      ensures phone !in old(bindings) && minted != "" ==>
                subject == minted && bindings == old(bindings)[phone := minted]
    {
      var held := Binding(phone);
      if held.Some? {
        return held.value;
      }
      if minted == "" {
        return "";
      }
      bindings := InsertIfAbsent(bindings, phone, minted);
      var again := Binding(phone);
      return again.value;
    }
  }

  // ----- Callers that interleave at their statements -----

  datatype Caller =
    | Missed(phone: string)                    // found no row; mints next
    | Inserted(phone: string, minted: string)  // sent its insert; reads again next
    | Answered(phone: string, subject: string)
    | Failed(phone: string)                    // the driver or the context gave up on it

  datatype World = World(bindings: Bindings, callers: map<nat, Caller>)

  const EMPTY := World(map[], map[])

  datatype Step =
    | Call(pid: nat, phone: string)
    | Mint(pid: nat, minted: string)
    | Reread(pid: nat)
    | GiveUp(pid: nat)

  predicate At(w: World, pid: nat, c: Caller) {
    pid in w.callers && w.callers[pid] == c
  }

  /** The caller of a step, after it; None when the step cannot be taken. */
  function Onto(w: World, step: Step): Option<Caller> {
    match step
    case Call(pid, phone) =>
      if pid in w.callers then None
      else Some(if phone in w.bindings then Answered(phone, w.bindings[phone]) else Missed(phone))
    case Mint(pid, minted) =>
      if pid !in w.callers || !w.callers[pid].Missed? then None
      else if minted == "" then Some(Answered(w.callers[pid].phone, ""))
      else Some(Inserted(w.callers[pid].phone, minted))
    case Reread(pid) =>
      if pid !in w.callers || !w.callers[pid].Inserted? then None
      else
        var phone := w.callers[pid].phone;
        Some(if phone in w.bindings then Answered(phone, w.bindings[phone]) else Failed(phone))
    case GiveUp(pid) =>
      if pid !in w.callers || w.callers[pid].Answered? then None else Some(Failed(w.callers[pid].phone))
  }

  predicate Inserts(w: World, step: Step) {
    step.Mint? && step.minted != "" && step.pid in w.callers && w.callers[step.pid].Missed?
  }

  /** One statement of one caller; a step that cannot be taken changes nothing. */
  function Next(w: World, step: Step): World {
    var onto := Onto(w, step);
    World(
      if Inserts(w, step) then InsertIfAbsent(w.bindings, w.callers[step.pid].phone, step.minted) else w.bindings,
      if onto.Some? then w.callers[step.pid := onto.value] else w.callers)
  }

  function After(steps: seq<Step>): World {
    if steps == [] then EMPTY else Next(After(steps[..|steps| - 1]), steps[|steps| - 1])
  }

  // ----- What every reachable world keeps -----

  predicate CallerKept(w: World, pid: nat) {
    pid in w.callers ==>
      match w.callers[pid]
      case Inserted(phone, _) => phone in w.bindings
      case Answered(phone, subject) => subject != "" ==> phone in w.bindings && w.bindings[phone] == subject
      case _ => true
  }

  ghost predicate Kept(w: World) {
    && (forall phone :: phone in w.bindings ==> w.bindings[phone] != "")
    && (forall pid :: CallerKept(w, pid))
  }

  lemma {:induction false} EveryRunKeeps(steps: seq<Step>)
    ensures Kept(After(steps))
  {
    if steps != [] {
      var w := After(steps[..|steps| - 1]);
      EveryRunKeeps(steps[..|steps| - 1]);
      forall pid ensures CallerKept(After(steps), pid) {
        assert CallerKept(w, pid);
      }
    }
  }

  /** A binding, once written, stays as it is, and so does an answer. */
  lemma {:induction false} BindingsAndAnswersArePermanent(steps: seq<Step>, n: nat, phone: string, pid: nat)
    requires n <= |steps|
    ensures phone in After(steps[..n]).bindings ==>
              phone in After(steps).bindings && After(steps).bindings[phone] == After(steps[..n]).bindings[phone]
    ensures pid in After(steps[..n]).callers && After(steps[..n]).callers[pid].Answered? ==>
              At(After(steps), pid, After(steps[..n]).callers[pid])
  {
    if n == |steps| {
      assert steps[..n] == steps;
    } else {
      assert steps[..|steps| - 1][..n] == steps[..n];
      BindingsAndAnswersArePermanent(steps[..|steps| - 1], n, phone, pid);
    }
  }

  /** All non-empty answers for one number are the same, whenever they were given, and are its binding. */
  lemma {:induction false} AnswersAgree(steps: seq<Step>, n: nat, a: nat, b: nat, phone: string, s: string, t: string)
    requires n <= |steps| && s != "" && t != ""
    requires At(After(steps[..n]), a, Answered(phone, s)) && At(After(steps), b, Answered(phone, t))
    ensures s == t && phone in After(steps).bindings && After(steps).bindings[phone] == s
  {
    EveryRunKeeps(steps);
    BindingsAndAnswersArePermanent(steps, n, phone, a);
    assert CallerKept(After(steps), a) && CallerKept(After(steps), b);
  }

  /** The second read of a caller that has inserted always finds a row. */
  lemma {:induction false} RereadFinds(steps: seq<Step>, pid: nat)
    requires pid in After(steps).callers && After(steps).callers[pid].Inserted?
    ensures var phone := After(steps).callers[pid].phone;
            && phone in After(steps).bindings && After(steps).bindings[phone] != ""
            && At(Next(After(steps), Reread(pid)), pid, Answered(phone, After(steps).bindings[phone]))
  {
    EveryRunKeeps(steps);
    assert CallerKept(After(steps), pid);
  }

  /** Only an insert of a non-empty mint for that very number writes a binding, and it writes what was minted. */
  lemma {:induction false} OnlyAMintBinds(steps: seq<Step>, n: nat, phone: string)
    requires n < |steps| && phone !in After(steps[..n]).bindings && phone in After(steps[..n + 1]).bindings
    ensures IsInsertAt(steps, n, steps[n].pid, phone, After(steps[..n + 1]).bindings[phone])
  {
    assert steps[..n + 1][..n] == steps[..n];
  }

  // ----- Every call is one indivisible get-or-create -----

  predicate Taken(steps: seq<Step>, n: nat)
    requires n < |steps|
  {
    Onto(After(steps[..n]), steps[n]).Some?
  }

  /** At step n, a step of the call's own, its answer and the table are those of GetOrCreate there. */
  predicate TakesEffect(steps: seq<Step>, n: nat, pid: nat, phone: string, minted: string, subject: string)
    requires n < |steps|
  {
    && steps[n].pid == pid && Taken(steps, n)
    && (subject, After(steps[..n + 1]).bindings) == GetOrCreate(After(steps[..n]).bindings, phone, minted)
  }

  predicate IsMissAt(steps: seq<Step>, n: nat, pid: nat, phone: string)
    requires n < |steps|
  {
    steps[n] == Call(pid, phone) && Taken(steps, n) && phone !in After(steps[..n]).bindings
  }

  predicate IsInsertAt(steps: seq<Step>, n: nat, pid: nat, phone: string, minted: string)
    requires n < |steps|
  {
    steps[n] == Mint(pid, minted) && minted != "" && At(After(steps[..n]), pid, Missed(phone))
  }

  ghost predicate HasEffect(steps: seq<Step>, pid: nat, phone: string, subject: string) {
    exists n, minted :: 0 <= n < |steps| && TakesEffect(steps, n, pid, phone, minted, subject)
  }

  ghost predicate HasMissed(steps: seq<Step>, pid: nat, phone: string) {
    exists n :: 0 <= n < |steps| && IsMissAt(steps, n, pid, phone)
  }

  ghost predicate HasInserted(steps: seq<Step>, pid: nat, phone: string, minted: string) {
    exists n :: 0 <= n < |steps| && IsInsertAt(steps, n, pid, phone, minted)
  }

  /** Where a caller came from. */
  ghost predicate CameFrom(steps: seq<Step>, pid: nat) {
    pid in After(steps).callers ==>
      match After(steps).callers[pid]
      case Missed(phone) => HasMissed(steps, pid, phone)
      case Inserted(phone, minted) => HasInserted(steps, pid, phone, minted)
      case Answered(phone, subject) => HasEffect(steps, pid, phone, subject)
      case Failed(_) => true
  }

  lemma TookStep(steps: seq<Step>, n: nat)
    requires n < |steps|
    ensures After(steps[..n + 1]) == Next(After(steps[..n]), steps[n])
  {
    assert steps[..n + 1][..n] == steps[..n];
  }

  /** The past of a run is the past of every longer one. */
  lemma PastStays(prev: seq<Step>, steps: seq<Step>, pid: nat, phone: string, s: string)
    requires |prev| < |steps| && prev == steps[..|prev|]
    ensures HasMissed(prev, pid, phone) ==> HasMissed(steps, pid, phone)
    ensures HasInserted(prev, pid, phone, s) ==> HasInserted(steps, pid, phone, s)
    ensures HasEffect(prev, pid, phone, s) ==> HasEffect(steps, pid, phone, s)
  {
    if n :| 0 <= n < |prev| && IsMissAt(prev, n, pid, phone) {
      assert prev[..n] == steps[..n] && prev[..n + 1] == steps[..n + 1];
      assert IsMissAt(steps, n, pid, phone);
    }
    if n :| 0 <= n < |prev| && IsInsertAt(prev, n, pid, phone, s) {
      assert prev[..n] == steps[..n] && prev[..n + 1] == steps[..n + 1];
      assert IsInsertAt(steps, n, pid, phone, s);
    }
    if n, minted :| 0 <= n < |prev| && TakesEffect(prev, n, pid, phone, minted, s) {
      assert prev[..n] == steps[..n] && prev[..n + 1] == steps[..n + 1];
      assert TakesEffect(steps, n, pid, phone, minted, s);
    }
  }

  /** An empty mint answers as the first read would have. */
  lemma MissTakesEffect(steps: seq<Step>, pid: nat, phone: string)
    requires HasMissed(steps, pid, phone)
    ensures HasEffect(steps, pid, phone, "")
  {
    var n :| 0 <= n < |steps| && IsMissAt(steps, n, pid, phone);
    TookStep(steps, n);
    assert TakesEffect(steps, n, pid, phone, "", "");
  }

  /** After an insert, what a read finds is what get-or-create answered at the insert. */
  lemma InsertTakesEffect(steps: seq<Step>, pid: nat, phone: string, minted: string)
    requires HasInserted(steps, pid, phone, minted)
    ensures phone in After(steps).bindings && HasEffect(steps, pid, phone, After(steps).bindings[phone])
  {
    var n :| 0 <= n < |steps| && IsInsertAt(steps, n, pid, phone, minted);
    TookStep(steps, n);
    BindingsAndAnswersArePermanent(steps, n + 1, phone, pid);
    assert TakesEffect(steps, n, pid, phone, minted, After(steps).bindings[phone]);
  }

  lemma {:induction false} EveryCallerCameFrom(steps: seq<Step>, pid: nat)
    ensures CameFrom(steps, pid)
  {
    if steps == [] {
      return;
    }
    var prev, last := steps[..|steps| - 1], |steps| - 1;
    var w, c := After(prev), Onto(After(prev), steps[last]);
    EveryCallerCameFrom(prev, pid);
    if pid in w.callers {
      PastStays(prev, steps, pid, w.callers[pid].phone, match w.callers[pid]
        case Inserted(_, minted) => minted
        case Answered(_, subject) => subject
        case _ => "");
    }
    if steps[last].pid == pid && c.Some? {
      match steps[last]
      case Call(_, phone) =>
        assert c.value.Missed? ==> IsMissAt(steps, last, pid, phone);
        assert c.value.Answered? ==> TakesEffect(steps, last, pid, phone, "", c.value.subject) by {
          TookStep(steps, last);
        }
      case Mint(_, minted) =>
        if minted == "" {
          MissTakesEffect(steps, pid, c.value.phone);
        } else {
          assert IsInsertAt(steps, last, pid, c.value.phone, minted);
        }
      case Reread(_) =>
        InsertTakesEffect(steps, pid, c.value.phone, w.callers[pid].minted);
      case GiveUp(_) =>
    }
  }

  /** Linearization: every answered call, however it interleaved, took effect at one step of its own
      exactly as an indivisible get-or-create would have. */
  lemma EveryAnswerLinearizes(steps: seq<Step>, pid: nat, phone: string, subject: string)
    requires At(After(steps), pid, Answered(phone, subject))
    ensures exists n, minted :: 0 <= n < |steps| && TakesEffect(steps, n, pid, phone, minted, subject)
  {
    EveryCallerCameFrom(steps, pid);
    assert HasEffect(steps, pid, phone, subject);
  }
}
