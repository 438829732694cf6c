/** The salt register under callers that interleave at their statements. */
module SaltRuns {
  import opened Common
  import opened SaltRegister

  /** What the guarded update of a retirement met; the caller learns only whether a row was affected. */
  datatype Found = Absent | LiveThen | RetiredThen

  datatype Retirement =
    | Updated(id: int, retiredBy: string, at: int, found: Found)
    | Answered(id: int, retiredBy: string, at: int, found: Found, r: Result<PublicSalt, SaltError>)

  /** What other callers are told: the answer to a Provision, or the facts that Live and List read from. */
  datatype Told = Provisioned(r: Result<PublicSalt, SaltError>) | Looked(facts: map<int, PublicSalt>)

  datatype World = World(rows: Rows, calls: map<nat, Retirement>, told: seq<Told>)

  const EMPTY := World(map[], map[], [])

  datatype Step =
    | Provision(id: int, secret: seq<byte>, setBy: string, now: int)
    | Retire(pid: nat, id: int, retiredBy: string, now: int)
    | Explain(pid: nat)
    | Look

  function Meets(m: Rows, id: int): Found {
    if id !in m then Absent else if IsLive(m, id) then LiveThen else RetiredThen
  }

  /** The second statement: re-read the row that was stamped, or count the rows of that id. */
  function Explained(m: Rows, c: Retirement): Result<PublicSalt, SaltError> {
    if c.found.LiveThen? then if c.id in m then Ok(m[c.id].Public()) else Err(NoRow)
    else if c.id in m then Err(AlreadyRetired) else Err(NotFound)
  }

  function RowsAfter(w: World, step: Step): Rows {
    match step
    case Provision(id, secret, setBy, now) => AfterProvision(w.rows, id, secret, setBy, now)
    case Retire(pid, id, retiredBy, now) => if pid in w.calls then w.rows else AfterRetire(w.rows, id, retiredBy, now)
    case _ => w.rows
  }

  function CallsAfter(w: World, step: Step): map<nat, Retirement> {
    match step
    case Retire(pid, id, retiredBy, now) =>
      if pid in w.calls then w.calls
      else if retiredBy == "" then w.calls[pid := Answered(id, "", now, Meets(w.rows, id), Err(NoActor))]
      else w.calls[pid := Updated(id, retiredBy, now, Meets(w.rows, id))]
    case Explain(pid) =>
      if pid !in w.calls || w.calls[pid].Answered? then w.calls
      else
        var c := w.calls[pid];
        w.calls[pid := Answered(c.id, c.retiredBy, c.at, c.found, Explained(w.rows, c))]
    case _ => w.calls
  }

  function Facts(m: Rows): map<int, PublicSalt> {
    map id | id in m :: m[id].Public()
  }

  function ToldAfter(w: World, step: Step): seq<Told> {
    match step
    case Provision(id, _, setBy, now) => w.told + [Provisioned(ProvisionAnswer(w.rows, id, setBy, now))]
    case Look => w.told + [Looked(Facts(w.rows))]
    case _ => w.told
  }

  /** One statement; a step that cannot be taken changes nothing. */
  function Next(w: World, step: Step): World {
    World(RowsAfter(w, step), CallsAfter(w, step), ToldAfter(w, step))
  }

  function After(steps: seq<Step>): World {
    if steps == [] then EMPTY else Next(After(steps[..|steps| - 1]), steps[|steps| - 1])
  }

  // ----- The register over every run -----

  lemma StepIsSound(w: World, step: Step)
    requires Sound(w.rows)
    ensures Sound(Next(w, step).rows)
  {
    forall i, j | IsLive(Next(w, step).rows, i) && IsLive(Next(w, step).rows, j) ensures i == j {
      assert i in w.rows ==> IsLive(w.rows, i);
      assert j in w.rows ==> IsLive(w.rows, j);
    }
  }

  /** In every reachable table at most one salt is live, and a retirement is there whole or not at all. */
  lemma {:induction false} EveryRunIsSound(steps: seq<Step>)
    ensures Sound(After(steps).rows)
  {
    if steps != [] {
      EveryRunIsSound(steps[..|steps| - 1]);
      StepIsSound(After(steps[..|steps| - 1]), steps[|steps| - 1]);
    }
  }

  lemma {:induction false} SaltsOnlyMoveForward(steps: seq<Step>, n: nat, id: int)
    requires n <= |steps|
    ensures Onward(After(steps[..n]).rows, After(steps).rows, id)
  {
    if n == |steps| {
      assert steps[..n] == steps;
    } else {
      assert steps[..|steps| - 1][..n] == steps[..n];
      SaltsOnlyMoveForward(steps[..|steps| - 1], n, id);
    }
  }

  /** Every row holds the key, the setter and the instant of the one Provision that stored it, made when its id was
      unused and every salt stored was retired; and a retirement it carries is one that was asked for. */
  lemma {:induction false} RowsAreAsProvisioned(steps: seq<Step>, id: int) returns (n: nat)
    requires id in After(steps).rows
    ensures var s := After(steps).rows[id];
            && n < |steps| && steps[n] == Provision(id, s.secret, s.setBy, s.setAt)
            && var m := After(steps[..n]).rows;
            && id !in m && (forall i :: i in m ==> m[i].retiredAt.Some?)
            && (s.retiredAt.Some? ==>
                  exists k :: n < k < |steps| && steps[k].Retire? && steps[k].id == id
                              && Some(steps[k].now) == s.retiredAt && steps[k].retiredBy == s.retiredBy != "")
  {
    var prev := steps[..|steps| - 1];
    var m, last := After(prev).rows, steps[|steps| - 1];
    if last.Provision? {
      ProvisionLaw(m, last.id, last.secret, last.setBy, last.now);
    } else if last.Retire? {
      RetireLaw(m, last.id, last.retiredBy, last.now);
    }
    if id in m {
      n := RowsAreAsProvisioned(prev, id);
      assert prev[..n] == steps[..n];
      if After(steps).rows[id] == m[id] {
        if m[id].retiredAt.Some? {
          var k :| n < k < |prev| && prev[k].Retire? && prev[k].id == id
                   && Some(prev[k].now) == m[id].retiredAt && prev[k].retiredBy == m[id].retiredBy != "";
          assert steps[k] == prev[k];
        }
      } else {
        assert steps[|prev|] == last && last.Retire?;
      }
    } else {
      n := |prev|;
    }
  }

  /** A salt once retired is never the live one again. */
  lemma {:induction false} RetiredForever(steps: seq<Step>, n: nat, id: int)
    requires n <= |steps| && id in After(steps[..n]).rows && !IsLive(After(steps[..n]).rows, id)
    ensures !IsLive(After(steps).rows, id)
  {
    SaltsOnlyMoveForward(steps, n, id);
  }

  /** A retirement leaves no salt live exactly when it names the live one and an actor: being the last
      is no reason to refuse it. */
  lemma {:induction false} RetirementEmptiesExactlyWhen(steps: seq<Step>, id: int, retiredBy: string, now: int)
    requires SomeLive(After(steps).rows)
    ensures var m := After(steps).rows;
            !SomeLive(AfterRetire(m, id, retiredBy, now)) <==> IsLive(m, id) && retiredBy != ""
  {
    EveryRunIsSound(steps);
    var m := After(steps).rows;
    var n := AfterRetire(m, id, retiredBy, now);
    var live :| live in m && IsLive(m, live);
    assert n == m ==> IsLive(n, live);
    forall i ensures IsLive(n, i) ==> IsLive(m, i) {
    }
  }

  /** From there exactly the unused ids can be provisioned, each becoming the one live salt. */
  lemma {:induction false} RotationPassesThroughNone(
    steps: seq<Step>, id: int, retiredBy: string, now: int, next: int, secret: seq<byte>, setBy: string, later: int)
    requires IsLive(After(steps).rows, id) && retiredBy != ""
    ensures var m := AfterRetire(After(steps).rows, id, retiredBy, now);
            && !SomeLive(m)
            && forall i :: IsLive(AfterProvision(m, next, secret, setBy, later), i) <==> i == next && next !in m
  {
    RetirementEmptiesExactlyWhen(steps, id, retiredBy, now);
    var m := AfterRetire(After(steps).rows, id, retiredBy, now);
    forall i ensures !IsLive(m, i) {
      assert i in m ==> !IsLive(m, i);
    }
  }

  // ----- What a retirement is told -----

  predicate CallKept(w: World, pid: nat) {
    pid in w.calls ==>
      var c := w.calls[pid];
      && (c.Updated? ==> c.retiredBy != "")
      && (c.retiredBy != "" && c.found.LiveThen? ==>
            c.id in w.rows && w.rows[c.id].retiredAt == Some(c.at) && w.rows[c.id].retiredBy == c.retiredBy)
      && (c.found.RetiredThen? ==> c.id in w.rows && w.rows[c.id].retiredAt.Some?)
      && (c.Answered? ==> AnswerFits(w, c))
  }

  predicate AnswerFits(w: World, c: Retirement)
    requires c.Answered?
  {
    if c.retiredBy == "" then c.r == Err(NoActor)
    else match c.found
      case LiveThen => c.id in w.rows && c.r == Ok(w.rows[c.id].Public())
      case RetiredThen => c.r == Err(AlreadyRetired)
      case Absent => c.r == Err(NotFound) || (c.id in w.rows && c.r == Err(AlreadyRetired))
  }

  lemma StepKeepsCall(w: World, step: Step, pid: nat)
    requires Sound(w.rows) && CallKept(w, pid)
    ensures CallKept(Next(w, step), pid)
  {
  }

  lemma {:induction false} EveryRunKeepsCalls(steps: seq<Step>, pid: nat)
    ensures CallKept(After(steps), pid)
  {
    if steps != [] {
      EveryRunIsSound(steps[..|steps| - 1]);
      EveryRunKeepsCalls(steps[..|steps| - 1], pid);
      StepKeepsCall(After(steps[..|steps| - 1]), steps[|steps| - 1], pid);
    }
  }

  /** However calls interleave: success is told to exactly the callers whose update stamped the row, and
      the row carries their own stamp ever after. */
  lemma {:induction false} RetireAnswersAreHonest(steps: seq<Step>, pid: nat)
    requires pid in After(steps).calls && After(steps).calls[pid].Answered? && After(steps).calls[pid].retiredBy != ""
    ensures var w, c := After(steps), After(steps).calls[pid];
            && (c.r.Ok? <==> c.found.LiveThen?)
            && (c.r.Ok? ==> c.id in w.rows && c.r.value == w.rows[c.id].Public()
                            && c.r.value.retiredAt == Some(c.at) && c.r.value.retiredBy == c.retiredBy)
            && (c.found.RetiredThen? ==> c.r == Err(AlreadyRetired))
            && (c.found.Absent? ==> c.r == Err(NotFound) || (c.r == Err(AlreadyRetired) && c.id in w.rows))
            && c.r != Err(NoRow)
  {
    EveryRunKeepsCalls(steps, pid);
  }

  /** At the second statement: a salt is reported retired exactly when the update found it so, or found
      none and one is there now; it is reported so while live exactly when it was provisioned in between. */
  lemma {:induction false} RefusalsExactly(steps: seq<Step>, pid: nat)
    requires pid in After(steps).calls && After(steps).calls[pid].Updated?
    ensures var w, c := After(steps), After(steps).calls[pid];
            var t := Next(w, Explain(pid));
            && pid in t.calls && t.calls[pid].Answered?
            && (t.calls[pid].r.Ok? <==> c.found.LiveThen?)
            && (t.calls[pid].r == Err(AlreadyRetired) <==> c.found.RetiredThen? || (c.found.Absent? && c.id in w.rows))
            && (t.calls[pid].r == Err(NotFound) <==> c.found.Absent? && c.id !in w.rows)
            && (t.calls[pid].r == Err(AlreadyRetired) && IsLive(t.rows, c.id)
                <==> c.found.Absent? && IsLive(w.rows, c.id))
  {
    EveryRunKeepsCalls(steps, pid);
  }

  predicate Remembers(w: World, pid: nat, id: int, retiredBy: string, now: int, found: Found) {
    pid in w.calls && w.calls[pid].id == id && w.calls[pid].retiredBy == retiredBy && w.calls[pid].at == now
    && w.calls[pid].found == found
  }

  lemma StepRemembers(w: World, step: Step, pid: nat, id: int, retiredBy: string, now: int, found: Found)
    requires Remembers(w, pid, id, retiredBy, now, found)
    ensures Remembers(Next(w, step), pid, id, retiredBy, now, found)
  {
  }

  /** A call remembers what its update met. */
  lemma {:induction false} CallRemembers(steps: seq<Step>, n: nat, pid: nat, id: int, retiredBy: string, now: int)
    requires n < |steps| && steps[n] == Retire(pid, id, retiredBy, now) && pid !in After(steps[..n]).calls
    ensures Remembers(After(steps), pid, id, retiredBy, now, Meets(After(steps[..n]).rows, id))
  {
    var prev := steps[..|steps| - 1];
    if n == |prev| {
      assert steps[..n] == prev;
    } else {
      assert prev[..n] == steps[..n];
      CallRemembers(prev, n, pid, id, retiredBy, now);
      StepRemembers(After(prev), steps[|steps| - 1], pid, id, retiredBy, now, Meets(After(steps[..n]).rows, id));
    }
  }

  /** For a salt that has a row when the retirement is asked for, "already retired" is told exactly when
      it was, and success exactly when it was live, whatever happens in between. */
  lemma {:induction false} RefusalIsRightForAKnownSalt(
    steps: seq<Step>, n: nat, pid: nat, id: int, retiredBy: string, now: int)
    requires n < |steps| && steps[n] == Retire(pid, id, retiredBy, now) && retiredBy != ""
    requires pid !in After(steps[..n]).calls && id in After(steps[..n]).rows
    requires pid in After(steps).calls && After(steps).calls[pid].Answered?
    ensures After(steps).calls[pid].r == Err(AlreadyRetired) <==> !IsLive(After(steps[..n]).rows, id)
    ensures After(steps).calls[pid].r.Ok? <==> IsLive(After(steps[..n]).rows, id)
  {
    CallRemembers(steps, n, pid, id, retiredBy, now);
    RetireAnswersAreHonest(steps, pid);
  }

  lemma ExplanationFits(w: World, pid: nat, first: Rows, id: int, retiredBy: string, now: int)
    requires CallKept(w, pid) && Remembers(w, pid, id, retiredBy, now, Meets(first, id)) && w.calls[pid].Updated?
    requires Onward(first, w.rows, id) && retiredBy != ""
    ensures var calls := Next(w, Explain(pid)).calls;
            && pid in calls && calls[pid].Answered?
            && calls[pid].r == (
                 if IsLive(first, id) then Ok(first[id].Public().(retiredAt := Some(now), retiredBy := retiredBy))
                 else if id in w.rows then Err(AlreadyRetired)
                 else Err(NotFound))
  {
  }

  /** The whole answer, from the rows at the call's two statements. */
  lemma {:induction false} RetireAnswersExactly(
    steps: seq<Step>, n: nat, m: nat, pid: nat, id: int, retiredBy: string, now: int)
    requires n < m < |steps| && steps[n] == Retire(pid, id, retiredBy, now) && steps[m] == Explain(pid)
    requires pid !in After(steps[..n]).calls && retiredBy != ""
    requires pid in After(steps[..m]).calls && After(steps[..m]).calls[pid].Updated?
    ensures var first, second := After(steps[..n]).rows, After(steps[..m]).rows;
            var calls := After(steps[..m + 1]).calls;
            && pid in calls && calls[pid].Answered?
            && calls[pid].r == (
                 if IsLive(first, id) then Ok(first[id].Public().(retiredAt := Some(now), retiredBy := retiredBy))
                 else if id in second then Err(AlreadyRetired)
                 else Err(NotFound))
  {
    var before := steps[..m];
    assert before[..n] == steps[..n] && steps[..m + 1][..m] == before;
    CallRemembers(before, n, pid, id, retiredBy, now);
    EveryRunKeepsCalls(before, pid);
    SaltsOnlyMoveForward(before, n, id);
    ExplanationFits(After(before), pid, After(steps[..n]).rows, id, retiredBy, now);
  }

  predicate Stamped(w: World, pid: nat) {
    pid in w.calls && w.calls[pid].found.LiveThen? && w.calls[pid].retiredBy != ""
  }

  predicate OneEach(w: World, a: nat, b: nat) {
    Stamped(w, a) && Stamped(w, b) && a != b ==> w.calls[a].id != w.calls[b].id
  }

  lemma StepKeepsOneEach(w: World, step: Step, a: nat, b: nat)
    requires CallKept(w, a) && CallKept(w, b) && OneEach(w, a, b)
    ensures OneEach(Next(w, step), a, b)
  {
  }

  /** Of all the callers that try to retire one salt, one at most stamps it, and so is told it did. */
  lemma {:induction false} OneCallerRetires(steps: seq<Step>, a: nat, b: nat)
    ensures OneEach(After(steps), a, b)
  {
    if steps != [] {
      var prev := steps[..|steps| - 1];
      EveryRunKeepsCalls(prev, a);
      EveryRunKeepsCalls(prev, b);
      OneCallerRetires(prev, a, b);
      StepKeepsOneEach(After(prev), steps[|steps| - 1], a, b);
    }
  }

  /** The exception is real: a salt that is live is reported as already retired to a caller whose
      update came before it was provisioned and whose count came after. */
  lemma LiveSaltReportedRetired(secret: seq<byte>)
    ensures var w := After([Retire(0, 1, "ops", 10), Provision(1, secret, "ops", 11), Explain(0)]);
            0 in w.calls && w.calls[0].Answered? && w.calls[0].r == Err(AlreadyRetired) && IsLive(w.rows, 1)
  {
    var a, b, c := Retire(0, 1, "ops", 10), Provision(1, secret, "ops", 11), Explain(0);
    assert [a, b, c][..2] == [a, b] && [a, b][..1] == [a] && [a][..0] == [];
    assert After([a]) == Next(EMPTY, a);
    assert After([a, b]) == Next(Next(EMPTY, a), b);
    assert !SomeLive(Next(EMPTY, a).rows);
  }

  // ----- No answer depends on a key -----

  predicate DifferInKeys(a: Step, b: Step) {
    a == b || (a.Provision? && b.Provision? && b == a.(secret := b.secret))
  }

  /** Two runs that differ only in the keys provisioned answer every Provision, Retire and look at the
      register alike: nothing but Hash lets anything of a key out. */
  lemma {:induction false} AnswersHideTheKey(xs: seq<Step>, ys: seq<Step>)
    requires |xs| == |ys| && forall i :: 0 <= i < |xs| ==> DifferInKeys(xs[i], ys[i])
    ensures After(xs).calls == After(ys).calls && After(xs).told == After(ys).told
    ensures Facts(After(xs).rows) == Facts(After(ys).rows)
  {
    if xs != [] {
      var v, w := After(xs[..|xs| - 1]), After(ys[..|ys| - 1]);
      AnswersHideTheKey(xs[..|xs| - 1], ys[..|ys| - 1]);
      SameFacts(v.rows, w.rows);
      StepHidesTheKey(v, w, xs[|xs| - 1], ys[|ys| - 1]);
    }
  }

  /** Tables with the same facts have the same ids, the same live ones and the same public rows. */
  lemma SameFacts(m: Rows, n: Rows)
    requires Facts(m) == Facts(n)
    ensures m.Keys == n.Keys
    ensures forall id :: id in m ==> id in n && m[id].Public() == n[id].Public()
    ensures forall id :: IsLive(m, id) <==> IsLive(n, id)
    ensures SomeLive(m) <==> SomeLive(n)
  {
    assert m.Keys == Facts(m).Keys == Facts(n).Keys == n.Keys;
    forall id | id in m ensures id in n && m[id].Public() == n[id].Public() {
      assert Facts(m)[id] == Facts(n)[id];
    }
    assert forall id :: id in m ==> m[id].Public().retiredAt == n[id].Public().retiredAt;
  }

  lemma StepHidesTheKey(v: World, w: World, a: Step, b: Step)
    requires v.calls == w.calls && v.told == w.told && Facts(v.rows) == Facts(w.rows) && DifferInKeys(a, b)
    ensures Next(v, a).calls == Next(w, b).calls && Next(v, a).told == Next(w, b).told
    ensures Facts(Next(v, a).rows) == Facts(Next(w, b).rows)
  {
    SameFacts(v.rows, w.rows);
    var m, n := Next(v, a).rows, Next(w, b).rows;
    assert m.Keys == n.Keys;
    forall id | id in m ensures m[id].Public() == n[id].Public() {
    }
  }
}
