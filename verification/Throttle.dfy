/** The in-process last-seen throttle of last_seen.go. */
module Throttle {
  import opened Common

  /** LastSeenThrottle, in nanoseconds. Instants count nanoseconds from Go's zero time. */
  const LAST_SEEN_THROTTLE := 120_000_000_000

  const MAX_DURATION := 0x7FFF_FFFF_FFFF_FFFF
  const MIN_DURATION := -0x8000_0000_0000_0000

  /** time.Time.Sub: a 64-bit difference that saturates. The one comparison made with it is exact. */
  function Sub(a: int, b: int): (d: int)
    ensures d >= LAST_SEEN_THROTTLE <==> a - b >= LAST_SEEN_THROTTLE
  {
    if a - b > MAX_DURATION then MAX_DURATION else if a - b < MIN_DURATION then MIN_DURATION else a - b
  }

  datatype State = State(touched: map<string, int>, swept: int)

  const FRESH := State(map[], ZERO_TIME)

  function Young(touched: map<string, int>, at: int): map<string, int> {
    map k | k in touched && Sub(at, touched[k]) < LAST_SEEN_THROTTLE :: touched[k]
  }

  function SweepIfDue(t: State, at: int): State {
    if Sub(at, t.swept) >= LAST_SEEN_THROTTLE then State(Young(t.touched, at), at) else t
  }

  predicate Grants(t: State, key: string, at: int) {
    var held := SweepIfDue(t, at).touched;
    !(key in held && Sub(at, held[key]) < LAST_SEEN_THROTTLE)
  }

  function Claimed(t: State, key: string, at: int): State {
    var s := SweepIfDue(t, at);
    if Grants(t, key, at) then s.(touched := s.touched[key := at]) else s
  }

  function Released(t: State, key: string, at: int): State {
    if key in t.touched && t.touched[key] == at then t.(touched := t.touched - {key}) else t
  }

  function Key(subject: string, session: string): string {
    subject + "/" + session
  }

  lemma KeyIsInjective(a: string, x: string, b: string, y: string)
    requires '/' !in a && '/' !in b
    ensures Key(a, x) == Key(b, y) ==> a == b && x == y
  {
    var s, t := Key(a, x), Key(b, y);
    assert s[|a|] == '/' && t[|b|] == '/';
    assert s[..|a|] == a && t[..|b|] == b && s[|a| + 1..] == x && t[|b| + 1..] == y;
    if |a| < |b| {
      assert t[|a|] == b[|a|] && b[|a|] in b;
    } else if |b| < |a| {
      assert s[|b|] == a[|b|] && a[|b|] in a;
    }
  }

  datatype TouchAnswer = Nil | SessionNotFound | ProjectFailed

  /** The mutex is modelled by the atomicity of Claim and Release. */
  class LastSeen {
    var touched: map<string, int>
    var swept: int

    function Abstract(): State
      reads this
    {
      State(touched, swept)
    }

    constructor ()
      ensures Abstract() == FRESH
    {
      touched, swept := map[], ZERO_TIME;
    }

    method Claim(key: string, at: int) returns (granted: bool)
      modifies this
      ensures granted == Grants(old(Abstract()), key, at)
      ensures Abstract() == Claimed(old(Abstract()), key, at)
      ensures granted <==> !(key in old(touched) && at - old(touched)[key] < 120_000_000_000)
      ensures swept == if at - old(swept) >= 120_000_000_000 then at else old(swept)
      ensures granted ==> key in touched && touched[key] == at
      ensures forall k :: k != key || !granted ==>
                            && (k in touched <==>
                                  && k in old(touched)
                                  && (swept == old(swept) || at - old(touched)[k] < 120_000_000_000))
                            && (k in touched ==> touched[k] == old(touched)[k])
    {
      if Sub(at, swept) >= LAST_SEEN_THROTTLE {
        var todo := touched.Keys;
        while todo != {}
          invariant todo <= touched.Keys <= old(touched).Keys
          invariant forall k :: k in touched ==> touched[k] == old(touched)[k]
          invariant forall k :: k in old(touched) && k !in todo ==>
                                  (k in touched <==> Sub(at, old(touched)[k]) < LAST_SEEN_THROTTLE)
          invariant swept == old(swept)
          decreases todo
        {
          var k :| k in todo;
          todo := todo - {k};
          if Sub(at, touched[k]) >= LAST_SEEN_THROTTLE {
            touched := touched - {k};
          }
        }
        assert touched == Young(old(touched), at);
        swept := at;
      }
      if key in touched && Sub(at, touched[key]) < LAST_SEEN_THROTTLE {
        return false;
      }
      touched := touched[key := at];
      return true;
    }

    method Release(key: string, at: int)
      modifies this
      ensures Abstract() == Released(old(Abstract()), key, at)
      ensures swept == old(swept)
      ensures touched == if key in old(touched) && old(touched)[key] == at then old(touched) - {key} else old(touched)
    {
      if key in touched && touched[key] == at {
        touched := touched - {key};
      }
    }

    /** One request run alone; `canonical` is uuid.Parse and `fails` the project's answer. */
    method Touch(subjectID: string, sessionID: string, at: int, canonical: string -> Option<string>,
                 fails: (string, string) -> bool) returns (answer: TouchAnswer)
      modifies this
      ensures canonical(subjectID).None? || canonical(sessionID).None? ==>
                answer == SessionNotFound && Abstract() == old(Abstract())
      ensures canonical(subjectID).Some? && canonical(sessionID).Some? ==>
                var u, s := canonical(subjectID).value, canonical(sessionID).value;
                var after := Claimed(old(Abstract()), Key(u, s), at);
                var asked := Grants(old(Abstract()), Key(u, s), at);
                && answer == (if asked && fails(u, s) then ProjectFailed else Nil)
                && Abstract() == if asked && fails(u, s) then Released(after, Key(u, s), at) else after
      ensures canonical(subjectID).Some? && canonical(sessionID).Some? ==>
                var u, s := canonical(subjectID).value, canonical(sessionID).value;
                var key := u + "/" + s;
                var held := key in old(touched) && at - old(touched)[key] < 120_000_000_000;
                && (answer == ProjectFailed <==> !held && fails(u, s))
                && (answer == Nil <==> held || !fails(u, s))
                && (held ==> key in touched && touched[key] == old(touched)[key])
                && (!held && !fails(u, s) ==> key in touched && touched[key] == at)
                && (!held && fails(u, s) ==> key !in touched)
                && (forall k :: k != key && k in touched ==> k in old(touched) && touched[k] == old(touched)[k])
                && (forall k :: k != key && k in old(touched) && k !in touched ==>
                                  at - old(touched)[k] >= 120_000_000_000)
    {
      var subject, session := canonical(subjectID), canonical(sessionID);
      if subject.None? || session.None? {
        return SessionNotFound;
      }
      var key := Key(subject.value, session.value);
      var granted := Claim(key, at);
      if !granted {
        return Nil;
      }
      if fails(subject.value, session.value) {
        Release(key, at);
        return ProjectFailed;
      }
      return Nil;
    }
  }

  // ----- Runs of one process -----

  /** What one process does to the map, in lock order: a claim, or the settling of an earlier grant. */
  datatype Op = Claim(key: string, at: int) | Succeed(key: string, at: int) | Fail(key: string, at: int)

  function Step(t: State, op: Op): State {
    match op
    case Claim(key, at) => Claimed(t, key, at)
    case Succeed(_, _) => t
    case Fail(key, at) => Released(t, key, at)
  }

  function After(ops: seq<Op>): State {
    if ops == [] then FRESH else Step(After(ops[..|ops| - 1]), ops[|ops| - 1])
  }

  /** Whether the i-th operation is a claim that is granted. */
  predicate GrantedAt(ops: seq<Op>, i: nat)
    requires i < |ops|
  {
    ops[i].Claim? && Grants(After(ops[..i]), ops[i].key, ops[i].at)
  }

  /** Claims reach the lock at most `skew` behind the latest reading already seen. */
  predicate WithinSkew(ops: seq<Op>, skew: nat) {
    forall i, j :: 0 <= i < j < |ops| && ops[i].Claim? && ops[j].Claim? ==> ops[j].at >= ops[i].at - skew
  }

  predicate InClockOrder(ops: seq<Op>) {
    WithinSkew(ops, 0)
  }

  /** Some claim so far read an instant at or after `x`. */
  predicate Reached(ops: seq<Op>, x: int) {
    ops != [] && (Reached(ops[..|ops| - 1], x) || (ops[|ops| - 1].Claim? && ops[|ops| - 1].at >= x))
  }

  lemma {:induction false} ReachedByAClaim(ops: seq<Op>, x: int) returns (i: nat)
    requires Reached(ops, x)
    ensures i < |ops| && ops[i].Claim? && ops[i].at >= x
  {
    i := |ops| - 1;
    if Reached(ops[..i], x) {
      i := ReachedByAClaim(ops[..i], x);
    }
  }

  /** A claim reads at most `skew` behind everything reached before it. */
  lemma ClaimFollowsTheClock(ops: seq<Op>, j: nat, x: int, skew: nat)
    requires WithinSkew(ops, skew) && j < |ops| && ops[j].Claim? && Reached(ops[..j], x)
    ensures ops[j].at >= x - skew
  {
    var i := ReachedByAClaim(ops[..j], x);
    assert ops[i].Claim?;
  }

  // ----- The sweep is invisible -----

  /** The throttle as it would be with no sweep: every grant is kept until it is released. */
  function Unswept(ops: seq<Op>): map<string, int> {
    if ops == [] then map[] else UnsweptStep(Unswept(ops[..|ops| - 1]), ops[|ops| - 1])
  }

  function UnsweptStep(m: map<string, int>, op: Op): map<string, int> {
    match op
    case Claim(key, at) => if UnsweptGrants(m, key, at) then m[key := at] else m
    case Succeed(_, _) => m
    case Fail(key, at) => if key in m && m[key] == at then m - {key} else m
  }

  predicate UnsweptGrants(m: map<string, int>, key: string, at: int) {
    key in m ==> at - m[key] >= LAST_SEEN_THROTTLE
  }

  /** An entry the sweep dropped had expired by the clock. */
  ghost predicate Agrees(t: State, m: map<string, int>, ops: seq<Op>, k: string) {
    && (k in t.touched ==> k in m && m[k] == t.touched[k])
    && (k in m && k !in t.touched ==> Reached(ops, m[k] + LAST_SEEN_THROTTLE))
  }

  lemma {:induction false} SweptAgreesWithUnswept(ops: seq<Op>, k: string)
    requires InClockOrder(ops)
    ensures Agrees(After(ops), Unswept(ops), ops, k)
  {
    if ops != [] {
      var n := |ops| - 1;
      var prev, op := ops[..n], ops[n];
      SweptAgreesWithUnswept(prev, k);
      if op.Claim? && k in Unswept(prev) && k !in After(prev).touched {
        ClaimFollowsTheClock(ops, n, Unswept(prev)[k] + LAST_SEEN_THROTTLE, 0);
      }
      StepKeepsAgreement(After(prev), Unswept(prev), ops, k);
    }
  }

  lemma StepKeepsAgreement(t: State, m: map<string, int>, ops: seq<Op>, k: string)
    requires ops != [] && Agrees(t, m, ops[..|ops| - 1], k)
    requires ops[|ops| - 1].Claim? && k in m && k !in t.touched ==> ops[|ops| - 1].at >= m[k] + LAST_SEEN_THROTTLE
    ensures Agrees(Step(t, ops[|ops| - 1]), UnsweptStep(m, ops[|ops| - 1]), ops, k)
  {
  }

  /** In clock order the swept map answers every claim as the map that is never swept would. */
  lemma {:induction false} SweepIsInvisible(ops: seq<Op>, i: nat)
    requires InClockOrder(ops) && i < |ops| && ops[i].Claim?
    ensures GrantedAt(ops, i) <==> UnsweptGrants(Unswept(ops[..i]), ops[i].key, ops[i].at)
  {
    var m, t, key := Unswept(ops[..i]), After(ops[..i]).touched, ops[i].key;
    SweptAgreesWithUnswept(ops[..i], key);
    if key in m && key !in t {
      ClaimFollowsTheClock(ops, i, m[key] + LAST_SEEN_THROTTLE, 0);
    }
  }

  // ----- Grants of one key stay apart -----

  lemma {:induction false} GrantIsRemembered(ops: seq<Op>, i: nat)
    requires i < |ops| && GrantedAt(ops, i)
    requires forall r :: i < r < |ops| ==> !(ops[r].Fail? && ops[r].key == ops[i].key)
    ensures (ops[i].key in After(ops).touched && After(ops).touched[ops[i].key] == ops[i].at)
            || Reached(ops, ops[i].at + LAST_SEEN_THROTTLE)
  {
    var prev := ops[..|ops| - 1];
    if i < |ops| - 1 {
      assert ops[..i] == prev[..i];
      GrantIsRemembered(prev, i);
    } else {
      assert prev == ops[..i];
    }
  }

  /** Two grants of one key, with no release of it between them, are at least T - skew apart. */
  lemma {:induction false} GrantsStayApart(ops: seq<Op>, i: nat, j: nat, skew: nat)
    requires WithinSkew(ops, skew) && i < j < |ops| && GrantedAt(ops, i) && GrantedAt(ops, j)
    requires ops[i].key == ops[j].key
    requires forall r :: i < r < j ==> !(ops[r].Fail? && ops[r].key == ops[i].key)
    ensures ops[j].at - ops[i].at >= LAST_SEEN_THROTTLE - skew
  {
    var before := ops[..j];
    assert before[..i] == ops[..i];
    GrantIsRemembered(before, i);
    if Reached(before, ops[i].at + LAST_SEEN_THROTTLE) {
      ClaimFollowsTheClock(ops, j, ops[i].at + LAST_SEEN_THROTTLE, skew);
    }
  }

  // ----- How old the map can get -----

  lemma {:induction false} EntriesAreGrants(ops: seq<Op>, k: string)
    requires k in After(ops).touched
    ensures exists i :: 0 <= i < |ops| && ops[i] == Claim(k, After(ops).touched[k]) && GrantedAt(ops, i)
  {
    var n := |ops| - 1;
    var prev := ops[..n];
    if k in After(prev).touched && After(ops).touched[k] == After(prev).touched[k] {
      EntriesAreGrants(prev, k);
      var i :| 0 <= i < n && prev[i] == Claim(k, After(prev).touched[k]) && GrantedAt(prev, i);
      assert prev[..i] == ops[..i];
      assert ops[i] == Claim(k, After(ops).touched[k]) && GrantedAt(ops, i);
    } else {
      assert ops[n] == Claim(k, After(ops).touched[k]) && GrantedAt(ops, n);
    }
  }

  /** The sweep keeps `swept` behind the clock and every entry less than T behind `swept`. */
  lemma {:induction false} SweptBoundsEntries(ops: seq<Op>)
    requires InClockOrder(ops) && forall i :: 0 <= i < |ops| && ops[i].Claim? ==> ops[i].at >= ZERO_TIME
    ensures After(ops).swept == ZERO_TIME || Reached(ops, After(ops).swept)
    ensures forall k :: k in After(ops).touched ==> After(ops).touched[k] > After(ops).swept - LAST_SEEN_THROTTLE
  {
    if ops != [] {
      var n := |ops| - 1;
      SweptBoundsEntries(ops[..n]);
      if ops[n].Claim? && Reached(ops[..n], After(ops[..n]).swept) {
        ClaimFollowsTheClock(ops, n, After(ops[..n]).swept, 0);
      }
    }
  }

  /** After a claim, every entry left is a grant made less than 2T ago. */
  lemma {:induction false} MapHoldsOnlyRecentGrants(ops: seq<Op>, k: string)
    requires InClockOrder(ops) && forall i :: 0 <= i < |ops| && ops[i].Claim? ==> ops[i].at >= ZERO_TIME
    requires ops != [] && ops[|ops| - 1].Claim? && k in After(ops).touched
    ensures ops[|ops| - 1].at - After(ops).touched[k] < 2 * LAST_SEEN_THROTTLE
    ensures exists i :: 0 <= i < |ops| && ops[i] == Claim(k, After(ops).touched[k]) && GrantedAt(ops, i)
  {
    SweptBoundsEntries(ops);
    EntriesAreGrants(ops, k);
  }

  // ----- A release reaches only its own claim -----

  /** The grants whose project call has not come back. */
  function InFlight(ops: seq<Op>): multiset<(string, int)> {
    if ops == [] then multiset{}
    else
      var prev, op := ops[..|ops| - 1], ops[|ops| - 1];
      if op.Claim? then
        if Grants(After(prev), op.key, op.at) then InFlight(prev) + multiset{(op.key, op.at)} else InFlight(prev)
      else
        InFlight(prev) - multiset{(op.key, op.at)}
  }

  /** A process settles only grants it holds, and its clock does not go back. */
  predicate ProcessRun(ops: seq<Op>) {
    && InClockOrder(ops)
    && forall i :: 0 <= i < |ops| && !ops[i].Claim? ==> (ops[i].key, ops[i].at) in InFlight(ops[..i])
  }

  lemma {:induction false} ProcessRunPrefix(ops: seq<Op>, n: nat)
    requires ProcessRun(ops) && n <= |ops|
    ensures ProcessRun(ops[..n])
  {
    forall i | 0 <= i < n && !ops[..n][i].Claim? ensures (ops[..n][i].key, ops[..n][i].at) in InFlight(ops[..n][..i]) {
      assert ops[..n][..i] == ops[..i];
    }
  }

  ghost predicate Tracks(ops: seq<Op>, k: string, a: int) {
    && Reached(ops, a)
    && if k in After(ops).touched
       then After(ops).touched[k] == a || After(ops).touched[k] - a >= LAST_SEEN_THROTTLE
       else Reached(ops, a + LAST_SEEN_THROTTLE)
  }

  /** Grants of one key in flight together: at most one per reading, and readings T apart. */
  ghost predicate Apart(ops: seq<Op>) {
    && (forall k, a :: (k, a) in InFlight(ops) ==> Tracks(ops, k, a) && InFlight(ops)[(k, a)] == 1)
    && (forall k, a, b :: (k, a) in InFlight(ops) && (k, b) in InFlight(ops) && a < b ==> b - a >= LAST_SEEN_THROTTLE)
  }

  lemma {:induction false} InFlightGrantsStayApart(ops: seq<Op>)
    requires ProcessRun(ops)
    ensures Apart(ops)
  {
    if ops != [] {
      var n := |ops| - 1;
      ProcessRunPrefix(ops, n);
      InFlightGrantsStayApart(ops[..n]);
      if ops[n].Claim? {
        ClaimKeepsApart(ops);
      } else {
        SettleKeepsApart(ops);
      }
    }
  }

  /** A claim that is granted comes T after every grant of its key still in flight. */
  lemma GrantFollowsInFlight(ops: seq<Op>, b: int)
    requires ops != [] && InClockOrder(ops) && ops[|ops| - 1].Claim? && GrantedAt(ops, |ops| - 1)
    requires Tracks(ops[..|ops| - 1], ops[|ops| - 1].key, b)
    ensures ops[|ops| - 1].at - b >= LAST_SEEN_THROTTLE
  {
    var n := |ops| - 1;
    if ops[n].key !in After(ops[..n]).touched {
      ClaimFollowsTheClock(ops, n, b + LAST_SEEN_THROTTLE, 0);
    }
  }

  lemma ClaimKeepsTrack(ops: seq<Op>, k: string, a: int)
    requires ops != [] && InClockOrder(ops) && ops[|ops| - 1].Claim? && Tracks(ops[..|ops| - 1], k, a)
    ensures Tracks(ops, k, a)
  {
    var n := |ops| - 1;
    ClaimFollowsTheClock(ops, n, a, 0);
    if k !in After(ops[..n]).touched {
      ClaimFollowsTheClock(ops, n, a + LAST_SEEN_THROTTLE, 0);
    }
  }

  lemma ClaimKeepsApart(ops: seq<Op>)
    requires ops != [] && ProcessRun(ops) && ops[|ops| - 1].Claim? && Apart(ops[..|ops| - 1])
    ensures Apart(ops)
  {
    var n := |ops| - 1;
    var before, after, key, at := InFlight(ops[..n]), InFlight(ops), ops[n].key, ops[n].at;
    var granted := GrantedAt(ops, n);
    assert after == if granted then before + multiset{(key, at)} else before;
    forall k, a | (k, a) in before ensures Tracks(ops, k, a) && (granted && k == key ==> at - a >= LAST_SEEN_THROTTLE) {
      assert Tracks(ops[..n], k, a);
      ClaimKeepsTrack(ops, k, a);
      if granted && k == key {
        GrantFollowsInFlight(ops, a);
      }
    }
    if granted {
      assert (key, at) !in before;
      assert forall k, a :: (k, a) in after <==> (k, a) in before || (k == key && a == at);
    }
  }

  lemma SettleKeepsTrack(ops: seq<Op>, k: string, a: int)
    requires ops != [] && !ops[|ops| - 1].Claim? && Tracks(ops[..|ops| - 1], k, a)
    requires Reached(ops[..|ops| - 1], ops[|ops| - 1].at) && (k, a) != (ops[|ops| - 1].key, ops[|ops| - 1].at)
    ensures Tracks(ops, k, a)
  {
    var n := |ops| - 1;
    if k in After(ops[..n]).touched && k !in After(ops).touched {
      ReachedDownwards(ops, ops[n].at, a + LAST_SEEN_THROTTLE);
    }
  }

  lemma {:induction false} ReachedDownwards(ops: seq<Op>, x: int, y: int)
    requires y <= x
    ensures Reached(ops, x) ==> Reached(ops, y)
  {
    if ops != [] {
      ReachedDownwards(ops[..|ops| - 1], x, y);
    }
  }

  lemma {:induction false} SettleKeepsApart(ops: seq<Op>)
    requires ops != [] && ProcessRun(ops) && !ops[|ops| - 1].Claim? && Apart(ops[..|ops| - 1])
    ensures Apart(ops)
  {
    var n := |ops| - 1;
    var before, after, key, at := InFlight(ops[..n]), InFlight(ops), ops[n].key, ops[n].at;
    assert after == before - multiset{(key, at)};
    assert (key, at) in before && Tracks(ops[..n], key, at);
    forall k, a | (k, a) in after ensures Tracks(ops, k, a) && after[(k, a)] == 1 {
      assert (k, a) in before && Tracks(ops[..n], k, a);
      SettleKeepsTrack(ops, k, a);
    }
  }

  /** From a grant on, its key's entry is gone or holds a reading no earlier than the grant's. */
  lemma {:induction false} EntryIsNoOlder(ops: seq<Op>, j: nat)
    requires InClockOrder(ops) && j < |ops| && GrantedAt(ops, j)
    ensures ops[j].key in After(ops).touched ==> After(ops).touched[ops[j].key] >= ops[j].at
  {
    var n := |ops| - 1;
    if j < n {
      assert ops[..n][..j] == ops[..j];
      EntryIsNoOlder(ops[..n], j);
    }
  }

  /** A late failure leaves every grant of its key with a later reading alone, settled or not. */
  lemma {:induction false} ReleaseHitsOnlyItsOwnClaim(ops: seq<Op>, j: nat, older: int)
    requires InClockOrder(ops) && j < |ops| && GrantedAt(ops, j) && older < ops[j].at
    ensures Released(After(ops), ops[j].key, older) == After(ops)
  {
    EntryIsNoOlder(ops, j);
  }

  /** In a process, that is every grant made while the older touch was still on its way, however it went. */
  lemma {:induction false} LateFailureChangesNothing(ops: seq<Op>, j: nat, older: int)
    requires ProcessRun(ops) && j < |ops| && GrantedAt(ops, j) && (ops[j].key, older) in InFlight(ops[..j])
    ensures ops[j].at - older >= LAST_SEEN_THROTTLE
    ensures Released(After(ops), ops[j].key, older) == After(ops)
  {
    ProcessRunPrefix(ops, j);
    InFlightGrantsStayApart(ops[..j]);
    assert Tracks(ops[..j], ops[j].key, older);
    assert ops[..j + 1][..j] == ops[..j];
    GrantFollowsInFlight(ops[..j + 1], older);
    ReleaseHitsOnlyItsOwnClaim(ops, j, older);
  }

  /** A failure of the latest grant lets the very next claim of its key through, at any reading, whatever
      older grants of the key settle in between. */
  lemma {:induction false} FailureIsRetried(ops: seq<Op>, rest: seq<Op>, k: string, a: int, at: int)
    requires k in After(ops).touched && After(ops).touched[k] == a
    requires forall i :: 0 <= i < |rest| && rest[i].Claim? ==> rest[i].key != k
    ensures Grants(After(ops + [Fail(k, a)] + rest), k, at)
  {
    var failed := ops + [Fail(k, a)];
    assert failed[..|failed| - 1] == ops;
    AbsentStaysAbsent(failed, rest, k);
  }

  lemma {:induction false} AbsentStaysAbsent(ops: seq<Op>, rest: seq<Op>, k: string)
    requires k !in After(ops).touched
    requires forall i :: 0 <= i < |rest| && rest[i].Claim? ==> rest[i].key != k
    ensures k !in After(ops + rest).touched
  {
    if rest == [] {
      assert ops + rest == ops;
    } else {
      AbsentStaysAbsent(ops, rest[..|rest| - 1], k);
      assert (ops + rest)[..|ops + rest| - 1] == ops + rest[..|rest| - 1];
    }
  }
}
