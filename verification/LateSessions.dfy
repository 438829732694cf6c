/** A sign-out does not reach a request that has read the device: which sessions are minted for a device after it
    was signed out. */
module LateSessions {
  import opened Common
  import opened AuthStore
  import opened AuthDoors
  import opened AuthHandlers

  /** What decides a request past its device read: the challenge and the answer, and not the device's row. */
  predicate StillGood(w: World, r: Request, now: int, p: Policy) {
    match r
    case Lookup(door, challengeID, offered) =>
      var found := Looked(w.challenges, challengeID, now);
      found.Ok? && Accepts(door, found.value.(consumed := true), offered, p)
    case Spend(door, held, offered, _) =>
      Flips(w.challenges, held.id) && Accepts(door, held.(consumed := true), offered, p)
    case Check(door, held, offered) => Accepts(door, held, offered, p)
    case Mint(_, _, _) => true
    case _ => false
  }

  predicate HasSessionFor(w: World, pid: nat, id: string) {
    pid in w.minted && w.minted[pid].door.ByDevice? && w.minted[pid].door.device.id == id
  }

  lemma FinishForADevice(w: World, pid: nat, id: string, now: int, p: Policy)
    requires pid in w.requests && Speaks(w.requests[pid]) == Some(id) && pid !in w.minted
    requires w.requests[pid].Lookup? ==> ChallengeKept(w, w.requests[pid].challengeID)
    ensures HasSessionFor(Finish(w, pid, now, p, Faults(false, false)), pid, id)
            <==> StillGood(w, w.requests[pid], now, p)
  {
    var f := Faults(false, false);
    match w.requests[pid]
    case Lookup(_, _, _) => FinishFromLookup(w, pid, now, p, f);
    case Spend(_, _, _, _) => FinishFromSpend(w, pid, now, p, f);
    case Check(_, _, _) => FinishFromCheck(w, pid, now, p, f);
    case Mint(_, _, _) => FinishFromMint(w, pid, now, p, f);
  }

  /** With the device signed out, a request that goes on alone and at once gets a session for it exactly when it
      had read the device already and its challenge and answer are still good. */
  lemma {:induction false} LateSessionAlone(steps: seq<Step>, p: Policy, id: string, pid: nat, now: int)
    requires id in After(steps, p).devices && After(steps, p).devices[id].IsSignedOut()
    requires pid in After(steps, p).requests && pid !in After(steps, p).minted
    ensures var w := After(steps, p);
            HasSessionFor(Finish(w, pid, now, p, Faults(false, false)), pid, id)
            <==> Speaks(w.requests[pid]) == Some(id) && StillGood(w, w.requests[pid], now, p)
  {
    var w := After(steps, p);
    if Speaks(w.requests[pid]) == Some(id) {
      if w.requests[pid].Lookup? {
        ChallengesAreKept(steps, p, w.requests[pid].challengeID);
      }
      FinishForADevice(w, pid, id, now, p);
    } else {
      var more := FinishIsARun(steps, pid, now, p, Faults(false, false));
      assert (steps + more)[..|steps|] == steps;
      if HasSessionFor(After(steps + more, p), pid, id) {
        LateSessionsHadReadTheDevice(steps + more, |steps|, p, id, pid);
      }
    }
  }

  /** A challenge that can be stored under the id and would be accepted. */
  predicate WouldDo(c: Challenge, door: Door, challengeID: string, offered: string, p: Policy) {
    c.id == challengeID && ChallengeChecks(c) && !c.consumed && Accepts(door, c, offered, p)
  }

  /** What is left for a request that has read the device: its challenge is unspent and its answer right, or it
      has not looked and a challenge that would do is still to come. */
  ghost predicate Could(m: Challenges, r: Request, id: string, p: Policy) {
    && Speaks(r) == Some(id)
    && match r
       case Lookup(door, challengeID, offered) =>
         if challengeID in m then !m[challengeID].consumed && Accepts(door, m[challengeID], offered, p)
         else exists c :: WouldDo(c, door, challengeID, offered, p)
       case Spend(door, held, offered, _) => Flips(m, held.id) && Accepts(door, held, offered, p)
       case Check(door, held, offered) => Accepts(door, held, offered, p)
       case Mint(_, _, _) => true
       case _ => false
  }

  ghost predicate Hopeless(w: World, pid: nat, id: string, p: Policy) {
    !HasSessionFor(w, pid, id) && (pid in w.requests ==> !Could(w.challenges, w.requests[pid], id, p))
  }

  lemma OwnCallStaysHopeless(w: World, pid: nat, now: int, fails: bool, id: string, p: Policy)
    requires Hopeless(w, pid, id, p) && id in w.devices && w.devices[id].IsSignedOut() && IdsMatch(w.devices)
    requires pid in w.requests && RequestKept(w, pid, p)
    requires w.requests[pid].Lookup? ==> ChallengeKept(w, w.requests[pid].challengeID)
    ensures Hopeless(Advanced(w, pid, now, fails, p), pid, id, p)
  {
  }

  /** The challenge a request depends on, until it has spent it. */
  function Wanted(r: Request): Option<string> {
    match r
    case Lookup(_, challengeID, _) => Some(challengeID)
    case Spend(_, held, _, _) => Some(held.id)
    case _ => None
  }

  /** A later table offers a request nothing that the earlier one did not: what was absent may only become
      something that could be stored. */
  lemma NoNewHope(m: Challenges, n: Challenges, r: Request, id: string, p: Policy)
    requires Wanted(r).Some? ==>
               var wanted := Wanted(r).value;
               && ChallengeOnward(m, n, wanted)
               && (wanted !in m && wanted in n ==> n[wanted].id == wanted && ChallengeChecks(n[wanted]))
    requires r.Spend? ==> r.held.id in m
    ensures Could(n, r, id, p) ==> Could(m, r, id, p)
  {
    if r.Lookup? && r.challengeID !in m && r.challengeID in n && Could(n, r, id, p) {
      assert WouldDo(n[r.challengeID], r.door, r.challengeID, r.offered, p);
    }
  }

  lemma OtherStepStaysHopeless(w: World, step: Step, pid: nat, id: string, p: Policy)
    requires Hopeless(w, pid, id, p) && pid in w.requests && !(step.Advance? && step.pid == pid)
    requires RequestKept(w, pid, p)
    ensures Hopeless(Next(w, step, p), pid, id, p)
  {
    var wanted := Wanted(w.requests[pid]);
    OthersLeaveARequest(w, step, p, pid);
    if wanted.Some? {
      ChallengeStepIsOnward(w, step, p, wanted.value);
      NewChallengeWasStorable(w, step, p, wanted.value);
    }
    NoNewHope(w.challenges, Next(w, step, p).challenges, w.requests[pid], id, p);
  }

  lemma NewChallengeWasStorable(w: World, step: Step, p: Policy, id: string)
    ensures id !in w.challenges && id in Next(w, step, p).challenges ==>
              Next(w, step, p).challenges[id].id == id && ChallengeChecks(Next(w, step, p).challenges[id])
  {
  }

  lemma {:induction false} HopelessForever(steps: seq<Step>, n: nat, p: Policy, id: string, pid: nat)
    requires n <= |steps| && id in After(steps[..n], p).devices && After(steps[..n], p).devices[id].IsSignedOut()
    requires pid in After(steps[..n], p).requests && Hopeless(After(steps[..n], p), pid, id, p)
    ensures pid in After(steps, p).requests && Hopeless(After(steps, p), pid, id, p)
  {
    if n == |steps| {
      assert steps[..n] == steps;
    } else {
      var prev, step := steps[..|steps| - 1], steps[|steps| - 1];
      assert prev[..n] == steps[..n];
      HopelessForever(prev, n, p, id, pid);
      SignedOutForever(prev, n, p, id);
      DeviceIdsMatch(prev, p);
      RequestsAreKept(prev, p, pid);
      if step.Advance? && step.pid == pid {
        if After(prev, p).requests[pid].Lookup? {
          ChallengesAreKept(prev, p, After(prev, p).requests[pid].challengeID);
        }
        OwnCallStaysHopeless(After(prev, p), pid, step.now, step.fails, id, p);
      } else {
        OtherStepStaysHopeless(After(prev, p), step, pid, id, p);
      }
    }
  }

  lemma {:induction false} RequestsAreKept(steps: seq<Step>, p: Policy, pid: nat)
    ensures RequestKept(After(steps, p), pid, p)
  {
    EveryRunKeeps(steps, p);
  }

  /** What a hopeful request waits for, if it does: nothing, or one more challenge; and an instant to go on at. */
  lemma HopeBecomesGood(w: World, r: Request, id: string, p: Policy) returns (first: seq<Step>, now: int)
    requires Could(w.challenges, r, id, p)
    ensures (first == [] && StillGood(w, r, now, p))
            || (|first| == 1 && first[0].Create? && StillGood(Next(w, first[0], p), r, now, p))
  {
    first, now := [], 0;
    if r.Lookup? && r.challengeID in w.challenges {
      now := w.challenges[r.challengeID].expiresAt - 1;
    } else if r.Lookup? {
      var c :| WouldDo(c, r.door, r.challengeID, r.offered, p);
      first, now := [Create(c)], c.expiresAt - 1;
    }
  }

  lemma CreatingMovesNoRequest(w: World, step: Step, p: Policy)
    requires step.Create?
    ensures Next(w, step, p).devices == w.devices && Next(w, step, p).requests == w.requests
    ensures Next(w, step, p).minted == w.minted
  {
  }

  lemma {:induction false} GoodIsFulfilled(steps: seq<Step>, p: Policy, id: string, pid: nat, now: int)
    returns (rest: seq<Step>)
    requires id in After(steps, p).devices && After(steps, p).devices[id].IsSignedOut()
    requires pid in After(steps, p).requests && pid !in After(steps, p).minted
    requires Speaks(After(steps, p).requests[pid]) == Some(id)
    requires StillGood(After(steps, p), After(steps, p).requests[pid], now, p)
    ensures HasSessionFor(After(steps + rest, p), pid, id)
  {
    LateSessionAlone(steps, p, id, pid, now);
    rest := FinishIsARun(steps, pid, now, p, Faults(false, false));
  }

  /** A hopeful request goes on to its session. */
  lemma {:induction false} HopeIsFulfilled(steps: seq<Step>, p: Policy, id: string, pid: nat) returns (more: seq<Step>)
    requires id in After(steps, p).devices && After(steps, p).devices[id].IsSignedOut()
    requires pid in After(steps, p).requests && pid !in After(steps, p).minted
    requires Could(After(steps, p).challenges, After(steps, p).requests[pid], id, p)
    ensures HasSessionFor(After(steps + more, p), pid, id)
  {
    var first, now := HopeBecomesGood(After(steps, p), After(steps, p).requests[pid], id, p);
    if first == [] {
      more := GoodIsFulfilled(steps, p, id, pid, now);
    } else {
      var base := steps + [first[0]];
      AfterOneMore(steps, first[0], p);
      CreatingMovesNoRequest(After(steps, p), first[0], p);
      var rest := GoodIsFulfilled(base, p, id, pid, now);
      more := [first[0]] + rest;
      assert steps + more == base + rest;
    }
  }

  /** With the device signed out, a request gets a session for it in some continuation, whatever the others do
      and whenever they do it, exactly when it had read the device already and something is left for it. */
  lemma {:induction false} LateSessionExactlyWhen(steps: seq<Step>, p: Policy, id: string, pid: nat)
    requires id in After(steps, p).devices && After(steps, p).devices[id].IsSignedOut()
    requires pid in After(steps, p).requests && pid !in After(steps, p).minted
    ensures (exists more :: HasSessionFor(After(steps + more, p), pid, id))
            <==> Could(After(steps, p).challenges, After(steps, p).requests[pid], id, p)
  {
    if Could(After(steps, p).challenges, After(steps, p).requests[pid], id, p) {
      var more := HopeIsFulfilled(steps, p, id, pid);
    } else {
      forall more ensures !HasSessionFor(After(steps + more, p), pid, id) {
        assert (steps + more)[..|steps|] == steps;
        HopelessForever(steps + more, |steps|, p, id, pid);
      }
    }
  }

  /** A device and a challenge that a right answer to it would be accepted for. */
  predicate Answerable(d: Device, c: Challenge, offered: string, now: int, p: Policy) {
    && DeviceChecks(d) && !d.IsSignedOut() && ChallengeChecks(c) && !c.consumed && now < c.expiresAt
    && Accepts(ByDevice(d), c, offered, p)
  }

  function ReadingRun(d: Device, c: Challenge, offered: string, now: int): seq<Step> {
    [Register(d), Create(c), Step.DeviceVerify(0, d.id, c.id, offered), Advance(0, now, false)]
  }

  lemma DeviceIsRead(d: Device, c: Challenge, offered: string, now: int, p: Policy)
    requires Answerable(d, c, offered, now, p)
    ensures After(ReadingRun(d, c, offered, now), p)
            == EMPTY.(devices := map[d.id := d], challenges := map[c.id := c],
                      requests := map[0 := Lookup(ByDevice(d), c.id, offered)])
  {
    var run := ReadingRun(d, c, offered, now);
    assert run[..3][..2] == run[..2] && run[..2][..1] == run[..1] && run[..1][..0] == [];
    assert After(run[..1], p) == EMPTY.(devices := map[d.id := d]);
    assert After(run[..2], p) == EMPTY.(devices := map[d.id := d], challenges := map[c.id := c]);
    assert After(run[..3], p) == EMPTY.(devices := map[d.id := d], challenges := map[c.id := c],
                                        requests := map[0 := ReadDevice(d.id, c.id, offered)]);
  }

  /** It happens, for every device and challenge that would do: the device signs itself out while a request
      is under way, and a session is minted for it afterwards. */
  lemma SessionAfterSignOut(d: Device, c: Challenge, offered: string, at: int, now: int, p: Policy)
    returns (steps: seq<Step>, n: nat)
    requires Answerable(d, c, offered, now, p)
    ensures n <= |steps| && d.id in After(steps[..n], p).devices && After(steps[..n], p).devices[d.id].IsSignedOut()
    ensures After(steps[..n], p).minted == map[] && HasSessionFor(After(steps, p), 0, d.id)
  {
    var read := ReadingRun(d, c, offered, now);
    DeviceIsRead(d, c, offered, now, p);
    var before := read + [SignOut(d.id, at, BY_SELF)];
    assert before[..|before| - 1] == read;
    LateSessionAlone(before, p, d.id, 0, now);
    var more := FinishIsARun(before, 0, now, p, Faults(false, false));
    steps, n := before + more, |before|;
    assert steps[..n] == before;
  }

  /** A recovery under way beside a request that has read the device, and what it leaves. */
  predicate Recovering(d: Device, c: Challenge, r: Challenge, offered: string, now: int, p: Policy) {
    && Answerable(d, c, offered, now, p) && ChallengeChecks(r) && !r.consumed && now < r.expiresAt && r.id != c.id
    && r.kind == KindRecovery && r.subject == d.subject
  }

  lemma RecoverySweepsBeside(d: Device, c: Challenge, r: Challenge, offered: string, now: int, p: Policy)
    requires Recovering(d, c, r, offered, now, p)
    ensures var o := SpendOutcome(map[d.id := d], map[c.id := c, r.id := r], ByRecovery, r.id, r.secret, now, p,
                                  Faults(false, false));
            && o.status == 201 && o.minted.Some? && o.minted.value.door.ByRecovery?
            && o.devices == map[d.id := Ejected(d, now)] && c.id in o.challenges && o.challenges[c.id] == c
  {
  }

  lemma RecoveryIsAsked(d: Device, c: Challenge, r: Challenge, offered: string, now: int, p: Policy)
    returns (steps: seq<Step>)
    requires Recovering(d, c, r, offered, now, p)
    ensures var w := After(steps, p);
            && w.devices == map[d.id := Ejected(d, now)]
            && c.id in w.challenges && w.challenges[c.id] == c
            && 0 in w.requests && w.requests[0] == Lookup(ByDevice(d), c.id, offered)
            && w.minted.Keys == {1} && w.minted[1].door.ByRecovery?
  {
    var f := Faults(false, false);
    var read := ReadingRun(d, c, offered, now) + [Create(r)];
    DeviceIsRead(d, c, offered, now, p);
    assert read[..|read| - 1] == ReadingRun(d, c, offered, now);
    var asked := read + [Step.RecoveryVerify(1, r.id, r.secret)];
    assert asked[..|asked| - 1] == read;
    RecoveryRequestAlone(read, p, 1, r.id, r.secret, now, f);
    RecoverySweepsBeside(d, c, r, offered, now, p);
    var swept := FinishIsARun(asked, 1, now, p, f);
    steps := asked + swept;
  }

  /** The recovery sweep has the same gap: a handset it ejects may be given a session after the recovery's own. */
  lemma SessionAfterRecovery(
    d: Device, c: Challenge, r: Challenge, offered: string, now: int, p: Policy) returns (steps: seq<Step>, n: nat)
    requires Recovering(d, c, r, offered, now, p)
    ensures n <= |steps| && 1 in After(steps[..n], p).minted && After(steps[..n], p).minted[1].door.ByRecovery?
    ensures After(steps[..n], p).devices == map[d.id := Ejected(d, now)]
    ensures 0 !in After(steps[..n], p).minted && HasSessionFor(After(steps, p), 0, d.id)
  {
    var before := RecoveryIsAsked(d, c, r, offered, now, p);
    LateSessionAlone(before, p, d.id, 0, now);
    var more := FinishIsARun(before, 0, now, p, Faults(false, false));
    steps, n := before + more, |before|;
    assert steps[..n] == before;
  }
}
