/** The four handlers of the device and recovery doors, each run alone, and the same as requests that meet no other. */
module AuthHandlers {
  import opened Common
  import opened AuthStore
  import opened AuthDoors

  // ----- A request that goes on alone -----

  /** Which of the later calls fail. */
  datatype Faults = Faults(sweep: bool, mint: bool)

  function FaultAt(r: Request, f: Faults): bool {
    (r.Sweep? && f.sweep) || (r.Mint? && f.mint)
  }

  function CallsLeft(r: Request): nat {
    match r
    case ReadDevice(_, _, _) => 6
    case Lookup(_, _, _) => 5
    case Spend(_, _, _, _) => 4
    case Check(_, _, _) => 3
    case Sweep(_, _) => 2
    case Mint(_, _, _) => 1
    case ReadToIssue(_, _, _) => 2
    case Issue(_, _) => 1
    case Answered(_) => 0
  }

  /** The request's remaining calls, with nothing in between. */
  function Finish(w: World, pid: nat, now: int, p: Policy, f: Faults): World
    requires pid in w.requests
    decreases CallsLeft(w.requests[pid])
  {
    var r := w.requests[pid];
    if r.Answered? then w else Finish(Advanced(w, pid, now, FaultAt(r, f), p), pid, now, p, f)
  }

  lemma OneCall(w: World, pid: nat, now: int, p: Policy, f: Faults)
    requires pid in w.requests && !w.requests[pid].Answered?
    ensures var t := Next(w, Advance(pid, now, FaultAt(w.requests[pid], f)), p);
            && pid in t.requests && CallsLeft(t.requests[pid]) < CallsLeft(w.requests[pid])
            && Finish(w, pid, now, p, f) == Finish(t, pid, now, p, f)
  {
  }

  lemma AfterOneMore(steps: seq<Step>, step: Step, p: Policy)
    ensures After(steps + [step], p) == Next(After(steps, p), step, p)
  {
    assert (steps + [step])[..|steps + [step]| - 1] == steps;
  }

  /** Going on alone is itself a run. */
  lemma {:induction false} FinishIsARun(steps: seq<Step>, pid: nat, now: int, p: Policy, f: Faults)
    returns (more: seq<Step>)
    requires pid in After(steps, p).requests
    ensures After(steps + more, p) == Finish(After(steps, p), pid, now, p, f)
    decreases CallsLeft(After(steps, p).requests[pid])
  {
    var w := After(steps, p);
    if w.requests[pid].Answered? {
      more := [];
      assert steps + more == steps;
    } else {
      var step := Advance(pid, now, FaultAt(w.requests[pid], f));
      OneCall(w, pid, now, p, f);
      AfterOneMore(steps, step, p);
      var rest := FinishIsARun(steps + [step], pid, now, p, f);
      more := [step] + rest;
      assert steps + more == steps + [step] + rest;
    }
  }

  /** How a request ended: its status, its session, and the two tables. */
  datatype Outcome = Outcome(status: nat, minted: Option<Session>, devices: Devices, challenges: Challenges)

  predicate EndsAs(w: World, t: World, pid: nat, o: Outcome) {
    && t.devices == o.devices && t.challenges == o.challenges
    && t.requests == w.requests[pid := Answered(o.status)]
    && t.minted == if o.minted.Some? then w.minted[pid := o.minted.value] else w.minted
  }

  function MintOutcome(d: Devices, c: Challenges, door: Door, held: Challenge, offered: string, f: Faults): Outcome {
    Outcome(if f.mint then 500 else 201,
            if f.mint then None else Some(Session(door, held, held.subject, offered)), d, c)
  }

  /** From the comparison on. */
  function JudgeOutcome(
    d: Devices, c: Challenges, door: Door, held: Challenge, offered: string, now: int, p: Policy, f: Faults): Outcome
  {
    if !Accepts(door, held, offered, p) then Outcome(401, None, d, c)
    else if door.ByDevice? then MintOutcome(d, c, door, held, offered, f)
    else if f.sweep then Outcome(500, None, d, c)
    else MintOutcome(Swept(d, held.subject, "", now), c, door, held, offered, f)
  }

  /** From the consumption on. */
  function SpendOutcome(
    d: Devices, c: Challenges, door: Door, challengeID: string, offered: string, now: int, p: Policy, f: Faults)
    : Outcome
  {
    var (spent, after) := Consume(c, challengeID, now);
    if spent.Err? then Outcome(401, None, d, after)
    else JudgeOutcome(d, after, door, spent.value, offered, now, p, f)
  }

  /** The whole of DeviceVerify. */
  function DeviceOutcome(
    d: Devices, c: Challenges, deviceID: string, challengeID: string, offered: string, now: int, p: Policy, f: Faults)
    : Outcome
  {
    if deviceID !in d || d[deviceID].IsSignedOut() then Outcome(401, None, d, c)
    else SpendOutcome(d, c, ByDevice(d[deviceID]), challengeID, offered, now, p, f)
  }

  /** What opens the device door, field by field: a live device, its own stored, unspent and unexpired challenge, and
      an answer that proves the stored key over the stored secret, or any answer at all where proofs are bypassed.
      The challenge is spent whenever the device is live and the challenge would do, rightly answered or not. */
  lemma DeviceOutcomeLaw(
    d: Devices, c: Challenges, deviceID: string, challengeID: string, offered: string, now: int, p: Policy, f: Faults)
    requires IdsMatch(d)
    ensures var o := DeviceOutcome(d, c, deviceID, challengeID, offered, now, p, f);
            var reached := && deviceID in d && d[deviceID].signedOutAt.None?
                           && challengeID in c && !c[challengeID].consumed && now < c[challengeID].expiresAt;
            var right := && reached && c[challengeID].kind == KindDevice && c[challengeID].deviceID == deviceID
                         && offered != ""
                         && (p.allowUnsigned || p.proves(d[deviceID].publicKey, c[challengeID].secret, offered));
            && o.status == (if !right then 401 else if f.mint then 500 else 201)
            && (o.minted.Some? <==> o.status == 201)
            && o.devices == d
            && (!reached ==> o.challenges == c)
            && (reached ==>
                  var spent := c[challengeID].(consumed := true);
                  && o.challenges == c[challengeID := spent]
                  && (o.minted.Some? ==>
                        o.minted.value == Session(ByDevice(d[deviceID]), spent, spent.subject, offered)))
  {
  }

  /** What opens the recovery door: a stored, unspent and unexpired recovery challenge and its own secret. Then, and
      only then, every live device of its subject is signed out, unless the sweep fails. */
  lemma RecoveryOutcomeLaw(
    d: Devices, c: Challenges, challengeID: string, offered: string, now: int, p: Policy, f: Faults)
    ensures var o := SpendOutcome(d, c, ByRecovery, challengeID, offered, now, p, f);
            var reached := challengeID in c && !c[challengeID].consumed && now < c[challengeID].expiresAt;
            var right := reached && c[challengeID].kind == KindRecovery && c[challengeID].secret == offered;
            && o.status == (if !right then 401 else if f.sweep || f.mint then 500 else 201)
            && (o.minted.Some? <==> o.status == 201)
            && o.devices.Keys == d.Keys
            && (forall id :: id in d ==>
                               o.devices[id]
                               == if right && !f.sweep && d[id].subject == c[challengeID].subject
                                     && d[id].signedOutAt.None?
                                  then d[id].(signedOutAt := Some(now), signedOutBy := "recovery")
                                  else d[id])
            && (!reached ==> o.challenges == c)
            && (reached ==>
                  var spent := c[challengeID].(consumed := true);
                  && o.challenges == c[challengeID := spent]
                  && (o.minted.Some? ==> o.minted.value == Session(ByRecovery, spent, spent.subject, offered)))
  {
  }

  lemma FinishFromMint(w: World, pid: nat, now: int, p: Policy, f: Faults)
    requires pid in w.requests && w.requests[pid].Mint?
    ensures var r := w.requests[pid];
            EndsAs(w, Finish(w, pid, now, p, f), pid,
                   MintOutcome(w.devices, w.challenges, r.door, r.held, r.offered, f))
  {
  }

  lemma FinishFromSweep(w: World, pid: nat, now: int, p: Policy, f: Faults)
    requires pid in w.requests && w.requests[pid].Sweep?
    ensures var r := w.requests[pid];
            EndsAs(w, Finish(w, pid, now, p, f), pid,
                   if f.sweep then Outcome(500, None, w.devices, w.challenges)
                   else MintOutcome(Swept(w.devices, r.held.subject, "", now), w.challenges,
                                    ByRecovery, r.held, r.offered, f))
  {
    var t := Advanced(w, pid, now, f.sweep, p);
    if !f.sweep {
      FinishFromMint(t, pid, now, p, f);
    }
  }

  lemma FinishFromCheck(w: World, pid: nat, now: int, p: Policy, f: Faults)
    requires pid in w.requests && w.requests[pid].Check?
    ensures var r := w.requests[pid];
            EndsAs(w, Finish(w, pid, now, p, f), pid,
                   JudgeOutcome(w.devices, w.challenges, r.door, r.held, r.offered, now, p, f))
  {
    var r := w.requests[pid];
    var t := Advanced(w, pid, now, false, p);
    if Accepts(r.door, r.held, r.offered, p) {
      if r.door.ByRecovery? {
        FinishFromSweep(t, pid, now, p, f);
      } else {
        FinishFromMint(t, pid, now, p, f);
      }
    }
  }

  lemma FinishFromSpend(w: World, pid: nat, now: int, p: Policy, f: Faults)
    requires pid in w.requests && w.requests[pid].Spend?
    ensures var r := w.requests[pid];
            EndsAs(w, Finish(w, pid, now, p, f), pid,
                   if Flips(w.challenges, r.held.id)
                   then JudgeOutcome(w.devices, Flipped(w.challenges, r.held.id), r.door, r.held.(consumed := true),
                                     r.offered, now, p, f)
                   else Outcome(401, None, w.devices, w.challenges))
  {
    var t := Advanced(w, pid, now, false, p);
    if Flips(w.challenges, w.requests[pid].held.id) {
      FinishFromCheck(t, pid, now, p, f);
    }
  }

  lemma FinishFromLookup(w: World, pid: nat, now: int, p: Policy, f: Faults)
    requires pid in w.requests && w.requests[pid].Lookup? && ChallengeKept(w, w.requests[pid].challengeID)
    ensures var r := w.requests[pid];
            EndsAs(w, Finish(w, pid, now, p, f), pid,
                   SpendOutcome(w.devices, w.challenges, r.door, r.challengeID, r.offered, now, p, f))
  {
    var t := Advanced(w, pid, now, false, p);
    if Looked(w.challenges, w.requests[pid].challengeID, now).Ok? {
      FinishFromSpend(t, pid, now, p, f);
    }
  }

  lemma FinishDevice(
    w: World, p: Policy, pid: nat, deviceID: string, challengeID: string, offered: string, now: int, f: Faults)
    requires ChallengeKept(w, challengeID)
    ensures EndsAs(w, Finish(With(w, pid, ReadDevice(deviceID, challengeID, offered)), pid, now, p, f), pid,
                   DeviceOutcome(w.devices, w.challenges, deviceID, challengeID, offered, now, p, f))
  {
    var t := With(w, pid, ReadDevice(deviceID, challengeID, offered));
    if deviceID in w.devices && !w.devices[deviceID].IsSignedOut() {
      FinishFromLookup(Advanced(t, pid, now, false, p), pid, now, p, f);
    }
  }

  lemma FinishRecovery(w: World, p: Policy, pid: nat, challengeID: string, offered: string, now: int, f: Faults)
    requires ChallengeKept(w, challengeID)
    ensures EndsAs(w, Finish(With(w, pid, Lookup(ByRecovery, challengeID, offered)), pid, now, p, f), pid,
                   SpendOutcome(w.devices, w.challenges, ByRecovery, challengeID, offered, now, p, f))
  {
    FinishFromLookup(With(w, pid, Lookup(ByRecovery, challengeID, offered)), pid, now, p, f);
  }

  lemma {:induction false} ChallengesAreKept(steps: seq<Step>, p: Policy, id: string)
    ensures ChallengeKept(After(steps, p), id)
  {
    EveryRunKeeps(steps, p);
  }

  /** A device request that runs alone, in any reachable world, ends as the handler's method does. */
  lemma {:induction false} DeviceRequestAlone(
    steps: seq<Step>, p: Policy, pid: nat, deviceID: string, challengeID: string, offered: string, now: int, f: Faults)
    requires pid !in After(steps, p).requests
    ensures var w := After(steps, p);
            var t := Next(w, Step.DeviceVerify(pid, deviceID, challengeID, offered), p);
            && pid in t.requests
            && EndsAs(w, Finish(t, pid, now, p, f), pid,
                      DeviceOutcome(w.devices, w.challenges, deviceID, challengeID, offered, now, p, f))
  {
    ChallengesAreKept(steps, p, challengeID);
    FinishDevice(After(steps, p), p, pid, deviceID, challengeID, offered, now, f);
  }

  /** So a device request that meets no other gets a session exactly for a right answer: the device stored and not
      signed out, its own challenge stored, unspent and unexpired, and the answer not empty and either proved, on the
      stored key and secret, or not looked at. */
  lemma {:induction false} DeviceDoorOpensExactly(
    steps: seq<Step>, p: Policy, pid: nat, deviceID: string, challengeID: string, offered: string, now: int)
    requires pid !in After(steps, p).requests
    ensures var w := After(steps, p);
            var t := Next(w, Step.DeviceVerify(pid, deviceID, challengeID, offered), p);
            var right := && deviceID in w.devices && w.devices[deviceID].signedOutAt.None?
                         && challengeID in w.challenges
                         && var c := w.challenges[challengeID];
                         && !c.consumed && now < c.expiresAt && c.kind == KindDevice && c.deviceID == deviceID
                         && offered != ""
                         && (p.allowUnsigned || p.proves(w.devices[deviceID].publicKey, c.secret, offered));
            && pid in t.requests
            && var e := Finish(t, pid, now, p, Faults(false, false));
            && e.devices == w.devices
            && (right ==>
                  var c := w.challenges[challengeID].(consumed := true);
                  && e.requests == w.requests[pid := Answered(201)]
                  && e.minted == w.minted[pid := Session(ByDevice(w.devices[deviceID]), c, c.subject, offered)]
                  && e.challenges == w.challenges[challengeID := c])
            && (!right ==> e.requests == w.requests[pid := Answered(401)] && e.minted == w.minted)
  {
    var f := Faults(false, false);
    DeviceRequestAlone(steps, p, pid, deviceID, challengeID, offered, now, f);
    DeviceIdsMatch(steps, p);
    DeviceOutcomeLaw(After(steps, p).devices, After(steps, p).challenges, deviceID, challengeID, offered, now, p, f);
  }

  /** And so does a recovery request, with the sweep failing or not. */
  lemma {:induction false} RecoveryRequestAlone(
    steps: seq<Step>, p: Policy, pid: nat, challengeID: string, offered: string, now: int, f: Faults)
    requires pid !in After(steps, p).requests
    ensures var w := After(steps, p);
            var t := Next(w, Step.RecoveryVerify(pid, challengeID, offered), p);
            && pid in t.requests
            && EndsAs(w, Finish(t, pid, now, p, f), pid,
                      SpendOutcome(w.devices, w.challenges, ByRecovery, challengeID, offered, now, p, f))
  {
    ChallengesAreKept(steps, p, challengeID);
    FinishRecovery(After(steps, p), p, pid, challengeID, offered, now, f);
  }

  /** A recovery request that meets no other gets a session exactly for the secret of a stored, unspent and unexpired
      recovery challenge, and signs out exactly the live devices of its subject, exactly then. */
  lemma {:induction false} RecoveryDoorOpensExactly(
    steps: seq<Step>, p: Policy, pid: nat, challengeID: string, offered: string, now: int)
    requires pid !in After(steps, p).requests
    ensures var w := After(steps, p);
            var t := Next(w, Step.RecoveryVerify(pid, challengeID, offered), p);
            var right := && challengeID in w.challenges
                         && var c := w.challenges[challengeID];
                         && !c.consumed && now < c.expiresAt && c.kind == KindRecovery && c.secret == offered;
            && pid in t.requests
            && var e := Finish(t, pid, now, p, Faults(false, false));
            && (right ==>
                  var c := w.challenges[challengeID].(consumed := true);
                  && e.requests == w.requests[pid := Answered(201)]
                  && e.minted == w.minted[pid := Session(ByRecovery, c, c.subject, offered)]
                  && e.challenges == w.challenges[challengeID := c])
            && (!right ==> e.requests == w.requests[pid := Answered(401)] && e.minted == w.minted)
            && e.devices.Keys == w.devices.Keys
            && (forall id :: id in w.devices ==>
                               var d := w.devices[id];
                               e.devices[id]
                               == if right && d.subject == w.challenges[challengeID].subject && d.signedOutAt.None?
                                  then d.(signedOutAt := Some(now), signedOutBy := "recovery") else d)
  {
    var f := Faults(false, false);
    RecoveryRequestAlone(steps, p, pid, challengeID, offered, now, f);
    RecoveryOutcomeLaw(After(steps, p).devices, After(steps, p).challenges, challengeID, offered, now, p, f);
  }

  /** CreateChallenge, as an issuing door meets it. */
  function IssueOutcome(d: Devices, c: Challenges, draft: Challenge, newID: string, now: int): Outcome {
    var issued := Issued(draft, newID, now);
    Outcome(if Storable(c, issued) then 201 else 500, None, d, AfterCreate(c, issued))
  }

  function DeviceChallengeOutcome(
    d: Devices, c: Challenges, deviceID: string, newID: string, secret: string, now: int): Outcome
  {
    if deviceID !in d || d[deviceID].IsSignedOut() then Outcome(404, None, d, c)
    else IssueOutcome(d, c, DeviceDraft(d[deviceID], secret), newID, now)
  }

  function RecoveryRequestOutcome(
    d: Devices, c: Challenges, subject: string, newID: string, secret: string, now: int): Outcome
  {
    if subject == "" then Outcome(400, None, d, c) else IssueOutcome(d, c, RecoveryDraft(subject, secret), newID, now)
  }

  /** The device door's challenge: for the live device that asked, with the nonce just drawn as its secret, for the
      device's own subject and for five minutes. */
  lemma DeviceChallengeLaw(
    d: Devices, c: Challenges, deviceID: string, newID: string, secret: string, now: int)
    requires IdsMatch(d)
    ensures var o := DeviceChallengeOutcome(d, c, deviceID, newID, secret, now);
            var live := deviceID in d && d[deviceID].signedOutAt.None?;
            var fits := !Blank(newID) && !Blank(secret) && newID !in c;
            && o.status == (if !live then 404 else if !fits then 500 else 201)
            && o.devices == d && o.minted.None?
            && (!live || !fits ==> o.challenges == c)
            && (live && fits ==>
                  o.challenges == c[newID := Challenge(newID, KindDevice, deviceID, "", secret, d[deviceID].subject,
                                                       now + 300_000_000_000, false)])
  {
  }

  /** The recovery door's: for the subject asked for, with the code just drawn as its secret. */
  lemma RecoveryRequestLaw(
    d: Devices, c: Challenges, subject: string, newID: string, secret: string, now: int)
    ensures var o := RecoveryRequestOutcome(d, c, subject, newID, secret, now);
            var fits := !Blank(newID) && !Blank(secret) && newID !in c;
            && o.status == (if subject == "" then 400 else if !fits then 500 else 201)
            && o.devices == d && o.minted.None?
            && (subject == "" || !fits ==> o.challenges == c)
            && (subject != "" && fits ==>
                  o.challenges == c[newID := Challenge(newID, KindRecovery, "", "", secret, subject,
                                                       now + 300_000_000_000, false)])
  {
  }

  lemma FinishFromIssue(w: World, pid: nat, now: int, p: Policy, f: Faults)
    requires pid in w.requests && w.requests[pid].Issue?
    ensures EndsAs(w, Finish(w, pid, now, p, f), pid,
                   IssueOutcome(w.devices, w.challenges, w.requests[pid].draft, w.requests[pid].newID, now))
  {
  }

  lemma FinishDeviceChallenge(
    w: World, p: Policy, pid: nat, deviceID: string, newID: string, secret: string, now: int, f: Faults)
    ensures EndsAs(w, Finish(With(w, pid, ReadToIssue(deviceID, newID, secret)), pid, now, p, f), pid,
                   DeviceChallengeOutcome(w.devices, w.challenges, deviceID, newID, secret, now))
  {
    var t := With(w, pid, ReadToIssue(deviceID, newID, secret));
    if deviceID in w.devices && !w.devices[deviceID].IsSignedOut() {
      FinishFromIssue(Advanced(t, pid, now, false, p), pid, now, p, f);
    }
  }

  /** The issuing doors, each running alone, end as their handlers' methods do: the device door's challenge is for a
      live device and its own subject, and its secret is the nonce drawn for it. */
  lemma {:induction false} DeviceChallengeAlone(
    steps: seq<Step>, p: Policy, pid: nat, deviceID: string, newID: string, secret: string, now: int, f: Faults)
    requires pid !in After(steps, p).requests
    ensures var w := After(steps, p);
            var t := Next(w, Step.DeviceChallenge(pid, deviceID, newID, secret), p);
            var live := deviceID in w.devices && w.devices[deviceID].signedOutAt.None?;
            var fits := !Blank(newID) && !Blank(secret) && newID !in w.challenges;
            && pid in t.requests
            && var e := Finish(t, pid, now, p, f);
            && EndsAs(w, e, pid, DeviceChallengeOutcome(w.devices, w.challenges, deviceID, newID, secret, now))
            && e.requests == w.requests[pid := Answered(if !live then 404 else if !fits then 500 else 201)]
            && e.challenges
               == if live && fits
                  then w.challenges[newID := Challenge(newID, KindDevice, deviceID, "", secret,
                                                       w.devices[deviceID].subject, now + 300_000_000_000, false)]
                  else w.challenges
  {
    var w := After(steps, p);
    DeviceIdsMatch(steps, p);
    DeviceChallengeLaw(w.devices, w.challenges, deviceID, newID, secret, now);
    FinishDeviceChallenge(w, p, pid, deviceID, newID, secret, now, f);
  }

  lemma RecoveryRequestedAlone(
    w: World, p: Policy, pid: nat, subject: string, newID: string, secret: string, now: int, f: Faults)
    requires pid !in w.requests
    ensures var t := Next(w, Step.RecoveryRequest(pid, subject, newID, secret), p);
            var fits := !Blank(newID) && !Blank(secret) && newID !in w.challenges;
            && pid in t.requests
            && var e := Finish(t, pid, now, p, f);
            && EndsAs(w, e, pid, RecoveryRequestOutcome(w.devices, w.challenges, subject, newID, secret, now))
            && e.requests == w.requests[pid := Answered(if subject == "" then 400 else if !fits then 500 else 201)]
            && e.challenges
               == if subject != "" && fits
                  then w.challenges[newID := Challenge(newID, KindRecovery, "", "", secret, subject,
                                                       now + 300_000_000_000, false)]
                  else w.challenges
  {
    RecoveryRequestLaw(w.devices, w.challenges, subject, newID, secret, now);
    if subject != "" {
      FinishFromIssue(With(w, pid, Issue(RecoveryDraft(subject, secret), newID)), pid, now, p, f);
    }
  }

  // ----- The handlers, each run alone -----

  /** What RecoveryRequest writes out: no subject, and the code only where the application echoes it. */
  datatype RecoveryBody = RecoveryBody(id: string, kind: Kind, expiresAt: int, secret: Option<string>)

  /** DeviceChallenge: a live device gets a challenge for its own subject, shown without it. */
  method DeviceChallenge(s: Store, deviceID: string, newID: string, secret: string, now: int)
    returns (status: nat, shown: Option<Challenge>)
    requires IdsMatch(s.devices)
    modifies s`challenges
    ensures Outcome(status, None, s.devices, s.challenges)
            == DeviceChallengeOutcome(s.devices, old(s.challenges), deviceID, newID, secret, now)
    ensures var live := deviceID in s.devices && s.devices[deviceID].signedOutAt.None?;
            var fits := !Blank(newID) && !Blank(secret) && newID !in old(s.challenges);
            && status == (if !live then 404 else if !fits then 500 else 201)
            && (status != 201 ==> shown.None? && s.challenges == old(s.challenges))
            && (status == 201 ==>
                  var stored := Challenge(newID, KindDevice, deviceID, "", secret, s.devices[deviceID].subject,
                                          now + 300_000_000_000, false);
                  && s.challenges == old(s.challenges)[newID := stored]
                  && shown == Some(stored.(subject := "")))
  {
    DeviceChallengeLaw(s.devices, s.challenges, deviceID, newID, secret, now);
    var dev := s.GetDevice(deviceID);
    if dev.Err? || dev.value.IsSignedOut() {
      return 404, None;
    }
    var c := s.CreateChallenge(DeviceDraft(dev.value, secret), newID, now);
    if c.Err? {
      return 500, None;
    }
    return 201, Some(c.value.Public());
  }

  /** RecoveryRequest: anybody may ask for a code for a subject; the answer carries it only when echoed. */
  method RecoveryRequest(s: Store, subject: string, newID: string, secret: string, echo: bool, now: int)
    returns (status: nat, shown: Option<RecoveryBody>)
    modifies s`challenges
    ensures Outcome(status, None, s.devices, s.challenges)
            == RecoveryRequestOutcome(s.devices, old(s.challenges), subject, newID, secret, now)
    ensures var fits := !Blank(newID) && !Blank(secret) && newID !in old(s.challenges);
            && status == (if subject == "" then 400 else if !fits then 500 else 201)
            && (status != 201 ==> shown.None? && s.challenges == old(s.challenges))
            && (status == 201 ==>
                  var until := now + 300_000_000_000;
                  && s.challenges == old(s.challenges)[newID := Challenge(newID, KindRecovery, "", "", secret, subject,
                                                                          until, false)]
                  && shown == Some(RecoveryBody(newID, KindRecovery, until, if echo then Some(secret) else None)))
  {
    RecoveryRequestLaw(s.devices, s.challenges, subject, newID, secret, now);
    if subject == "" {
      return 400, None;
    }
    var c := s.CreateChallenge(RecoveryDraft(subject, secret), newID, now);
    if c.Err? {
      return 500, None;
    }
    var body := RecoveryBody(c.value.id, c.value.kind, c.value.expiresAt, if echo then Some(c.value.secret) else None);
    return 201, Some(body);
  }

  /** DeviceVerify: read the device, spend the challenge, only then judge the answer. */
  method DeviceVerify(
    s: Store, p: Policy, deviceID: string, challengeID: string, signature: string, now: int, mintFails: bool)
    returns (status: nat, minted: Option<Session>)
    requires IdsMatch(s.devices)
    modifies s`challenges
    ensures Outcome(status, minted, s.devices, s.challenges)
            == DeviceOutcome(s.devices, old(s.challenges), deviceID, challengeID, signature, now, p,
                             Faults(false, mintFails))
    ensures var c := old(s.challenges);
            var reached := && deviceID in s.devices && s.devices[deviceID].signedOutAt.None?
                           && challengeID in c && !c[challengeID].consumed && now < c[challengeID].expiresAt;
            var right := && reached && c[challengeID].kind == KindDevice && c[challengeID].deviceID == deviceID
                         && signature != ""
                         && (p.allowUnsigned
                             || p.proves(s.devices[deviceID].publicKey, c[challengeID].secret, signature));
            && status == (if !right then 401 else if mintFails then 500 else 201)
            && (status != 201 ==> minted.None?)
            && (!reached ==> s.challenges == c)
            && (reached ==>
                  var spent := c[challengeID].(consumed := true);
                  && s.challenges == c[challengeID := spent]
                  && (status == 201 ==>
                        minted == Some(Session(ByDevice(s.devices[deviceID]), spent, spent.subject, signature))))
  {
    DeviceOutcomeLaw(s.devices, s.challenges, deviceID, challengeID, signature, now, p, Faults(false, mintFails));
    var dev := s.GetDevice(deviceID);
    if dev.Err? || dev.value.IsSignedOut() {
      return 401, None;
    }
    var c := s.ConsumeChallenge(challengeID, now);
    if c.Err? {
      return 401, None;
    }
    if c.value.deviceID != deviceID || c.value.kind != KindDevice {
      return 401, None;
    }
    if signature == "" {
      return 401, None;
    }
    if !p.allowUnsigned && !p.proves(dev.value.publicKey, c.value.secret, signature) {
      return 401, None;
    }
    if mintFails {
      return 500, None;
    }
    return 201, Some(Session(ByDevice(dev.value), c.value, c.value.subject, signature));
  }

  /** RecoveryVerify: spend the challenge, judge the answer, sweep every device, only then mint. A sweep
      that fails is rolled back, and nothing is minted. */
  method RecoveryVerify(
    s: Store, p: Policy, challengeID: string, secret: string, now: int, sweepFails: bool, mintFails: bool)
    returns (status: nat, minted: Option<Session>)
    requires IdsMatch(s.devices)
    modifies s
    ensures Outcome(status, minted, s.devices, s.challenges)
            == SpendOutcome(old(s.devices), old(s.challenges), ByRecovery, challengeID, secret, now, p,
                            Faults(sweepFails, mintFails))
    ensures var c := old(s.challenges);
            var reached := challengeID in c && !c[challengeID].consumed && now < c[challengeID].expiresAt;
            var right := reached && c[challengeID].kind == KindRecovery && c[challengeID].secret == secret;
            && status == (if !right then 401 else if sweepFails || mintFails then 500 else 201)
            && (status != 201 ==> minted.None?)
            && (!reached ==> s.challenges == c)
            && (reached ==>
                  var spent := c[challengeID].(consumed := true);
                  && s.challenges == c[challengeID := spent]
                  && (status == 201 ==> minted == Some(Session(ByRecovery, spent, spent.subject, secret))))
            && s.devices.Keys == old(s.devices).Keys
            && (forall id :: id in s.devices ==>
                               var d := old(s.devices)[id];
                               s.devices[id]
                               == if right && !sweepFails && d.subject == c[challengeID].subject && d.signedOutAt.None?
                                  then d.(signedOutAt := Some(now), signedOutBy := "recovery") else d)
  {
    RecoveryOutcomeLaw(s.devices, s.challenges, challengeID, secret, now, p, Faults(sweepFails, mintFails));
    var c := s.ConsumeChallenge(challengeID, now);
    if c.Err? {
      return 401, None;
    }
    if c.value.kind != KindRecovery || c.value.secret != secret {
      return 401, None;
    }
    if sweepFails {
      return 500, None;
    }
    var ejected := s.SignOutOtherDevices(c.value.subject, "", now, now);
    if mintFails {
      return 500, None;
    }
    return 201, Some(Session(ByRecovery, c.value, c.value.subject, secret));
  }
}
