/** The device and recovery doors (routes/device.go, routes/recovery.go) as requests that interleave
    at their repository calls. */
module AuthDoors {
  import opened Common
  import opened AuthStore

  /** How a device proof is judged: VerifyDeviceProof, or the gateway's bypass. */
  datatype Policy = Policy(proves: (string, string, string) -> bool, allowUnsigned: bool)

  /** Where a request is: the call it makes next, with what it holds. */
  datatype Request =
    | ReadDevice(deviceID: string, challengeID: string, offered: string)
    | Lookup(door: Door, challengeID: string, offered: string)
    | Spend(door: Door, held: Challenge, offered: string, now: int)
    | Check(door: Door, held: Challenge, offered: string)
    | Sweep(held: Challenge, offered: string)
    | Mint(door: Door, held: Challenge, offered: string)
    | ReadToIssue(deviceID: string, newID: string, secret: string)
    | Issue(draft: Challenge, newID: string)
    | Answered(status: nat)

  /** Which door a request came through, and the device row the device door read. */
  datatype Door = ByDevice(device: Device) | ByRecovery

  datatype Session = Session(door: Door, challenge: Challenge, subject: string, offered: string)

  /** A sweep: whose devices, which they held, which it ended. */
  datatype SweepRecord = SweepRecord(subject: string, held: set<string>, ended: set<string>)

  datatype World = World(
    devices: Devices,
    challenges: Challenges,
    requests: map<nat, Request>,
    spentBy: map<string, nat>,        // which request flipped a challenge
    compared: multiset<string>,       // the challenges a proof was compared against
    sweeps: map<nat, SweepRecord>,
    minted: map<nat, Session>)

  const EMPTY := World(map[], map[], map[], map[], multiset{}, map[], map[])

  datatype Step =
    | Register(device: Device)
    | SignOut(id: string, at: int, reason: string)
    | Create(challenge: Challenge)               // by the application's own doors, the phone's among them
    | DeviceChallenge(pid: nat, deviceID: string, newID: string, secret: string)
    | RecoveryRequest(pid: nat, subject: string, newID: string, secret: string)
    | DeviceVerify(pid: nat, deviceID: string, challengeID: string, offered: string)
    | RecoveryVerify(pid: nat, challengeID: string, offered: string)
    | Advance(pid: nat, now: int, fails: bool)   // one repository or minter call; `fails` is its own failure

  /** Whether a comparison is made at all, and how it comes out. */
  predicate Compares(door: Door, c: Challenge, offered: string, p: Policy) {
    match door
    case ByDevice(d) => c.deviceID == d.id && c.kind == KindDevice && offered != "" && !p.allowUnsigned
    case ByRecovery => c.kind == KindRecovery
  }

  predicate Accepts(door: Door, c: Challenge, offered: string, p: Policy) {
    match door
    case ByDevice(d) =>
      c.deviceID == d.id && c.kind == KindDevice && offered != ""
      && (p.allowUnsigned || p.proves(d.publicKey, c.secret, offered))
    case ByRecovery => c.kind == KindRecovery && c.secret == offered
  }

  function With(w: World, pid: nat, r: Request): World {
    w.(requests := w.requests[pid := r])
  }

  function DevicesOf(m: Devices, subject: string): set<string> {
    set id | id in m && m[id].subject == subject
  }

  function LiveDevicesOf(m: Devices, subject: string): set<string> {
    set id | id in m && Ejects(m[id], subject, "")
  }

  function SweepOf(m: Devices, subject: string): SweepRecord {
    SweepRecord(subject, DevicesOf(m, subject), LiveDevicesOf(m, subject))
  }

  /** What the two issuing doors ask CreateChallenge for. */
  function DeviceDraft(d: Device, secret: string): Challenge {
    Challenge("", KindDevice, d.id, "", secret, d.subject, ZERO_TIME, false)
  }

  function RecoveryDraft(subject: string, secret: string): Challenge {
    Challenge("", KindRecovery, "", "", secret, subject, ZERO_TIME, false)
  }

  predicate Flipping(w: World, r: Request, fails: bool) {
    r.Spend? && !fails && Flips(w.challenges, r.held.id)
  }

  /** Where a request goes after its next call. */
  function Onto(w: World, r: Request, now: int, fails: bool, p: Policy): Request {
    match r
    case ReadDevice(deviceID, challengeID, offered) =>
      if fails || deviceID !in w.devices || w.devices[deviceID].IsSignedOut() then Answered(401)
      else Lookup(ByDevice(w.devices[deviceID]), challengeID, offered)
    case Lookup(door, challengeID, offered) =>
      var found := Looked(w.challenges, challengeID, now);
      if fails || found.Err? then Answered(401) else Spend(door, found.value, offered, now)
    case Spend(door, held, offered, _) =>
      if Flipping(w, r, fails) then Check(door, held.(consumed := true), offered) else Answered(401)
    case Check(door, held, offered) =>
      if !Accepts(door, held, offered, p) then Answered(401)
      else if door.ByRecovery? then Sweep(held, offered)
      else Mint(door, held, offered)
    case Sweep(held, offered) => if fails then Answered(500) else Mint(ByRecovery, held, offered)
    case Mint(_, _, _) => Answered(if fails then 500 else 201)
    case ReadToIssue(deviceID, newID, secret) =>
      if fails || deviceID !in w.devices || w.devices[deviceID].IsSignedOut() then Answered(404)
      else Issue(DeviceDraft(w.devices[deviceID], secret), newID)
    case Issue(draft, newID) =>
      Answered(if fails || !Storable(w.challenges, Issued(draft, newID, now)) then 500 else 201)
    case Answered(_) => r
  }

  /** One call of one request: what it does to each table, and to the record of what happened. */
  function Advanced(w: World, pid: nat, now: int, fails: bool, p: Policy): World
    requires pid in w.requests
  {
    var r := w.requests[pid];
    World(
      if r.Sweep? && !fails then Swept(w.devices, r.held.subject, "", now) else w.devices,
      if Flipping(w, r, fails) then Flipped(w.challenges, r.held.id)
      else if r.Issue? && !fails then AfterCreate(w.challenges, Issued(r.draft, r.newID, now))
      else w.challenges,
      w.requests[pid := Onto(w, r, now, fails, p)],
      if Flipping(w, r, fails) then w.spentBy[r.held.id := pid] else w.spentBy,
      if r.Check? && Compares(r.door, r.held, r.offered, p) then w.compared + multiset{r.held.id} else w.compared,
      if r.Sweep? && !fails then w.sweeps[pid := SweepOf(w.devices, r.held.subject)] else w.sweeps,
      if r.Mint? && !fails then w.minted[pid := Session(r.door, r.held, r.held.subject, r.offered)] else w.minted)
  }

  /** One step; a request id is used once, and a step that cannot be taken changes nothing. */
  function Next(w: World, step: Step, p: Policy): World {
    match step
    case Register(d) => w.(devices := AfterRegister(w.devices, d))
    case SignOut(id, at, reason) => w.(devices := AfterSignOut(w.devices, id, at, reason))
    case Create(c) => w.(challenges := AfterCreate(w.challenges, c))
    case DeviceChallenge(pid, deviceID, newID, secret) =>
      if pid in w.requests then w else With(w, pid, ReadToIssue(deviceID, newID, secret))
    case RecoveryRequest(pid, subject, newID, secret) =>
      if pid in w.requests then w
      else With(w, pid, if subject == "" then Answered(400) else Issue(RecoveryDraft(subject, secret), newID))
    case DeviceVerify(pid, deviceID, challengeID, offered) =>
      if pid in w.requests then w else With(w, pid, ReadDevice(deviceID, challengeID, offered))
    case RecoveryVerify(pid, challengeID, offered) =>
      if pid in w.requests then w else With(w, pid, Lookup(ByRecovery, challengeID, offered))
    case Advance(pid, now, fails) =>
      if pid in w.requests then Advanced(w, pid, now, fails, p) else w
  }

  function After(steps: seq<Step>, p: Policy): World {
    if steps == [] then EMPTY else Next(After(steps[..|steps| - 1], p), steps[|steps| - 1], p)
  }

  // ----- What one step never undoes -----

  predicate ChallengeOutlives(a: Challenge, b: Challenge) {
    b == a || b == a.(consumed := true)
  }

  predicate DeviceOnward(v: Devices, w: Devices, id: string) {
    id in v ==> id in w && Outlives(v[id], w[id])
  }

  predicate ChallengeOnward(v: Challenges, w: Challenges, id: string) {
    id in v ==> id in w && ChallengeOutlives(v[id], w[id])
  }

  lemma DeviceStepIsOnward(w: World, step: Step, p: Policy, id: string)
    ensures DeviceOnward(w.devices, Next(w, step, p).devices, id)
  {
  }

  lemma ChallengeStepIsOnward(w: World, step: Step, p: Policy, id: string)
    ensures ChallengeOnward(w.challenges, Next(w, step, p).challenges, id)
  {
  }

  lemma OthersLeaveARequest(w: World, step: Step, p: Policy, pid: nat)
    requires pid in w.requests && !(step.Advance? && step.pid == pid)
    ensures pid in Next(w, step, p).requests && Next(w, step, p).requests[pid] == w.requests[pid]
    ensures pid in Next(w, step, p).minted ==> pid in w.minted && Next(w, step, p).minted[pid] == w.minted[pid]
  {
  }

  // ----- What every reachable world keeps -----

  /** The request flipped the challenge it holds, and holds it as it is stored. */
  predicate Spent(w: World, pid: nat, c: Challenge) {
    && c.id in w.spentBy && w.spentBy[c.id] == pid
    && c.id in w.challenges && w.challenges[c.id] == c && c.consumed
  }

  predicate SweptFor(w: World, pid: nat, subject: string) {
    pid in w.sweeps && w.sweeps[pid].subject == subject
  }

  predicate RequestKept(w: World, pid: nat, p: Policy) {
    pid in w.requests ==>
      match w.requests[pid]
      case Spend(_, held, _, now) =>
        && held.id in w.challenges && !held.consumed && now < held.expiresAt
        && ChallengeOutlives(held, w.challenges[held.id])
      case Check(_, held, _) => Spent(w, pid, held) && held.id !in w.compared
      case Sweep(held, offered) => Spent(w, pid, held) && Accepts(ByRecovery, held, offered, p) && held.id in w.compared
      case Mint(door, held, offered) =>
        && Spent(w, pid, held) && Accepts(door, held, offered, p)
        && (door.ByRecovery? || !p.allowUnsigned ==> held.id in w.compared)
        && (door.ByRecovery? ==> SweptFor(w, pid, held.subject))
      case _ => true
  }

  predicate MintKept(w: World, pid: nat, p: Policy) {
    pid in w.minted ==>
      var s := w.minted[pid];
      && Spent(w, pid, s.challenge)
      && s.subject == s.challenge.subject
      && Accepts(s.door, s.challenge, s.offered, p)
      && (s.door.ByRecovery? || !p.allowUnsigned ==> s.challenge.id in w.compared)
      && (s.door.ByRecovery? ==> SweptFor(w, pid, s.subject))
      && pid in w.requests && w.requests[pid] == Answered(201)
  }

  predicate ChallengeKept(w: World, id: string) {
    && (id in w.challenges ==> w.challenges[id].id == id)
    && (id in w.spentBy ==> id in w.challenges && w.challenges[id].consumed && w.spentBy[id] in w.requests)
    && w.compared[id] <= 1
    && (id in w.compared ==> id in w.spentBy)
  }

  predicate SweepKept(w: World, pid: nat) {
    pid in w.sweeps ==>
      forall id :: id in w.sweeps[pid].held ==> id in w.devices && w.devices[id].IsSignedOut()
  }

  ghost predicate Kept(w: World, p: Policy) {
    && (forall pid :: RequestKept(w, pid, p))
    && (forall pid :: MintKept(w, pid, p))
    && (forall pid :: SweepKept(w, pid))
    && (forall id :: ChallengeKept(w, id))
  }

  /** A request that only moves on, to a place whose claims hold, keeps everything. */
  lemma MovingOnKeeps(w: World, pid: nat, r: Request, p: Policy)
    requires Kept(w, p) && (pid in w.requests ==> w.requests[pid] != Answered(201))
    requires RequestKept(With(w, pid, r), pid, p)
    ensures Kept(With(w, pid, r), p)
  {
    var t := With(w, pid, r);
    forall q ensures RequestKept(t, q, p) && MintKept(t, q, p) && SweepKept(t, q) {
      assert RequestKept(w, q, p) && MintKept(w, q, p) && SweepKept(w, q);
    }
    forall id ensures ChallengeKept(t, id) {
      assert ChallengeKept(w, id);
    }
  }

  lemma SpendKeepsItself(w: World, pid: nat, now: int, fails: bool, p: Policy)
    requires Kept(w, p) && pid in w.requests && w.requests[pid].Spend?
    ensures RequestKept(Advanced(w, pid, now, fails, p), pid, p)
  {
    assert RequestKept(w, pid, p) && ChallengeKept(w, w.requests[pid].held.id);
  }

  lemma AdvanceKeepsItself(w: World, pid: nat, now: int, fails: bool, p: Policy)
    requires Kept(w, p) && pid in w.requests
    ensures RequestKept(Advanced(w, pid, now, fails, p), pid, p)
  {
    var r := w.requests[pid];
    if r.Spend? {
      SpendKeepsItself(w, pid, now, fails, p);
    } else {
      assert RequestKept(w, pid, p) && (r.Lookup? ==> ChallengeKept(w, r.challengeID));
    }
  }

  lemma SpendKeepsOthers(w: World, pid: nat, now: int, fails: bool, p: Policy, q: nat)
    requires Kept(w, p) && pid in w.requests && w.requests[pid].Spend? && q != pid
    ensures RequestKept(Advanced(w, pid, now, fails, p), q, p)
  {
    assert RequestKept(w, pid, p) && RequestKept(w, q, p) && ChallengeKept(w, w.requests[pid].held.id);
  }

  lemma AdvanceKeepsOthers(w: World, pid: nat, now: int, fails: bool, p: Policy, q: nat)
    requires Kept(w, p) && pid in w.requests && q != pid
    ensures RequestKept(Advanced(w, pid, now, fails, p), q, p)
  {
    if w.requests[pid].Spend? {
      SpendKeepsOthers(w, pid, now, fails, p, q);
    } else {
      assert RequestKept(w, pid, p) && RequestKept(w, q, p);
    }
  }

  lemma SpendKeepsMint(w: World, pid: nat, now: int, fails: bool, p: Policy, q: nat)
    requires Kept(w, p) && pid in w.requests && w.requests[pid].Spend?
    ensures MintKept(Advanced(w, pid, now, fails, p), q, p)
  {
    assert RequestKept(w, pid, p) && MintKept(w, q, p) && ChallengeKept(w, w.requests[pid].held.id);
  }

  lemma AdvanceKeepsMint(w: World, pid: nat, now: int, fails: bool, p: Policy, q: nat)
    requires Kept(w, p) && pid in w.requests
    ensures MintKept(Advanced(w, pid, now, fails, p), q, p)
  {
    if w.requests[pid].Spend? {
      SpendKeepsMint(w, pid, now, fails, p, q);
    } else {
      assert RequestKept(w, pid, p) && MintKept(w, q, p);
    }
  }

  lemma AdvanceKeepsSweep(w: World, pid: nat, now: int, fails: bool, p: Policy, q: nat)
    requires Kept(w, p) && pid in w.requests
    ensures SweepKept(Advanced(w, pid, now, fails, p), q)
  {
    assert SweepKept(w, q);
  }

  lemma AdvanceKeepsChallenge(w: World, pid: nat, now: int, fails: bool, p: Policy, id: string)
    requires Kept(w, p) && pid in w.requests
    ensures ChallengeKept(Advanced(w, pid, now, fails, p), id)
  {
    assert RequestKept(w, pid, p) && ChallengeKept(w, id);
  }

  lemma TableStepKeeps(w: World, step: Step, p: Policy)
    requires Kept(w, p) && (step.Register? || step.SignOut? || step.Create?)
    ensures Kept(Next(w, step, p), p)
  {
    var t := Next(w, step, p);
    forall q ensures RequestKept(t, q, p) && MintKept(t, q, p) && SweepKept(t, q) {
      TableStepKeepsOne(w, step, p, q);
    }
    forall id ensures ChallengeKept(t, id) {
      assert ChallengeKept(w, id);
    }
  }

  lemma TableStepKeepsOne(w: World, step: Step, p: Policy, q: nat)
    requires Kept(w, p) && (step.Register? || step.SignOut? || step.Create?)
    ensures var t := Next(w, step, p); RequestKept(t, q, p) && MintKept(t, q, p) && SweepKept(t, q)
  {
    assert RequestKept(w, q, p) && MintKept(w, q, p) && SweepKept(w, q);
  }

  lemma StepKeeps(w: World, step: Step, p: Policy)
    requires Kept(w, p)
    ensures Kept(Next(w, step, p), p)
  {
    match step
    case Register(_) => TableStepKeeps(w, step, p);
    case SignOut(_, _, _) => TableStepKeeps(w, step, p);
    case Create(_) => TableStepKeeps(w, step, p);
    case DeviceChallenge(pid, deviceID, newID, secret) =>
      if pid !in w.requests {
        MovingOnKeeps(w, pid, ReadToIssue(deviceID, newID, secret), p);
      }
    case RecoveryRequest(pid, subject, newID, secret) =>
      if pid !in w.requests {
        MovingOnKeeps(w, pid, if subject == "" then Answered(400) else Issue(RecoveryDraft(subject, secret), newID), p);
      }
    case DeviceVerify(pid, deviceID, challengeID, offered) =>
      if pid !in w.requests {
        MovingOnKeeps(w, pid, ReadDevice(deviceID, challengeID, offered), p);
      }
    case RecoveryVerify(pid, challengeID, offered) =>
      if pid !in w.requests {
        MovingOnKeeps(w, pid, Lookup(ByRecovery, challengeID, offered), p);
      }
    case Advance(pid, now, fails) =>
      if pid in w.requests {
        var t := Advanced(w, pid, now, fails, p);
        forall q ensures RequestKept(t, q, p) && MintKept(t, q, p) && SweepKept(t, q) {
          if q == pid {
            AdvanceKeepsItself(w, pid, now, fails, p);
          } else {
            AdvanceKeepsOthers(w, pid, now, fails, p, q);
          }
          AdvanceKeepsMint(w, pid, now, fails, p, q);
          AdvanceKeepsSweep(w, pid, now, fails, p, q);
        }
        forall id ensures ChallengeKept(t, id) {
          AdvanceKeepsChallenge(w, pid, now, fails, p, id);
        }
      }
  }

  lemma {:induction false} EveryRunKeeps(steps: seq<Step>, p: Policy)
    ensures Kept(After(steps, p), p)
  {
    if steps != [] {
      EveryRunKeeps(steps[..|steps| - 1], p);
      StepKeeps(After(steps[..|steps| - 1], p), steps[|steps| - 1], p);
    }
  }

  lemma {:induction false} RunIsOnward(steps: seq<Step>, n: nat, p: Policy, id: string)
    requires n <= |steps|
    ensures DeviceOnward(After(steps[..n], p).devices, After(steps, p).devices, id)
    ensures ChallengeOnward(After(steps[..n], p).challenges, After(steps, p).challenges, id)
  {
    if n == |steps| {
      assert steps[..n] == steps;
    } else {
      var prev := steps[..|steps| - 1];
      assert prev[..n] == steps[..n];
      RunIsOnward(prev, n, p, id);
      DeviceStepIsOnward(After(prev, p), steps[|steps| - 1], p, id);
      if id in After(steps[..n], p).devices {
        OutlivesComposes(After(steps[..n], p).devices[id], After(prev, p).devices[id], After(steps, p).devices[id]);
      }
      ChallengeStepIsOnward(After(prev, p), steps[|steps| - 1], p, id);
    }
  }

  // ----- The devices that requests speak for -----

  /** The row a request read, as it was then: registered, and signed out since at most. */
  predicate WasRead(w: World, d: Device) {
    d.id in w.devices && Outlives(d, w.devices[d.id]) && !d.IsSignedOut()
  }

  /** The device a request speaks for, once it has read it. */
  function SpokenFor(r: Request): Option<Device> {
    match r
    case Lookup(ByDevice(d), _, _) => Some(d)
    case Spend(ByDevice(d), _, _, _) => Some(d)
    case Check(ByDevice(d), _, _) => Some(d)
    case Mint(ByDevice(d), _, _) => Some(d)
    case _ => None
  }

  predicate DoorKept(w: World, pid: nat) {
    && (pid in w.requests && SpokenFor(w.requests[pid]).Some? ==> WasRead(w, SpokenFor(w.requests[pid]).value))
    && (pid in w.minted && w.minted[pid].door.ByDevice? ==> WasRead(w, w.minted[pid].door.device))
  }

  lemma ReadStaysRead(w: World, step: Step, p: Policy, d: Device)
    requires WasRead(w, d)
    ensures WasRead(Next(w, step, p), d)
  {
    DeviceStepIsOnward(w, step, p, d.id);
    OutlivesComposes(d, w.devices[d.id], Next(w, step, p).devices[d.id]);
  }

  lemma SpokenForComesFrom(w: World, step: Step, p: Policy, pid: nat, d: Device)
    requires IdsMatch(w.devices)
    requires pid in Next(w, step, p).requests && SpokenFor(Next(w, step, p).requests[pid]) == Some(d)
    ensures (pid in w.requests && SpokenFor(w.requests[pid]) == Some(d))
            || (d.id in w.devices && w.devices[d.id] == d && !d.IsSignedOut())
  {
  }

  lemma SessionDoorComesFrom(w: World, step: Step, p: Policy, pid: nat, d: Device)
    requires pid in Next(w, step, p).minted && Next(w, step, p).minted[pid].door == ByDevice(d)
    ensures (pid in w.minted && w.minted[pid].door == ByDevice(d))
            || (pid in w.requests && SpokenFor(w.requests[pid]) == Some(d))
  {
  }

  lemma StepKeepsDoor(w: World, step: Step, p: Policy, pid: nat)
    requires DoorKept(w, pid) && IdsMatch(w.devices)
    ensures DoorKept(Next(w, step, p), pid)
  {
    forall d | pid in Next(w, step, p).requests && SpokenFor(Next(w, step, p).requests[pid]) == Some(d)
      ensures WasRead(Next(w, step, p), d)
    {
      SpokenForComesFrom(w, step, p, pid, d);
      ReadStaysRead(w, step, p, d);
    }
    forall d | pid in Next(w, step, p).minted && Next(w, step, p).minted[pid].door == ByDevice(d)
      ensures WasRead(Next(w, step, p), d)
    {
      SessionDoorComesFrom(w, step, p, pid, d);
      ReadStaysRead(w, step, p, d);
    }
  }

  /** Every device that a request or a session speaks for is the registered row of its id, as it was when live. */
  lemma {:induction false} DoorsAreRegistered(steps: seq<Step>, p: Policy, pid: nat)
    ensures DoorKept(After(steps, p), pid)
  {
    if steps != [] {
      DoorsAreRegistered(steps[..|steps| - 1], p, pid);
      DeviceIdsMatch(steps[..|steps| - 1], p);
      StepKeepsDoor(After(steps[..|steps| - 1], p), steps[|steps| - 1], p, pid);
    }
  }

  // ----- Whose sessions the device door gives -----

  /** A device challenge is for the subject of the device it names. */
  predicate NamesItsOwner(w: World, c: Challenge) {
    c.kind == KindDevice ==> c.deviceID in w.devices && w.devices[c.deviceID].subject == c.subject
  }

  /** The application stored a challenge under this id itself. */
  predicate ByApplication(steps: seq<Step>, id: string) {
    exists n :: 0 <= n < |steps| && steps[n].Create? && steps[n].challenge.id == id
  }

  predicate DraftKept(w: World, pid: nat) {
    pid in w.requests && w.requests[pid].Issue? ==> NamesItsOwner(w, w.requests[pid].draft)
  }

  lemma OwnerStays(w: World, step: Step, p: Policy, c: Challenge)
    requires NamesItsOwner(w, c)
    ensures NamesItsOwner(Next(w, step, p), c)
  {
    DeviceStepIsOnward(w, step, p, c.deviceID);
  }

  lemma IssuedDraftIsTheOwners(w: World, r: Request, now: int, fails: bool, p: Policy)
    requires IdsMatch(w.devices) && Onto(w, r, now, fails, p).Issue?
    ensures NamesItsOwner(w, Onto(w, r, now, fails, p).draft)
  {
  }

  lemma ArrivingDraftIsForRecovery(w: World, step: Step, p: Policy, pid: nat)
    requires pid !in w.requests && pid in Next(w, step, p).requests && Next(w, step, p).requests[pid].Issue?
    ensures Next(w, step, p).requests[pid].draft.kind == KindRecovery
  {
  }

  lemma DraftComesFrom(w: World, step: Step, p: Policy, pid: nat, c: Challenge)
    requires IdsMatch(w.devices)
    requires pid in Next(w, step, p).requests && Next(w, step, p).requests[pid].Issue?
    requires Next(w, step, p).requests[pid].draft == c
    ensures (pid in w.requests && w.requests[pid].Issue? && w.requests[pid].draft == c) || NamesItsOwner(w, c)
  {
    if pid !in w.requests {
      ArrivingDraftIsForRecovery(w, step, p, pid);
    } else if step.Advance? && step.pid == pid {
      assert Next(w, step, p).requests[pid] == Onto(w, w.requests[pid], step.now, step.fails, p);
      IssuedDraftIsTheOwners(w, w.requests[pid], step.now, step.fails, p);
    } else {
      OthersLeaveARequest(w, step, p, pid);
    }
  }

  lemma {:induction false} DraftsNameTheirOwners(steps: seq<Step>, p: Policy, pid: nat)
    ensures DraftKept(After(steps, p), pid)
  {
    if steps != [] {
      var prev, step := steps[..|steps| - 1], steps[|steps| - 1];
      DraftsNameTheirOwners(prev, p, pid);
      DeviceIdsMatch(prev, p);
      forall c | pid in After(steps, p).requests && After(steps, p).requests[pid].Issue?
                 && After(steps, p).requests[pid].draft == c
        ensures NamesItsOwner(After(steps, p), c)
      {
        DraftComesFrom(After(prev, p), step, p, pid, c);
        OwnerStays(After(prev, p), step, p, c);
      }
    }
  }

  /** What a stored challenge is one step after: itself or itself spent, the application's, or one just issued. */
  lemma ChallengeComesFrom(w: World, step: Step, p: Policy, id: string)
    requires id in Next(w, step, p).challenges
    ensures var c := Next(w, step, p).challenges[id];
            || (id in w.challenges && ChallengeOutlives(w.challenges[id], c))
            || (step.Create? && step.challenge.id == id)
            || (&& step.Advance? && step.pid in w.requests && w.requests[step.pid].Issue?
                && c == Issued(w.requests[step.pid].draft, w.requests[step.pid].newID, step.now))
  {
  }

  /** Every device challenge is for the subject of the device it names, but for those the application stored itself. */
  lemma {:induction false} DeviceChallengesNameTheirOwners(steps: seq<Step>, p: Policy, id: string)
    requires id in After(steps, p).challenges && !ByApplication(steps, id)
    ensures NamesItsOwner(After(steps, p), After(steps, p).challenges[id])
  {
    var prev, step := steps[..|steps| - 1], steps[|steps| - 1];
    var w := After(prev, p);
    ChallengeComesFrom(w, step, p, id);
    assert forall n :: 0 <= n < |prev| ==> prev[n] == steps[n];
    if id in w.challenges && ChallengeOutlives(w.challenges[id], After(steps, p).challenges[id]) {
      DeviceChallengesNameTheirOwners(prev, p, id);
      OwnerStays(w, step, p, w.challenges[id]);
    } else {
      DraftsNameTheirOwners(prev, p, step.pid);
      OwnerStays(w, step, p, w.requests[step.pid].draft);
    }
  }

  /** A device session is for the subject of the device that answered, which DeviceVerify never compares. */
  lemma {:induction false} DeviceSessionsAreForTheOwner(steps: seq<Step>, p: Policy, pid: nat)
    requires pid in After(steps, p).minted && After(steps, p).minted[pid].door.ByDevice?
    requires !ByApplication(steps, After(steps, p).minted[pid].challenge.id)
    ensures var w, s := After(steps, p), After(steps, p).minted[pid];
            s.challenge.deviceID in w.devices && s.subject == w.devices[s.challenge.deviceID].subject
  {
    SessionsComeFromSpentChallenges(steps, p, pid);
    DeviceChallengesNameTheirOwners(steps, p, After(steps, p).minted[pid].challenge.id);
  }

  // ----- A challenge is spent once -----

  /** However calls interleave, each half of ConsumeChallenge answers as one indivisible consumption would
      at that moment: the read when it refuses, the write when it is reached. */
  lemma {:induction false} ConsumptionLinearizes(steps: seq<Step>, p: Policy, pid: nat)
    requires pid in After(steps, p).requests
    ensures var w := After(steps, p);
            match w.requests[pid]
            case Lookup(_, id, _) =>
              forall now :: Looked(w.challenges, id, now).Err? ==>
                              Consume(w.challenges, id, now) == (Err(Looked(w.challenges, id, now).error), w.challenges)
            case Spend(_, held, _, now) =>
              Consume(w.challenges, held.id, now)
              == if Flips(w.challenges, held.id) then (Ok(held.(consumed := true)), Flipped(w.challenges, held.id))
                 else (Err(NotFound), w.challenges)
            case _ => true
  {
    var w := After(steps, p);
    EveryRunKeeps(steps, p);
    assert RequestKept(w, pid, p);
    if w.requests[pid].Spend? {
      assert ChallengeKept(w, w.requests[pid].held.id);
    }
  }

  /** The n-th step is a guarded write that flips the challenge. */
  predicate FlipsAt(steps: seq<Step>, n: nat, id: string, p: Policy)
    requires n < |steps|
  {
    var w := After(steps[..n], p);
    && steps[n].Advance? && steps[n].pid in w.requests
    && Flipping(w, w.requests[steps[n].pid], steps[n].fails) && w.requests[steps[n].pid].held.id == id
  }

  /** No two steps of a run flip one challenge. */
  lemma {:induction false} FlippedOnce(steps: seq<Step>, m: nat, n: nat, id: string, p: Policy)
    requires m <= n < |steps| && FlipsAt(steps, m, id, p) && FlipsAt(steps, n, id, p)
    ensures m == n
  {
    if m < n {
      var before := steps[..n];
      assert before[..m] == steps[..m] && before[..m + 1] == steps[..m + 1] && steps[..m + 1][..m] == steps[..m];
      RunIsOnward(before, m + 1, p, id);
    }
  }

  /** Each session comes from a spent challenge of its door's own kind, for the subject stored on it, and with an
      answer accepted for the key of the device registered under the challenge's device id. */
  lemma {:induction false} SessionsComeFromSpentChallenges(steps: seq<Step>, p: Policy, pid: nat)
    requires pid in After(steps, p).minted
    ensures var w, s := After(steps, p), After(steps, p).minted[pid];
            && s.challenge.id in w.challenges && w.challenges[s.challenge.id] == s.challenge
            && s.challenge.consumed
            && s.subject == s.challenge.subject
            && match s.door
               case ByRecovery => s.challenge.kind == KindRecovery && s.offered == s.challenge.secret
               case ByDevice(d) =>
                 && s.challenge.kind == KindDevice && s.challenge.deviceID in w.devices && s.offered != ""
                 && d.id == s.challenge.deviceID && Outlives(d, w.devices[d.id]) && !d.IsSignedOut()
                 && (p.allowUnsigned || p.proves(w.devices[d.id].publicKey, s.challenge.secret, s.offered))
  {
    EveryRunKeeps(steps, p);
    DoorsAreRegistered(steps, p, pid);
    assert MintKept(After(steps, p), pid, p);
  }

  /** No two sessions come from one challenge. */
  lemma {:induction false} OneChallengeAtMostOneSession(steps: seq<Step>, p: Policy, a: nat, b: nat)
    requires a in After(steps, p).minted && b in After(steps, p).minted && a != b
    ensures After(steps, p).minted[a].challenge.id != After(steps, p).minted[b].challenge.id
  {
    EveryRunKeeps(steps, p);
    assert MintKept(After(steps, p), a, p) && MintKept(After(steps, p), b, p);
  }

  lemma {:induction false} OneChallengeAtMostOneComparison(steps: seq<Step>, p: Policy, id: string)
    ensures After(steps, p).compared[id] <= 1
    ensures id in After(steps, p).compared ==>
              id in After(steps, p).challenges && After(steps, p).challenges[id].consumed
  {
    EveryRunKeeps(steps, p);
    assert ChallengeKept(After(steps, p), id);
  }

  /** No session without its comparison, but for the bypass: exactly one for its challenge. */
  lemma {:induction false} SessionsWereCompared(steps: seq<Step>, p: Policy, pid: nat)
    requires pid in After(steps, p).minted
    requires After(steps, p).minted[pid].door.ByRecovery? || !p.allowUnsigned
    ensures After(steps, p).compared[After(steps, p).minted[pid].challenge.id] == 1
  {
    EveryRunKeeps(steps, p);
    assert MintKept(After(steps, p), pid, p);
    OneChallengeAtMostOneComparison(steps, p, After(steps, p).minted[pid].challenge.id);
  }

  /** A challenge once spent, by a right answer or a wrong one, is refused ever after. */
  lemma {:induction false} SpentIsRefusedForever(steps: seq<Step>, n: nat, p: Policy, id: string, now: int)
    requires n <= |steps| && id in After(steps[..n], p).spentBy
    ensures Looked(After(steps, p).challenges, id, now) == Err(NotFound)
  {
    EveryRunKeeps(steps[..n], p);
    assert ChallengeKept(After(steps[..n], p), id);
    RunIsOnward(steps, n, p, id);
  }

  // ----- Signed-out devices -----

  /** An ended device keeps its instant and reason through every later step. */
  lemma {:induction false} SignedOutForever(steps: seq<Step>, n: nat, p: Policy, id: string)
    requires n <= |steps| && id in After(steps[..n], p).devices
    ensures id in After(steps, p).devices && Outlives(After(steps[..n], p).devices[id], After(steps, p).devices[id])
  {
    RunIsOnward(steps, n, p, id);
  }

  function Speaks(r: Request): Option<string> {
    if SpokenFor(r).Some? then Some(SpokenFor(r).value.id) else None
  }

  /** The request does not speak for the device and has no session for it. */
  predicate Silent(w: World, id: string, pid: nat) {
    && (pid in w.requests ==> Speaks(w.requests[pid]) != Some(id))
    && (pid in w.minted && w.minted[pid].door.ByDevice? ==> w.minted[pid].door.device.id != id)
  }

  lemma StepKeepsSilence(w: World, step: Step, p: Policy, id: string, pid: nat)
    requires Silent(w, id, pid) && id in w.devices && w.devices[id].IsSignedOut() && IdsMatch(w.devices)
    ensures Silent(Next(w, step, p), id, pid)
  {
  }

  lemma {:induction false} DeviceIdsMatch(steps: seq<Step>, p: Policy)
    ensures IdsMatch(After(steps, p).devices)
  {
    if steps != [] {
      DeviceIdsMatch(steps[..|steps| - 1], p);
      StepKeepsDeviceIds(After(steps[..|steps| - 1], p), steps[|steps| - 1], p);
    }
  }

  lemma StepKeepsDeviceIds(w: World, step: Step, p: Policy)
    requires IdsMatch(w.devices)
    ensures IdsMatch(Next(w, step, p).devices)
  {
  }

  /** A request that has not read the device by its sign-out, arrived or not, never gets a session for it. */
  lemma {:induction false} SignedOutDeviceIsRefused(steps: seq<Step>, n: nat, p: Policy, id: string, pid: nat)
    requires n <= |steps| && id in After(steps[..n], p).devices && After(steps[..n], p).devices[id].IsSignedOut()
    requires Silent(After(steps[..n], p), id, pid)
    ensures Silent(After(steps, p), id, pid)
  {
    if n == |steps| {
      assert steps[..n] == steps;
    } else {
      var prev := steps[..|steps| - 1];
      assert prev[..n] == steps[..n];
      SignedOutDeviceIsRefused(prev, n, p, id, pid);
      SignedOutForever(prev, n, p, id);
      DeviceIdsMatch(prev, p);
      StepKeepsSilence(After(prev, p), steps[|steps| - 1], p, id, pid);
    }
  }

  /** A session minted for a device after its sign-out belongs to a request that had read the device before. */
  lemma {:induction false} LateSessionsHadReadTheDevice(steps: seq<Step>, n: nat, p: Policy, id: string, pid: nat)
    requires n <= |steps| && id in After(steps[..n], p).devices && After(steps[..n], p).devices[id].IsSignedOut()
    requires pid !in After(steps[..n], p).minted && pid in After(steps, p).minted
    requires After(steps, p).minted[pid].door.ByDevice? && After(steps, p).minted[pid].door.device.id == id
    ensures pid in After(steps[..n], p).requests && Speaks(After(steps[..n], p).requests[pid]) == Some(id)
  {
    if Silent(After(steps[..n], p), id, pid) {
      SignedOutDeviceIsRefused(steps, n, p, id, pid);
    }
  }

  // ----- Recovery ejects before it mints -----

  /** Whenever the recovery door has minted, its sweep came first and every device the subject
      held at that sweep is signed out, then and in every later world. */
  lemma {:induction false} RecoveryEjectsBeforeItMints(steps: seq<Step>, n: nat, p: Policy, pid: nat, id: string)
    requires n <= |steps| && pid in After(steps[..n], p).minted && After(steps[..n], p).minted[pid].door.ByRecovery?
    ensures var w := After(steps[..n], p);
            && pid in w.sweeps && w.sweeps[pid].subject == w.minted[pid].subject
            && (id in w.sweeps[pid].held ==> id in After(steps, p).devices && After(steps, p).devices[id].IsSignedOut())
  {
    var w := After(steps[..n], p);
    EveryRunKeeps(steps[..n], p);
    assert MintKept(w, pid, p) && SweepKept(w, pid);
    RunIsOnward(steps, n, p, id);
  }

  /** What a sweep writes down is what it did: all the subject held, and exactly the ones it changed. */
  lemma {:induction false} SweepRecordIsExact(steps: seq<Step>, p: Policy, pid: nat, now: int, id: string)
    requires pid in After(steps, p).requests && After(steps, p).requests[pid].Sweep?
    ensures var w := After(steps, p);
            var t := Next(w, Advance(pid, now, false), p);
            && pid in t.sweeps
            && (id in t.sweeps[pid].held <==> id in w.devices && w.devices[id].subject == t.sweeps[pid].subject)
            && (id in t.sweeps[pid].ended <==> id in w.devices && id in t.devices && t.devices[id] != w.devices[id])
  {
    var w := After(steps, p);
    DeviceIdsMatch(steps, p);
    if id in w.devices {
      SweepEndsExactly(w.devices, w.requests[pid].held.subject, "", now, id);
    }
  }
}
