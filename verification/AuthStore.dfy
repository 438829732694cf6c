/** Devices and challenges: challenge_impl.go and device_impl.go. */
module AuthStore {
  import opened Common
  import Ordering

  const CHALLENGE_LIFE := 300_000_000_000

  const BY_SELF := "self"
  const BY_RECOVERY := "recovery"

  datatype Device = Device(
    id: string, subject: string, publicKey: string, name: string, createdAt: int,
    signedOutAt: Option<int>, signedOutBy: string)
  {
    predicate IsSignedOut() {
      signedOutAt.Some?
    }
  }

  datatype Kind = KindDevice | KindPhone | KindRecovery

  datatype Challenge = Challenge(
    id: string, kind: Kind, deviceID: string, phone: string, secret: string, subject: string,
    expiresAt: int, consumed: bool)
  {
    function Public(): Challenge {
      this.(subject := "")
    }
  }

  datatype AuthError = NotFound | Expired | ReasonRequired | Refused | Conflict

  type Devices = map<string, Device>
  type Challenges = map<string, Challenge>

  /** `^\+[1-9][0-9]{6,14}$` */
  predicate IsE164(s: string) {
    8 <= |s| <= 16 && s[0] == '+' && '1' <= s[1] <= '9' && forall i :: 2 <= i < |s| ==> '0' <= s[i] <= '9'
  }

  /** The declared checks on a device and a challenge. */
  predicate DeviceChecks(d: Device) {
    !Blank(d.id) && !Blank(d.subject) && !Blank(d.publicKey) && d.signedOutBy in {"", BY_SELF, BY_RECOVERY}
  }

  predicate ChallengeChecks(c: Challenge) {
    !Blank(c.id) && !Blank(c.secret) && (c.phone != "" ==> IsE164(c.phone))
  }

  // ----- What each statement does -----

  function Registered(d: Device, minted: string, now: int): Device {
    d.(id := if d.id == "" then minted else d.id, createdAt := if d.createdAt == ZERO_TIME then now else d.createdAt)
  }

  function Issued(c: Challenge, minted: string, now: int): Challenge {
    c.(id := if c.id == "" then minted else c.id,
       expiresAt := if c.expiresAt == ZERO_TIME then now + CHALLENGE_LIFE else c.expiresAt)
  }

  function AfterRegister(m: Devices, d: Device): Devices {
    if DeviceChecks(d) && d.id !in m then m[d.id := d] else m
  }

  predicate Storable(m: Challenges, c: Challenge) {
    ChallengeChecks(c) && c.id !in m
  }

  function AfterCreate(m: Challenges, c: Challenge): Challenges {
    if Storable(m, c) then m[c.id := c] else m
  }

  /** COALESCE: the first instant and the first reason stay. */
  function SignedOut(d: Device, at: int, reason: string): Device {
    d.(signedOutAt := if d.signedOutAt.Some? then d.signedOutAt else Some(at),
       signedOutBy := if d.signedOutBy != "" then d.signedOutBy else reason)
  }

  function AfterSignOut(m: Devices, id: string, at: int, reason: string): Devices {
    if reason != "" && id in m then m[id := SignedOut(m[id], at, reason)] else m
  }

  predicate Ejects(d: Device, subject: string, keep: string) {
    d.subject == subject && !d.IsSignedOut() && (keep == "" || d.id != keep)
  }

  function Ejected(d: Device, at: int): Device {
    d.(signedOutAt := Some(at), signedOutBy := BY_RECOVERY)
  }

  function Swept(m: Devices, subject: string, keep: string, at: int): Devices {
    map id | id in m :: if Ejects(m[id], subject, keep) then Ejected(m[id], at) else m[id]
  }

  /** What a caller may believe: a challenge is spent in one go. */
  function Consume(m: Challenges, id: string, now: int): (Result<Challenge, AuthError>, Challenges) {
    if id !in m || m[id].consumed then (Err(NotFound), m)
    else if now >= m[id].expiresAt then (Err(Expired), m)
    else var c := m[id].(consumed := true); (Ok(c), m[id := c])
  }

  /** The read half: what it finds, or the refusal it settles on. */
  function Looked(m: Challenges, id: string, now: int): Result<Challenge, AuthError> {
    if id !in m || m[id].consumed then Err(NotFound)
    else if now >= m[id].expiresAt then Err(Expired)
    else Ok(m[id])
  }

  /** The guarded half: whether a row was flipped. */
  predicate Flips(m: Challenges, id: string) {
    id in m && !m[id].consumed
  }

  function Flipped(m: Challenges, id: string): Challenges {
    if Flips(m, id) then m[id := m[id].(consumed := true)] else m
  }

  // ----- What a device's life keeps -----

  predicate IdsMatch(m: Devices) {
    forall id :: id in m ==> m[id].id == id
  }

  predicate Paired(d: Device) {
    d.IsSignedOut() <==> d.signedOutBy != ""
  }

  /** Later states of one device: an ended life keeps its instant and reason. */
  predicate Outlives(a: Device, b: Device) {
    && b == a.(signedOutAt := b.signedOutAt, signedOutBy := b.signedOutBy)
    && (a.signedOutAt.Some? ==> b.signedOutAt == a.signedOutAt)
    && (a.signedOutBy != "" && a.signedOutAt.Some? ==> b.signedOutBy == a.signedOutBy)
    && (Paired(a) ==> Paired(b))
  }

  /** Signing out never moves an earlier sign-out, and the device stays signed out. */
  lemma SignOutOutlives(d: Device, at: int, reason: string)
    requires reason != ""
    ensures Outlives(d, SignedOut(d, at, reason)) && SignedOut(d, at, reason).IsSignedOut()
    ensures forall at', reason' :: SignedOut(SignedOut(d, at, reason), at', reason') == SignedOut(d, at, reason)
  {
  }

  /** A sweep ends exactly the subject's live devices but the one kept, at its instant and for its reason, and
      touches nothing else. */
  lemma SweepEndsExactly(m: Devices, subject: string, keep: string, at: int, id: string)
    requires IdsMatch(m)
    ensures var n := Swept(m, subject, keep, at);
            && (id in n <==> id in m)
            && (id in m ==>
                  n[id] == if m[id].subject == subject && m[id].signedOutAt.None? && (keep == "" || id != keep)
                           then m[id].(signedOutAt := Some(at), signedOutBy := "recovery") else m[id])
            && (id in m ==> Outlives(m[id], n[id]))
            && (id in m && m[id].subject == subject && (keep == "" || id != keep) ==> n[id].signedOutAt.Some?)
  {
  }

  // ----- What each operation does, field by field -----

  /** A registration keeps what it is given, but for an empty id and a missing date. */
  lemma RegisterLaw(d: Device, minted: string, now: int)
    ensures Registered(d, minted, now)
            == Device(if d.id == "" then minted else d.id, d.subject, d.publicKey, d.name,
                      if d.createdAt == ZERO_TIME then now else d.createdAt, d.signedOutAt, d.signedOutBy)
  {
  }

  /** The first sign-out writes its instant and reason; a later one writes neither. */
  lemma SignOutLaw(m: Devices, id: string, at: int, reason: string)
    ensures AfterSignOut(m, id, at, reason)
            == if reason == "" || id !in m then m
               else
                 var d := m[id];
                 m[id := Device(d.id, d.subject, d.publicKey, d.name, d.createdAt,
                                if d.signedOutAt.Some? then d.signedOutAt else Some(at),
                                if d.signedOutBy != "" then d.signedOutBy else reason)]
  {
  }

  /** A challenge is stored as asked for, but for an empty id and a missing expiry, which is five minutes on. */
  lemma IssueLaw(c: Challenge, minted: string, now: int)
    ensures Issued(c, minted, now)
            == Challenge(if c.id == "" then minted else c.id, c.kind, c.deviceID, c.phone, c.secret, c.subject,
                         if c.expiresAt == ZERO_TIME then now + 300_000_000_000 else c.expiresAt, c.consumed)
  {
  }

  /** A challenge is spent exactly when it is stored, unconsumed and unexpired, and only its flag changes. */
  lemma ConsumeLaw(m: Challenges, id: string, now: int)
    ensures Consume(m, id, now)
            == if id !in m || m[id].consumed then (Err(NotFound), m)
               else if m[id].expiresAt <= now then (Err(Expired), m)
               else
                 var c := m[id];
                 var spent := Challenge(c.id, c.kind, c.deviceID, c.phone, c.secret, c.subject, c.expiresAt, true);
                 (Ok(spent), m[id := spent])
  {
  }

  lemma OutlivesComposes(a: Device, b: Device, c: Device)
    requires Outlives(a, b) && Outlives(b, c)
    ensures Outlives(a, c)
  {
  }

  predicate IdBefore(a: Device, b: Device) {
    Before(a.id, b.id)
  }

  lemma IdOrderIsTransitive()
    ensures Ordering.Transitive(IdBefore)
  {
    forall a, b, c | IdBefore(a, b) && IdBefore(b, c) ensures IdBefore(a, c) {
      BeforeIsTransitive(a.id, b.id, c.id);
    }
  }

  lemma InsertDevice(d: Device, out: seq<Device>)
    requires Ordering.Ordered(IdBefore, out) && forall e :: e in out ==> e.id != d.id
    ensures Ordering.Ordered(IdBefore, Ordering.Insert(IdBefore, d, out))
  {
    IdOrderIsTransitive();
    forall e | e in out ensures IdBefore(d, e) || IdBefore(e, d) {
      BeforeIsTotal(d.id, e.id);
    }
    Ordering.InsertKeepsOrder(IdBefore, d, out);
  }

  class Store {
    var devices: Devices
    var challenges: Challenges

    constructor ()
      ensures devices == map[] && challenges == map[]
    {
      devices, challenges := map[], map[];
    }

    method RegisterDevice(d: Device, minted: string, now: int) returns (r: Result<Device, AuthError>)
      modifies this`devices
      ensures var stored := Device(if d.id == "" then minted else d.id, d.subject, d.publicKey, d.name,
                                   if d.createdAt == ZERO_TIME then now else d.createdAt, d.signedOutAt, d.signedOutBy);
              var refused := Blank(stored.id) || Blank(stored.subject) || Blank(stored.publicKey)
                             || stored.signedOutBy !in ["", "self", "recovery"];
              var taken := stored.id in old(devices);
              && r == (if refused then Err(Refused) else if taken then Err(Conflict) else Ok(stored))
              && devices == if refused || taken then old(devices) else old(devices)[stored.id := stored]
      ensures devices == AfterRegister(old(devices), Registered(d, minted, now))
    {
      RegisterLaw(d, minted, now);
      var device := Registered(d, minted, now);
      if !DeviceChecks(device) {
        return Err(Refused);
      }
      if device.id in devices {
        return Err(Conflict);
      }
      devices := devices[device.id := device];
      return Ok(device);
    }

    method GetDevice(id: string) returns (r: Result<Device, AuthError>)
      ensures r == if id in devices then Ok(devices[id]) else Err(NotFound)
    {
      return if id in devices then Ok(devices[id]) else Err(NotFound);
    }

    method SignOutDevice(id: string, at: int, reason: string, now: int) returns (r: Result<Device, AuthError>)
      modifies this`devices
      ensures reason == "" ==> r == Err(ReasonRequired)
      ensures reason != "" && id !in old(devices) ==> r == Err(NotFound)
      ensures r.Err? ==> devices == old(devices)
      ensures reason != "" && id in old(devices) ==>
                var d := old(devices)[id];
                var when := if at == ZERO_TIME then now else at;
                && r == Ok(Device(d.id, d.subject, d.publicKey, d.name, d.createdAt,
                                  if d.signedOutAt.Some? then d.signedOutAt else Some(when),
                                  if d.signedOutBy != "" then d.signedOutBy else reason))
                && devices == old(devices)[id := r.value]
      ensures devices == AfterSignOut(old(devices), id, if at == ZERO_TIME then now else at, reason)
    {
      if reason == "" {
        return Err(ReasonRequired);
      }
      var when := if at == ZERO_TIME then now else at;
      SignOutLaw(devices, id, when, reason);
      if id !in devices {
        return Err(NotFound);
      }
      devices := devices[id := SignedOut(devices[id], when, reason)];
      return Ok(devices[id]);
    }

    /** One transaction: select the subject's live devices, stamp them, answer with what was stamped. */
    method SignOutOtherDevices(subject: string, keepID: string, at: int, now: int) returns (out: seq<Device>)
      requires IdsMatch(devices)
      modifies this`devices
      ensures devices == Swept(old(devices), subject, keepID, if at == ZERO_TIME then now else at)
      ensures devices.Keys == old(devices).Keys
      ensures forall id :: id in devices ==>
                             var d := old(devices)[id];
                             var when := if at == ZERO_TIME then now else at;
                             devices[id]
                             == if d.subject == subject && d.signedOutAt.None? && (keepID == "" || id != keepID)
                                then d.(signedOutAt := Some(when), signedOutBy := "recovery")
                                else d
      ensures forall i, j :: 0 <= i < j < |out| ==> Before(out[i].id, out[j].id)
      ensures forall d :: d in out <==> d.id in devices && devices[d.id] == d && old(devices)[d.id] != d
    {
      var when := if at == ZERO_TIME then now else at;
      var live := LiveDevices(subject, keepID);
      ghost var before := devices;
      for i := 0 to |live|
        invariant devices.Keys == before.Keys
        invariant forall id :: id in before ==>
                                 devices[id]
                                 == if before[id] in live[..i] then Ejected(before[id], when) else before[id]
      {
        devices := devices[live[i].id := Ejected(live[i], when)];
      }
      assert live[..|live|] == live;
      assert forall id :: id in before ==>
                            before[id].id == id && (before[id] in live <==> Ejects(before[id], subject, keepID));
      assert devices == Swept(before, subject, keepID, when);
      out := InOrder(live, when);
      forall i, j | 0 <= i < j < |out| ensures Before(out[i].id, out[j].id) {
        assert IdBefore(out[i], out[j]);
      }
      forall id ensures id in devices ==> (devices[id] != before[id] <==> Ejects(before[id], subject, keepID)) {
        SweepEndsExactly(before, subject, keepID, when, id);
      }
      forall d ensures d in out <==> d.id in devices && devices[d.id] == d && before[d.id] != d {
        if d in out {
          var e :| e in live && d == Ejected(e, when);
        }
        if d.id in before && before[d.id] in live && devices[d.id] == d {
          assert d == Ejected(before[d.id], when);
        }
      }
    }

    /** The answer: the devices as they were stamped, by id. */
    method InOrder(live: seq<Device>, when: int) returns (out: seq<Device>)
      requires forall i, j :: 0 <= i < j < |live| ==> live[i].id != live[j].id
      ensures Ordering.Ordered(IdBefore, out)
      ensures forall d :: d in out <==> exists e :: e in live && d == Ejected(e, when)
    {
      out := [];
      for i := 0 to |live|
        invariant Ordering.Ordered(IdBefore, out)
        invariant forall d :: d in out <==> exists e :: e in live[..i] && d == Ejected(e, when)
      {
        forall d | d in out ensures d.id != live[i].id {
          var e :| e in live[..i] && d == Ejected(e, when);
          var j :| 0 <= j < i && live[j] == e;
        }
        InsertDevice(Ejected(live[i], when), out);
        out := Ordering.Insert(IdBefore, Ejected(live[i], when), out);
      }
      assert live[..|live|] == live;
    }

    method LiveDevices(subject: string, keepID: string) returns (live: seq<Device>)
      requires IdsMatch(devices)
      ensures forall d :: d in live <==> d.id in devices && devices[d.id] == d && Ejects(d, subject, keepID)
      ensures forall i, j :: 0 <= i < j < |live| ==> live[i].id != live[j].id
    {
      live := [];
      var todo := devices.Keys;
      while todo != {}
        invariant todo <= devices.Keys
        invariant forall d :: d in live
                              <==> d.id in devices.Keys - todo && devices[d.id] == d && Ejects(d, subject, keepID)
        invariant forall i, j :: 0 <= i < j < |live| ==> live[i].id != live[j].id
        decreases todo
      {
        var k :| k in todo;
        todo := todo - {k};
        if Ejects(devices[k], subject, keepID) {
          assert forall i :: 0 <= i < |live| ==> live[i] in live;
          live := live + [devices[k]];
        }
      }
    }

    method CreateChallenge(c: Challenge, minted: string, now: int) returns (r: Result<Challenge, AuthError>)
      modifies this`challenges
      ensures var until := if c.expiresAt == ZERO_TIME then now + 300_000_000_000 else c.expiresAt;
              var stored := Challenge(if c.id == "" then minted else c.id, c.kind, c.deviceID, c.phone, c.secret,
                                      c.subject, until, c.consumed);
              var refused := Blank(stored.id) || Blank(stored.secret) || (stored.phone != "" && !IsE164(stored.phone));
              var taken := stored.id in old(challenges);
              && r == (if refused then Err(Refused) else if taken then Err(Conflict) else Ok(stored))
              && challenges == if refused || taken then old(challenges) else old(challenges)[stored.id := stored]
      ensures challenges == AfterCreate(old(challenges), Issued(c, minted, now))
      ensures r.Ok? <==> Storable(old(challenges), Issued(c, minted, now))
      ensures r.Ok? ==> r.value == Issued(c, minted, now)
    {
      IssueLaw(c, minted, now);
      var challenge := Issued(c, minted, now);
      if !ChallengeChecks(challenge) {
        return Err(Refused);
      }
      if challenge.id in challenges {
        return Err(Conflict);
      }
      challenges := challenges[challenge.id := challenge];
      return Ok(challenge);
    }

    /** Read, then a guarded write; run alone it spends the challenge in one go. */
    method ConsumeChallenge(id: string, now: int) returns (r: Result<Challenge, AuthError>)
      modifies this`challenges
      ensures id !in old(challenges) || old(challenges)[id].consumed ==> r == Err(NotFound)
      ensures id in old(challenges) && !old(challenges)[id].consumed && old(challenges)[id].expiresAt <= now ==>
                r == Err(Expired)
      ensures id in old(challenges) && !old(challenges)[id].consumed && now < old(challenges)[id].expiresAt ==>
                r == Ok(old(challenges)[id].(consumed := true)) && challenges == old(challenges)[id := r.value]
      ensures r.Err? ==> challenges == old(challenges)
      ensures (r, challenges) == Consume(old(challenges), id, now)
    {
      ConsumeLaw(challenges, id, now);
      if id !in challenges {
        return Err(NotFound);
      }
      var held := challenges[id];
      if held.consumed {
        return Err(NotFound);
      }
      if !(now < held.expiresAt) {
        return Err(Expired);
      }
      var hit := Flips(challenges, id);
      challenges := Flipped(challenges, id);
      if !hit {
        return Err(NotFound);
      }
      return Ok(held.(consumed := true));
    }
  }
}
