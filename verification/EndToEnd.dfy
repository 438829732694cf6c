/** The doors with the codecs they stand on: what a session takes, down to the bytes. */
module EndToEnd {
  import opened Common
  import AuthDoors
  import AuthHandlers
  import KeyMaterial
  import OperatorDoor
  import PasswordVerifier

  /** The device door as the module runs it: VerifyDeviceProof, and no bypass. */
  function SignedPolicy(ed25519: KeyMaterial.Ed25519): AuthDoors.Policy {
    AuthDoors.Policy(
      (key: string, nonce: string, signature: string) => KeyMaterial.ProofOf(ed25519, key, nonce, signature).Valid?,
      false)
  }

  /** Every session of the device door rests on a signature, by the 32-byte key of the device registered under the
      challenge's device id, over the secret of that challenge, which this request alone has spent. */
  lemma {:induction false} DeviceSessionsAreSigned(steps: seq<AuthDoors.Step>, ed25519: KeyMaterial.Ed25519, pid: nat)
    requires pid in AuthDoors.After(steps, SignedPolicy(ed25519)).minted
    requires AuthDoors.After(steps, SignedPolicy(ed25519)).minted[pid].door.ByDevice?
    ensures var w := AuthDoors.After(steps, SignedPolicy(ed25519));
            var s := w.minted[pid];
            && s.challenge.deviceID in w.devices
            && var pub := KeyMaterial.Material(w.devices[s.challenge.deviceID].publicKey, 32);
            var sig := KeyMaterial.Material(s.offered, 64);
            && pub.Some? && sig.Some? && ed25519(pub.value, s.challenge.secret, sig.value)
            && s.challenge.consumed && s.challenge.id in w.challenges && w.challenges[s.challenge.id] == s.challenge
            && s.subject == s.challenge.subject
  {
    AuthDoors.SessionsComeFromSpentChallenges(steps, SignedPolicy(ed25519), pid);
  }

  /** And the door opens for exactly those signatures: a request that meets no other gets a session if and only if the
      device is stored and not signed out, its own device challenge is stored, unspent and unexpired, and the answer
      is 64 bytes of a signature that Ed25519 accepts, by the device's 32-byte key, over the challenge's secret. */
  lemma {:induction false} SignedRequestOpensTheDoor(
    steps: seq<AuthDoors.Step>, ed25519: KeyMaterial.Ed25519, pid: nat,
    deviceID: string, challengeID: string, signature: string, now: int)
    requires pid !in AuthDoors.After(steps, SignedPolicy(ed25519)).requests
    ensures var p := SignedPolicy(ed25519);
            var w := AuthDoors.After(steps, p);
            var t := AuthDoors.Next(w, AuthDoors.Step.DeviceVerify(pid, deviceID, challengeID, signature), p);
            && pid in t.requests
            && var e := AuthHandlers.Finish(t, pid, now, p, AuthHandlers.Faults(false, false));
            e.requests == w.requests[pid := AuthDoors.Answered(201)]
            <==> && deviceID in w.devices && w.devices[deviceID].signedOutAt.None?
                 && challengeID in w.challenges
                 && var c := w.challenges[challengeID];
                 && !c.consumed && now < c.expiresAt && c.kind.KindDevice? && c.deviceID == deviceID
                 && var pub := KeyMaterial.Material(w.devices[deviceID].publicKey, 32);
                 var sig := KeyMaterial.Material(signature, 64);
                 && pub.Some? && sig.Some? && ed25519(pub.value, c.secret, sig.value)
  {
    var p := SignedPolicy(ed25519);
    var w := AuthDoors.After(steps, p);
    AuthHandlers.DeviceDoorOpensExactly(steps, p, pid, deviceID, challengeID, signature, now);
    assert w.requests[pid := AuthDoors.Answered(201)][pid] != w.requests[pid := AuthDoors.Answered(401)][pid];
    assert KeyMaterial.Material("", 64).None?;
  }

  /** Verify's two results, as the sign-in handler reads them. */
  function VerdictOf(derive: PasswordVerifier.Derive): OperatorDoor.Verify {
    (hash: string, password: string) =>
      match PasswordVerifier.Verify(derive, hash, password)
      case Matches => OperatorDoor.Match
      case Differs => OperatorDoor.Mismatch
      case BadVerifier => OperatorDoor.Unreadable
      case VerifyPanics => OperatorDoor.Panics
  }

  /** A sign-in is aborted without an answer exactly when the address's enabled credential holds a verifier of no
      passes, no lanes or an empty key, whatever the password. */
  lemma SignInAbortsExactly(c: OperatorDoor.Credentials, derive: PasswordVerifier.Derive, r: OperatorDoor.SignIn)
    requires PasswordVerifier.Derives(derive)
    ensures OperatorDoor.Aborts(c, VerdictOf(derive), r)
            <==> && r.email in c && !c[r.email].disabled
                 && exists v :: PasswordVerifier.Spells(c[r.email].hash, v)
                                && (v.time == 0 || v.threads == 0 || v.key == [])
  {
    if r.email in c {
      PasswordVerifier.PanicsExactly(derive, c[r.email].hash, r.password);
    }
  }

  /** The address holds an enabled credential whose hash was made from this password and salt. */
  predicate Enrolled(
    c: OperatorDoor.Credentials, derive: PasswordVerifier.Derive, email: string, password: string, salt: seq<byte>)
  {
    && email in c && !c[email].disabled && |salt| == PasswordVerifier.ARGON_SALT_LEN
    && PasswordVerifier.Hash(derive, password, salt) == Ok(c[email].hash)
  }

  lemma EnrolledPasswordMatches(
    c: OperatorDoor.Credentials, derive: PasswordVerifier.Derive, r: OperatorDoor.SignIn,
    password: string, salt: seq<byte>)
    requires PasswordVerifier.Derives(derive) && Enrolled(c, derive, r.email, password, salt)
    ensures OperatorDoor.Matches(c, VerdictOf(derive), r)
            <==> derive(r.password, salt, 1, 65536, 4, 32) == derive(password, salt, 1, 65536, 4, 32)
  {
    PasswordVerifier.HashVerifies(derive, password, salt, r.password);
  }

  /** At any moment an enrolled operator is let in, as the credential's subject, by exactly the passwords
      that derive the stored key, provided the address is not locked at the time. */
  lemma {:induction false} EnrolledOperatorSignsIn(
    c: OperatorDoor.Credentials, derive: PasswordVerifier.Derive, past: seq<OperatorDoor.Visit>,
    r: OperatorDoor.SignIn, password: string, salt: seq<byte>)
    requires PasswordVerifier.Derives(derive) && Enrolled(c, derive, r.email, password, salt)
             && OperatorDoor.WellFormed(r)
    ensures var m := OperatorDoor.Run(map[], VerdictOf(derive), past);
            OperatorDoor.AnswerTo(m, c, VerdictOf(derive), r, false) == OperatorDoor.SignedIn(c[r.email].subject)
            <==> && !OperatorDoor.AttemptFor(m, r.email).Locked(r.now)
                 && derive(r.password, salt, 1, 65536, 4, 32) == derive(password, salt, 1, 65536, 4, 32)
  {
    EnrolledPasswordMatches(c, derive, r, password, salt);
    OperatorDoor.SignsInExactly(OperatorDoor.Run(map[], VerdictOf(derive), past), c, VerdictOf(derive), r);
  }
}
