/**
 A captured handle and assertion on the stateless store, step by step: begin, finish, and the same
 finish again, verified by the standard engine.
 */
module StatelessReplay {
  import opened Prelude
  import opened Domain
  import opened Json
  import opened Repository
  import opened Ceremony
  import opened StandardEngine
  import opened EndToEnd
  import AuthenticatorData
  import A = Authenticator
  import Agreement
  import Codec
  import Counters
  import S = StatelessStore
  import SA = StatelessAgreement

  /** What the run is about: a user, a device key under an id, and the two challenges drawn. */
  datatype Case = Case(user: User, id: Bytes, key: nat, first: Bytes, second: Bytes, count: nat)

  ghost predicate Possible(x: Setting, y: Case) {
    Suits(x) && |y.id| < AuthenticatorData.ID_LIMIT && y.count < AuthenticatorData.COUNT_LIMIT && y.first != y.second
  }

  function Enrolment(x: Setting, y: Case): Challenge {
    RegistrationChallenge(y.first, y.user, 0, x.config.challengeTtl)
  }

  function Login(x: Setting, y: Case): Challenge {
    AuthenticationChallenge(y.second, None, 0, x.config.challengeTtl)
  }

  function KeyOf(x: Setting, y: Case): A.StoredKey {
    A.StoredKey(y.id, y.key, [], x.rp.rpId, 0)
  }

  /** The calls, given the device's two responses. */
  function Calls(x: Setting, y: Case, mac: S.Mac, attestation: Fields, assertion: Fields): seq<Call> {
    var enrol, login := S.Put(Enrolment(x, y), mac), S.Put(Login(x, y), mac);
    [Call(RegisterBegin(y.user, y.first, enrol), None),
     Call(RegisterFinish(attestation, enrol, []), Some(Codec.Received(Enrolment(x, y)))),
     Call(AuthenticateBegin(None, y.second, login), None),
     Call(AuthenticateFinish(assertion, login), Some(Codec.Received(Login(x, y)))),
     Call(AuthenticateFinish(assertion, login), Some(Codec.Received(Login(x, y))))]
  }

  ghost predicate Responses(x: Setting, y: Case, attestation: Fields, assertion: Fields) {
    && AuthenticatorData.Encodable(A.AttestationData(x.crypto, x.traits, x.aaguid, x.rp.rpId, y.id, y.key))
    && attestation == A.Envelope(y.id, A.AttestationInner(A.ClientData(A.TYPE_CREATE, y.first, x.origin),
         x.crypto.wrap(AuthenticatorData.Layout(A.AttestationData(x.crypto, x.traits, x.aaguid, x.rp.rpId, y.id, y.key)))))
    && AuthenticatorData.Encodable(A.AssertionData(x.crypto, x.traits, x.rp.rpId, y.count))
    && assertion == A.AssertionResponse(x.crypto, x.traits, KeyOf(x, y), x.rp.rpId, y.second, x.origin, y.count)
  }

  /** What the engine says to them. */
  lemma EngineAccepts(x: Setting, y: Case, attestation: Fields, assertion: Fields)
    requires Possible(x, y) && Responses(x, y, attestation, assertion)
    ensures var v := EnvOf(x).verifyRegistration(attestation, y.first);
            && v.Ok? && v.value.credentialId == y.id && v.value.signCount == 0
            && forall c: Credential :: c.publicKey == v.value.publicKey ==>
                 EnvOf(x).verifyAuthentication(assertion, y.second, c) == Ok(VerifiedAuthentication(y.id, y.count, x.traits.userVerified))
    ensures CredentialIdFrom(assertion) == Some(y.id)
  {
    hide VerifyAssertion, VerifyAttestation, CredentialIdFrom;
    AttestationVerifies(x.rp, x.crypto, x.traits, x.aaguid, y.first, x.origin, y.key, y.id);
    forall c: Credential | c.publicKey == x.crypto.publicKey(y.key)
      ensures EnvOf(x).verifyAuthentication(assertion, y.second, c) == Ok(VerifiedAuthentication(y.id, y.count, x.traits.userVerified))
    {
      AssertionVerifies(x.rp, x.crypto, x.traits, KeyOf(x, y), y.second, x.origin, y.count, c);
    }
    AssertionCarries(x.rp, x.crypto, x.traits, KeyOf(x, y), x.rp.rpId, y.second, x.origin, y.count, y.second,
                     Credential(y.id, [], [], 0, [], None, false, false, [], false, None, None, None));
  }

  /** On a server that holds one credential: an unbound login that the engine accepts succeeds iff its count advances. */
  lemma OneCredential(env: Env, w: World, c: Credential, stored: Challenge, response: Fields, v: VerifiedAuthentication)
    requires w.repo == [c] && stored.AuthenticationChallenge? && stored.userId == None
    requires CredentialIdFrom(response) == Some(c.credentialId) && env.verifyAuthentication(response, stored.challenge, c) == Ok(v)
    ensures var r := FinishAuthentication(env, w, Some(stored), response);
            if CountAdvances(c.signCount, v.newSignCount) then
              var c' := c.(signCount := v.newSignCount, lastUsedAt := Some(w.now));
              r.1 == Authenticated(c.userId, c', v.userVerified) && r.0.repo == [c'] && r.0.now == w.now
            else r.1 == Failed(CloneDetectedError)
  {
    hide CredentialIdFrom;
    assert Find(w.repo, c.credentialId) == Some(c);
  }

  /** The registration stores the device's credential. */
  lemma Enrolled(env: Env, x: Setting, y: Case, mac: S.Mac, attestation: Fields, assertion: Fields) returns (c: Credential)
    requires var v := env.verifyRegistration(attestation, y.first); v.Ok? && v.value.credentialId == y.id && v.value.signCount == 0
    ensures c.credentialId == y.id && c.signCount == 0 && c.publicKey == env.verifyRegistration(attestation, y.first).value.publicKey
    ensures var calls := Calls(x, y, mac, attestation, assertion);
            && Run(env, calls[..0]).now == Run(env, calls[..1]).now == Run(env, calls[..2]).now == 0
            && Run(env, calls[..3]).now == 0 && Run(env, calls[..3]).repo == [c]
  {
    hide FinishAuthentication, S.Put;
    var calls := Calls(x, y, mac, attestation, assertion);
    assert calls[..0] == [];
    RunStep(env, calls, 0);
    RunStep(env, calls, 1);
    RunStep(env, calls, 2);
    c := OutcomeAt(env, calls, 1).credential;
  }

  /** What the calls do, with any engine that accepts both responses. */
  lemma CallsRun(env: Env, x: Setting, y: Case, mac: S.Mac, attestation: Fields, assertion: Fields, uv: bool)
    requires var v := env.verifyRegistration(attestation, y.first);
             && v.Ok? && v.value.credentialId == y.id && v.value.signCount == 0
             && forall c: Credential :: c.publicKey == v.value.publicKey ==>
                  env.verifyAuthentication(assertion, y.second, c) == Ok(VerifiedAuthentication(y.id, y.count, uv))
    requires CredentialIdFrom(assertion) == Some(y.id)
    ensures var calls := Calls(x, y, mac, attestation, assertion);
            && (forall i :: 0 <= i <= 4 ==> Run(env, calls[..i]).now == 0)
            && OutcomeAt(env, calls, 3).Authenticated? && OutcomeAt(env, calls, 3).credential.signCount == y.count
            && Counters.StoredThroughout(env, calls, 4, 4, OutcomeAt(env, calls, 3).credential.credentialId)
            && (OutcomeAt(env, calls, 4).Authenticated? <==> y.count == 0)
  {
    hide CredentialIdFrom, FinishAuthentication, FinishRegistration, S.Put, Run;
    var calls := Calls(x, y, mac, attestation, assertion);
    var c := Enrolled(env, x, y, mac, attestation, assertion);
    RunStep(env, calls, 3);
    var v := VerifiedAuthentication(y.id, y.count, uv);
    OneCredential(env, Run(env, calls[..3]), c, calls[3].stored.value, assertion, v);
    OneCredential(env, Run(env, calls[..4]), OutcomeAt(env, calls, 3).credential, calls[4].stored.value, assertion, v);
  }

  /** The calls are a run on the stateless store in which no tag is forged. */
  lemma {:induction false} CallsOnStateless(env: Env, x: Setting, y: Case, mac: S.Mac, attestation: Fields, assertion: Fields)
    requires env.config == x.config
    requires forall i :: 0 <= i <= 4 ==> Run(env, Calls(x, y, mac, attestation, assertion)[..i]).now == 0
    ensures SA.OnStateless(env, Calls(x, y, mac, attestation, assertion), mac)
  {
    hide Run, S.Put, S.Body, S.Presented, S.Consume, Codec.Received;
    var calls := Calls(x, y, mac, attestation, assertion);
    S.ConsumePut(Enrolment(x, y), 0, mac);
    S.ConsumePut(Login(x, y), 0, mac);
    S.PresentedPut(Enrolment(x, y), mac);
    S.PresentedPut(Login(x, y), mac);
    assert SA.SignedAt(env, calls, 0, S.Body(Enrolment(x, y)));
    assert SA.SignedAt(env, calls, 2, S.Body(Login(x, y)));
    forall i | 0 <= i < |calls| && IsFinish(calls[i].op)
      ensures Counters.FromStateless(env, calls, i, mac)
      ensures var p := S.Presented(calls[i].op.handle);
              p.Some? && p.value.1 == mac(p.value.0) ==> exists b :: 0 <= b < i && SA.SignedAt(env, calls, b, p.value.0)
    {
      assert i == 1 || i == 3 || i == 4;
    }
  }

  lemma CallsShape(env: Env, x: Setting, y: Case, mac: S.Mac, attestation: Fields, assertion: Fields)
    requires env.config == x.config && y.first != y.second
    requires forall i :: 0 <= i <= 4 ==> Run(env, Calls(x, y, mac, attestation, assertion)[..i]).now == 0
    ensures var calls := Calls(x, y, mac, attestation, assertion);
            && SA.FreshChallenges(calls)
            && |calls| == 5 && calls[2].op.AuthenticateBegin? && calls[3].op.AuthenticateFinish? && calls[4] == calls[3]
            && calls[2].op.challenge == y.second
            && calls[3].op.handle == calls[2].op.handle == S.Put(SA.Begun(env, calls, 2), mac)
  {
    hide S.Put, Run;
  }

  lemma {:induction false} DeviceResponds(x: Setting, y: Case) returns (attestation: Fields, assertion: Fields)
    requires Possible(x, y)
    ensures Responses(x, y, attestation, assertion)
  {
    AuthenticatorData.FlagsReadBack(x.traits, false);
    AuthenticatorData.FlagsReadBack(x.traits, true);
    attestation := A.Envelope(y.id, A.AttestationInner(A.ClientData(A.TYPE_CREATE, y.first, x.origin),
      x.crypto.wrap(AuthenticatorData.Layout(A.AttestationData(x.crypto, x.traits, x.aaguid, x.rp.rpId, y.id, y.key)))));
    assertion := A.AssertionResponse(x.crypto, x.traits, KeyOf(x, y), x.rp.rpId, y.second, x.origin, y.count);
  }

  /**
   For every possible case: the run takes place on the stateless store under an ideal MAC with fresh
   challenges, the login succeeds with its count, and the replay of its handle and assertion succeeds
   exactly if that count is zero.
   */
  lemma {:induction false} ReplayedIffZero(x: Setting, y: Case, mac: S.Mac) returns (calls: seq<Call>)
    requires Possible(x, y)
    ensures SA.OnStateless(EnvOf(x), calls, mac) && SA.FreshChallenges(calls)
    ensures |calls| == 5 && calls[2].op.AuthenticateBegin? && calls[3].op.AuthenticateFinish? && calls[4] == calls[3]
    ensures calls[2].op.challenge == y.second && calls[3].op.handle == calls[2].op.handle == S.Put(SA.Begun(EnvOf(x), calls, 2), mac)
    ensures OutcomeAt(EnvOf(x), calls, 3).Authenticated? && OutcomeAt(EnvOf(x), calls, 3).credential.signCount == y.count
    ensures Counters.StoredThroughout(EnvOf(x), calls, 4, 4, OutcomeAt(EnvOf(x), calls, 3).credential.credentialId)
    ensures OutcomeAt(EnvOf(x), calls, 4).Authenticated? <==> y.count == 0
  {
    var env := EnvOf(x);
    assert env.config == x.config && y.first != y.second;
    hide *;
    var attestation, assertion := DeviceResponds(x, y);
    EngineAccepts(x, y, attestation, assertion);
    calls := Calls(x, y, mac, attestation, assertion);
    CallsRun(EnvOf(x), x, y, mac, attestation, assertion, x.traits.userVerified);
    CallsShape(EnvOf(x), x, y, mac, attestation, assertion);
    CallsOnStateless(EnvOf(x), x, y, mac, attestation, assertion);
  }

  // ----- the hypotheses can be met -----

  /** Cryptography for a demonstration: a signature is the public key itself, and every key has its own. */
  function Demo(config: Config): Setting {
    Setting(config, RelyingParty([0x72], [[0x6F]], true),
            A.Crypto((b: Bytes) => seq(32, _ => 0), (s: Str) => [], (k: nat) => seq(k, _ => 0),
                     (k: nat, m: Bytes) => seq(k, _ => 0), (pk: Bytes, m: Bytes, s: Bytes) => s == pk,
                     (b: Bytes) => b, (b: Bytes) => Some(b)),
            AuthenticatorData.Traits(true, false, false), seq(16, _ => 0), [0x6F])
  }

  /** The setting of the run is possible, with an engine that meets every hypothesis made of it elsewhere. */
  lemma DemoSuits(config: Config)
    ensures Suits(Demo(config))
    ensures Agreement.Signed(EnvOf(Demo(config)), ChallengeIn,
                             r => SignerIn(Demo(config).crypto, (m: Bytes, s: Bytes) => Some(s), r))
    ensures Counters.CountFromAssertion(EnvOf(Demo(config))) && Counters.VerdictFromKey(EnvOf(Demo(config)))
  {
    var x := Demo(config);
    StandardIsSigned(config, x.rp, x.crypto, (m: Bytes, s: Bytes) => Some(s));
    StandardCountsFromAssertion(config, x.rp, x.crypto);
  }

  /** So there is a run in which the replay of a captured handle is accepted. */
  lemma {:induction false} ReplayHappens(config: Config, mac: S.Mac) returns (calls: seq<Call>)
    ensures SA.OnStateless(EnvOf(Demo(config)), calls, mac) && SA.FreshChallenges(calls)
    ensures |calls| == 5 && calls[3].op.AuthenticateFinish? && calls[4] == calls[3]
    ensures OutcomeAt(EnvOf(Demo(config)), calls, 3).Authenticated? && OutcomeAt(EnvOf(Demo(config)), calls, 4).Authenticated?
  {
    hide SA.OnStateless, OutcomeAt, EnvOf, SA.FreshChallenges;
    DemoSuits(config);
    calls := ReplayedIffZero(Demo(config), Case(User([], [], []), [], 0, [0], [1], 0), mac);
  }
}
