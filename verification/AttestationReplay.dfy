/**
 A captured handle and attestation on the stateless store: begin, finish, a revocation, a pause, and
 the same finish again, verified by the standard engine.
 */
module AttestationReplay {
  import opened Prelude
  import opened Domain
  import opened Json
  import opened Repository
  import opened Ceremony
  import opened StandardEngine
  import opened EndToEnd
  import AuthenticatorData
  import A = Authenticator
  import Base64Url
  import Codec
  import Counters
  import S = StatelessStore
  import SA = StatelessAgreement
  import StatelessReplay

  /** A user and a device key under an id, the challenge drawn, who revokes, and how long it takes until the replay. */
  datatype Case = Case(user: User, id: Bytes, key: nat, challenge: Bytes, revoker: Str, pause: nat)

  function Enrolment(config: Config, y: Case): Challenge {
    RegistrationChallenge(y.challenge, y.user, 0, config.challengeTtl)
  }

  /** The last time at which the token is accepted: its expiry, cut to the second. */
  function Cutoff(config: Config): nat {
    Codec.WholeSeconds(config.challengeTtl) * SECOND
  }

  function Calls(config: Config, y: Case, mac: S.Mac, attestation: Fields): seq<Call> {
    var handle, c := S.Put(Enrolment(config, y), mac), Codec.Received(Enrolment(config, y));
    [Call(RegisterBegin(y.user, y.challenge, handle), None),
     Call(RegisterFinish(attestation, handle, []), Some(c)),
     Call(RevokeCredential(y.revoker, Base64Url.Encode(y.id)), None),
     Call(Advance(y.pause), None),
     Call(RegisterFinish(attestation, handle, []), if y.pause <= Cutoff(config) then Some(c) else None)]
  }

  /** One registration on a known repository. */
  lemma Registers(env: Env, w: World, c: Challenge, response: Fields)
    requires c.RegistrationChallenge? && env.verifyRegistration(response, c.challenge).Ok?
    ensures var v := env.verifyRegistration(response, c.challenge).value;
            var r := FinishRegistration(env, w, Some(c), response, []);
            var n := NewCredential(env.config, v, c.user, [], w.now);
            && (w.repo == [] ==> r.1 == Registered(n) && r.0.repo == [n] && r.0.now == w.now)
            && (|w.repo| == 1 && w.repo[0].credentialId == v.credentialId ==> r.1 == Failed(CredentialAlreadyExists))
  {
    hide NewCredential, Base64Url.Encode;
  }

  /** A revocation of the only credential. */
  lemma Revokes(env: Env, w: World, c: Credential, owner: Str)
    requires w.repo == [c]
    ensures var w' := Step(env, w, RevokeCredential(owner, Base64Url.Encode(c.credentialId)), None).0;
            w'.now == w.now && w'.repo == if owner == c.userId then [] else [c]
  {
    hide Base64Url.Encode, Base64Url.Decode;
    Base64Url.DecodeEncode(c.credentialId);
    assert Find(w.repo, c.credentialId) == Some(c);
    assert Remove(w.repo, c.credentialId) == [];
  }

  lemma FirstCall(env: Env, calls: seq<Call>)
    requires calls != [] && calls[0].op.RegisterBegin?
    ensures Run(env, calls[..0]).now == Run(env, calls[..1]).now == 0 && Run(env, calls[..1]).repo == []
  {
    assert calls[..0] == [];
    RunStep(env, calls, 0);
  }

  lemma NewIs(config: Config, v: VerifiedRegistration, user: User)
    ensures NewCredential(config, v, user, [], 0).credentialId == v.credentialId
  {
  }

  /** The first four calls. */
  lemma BeforeReplay(env: Env, y: Case, mac: S.Mac, attestation: Fields)
    requires var v := env.verifyRegistration(attestation, y.challenge); v.Ok? && v.value.credentialId == y.id
    ensures var calls := Calls(env.config, y, mac, attestation);
            var n := NewCredential(env.config, env.verifyRegistration(attestation, y.challenge).value,
                                   Codec.Received(Enrolment(env.config, y)).user, [], 0);
            && Run(env, calls[..0]).now == Run(env, calls[..1]).now == 0
            && OutcomeAt(env, calls, 1) == Registered(n)
            && Run(env, calls[..4]).now == y.pause
            && Run(env, calls[..4]).repo == if y.revoker == n.userId then [] else [n]
  {
    hide FinishRegistration, S.Put, Base64Url.Encode, Base64Url.Decode, ListByUser, NewCredential;
    var calls := Calls(env.config, y, mac, attestation);
    FirstCall(env, calls);
    var w1 := Run(env, calls[..1]);
    RunStep(env, calls, 1);
    Registers(env, w1, calls[1].stored.value, attestation);
    NewIs(env.config, env.verifyRegistration(attestation, y.challenge).value, calls[1].stored.value.user);
    hide Run;
    RunStep(env, calls, 2);
    var n := OutcomeAt(env, calls, 1).credential;
    Revokes(env, Run(env, calls[..2]), n, y.revoker);
    RunStep(env, calls, 3);
  }

  /** What the calls do, with any engine that accepts the attestation. */
  lemma CallsRun(env: Env, y: Case, mac: S.Mac, attestation: Fields)
    requires var v := env.verifyRegistration(attestation, y.challenge); v.Ok? && v.value.credentialId == y.id
    ensures var calls := Calls(env.config, y, mac, attestation);
            var o, p := OutcomeAt(env, calls, 1), OutcomeAt(env, calls, 4);
            && o.Registered? && o.credential.credentialId == y.id && o.credential.userId == Join(y.user.id)
            && o.credential.publicKey == env.verifyRegistration(attestation, y.challenge).value.publicKey
            && (y.pause > Cutoff(env.config) ==> p == Failed(ChallengeNotFound))
            && (y.pause <= Cutoff(env.config) && y.revoker != Join(y.user.id) ==> p == Failed(CredentialAlreadyExists))
            && (y.pause <= Cutoff(env.config) && y.revoker == Join(y.user.id) ==>
                  p == Registered(o.credential.(createdAt := Some(y.pause))))
  {
    hide S.Put, Base64Url.Encode, Run, OutcomeAt, FinishRegistration;
    var calls := Calls(env.config, y, mac, attestation);
    BeforeReplay(env, y, mac, attestation);
    var w := Run(env, calls[..4]);
    ReplayIs(env, calls, w);
    if y.pause <= Cutoff(env.config) {
      Registers(env, w, calls[4].stored.value, attestation);
    } else {
      Late(env, w, attestation);
    }
  }

  lemma ReplayIs(env: Env, calls: seq<Call>, w: World)
    requires |calls| == 5 && w == Run(env, calls[..4]) && calls[4].op.RegisterFinish?
    ensures OutcomeAt(env, calls, 4) == FinishRegistration(env, w, calls[4].stored, calls[4].op.response, calls[4].op.deviceName).1
  {
    hide Run, FinishRegistration;
  }

  lemma Late(env: Env, w: World, response: Fields)
    ensures FinishRegistration(env, w, None, response, []).1 == Failed(ChallengeNotFound)
  {
  }

  /** The calls are a run on the stateless store in which no tag is forged. */
  lemma {:induction false} CallsOnStateless(env: Env, y: Case, mac: S.Mac, attestation: Fields)
    requires var calls := Calls(env.config, y, mac, attestation);
             Run(env, calls[..0]).now == Run(env, calls[..1]).now == 0 && Run(env, calls[..4]).now == y.pause
    ensures SA.OnStateless(env, Calls(env.config, y, mac, attestation), mac)
  {
    hide Run, S.Put, S.Body, S.Presented, S.Consume, Codec.Received;
    var calls, c := Calls(env.config, y, mac, attestation), Enrolment(env.config, y);
    S.ConsumePut(c, 0, mac);
    S.ConsumePut(c, y.pause, mac);
    S.PresentedPut(c, mac);
    assert SA.SignedAt(env, calls, 0, S.Body(c));
    forall i | 0 <= i < |calls| && IsFinish(calls[i].op)
      ensures Counters.FromStateless(env, calls, i, mac)
      ensures var p := S.Presented(calls[i].op.handle);
              p.Some? && p.value.1 == mac(p.value.0) ==> exists b :: 0 <= b < i && SA.SignedAt(env, calls, b, p.value.0)
    {
      assert i == 1 || i == 4;
    }
  }

  /**
   For every user, key, id, challenge, revoker and pause: the registration succeeds, and the same
   handle and attestation presented again register the same key for the same owner a second time
   exactly if the token is still in time and the owner has revoked the credential in between.
   */
  lemma {:induction false} ReRegisteredIff(x: Setting, y: Case, mac: S.Mac) returns (calls: seq<Call>)
    requires Suits(x) && |y.id| < AuthenticatorData.ID_LIMIT
    ensures SA.OnStateless(EnvOf(x), calls, mac)
    ensures |calls| == 5 && calls[1].op.RegisterFinish? && calls[4].op == calls[1].op
    ensures calls[0].op == RegisterBegin(y.user, y.challenge, calls[1].op.handle)
    ensures calls[2].op == RevokeCredential(y.revoker, Base64Url.Encode(y.id)) && calls[3].op == Advance(y.pause)
    ensures var o, p := OutcomeAt(EnvOf(x), calls, 1), OutcomeAt(EnvOf(x), calls, 4);
            && o.Registered? && o.credential.credentialId == y.id && o.credential.publicKey == x.crypto.publicKey(y.key)
            && o.credential.userId == Join(y.user.id)
            && (p.Registered? <==> y.pause <= Cutoff(x.config) && y.revoker == o.credential.userId)
            && (p.Registered? ==> p.credential == o.credential.(createdAt := Some(y.pause)))
            && (!p.Registered? ==> p == Failed(if y.pause > Cutoff(x.config) then ChallengeNotFound else CredentialAlreadyExists))
  {
    var env := EnvOf(x);
    assert env.config == x.config;
    hide *;
    var attestation := DeviceAttests(x, y);
    calls := Calls(x.config, y, mac, attestation);
    CallsRun(env, y, mac, attestation);
    BeforeReplay(env, y, mac, attestation);
    CallsOnStateless(env, y, mac, attestation);
    CallsShape(x.config, y, mac, attestation);
  }

  lemma CallsShape(config: Config, y: Case, mac: S.Mac, attestation: Fields)
    ensures var calls := Calls(config, y, mac, attestation);
            && |calls| == 5 && calls[1].op.RegisterFinish? && calls[4].op == calls[1].op
            && calls[0].op == RegisterBegin(y.user, y.challenge, calls[1].op.handle)
            && calls[2].op == RevokeCredential(y.revoker, Base64Url.Encode(y.id)) && calls[3].op == Advance(y.pause)
  {
    hide S.Put;
  }

  lemma {:induction false} DeviceAttests(x: Setting, y: Case) returns (attestation: Fields)
    requires Suits(x) && |y.id| < AuthenticatorData.ID_LIMIT
    ensures var v := EnvOf(x).verifyRegistration(attestation, y.challenge);
            v.Ok? && v.value.credentialId == y.id && v.value.publicKey == x.crypto.publicKey(y.key)
  {
    AttestationVerifies(x.rp, x.crypto, x.traits, x.aaguid, y.challenge, x.origin, y.key, y.id);
    attestation := A.Envelope(y.id, A.AttestationInner(A.ClientData(A.TYPE_CREATE, y.challenge, x.origin),
      x.crypto.wrap(AuthenticatorData.Layout(A.AttestationData(x.crypto, x.traits, x.aaguid, x.rp.rpId, y.id, y.key)))));
  }

  /** So there is a run in which a captured attestation registers again. */
  lemma {:induction false} ReRegistrationHappens(config: Config, mac: S.Mac) returns (calls: seq<Call>)
    ensures SA.OnStateless(EnvOf(StatelessReplay.Demo(config)), calls, mac)
    ensures |calls| == 5 && calls[1].op.RegisterFinish? && calls[4].op == calls[1].op
    ensures OutcomeAt(EnvOf(StatelessReplay.Demo(config)), calls, 1).Registered?
    ensures OutcomeAt(EnvOf(StatelessReplay.Demo(config)), calls, 4).Registered?
  {
    hide SA.OnStateless, OutcomeAt, EnvOf;
    StatelessReplay.DemoSuits(config);
    assert Join([]) == [];
    calls := ReRegisteredIff(StatelessReplay.Demo(config), Case(User([], [], []), [7], 0, [0], [], 0), mac);
  }
}
