/** Completeness amid other traffic: any calls of other users may run between `begin` and `finish`. */
module Amidst {
  import opened Prelude
  import opened Domain
  import opened Json
  import opened Repository
  import opened Ceremony
  import opened AuthenticatorData
  import opened StandardEngine
  import opened EndToEnd
  import A = Authenticator
  import Isolation

  /** The server after some calls. */
  function Passed(env: Env, s: Server, ops: seq<Op>): Server {
    if ops == [] then s else ServerStep(env, Passed(env, s, ops[..|ops| - 1]), ops[|ops| - 1]).0
  }

  function StoredFor(s: Server, op: Op): Option<Challenge> {
    if IsFinish(op) then Consumed(s.store, op.handle, s.world.now) else None
  }

  /** None of the calls uses the handle. */
  predicate LeaveAlone(ops: seq<Op>, handle: Str) {
    forall i :: 0 <= i < |ops| && (IsBegin(ops[i]) || IsFinish(ops[i])) ==> ops[i].handle != handle
  }

  /** None of the calls, as it comes out, concerns a credential of the user. */
  ghost predicate Unconcerned(env: Env, s: Server, ops: seq<Op>, userId: Str) {
    forall i :: 0 <= i < |ops| ==>
      var t := Passed(env, s, ops[..i]);
      Isolation.Subject(t.world, Call(ops[i], StoredFor(t, ops[i]))) != Some(userId)
  }

  lemma {:induction false} HandleKept(env: Env, s: Server, ops: seq<Op>, handle: Str)
    requires LeaveAlone(ops, handle) && handle in s.store
    ensures handle in Passed(env, s, ops).store && Passed(env, s, ops).store[handle] == s.store[handle]
  {
    hide Step;
    if ops != [] {
      HandleKept(env, s, ops[..|ops| - 1], handle);
    }
  }

  lemma {:induction false} UniqueKept(env: Env, s: Server, ops: seq<Op>)
    requires Unique(s.world.repo)
    ensures Unique(Passed(env, s, ops).world.repo)
  {
    hide Step;
    if ops != [] {
      var t, op := Passed(env, s, ops[..|ops| - 1]), ops[|ops| - 1];
      UniqueKept(env, s, ops[..|ops| - 1]);
      StepKeepsUnique(env, t.world, op, StoredFor(t, op));
    }
  }

  lemma {:induction false} ListingKept(env: Env, s: Server, ops: seq<Op>, userId: Str)
    requires Unique(s.world.repo) && Unconcerned(env, s, ops, userId)
    ensures ListByUser(Passed(env, s, ops).world.repo, userId) == ListByUser(s.world.repo, userId)
  {
    hide Step;
    if ops != [] {
      var n := |ops| - 1;
      var t := Passed(env, s, ops[..n]);
      assert forall i :: 0 <= i < n ==> ops[..n][..i] == ops[..i];
      ListingKept(env, s, ops[..n], userId);
      UniqueKept(env, s, ops[..n]);
      Isolation.OthersUntouched(env, t.world, Call(ops[n], StoredFor(t, ops[n])), userId);
    }
  }

  /** Username-first `begin`, `get`, other calls, `finish`. */
  function Login(x: Setting, s: Server, keys: A.Keys, userId: Str, challenge: Bytes, handle: Str, ops: seq<Op>): (Server, A.Keys, Outcome)
    requires forall b: Bytes :: |x.crypto.sha256(b)| == 32
  {
    var b := ServerStep(EnvOf(x), s, AuthenticateBegin(Some(userId), challenge, handle));
    var d := A.Assertion(x.crypto, x.traits, keys, GetOptionsFor(x, challenge, b.1.descriptors), x.origin, None);
    if d.1.Err? then (b.0, d.0, Done)
    else
      var r := ServerStep(EnvOf(x), Passed(EnvOf(x), b.0, ops), AuthenticateFinish(d.1.value, handle));
      (r.0, d.0, r.1)
  }

  /** The server when the login's `finish` arrives. */
  function Meanwhile(x: Setting, s: Server, userId: Str, challenge: Bytes, handle: Str, ops: seq<Op>): Server {
    Passed(EnvOf(x), ServerStep(EnvOf(x), s, AuthenticateBegin(Some(userId), challenge, handle)).0, ops)
  }

  lemma LoginBegins(env: Env, s: Server, userId: Str, challenge: Bytes, handle: Str)
    ensures var b := ServerStep(env, s, AuthenticateBegin(Some(userId), challenge, handle));
            && b.1 == Issued(challenge, AllowFor(s.world.repo, userId), handle) && b.0.world.repo == s.world.repo
            && handle in b.0.store
            && b.0.store[handle]
               == AuthenticationChallenge(challenge, Some(userId), s.world.now, s.world.now + env.config.challengeTtl)
  {
    hide ListByUser;
  }

  lemma LoginEnds(env: Env, s: Server, response: Fields, handle: Str)
    requires handle in s.store && s.world.now <= s.store[handle].expiresAt
    ensures var r := ServerStep(env, s, AuthenticateFinish(response, handle));
            var f := FinishAuthentication(env, s.world, Some(s.store[handle]), response);
            r.1 == f.1 && r.0.world == f.0
  {
    hide FinishAuthentication;
  }

  /** The server's part, with any engine that accepts the response. */
  lemma {:induction false} ServerAcceptsAmidst(env: Env, s: Server, userId: Str, challenge: Bytes, handle: Str, ops: seq<Op>,
                                               response: Fields, c: Credential, v: VerifiedAuthentication)
    requires Unique(s.world.repo) && c in ListByUser(s.world.repo, userId) && LeaveAlone(ops, handle)
    requires var b := ServerStep(env, s, AuthenticateBegin(Some(userId), challenge, handle)).0;
             Unconcerned(env, b, ops, userId) && Passed(env, b, ops).world.now <= s.world.now + env.config.challengeTtl
    requires CredentialIdFrom(response) == Some(c.credentialId)
    requires env.verifyAuthentication(response, challenge, c) == Ok(v) && CountAdvances(c.signCount, v.newSignCount)
    ensures var b := ServerStep(env, s, AuthenticateBegin(Some(userId), challenge, handle));
            var t := Passed(env, b.0, ops);
            var r := ServerStep(env, t, AuthenticateFinish(response, handle));
            var c' := c.(signCount := v.newSignCount, lastUsedAt := Some(t.world.now));
            && b.1 == Issued(challenge, AllowFor(s.world.repo, userId), handle)
            && r.1 == Authenticated(userId, c', v.userVerified) && r.0.world.repo == Assign(t.world.repo, c')
  {
    hide ServerStep, CredentialIdFrom, FinishAuthentication, Passed, ListByUser, Assign, CountAdvances, LeaveAlone, Unconcerned, Unique;
    LoginBegins(env, s, userId, challenge, handle);
    var b := ServerStep(env, s, AuthenticateBegin(Some(userId), challenge, handle)).0;
    var t := Passed(env, b, ops);
    HandleKept(env, b, ops, handle);
    UniqueKept(env, b, ops);
    ListingKept(env, b, ops, userId);
    LoginEnds(env, t, response, handle);
    FinishAccepts(env, t.world, t.store[handle], response, c, v);
  }

  /**
   A ready device logs its user in, whatever calls that do not concern the user's credentials or the
   handle run in between, as long as the `finish` arrives in time: with an allowed credential that it
   holds, the device's count, and the time at which it arrives.
   */
  lemma {:induction false} LoginCompletes(x: Setting, s: Server, keys: A.Keys, userId: Str, challenge: Bytes, handle: Str, ops: seq<Op>)
    returns (c: Credential, k: A.StoredKey)
    requires Suits(x) && Unique(s.world.repo) && Paired(x, s.world.repo, keys, userId) && Ready(s.world.repo, keys, userId)
    requires LeaveAlone(ops, handle)
    requires Unconcerned(EnvOf(x), ServerStep(EnvOf(x), s, AuthenticateBegin(Some(userId), challenge, handle)).0, ops, userId)
    requires Meanwhile(x, s, userId, challenge, handle, ops).world.now <= s.world.now + x.config.challengeTtl
    ensures c in ListByUser(s.world.repo, userId) && A.FindKey(keys, c.credentialId) == Some(k)
    ensures var t := Meanwhile(x, s, userId, challenge, handle, ops);
            var r := Login(x, s, keys, userId, challenge, handle, ops);
            var c' := c.(signCount := k.signCount + 1, lastUsedAt := Some(t.world.now));
            && r.2 == Authenticated(userId, c', x.traits.userVerified)
            && r.0.world.repo == Assign(t.world.repo, c')
            && r.1 == A.AssignKey(keys, k.(signCount := k.signCount + 1))
  {
    hide A.Assertion, A.AssertionResponse, A.AssertionData, A.Select, VerifyAssertion, ServerStep, Encodable, CredentialIdFrom,
         Passed, ListByUser, Assign, LeaveAlone, Unconcerned, Unique;
    c, k := PicksOwn(s.world.repo, keys, userId);
    DeviceSigns(x, keys, AllowFor(s.world.repo, userId), challenge, k);
    var count := k.signCount + 1;
    var response := A.AssertionResponse(x.crypto, x.traits, k, x.rp.rpId, challenge, x.origin, count);
    AssertionVerifies(x.rp, x.crypto, x.traits, k, challenge, x.origin, count, c);
    AssertionCarries(x.rp, x.crypto, x.traits, k, x.rp.rpId, challenge, x.origin, count, challenge, c);
    ServerAcceptsAmidst(EnvOf(x), s, userId, challenge, handle, ops, response, c,
                        VerifiedAuthentication(k.id, count, x.traits.userVerified));
  }

  /** `begin`, `create`, other calls, `finish`. */
  function Register(x: Setting, s: Server, keys: A.Keys, user: User, challenge: Bytes, handle: Str, key: nat, id: Bytes,
                    name: Str, ops: seq<Op>): (Server, A.Keys, Outcome)
    requires |x.aaguid| == 16 && forall b: Bytes :: |x.crypto.sha256(b)| == 32
  {
    var s1 := ServerStep(EnvOf(x), s, RegisterBegin(user, challenge, handle)).0;
    var d := A.Attestation(x.crypto, x.traits, x.aaguid, keys, CreateOptionsFor(x, user, challenge), x.origin, key, id);
    if d.1.Err? then (s1, d.0, Done)
    else
      var r := ServerStep(EnvOf(x), Passed(EnvOf(x), s1, ops), RegisterFinish(d.1.value, handle, name));
      (r.0, d.0, r.1)
  }

  lemma RegistrationBegins(env: Env, s: Server, user: User, challenge: Bytes, handle: Str)
    ensures var b := ServerStep(env, s, RegisterBegin(user, challenge, handle)).0;
            && handle in b.store
            && b.store[handle] == RegistrationChallenge(challenge, user, s.world.now, s.world.now + env.config.challengeTtl)
  {
    hide ListByUser;
  }

  lemma RegistrationEnds(env: Env, s: Server, response: Fields, handle: Str, name: Str)
    requires handle in s.store && s.world.now <= s.store[handle].expiresAt && s.store[handle].RegistrationChallenge?
    requires var v := env.verifyRegistration(response, s.store[handle].challenge); v.Ok? && Find(s.world.repo, v.value.credentialId) == None
    ensures var r := ServerStep(env, s, RegisterFinish(response, handle, name));
            var c := NewCredential(env.config, env.verifyRegistration(response, s.store[handle].challenge).value,
                                   s.store[handle].user, name, s.world.now);
            r.1 == Registered(c) && r.0.world.repo == Assign(s.world.repo, c)
  {
    hide NewCredential, Find, Assign;
  }

  lemma {:induction false} ServerRegistersAmidst(env: Env, s: Server, user: User, challenge: Bytes, handle: Str, ops: seq<Op>,
                                                 response: Fields, name: Str)
    requires LeaveAlone(ops, handle)
    requires var t := Passed(env, ServerStep(env, s, RegisterBegin(user, challenge, handle)).0, ops);
             var v := env.verifyRegistration(response, challenge);
             t.world.now <= s.world.now + env.config.challengeTtl && v.Ok? && Find(t.world.repo, v.value.credentialId) == None
    ensures var t := Passed(env, ServerStep(env, s, RegisterBegin(user, challenge, handle)).0, ops);
            var r := ServerStep(env, t, RegisterFinish(response, handle, name));
            var c := NewCredential(env.config, env.verifyRegistration(response, challenge).value, user, name, t.world.now);
            r.1 == Registered(c) && r.0.world.repo == Assign(t.world.repo, c)
  {
    hide ServerStep, Find, Assign, Passed, LeaveAlone, NewCredential;
    RegistrationBegins(env, s, user, challenge, handle);
    var b := ServerStep(env, s, RegisterBegin(user, challenge, handle)).0;
    HandleKept(env, b, ops, handle);
    RegistrationEnds(env, Passed(env, b, ops), response, handle, name);
  }

  /** Registration likewise, as long as nobody registers the id in between. */
  lemma {:induction false} RegistrationCompletes(x: Setting, s: Server, keys: A.Keys, user: User, challenge: Bytes, handle: Str, key: nat,
                                                id: Bytes, name: Str, ops: seq<Op>)
    requires Suits(x) && |id| < ID_LIMIT && LeaveAlone(ops, handle)
    requires var t := Passed(EnvOf(x), ServerStep(EnvOf(x), s, RegisterBegin(user, challenge, handle)).0, ops);
             t.world.now <= s.world.now + x.config.challengeTtl && Find(t.world.repo, id) == None
    ensures var t := Passed(EnvOf(x), ServerStep(EnvOf(x), s, RegisterBegin(user, challenge, handle)).0, ops);
            var r := Register(x, s, keys, user, challenge, handle, key, id, name, ops);
            && r.2.Registered?
            && var c := r.2.credential;
               && c.credentialId == id && c.userId == user.id && c.publicKey == x.crypto.publicKey(key)
               && c.signCount == 0 && c.deviceName == name && c.createdAt == Some(t.world.now)
               && r.0.world.repo == Assign(t.world.repo, c)
               && r.1 == A.AssignKey(keys, A.StoredKey(id, key, x.crypto.utf8(user.id), x.rp.rpId, 0))
  {
    hide A.Attestation, VerifyAttestation, ServerStep, Find, Assign, Passed, LeaveAlone;
    DeviceCreates(x, keys, user, challenge, key, id);
    var d := A.Attestation(x.crypto, x.traits, x.aaguid, keys, CreateOptionsFor(x, user, challenge), x.origin, key, id);
    ServerRegistersAmidst(EnvOf(x), s, user, challenge, handle, ops, d.1.value, name);
  }
}
