/** Completeness: an honest device gets a user registered, and logged in whenever the server asks. */
module EndToEnd {
  import opened Prelude
  import opened Domain
  import opened Json
  import opened Repository
  import opened Ceremony
  import opened AuthenticatorData
  import A = Authenticator
  import opened StandardEngine
  import Base64Url

  /** A relying party and a device that suit each other. */
  datatype Setting = Setting(config: Config, rp: RelyingParty, crypto: A.Crypto, traits: Traits, aaguid: Bytes, origin: Str)

  ghost predicate Suits(x: Setting) {
    && A.Sound(x.crypto) && |x.aaguid| == 16
    && x.rp.rpId != [] && x.origin in x.rp.origins && !HasPair(x.origin)
    && (x.rp.requireUserVerification ==> x.traits.userVerified)
  }

  function EnvOf(x: Setting): Env {
    StandardEnv(x.config, x.rp, x.crypto)
  }

  /** What `begin` puts into the options, as far as the device reads it. */
  function CreateOptionsFor(x: Setting, user: User, challenge: Bytes): A.CreateOptions {
    A.CreateOptions(x.rp.rpId, Base64Url.Encode(challenge), Base64Url.Encode(x.crypto.utf8(user.id)))
  }

  function Descriptors(allow: Repo): seq<Str> {
    if allow == [] then [] else [Base64Url.Encode(allow[0].credentialId)] + Descriptors(allow[1..])
  }

  function GetOptionsFor(x: Setting, challenge: Bytes, allow: Repo): A.GetOptions {
    A.GetOptions(x.rp.rpId, Base64Url.Encode(challenge), Descriptors(allow))
  }

  // ----- registration -----

  /** `begin`, `create`, a pause, `finish`. */
  function Register(x: Setting, s: Server, keys: A.Keys, user: User, challenge: Bytes, handle: Str, key: nat, id: Bytes,
                    name: Str, pause: nat): (Server, A.Keys, Outcome)
    requires |x.aaguid| == 16 && forall b: Bytes :: |x.crypto.sha256(b)| == 32
  {
    var s1 := ServerStep(EnvOf(x), s, RegisterBegin(user, challenge, handle)).0;
    var d := A.Attestation(x.crypto, x.traits, x.aaguid, keys, CreateOptionsFor(x, user, challenge), x.origin, key, id);
    if d.1.Err? then (s1, d.0, Done)
    else
      var s2 := ServerStep(EnvOf(x), s1, Advance(pause)).0;
      var r := ServerStep(EnvOf(x), s2, RegisterFinish(d.1.value, handle, name));
      (r.0, d.0, r.1)
  }

  lemma DeviceCreates(x: Setting, keys: A.Keys, user: User, challenge: Bytes, key: nat, id: Bytes)
    requires Suits(x) && |id| < ID_LIMIT
    ensures var d := A.Attestation(x.crypto, x.traits, x.aaguid, keys, CreateOptionsFor(x, user, challenge), x.origin, key, id);
            && d.1.Ok?
            && d.0 == A.AssignKey(keys, A.StoredKey(id, key, x.crypto.utf8(user.id), x.rp.rpId, 0))
            && var v := VerifyAttestation(x.rp, x.crypto, d.1.value, challenge);
               && v.Ok? && v.value.credentialId == id && v.value.publicKey == x.crypto.publicKey(key)
               && v.value.signCount == 0
  {
    Base64Url.DecodeEncode(challenge);
    Base64Url.DecodeEncode(x.crypto.utf8(user.id));
    AttestationVerifies(x.rp, x.crypto, x.traits, x.aaguid, challenge, x.origin, key, id);
  }

  /** Registration through an honest device with a fresh id succeeds if finished in time. */
  lemma {:induction false} RegistrationCompletes(x: Setting, s: Server, keys: A.Keys, user: User, challenge: Bytes, handle: Str, key: nat,
                              id: Bytes, name: Str, pause: nat)
    requires Suits(x) && |id| < ID_LIMIT && Find(s.world.repo, id) == None && pause <= x.config.challengeTtl
    ensures var r := Register(x, s, keys, user, challenge, handle, key, id, name, pause);
            && r.2.Registered?
            && var c := r.2.credential;
               && c.credentialId == id && c.userId == user.id && c.publicKey == x.crypto.publicKey(key)
               && c.signCount == 0 && c.deviceName == name
               && r.0.world.repo == Assign(s.world.repo, c)
               && r.1 == A.AssignKey(keys, A.StoredKey(id, key, x.crypto.utf8(user.id), x.rp.rpId, 0))
  {
    hide A.Attestation, VerifyAttestation;
    DeviceCreates(x, keys, user, challenge, key, id);
    var env := EnvOf(x);
    var s1 := ServerStep(env, s, RegisterBegin(user, challenge, handle)).0;
    var s2 := ServerStep(env, s1, Advance(pause)).0;
    assert s2.store[handle] == RegistrationChallenge(challenge, user, s.world.now, s.world.now + x.config.challengeTtl);
    assert s2.world.repo == s.world.repo && s2.world.now == s.world.now + pause;
  }

  // ----- login -----

  /** Username-first `begin`, `get`, a pause, `finish`. */
  function Login(x: Setting, s: Server, keys: A.Keys, userId: Str, challenge: Bytes, handle: Str, pause: nat): (Server, A.Keys, Outcome)
    requires forall b: Bytes :: |x.crypto.sha256(b)| == 32
  {
    var b := ServerStep(EnvOf(x), s, AuthenticateBegin(Some(userId), challenge, handle));
    var d := A.Assertion(x.crypto, x.traits, keys, GetOptionsFor(x, challenge, b.1.descriptors), x.origin, None);
    if d.1.Err? then (b.0, d.0, Done)
    else
      var s2 := ServerStep(EnvOf(x), b.0, Advance(pause)).0;
      var r := ServerStep(EnvOf(x), s2, AuthenticateFinish(d.1.value, handle));
      (r.0, d.0, r.1)
  }

  /** Whatever of the user's credentials the device holds, it holds with the right key and a count that has room. */
  predicate Paired(x: Setting, repo: Repo, keys: A.Keys, userId: Str) {
    forall c :: c in ListByUser(repo, userId) ==>
      var k := A.FindKey(keys, c.credentialId);
      k.Some? ==> c.publicKey == x.crypto.publicKey(k.value.key) && c.signCount <= k.value.signCount
                  && k.value.signCount + 1 < COUNT_LIMIT
  }

  predicate HoldsOne(repo: Repo, keys: A.Keys, userId: Str) {
    exists c :: c in ListByUser(repo, userId) && A.FindKey(keys, c.credentialId).Some?
  }

  /** Among descriptors of which the device holds one, it picks an allowed one that it holds. */
  lemma {:induction false} SelectsAllowed(keys: A.Keys, allow: Repo)
    requires exists c :: c in allow && A.FindKey(keys, c.credentialId).Some?
    ensures var r := A.Select(keys, Descriptors(allow));
            r.Ok? && A.FindKey(keys, r.value).Some? && exists c :: c in allow && c.credentialId == r.value
  {
    Base64Url.DecodeEncode(allow[0].credentialId);
    assert Descriptors(allow)[1..] == Descriptors(allow[1..]);
    if A.FindKey(keys, allow[0].credentialId) == None {
      var c :| c in allow && A.FindKey(keys, c.credentialId).Some?;
      assert c in allow[1..];
      SelectsAllowed(keys, allow[1..]);
    } else {
      assert allow[0] in allow;
    }
  }

  /** Among descriptors of which it holds none, its choice is the one without descriptors. */
  lemma {:induction false} SelectFallsBack(keys: A.Keys, allow: Repo)
    requires forall c :: c in allow ==> A.FindKey(keys, c.credentialId) == None
    ensures A.Select(keys, Descriptors(allow)) == A.Select(keys, [])
  {
    if allow != [] {
      Base64Url.DecodeEncode(allow[0].credentialId);
      assert allow[0] in allow;
      assert Descriptors(allow)[1..] == Descriptors(allow[1..]);
      SelectFallsBack(keys, allow[1..]);
    }
  }

  /** What `begin` allows: an empty user id counts as none. */
  function AllowFor(repo: Repo, userId: Str): Repo {
    if userId != [] then ListByUser(repo, userId) else []
  }

  /**
   The device is ready to log the user in: it holds one of the user's credentials; or, the user id
   being empty and nothing therefore allowed, the first key it holds is one.
   */
  predicate Ready(repo: Repo, keys: A.Keys, userId: Str) {
    if userId != [] then HoldsOne(repo, keys, userId)
    else keys != [] && exists c :: c in ListByUser(repo, userId) && c.credentialId == keys[0].id
  }

  lemma {:induction false} PicksOwn(repo: Repo, keys: A.Keys, userId: Str) returns (c: Credential, k: A.StoredKey)
    requires Ready(repo, keys, userId)
    ensures c in ListByUser(repo, userId) && A.FindKey(keys, c.credentialId) == Some(k)
    ensures A.Select(keys, Descriptors(AllowFor(repo, userId))) == Ok(c.credentialId)
  {
    if userId != [] {
      SelectsAllowed(keys, ListByUser(repo, userId));
      c :| c in ListByUser(repo, userId) && c.credentialId == A.Select(keys, Descriptors(ListByUser(repo, userId))).value;
    } else {
      c :| c in ListByUser(repo, userId) && c.credentialId == keys[0].id;
    }
    k := A.FindKey(keys, c.credentialId).value;
  }

  lemma {:induction false} PicksForeign(repo: Repo, keys: A.Keys, userId: Str)
    requires !Ready(repo, keys, userId)
    ensures var r := A.Select(keys, Descriptors(AllowFor(repo, userId)));
            r.Ok? ==> forall c :: c in ListByUser(repo, userId) ==> c.credentialId != r.value
  {
    if userId != [] {
      SelectFallsBack(keys, ListByUser(repo, userId));
      assert keys != [] ==> A.FindKey(keys, keys[0].id) == Some(keys[0]);
    }
  }

  /** The device's part: it signs with the key it picks, count up by one. */
  lemma {:induction false} DeviceSigns(x: Setting, keys: A.Keys, allow: Repo, challenge: Bytes, k: A.StoredKey)
    requires Suits(x) && A.Select(keys, Descriptors(allow)) == Ok(k.id) && A.FindKey(keys, k.id) == Some(k)
    requires k.signCount + 1 < COUNT_LIMIT
    ensures Encodable(A.AssertionData(x.crypto, x.traits, x.rp.rpId, k.signCount + 1))
    ensures A.Assertion(x.crypto, x.traits, keys, GetOptionsFor(x, challenge, allow), x.origin, None)
            == (A.AssignKey(keys, k.(signCount := k.signCount + 1)),
                Ok(A.AssertionResponse(x.crypto, x.traits, k, x.rp.rpId, challenge, x.origin, k.signCount + 1)))
  {
    hide A.Assertion, A.AssertionResponse, A.AssertionData, A.Select;
    Base64Url.DecodeEncode(challenge);
    A.AssertionSucceeds(x.crypto, x.traits, keys, GetOptionsFor(x, challenge, allow), x.origin, k);
  }

  /** Whatever it answers with names the key it picked. */
  lemma {:induction false} DeviceNamesItsPick(x: Setting, keys: A.Keys, allow: Repo, challenge: Bytes)
    requires Suits(x)
    ensures var d := A.Assertion(x.crypto, x.traits, keys, GetOptionsFor(x, challenge, allow), x.origin, None);
            var pick := A.Select(keys, Descriptors(allow));
            d.1.Ok? ==> pick.Ok? && CredentialIdFrom(d.1.value) == Some(pick.value)
  {
    hide A.Assertion, A.AssertionResponse, A.AssertionData, A.Select, VerifyAssertion, CredentialIdFrom, Encodable;
    var options := GetOptionsFor(x, challenge, allow);
    A.AssertionOutcome(x.crypto, x.traits, keys, options, x.origin);
    if A.Assertion(x.crypto, x.traits, keys, options, x.origin, None).1.Ok? {
      var k := A.FindKey(keys, A.Select(keys, options.allow).value).value;
      AssertionCarries(x.rp, x.crypto, x.traits, k, A.RpIdFor(keys, options), Base64Url.Decode(options.challenge).value, x.origin,
                       k.signCount + 1, [], Credential(k.id, [], [], 0, [], None, false, false, [], false, None, None, None));
    }
  }

  /** A finish with a verified response for a stored credential of the bound user. */
  lemma FinishAccepts(env: Env, w: World, stored: Challenge, response: Fields, c: Credential, v: VerifiedAuthentication)
    requires Unique(w.repo) && stored.AuthenticationChallenge? && stored.userId.Some?
    requires c in ListByUser(w.repo, stored.userId.value) && CredentialIdFrom(response) == Some(c.credentialId)
    requires env.verifyAuthentication(response, stored.challenge, c) == Ok(v) && CountAdvances(c.signCount, v.newSignCount)
    ensures var r := FinishAuthentication(env, w, Some(stored), response);
            var c' := c.(signCount := v.newSignCount, lastUsedAt := Some(w.now));
            r.1 == Authenticated(stored.userId.value, c', v.userVerified) && r.0.repo == Assign(w.repo, c')
  {
    hide CredentialIdFrom, Find, ListByUser, CountAdvances, Base64Url.Encode;
    ListHoldsOwned(w.repo, stored.userId.value, c);
    var i :| 0 <= i < |w.repo| && w.repo[i] == c;
    FindAt(w.repo, i);
  }

  /** What the server holds between `begin` and `finish`. */
  lemma Waiting(env: Env, s: Server, userId: Str, challenge: Bytes, handle: Str, pause: nat)
    ensures var b := ServerStep(env, s, AuthenticateBegin(Some(userId), challenge, handle));
            var s2 := ServerStep(env, b.0, Advance(pause)).0;
            && b.1 == Issued(challenge, AllowFor(s.world.repo, userId), handle)
            && b.0.world.repo == s2.world.repo == s.world.repo && s2.world.now == s.world.now + pause
            && Consumed(s2.store, handle, s2.world.now)
               == if pause <= env.config.challengeTtl
                  then Some(AuthenticationChallenge(challenge, Some(userId), s.world.now, s.world.now + env.config.challengeTtl)) else None
  {
    hide ListByUser;
  }

  /** The server's part, with any engine that verifies the response against the credential. */
  lemma ServerAccepts(env: Env, s: Server, userId: Str, challenge: Bytes, handle: Str, pause: nat,
                      response: Fields, c: Credential, v: VerifiedAuthentication)
    requires Unique(s.world.repo) && c in ListByUser(s.world.repo, userId) && pause <= env.config.challengeTtl
    requires CredentialIdFrom(response) == Some(c.credentialId)
    requires env.verifyAuthentication(response, challenge, c) == Ok(v) && CountAdvances(c.signCount, v.newSignCount)
    ensures var b := ServerStep(env, s, AuthenticateBegin(Some(userId), challenge, handle));
            var s2 := ServerStep(env, b.0, Advance(pause)).0;
            var r := ServerStep(env, s2, AuthenticateFinish(response, handle));
            var c' := c.(signCount := v.newSignCount, lastUsedAt := Some(s.world.now + pause));
            && b.1 == Issued(challenge, AllowFor(s.world.repo, userId), handle)
            && r.1 == Authenticated(userId, c', v.userVerified) && r.0.world.repo == Assign(s.world.repo, c')
  {
    hide CredentialIdFrom, ListByUser, CountAdvances, FinishAuthentication;
    Waiting(env, s, userId, challenge, handle, pause);
    var s2 := ServerStep(env, ServerStep(env, s, AuthenticateBegin(Some(userId), challenge, handle)).0, Advance(pause)).0;
    var ch := AuthenticationChallenge(challenge, Some(userId), s.world.now, s.world.now + env.config.challengeTtl);
    FinishAccepts(env, s2.world, ch, response, c, v);
  }

  /** It refuses a response that comes late or names no credential of the user. */
  lemma ServerRefuses(env: Env, s: Server, userId: Str, challenge: Bytes, handle: Str, pause: nat, response: Fields, id: Bytes)
    requires Unique(s.world.repo) && CredentialIdFrom(response) == Some(id)
    requires pause > env.config.challengeTtl || forall c :: c in ListByUser(s.world.repo, userId) ==> c.credentialId != id
    ensures var b := ServerStep(env, s, AuthenticateBegin(Some(userId), challenge, handle));
            var s2 := ServerStep(env, b.0, Advance(pause)).0;
            var r := ServerStep(env, s2, AuthenticateFinish(response, handle));
            r.1 == Failed(if pause > env.config.challengeTtl then ChallengeNotFound else CredentialNotFound)
            && r.0.world.repo == s.world.repo
  {
    hide CredentialIdFrom, ListByUser, Find;
    Waiting(env, s, userId, challenge, handle, pause);
    var found := Find(s.world.repo, id);
    if found.Some? {
      FoundIsStored(s.world.repo, id);
      ListHoldsOwned(s.world.repo, userId, found.value);
    }
  }

  /** The whole login of a ready device: which credential and key are used, and what both sides hold afterwards. */
  lemma {:induction false} LoginResult(x: Setting, s: Server, keys: A.Keys, userId: Str, challenge: Bytes, handle: Str, pause: nat)
    returns (c: Credential, k: A.StoredKey)
    requires Suits(x) && Unique(s.world.repo) && pause <= x.config.challengeTtl
    requires Paired(x, s.world.repo, keys, userId) && Ready(s.world.repo, keys, userId)
    ensures c in ListByUser(s.world.repo, userId) && A.FindKey(keys, c.credentialId) == Some(k)
    ensures var r := Login(x, s, keys, userId, challenge, handle, pause);
            var c' := c.(signCount := k.signCount + 1, lastUsedAt := Some(s.world.now + pause));
            && r.2 == Authenticated(userId, c', x.traits.userVerified)
            && r.0.world.repo == Assign(s.world.repo, c')
            && r.1 == A.AssignKey(keys, k.(signCount := k.signCount + 1))
  {
    hide A.Assertion, A.AssertionResponse, A.AssertionData, A.Select, VerifyAssertion, ServerStep, Encodable, CredentialIdFrom;
    c, k := PicksOwn(s.world.repo, keys, userId);
    DeviceSigns(x, keys, AllowFor(s.world.repo, userId), challenge, k);
    var count := k.signCount + 1;
    var response := A.AssertionResponse(x.crypto, x.traits, k, x.rp.rpId, challenge, x.origin, count);
    AssertionVerifies(x.rp, x.crypto, x.traits, k, challenge, x.origin, count, c);
    AssertionCarries(x.rp, x.crypto, x.traits, k, x.rp.rpId, challenge, x.origin, count, challenge, c);
    ServerAccepts(EnvOf(x), s, userId, challenge, handle, pause, response, c,
                  VerifiedAuthentication(k.id, count, x.traits.userVerified));
  }

  /**
   A user whose honest device is ready can always log in username-first before the expiry: the device
   picks an allowed credential it holds, and the result is that credential as it is then stored, with
   the device's count.
   */
  lemma {:induction false} LoginCompletes(x: Setting, s: Server, keys: A.Keys, userId: Str, challenge: Bytes, handle: Str, pause: nat)
    requires Suits(x) && Unique(s.world.repo) && pause <= x.config.challengeTtl
    requires Paired(x, s.world.repo, keys, userId) && Ready(s.world.repo, keys, userId)
    ensures var r := Login(x, s, keys, userId, challenge, handle, pause);
            && r.2.Authenticated? && r.2.userId == userId && r.2.userVerified == x.traits.userVerified
            && var c := r.2.credential;
               && (exists before :: before in ListByUser(s.world.repo, userId) && before.credentialId == c.credentialId)
               && Find(r.0.world.repo, c.credentialId) == Some(c)
               && A.FindKey(r.1, c.credentialId).Some? && A.FindKey(r.1, c.credentialId).value.signCount == c.signCount
               && c.lastUsedAt == Some(s.world.now + pause)
  {
    hide Login;
    var c, k := LoginResult(x, s, keys, userId, challenge, handle, pause);
    var c' := c.(signCount := k.signCount + 1, lastUsedAt := Some(s.world.now + pause));
    FindOfAssign(s.world.repo, c', c.credentialId);
    A.FindOfAssignKey(keys, k.(signCount := k.signCount + 1), c.credentialId);
  }

  lemma {:induction false} LoginFails(x: Setting, s: Server, keys: A.Keys, userId: Str, challenge: Bytes, handle: Str, pause: nat)
    requires Suits(x) && Unique(s.world.repo)
    requires pause > x.config.challengeTtl || !Ready(s.world.repo, keys, userId)
    ensures !Login(x, s, keys, userId, challenge, handle, pause).2.Authenticated?
    ensures Login(x, s, keys, userId, challenge, handle, pause).0.world.repo == s.world.repo
  {
    hide A.Assertion, A.Select, ServerStep, CredentialIdFrom, Ready, ListByUser;
    var allow := AllowFor(s.world.repo, userId);
    Waiting(EnvOf(x), s, userId, challenge, handle, pause);
    DeviceNamesItsPick(x, keys, allow, challenge);
    if !Ready(s.world.repo, keys, userId) {
      PicksForeign(s.world.repo, keys, userId);
    }
    var d := A.Assertion(x.crypto, x.traits, keys, GetOptionsFor(x, challenge, allow), x.origin, None);
    if d.1.Ok? {
      ServerRefuses(EnvOf(x), s, userId, challenge, handle, pause, d.1.value, A.Select(keys, Descriptors(allow)).value);
    }
  }

  /** Exactly when a login succeeds, for every user id and every delay; a failing one changes no credential. */
  lemma {:induction false} LoginIff(x: Setting, s: Server, keys: A.Keys, userId: Str, challenge: Bytes, handle: Str, pause: nat)
    requires Suits(x) && Unique(s.world.repo) && Paired(x, s.world.repo, keys, userId)
    ensures var r := Login(x, s, keys, userId, challenge, handle, pause);
            && (r.2.Authenticated? <==> pause <= x.config.challengeTtl && Ready(s.world.repo, keys, userId))
            && (!r.2.Authenticated? ==> r.0.world.repo == s.world.repo)
  {
    hide Login, Ready;
    if pause <= x.config.challengeTtl && Ready(s.world.repo, keys, userId) {
      LoginCompletes(x, s, keys, userId, challenge, handle, pause);
    } else {
      LoginFails(x, s, keys, userId, challenge, handle, pause);
    }
  }

  /** Registering a fresh id on a paired device leaves it paired, and holding one of the user's credentials. */
  lemma {:induction false} RegistrationPairs(x: Setting, s: Server, keys: A.Keys, user: User, challenge: Bytes, handle: Str, key: nat,
                          id: Bytes, name: Str, pause: nat)
    requires Suits(x) && |id| < ID_LIMIT && Find(s.world.repo, id) == None && pause <= x.config.challengeTtl
    requires Unique(s.world.repo) && Paired(x, s.world.repo, keys, user.id)
    ensures var r := Register(x, s, keys, user, challenge, handle, key, id, name, pause);
            Unique(r.0.world.repo) && Paired(x, r.0.world.repo, r.1, user.id) && HoldsOne(r.0.world.repo, r.1, user.id)
  {
    hide Register;
    RegistrationCompletes(x, s, keys, user, challenge, handle, key, id, name, pause);
    var r := Register(x, s, keys, user, challenge, handle, key, id, name, pause);
    NewlyPaired(x, s.world.repo, keys, r.2.credential, A.StoredKey(id, key, x.crypto.utf8(user.id), x.rp.rpId, 0));
  }

  lemma NewlyPaired(x: Setting, repo: Repo, keys: A.Keys, c: Credential, k: A.StoredKey)
    requires Unique(repo) && Paired(x, repo, keys, c.userId) && Find(repo, c.credentialId) == None
    requires k.id == c.credentialId && c.publicKey == x.crypto.publicKey(k.key) && c.signCount == k.signCount == 0
    ensures var repo', keys' := Assign(repo, c), A.AssignKey(keys, k);
            Unique(repo') && Paired(x, repo', keys', c.userId) && HoldsOne(repo', keys', c.userId)
  {
    var repo', keys' := Assign(repo, c), A.AssignKey(keys, k);
    UniqueOfAssign(repo, c);
    FindOfAssign(repo, c, c.credentialId);
    FoundIsStored(repo', c.credentialId);
    ListHoldsOwned(repo', c.userId, c);
    A.FindOfAssignKey(keys, k, c.credentialId);
    forall d | d in ListByUser(repo', c.userId)
      ensures var q := A.FindKey(keys', d.credentialId);
              q.Some? ==> d.publicKey == x.crypto.publicKey(q.value.key) && d.signCount <= q.value.signCount
                          && q.value.signCount + 1 < COUNT_LIMIT
    {
      ListedAfterAssign(repo, c, d, c.userId);
      A.FindOfAssignKey(keys, k, d.credentialId);
    }
  }

  /** What is listed after an assignment was assigned or was listed before. */
  lemma ListedAfterAssign(repo: Repo, c: Credential, d: Credential, userId: Str)
    requires Unique(repo) && d in ListByUser(Assign(repo, c), userId)
    ensures if d.credentialId == c.credentialId then d == c else d in ListByUser(repo, userId)
  {
    var repo' := Assign(repo, c);
    UniqueOfAssign(repo, c);
    ListHoldsOwned(repo', userId, d);
    var i :| 0 <= i < |repo'| && repo'[i] == d;
    FindAt(repo', i);
    FindOfAssign(repo, c, d.credentialId);
    FoundIsStored(repo, d.credentialId);
    ListHoldsOwned(repo, userId, d);
  }

  /** Logging in leaves a paired device paired while its counter has room, so the user can log in again. */
  lemma {:induction false} LoginKeepsPaired(x: Setting, s: Server, keys: A.Keys, userId: Str, challenge: Bytes, handle: Str, pause: nat)
    requires Suits(x) && Unique(s.world.repo) && pause <= x.config.challengeTtl
    requires Paired(x, s.world.repo, keys, userId) && Ready(s.world.repo, keys, userId)
    ensures var r := Login(x, s, keys, userId, challenge, handle, pause);
            Unique(r.0.world.repo) && Ready(r.0.world.repo, r.1, userId)
            && (r.2.Authenticated? && r.2.credential.signCount + 1 < COUNT_LIMIT ==> Paired(x, r.0.world.repo, r.1, userId))
  {
    hide Login;
    var c, k := LoginResult(x, s, keys, userId, challenge, handle, pause);
    var c', k' := c.(signCount := k.signCount + 1, lastUsedAt := Some(s.world.now + pause)), k.(signCount := k.signCount + 1);
    StillPaired(x, s.world.repo, keys, userId, c, k, c', k');
    if userId == [] {
      StillFirst(s.world.repo, keys, c, c', k');
    }
  }

  lemma {:induction false} StillPaired(x: Setting, repo: Repo, keys: A.Keys, userId: Str, c: Credential, k: A.StoredKey, c': Credential, k': A.StoredKey)
    requires Unique(repo) && Paired(x, repo, keys, userId) && c in ListByUser(repo, userId)
    requires A.FindKey(keys, c.credentialId) == Some(k)
    requires c' == c.(signCount := k.signCount + 1, lastUsedAt := c'.lastUsedAt) && k' == k.(signCount := k.signCount + 1)
    ensures Unique(Assign(repo, c')) && HoldsOne(Assign(repo, c'), A.AssignKey(keys, k'), userId)
    ensures c'.signCount + 1 < COUNT_LIMIT ==> Paired(x, Assign(repo, c'), A.AssignKey(keys, k'), userId)
  {
    var repo', keys' := Assign(repo, c'), A.AssignKey(keys, k');
    ListHoldsOwned(repo, userId, c);
    UniqueOfAssign(repo, c');
    FindOfAssign(repo, c', c.credentialId);
    FoundIsStored(repo', c.credentialId);
    ListHoldsOwned(repo', userId, c');
    A.FindOfAssignKey(keys, k', c.credentialId);
    if c'.signCount + 1 < COUNT_LIMIT {
      forall d | d in ListByUser(repo', userId)
        ensures var q := A.FindKey(keys', d.credentialId);
                q.Some? ==> d.publicKey == x.crypto.publicKey(q.value.key) && d.signCount <= q.value.signCount
                            && q.value.signCount + 1 < COUNT_LIMIT
      {
        ListedAfterAssign(repo, c', d, userId);
        A.FindOfAssignKey(keys, k', d.credentialId);
      }
    }
  }

  /** Assigning keeps what the first key refers to. */
  lemma StillFirst(repo: Repo, keys: A.Keys, c: Credential, c': Credential, k': A.StoredKey)
    requires Unique(repo) && c in ListByUser(repo, []) && c'.userId == c.userId && c'.credentialId == c.credentialId == k'.id
    requires Ready(repo, keys, [])
    ensures Ready(Assign(repo, c'), A.AssignKey(keys, k'), [])
  {
    var d :| d in ListByUser(repo, []) && d.credentialId == keys[0].id;
    var repo' := Assign(repo, c');
    ListHoldsOwned(repo, [], c);
    ListHoldsOwned(repo, [], d);
    UniqueOfAssign(repo, c');
    var i :| 0 <= i < |repo| && repo[i] == d;
    FindAt(repo, i);
    FindOfAssign(repo, c', d.credentialId);
    FoundIsStored(repo', d.credentialId);
    ListHoldsOwned(repo', [], Find(repo', d.credentialId).value);
  }

  /**
   End to end: register a fresh credential, then log in with the same device. It always succeeds for a
   user id that is not empty; for the empty one, exactly if the device's first key is the user's.
   */
  lemma {:induction false} RegisterThenLogin(x: Setting, s: Server, keys: A.Keys, user: User, challenge: Bytes, handle: Str, key: nat,
                          id: Bytes, name: Str, pause: nat, challenge': Bytes, handle': Str, pause': nat)
    requires Suits(x) && |id| < ID_LIMIT && Find(s.world.repo, id) == None
    requires pause <= x.config.challengeTtl && pause' <= x.config.challengeTtl
    requires Unique(s.world.repo) && Paired(x, s.world.repo, keys, user.id)
    ensures var r := Register(x, s, keys, user, challenge, handle, key, id, name, pause);
            var l := Login(x, r.0, r.1, user.id, challenge', handle', pause');
            && r.2.Registered? && r.1 != []
            && (l.2.Authenticated? <==>
                  user.id != [] || exists c :: c in ListByUser(r.0.world.repo, user.id) && c.credentialId == r.1[0].id)
            && (l.2.Authenticated? ==>
                  l.2.userId == user.id && Find(l.0.world.repo, l.2.credential.credentialId) == Some(l.2.credential))
  {
    hide Register, Login;
    RegistrationCompletes(x, s, keys, user, challenge, handle, key, id, name, pause);
    RegistrationPairs(x, s, keys, user, challenge, handle, key, id, name, pause);
    var r := Register(x, s, keys, user, challenge, handle, key, id, name, pause);
    LoginIff(x, r.0, r.1, user.id, challenge', handle', pause');
    if Login(x, r.0, r.1, user.id, challenge', handle', pause').2.Authenticated? {
      LoginCompletes(x, r.0, r.1, user.id, challenge', handle', pause');
    }
  }

  /**
   A user with the empty id who registers second on a device can never log in username-first, although
   the device holds the credential.
   */
  lemma {:induction false} EmptyIdLockedOut(x: Setting, other: User, user: User, id: Bytes, id': Bytes, key: nat, key': nat,
                           challenge: Bytes, handle: Str, pause: nat)
    requires Suits(x) && |id| < ID_LIMIT && |id'| < ID_LIMIT && id != id' && other.id != [] && user.id == []
    ensures var r := Register(x, EMPTY_SERVER, [], other, challenge, handle, key, id, [], 0);
            var r' := Register(x, r.0, r.1, user, challenge, handle, key', id', [], 0);
            && r.2.Registered? && r'.2.Registered? && HoldsOne(r'.0.world.repo, r'.1, user.id)
            && !Login(x, r'.0, r'.1, user.id, challenge, handle, pause).2.Authenticated?
  {
    hide Register, Login;
    RegistrationCompletes(x, EMPTY_SERVER, [], other, challenge, handle, key, id, [], 0);
    var r := Register(x, EMPTY_SERVER, [], other, challenge, handle, key, id, [], 0);
    var c := r.2.credential;
    assert r.0.world.repo == [c] && |r.1| == 1 && r.1[0].id == id;
    RegistrationCompletes(x, r.0, r.1, user, challenge, handle, key', id', [], 0);
    var r' := Register(x, r.0, r.1, user, challenge, handle, key', id', [], 0);
    var c' := r'.2.credential;
    TwoCredentials(c, c', A.StoredKey(id, key, x.crypto.utf8(other.id), x.rp.rpId, 0),
                   A.StoredKey(id', key', x.crypto.utf8(user.id), x.rp.rpId, 0));
    LoginFails(x, r'.0, r'.1, user.id, challenge, handle, pause);
  }

  lemma TwoCredentials(c: Credential, c': Credential, k: A.StoredKey, k': A.StoredKey)
    requires c.userId != [] && c'.userId == [] && c.credentialId == k.id != k'.id == c'.credentialId
    ensures var repo, keys := Assign([c], c'), A.AssignKey([k], k');
            Unique(repo) && HoldsOne(repo, keys, []) && !Ready(repo, keys, [])
  {
    var repo, keys := Assign([c], c'), A.AssignKey([k], k');
    var none: Repo, noKey: A.Keys := [], [];
    assert [c][1..] == none && [k][1..] == noKey;
    assert Assign(none, c') == [c'] && A.AssignKey(noKey, k') == [k'];
    assert repo == [c, c'] && keys == [k, k'];
    assert repo[1..] == [c'] && keys[1..] == [k'];
    assert ListByUser([c'], []) == [c'];
    assert ListByUser(repo, []) == [c'];
    assert c' in ListByUser(repo, []);
    assert A.FindKey(keys, c'.credentialId) == Some(k') by {
      assert A.FindKey(keys[1..], c'.credentialId) == Some(k');
    }
    assert Unique(repo);
  }
}
