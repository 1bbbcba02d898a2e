/**
 Two overlapping logins with one credential, verified by the standard engine: both are accepted, and
 the later write stands whatever the earlier one wrote.
 */
module Races {
  import opened Prelude
  import opened Domain
  import opened Json
  import opened Ceremony
  import opened Interleaving
  import opened StandardEngine
  import opened EndToEnd
  import AuthenticatorData
  import A = Authenticator
  import Repository
  import AloneRuns
  import Sql = SqlRepository

  /** A login of the race: its handle, the challenge under it, and the device's response with a count. */
  datatype Entrant = Entrant(t: nat, handle: Str, challenge: Challenge, response: Fields, count: nat)

  /** The device answers the challenge with the key `k` and the given count. */
  ghost predicate Answers(x: Setting, k: A.StoredKey, p: Entrant) {
    && p.challenge.AuthenticationChallenge? && p.challenge.userId == None && p.count < AuthenticatorData.COUNT_LIMIT
    && AuthenticatorData.Encodable(A.AssertionData(x.crypto, x.traits, x.rp.rpId, p.count))
    && p.response == A.AssertionResponse(x.crypto, x.traits, k, x.rp.rpId, p.challenge.challenge, x.origin, p.count)
  }

  /** Issue and start both, let both fetch their challenge and look up the credential, then finish one after the other. */
  function Opening(p: Entrant, q: Entrant): seq<Event> {
    [Issue(p.handle, p.challenge), Issue(q.handle, q.challenge),
     Spawn(p.t, AuthConsume(p.response, p.handle)), Spawn(q.t, AuthConsume(q.response, q.handle))]
  }

  function Reads(p: Entrant, q: Entrant): seq<Event> {
    [Resume(p.t), Resume(q.t), Resume(p.t), Resume(q.t)]
  }

  function Finishes(p: Entrant): seq<Event> {
    [Resume(p.t), Resume(p.t)]
  }

  function Race(p: Entrant, q: Entrant): seq<Event> {
    Opening(p, q) + Reads(p, q) + Finishes(p) + Finishes(q)
  }

  lemma Opened(env: Env, s: Sys, p: Entrant, q: Entrant)
    requires p.t != q.t && p.t !in s.tasks && q.t !in s.tasks && p.handle != q.handle
    ensures var s4 := Act(env, Act(env, Act(env, Act(env, s, Opening(p, q)[0]), Opening(p, q)[1]), Opening(p, q)[2]), Opening(p, q)[3]);
            s4 == s.(challenges := s.challenges[p.handle := p.challenge][q.handle := q.challenge],
                     tasks := s.tasks[p.t := AuthConsume(p.response, p.handle)][q.t := AuthConsume(q.response, q.handle)])
  {
    hide Advanced;
  }

  lemma Fetched(env: Env, s: Sys, p: Entrant, id: Bytes)
    requires p.t in s.tasks && s.tasks[p.t] == AuthConsume(p.response, p.handle) && CredentialIdFrom(p.response) == Some(id)
    requires p.handle in s.challenges && s.challenges[p.handle] == p.challenge
    requires p.challenge.AuthenticationChallenge? && s.now <= p.challenge.expiresAt
    ensures Act(env, s, Resume(p.t))
            == s.(challenges := s.challenges - {p.handle}, tasks := s.tasks[p.t := AuthLookup(p.response, id, p.challenge)])
  {
    hide CredentialIdFrom;
  }

  lemma ReadOk(env: Env, s: Sys, p: Entrant, c: Credential, v: VerifiedAuthentication)
    requires p.challenge.AuthenticationChallenge? && p.challenge.userId == None
    requires p.t in s.tasks && s.tasks[p.t] == AuthLookup(p.response, c.credentialId, p.challenge)
    requires Sql.Get(s.table, c.credentialId) == Some(c)
    requires env.verifyAuthentication(p.response, p.challenge.challenge, c) == Ok(v) && CountAdvances(c.signCount, v.newSignCount)
    ensures Act(env, s, Resume(p.t)) == s.(tasks := s.tasks[p.t := AuthUpdate(c, v, s.now)])
  {
    AloneRuns.LookupStep(env, s, p.t, p.response, c.credentialId, p.challenge);
  }

  /** What verification gives an entrant. */
  function Verdict(x: Setting, k: A.StoredKey, p: Entrant): VerifiedAuthentication {
    VerifiedAuthentication(k.id, p.count, x.traits.userVerified)
  }

  lemma Verifies(x: Setting, k: A.StoredKey, p: Entrant, c: Credential)
    requires Suits(x) && Answers(x, k, p) && c.publicKey == x.crypto.publicKey(k.key)
    ensures CredentialIdFrom(p.response) == Some(k.id)
    ensures EnvOf(x).verifyAuthentication(p.response, p.challenge.challenge, c) == Ok(Verdict(x, k, p))
  {
    AssertionVerifies(x.rp, x.crypto, x.traits, k, p.challenge.challenge, x.origin, p.count, c);
    AssertionCarries(x.rp, x.crypto, x.traits, k, x.rp.rpId, p.challenge.challenge, x.origin, p.count, p.challenge.challenge, c);
  }

  lemma VerifiesAbove(x: Setting, k: A.StoredKey, p: Entrant, c: Credential)
    requires Suits(x) && Answers(x, k, p) && c.publicKey == x.crypto.publicKey(k.key) && c.signCount < p.count
    ensures p.challenge.AuthenticationChallenge? && p.challenge.userId == None && CredentialIdFrom(p.response) == Some(k.id)
    ensures EnvOf(x).verifyAuthentication(p.response, p.challenge.challenge, c) == Ok(Verdict(x, k, p))
    ensures CountAdvances(c.signCount, Verdict(x, k, p).newSignCount)
    ensures Verdict(x, k, p).newSignCount == p.count && Verdict(x, k, p).userVerified == x.traits.userVerified
  {
    hide Suits, EnvOf, CredentialIdFrom;
    Verifies(x, k, p, c);
  }

  lemma BothFetch(env: Env, s: Sys, p: Entrant, q: Entrant, id: Bytes)
    requires CredentialIdFrom(p.response) == Some(id) && CredentialIdFrom(q.response) == Some(id)
    requires p.challenge.AuthenticationChallenge? && q.challenge.AuthenticationChallenge?
    requires p.t != q.t && p.handle != q.handle
    requires p.handle in s.challenges && s.challenges[p.handle] == p.challenge && s.now <= p.challenge.expiresAt
    requires q.handle in s.challenges && s.challenges[q.handle] == q.challenge && s.now <= q.challenge.expiresAt
    requires p.t in s.tasks && s.tasks[p.t] == AuthConsume(p.response, p.handle)
    requires q.t in s.tasks && s.tasks[q.t] == AuthConsume(q.response, q.handle)
    ensures Act(env, Act(env, s, Resume(p.t)), Resume(q.t))
            == s.(challenges := s.challenges - {p.handle} - {q.handle},
                  tasks := s.tasks[p.t := AuthLookup(p.response, id, p.challenge)][q.t := AuthLookup(q.response, id, q.challenge)])
  {
    hide Act, CredentialIdFrom;
    Fetched(env, s, p, id);
    Fetched(env, Act(env, s, Resume(p.t)), q, id);
  }

  lemma BothLookUp(env: Env, s: Sys, p: Entrant, q: Entrant, c: Credential, v: VerifiedAuthentication, u: VerifiedAuthentication)
    requires p.challenge.AuthenticationChallenge? && p.challenge.userId == None
    requires q.challenge.AuthenticationChallenge? && q.challenge.userId == None
    requires p.t != q.t && Sql.Get(s.table, c.credentialId) == Some(c)
    requires p.t in s.tasks && s.tasks[p.t] == AuthLookup(p.response, c.credentialId, p.challenge)
    requires q.t in s.tasks && s.tasks[q.t] == AuthLookup(q.response, c.credentialId, q.challenge)
    requires env.verifyAuthentication(p.response, p.challenge.challenge, c) == Ok(v) && CountAdvances(c.signCount, v.newSignCount)
    requires env.verifyAuthentication(q.response, q.challenge.challenge, c) == Ok(u) && CountAdvances(c.signCount, u.newSignCount)
    ensures Act(env, Act(env, s, Resume(p.t)), Resume(q.t))
            == s.(tasks := s.tasks[p.t := AuthUpdate(c, v, s.now)][q.t := AuthUpdate(c, u, s.now)])
  {
    hide Act, Sql.Get, CountAdvances;
    ReadOk(env, s, p, c, v);
    ReadOk(env, Act(env, s, Resume(p.t)), q, c, u);
  }

  /** Write and report. */
  lemma Finished2(env: Env, s: Sys, t: nat, c: Credential, v: VerifiedAuthentication, at: Instant)
    requires t in s.tasks && s.tasks[t] == AuthUpdate(c, v, at) && Sql.Keyed(s.table)
    ensures var s' := Act(env, Act(env, s, Resume(t)), Resume(t));
            && s'.tasks == s.tasks[t := Finished(Authenticated(c.userId, c.(signCount := v.newSignCount, lastUsedAt := Some(at)), v.userVerified))]
            && s'.challenges == s.challenges && s'.now == s.now
            && Sql.Keyed(s'.table)
            && Sql.RowAt(s'.table, c.credentialId) == Sql.RowAfter(s.table, Sql.Usage(c.credentialId, v.newSignCount, at), c.credentialId)
  {
    hide Sql.UpdateUsage, Decide, Sql.Keyed;
    var s' := Act(env, Act(env, s, Resume(t)), Resume(t));
    Sql.RowsAfter(s.table, Sql.Usage(c.credentialId, v.newSignCount, at));
    assert s'.tasks == s.tasks[t := s'.tasks[t]];
  }

  /**
   From every reachable state in which a device's credential is stored, and for any two counts above
   the stored one: two logins that overlap so are both accepted with their own counts, and the count
   of the later write stands. If it is the smaller one the stored count goes down; if they are equal,
   one positive count is accepted twice.
   */
  lemma {:induction false} RacingCallsBothSucceed(x: Setting, events: seq<Event>, k: A.StoredKey, p: Entrant, q: Entrant, c: Credential)
    requires Suits(x) && Answers(x, k, p) && Answers(x, k, q)
    requires var s := After(EnvOf(x), events);
             && Sql.Get(s.table, k.id) == Some(c) && c.credentialId == k.id && c.publicKey == x.crypto.publicKey(k.key)
             && p.t != q.t && p.t !in s.tasks && q.t !in s.tasks && p.handle != q.handle
             && s.now <= p.challenge.expiresAt && s.now <= q.challenge.expiresAt
    requires c.signCount < p.count && c.signCount < q.count
    ensures var env := EnvOf(x);
            var now := After(env, events).now;
            var mid, end := After(env, events + Opening(p, q) + Reads(p, q) + Finishes(p)), After(env, events + Race(p, q));
            && Sql.Get(mid.table, k.id) == Some(c.(signCount := p.count, lastUsedAt := Some(now)))
            && Sql.Get(end.table, k.id) == Some(c.(signCount := q.count, lastUsedAt := Some(now)))
            && p.t in end.tasks && q.t in end.tasks
            && end.tasks[p.t] == Finished(Authenticated(c.userId, c.(signCount := p.count, lastUsedAt := Some(now)), x.traits.userVerified))
            && end.tasks[q.t] == Finished(Authenticated(c.userId, c.(signCount := q.count, lastUsedAt := Some(now)), x.traits.userVerified))
  {
    var env := EnvOf(x);
    var s := After(env, events);
    var v, u := Verdict(x, k, p), Verdict(x, k, q);
    hide *;
    VerifiesAbove(x, k, p, c);
    VerifiesAbove(x, k, q, c);
    assert events[..|events|] == events;
    KeyedAfter(env, events);
    RaceReads(env, events, p, q, c, v, u);
    var e2 := events + Opening(p, q) + Reads(p, q);
    RaceFinishes(env, e2, p, q, c, v, u, s.now);
    RaceParts(events, p, q);
    RowIsCredential(s.table, After(env, e2 + Finishes(p)).table, c, v.newSignCount, s.now);
    RowIsCredential(After(env, e2 + Finishes(p)).table, After(env, e2 + Finishes(p) + Finishes(q)).table,
                    c.(signCount := v.newSignCount, lastUsedAt := Some(s.now)), u.newSignCount, s.now);
  }

  lemma RaceParts(events: seq<Event>, p: Entrant, q: Entrant)
    ensures events + Opening(p, q) + Reads(p, q) + Finishes(p) + Finishes(q) == events + Race(p, q)
  {
  }

  lemma RowIsCredential(t: Table, t': Table, c: Credential, count: nat, at: Instant)
    requires Sql.Get(t, c.credentialId) == Some(c)
    requires Sql.RowAt(t', c.credentialId) == Sql.RowAfter(t, Sql.Usage(c.credentialId, count, at), c.credentialId)
    ensures Sql.Get(t', c.credentialId) == Some(c.(signCount := count, lastUsedAt := Some(at)))
  {
  }

  /** The first eight events of the race, for any engine that accepts both responses. */
  lemma RaceReads(env: Env, events: seq<Event>, p: Entrant, q: Entrant, c: Credential, v: VerifiedAuthentication, u: VerifiedAuthentication)
    requires p.challenge.AuthenticationChallenge? && p.challenge.userId == None
    requires q.challenge.AuthenticationChallenge? && q.challenge.userId == None
    requires CredentialIdFrom(p.response) == Some(c.credentialId) && CredentialIdFrom(q.response) == Some(c.credentialId)
    requires env.verifyAuthentication(p.response, p.challenge.challenge, c) == Ok(v) && CountAdvances(c.signCount, v.newSignCount)
    requires env.verifyAuthentication(q.response, q.challenge.challenge, c) == Ok(u) && CountAdvances(c.signCount, u.newSignCount)
    requires var s := After(env, events);
             && Sql.Get(s.table, c.credentialId) == Some(c)
             && p.t != q.t && p.t !in s.tasks && q.t !in s.tasks && p.handle != q.handle
             && s.now <= p.challenge.expiresAt && s.now <= q.challenge.expiresAt
    ensures var s, s' := After(env, events), After(env, events + Opening(p, q) + Reads(p, q));
            && s'.table == s.table && s'.now == s.now && p.t in s'.tasks && q.t in s'.tasks
            && s'.tasks[p.t] == AuthUpdate(c, v, s.now) && s'.tasks[q.t] == AuthUpdate(c, u, s.now)
  {
    hide Act, CredentialIdFrom, Sql.Get, CountAdvances, After;
    var s, e1 := After(env, events), events + Opening(p, q);
    FourMore(env, events, Opening(p, q)[0], Opening(p, q)[1], Opening(p, q)[2], Opening(p, q)[3]);
    Opened(env, s, p, q);
    var s1 := After(env, e1);
    FourMore(env, e1, Resume(p.t), Resume(q.t), Resume(p.t), Resume(q.t));
    BothFetch(env, s1, p, q, c.credentialId);
    BothLookUp(env, Act(env, Act(env, s1, Resume(p.t)), Resume(q.t)), p, q, c, v, u);
  }

  /** The last four. */
  lemma RaceFinishes(env: Env, events: seq<Event>, p: Entrant, q: Entrant, c: Credential, v: VerifiedAuthentication,
                     u: VerifiedAuthentication, at: Instant)
    requires var s := After(env, events);
             && Sql.Keyed(s.table) && p.t != q.t && p.t in s.tasks && q.t in s.tasks
             && s.tasks[p.t] == AuthUpdate(c, v, at) && s.tasks[q.t] == AuthUpdate(c, u, at)
    ensures var s, mid, end := After(env, events), After(env, events + Finishes(p)), After(env, events + Finishes(p) + Finishes(q));
            && Sql.RowAt(mid.table, c.credentialId)
               == Sql.RowAfter(s.table, Sql.Usage(c.credentialId, v.newSignCount, at), c.credentialId)
            && Sql.RowAt(end.table, c.credentialId)
               == Sql.RowAfter(mid.table, Sql.Usage(c.credentialId, u.newSignCount, at), c.credentialId)
            && p.t in end.tasks && q.t in end.tasks
            && end.tasks[p.t] == Finished(Authenticated(c.userId, c.(signCount := v.newSignCount, lastUsedAt := Some(at)), v.userVerified))
            && end.tasks[q.t] == Finished(Authenticated(c.userId, c.(signCount := u.newSignCount, lastUsedAt := Some(at)), u.userVerified))
  {
    hide Act, After, Sql.Keyed, Sql.RowAfter, Sql.RowAt;
    TwoMore(env, events, Resume(p.t), Resume(p.t));
    Finished2(env, After(env, events), p.t, c, v, at);
    TwoMore(env, events + Finishes(p), Resume(q.t), Resume(q.t));
    Finished2(env, After(env, events + Finishes(p)), q.t, c, u, at);
  }

  // ----- such a state is reachable -----

  function Registration(handle: Str, challenge: Challenge, response: Fields, name: Str): seq<Event> {
    [Issue(handle, challenge), Spawn(0, RegConsume(response, handle, name))]
  }

  /** Registering the device's key through the step model, from the start, stores it with count zero. */
  lemma {:induction false} RegisteredFirst(x: Setting, handle: Str, challenge: Challenge, key: nat, id: Bytes, name: Str) returns (events: seq<Event>)
    requires Suits(x) && |id| < AuthenticatorData.ID_LIMIT && challenge.RegistrationChallenge?
    ensures var s := After(EnvOf(x), events);
            && s.tasks.Keys == {0} && s.now == 0
            && var c := Sql.Get(s.table, id);
               c.Some? && c.value.credentialId == id && c.value.publicKey == x.crypto.publicKey(key)
               && c.value.signCount == 0 && c.value.userId == challenge.user.id
  {
    var env := EnvOf(x);
    AttestationVerifies(x.rp, x.crypto, x.traits, x.aaguid, challenge.challenge, x.origin, key, id);
    var response := A.Envelope(id, A.AttestationInner(A.ClientData(A.TYPE_CREATE, challenge.challenge, x.origin),
                      x.crypto.wrap(AuthenticatorData.Layout(A.AttestationData(x.crypto, x.traits, x.aaguid, x.rp.rpId, id, key)))));
    assert env.verifyRegistration(response, challenge.challenge) == VerifyAttestation(x.rp, x.crypto, response, challenge.challenge);
    events := RegistersAlone(env, handle, challenge, response, name);
  }

  /** Any attestation the engine accepts registers, when the server is empty and the call runs alone. */
  lemma {:induction false} RegistersAlone(env: Env, handle: Str, challenge: Challenge, response: Fields, name: Str) returns (events: seq<Event>)
    requires challenge.RegistrationChallenge? && env.verifyRegistration(response, challenge.challenge).Ok?
    ensures var v := env.verifyRegistration(response, challenge.challenge).value;
            var s := After(env, events);
            && s.tasks.Keys == {0} && s.now == 0
            && Sql.Get(s.table, v.credentialId) == Some(NewCredential(env.config, v, challenge.user, name, 0))
  {
    hide Advanced, Sql.Agrees, NewCredential;
    var start := Registration(handle, challenge, response, name);
    TwoMore(env, [], start[0], start[1]);
    assert [] + [start[0], start[1]] == start;
    var s := After(env, start);
    assert s == START.(challenges := map[handle := challenge], tasks := map[0 := RegConsume(response, handle, name)]);
    EmptyAgrees();
    AloneRuns.AloneRegistration(env, s, 0, []);
    AloneRuns.AloneIsRun(env, start, 0, 4);
    events := start + seq(4, _ => Resume(0));
    var v := env.verifyRegistration(response, challenge.challenge).value;
    var c := NewCredential(env.config, v, challenge.user, name, 0);
    FirstRegistration(env, handle, challenge, response, name);
    Sql.AgreesAt(After(env, events).table, [c], v.credentialId);
    NewId(env.config, v, challenge.user, name, 0);
    assert Repository.Find([c], v.credentialId) == Some(c);
  }

  lemma NewId(config: Config, v: VerifiedRegistration, user: User, name: Str, now: Instant)
    ensures NewCredential(config, v, user, name, now).credentialId == v.credentialId
  {
  }

  lemma FirstRegistration(env: Env, handle: Str, challenge: Challenge, response: Fields, name: Str)
    requires challenge.RegistrationChallenge? && env.verifyRegistration(response, challenge.challenge).Ok?
    ensures ServerStep(env, Server(World([], [], 0), map[handle := challenge]), RegisterFinish(response, handle, name)).0.world.repo
            == [NewCredential(env.config, env.verifyRegistration(response, challenge.challenge).value, challenge.user, name, 0)]
  {
    hide NewCredential;
  }

  lemma EmptyAgrees()
    ensures Sql.Agrees(map[], [])
  {
  }

  /**
   So from the start of a server: a registration and two logins after which the stored count is the
   smaller of the two accepted ones.
   */
  lemma {:induction false} LoweredFromTheStart(x: Setting, user: User, key: nat, id: Bytes, begun: Bytes, first: Bytes, second: Bytes, high: nat, low: nat)
    returns (events: seq<Event>, n: nat)
    requires Suits(x) && |id| < AuthenticatorData.ID_LIMIT && 0 < low <= high < AuthenticatorData.COUNT_LIMIT
    ensures n <= |events|
    ensures var before, after := RowNow(EnvOf(x), events, n, id), RowNow(EnvOf(x), events, |events|, id);
            before.Some? && before.value.signCount == high && after.Some? && after.value.signCount == low
    ensures var tasks := After(EnvOf(x), events).tasks;
            && 1 in tasks && tasks[1].Finished? && tasks[1].outcome.Authenticated? && tasks[1].outcome.credential.signCount == high
            && 2 in tasks && tasks[2].Finished? && tasks[2].outcome.Authenticated? && tasks[2].outcome.credential.signCount == low
  {
    hide *;
    var k := A.StoredKey(id, key, [], x.rp.rpId, 0);
    var p := EntrantWith(x, k, 1, [1], first, high);
    var q := EntrantWith(x, k, 2, [2], second, low);
    assert p.handle[0] != q.handle[0];
    var prefix := RegisteredFirst(x, [], RegistrationChallenge(begun, user, 0, x.config.challengeTtl), key, id, []);
    var s := After(EnvOf(x), prefix);
    var c := Sql.Get(s.table, id).value;
    RacingCallsBothSucceed(x, prefix, k, p, q, c);
    var mid := prefix + Opening(p, q) + Reads(p, q) + Finishes(p);
    events, n := prefix + Race(p, q), |mid|;
    RaceExtends(prefix, p, q);
    assert events[..|events|] == events;
    RowOfGet(EnvOf(x), events, n, id);
    RowOfGet(EnvOf(x), events, |events|, id);
  }

  lemma {:induction false} EntrantWith(x: Setting, k: A.StoredKey, t: nat, handle: Str, challenge: Bytes, count: nat) returns (p: Entrant)
    requires Suits(x) && count < AuthenticatorData.COUNT_LIMIT
    ensures Answers(x, k, p) && p.t == t && p.handle == handle && p.count == count
    ensures p.challenge == AuthenticationChallenge(challenge, None, 0, x.config.challengeTtl)
  {
    AuthenticatorData.FlagsReadBack(x.traits, false);
    p := Entrant(t, handle, AuthenticationChallenge(challenge, None, 0, x.config.challengeTtl),
                 A.AssertionResponse(x.crypto, x.traits, k, x.rp.rpId, challenge, x.origin, count), count);
  }

  lemma RaceExtends(events: seq<Event>, p: Entrant, q: Entrant)
    ensures var mid, all := events + Opening(p, q) + Reads(p, q) + Finishes(p), events + Race(p, q);
            |mid| <= |all| && all[..|mid|] == mid
  {
  }

  lemma RowOfGet(env: Env, events: seq<Event>, n: nat, id: Bytes)
    requires n <= |events| && Sql.Get(After(env, events[..n]).table, id).Some?
    ensures RowNow(env, events, n, id).Some?
    ensures RowNow(env, events, n, id).value.signCount == Sql.Get(After(env, events[..n]).table, id).value.signCount
  {
    hide After;
  }
}
