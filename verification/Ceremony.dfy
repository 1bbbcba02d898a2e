/**
 One server call as a function of the state: the two services of `services/` and the two mutating
 handlers of `api/router.py`. `Step` takes what the challenge store returned as an argument, so that
 whatever is proved of it holds with any store; `ServerStep` closes the loop with the in-memory one.
 The engine is an arbitrary pair of verifying functions.
 */
module Ceremony {
  import opened Prelude
  import opened Domain
  import opened Json
  import opened Repository
  import Base64Url

  datatype Env = Env(
    config: Config,
    verifyRegistration: (Fields, Bytes) -> Result<VerifiedRegistration, PasskeyError>,
    verifyAuthentication: (Fields, Bytes, Credential) -> Result<VerifiedAuthentication, PasskeyError>)

  datatype World = World(repo: Repo, log: seq<AuditEvent>, now: Instant)

  datatype Op =
    | RegisterBegin(user: User, challenge: Bytes, handle: Str)
    | RegisterFinish(response: Fields, handle: Str, deviceName: Str)
    | AuthenticateBegin(userId: Option<Str>, challenge: Bytes, handle: Str)
    | AuthenticateFinish(response: Fields, handle: Str)
    | RenameCredential(owner: Str, idText: Str, name: Str)
    | RevokeCredential(owner: Str, idText: Str)
    | Advance(elapsed: nat)

  datatype Outcome =
    | Issued(challenge: Bytes, descriptors: Repo, handle: Str)
    | Registered(credential: Credential)
    | Authenticated(userId: Str, credential: Credential, userVerified: bool)
    | Failed(error: PasskeyError)
    | Done

  predicate IsBegin(op: Op) {
    op.RegisterBegin? || op.AuthenticateBegin?
  }

  predicate IsFinish(op: Op) {
    op.RegisterFinish? || op.AuthenticateFinish?
  }

  function Emit(w: World, kind: EventType, userId: Option<Str>, credentialId: Option<Str>, detail: Option<(nat, nat)>): World {
    w.(log := w.log + [AuditEvent(kind, w.now, userId, credentialId, detail)])
  }

  // ----- registration -----

  function FinishRegistration(env: Env, w: World, stored: Option<Challenge>, response: Fields, deviceName: Str): (World, Outcome) {
    if stored == None || !stored.value.RegistrationChallenge? then
      (Emit(w, ChallengeExpired, None, None, None), Failed(ChallengeNotFound))
    else
      var user := stored.value.user;
      match env.verifyRegistration(response, stored.value.challenge)
      case Err(e) => (Emit(w, RegistrationFailed, Some(user.id), None, None), Failed(e))
      case Ok(v) =>
        if Find(w.repo, v.credentialId).Some? then
          (Emit(w, RegistrationFailed, Some(user.id), None, None), Failed(CredentialAlreadyExists))
        else
          var c := NewCredential(env.config, v, user, deviceName, w.now);
          (Emit(w.(repo := Assign(w.repo, c)), RegistrationSucceeded, Some(user.id),
                Some(Base64Url.Encode(v.credentialId)), None),
           Registered(c))
  }

  function NewCredential(config: Config, v: VerifiedRegistration, user: User, deviceName: Str, now: Instant): Credential {
    Credential(v.credentialId, user.id, v.publicKey, v.signCount, v.transports, v.aaguid, v.backupEligible,
               v.backupState, deviceName, config.residentKeyRequired, v.attestationFmt, Some(now), None)
  }

  // ----- authentication -----

  const KEY_RAW_ID: Str := [0x72, 0x61, 0x77, 0x49, 0x64] // "rawId"
  const KEY_ID: Str := [0x69, 0x64]                       // "id"

  /** `_credential_id_from` on a dict. */
  function CredentialIdFrom(response: Fields): Option<Bytes> {
    var rawId := Get(response, KEY_RAW_ID);
    var raw := if rawId.Some? && Truthy(rawId.value) then rawId else Get(response, KEY_ID);
    if raw == None || !raw.value.JStr? then None else Base64Url.Decode(raw.value.s)
  }

  /** `_resolve_credential`: the credential the ceremony may use, if any. */
  function Resolve(repo: Repo, response: Fields, boundTo: Option<Str>): Option<Credential> {
    var id := CredentialIdFrom(response);
    var c := if id == None then None else Find(repo, id.value);
    if c == None || (boundTo.Some? && c.value.userId != boundTo.value) then None else c
  }

  predicate CountAdvances(oldCount: nat, newCount: nat) {
    (newCount == 0 && oldCount == 0) || newCount > oldCount
  }

  function FinishAuthentication(env: Env, w: World, stored: Option<Challenge>, response: Fields): (World, Outcome) {
    if stored == None || !stored.value.AuthenticationChallenge? then
      (Emit(w, ChallengeExpired, None, None, None), Failed(ChallengeNotFound))
    else
      var boundTo := stored.value.userId;
      match Resolve(w.repo, response, boundTo)
      case None => (Emit(w, AuthenticationFailed, boundTo, None, None), Failed(CredentialNotFound))
      case Some(c) =>
        match env.verifyAuthentication(response, stored.value.challenge, c)
        case Err(e) => (Emit(w, AuthenticationFailed, Some(c.userId), None, None), Failed(e))
        case Ok(v) =>
          var idText := Base64Url.Encode(c.credentialId);
          if !CountAdvances(c.signCount, v.newSignCount) then
            var w' := Emit(w, CloneSuspected, Some(c.userId), Some(idText), Some((c.signCount, v.newSignCount)));
            (if env.config.signCountPolicy.FlagDisable? then w'.(repo := Delete(w'.repo, c.credentialId, c.userId)) else w',
             Failed(CloneDetectedError))
          else
            var repo' := UpdateUsage(w.repo, c.credentialId, v.newSignCount, w.now);
            (Emit(w.(repo := repo'), AuthenticationSucceeded, Some(c.userId), Some(idText), None),
             Authenticated(c.userId, c.(signCount := v.newSignCount, lastUsedAt := Some(w.now)), v.userVerified))
  }

  // ----- one call -----

  /** The challenge a `begin` issues. */
  function NewChallenge(config: Config, now: Instant, op: Op): Challenge
    requires IsBegin(op)
  {
    match op
    case RegisterBegin(user, challenge, _) => RegistrationChallenge(challenge, user, now, now + config.challengeTtl)
    case AuthenticateBegin(userId, challenge, _) => AuthenticationChallenge(challenge, userId, now, now + config.challengeTtl)
  }

  /** One call, given what the challenge store returned for its handle (ignored unless it is a finish). */
  function Step(env: Env, w: World, op: Op, stored: Option<Challenge>): (World, Outcome) {
    match op
    case RegisterBegin(user, challenge, handle) =>
      (Emit(w, RegistrationBegan, Some(user.id), None, None),
       Issued(challenge, ListByUser(w.repo, user.id), handle))
    case AuthenticateBegin(userId, challenge, handle) =>
      (Emit(w, AuthenticationBegan, userId, None, None),
       Issued(challenge, if userId.Some? && userId.value != [] then ListByUser(w.repo, userId.value) else [], handle))
    case RegisterFinish(response, _, deviceName) => FinishRegistration(env, w, stored, response, deviceName)
    case AuthenticateFinish(response, _) => FinishAuthentication(env, w, stored, response)
    case RenameCredential(owner, idText, name) =>
      var id := Base64Url.Decode(idText);
      (if id == None then w else w.(repo := Rename(w.repo, id.value, owner, name)), Done)
    case RevokeCredential(owner, idText) =>
      var id := Base64Url.Decode(idText);
      (if id == None then w
       else Emit(w.(repo := Delete(w.repo, id.value, owner)), CredentialRevoked, Some(owner), Some(idText), None),
       Done)
    case Advance(elapsed) => (w.(now := w.now + elapsed), Done)
  }

  /** A call together with what the challenge store returned to it. */
  datatype Call = Call(op: Op, stored: Option<Challenge>)

  const EMPTY: World := World([], [], 0)

  /** The state after a run of calls, one after the other, on an empty server. */
  function Run(env: Env, calls: seq<Call>): World {
    if calls == [] then EMPTY
    else
      var last := calls[|calls| - 1];
      Step(env, Run(env, calls[..|calls| - 1]), last.op, last.stored).0
  }

  /** The outcome of call `i` of a run. */
  function OutcomeAt(env: Env, calls: seq<Call>, i: nat): Outcome
    requires i < |calls|
  {
    Step(env, Run(env, calls[..i]), calls[i].op, calls[i].stored).1
  }

  lemma RunStep(env: Env, calls: seq<Call>, i: nat)
    requires i < |calls|
    ensures Run(env, calls[..i + 1]) == Step(env, Run(env, calls[..i]), calls[i].op, calls[i].stored).0
  {
    assert calls[..i + 1][..i] == calls[..i];
  }

  // ----- the in-memory challenge store -----

  type ChallengeMap = map<Str, Challenge>

  datatype Server = Server(world: World, store: ChallengeMap)

  /** `consume`: pops the entry whatever its age, returns it unless it has expired. */
  function Consumed(store: ChallengeMap, handle: Str, now: Instant): Option<Challenge> {
    if handle !in store || now > store[handle].expiresAt then None else Some(store[handle])
  }

  function ServerStep(env: Env, s: Server, op: Op): (Server, Outcome) {
    var stored := if IsFinish(op) then Consumed(s.store, op.handle, s.world.now) else None;
    var r := Step(env, s.world, op, stored);
    var store' := if IsBegin(op) then s.store[op.handle := NewChallenge(env.config, s.world.now, op)]
                  else if IsFinish(op) then s.store - {op.handle}
                  else s.store;
    (Server(r.0, store'), r.1)
  }

  const EMPTY_SERVER: Server := Server(EMPTY, map[])

  function Serve(env: Env, ops: seq<Op>): Server {
    if ops == [] then EMPTY_SERVER
    else ServerStep(env, Serve(env, ops[..|ops| - 1]), ops[|ops| - 1]).0
  }

  function ServedOutcome(env: Env, ops: seq<Op>, i: nat): Outcome
    requires i < |ops|
  {
    ServerStep(env, Serve(env, ops[..i]), ops[i]).1
  }

  lemma ServeStep(env: Env, ops: seq<Op>, i: nat)
    requires i < |ops|
    ensures Serve(env, ops[..i + 1]) == ServerStep(env, Serve(env, ops[..i]), ops[i]).0
  {
    assert ops[..i + 1][..i] == ops[..i];
  }

  /** The calls an in-memory run makes, with what its store returned to each. */
  function CallsOf(env: Env, ops: seq<Op>): (calls: seq<Call>)
    ensures |calls| == |ops|
  {
    if ops == [] then []
    else
      var s := Serve(env, ops[..|ops| - 1]);
      var op := ops[|ops| - 1];
      CallsOf(env, ops[..|ops| - 1]) + [Call(op, if IsFinish(op) then Consumed(s.store, op.handle, s.world.now) else None)]
  }

  /** Every in-memory run is a run in the sense of `Run`, so what holds with any store holds there. */
  lemma {:induction false} ServeIsRun(env: Env, ops: seq<Op>)
    ensures Serve(env, ops).world == Run(env, CallsOf(env, ops))
  {
    if ops != [] {
      ServeIsRun(env, ops[..|ops| - 1]);
      var calls := CallsOf(env, ops);
      assert calls[..|calls| - 1] == CallsOf(env, ops[..|ops| - 1]);
    }
  }

  // ----- facts about one call that many properties use -----

  /** Ids stay unique. */
  lemma StepKeepsUnique(env: Env, w: World, op: Op, stored: Option<Challenge>)
    requires Unique(w.repo)
    ensures Unique(Step(env, w, op, stored).0.repo)
  {
    var w' := Step(env, w, op, stored).0;
    if w'.repo != w.repo {
      match op
      case RegisterFinish(response, _, deviceName) =>
        UniqueOfAssign(w.repo, Step(env, w, op, stored).1.credential);
      case AuthenticateFinish(response, _) =>
        var c := Resolve(w.repo, response, stored.value.userId).value;
        UniqueOfRemove(w.repo, c.credentialId);
        if Step(env, w, op, stored).1.Authenticated? {
          UniqueOfAssign(w.repo, Step(env, w, op, stored).1.credential);
        }
      case RenameCredential(owner, idText, name) =>
        var c := Find(w.repo, Base64Url.Decode(idText).value).value;
        UniqueOfAssign(w.repo, c.(deviceName := name));
      case RevokeCredential(owner, idText) =>
        UniqueOfRemove(w.repo, Base64Url.Decode(idText).value);
    }
  }

  lemma {:induction false} RunUnique(env: Env, calls: seq<Call>)
    ensures Unique(Run(env, calls).repo)
  {
    if calls != [] {
      var last := calls[|calls| - 1];
      RunUnique(env, calls[..|calls| - 1]);
      StepKeepsUnique(env, Run(env, calls[..|calls| - 1]), last.op, last.stored);
    }
  }

  /** What a call does to the entry at `id`, read off its outcome and operation. */
  function EntryAfter(env: Env, w: World, op: Op, stored: Option<Challenge>, id: Bytes): Option<Credential> {
    var before := Find(w.repo, id);
    var outcome := Step(env, w, op, stored).1;
    match op
    case RegisterFinish(_, _, _) =>
      if outcome.Registered? && outcome.credential.credentialId == id then Some(outcome.credential) else before
    case AuthenticateFinish(response, _) =>
      if CredentialIdFrom(response) != Some(id) then before
      else if outcome.Authenticated? then Some(outcome.credential)
      else if outcome == Failed(CloneDetectedError) && CloneStep(env, w, stored, response)
              && env.config.signCountPolicy.FlagDisable? then None
      else before
    case RenameCredential(owner, idText, name) =>
      if Base64Url.Decode(idText) == Some(id) && before.Some? && before.value.userId == owner
      then Some(before.value.(deviceName := name)) else before
    case RevokeCredential(owner, idText) =>
      if Base64Url.Decode(idText) == Some(id) && before.Some? && before.value.userId == owner then None else before
    case _ => before
  }

  /** The call reached the counter check and failed it. */
  predicate CloneStep(env: Env, w: World, stored: Option<Challenge>, response: Fields) {
    && stored.Some? && stored.value.AuthenticationChallenge?
    && var c := Resolve(w.repo, response, stored.value.userId);
    && c.Some?
    && var v := env.verifyAuthentication(response, stored.value.challenge, c.value);
    && v.Ok? && !CountAdvances(c.value.signCount, v.value.newSignCount)
  }

  /** Every lookup after a call, in every state with unique ids. */
  lemma FindAfterStep(env: Env, w: World, op: Op, stored: Option<Challenge>, id: Bytes)
    requires Unique(w.repo)
    ensures Find(Step(env, w, op, stored).0.repo, id) == EntryAfter(env, w, op, stored, id)
  {
    hide Base64Url.Decode, Base64Url.Encode, CredentialIdFrom, Find;
    var outcome := Step(env, w, op, stored).1;
    match op
    case RegisterFinish(_, _, _) =>
      if outcome.Registered? {
        FindOfAssign(w.repo, outcome.credential, id);
      }
    case AuthenticateFinish(response, _) =>
      if stored.Some? && stored.value.AuthenticationChallenge? {
        var r := Resolve(w.repo, response, stored.value.userId);
        if r.Some? {
          FindOfRemove(w.repo, r.value.credentialId, id);
          if outcome.Authenticated? {
            FindOfAssign(w.repo, outcome.credential, id);
          }
        }
      }
    case RenameCredential(owner, idText, name) =>
      var d := Base64Url.Decode(idText);
      if d.Some? && Find(w.repo, d.value).Some? {
        FindOfAssign(w.repo, Find(w.repo, d.value).value.(deviceName := name), id);
      }
    case RevokeCredential(owner, idText) =>
      var d := Base64Url.Decode(idText);
      if d.Some? {
        FindOfRemove(w.repo, d.value, id);
      }
    case _ =>
  }

  /** What a call's outcome says about the lookups before and after it, at any id. */
  ghost predicate Effect(repo: Repo, repo': Repo, outcome: Outcome, id: Bytes) {
    var before, after := Find(repo, id), Find(repo', id);
    match outcome
    case Registered(c) =>
      if id == c.credentialId then before == None && after == Some(c) else after == before
    case Authenticated(userId, c, _) =>
      if id == c.credentialId then
        && before.Some? && after == Some(c)
        && c == before.value.(signCount := c.signCount, lastUsedAt := c.lastUsedAt)
        && userId == c.userId && CountAdvances(before.value.signCount, c.signCount)
      else after == before
    case _ =>
      after.Some? ==> before.Some? && after.value == before.value.(deviceName := after.value.deviceName)
  }

  lemma StepEffect(env: Env, w: World, op: Op, stored: Option<Challenge>, id: Bytes)
    requires Unique(w.repo)
    ensures Effect(w.repo, Step(env, w, op, stored).0.repo, Step(env, w, op, stored).1, id)
  {
    FindAfterStep(env, w, op, stored, id);
    if op.AuthenticateFinish? && Step(env, w, op, stored).1.Authenticated? {
      var c := Resolve(w.repo, op.response, stored.value.userId).value;
      assert CredentialIdFrom(op.response) == Some(c.credentialId);
    }
  }
}
