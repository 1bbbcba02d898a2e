/**
 Overlapping calls on the SQL repository and a single-use challenge store: every `await` of a call is
 one step, and between two steps of a call any other call may run. Steps change the row table by the
 statements of the repository, and a challenge is fetched and deleted in one step.
 */
module Interleaving {
  import opened Prelude
  import opened Domain
  import opened Json
  import opened Ceremony
  import Sql = SqlRepository
  import Base64Url

  type Table = Sql.Table

  /** Where a call stands: what its next step does and the local values it holds. */
  datatype Task =
    | AuthConsume(response: Fields, handle: Str)
    | AuthLookup(response: Fields, id: Bytes, challenge: Challenge)
    | AuthUpdate(credential: Credential, verified: VerifiedAuthentication, at: Instant)
    | AuthReport(credential: Credential, verified: VerifiedAuthentication, at: Instant)
    | CloneReport(credential: Credential, verified: VerifiedAuthentication, at: Instant)
    | CloneDisable(credential: Credential)
    | RegConsume(response: Fields, handle: Str, deviceName: Str)
    | RegLookup(user: User, attested: VerifiedRegistration, deviceName: Str)
    | RegAdd(credential: Credential, at: Instant)
    | RegReport(credential: Credential, at: Instant)
    | FailReport(kind: EventType, userId: Option<Str>, at: Instant, error: PasskeyError)
    | RenameStart(owner: Str, id: Bytes, name: Str)
    | RevokeStart(owner: Str, id: Bytes, idText: Str)
    | RevokeReport(owner: Str, idText: Str, at: Instant)
    | Finished(outcome: Outcome)
    | Crashed // the integrity error of a duplicate key, which no service catches

  datatype Sys = Sys(table: Table, challenges: ChallengeMap, log: seq<AuditEvent>, now: Instant, tasks: map<nat, Task>)

  datatype Event =
    | Spawn(t: nat, task: Task)
    | Resume(t: nat)
    | Issue(handle: Str, challenge: Challenge)
    | Tick(elapsed: nat)

  /** How calls begin; the handlers of the credential list have decoded the id. */
  predicate Initial(task: Task) {
    || task.AuthConsume? || task.RegConsume? || task.RenameStart?
    || (task.RevokeStart? && Base64Url.Decode(task.idText) == Some(task.id))
  }

  function Emitted(s: Sys, kind: EventType, at: Instant, userId: Option<Str>, id: Option<Str>, detail: Option<(nat, nat)>): Sys {
    s.(log := s.log + [AuditEvent(kind, at, userId, id, detail)])
  }

  /** After the lookup: the decisions up to the next `await`. */
  function Decide(env: Env, now: Instant, response: Fields, challenge: Challenge, found: Option<Credential>): Task
    requires challenge.AuthenticationChallenge?
  {
    if found == None || (challenge.userId.Some? && found.value.userId != challenge.userId.value) then
      FailReport(AuthenticationFailed, challenge.userId, now, CredentialNotFound)
    else
      match env.verifyAuthentication(response, challenge.challenge, found.value)
      case Err(e) => FailReport(AuthenticationFailed, Some(found.value.userId), now, e)
      case Ok(v) =>
        if CountAdvances(found.value.signCount, v.newSignCount) then AuthUpdate(found.value, v, now)
        else CloneReport(found.value, v, now)
  }

  /** One step of task `t`: the shared state after it and where the task then stands. */
  function Advanced(env: Env, s: Sys, task: Task): (Sys, Task) {
    match task
    case AuthConsume(response, handle) =>
      var stored := Consumed(s.challenges, handle, s.now);
      var s' := s.(challenges := s.challenges - {handle});
      if stored == None || !stored.value.AuthenticationChallenge? then
        (s', FailReport(ChallengeExpired, None, s.now, ChallengeNotFound))
      else
        var id := CredentialIdFrom(response);
        (s', if id == None then Decide(env, s.now, response, stored.value, None)
             else AuthLookup(response, id.value, stored.value))
    case AuthLookup(response, id, challenge) =>
      if challenge.AuthenticationChallenge? then (s, Decide(env, s.now, response, challenge, Sql.Get(s.table, id)))
      else (s, task)
    case AuthUpdate(c, v, at) =>
      (s.(table := Sql.UpdateUsage(s.table, c.credentialId, v.newSignCount, at)), AuthReport(c, v, at))
    case AuthReport(c, v, at) =>
      (Emitted(s, AuthenticationSucceeded, at, Some(c.userId), Some(Base64Url.Encode(c.credentialId)), None),
       Finished(Authenticated(c.userId, c.(signCount := v.newSignCount, lastUsedAt := Some(at)), v.userVerified)))
    case CloneReport(c, v, at) =>
      (Emitted(s, CloneSuspected, at, Some(c.userId), Some(Base64Url.Encode(c.credentialId)), Some((c.signCount, v.newSignCount))),
       if env.config.signCountPolicy.FlagDisable? then CloneDisable(c) else Finished(Failed(CloneDetectedError)))
    case CloneDisable(c) =>
      (s.(table := Sql.Delete(s.table, c.credentialId, c.userId)), Finished(Failed(CloneDetectedError)))
    case RegConsume(response, handle, deviceName) =>
      var stored := Consumed(s.challenges, handle, s.now);
      var s' := s.(challenges := s.challenges - {handle});
      if stored == None || !stored.value.RegistrationChallenge? then
        (s', FailReport(ChallengeExpired, None, s.now, ChallengeNotFound))
      else
        (match env.verifyRegistration(response, stored.value.challenge)
         case Err(e) => (s', FailReport(RegistrationFailed, Some(stored.value.user.id), s.now, e))
         case Ok(v) => (s', RegLookup(stored.value.user, v, deviceName)))
    case RegLookup(user, v, deviceName) =>
      if Sql.Get(s.table, v.credentialId).Some? then
        (s, FailReport(RegistrationFailed, Some(user.id), s.now, CredentialAlreadyExists))
      else (s, RegAdd(NewCredential(env.config, v, user, deviceName, s.now), s.now))
    case RegAdd(c, at) =>
      (match Sql.Insert(s.table, c)
       case None => (s, Crashed)
       case Some(table') => (s.(table := table'), RegReport(c, at)))
    case RegReport(c, at) =>
      (Emitted(s, RegistrationSucceeded, at, Some(c.userId), Some(Base64Url.Encode(c.credentialId)), None),
       Finished(Registered(c)))
    case FailReport(kind, userId, at, error) => (Emitted(s, kind, at, userId, None, None), Finished(Failed(error)))
    case RenameStart(owner, id, name) =>
      (s.(table := Sql.Rename(s.table, id, owner, name)), Finished(Done))
    case RevokeStart(owner, id, idText) =>
      (s.(table := Sql.Delete(s.table, id, owner)), RevokeReport(owner, idText, s.now))
    case RevokeReport(owner, idText, at) =>
      (Emitted(s, CredentialRevoked, at, Some(owner), Some(idText), None), Finished(Done))
    case Finished(_) => (s, task)
    case Crashed => (s, task)
  }

  function Act(env: Env, s: Sys, e: Event): Sys {
    match e
    case Spawn(t, task) => if t in s.tasks || !Initial(task) then s else s.(tasks := s.tasks[t := task])
    case Resume(t) =>
      if t !in s.tasks then s
      else
        var r := Advanced(env, s, s.tasks[t]);
        r.0.(tasks := s.tasks[t := r.1])
    case Issue(handle, challenge) => s.(challenges := s.challenges[handle := challenge])
    case Tick(elapsed) => s.(now := s.now + elapsed)
  }

  const START: Sys := Sys(map[], map[], [], 0, map[])

  function After(env: Env, events: seq<Event>): Sys {
    if events == [] then START else Act(env, After(env, events[..|events| - 1]), events[|events| - 1])
  }

  function At(env: Env, events: seq<Event>, n: nat): Sys
    requires n <= |events|
  {
    After(env, events[..n])
  }

  lemma AtNext(env: Env, events: seq<Event>, n: nat)
    requires n < |events|
    ensures At(env, events, n + 1) == Act(env, At(env, events, n), events[n])
  {
    assert events[..n + 1][..n] == events[..n];
  }

  lemma OneMore(env: Env, events: seq<Event>, a: Event)
    ensures After(env, events + [a]) == Act(env, After(env, events), a)
  {
    hide Act;
    assert (events + [a])[..|events|] == events;
  }

  lemma TwoMore(env: Env, events: seq<Event>, a: Event, b: Event)
    ensures After(env, events + [a, b]) == Act(env, Act(env, After(env, events), a), b)
  {
    var n := |events|;
    var all := events + [a, b];
    assert all[..n + 1][..n] == events && all[..n + 2] == all && all[..n + 1] == events + [a];
    AtNext(env, all, n);
    AtNext(env, all, n + 1);
    assert all[..n] == events;
  }

  lemma FourMore(env: Env, events: seq<Event>, a: Event, b: Event, c: Event, d: Event)
    ensures After(env, events + [a, b, c, d]) == Act(env, Act(env, Act(env, Act(env, After(env, events), a), b), c), d)
  {
    hide Act;
    TwoMore(env, events, a, b);
    TwoMore(env, events + [a, b], c, d);
    assert events + [a, b] + [c, d] == events + [a, b, c, d];
  }

  /** The step that brought a call to where it stands; only its own steps move a call. */
  lemma {:induction false} Moved(env: Env, events: seq<Event>, n: nat, t: nat) returns (r: nat)
    requires n <= |events| && t in At(env, events, n).tasks && !Initial(At(env, events, n).tasks[t])
    ensures r < n && events[r] == Resume(t) && t in At(env, events, r).tasks
    ensures var task := At(env, events, n).tasks[t];
            && At(env, events, r).tasks[t] != task
            && Advanced(env, At(env, events, r), At(env, events, r).tasks[t]).1 == task
            && forall k :: r < k <= n ==> t in At(env, events, k).tasks && At(env, events, k).tasks[t] == task
  {
    hide Advanced;
    AtNext(env, events, n - 1);
    var s := At(env, events, n - 1);
    if t in s.tasks && s.tasks[t] != At(env, events, n).tasks[t] {
      r := n - 1;
    } else {
      r := Moved(env, events, n - 1, t);
    }
  }

  // ----- owner and key never change -----

  /** Everything of a row that is fixed at registration. */
  function Fixed(r: Sql.Row): Sql.Row {
    r.(signCount := 0, deviceName := [], lastUsedAt := None)
  }

  /** The repository call a step of a task makes, if it changes the table. */
  function Statement(task: Task): Option<Sql.RepoCall> {
    match task
    case AuthUpdate(c, v, at) => Some(Sql.Usage(c.credentialId, v.newSignCount, at))
    case CloneDisable(c) => Some(Sql.Revoke(c.credentialId, c.userId))
    case RegAdd(c, _) => Some(Sql.Add(c))
    case RenameStart(owner, id, name) => Some(Sql.SetName(id, owner, name))
    case RevokeStart(owner, id, _) => Some(Sql.Revoke(id, owner))
    case _ => None
  }

  /** The row at `id` after an event. */
  function RowThen(s: Sys, e: Event, id: Bytes): Option<Sql.Row> {
    if e.Resume? && e.t in s.tasks && Statement(s.tasks[e.t]).Some?
    then Sql.RowAfter(s.table, Statement(s.tasks[e.t]).value, id)
    else Sql.RowAt(s.table, id)
  }

  /** Every event changes the table by at most one of the repository's statements. */
  lemma ActTable(env: Env, s: Sys, e: Event)
    ensures Act(env, s, e).table
            == if e.Resume? && e.t in s.tasks && Statement(s.tasks[e.t]).Some?
               then Sql.OnTable(s.table, Statement(s.tasks[e.t]).value) else s.table
  {
    hide Sql.Insert, Sql.UpdateUsage, Sql.Rename, Sql.Delete, Decide;
  }

  lemma ActRows(env: Env, s: Sys, e: Event, id: Bytes)
    requires Sql.Keyed(s.table)
    ensures Sql.Keyed(Act(env, s, e).table)
    ensures Sql.RowAt(Act(env, s, e).table, id) == RowThen(s, e, id)
  {
    hide Act;
    ActTable(env, s, e);
    if e.Resume? && e.t in s.tasks && Statement(s.tasks[e.t]).Some? {
      Sql.RowsAfter(s.table, Statement(s.tasks[e.t]).value);
    }
  }

  lemma {:induction false} RunKeyed(env: Env, events: seq<Event>, n: nat)
    requires n <= |events|
    ensures Sql.Keyed(At(env, events, n).table)
  {
    hide Act;
    if n > 0 {
      RunKeyed(env, events, n - 1);
      AtNext(env, events, n - 1);
      ActRows(env, At(env, events, n - 1), events[n - 1], []);
    }
  }

  lemma KeyedAfter(env: Env, events: seq<Event>)
    ensures Sql.Keyed(After(env, events).table)
  {
    assert events[..|events|] == events;
    RunKeyed(env, events, |events|);
  }

  /** The row at `id` before event `n`. */
  function RowNow(env: Env, events: seq<Event>, n: nat, id: Bytes): Option<Sql.Row>
    requires n <= |events|
  {
    Sql.RowAt(At(env, events, n).table, id)
  }

  lemma RowNext(env: Env, events: seq<Event>, n: nat, id: Bytes)
    requires n < |events|
    ensures RowNow(env, events, n + 1, id) == RowThen(At(env, events, n), events[n], id)
  {
    hide Act;
    RunKeyed(env, events, n);
    AtNext(env, events, n);
    ActRows(env, At(env, events, n), events[n], id);
  }

  ghost predicate StoredThroughout(env: Env, events: seq<Event>, m: nat, n: nat, id: Bytes)
    requires n <= |events|
  {
    forall k :: m <= k <= n ==> RowNow(env, events, k, id).Some?
  }

  /** However calls overlap, a stored credential keeps its owner and public key until it is deleted. */
  lemma {:induction false} IdentityStable(env: Env, events: seq<Event>, m: nat, n: nat, id: Bytes)
    requires m <= n <= |events| && StoredThroughout(env, events, m, n, id)
    ensures var a, b := RowNow(env, events, m, id).value, RowNow(env, events, n, id).value;
            Fixed(a) == Fixed(b) && a.userId == b.userId && a.publicKey == b.publicKey
    decreases n
  {
    hide At, Statement;
    assert forall r: Sql.Row :: Fixed(r).userId == r.userId && Fixed(r).publicKey == r.publicKey;
    if m < n {
      IdentityStable(env, events, m, n - 1, id);
      RowNext(env, events, n - 1, id);
    }
  }

  /** A stored row was inserted by a step of some registration, and has been stored and the same since. */
  lemma {:induction false} RowWasInserted(env: Env, events: seq<Event>, n: nat, id: Bytes) returns (a: nat)
    requires n <= |events| && RowNow(env, events, n, id).Some?
    ensures a < n && events[a].Resume? && events[a].t in At(env, events, a).tasks
    ensures var task := At(env, events, a).tasks[events[a].t];
            && task.RegAdd? && task.credential.credentialId == id
            && RowNow(env, events, a, id) == None
            && Fixed(RowNow(env, events, n, id).value) == Fixed(Sql.ToRow(task.credential))
            && StoredThroughout(env, events, a + 1, n, id)
  {
    hide At;
    assert n > 0 by {
      assert At(env, events, 0).table == map[] by {
        StartsEmpty(env, events);
      }
    }
    RowNext(env, events, n - 1, id);
    if RowNow(env, events, n - 1, id).Some? {
      a := RowWasInserted(env, events, n - 1, id);
    } else {
      a := n - 1;
    }
  }

  lemma StartsEmpty(env: Env, events: seq<Event>)
    ensures At(env, events, 0) == START
  {
  }

  // ----- each challenge is redeemed once -----

  /** Step `i` resumes a call that fetches, and so deletes, the challenge under `handle`. */
  predicate Redeems(env: Env, events: seq<Event>, i: nat, handle: Str) {
    && i < |events| && events[i].Resume?
    && var s := At(env, events, i);
       && events[i].t in s.tasks
       && (s.tasks[events[i].t].AuthConsume? || s.tasks[events[i].t].RegConsume?)
       && s.tasks[events[i].t].handle == handle && handle in s.challenges
  }

  lemma ActKeepsGone(env: Env, s: Sys, e: Event, handle: Str)
    requires handle !in s.challenges && !(e.Issue? && e.handle == handle)
    ensures handle !in Act(env, s, e).challenges
  {
    hide Decide;
  }

  lemma {:induction false} GoneUntilIssued(env: Env, events: seq<Event>, m: nat, n: nat, handle: Str)
    requires m <= n <= |events| && handle !in At(env, events, m).challenges
    requires forall k :: m <= k < n ==> !(events[k].Issue? && events[k].handle == handle)
    ensures handle !in At(env, events, n).challenges
    decreases n
  {
    hide Act;
    if m < n {
      GoneUntilIssued(env, events, m, n - 1, handle);
      AtNext(env, events, n - 1);
      ActKeepsGone(env, At(env, events, n - 1), events[n - 1], handle);
    }
  }

  /** Between two redemptions of a handle it was issued anew: one issue is redeemed by at most one call. */
  lemma RedeemedOnce(env: Env, events: seq<Event>, i: nat, j: nat, handle: Str)
    requires i < j && Redeems(env, events, i, handle) && Redeems(env, events, j, handle)
    ensures exists k :: i < k < j && events[k].Issue? && events[k].handle == handle
  {
    AtNext(env, events, i);
    if forall k :: i < k < j ==> !(events[k].Issue? && events[k].handle == handle) {
      GoneUntilIssued(env, events, i + 1, j, handle);
    }
  }
}
