/**
 The audit log when calls overlap. A call writes the table and the log in separate steps, so the log
 can tell another story than the table, and a call that crashes in between tells none.
 */
module OverlappingAudit {
  import opened Prelude
  import opened Domain
  import opened Json
  import opened Ceremony
  import opened Interleaving
  import AuditSource
  import Failures
  import Base64Url
  import Sql = SqlRepository

  // ----- one terminal event per call that was answered -----

  /** The call has written its terminal event. */
  predicate Reported(task: Task) {
    task.CloneDisable? || (task.Finished? && task.outcome != Done)
  }

  function ReportedTasks(s: Sys): set<nat> {
    set t | t in s.tasks && Reported(s.tasks[t])
  }

  /** The places a call can reach; reports of failures are of a failing kind. */
  predicate Sensible(task: Task) {
    && (task.FailReport? ==> task.kind in {ChallengeExpired, RegistrationFailed, AuthenticationFailed})
    && (task.RevokeStart? ==> Base64Url.Decode(task.idText) == Some(task.id))
    && (task.Finished? ==> !task.outcome.Issued?)
  }

  lemma {:induction false} AllSensible(env: Env, events: seq<Event>, n: nat, t: nat)
    requires n <= |events| && t in At(env, events, n).tasks
    ensures Sensible(At(env, events, n).tasks[t])
    decreases n
  {
    if !Initial(At(env, events, n).tasks[t]) {
      var r := Moved(env, events, n, t);
      AllSensible(env, events, r, t);
    }
  }

  lemma AdvancedReports(env: Env, s: Sys, task: Task)
    requires Sensible(task)
    ensures var r := Advanced(env, s, task);
            && (Reported(task) ==> Reported(r.1) && r.0.log == s.log)
            && (!Reported(task) && !Reported(r.1) ==>
                  Failures.CountEvents(r.0.log, Failures.TERMINAL) == Failures.CountEvents(s.log, Failures.TERMINAL))
            && (!Reported(task) && Reported(r.1) ==>
                  Failures.CountEvents(r.0.log, Failures.TERMINAL) == Failures.CountEvents(s.log, Failures.TERMINAL) + 1)
  {
    hide Sql.Get, Sql.Insert, Sql.UpdateUsage, Sql.Rename, Sql.Delete, Base64Url.Encode, CredentialIdFrom;
    var log' := Advanced(env, s, task).0.log;
    if log' != s.log {
      Failures.CountOfAppend(s.log, log', Failures.TERMINAL);
    }
  }

  ghost predicate Tallies(s: Sys) {
    Failures.CountEvents(s.log, Failures.TERMINAL) == |ReportedTasks(s)|
  }

  lemma ActTallies(env: Env, s: Sys, e: Event)
    requires Tallies(s) && (e.Resume? && e.t in s.tasks ==> Sensible(s.tasks[e.t]))
    ensures Tallies(Act(env, s, e))
  {
    hide Advanced, Failures.CountEvents, Sensible;
    var s' := Act(env, s, e);
    if e.Resume? && e.t in s.tasks {
      AdvancedReports(env, s, s.tasks[e.t]);
      var before := ReportedTasks(s);
      assert Reported(s.tasks[e.t]) <==> e.t in before;
      assert ReportedTasks(s') == if Reported(s'.tasks[e.t]) then before + {e.t} else before;
      assert e.t in before ==> before + {e.t} == before;
    } else {
      assert ReportedTasks(s') == ReportedTasks(s);
    }
  }

  /**
   In every overlapping run the log holds exactly one terminal event for each call that has been
   answered or is about to disable a credential, and none for any other; so none for a crashed one.
   */
  lemma {:induction false} OneTerminalEventEach(env: Env, events: seq<Event>, n: nat)
    requires n <= |events|
    ensures Failures.CountEvents(At(env, events, n).log, Failures.TERMINAL) == |ReportedTasks(At(env, events, n))|
  {
    hide Act, At, Sensible;
    if n == 0 {
      NothingReported(env, events);
    } else {
      OneTerminalEventEach(env, events, n - 1);
      AtNext(env, events, n - 1);
      var s, e := At(env, events, n - 1), events[n - 1];
      if e.Resume? && e.t in s.tasks {
        AllSensible(env, events, n - 1, e.t);
      }
      ActTallies(env, s, e);
    }
  }

  lemma NothingReported(env: Env, events: seq<Event>)
    ensures Failures.CountEvents(At(env, events, 0).log, Failures.TERMINAL) == |ReportedTasks(At(env, events, 0))|
  {
    StartsEmpty(env, events);
    assert ReportedTasks(START) == {};
  }

  // ----- when the log tells who owns what -----

  function OwnerOf(s: Sys, id: Bytes): Option<Str> {
    var row := Sql.RowAt(s.table, id);
    if row == None then None else Some(row.value.userId)
  }

  /** The owner the log tells. */
  function TellsOf(policy: SignCountPolicy, s: Sys, id: Bytes): Option<Str> {
    var m := AuditSource.Owners(policy, s.log);
    if id in m then Some(m[id]) else None
  }

  /** The call has changed the row of `id` without having said so, or said so without having changed it. */
  predicate Pending(task: Task, id: Bytes) {
    || (task.RegReport? && task.credential.credentialId == id)
    || (task.RevokeReport? && Base64Url.Decode(task.idText) == Some(id))
    || (task.CloneDisable? && task.credential.credentialId == id)
  }

  /** The next step of the call makes it pending. */
  predicate Starts(policy: SignCountPolicy, task: Task, id: Bytes) {
    || (task.RegAdd? && task.credential.credentialId == id)
    || (task.RevokeStart? && task.id == id)
    || (task.CloneReport? && task.credential.credentialId == id && policy.FlagDisable?)
  }

  ghost predicate Settled(s: Sys, id: Bytes) {
    forall t :: t in s.tasks ==> !Pending(s.tasks[t], id)
  }

  /** An event starts a change of `id` only when no other is pending, and disables only what the suspect's owner owns. */
  ghost predicate InOrder(policy: SignCountPolicy, s: Sys, e: Event, id: Bytes) {
    e.Resume? && e.t in s.tasks && Starts(policy, s.tasks[e.t], id) ==>
      && Settled(s, id)
      && (s.tasks[e.t].CloneReport? ==> OwnerOf(s, id) == None || OwnerOf(s, id) == Some(s.tasks[e.t].credential.userId))
  }

  /** The log, the table and the one change of `id` that may be pending. */
  ghost predicate Told(policy: SignCountPolicy, s: Sys, id: Bytes) {
    var owner, told := OwnerOf(s, id), TellsOf(policy, s, id);
    && (forall t, u :: t in s.tasks && u in s.tasks && Pending(s.tasks[t], id) && Pending(s.tasks[u], id) ==> t == u)
    && (Settled(s, id) ==> told == owner)
    && (forall t :: t in s.tasks && Pending(s.tasks[t], id) ==>
          match s.tasks[t]
          case RegReport(c, _) => owner == Some(c.userId)
          case RevokeReport(who, _, _) => owner == if told == Some(who) then None else told
          case CloneDisable(c) => told == None && (owner == None || owner == Some(c.userId))
          case _ => true)
  }

  lemma OwnerThen(env: Env, s: Sys, t: nat, id: Bytes)
    requires Sql.Keyed(s.table) && t in s.tasks
    ensures var owner := OwnerOf(s, id);
            OwnerOf(Act(env, s, Resume(t)), id)
            == match s.tasks[t]
               case RegAdd(c, _) => if c.credentialId == id && owner == None then Some(c.userId) else owner
               case CloneDisable(c) => if c.credentialId == id && owner == Some(c.userId) then None else owner
               case RevokeStart(who, x, _) => if x == id && owner == Some(who) then None else owner
               case _ => owner
  {
    hide Act, Sql.Keyed;
    ActRows(env, s, Resume(t), id);
  }

  /** The event a step logs. */
  function Logs(policy: SignCountPolicy, task: Task): Option<AuditEvent> {
    match task
    case AuthReport(c, _, at) =>
      Some(AuditEvent(AuthenticationSucceeded, at, Some(c.userId), Some(Base64Url.Encode(c.credentialId)), None))
    case CloneReport(c, v, at) =>
      Some(AuditEvent(CloneSuspected, at, Some(c.userId), Some(Base64Url.Encode(c.credentialId)), Some((c.signCount, v.newSignCount))))
    case RegReport(c, at) =>
      Some(AuditEvent(RegistrationSucceeded, at, Some(c.userId), Some(Base64Url.Encode(c.credentialId)), None))
    case FailReport(kind, userId, at, _) => Some(AuditEvent(kind, at, userId, None, None))
    case RevokeReport(who, idText, at) => Some(AuditEvent(CredentialRevoked, at, Some(who), Some(idText), None))
    case _ => None
  }

  lemma LogThen(env: Env, s: Sys, t: nat)
    requires t in s.tasks
    ensures var e := Logs(env.config.signCountPolicy, s.tasks[t]);
            Act(env, s, Resume(t)).log == if e == None then s.log else s.log + [e.value]
  {
    hide Sql.Get, Sql.Insert, Sql.UpdateUsage, Sql.Rename, Sql.Delete, Base64Url.Encode, Base64Url.Decode, CredentialIdFrom, Decide;
  }

  lemma TellsThen(env: Env, s: Sys, t: nat, id: Bytes)
    requires t in s.tasks
    ensures var policy := env.config.signCountPolicy;
            var told := TellsOf(policy, s, id);
            TellsOf(policy, Act(env, s, Resume(t)), id)
            == match s.tasks[t]
               case RegReport(c, _) => if c.credentialId == id then Some(c.userId) else told
               case RevokeReport(who, idText, _) => if Base64Url.Decode(idText) == Some(id) && told == Some(who) then None else told
               case CloneReport(c, _, _) => if c.credentialId == id && policy.FlagDisable? then None else told
               case _ => told
  {
    hide Act, Base64Url.Encode, Base64Url.Decode;
    LogThen(env, s, t);
    var e := Logs(env.config.signCountPolicy, s.tasks[t]);
    if e.Some? {
      assert (s.log + [e.value])[..|s.log|] == s.log;
    }
    match s.tasks[t]
    case RegReport(c, _) => Base64Url.DecodeEncode(c.credentialId);
    case AuthReport(c, _, _) => Base64Url.DecodeEncode(c.credentialId);
    case CloneReport(c, _, _) => Base64Url.DecodeEncode(c.credentialId);
    case _ =>
  }

  /** Where a step leaves its call, as far as pending changes go. */
  lemma PendingThen(env: Env, s: Sys, t: nat, id: Bytes)
    requires t in s.tasks && Sensible(s.tasks[t])
    ensures var task, task' := s.tasks[t], Act(env, s, Resume(t)).tasks[t];
            && (Pending(task', id) <==>
                  Starts(env.config.signCountPolicy, task, id) && (task.RegAdd? ==> Sql.RowAt(s.table, id) == None))
            && (Pending(task', id) ==>
                  match task
                  case RegAdd(c, at) => task' == RegReport(c, at)
                  case RevokeStart(owner, _, idText) => task' == RevokeReport(owner, idText, s.now)
                  case CloneReport(c, _, _) => task' == CloneDisable(c)
                  case _ => false)
  {
    hide Sql.Get, Sql.UpdateUsage, Sql.Rename, Sql.Delete, Base64Url.Encode, Base64Url.Decode, CredentialIdFrom;
  }

  lemma ActTold(env: Env, s: Sys, e: Event, id: Bytes)
    requires Sql.Keyed(s.table) && (forall t :: t in s.tasks ==> Sensible(s.tasks[t]))
    requires var policy := env.config.signCountPolicy; Told(policy, s, id) && InOrder(policy, s, e, id)
    ensures Told(env.config.signCountPolicy, Act(env, s, e), id)
  {
    hide Act, Told, Sensible;
    if e.Resume? && e.t in s.tasks {
      ResumeTold(env, s, e.t, id);
    } else {
      OtherTold(env, s, e, id);
    }
  }

  lemma OthersStay(env: Env, s: Sys, t: nat)
    requires t in s.tasks
    ensures var s' := Act(env, s, Resume(t)); s'.tasks == s.tasks[t := s'.tasks[t]]
  {
    hide Decide, Sql.Get, Sql.Insert, Sql.UpdateUsage, Sql.Rename, Sql.Delete;
  }

  lemma ResumeTold(env: Env, s: Sys, t: nat, id: Bytes)
    requires Sql.Keyed(s.table) && t in s.tasks && Sensible(s.tasks[t])
    requires var policy := env.config.signCountPolicy; Told(policy, s, id) && InOrder(policy, s, Resume(t), id)
    ensures Told(env.config.signCountPolicy, Act(env, s, Resume(t)), id)
  {
    hide Act, Sql.Keyed, TellsOf, Sql.RowAt, Base64Url.Decode;
    OwnerThen(env, s, t, id);
    TellsThen(env, s, t, id);
    PendingThen(env, s, t, id);
    OthersStay(env, s, t);
    var policy, s' := env.config.signCountPolicy, Act(env, s, Resume(t));
    if Pending(s.tasks[t], id) {
      assert Settled(s', id);
    } else if Starts(policy, s.tasks[t], id) {
      assert Settled(s, id);
      forall u | u in s'.tasks && u != t ensures !Pending(s'.tasks[u], id) {
        assert s'.tasks[u] == s.tasks[u];
      }
      assert Pending(s'.tasks[t], id) ==> !Settled(s', id);
      StartTold(env, s, t, id);
    } else {
      assert !Pending(s'.tasks[t], id);
      forall u | u in s.tasks ensures u in s'.tasks && (Pending(s.tasks[u], id) <==> Pending(s'.tasks[u], id)) {
        assert u != t ==> s'.tasks[u] == s.tasks[u];
      }
      assert Settled(s', id) ==> Settled(s, id);
    }
  }

  /** What a change that starts leaves to be said, or that it changed nothing. */
  lemma StartTold(env: Env, s: Sys, t: nat, id: Bytes)
    requires Sql.Keyed(s.table) && t in s.tasks && Sensible(s.tasks[t])
    requires var policy := env.config.signCountPolicy;
             TellsOf(policy, s, id) == OwnerOf(s, id) && InOrder(policy, s, Resume(t), id) && Starts(policy, s.tasks[t], id)
    ensures var policy, s' := env.config.signCountPolicy, Act(env, s, Resume(t));
            var owner, told := OwnerOf(s', id), TellsOf(policy, s', id);
            if Pending(s'.tasks[t], id) then
              match s'.tasks[t]
              case RegReport(c, _) => owner == Some(c.userId)
              case RevokeReport(who, _, _) => owner == if told == Some(who) then None else told
              case CloneDisable(c) => told == None && (owner == None || owner == Some(c.userId))
              case _ => true
            else told == owner
  {
    hide Act, Sql.Keyed, TellsOf, Base64Url.Decode;
    OwnerThen(env, s, t, id);
    TellsThen(env, s, t, id);
    PendingThen(env, s, t, id);
  }

  lemma OtherTold(env: Env, s: Sys, e: Event, id: Bytes)
    requires !(e.Resume? && e.t in s.tasks) && Told(env.config.signCountPolicy, s, id)
    ensures Told(env.config.signCountPolicy, Act(env, s, e), id)
  {
    var s' := Act(env, s, e);
    NothingElseMoves(env, s, e, id);
    hide *;
    SameTold(env.config.signCountPolicy, s, s', id);
  }

  lemma NothingElseMoves(env: Env, s: Sys, e: Event, id: Bytes)
    requires !(e.Resume? && e.t in s.tasks)
    ensures var s' := Act(env, s, e);
            && s'.table == s.table && s'.log == s.log
            && (forall t :: t in s'.tasks && Pending(s'.tasks[t], id) ==> t in s.tasks)
            && (forall t :: t in s.tasks ==> t in s'.tasks && s'.tasks[t] == s.tasks[t])
  {
    hide Advanced, Base64Url.Decode;
  }

  lemma SameTold(policy: SignCountPolicy, s: Sys, s': Sys, id: Bytes)
    requires Told(policy, s, id) && s'.table == s.table && s'.log == s.log
    requires forall t :: t in s'.tasks && Pending(s'.tasks[t], id) ==> t in s.tasks
    requires forall t :: t in s.tasks ==> t in s'.tasks && s'.tasks[t] == s.tasks[t]
    ensures Told(policy, s', id)
  {
    hide Pending;
    assert TellsOf(policy, s', id) == TellsOf(policy, s, id) && OwnerOf(s', id) == OwnerOf(s, id);
    assert Settled(s', id) ==> Settled(s, id);
  }

  ghost predicate StartsInOrder(env: Env, events: seq<Event>, k: nat, id: Bytes) {
    k < |events| && InOrder(env.config.signCountPolicy, At(env, events, k), events[k], id)
  }

  /**
   If changes of a credential's row and their reports do not overlap, then whenever none is pending the
   fold of the log tells exactly whether it is stored and who owns it, whatever else overlaps.
   */
  lemma {:induction false} OrderlyLogTells(env: Env, events: seq<Event>, n: nat, id: Bytes)
    requires n <= |events|
    requires forall k :: 0 <= k < n ==> StartsInOrder(env, events, k, id)
    ensures Told(env.config.signCountPolicy, At(env, events, n), id)
    ensures Settled(At(env, events, n), id) ==>
              TellsOf(env.config.signCountPolicy, At(env, events, n), id) == OwnerOf(At(env, events, n), id)
  {
    hide At, InOrder, Sensible;
    if n == 0 {
      StartsEmpty(env, events);
    } else {
      OrderlyLogTells(env, events, n - 1, id);
      AtNext(env, events, n - 1);
      RunKeyed(env, events, n - 1);
      var s := At(env, events, n - 1);
      forall t | t in s.tasks ensures Sensible(s.tasks[t]) {
        AllSensible(env, events, n - 1, t);
      }
      assert StartsInOrder(env, events, n - 1, id);
      ActTold(env, At(env, events, n - 1), events[n - 1], id);
    }
  }

  /** A registration from the lookup to its report, on a table without the id. */
  lemma Registers(env: Env, s: Sys, u: nat)
    requires u in s.tasks && s.tasks[u].RegLookup? && s.tasks[u].attested.credentialId !in s.table
    ensures var c := NewCredential(env.config, s.tasks[u].attested, s.tasks[u].user, s.tasks[u].deviceName, s.now);
            var s' := Act(env, Act(env, Act(env, s, Resume(u)), Resume(u)), Resume(u));
            && s'.table == s.table[c.credentialId := Sql.ToRow(c)]
            && s'.tasks == s.tasks[u := Finished(Registered(c))]
            && s'.log == s.log + [AuditEvent(RegistrationSucceeded, s.now, Some(c.userId), Some(Base64Url.Encode(c.credentialId)), None)]
  {
    hide Decide, Base64Url.Encode;
    var s1 := Act(env, s, Resume(u));
    var s2 := Act(env, s1, Resume(u));
    assert s1.tasks[u].RegAdd? && s2.tasks[u].RegReport?;
    var s3 := Act(env, s2, Resume(u));
    assert s3.tasks == s.tasks[u := s3.tasks[u]];
  }

  lemma Deletes(env: Env, s: Sys, t: nat)
    requires t in s.tasks && s.tasks[t].RevokeStart?
    ensures var task := s.tasks[t];
            Act(env, s, Resume(t)) == s.(table := Sql.Delete(s.table, task.id, task.owner),
                                         tasks := s.tasks[t := RevokeReport(task.owner, task.idText, s.now)])
  {
    hide Decide, Sql.Delete;
  }

  lemma RevokeReports(env: Env, s: Sys, t: nat)
    requires t in s.tasks && s.tasks[t].RevokeReport?
    ensures var task := s.tasks[t];
            Act(env, s, Resume(t))
            == Emitted(s, CredentialRevoked, task.at, Some(task.owner), Some(task.idText), None).(tasks := s.tasks[t := Finished(Done)])
  {
    hide Decide;
  }

  lemma {:induction false} StaleRevocationSteps(env: Env, s: Sys, t: nat, u: nat, id: Bytes)
    requires t != u && t in s.tasks && u in s.tasks && Sql.Keyed(s.table) && Settled(s, id)
    requires s.tasks[t].RevokeStart? && s.tasks[t].id == id && Sensible(s.tasks[t]) && OwnerOf(s, id) == Some(s.tasks[t].owner)
    requires s.tasks[u].RegLookup? && s.tasks[u].attested.credentialId == id && s.tasks[u].user.id == s.tasks[t].owner
    ensures var s1 := Act(env, s, Resume(t));
            var s2 := Act(env, s1, Resume(u));
            var s3 := Act(env, s2, Resume(u));
            var s4 := Act(env, s3, Resume(u));
            var s5 := Act(env, s4, Resume(t));
            && Settled(s5, id) && OwnerOf(s5, id) == Some(s.tasks[t].owner)
            && TellsOf(env.config.signCountPolicy, s5, id) == None
            && s5.tasks[t] == Finished(Done) && s5.tasks[u].Finished? && s5.tasks[u].outcome.Registered?
  {
    hide Act, Base64Url.Encode, Base64Url.Decode;
    var policy := env.config.signCountPolicy;
    Deletes(env, s, t);
    var s1 := Act(env, s, Resume(t));
    Registers(env, s1, u);
    var s4 := Act(env, Act(env, Act(env, s1, Resume(u)), Resume(u)), Resume(u));
    var e := s4.log[|s.log|];
    assert s4.log[..|s.log|] == s.log;
    Base64Url.DecodeEncode(id);
    assert TellsOf(policy, s4, id) == Some(s.tasks[t].owner);
    RevokeReports(env, s4, t);
    TellsThen(env, s4, t, id);
  }

  lemma SameOwner(s: Sys, s': Sys, id: Bytes)
    requires s'.table == s.table
    ensures OwnerOf(s', id) == OwnerOf(s, id)
  {
  }

  /** A revocation and a registration of the same id start, and the registration gets as far as its lookup. */
  function BothStart(t: nat, u: nat, handle: Str, challenge: Challenge, response: Fields, owner: Str, id: Bytes): seq<Event> {
    [Issue(handle, challenge), Spawn(u, RegConsume(response, handle, [])),
     Spawn(t, RevokeStart(owner, id, Base64Url.Encode(id))), Resume(u)]
  }

  lemma {:induction false} BothStarted(env: Env, s: Sys, t: nat, u: nat, handle: Str, challenge: Challenge, response: Fields, owner: Str, id: Bytes)
    requires t != u && t !in s.tasks && u !in s.tasks && Settled(s, id)
    requires challenge.RegistrationChallenge? && s.now <= challenge.expiresAt
    requires var v := env.verifyRegistration(response, challenge.challenge); v.Ok? && v.value.credentialId == id
    ensures var e := BothStart(t, u, handle, challenge, response, owner, id);
            var s4 := Act(env, Act(env, Act(env, Act(env, s, e[0]), e[1]), e[2]), e[3]);
            && s4.table == s.table && Settled(s4, id) && t in s4.tasks && u in s4.tasks
            && s4.tasks[t] == RevokeStart(owner, id, Base64Url.Encode(id)) && Sensible(s4.tasks[t])
            && s4.tasks[u] == RegLookup(challenge.user, env.verifyRegistration(response, challenge.challenge).value, [])
  {
    hide Decide, Base64Url.Encode, Base64Url.Decode;
    Base64Url.DecodeEncode(id);
    var e := BothStart(t, u, handle, challenge, response, owner, id);
    var s3 := Act(env, Act(env, Act(env, s, e[0]), e[1]), e[2]);
    assert s3 == s.(challenges := s.challenges[handle := challenge],
                    tasks := s.tasks[u := RegConsume(response, handle, [])][t := RevokeStart(owner, id, Base64Url.Encode(id))]);
  }

  /**
   Without that the log can be wrong for good. From every reachable state in which a credential is
   stored and settled: a revocation deletes it, the same user registers the id again and that is
   logged, and then the revocation logs. All is settled again, the credential is stored, and the log
   tells that it is not.
   */
  lemma {:induction false} StaleRevocation(env: Env, events: seq<Event>, t: nat, u: nat, handle: Str, challenge: Challenge, response: Fields, id: Bytes)
    returns (all: seq<Event>)
    requires var s := After(env, events);
             && t != u && t !in s.tasks && u !in s.tasks && Settled(s, id)
             && challenge.RegistrationChallenge? && s.now <= challenge.expiresAt && OwnerOf(s, id) == Some(challenge.user.id)
    requires var v := env.verifyRegistration(response, challenge.challenge); v.Ok? && v.value.credentialId == id
    ensures |events| <= |all| && all[..|events|] == events
    ensures var s := After(env, all);
            && Settled(s, id) && OwnerOf(s, id) == Some(challenge.user.id)
            && TellsOf(env.config.signCountPolicy, s, id) == None
            && t in s.tasks && s.tasks[t] == Finished(Done) && u in s.tasks && s.tasks[u].Finished? && s.tasks[u].outcome.Registered?
  {
    var owner := challenge.user.id;
    var e := BothStart(t, u, handle, challenge, response, owner, id);
    var mid := events + e;
    hide Act, Settled, OwnerOf, TellsOf, Sensible, After, Sql.Keyed, At;
    FourMore(env, events, e[0], e[1], e[2], e[3]);
    BothStarted(env, After(env, events), t, u, handle, challenge, response, owner, id);
    var s := After(env, mid);
    SameOwner(After(env, events), s, id);
    KeyedAfter(env, mid);
    StaleRevocationSteps(env, s, t, u, id);
    FourMore(env, mid, Resume(t), Resume(u), Resume(u), Resume(u));
    var most := mid + [Resume(t), Resume(u), Resume(u), Resume(u)];
    all := most + [Resume(t)];
    OneMore(env, most, Resume(t));
  }
}
