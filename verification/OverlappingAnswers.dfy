/** What calls answer when they overlap, told from what each of their steps finds. */
module OverlappingAnswers {
  import opened Prelude
  import opened Domain
  import opened Json
  import opened Ceremony
  import opened Interleaving
  import opened Answers
  import Sql = SqlRepository

  /** The next step that moves call `t` after `k`, when it stands elsewhere at `n`. */
  lemma {:induction false} NextMove(env: Env, events: seq<Event>, k: nat, n: nat, t: nat) returns (r: nat)
    requires k <= n <= |events| && t in At(env, events, k).tasks && t in At(env, events, n).tasks
    requires At(env, events, n).tasks[t] != At(env, events, k).tasks[t]
    ensures k <= r < n && events[r] == Resume(t) && t in At(env, events, r).tasks && t in At(env, events, r + 1).tasks
    ensures At(env, events, r).tasks[t] == At(env, events, k).tasks[t]
    ensures At(env, events, r + 1).tasks[t] == Advanced(env, At(env, events, r), At(env, events, r).tasks[t]).1
    decreases n - k
  {
    hide Advanced;
    AtNext(env, events, k);
    if events[k] == Resume(t) {
      r := k;
    } else {
      r := NextMove(env, events, k + 1, n, t);
    }
  }

  /** A call on its way to an answer that no other call can change: the answer it will give. */
  function Due(task: Task): Option<Outcome> {
    match task
    case FailReport(_, _, _, error) => Some(Failed(error))
    case CloneReport(_, _, _) => Some(Failed(CloneDetectedError))
    case CloneDisable(_) => Some(Failed(CloneDetectedError))
    case AuthUpdate(c, v, at) =>
      Some(Authenticated(c.userId, c.(signCount := v.newSignCount, lastUsedAt := Some(at)), v.userVerified))
    case AuthReport(c, v, at) =>
      Some(Authenticated(c.userId, c.(signCount := v.newSignCount, lastUsedAt := Some(at)), v.userVerified))
    case RegReport(c, _) => Some(Registered(c))
    case Finished(o) => Some(o)
    case _ => None
  }

  lemma DueKept(env: Env, s: Sys, task: Task)
    requires Due(task).Some?
    ensures Due(Advanced(env, s, task).1) == Due(task)
  {
    hide Sql.UpdateUsage, Sql.Delete;
  }

  /** What is due is what is answered. */
  lemma {:induction false} DueIsAnswered(env: Env, events: seq<Event>, k: nat, n: nat, t: nat)
    requires k <= n <= |events| && t in At(env, events, k).tasks && Due(At(env, events, k).tasks[t]).Some?
    ensures t in At(env, events, n).tasks && Due(At(env, events, n).tasks[t]) == Due(At(env, events, k).tasks[t])
    decreases n
  {
    hide Advanced, Due;
    if k < n {
      DueIsAnswered(env, events, k, n - 1, t);
      AtNext(env, events, n - 1);
      DueKept(env, At(env, events, n - 1), At(env, events, n - 1).tasks[t]);
    }
  }

  // ----- logins -----

  /** What a login must answer whose lookup, at time `now` and for the id it names, found `found`. */
  ghost predicate AnswersFound(env: Env, response: Fields, challenge: Challenge, found: Option<Credential>, now: Instant, o: Outcome)
    requires challenge.AuthenticationChallenge?
  {
    if found == None || (challenge.userId.Some? && challenge.userId.value != found.value.userId) then o == Failed(CredentialNotFound)
    else
      match env.verifyAuthentication(response, challenge.challenge, found.value)
      case Err(e) => o == Failed(e)
      case Ok(v) =>
        if Rises(found.value.signCount, v.newSignCount) then
          o == Authenticated(found.value.userId, found.value.(signCount := v.newSignCount, lastUsedAt := Some(now)), v.userVerified)
        else o == Failed(CloneDetectedError)
  }

  lemma DecideDue(env: Env, now: Instant, response: Fields, challenge: Challenge, found: Option<Credential>)
    requires challenge.AuthenticationChallenge?
    ensures var due := Due(Decide(env, now, response, challenge, found));
            due.Some? && AnswersFound(env, response, challenge, found, now, due.value)
  {
  }

  lemma ConsumeDue(env: Env, s: Sys, task: Task)
    requires task.AuthConsume?
    ensures var stored := Consumed(s.challenges, task.handle, s.now);
            var task' := Advanced(env, s, task).1;
            && (!ForLogin(stored) ==> Due(task') == Some(Failed(ChallengeNotFound)))
            && (ForLogin(stored) && CredentialIdFrom(task.response) == None ==> Due(task') == Some(Failed(CredentialNotFound)))
            && (ForLogin(stored) && CredentialIdFrom(task.response).Some? ==>
                  task' == AuthLookup(task.response, CredentialIdFrom(task.response).value, stored.value))
  {
    hide CredentialIdFrom;
    var stored := Consumed(s.challenges, task.handle, s.now);
    if ForLogin(stored) {
      DecideDue(env, s.now, task.response, stored.value, None);
    }
  }

  lemma LookupDue(env: Env, s: Sys, task: Task)
    requires task.AuthLookup? && task.challenge.AuthenticationChallenge?
    ensures var due := Due(Advanced(env, s, task).1);
            due.Some? && AnswersFound(env, task.response, task.challenge, Sql.Get(s.table, task.id), s.now, due.value)
  {
    hide Sql.Get, Decide, AnswersFound;
    DecideDue(env, s.now, task.response, task.challenge, Sql.Get(s.table, task.id));
  }

  /**
   What a login answers, whatever overlaps. At its first step it fetches its challenge: without a login
   challenge, or without an id in the response, the answer is settled. Otherwise it is settled by what
   its lookup, at some later step `r`, finds in the table: nothing usable; a credential that the engine
   refuses, answered with exactly the engine's error; one whose count does not rise; or success.
   */
  lemma {:induction false} LoginAnswers(env: Env, events: seq<Event>, i: nat, n: nat, t: nat) returns (r: nat)
    requires i < n <= |events| && events[i] == Resume(t) && t in At(env, events, i).tasks && At(env, events, i).tasks[t].AuthConsume?
    requires t in At(env, events, n).tasks && At(env, events, n).tasks[t].Finished?
    ensures var s, task, o := At(env, events, i), At(env, events, i).tasks[t], At(env, events, n).tasks[t].outcome;
            var stored, id := Consumed(s.challenges, task.handle, s.now), CredentialIdFrom(task.response);
            && (!ForLogin(stored) ==> o == Failed(ChallengeNotFound))
            && (ForLogin(stored) && id == None ==> o == Failed(CredentialNotFound))
            && (ForLogin(stored) && id.Some? ==>
                  i < r < n && events[r] == Resume(t)
                  && AnswersFound(env, task.response, stored.value, Sql.Get(At(env, events, r).table, id.value), At(env, events, r).now, o))
  {
    hide Advanced, CredentialIdFrom, Sql.Get, AnswersFound;
    AtNext(env, events, i);
    var s, task := At(env, events, i), At(env, events, i).tasks[t];
    ConsumeDue(env, s, task);
    var stored, id := Consumed(s.challenges, task.handle, s.now), CredentialIdFrom(task.response);
    if ForLogin(stored) && id.Some? {
      r := NextMove(env, events, i + 1, n, t);
      LookupDue(env, At(env, events, r), At(env, events, r).tasks[t]);
      DueIsAnswered(env, events, r + 1, n, t);
    } else {
      r := i;
      DueIsAnswered(env, events, i + 1, n, t);
    }
  }

  // ----- registrations -----

  lemma RegisterDue(env: Env, s: Sys, task: Task)
    requires task.RegConsume?
    ensures var stored := Consumed(s.challenges, task.handle, s.now);
            var task' := Advanced(env, s, task).1;
            && (!ForRegistration(stored) ==> Due(task') == Some(Failed(ChallengeNotFound)))
            && (ForRegistration(stored) ==>
                  match env.verifyRegistration(task.response, stored.value.challenge)
                  case Err(e) => Due(task') == Some(Failed(e))
                  case Ok(v) => task' == RegLookup(stored.value.user, v, task.deviceName))
  {
  }

  /** What the lookup of a registration leads to. */
  lemma FoundDue(env: Env, s: Sys, task: Task)
    requires task.RegLookup?
    ensures var task' := Advanced(env, s, task).1;
            if Sql.Get(s.table, task.attested.credentialId).Some? then Due(task') == Some(Failed(CredentialAlreadyExists))
            else task'.RegAdd? && Attested(env.config, task.attested, task.user, task.deviceName, s.now, task'.credential)
  {
    hide Sql.Get;
  }

  lemma AddDue(env: Env, s: Sys, task: Task)
    requires task.RegAdd?
    ensures var r := Advanced(env, s, task);
            if Sql.RowAt(s.table, task.credential.credentialId).Some? then r.1.Crashed?
            else Due(r.1) == Some(Registered(task.credential))
                 && Sql.RowAt(r.0.table, task.credential.credentialId) == Some(Sql.ToRow(task.credential))
  {
  }

  /**
   What a registration answers and inserts, whatever overlaps: no registration challenge; a refusal,
   answered with exactly the engine's error; an id that its lookup at `r` finds stored; or the
   credential that the engine attested for the challenge's user, inserted at `w`.
   */
  lemma {:induction false} RegistrationAnswers(env: Env, events: seq<Event>, i: nat, n: nat, t: nat) returns (r: nat, w: nat)
    requires i < n <= |events| && events[i] == Resume(t) && t in At(env, events, i).tasks && At(env, events, i).tasks[t].RegConsume?
    requires t in At(env, events, n).tasks && At(env, events, n).tasks[t].Finished?
    ensures var s, task, o := At(env, events, i), At(env, events, i).tasks[t], At(env, events, n).tasks[t].outcome;
            var stored := Consumed(s.challenges, task.handle, s.now);
            && (!ForRegistration(stored) ==> o == Failed(ChallengeNotFound))
            && (ForRegistration(stored) ==>
                  match env.verifyRegistration(task.response, stored.value.challenge)
                  case Err(e) => o == Failed(e)
                  case Ok(v) =>
                    && i < r < n && events[r] == Resume(t)
                    && if Sql.Get(At(env, events, r).table, v.credentialId).Some? then o == Failed(CredentialAlreadyExists)
                       else
                         && r < w < n && events[w] == Resume(t)
                         && o.Registered? && RowNow(env, events, w, v.credentialId) == None
                         && RowNow(env, events, w + 1, v.credentialId) == Some(Sql.ToRow(o.credential))
                         && Attested(env.config, v, stored.value.user, task.deviceName, At(env, events, r).now, o.credential))
  {
    hide Advanced, Sql.Get, Sql.ToRow, Attested, At;
    r, w := i, i;
    AtNext(env, events, i);
    var s, task := At(env, events, i), At(env, events, i).tasks[t];
    RegisterDue(env, s, task);
    var stored := Consumed(s.challenges, task.handle, s.now);
    if ForRegistration(stored) && env.verifyRegistration(task.response, stored.value.challenge).Ok? {
      r := NextMove(env, events, i + 1, n, t);
      FoundDue(env, At(env, events, r), At(env, events, r).tasks[t]);
      if Sql.Get(At(env, events, r).table, At(env, events, r).tasks[t].attested.credentialId).Some? {
        DueIsAnswered(env, events, r + 1, n, t);
      } else {
        w := NextMove(env, events, r + 1, n, t);
        InsertedThen(env, events, w, n, t);
        AttestedId(env, At(env, events, r).tasks[t], At(env, events, r).now, At(env, events, w).tasks[t].credential);
      }
    } else {
      DueIsAnswered(env, events, i + 1, n, t);
    }
  }

  lemma AttestedId(env: Env, task: Task, now: Instant, c: Credential)
    requires task.RegLookup? && Attested(env.config, task.attested, task.user, task.deviceName, now, c)
    ensures c.credentialId == task.attested.credentialId
  {
  }

  /** An insert that is answered inserted its credential. */
  lemma {:induction false} InsertedThen(env: Env, events: seq<Event>, w: nat, n: nat, t: nat)
    requires w < n <= |events| && events[w] == Resume(t) && t in At(env, events, w).tasks && At(env, events, w).tasks[t].RegAdd?
    requires t in At(env, events, n).tasks && At(env, events, n).tasks[t].Finished?
    ensures var c := At(env, events, w).tasks[t].credential;
            && At(env, events, n).tasks[t].outcome == Registered(c)
            && RowNow(env, events, w, c.credentialId) == None
            && RowNow(env, events, w + 1, c.credentialId) == Some(Sql.ToRow(c))
  {
    hide Advanced, Sql.ToRow, At;
    AtNext(env, events, w);
    AddDue(env, At(env, events, w), At(env, events, w).tasks[t]);
    if At(env, events, w + 1).tasks[t].Crashed? {
      CrashedStays(env, events, w + 1, n, t);
      assert false;
    }
    DueIsAnswered(env, events, w + 1, n, t);
  }

  lemma {:induction false} CrashedStays(env: Env, events: seq<Event>, k: nat, n: nat, t: nat)
    requires k <= n <= |events| && t in At(env, events, k).tasks && At(env, events, k).tasks[t].Crashed?
    ensures t in At(env, events, n).tasks && At(env, events, n).tasks[t].Crashed?
    decreases n
  {
    hide Advanced;
    if k < n {
      CrashedStays(env, events, k, n - 1, t);
      AtNext(env, events, n - 1);
      CrashedMoves(env, At(env, events, n - 1), At(env, events, n - 1).tasks[t]);
    }
  }

  lemma CrashedMoves(env: Env, s: Sys, task: Task)
    requires task.Crashed?
    ensures Advanced(env, s, task).1 == task
  {
  }
}
