/** A call that runs without interruption in the step model is the serial call of `Ceremony`. */
module AloneRuns {
  import opened Prelude
  import opened Domain
  import opened Json
  import opened Ceremony
  import opened Interleaving
  import Repository
  import Sql = SqlRepository
  import Base64Url

  lemma LookupStep(env: Env, s: Sys, t: nat, response: Fields, id: Bytes, challenge: Challenge)
    requires t in s.tasks && s.tasks[t] == AuthLookup(response, id, challenge) && challenge.AuthenticationChallenge?
    ensures Act(env, s, Resume(t)) == s.(tasks := s.tasks[t := Decide(env, s.now, response, challenge, Sql.Get(s.table, id))])
  {
  }

  /** Task `t` runs to its end with nothing in between; a finished task no longer moves. */
  function Alone(env: Env, s: Sys, t: nat, steps: nat): Sys
    decreases steps
  {
    if steps == 0 then s else Alone(env, Act(env, s, Resume(t)), t, steps - 1)
  }

  /** A run that ends so is a run. */
  lemma {:induction false} AloneIsRun(env: Env, events: seq<Event>, t: nat, steps: nat)
    ensures After(env, events + seq(steps, _ => Resume(t))) == Alone(env, After(env, events), t, steps)
    decreases steps
  {
    hide Act;
    if steps == 0 {
      assert events + seq(steps, _ => Resume(t)) == events;
    } else {
      var first := events + [Resume(t)];
      assert first[..|events|] == events;
      assert events + seq(steps, _ => Resume(t)) == first + seq(steps - 1, _ => Resume(t));
      AloneIsRun(env, first, t, steps - 1);
    }
  }

  lemma {:induction false} AloneFinished(env: Env, s: Sys, t: nat, steps: nat)
    requires t in s.tasks && s.tasks[t].Finished?
    ensures Alone(env, s, t, steps) == s
    decreases steps
  {
    if steps > 0 {
      assert Act(env, s, Resume(t)).tasks == s.tasks;
      AloneFinished(env, s, t, steps - 1);
    }
  }

  lemma AloneFails(env: Env, s: Sys, t: nat, steps: nat)
    requires t in s.tasks && s.tasks[t].FailReport? && steps >= 1
    ensures var f := s.tasks[t];
            Alone(env, s, t, steps)
            == Emitted(s, f.kind, f.at, f.userId, None, None).(tasks := s.tasks[t := Finished(Failed(f.error))])
  {
    AloneFinished(env, Act(env, s, Resume(t)), t, steps - 1);
  }

  lemma AloneUpdates(env: Env, s: Sys, t: nat)
    requires t in s.tasks && s.tasks[t].AuthUpdate?
    ensures var u := s.tasks[t];
            var c := u.credential;
            Alone(env, s, t, 2)
            == Emitted(s, AuthenticationSucceeded, u.at, Some(c.userId), Some(Base64Url.Encode(c.credentialId)), None).(
                 table := Sql.UpdateUsage(s.table, c.credentialId, u.verified.newSignCount, u.at),
                 tasks := s.tasks[t := Finished(Authenticated(c.userId,
                   c.(signCount := u.verified.newSignCount, lastUsedAt := Some(u.at)), u.verified.userVerified))])
  {
    var s1 := Act(env, s, Resume(t));
    var s2 := Act(env, s1, Resume(t));
    assert Alone(env, s1, t, 1) == Alone(env, s2, t, 0);
    assert s2.tasks == s.tasks[t := s2.tasks[t]];
  }

  lemma AloneClones(env: Env, s: Sys, t: nat)
    requires t in s.tasks && s.tasks[t].CloneReport?
    ensures var u := s.tasks[t];
            var c := u.credential;
            Alone(env, s, t, 2)
            == Emitted(s, CloneSuspected, u.at, Some(c.userId), Some(Base64Url.Encode(c.credentialId)),
                       Some((c.signCount, u.verified.newSignCount))).(
                 table := if env.config.signCountPolicy.FlagDisable? then Sql.Delete(s.table, c.credentialId, c.userId) else s.table,
                 tasks := s.tasks[t := Finished(Failed(CloneDetectedError))])
  {
    var s1 := Act(env, s, Resume(t));
    var s2 := Act(env, s1, Resume(t));
    assert Alone(env, s1, t, 1) == Alone(env, s2, t, 0);
    assert s2.tasks == s.tasks[t := s2.tasks[t]];
  }

  /** From the decision on. */
  lemma AloneDecides(env: Env, s: Sys, t: nat, repo: Repository.Repo, response: Fields, challenge: Challenge, store: ChallengeMap)
    requires challenge.AuthenticationChallenge? && Sql.Agrees(s.table, repo) && store == s.challenges
    requires t in s.tasks
             && s.tasks[t] == Decide(env, s.now, response, challenge,
                                     if CredentialIdFrom(response) == None then None
                                     else Sql.Get(s.table, CredentialIdFrom(response).value))
    ensures var serial := FinishAuthentication(env, World(repo, s.log, s.now), Some(challenge), response);
            var s' := Alone(env, s, t, 2);
            && s'.tasks == s.tasks[t := Finished(serial.1)]
            && s'.log == serial.0.log && s'.now == s.now && s'.challenges == store
            && Sql.Agrees(s'.table, serial.0.repo)
  {
    var id := CredentialIdFrom(response);
    hide Sql.Agrees, Sql.UpdateUsage, Sql.Delete, Repository.UpdateUsage, Repository.Delete, Repository.Find, CredentialIdFrom, Base64Url.Encode;
    if id.Some? {
      Sql.AgreesAt(s.table, repo, id.value);
    }
    if s.tasks[t].FailReport? {
      AloneFails(env, s, t, 2);
    } else if s.tasks[t].AuthUpdate? {
      AloneUpdates(env, s, t);
      Sql.StepAgrees(s.table, repo, Sql.Usage(id.value, s.tasks[t].verified.newSignCount, s.now));
    } else {
      AloneClones(env, s, t);
      Sql.StepAgrees(s.table, repo, Sql.Revoke(id.value, s.tasks[t].credential.userId));
    }
  }

  /**
   An authentication that runs without interruption leaves the state, the log and the outcome of the
   serial call: the step model adds interleaving and nothing else.
   */
  lemma AloneAuthentication(env: Env, s: Sys, t: nat, repo: Repository.Repo)
    requires t in s.tasks && s.tasks[t].AuthConsume? && Sql.Agrees(s.table, repo)
    ensures var task := s.tasks[t];
            var serial := ServerStep(env, Server(World(repo, s.log, s.now), s.challenges), AuthenticateFinish(task.response, task.handle));
            var s' := Alone(env, s, t, 4);
            && s'.tasks == s.tasks[t := Finished(serial.1)]
            && s'.log == serial.0.world.log && s'.now == s.now && s'.challenges == serial.0.store
            && Sql.Agrees(s'.table, serial.0.world.repo)
  {
    hide Sql.Agrees, Sql.Get, Repository.Find, CredentialIdFrom, Base64Url.Encode;
    var task := s.tasks[t];
    var s1 := Act(env, s, Resume(t));
    var stored := Consumed(s.challenges, task.handle, s.now);
    assert Alone(env, s, t, 4) == Alone(env, s1, t, 3);
    if stored == None || !stored.value.AuthenticationChallenge? || CredentialIdFrom(task.response) == None {
      AloneFails(env, s1, t, 3);
    } else {
      LookupStep(env, s1, t, task.response, CredentialIdFrom(task.response).value, stored.value);
      var s2 := Act(env, s1, Resume(t));
      assert Alone(env, s1, t, 3) == Alone(env, s2, t, 2);
      AloneDecides(env, s2, t, repo, task.response, stored.value, s2.challenges);
    }
  }

  lemma AloneAdds(env: Env, s: Sys, t: nat)
    requires t in s.tasks && s.tasks[t].RegAdd? && s.tasks[t].credential.credentialId !in s.table
    ensures var u := s.tasks[t];
            var c := u.credential;
            Alone(env, s, t, 2)
            == Emitted(s, RegistrationSucceeded, u.at, Some(c.userId), Some(Base64Url.Encode(c.credentialId)), None).(
                 table := Sql.OnTable(s.table, Sql.Add(c)),
                 tasks := s.tasks[t := Finished(Registered(c))])
  {
    hide Decide, Base64Url.Encode;
    var s1 := Act(env, s, Resume(t));
    var s2 := Act(env, s1, Resume(t));
    assert Alone(env, s1, t, 1) == Alone(env, s2, t, 0);
    assert s2.tasks == s.tasks[t := s2.tasks[t]];
  }

  /** A registration from the lookup on. */
  lemma AloneLooksUp(env: Env, s: Sys, t: nat, repo: Repository.Repo, response: Fields, challenge: Challenge, name: Str)
    requires challenge.RegistrationChallenge? && env.verifyRegistration(response, challenge.challenge).Ok?
    requires t in s.tasks && Sql.Agrees(s.table, repo)
    requires s.tasks[t] == RegLookup(challenge.user, env.verifyRegistration(response, challenge.challenge).value, name)
    ensures var serial := FinishRegistration(env, World(repo, s.log, s.now), Some(challenge), response, name);
            var s' := Alone(env, s, t, 3);
            && s'.tasks == s.tasks[t := Finished(serial.1)]
            && s'.log == serial.0.log && s'.now == s.now && s'.challenges == s.challenges
            && Sql.Agrees(s'.table, serial.0.repo)
  {
    var v := env.verifyRegistration(response, challenge.challenge).value;
    hide Sql.Agrees, Repository.Assign, Repository.Find, Base64Url.Encode, Decide;
    Sql.AgreesAt(s.table, repo, v.credentialId);
    var s1 := Act(env, s, Resume(t));
    assert Alone(env, s, t, 3) == Alone(env, s1, t, 2);
    if Sql.Get(s.table, v.credentialId).Some? {
      AloneFails(env, s1, t, 2);
    } else {
      var c := NewCredential(env.config, v, challenge.user, name, s.now);
      Sql.StepAgrees(s.table, repo, Sql.Add(c));
      AloneAdds(env, s1, t);
    }
  }

  /** The same for a registration; alone, it never meets a duplicate key at the insert. */
  lemma {:induction false} AloneRegistration(env: Env, s: Sys, t: nat, repo: Repository.Repo)
    requires t in s.tasks && s.tasks[t].RegConsume? && Sql.Agrees(s.table, repo)
    ensures var task := s.tasks[t];
            var serial := ServerStep(env, Server(World(repo, s.log, s.now), s.challenges),
                                     RegisterFinish(task.response, task.handle, task.deviceName));
            var s' := Alone(env, s, t, 4);
            && s'.tasks == s.tasks[t := Finished(serial.1)]
            && s'.log == serial.0.world.log && s'.now == s.now && s'.challenges == serial.0.store
            && Sql.Agrees(s'.table, serial.0.world.repo)
  {
    hide Repository.Find, Base64Url.Encode, NewCredential, Decide, Sql.Agrees;
    var task := s.tasks[t];
    var s1 := Act(env, s, Resume(t));
    assert Alone(env, s, t, 4) == Alone(env, s1, t, 3);
    var stored := Consumed(s.challenges, task.handle, s.now);
    if stored.Some? && stored.value.RegistrationChallenge?
       && env.verifyRegistration(task.response, stored.value.challenge).Ok? {
      AloneLooksUp(env, s1, t, repo, task.response, stored.value, task.deviceName);
    } else {
      AloneFails(env, s1, t, 3);
    }
  }

  /** And for the handlers of the credential list. */
  lemma AloneRenames(env: Env, s: Sys, t: nat, repo: Repository.Repo, idText: Str)
    requires t in s.tasks && s.tasks[t].RenameStart? && Sql.Agrees(s.table, repo)
    requires Base64Url.Decode(idText) == Some(s.tasks[t].id)
    ensures var task := s.tasks[t];
            var serial := ServerStep(env, Server(World(repo, s.log, s.now), s.challenges),
                                     RenameCredential(task.owner, idText, task.name));
            var s' := Alone(env, s, t, 1);
            && s'.tasks == s.tasks[t := Finished(serial.1)]
            && s'.log == serial.0.world.log && s'.now == s.now && s'.challenges == serial.0.store
            && Sql.Agrees(s'.table, serial.0.world.repo)
  {
    hide Repository.Find, Repository.Assign, Base64Url.Decode;
    var task := s.tasks[t];
    assert Alone(env, s, t, 1) == Alone(env, Act(env, s, Resume(t)), t, 0);
    Sql.StepAgrees(s.table, repo, Sql.SetName(task.id, task.owner, task.name));
  }

  lemma AloneRevokes(env: Env, s: Sys, t: nat, repo: Repository.Repo)
    requires t in s.tasks && s.tasks[t].RevokeStart? && Sql.Agrees(s.table, repo)
    requires Base64Url.Decode(s.tasks[t].idText) == Some(s.tasks[t].id)
    ensures var task := s.tasks[t];
            var serial := ServerStep(env, Server(World(repo, s.log, s.now), s.challenges),
                                     RevokeCredential(task.owner, task.idText));
            var s' := Alone(env, s, t, 2);
            && s'.tasks == s.tasks[t := Finished(serial.1)]
            && s'.log == serial.0.world.log && s'.now == s.now && s'.challenges == serial.0.store
            && Sql.Agrees(s'.table, serial.0.world.repo)
  {
    hide Repository.Find, Repository.Remove, Base64Url.Decode, Sql.Agrees;
    var task := s.tasks[t];
    var s1 := Act(env, s, Resume(t));
    assert Alone(env, s1, t, 1) == Alone(env, Act(env, s1, Resume(t)), t, 0);
    Sql.StepAgrees(s.table, repo, Sql.Revoke(task.id, task.owner));
  }
}
