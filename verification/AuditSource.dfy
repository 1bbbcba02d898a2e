/** The audit log as an event source: folding it recovers who owns which credential. */
module AuditSource {
  import opened Prelude
  import opened Domain
  import opened Repository
  import opened Ceremony
  import Base64Url

  /** One event's effect on the ownership map. */
  function Apply(policy: SignCountPolicy, m: map<Bytes, Str>, e: AuditEvent): map<Bytes, Str> {
    if e.credentialId == None || e.userId == None then m
    else
      var id := Base64Url.Decode(e.credentialId.value);
      if id == None then m
      else
        match e.kind
        case RegistrationSucceeded => m[id.value := e.userId.value]
        case CredentialRevoked => if id.value in m && m[id.value] == e.userId.value then m - {id.value} else m
        case CloneSuspected => if policy.FlagDisable? then m - {id.value} else m
        case _ => m
  }

  function Owners(policy: SignCountPolicy, log: seq<AuditEvent>): map<Bytes, Str> {
    if log == [] then map[] else Apply(policy, Owners(policy, log[..|log| - 1]), log[|log| - 1])
  }

  ghost predicate Tells(m: map<Bytes, Str>, repo: Repo) {
    forall id :: (id in m <==> Find(repo, id).Some?) && (id in m ==> m[id] == Find(repo, id).value.userId)
  }

  lemma RegisterTells(env: Env, w: World, call: Call, m: map<Bytes, Str>, id: Bytes)
    requires Unique(w.repo) && Tells(m, w.repo) && call.op.RegisterFinish?
    ensures var w' := Step(env, w, call.op, call.stored).0;
            && |w'.log| == |w.log| + 1 && w'.log[..|w.log|] == w.log
            && var m' := Apply(env.config.signCountPolicy, m, w'.log[|w.log|]);
               var after := Find(w'.repo, id);
               (id in m' <==> after.Some?) && (id in m' ==> m'[id] == after.value.userId)
  {
    FindAfterStep(env, w, call.op, call.stored, id);
    var outcome := Step(env, w, call.op, call.stored).1;
    if outcome.Registered? {
      Base64Url.DecodeEncode(outcome.credential.credentialId);
    }
  }

  lemma AuthenticateTells(env: Env, w: World, call: Call, m: map<Bytes, Str>, id: Bytes)
    requires Unique(w.repo) && Tells(m, w.repo) && call.op.AuthenticateFinish?
    ensures var w' := Step(env, w, call.op, call.stored).0;
            && |w'.log| == |w.log| + 1 && w'.log[..|w.log|] == w.log
            && var m' := Apply(env.config.signCountPolicy, m, w'.log[|w.log|]);
               var after := Find(w'.repo, id);
               (id in m' <==> after.Some?) && (id in m' ==> m'[id] == after.value.userId)
  {
    hide Base64Url.Decode, Base64Url.Encode, CredentialIdFrom, Find;
    FindAfterStep(env, w, call.op, call.stored, id);
    if call.stored.Some? && call.stored.value.AuthenticationChallenge? {
      var c := Resolve(w.repo, call.op.response, call.stored.value.userId);
      if c.Some? {
        Base64Url.DecodeEncode(c.value.credentialId);
        assert CredentialIdFrom(call.op.response) == Some(c.value.credentialId);
      }
    }
  }

  lemma RevokeTells(env: Env, w: World, call: Call, m: map<Bytes, Str>, id: Bytes)
    requires Unique(w.repo) && Tells(m, w.repo) && call.op.RevokeCredential?
    requires Base64Url.Decode(call.op.idText).Some?
    ensures var w' := Step(env, w, call.op, call.stored).0;
            && |w'.log| == |w.log| + 1 && w'.log[..|w.log|] == w.log
            && var m' := Apply(env.config.signCountPolicy, m, w'.log[|w.log|]);
               var after := Find(w'.repo, id);
               (id in m' <==> after.Some?) && (id in m' ==> m'[id] == after.value.userId)
  {
    FindAfterStep(env, w, call.op, call.stored, id);
  }

  /** Begins append an event that changes no owner; renames and the clock append none. */
  lemma OtherTells(env: Env, w: World, call: Call, m: map<Bytes, Str>, id: Bytes)
    requires Unique(w.repo) && Tells(m, w.repo) && !IsFinish(call.op)
    requires call.op.RevokeCredential? ==> Base64Url.Decode(call.op.idText) == None
    ensures var w' := Step(env, w, call.op, call.stored).0;
            var after := Find(w'.repo, id);
            && (w'.log == w.log
                || (|w'.log| == |w.log| + 1 && w'.log[..|w.log|] == w.log
                    && Apply(env.config.signCountPolicy, m, w'.log[|w.log|]) == m))
            && (id in m <==> after.Some?) && (id in m ==> m[id] == after.value.userId)
  {
    FindAfterStep(env, w, call.op, call.stored, id);
  }

  lemma StepTells(env: Env, w: World, call: Call)
    requires Unique(w.repo) && Tells(Owners(env.config.signCountPolicy, w.log), w.repo)
    ensures var w' := Step(env, w, call.op, call.stored).0;
            Tells(Owners(env.config.signCountPolicy, w'.log), w'.repo)
  {
    var policy := env.config.signCountPolicy;
    var m := Owners(policy, w.log);
    var w' := Step(env, w, call.op, call.stored).0;
    var m' := Owners(policy, w'.log);
    forall id ensures (id in m' <==> Find(w'.repo, id).Some?) && (id in m' ==> m'[id] == Find(w'.repo, id).value.userId) {
      if call.op.RegisterFinish? {
        RegisterTells(env, w, call, m, id);
      } else if call.op.AuthenticateFinish? {
        AuthenticateTells(env, w, call, m, id);
      } else if call.op.RevokeCredential? && Base64Url.Decode(call.op.idText).Some? {
        RevokeTells(env, w, call, m, id);
      } else {
        OtherTells(env, w, call, m, id);
      }
    }
  }

  /**
   After every run the fold of the log over the empty map is exactly the map from stored credential
   ids to owners: registrations add, a revocation removes if its decoded id is the user's own, and
   clone suspicion removes under `flag-disable`.
   */
  lemma {:induction false} LogTellsOwners(env: Env, calls: seq<Call>)
    ensures Tells(Owners(env.config.signCountPolicy, Run(env, calls).log), Run(env, calls).repo)
  {
    if calls != [] {
      var n := |calls| - 1;
      LogTellsOwners(env, calls[..n]);
      RunUnique(env, calls[..n]);
      StepTells(env, Run(env, calls[..n]), calls[n]);
    }
  }
}
