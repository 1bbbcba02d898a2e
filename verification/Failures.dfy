/** Failure atomicity and audit balance, with any challenge store. */
module Failures {
  import opened Prelude
  import opened Domain
  import opened Json
  import opened Repository
  import opened Ceremony
  import Agreement
  import Base64Url

  const SUCCEEDED: set<EventType> := {RegistrationSucceeded, AuthenticationSucceeded}

  const BEGAN: set<EventType> := {RegistrationBegan, AuthenticationBegan}

  /** The events that end a ceremony. */
  const TERMINAL: set<EventType> :=
    {RegistrationSucceeded, RegistrationFailed, AuthenticationSucceeded, AuthenticationFailed, ChallengeExpired, CloneSuspected}

  predicate Succeeded(o: Outcome) {
    o.Registered? || o.Authenticated?
  }

  /** The removal a failing finish may make. */
  predicate Disables(env: Env, w: World, call: Call) {
    call.op.AuthenticateFinish? && CloneStep(env, w, call.stored, call.op.response)
    && env.config.signCountPolicy.FlagDisable?
  }

  /**
   A finish appends exactly one event, a terminal one, stamped with the time of the call, which is a
   success event exactly when the call succeeds; a failing finish leaves the repository unchanged,
   the order of its entries included, save the removal of a suspected clone under `flag-disable`.
   */
  lemma FinishIsAtomic(env: Env, w: World, call: Call)
    requires Unique(w.repo) && IsFinish(call.op)
    ensures var r := Step(env, w, call.op, call.stored);
            && |r.0.log| == |w.log| + 1 && r.0.log[..|w.log|] == w.log
            && r.0.log[|w.log|].kind in TERMINAL && r.0.log[|w.log|].timestamp == w.now
            && (r.0.log[|w.log|].kind in SUCCEEDED <==> Succeeded(r.1))
            && (r.1.Failed? <==> !Succeeded(r.1))
            && (r.1.Failed? && !Disables(env, w, call) ==> r.0.repo == w.repo)
    ensures Disables(env, w, call) ==>
              var r := Step(env, w, call.op, call.stored);
              var id := CredentialIdFrom(call.op.response);
              && r.1 == Failed(CloneDetectedError) && id.Some? && Find(w.repo, id.value).Some?
              && Find(r.0.repo, id.value) == None
              && r.0.repo == Remove(w.repo, id.value)
  {
    if Disables(env, w, call) {
      var id := CredentialIdFrom(call.op.response).value;
      FindOfRemove(w.repo, id, id);
    }
  }

  /** The event that a failing finish leaves for its error. */
  predicate Explains(env: Env, w: World, call: Call, error: PasskeyError, e: AuditEvent) {
    var stored := call.stored;
    match e.kind
    case ChallengeExpired =>
      error == ChallengeNotFound && e.userId == None
      && !(stored.Some? && (stored.value.RegistrationChallenge? <==> call.op.RegisterFinish?))
    case RegistrationFailed =>
      && call.op.RegisterFinish? && stored.Some? && stored.value.RegistrationChallenge? && e.userId == Some(stored.value.user.id)
      && var v := env.verifyRegistration(call.op.response, stored.value.challenge);
         (v.Err? ==> error == v.error)
         && (v.Ok? ==> Find(w.repo, v.value.credentialId).Some? && error == CredentialAlreadyExists)
    case AuthenticationFailed =>
      && call.op.AuthenticateFinish? && stored.Some? && stored.value.AuthenticationChallenge?
      && var c := Resolve(w.repo, call.op.response, stored.value.userId);
         e.userId == (if c.Some? then Some(c.value.userId) else stored.value.userId)
         && (c == None ==> error == CredentialNotFound)
         && (c.Some? ==> env.verifyAuthentication(call.op.response, stored.value.challenge, c.value) == Err(error))
    case CloneSuspected =>
      && error == CloneDetectedError && call.op.AuthenticateFinish? && stored.Some? && stored.value.AuthenticationChallenge?
      && e.detail.Some? && !CountAdvances(e.detail.value.0, e.detail.value.1)
      && var c := Resolve(w.repo, call.op.response, stored.value.userId);
         c.Some? && e.userId == Some(c.value.userId) && e.detail.value.0 == c.value.signCount
         && e.credentialId == Some(Base64Url.Encode(c.value.credentialId))
    case _ => false
  }

  lemma FailureExplained(env: Env, w: World, call: Call)
    requires IsFinish(call.op) && Step(env, w, call.op, call.stored).1.Failed?
    ensures var r := Step(env, w, call.op, call.stored);
            |r.0.log| == |w.log| + 1 && Explains(env, w, call, r.1.error, r.0.log[|w.log|])
  {
    hide Find, CredentialIdFrom, Base64Url.Encode, Delete;
  }

  /** The log only grows. */
  lemma {:induction false} LogGrows(env: Env, calls: seq<Call>, m: nat, n: nat)
    requires m <= n <= |calls|
    ensures var early, late := Run(env, calls[..m]).log, Run(env, calls[..n]).log; |early| <= |late| && late[..|early|] == early
    decreases n
  {
    hide Step;
    if m < n {
      LogGrows(env, calls, m, n - 1);
      RunStep(env, calls, n - 1);
      StepAppends(env, Run(env, calls[..n - 1]), calls[n - 1]);
    }
  }

  lemma StepAppends(env: Env, w: World, call: Call)
    ensures var log := Step(env, w, call.op, call.stored).0.log; |w.log| <= |log| && log[..|w.log|] == w.log
  {
    hide Find, CredentialIdFrom, Base64Url.Encode, Base64Url.Decode, Delete, Rename, UpdateUsage;
  }

  /** In every run, each failed finish stays explained in the log, at the place its call found the end of the log. */
  lemma {:induction false} FailuresStayExplained(env: Env, calls: seq<Call>, i: nat, n: nat)
    requires i < n <= |calls| && IsFinish(calls[i].op) && OutcomeAt(env, calls, i).Failed?
    ensures var w, log := Run(env, calls[..i]), Run(env, calls[..n]).log;
            |w.log| < |log| && Explains(env, w, calls[i], OutcomeAt(env, calls, i).error, log[|w.log|])
  {
    hide Step, Explains;
    RunStep(env, calls, i);
    FailureExplained(env, Run(env, calls[..i]), calls[i]);
    LogGrows(env, calls, i + 1, n);
  }

  // ----- what was disabled stays unknown -----

  /** A removed id is found again only after it is registered again. */
  lemma {:induction false} UnknownUntilRegistered(env: Env, before: seq<Call>, more: seq<Call>, id: Bytes)
    requires Find(Run(env, before).repo, id) == None
    requires forall i :: |before| <= i < |before + more| ==>
               var o := OutcomeAt(env, before + more, i);
               !(o.Registered? && o.credential.credentialId == id)
    ensures Find(Run(env, before + more).repo, id) == None
    decreases |more|
  {
    hide Step;
    if more == [] {
      assert before + more == before;
    } else {
      var n := |more| - 1;
      var calls := before + more;
      var shorter := before + more[..n];
      assert calls[..|calls| - 1] == shorter;
      forall i | |before| <= i < |shorter|
        ensures var o := OutcomeAt(env, shorter, i); !(o.Registered? && o.credential.credentialId == id)
      {
        assert calls[..i] == shorter[..i] && calls[i] == shorter[i];
        assert OutcomeAt(env, shorter, i) == OutcomeAt(env, calls, i);
      }
      UnknownUntilRegistered(env, before, more[..n], id);
      RunUnique(env, shorter);
      StepEffect(env, Run(env, shorter), more[n].op, more[n].stored, id);
      assert OutcomeAt(env, calls, |calls| - 1) == Step(env, Run(env, shorter), more[n].op, more[n].stored).1;
    }
  }

  // ----- balance over runs -----

  function CountEvents(log: seq<AuditEvent>, kinds: set<EventType>): nat {
    if log == [] then 0
    else CountEvents(log[..|log| - 1], kinds) + if log[|log| - 1].kind in kinds then 1 else 0
  }

  function CountFinishes(calls: seq<Call>): nat {
    if calls == [] then 0
    else CountFinishes(calls[..|calls| - 1]) + if IsFinish(calls[|calls| - 1].op) then 1 else 0
  }

  function CountBegins(calls: seq<Call>): nat {
    if calls == [] then 0
    else CountBegins(calls[..|calls| - 1]) + if IsBegin(calls[|calls| - 1].op) then 1 else 0
  }

  function CountSuccesses(env: Env, calls: seq<Call>): nat {
    if calls == [] then 0
    else CountSuccesses(env, calls[..|calls| - 1]) + if Succeeded(OutcomeAt(env, calls, |calls| - 1)) then 1 else 0
  }

  lemma CountOfAppend(log: seq<AuditEvent>, log': seq<AuditEvent>, kinds: set<EventType>)
    requires |log'| == |log| + 1 && log'[..|log|] == log
    ensures CountEvents(log', kinds) == CountEvents(log, kinds) + if log'[|log|].kind in kinds then 1 else 0
  {
  }

  /** A call that is no finish appends at most one event, `began` for a begin and a revocation otherwise. */
  lemma NonFinishEvents(env: Env, w: World, call: Call)
    requires !IsFinish(call.op)
    ensures var r := Step(env, w, call.op, call.stored);
            && !Succeeded(r.1)
            && (IsBegin(call.op) ==>
                  && |r.0.log| == |w.log| + 1 && r.0.log[..|w.log|] == w.log
                  && r.0.log[|w.log|].kind in BEGAN)
            && (!IsBegin(call.op) ==>
                  r.0.log == w.log
                  || (|r.0.log| == |w.log| + 1 && r.0.log[..|w.log|] == w.log
                      && r.0.log[|w.log|].kind == CredentialRevoked))
  {
  }

  lemma {:induction false} StepBalance(env: Env, w: World, call: Call)
    requires Unique(w.repo)
    ensures var r := Step(env, w, call.op, call.stored);
            && CountEvents(r.0.log, TERMINAL) == CountEvents(w.log, TERMINAL) + (if IsFinish(call.op) then 1 else 0)
            && CountEvents(r.0.log, BEGAN) == CountEvents(w.log, BEGAN) + (if IsBegin(call.op) then 1 else 0)
            && CountEvents(r.0.log, SUCCEEDED) == CountEvents(w.log, SUCCEEDED) + (if Succeeded(r.1) then 1 else 0)
  {
    var log' := Step(env, w, call.op, call.stored).0.log;
    if IsFinish(call.op) {
      FinishIsAtomic(env, w, call);
    } else {
      NonFinishEvents(env, w, call);
    }
    if log' != w.log {
      CountOfAppend(w.log, log', TERMINAL);
      CountOfAppend(w.log, log', BEGAN);
      CountOfAppend(w.log, log', SUCCEEDED);
    }
  }

  /** The log of a run holds one terminal event per finish, one `began` event per begin, one success per success. */
  lemma {:induction false} AuditBalance(env: Env, calls: seq<Call>)
    ensures CountEvents(Run(env, calls).log, TERMINAL) == CountFinishes(calls)
    ensures CountEvents(Run(env, calls).log, BEGAN) == CountBegins(calls)
    ensures CountEvents(Run(env, calls).log, SUCCEEDED) == CountSuccesses(env, calls)
  {
    if calls != [] {
      var n := |calls| - 1;
      AuditBalance(env, calls[..n]);
      RunUnique(env, calls[..n]);
      StepBalance(env, Run(env, calls[..n]), calls[n]);
    }
  }

  // ----- wrong ceremony, in the single-use store -----

  /** A finish takes the latest begin of its handle, of the other ceremony, which no finish has named yet. */
  predicate WrongCeremony(ops: seq<Op>, i: nat) {
    && i < |ops| && IsFinish(ops[i])
    && var b := Agreement.BeginOf(ops, i);
       b.Some? && b.value < i && IsBegin(ops[b.value]) && (ops[b.value].RegisterBegin? <==> ops[i].AuthenticateFinish?)
       && !Agreement.Named(ops, b.value, i, ops[i].handle)
  }

  /**
   A handle used for the wrong ceremony is rejected without touching the repository, and is dead for
   both ceremonies until a begin issues it anew.
   */
  lemma {:induction false} WrongCeremonyRejected(env: Env, ops: seq<Op>, i: nat, j: nat)
    requires WrongCeremony(ops, i)
    ensures ServedOutcome(env, ops, i) == Failed(ChallengeNotFound)
    ensures Serve(env, ops[..i + 1]).world.repo == Serve(env, ops[..i]).world.repo
    ensures i < j < |ops| && IsFinish(ops[j]) && ops[j].handle == ops[i].handle
            && (forall k :: i < k < j ==> !(IsBegin(ops[k]) && ops[k].handle == ops[i].handle)) ==>
              ServedOutcome(env, ops, j) == Failed(ChallengeNotFound)
  {
    Agreement.StoreHistory(env, ops, i, ops[i].handle);
    ServeStep(env, ops, i);
    if i < j < |ops| && IsFinish(ops[j]) && ops[j].handle == ops[i].handle
       && forall k :: i < k < j ==> !(IsBegin(ops[k]) && ops[k].handle == ops[i].handle) {
      RedeemedIsDead(env, ops, i, j);
    }
  }

  /** Once a finish has named a handle, no finish can use it again before a begin issues it anew. */
  lemma {:induction false} RedeemedIsDead(env: Env, ops: seq<Op>, i: nat, j: nat)
    requires i < j < |ops| && IsFinish(ops[i]) && IsFinish(ops[j]) && ops[j].handle == ops[i].handle
    requires forall k :: i < k < j ==> !(IsBegin(ops[k]) && ops[k].handle == ops[i].handle)
    ensures ServedOutcome(env, ops, j) == Failed(ChallengeNotFound)
  {
    ServeStep(env, ops, i);
    HandleStaysGone(env, ops, i + 1, j, ops[i].handle);
  }

  lemma {:induction false} HandleStaysGone(env: Env, ops: seq<Op>, i: nat, j: nat, handle: Str)
    requires i <= j <= |ops| && handle !in Serve(env, ops[..i]).store
    requires forall k :: i <= k < j ==> !(IsBegin(ops[k]) && ops[k].handle == handle)
    ensures handle !in Serve(env, ops[..j]).store
    decreases j
  {
    if i < j {
      HandleStaysGone(env, ops, i, j - 1, handle);
      ServeStep(env, ops, j - 1);
    }
  }
}
