/** The audit log of a run, event by event: what each call writes, told from its outcome. */
module Chronicle {
  import opened Prelude
  import opened Domain
  import opened Json
  import opened Repository
  import opened Ceremony
  import opened Answers
  import Base64Url

  function Event(w: World, kind: EventType, userId: Option<Str>, id: Option<Bytes>): AuditEvent {
    AuditEvent(kind, w.now, userId, if id.Some? then Some(Base64Url.Encode(id.value)) else None, None)
  }

  /** The event `e` that a failing login writes. */
  ghost predicate LoginFailure(env: Env, w: World, call: Call, e: AuditEvent)
    requires call.op.AuthenticateFinish?
  {
    if !ForLogin(call.stored) then e == Event(w, ChallengeExpired, None, None)
    else
      && (NoneUsable(w, call) ==> e == Event(w, AuthenticationFailed, call.stored.value.userId, None))
      && forall c :: Usable(w, call, c) ==>
           match env.verifyAuthentication(call.op.response, call.stored.value.challenge, c)
           case Err(_) => e == Event(w, AuthenticationFailed, Some(c.userId), None)
           case Ok(v) =>
             e == Event(w, CloneSuspected, Some(c.userId), Some(c.credentialId)).(detail := Some((c.signCount, v.newSignCount)))
  }

  /** The events `es` that a call writes. */
  ghost predicate Writes(env: Env, w: World, call: Call, o: Outcome, es: seq<AuditEvent>) {
    match call.op
    case RegisterBegin(user, _, _) => es == [Event(w, RegistrationBegan, Some(user.id), None)]
    case AuthenticateBegin(userId, _, _) => es == [Event(w, AuthenticationBegan, userId, None)]
    case RegisterFinish(_, _, _) =>
      if o.Registered? then es == [Event(w, RegistrationSucceeded, Some(o.credential.userId), Some(o.credential.credentialId))]
      else if ForRegistration(call.stored) then es == [Event(w, RegistrationFailed, Some(call.stored.value.user.id), None)]
      else es == [Event(w, ChallengeExpired, None, None)]
    case AuthenticateFinish(_, _) =>
      if o.Authenticated? then es == [Event(w, AuthenticationSucceeded, Some(o.userId), Some(o.credential.credentialId))]
      else |es| == 1 && LoginFailure(env, w, call, es[0])
    case RevokeCredential(owner, idText) =>
      if Base64Url.Decode(idText).Some? then es == [AuditEvent(CredentialRevoked, w.now, Some(owner), Some(idText), None)]
      else es == []
    case RenameCredential(_, _, _) => es == []
    case Advance(_) => es == []
  }

  lemma {:induction false} StepWrites(env: Env, w: World, call: Call) returns (es: seq<AuditEvent>)
    ensures Step(env, w, call.op, call.stored).0.log == w.log + es
    ensures Writes(env, w, call, Step(env, w, call.op, call.stored).1, es)
  {
    hide Find, CredentialIdFrom, Base64Url.Encode, Base64Url.Decode, Assign, UpdateUsage, Rename, Delete;
    var r := Step(env, w, call.op, call.stored);
    assert |r.0.log| >= |w.log| && r.0.log[..|w.log|] == w.log;
    es := r.0.log[|w.log|..];
    if call.op.AuthenticateFinish? && ForLogin(call.stored) {
      var found := Resolve(w.repo, call.op.response, call.stored.value.userId);
      forall c ensures Usable(w, call, c) <==> found == Some(c) {
      }
      if found.Some? {
        assert Usable(w, call, found.value);
      }
    }
  }

  /** The log of every run is the concatenation of what its calls write, and nothing is ever taken back. */
  lemma {:induction false} LogIsChronicle(env: Env, calls: seq<Call>) returns (written: seq<seq<AuditEvent>>)
    ensures |written| == |calls| && Run(env, calls).log == Flatten(written)
    ensures forall i :: 0 <= i < |calls| ==> Writes(env, Run(env, calls[..i]), calls[i], OutcomeAt(env, calls, i), written[i])
  {
    hide Step, Writes;
    if calls == [] {
      written := [];
    } else {
      var n := |calls| - 1;
      var before := LogIsChronicle(env, calls[..n]);
      var es := StepWrites(env, Run(env, calls[..n]), calls[n]);
      written := before + [es];
      assert written[..n] == before;
      forall i | 0 <= i < |calls| ensures Writes(env, Run(env, calls[..i]), calls[i], OutcomeAt(env, calls, i), written[i]) {
        if i < n {
          assert calls[..n][..i] == calls[..i] && calls[..n][i] == calls[i];
          assert OutcomeAt(env, calls[..n], i) == OutcomeAt(env, calls, i);
        }
      }
    }
  }

  function Flatten(parts: seq<seq<AuditEvent>>): seq<AuditEvent> {
    if parts == [] then [] else Flatten(parts[..|parts| - 1]) + parts[|parts| - 1]
  }
}
