/** One user's listing cannot be changed by calls made for others. */
module Isolation {
  import opened Prelude
  import opened Domain
  import opened Repository
  import opened Ceremony
  import Base64Url

  /** The user whose credentials a call may change, if any. */
  function Subject(w: World, call: Call): Option<Str> {
    match call.op
    case RegisterFinish(_, _, _) =>
      if call.stored.Some? && call.stored.value.RegistrationChallenge? then Some(call.stored.value.user.id) else None
    case AuthenticateFinish(response, _) =>
      if call.stored.Some? && call.stored.value.AuthenticationChallenge? then
        var c := Resolve(w.repo, response, call.stored.value.userId);
        if c.Some? then Some(c.value.userId) else None
      else None
    case RenameCredential(owner, _, _) => Some(owner)
    case RevokeCredential(owner, _) => Some(owner)
    case _ => None
  }

  /** A call leaves the listing of everyone but its subject as it was, order included. */
  lemma OthersUntouched(env: Env, w: World, call: Call, userId: Str)
    requires Unique(w.repo) && Subject(w, call) != Some(userId)
    ensures ListByUser(Step(env, w, call.op, call.stored).0.repo, userId) == ListByUser(w.repo, userId)
  {
    hide Base64Url.Decode, Base64Url.Encode, CredentialIdFrom, ListByUser, Find;
    var outcome := Step(env, w, call.op, call.stored).1;
    match call.op
    case RegisterFinish(_, _, _) =>
      if outcome.Registered? {
        ListOfAssign(w.repo, outcome.credential, userId);
      }
    case AuthenticateFinish(response, _) =>
      if Subject(w, call).Some? {
        var c := Resolve(w.repo, response, call.stored.value.userId).value;
        ListOfRemove(w.repo, c.credentialId, userId);
        if outcome.Authenticated? {
          ListOfAssign(w.repo, outcome.credential, userId);
        }
      }
    case RenameCredential(owner, idText, name) =>
      var id := Base64Url.Decode(idText);
      if id.Some? && Find(w.repo, id.value).Some? && Find(w.repo, id.value).value.userId == owner {
        ListOfAssign(w.repo, Find(w.repo, id.value).value.(deviceName := name), userId);
      }
    case RevokeCredential(owner, idText) =>
      var id := Base64Url.Decode(idText);
      if id.Some? && Find(w.repo, id.value).Some? && Find(w.repo, id.value).value.userId == owner {
        ListOfRemove(w.repo, id.value, userId);
      }
    case _ =>
  }

  /** Calls made for other users, told from the call alone: authentications must be bound to another user. */
  predicate ForOthers(call: Call, userId: Str) {
    match call.op
    case RegisterFinish(_, _, _) =>
      call.stored.Some? && call.stored.value.RegistrationChallenge? ==> call.stored.value.user.id != userId
    case AuthenticateFinish(_, _) =>
      call.stored.Some? && call.stored.value.AuthenticationChallenge? ==>
        call.stored.value.userId.Some? && call.stored.value.userId.value != userId
    case RenameCredential(owner, _, _) => owner != userId
    case RevokeCredential(owner, _) => owner != userId
    case _ => true
  }

  lemma ForOthersUntouched(env: Env, w: World, call: Call, userId: Str)
    requires Unique(w.repo) && ForOthers(call, userId)
    ensures ListByUser(Step(env, w, call.op, call.stored).0.repo, userId) == ListByUser(w.repo, userId)
  {
    assert Subject(w, call) != Some(userId);
    OthersUntouched(env, w, call, userId);
  }

  /**
   Any number of other users' registrations, renames, revocations and user-bound authentications, in
   any order and with any outcome, leaves a user's listing unchanged, order included.
   */
  lemma {:induction false} UserIsolation(env: Env, before: seq<Call>, more: seq<Call>, userId: Str)
    requires forall i :: 0 <= i < |more| ==> ForOthers(more[i], userId)
    ensures ListByUser(Run(env, before + more).repo, userId) == ListByUser(Run(env, before).repo, userId)
    decreases |more|
  {
    hide Step;
    hide ForOthers;
    if more == [] {
      assert before + more == before;
    } else {
      var n := |more| - 1;
      var calls := before + more;
      assert calls[..|calls| - 1] == before + more[..n];
      UserIsolation(env, before, more[..n], userId);
      RunUnique(env, before + more[..n]);
      ForOthersUntouched(env, Run(env, before + more[..n]), more[n], userId);
    }
  }
}
