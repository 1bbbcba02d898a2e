/**
 What each call answers in a run, told from the credentials then stored, the challenge store and the
 engine alone, and what it leaves in the log.
 */
module Answers {
  import opened Prelude
  import opened Domain
  import opened Json
  import opened Repository
  import opened Ceremony
  import Base64Url

  // ----- logins -----

  predicate ForLogin(stored: Option<Challenge>) {
    stored.Some? && stored.value.AuthenticationChallenge?
  }

  /** The response names the stored credential `c`, and the challenge admits its owner. */
  predicate Usable(w: World, call: Call, c: Credential)
    requires call.op.AuthenticateFinish? && ForLogin(call.stored)
  {
    var id := CredentialIdFrom(call.op.response);
    && id.Some? && Find(w.repo, id.value) == Some(c)
    && (call.stored.value.userId == None || call.stored.value.userId == Some(c.userId))
  }

  ghost predicate NoneUsable(w: World, call: Call)
    requires call.op.AuthenticateFinish? && ForLogin(call.stored)
  {
    forall c :: !Usable(w, call, c)
  }

  /** The presented count is zero like the stored one, or greater. */
  predicate Rises(stored: nat, presented: nat) {
    stored < presented || (stored == 0 && presented == 0)
  }

  /**
   What a login answers, for every engine. The five cases exclude each other and leave none out: no
   login challenge; no usable credential; a usable one that the engine refuses, answered with exactly
   the engine's error; one whose count does not rise; and success.
   */
  lemma {:induction false} LoginAnswer(env: Env, calls: seq<Call>, i: nat)
    requires i < |calls| && calls[i].op.AuthenticateFinish?
    ensures var w, call, o := Run(env, calls[..i]), calls[i], OutcomeAt(env, calls, i);
            && (!ForLogin(call.stored) ==> o == Failed(ChallengeNotFound))
            && (ForLogin(call.stored) ==>
                  && (NoneUsable(w, call) ==> o == Failed(CredentialNotFound))
                  && forall c :: Usable(w, call, c) ==>
                       match env.verifyAuthentication(call.op.response, call.stored.value.challenge, c)
                       case Err(e) => o == Failed(e)
                       case Ok(v) =>
                         if Rises(c.signCount, v.newSignCount) then
                           o == Authenticated(c.userId, c.(signCount := v.newSignCount, lastUsedAt := Some(w.now)), v.userVerified)
                         else o == Failed(CloneDetectedError))
  {
    hide Run, Find, CredentialIdFrom, Base64Url.Encode, UpdateUsage, Delete;
    var w, call := Run(env, calls[..i]), calls[i];
    if ForLogin(call.stored) {
      var found := Resolve(w.repo, call.op.response, call.stored.value.userId);
      forall c ensures Usable(w, call, c) <==> found == Some(c) {
      }
      if found.Some? {
        assert Usable(w, call, found.value);
      }
    }
  }

  /** The engine reports failed logins as failed assertions, whatever went wrong. */
  ghost predicate OneError(env: Env) {
    forall r: Fields, ch: Bytes, c: Credential ::
      env.verifyAuthentication(r, ch, c).Err? ==> env.verifyAuthentication(r, ch, c).error == AssertionVerificationError
  }

  /** With such an engine each error has exactly one cause. */
  lemma {:induction false} LoginFailsIff(env: Env, calls: seq<Call>, i: nat)
    requires OneError(env) && i < |calls| && calls[i].op.AuthenticateFinish?
    ensures var w, call, o := Run(env, calls[..i]), calls[i], OutcomeAt(env, calls, i);
            var verdict := (c: Credential) requires ForLogin(call.stored) =>
              env.verifyAuthentication(call.op.response, call.stored.value.challenge, c);
            && (o == Failed(ChallengeNotFound) <==> !ForLogin(call.stored))
            && (o == Failed(CredentialNotFound) <==> ForLogin(call.stored) && NoneUsable(w, call))
            && (o == Failed(AssertionVerificationError) <==>
                  ForLogin(call.stored) && exists c :: Usable(w, call, c) && verdict(c).Err?)
            && (o == Failed(CloneDetectedError) <==>
                  ForLogin(call.stored) && exists c ::
                    Usable(w, call, c) && verdict(c).Ok? && !Rises(c.signCount, verdict(c).value.newSignCount))
            && (o.Authenticated? <==>
                  ForLogin(call.stored) && exists c ::
                    Usable(w, call, c) && verdict(c).Ok? && Rises(c.signCount, verdict(c).value.newSignCount))
            && (o.Failed? || o.Authenticated?)
  {
    hide Run, OutcomeAt, Rises, Find, CredentialIdFrom;
    LoginAnswer(env, calls, i);
    var w, call := Run(env, calls[..i]), calls[i];
    if ForLogin(call.stored) {
      OneUsable(w, call);
      if c :| Usable(w, call, c) {
      }
    }
  }

  lemma OneUsable(w: World, call: Call)
    requires call.op.AuthenticateFinish? && ForLogin(call.stored)
    ensures forall c, d :: Usable(w, call, c) && Usable(w, call, d) ==> c == d
  {
  }

  // ----- registrations -----

  predicate ForRegistration(stored: Option<Challenge>) {
    stored.Some? && stored.value.RegistrationChallenge?
  }

  /** The credential that a registration stores: what the engine attested, for the user of the challenge. */
  predicate Attested(config: Config, v: VerifiedRegistration, user: User, deviceName: Str, now: Instant, c: Credential) {
    && c.credentialId == v.credentialId && c.publicKey == v.publicKey && c.signCount == v.signCount
    && c.transports == v.transports && c.aaguid == v.aaguid && c.attestationFmt == v.attestationFmt
    && c.backupEligible == v.backupEligible && c.backupState == v.backupState
    && c.userId == user.id && c.deviceName == deviceName && c.isDiscoverable == config.residentKeyRequired
    && c.createdAt == Some(now) && c.lastUsedAt == None
  }

  /**
   What a registration answers and stores, for every engine: no registration challenge; a refusal,
   answered with exactly the engine's error; a stored id; and success.
   */
  lemma {:induction false} RegistrationAnswer(env: Env, calls: seq<Call>, i: nat)
    requires i < |calls| && calls[i].op.RegisterFinish?
    ensures var w, w', call, o := Run(env, calls[..i]), Run(env, calls[..i + 1]), calls[i], OutcomeAt(env, calls, i);
            && (!ForRegistration(call.stored) ==> o == Failed(ChallengeNotFound))
            && (ForRegistration(call.stored) ==>
                  match env.verifyRegistration(call.op.response, call.stored.value.challenge)
                  case Err(e) => o == Failed(e)
                  case Ok(v) =>
                    if Find(w.repo, v.credentialId).Some? then o == Failed(CredentialAlreadyExists)
                    else
                      && o.Registered? && Find(w'.repo, v.credentialId) == Some(o.credential)
                      && Attested(env.config, v, call.stored.value.user, call.op.deviceName, w.now, o.credential))
  {
    hide Run, Find, Base64Url.Encode, Assign;
    var w := Run(env, calls[..i]);
    RunStep(env, calls, i);
    var o := OutcomeAt(env, calls, i);
    if o.Registered? {
      FindOfAssign(w.repo, o.credential, o.credential.credentialId);
    }
  }

  // ----- begins -----

  /** For whom a begin looks up credentials: the user, unless none or the empty id was given. */
  function Asked(op: Op): Option<Str>
    requires IsBegin(op)
  {
    match op
    case RegisterBegin(user, _, _) => Some(user.id)
    case AuthenticateBegin(userId, _, _) => if userId == Some([]) then None else userId
  }

  /**
   What a begin issues: its own challenge and handle, and of the credentials then stored exactly those
   of the user asked for, each once; with no user, none. For a registration these are the credentials
   to exclude, for a login those to allow.
   */
  lemma {:induction false} BeginOffers(env: Env, calls: seq<Call>, i: nat)
    requires i < |calls| && IsBegin(calls[i].op)
    ensures var w, op, o := Run(env, calls[..i]), calls[i].op, OutcomeAt(env, calls, i);
            && o.Issued? && o.challenge == op.challenge && o.handle == op.handle
            && (forall c :: c in o.descriptors <==> Asked(op) == Some(c.userId) && Find(w.repo, c.credentialId) == Some(c))
            && (forall a, b :: 0 <= a < b < |o.descriptors| ==> o.descriptors[a].credentialId != o.descriptors[b].credentialId)
            && (Asked(op) == None ==> o.descriptors == [])
  {
    hide Run, Find, ListByUser;
    var w, op, o := Run(env, calls[..i]), calls[i].op, OutcomeAt(env, calls, i);
    RunUnique(env, calls[..i]);
    if Asked(op).Some? {
      assert o.descriptors == ListByUser(w.repo, Asked(op).value);
      ListedIff(w.repo, Asked(op).value);
      ListedOnce(w.repo, Asked(op).value);
    }
  }

  lemma ListedIff(repo: Repo, userId: Str)
    requires Unique(repo)
    ensures forall c :: c in ListByUser(repo, userId) <==> c.userId == userId && Find(repo, c.credentialId) == Some(c)
  {
    hide Find, ListByUser;
    forall c ensures c in ListByUser(repo, userId) <==> c.userId == userId && Find(repo, c.credentialId) == Some(c) {
      ListHoldsOwned(repo, userId, c);
      FoundIsStored(repo, c.credentialId);
      if c in repo {
        var k :| 0 <= k < |repo| && repo[k] == c;
        FindAt(repo, k);
      }
    }
  }

  /** A listing is a subsequence of the repository: positions in it rise with positions there. */
  lemma {:induction false} Subsequence(repo: Repo, userId: Str) returns (at: seq<nat>)
    ensures |at| == |ListByUser(repo, userId)|
    ensures forall a :: 0 <= a < |at| ==> at[a] < |repo| && repo[at[a]] == ListByUser(repo, userId)[a]
    ensures forall a, b :: 0 <= a < b < |at| ==> at[a] < at[b]
  {
    if repo == [] {
      at := [];
    } else {
      var rest := Subsequence(repo[1..], userId);
      var shifted := seq(|rest|, a requires 0 <= a < |rest| => rest[a] + 1);
      at := if repo[0].userId == userId then [0] + shifted else shifted;
    }
  }

  lemma {:induction false} ListedOnce(repo: Repo, userId: Str)
    requires Unique(repo)
    ensures var l := ListByUser(repo, userId);
            forall a, b :: 0 <= a < b < |l| ==> l[a].credentialId != l[b].credentialId
  {
    var at := Subsequence(repo, userId);
  }

  // ----- order -----

  /** The latest call before `n` that registered `id`. */
  function RegisteredAt(env: Env, calls: seq<Call>, n: nat, id: Bytes): (r: Option<nat>)
    requires n <= |calls|
    ensures r.Some? ==> r.value < n
  {
    if n == 0 then None
    else
      var o := OutcomeAt(env, calls, n - 1);
      if o.Registered? && o.credential.credentialId == id then Some(n - 1) else RegisteredAt(env, calls, n - 1, id)
  }

  /** The repository holds its credentials in the order of their registrations. */
  ghost predicate Ordered(env: Env, calls: seq<Call>, n: nat)
    requires n <= |calls|
  {
    var repo := Run(env, calls[..n]).repo;
    && (forall a :: 0 <= a < |repo| ==> RegisteredAt(env, calls, n, repo[a].credentialId).Some?)
    && (forall a, b :: 0 <= a < b < |repo| ==>
          RegisteredAt(env, calls, n, repo[a].credentialId).value < RegisteredAt(env, calls, n, repo[b].credentialId).value)
  }

  /** How a call changes the sequence of stored ids: one appended, one dropped, or none. */
  ghost predicate IdsAfter(repo: Repo, repo': Repo, o: Outcome) {
    if o.Registered? then repo' == repo + [o.credential] && forall a :: 0 <= a < |repo| ==> repo[a].credentialId != o.credential.credentialId
    else
      || (|repo'| == |repo| && forall a :: 0 <= a < |repo| ==> repo'[a].credentialId == repo[a].credentialId)
      || exists k: nat :: Dropped(repo, repo', k)
  }

  predicate Dropped(repo: Repo, repo': Repo, k: nat) {
    k < |repo| && repo' == repo[..k] + repo[k + 1..]
  }

  lemma {:induction false} AssignIds(repo: Repo, c: Credential)
    ensures Find(repo, c.credentialId) == None ==> Assign(repo, c) == repo + [c]
    ensures Find(repo, c.credentialId).Some? ==>
              |Assign(repo, c)| == |repo| && forall a :: 0 <= a < |repo| ==> Assign(repo, c)[a].credentialId == repo[a].credentialId
  {
    if repo != [] && repo[0].credentialId != c.credentialId {
      AssignIds(repo[1..], c);
      assert repo == [repo[0]] + repo[1..];
    }
  }

  lemma {:induction false} RemoveIds(repo: Repo, id: Bytes)
    ensures Remove(repo, id) == repo || exists k: nat :: Dropped(repo, Remove(repo, id), k)
  {
    hide Dropped;
    if repo != [] {
      var rest, rest' := repo[1..], Remove(repo[1..], id);
      if repo[0].credentialId == id {
        DropFirst(repo);
      } else {
        RemoveIds(rest, id);
        assert repo == [repo[0]] + rest;
        if k: nat :| Dropped(rest, rest', k) {
          DropLater(repo, rest', k);
        }
      }
    }
  }

  lemma DropFirst(repo: Repo)
    requires repo != []
    ensures Dropped(repo, repo[1..], 0)
  {
  }

  lemma DropLater(repo: Repo, rest': Repo, k: nat)
    requires repo != [] && Dropped(repo[1..], rest', k)
    ensures Dropped(repo, [repo[0]] + rest', k + 1)
  {
    assert repo[..k + 1] == [repo[0]] + repo[1..][..k] && repo[k + 2..] == repo[1..][k + 1..];
  }

  lemma NotFound(repo: Repo, id: Bytes)
    requires Find(repo, id) == None
    ensures forall a :: 0 <= a < |repo| ==> repo[a].credentialId != id
  {
    FindNoneIff(repo, id);
  }

  lemma StepIds(env: Env, w: World, op: Op, stored: Option<Challenge>)
    ensures IdsAfter(w.repo, Step(env, w, op, stored).0.repo, Step(env, w, op, stored).1)
  {
    hide Find, Assign, Remove, Base64Url.Decode, Base64Url.Encode, CredentialIdFrom, Dropped;
    var r := Step(env, w, op, stored);
    match op
    case RegisterFinish(_, _, _) =>
      if r.1.Registered? {
        AssignIds(w.repo, r.1.credential);
        NotFound(w.repo, r.1.credential.credentialId);
      }
    case AuthenticateFinish(response, _) =>
      if stored.Some? && stored.value.AuthenticationChallenge? {
        var c := Resolve(w.repo, response, stored.value.userId);
        if c.Some? {
          RemoveIds(w.repo, c.value.credentialId);
          if r.1.Authenticated? {
            AssignIds(w.repo, r.1.credential);
          }
        }
      }
    case RenameCredential(owner, idText, name) =>
      var id := Base64Url.Decode(idText);
      if id.Some? && Find(w.repo, id.value).Some? {
        AssignIds(w.repo, Find(w.repo, id.value).value.(deviceName := name));
      }
    case RevokeCredential(owner, idText) =>
      var id := Base64Url.Decode(idText);
      if id.Some? {
        RemoveIds(w.repo, id.value);
      }
    case _ =>
  }

  lemma {:induction false} RunOrdered(env: Env, calls: seq<Call>, n: nat)
    requires n <= |calls|
    ensures Ordered(env, calls, n)
  {
    hide Run, Step, Ordered, IdsAfter;
    if n == 0 {
      EmptyOrdered(env, calls);
    } else {
      RunOrdered(env, calls, n - 1);
      RunStep(env, calls, n - 1);
      StepIds(env, Run(env, calls[..n - 1]), calls[n - 1].op, calls[n - 1].stored);
      NextOrdered(env, calls, n);
    }
  }

  lemma EmptyOrdered(env: Env, calls: seq<Call>)
    ensures Ordered(env, calls, 0)
  {
    assert calls[..0] == [];
  }

  lemma NextOrdered(env: Env, calls: seq<Call>, n: nat)
    requires 0 < n <= |calls| && Ordered(env, calls, n - 1)
    requires IdsAfter(Run(env, calls[..n - 1]).repo, Run(env, calls[..n]).repo, OutcomeAt(env, calls, n - 1))
    ensures Ordered(env, calls, n)
  {
    hide Run, OutcomeAt;
    var repo, repo', o := Run(env, calls[..n - 1]).repo, Run(env, calls[..n]).repo, OutcomeAt(env, calls, n - 1);
    if !o.Registered? {
      if k: nat :| Dropped(repo, repo', k) {
        assert forall a :: 0 <= a < |repo'| ==> repo'[a] == repo[if a < k then a else a + 1];
      }
    }
  }

  /** A begin lists the credentials of its user in the order in which they were registered. */
  lemma {:induction false} OfferedInOrder(env: Env, calls: seq<Call>, i: nat, a: nat, b: nat)
    requires i < |calls| && IsBegin(calls[i].op)
    requires a < b < |OutcomeAt(env, calls, i).descriptors|
    ensures var d := OutcomeAt(env, calls, i).descriptors;
            var p, q := RegisteredAt(env, calls, i, d[a].credentialId), RegisteredAt(env, calls, i, d[b].credentialId);
            p.Some? && q.Some? && p.value < q.value
  {
    RunOrdered(env, calls, i);
    var repo := Run(env, calls[..i]).repo;
    assert Asked(calls[i].op).Some?;
    var at := Subsequence(repo, Asked(calls[i].op).value);
    assert OutcomeAt(env, calls, i).descriptors == ListByUser(repo, Asked(calls[i].op).value);
    assert at[a] < at[b];
  }
}
