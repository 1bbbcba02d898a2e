/** Agreement when calls overlap: which issued challenge a successful call answers, and that no two answer the same. */
module OverlappingAgreement {
  import opened Prelude
  import opened Domain
  import opened Json
  import opened Ceremony
  import opened Interleaving
  import Agreement
  import Sql = SqlRepository

  /** What is in the store was issued, and neither issued anew nor fetched since. */
  lemma {:induction false} IssuedBefore(env: Env, events: seq<Event>, n: nat, handle: Str) returns (b: nat)
    requires n <= |events| && handle in At(env, events, n).challenges
    ensures b < n && events[b] == Issue(handle, At(env, events, n).challenges[handle])
    ensures forall k :: b < k < n ==> !(events[k].Issue? && events[k].handle == handle)
  {
    hide Advanced;
    AtNext(env, events, n - 1);
    if events[n - 1].Issue? && events[n - 1].handle == handle {
      b := n - 1;
    } else {
      ActKeepsChallenge(env, At(env, events, n - 1), events[n - 1], handle);
      b := IssuedBefore(env, events, n - 1, handle);
    }
  }

  lemma ActKeepsChallenge(env: Env, s: Sys, e: Event, handle: Str)
    requires !(e.Issue? && e.handle == handle) && handle in Act(env, s, e).challenges
    ensures handle in s.challenges && s.challenges[handle] == Act(env, s, e).challenges[handle]
  {
    hide Decide, Sql.Insert, Sql.UpdateUsage, Sql.Rename, Sql.Delete;
  }

  /** Call `t` fetched at step `i` the challenge issued at step `b`, in time and as the first since. */
  ghost predicate Fetches(env: Env, events: seq<Event>, b: nat, i: nat, t: nat, challenge: Challenge) {
    && b < i < |events| && events[b].Issue? && events[b].challenge == challenge
    && events[i] == Resume(t) && Redeems(env, events, i, events[b].handle)
    && At(env, events, i).challenges[events[b].handle] == challenge
    && At(env, events, i).now <= challenge.expiresAt
    && forall k :: b < k < i ==> !(events[k].Issue? && events[k].handle == events[b].handle)
  }

  /** Where a call that got past its fetch stands on its way to a success. */
  ghost predicate LoginFrom(env: Env, response: Fields, challenge: Challenge, c: Credential, v: VerifiedAuthentication) {
    && challenge.AuthenticationChallenge? && CredentialIdFrom(response) == Some(c.credentialId)
    && (challenge.userId.Some? ==> challenge.userId.value == c.userId)
    && env.verifyAuthentication(response, challenge.challenge, c) == Ok(v) && CountAdvances(c.signCount, v.newSignCount)
  }

  /** Between lookup and report a login holds the credential it read and the verdict on it. */
  predicate Accepted(task: Task, c: Credential, v: VerifiedAuthentication) {
    || (task.AuthUpdate? && task.credential == c && task.verified == v)
    || (task.AuthReport? && task.credential == c && task.verified == v)
  }

  lemma LookupFetched(env: Env, events: seq<Event>, n: nat, t: nat) returns (b: nat, i: nat)
    requires n <= |events| && t in At(env, events, n).tasks && At(env, events, n).tasks[t].AuthLookup?
    ensures var task := At(env, events, n).tasks[t];
            && i < n && Fetches(env, events, b, i, t, task.challenge)
            && At(env, events, i).tasks[t] == AuthConsume(task.response, events[b].handle)
            && task.challenge.AuthenticationChallenge? && CredentialIdFrom(task.response) == Some(task.id)
  {
    hide CredentialIdFrom;
    i := Moved(env, events, n, t);
    var handle := At(env, events, i).tasks[t].handle;
    b := IssuedBefore(env, events, i, handle);
  }

  /** The read of an accepted login, and what it found. */
  lemma {:induction false} AcceptedRead(env: Env, events: seq<Event>, n: nat, t: nat, c: Credential, v: VerifiedAuthentication) returns (r: nat)
    requires n <= |events| && t in At(env, events, n).tasks && Accepted(At(env, events, n).tasks[t], c, v)
    ensures r < n && events[r] == Resume(t) && t in At(env, events, r).tasks && At(env, events, r).tasks[t].AuthLookup?
    ensures Accepted(Advanced(env, At(env, events, r), At(env, events, r).tasks[t]).1, c, v)
    decreases n
  {
    hide CredentialIdFrom, Sql.Get;
    r := Moved(env, events, n, t);
    if !At(env, events, r).tasks[t].AuthLookup? {
      r := AcceptedRead(env, events, r, t, c, v);
    }
  }

  lemma ReadFound(env: Env, s: Sys, task: Task, c: Credential, v: VerifiedAuthentication)
    requires task.AuthLookup? && Accepted(Advanced(env, s, task).1, c, v)
    requires Sql.Keyed(s.table) && task.challenge.AuthenticationChallenge? && CredentialIdFrom(task.response) == Some(task.id)
    ensures Sql.Get(s.table, task.id) == Some(c) && LoginFrom(env, task.response, task.challenge, c, v)
  {
    hide CredentialIdFrom;
  }

  /**
   Whatever calls overlap, a login that the server accepted with the credential `c` and the verdict `v`
   answers one issued challenge: it fetched it in time and as the first, and verified its response over
   it against the credential that was then stored and that the challenge admits.
   */
  lemma {:induction false} AcceptedAnswers(env: Env, events: seq<Event>, n: nat, t: nat, c: Credential, v: VerifiedAuthentication)
    returns (b: nat, i: nat, r: nat)
    requires n <= |events| && t in At(env, events, n).tasks && Accepted(At(env, events, n).tasks[t], c, v)
    ensures b < i < r < n && events[b].Issue? && Fetches(env, events, b, i, t, events[b].challenge)
    ensures At(env, events, i).tasks[t].AuthConsume? && Sql.Get(At(env, events, r).table, c.credentialId) == Some(c)
    ensures LoginFrom(env, At(env, events, i).tasks[t].response, events[b].challenge, c, v)
  {
    hide At, Advanced, CredentialIdFrom, Sql.Get;
    r := AcceptedRead(env, events, n, t, c, v);
    b, i := LookupFetched(env, events, r, t);
    RunKeyed(env, events, r);
    ReadFound(env, At(env, events, r), At(env, events, r).tasks[t], c, v);
  }

  predicate LoggedIn(env: Env, events: seq<Event>, n: nat, t: nat) {
    && n <= |events| && t in At(env, events, n).tasks
    && At(env, events, n).tasks[t].Finished? && At(env, events, n).tasks[t].outcome.Authenticated?
  }

  /** The same for a finished login, whose result is that credential with the presented count. */
  lemma {:induction false} LoginAnswers(env: Env, events: seq<Event>, n: nat, t: nat)
    returns (b: nat, i: nat, r: nat, c: Credential, v: VerifiedAuthentication)
    requires LoggedIn(env, events, n, t)
    ensures b < i < r < n && events[b].Issue? && Fetches(env, events, b, i, t, events[b].challenge)
    ensures At(env, events, i).tasks[t].AuthConsume? && Sql.Get(At(env, events, r).table, c.credentialId) == Some(c)
    ensures LoginFrom(env, At(env, events, i).tasks[t].response, events[b].challenge, c, v)
    ensures var o := At(env, events, n).tasks[t].outcome;
            && o.userId == c.userId && o.userVerified == v.userVerified
            && o.credential == c.(signCount := v.newSignCount, lastUsedAt := o.credential.lastUsedAt)
  {
    hide CredentialIdFrom, Sql.Get;
    var m := Moved(env, events, n, t);
    var report := At(env, events, m).tasks[t];
    assert report.AuthReport?;
    c, v := report.credential, report.verified;
    b, i, r := AcceptedAnswers(env, events, m, t, c, v);
  }

  /** With symbolic signatures: it signed that challenge with the key of that credential, whose owner is the bound user. */
  lemma {:induction false} LoginSigned(env: Env, events: seq<Event>, n: nat, t: nat, challengeOf: Fields -> Option<Bytes>,
                           signerOf: Fields -> Option<Bytes>) returns (b: nat, i: nat)
    requires Agreement.Signed(env, challengeOf, signerOf) && LoggedIn(env, events, n, t)
    ensures b < i < n && events[b].Issue? && Fetches(env, events, b, i, t, events[b].challenge)
    ensures At(env, events, i).tasks[t].AuthConsume? && events[b].challenge.AuthenticationChallenge?
    ensures var response, o := At(env, events, i).tasks[t].response, At(env, events, n).tasks[t].outcome;
            && challengeOf(response) == Some(events[b].challenge.challenge)
            && signerOf(response) == Some(o.credential.publicKey)
            && (events[b].challenge.userId.Some? ==> o.userId == events[b].challenge.userId.value)
  {
    hide At, CredentialIdFrom, Sql.Get;
    var r, c, v;
    b, i, r, c, v := LoginAnswers(env, events, n, t);
    assert env.verifyAuthentication(At(env, events, i).tasks[t].response, events[b].challenge.challenge, c).Ok?;
  }

  /** No two calls fetch the challenge of the same issue. */
  lemma FetchedOnce(env: Env, events: seq<Event>, b: nat, i: nat, t: nat, j: nat, u: nat, challenge: Challenge)
    requires Fetches(env, events, b, i, t, challenge) && Fetches(env, events, b, j, u, challenge)
    ensures i == j && t == u
  {
    hide At;
    if i < j {
      RedeemedOnce(env, events, i, j, events[b].handle);
    } else if j < i {
      RedeemedOnce(env, events, j, i, events[b].handle);
    }
  }

  /** Injective agreement under overlap: different successful logins answer different issues. */
  lemma {:induction false} DifferentLoginsDifferentIssues(env: Env, events: seq<Event>, n: nat, t: nat, u: nat) returns (b: nat, b': nat, i: nat, i': nat)
    requires LoggedIn(env, events, n, t) && LoggedIn(env, events, n, u) && t != u
    ensures b != b' && b < |events| && b' < |events| && events[b].Issue? && events[b'].Issue?
    ensures Fetches(env, events, b, i, t, events[b].challenge) && Fetches(env, events, b', i', u, events[b'].challenge)
  {
    hide At, CredentialIdFrom, Sql.Get, Fetches;
    var r, c, v, r', c', v';
    b, i, r, c, v := LoginAnswers(env, events, n, t);
    b', i', r', c', v' := LoginAnswers(env, events, n, u);
    if b == b' {
      FetchedOnce(env, events, b, i, t, i', u, events[b].challenge);
    }
  }

  // ----- registration -----

  /** A row's registration: the step that inserted it belongs to a call that fetched a challenge issued for exactly its owner. */
  lemma {:induction false} InsertAnswers(env: Env, events: seq<Event>, n: nat, t: nat) returns (b: nat, i: nat)
    requires n <= |events| && t in At(env, events, n).tasks && At(env, events, n).tasks[t].RegAdd?
    ensures b < i < n && events[b].Issue? && Fetches(env, events, b, i, t, events[b].challenge)
    ensures var c := At(env, events, n).tasks[t].credential;
            && events[b].challenge.RegistrationChallenge? && events[b].challenge.user.id == c.userId
            && At(env, events, i).tasks[t].RegConsume?
            && var v := env.verifyRegistration(At(env, events, i).tasks[t].response, events[b].challenge.challenge);
               v.Ok? && v.value.credentialId == c.credentialId && v.value.publicKey == c.publicKey
               && v.value.signCount == c.signCount && v.value.transports == c.transports && v.value.aaguid == c.aaguid
               && v.value.backupEligible == c.backupEligible && v.value.backupState == c.backupState
               && v.value.attestationFmt == c.attestationFmt
               && c.deviceName == At(env, events, i).tasks[t].deviceName && c.lastUsedAt == None
  {
    hide Sql.Get;
    var m := Moved(env, events, n, t);
    var lookup := At(env, events, m).tasks[t];
    assert lookup.RegLookup?;
    i := Moved(env, events, m, t);
    assert At(env, events, i).tasks[t].RegConsume?;
    b := IssuedBefore(env, events, i, At(env, events, i).tasks[t].handle);
  }

  /** Provenance under overlap: every stored row was inserted by such a registration and is unchanged in owner and key since. */
  lemma {:induction false} StoredRowWasRegistered(env: Env, events: seq<Event>, n: nat, id: Bytes) returns (b: nat, i: nat, a: nat)
    requires n <= |events| && RowNow(env, events, n, id).Some?
    ensures b < i < a < n && events[b].Issue? && events[a].Resume? && Fetches(env, events, b, i, events[a].t, events[b].challenge)
    ensures StoredThroughout(env, events, a + 1, n, id)
    ensures var row := RowNow(env, events, n, id).value;
            && events[b].challenge.RegistrationChallenge? && events[b].challenge.user.id == row.userId
            && At(env, events, i).tasks[events[a].t].RegConsume?
            && var v := env.verifyRegistration(At(env, events, i).tasks[events[a].t].response, events[b].challenge.challenge);
               v.Ok? && v.value.credentialId == id && v.value.publicKey == row.publicKey
               && v.value.aaguid == row.aaguid && v.value.backupEligible == row.backupEligible
               && v.value.backupState == row.backupState && v.value.attestationFmt == row.attestationFmt
               && var first := RowNow(env, events, a + 1, id);
                  first.Some? && first.value.signCount == v.value.signCount && first.value.lastUsedAt == None
                  && first.value.deviceName == At(env, events, i).tasks[events[a].t].deviceName
  {
    hide At, Fetches, StoredThroughout;
    a := RowWasInserted(env, events, n, id);
    b, i := InsertAnswers(env, events, a, events[a].t);
    RowNext(env, events, a, id);
    var row, c := RowNow(env, events, n, id).value, At(env, events, a).tasks[events[a].t].credential;
    SameFixed(row, c);
  }

  lemma SameFixed(row: Sql.Row, c: Credential)
    requires Fixed(row) == Fixed(Sql.ToRow(c))
    ensures row.userId == c.userId && row.publicKey == c.publicKey && row.aaguid == c.aaguid
    ensures row.backupEligible == c.backupEligible && row.backupState == c.backupState && row.attestationFmt == c.attestationFmt
  {
    var f, g := Fixed(row), Fixed(Sql.ToRow(c));
    assert f.userId == row.userId && f.publicKey == row.publicKey && f.aaguid == row.aaguid;
    assert f.backupEligible == row.backupEligible && f.backupState == row.backupState && f.attestationFmt == row.attestationFmt;
    assert g.userId == c.userId && g.publicKey == c.publicKey && g.aaguid == c.aaguid;
    assert g.backupEligible == c.backupEligible && g.backupState == c.backupState && g.attestationFmt == c.attestationFmt;
  }
}
