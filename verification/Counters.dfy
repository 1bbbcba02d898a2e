/** What the signature-counter policy guarantees over whole runs, with any challenge store. */
module Counters {
  import opened Prelude
  import opened Domain
  import opened Json
  import opened Repository
  import opened Ceremony
  import Base64Url
  import Codec
  import StatelessStore

  /** The first `z` counts are zero, the rest are positive and strictly increasing. */
  predicate RisingFrom(t: seq<nat>, z: nat) {
    && z <= |t|
    && (forall i :: 0 <= i < z ==> t[i] == 0)
    && (forall i :: z <= i < |t| ==> t[i] > 0)
    && (forall i, j :: z <= i < j < |t| ==> t[i] < t[j])
  }

  ghost predicate ZerosThenRising(t: seq<nat>) {
    exists z: nat :: RisingFrom(t, z)
  }

  lemma Extends(t: seq<nat>, n: nat)
    requires t != [] && ZerosThenRising(t) && CountAdvances(t[|t| - 1], n)
    ensures ZerosThenRising(t + [n])
  {
    var z: nat :| RisingFrom(t, z);
    var u := t + [n];
    if n == 0 {
      assert RisingFrom(u, |u|);
    } else {
      forall i | z <= i < |t| ensures t[i] < n {
        assert t[i] <= t[|t| - 1];
      }
      assert RisingFrom(u, z);
    }
  }

  /**
   The counters of every stored lifetime of every credential: the registered count followed by the
   counts accepted since. `live` holds the lifetimes still running, `closed` those ended by removal.
   */
  datatype Ledger = Ledger(live: map<Bytes, seq<nat>>, closed: set<seq<nat>>)

  function Record(l: Ledger, outcome: Outcome, repo: Repo): Ledger {
    match outcome
    case Registered(c) => l.(live := l.live[c.credentialId := [c.signCount]])
    case Authenticated(_, c, _) =>
      var trace := if c.credentialId in l.live then l.live[c.credentialId] else [];
      l.(live := l.live[c.credentialId := trace + [c.signCount]])
    case _ =>
      Ledger(map id | id in l.live && Find(repo, id).Some? :: l.live[id],
             l.closed + set id | id in l.live && Find(repo, id) == None :: l.live[id])
  }

  function LedgerOf(env: Env, calls: seq<Call>): Ledger {
    if calls == [] then Ledger(map[], {})
    else
      var n := |calls| - 1;
      Record(LedgerOf(env, calls[..n]), OutcomeAt(env, calls, n), Run(env, calls).repo)
  }

  ghost predicate Tallies(l: Ledger, repo: Repo) {
    && (forall id :: id in l.live <==> Find(repo, id).Some?)
    && (forall id :: id in l.live ==>
          var t := l.live[id];
          t != [] && t[|t| - 1] == Find(repo, id).value.signCount && ZerosThenRising(t))
    && (forall t :: t in l.closed ==> ZerosThenRising(t))
  }

  lemma StartsRising(n: nat)
    ensures ZerosThenRising([n])
  {
    assert RisingFrom([n], if n == 0 then 1 else 0);
  }

  lemma RecordTallies(l: Ledger, repo: Repo, outcome: Outcome, repo': Repo)
    requires Tallies(l, repo)
    requires forall id :: Effect(repo, repo', outcome, id)
    ensures Tallies(Record(l, outcome, repo'), repo')
  {
    hide ZerosThenRising, CountAdvances, Find;
    var l' := Record(l, outcome, repo');
    match outcome {
      case Registered(c) => StartsRising(c.signCount);
      case Authenticated(_, c, _) =>
        assert Effect(repo, repo', outcome, c.credentialId);
        Extends(l.live[c.credentialId], c.signCount);
      case _ =>
    }
    forall id
      ensures id in l'.live <==> Find(repo', id).Some?
      ensures id in l'.live ==>
                var t := l'.live[id];
                t != [] && t[|t| - 1] == Find(repo', id).value.signCount && ZerosThenRising(t)
    {
      assert Effect(repo, repo', outcome, id);
    }
  }

  /**
   In every run, whatever the store returned, the counts of each stored lifetime are a block of zeros
   followed by a strictly increasing positive sequence, and the stored count is the last of them.
   */
  lemma {:induction false} CounterTraces(env: Env, calls: seq<Call>)
    ensures Tallies(LedgerOf(env, calls), Run(env, calls).repo)
  {
    if calls != [] {
      var n := |calls| - 1;
      CounterTraces(env, calls[..n]);
      RunUnique(env, calls[..n]);
      var w := Run(env, calls[..n]);
      forall id ensures Effect(w.repo, Run(env, calls).repo, OutcomeAt(env, calls, n), id) {
        StepEffect(env, w, calls[n].op, calls[n].stored, id);
      }
      RecordTallies(LedgerOf(env, calls[..n]), w.repo, OutcomeAt(env, calls, n), Run(env, calls).repo);
    }
  }

  // ----- replay -----

  /** A stored count never decreases while its credential stays stored. */
  lemma StepKeepsCount(env: Env, w: World, call: Call, id: Bytes)
    requires Unique(w.repo) && Find(w.repo, id).Some?
    ensures var after := Find(Step(env, w, call.op, call.stored).0.repo, id);
            after.Some? ==> after.value.signCount >= Find(w.repo, id).value.signCount
  {
    StepEffect(env, w, call.op, call.stored, id);
  }

  ghost predicate StoredThroughout(env: Env, calls: seq<Call>, first: nat, last: nat, id: Bytes)
    requires last <= |calls|
  {
    forall k :: first <= k <= last ==> Find(Run(env, calls[..k]).repo, id).Some?
  }

  lemma {:induction false} CountMonotone(env: Env, calls: seq<Call>, first: nat, last: nat, id: Bytes)
    requires first <= last <= |calls| && StoredThroughout(env, calls, first, last, id)
    ensures Find(Run(env, calls[..last]).repo, id).value.signCount
            >= Find(Run(env, calls[..first]).repo, id).value.signCount
    decreases last
  {
    if first != last {
      CountMonotone(env, calls, first, last - 1, id);
      RunUnique(env, calls[..last - 1]);
      RunStep(env, calls, last - 1);
      StepKeepsCount(env, Run(env, calls[..last - 1]), calls[last - 1], id);
    }
  }

  /** While its credential stays stored, an accepted count is a lower bound of the stored count. */
  lemma {:induction false} StoredAtLeast(env: Env, calls: seq<Call>, i: nat, j: nat)
    requires i < j < |calls| && OutcomeAt(env, calls, i).Authenticated?
    requires StoredThroughout(env, calls, i + 1, j, OutcomeAt(env, calls, i).credential.credentialId)
    ensures var o := OutcomeAt(env, calls, i);
            var c := Find(Run(env, calls[..j]).repo, o.credential.credentialId);
            c.Some? && c.value.signCount >= o.credential.signCount
  {
    hide Step;
    var id := OutcomeAt(env, calls, i).credential.credentialId;
    RunUnique(env, calls[..i]);
    RunStep(env, calls, i);
    StepEffect(env, Run(env, calls[..i]), calls[i].op, calls[i].stored, id);
    CountMonotone(env, calls, i + 1, j, id);
  }

  /**
   Two accepted counts of one stored lifetime, in the order of the calls: the later is greater, or both
   are zero.
   */
  lemma {:induction false} AcceptedCountsRise(env: Env, calls: seq<Call>, i: nat, j: nat, id: Bytes)
    requires i < j < |calls| && StoredThroughout(env, calls, i + 1, j, id)
    requires var o, p := OutcomeAt(env, calls, i), OutcomeAt(env, calls, j);
             o.Authenticated? && o.credential.credentialId == id && p.Authenticated? && p.credential.credentialId == id
    ensures var m, n := OutcomeAt(env, calls, i).credential.signCount, OutcomeAt(env, calls, j).credential.signCount;
            m < n || m == n == 0
  {
    hide Step;
    RunUnique(env, calls[..j]);
    StepEffect(env, Run(env, calls[..j]), calls[j].op, calls[j].stored, id);
    StoredAtLeast(env, calls, i, j);
  }

  /**
   The attested count counts: what is accepted while a credential is stored is above the count that the
   engine attested when it was registered, or both are zero.
   */
  lemma {:induction false} AcceptedAboveAttested(env: Env, calls: seq<Call>, i: nat, j: nat, v: VerifiedRegistration)
    requires i < j < |calls| && calls[i].op.RegisterFinish? && OutcomeAt(env, calls, i).Registered?
    requires calls[i].stored.Some? && env.verifyRegistration(calls[i].op.response, calls[i].stored.value.challenge) == Ok(v)
    requires StoredThroughout(env, calls, i + 1, j, v.credentialId)
    requires var p := OutcomeAt(env, calls, j); p.Authenticated? && p.credential.credentialId == v.credentialId
    ensures var n := OutcomeAt(env, calls, j).credential.signCount; v.signCount < n || v.signCount == n == 0
  {
    RegisteredCount(env, calls, i, v);
    hide Step, OutcomeAt;
    RunUnique(env, calls[..j]);
    AcceptedAdvances(env, calls, j);
    CountMonotone(env, calls, i + 1, j, v.credentialId);
  }

  /** A registration stores the attested count. */
  lemma RegisteredCount(env: Env, calls: seq<Call>, i: nat, v: VerifiedRegistration)
    requires i < |calls| && calls[i].op.RegisterFinish? && OutcomeAt(env, calls, i).Registered?
    requires calls[i].stored.Some? && env.verifyRegistration(calls[i].op.response, calls[i].stored.value.challenge) == Ok(v)
    ensures var c := Find(Run(env, calls[..i + 1]).repo, v.credentialId); c.Some? && c.value.signCount == v.signCount
  {
    RunUnique(env, calls[..i]);
    RunStep(env, calls, i);
    StepEffect(env, Run(env, calls[..i]), calls[i].op, calls[i].stored, v.credentialId);
  }

  lemma AcceptedAdvances(env: Env, calls: seq<Call>, j: nat)
    requires j < |calls| && OutcomeAt(env, calls, j).Authenticated? && Unique(Run(env, calls[..j]).repo)
    ensures var c := OutcomeAt(env, calls, j).credential;
            var found := Find(Run(env, calls[..j]).repo, c.credentialId);
            found.Some? && CountAdvances(found.value.signCount, c.signCount)
  {
    hide Step;
    StepEffect(env, Run(env, calls[..j]), calls[j].op, calls[j].stored, OutcomeAt(env, calls, j).credential.credentialId);
  }

  /** The verified count is read off the assertion, not off the stored record. */
  ghost predicate CountFromAssertion(env: Env) {
    forall r: Fields, ch: Bytes, c: Credential, d: Credential ::
      var a, b := env.verifyAuthentication(r, ch, c), env.verifyAuthentication(r, ch, d);
      a.Ok? && b.Ok? ==> a.value.newSignCount == b.value.newSignCount
  }

  /**
   An assertion accepted once with a positive count is never accepted again for the same challenge
   while the credential stays stored, even when the store hands the challenge out again.
   */
  lemma ReplayFails(env: Env, calls: seq<Call>, i: nat, j: nat)
    requires CountFromAssertion(env)
    requires i < j < |calls|
    requires calls[i].op.AuthenticateFinish? && calls[j].op.AuthenticateFinish?
    requires calls[j].op.response == calls[i].op.response
    requires calls[j].stored == calls[i].stored || calls[j].stored == None
    requires var o := OutcomeAt(env, calls, i);
             o.Authenticated? && o.credential.signCount > 0
             && StoredThroughout(env, calls, i + 1, j, o.credential.credentialId)
    ensures OutcomeAt(env, calls, j).Failed?
  {
    hide FinishAuthentication, CountFromAssertion;
    StoredAtLeast(env, calls, i, j);
    var w, w' := Run(env, calls[..i]), Run(env, calls[..j]);
    FinishEnds(env, w', calls[j].stored, calls[j].op.response);
    if OutcomeAt(env, calls, j).Authenticated? {
      assert calls[j].stored == calls[i].stored;
      SameCount(env, w, w', calls[i].op.response, calls[i].stored);
    }
  }

  lemma FinishEnds(env: Env, w: World, stored: Option<Challenge>, response: Fields)
    ensures var o := FinishAuthentication(env, w, stored, response).1;
            (o.Authenticated? || o.Failed?) && (o.Authenticated? ==> stored.Some?)
  {
    hide Find, CredentialIdFrom, Base64Url.Encode, UpdateUsage, Delete, CountAdvances;
  }

  /** Two successes with one response and challenge report the same count of the same credential. */
  lemma SameCount(env: Env, w: World, w': World, response: Fields, stored: Option<Challenge>)
    requires CountFromAssertion(env)
    requires FinishAuthentication(env, w, stored, response).1.Authenticated?
    requires FinishAuthentication(env, w', stored, response).1.Authenticated?
    ensures var c := FinishAuthentication(env, w, stored, response).1.credential;
            var found := Find(w'.repo, c.credentialId);
            found.Some? && CountAdvances(found.value.signCount, c.signCount)
  {
    hide Find, CredentialIdFrom, Base64Url.Encode, UpdateUsage, Delete, CountAdvances;
  }

  // ----- exactly when a replay succeeds -----

  /** The verdict depends on the stored record only through its id and public key. */
  ghost predicate VerdictFromKey(env: Env) {
    forall r: Fields, ch: Bytes, c: Credential, d: Credential ::
      c.credentialId == d.credentialId && c.publicKey == d.publicKey ==>
        env.verifyAuthentication(r, ch, c) == env.verifyAuthentication(r, ch, d)
  }

  lemma {:induction false} OwnerAndKeyStay(env: Env, calls: seq<Call>, first: nat, last: nat, id: Bytes)
    requires first <= last <= |calls| && StoredThroughout(env, calls, first, last, id)
    ensures var c, d := Find(Run(env, calls[..first]).repo, id).value, Find(Run(env, calls[..last]).repo, id).value;
            c.userId == d.userId && c.publicKey == d.publicKey
    decreases last
  {
    if first != last {
      OwnerAndKeyStay(env, calls, first, last - 1, id);
      RunUnique(env, calls[..last - 1]);
      RunStep(env, calls, last - 1);
      StepEffect(env, Run(env, calls[..last - 1]), calls[last - 1].op, calls[last - 1].stored, id);
    }
  }

  /** The same finish with the same challenge, after which the entry may have changed but not its owner or key. */
  lemma FinishedAgain(env: Env, w: World, w': World, response: Fields, stored: Option<Challenge>, c': Credential)
    requires VerdictFromKey(env)
    requires var o := FinishAuthentication(env, w, stored, response).1;
             o.Authenticated? && Find(w'.repo, o.credential.credentialId) == Some(c')
             && c'.userId == o.credential.userId && c'.publicKey == o.credential.publicKey
    ensures FinishAuthentication(env, w', stored, response).1.Authenticated?
            <==> CountAdvances(c'.signCount, FinishAuthentication(env, w, stored, response).1.credential.signCount)
  {
    hide Find, CredentialIdFrom, Base64Url.Encode, UpdateUsage, Delete;
    var c := Resolve(w.repo, response, stored.value.userId).value;
    assert CredentialIdFrom(response) == Some(c.credentialId);
    assert Resolve(w'.repo, response, stored.value.userId) == Some(c');
    assert env.verifyAuthentication(response, stored.value.challenge, c')
        == env.verifyAuthentication(response, stored.value.challenge, c);
  }

  /**
   The counter check closes the replay window of a store that hands challenges out again for positive
   counts only: an accepted assertion, presented again for its challenge while its credential is
   stored, is accepted again exactly if the stored count is still zero.
   */
  lemma {:induction false} ReplaySucceedsIff(env: Env, calls: seq<Call>, i: nat, j: nat)
    requires VerdictFromKey(env)
    requires i < j < |calls|
    requires calls[i].op.AuthenticateFinish? && calls[j].op.AuthenticateFinish?
    requires calls[j].op.response == calls[i].op.response && calls[j].stored == calls[i].stored
    requires var o := OutcomeAt(env, calls, i);
             o.Authenticated? && StoredThroughout(env, calls, i + 1, j, o.credential.credentialId)
    ensures OutcomeAt(env, calls, j).Authenticated?
            <==> Find(Run(env, calls[..j]).repo, OutcomeAt(env, calls, i).credential.credentialId).value.signCount == 0
  {
    hide FinishAuthentication, Step, Run, Find, CountAdvances, VerdictFromKey;
    var id := OutcomeAt(env, calls, i).credential.credentialId;
    FinishOutcome(env, calls, i);
    FinishOutcome(env, calls, j);
    AcceptedStands(env, calls, i);
    StoredAtLeast(env, calls, i, j);
    OwnerAndKeyStay(env, calls, i + 1, j, id);
    var now := Find(Run(env, calls[..j]).repo, id).value;
    FinishedAgain(env, Run(env, calls[..i]), Run(env, calls[..j]), calls[i].op.response, calls[i].stored, now);
    AdvancesFromAbove(now.signCount, OutcomeAt(env, calls, i).credential.signCount);
  }

  lemma AdvancesFromAbove(stored: nat, presented: nat)
    requires presented <= stored
    ensures CountAdvances(stored, presented) <==> stored == 0
  {
  }

  lemma FinishOutcome(env: Env, calls: seq<Call>, i: nat)
    requires i < |calls| && calls[i].op.AuthenticateFinish?
    ensures OutcomeAt(env, calls, i)
            == FinishAuthentication(env, Run(env, calls[..i]), calls[i].stored, calls[i].op.response).1
  {
    hide FinishAuthentication, Run;
  }

  lemma AcceptedStands(env: Env, calls: seq<Call>, i: nat)
    requires i < |calls| && OutcomeAt(env, calls, i).Authenticated?
    ensures var c := OutcomeAt(env, calls, i).credential;
            Find(Run(env, calls[..i + 1]).repo, c.credentialId) == Some(c)
  {
    hide Step;
    RunUnique(env, calls[..i]);
    RunStep(env, calls, i);
    StepEffect(env, Run(env, calls[..i]), calls[i].op, calls[i].stored, OutcomeAt(env, calls, i).credential.credentialId);
  }

  /** `stored` is what the stateless store returned for the handle at the time of the call. */
  ghost predicate FromStateless(env: Env, calls: seq<Call>, i: nat, mac: StatelessStore.Mac)
    requires i < |calls| && IsFinish(calls[i].op)
  {
    var d := StatelessStore.Consume(calls[i].op.handle, Run(env, calls[..i]).now, mac);
    calls[i].stored == if d.Accepted? then Some(d.challenge) else None
  }

  /** A captured stateless handle with its assertion, presented again, fails if the count was positive. */
  lemma {:induction false} StatelessReplayFails(env: Env, calls: seq<Call>, i: nat, j: nat, mac: StatelessStore.Mac)
    requires CountFromAssertion(env)
    requires i < j < |calls|
    requires calls[i].op.AuthenticateFinish? && calls[j].op.AuthenticateFinish?
    requires calls[j].op.response == calls[i].op.response && calls[j].op.handle == calls[i].op.handle
    requires FromStateless(env, calls, i, mac) && FromStateless(env, calls, j, mac)
    requires var o := OutcomeAt(env, calls, i);
             o.Authenticated? && o.credential.signCount > 0
             && StoredThroughout(env, calls, i + 1, j, o.credential.credentialId)
    ensures OutcomeAt(env, calls, j).Failed?
  {
    ReplayFails(env, calls, i, j);
  }
}
