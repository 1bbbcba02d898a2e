/**
 Agreement between the two halves of a ceremony over whole runs on the single-use store: what a
 successful finish proves about the begin it answers.
 */
module Agreement {
  import opened Prelude
  import opened Domain
  import opened Json
  import opened Repository
  import opened Ceremony

  /** The latest begin before call `n` that issued `handle`. */
  function LastBegin(ops: seq<Op>, n: nat, handle: Str): Option<nat>
    requires n <= |ops|
  {
    if n == 0 then None
    else if IsBegin(ops[n - 1]) && ops[n - 1].handle == handle then Some(n - 1)
    else LastBegin(ops, n - 1, handle)
  }

  lemma {:induction false} LastBeginIs(ops: seq<Op>, n: nat, handle: Str)
    requires n <= |ops|
    ensures match LastBegin(ops, n, handle)
            case None => forall k :: 0 <= k < n ==> !(IsBegin(ops[k]) && ops[k].handle == handle)
            case Some(b) => b < n && IsBegin(ops[b]) && ops[b].handle == handle
                            && forall k :: b < k < n ==> !(IsBegin(ops[k]) && ops[k].handle == handle)
  {
    if n > 0 {
      LastBeginIs(ops, n - 1, handle);
    }
  }

  function Clock(env: Env, ops: seq<Op>, n: nat): Instant
    requires n <= |ops|
  {
    Serve(env, ops[..n]).world.now
  }

  /** Some finish between `b` and `n` named the handle. */
  predicate Named(ops: seq<Op>, b: nat, n: nat, handle: Str)
    requires n <= |ops|
  {
    exists k :: b < k < n && IsFinish(ops[k]) && ops[k].handle == handle
  }

  /**
   The store after a run, handle by handle: an entry is there exactly when some begin issued the
   handle and no finish has named it since the latest such begin, and it is the challenge of that begin.
   */
  lemma {:induction false} StoreHistory(env: Env, ops: seq<Op>, n: nat, handle: Str)
    requires n <= |ops|
    ensures var b := LastBegin(ops, n, handle);
            var store := Serve(env, ops[..n]).store;
            && (b.Some? ==> b.value < n && IsBegin(ops[b.value]) && ops[b.value].handle == handle)
            && (handle in store <==> b.Some? && !Named(ops, b.value, n, handle))
            && (handle in store ==> store[handle] == NewChallenge(env.config, Clock(env, ops, b.value), ops[b.value]))
  {
    LastBeginIs(ops, n, handle);
    if n > 0 {
      var m := n - 1;
      StoreHistory(env, ops, m, handle);
      ServeStep(env, ops, m);
      var b := LastBegin(ops, n, handle);
      if b.Some? && b.value < m {
        assert Named(ops, b.value, n, handle) <==>
               Named(ops, b.value, m, handle) || (IsFinish(ops[m]) && ops[m].handle == handle);
      }
    }
  }

  /** The begin whose challenge the finish at `i` redeems. */
  function BeginOf(ops: seq<Op>, i: nat): Option<nat>
    requires i < |ops| && IsFinish(ops[i])
  {
    LastBegin(ops, i, ops[i].handle)
  }

  /** The finish at `i` got its challenge from the begin at `b`, in time and for the first time. */
  predicate Redeems(env: Env, ops: seq<Op>, i: nat, b: nat) {
    && b < i < |ops| && IsBegin(ops[b]) && IsFinish(ops[i])
    && ops[b].handle == ops[i].handle
    && (ops[b].RegisterBegin? <==> ops[i].RegisterFinish?)
    && Clock(env, ops, i) <= Clock(env, ops, b) + env.config.challengeTtl
    && !Named(ops, b, i, ops[i].handle)
  }

  /** A finish that does not end in `ChallengeNotFound` for want of a challenge redeems its begin. */
  lemma FinishRedeems(env: Env, ops: seq<Op>, i: nat)
    requires i < |ops| && IsFinish(ops[i])
    requires ServedOutcome(env, ops, i).Registered? || ServedOutcome(env, ops, i).Authenticated?
    ensures BeginOf(ops, i).Some? && Redeems(env, ops, i, BeginOf(ops, i).value)
    ensures Consumed(Serve(env, ops[..i]).store, ops[i].handle, Clock(env, ops, i))
            == Some(NewChallenge(env.config, Clock(env, ops, BeginOf(ops, i).value), ops[BeginOf(ops, i).value]))
  {
    StoreHistory(env, ops, i, ops[i].handle);
  }

  // ----- symbolic signatures -----

  /**
   The engine accepts an assertion only for the challenge it was signed over, and only against the
   public key of its signer.
   */
  ghost predicate Signed(env: Env, challengeOf: Fields -> Option<Bytes>, signerOf: Fields -> Option<Bytes>) {
    forall r: Fields, ch: Bytes, c: Credential ::
      env.verifyAuthentication(r, ch, c).Ok? ==> challengeOf(r) == Some(ch) && signerOf(r) == Some(c.publicKey)
  }

  predicate Logs(env: Env, ops: seq<Op>, i: nat) {
    i < |ops| && ops[i].AuthenticateFinish? && ServedOutcome(env, ops, i).Authenticated?
  }

  /** No two begins draw the same challenge. */
  predicate FreshChallenges(ops: seq<Op>) {
    forall a, b :: 0 <= a < b < |ops| && IsBegin(ops[a]) && IsBegin(ops[b]) ==> ops[a].challenge != ops[b].challenge
  }

  /**
   Everything one successful authentication says: the begin it answers issued the challenge that was
   signed, is redeemed no later than its expiry, and if bound to a user names the owner of the
   credential, whose stored key made the signature.
   */
  lemma SuccessAnswersItsBegin(env: Env, ops: seq<Op>, challengeOf: Fields -> Option<Bytes>, signerOf: Fields -> Option<Bytes>, i: nat)
    requires Signed(env, challengeOf, signerOf) && Logs(env, ops, i)
    ensures BeginOf(ops, i).Some? && Redeems(env, ops, i, BeginOf(ops, i).value)
    ensures var b := BeginOf(ops, i).value;
            var o := ServedOutcome(env, ops, i);
            var stored := Find(Serve(env, ops[..i]).world.repo, o.credential.credentialId);
            && ops[b].AuthenticateBegin?
            && challengeOf(ops[i].response) == Some(ops[b].challenge)
            && stored.Some? && stored.value.userId == o.userId == o.credential.userId
            && signerOf(ops[i].response) == Some(stored.value.publicKey)
            && (ops[b].userId.Some? ==> o.userId == ops[b].userId.value)
  {
    FinishRedeems(env, ops, i);
  }

  /**
   Injective agreement: successful authentications answer pairwise different begins; and if challenges
   are fresh, no two of them signed the same challenge, so no two present the same assertion.
   */
  lemma InjectiveAgreement(env: Env, ops: seq<Op>, challengeOf: Fields -> Option<Bytes>, signerOf: Fields -> Option<Bytes>, i: nat, j: nat)
    requires Signed(env, challengeOf, signerOf) && Logs(env, ops, i) && Logs(env, ops, j) && i < j
    ensures BeginOf(ops, i).Some? && BeginOf(ops, j).Some? && BeginOf(ops, i) != BeginOf(ops, j)
    ensures FreshChallenges(ops) ==>
              challengeOf(ops[i].response) != challengeOf(ops[j].response) && ops[i].response != ops[j].response
  {
    SuccessAnswersItsBegin(env, ops, challengeOf, signerOf, i);
    SuccessAnswersItsBegin(env, ops, challengeOf, signerOf, j);
  }

  // ----- registration -----

  /** Two successful finishes of either ceremony never share a begin. */
  lemma RedeemedOnce(env: Env, ops: seq<Op>, i: nat, j: nat)
    requires i < j < |ops| && IsFinish(ops[i]) && IsFinish(ops[j])
    requires ServedOutcome(env, ops, i).Registered? || ServedOutcome(env, ops, i).Authenticated?
    requires ServedOutcome(env, ops, j).Registered? || ServedOutcome(env, ops, j).Authenticated?
    ensures BeginOf(ops, i) != BeginOf(ops, j)
  {
    FinishRedeems(env, ops, i);
    FinishRedeems(env, ops, j);
  }
}
