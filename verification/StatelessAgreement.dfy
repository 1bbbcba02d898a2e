/** Agreement on the stateless store: what a handle that is never used up still guarantees over runs. */
module StatelessAgreement {
  import opened Prelude
  import opened Domain
  import opened Json
  import opened Repository
  import opened Ceremony
  import Agreement
  import Base64Url
  import Codec
  import Counters
  import S = StatelessStore

  /** The challenge that the begin at `b` issued. */
  function Begun(env: Env, calls: seq<Call>, b: nat): Challenge
    requires b < |calls| && IsBegin(calls[b].op)
  {
    NewChallenge(env.config, Run(env, calls[..b]).now, calls[b].op)
  }

  predicate SignedAt(env: Env, calls: seq<Call>, b: nat, body: Bytes) {
    b < |calls| && IsBegin(calls[b].op) && S.Body(Begun(env, calls, b)) == body
  }

  /**
   Finishes get their challenge from the stateless store, and, the MAC being ideal, present a valid
   tag only for bodies that an earlier begin had signed.
   */
  ghost predicate OnStateless(env: Env, calls: seq<Call>, mac: S.Mac) {
    forall i :: 0 <= i < |calls| && IsFinish(calls[i].op) ==>
      && Counters.FromStateless(env, calls, i, mac)
      && var p := S.Presented(calls[i].op.handle);
         p.Some? && p.value.1 == mac(p.value.0) ==> exists b :: 0 <= b < i && SignedAt(env, calls, b, p.value.0)
  }

  predicate Succeeds(env: Env, calls: seq<Call>, i: nat) {
    i < |calls| && (OutcomeAt(env, calls, i).Registered? || OutcomeAt(env, calls, i).Authenticated?)
  }

  /**
   Every success answers an earlier begin of its own ceremony, from which it has its challenge and its
   subject, before that begin's challenge expired.
   */
  lemma {:induction false} SuccessAnswersABegin(env: Env, calls: seq<Call>, mac: S.Mac, i: nat) returns (b: nat)
    requires OnStateless(env, calls, mac) && Succeeds(env, calls, i)
    ensures b < i && IsBegin(calls[b].op) && IsFinish(calls[i].op)
    ensures calls[b].op.RegisterBegin? <==> calls[i].op.RegisterFinish?
    ensures calls[i].stored == Some(Codec.Received(Begun(env, calls, b)))
    ensures Run(env, calls[..i]).now <= Run(env, calls[..b]).now + env.config.challengeTtl
  {
    hide S.Presented, S.Body, S.Consume;
    assert IsFinish(calls[i].op);
    assert Counters.FromStateless(env, calls, i, mac);
    var handle, now := calls[i].op.handle, Run(env, calls[..i]).now;
    var p := S.Presented(handle);
    if !(p.Some? && p.value.1 == mac(p.value.0)) {
      S.ConsumeUnsigned(handle, now, mac);
    }
    b :| 0 <= b < i && SignedAt(env, calls, b, p.value.0);
    S.ConsumeSigned(handle, now, mac, Begun(env, calls, b));
  }

  lemma {:induction false} SignedForStored(env: Env, w: World, stored: Option<Challenge>, response: Fields,
                         challengeOf: Fields -> Option<Bytes>, signerOf: Fields -> Option<Bytes>)
    requires Agreement.Signed(env, challengeOf, signerOf)
    requires FinishAuthentication(env, w, stored, response).1.Authenticated?
    ensures var o := FinishAuthentication(env, w, stored, response).1;
            && stored.Some? && stored.value.AuthenticationChallenge?
            && challengeOf(response) == Some(stored.value.challenge)
            && signerOf(response) == Some(o.credential.publicKey)
            && (stored.value.userId.Some? ==> o.userId == stored.value.userId.value)
  {
    hide Find, CredentialIdFrom, UpdateUsage, Base64Url.Encode, CountAdvances, Delete;
  }

  lemma OnlyFinishesSucceed(env: Env, calls: seq<Call>, i: nat)
    requires Succeeds(env, calls, i)
    ensures calls[i].op.RegisterFinish? <==> OutcomeAt(env, calls, i).Registered?
    ensures calls[i].op.AuthenticateFinish? <==> OutcomeAt(env, calls, i).Authenticated?
  {
  }

  /** And for authentications, the signed challenge is that begin's, its user the owner, its signer the stored key. */
  lemma {:induction false} LoginAnswersABegin(env: Env, calls: seq<Call>, mac: S.Mac, challengeOf: Fields -> Option<Bytes>,
                           signerOf: Fields -> Option<Bytes>, i: nat) returns (b: nat)
    requires OnStateless(env, calls, mac) && Agreement.Signed(env, challengeOf, signerOf)
    requires i < |calls| && OutcomeAt(env, calls, i).Authenticated?
    ensures b < i && calls[b].op.AuthenticateBegin? && calls[i].op.AuthenticateFinish?
    ensures calls[i].stored == Some(Codec.Received(Begun(env, calls, b)))
    ensures Run(env, calls[..i]).now <= Run(env, calls[..b]).now + env.config.challengeTtl
    ensures challengeOf(calls[i].op.response) == Some(calls[b].op.challenge)
    ensures var o := OutcomeAt(env, calls, i);
            && signerOf(calls[i].op.response) == Some(o.credential.publicKey)
            && (calls[b].op.userId.Some? ==> o.userId == Join(calls[b].op.userId.value))
  {
    hide FinishAuthentication, OnStateless, Agreement.Signed;
    OnlyFinishesSucceed(env, calls, i);
    b := SuccessAnswersABegin(env, calls, mac, i);
    SignedForStored(env, Run(env, calls[..i]), calls[i].stored, calls[i].op.response, challengeOf, signerOf);
  }

  ghost predicate FreshChallenges(calls: seq<Call>) {
    forall a, b :: 0 <= a < b < |calls| && IsBegin(calls[a].op) && IsBegin(calls[b].op) ==>
      calls[a].op.challenge != calls[b].op.challenge
  }

  lemma SameBegin(calls: seq<Call>, a: nat, b: nat)
    requires FreshChallenges(calls) && a < |calls| && b < |calls|
    requires calls[a].op.AuthenticateBegin? && calls[b].op.AuthenticateBegin?
    requires calls[a].op.challenge == calls[b].op.challenge
    ensures a == b
  {
  }

  /**
   One assertion is accepted twice only at count zero: if the challenges are fresh, a second success
   with the same response, under whatever spelling of whatever handle and while the credential stays
   stored, means that neither the stored nor the presented count was positive.
   */
  lemma {:induction false} AcceptedTwiceOnlyAtZero(env: Env, calls: seq<Call>, mac: S.Mac, challengeOf: Fields -> Option<Bytes>,
                                signerOf: Fields -> Option<Bytes>, i: nat, j: nat)
    requires OnStateless(env, calls, mac) && Agreement.Signed(env, challengeOf, signerOf)
    requires Counters.VerdictFromKey(env) && FreshChallenges(calls)
    requires i < j < |calls| && OutcomeAt(env, calls, i).Authenticated? && OutcomeAt(env, calls, j).Authenticated?
    requires calls[i].op.AuthenticateFinish? && calls[j].op.AuthenticateFinish?
    requires calls[i].op.response == calls[j].op.response
    requires Counters.StoredThroughout(env, calls, i + 1, j, OutcomeAt(env, calls, i).credential.credentialId)
    ensures var c := Find(Run(env, calls[..j]).repo, OutcomeAt(env, calls, i).credential.credentialId);
            c.Some? && c.value.signCount == 0
    ensures OutcomeAt(env, calls, i).credential.signCount == 0
  {
    hide *;
    var b := LoginAnswersABegin(env, calls, mac, challengeOf, signerOf, i);
    var b' := LoginAnswersABegin(env, calls, mac, challengeOf, signerOf, j);
    SameBegin(calls, b, b');
    Counters.ReplaySucceedsIff(env, calls, i, j);
    Counters.StoredAtLeast(env, calls, i, j);
  }
}
