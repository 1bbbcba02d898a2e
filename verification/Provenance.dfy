/** Where stored credentials come from, and that they keep their owner and key. */
module Provenance {
  import opened Prelude
  import opened Domain
  import opened Json
  import opened Repository
  import opened Ceremony
  import opened Agreement
  import Counters

  /** Everything about a credential that is fixed at registration. */
  function Identity(c: Credential): Credential {
    c.(signCount := 0, deviceName := [], lastUsedAt := None)
  }

  /** The latest call before `n` that registered `id`. */
  function RegisteredBy(env: Env, ops: seq<Op>, n: nat, id: Bytes): (r: Option<nat>)
    requires n <= |ops|
    ensures r.Some? ==> r.value < n
  {
    if n == 0 then None
    else
      var o := ServedOutcome(env, ops, n - 1);
      if o.Registered? && o.credential.credentialId == id then Some(n - 1)
      else RegisteredBy(env, ops, n - 1, id)
  }

  /** `c` is what the registration at `i` stored, up to its count, its name and its last use. */
  predicate CameFrom(env: Env, ops: seq<Op>, i: nat, c: Credential) {
    && i < |ops| && ops[i].RegisterFinish? && ServedOutcome(env, ops, i).Registered?
    && Identity(ServedOutcome(env, ops, i).credential) == Identity(c)
  }

  ghost predicate KeptSince(env: Env, ops: seq<Op>, i: nat, n: nat, c: Credential)
    requires n <= |ops|
  {
    forall k :: i < k <= n ==>
      var f := Find(Serve(env, ops[..k]).world.repo, c.credentialId);
      f.Some? && Identity(f.value) == Identity(c)
  }

  lemma {:induction false} ServeUnique(env: Env, ops: seq<Op>)
    ensures Unique(Serve(env, ops).world.repo)
  {
    ServeIsRun(env, ops);
    RunUnique(env, CallsOf(env, ops));
  }

  lemma ServeEffect(env: Env, ops: seq<Op>, m: nat, id: Bytes)
    requires m < |ops|
    ensures Effect(Serve(env, ops[..m]).world.repo, Serve(env, ops[..m + 1]).world.repo, ServedOutcome(env, ops, m), id)
    ensures ServedOutcome(env, ops, m).Registered? ==> ops[m].RegisterFinish?
  {
    ServeUnique(env, ops[..m]);
    ServeStep(env, ops, m);
    var s := Serve(env, ops[..m]);
    var stored := if IsFinish(ops[m]) then Consumed(s.store, ops[m].handle, s.world.now) else None;
    StepEffect(env, s.world, ops[m], stored, id);
  }

  /**
   In every reachable state, a stored credential was added by the latest registration of its id, and
   from then on it has been stored without interruption under the same owner, public key and other
   registered data.
   */
  lemma {:induction false} StoredWasRegistered(env: Env, ops: seq<Op>, n: nat, id: Bytes)
    requires n <= |ops|
    ensures var f := Find(Serve(env, ops[..n]).world.repo, id);
            var i := RegisteredBy(env, ops, n, id);
            f.Some? ==> i.Some? && i.value < n && CameFrom(env, ops, i.value, f.value) && KeptSince(env, ops, i.value, n, f.value)
  {
    hide ServerStep, KeptSince, CameFrom, RegisteredBy;
    if n == 0 {
      assert ops[..0] == [];
    } else {
      StoredWasRegistered(env, ops, n - 1, id);
      ServeEffect(env, ops, n - 1, id);
      hide Serve, ServedOutcome, Find;
      StillFrom(env, ops, n, id);
    }
  }

  /** One more call: it registers the id, or what was stored stays as it was registered. */
  lemma StillFrom(env: Env, ops: seq<Op>, n: nat, id: Bytes)
    requires 0 < n <= |ops|
    requires Effect(Serve(env, ops[..n - 1]).world.repo, Serve(env, ops[..n]).world.repo, ServedOutcome(env, ops, n - 1), id)
    requires ServedOutcome(env, ops, n - 1).Registered? ==> ops[n - 1].RegisterFinish?
    requires var f := Find(Serve(env, ops[..n - 1]).world.repo, id);
             var i := RegisteredBy(env, ops, n - 1, id);
             f.Some? ==> i.Some? && CameFrom(env, ops, i.value, f.value) && KeptSince(env, ops, i.value, n - 1, f.value)
    ensures var f := Find(Serve(env, ops[..n]).world.repo, id);
            var i := RegisteredBy(env, ops, n, id);
            f.Some? ==> i.Some? && CameFrom(env, ops, i.value, f.value) && KeptSince(env, ops, i.value, n, f.value)
  {
    hide Serve, ServedOutcome;
    var f := Find(Serve(env, ops[..n]).world.repo, id);
    var o := ServedOutcome(env, ops, n - 1);
    if f.Some? && !(o.Registered? && o.credential.credentialId == id) {
      var before := Find(Serve(env, ops[..n - 1]).world.repo, id);
      assert Identity(before.value) == Identity(f.value);
      forall k | RegisteredBy(env, ops, n, id).value < k <= n
        ensures var g := Find(Serve(env, ops[..k]).world.repo, id); g.Some? && Identity(g.value) == Identity(f.value)
      {
      }
    }
  }

  /**
   Provenance: a stored credential was added by one `finish` that redeemed, in time and as the first,
   a registration challenge that `begin` issued for exactly its owner, with the id and key the engine
   verified over that challenge.
   */
  lemma {:induction false} Provenance(env: Env, ops: seq<Op>, n: nat, id: Bytes)
    requires n <= |ops| && Find(Serve(env, ops[..n]).world.repo, id).Some?
    ensures var c := Find(Serve(env, ops[..n]).world.repo, id).value;
            var i := RegisteredBy(env, ops, n, id);
            && i.Some? && CameFrom(env, ops, i.value, c) && KeptSince(env, ops, i.value, n, c)
            && var b := BeginOf(ops, i.value);
               && b.Some? && Redeems(env, ops, i.value, b.value)
               && ops[b.value].RegisterBegin? && ops[b.value].user.id == c.userId
               && var v := env.verifyRegistration(ops[i.value].response, ops[b.value].challenge);
                  && v.Ok? && v.value.credentialId == id && v.value.publicKey == c.publicKey
                  && ServedOutcome(env, ops, i.value).credential.signCount == v.value.signCount
                  && ServedOutcome(env, ops, i.value).credential.deviceName == ops[i.value].deviceName
                  && ServedOutcome(env, ops, i.value).credential.lastUsedAt == None
                  && v.value.transports == c.transports && v.value.aaguid == c.aaguid
                  && v.value.backupEligible == c.backupEligible && v.value.backupState == c.backupState
                  && v.value.attestationFmt == c.attestationFmt
                  && c.createdAt == Some(Clock(env, ops, i.value)) && c.isDiscoverable == env.config.residentKeyRequired
  {
    StoredWasRegistered(env, ops, n, id);
    FinishRedeems(env, ops, RegisteredBy(env, ops, n, id).value);
  }

  /**
   Who logs in: the user of a successful authentication is the user for whom a registration was begun,
   that registration added the credential, and the key it attested made the signature.
   */
  lemma {:induction false} LoginTracesToRegistration(env: Env, ops: seq<Op>, challengeOf: Fields -> Option<Bytes>, signerOf: Fields -> Option<Bytes>, i: nat)
    requires Signed(env, challengeOf, signerOf) && Logs(env, ops, i)
    ensures var o := ServedOutcome(env, ops, i);
            var r := RegisteredBy(env, ops, i, o.credential.credentialId);
            && r.Some? && ops[r.value].RegisterFinish?
            && var b := BeginOf(ops, r.value);
               && b.Some? && b.value < r.value < i && Redeems(env, ops, r.value, b.value)
               && ops[b.value].RegisterBegin? && ops[b.value].user.id == o.userId
               && var v := env.verifyRegistration(ops[r.value].response, ops[b.value].challenge);
                  && v.Ok? && v.value.credentialId == o.credential.credentialId
                  && signerOf(ops[i].response) == Some(v.value.publicKey)
  {
    SuccessAnswersItsBegin(env, ops, challengeOf, signerOf, i);
    Provenance(env, ops, i, ServedOutcome(env, ops, i).credential.credentialId);
  }

  /** Different stored credentials come from different registrations, answering different begins. */
  lemma {:induction false} ProvenanceInjective(env: Env, ops: seq<Op>, n: nat, id: Bytes, id': Bytes)
    requires n <= |ops| && id != id'
    requires Find(Serve(env, ops[..n]).world.repo, id).Some? && Find(Serve(env, ops[..n]).world.repo, id').Some?
    ensures var i, j := RegisteredBy(env, ops, n, id), RegisteredBy(env, ops, n, id');
            i.Some? && j.Some? && i != j
            && ops[i.value].RegisterFinish? && ops[j.value].RegisterFinish?
            && BeginOf(ops, i.value) != BeginOf(ops, j.value)
  {
    StoredWasRegistered(env, ops, n, id);
    StoredWasRegistered(env, ops, n, id');
    var i, j := RegisteredBy(env, ops, n, id).value, RegisteredBy(env, ops, n, id').value;
    if i < j {
      RedeemedOnce(env, ops, i, j);
    } else if j < i {
      RedeemedOnce(env, ops, j, i);
    }
  }

  /**
   With any store: while a credential is stored, no registration of its id succeeds, whoever attempts it
   and for whichever user, and its owner and key stay those of the registration that added it.
   */
  lemma {:induction false} NeverReowned(env: Env, calls: seq<Call>, i: nat, j: nat)
    requires i < j < |calls| && OutcomeAt(env, calls, i).Registered?
    requires Counters.StoredThroughout(env, calls, i + 1, j, OutcomeAt(env, calls, i).credential.credentialId)
    ensures var c := OutcomeAt(env, calls, i).credential;
            var o := OutcomeAt(env, calls, j);
            && !(o.Registered? && o.credential.credentialId == c.credentialId)
            && var now := Find(Run(env, calls[..j]).repo, c.credentialId).value;
               now.userId == c.userId && now.publicKey == c.publicKey
  {
    hide Step, Find;
    var c := OutcomeAt(env, calls, i).credential;
    RunUnique(env, calls[..i]);
    RunUnique(env, calls[..j]);
    RunStep(env, calls, i);
    StepEffect(env, Run(env, calls[..i]), calls[i].op, calls[i].stored, c.credentialId);
    StepEffect(env, Run(env, calls[..j]), calls[j].op, calls[j].stored, c.credentialId);
    Counters.OwnerAndKeyStay(env, calls, i + 1, j, c.credentialId);
    assert Find(Run(env, calls[..j]).repo, c.credentialId).Some?;
  }

  /**
   The attestation that added a credential, presented again for the same challenge, fails exactly while an entry with that id is stored, and registers the key anew once it is not.
   */
  lemma {:induction false} RegisteredAgainIff(env: Env, calls: seq<Call>, i: nat, j: nat)
    requires i < j < |calls| && calls[i].op.RegisterFinish? && calls[j].op.RegisterFinish?
    requires calls[j].op.response == calls[i].op.response && calls[j].stored == calls[i].stored
    requires OutcomeAt(env, calls, i).Registered?
    ensures var c := OutcomeAt(env, calls, i).credential;
            var there := Find(Run(env, calls[..j]).repo, c.credentialId).Some?;
            var o := OutcomeAt(env, calls, j);
            && (there ==> o == Failed(CredentialAlreadyExists) && Run(env, calls[..j + 1]).repo == Run(env, calls[..j]).repo)
            && (!there ==> o.Registered? && o.credential.publicKey == c.publicKey && o.credential.userId == c.userId)
  {
    RunStep(env, calls, j);
  }
}
