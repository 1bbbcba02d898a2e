/**
 The counter policy against an honest authenticator: two machines that share no state, joined by the
 assertions that travel between them.
 */
module HonestDevice {
  import opened Prelude
  import opened Domain
  import opened Json
  import opened Repository
  import opened Ceremony
  import opened AuthenticatorData
  import A = Authenticator
  import opened StandardEngine
  import Base64Url

  /**
   Server, device, and the assertions the device has made for one credential, oldest first. Those
   before `next` were delivered or lost; the rest may still arrive.
   */
  datatype Joint = Joint(world: World, keys: A.Keys, made: seq<Fields>, next: nat)

  datatype Event =
    | Make(options: A.GetOptions, origin: Str)
    | Deliver(k: nat, handle: Str, stored: Option<Challenge>)
    | Elsewhere(call: Call)

  datatype Setting = Setting(config: Config, rp: RelyingParty, crypto: A.Crypto, traits: Traits, id: Bytes)

  function ServerOf(x: Setting): Env {
    StandardEnv(x.config, x.rp, x.crypto)
  }

  /** Calls that have nothing to do with this device's assertions, apart from registering it afresh. */
  predicate Unrelated(x: Setting, w: World, call: Call) {
    && !(call.op.AuthenticateFinish? && CredentialIdFrom(call.op.response) == Some(x.id))
    && var o := Step(ServerOf(x), w, call.op, call.stored).1;
       o.Registered? && o.credential.credentialId == x.id ==> o.credential.signCount == 0
  }

  /** The device makes assertions without forcing counts; they are finished in creation order, any of them lost. */
  function Next(x: Setting, j: Joint, e: Event): Joint
    requires forall b: Bytes :: |x.crypto.sha256(b)| == 32
  {
    match e
    case Make(options, origin) =>
      var r := A.Assertion(x.crypto, x.traits, j.keys, options, origin, None);
      if r.1.Ok? && A.Select(j.keys, options.allow) == Ok(x.id) then j.(keys := r.0, made := j.made + [r.1.value])
      else j.(keys := r.0)
    case Deliver(k, handle, stored) =>
      if j.next <= k < |j.made| then
        j.(world := Step(ServerOf(x), j.world, AuthenticateFinish(j.made[k], handle), stored).0, next := k + 1)
      else j
    case Elsewhere(call) =>
      if Unrelated(x, j.world, call) then j.(world := Step(ServerOf(x), j.world, call.op, call.stored).0) else j
  }

  function After(x: Setting, start: Joint, events: seq<Event>): Joint
    requires forall b: Bytes :: |x.crypto.sha256(b)| == 32
  {
    if events == [] then start else Next(x, After(x, start, events[..|events| - 1]), events[|events| - 1])
  }

  /** The response reports this credential and this count, whatever it is verified against. */
  ghost predicate Carries(x: Setting, r: Fields, count: nat) {
    && CredentialIdFrom(r) == Some(x.id)
    && forall ch: Bytes, c: Credential ::
         var v := VerifyAssertion(x.rp, x.crypto, r, ch, c);
         (v.Ok? ==> v.value.newSignCount == count) && (v.Err? ==> v.error == AssertionVerificationError)
  }

  /** The joint invariant; `counts[k]` is the count of assertion `k` and `low` bounds what was delivered. */
  ghost predicate InStep(x: Setting, j: Joint, counts: seq<nat>, low: nat) {
    && Unique(j.world.repo)
    && |counts| == |j.made| && j.next <= |j.made|
    && (forall k :: 0 <= k < |counts| ==> Carries(x, j.made[k], counts[k]))
    && (forall k, l :: 0 <= k < l < |counts| ==> counts[k] < counts[l])
    && (forall k :: j.next <= k < |counts| ==> low < counts[k])
    && (forall k :: 0 <= k < |counts| ==> 0 < counts[k] <= DeviceCount(x, j))
    && low <= DeviceCount(x, j)
    && (Find(j.world.repo, x.id).Some? ==> Find(j.world.repo, x.id).value.signCount <= low)
  }

  /** The count the device holds for the credential. */
  function DeviceCount(x: Setting, j: Joint): nat {
    var k := A.FindKey(j.keys, x.id);
    if k.Some? then k.value.signCount else 0
  }

  /** What making an assertion does to the device's keys and what it emits. */
  lemma MakeEffect(x: Setting, keys: A.Keys, options: A.GetOptions, origin: Str)
    requires forall b: Bytes :: |x.crypto.sha256(b)| == 32
    ensures var r := A.Assertion(x.crypto, x.traits, keys, options, origin, None);
            var before, after := A.FindKey(keys, x.id), A.FindKey(r.0, x.id);
            && before.Some? == after.Some?
            && (before.Some? ==> after.value.signCount >= before.value.signCount)
            && (r.1.Ok? && A.Select(keys, options.allow) == Ok(x.id) ==>
                  before.Some? && after.value.signCount == before.value.signCount + 1
                  && Carries(x, r.1.value, after.value.signCount))
  {
    hide A.AssertionResponse;
    hide VerifyAssertion;
    A.AssertionOutcome(x.crypto, x.traits, keys, options, origin);
    var selected := A.Select(keys, options.allow);
    if selected.Ok? {
      var k := A.FindKey(keys, selected.value).value;
      A.FindOfAssignKey(keys, k.(signCount := k.signCount + 1), x.id);
      if A.Assertion(x.crypto, x.traits, keys, options, origin, None).1.Ok? && selected.value == x.id {
        ResponseCarries(x, k, A.RpIdFor(keys, options), Base64Url.Decode(options.challenge).value, origin, k.signCount + 1);
      }
    }
  }

  lemma {:induction false} ResponseCarries(x: Setting, k: A.StoredKey, rpId: Str, challenge: Bytes, origin: Str, count: nat)
    requires k.id == x.id && Encodable(A.AssertionData(x.crypto, x.traits, rpId, count))
    ensures Carries(x, A.AssertionResponse(x.crypto, x.traits, k, rpId, challenge, origin, count), count)
  {
    var r := A.AssertionResponse(x.crypto, x.traits, k, rpId, challenge, origin, count);
    CarriesId(x, k, rpId, challenge, origin, count);
    forall ch: Bytes, c: Credential
      ensures var v := VerifyAssertion(x.rp, x.crypto, r, ch, c);
              (v.Ok? ==> v.value.newSignCount == count) && (v.Err? ==> v.error == AssertionVerificationError)
    {
      AssertionCarries(x.rp, x.crypto, x.traits, k, rpId, challenge, origin, count, ch, c);
    }
  }

  lemma MakeInStep(x: Setting, j: Joint, e: Event, counts: seq<nat>, low: nat) returns (counts': seq<nat>)
    requires (forall b: Bytes :: |x.crypto.sha256(b)| == 32) && InStep(x, j, counts, low) && e.Make?
    ensures InStep(x, Next(x, j, e), counts', low)
  {
    hide Carries, A.Assertion;
    MakeEffect(x, j.keys, e.options, e.origin);
    var j' := Next(x, j, e);
    if |j'.made| > |j.made| {
      counts' := counts + [DeviceCount(x, j')];
    } else {
      counts' := counts;
    }
  }

  lemma CarriesId(x: Setting, k: A.StoredKey, rpId: Str, challenge: Bytes, origin: Str, count: nat)
    requires Encodable(A.AssertionData(x.crypto, x.traits, rpId, count))
    ensures CredentialIdFrom(A.AssertionResponse(x.crypto, x.traits, k, rpId, challenge, origin, count)) == Some(k.id)
  {
    var raw := A.ClientData(A.TYPE_GET, challenge, origin);
    var data := Layout(A.AssertionData(x.crypto, x.traits, rpId, count));
    EnvelopeGet(k.id, A.AssertionInner(raw, data, x.crypto.sign(k.key, data + x.crypto.sha256(raw)), k.userHandle));
  }

  /** A delivered assertion never trips the counter check. */
  lemma {:induction false} DeliverInStep(x: Setting, j: Joint, e: Event, counts: seq<nat>, low: nat) returns (low': nat)
    requires (forall b: Bytes :: |x.crypto.sha256(b)| == 32) && InStep(x, j, counts, low)
    requires e.Deliver? && j.next <= e.k < |j.made|
    ensures InStep(x, Next(x, j, e), counts, low')
    ensures Step(ServerOf(x), j.world, AuthenticateFinish(j.made[e.k], e.handle), e.stored).1 != Failed(CloneDetectedError)
  {
    hide VerifyAssertion, VerifyAttestation;
    var env := ServerOf(x);
    var op := AuthenticateFinish(j.made[e.k], e.handle);
    assert Carries(x, j.made[e.k], counts[e.k]);
    low' := counts[e.k];
    StepKeepsUnique(env, j.world, op, e.stored);
    FindAfterStep(env, j.world, op, e.stored, x.id);
  }

  lemma {:induction false} ElsewhereInStep(x: Setting, j: Joint, e: Event, counts: seq<nat>, low: nat)
    requires (forall b: Bytes :: |x.crypto.sha256(b)| == 32) && InStep(x, j, counts, low) && e.Elsewhere?
    ensures InStep(x, Next(x, j, e), counts, low)
  {
    hide VerifyAssertion, VerifyAttestation;
    var env := ServerOf(x);
    StepKeepsUnique(env, j.world, e.call.op, e.call.stored);
    FindAfterStep(env, j.world, e.call.op, e.call.stored, x.id);
  }

  /** A start: nothing made yet, and the stored count, if any, not above the device's. */
  predicate Synchronised(x: Setting, j: Joint) {
    && j.made == [] && j.next == 0
    && (Find(j.world.repo, x.id).Some? ==> Find(j.world.repo, x.id).value.signCount <= DeviceCount(x, j))
  }

  lemma {:induction false} StaysInStep(x: Setting, start: Joint, events: seq<Event>) returns (counts: seq<nat>, low: nat)
    requires forall b: Bytes :: |x.crypto.sha256(b)| == 32
    requires Unique(start.world.repo) && Synchronised(x, start)
    ensures InStep(x, After(x, start, events), counts, low)
  {
    if events == [] {
      counts, low := [], DeviceCount(x, start);
    } else {
      var n := |events| - 1;
      var e := events[n];
      counts, low := StaysInStep(x, start, events[..n]);
      var j := After(x, start, events[..n]);
      match e
      case Make(_, _) => counts := MakeInStep(x, j, e, counts, low);
      case Deliver(k, _, _) =>
        if j.next <= k < |j.made| {
          low := DeliverInStep(x, j, e, counts, low);
        }
      case Elsewhere(_) => ElsewhereInStep(x, j, e, counts, low);
    }
  }

  /**
   No false alarms: however many assertions an honest device makes and however many of them are lost,
   as long as they are finished in creation order, none is ever taken for a clone's, with any store
   and amid any other calls; and the stored count never exceeds the device's.
   */
  lemma {:induction false} NoFalseAlarm(x: Setting, start: Joint, events: seq<Event>, k: nat, handle: Str, stored: Option<Challenge>)
    requires forall b: Bytes :: |x.crypto.sha256(b)| == 32
    requires Unique(start.world.repo) && Synchronised(x, start)
    ensures var j := After(x, start, events);
            && (j.next <= k < |j.made| ==>
                  Step(ServerOf(x), j.world, AuthenticateFinish(j.made[k], handle), stored).1 != Failed(CloneDetectedError))
            && (Find(j.world.repo, x.id).Some? ==> Find(j.world.repo, x.id).value.signCount <= DeviceCount(x, j))
  {
    var counts, low := StaysInStep(x, start, events);
    var j := After(x, start, events);
    if j.next <= k < |j.made| {
      var _ := DeliverInStep(x, j, Deliver(k, handle, stored), counts, low);
    }
  }

  /** The challenge admits the credential. */
  predicate Admits(stored: Option<Challenge>, c: Credential) {
    && stored.Some? && stored.value.AuthenticationChallenge?
    && (stored.value.userId.Some? ==> stored.value.userId.value == c.userId)
  }

  /** What the server makes of an assertion with a valid signature. */
  lemma CountDecides(x: Setting, w: World, response: Fields, handle: Str, stored: Option<Challenge>, count: nat, c: Credential)
    requires Carries(x, response, count) && Find(w.repo, x.id) == Some(c) && Admits(stored, c)
    requires VerifyAssertion(x.rp, x.crypto, response, stored.value.challenge, c).Ok?
    ensures var r := Step(ServerOf(x), w, AuthenticateFinish(response, handle), stored);
            && (CountAdvances(c.signCount, count) ==> r.1.Authenticated? && r.1.credential.signCount == count)
            && (!CountAdvances(c.signCount, count) ==> r.1 == Failed(CloneDetectedError))
  {
    hide VerifyAssertion, Find, CredentialIdFrom, Base64Url.Encode, UpdateUsage, Delete;
  }

  /** An accepted assertion leaves its count, and the credential's owner and key. */
  lemma {:induction false} AcceptedCountStands(x: Setting, w: World, response: Fields, handle: Str, stored: Option<Challenge>, count: nat)
    requires Unique(w.repo) && Carries(x, response, count)
    requires Step(ServerOf(x), w, AuthenticateFinish(response, handle), stored).1.Authenticated?
    ensures var c := Find(Step(ServerOf(x), w, AuthenticateFinish(response, handle), stored).0.repo, x.id);
            c.Some? && c.value.signCount == count
  {
    hide VerifyAssertion;
    FindAfterStep(ServerOf(x), w, AuthenticateFinish(response, handle), stored, x.id);
  }

  /**
   Creation order is exactly what it takes: after one assertion of the honest device was accepted, any
   assertion that the device has made and whose signature checks out is accepted if it was made later,
   and reported as a clone's if it was made earlier or is the same.
   */
  lemma {:induction false} LateAssertionAlarms(x: Setting, start: Joint, events: seq<Event>, l: nat, handle: Str, stored: Option<Challenge>,
                              k: nat, handle': Str, stored': Option<Challenge>)
    requires forall b: Bytes :: |x.crypto.sha256(b)| == 32
    requires Unique(start.world.repo) && Synchronised(x, start)
    requires var j := After(x, start, events);
             && l < |j.made| && k < |j.made|
             && var r := Step(ServerOf(x), j.world, AuthenticateFinish(j.made[l], handle), stored);
                r.1.Authenticated? && Find(r.0.repo, x.id).Some? && Admits(stored', Find(r.0.repo, x.id).value)
                && VerifyAssertion(x.rp, x.crypto, j.made[k], stored'.value.challenge, Find(r.0.repo, x.id).value).Ok?
    ensures var j := After(x, start, events);
            var w := Step(ServerOf(x), j.world, AuthenticateFinish(j.made[l], handle), stored).0;
            var o := Step(ServerOf(x), w, AuthenticateFinish(j.made[k], handle'), stored').1;
            && (k > l ==> o.Authenticated?)
            && (k <= l ==> o == Failed(CloneDetectedError))
  {
    hide Step, VerifyAssertion, Find;
    var counts, low := StaysInStep(x, start, events);
    var j := After(x, start, events);
    assert Carries(x, j.made[l], counts[l]) && Carries(x, j.made[k], counts[k]);
    var w := Step(ServerOf(x), j.world, AuthenticateFinish(j.made[l], handle), stored).0;
    AcceptedCountStands(x, j.world, j.made[l], handle, stored, counts[l]);
    CountDecides(x, w, j.made[k], handle', stored', counts[k], Find(w.repo, x.id).value);
  }
}
