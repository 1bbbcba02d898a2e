/** What the device and the engine answer, case by case, and what a response says when it is read. */
module DeviceAnswers {
  import opened Prelude
  import opened Domain
  import opened Json
  import opened Ceremony
  import opened Answers
  import opened AuthenticatorData
  import opened StandardEngine
  import A = Authenticator
  import Base64Url
  import DeviceText

  // ----- get -----

  /** The key at an id afterwards: the selected one with a new count, the others as they were. */
  ghost predicate Counted(keys: A.Keys, keys': A.Keys, k: A.StoredKey, count: nat) {
    |keys'| == |keys| && forall id :: A.FindKey(keys', id) == if id == k.id then Some(k.(signCount := count)) else A.FindKey(keys, id)
  }

  /**
   The response holds client data for this challenge and origin, authenticator data that a parser
   written from the standard reads as the hash of the RP id, the flags and the count, the key's
   signature over the one followed by the hash of the other, and the user handle.
   */
  ghost predicate SignsFor(c: A.Crypto, t: Traits, k: A.StoredKey, rpId: Str, challenge: Bytes, origin: Str, count: nat, r: Fields) {
    var client := A.ClientData(Lit("webauthn.get"), challenge, origin);
    exists data: Bytes ::
      && Parse(data) == Some(AuthData(c.sha256(c.utf8(rpId)), Flags(t, false), count, None))
      && r == A.Envelope(k.id, A.AssertionInner(client, data, c.sign(k.key, data + c.sha256(client)), k.userHandle))
  }

  lemma Signs(c: A.Crypto, t: Traits, k: A.StoredKey, rpId: Str, challenge: Bytes, origin: Str, count: nat)
    requires Encodable(A.AssertionData(c, t, rpId, count))
    ensures SignsFor(c, t, k, rpId, challenge, origin, count, A.AssertionResponse(c, t, k, rpId, challenge, origin, count))
  {
    DeviceText.Names();
    var data := Layout(A.AssertionData(c, t, rpId, count));
    ParseLayout(A.AssertionData(c, t, rpId, count));
    hide A.ClientData, Layout, Parse, Flags;
    assert Parse(data) == Some(AuthData(c.sha256(c.utf8(rpId)), Flags(t, false), count, None));
  }

  lemma {:induction false} AssignLength(keys: A.Keys, k: A.StoredKey)
    ensures A.FindKey(keys, k.id).Some? ==> |A.AssignKey(keys, k)| == |keys|
    ensures A.FindKey(keys, k.id) == None ==> A.AssignKey(keys, k) == keys + [k]
  {
    if keys != [] && keys[0].id != k.id {
      AssignLength(keys[1..], k);
      assert keys == [keys[0]] + keys[1..];
    }
  }

  lemma Counts(keys: A.Keys, k: A.StoredKey, count: nat)
    requires A.FindKey(keys, k.id) == Some(k)
    ensures Counted(keys, A.AssignKey(keys, k.(signCount := count)), k, count)
  {
    AssignLength(keys, k.(signCount := count));
    forall id ensures A.FindKey(A.AssignKey(keys, k.(signCount := count)), id)
                      == if id == k.id then Some(k.(signCount := count)) else A.FindKey(keys, id) {
      A.FindOfAssignKey(keys, k.(signCount := count), id);
    }
  }

  /**
   Everything `get` can do: nothing held for want of an RP id; a challenge that is no base64url; what
   selecting raises; and with the selected key, an unforced count one up, kept even if it no longer
   fits, or a forced count that changes nothing, and the response for it.
   */
  lemma {:induction false} GetAnswers(c: A.Crypto, t: Traits, keys: A.Keys, o: A.GetOptions, origin: Str, forced: Option<nat>)
    requires forall x: Bytes :: |c.sha256(x)| == 32
    ensures var r := A.Assertion(c, t, keys, o, origin, forced);
            var challenge, selected := Base64Url.Decode(o.challenge), A.Select(keys, o.allow);
            if o.rpId == [] && keys == [] then r == (keys, Err(A.NothingHeld))
            else if challenge == None then r == (keys, Err(A.BadText))
            else if selected.Err? then r == (keys, Err(selected.error))
            else
              && A.FindKey(keys, selected.value).Some?
              && var k := A.FindKey(keys, selected.value).value;
                 var count := if forced.Some? then forced.value else k.signCount + 1;
                 && (if forced.Some? then r.0 == keys else Counted(keys, r.0, k, count))
                 && (count >= 0x1_0000_0000 ==> r.1 == Err(A.TooBig))
                 && (count < 0x1_0000_0000 ==>
                       r.1.Ok? && SignsFor(c, t, k, if o.rpId != [] then o.rpId else keys[0].rpId, challenge.value, origin, count, r.1.value))
  {
    hide Counted, SignsFor, A.Select, Base64Url.Decode, A.AssertionResponse, A.AssignKey, A.FindKey;
    A.SelectHeld(keys, o.allow);
    var challenge, selected := Base64Url.Decode(o.challenge), A.Select(keys, o.allow);
    if !(o.rpId == [] && keys == []) && challenge.Some? && selected.Ok? {
      var k := A.FindKey(keys, selected.value).value;
      var count := if forced.Some? then forced.value else k.signCount + 1;
      Counts(keys, k, count);
      if count < 0x1_0000_0000 {
        FlagsReadBack(t, false);
        Signs(c, t, k, if o.rpId != [] then o.rpId else keys[0].rpId, challenge.value, origin, count);
      }
    }
  }

  // ----- create -----

  ghost predicate AttestsFor(c: A.Crypto, t: Traits, aaguid: Bytes, id: Bytes, key: nat, rpId: Str, challenge: Bytes, origin: Str, r: Fields) {
    exists data: Bytes ::
      && Parse(data) == Some(AuthData(c.sha256(c.utf8(rpId)), Flags(t, true), 0,
                                      Some(AuthenticatorData.Attested(aaguid, id, c.publicKey(key)))))
      && r == A.Envelope(id, A.AttestationInner(A.ClientData(Lit("webauthn.create"), challenge, origin), c.wrap(data)))
  }

  /**
   Everything `create` can do: texts that are no base64url change nothing; otherwise the new key is
   held under its id with count zero, and the response attests it unless the id is too long.
   */
  lemma {:induction false} CreateAnswers(c: A.Crypto, t: Traits, aaguid: Bytes, keys: A.Keys, o: A.CreateOptions, origin: Str, key: nat, id: Bytes)
    requires |aaguid| == 16 && forall x: Bytes :: |c.sha256(x)| == 32
    ensures var r := A.Attestation(c, t, aaguid, keys, o, origin, key, id);
            var challenge, user := Base64Url.Decode(o.challenge), Base64Url.Decode(o.userId);
            if challenge == None || user == None then r == (keys, Err(A.BadText))
            else
              && (forall j :: A.FindKey(r.0, j)
                    == if j == id then Some(A.StoredKey(id, key, user.value, o.rpId, 0)) else A.FindKey(keys, j))
              && (|id| >= 0x1_0000 ==> r.1 == Err(A.TooBig))
              && (|id| < 0x1_0000 ==> r.1.Ok? && AttestsFor(c, t, aaguid, id, key, o.rpId, challenge.value, origin, r.1.value))
  {
    DeviceText.Names();
    hide Base64Url.Decode, A.AssignKey, A.FindKey, A.ClientData, Layout, Parse, Flags;
    var challenge, user := Base64Url.Decode(o.challenge), Base64Url.Decode(o.userId);
    if challenge.Some? && user.Some? {
      var k := A.StoredKey(id, key, user.value, o.rpId, 0);
      forall j ensures A.FindKey(A.AssignKey(keys, k), j) == if j == id then Some(k) else A.FindKey(keys, j) {
        A.FindOfAssignKey(keys, k, j);
      }
      if |id| < 0x1_0000 {
        FlagsReadBack(t, true);
        var data := A.AttestationData(c, t, aaguid, o.rpId, id, key);
        ParseLayout(data);
        assert Parse(Layout(data)) == Some(AuthData(c.sha256(c.utf8(o.rpId)), Flags(t, true), 0,
                                                    Some(AuthenticatorData.Attested(aaguid, id, c.publicKey(key)))));
      }
    }
  }
}
