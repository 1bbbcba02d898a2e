/**
 What the standard engine accepts, read off the response with the names and bit positions of the
 standard, and what that means for every login and registration of a run.
 */
module EngineAnswers {
  import opened Prelude
  import opened Domain
  import opened Json
  import opened Repository
  import opened Ceremony
  import opened Answers
  import opened AuthenticatorData
  import opened StandardEngine
  import A = Authenticator
  import Base64Url
  import DeviceText

  /** The bytes that a base64url text under `key` stands for. */
  predicate Holds(f: Fields, key: Str, data: Bytes) {
    var v := Get(f, key);
    v.Some? && v.value.JStr? && Base64Url.Decode(v.value.s) == Some(data)
  }

  /** Client data of this type, for this challenge, from an expected origin. */
  ghost predicate FromHere(rp: RelyingParty, client: Bytes, kind: Str, challenge: Bytes) {
    && Ascii(client)
    && var v := Loads(AsciiText(client));
    && v.Some? && v.value.JObj?
    && Get(v.value.fields, Lit("type")) == Some(JStr(kind))
    && Holds(v.value.fields, Lit("challenge"), challenge)
    && exists origin :: origin in rp.origins && Get(v.value.fields, Lit("origin")) == Some(JStr(origin))
  }

  /** Authenticator data for this RP: user present, and verified if that is required. */
  predicate ForUs(rp: RelyingParty, c: A.Crypto, d: AuthData) {
    && d.rpIdHash == c.sha256(c.utf8(rp.rpId)) && d.flags % 2 == 1
    && (rp.requireUserVerification ==> d.flags / 4 % 2 == 1)
  }

  /** What an assertion must hold, the two blobs being `client` and `data` and the signature `signature`. */
  ghost predicate Asserts(rp: RelyingParty, c: A.Crypto, r: Fields, challenge: Bytes, key: Bytes, v: VerifiedAuthentication,
                          client: Bytes, data: Bytes, signature: Bytes) {
    && Holds(r, Lit("rawId"), v.credentialId)
    && var inner := Get(r, Lit("response"));
    && inner.Some? && inner.value.JObj?
    && Holds(inner.value.fields, Lit("clientDataJSON"), client) && Holds(inner.value.fields, Lit("authenticatorData"), data)
    && Holds(inner.value.fields, Lit("signature"), signature)
    && FromHere(rp, client, Lit("webauthn.get"), challenge)
    && var d := Parse(data);
    && d.Some? && ForUs(rp, c, d.value)
    && v.newSignCount == d.value.signCount && (v.userVerified <==> d.value.flags / 4 % 2 == 1)
    && c.verify(key, data + c.sha256(client), signature)
  }

  lemma ClientDataIff(rp: RelyingParty, client: Bytes, kind: Str, challenge: Bytes)
    ensures ClientDataOk(rp, kind, client, challenge) <==> FromHere(rp, client, kind, challenge)
  {
    DeviceText.ClientNames();
    hide Get, Base64Url.Decode, Loads;
    var f := ClientDataOf(client);
    if ClientDataOk(rp, kind, client, challenge) {
      var origin := Get(f.value, A.KEY_ORIGIN).value.s;
      assert origin in rp.origins && Get(f.value, Lit("origin")) == Some(JStr(origin));
    }
  }

  lemma AuthDataIff(rp: RelyingParty, c: A.Crypto, d: AuthData)
    ensures AuthDataOk(rp, c, d) <==> ForUs(rp, c, d)
    ensures HasFlag(d.flags, FLAG_UV) <==> d.flags / 4 % 2 == 1
  {
    FlagsReadBits(d.flags);
    hide HasFlag;
  }

  /** The engine accepts an assertion, with this verdict, exactly if it holds all that. */
  lemma AssertionAcceptedIff(rp: RelyingParty, c: A.Crypto, r: Fields, challenge: Bytes, credential: Credential, v: VerifiedAuthentication)
    ensures VerifyAssertion(rp, c, r, challenge, credential) == Ok(v)
            <==> exists client, data, signature :: Asserts(rp, c, r, challenge, credential.publicKey, v, client, data, signature)
    ensures VerifyAssertion(rp, c, r, challenge, credential).Err? ==>
              VerifyAssertion(rp, c, r, challenge, credential).error == AssertionVerificationError
  {
    DeviceText.Names();
    DeviceText.InnerNames();
    hide Get, Base64Url.Decode, Loads, Parse, ClientDataOk, AuthDataOk, FromHere, ForUs, HasFlag, A.KEY_RAW_ID, A.KEY_RESPONSE,
         A.KEY_CLIENT_DATA, A.KEY_AUTH_DATA, A.KEY_SIGNATURE, A.TYPE_GET;
    var id, inner := BytesAt(r, A.KEY_RAW_ID), InnerOf(r);
    if inner.Some? {
      var raw, data, signature :=
        BytesAt(inner.value, A.KEY_CLIENT_DATA), BytesAt(inner.value, A.KEY_AUTH_DATA), BytesAt(inner.value, A.KEY_SIGNATURE);
      if raw.Some? && data.Some? {
        ClientDataIff(rp, raw.value, A.TYPE_GET, challenge);
        if Parse(data.value).Some? {
          AuthDataIff(rp, c, Parse(data.value).value);
        }
        if VerifyAssertion(rp, c, r, challenge, credential) == Ok(v) {
          assert Asserts(rp, c, r, challenge, credential.publicKey, v, raw.value, data.value, signature.value);
        }
      }
    }
  }

  /** So each login error has exactly one cause with this engine. */
  lemma StandardHasOneError(config: Config, rp: RelyingParty, c: A.Crypto)
    ensures OneError(StandardEnv(config, rp, c))
  {
    hide VerifyAssertion;
    forall r: Fields, ch: Bytes, d: Credential
      ensures VerifyAssertion(rp, c, r, ch, d).Err? ==> VerifyAssertion(rp, c, r, ch, d).error == AssertionVerificationError
    {
      AssertionAcceptedIff(rp, c, r, ch, d, VerifiedAuthentication([], 0, false));
    }
  }

  /** What an attestation must hold. */
  ghost predicate Attests(rp: RelyingParty, c: A.Crypto, r: Fields, challenge: Bytes, client: Bytes, wrapped: Bytes, data: Bytes, v: VerifiedRegistration) {
    var inner := Get(r, Lit("response"));
    && inner.Some? && inner.value.JObj?
    && Holds(inner.value.fields, Lit("clientDataJSON"), client) && Holds(inner.value.fields, Lit("attestationObject"), wrapped)
    && c.unwrap(wrapped) == Some(data) && FromHere(rp, client, Lit("webauthn.create"), challenge)
    && var d := Parse(data);
    && d.Some? && d.value.attested.Some? && ForUs(rp, c, d.value)
    && v.credentialId == d.value.attested.value.credentialId && v.publicKey == d.value.attested.value.publicKey
    && v.signCount == d.value.signCount
    && (v.backupEligible <==> d.value.flags / 8 % 2 == 1) && (v.backupState <==> d.value.flags / 16 % 2 == 1)
  }

  lemma AttestationAccepted(rp: RelyingParty, c: A.Crypto, r: Fields, challenge: Bytes)
    ensures var o := VerifyAttestation(rp, c, r, challenge);
            && (o.Ok? ==> exists client, wrapped, data :: Attests(rp, c, r, challenge, client, wrapped, data, o.value))
            && (o.Err? ==> o.error == AttestationVerificationError)
  {
    DeviceText.Names();
    DeviceText.InnerNames();
    hide Get, Base64Url.Decode, Loads, Parse, ClientDataOk, AuthDataOk, FromHere, ForUs, HasFlag, A.KEY_RAW_ID, A.KEY_RESPONSE,
         A.KEY_CLIENT_DATA, A.KEY_ATTESTATION, A.TYPE_CREATE;
    var inner, o := InnerOf(r), VerifyAttestation(rp, c, r, challenge);
    if o.Ok? {
      var raw, wrapped := BytesAt(inner.value, A.KEY_CLIENT_DATA).value, BytesAt(inner.value, A.KEY_ATTESTATION).value;
      var data := c.unwrap(wrapped).value;
      ClientDataIff(rp, raw, A.TYPE_CREATE, challenge);
      AuthDataIff(rp, c, Parse(data).value);
      FlagsReadBits(Parse(data).value.flags);
      assert Attests(rp, c, r, challenge, raw, wrapped, data, o.value);
    }
  }

  /**
   In every run with this engine, whatever the store: a login succeeds only with an assertion that
   comes from an expected origin, was made for the RP, for the challenge the store returned, with the
   user present and, if required, verified, and is signed with the stored key over the reported count.
   */
  lemma {:induction false} LoginsAreGenuine(config: Config, rp: RelyingParty, c: A.Crypto, calls: seq<Call>, i: nat)
    requires i < |calls| && calls[i].op.AuthenticateFinish? && OutcomeAt(StandardEnv(config, rp, c), calls, i).Authenticated?
    ensures ForLogin(calls[i].stored)
    ensures var env, o := StandardEnv(config, rp, c), OutcomeAt(StandardEnv(config, rp, c), calls, i);
            var before := Find(Run(env, calls[..i]).repo, o.credential.credentialId);
            && before.Some?
            && exists client, data, signature, v ::
                 && Asserts(rp, c, calls[i].op.response, calls[i].stored.value.challenge, before.value.publicKey, v, client, data, signature)
                 && v.newSignCount == o.credential.signCount && v.userVerified == o.userVerified
  {
    var env := StandardEnv(config, rp, c);
    hide VerifyAssertion, Asserts, OutcomeAt, Run;
    LoginAnswer(env, calls, i);
    var w, call := Run(env, calls[..i]), calls[i];
    assert !NoneUsable(w, call);
    var d :| Usable(w, call, d);
    var v := env.verifyAuthentication(call.op.response, call.stored.value.challenge, d).value;
    AssertionAcceptedIff(rp, c, call.op.response, call.stored.value.challenge, d, v);
  }
}
