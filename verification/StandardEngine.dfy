/**
 A verifier for the two ceremonies in the steps of sections 7.1 and 7.2 of WebAuthn Level 2 that the
 relying party's configuration bears on, standing in for the library behind `engine/pywebauthn.py`.
 It has no counter check of its own: that is left to the authentication service.
 */
module StandardEngine {
  import opened Prelude
  import opened Domain
  import opened Json
  import opened JsonDumps
  import opened Ceremony
  import opened AuthenticatorData
  import A = Authenticator
  import Agreement
  import Counters
  import Base64Url

  datatype RelyingParty = RelyingParty(rpId: Str, origins: seq<Str>, requireUserVerification: bool)

  /** A base64url text under `key`. */
  function BytesAt(f: Fields, key: Str): Option<Bytes> {
    var v := Get(f, key);
    if v == None || !v.value.JStr? then None else Base64Url.Decode(v.value.s)
  }

  function InnerOf(response: Fields): Option<Fields> {
    var v := Get(response, A.KEY_RESPONSE);
    if v == None || !v.value.JObj? then None else Some(v.value.fields)
  }

  /** The parsed client data. */
  function ClientDataOf(raw: Bytes): Option<Fields> {
    if !Ascii(raw) then None
    else
      var v := Loads(AsciiText(raw));
      if v == None || !v.value.JObj? then None else Some(v.value.fields)
  }

  predicate ClientDataOk(rp: RelyingParty, kind: Str, raw: Bytes, challenge: Bytes) {
    var f := ClientDataOf(raw);
    && f.Some?
    && Get(f.value, A.KEY_TYPE) == Some(JStr(kind))
    && BytesAt(f.value, A.KEY_CHALLENGE) == Some(challenge)
    && var origin := Get(f.value, A.KEY_ORIGIN);
       origin.Some? && origin.value.JStr? && origin.value.s in rp.origins
  }

  predicate AuthDataOk(rp: RelyingParty, c: A.Crypto, d: AuthData) {
    && d.rpIdHash == A.RpIdHash(c, rp.rpId)
    && HasFlag(d.flags, FLAG_UP)
    && (rp.requireUserVerification ==> HasFlag(d.flags, FLAG_UV))
  }

  function VerifyAssertion(rp: RelyingParty, c: A.Crypto, response: Fields, challenge: Bytes, credential: Credential)
    : Result<VerifiedAuthentication, PasskeyError>
  {
    var id, inner := BytesAt(response, A.KEY_RAW_ID), InnerOf(response);
    if id == None || inner == None then Err(AssertionVerificationError)
    else
      var raw, data, signature :=
        BytesAt(inner.value, A.KEY_CLIENT_DATA), BytesAt(inner.value, A.KEY_AUTH_DATA), BytesAt(inner.value, A.KEY_SIGNATURE);
      if raw == None || data == None || signature == None then Err(AssertionVerificationError)
      else
        var d := Parse(data.value);
        if d == None || !ClientDataOk(rp, A.TYPE_GET, raw.value, challenge) || !AuthDataOk(rp, c, d.value)
           || !c.verify(credential.publicKey, data.value + c.sha256(raw.value), signature.value)
        then Err(AssertionVerificationError)
        else Ok(VerifiedAuthentication(id.value, d.value.signCount, HasFlag(d.value.flags, FLAG_UV)))
  }

  const FMT_NONE: Str := [0x6E, 0x6F, 0x6E, 0x65]

  function VerifyAttestation(rp: RelyingParty, c: A.Crypto, response: Fields, challenge: Bytes): Result<VerifiedRegistration, PasskeyError> {
    var inner := InnerOf(response);
    if inner == None then Err(AttestationVerificationError)
    else
      var raw, wrapped := BytesAt(inner.value, A.KEY_CLIENT_DATA), BytesAt(inner.value, A.KEY_ATTESTATION);
      if raw == None || wrapped == None then Err(AttestationVerificationError)
      else
        var data := c.unwrap(wrapped.value);
        if data == None || !ClientDataOk(rp, A.TYPE_CREATE, raw.value, challenge) then Err(AttestationVerificationError)
        else
          var d := Parse(data.value);
          if d == None || d.value.attested == None || !AuthDataOk(rp, c, d.value) then Err(AttestationVerificationError)
          else
            var a := d.value.attested.value;
            Ok(VerifiedRegistration(a.credentialId, a.publicKey, d.value.signCount, [],
                                    if forall i :: 0 <= i < |a.aaguid| ==> a.aaguid[i] == 0 then None else Some(a.aaguid),
                                    HasFlag(d.value.flags, FLAG_BE), HasFlag(d.value.flags, FLAG_BS), Some(FMT_NONE)))
  }

  function StandardEnv(config: Config, rp: RelyingParty, c: A.Crypto): Env {
    Env(config,
        (r: Fields, ch: Bytes) => VerifyAttestation(rp, c, r, ch),
        (r: Fields, ch: Bytes, credential: Credential) => VerifyAssertion(rp, c, r, ch, credential))
  }

  // ----- it meets the assumptions made of engines -----

  /** The challenge an assertion response was signed over. */
  function ChallengeIn(response: Fields): Option<Bytes> {
    var inner := InnerOf(response);
    if inner == None then None
    else
      var raw := BytesAt(inner.value, A.KEY_CLIENT_DATA);
      if raw == None then None
      else
        var f := ClientDataOf(raw.value);
        if f == None then None else BytesAt(f.value, A.KEY_CHALLENGE)
  }

  /** Who signed, given who signed which message. */
  function SignerIn(c: A.Crypto, signer: (Bytes, Bytes) -> Option<Bytes>, response: Fields): Option<Bytes> {
    var inner := InnerOf(response);
    if inner == None then None
    else
      var raw, data, signature :=
        BytesAt(inner.value, A.KEY_CLIENT_DATA), BytesAt(inner.value, A.KEY_AUTH_DATA), BytesAt(inner.value, A.KEY_SIGNATURE);
      if raw == None || data == None || signature == None then None
      else signer(data.value + c.sha256(raw.value), signature.value)
  }

  /** A signature verifies under one key only. */
  ghost predicate OneSigner(c: A.Crypto, signer: (Bytes, Bytes) -> Option<Bytes>) {
    forall pk: Bytes, m: Bytes, s: Bytes :: c.verify(pk, m, s) ==> signer(m, s) == Some(pk)
  }

  lemma StandardIsSigned(config: Config, rp: RelyingParty, c: A.Crypto, signer: (Bytes, Bytes) -> Option<Bytes>)
    requires OneSigner(c, signer)
    ensures Agreement.Signed(StandardEnv(config, rp, c), ChallengeIn, r => SignerIn(c, signer, r))
  {
  }

  lemma StandardCountsFromAssertion(config: Config, rp: RelyingParty, c: A.Crypto)
    ensures Counters.CountFromAssertion(StandardEnv(config, rp, c)) && Counters.VerdictFromKey(StandardEnv(config, rp, c))
  {
  }

  // ----- what honest devices emit verifies -----

  lemma ClientDataKeysApart()
    ensures |A.KEY_TYPE| == 4 && |A.KEY_CHALLENGE| == 9 && |A.KEY_ORIGIN| == 6 && |A.KEY_CROSS| == 11
    ensures !HasPair(A.KEY_TYPE) && !HasPair(A.KEY_CHALLENGE) && !HasPair(A.KEY_ORIGIN) && !HasPair(A.KEY_CROSS)
  {
  }

  lemma ClientDataFieldsGet(kind: Str, challenge: Bytes, origin: Str)
    ensures var f := A.ClientDataFields(kind, challenge, origin);
            && DistinctKeys(f) && PairFreeKeys(f)
            && Get(f, A.KEY_TYPE) == Some(JStr(kind))
            && Get(f, A.KEY_CHALLENGE) == Some(JStr(Base64Url.Encode(challenge)))
            && Get(f, A.KEY_ORIGIN) == Some(JStr(origin))
  {
    ClientDataKeysApart();
    var f := A.ClientDataFields(kind, challenge, origin);
    var f1 := f.rest;
    var f2 := f1.rest;
    var f3 := f2.rest;
    assert f3.rest.Nil? && DistinctKeys(f3) && PairFreeKeys(f3);
    forall key ensures HasKey(f3, key) <==> key == A.KEY_CROSS {}
    forall key ensures HasKey(f2, key) <==> key == A.KEY_ORIGIN || key == A.KEY_CROSS {}
    forall key ensures HasKey(f1, key) <==> key == A.KEY_CHALLENGE || HasKey(f2, key) {}
    assert DistinctKeys(f2) && PairFreeKeys(f2);
    assert DistinctKeys(f1) && PairFreeKeys(f1);
    GetNeedsKey(f1, A.KEY_TYPE);
    GetNeedsKey(f2, A.KEY_CHALLENGE);
    GetNeedsKey(f3, A.KEY_ORIGIN);
    assert Get(f2, A.KEY_ORIGIN) == Some(JStr(origin));
    assert Get(f1, A.KEY_ORIGIN) == Get(f2, A.KEY_ORIGIN);
    assert Get(f1, A.KEY_CHALLENGE) == Some(JStr(Base64Url.Encode(challenge)));
  }

  /** The bytes the device hashed load to the printed dict. */
  lemma ClientDataIsWire(kind: Str, challenge: Bytes, origin: Str)
    ensures var f := A.ClientDataFields(kind, challenge, origin);
            Wire(JObj(f), false).JObj? && ClientDataOf(A.ClientData(kind, challenge, origin)) == Some(Wire(JObj(f), false).fields)
  {
    hide A.ClientDataFields, Print, Loads;
    var v := JObj(A.ClientDataFields(kind, challenge, origin));
    var raw := A.ClientData(kind, challenge, origin);
    PrintPrintable(v, COMPACT);
    assert AsciiText(raw) == Dumps(v, COMPACT, false);
    LoadsDumps(v, COMPACT, false);
  }

  lemma WireText(f: Fields, key: Str, text: Str)
    requires DistinctKeys(f) && PairFreeKeys(f) && Get(f, key) == Some(JStr(text)) && !HasPair(text)
    ensures Wire(JObj(f), false).JObj? && Get(Wire(JObj(f), false).fields, key) == Some(JStr(text))
  {
    hide Get, Join, PairFreeKeys, DistinctKeys, HasPair;
    GetOnWire(f, false, key);
    WireOfLeaf(JStr(text), false);
    JoinFixedIff(text);
  }

  lemma EncodedIsPairFree(data: Bytes)
    ensures !HasPair(Base64Url.Encode(data))
  {
    EncodedHasNoPair(data);
    JoinFixedIff(Base64Url.Encode(data));
  }

  /** Client data as loaded from the bytes the device hashed. */
  lemma ClientDataLoads(kind: Str, challenge: Bytes, origin: Str)
    requires !HasPair(kind) && !HasPair(origin)
    ensures var f := ClientDataOf(A.ClientData(kind, challenge, origin));
            && f.Some?
            && Get(f.value, A.KEY_TYPE) == Some(JStr(kind))
            && Get(f.value, A.KEY_CHALLENGE) == Some(JStr(Base64Url.Encode(challenge)))
            && Get(f.value, A.KEY_ORIGIN) == Some(JStr(origin))
  {
    hide *;
    var fields := A.ClientDataFields(kind, challenge, origin);
    ClientDataIsWire(kind, challenge, origin);
    ClientDataFieldsGet(kind, challenge, origin);
    EncodedIsPairFree(challenge);
    WireText(fields, A.KEY_TYPE, kind);
    WireText(fields, A.KEY_CHALLENGE, Base64Url.Encode(challenge));
    WireText(fields, A.KEY_ORIGIN, origin);
  }

  lemma TypesHaveNoPair()
    ensures !HasPair(A.TYPE_GET) && !HasPair(A.TYPE_CREATE)
  {
  }

  lemma ClientDataAccepted(rp: RelyingParty, kind: Str, challenge: Bytes, origin: Str)
    requires origin in rp.origins && !HasPair(origin)
    requires kind == A.TYPE_GET || kind == A.TYPE_CREATE
    ensures ClientDataOk(rp, kind, A.ClientData(kind, challenge, origin), challenge)
  {
    TypesHaveNoPair();
    ClientDataLoads(kind, challenge, origin);
    Base64Url.DecodeEncode(challenge);
  }

  lemma EnvelopeGet(id: Bytes, inner: Fields)
    ensures InnerOf(A.Envelope(id, inner)) == Some(inner)
    ensures BytesAt(A.Envelope(id, inner), A.KEY_RAW_ID) == Some(id)
    ensures CredentialIdFrom(A.Envelope(id, inner)) == Some(id)
  {
    var f := A.Envelope(id, inner);
    var f1 := f.rest;
    var f2 := f1.rest;
    var f3 := f2.rest;
    var f4 := f3.rest;
    assert |A.KEY_ID| == 2 && |A.KEY_RAW_ID| == 5 && |A.KEY_TYPE| == 4 && |A.KEY_RESPONSE| == 8 && |A.KEY_EXTENSIONS| == 22;
    assert Get(f4, A.KEY_RESPONSE) == None && Get(f4, A.KEY_RAW_ID) == None && Get(f4, A.KEY_ID) == None;
    assert Get(f3, A.KEY_RESPONSE) == Some(JObj(inner)) && Get(f3, A.KEY_RAW_ID) == None && Get(f3, A.KEY_ID) == None;
    assert Get(f2, A.KEY_RESPONSE) == Some(JObj(inner)) && Get(f2, A.KEY_RAW_ID) == None && Get(f2, A.KEY_ID) == None;
    assert Get(f1, A.KEY_RESPONSE) == Some(JObj(inner)) && Get(f1, A.KEY_ID) == None;
    assert Get(f1, A.KEY_RAW_ID) == Some(JStr(Base64Url.Encode(id)));
    assert Get(f, A.KEY_RESPONSE) == Some(JObj(inner));
    assert Get(f, A.KEY_RAW_ID) == Some(JStr(Base64Url.Encode(id)));
    assert Get(f, A.KEY_ID) == Some(JStr(Base64Url.Encode(id)));
    Base64Url.DecodeEncode(id);
    assert KEY_RAW_ID == A.KEY_RAW_ID && Ceremony.KEY_ID == A.KEY_ID;
  }

  lemma AssertionInnerGet(clientData: Bytes, authData: Bytes, signature: Bytes, userHandle: Bytes)
    ensures var f := A.AssertionInner(clientData, authData, signature, userHandle);
            && BytesAt(f, A.KEY_CLIENT_DATA) == Some(clientData)
            && BytesAt(f, A.KEY_AUTH_DATA) == Some(authData)
            && BytesAt(f, A.KEY_SIGNATURE) == Some(signature)
  {
    var f := A.AssertionInner(clientData, authData, signature, userHandle);
    var f1 := f.rest;
    var f2 := f1.rest;
    var f3 := f2.rest;
    assert |A.KEY_CLIENT_DATA| == 14 && |A.KEY_AUTH_DATA| == 17 && |A.KEY_SIGNATURE| == 9 && |A.KEY_USER_HANDLE| == 10;
    assert Get(f3, A.KEY_SIGNATURE) == None && Get(f3, A.KEY_AUTH_DATA) == None && Get(f3, A.KEY_CLIENT_DATA) == None;
    assert Get(f2, A.KEY_SIGNATURE) == Some(f2.value) && Get(f2, A.KEY_AUTH_DATA) == None && Get(f2, A.KEY_CLIENT_DATA) == None;
    assert Get(f1, A.KEY_SIGNATURE) == Some(f2.value) && Get(f1, A.KEY_AUTH_DATA) == Some(f1.value) && Get(f1, A.KEY_CLIENT_DATA) == None;
    Base64Url.DecodeEncode(clientData);
    Base64Url.DecodeEncode(authData);
    Base64Url.DecodeEncode(signature);
  }

  lemma AttestationInnerGet(clientData: Bytes, attestation: Bytes)
    ensures var f := A.AttestationInner(clientData, attestation);
            BytesAt(f, A.KEY_CLIENT_DATA) == Some(clientData) && BytesAt(f, A.KEY_ATTESTATION) == Some(attestation)
  {
    var f := A.AttestationInner(clientData, attestation);
    assert |A.KEY_CLIENT_DATA| == 14 && |A.KEY_ATTESTATION| == 17;
    var last := f.rest;
    assert last.rest == Nil && last.key == A.KEY_ATTESTATION;
    assert Get(last.rest, A.KEY_ATTESTATION) == None && Get(last.rest, A.KEY_CLIENT_DATA) == None;
    assert Get(last, A.KEY_ATTESTATION) == Some(last.value);
    assert Get(last, A.KEY_CLIENT_DATA) == None;
    Base64Url.DecodeEncode(clientData);
    Base64Url.DecodeEncode(attestation);
  }

  /** A device's assertion names its credential and carries its counter, whatever it is verified against. */
  lemma {:induction false} AssertionCarries(rp: RelyingParty, c: A.Crypto, t: Traits, k: A.StoredKey, rpId: Str, challenge: Bytes,
                         origin: Str, counter: nat, expected: Bytes, credential: Credential)
    requires Encodable(A.AssertionData(c, t, rpId, counter))
    ensures var r := A.AssertionResponse(c, t, k, rpId, challenge, origin, counter);
            && CredentialIdFrom(r) == Some(k.id)
            && var v := VerifyAssertion(rp, c, r, expected, credential);
               && (v.Ok? ==> v.value.newSignCount == counter)
               && (v.Err? ==> v.error == AssertionVerificationError)
  {
    var data := A.AssertionData(c, t, rpId, counter);
    var raw := A.ClientData(A.TYPE_GET, challenge, origin);
    var signature := c.sign(k.key, Layout(data) + c.sha256(raw));
    ParseLayout(data);
    AssertionInnerGet(raw, Layout(data), signature, k.userHandle);
    EnvelopeGet(k.id, A.AssertionInner(raw, Layout(data), signature, k.userHandle));
  }

  /** It verifies against the matching key, for its challenge, from a permitted origin, for the same RP. */
  lemma AssertionVerifies(rp: RelyingParty, c: A.Crypto, t: Traits, k: A.StoredKey, challenge: Bytes, origin: Str,
                          counter: nat, credential: Credential)
    requires A.Sound(c) && counter < COUNT_LIMIT
    requires origin in rp.origins && !HasPair(origin) && (rp.requireUserVerification ==> t.userVerified)
    requires credential.publicKey == c.publicKey(k.key)
    ensures Encodable(A.AssertionData(c, t, rp.rpId, counter))
    ensures var r := A.AssertionResponse(c, t, k, rp.rpId, challenge, origin, counter);
            VerifyAssertion(rp, c, r, challenge, credential) == Ok(VerifiedAuthentication(k.id, counter, t.userVerified))
  {
    FlagsReadBack(t, false);
    var data := A.AssertionData(c, t, rp.rpId, counter);
    var raw := A.ClientData(A.TYPE_GET, challenge, origin);
    var signature := c.sign(k.key, Layout(data) + c.sha256(raw));
    ParseLayout(data);
    ClientDataAccepted(rp, A.TYPE_GET, challenge, origin);
    AssertionInnerGet(raw, Layout(data), signature, k.userHandle);
    EnvelopeGet(k.id, A.AssertionInner(raw, Layout(data), signature, k.userHandle));
  }

  /** A device's attestation verifies likewise and yields the new id and key with count zero. */
  lemma AttestationVerifies(rp: RelyingParty, c: A.Crypto, t: Traits, aaguid: Bytes, challenge: Bytes, origin: Str,
                            key: nat, id: Bytes)
    requires A.Sound(c) && |aaguid| == 16 && |id| < ID_LIMIT
    requires origin in rp.origins && !HasPair(origin) && (rp.requireUserVerification ==> t.userVerified)
    ensures Encodable(A.AttestationData(c, t, aaguid, rp.rpId, id, key))
    ensures var r := A.Envelope(id, A.AttestationInner(A.ClientData(A.TYPE_CREATE, challenge, origin),
                                                      c.wrap(Layout(A.AttestationData(c, t, aaguid, rp.rpId, id, key)))));
            var v := VerifyAttestation(rp, c, r, challenge);
            && v.Ok? && v.value.credentialId == id && v.value.publicKey == c.publicKey(key) && v.value.signCount == 0
            && v.value.backupEligible == t.backupEligible && v.value.backupState == t.backupState
  {
    FlagsReadBack(t, true);
    var data := A.AttestationData(c, t, aaguid, rp.rpId, id, key);
    var raw := A.ClientData(A.TYPE_CREATE, challenge, origin);
    ParseLayout(data);
    ClientDataAccepted(rp, A.TYPE_CREATE, challenge, origin);
    AttestationInnerGet(raw, c.wrap(Layout(data)));
    EnvelopeGet(id, A.AttestationInner(raw, c.wrap(Layout(data))));
  }
}
