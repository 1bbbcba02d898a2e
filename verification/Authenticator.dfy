/**
 The software authenticator of `testing/authenticator.py`. Cryptography is symbolic: hashing, signing
 and the CBOR wrapping of the attestation object are functions about which only `Sound` is assumed.
 */
module Authenticator {
  import opened Prelude
  import opened Json
  import opened JsonDumps
  import opened AuthenticatorData
  import Base64Url

  datatype Crypto = Crypto(
    sha256: Bytes -> Bytes,
    utf8: Str -> Bytes,
    publicKey: nat -> Bytes,
    sign: (nat, Bytes) -> Bytes,
    verify: (Bytes, Bytes, Bytes) -> bool,
    wrap: Bytes -> Bytes,
    unwrap: Bytes -> Option<Bytes>)

  ghost predicate Sound(c: Crypto) {
    && (forall x: Bytes :: |c.sha256(x)| == 32)
    && (forall k: nat, m: Bytes :: c.verify(c.publicKey(k), m, c.sign(k, m)))
    && (forall x: Bytes :: c.unwrap(c.wrap(x)) == Some(x))
  }

  datatype StoredKey = StoredKey(id: Bytes, key: nat, userHandle: Bytes, rpId: Str, signCount: nat)

  /** The dict `_creds`, in insertion order. */
  type Keys = seq<StoredKey>

  function FindKey(keys: Keys, id: Bytes): (r: Option<StoredKey>)
    ensures r.Some? ==> r.value.id == id
  {
    if keys == [] then None else if keys[0].id == id then Some(keys[0]) else FindKey(keys[1..], id)
  }

  function AssignKey(keys: Keys, k: StoredKey): Keys {
    if keys == [] then [k]
    else if keys[0].id == k.id then [k] + keys[1..]
    else [keys[0]] + AssignKey(keys[1..], k)
  }

  lemma {:induction false} FindOfAssignKey(keys: Keys, k: StoredKey, id: Bytes)
    ensures FindKey(AssignKey(keys, k), id) == if id == k.id then Some(k) else FindKey(keys, id)
  {
    if keys != [] && keys[0].id != k.id {
      FindOfAssignKey(keys[1..], k, id);
      assert AssignKey(keys, k)[1..] == AssignKey(keys[1..], k);
    } else if keys != [] {
      assert AssignKey(keys, k)[1..] == keys[1..];
    }
  }

  /** The fields of the options that the device reads; texts are base64url. */
  datatype CreateOptions = CreateOptions(rpId: Str, challenge: Str, userId: Str)

  datatype GetOptions = GetOptions(rpId: Str, challenge: Str, allow: seq<Str>)

  /** What the device raises: no credential held, a text that is no base64url, a value too big to pack. */
  datatype DeviceError = NothingHeld | BadText | TooBig

  // ----- client data -----

  const KEY_TYPE: Str := [0x74, 0x79, 0x70, 0x65]
  const KEY_CHALLENGE: Str := [0x63, 0x68, 0x61, 0x6C, 0x6C, 0x65, 0x6E, 0x67, 0x65]
  const KEY_ORIGIN: Str := [0x6F, 0x72, 0x69, 0x67, 0x69, 0x6E]
  const KEY_CROSS: Str := [0x63, 0x72, 0x6F, 0x73, 0x73, 0x4F, 0x72, 0x69, 0x67, 0x69, 0x6E]
  const TYPE_CREATE: Str :=
    [0x77, 0x65, 0x62, 0x61, 0x75, 0x74, 0x68, 0x6E, 0x2E, 0x63, 0x72, 0x65, 0x61, 0x74, 0x65]
  const TYPE_GET: Str := [0x77, 0x65, 0x62, 0x61, 0x75, 0x74, 0x68, 0x6E, 0x2E, 0x67, 0x65, 0x74]

  function ClientDataFields(kind: Str, challenge: Bytes, origin: Str): Fields {
    Field(KEY_TYPE, JStr(kind),
      Field(KEY_CHALLENGE, JStr(Base64Url.Encode(challenge)),
        Field(KEY_ORIGIN, JStr(origin),
          Field(KEY_CROSS, JBool(false), Nil))))
  }

  /** `_client_data`. */
  function ClientData(kind: Str, challenge: Bytes, origin: Str): Bytes {
    var text := Dumps(JObj(ClientDataFields(kind, challenge, origin)), COMPACT, false);
    PrintPrintable(JObj(ClientDataFields(kind, challenge, origin)), COMPACT);
    AsciiBytes(text)
  }

  // ----- responses -----

  const KEY_ID: Str := [0x69, 0x64]
  const KEY_RAW_ID: Str := [0x72, 0x61, 0x77, 0x49, 0x64]
  const KEY_RESPONSE: Str := [0x72, 0x65, 0x73, 0x70, 0x6F, 0x6E, 0x73, 0x65]
  const KEY_CLIENT_DATA: Str :=
    [0x63, 0x6C, 0x69, 0x65, 0x6E, 0x74, 0x44, 0x61, 0x74, 0x61, 0x4A, 0x53, 0x4F, 0x4E]
  const KEY_AUTH_DATA: Str :=
    [0x61, 0x75, 0x74, 0x68, 0x65, 0x6E, 0x74, 0x69, 0x63, 0x61, 0x74, 0x6F, 0x72, 0x44, 0x61, 0x74, 0x61]
  const KEY_SIGNATURE: Str := [0x73, 0x69, 0x67, 0x6E, 0x61, 0x74, 0x75, 0x72, 0x65]
  const KEY_USER_HANDLE: Str := [0x75, 0x73, 0x65, 0x72, 0x48, 0x61, 0x6E, 0x64, 0x6C, 0x65]
  const KEY_ATTESTATION: Str :=
    [0x61, 0x74, 0x74, 0x65, 0x73, 0x74, 0x61, 0x74, 0x69, 0x6F, 0x6E, 0x4F, 0x62, 0x6A, 0x65, 0x63, 0x74]
  const KEY_EXTENSIONS: Str :=
    [0x63, 0x6C, 0x69, 0x65, 0x6E, 0x74, 0x45, 0x78, 0x74, 0x65, 0x6E, 0x73, 0x69, 0x6F, 0x6E,
     0x52, 0x65, 0x73, 0x75, 0x6C, 0x74, 0x73]
  const PUBLIC_KEY_TYPE: Str := [0x70, 0x75, 0x62, 0x6C, 0x69, 0x63, 0x2D, 0x6B, 0x65, 0x79]

  function Envelope(id: Bytes, inner: Fields): Fields {
    Field(KEY_ID, JStr(Base64Url.Encode(id)),
      Field(KEY_RAW_ID, JStr(Base64Url.Encode(id)),
        Field(KEY_TYPE, JStr(PUBLIC_KEY_TYPE),
          Field(KEY_RESPONSE, JObj(inner),
            Field(KEY_EXTENSIONS, JObj(Nil), Nil)))))
  }

  /** The transports `["internal"]` of a registration response are left out: JSON lists are not modelled. */
  function AttestationInner(clientData: Bytes, attestationObject: Bytes): Fields {
    Field(KEY_CLIENT_DATA, JStr(Base64Url.Encode(clientData)),
      Field(KEY_ATTESTATION, JStr(Base64Url.Encode(attestationObject)), Nil))
  }

  function AssertionInner(clientData: Bytes, authData: Bytes, signature: Bytes, userHandle: Bytes): Fields {
    Field(KEY_CLIENT_DATA, JStr(Base64Url.Encode(clientData)),
      Field(KEY_AUTH_DATA, JStr(Base64Url.Encode(authData)),
        Field(KEY_SIGNATURE, JStr(Base64Url.Encode(signature)),
          Field(KEY_USER_HANDLE, JStr(Base64Url.Encode(userHandle)), Nil))))
  }

  /** The hash as the device writes it: the digest of SHA-256 has 32 bytes. */
  function RpIdHash(c: Crypto, rpId: Str): Bytes {
    c.sha256(c.utf8(rpId))
  }

  function AssertionData(c: Crypto, t: Traits, rpId: Str, counter: nat): AuthData {
    AuthData(RpIdHash(c, rpId), Flags(t, false), counter, None)
  }

  /** The assertion response for a counter that fits in 32 bits. */
  function AssertionResponse(c: Crypto, t: Traits, k: StoredKey, rpId: Str, challenge: Bytes, origin: Str, counter: nat): Fields
    requires Encodable(AssertionData(c, t, rpId, counter))
  {
    var authData := Layout(AssertionData(c, t, rpId, counter));
    var clientData := ClientData(TYPE_GET, challenge, origin);
    Envelope(k.id, AssertionInner(clientData, authData, c.sign(k.key, authData + c.sha256(clientData)), k.userHandle))
  }

  function AttestationData(c: Crypto, t: Traits, aaguid: Bytes, rpId: Str, id: Bytes, key: nat): AuthData {
    AuthData(RpIdHash(c, rpId), Flags(t, true), 0, Some(Attested(aaguid, id, c.publicKey(key))))
  }

  // ----- the device's two operations -----

  /** `_select_credential`: the first allowed credential it holds, else the first it holds at all. */
  function Select(keys: Keys, allow: seq<Str>): Result<Bytes, DeviceError> {
    if allow == [] then
      if keys == [] then Err(NothingHeld) else Ok(keys[0].id)
    else
      var candidate := Base64Url.Decode(allow[0]);
      if candidate == None then Err(BadText)
      else if FindKey(keys, candidate.value).Some? then Ok(candidate.value)
      else Select(keys, allow[1..])
  }

  /** A descriptor of a credential the device does not hold. */
  predicate Skipped(keys: Keys, text: Str) {
    var id := Base64Url.Decode(text);
    id.Some? && FindKey(keys, id.value) == None
  }

  lemma {:induction false} SelectHeld(keys: Keys, allow: seq<Str>)
    ensures Select(keys, allow).Ok? ==> FindKey(keys, Select(keys, allow).value).Some?
  {
    if allow != [] {
      SelectHeld(keys, allow[1..]);
    }
  }

  /** `get`; on success the counter has advanced by one, unless a count was forced. */
  function Assertion(c: Crypto, t: Traits, keys: Keys, o: GetOptions, origin: Str, forced: Option<nat>): (Keys, Result<Fields, DeviceError>)
    requires forall x: Bytes :: |c.sha256(x)| == 32
  {
    if o.rpId == [] && keys == [] then (keys, Err(NothingHeld))
    else
      var rpId := if o.rpId == [] then keys[0].rpId else o.rpId;
      var challenge := Base64Url.Decode(o.challenge);
      if challenge == None then (keys, Err(BadText))
      else
        match Select(keys, o.allow)
        case Err(e) => (keys, Err(e))
        case Ok(id) =>
          SelectHeld(keys, o.allow);
          SignedWith(c, t, keys, FindKey(keys, id).value, rpId, challenge.value, origin, forced)
  }

  /** The rest of `get`, once the key is selected: count, then sign. */
  function SignedWith(c: Crypto, t: Traits, keys: Keys, stored: StoredKey, rpId: Str, challenge: Bytes, origin: Str, forced: Option<nat>)
    : (Keys, Result<Fields, DeviceError>)
    requires forall x: Bytes :: |c.sha256(x)| == 32
  {
    var counter := if forced == None then stored.signCount + 1 else forced.value;
    var keys' := if forced == None then AssignKey(keys, stored.(signCount := counter)) else keys;
    if counter >= COUNT_LIMIT then (keys', Err(TooBig))
    else
      FlagsReadBack(t, false);
      (keys', Ok(AssertionResponse(c, t, stored, rpId, challenge, origin, counter)))
  }

  /** The RP id an assertion is made for. */
  function RpIdFor(keys: Keys, o: GetOptions): Str {
    if o.rpId == [] && keys != [] then keys[0].rpId else o.rpId
  }

  /** An unforced `get`: at most the selected key changes, its count by one; the response carries that count. */
  lemma AssertionOutcome(c: Crypto, t: Traits, keys: Keys, o: GetOptions, origin: Str)
    requires forall x: Bytes :: |c.sha256(x)| == 32
    ensures var r := Assertion(c, t, keys, o, origin, None);
            var selected := Select(keys, o.allow);
            && (r.0 != keys || r.1.Ok? ==> selected.Ok?)
            && (selected.Ok? ==>
                  && FindKey(keys, selected.value).Some?
                  && var k := FindKey(keys, selected.value).value;
                     && (r.0 == keys || r.0 == AssignKey(keys, k.(signCount := k.signCount + 1)))
                     && (r.1.Ok? ==>
                           && r.0 == AssignKey(keys, k.(signCount := k.signCount + 1))
                           && Encodable(AssertionData(c, t, RpIdFor(keys, o), k.signCount + 1))
                           && Base64Url.Decode(o.challenge).Some?
                           && r.1.value == AssertionResponse(c, t, k, RpIdFor(keys, o), Base64Url.Decode(o.challenge).value,
                                                             origin, k.signCount + 1)))
  {
    SelectHeld(keys, o.allow);
    FlagsReadBack(t, false);
  }

  /** When an unforced `get` succeeds. */
  lemma AssertionSucceeds(c: Crypto, t: Traits, keys: Keys, o: GetOptions, origin: Str, k: StoredKey)
    requires forall x: Bytes :: |c.sha256(x)| == 32
    requires o.rpId != [] && Base64Url.Decode(o.challenge).Some?
    requires Select(keys, o.allow) == Ok(k.id) && FindKey(keys, k.id) == Some(k) && k.signCount + 1 < COUNT_LIMIT
    ensures Encodable(AssertionData(c, t, o.rpId, k.signCount + 1))
    ensures Assertion(c, t, keys, o, origin, None)
            == (AssignKey(keys, k.(signCount := k.signCount + 1)),
                Ok(AssertionResponse(c, t, k, o.rpId, Base64Url.Decode(o.challenge).value, origin, k.signCount + 1)))
  {
    hide AssertionResponse, Base64Url.Decode, Select, AssignKey;
    SelectHeld(keys, o.allow);
    FlagsReadBack(t, false);
  }

  /** `create`, given the fresh private key and the chosen id. */
  function Attestation(c: Crypto, t: Traits, aaguid: Bytes, keys: Keys, o: CreateOptions, origin: Str, key: nat, id: Bytes): (Keys, Result<Fields, DeviceError>)
    requires |aaguid| == 16 && forall x: Bytes :: |c.sha256(x)| == 32
  {
    var challenge, userHandle := Base64Url.Decode(o.challenge), Base64Url.Decode(o.userId);
    if challenge == None || userHandle == None then (keys, Err(BadText))
    else
      var keys' := AssignKey(keys, StoredKey(id, key, userHandle.value, o.rpId, 0));
      if |id| >= ID_LIMIT then (keys', Err(TooBig))
      else
        FlagsReadBack(t, true);
        var authData := Layout(AttestationData(c, t, aaguid, o.rpId, id, key));
        (keys', Ok(Envelope(id, AttestationInner(ClientData(TYPE_CREATE, challenge.value, origin), c.wrap(authData)))))
  }

  /** The device as an object; its dict of keys is updated in place. */
  class SoftwareAuthenticator {
    const crypto: Crypto
    const aaguid: Bytes
    const traits: Traits
    var creds: Keys

    ghost predicate Valid() {
      |aaguid| == 16 && forall x: Bytes :: |crypto.sha256(x)| == 32
    }

    constructor (crypto: Crypto, aaguid: Bytes, traits: Traits)
      requires |aaguid| == 16 && forall x: Bytes :: |crypto.sha256(x)| == 32
      ensures Valid() && creds == [] && this.crypto == crypto && this.aaguid == aaguid && this.traits == traits
    {
      this.crypto := crypto;
      this.aaguid := aaguid;
      this.traits := traits;
      creds := [];
    }

    /** `key` and `random` are fresh; a forced id is used unless it is empty. */
    method CreateCredential(o: CreateOptions, origin: Str, key: nat, forced: Option<Bytes>, random: Bytes) returns (r: Result<Fields, DeviceError>)
      requires Valid() && |random| == 16
      modifies this
      ensures (creds, r) == Attestation(crypto, traits, aaguid, old(creds), o, origin, key,
                                        if forced.Some? && forced.value != [] then forced.value else random)
    {
      hide AssignKey, Base64Url.Decode;
      var id := if forced == None || forced.value == [] then random else forced.value;
      var challenge := Base64Url.Decode(o.challenge);
      var userHandle := Base64Url.Decode(o.userId);
      if challenge == None || userHandle == None {
        return Err(BadText);
      }
      creds := AssignKey(creds, StoredKey(id, key, userHandle.value, o.rpId, 0));
      var clientData := ClientData(TYPE_CREATE, challenge.value, origin);
      if |id| >= ID_LIMIT {
        return Err(TooBig);
      }
      var flags := AccumulateFlags(traits, true);
      var attested := aaguid + PackLength(|id|) + id + crypto.publicKey(key);
      var authData := RpIdHash(crypto, o.rpId) + [flags] + PackCount(0) + attested;
      FlagsReadBack(traits, true);
      assert authData == Layout(AttestationData(crypto, traits, aaguid, o.rpId, id, key));
      return Ok(Envelope(id, AttestationInner(clientData, crypto.wrap(authData))));
    }

    method GetAssertion(o: GetOptions, origin: Str, forced: Option<nat>) returns (r: Result<Fields, DeviceError>)
      requires Valid()
      modifies this
      ensures (creds, r) == Assertion(crypto, traits, old(creds), o, origin, forced)
    {
      hide SignedWith, Base64Url.Decode, Select, FindKey;
      var rpId := o.rpId;
      if rpId == [] {
        if creds == [] {
          return Err(NothingHeld);
        }
        rpId := creds[0].rpId;
      }
      var challenge := Base64Url.Decode(o.challenge);
      if challenge == None {
        return Err(BadText);
      }
      var selected := SelectCredential(o.allow);
      if selected.Err? {
        return Err(selected.error);
      }
      SelectHeld(creds, o.allow);
      r := SignWith(FindKey(creds, selected.value).value, rpId, challenge.value, origin, forced);
    }

    /** Counts and signs with the selected key. */
    method SignWith(stored: StoredKey, rpId: Str, challenge: Bytes, origin: Str, forced: Option<nat>)
      returns (r: Result<Fields, DeviceError>)
      requires Valid()
      modifies this
      ensures (creds, r) == SignedWith(crypto, traits, old(creds), stored, rpId, challenge, origin, forced)
    {
      hide AssertionResponse, AssignKey;
      var counter: nat;
      if forced == None {
        counter := stored.signCount + 1;
        creds := AssignKey(creds, stored.(signCount := counter));
      } else {
        counter := forced.value;
      }
      if counter >= COUNT_LIMIT {
        return Err(TooBig);
      }
      var response := BuildAssertion(stored, rpId, challenge, origin, counter);
      return Ok(response);
    }

    /** The signed response; the counter goes into the authenticator data, the challenge into the client data. */
    method BuildAssertion(k: StoredKey, rpId: Str, challenge: Bytes, origin: Str, counter: nat) returns (r: Fields)
      requires Valid() && counter < COUNT_LIMIT
      ensures Encodable(AssertionData(crypto, traits, rpId, counter))
      ensures r == AssertionResponse(crypto, traits, k, rpId, challenge, origin, counter)
    {
      FlagsReadBack(traits, false);
      var flags := AccumulateFlags(traits, false);
      var authData := RpIdHash(crypto, rpId) + [flags] + PackCount(counter);
      assert authData == Layout(AssertionData(crypto, traits, rpId, counter));
      var clientData := ClientData(TYPE_GET, challenge, origin);
      var signature := crypto.sign(k.key, authData + crypto.sha256(clientData));
      r := Envelope(k.id, AssertionInner(clientData, authData, signature, k.userHandle));
    }

    /** The loop over the allowed descriptors: the first held candidate, in the order of the list. */
    method SelectCredential(allow: seq<Str>) returns (r: Result<Bytes, DeviceError>)
      ensures r == Select(creds, allow)
      ensures forall i :: 0 <= i < |allow| && !Skipped(creds, allow[i]) && (forall j :: 0 <= j < i ==> Skipped(creds, allow[j])) ==>
                r == if Base64Url.Decode(allow[i]) == None then Err(BadText) else Ok(Base64Url.Decode(allow[i]).value)
      ensures (forall j :: 0 <= j < |allow| ==> Skipped(creds, allow[j])) ==>
                r == if creds == [] then Err(NothingHeld) else Ok(creds[0].id)
    {
      var i := 0;
      while i < |allow|
        invariant 0 <= i <= |allow|
        invariant forall j :: 0 <= j < i ==> Skipped(creds, allow[j])
        invariant Select(creds, allow) == Select(creds, allow[i..])
      {
        var candidate := Base64Url.Decode(allow[i]);
        assert allow[i..][0] == allow[i] && allow[i..][1..] == allow[i + 1..];
        if candidate == None {
          return Err(BadText);
        }
        if FindKey(creds, candidate.value) != None {
          return Ok(candidate.value);
        }
        i := i + 1;
      }
      if creds == [] {
        return Err(NothingHeld);
      }
      return Ok(creds[0].id);
    }
  }
}
