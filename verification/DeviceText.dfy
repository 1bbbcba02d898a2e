/** Names and texts that the device, the browser's response and the database share with the server, written out. */
module DeviceText {
  import opened Prelude
  import opened Domain
  import opened Json
  import opened JsonDumps
  import opened JsonText
  import opened Ceremony
  import A = Authenticator
  import Sql = SqlRepository
  import Base64Url
  import WireText

  lemma Names()
    ensures A.KEY_ID == Lit("id") && A.KEY_RAW_ID == Lit("rawId") && A.KEY_TYPE == Lit("type") && A.KEY_RESPONSE == Lit("response")
    ensures A.KEY_EXTENSIONS == Lit("clientExtensionResults") && A.PUBLIC_KEY_TYPE == Lit("public-key")
    ensures A.TYPE_CREATE == Lit("webauthn.create") && A.TYPE_GET == Lit("webauthn.get")
  {
  }

  lemma InnerNames()
    ensures A.KEY_CLIENT_DATA == Lit("clientDataJSON") && A.KEY_AUTH_DATA == Lit("authenticatorData")
    ensures A.KEY_SIGNATURE == Lit("signature") && A.KEY_USER_HANDLE == Lit("userHandle")
    ensures A.KEY_ATTESTATION == Lit("attestationObject")
  {
  }

  lemma ClientNames()
    ensures A.KEY_CHALLENGE == Lit("challenge") && A.KEY_ORIGIN == Lit("origin") && A.KEY_CROSS == Lit("crossOrigin")
    ensures A.KEY_TYPE == Lit("type")
  {
  }

  function Text(data: Bytes): JValue {
    JStr(Base64Url.Encode(data))
  }

  /** A response as the server receives it, key by key; other keys there are none. */
  lemma EnvelopeIs(id: Bytes, inner: Fields)
    ensures A.Envelope(id, inner)
            == Field(Lit("id"), Text(id), Field(Lit("rawId"), Text(id), Field(Lit("type"), JStr(Lit("public-key")),
                 Field(Lit("response"), JObj(inner), Field(Lit("clientExtensionResults"), JObj(Nil), Nil)))))
  {
    Names();
    hide Base64Url.Encode;
  }

  lemma InnersAre(clientData: Bytes, data: Bytes, signature: Bytes, userHandle: Bytes)
    ensures A.AssertionInner(clientData, data, signature, userHandle)
            == Field(Lit("clientDataJSON"), Text(clientData), Field(Lit("authenticatorData"), Text(data),
                 Field(Lit("signature"), Text(signature), Field(Lit("userHandle"), Text(userHandle), Nil))))
    ensures A.AttestationInner(clientData, data)
            == Field(Lit("clientDataJSON"), Text(clientData), Field(Lit("attestationObject"), Text(data), Nil))
  {
    InnerNames();
    hide Base64Url.Encode;
  }

  function OriginText(origin: Str): Str {
    Item("origin", "", Quote(origin), Lit(",") + Item("crossOrigin", "", Lit("false"), Lit("}")))
  }

  function ChallengeText(challenge: Bytes, origin: Str): Str {
    Item("challenge", "", Lit("\"") + Base64Url.Encode(challenge) + Lit("\""), Lit(",") + OriginText(origin))
  }

  function OriginFields(origin: Str): (f: Fields)
    ensures f.Field?
  {
    Field(Lit("origin"), JStr(origin), Field(Lit("crossOrigin"), JBool(false), Nil))
  }

  lemma OriginTextIs(origin: Str)
    ensures PrintMembers(OriginFields(origin), COMPACT) == OriginText(origin)
  {
    hide Item, Quote, Base64Url.Encode;
    WireText.TextOf(origin, COMPACT);
    Constants(COMPACT);
    WireText.NoGap();
    ItemText("crossOrigin", JBool(false), Nil, COMPACT, "");
    ItemText("origin", JStr(origin), Field(Lit("crossOrigin"), JBool(false), Nil), COMPACT, "");
    hide Print, PrintMembers;
  }

  lemma ChallengeTextIs(challenge: Bytes, origin: Str, rest: Fields)
    requires rest.Field? && PrintMembers(rest, COMPACT) == OriginText(origin)
    ensures PrintMembers(Field(Lit("challenge"), Text(challenge), rest), COMPACT) == ChallengeText(challenge, origin)
  {
    WireText.EncodedIsPlain(challenge);
    hide Item, Quote, Base64Url.Encode, Plain, OriginText, Print, PrintMembers;
    WireText.PlainText(Base64Url.Encode(challenge), COMPACT);
    WireText.NoGap();
    ItemText("challenge", Text(challenge), rest, COMPACT, "");
  }

  lemma ClientFields(kind: Str, challenge: Bytes, origin: Str)
    ensures A.ClientDataFields(kind, challenge, origin)
            == Field(Lit("type"), JStr(kind), Field(Lit("challenge"), Text(challenge), OriginFields(origin)))
  {
    ClientNames();
    hide Base64Url.Encode;
  }

  /** The client data that is hashed and signed, character for character. */
  lemma ClientDataIs(kind: Str, challenge: Bytes, origin: Str)
    ensures AsciiText(A.ClientData(kind, challenge, origin))
            == Lit("{") + Item("type", "", Quote(kind), Lit(",") + ChallengeText(challenge, origin))
  {
    hide *;
    var f, f2 := A.ClientDataFields(kind, challenge, origin), OriginFields(origin);
    ClientFields(kind, challenge, origin);
    ClientTextIs(kind, challenge, origin);
    OriginTextIs(origin);
    ChallengeTextIs(challenge, origin, f2);
    WireText.TextOf(kind, COMPACT);
    WireText.NoGap();
    TypeText(kind, Field(Lit("challenge"), Text(challenge), f2));
    DictText(f, COMPACT);
  }

  lemma TypeText(kind: Str, rest: Fields)
    requires rest.Field?
    ensures PrintMembers(Field(Lit("type"), JStr(kind), rest), COMPACT)
            == Item("type", "", Quote(kind), Lit(",") + PrintMembers(rest, COMPACT))
  {
    hide Item, Quote, Print, PrintMembers;
    WireText.TextOf(kind, COMPACT);
    WireText.NoGap();
    ItemText("type", JStr(kind), rest, COMPACT, "");
  }

  lemma ClientTextIs(kind: Str, challenge: Bytes, origin: Str)
    ensures AsciiText(A.ClientData(kind, challenge, origin)) == Print(JObj(A.ClientDataFields(kind, challenge, origin)), COMPACT)
  {
    hide Print, A.ClientDataFields;
    PrintPrintable(JObj(A.ClientDataFields(kind, challenge, origin)), COMPACT);
  }

  /**
   Which credential a response names: the base64url text under `rawId`, or under `id` if that is
   missing or falsy; none if the one that counts is no text or no base64url.
   */
  lemma NamedCredential(response: Fields)
    ensures var rawId, id := Get(response, Lit("rawId")), Get(response, Lit("id"));
            var named := CredentialIdFrom(response);
            && (rawId.Some? && rawId.value.JStr? && rawId.value.s != [] ==> named == Base64Url.Decode(rawId.value.s))
            && (rawId in [Some(JInt(1)), Some(JBool(true))] ==> named == None)
            && (rawId.Some? && rawId.value.JObj? && rawId.value.fields != Nil ==> named == None)
            && (rawId in [None, Some(JNull), Some(JBool(false)), Some(JInt(0)), Some(JStr([])), Some(JObj(Nil))] ==>
                  named == if id.Some? && id.value.JStr? then Base64Url.Decode(id.value.s) else None)
  {
    assert Ceremony.KEY_RAW_ID == Lit("rawId") && Ceremony.KEY_ID == Lit("id");
    hide Get, Base64Url.Decode;
  }

  /** The transports as the database spells them. */
  lemma TransportTexts()
    ensures Sql.TransportName(Usb) == Lit("usb") && Sql.TransportName(Nfc) == Lit("nfc") && Sql.TransportName(Ble) == Lit("ble")
    ensures Sql.TransportName(Internal) == Lit("internal") && Sql.TransportName(Hybrid) == Lit("hybrid")
  {
  }

  /** The columns of a row. */
  lemma Columns(c: Credential)
    ensures var r := Sql.ToRow(c);
            && r.credentialId == c.credentialId && r.userId == c.userId && r.publicKey == c.publicKey && r.signCount == c.signCount
            && |r.transports| == |c.transports| && r.aaguid == c.aaguid
            && r.backupEligible == c.backupEligible && r.backupState == c.backupState && r.deviceName == c.deviceName
            && r.isDiscoverable == c.isDiscoverable && r.attestationFmt == c.attestationFmt
            && r.createdAt == c.createdAt && r.lastUsedAt == c.lastUsedAt
            && forall i :: 0 <= i < |c.transports| ==> r.transports[i] == Sql.TransportName(c.transports[i])
  {
    TransportList(c.transports);
  }

  lemma {:induction false} TransportList(ts: seq<Transport>)
    ensures |Sql.TransportNames(ts)| == |ts|
    ensures forall i :: 0 <= i < |ts| ==> Sql.TransportNames(ts)[i] == Sql.TransportName(ts[i])
  {
    if ts != [] {
      TransportList(ts[1..]);
    }
  }
}
