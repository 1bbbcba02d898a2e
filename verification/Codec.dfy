/** `contrib/_codec.py`: the payload a challenge travels in when it is held outside the process. */
module Codec {
  import opened Prelude
  import opened Domain
  import opened Json
  import opened JsonDumps
  import Base64Url

  const KEY_CHALLENGE: Str := [0x63]             // "c"
  const KEY_CREATED: Str := [0x69, 0x61, 0x74]   // "iat"
  const KEY_EXPIRES: Str := [0x65, 0x78, 0x70]   // "exp"
  const KEY_CEREMONY: Str := [0x6B]              // "k"
  const KEY_USER: Str := [0x75]                  // "u"
  const KEY_USER_ID: Str := [0x75, 0x69, 0x64]   // "uid"
  const KEY_ID: Str := [0x69, 0x64]              // "id"
  const KEY_NAME: Str := [0x6E]                  // "n"
  const KEY_DISPLAY: Str := [0x64]               // "d"

  const REGISTER: Str := [0x72, 0x65, 0x67, 0x69, 0x73, 0x74, 0x65, 0x72]
  const AUTHENTICATE: Str := [0x61, 0x75, 0x74, 0x68, 0x65, 0x6E, 0x74, 0x69, 0x63, 0x61, 0x74, 0x65]

  /** `int(t.timestamp())` for a time since the epoch. */
  function WholeSeconds(t: Instant): nat {
    t / SECOND
  }

  function UserFields(u: User): Fields {
    Field(KEY_ID, JStr(u.id), Field(KEY_NAME, JStr(u.name), Field(KEY_DISPLAY, JStr(u.displayName), Nil)))
  }

  function Subject(c: Challenge): Fields {
    match c
    case RegistrationChallenge(_, user, _, _) => Field(KEY_USER, JObj(UserFields(user)), Nil)
    case AuthenticationChallenge(_, userId, _, _) =>
      Field(KEY_USER_ID, if userId.Some? then JStr(userId.value) else JNull, Nil)
  }

  function CeremonyName(c: Challenge): Str {
    if c.RegistrationChallenge? then REGISTER else AUTHENTICATE
  }

  /** `challenge_to_payload`, items in insertion order. */
  function PayloadFields(c: Challenge): Fields {
    Field(KEY_CHALLENGE, JStr(Base64Url.Encode(c.challenge)),
      Field(KEY_CREATED, JInt(WholeSeconds(c.createdAt)),
        Field(KEY_EXPIRES, JInt(WholeSeconds(c.expiresAt)),
          Field(KEY_CEREMONY, JStr(CeremonyName(c)), Subject(c)))))
  }

  /** Dict assignment: overwrites in place or appends. */
  function Assign(f: Fields, key: Str, value: JValue): Fields {
    match f
    case Nil => Field(key, value, Nil)
    case Field(k, v, rest) => if k == key then Field(k, value, rest) else Field(k, v, Assign(rest, key, value))
  }

  /** The same dict, built the way the source builds it: four items, then one assigned by case. */
  method ChallengeToPayload(c: Challenge) returns (payload: JValue)
    ensures payload == JObj(PayloadFields(c))
    ensures Get(payload.fields, KEY_USER).Some? <==> c.RegistrationChallenge?
    ensures Get(payload.fields, KEY_USER_ID).Some? <==> c.AuthenticationChallenge?
  {
    var fields := Field(KEY_CHALLENGE, JStr(Base64Url.Encode(c.challenge)),
                    Field(KEY_CREATED, JInt(WholeSeconds(c.createdAt)),
                      Field(KEY_EXPIRES, JInt(WholeSeconds(c.expiresAt)),
                        Field(KEY_CEREMONY, JStr(if c.RegistrationChallenge? then REGISTER else AUTHENTICATE), Nil))));
    if c.RegistrationChallenge? {
      fields := Assign(fields, KEY_USER, JObj(UserFields(c.user)));
    } else {
      fields := Assign(fields, KEY_USER_ID, if c.userId.Some? then JStr(c.userId.value) else JNull);
    }
    payload := JObj(fields);
    KeysApart();
    AssignAppends(Field(KEY_CHALLENGE, JStr(Base64Url.Encode(c.challenge)),
                    Field(KEY_CREATED, JInt(WholeSeconds(c.createdAt)),
                      Field(KEY_EXPIRES, JInt(WholeSeconds(c.expiresAt)),
                        Field(KEY_CEREMONY, JStr(CeremonyName(c)), Nil)))),
                  Subject(c));
    PayloadLookups(c);
  }

  /** Assigning a new key to the four common items appends it. */
  lemma AssignAppends(f: Fields, last: Fields)
    requires f.Field? && f.rest.Field? && f.rest.rest.Field? && f.rest.rest.rest.Field? && f.rest.rest.rest.rest.Nil?
    requires last.Field? && last.rest.Nil?
    requires last.key !in [f.key, f.rest.key, f.rest.rest.key, f.rest.rest.rest.key]
    ensures Assign(f, last.key, last.value)
            == Field(f.key, f.value, Field(f.rest.key, f.rest.value, Field(f.rest.rest.key, f.rest.rest.value,
                 Field(f.rest.rest.rest.key, f.rest.rest.rest.value, last))))
  {
    var f2, f3 := f.rest.rest, f.rest.rest.rest;
    assert Assign(f3, last.key, last.value) == Field(f3.key, f3.value, last);
    assert Assign(f2, last.key, last.value) == Field(f2.key, f2.value, Assign(f3, last.key, last.value));
  }

  /**
   The outcome of decoding. `Rejected` is the `None` of the source; `Unmodelled` marks payloads for
   which it raises an exception it does not catch, or builds a challenge the domain types exclude
   (a negative time, a user id that is not a string).
   */
  datatype Decoded = Accepted(challenge: Challenge) | Rejected | Unmodelled

  predicate IsNumber(v: JValue) {
    v.JInt? || v.JBool?
  }

  /** `payload_to_challenge`. */
  function PayloadToChallenge(payload: JValue): Decoded {
    if !payload.JObj? then Rejected
    else
      var f := payload.fields;
      var iat, exp, c, k := Get(f, KEY_CREATED), Get(f, KEY_EXPIRES), Get(f, KEY_CHALLENGE), Get(f, KEY_CEREMONY);
      if iat == None || exp == None || c == None || k == None then Rejected
      else if !IsNumber(iat.value) || !IsNumber(exp.value) || !c.value.JStr? then Rejected
      else if Base64Url.Decode(c.value.s) == None then Rejected
      else if k.value != JStr(REGISTER) && k.value != JStr(AUTHENTICATE) then Rejected
      else if !iat.value.JInt? || !exp.value.JInt? || iat.value.n < 0 || exp.value.n < 0 then Unmodelled
      else
        var created: Instant := iat.value.n * SECOND;
        var expires: Instant := exp.value.n * SECOND;
        var challenge := Base64Url.Decode(c.value.s).value;
        if k.value == JStr(REGISTER) then
          var u := Get(f, KEY_USER);
          if u == None || !Truthy(u.value) then Rejected
          else if !u.value.JObj? then Unmodelled
          else DecodeUser(u.value.fields, challenge, created, expires)
        else
          var uid := Get(f, KEY_USER_ID);
          if uid == None || uid.value.JNull? then Accepted(AuthenticationChallenge(challenge, None, created, expires))
          else if uid.value.JStr? then
            Accepted(AuthenticationChallenge(challenge, Some(uid.value.s), created, expires))
          else Unmodelled
  }

  function DecodeUser(u: Fields, challenge: Bytes, created: Instant, expires: Instant): Decoded {
    var id, name, display := Get(u, KEY_ID), Get(u, KEY_NAME), Get(u, KEY_DISPLAY);
    if id == None || name == None || display == None then Rejected
    else if !id.value.JStr? || !name.value.JStr? || !display.value.JStr? then Unmodelled
    else
      Accepted(RegistrationChallenge(challenge, User(id.value.s, name.value.s, display.value.s), created, expires))
  }

  // ----- what a challenge looks like after the trip -----

  /** Times cut to the second; adjacent surrogate halves joined by JSON. */
  function Received(c: Challenge): Challenge {
    var created: Instant := WholeSeconds(c.createdAt) * SECOND;
    var expires: Instant := WholeSeconds(c.expiresAt) * SECOND;
    match c
    case RegistrationChallenge(ch, u, _, _) =>
      RegistrationChallenge(ch, User(Join(u.id), Join(u.name), Join(u.displayName)), created, expires)
    case AuthenticationChallenge(ch, uid, _, _) =>
      AuthenticationChallenge(ch, if uid.Some? then Some(Join(uid.value)) else None, created, expires)
  }

  /** The challenge with both times cut to the second and nothing else changed. */
  function Truncated(c: Challenge): Challenge {
    c.(createdAt := WholeSeconds(c.createdAt) * SECOND, expiresAt := WholeSeconds(c.expiresAt) * SECOND)
  }

  predicate PairFreeSubject(c: Challenge) {
    match c
    case RegistrationChallenge(_, u, _, _) => !HasPair(u.id) && !HasPair(u.name) && !HasPair(u.displayName)
    case AuthenticationChallenge(_, uid, _, _) => uid.Some? ==> !HasPair(uid.value)
  }

  /** Only the times are lost, exactly when no subject string spells a character as two surrogates. */
  lemma ReceivedIsTruncatedIff(c: Challenge)
    ensures Received(c) == Truncated(c) <==> PairFreeSubject(c)
  {
    match c
    case RegistrationChallenge(_, u, _, _) =>
      JoinFixedIff(u.id);
      JoinFixedIff(u.name);
      JoinFixedIff(u.displayName);
    case AuthenticationChallenge(_, uid, _, _) =>
      if uid.Some? {
        JoinFixedIff(uid.value);
      }
  }

  // ----- round trip -----

  lemma KeysApart()
    ensures KEY_CHALLENGE !in [KEY_CREATED, KEY_EXPIRES, KEY_CEREMONY, KEY_USER, KEY_USER_ID]
    ensures KEY_CREATED !in [KEY_EXPIRES, KEY_CEREMONY, KEY_USER, KEY_USER_ID]
    ensures KEY_EXPIRES !in [KEY_CEREMONY, KEY_USER, KEY_USER_ID]
    ensures KEY_CEREMONY !in [KEY_USER, KEY_USER_ID]
    ensures KEY_USER != KEY_USER_ID
    ensures KEY_ID !in [KEY_NAME, KEY_DISPLAY] && KEY_NAME != KEY_DISPLAY
  {
    assert KEY_CHALLENGE[0] != KEY_CEREMONY[0] && KEY_CHALLENGE[0] != KEY_USER[0] && KEY_CEREMONY[0] != KEY_USER[0];
    assert KEY_CREATED[0] != KEY_EXPIRES[0] && KEY_CREATED[0] != KEY_USER_ID[0] && KEY_EXPIRES[0] != KEY_USER_ID[0];
    assert KEY_NAME[0] != KEY_DISPLAY[0];
  }

  lemma PayloadIsDict(c: Challenge)
    ensures DistinctKeys(PayloadFields(c)) && PairFreeKeys(PayloadFields(c))
  {
    KeysApart();
    var f1 := PayloadFields(c).rest;
    var f2 := f1.rest;
    var f3 := f2.rest;
    var f4 := f3.rest;
    assert f4.rest.Nil? && DistinctKeys(f4) && PairFreeKeys(f4);
    forall key ensures HasKey(f4, key) <==> key == f4.key {}
    forall key ensures HasKey(f3, key) <==> key == KEY_CEREMONY || key == f4.key {}
    forall key ensures HasKey(f2, key) <==> key == KEY_EXPIRES || HasKey(f3, key) {}
    forall key ensures HasKey(f1, key) <==> key == KEY_CREATED || HasKey(f2, key) {}
    assert DistinctKeys(f3) && PairFreeKeys(f3);
    assert DistinctKeys(f2) && PairFreeKeys(f2);
    assert DistinctKeys(f1) && PairFreeKeys(f1);
  }

  lemma PayloadLookups(c: Challenge)
    ensures var f := PayloadFields(c);
            && Get(f, KEY_CHALLENGE) == Some(JStr(Base64Url.Encode(c.challenge)))
            && Get(f, KEY_CREATED) == Some(JInt(WholeSeconds(c.createdAt)))
            && Get(f, KEY_EXPIRES) == Some(JInt(WholeSeconds(c.expiresAt)))
            && Get(f, KEY_CEREMONY) == Some(JStr(CeremonyName(c)))
            && Get(f, KEY_USER) == (if c.RegistrationChallenge? then Some(JObj(UserFields(c.user))) else None)
            && Get(f, KEY_USER_ID) == if c.RegistrationChallenge? then None
                                      else Some(if c.userId.Some? then JStr(c.userId.value) else JNull)
  {
    KeysApart();
    var f := PayloadFields(c);
    var f4 := Subject(c);
    forall key | key in [KEY_CHALLENGE, KEY_CREATED, KEY_EXPIRES, KEY_CEREMONY, KEY_USER, KEY_USER_ID]
      ensures Get(f, key) == if key == KEY_CHALLENGE then Some(f.value)
                             else if key == KEY_CREATED then Some(f.rest.value)
                             else if key == KEY_EXPIRES then Some(f.rest.rest.value)
                             else if key == KEY_CEREMONY then Some(f.rest.rest.rest.value)
                             else if key == f4.key then Some(f4.value) else None
    {
      assert Get(f4, key) == if key == f4.key then Some(f4.value) else None;
      assert Get(f.rest.rest.rest, key) == if key == KEY_CEREMONY then Some(f.rest.rest.rest.value) else Get(f4, key);
      assert Get(f.rest.rest, key) == if key == KEY_EXPIRES then Some(f.rest.rest.value) else Get(f.rest.rest.rest, key);
      assert Get(f.rest, key) == if key == KEY_CREATED then Some(f.rest.value) else Get(f.rest.rest, key);
    }
  }

  lemma UserLookups(u: User)
    ensures var f := UserFields(u);
            && Get(f, KEY_ID) == Some(JStr(u.id)) && Get(f, KEY_NAME) == Some(JStr(u.name))
            && Get(f, KEY_DISPLAY) == Some(JStr(u.displayName))
            && DistinctKeys(f) && PairFreeKeys(f)
  {
    KeysApart();
    var f := UserFields(u);
    var f2 := f.rest.rest;
    assert f2.rest.Nil? && DistinctKeys(f2) && PairFreeKeys(f2);
    assert !HasKey(f2, KEY_NAME) && !HasKey(f2, KEY_ID);
    assert DistinctKeys(f.rest) && PairFreeKeys(f.rest);
    assert Get(f2, KEY_DISPLAY) == Some(f2.value) && Get(f2, KEY_NAME) == None && Get(f2, KEY_ID) == None;
    assert Get(f.rest, KEY_NAME) == Some(f.rest.value) && Get(f.rest, KEY_ID) == None;
  }

  lemma UserRoundTrip(u: User, sortKeys: bool, challenge: Bytes, created: Instant, expires: Instant)
    ensures var q := Wire(JObj(UserFields(u)), sortKeys);
            && q.JObj? && q.fields.Field?
            && DecodeUser(q.fields, challenge, created, expires)
               == Accepted(RegistrationChallenge(challenge, User(Join(u.id), Join(u.name), Join(u.displayName)), created, expires))
  {
    UserLookups(u);
    GetOnWire(UserFields(u), sortKeys, KEY_ID);
    GetOnWire(UserFields(u), sortKeys, KEY_NAME);
    GetOnWire(UserFields(u), sortKeys, KEY_DISPLAY);
  }

  lemma WireGet(c: Challenge, sortKeys: bool, key: Str, v: Option<JValue>)
    requires Get(PayloadFields(c), key) == v
    ensures Wire(JObj(PayloadFields(c)), sortKeys).JObj?
    ensures Get(Wire(JObj(PayloadFields(c)), sortKeys).fields, key)
            == match v case None => None case Some(x) => Some(Wire(x, sortKeys))
  {
    PayloadIsDict(c);
    GetOnWire(PayloadFields(c), sortKeys, key);
  }

  /** A string or a number of the payload, as it arrives. */
  lemma WireLeaf(c: Challenge, sortKeys: bool, key: Str, v: JValue)
    requires Get(PayloadFields(c), key) == Some(v) && !v.JObj?
    ensures var p := Wire(JObj(PayloadFields(c)), sortKeys);
            p.JObj? && Get(p.fields, key) == Some(if v.JStr? then JStr(Join(v.s)) else v)
  {
    WireGet(c, sortKeys, key, Some(v));
  }

  lemma {:induction false} CeremonyHasNoPair(c: Challenge)
    ensures Join(CeremonyName(c)) == CeremonyName(c)
  {
    ScalarsHaveNoPair(CeremonyName(c));
  }

  lemma WireLookups(c: Challenge, sortKeys: bool)
    ensures var p := Wire(JObj(PayloadFields(c)), sortKeys);
            && p.JObj?
            && Get(p.fields, KEY_CHALLENGE) == Some(JStr(Base64Url.Encode(c.challenge)))
            && Get(p.fields, KEY_CREATED) == Some(JInt(WholeSeconds(c.createdAt)))
            && Get(p.fields, KEY_EXPIRES) == Some(JInt(WholeSeconds(c.expiresAt)))
            && Get(p.fields, KEY_CEREMONY) == Some(JStr(CeremonyName(c)))
  {
    PayloadLookups(c);
    hide *;
    WireLeaf(c, sortKeys, KEY_CHALLENGE, JStr(Base64Url.Encode(c.challenge)));
    EncodedHasNoPair(c.challenge);
    WireLeaf(c, sortKeys, KEY_CREATED, JInt(WholeSeconds(c.createdAt)));
    WireLeaf(c, sortKeys, KEY_EXPIRES, JInt(WholeSeconds(c.expiresAt)));
    WireLeaf(c, sortKeys, KEY_CEREMONY, JStr(CeremonyName(c)));
    CeremonyHasNoPair(c);
  }

  lemma WireSubject(c: Challenge, sortKeys: bool)
    ensures var p := Wire(JObj(PayloadFields(c)), sortKeys);
            && p.JObj?
            && (c.RegistrationChallenge? ==> Get(p.fields, KEY_USER) == Some(Wire(JObj(UserFields(c.user)), sortKeys)))
            && (c.AuthenticationChallenge? ==>
                  Get(p.fields, KEY_USER_ID) == Some(if c.userId.Some? then JStr(Join(c.userId.value)) else JNull))
  {
    PayloadLookups(c);
    hide *;
    if c.RegistrationChallenge? {
      WireGet(c, sortKeys, KEY_USER, Some(JObj(UserFields(c.user))));
    } else {
      WireLeaf(c, sortKeys, KEY_USER_ID, if c.userId.Some? then JStr(c.userId.value) else JNull);
    }
  }

  /** Decoding what was encoded, dumped in either style and loaded again. */
  lemma PayloadRoundTrip(c: Challenge, sortKeys: bool)
    ensures PayloadToChallenge(Wire(JObj(PayloadFields(c)), sortKeys)) == Accepted(Received(c))
  {
    hide Wire, PayloadFields, UserFields, DecodeUser, Get, Join, Base64Url.Encode, Base64Url.Decode, HasPair;
    WireLookups(c, sortKeys);
    WireSubject(c, sortKeys);
    Base64Url.DecodeEncode(c.challenge);
    assert |REGISTER| != |AUTHENTICATE|;
    if c.RegistrationChallenge? {
      UserRoundTrip(c.user, sortKeys, c.challenge, WholeSeconds(c.createdAt) * SECOND, WholeSeconds(c.expiresAt) * SECOND);
    }
  }
}
