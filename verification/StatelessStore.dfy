/**
 `contrib/stateless.py`: a challenge handle that is the challenge itself, signed. The HMAC under the
 store's secret is an arbitrary function from bodies to tags.
 */
module StatelessStore {
  import opened Prelude
  import opened Domain
  import opened Json
  import opened JsonDumps
  import opened Codec
  import Base64Url

  type Mac = Bytes -> Bytes

  const DOT: CodePoint := 0x2E

  /** The JSON text that gets signed. */
  function BodyText(c: Challenge): Str {
    Dumps(JObj(PayloadFields(c)), COMPACT, true)
  }

  lemma BodyTextAscii(c: Challenge)
    ensures Printable(BodyText(c)) && Ascii(BodyText(c))
  {
    PrintPrintable(SortValue(JObj(PayloadFields(c))), COMPACT);
  }

  function Body(c: Challenge): Bytes {
    BodyTextAscii(c);
    AsciiBytes(BodyText(c))
  }

  /** `put`. */
  function Put(c: Challenge, mac: Mac): Str {
    Base64Url.Encode(Body(c)) + [DOT] + Base64Url.Encode(mac(Body(c)))
  }

  /** `handle.split(".", 1)`; without a dot the unpacking fails. */
  function Split(handle: Str): Option<(Str, Str)> {
    if handle == [] then None
    else if handle[0] == DOT then Some(([], handle[1..]))
    else
      var r := Split(handle[1..]);
      if r == None then None else Some(([handle[0]] + r.value.0, r.value.1))
  }

  /** The body and signature a handle presents, however it spells them. */
  function Presented(handle: Str): Option<(Bytes, Bytes)> {
    var parts := Split(handle);
    if parts == None then None
    else
      var body, signature := Base64Url.Decode(parts.value.0), Base64Url.Decode(parts.value.1);
      if body == None || signature == None then None else Some((body.value, signature.value))
  }

  /** `_verify`; bodies that are not ASCII JSON of the modelled fragment count as undecodable. */
  function Verify(handle: Str, mac: Mac): Option<JValue> {
    var p := Presented(handle);
    if p == None || p.value.1 != mac(p.value.0) || !Ascii(p.value.0) then None
    else Loads(AsciiText(p.value.0))
  }

  /** `consume`. */
  function Consume(handle: Str, now: Instant, mac: Mac): Decoded {
    var payload := Verify(handle, mac);
    if payload == None || payload.value.JNull? then Rejected
    else
      var d := PayloadToChallenge(payload.value);
      if d.Accepted? && now > d.challenge.expiresAt then Rejected else d
  }

  // ----- round trip -----

  lemma {:induction false} SplitAtDot(a: Str, b: Str)
    requires DOT !in a
    ensures Split(a + [DOT] + b) == Some((a, b))
  {
    var t := a + [DOT] + b;
    if a == [] {
      assert t == [DOT] + b && t[1..] == b;
    } else {
      assert t[0] == a[0] && t[1..] == a[1..] + [DOT] + b;
      SplitAtDot(a[1..], b);
      assert a == [a[0]] + a[1..];
    }
  }

  lemma PresentedPut(c: Challenge, mac: Mac)
    ensures Presented(Put(c, mac)) == Some((Body(c), mac(Body(c))))
  {
    var a, b := Base64Url.Encode(Body(c)), Base64Url.Encode(mac(Body(c)));
    Base64Url.EncodeShape(Body(c));
    assert forall i :: 0 <= i < |a| ==> Base64Url.InAlphabet(a[i]);
    assert DOT !in a;
    SplitAtDot(a, b);
    Base64Url.DecodeEncode(Body(c));
    Base64Url.DecodeEncode(mac(Body(c)));
  }

  /** A body that was signed by `put` decodes to the challenge as it was received. */
  lemma BodyDecodes(c: Challenge)
    ensures Ascii(Body(c))
    ensures var v := Loads(AsciiText(Body(c)));
            v.Some? && v.value.JObj? && PayloadToChallenge(v.value) == Accepted(Received(c))
  {
    BodyTextAscii(c);
    assert AsciiText(Body(c)) == BodyText(c);
    LoadsDumps(JObj(PayloadFields(c)), COMPACT, true);
    PayloadRoundTrip(c, true);
  }

  /**
   `consume(put(c))` returns the challenge with its times cut to the second until that cut expiry,
   and nothing afterwards, whatever the challenge, the clock and the secret.
   */
  lemma ConsumePut(c: Challenge, now: Instant, mac: Mac)
    ensures Consume(Put(c, mac), now, mac)
            == if now <= WholeSeconds(c.expiresAt) * SECOND then Accepted(Received(c)) else Rejected
  {
    PresentedPut(c, mac);
    ConsumeSigned(Put(c, mac), now, mac, c);
  }

  /** Nothing but the sub-second part of the times is lost, exactly for pair-free subjects before expiry. */
  lemma ConsumePutExactIff(c: Challenge, now: Instant, mac: Mac)
    ensures Consume(Put(c, mac), now, mac) == Accepted(Truncated(c))
            <==> now <= WholeSeconds(c.expiresAt) * SECOND && PairFreeSubject(c)
  {
    ConsumePut(c, now, mac);
    ReceivedIsTruncatedIff(c);
  }

  // ----- distinct challenges, distinct handles -----

  predicate PairFreeKeysDeep(v: JValue) {
    match v
    case JObj(f) => PairFreeKeys(f) && PairFreeKeysDeepFields(f)
    case _ => true
  }

  predicate PairFreeKeysDeepFields(f: Fields) {
    f.Field? ==> PairFreeKeysDeep(f.value) && PairFreeKeysDeepFields(f.rest)
  }

  lemma {:induction false} JoinOfInsert(k: Str, v: JValue, f: Fields)
    requires PairFreeKeys(f) && !HasPair(k)
    ensures JoinFields(Insert(k, v, f)) == Insert(k, JoinValue(v), JoinFields(f))
  {
    JoinFixedIff(k);
    if f.Field? {
      JoinFixedIff(f.key);
      JoinOfInsert(k, v, f.rest);
    }
  }

  lemma {:induction false} JoinCommutesWithSort(v: JValue)
    requires PairFreeKeysDeep(v)
    ensures JoinValue(SortValue(v)) == SortValue(JoinValue(v))
    decreases v, 1
  {
    if v.JObj? {
      JoinCommutesWithSortFields(v.fields);
    }
  }

  lemma {:induction false} JoinCommutesWithSortFields(f: Fields)
    requires PairFreeKeys(f) && PairFreeKeysDeepFields(f)
    ensures JoinFields(SortFields(f)) == SortFields(JoinFields(f))
    decreases f, 0
  {
    if f.Field? {
      JoinCommutesWithSort(f.value);
      JoinCommutesWithSortFields(f.rest);
      PairFreeKeysOfSorted(f.rest);
      JoinOfInsert(f.key, SortValue(f.value), SortFields(f.rest));
      JoinFixedIff(f.key);
    }
  }

  lemma JoinStep(f: Fields)
    requires f.Field? && PairFreeKeys(f)
    ensures JoinFields(f) == Field(f.key, JoinValue(f.value), JoinFields(f.rest))
    ensures PairFreeKeys(f.rest)
  {
    JoinFixedIff(f.key);
  }

  lemma UserOfReceived(u: User)
    ensures JoinFields(UserFields(u)) == UserFields(User(Join(u.id), Join(u.name), Join(u.displayName)))
    ensures PairFreeKeys(UserFields(u)) && PairFreeKeysDeepFields(UserFields(u))
  {
    UserLookups(u);
    var f := UserFields(u);
    JoinStep(f);
    JoinStep(f.rest);
    JoinStep(f.rest.rest);
    assert f.rest.rest.rest.Nil? && PairFreeKeysDeepFields(f.rest.rest.rest);
    assert PairFreeKeysDeepFields(f.rest.rest);
    assert PairFreeKeysDeepFields(f.rest);
  }

  lemma SubjectOfReceived(c: Challenge)
    ensures PairFreeKeys(Subject(c)) && PairFreeKeysDeepFields(Subject(c))
    ensures Subject(Received(c)) == JoinFields(Subject(c))
  {
    PayloadIsDict(c);
    assert PairFreeKeys(PayloadFields(c).rest.rest);
    assert PairFreeKeys(PayloadFields(c).rest.rest.rest.rest);
    JoinStep(Subject(c));
    if c.RegistrationChallenge? {
      UserOfReceived(c.user);
    }
  }

  lemma PayloadKeysPairFree(c: Challenge)
    ensures PairFreeKeysDeep(JObj(PayloadFields(c)))
  {
    var f := PayloadFields(c);
    PayloadIsDict(c);
    SubjectOfReceived(c);
    assert f.rest.rest.rest.rest == Subject(c);
    assert PairFreeKeysDeepFields(f.rest.rest.rest) && PairFreeKeysDeepFields(f.rest.rest);
    assert PairFreeKeysDeepFields(f.rest);
  }

  lemma {:induction false} CeremonyOfReceived(c: Challenge)
    ensures JoinValue(JStr(CeremonyName(c))) == JStr(CeremonyName(Received(c)))
  {
    var name := CeremonyName(c);
    assert ScalarValues(name);
    ScalarsHaveNoPair(name);
    assert JoinValue(JStr(name)) == JStr(Join(name));
  }

  lemma LeavesOfReceived(c: Challenge)
    ensures JoinValue(JStr(Base64Url.Encode(c.challenge))) == JStr(Base64Url.Encode(Received(c).challenge))
    ensures JoinValue(JInt(WholeSeconds(c.createdAt))) == JInt(WholeSeconds(Received(c).createdAt))
    ensures JoinValue(JInt(WholeSeconds(c.expiresAt))) == JInt(WholeSeconds(Received(c).expiresAt))
  {
    EncodedHasNoPair(c.challenge);
  }

  /** The payload of the received challenge is the received payload. */
  lemma PayloadOfReceived(c: Challenge)
    ensures PayloadFields(Received(c)) == JoinFields(PayloadFields(c))
  {
    var f := PayloadFields(c);
    PayloadIsDict(c);
    var f1, f2, f3 := f.rest, f.rest.rest, f.rest.rest.rest;
    JoinStep(f);
    JoinStep(f1);
    JoinStep(f2);
    JoinStep(f3);
    SubjectOfReceived(c);
    LeavesOfReceived(c);
    CeremonyOfReceived(c);
    var r := PayloadFields(Received(c));
    assert JoinFields(f3) == r.rest.rest.rest;
    assert JoinFields(f2) == r.rest.rest;
    assert JoinFields(f1) == r.rest;
  }

  lemma BodyTextOfReceived(c: Challenge)
    ensures BodyText(c) == Print(SortValue(JObj(PayloadFields(Received(c)))), COMPACT)
  {
    var p := JObj(PayloadFields(c));
    PayloadOfReceived(c);
    PayloadKeysPairFree(c);
    JoinCommutesWithSort(p);
    PrintOfJoin(SortValue(p), COMPACT);
  }

  /** Two challenges get the same handle exactly when they are received alike. */
  lemma HandlesSeparate(c: Challenge, d: Challenge, mac: Mac)
    ensures Put(c, mac) == Put(d, mac) <==> Received(c) == Received(d)
  {
    if Put(c, mac) == Put(d, mac) {
      ConsumePut(c, 0, mac);
      ConsumePut(d, 0, mac);
    }
    if Received(c) == Received(d) {
      BodyTextOfReceived(c);
      BodyTextOfReceived(d);
    }
  }

  /** Whatever spelling presents a signed body with its tag is redeemed like the handle that `put` issued. */
  lemma ConsumeSigned(handle: Str, now: Instant, mac: Mac, c: Challenge)
    requires Presented(handle) == Some((Body(c), mac(Body(c))))
    ensures Consume(handle, now, mac)
            == if now <= WholeSeconds(c.expiresAt) * SECOND then Accepted(Received(c)) else Rejected
    ensures WholeSeconds(c.expiresAt) * SECOND <= c.expiresAt
  {
    BodyDecodes(c);
  }

  lemma ConsumeUnsigned(handle: Str, now: Instant, mac: Mac)
    requires Presented(handle).Some? ==> Presented(handle).value.1 != mac(Presented(handle).value.0)
    ensures Consume(handle, now, mac) == Rejected
  {
  }

  // ----- soundness over runs, under an ideal MAC -----

  datatype Call = PutCall(challenge: Challenge) | ConsumeCall(handle: Str, now: Instant)

  /** `c` was passed to `put` before call `i`. */
  ghost predicate PutBefore(calls: seq<Call>, i: nat, c: Challenge)
    requires i <= |calls|
  {
    exists j :: 0 <= j < i && calls[j] == PutCall(c)
  }

  /**
   An ideal MAC: whoever assembles the handles can present a valid tag only for bodies the store has
   already signed.
   */
  ghost predicate Unforgeable(calls: seq<Call>, mac: Mac) {
    forall i :: 0 <= i < |calls| && calls[i].ConsumeCall? ==>
      var p := Presented(calls[i].handle);
      p.Some? && p.value.1 == mac(p.value.0) ==> exists c :: PutBefore(calls, i, c) && Body(c) == p.value.0
  }

  /**
   Every handle the store accepts, however the client encoded it, yields an earlier challenge as
   received (so with its ceremony and subject), no later than that challenge's expiry; and no handle
   makes the decoder leave the modelled domain.
   */
  lemma {:induction false} AcceptedWasPut(calls: seq<Call>, mac: Mac, i: nat) returns (c: Challenge)
    requires Unforgeable(calls, mac)
    requires i < |calls| && calls[i].ConsumeCall?
    ensures !Consume(calls[i].handle, calls[i].now, mac).Unmodelled?
    ensures Consume(calls[i].handle, calls[i].now, mac).Accepted? ==>
              && PutBefore(calls, i, c)
              && Consume(calls[i].handle, calls[i].now, mac) == Accepted(Received(c))
              && calls[i].now <= WholeSeconds(c.expiresAt) * SECOND <= c.expiresAt
  {
    hide Consume, Presented, Body, Received;
    var p := Presented(calls[i].handle);
    if p.Some? && p.value.1 == mac(p.value.0) {
      c :| PutBefore(calls, i, c) && Body(c) == p.value.0;
      ConsumeSigned(calls[i].handle, calls[i].now, mac, c);
    } else {
      ConsumeUnsigned(calls[i].handle, calls[i].now, mac);
      c :| true;
    }
  }
}
