/** The texts that leave the process, written out: payloads, tokens, and what the decoder takes for a challenge. */
module WireText {
  import opened Prelude
  import opened Domain
  import opened Json
  import opened JsonDumps
  import opened Codec
  import opened JsonText
  import Base64Url
  import RedisStore
  import S = StatelessStore

  lemma Names()
    ensures KEY_CHALLENGE == Lit("c") && KEY_CREATED == Lit("iat") && KEY_EXPIRES == Lit("exp") && KEY_CEREMONY == Lit("k")
    ensures KEY_USER == Lit("u") && KEY_USER_ID == Lit("uid")
    ensures Codec.KEY_ID == Lit("id") && KEY_NAME == Lit("n") && KEY_DISPLAY == Lit("d")
    ensures REGISTER == Lit("register") && AUTHENTICATE == Lit("authenticate")
  {
  }

  lemma EncodedIsPlain(data: Bytes)
    ensures Plain(Base64Url.Encode(data))
  {
    Base64Url.EncodeShape(data);
  }

  function Quoted(text: Str): Str {
    Lit("\"") + text + Lit("\"")
  }

  /** Whole seconds since the epoch, as a numeral. */
  function Seconds(t: Instant): Str {
    Decimal(t / 1_000_000)
  }

  function OptionalText(s: Option<Str>): Str {
    if s == None then Lit("null") else Quote(s.value)
  }

  lemma PlainText(text: Str, st: Style)
    requires Plain(text)
    ensures Print(JStr(text), st) == Quoted(text)
  {
    hide EscapeAll;
    PlainIsItself(text);
  }

  lemma NumberText(t: Instant, st: Style)
    ensures Print(JInt(WholeSeconds(t)), st) == Seconds(t)
  {
    hide Decimal;
  }

  lemma CeremonyText(st: Style)
    ensures Print(JStr(REGISTER), st) == Lit("\"register\"") && Print(JStr(AUTHENTICATE), st) == Lit("\"authenticate\"")
  {
    Names();
    hide Print;
    PlainText(Lit("register"), st);
    PlainText(Lit("authenticate"), st);
    QuotedWords();
  }

  lemma QuotedWords()
    ensures Quoted(Lit("register")) == Lit("\"register\"") && Quoted(Lit("authenticate")) == Lit("\"authenticate\"")
  {
  }

  // ----- the signed body: sorted and compact -----

  function UserBody(u: User): Str {
    Lit("{") + Item("d", "", Quote(u.displayName), Lit(",") + Item("id", "", Quote(u.id), Lit(",") + Item("n", "", Quote(u.name), Lit("}"))))
  }

  lemma KeyOrder()
    ensures LexLess(Lit("c"), Lit("exp")) && LexLess(Lit("exp"), Lit("iat")) && LexLess(Lit("iat"), Lit("k"))
    ensures LexLess(Lit("c"), Lit("iat")) && LexLess(Lit("c"), Lit("k")) && LexLess(Lit("exp"), Lit("k"))
    ensures LexLess(Lit("k"), Lit("u")) && LexLess(Lit("k"), Lit("uid"))
    ensures !LexLess(Lit("exp"), Lit("c")) && !LexLess(Lit("iat"), Lit("exp")) && !LexLess(Lit("k"), Lit("exp")) && !LexLess(Lit("u"), Lit("k")) && !LexLess(Lit("uid"), Lit("k"))
    ensures LexLess(Lit("d"), Lit("id")) && !LexLess(Lit("n"), Lit("d")) && LexLess(Lit("d"), Lit("n")) && LexLess(Lit("id"), Lit("n"))
    ensures !LexLess(Lit("d"), Lit("d")) && !LexLess(Lit("id"), Lit("d")) && !LexLess(Lit("n"), Lit("id"))
    ensures !LexLess(Lit("iat"), Lit("c")) && !LexLess(Lit("k"), Lit("iat"))
  {
  }

  lemma SortedUser(u: User)
    ensures SortFields(UserFields(u))
            == Field(Lit("d"), JStr(u.displayName), Field(Lit("id"), JStr(u.id), Field(Lit("n"), JStr(u.name), Nil)))
  {
    Names();
    KeyOrder();
    hide LexLess;
    var f := UserFields(u);
    assert SortFields(f.rest.rest.rest) == Nil;
    assert SortFields(f.rest.rest) == Field(Lit("d"), JStr(u.displayName), Nil);
    assert Insert(Lit("n"), JStr(u.name), Nil) == Field(Lit("n"), JStr(u.name), Nil);
    assert SortFields(f.rest) == Insert(Lit("n"), JStr(u.name), SortFields(f.rest.rest));
    assert SortFields(f.rest) == Field(Lit("d"), JStr(u.displayName), Field(Lit("n"), JStr(u.name), Nil));
    assert Insert(Lit("id"), JStr(u.id), SortFields(f.rest).rest) == Field(Lit("id"), JStr(u.id), SortFields(f.rest).rest);
    assert SortFields(f) == Insert(Lit("id"), JStr(u.id), SortFields(f.rest));
  }

  lemma SortedPayload(c: Challenge, last: Fields)
    requires last.Field? && last.rest == Nil && last.key in [Lit("u"), Lit("uid")]
    requires last.key == Subject(c).key && last.value == SortValue(Subject(c).value)
    ensures SortFields(PayloadFields(c))
            == Field(Lit("c"), JStr(Base64Url.Encode(c.challenge)), Field(Lit("exp"), JInt(WholeSeconds(c.expiresAt)),
                 Field(Lit("iat"), JInt(WholeSeconds(c.createdAt)), Field(Lit("k"), JStr(CeremonyName(c)), last))))
  {
    Names();
    KeyOrder();
    hide LexLess;
    var f := PayloadFields(c);
    var f1, f2, f3, f4 := f.rest, f.rest.rest, f.rest.rest.rest, f.rest.rest.rest.rest;
    assert f4 == Subject(c) && f4.rest == Nil;
    assert SortFields(f4) == last;
    assert SortFields(f3) == Field(Lit("k"), JStr(CeremonyName(c)), last);
    assert SortFields(f2) == Field(Lit("exp"), f2.value, SortFields(f3));
    assert Insert(Lit("iat"), f1.value, SortFields(f3)) == Field(Lit("iat"), f1.value, SortFields(f3));
    assert SortFields(f1) == Insert(Lit("iat"), f1.value, SortFields(f2));
    assert SortFields(f1) == Field(Lit("exp"), f2.value, Field(Lit("iat"), f1.value, SortFields(f3)));
  }

  /** The text that a registration's challenge is signed as. */
  function RegistrationBody(c: Challenge): Str
    requires c.RegistrationChallenge?
  {
    Lit("{") + Item("c", "", Quoted(Base64Url.Encode(c.challenge)), Lit(",") +
      Item("exp", "", Seconds(c.expiresAt), Lit(",") +
        Item("iat", "", Seconds(c.createdAt), Lit(",") +
          Item("k", "", Lit("\"register\""), Lit(",") +
            Item("u", "", UserBody(c.user), Lit("}"))))))
  }

  /** The text that a login's challenge is signed as. */
  function LoginBody(c: Challenge): Str
    requires c.AuthenticationChallenge?
  {
    Lit("{") + Item("c", "", Quoted(Base64Url.Encode(c.challenge)), Lit(",") +
      Item("exp", "", Seconds(c.expiresAt), Lit(",") +
        Item("iat", "", Seconds(c.createdAt), Lit(",") +
          Item("k", "", Lit("\"authenticate\""), Lit(",") +
            Item("uid", "", OptionalText(c.userId), Lit("}"))))))
  }

  lemma UserBodyIs(u: User)
    ensures Print(SortValue(JObj(UserFields(u))), COMPACT) == UserBody(u)
  {
    SortedUser(u);
    hide SortFields, Item, Quote, UserFields;
    var f3 := Field(Lit("n"), JStr(u.name), Nil);
    var f2 := Field(Lit("id"), JStr(u.id), f3);
    var f1 := Field(Lit("d"), JStr(u.displayName), f2);
    TextOf(u.name, COMPACT);
    TextOf(u.id, COMPACT);
    TextOf(u.displayName, COMPACT);
    ItemText("n", JStr(u.name), Nil, COMPACT, "");
    ItemText("id", JStr(u.id), f3, COMPACT, "");
    ItemText("d", JStr(u.displayName), f2, COMPACT, "");
    DictText(f1, COMPACT);
    hide Print, PrintMembers;
    NoGap();
  }

  lemma TextOf(s: Str, st: Style)
    ensures Print(JStr(s), st) == Quote(s)
  {
  }

  lemma NoGap()
    ensures forall rest: Str :: Lit(",") + Lit("") + rest == Lit(",") + rest
  {
    assert Lit("") == [];
    forall rest: Str ensures Lit(",") + Lit("") + rest == Lit(",") + rest {
      assert Lit(",") + Lit("") == Lit(",");
    }
  }

  /** The last two items, printed. */
  lemma CeremonyAndLast(name: Str, last: Fields, ceremony: Str)
    requires last.Field? && Print(JStr(name), COMPACT) == ceremony
    ensures PrintMembers(Field(Lit("k"), JStr(name), last), COMPACT)
            == Item("k", "", ceremony, Lit(",") + PrintMembers(last, COMPACT))
  {
    hide Print, PrintMembers, Item;
    NoGap();
    ItemText("k", JStr(name), last, COMPACT, "");
  }

  lemma TimesText(exp: JValue, iat: JValue, rest: Fields)
    requires rest.Field?
    ensures PrintMembers(Field(Lit("exp"), exp, Field(Lit("iat"), iat, rest)), COMPACT)
            == Item("exp", "", Print(exp, COMPACT), Lit(",") + Item("iat", "", Print(iat, COMPACT), Lit(",") + PrintMembers(rest, COMPACT)))
  {
    hide Print, PrintMembers, Item;
    NoGap();
    ItemText("iat", iat, rest, COMPACT, "");
    ItemText("exp", exp, Field(Lit("iat"), iat, rest), COMPACT, "");
  }

  lemma ChallengeItem(data: Bytes, rest: Fields)
    requires rest.Field?
    ensures Print(JObj(Field(Lit("c"), JStr(Base64Url.Encode(data)), rest)), COMPACT)
            == Lit("{") + Item("c", "", Quoted(Base64Url.Encode(data)), Lit(",") + PrintMembers(rest, COMPACT))
  {
    EncodedIsPlain(data);
    hide Item, Quote, Base64Url.Encode, Plain;
    PlainText(Base64Url.Encode(data), COMPACT);
    ItemText("c", JStr(Base64Url.Encode(data)), rest, COMPACT, "");
    DictText(Field(Lit("c"), JStr(Base64Url.Encode(data)), rest), COMPACT);
    hide Print, PrintMembers;
    NoGap();
  }

  /** The four common items before the last, printed. */
  lemma CommonText(c: Challenge, last: Fields, ceremony: Str)
    requires last.Field? && last.rest == Nil
    requires Print(JStr(CeremonyName(c)), COMPACT) == ceremony
    ensures Print(JObj(Field(Lit("c"), JStr(Base64Url.Encode(c.challenge)), Field(Lit("exp"), JInt(WholeSeconds(c.expiresAt)),
                    Field(Lit("iat"), JInt(WholeSeconds(c.createdAt)), Field(Lit("k"), JStr(CeremonyName(c)), last))))), COMPACT)
            == Lit("{") + Item("c", "", Quoted(Base64Url.Encode(c.challenge)), Lit(",") +
                 Item("exp", "", Seconds(c.expiresAt), Lit(",") +
                   Item("iat", "", Seconds(c.createdAt), Lit(",") +
                     Item("k", "", ceremony, Lit(",") + PrintMembers(last, COMPACT)))))
  {
    hide *;
    NumberText(c.expiresAt, COMPACT);
    NumberText(c.createdAt, COMPACT);
    var f4 := Field(Lit("k"), JStr(CeremonyName(c)), last);
    CeremonyAndLast(CeremonyName(c), last, ceremony);
    TimesText(JInt(WholeSeconds(c.expiresAt)), JInt(WholeSeconds(c.createdAt)), f4);
    ChallengeItem(c.challenge, Field(Lit("exp"), JInt(WholeSeconds(c.expiresAt)), Field(Lit("iat"), JInt(WholeSeconds(c.createdAt)), f4)));
  }

  /** What the stateless store signs, character for character. */
  lemma BodyIs(c: Challenge)
    ensures c.RegistrationChallenge? ==> S.BodyText(c) == RegistrationBody(c)
    ensures c.AuthenticationChallenge? ==> S.BodyText(c) == LoginBody(c)
  {
    Names();
    CeremonyText(COMPACT);
    hide Print, PrintMembers, Item, Quote, SortFields, Base64Url.Encode, UserBody;
    if c.RegistrationChallenge? {
      var last := Field(Lit("u"), SortValue(JObj(UserFields(c.user))), Nil);
      SortedPayload(c, last);
      CommonText(c, last, Lit("\"register\""));
      UserBodyIs(c.user);
      ItemText("u", last.value, Nil, COMPACT, "");
    } else {
      var last := Field(Lit("uid"), if c.userId.Some? then JStr(c.userId.value) else JNull, Nil);
      SortedPayload(c, last);
      CommonText(c, last, Lit("\"authenticate\""));
      OptionalIs(c.userId);
      ItemText("uid", last.value, Nil, COMPACT, "");
    }
  }

  lemma OptionalIs(s: Option<Str>)
    ensures Print(if s.Some? then JStr(s.value) else JNull, COMPACT) == OptionalText(s)
  {
    Constants(COMPACT);
  }

  /** A handle of the stateless store: the signed body and its tag, in base64url, a dot between them. */
  lemma TokenIs(c: Challenge, mac: S.Mac)
    ensures S.Put(c, mac) == Base64Url.Encode(S.Body(c)) + Lit(".") + Base64Url.Encode(mac(S.Body(c)))
    ensures AsciiText(S.Body(c)) == S.BodyText(c)
  {
    assert [S.DOT] == Lit(".");
    S.BodyTextAscii(c);
  }

  // ----- the payload in Redis: in insertion order and spaced -----

  function UserEntry(u: User): Str {
    Lit("{") + Item("id", " ", Quote(u.id), Lit(",") + Lit(" ") +
      Item("n", " ", Quote(u.name), Lit(",") + Lit(" ") + Item("d", " ", Quote(u.displayName), Lit("}"))))
  }

  function EntryText(c: Challenge): Str {
    Lit("{") + Item("c", " ", Quoted(Base64Url.Encode(c.challenge)), Lit(",") + Lit(" ") +
      Item("iat", " ", Seconds(c.createdAt), Lit(",") + Lit(" ") +
        Item("exp", " ", Seconds(c.expiresAt), Lit(",") + Lit(" ") +
          Item("k", " ", if c.RegistrationChallenge? then Lit("\"register\"") else Lit("\"authenticate\""), Lit(",") + Lit(" ") +
            if c.RegistrationChallenge? then Item("u", " ", UserEntry(c.user), Lit("}"))
            else Item("uid", " ", OptionalText(c.userId), Lit("}"))))))
  }

  lemma UserEntryIs(u: User)
    ensures Print(JObj(UserFields(u)), SPACED) == UserEntry(u)
  {
    Names();
    var f := UserFields(u);
    hide Item, Quote;
    TextOf(u.name, SPACED);
    TextOf(u.id, SPACED);
    TextOf(u.displayName, SPACED);
    ItemText("d", JStr(u.displayName), Nil, SPACED, " ");
    ItemText("n", JStr(u.name), f.rest.rest, SPACED, " ");
    ItemText("id", JStr(u.id), f.rest, SPACED, " ");
    DictText(f, SPACED);
    hide Print, PrintMembers;
  }

  lemma LastEntryIs(c: Challenge)
    ensures PrintMembers(Subject(c), SPACED)
            == if c.RegistrationChallenge? then Item("u", " ", UserEntry(c.user), Lit("}"))
               else Item("uid", " ", OptionalText(c.userId), Lit("}"))
  {
    Names();
    hide Item, Quote, UserEntry;
    if c.RegistrationChallenge? {
      UserEntryIs(c.user);
      ItemText("u", JObj(UserFields(c.user)), Nil, SPACED, " ");
    } else {
      Constants(SPACED);
      ItemText("uid", if c.userId.Some? then JStr(c.userId.value) else JNull, Nil, SPACED, " ");
    }
  }

  /** What the Redis store writes, character for character, and how long it lives, in microseconds. */
  lemma EntryIs(c: Challenge, now: Instant)
    ensures RedisStore.PutEntry(c, now).text == EntryText(c)
    ensures RedisStore.PutEntry(c, now).deadline
            == now + (if c.expiresAt >= now + 1_000_000 then (c.expiresAt - now) / 1_000_000 * 1_000_000 else 1_000_000)
  {
    Names();
    CeremonyText(SPACED);
    LastEntryIs(c);
    EncodedIsPlain(c.challenge);
    hide Item, Quote, Base64Url.Encode, Plain, UserEntry, Subject;
    var f := PayloadFields(c);
    PlainText(Base64Url.Encode(c.challenge), SPACED);
    NumberText(c.expiresAt, SPACED);
    NumberText(c.createdAt, SPACED);
    SubjectIsField(c);
    ItemText("k", JStr(CeremonyName(c)), Subject(c), SPACED, " ");
    ItemText("exp", f.rest.rest.value, f.rest.rest.rest, SPACED, " ");
    ItemText("iat", f.rest.value, f.rest.rest, SPACED, " ");
    ItemText("c", f.value, f.rest, SPACED, " ");
    DictText(f, SPACED);
    hide Print, PrintMembers;
  }

  lemma SubjectIsField(c: Challenge)
    ensures Subject(c).Field?
  {
  }

  // ----- what is taken for a challenge -----

  /** A whole number of seconds since the epoch, in microseconds. */
  predicate IsTime(v: Option<JValue>, t: Instant) {
    v.Some? && v.value.JInt? && v.value.n >= 0 && t == v.value.n * 1_000_000
  }

  predicate IsText(v: Option<JValue>, s: Str) {
    v == Some(JStr(s))
  }

  /** The payload spells exactly this challenge. */
  predicate Means(p: JValue, c: Challenge) {
    && p.JObj?
    && IsTime(Get(p.fields, Lit("iat")), c.createdAt) && IsTime(Get(p.fields, Lit("exp")), c.expiresAt)
    && var code := Get(p.fields, Lit("c"));
    && code.Some? && code.value.JStr? && Base64Url.Decode(code.value.s) == Some(c.challenge)
    && match c
       case RegistrationChallenge(_, user, _, _) =>
         && IsText(Get(p.fields, Lit("k")), Lit("register"))
         && var u := Get(p.fields, Lit("u"));
         && u.Some? && u.value.JObj?
         && IsText(Get(u.value.fields, Lit("id")), user.id) && IsText(Get(u.value.fields, Lit("n")), user.name)
         && IsText(Get(u.value.fields, Lit("d")), user.displayName)
       case AuthenticationChallenge(_, userId, _, _) =>
         && IsText(Get(p.fields, Lit("k")), Lit("authenticate"))
         && var uid := Get(p.fields, Lit("uid"));
            if userId.Some? then IsText(uid, userId.value) else uid == None || uid == Some(JNull)
  }

  /** The decoder returns a challenge exactly if the payload spells it. */
  lemma DecodesIff(p: JValue, c: Challenge)
    ensures PayloadToChallenge(p) == Accepted(c) <==> Means(p, c)
  {
    Names();
    DifferentWords();
    hide Get, Base64Url.Decode, KEY_CHALLENGE, KEY_CREATED, KEY_EXPIRES, KEY_CEREMONY, KEY_USER, KEY_USER_ID, KEY_NAME, KEY_DISPLAY,
         REGISTER, AUTHENTICATE;
    if p.JObj? {
      var u := Get(p.fields, Lit("u"));
      if u.Some? && u.value.JObj? {
        EmptyHasNothing(u.value.fields);
      }
    }
  }

  /** A payload that no challenge can be read from, with the errors that the decoder catches. */
  predicate Unreadable(p: JValue) {
    || !p.JObj?
    || var f := p.fields;
       var iat, exp, c, k := Get(f, Lit("iat")), Get(f, Lit("exp")), Get(f, Lit("c")), Get(f, Lit("k"));
       || iat == None || exp == None || c == None || k == None
       || !(iat.value.JInt? || iat.value.JBool?) || !(exp.value.JInt? || exp.value.JBool?)
       || !c.value.JStr? || Base64Url.Decode(c.value.s) == None
       || (k.value != JStr(Lit("register")) && k.value != JStr(Lit("authenticate")))
       || (iat.value.JInt? && exp.value.JInt? && iat.value.n >= 0 && exp.value.n >= 0 && k.value == JStr(Lit("register"))
           && LacksUser(Get(f, Lit("u"))))
  }

  predicate LacksUser(u: Option<JValue>) {
    u == None || !Truthy(u.value)
    || (u.value.JObj? && (Get(u.value.fields, Lit("id")) == None || Get(u.value.fields, Lit("n")) == None
                          || Get(u.value.fields, Lit("d")) == None))
  }

  /** The decoder returns `None` exactly for those. */
  lemma RejectsIff(p: JValue)
    ensures PayloadToChallenge(p) == Rejected <==> Unreadable(p)
  {
    Names();
    DifferentWords();
    hide Get, Base64Url.Decode, KEY_CHALLENGE, KEY_CREATED, KEY_EXPIRES, KEY_CEREMONY, KEY_USER, KEY_USER_ID, KEY_NAME, KEY_DISPLAY,
         REGISTER, AUTHENTICATE;
  }

  lemma DifferentWords()
    ensures Lit("register") != Lit("authenticate")
  {
    assert |Lit("register")| != |Lit("authenticate")|;
  }

  lemma EmptyHasNothing(f: Fields)
    ensures Get(f, Lit("id")).Some? ==> Truthy(JObj(f))
  {
  }
}
