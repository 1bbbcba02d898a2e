/**
 The fragment of JSON (RFC 8259) that challenge payloads, client data and ceremony responses use,
 printed as `json.dumps` prints it with its default ASCII-only output and parsed as `json.loads`
 parses it: null, booleans, integers, strings and nested objects.
 */
module Json {
  import opened Prelude

  datatype JValue =
    | JNull
    | JBool(b: bool)
    | JInt(n: int)
    | JStr(s: Str)
    | JObj(fields: Fields)

  /** The items of a dict in insertion order. */
  datatype Fields = Nil | Field(key: Str, value: JValue, rest: Fields)

  /** Dict lookup; parsing keeps the last of two equal keys. */
  function Get(f: Fields, key: Str): Option<JValue> {
    match f
    case Nil => None
    case Field(k, v, rest) =>
      var later := Get(rest, key);
      if later.Some? then later else if k == key then Some(v) else None
  }

  predicate HasKey(f: Fields, key: Str) {
    f.Field? && (f.key == key || HasKey(f.rest, key))
  }

  predicate DistinctKeys(f: Fields) {
    f.Field? ==> !HasKey(f.rest, f.key) && DistinctKeys(f.rest)
  }

  /** Truth value of a loaded value in a Python condition. */
  predicate Truthy(v: JValue) {
    match v
    case JNull => false
    case JBool(b) => b
    case JInt(n) => n != 0
    case JStr(s) => s != []
    case JObj(f) => f.Field?
  }

  const QUOTE: CodePoint := 0x22
  const BACKSLASH: CodePoint := 0x5C
  const LBRACE: CodePoint := 0x7B
  const RBRACE: CodePoint := 0x7D
  const COMMA: CodePoint := 0x2C
  const COLON: CodePoint := 0x3A
  const MINUS: CodePoint := 0x2D
  const LOWER_U: CodePoint := 0x75

  const NULL_TEXT: Str := [0x6E, 0x75, 0x6C, 0x6C]
  const TRUE_TEXT: Str := [0x74, 0x72, 0x75, 0x65]
  const FALSE_TEXT: Str := [0x66, 0x61, 0x6C, 0x73, 0x65]

  predicate IsHigh(c: CodePoint) {
    0xD800 <= c < 0xDC00
  }

  predicate IsLow(c: CodePoint) {
    0xDC00 <= c < 0xE000
  }

  function JoinPair(high: CodePoint, low: CodePoint): (c: CodePoint)
    requires IsHigh(high) && IsLow(low)
  {
    0x10000 + (high - 0xD800) * 0x400 + (low - 0xDC00)
  }

  // ----- printing -----

  function HexDigit(n: int): CodePoint
    requires 0 <= n < 16
  {
    if n < 10 then 0x30 + n else 0x61 + (n - 10)
  }

  function UnicodeEscape(n: int): Str
    requires 0 <= n < 0x10000
  {
    [BACKSLASH, LOWER_U, HexDigit(n / 4096), HexDigit(n / 256 % 16), HexDigit(n / 16 % 16), HexDigit(n % 16)]
  }

  /** One code point inside a string literal, `ensure_ascii` style. */
  function Escape(c: CodePoint): Str {
    if c == QUOTE || c == BACKSLASH then [BACKSLASH, c]
    else if c == 0x0A then [BACKSLASH, 0x6E]
    else if c == 0x0D then [BACKSLASH, 0x72]
    else if c == 0x09 then [BACKSLASH, 0x74]
    else if c == 0x0C then [BACKSLASH, 0x66]
    else if c == 0x08 then [BACKSLASH, 0x62]
    else if 0x20 <= c <= 0x7E then [c]
    else if c < 0x10000 then UnicodeEscape(c)
    else UnicodeEscape(0xD800 + (c - 0x10000) / 0x400) + UnicodeEscape(0xDC00 + (c - 0x10000) % 0x400)
  }

  function EscapeAll(s: Str): Str {
    if s == [] then [] else Escape(s[0]) + EscapeAll(s[1..])
  }

  function Quote(s: Str): Str {
    [QUOTE] + EscapeAll(s) + [QUOTE]
  }

  function Decimal(n: nat): Str {
    if n < 10 then [0x30 + n] else Decimal(n / 10) + [0x30 + n % 10]
  }

  function PrintInt(n: int): Str {
    if n < 0 then [MINUS] + Decimal(-n) else Decimal(n)
  }

  /** The two `separators` of `json.dumps`, each a delimiter followed by optional white space. */
  datatype Style = Style(afterItem: Str, afterKey: Str)

  const COMPACT: Style := Style([], [])
  const SPACED: Style := Style([0x20], [0x20])

  predicate ValidStyle(st: Style) {
    AllSpace(st.afterItem) && AllSpace(st.afterKey)
  }

  function Print(v: JValue, st: Style): Str {
    match v
    case JNull => NULL_TEXT
    case JBool(b) => if b then TRUE_TEXT else FALSE_TEXT
    case JInt(n) => PrintInt(n)
    case JStr(s) => Quote(s)
    case JObj(f) => [LBRACE] + (if f.Nil? then [RBRACE] else PrintMembers(f, st))
  }

  /** Everything after the opening brace, the closing one included. */
  function PrintMembers(f: Fields, st: Style): Str
    requires f.Field?
  {
    Quote(f.key) + [COLON] + st.afterKey + Print(f.value, st)
    + (if f.rest.Nil? then [RBRACE] else [COMMA] + st.afterItem + PrintMembers(f.rest, st))
  }

  // ----- parsing -----

  predicate IsSpace(c: CodePoint) {
    c == 0x20 || c == 0x09 || c == 0x0A || c == 0x0D
  }

  predicate AllSpace(s: Str) {
    forall i :: 0 <= i < |s| ==> IsSpace(s[i])
  }

  function SkipSpace(t: Str): (r: Str)
    ensures |r| <= |t|
  {
    if t != [] && IsSpace(t[0]) then SkipSpace(t[1..]) else t
  }

  function HexValue(c: CodePoint): (r: Option<nat>)
    ensures r.Some? ==> r.value < 16
  {
    if 0x30 <= c <= 0x39 then Some(c - 0x30)
    else if 0x61 <= c <= 0x66 then Some(c - 0x61 + 10)
    else if 0x41 <= c <= 0x46 then Some(c - 0x41 + 10)
    else None
  }

  function HexQuad(t0: CodePoint, t1: CodePoint, t2: CodePoint, t3: CodePoint): (r: Option<CodePoint>)
    ensures r.Some? ==> r.value < 0x10000
  {
    var a, b, c, d := HexValue(t0), HexValue(t1), HexValue(t2), HexValue(t3);
    if a.Some? && b.Some? && c.Some? && d.Some?
    then Some(a.value * 4096 + b.value * 256 + c.value * 16 + d.value)
    else None
  }

  /** The four hexadecimal digits of a `\u` escape. */
  function Hex4(t: Str): (r: Option<CodePoint>)
    ensures r.Some? ==> |t| >= 4 && r.value < 0x10000
  {
    if |t| < 4 then None else HexQuad(t[0], t[1], t[2], t[3])
  }

  /** `t` begins with a `\u` escape of a low surrogate. */
  function LowEscape(t: Str): (r: Option<CodePoint>)
    ensures r.Some? ==> |t| >= 6 && IsLow(r.value)
  {
    if |t| >= 6 && t[0] == BACKSLASH && t[1] == LOWER_U then
      var low := Hex4(t[2..]);
      if low.Some? && IsLow(low.value) then low else None
    else None
  }

  /** What follows a backslash: the code point it stands for and the remaining text. */
  function ParseEscape(t: Str): (r: Option<(CodePoint, Str)>)
    ensures r.Some? ==> |r.value.1| < |t|
  {
    if t == [] then None
    else if t[0] == QUOTE || t[0] == BACKSLASH || t[0] == 0x2F then Some((t[0], t[1..]))
    else if t[0] == 0x62 then Some((0x08, t[1..]))
    else if t[0] == 0x66 then Some((0x0C, t[1..]))
    else if t[0] == 0x6E then Some((0x0A, t[1..]))
    else if t[0] == 0x72 then Some((0x0D, t[1..]))
    else if t[0] == 0x74 then Some((0x09, t[1..]))
    else if t[0] == LOWER_U then
      var unit := Hex4(t[1..]);
      if unit == None then None
      else if IsHigh(unit.value) && LowEscape(t[5..]).Some? then
        Some((JoinPair(unit.value, LowEscape(t[5..]).value), t[11..]))
      else Some((unit.value, t[5..]))
    else None
  }

  /** The text after an opening quote: the string and what follows the closing quote. */
  function ParseString(t: Str): (r: Option<(Str, Str)>)
    ensures r.Some? ==> |r.value.1| < |t|
    decreases |t|
  {
    if t == [] then None
    else if t[0] == QUOTE then Some(([], t[1..]))
    else if t[0] == BACKSLASH then
      var e := ParseEscape(t[1..]);
      if e == None then None else Prepend(e.value.0, ParseString(e.value.1))
    else if t[0] < 0x20 then None
    else Prepend(t[0], ParseString(t[1..]))
  }

  function Prepend(c: CodePoint, r: Option<(Str, Str)>): Option<(Str, Str)> {
    if r == None then None else Some(([c] + r.value.0, r.value.1))
  }

  predicate IsDigit(c: CodePoint) {
    0x30 <= c <= 0x39
  }

  function DigitRun(t: Str): (k: nat)
    ensures k <= |t|
  {
    if t != [] && IsDigit(t[0]) then 1 + DigitRun(t[1..]) else 0
  }

  function DecimalValue(t: Str): nat
    requires forall i :: 0 <= i < |t| ==> IsDigit(t[i])
  {
    if t == [] then 0
    else
      assert IsDigit(t[|t| - 1]);
      DecimalValue(t[..|t| - 1]) * 10 + (t[|t| - 1] as int - 0x30)
  }

  lemma {:induction false} DigitRunIsDigits(t: Str)
    ensures forall i :: 0 <= i < DigitRun(t) ==> IsDigit(t[i])
  {
    if t != [] && IsDigit(t[0]) {
      DigitRunIsDigits(t[1..]);
      forall i | 0 <= i < DigitRun(t) ensures IsDigit(t[i]) {
        if i > 0 {
          assert t[i] == t[1..][i - 1];
        }
      }
    }
  }

  /** `0` or a run of digits not beginning with `0`. */
  function ParseNat(t: Str): (r: Option<(nat, Str)>)
    ensures r.Some? ==> |r.value.1| < |t|
  {
    if t == [] || !IsDigit(t[0]) then None
    else if t[0] == 0x30 then Some((0, t[1..]))
    else
      DigitRunIsDigits(t);
      var k := DigitRun(t);
      Some((DecimalValue(t[..k]), t[k..]))
  }

  /** A value at the very start of `t`. */
  function ParseValue(t: Str): (r: Option<(JValue, Str)>)
    ensures r.Some? ==> |r.value.1| < |t|
    decreases |t|
  {
    if t == [] then None
    else if t[0] == QUOTE then
      var s := ParseString(t[1..]);
      if s == None then None else Some((JStr(s.value.0), s.value.1))
    else if t[0] == LBRACE then
      var u := SkipSpace(t[1..]);
      if u != [] && u[0] == RBRACE then Some((JObj(Nil), u[1..]))
      else
        var m := ParseMembers(u);
        if m == None then None else Some((JObj(m.value.0), m.value.1))
    else if t[0] == MINUS then
      var n := ParseNat(t[1..]);
      if n == None then None else Some((JInt(-(n.value.0 as int)), n.value.1))
    else if IsDigit(t[0]) then
      var n := ParseNat(t);
      if n == None then None else Some((JInt(n.value.0), n.value.1))
    else if NULL_TEXT <= t then Some((JNull, t[4..]))
    else if TRUE_TEXT <= t then Some((JBool(true), t[4..]))
    else if FALSE_TEXT <= t then Some((JBool(false), t[5..]))
    else None
  }

  /** One or more members and the closing brace. */
  function ParseMembers(t: Str): (r: Option<(Fields, Str)>)
    ensures r.Some? ==> |r.value.1| < |t|
    decreases |t|
  {
    if t == [] || t[0] != QUOTE then None
    else
      var k := ParseString(t[1..]);
      if k == None then None
      else
        var u := SkipSpace(k.value.1);
        if u == [] || u[0] != COLON then None
        else
          var v := ParseValue(SkipSpace(u[1..]));
          if v == None then None
          else
            var w := SkipSpace(v.value.1);
            if w == [] then None
            else if w[0] == RBRACE then Some((Field(k.value.0, v.value.0, Nil), w[1..]))
            else if w[0] != COMMA then None
            else
              var m := ParseMembers(SkipSpace(w[1..]));
              if m == None then None
              else Some((Field(k.value.0, v.value.0, m.value.0), m.value.1))
  }

  /** `json.loads`: one value, white space around it, nothing else. */
  function Loads(t: Str): Option<JValue> {
    var v := ParseValue(SkipSpace(t));
    if v.Some? && SkipSpace(v.value.1) == [] then Some(v.value.0) else None
  }

  // ----- what printing forgets: adjacent surrogate halves become one character -----

  function Join(s: Str): Str {
    if |s| >= 2 && IsHigh(s[0]) && IsLow(s[1]) then [JoinPair(s[0], s[1])] + Join(s[2..])
    else if s == [] then []
    else [s[0]] + Join(s[1..])
  }

  function JoinValue(v: JValue): JValue {
    match v
    case JStr(s) => JStr(Join(s))
    case JObj(f) => JObj(JoinFields(f))
    case _ => v
  }

  function JoinFields(f: Fields): Fields {
    match f
    case Nil => Nil
    case Field(k, v, rest) => Field(Join(k), JoinValue(v), JoinFields(rest))
  }

  predicate HasPair(s: Str) {
    exists i :: 0 <= i < |s| - 1 && IsHigh(s[i]) && IsLow(s[i + 1])
  }

  /** Joining changes a string exactly when it holds a high surrogate followed by a low one. */
  lemma {:induction false} JoinFixedIff(s: Str)
    ensures |Join(s)| <= |s|
    ensures HasPair(s) ==> |Join(s)| < |s|
    ensures Join(s) == s <==> !HasPair(s)
  {
    if |s| >= 2 && IsHigh(s[0]) && IsLow(s[1]) {
      JoinFixedIff(s[2..]);
      assert HasPair(s);
    } else if s != [] {
      var t := s[1..];
      JoinFixedIff(t);
      if HasPair(s) {
        var i :| 0 <= i < |s| - 1 && IsHigh(s[i]) && IsLow(s[i + 1]);
        assert i > 0 && IsHigh(t[i - 1]) && IsLow(t[i]);
      }
      if HasPair(t) {
        var i :| 0 <= i < |t| - 1 && IsHigh(t[i]) && IsLow(t[i + 1]);
        assert IsHigh(s[i + 1]) && IsLow(s[i + 2]);
      }
      assert s == [s[0]] + t;
    }
  }

  // ----- round trip: strings -----

  lemma NibblesRecompose(n: int)
    requires 0 <= n < 0x10000
    ensures 0 <= n / 4096 < 16
    ensures n / 4096 * 4096 + n / 256 % 16 * 256 + n / 16 % 16 * 16 + n % 16 == n
  {
    var q := n / 16;
    assert n == q * 16 + n % 16;
    var r := q / 16;
    assert q == r * 16 + q % 16;
    assert n / 256 == r;
    assert n / 4096 == r / 16;
  }

  lemma {:induction false} Hex4OfEscape(n: int, rest: Str)
    requires 0 <= n < 0x10000
    ensures |UnicodeEscape(n)| == 6
    ensures Hex4((UnicodeEscape(n) + rest)[2..]) == Some(n)
  {
    NibblesRecompose(n);
    var a, b, c, d := n / 4096, n / 256 % 16, n / 16 % 16, n % 16;
    assert HexQuad(HexDigit(a), HexDigit(b), HexDigit(c), HexDigit(d)) == Some(n);
    var t := (UnicodeEscape(n) + rest)[2..];
    assert t[0] == HexDigit(a) && t[1] == HexDigit(b) && t[2] == HexDigit(c) && t[3] == HexDigit(d);
  }

  /** A `\uXXXX` escape that does not pair up with the text after it. */
  lemma {:induction false} ParseUnicodeEscape(n: int, tail: Str)
    requires 0 <= n < 0x10000
    requires IsHigh(n) ==> LowEscape(tail) == None
    ensures ParseString(UnicodeEscape(n) + tail) == Prepend(n, ParseString(tail))
  {
    var t := UnicodeEscape(n) + tail;
    Hex4OfEscape(n, tail);
    assert t[0] == BACKSLASH && t[1..][0] == LOWER_U;
    assert t[1..][1..] == t[2..] && t[1..][5..] == tail;
    assert ParseEscape(t[1..]) == Some((n, tail));
  }

  lemma {:induction false} ParseSurrogatePair(high: CodePoint, low: CodePoint, tail: Str)
    requires IsHigh(high) && IsLow(low)
    ensures ParseString(UnicodeEscape(high) + (UnicodeEscape(low) + tail))
            == Prepend(JoinPair(high, low), ParseString(tail))
  {
    var after := UnicodeEscape(low) + tail;
    var t := UnicodeEscape(high) + after;
    Hex4OfEscape(high, after);
    LowEscapeOfUnicode(low, tail);
    assert t[0] == BACKSLASH && t[1..][0] == LOWER_U;
    assert t[1..][1..] == t[2..] && t[1..][5..] == after && t[1..][11..] == tail by {
      assert |UnicodeEscape(low)| == 6;
    }
    assert ParseEscape(t[1..]) == Some((JoinPair(high, low), tail));
  }

  lemma LowEscapeOfUnicode(n: int, tail: Str)
    requires 0 <= n < 0x10000
    ensures LowEscape(UnicodeEscape(n) + tail) == if IsLow(n) then Some(n) else None
  {
    Hex4OfEscape(n, tail);
  }

  /** The escapes that are not `\u` escapes. */
  predicate ShortEscape(c: CodePoint) {
    c == QUOTE || c == BACKSLASH || c == 0x0A || c == 0x0D || c == 0x09 || c == 0x0C || c == 0x08
    || 0x20 <= c <= 0x7E
  }

  lemma ParseShortEscape(c: CodePoint, tail: Str)
    requires ShortEscape(c)
    ensures ParseString(Escape(c) + tail) == Prepend(c, ParseString(tail))
    ensures LowEscape(Escape(c) + tail) == None
  {
    var t := Escape(c) + tail;
    if |Escape(c)| == 2 {
      assert t[0] == BACKSLASH && t[1] == Escape(c)[1] && t[1..][1..] == tail;
      assert ParseEscape(t[1..]) == Some((c, tail));
    } else {
      assert t[0] == c && t[1..] == tail;
    }
  }

  lemma EscapeAstral(c: CodePoint, tail: Str)
    requires c >= 0x10000
    ensures var high, low := 0xD800 + (c - 0x10000) / 0x400, 0xDC00 + (c - 0x10000) % 0x400;
            IsHigh(high) && IsLow(low) && JoinPair(high, low) == c
            && Escape(c) + tail == UnicodeEscape(high) + (UnicodeEscape(low) + tail)
  {
  }

  /** Parsing one escaped character, provided it does not pair up with what follows. */
  lemma {:induction false} ParseEscaped(c: CodePoint, tail: Str)
    requires IsHigh(c) ==> LowEscape(tail) == None
    ensures ParseString(Escape(c) + tail) == Prepend(c, ParseString(tail))
  {
    if ShortEscape(c) {
      ParseShortEscape(c, tail);
    } else if c < 0x10000 {
      ParseUnicodeEscape(c, tail);
    } else {
      EscapeAstral(c, tail);
      var high, low := 0xD800 + (c - 0x10000) / 0x400, 0xDC00 + (c - 0x10000) % 0x400;
      ParseSurrogatePair(high, low, tail);
    }
  }

  lemma {:induction false} LowEscapeOfEscape(c: CodePoint, tail: Str)
    ensures LowEscape(Escape(c) + tail) == if IsLow(c) then Some(c) else None
  {
    if ShortEscape(c) {
      ParseShortEscape(c, tail);
    } else if c < 0x10000 {
      LowEscapeOfUnicode(c, tail);
    } else {
      EscapeAstral(c, tail);
      var high, low := 0xD800 + (c - 0x10000) / 0x400, 0xDC00 + (c - 0x10000) % 0x400;
      LowEscapeOfUnicode(high, UnicodeEscape(low) + tail);
    }
  }

  /** The text of a string literal after its opening quote, followed by `rest`. */
  function Closed(s: Str, rest: Str): Str {
    EscapeAll(s) + ([QUOTE] + rest)
  }

  lemma ClosedStep(s: Str, rest: Str)
    requires s != []
    ensures Closed(s, rest) == Escape(s[0]) + Closed(s[1..], rest)
  {
  }

  /** An escaped text opens with a low-surrogate escape just when the text opens with a low surrogate. */
  lemma {:induction false} LowEscapeOfText(s: Str, rest: Str)
    ensures LowEscape(Closed(s, rest)) == if s != [] && IsLow(s[0]) then Some(s[0]) else None
  {
    if s == [] {
      assert Closed(s, rest)[0] == QUOTE;
    } else {
      ClosedStep(s, rest);
      LowEscapeOfEscape(s[0], Closed(s[1..], rest));
    }
  }

  lemma ParsePair(s: Str, rest: Str)
    requires |s| >= 2 && IsHigh(s[0]) && IsLow(s[1])
    ensures ParseString(Closed(s, rest)) == Prepend(JoinPair(s[0], s[1]), ParseString(Closed(s[2..], rest)))
  {
    ClosedStep(s, rest);
    ClosedStep(s[1..], rest);
    assert s[1..][1..] == s[2..];
    assert Escape(s[0]) == UnicodeEscape(s[0]) && Escape(s[1]) == UnicodeEscape(s[1]);
    ParseSurrogatePair(s[0], s[1], Closed(s[2..], rest));
  }

  lemma {:induction false} ParseSingle(s: Str, rest: Str)
    requires s != [] && !(|s| >= 2 && IsHigh(s[0]) && IsLow(s[1]))
    ensures ParseString(Closed(s, rest)) == Prepend(s[0], ParseString(Closed(s[1..], rest)))
  {
    ClosedStep(s, rest);
    LowEscapeOfText(s[1..], rest);
    ParseEscaped(s[0], Closed(s[1..], rest));
  }

  lemma {:induction false} ParseStringOfEscaped(s: Str, rest: Str)
    ensures ParseString(Closed(s, rest)) == Some((Join(s), rest))
    decreases |s|
  {
    if s == [] {
      assert Closed(s, rest)[0] == QUOTE && Closed(s, rest)[1..] == rest;
    } else if |s| >= 2 && IsHigh(s[0]) && IsLow(s[1]) {
      ParsePair(s, rest);
      ParseStringOfEscaped(s[2..], rest);
    } else {
      ParseSingle(s, rest);
      ParseStringOfEscaped(s[1..], rest);
    }
  }

  // ----- round trip: numbers -----

  lemma {:induction false} DecimalShape(n: nat)
    ensures |Decimal(n)| >= 1
    ensures forall i :: 0 <= i < |Decimal(n)| ==> IsDigit(Decimal(n)[i])
    ensures DecimalValue(Decimal(n)) == n
    ensures n > 0 ==> Decimal(n)[0] != 0x30
  {
    if n >= 10 {
      DecimalShape(n / 10);
      var d := Decimal(n);
      assert d[..|d| - 1] == Decimal(n / 10);
    } else {
      assert Decimal(n)[..0] == [];
    }
  }

  lemma {:induction false} DigitRunOf(digits: Str, rest: Str)
    requires forall i :: 0 <= i < |digits| ==> IsDigit(digits[i])
    requires rest == [] || !IsDigit(rest[0])
    ensures DigitRun(digits + rest) == |digits|
  {
    if digits == [] {
      assert digits + rest == rest;
    } else {
      assert (digits + rest)[1..] == digits[1..] + rest;
      DigitRunOf(digits[1..], rest);
    }
  }

  lemma ParseNatOfDecimal(n: nat, rest: Str)
    requires rest == [] || !IsDigit(rest[0])
    ensures ParseNat(Decimal(n) + rest) == Some((n, rest))
  {
    DecimalShape(n);
    var d := Decimal(n);
    var t := d + rest;
    assert t[0] == d[0];
    if n == 0 {
      assert d == [0x30] && t[1..] == rest;
    } else {
      DigitRunOf(d, rest);
      assert t[..|d|] == d && t[|d|..] == rest;
    }
  }

  // ----- round trip: values -----

  lemma {:induction false} SkipSpaceOf(space: Str, t: Str)
    requires AllSpace(space)
    requires t == [] || !IsSpace(t[0])
    ensures SkipSpace(space + t) == t
  {
    if space == [] {
      assert space + t == t;
    } else {
      assert (space + t)[1..] == space[1..] + t;
      SkipSpaceOf(space[1..], t);
    }
  }

  /** The first character of a printed value tells the parser which kind it is. */
  lemma PrintStart(v: JValue, st: Style)
    ensures |Print(v, st)| >= 1 && !IsSpace(Print(v, st)[0])
  {
    if v.JInt? {
      DecimalShape(if v.n < 0 then -v.n else v.n);
    }
  }

  /** Whatever follows a printed value must not look like more digits of a number. */
  predicate Delimits(v: JValue, rest: Str) {
    v.JInt? && rest != [] ==> !IsDigit(rest[0])
  }

  lemma ParseQuoted(s: Str, rest: Str)
    ensures ParseValue(Quote(s) + rest) == Some((JStr(Join(s)), rest))
  {
    var t := Quote(s) + rest;
    assert t[0] == QUOTE && t[1..] == Closed(s, rest);
    ParseStringOfEscaped(s, rest);
  }

  lemma {:induction false} ParseNatural(n: nat, rest: Str)
    requires rest == [] || !IsDigit(rest[0])
    ensures ParseValue(Decimal(n) + rest) == Some((JInt(n), rest))
  {
    var t := Decimal(n) + rest;
    DecimalShape(n);
    ParseNatOfDecimal(n, rest);
    assert t[0] == Decimal(n)[0] && IsDigit(t[0]);
  }

  lemma ParseMinus(t: Str)
    requires t != [] && ParseNat(t).Some?
    ensures var n := ParseNat(t).value;
            ParseValue([MINUS] + t) == Some((JInt(-(n.0 as int)), n.1))
  {
    assert ([MINUS] + t)[0] == MINUS && ([MINUS] + t)[1..] == t;
  }

  lemma ParsePrintedInt(n: int, rest: Str)
    requires rest == [] || !IsDigit(rest[0])
    ensures ParseValue(PrintInt(n) + rest) == Some((JInt(n), rest))
  {
    hide ParseValue, ParseNat, Decimal;
    if n < 0 {
      var m: nat := -n;
      ParseNatOfDecimal(m, rest);
      DecimalShape(m);
      ParseMinus(Decimal(m) + rest);
      assert PrintInt(n) + rest == [MINUS] + (Decimal(m) + rest);
    } else {
      ParseNatural(n, rest);
    }
  }

  lemma ParseWord(rest: Str)
    ensures ParseValue(NULL_TEXT + rest) == Some((JNull, rest))
    ensures ParseValue(TRUE_TEXT + rest) == Some((JBool(true), rest))
    ensures ParseValue(FALSE_TEXT + rest) == Some((JBool(false), rest))
  {
    assert (NULL_TEXT + rest)[4..] == rest && (NULL_TEXT + rest)[0] == 0x6E;
    assert (TRUE_TEXT + rest)[4..] == rest && (TRUE_TEXT + rest)[0] == 0x74;
    assert (FALSE_TEXT + rest)[5..] == rest && (FALSE_TEXT + rest)[0] == 0x66;
  }

  lemma ParseEmptyObject(rest: Str)
    ensures ParseValue([LBRACE, RBRACE] + rest) == Some((JObj(Nil), rest))
  {
    var t := [LBRACE, RBRACE] + rest;
    var u := [RBRACE] + rest;
    assert t[0] == LBRACE && t[1..] == u && u[0] == RBRACE && u[1..] == rest;
    assert SkipSpace(u) == u;
  }

  lemma ParseObject(members: Str, f: Fields, rest: Str)
    requires members != [] && members[0] == QUOTE
    requires ParseMembers(members) == Some((f, rest))
    ensures ParseValue([LBRACE] + members) == Some((JObj(f), rest))
  {
    var t := [LBRACE] + members;
    assert t[0] == LBRACE && t[1..] == members;
    assert SkipSpace(members) == members;
  }

  /** The last member of an object. */
  lemma ParseLastMember(t: Str, k: Str, colon: Str, v: JValue, rest: Str)
    requires t != [] && t[0] == QUOTE
    requires ParseString(t[1..]) == Some((k, [COLON] + colon))
    requires ParseValue(SkipSpace(colon)) == Some((v, [RBRACE] + rest))
    ensures ParseMembers(t) == Some((Field(k, v, Nil), rest))
  {
    hide ParseValue, ParseString;
    var u, w := [COLON] + colon, [RBRACE] + rest;
    assert SkipSpace(u) == u && u[0] == COLON && u[1..] == colon;
    assert SkipSpace(w) == w && w[0] == RBRACE && w[1..] == rest;
  }

  /** A member followed by others. */
  lemma ParseNextMember(t: Str, k: Str, colon: Str, v: JValue, comma: Str, f: Fields, rest: Str)
    requires t != [] && t[0] == QUOTE
    requires ParseString(t[1..]) == Some((k, [COLON] + colon))
    requires ParseValue(SkipSpace(colon)) == Some((v, [COMMA] + comma))
    requires |SkipSpace(comma)| < |t| && ParseMembers(SkipSpace(comma)) == Some((f, rest))
    ensures ParseMembers(t) == Some((Field(k, v, f), rest))
  {
    hide ParseValue, ParseString;
    var u, w := [COLON] + colon, [COMMA] + comma;
    assert SkipSpace(u) == u && u[0] == COLON && u[1..] == colon;
    assert SkipSpace(w) == w && w[0] == COMMA && w[1..] == comma;
  }

  lemma {:induction false} ParsePrinted(v: JValue, st: Style, rest: Str)
    requires ValidStyle(st) && Delimits(v, rest)
    ensures ParseValue(Print(v, st) + rest) == Some((JoinValue(v), rest))
    decreases v, 1
  {
    match v
    case JNull => ParseWord(rest);
    case JBool(b) => ParseWord(rest);
    case JInt(n) => ParsePrintedInt(n, rest);
    case JStr(s) => ParseQuoted(s, rest);
    case JObj(f) =>
      if f.Nil? {
        ParseEmptyObject(rest);
        assert Print(v, st) == [LBRACE, RBRACE];
      } else {
        var m := PrintMembers(f, st) + rest;
        assert Print(v, st) + rest == [LBRACE] + m;
        ParsePrintedMembers(f, st, rest);
        ParseObject(m, JoinFields(f), rest);
      }
  }

  lemma {:induction false} MembersText(f: Fields, st: Style, rest: Str)
    requires f.Field?
    ensures var more := if f.rest.Nil? then [RBRACE] + rest
                        else [COMMA] + (st.afterItem + (PrintMembers(f.rest, st) + rest));
            var key := st.afterKey + (Print(f.value, st) + more);
            var t := PrintMembers(f, st) + rest;
            t != [] && t[0] == QUOTE && t[1..] == Closed(f.key, [COLON] + key)
  {
    var e, v := EscapeAll(f.key), Print(f.value, st);
    var last := if f.rest.Nil? then [RBRACE] else [COMMA] + st.afterItem + PrintMembers(f.rest, st);
    var more := if f.rest.Nil? then [RBRACE] + rest else [COMMA] + (st.afterItem + (PrintMembers(f.rest, st) + rest));
    assert last + rest == more;
    Regroup(e, st.afterKey, v, last, rest);
  }

  lemma Regroup(e: Str, space: Str, v: Str, last: Str, rest: Str)
    ensures ([QUOTE] + e + [QUOTE]) + [COLON] + space + v + last + rest
            == [QUOTE] + (e + ([QUOTE] + ([COLON] + (space + (v + (last + rest))))))
  {
  }

  lemma {:induction false} ParsePrintedMembers(f: Fields, st: Style, rest: Str)
    requires ValidStyle(st) && f.Field?
    ensures var t := PrintMembers(f, st) + rest;
            t[0] == QUOTE && ParseMembers(t) == Some((JoinFields(f), rest))
    decreases f, 0
  {
    var more := if f.rest.Nil? then [RBRACE] + rest else [COMMA] + (st.afterItem + (PrintMembers(f.rest, st) + rest));
    var value := Print(f.value, st) + more;
    var key := st.afterKey + value;
    var t := PrintMembers(f, st) + rest;
    MembersText(f, st, rest);
    ParseStringOfEscaped(f.key, [COLON] + key);
    PrintStart(f.value, st);
    SkipSpaceOf(st.afterKey, value);
    ParsePrinted(f.value, st, more);
    if f.rest.Nil? {
      ParseLastMember(t, Join(f.key), key, JoinValue(f.value), rest);
    } else {
      var next := PrintMembers(f.rest, st) + rest;
      ParsePrintedMembers(f.rest, st, rest);
      SkipSpaceOf(st.afterItem, next);
      ParseNextMember(t, Join(f.key), key, JoinValue(f.value), st.afterItem + next, JoinFields(f.rest), rest);
    }
  }

  /** Loading a dumped value gives it back with surrogate halves joined, whichever style printed it. */
  lemma LoadsPrinted(v: JValue, st: Style)
    requires ValidStyle(st)
    ensures Loads(Print(v, st)) == Some(JoinValue(v))
  {
    var t := Print(v, st);
    PrintStart(v, st);
    assert t + [] == t;
    ParsePrinted(v, st, []);
  }
}
