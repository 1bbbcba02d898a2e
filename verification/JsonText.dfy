/** The printer against RFC 8259 and Python's `json.dumps`, written out as text. */
module JsonText {
  import opened Prelude
  import opened Json
  import opened JsonDumps
  import Base64Url

  const HEX: string := "0123456789abcdef"

  lemma HexIs(n: nat)
    requires n < 16
    ensures |HEX| == 16 && HexDigit(n) == HEX[n] as int
  {
    assert Lit(HEX) == seq(16, i => if i < 10 then 0x30 + i else 0x61 + (i - 10));
    assert Lit(HEX)[n] == if n < 10 then 0x30 + n else 0x61 + (n - 10);
  }

  /** The sixteen bits of a `\u` escape, four lower-case hexadecimal digits. */
  function Unit(n: nat): Str
    requires n < 0x10000
  {
    HexIs(0);
    Lit("\\u") + [HEX[n / 4096] as int, HEX[n / 256 % 16] as int, HEX[n / 16 % 16] as int, HEX[n % 16] as int]
  }

  lemma UnitIs(n: nat)
    requires n < 0x10000
    ensures UnicodeEscape(n) == Unit(n)
  {
    HexIs(n / 4096);
    HexIs(n / 256 % 16);
    HexIs(n / 16 % 16);
    HexIs(n % 16);
  }

  /**
   How one code point is printed, by section 7 of RFC 8259: seven short escapes, the other printable
   ASCII characters as themselves, the rest of the first plane as one `\u` escape, everything beyond as
   the two of its UTF-16 surrogates.
   */
  lemma EscapeTable(c: CodePoint)
    ensures c == '"' as int ==> Escape(c) == Lit("\\\"")
    ensures c == '\\' as int ==> Escape(c) == Lit("\\\\")
    ensures c == 10 ==> Escape(c) == Lit("\\n")
    ensures c == 13 ==> Escape(c) == Lit("\\r")
    ensures c == 9 ==> Escape(c) == Lit("\\t")
    ensures c == 12 ==> Escape(c) == Lit("\\f")
    ensures c == 8 ==> Escape(c) == Lit("\\b")
    ensures 32 <= c <= 126 && c != '"' as int && c != '\\' as int ==> Escape(c) == [c]
    ensures (c < 32 && c !in [8, 9, 10, 12, 13]) || 127 <= c < 0x10000 ==> Escape(c) == Unit(c)
    ensures c >= 0x10000 ==> Escape(c) == Unit(0xD800 + (c - 0x10000) / 1024) + Unit(0xDC00 + (c - 0x10000) % 1024)
  {
    hide UnicodeEscape, Unit;
    if c < 0x10000 {
      UnitIs(c);
    } else {
      UnitIs(0xD800 + (c - 0x10000) / 1024);
      UnitIs(0xDC00 + (c - 0x10000) % 1024);
    }
  }

  /** The parser also takes the escapes that the printer never writes: a solidus, and upper-case digits. */
  lemma OtherEscapes(rest: Str, n: nat)
    ensures ParseEscape(Lit("/") + rest) == Some(('/' as int, rest))
    ensures n < 6 ==> HexValue("ABCDEF"[n] as int) == Some(10 + n)
  {
    assert (Lit("/") + rest)[0] == 0x2F && (Lit("/") + rest)[1..] == rest;
    if n < 6 {
      assert Lit("ABCDEF") == seq(6, i => 0x41 + i);
      assert Lit("ABCDEF")[n] == 0x41 + n;
    }
  }

  // ----- numbers -----

  /** The `k`-th decimal digit of a number, counted from the right. */
  function DigitOf(n: nat, k: nat): (d: nat)
    ensures d < 10
  {
    if k == 0 then n % 10 else DigitOf(n / 10, k - 1)
  }

  lemma DecimalDigitIs(n: nat)
    requires n < 10
    ensures |"0123456789"| == 10 && "0123456789"[n] as int == 0x30 + n
  {
    assert Lit("0123456789") == seq(10, i => 0x30 + i);
    assert Lit("0123456789")[n] == 0x30 + n;
  }

  /** Numerals are decimal, most significant digit first, without leading zeros. */
  lemma {:induction false} Numeral(n: nat, i: nat)
    requires i < |Decimal(n)|
    ensures |"0123456789"| == 10 && Decimal(n)[i] == "0123456789"[DigitOf(n, |Decimal(n)| - 1 - i)] as int
    ensures i == 0 && n > 0 ==> Decimal(n)[i] != '0' as int
  {
    if n < 10 {
      DecimalDigitIs(n);
    } else if i == |Decimal(n)| - 1 {
      DecimalDigitIs(n % 10);
      DecimalNonempty(n / 10);
    } else {
      Numeral(n / 10, i);
      assert Decimal(n)[i] == Decimal(n / 10)[i];
    }
  }

  lemma DecimalNonempty(n: nat)
    ensures |Decimal(n)| >= 1
  {
  }

  // ----- what the parser refuses or skips -----

  lemma Blanks(c: CodePoint)
    ensures IsSpace(c) <==> c in [9, 10, 13, 32]
  {
  }

  /** A raw control character in a string is an error. */
  lemma NoRawControls(c: CodePoint, rest: Str)
    requires c < 32
    ensures ParseString([c] + rest) == None
  {
  }

  /** Numerals have no leading zero. */
  lemma NoLeadingZero(rest: Str)
    requires rest != [] && '0' as int <= rest[0] <= '9' as int
    ensures Loads(Lit("0") + rest) == None
  {
    hide ParseString, ParseMembers;
    var t := Lit("0") + rest;
    assert t[0] == 0x30 && t[1..] == rest;
    assert SkipSpace(t) == t && SkipSpace(rest) == rest;
    assert ParseNat(t) == Some((0, rest));
    assert ParseValue(t) == Some((JInt(0), rest));
  }

  /** Of equal keys in a dict the last one counts. */
  lemma LastWins(key: Str, v: JValue, w: JValue, rest: Fields)
    requires !HasKey(rest, key)
    ensures Get(Field(key, v, Field(key, w, rest)), key) == Some(w)
  {
    GetNeedsKey(rest, key);
  }

  // ----- values -----

  /** A dict item followed by the rest of the dict, in either style. */
  function Item(key: string, gap: string, value: Str, rest: Str): Str
  {
    Lit("\"") + Lit(key) + Lit("\":") + Lit(gap) + value + rest
  }

  /** Text that needs no escape. */
  predicate Plain(s: Str) {
    forall i :: 0 <= i < |s| ==> 32 <= s[i] <= 126 && s[i] != '"' as int && s[i] != '\\' as int
  }

  lemma {:induction false} PlainIsItself(s: Str)
    requires Plain(s)
    ensures EscapeAll(s) == s && Quote(s) == Lit("\"") + s + Lit("\"")
  {
    if s != [] {
      PlainIsItself(s[1..]);
      EscapeTable(s[0]);
      assert s == [s[0]] + s[1..];
    }
  }

  lemma Constants(st: Style)
    ensures Print(JNull, st) == Lit("null") && Print(JBool(true), st) == Lit("true") && Print(JBool(false), st) == Lit("false")
    ensures Print(JObj(Nil), st) == Lit("{}")
  {
  }

  predicate AsciiKey(key: string) {
    forall i :: 0 <= i < |key| ==> ' ' <= key[i] <= '~' && key[i] != '"' && key[i] != '\\'
  }

  predicate Spells(st: Style, gap: string) {
    (st == COMPACT && gap == "") || (st == SPACED && gap == " ")
  }

  /** An item of a dict, as text. */
  lemma ItemText(key: string, v: JValue, rest: Fields, st: Style, gap: string)
    requires AsciiKey(key) && Spells(st, gap)
    ensures PrintMembers(Field(Lit(key), v, rest), st)
            == Item(key, gap, Print(v, st), if rest == Nil then Lit("}") else Lit(",") + Lit(gap) + PrintMembers(rest, st))
  {
    PlainIsItself(Lit(key));
    hide Print, EscapeAll;
    assert st.afterKey == st.afterItem == Lit(gap);
    assert [QUOTE] == Lit("\"") && Lit("\":") == [QUOTE] + [COLON];
    assert [RBRACE] == Lit("}") && [COMMA] == Lit(",");
    assert Quote(Lit(key)) + [COLON] == Lit("\"") + Lit(key) + Lit("\":");
  }

  lemma DictText(f: Fields, st: Style)
    requires f.Field?
    ensures Print(JObj(f), st) == Lit("{") + PrintMembers(f, st)
  {
    hide PrintMembers;
    assert [LBRACE] == Lit("{");
  }
}
