/**
 base64url against the table of RFC 4648 section 5: which character stands for which six bits of the
 data, and which eight bits of the text become which byte.
 */
module Base64Table {
  import opened Prelude
  import opened Base64Url

  const UPPER: string := "ABCDEFGHIJKLMNOPQRSTUVWXYZ"
  const LOWER: string := "abcdefghijklmnopqrstuvwxyz"
  const REST: string := "0123456789-_"
  const TABLE: string := UPPER + LOWER + REST

  lemma UpperIs(n: nat)
    requires n < 26
    ensures |UPPER| == 26 && UPPER[n] as int == 0x41 + n
  {
    assert Lit(UPPER) == seq(26, i => 0x41 + i);
    assert Lit(UPPER)[n] == 0x41 + n;
  }

  lemma LowerIs(n: nat)
    requires n < 26
    ensures |LOWER| == 26 && LOWER[n] as int == 0x61 + n
  {
    assert Lit(LOWER) == seq(26, i => 0x61 + i);
    assert Lit(LOWER)[n] == 0x61 + n;
  }

  lemma RestIs(n: nat)
    requires n < 12
    ensures |REST| == 12 && REST[n] as int == if n < 10 then 0x30 + n else if n == 10 then 0x2D else 0x5F
  {
    assert Lit(REST) == seq(12, i => if i < 10 then 0x30 + i else if i == 10 then 0x2D else 0x5F);
    assert Lit(REST)[n] == if n < 10 then 0x30 + n else if n == 10 then 0x2D else 0x5F;
  }

  lemma TableIs(n: nat)
    requires n < 64
    ensures |TABLE| == 64
    ensures TABLE[n] as int == if n < 26 then 0x41 + n else if n < 52 then 0x61 + (n - 26) else if n < 62 then 0x30 + (n - 52)
                               else if n == 62 then 0x2D else 0x5F
  {
    hide UPPER, LOWER, REST;
    UpperIs(if n < 26 then n else 0);
    LowerIs(if 26 <= n < 52 then n - 26 else 0);
    RestIs(if n >= 52 then n - 52 else 0);
    if n < 26 {
      assert TABLE[n] == UPPER[n];
    } else if n < 52 {
      assert TABLE[n] == LOWER[n - 26];
    } else {
      assert TABLE[n] == REST[n - 52];
    }
  }

  /** The encoder writes this table and the decoder reads it. */
  lemma DigitIsTable(n: sextet)
    ensures |TABLE| == 64 && Digit(n) == TABLE[n] as int && DigitValue(Digit(n)) == Some(n)
  {
    hide TABLE, DigitValue;
    TableIs(n);
    ValueOfDigit(n);
  }

  // ----- encoding -----

  function Pow2(k: nat): (p: nat)
    ensures p > 0
  {
    if k == 0 then 1 else 2 * Pow2(k - 1)
  }

  /** Byte `j`, zero beyond the end. */
  function ByteAt(data: Bytes, j: nat): byte {
    if j < |data| then data[j] else 0
  }

  /**
   The `i`-th six bits of the data, most significant bit first: bits 6i to 6i + 5. They begin in byte
   3i/4, at its bit 2(3i mod 4), and may reach into the next.
   */
  function SixBits(data: Bytes, i: nat): sextet {
    (ByteAt(data, 3 * i / 4) * 256 + ByteAt(data, 3 * i / 4 + 1)) / Pow2(10 - 2 * (3 * i % 4)) % 64
  }

  lemma Pow2Values()
    ensures Pow2(4) == 16 && Pow2(6) == 64 && Pow2(8) == 256 && Pow2(10) == 1024
    ensures Pow2(0) == 1 && Pow2(2) == 4
  {
    assert Pow2(2) == 4 && Pow2(3) == 8 && Pow2(5) == 32 && Pow2(7) == 128 && Pow2(9) == 512;
  }

  lemma ShiftThree(data: Bytes, i: nat)
    requires |data| >= 3 && i >= 4
    ensures SixBits(data, i) == SixBits(data[3..], i - 4)
  {
    assert 3 * i / 4 == 3 + 3 * (i - 4) / 4 && 3 * i % 4 == 3 * (i - 4) % 4;
  }

  /** The first four groups of six bits, from three bytes. */
  lemma FirstFour(data: Bytes)
    ensures var x, y, z := ByteAt(data, 0), ByteAt(data, 1), ByteAt(data, 2);
            && SixBits(data, 0) == x / 4 && SixBits(data, 1) == x % 4 * 16 + y / 16
            && SixBits(data, 2) == y % 16 * 4 + z / 64 && SixBits(data, 3) == z % 64
  {
    var x, y, z := ByteAt(data, 0), ByteAt(data, 1), ByteAt(data, 2);
    SixBitsAre(data);
    hide SixBits, ByteAt;
    TopSix(x, y);
    TwoAndFour(x, y);
    FourAndTwo(y, z);
    LastSix(z, ByteAt(data, 3));
  }

  lemma SixBitsAre(data: Bytes)
    ensures var x, y, z := ByteAt(data, 0), ByteAt(data, 1), ByteAt(data, 2);
            && SixBits(data, 0) == (x * 256 + y) / 1024 % 64 && SixBits(data, 1) == (x * 256 + y) / 16 % 64
            && SixBits(data, 2) == (y * 256 + z) / 64 % 64 && SixBits(data, 3) == (z * 256 + ByteAt(data, 3)) / 256 % 64
  {
    Pow2Values();
    hide Pow2, ByteAt;
  }

  lemma TopSix(x: byte, y: byte)
    ensures (x * 256 + y) / 1024 % 64 == x / 4
  {
    var q, r: int := x / 4, x % 4;
    assert x * 256 + y == q * 1024 + (r * 256 + y);
  }

  lemma TwoAndFour(x: byte, y: byte)
    ensures (x * 256 + y) / 16 % 64 == x % 4 * 16 + y / 16
  {
    Cut(x / 4, x % 4 * 16 + y / 16, y % 16, x * 256 + y);
  }

  lemma Cut(q: int, m: int, v: int, n: int)
    requires 0 <= m < 64 && 0 <= v < 16 && n == (q * 64 + m) * 16 + v
    ensures n / 16 % 64 == m
  {
    assert n / 16 == q * 64 + m;
  }

  lemma FourAndTwo(x: byte, y: byte)
    ensures (x * 256 + y) / 64 % 64 == x % 16 * 4 + y / 64
  {
    CutWide(x / 16, x % 16 * 4 + y / 64, y % 64, x * 256 + y);
  }

  lemma CutWide(q: int, m: int, v: int, n: int)
    requires 0 <= m < 64 && 0 <= v < 64 && n == (q * 64 + m) * 64 + v
    ensures n / 64 % 64 == m
  {
    assert n / 64 == q * 64 + m;
  }

  lemma LastSix(x: byte, y: byte)
    ensures (x * 256 + y) / 256 % 64 == x % 64
  {
  }

  lemma {:induction false} DigitsAreSixBits(data: Bytes, i: nat)
    requires i < |Digits(data)|
    ensures Digits(data)[i] == Digit(SixBits(data, i))
  {
    hide Digit, SixBits;
    FirstFour(data);
    if |data| >= 3 && i >= 4 {
      ShiftThree(data, i);
      DigitsAreSixBits(data[3..], i - 4);
    }
  }

  /**
   Digit `i` of an encoding is the character of the table at the `i`-th six bits of the data, missing
   bits being zero.
   */
  lemma EncodeReadsTable(data: Bytes, i: nat)
    requires i < |Encode(data)|
    ensures |TABLE| == 64 && Encode(data)[i] == TABLE[SixBits(data, i)] as int
  {
    EncodeIsDigits(data);
    DigitsAreSixBits(data, i);
    DigitIsTable(SixBits(data, i));
  }

  // ----- decoding -----

  /** The text spells these values by the table, or with `+` and `/` for the last two. */
  predicate Spells(s: Str, v: seq<sextet>) {
    |s| == |v| && forall i :: 0 <= i < |s| ==> SpelledAs(s[i], v[i])
  }

  predicate SpelledAs(c: CodePoint, n: sextet) {
    || (n < |TABLE| && c == TABLE[n] as int)
    || (n == 62 && c == '+' as int)
    || (n == 63 && c == '/' as int)
  }

  lemma SpelledValue(c: CodePoint, n: sextet)
    requires SpelledAs(c, n)
    ensures DigitValue(c) == Some(n) && 0 <= c < 128
  {
    hide TABLE;
    DigitIsTable(n);
  }

  function ValueAt(v: seq<sextet>, i: nat): (n: int)
    ensures 0 <= n < 64
  {
    if i < |v| then v[i] else 0
  }

  /** The `j`-th eight bits of the values likewise: bits 8j to 8j + 7, from bit 2(4j mod 3) of value 4j/3 on. */
  function EightBits(v: seq<sextet>, j: nat): byte {
    (ValueAt(v, 4 * j / 3) * 64 + ValueAt(v, 4 * j / 3 + 1)) / Pow2(4 - 2 * (4 * j % 3)) % 256
  }

  /** The bytes the values amount to, group by group. */
  function Packed(v: seq<sextet>): Bytes {
    var a, b, c, d := ValueAt(v, 0), ValueAt(v, 1), ValueAt(v, 2), ValueAt(v, 3);
    if |v| < 2 then []
    else if |v| == 2 then [a * 4 + b / 16]
    else if |v| == 3 then [a * 4 + b / 16, b % 16 * 16 + c / 4]
    else [a * 4 + b / 16, b % 16 * 16 + c / 4, c % 4 * 64 + d] + Packed(v[4..])
  }

  lemma {:induction false} PackedLength(v: seq<sextet>)
    ensures |Packed(v)| == 6 * |v| / 8
  {
    if |v| >= 4 {
      PackedLength(v[4..]);
    }
  }

  lemma FirstThree(v: seq<sextet>)
    ensures var a, b, c, d := ValueAt(v, 0), ValueAt(v, 1), ValueAt(v, 2), ValueAt(v, 3);
            && EightBits(v, 0) == a * 4 + b / 16 && EightBits(v, 1) == b % 16 * 16 + c / 4
            && EightBits(v, 2) == c % 4 * 64 + d
  {
    var a, b, c, d := ValueAt(v, 0), ValueAt(v, 1), ValueAt(v, 2), ValueAt(v, 3);
    EightBitsAre(v);
    hide EightBits, ValueAt;
    SixAndTwo(a, b);
    FourAndFour(b, c);
    TwoAndSix(c, d);
  }

  lemma EightBitsAre(v: seq<sextet>)
    ensures var a, b, c, d := ValueAt(v, 0), ValueAt(v, 1), ValueAt(v, 2), ValueAt(v, 3);
            && EightBits(v, 0) == (a * 64 + b) / 16 % 256 && EightBits(v, 1) == (b * 64 + c) / 4 % 256
            && EightBits(v, 2) == (c * 64 + d) / 1 % 256
  {
    Pow2Values();
    hide Pow2, ValueAt;
  }

  lemma SixAndTwo(a: int, b: int)
    requires 0 <= a < 64 && 0 <= b < 64
    ensures (a * 64 + b) / 16 % 256 == a * 4 + b / 16
  {
    assert a * 64 + b == (a * 4 + b / 16) * 16 + b % 16;
  }

  lemma FourAndFour(b: int, c: int)
    requires 0 <= b < 64 && 0 <= c < 64
    ensures (b * 64 + c) / 4 % 256 == b % 16 * 16 + c / 4
  {
    var q, r, u, w: int := b / 16, b % 16, c / 4, c % 4;
    assert b * 64 + c == (q * 256 + (r * 16 + u)) * 4 + w;
    assert (b * 64 + c) / 4 == q * 256 + (r * 16 + u);
  }

  lemma TwoAndSix(c: int, d: int)
    requires 0 <= c < 64 && 0 <= d < 64
    ensures (c * 64 + d) / 1 % 256 == c % 4 * 64 + d
  {
    var q, r: int := c / 4, c % 4;
    assert c * 64 + d == q * 256 + (r * 64 + d);
  }

  lemma ShiftFour(v: seq<sextet>, j: nat)
    requires |v| >= 4 && j >= 3
    ensures EightBits(v, j) == EightBits(v[4..], j - 3)
  {
    assert 4 * j / 3 == 4 + 4 * (j - 3) / 3 && 4 * j % 3 == 4 * (j - 3) % 3;
  }

  lemma {:induction false} PackedIsEightBits(v: seq<sextet>, j: nat)
    requires j < |Packed(v)|
    ensures Packed(v)[j] == EightBits(v, j)
  {
    hide EightBits;
    FirstThree(v);
    if |v| >= 4 && j >= 3 {
      ShiftFour(v, j);
      PackedIsEightBits(v[4..], j - 3);
    }
  }

  lemma {:induction false} ScanSpelled(s: Str, v: seq<sextet>)
    requires Spells(s, v)
    ensures Scan(s + Padding(|s|), 0, 0, 0) == if |v| % 4 == 1 then None else Some(Packed(v))
  {
    hide Scan, DigitValue, SpelledAs, TABLE;
    var t := s + Padding(|s|);
    forall i | 0 <= i < |s| ensures DigitValue(s[i]) == Some(v[i]) {
      SpelledValue(s[i], v[i]);
    }
    if |v| == 0 {
      assert t == [];
      ScanNothing();
    } else if |v| == 1 {
      ScanOne(t, v[0]);
    } else if |v| == 2 {
      Scan4(t, v[0], v[1], None, None);
    } else if |v| == 3 {
      Scan4(t, v[0], v[1], Some(v[2]), None);
    } else {
      assert t[4..] == s[4..] + Padding(|s[4..]|);
      ScanSpelled(s[4..], v[4..]);
      Scan4(t, v[0], v[1], Some(v[2]), Some(v[3]));
      if |v| % 4 == 1 {
        ScanFails(t, v[0], v[1], v[2], v[3]);
      }
    }
  }

  /** A single digit cannot be completed. */
  lemma ScanOne(t: Str, a: sextet)
    requires |t| == 4 && DigitValue(t[0]) == Some(a) && t[1] == t[2] == t[3] == PAD
    ensures Scan(t, 0, 0, 0) == None
  {
    hide DigitValue;
    var t1, t2, t3 := t[1..], t[2..], t[3..];
    ScanDigit(t, 0, 0, a);
    assert t1[1..] == t2 && t2[1..] == t3 && t3[1..] == [];
    assert Scan(t3, 1, a, 0) == Scan([], 1, a, 0) == None;
    assert Scan(t2, 1, a, 0) == None;
  }

  /** What cannot be completed after a group cannot be completed with it. */
  lemma ScanFails(t: Str, a: sextet, b: sextet, c: sextet, d: sextet)
    requires |t| >= 4 && DigitValue(t[0]) == Some(a) && DigitValue(t[1]) == Some(b)
    requires DigitValue(t[2]) == Some(c) && DigitValue(t[3]) == Some(d) && Scan(t[4..], 0, 0, 0) == None
    ensures Scan(t, 0, 0, 0) == None
  {
    hide Scan, DigitValue;
    var t1, t2, t3 := t[1..], t[2..], t[3..];
    assert t1[1..] == t2 && t2[1..] == t3 && t3[1..] == t[4..];
    ScanDigit(t, 0, 0, a);
    ScanDigit(t1, 1, a, b);
    ScanDigit(t2, 2, b % 16, c);
    ScanDigit(t3, 3, c % 4, d);
  }

  /**
   A text spelled by the table decodes to the bytes its six-bit values amount to, bit by bit; exactly
   the texts one longer than a multiple of four are refused.
   */
  lemma DecodeReadsTable(s: Str, v: seq<sextet>)
    requires Spells(s, v)
    ensures |v| % 4 == 1 ==> Decode(s) == None
    ensures |v| % 4 != 1 ==> Decode(s).Some? && |Decode(s).value| == 6 * |v| / 8
                             && forall j :: 0 <= j < |Decode(s).value| ==> Decode(s).value[j] == EightBits(v, j)
  {
    hide SpelledAs, EightBits;
    forall i | 0 <= i < |s| ensures 0 <= s[i] < 128 {
      SpelledValue(s[i], v[i]);
    }
    ScanSpelled(s, v);
    PackedLength(v);
    forall j | 0 <= j < |Packed(v)| ensures Packed(v)[j] == EightBits(v, j) {
      PackedIsEightBits(v, j);
    }
  }
}
