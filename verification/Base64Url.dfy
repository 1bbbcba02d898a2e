/**
 Unpadded base64url (RFC 4648 section 5) as `_b64.py` computes it: the padded encoder followed by
 stripping `=`, and the lenient decoder behind `urlsafe_b64decode`, which skips characters outside
 the alphabet and accepts both the standard and the URL-safe spelling of digits 62 and 63.
 */
module Base64Url {
  import opened Prelude

  const PAD: CodePoint := 0x3D // '='

  type sextet = n: int | 0 <= n < 64

  /** The alphabet, digit by digit. */
  function Digit(n: sextet): CodePoint {
    if n < 26 then 0x41 + n
    else if n < 52 then 0x61 + (n - 26)
    else if n < 62 then 0x30 + (n - 52)
    else if n == 62 then 0x2D
    else 0x5F
  }

  predicate InAlphabet(c: CodePoint) {
    0x41 <= c <= 0x5A || 0x61 <= c <= 0x7A || 0x30 <= c <= 0x39 || c == 0x2D || c == 0x5F
  }

  /** The value the decoder gives a character, after `-` and `_` were translated to `+` and `/`. */
  function DigitValue(c: CodePoint): Option<sextet> {
    if 0x41 <= c <= 0x5A then Some(c - 0x41)
    else if 0x61 <= c <= 0x7A then Some(c - 0x61 + 26)
    else if 0x30 <= c <= 0x39 then Some(c - 0x30 + 52)
    else if c == 0x2B || c == 0x2D then Some(62)
    else if c == 0x2F || c == 0x5F then Some(63)
    else None
  }

  /** `urlsafe_b64encode`: groups of three bytes become four digits, the last group is padded. */
  function EncodePadded(data: Bytes): Str {
    if |data| == 0 then []
    else if |data| == 1 then
      [Digit(data[0] / 4), Digit(data[0] % 4 * 16), PAD, PAD]
    else if |data| == 2 then
      [Digit(data[0] / 4), Digit(data[0] % 4 * 16 + data[1] / 16), Digit(data[1] % 16 * 4), PAD]
    else
      [Digit(data[0] / 4), Digit(data[0] % 4 * 16 + data[1] / 16),
       Digit(data[1] % 16 * 4 + data[2] / 64), Digit(data[2] % 64)] + EncodePadded(data[3..])
  }

  /** `rstrip(b"=")`. */
  function StripPad(s: Str): Str {
    if s != [] && s[|s| - 1] == PAD then StripPad(s[..|s| - 1]) else s
  }

  /** `bytes_to_b64url`. */
  function Encode(data: Bytes): Str {
    StripPad(EncodePadded(data))
  }

  /** `"=" * (-len(value) % 4)`. */
  function Padding(length: nat): Str {
    seq((4 - length % 4) % 4, _ => PAD)
  }

  predicate IsAscii(s: Str) {
    forall i :: 0 <= i < |s| ==> s[i] < 128
  }

  /**
   The scanning loop of the decoder: `quad` digits of the current group have been read, `left` holds
   the bits not yet written, `pads` counts consecutive pads. The result is the bytes still to come;
   `None` is `binascii.Error`.
   */
  function Scan(s: Str, quad: nat, left: nat, pads: nat): Option<Bytes>
    requires quad < 4
    requires quad == 1 ==> left < 64
    requires quad == 2 ==> left < 16
    requires quad == 3 ==> left < 4
  {
    if s == [] then
      if quad == 0 then Some([]) else None
    else if s[0] == PAD then
      if quad >= 2 && quad + pads + 1 >= 4 then Some([])
      else Scan(s[1..], quad, left, if quad >= 2 then pads + 1 else pads)
    else
      match DigitValue(s[0])
      case None => Scan(s[1..], quad, left, pads)
      case Some(v) =>
        match quad
        case 0 => Scan(s[1..], 1, v, 0)
        case 1 => Emit(left * 4 + v / 16, Scan(s[1..], 2, v % 16, 0))
        case 2 => Emit(left * 16 + v / 4, Scan(s[1..], 3, v % 4, 0))
        case _ => Emit(left * 64 + v, Scan(s[1..], 0, 0, 0))
  }

  function Emit(b: byte, tail: Option<Bytes>): Option<Bytes> {
    match tail
    case None => None
    case Some(bytes) => Some([b] + bytes)
  }

  /** `b64url_to_bytes`; `None` is a `ValueError`, raised for non-ASCII text and bad grouping. */
  function Decode(value: Str): Option<Bytes> {
    var padded := value + Padding(|value|);
    if IsAscii(padded) then Scan(padded, 0, 0, 0) else None
  }

  // ----- what the encoder emits -----

  /** The digits alone, written without going through padding. */
  function Digits(data: Bytes): Str {
    if |data| == 0 then []
    else if |data| == 1 then
      [Digit(data[0] / 4), Digit(data[0] % 4 * 16)]
    else if |data| == 2 then
      [Digit(data[0] / 4), Digit(data[0] % 4 * 16 + data[1] / 16), Digit(data[1] % 16 * 4)]
    else
      [Digit(data[0] / 4), Digit(data[0] % 4 * 16 + data[1] / 16),
       Digit(data[1] % 16 * 4 + data[2] / 64), Digit(data[2] % 64)] + Digits(data[3..])
  }

  lemma {:induction false} DigitsLength(data: Bytes)
    ensures |Digits(data)| == (4 * |data| + 2) / 3
  {
    if |data| >= 3 {
      DigitsLength(data[3..]);
    }
  }

  lemma {:induction false} DigitsInAlphabet(data: Bytes)
    ensures forall i :: 0 <= i < |Digits(data)| ==> InAlphabet(Digits(data)[i])
  {
    if |data| >= 3 {
      DigitsInAlphabet(data[3..]);
      var tail := Digits(data[3..]);
      assert Digits(data)[4..] == tail;
      forall i | 4 <= i < |Digits(data)| ensures InAlphabet(Digits(data)[i]) {
        assert Digits(data)[i] == tail[i - 4];
      }
    }
  }

  /** The four digits of the first group. */
  lemma {:induction false} FirstGroup(data: Bytes) returns (head: Str)
    requires |data| >= 3
    ensures |head| == 4 && Digits(data) == head + Digits(data[3..]) && EncodePadded(data) == head + EncodePadded(data[3..])
  {
    hide Digit;
    head := [Digit(data[0] / 4), Digit(data[0] % 4 * 16 + data[1] / 16),
             Digit(data[1] % 16 * 4 + data[2] / 64), Digit(data[2] % 64)];
  }

  lemma {:induction false} LastGroupPadded(data: Bytes)
    requires |data| < 3
    ensures EncodePadded(data) == Digits(data) + Padding(|Digits(data)|)
  {
    hide Digit;
    assert Padding(2) == [PAD, PAD] && Padding(3) == [PAD] && Padding(0) == [];
  }

  lemma {:induction false} PaddedIsDigitsAndPadding(data: Bytes)
    ensures EncodePadded(data) == Digits(data) + Padding(|Digits(data)|)
  {
    hide Digits, EncodePadded;
    if |data| < 3 {
      LastGroupPadded(data);
    } else {
      var head := FirstGroup(data);
      PaddedIsDigitsAndPadding(data[3..]);
      var tail := Digits(data[3..]);
      assert Padding(4 + |tail|) == Padding(|tail|);
      assert head + (tail + Padding(|tail|)) == head + tail + Padding(|tail|);
    }
  }

  lemma {:induction false} StripPadDropsPadding(s: Str, k: nat)
    requires s == [] || s[|s| - 1] != PAD
    ensures StripPad(s + seq(k, _ => PAD)) == s
  {
    var t := s + seq(k, _ => PAD);
    if k == 0 {
      assert t == s;
    } else {
      assert t[..|t| - 1] == s + seq(k - 1, _ => PAD);
      StripPadDropsPadding(s, k - 1);
    }
  }

  lemma EncodeIsDigits(data: Bytes)
    ensures Encode(data) == Digits(data)
  {
    DigitsInAlphabet(data);
    PaddedIsDigitsAndPadding(data);
    StripPadDropsPadding(Digits(data), (4 - |Digits(data)| % 4) % 4);
  }

  /** Encoding emits only the 64 URL-safe digits, exactly the ceiling of 4n/3 of them. */
  lemma EncodeShape(data: Bytes)
    ensures |Encode(data)| == (4 * |data| + 2) / 3
    ensures forall i :: 0 <= i < |Encode(data)| ==> InAlphabet(Encode(data)[i])
  {
    EncodeIsDigits(data);
    DigitsLength(data);
    DigitsInAlphabet(data);
  }

  /** The padding the decoder rebuilds is exactly the padding the encoder stripped. */
  lemma RebuiltPaddingIsStrippedPadding(data: Bytes)
    ensures Encode(data) + Padding(|Encode(data)|) == EncodePadded(data)
    ensures |EncodePadded(data)| % 4 == 0
  {
    hide Encode, EncodePadded, Digits;
    EncodeIsDigits(data);
    PaddedIsDigitsAndPadding(data);
  }

  // ----- round trips -----

  /** Cutting three bytes into digits and putting the digits together again. */
  lemma Repack(x: byte, y: byte, z: byte)
    ensures x / 4 * 4 + (x % 4 * 16 + y / 16) / 16 == x
    ensures (x % 4 * 16 + y / 16) % 16 * 16 + (y % 16 * 4 + z / 64) / 4 == y
    ensures (y % 16 * 4 + z / 64) % 4 * 64 + z % 64 == z
  {
  }

  lemma ScanNothing()
    ensures Scan([], 0, 0, 0) == Some([])
  {
  }

  lemma {:induction false} ScanInvertsEncodePadded(data: Bytes)
    ensures Scan(EncodePadded(data), 0, 0, 0) == Some(data)
  {
    hide Scan, Digit, DigitValue;
    var e := EncodePadded(data);
    if |data| >= 1 {
      Repack(data[0], if |data| >= 2 then data[1] else 0, if |data| >= 3 then data[2] else 0);
    }
    forall n: sextet ensures DigitValue(Digit(n)) == Some(n) {
      ValueOfDigit(n);
    }
    if |data| == 0 {
      ScanNothing();
    } else if |data| == 1 {
      Scan4(e, data[0] / 4, data[0] % 4 * 16, None, None);
      assert data == [data[0]];
    } else if |data| == 2 {
      Scan4(e, data[0] / 4, data[0] % 4 * 16 + data[1] / 16, Some(data[1] % 16 * 4), None);
      assert data == [data[0], data[1]];
    } else {
      ScanInvertsEncodePadded(data[3..]);
      assert e[4..] == EncodePadded(data[3..]);
      Scan4(e, data[0] / 4, data[0] % 4 * 16 + data[1] / 16,
            Some(data[1] % 16 * 4 + data[2] / 64), Some(data[2] % 64));
      assert data == [data[0], data[1], data[2]] + data[3..];
    }
  }

  lemma EmitLast(b: byte)
    ensures Emit(b, Some([])) == Some([b])
  {
    assert [b] + [] == [b];
  }

  lemma EmitTwo(a: byte, b: byte)
    ensures Emit(a, Some([b])) == Some([a, b])
  {
    assert [a] + [b] == [a, b];
  }

  /** One digit read. */
  lemma ScanDigit(s: Str, quad: nat, left: nat, v: sextet)
    requires s != [] && DigitValue(s[0]) == Some(v)
    requires quad < 4
    requires quad == 1 ==> left < 64
    requires quad == 2 ==> left < 16
    requires quad == 3 ==> left < 4
    ensures quad == 0 ==> Scan(s, 0, left, 0) == Scan(s[1..], 1, v, 0)
    ensures quad == 1 ==> Scan(s, 1, left, 0) == Emit(left * 4 + v / 16, Scan(s[1..], 2, v % 16, 0))
    ensures quad == 2 ==> Scan(s, 2, left, 0) == Emit(left * 16 + v / 4, Scan(s[1..], 3, v % 4, 0))
    ensures quad == 3 ==> Scan(s, 3, left, 0) == Emit(left * 64 + v, Scan(s[1..], 0, 0, 0))
  {
    PadHasNoValue();
    hide DigitValue;
  }

  lemma PadHasNoValue()
    ensures DigitValue(PAD) == None
  {
  }

  lemma ValueOfDigit(n: sextet)
    ensures DigitValue(Digit(n)) == Some(n)
  {
  }

  /** The pads that complete a group. */
  lemma ScanPads(s: Str, left: nat)
    requires s != [] && s[0] == PAD
    ensures left < 4 ==> Scan(s, 3, left, 0) == Some([])
    ensures left < 16 && |s| >= 2 && s[1] == PAD ==> Scan(s, 2, left, 0) == Some([])
  {
    if |s| >= 2 && left < 16 && s[1] == PAD {
      assert s[1..][0] == PAD;
      assert Scan(s[1..], 2, left, 1) == Some([]);
    }
  }

  /** One group of four characters: two, three or four digits, the rest pads. */
  lemma Scan4(s: Str, a: sextet, b: sextet, c: Option<sextet>, d: Option<sextet>)
    requires |s| >= 4 && DigitValue(s[0]) == Some(a) && DigitValue(s[1]) == Some(b)
    requires if c.Some? then DigitValue(s[2]) == c else s[2] == PAD
    requires if d.Some? then DigitValue(s[3]) == d else s[3] == PAD
    requires d.Some? ==> c.Some?
    ensures c == None ==> Scan(s, 0, 0, 0) == Some([a * 4 + b / 16])
    ensures c.Some? && d == None ==>
              Scan(s, 0, 0, 0) == Some([a * 4 + b / 16, b % 16 * 16 + c.value / 4])
    ensures d.Some? && Scan(s[4..], 0, 0, 0).Some? ==>
              Scan(s, 0, 0, 0) == Some([a * 4 + b / 16, b % 16 * 16 + c.value / 4, c.value % 4 * 64 + d.value]
                                       + Scan(s[4..], 0, 0, 0).value)
  {
    hide Scan, DigitValue;
    var t1, t2, t3 := s[1..], s[2..], s[3..];
    assert s[1..][1..] == t2 && t2[1..] == t3 && t3[1..] == s[4..];
    assert t1[0] == s[1] && t2[0] == s[2] && t3[0] == s[3];
    ScanDigit(s, 0, 0, a);
    ScanDigit(t1, 1, a, b);
    if c.Some? {
      ScanDigit(t2, 2, b % 16, c.value);
      if d == None {
        ScanPads(t3, c.value % 4);
        EmitLast(b % 16 * 16 + c.value / 4);
        EmitTwo(a * 4 + b / 16, b % 16 * 16 + c.value / 4);
      } else {
        var y, z: byte := b % 16 * 16 + c.value / 4, c.value % 4 * 64 + d.value;
        ScanDigit(t3, 3, c.value % 4, d.value);
        if Scan(s[4..], 0, 0, 0).Some? {
          var tail := Scan(s[4..], 0, 0, 0).value;
          assert [a * 4 + b / 16] + ([y] + ([z] + tail)) == [a * 4 + b / 16, y, z] + tail;
        }
      }
    } else {
      ScanPads(t2, b % 16);
      EmitLast(a * 4 + b / 16);
    }
  }

  lemma EncodePaddedIsAscii(data: Bytes)
    ensures IsAscii(EncodePadded(data))
  {
    DigitsInAlphabet(data);
    PaddedIsDigitsAndPadding(data);
  }

  /** Decoding inverts encoding on every byte string. */
  lemma DecodeEncode(data: Bytes)
    ensures Decode(Encode(data)) == Some(data)
  {
    RebuiltPaddingIsStrippedPadding(data);
    EncodePaddedIsAscii(data);
    ScanInvertsEncodePadded(data);
  }

  /** The padded spelling decodes to the same bytes. */
  lemma DecodeEncodePadded(data: Bytes)
    ensures Decode(EncodePadded(data)) == Some(data)
  {
    RebuiltPaddingIsStrippedPadding(data);
    assert EncodePadded(data) + Padding(|EncodePadded(data)|) == EncodePadded(data);
    EncodePaddedIsAscii(data);
    ScanInvertsEncodePadded(data);
  }

  lemma EncodeInjective(a: Bytes, b: Bytes)
    requires Encode(a) == Encode(b)
    ensures a == b
  {
    DecodeEncode(a);
    DecodeEncode(b);
  }

  /**
   Decoding is not injective: the spare bits of the last digit are dropped, so `QQ` and `QR` are
   one byte string.
   */
  lemma DecodeNotInjective()
    ensures Decode([0x51, 0x51]) == Decode([0x51, 0x52]) == Some([0x41])
  {
    var p, q: Str := [0x51, 0x51], [0x51, 0x52];
    assert p + Padding(2) == [0x51, 0x51, PAD, PAD];
    assert q + Padding(2) == [0x51, 0x52, PAD, PAD];
    Scan4(p + Padding(2), 16, 16, None, None);
    Scan4(q + Padding(2), 16, 17, None, None);
  }

  // ----- characters outside the alphabet -----

  /** A text without the characters that are neither digits nor pads. */
  function Junkless(s: Str): Str {
    if s == [] then []
    else if s[0] == PAD || DigitValue(s[0]).Some? then [s[0]] + Junkless(s[1..])
    else Junkless(s[1..])
  }

  /** The scan itself passes over such characters. */
  lemma {:induction false} ScanSkipsJunk(s: Str, quad: nat, left: nat, pads: nat)
    requires quad < 4 && (quad == 1 ==> left < 64) && (quad == 2 ==> left < 16) && (quad == 3 ==> left < 4)
    ensures Scan(s, quad, left, pads) == Scan(Junkless(s), quad, left, pads)
    decreases |s|
  {
    if s != [] {
      var rest := s[1..];
      if s[0] == PAD {
        assert Junkless(s)[1..] == Junkless(rest);
        ScanSkipsJunk(rest, quad, left, if quad >= 2 then pads + 1 else pads);
      } else {
        match DigitValue(s[0])
        case None => ScanSkipsJunk(rest, quad, left, pads);
        case Some(v) =>
          assert Junkless(s)[1..] == Junkless(rest);
          ScanSkipsJunk(rest, (quad + 1) % 4, Left(quad, v), 0);
      }
    }
  }

  lemma {:induction false} JunklessOfPadded(s: Str, p: nat)
    ensures Junkless(s + seq(p, _ => PAD)) == Junkless(s) + seq(p, _ => PAD)
  {
    var pads := seq(p, _ => PAD);
    if s != [] {
      assert (s + pads)[1..] == s[1..] + pads;
      JunklessOfPadded(s[1..], p);
    } else if p > 0 {
      assert s + pads == pads && pads[1..] == seq(p - 1, _ => PAD);
      assert s + pads[1..] == pads[1..];
      JunklessOfPadded(s, p - 1);
    }
  }

  /**
   What the decoder does with them: it scans the text without them, but pads it by the length of the
   text with them.
   */
  lemma DecodeSkipsJunk(value: Str)
    requires IsAscii(value)
    ensures Decode(value) == Scan(Junkless(value) + Padding(|value|), 0, 0, 0)
  {
    ScanSkipsJunk(value + Padding(|value|), 0, 0, 0);
    JunklessOfPadded(value, (4 - |value| % 4) % 4);
  }

  /** How many pads the scan of `s` still needs to end well; `None` if no number of them will do. */
  function PadsNeeded(s: Str, quad: nat, pads: nat): Option<nat>
    requires quad < 4
  {
    if s == [] then
      if quad == 0 then Some(0)
      else if quad == 1 then None
      else if quad + pads >= 4 then Some(1) else Some(4 - quad - pads)
    else if s[0] == PAD then
      if quad >= 2 && quad + pads + 1 >= 4 then Some(0)
      else PadsNeeded(s[1..], quad, if quad >= 2 then pads + 1 else pads)
    else if DigitValue(s[0]) == None then PadsNeeded(s[1..], quad, pads)
    else PadsNeeded(s[1..], (quad + 1) % 4, 0)
  }

  /** The bits the scan keeps when it reads a digit. */
  function Left(quad: nat, v: sextet): nat {
    if quad == 0 then v else if quad == 1 then v % 16 else if quad == 2 then v % 4 else 0
  }

  /** Appended pads decide whether the scan ends well, never what it yields. */
  lemma {:induction false} ScanThenPads(s: Str, p: nat, q: nat, quad: nat, left: nat, pads: nat)
    requires quad < 4 && (quad == 1 ==> left < 64) && (quad == 2 ==> left < 16) && (quad == 3 ==> left < 4)
    ensures var a, b := Scan(s + seq(p, _ => PAD), quad, left, pads), Scan(s + seq(q, _ => PAD), quad, left, pads);
            && (a.Some? <==> PadsNeeded(s, quad, pads).Some? && p >= PadsNeeded(s, quad, pads).value)
            && (a.Some? && b.Some? ==> a == b)
    decreases |s|
  {
    hide DigitValue;
    var x, y := seq(p, _ => PAD), seq(q, _ => PAD);
    if s == [] {
      assert s + x == x && s + y == y;
      ScanPadsOnly(p, quad, left, pads);
      ScanPadsOnly(q, quad, left, pads);
    } else {
      assert (s + x)[1..] == s[1..] + x && (s + y)[1..] == s[1..] + y;
      if s[0] == PAD {
        ScanThenPads(s[1..], p, q, quad, left, if quad >= 2 then pads + 1 else pads);
      } else {
        match DigitValue(s[0])
        case None => ScanThenPads(s[1..], p, q, quad, left, pads);
        case Some(v) => ScanThenPads(s[1..], p, q, (quad + 1) % 4, Left(quad, v), 0);
      }
    }
  }

  lemma {:induction false} ScanPadsOnly(p: nat, quad: nat, left: nat, pads: nat)
    requires quad < 4 && (quad == 1 ==> left < 64) && (quad == 2 ==> left < 16) && (quad == 3 ==> left < 4)
    ensures Scan(seq(p, _ => PAD), quad, left, pads)
            == if PadsNeeded([], quad, pads).Some? && p >= PadsNeeded([], quad, pads).value then Some([]) else None
  {
    if p > 0 {
      assert seq(p, _ => PAD)[1..] == seq(p - 1, _ => PAD);
      ScanPadsOnly(p - 1, quad, left, if quad >= 2 then pads + 1 else pads);
    }
  }

  /** The padding rebuilt for a text of length `n` completes the digits of `s`. */
  predicate Completes(n: nat, s: Str) {
    PadsNeeded(s, 0, 0).Some? && |Padding(n)| >= PadsNeeded(s, 0, 0).value
  }

  /**
   Exactly when the other characters make no difference: when the padding rebuilt with them and the
   one rebuilt without them both complete the digits, or neither does.
   */
  lemma DecodeIgnoresJunkIff(value: Str)
    requires IsAscii(value)
    ensures Decode(value).Some? <==> Completes(|value|, Junkless(value))
    ensures Decode(value) == Decode(Junkless(value))
            <==> (Completes(|value|, Junkless(value)) <==> Completes(|Junkless(value)|, Junkless(value)))
  {
    var s := Junkless(value);
    JunklessIsAscii(value);
    DecodeSkipsJunk(value);
    ScanThenPads(s, |Padding(|value|)|, |Padding(|s|)|, 0, 0, 0);
    ScanThenPads(s, |Padding(|s|)|, |Padding(|value|)|, 0, 0, 0);
  }

  lemma {:induction false} JunklessIsAscii(s: Str)
    requires IsAscii(s)
    ensures IsAscii(Junkless(s))
  {
    if s != [] {
      JunklessIsAscii(s[1..]);
    }
  }

  /** They can make one: `QQ` is a byte, `QQ!` is refused. */
  lemma JunkCanMatter()
    ensures Decode([0x51, 0x51]) == Some([0x41]) && Decode([0x51, 0x51, 0x21]) == None
  {
    var q: Str := [0x51, 0x51];
    var j := q + [0x21];
    DecodeNotInjective();
    assert Junkless(q) == q by {
      assert q[1..] == [0x51] && q[1..][1..] == [];
      assert Junkless(q[1..]) == [0x51];
    }
    assert Junkless(j) == q by {
      assert j[1..] == [0x51, 0x21] && j[1..][1..] == [0x21] && j[1..][1..][1..] == [];
      assert Junkless([0x21]) == [];
      assert Junkless(j[1..]) == [0x51];
    }
    assert PadsNeeded(q, 0, 0) == Some(2) by {
      assert q[1..] == [0x51] && q[1..][1..] == [];
      assert PadsNeeded(q[1..], 1, 0) == PadsNeeded([], 2, 0);
    }
    assert j == [0x51, 0x51, 0x21];
    DecodeIgnoresJunkIff(j);
  }
}
