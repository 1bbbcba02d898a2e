/**
 The binary authenticator data that `testing/authenticator.py` emits, and a parser written from
 sections 6.1 and 6.5.1 of WebAuthn Level 2.
 */
module AuthenticatorData {
  import opened Prelude

  const FLAG_UP: nat := 0x01
  const FLAG_UV: nat := 0x04
  const FLAG_BE: nat := 0x08
  const FLAG_BS: nat := 0x10
  const FLAG_AT: nat := 0x40

  /** `flags & mask` for a one-bit mask. */
  predicate HasFlag(flags: nat, mask: nat)
    requires mask > 0
  {
    flags / mask % 2 == 1
  }

  /** `flags | mask` for a one-bit mask. */
  function WithFlag(flags: nat, mask: nat): nat
    requires mask > 0
  {
    if HasFlag(flags, mask) then flags else flags + mask
  }

  datatype Traits = Traits(userVerified: bool, backupEligible: bool, backupState: bool)

  function Flags(t: Traits, attested: bool): byte {
    1 + (if t.userVerified then 4 else 0) + (if t.backupEligible then 8 else 0)
      + (if t.backupState then 16 else 0) + (if attested then 64 else 0)
  }

  /** `_flags`, accumulating as the source does. */
  method AccumulateFlags(t: Traits, attested: bool) returns (flags: nat)
    ensures flags == Flags(t, attested)
    ensures HasFlag(flags, FLAG_UP)
    ensures HasFlag(flags, FLAG_UV) <==> t.userVerified
    ensures HasFlag(flags, FLAG_BE) <==> t.backupEligible
    ensures HasFlag(flags, FLAG_BS) <==> t.backupState
    ensures HasFlag(flags, FLAG_AT) <==> attested
  {
    flags := FLAG_UP;
    if t.userVerified {
      flags := WithFlag(flags, FLAG_UV);
    }
    if t.backupEligible {
      flags := WithFlag(flags, FLAG_BE);
    }
    if t.backupState {
      flags := WithFlag(flags, FLAG_BS);
    }
    if attested {
      flags := WithFlag(flags, FLAG_AT);
    }
  }

  lemma FlagsReadBack(t: Traits, attested: bool)
    ensures var f := Flags(t, attested);
            && HasFlag(f, FLAG_UP)
            && (HasFlag(f, FLAG_UV) <==> t.userVerified)
            && (HasFlag(f, FLAG_BE) <==> t.backupEligible)
            && (HasFlag(f, FLAG_BS) <==> t.backupState)
            && (HasFlag(f, FLAG_AT) <==> attested)
  {
  }

  /** The flags byte, bit by bit, as section 6.1 numbers them: 0 UP, 2 UV, 3 BE, 4 BS, 6 AT, the others clear. */
  lemma FlagBits(t: Traits, attested: bool)
    ensures var f := Flags(t, attested);
            && f % 2 == 1 && f / 2 % 2 == 0
            && f / 4 % 2 == (if t.userVerified then 1 else 0)
            && f / 8 % 2 == (if t.backupEligible then 1 else 0)
            && f / 16 % 2 == (if t.backupState then 1 else 0)
            && f / 32 % 2 == 0 && f / 64 % 2 == (if attested then 1 else 0) && f / 128 == 0
  {
  }

  /** What the flag constants read, on any byte. */
  lemma FlagsReadBits(f: byte)
    ensures (HasFlag(f, FLAG_UP) <==> f % 2 == 1) && (HasFlag(f, FLAG_UV) <==> f / 4 % 2 == 1)
    ensures (HasFlag(f, FLAG_BE) <==> f / 8 % 2 == 1) && (HasFlag(f, FLAG_BS) <==> f / 16 % 2 == 1)
    ensures HasFlag(f, FLAG_AT) <==> f / 64 % 2 == 1
  {
  }

  const COUNT_LIMIT: nat := 0x1_0000_0000
  const ID_LIMIT: nat := 0x1_0000

  /** `struct.pack(">I", n)`; the source raises beyond 32 bits. */
  function PackCount(n: nat): Bytes
    requires n < COUNT_LIMIT
  {
    [n / 0x100_0000, n / 0x1_0000 % 256, n / 256 % 256, n % 256]
  }

  /** `struct.pack(">H", n)`; the source raises beyond 16 bits. */
  function PackLength(n: nat): Bytes
    requires n < ID_LIMIT
  {
    [n / 256, n % 256]
  }

  function ReadCount(b: Bytes): nat
    requires |b| == 4
  {
    var b0: int, b1: int, b2: int, b3: int := b[0], b[1], b[2], b[3];
    b0 * 0x100_0000 + b1 * 0x1_0000 + b2 * 256 + b3
  }

  function ReadLength(b: Bytes): nat
    requires |b| == 2
  {
    var b0: int, b1: int := b[0], b[1];
    b0 * 256 + b1
  }

  /** Both numbers are unsigned and most significant byte first. */
  lemma BigEndian(n: nat)
    ensures n < 0x1_0000_0000 ==> var p := PackCount(n);
              |p| == 4 && (p[0] as int) * 16777216 + (p[1] as int) * 65536 + (p[2] as int) * 256 + p[3] as int == n
    ensures n < 0x1_0000 ==> var p := PackLength(n); |p| == 2 && (p[0] as int) * 256 + p[1] as int == n
  {
    if n < 0x1_0000_0000 {
      CountRoundTrip(n);
    }
  }

  lemma CountRoundTrip(n: nat)
    requires n < COUNT_LIMIT
    ensures ReadCount(PackCount(n)) == n
  {
    var q := n / 256;
    assert n == q * 256 + n % 256;
    var r := q / 256;
    assert q == r * 256 + q % 256;
    assert n / 0x1_0000 == r && n / 0x100_0000 == r / 256;
  }

  lemma {:induction false} CountRoundTripBack(b: Bytes)
    requires |b| == 4
    ensures ReadCount(b) < COUNT_LIMIT && PackCount(ReadCount(b)) == b
  {
    var n := ReadCount(b);
    var b0: int, b1: int, b2: int, b3: int := b[0], b[1], b[2], b[3];
    var r := b0 * 256 + b1;
    var q := r * 256 + b2;
    assert n == q * 256 + b3;
    TopAndLast(q, b3);
    TopAndLast(r, b2);
    TopAndLast(b0, b1);
    Quarter(n, q, r, b0);
    assert PackCount(n) == [b0, b1, b2, b3] == b;
  }

  lemma TopAndLast(q: nat, d: nat)
    requires d < 256
    ensures (q * 256 + d) / 256 == q && (q * 256 + d) % 256 == d
  {
  }

  lemma Quarter(n: nat, q: nat, r: nat, p: nat)
    requires n / 256 == q && q / 256 == r && r / 256 == p
    ensures n / 0x1_0000 == r && n / 0x100_0000 == p
  {
  }

  datatype Attested = Attested(aaguid: Bytes, credentialId: Bytes, publicKey: Bytes)

  datatype AuthData = AuthData(rpIdHash: Bytes, flags: byte, signCount: nat, attested: Option<Attested>)

  /** Data the format can carry: the flag says whether a credential is attested, and the sizes fit. */
  predicate Encodable(d: AuthData) {
    && |d.rpIdHash| == 32 && d.signCount < COUNT_LIMIT
    && (HasFlag(d.flags, FLAG_AT) <==> d.attested.Some?)
    && (d.attested.Some? ==> |d.attested.value.aaguid| == 16 && |d.attested.value.credentialId| < ID_LIMIT)
  }

  /** The concatenation `create` and `get` build. */
  function Layout(d: AuthData): Bytes
    requires Encodable(d)
  {
    d.rpIdHash + [d.flags] + PackCount(d.signCount)
    + match d.attested
      case None => []
      case Some(a) => a.aaguid + PackLength(|a.credentialId|) + a.credentialId + a.publicKey
  }

  /**
   Authenticator data per the standard, for data without extensions: what follows the credential id
   is its public key; without attested data nothing may follow the counter.
   */
  function Parse(b: Bytes): Option<AuthData> {
    if |b| < 37 then None
    else
      var hash, flags, count := b[..32], b[32], ReadCount(b[33..37]);
      if !HasFlag(flags, FLAG_AT) then
        if |b| == 37 then Some(AuthData(hash, flags, count, None)) else None
      else if |b| < 55 then None
      else
        var n := ReadLength(b[53..55]);
        if |b| < 55 + n then None
        else Some(AuthData(hash, flags, count, Some(Attested(b[37..53], b[55..55 + n], b[55 + n..]))))
  }

  /** Which bytes hold what: the offsets of sections 6.1 and 6.5.1. */
  lemma LayoutOffsets(d: AuthData)
    requires Encodable(d)
    ensures var b := Layout(d);
            && |b| >= 37 && b[..32] == d.rpIdHash && b[32] == d.flags && b[33..37] == PackCount(d.signCount)
            && match d.attested
               case None => |b| == 37
               case Some(a) =>
                 var n := |a.credentialId|;
                 && |b| == 55 + n + |a.publicKey| && b[37..53] == a.aaguid && b[53..55] == PackLength(n)
                 && b[55..55 + n] == a.credentialId && b[55 + n..] == a.publicKey
  {
  }

  /** The parser recovers every field of every encodable record from the emitted bytes. */
  lemma ParseLayout(d: AuthData)
    requires Encodable(d)
    ensures Parse(Layout(d)) == Some(d)
  {
    var b := Layout(d);
    CountRoundTrip(d.signCount);
    assert b[..32] == d.rpIdHash && b[32] == d.flags && b[33..37] == PackCount(d.signCount);
    match d.attested
    case None =>
    case Some(a) =>
      var n := |a.credentialId|;
      assert b[37..53] == a.aaguid && b[53..55] == PackLength(n);
      assert b[55..55 + n] == a.credentialId && b[55 + n..] == a.publicKey;
  }

  /** And whatever it parses is the layout of what it returns, so the format is unambiguous. */
  lemma {:induction false} LayoutParse(b: Bytes)
    requires Parse(b).Some?
    ensures Encodable(Parse(b).value) && Layout(Parse(b).value) == b
  {
    var d := Parse(b).value;
    CountRoundTripBack(b[33..37]);
    assert b == b[..32] + [b[32]] + b[33..37] + b[37..];
    if d.attested.Some? {
      var n := ReadLength(b[53..55]);
      assert PackLength(n) == b[53..55];
      assert b[37..] == b[37..53] + b[53..55] + b[55..55 + n] + b[55 + n..];
    }
  }
}
