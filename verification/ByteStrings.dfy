/**
 Byte strings, fixed-width integers, hexadecimal text and the hash functions.

 A byte string is a sequence of characters with code points 0..255, so that encoding
 printable ASCII text is the identity. SHA-256 and HMAC are not modelled: they are arbitrary
 functions with 32-byte results, and the results that rely on SHA-256 being collision-free ask
 for it on the finitely many byte strings that the computations in question hash.
 */
module ByteStrings {
  import opened Prelude

  type Bytes = string

  const DIGEST_BYTES := 32
  const MAX_INT63 := 0x7FFF_FFFF_FFFF_FFFF

  ghost predicate FixedWidth(h: Bytes -> Bytes) {
    forall x :: |h(x)| == DIGEST_BYTES && IsBytes(h(x))
  }

  ghost predicate FixedWidthKeyed(h: (Bytes, Bytes) -> Bytes) {
    forall k, x :: |h(k, x)| == DIGEST_BYTES && IsBytes(h(k, x))
  }

  type Sha256 = h: Bytes -> Bytes | FixedWidth(h)
    ghost witness (_ => seq(DIGEST_BYTES, _ => '\0'))

  type Hmac = h: (Bytes, Bytes) -> Bytes | FixedWidthKeyed(h)
    ghost witness ((_, _) => seq(DIGEST_BYTES, _ => '\0'))

  /** No two byte strings of `inputs` share a hash. */
  ghost predicate CollisionFree(h: Sha256, inputs: set<Bytes>) {
    forall x, y :: x in inputs && y in inputs && h(x) == h(y) ==> x == y
  }

  // ---------- fixed-width integers ----------

  function Pow256(n: nat): (r: nat)
    ensures r > 0
  {
    if n == 0 then 1 else 256 * Pow256(n - 1)
  }

  /** The last `width` bytes of the big-endian form of `n`. */
  function BigEndian(n: nat, width: nat): (r: Bytes)
    ensures |r| == width
  {
    if width == 0 then "" else BigEndian(n / 256, width - 1) + [(n % 256) as char]
  }

  /** The number with this big-endian form. */
  function FromBigEndian(b: Bytes): nat {
    if b == "" then 0 else 256 * FromBigEndian(b[..|b| - 1]) + b[|b| - 1] as nat
  }

  lemma {:induction false} BigEndianRoundTrip(n: nat, width: nat)
    requires n < Pow256(width)
    ensures FromBigEndian(BigEndian(n, width)) == n
  {
    if width > 0 {
      var b := BigEndian(n, width);
      assert b[..|b| - 1] == BigEndian(n / 256, width - 1);
      BigEndianRoundTrip(n / 256, width - 1);
    }
  }

  lemma BigEndianInjective(m: nat, n: nat, width: nat)
    requires m < Pow256(width) && n < Pow256(width)
    requires BigEndian(m, width) == BigEndian(n, width)
    ensures m == n
  {
    BigEndianRoundTrip(m, width);
    BigEndianRoundTrip(n, width);
  }

  // ---------- hexadecimal text ----------

  predicate IsHexDigit(c: char) {
    '0' <= c <= '9' || 'a' <= c <= 'f'
  }

  function HexDigit(n: nat): (c: char)
    requires n < 16
    ensures IsHexDigit(c) && HexValue(c) == n
  {
    if n < 10 then ('0' as int + n) as char else ('a' as int + n - 10) as char
  }

  function HexValue(c: char): (n: nat)
    requires IsHexDigit(c)
    ensures n < 16
  {
    if c <= '9' then c as int - '0' as int else 10 + c as int - 'a' as int
  }

  lemma HexValueInverse(c: char)
    requires IsHexDigit(c)
    ensures HexDigit(HexValue(c)) == c
  {
  }

  ghost predicate IsBytes(b: string) {
    forall i :: 0 <= i < |b| ==> b[i] as int < 256
  }

  predicate IsHex(s: string) {
    forall i :: 0 <= i < |s| ==> IsHexDigit(s[i])
  }

  function HexPair(n: nat): (s: string)
    requires n < 256
    ensures |s| == 2 && IsHexDigit(s[0]) && IsHexDigit(s[1]) && PairValue(s[0], s[1]) == n
  {
    [HexDigit(n / 16), HexDigit(n % 16)]
  }

  function PairValue(high: char, low: char): (n: nat)
    requires IsHexDigit(high) && IsHexDigit(low)
    ensures n < 256
  {
    16 * HexValue(high) + HexValue(low)
  }

  lemma PairValueInverse(high: char, low: char)
    requires IsHexDigit(high) && IsHexDigit(low)
    ensures HexPair(PairValue(high, low)) == [high, low]
  {
    HexValueInverse(high);
    HexValueInverse(low);
    var n := PairValue(high, low);
    assert n / 16 == HexValue(high) && n % 16 == HexValue(low);
  }

  function ByteOf(c: char): (n: nat)
    ensures n < 256 && (c as int < 256 ==> n == c as int)
  {
    if c as int < 256 then c as int else 255
  }

  /** Two lower-case hexadecimal digits per byte. */
  function Hex(b: Bytes): (s: string)
    ensures |s| == 2 * |b| && IsHex(s)
  {
    if b == "" then "" else HexPair(ByteOf(b[0])) + Hex(b[1..])
  }

  /** The bytes behind lower-case hexadecimal text of even length. */
  function FromHex(s: string): (b: Bytes)
    requires IsHex(s) && |s| % 2 == 0
    ensures 2 * |b| == |s|
  {
    if s == "" then "" else [PairValue(s[0], s[1]) as char] + FromHex(s[2..])
  }

  lemma HexCons(c: char, b: Bytes)
    requires c as int < 256
    ensures Hex([c] + b) == HexPair(c as int) + Hex(b)
  {
    var s := [c] + b;
    assert s[0] == c && s[1..] == b;
  }

  lemma FromHexCons(pair: string, s: string)
    requires |pair| == 2 && IsHexDigit(pair[0]) && IsHexDigit(pair[1])
    requires IsHex(s) && |s| % 2 == 0
    ensures IsHex(pair + s) && FromHex(pair + s) == [PairValue(pair[0], pair[1]) as char] + FromHex(s)
  {
    var t := pair + s;
    assert t[0] == pair[0] && t[1] == pair[1] && t[2..] == s;
  }

  lemma {:induction false} HexRoundTrip(b: Bytes)
    requires IsBytes(b)
    ensures FromHex(Hex(b)) == b
  {
    if b != "" {
      HexRoundTrip(b[1..]);
      assert b == [b[0]] + b[1..];
      HexCons(b[0], b[1..]);
      FromHexCons(HexPair(b[0] as int), Hex(b[1..]));
    }
  }

  lemma {:induction false} FromHexRoundTrip(s: string)
    requires IsHex(s) && |s| % 2 == 0
    ensures Hex(FromHex(s)) == s && IsBytes(FromHex(s))
  {
    if s != "" {
      var tail := s[2..];
      FromHexRoundTrip(tail);
      PairValueInverse(s[0], s[1]);
      var c := PairValue(s[0], s[1]) as char;
      assert s == [s[0], s[1]] + tail;
      FromHexCons([s[0], s[1]], tail);
      HexCons(c, FromHex(tail));
    }
  }

  lemma HexInjective(b: Bytes, c: Bytes)
    requires IsBytes(b) && IsBytes(c) && Hex(b) == Hex(c)
    ensures b == c
  {
    HexRoundTrip(b);
    HexRoundTrip(c);
  }

  lemma FromHexInjective(s: string, t: string)
    requires IsHex(s) && IsHex(t) && |s| % 2 == 0 && |t| % 2 == 0
    requires FromHex(s) == FromHex(t)
    ensures s == t
  {
    FromHexRoundTrip(s);
    FromHexRoundTrip(t);
  }

  const SHA_PREFIX := "sha256:"

  /** The pattern `sha256:[0-9a-f]{64}` used for every digest text. */
  predicate IsDigest(s: string) {
    |s| == 71 && s[..7] == SHA_PREFIX && IsHex(s[7..])
  }

  /** The pattern `[0-9a-f]{64}` used for seeds, nonces and challenge identifiers. */
  predicate IsHex256(s: string) {
    |s| == 64 && IsHex(s)
  }

  /** The 32 bytes behind a digest text. */
  function DigestBytes(s: string): (b: Bytes)
    requires IsDigest(s)
    ensures |b| == DIGEST_BYTES
  {
    FromHex(s[7..])
  }

  lemma DigestBytesInjective(s: string, t: string)
    requires IsDigest(s) && IsDigest(t) && DigestBytes(s) == DigestBytes(t)
    ensures s == t
  {
    FromHexInjective(s[7..], t[7..]);
    assert s == s[..7] + s[7..] && t == t[..7] + t[7..];
  }

  /** The text of a digest: its name, a colon and hexadecimal digits. */
  function DigestText(b: Bytes): (s: string)
    requires |b| == DIGEST_BYTES
    ensures IsDigest(s)
  {
    var s := SHA_PREFIX + Hex(b);
    assert s[..7] == SHA_PREFIX && s[7..] == Hex(b);
    s
  }

  lemma DigestTextInjective(b: Bytes, c: Bytes)
    requires |b| == |c| == DIGEST_BYTES && IsBytes(b) && IsBytes(c)
    requires DigestText(b) == DigestText(c)
    ensures b == c
  {
    assert DigestText(b)[7..] == Hex(b) && DigestText(c)[7..] == Hex(c);
    HexInjective(b, c);
  }
}
