/** SHA-1 as FIPS 180-4 defines it, over byte sequences. */
module Sha1Spec {
  const BLOCK := 64
  const DIGEST := 20

  // ---------------------------------------------------------------- section 4.1.1 and 4.2.1

  function Rotl(x: bv32, n: nat): bv32
    requires 0 < n < 32
  {
    (x << n) | (x >> (32 - n))
  }

  /** A rotation to the left: the low bits move up, and the bits pushed out at the top come in at the bottom. */
  lemma RotlOne(x: bv32)
    ensures Rotl(x, 1) >> 1 == x & 0x7fff_ffff && Rotl(x, 1) & 0x1 == x >> 31
  {
  }

  lemma RotlFive(x: bv32)
    ensures Rotl(x, 5) >> 5 == x & 0x07ff_ffff && Rotl(x, 5) & 0x1f == x >> 27
  {
  }

  lemma RotlThirty(x: bv32)
    ensures Rotl(x, 30) >> 30 == x & 0x3 && Rotl(x, 30) & 0x3fff_ffff == x >> 2
  {
  }

  function Ch(x: bv32, y: bv32, z: bv32): bv32 { (x & y) ^ (!x & z) }

  function Parity(x: bv32, y: bv32, z: bv32): bv32 { x ^ y ^ z }

  function Maj(x: bv32, y: bv32, z: bv32): bv32 { (x & y) ^ (x & z) ^ (y & z) }

  function F(t: nat, x: bv32, y: bv32, z: bv32): bv32 {
    if t < 20 then Ch(x, y, z) else if t < 40 then Parity(x, y, z) else if t < 60 then Maj(x, y, z) else Parity(x, y, z)
  }

  function K(t: nat): bv32 {
    if t < 20 then 0x5a827999 else if t < 40 then 0x6ed9eba1 else if t < 60 then 0x8f1bbcdc else 0xca62c1d6
  }

  // ---------------------------------------------------------------- section 6.1.2

  datatype Hash = Hash(a: bv32, b: bv32, c: bv32, d: bv32, e: bv32)

  /** The message schedule of 80 words. */
  function W(block: seq<bv32>, t: nat): bv32
    requires |block| == 16
  {
    if t < 16 then block[t]
    else Rotl(W(block, t - 3) ^ W(block, t - 8) ^ W(block, t - 14) ^ W(block, t - 16), 1)
  }

  /** Addition of words, modulo 2^32. */
  function Plus(x: bv32, y: bv32): bv32 { x + y }

  function Sum5(u: bv32, v: bv32, w: bv32, x: bv32, y: bv32): bv32 { u + v + w + x + y }

  function Round(h: Hash, t: nat, w: bv32): Hash {
    Hash(Sum5(Rotl(h.a, 5), F(t, h.b, h.c, h.d), h.e, K(t), w), h.a, Rotl(h.b, 30), h.c, h.d)
  }

  function Sum(h: Hash, r: Hash): Hash {
    Hash(Plus(h.a, r.a), Plus(h.b, r.b), Plus(h.c, r.c), Plus(h.d, r.d), Plus(h.e, r.e))
  }

  /** The working variables after the first `t` rounds. */
  function Rounds(h: Hash, block: seq<bv32>, t: nat): Hash
    requires |block| == 16
  {
    if t == 0 then h else Round(Rounds(h, block, t - 1), t - 1, W(block, t - 1))
  }

  function Compress(h: Hash, block: seq<bv32>): Hash
    requires |block| == 16
  {
    Sum(h, Rounds(h, block, 80))
  }

  const IV := Hash(0x67452301, 0xefcdab89, 0x98badcfe, 0x10325476, 0xc3d2e1f0)

  // ---------------------------------------------------------------- sections 5.1.1, 5.2.1 and 6.1

  /** Four bytes as a word, the first one most significant. */
  function BigEndian(b0: bv8, b1: bv8, b2: bv8, b3: bv8): bv32 {
    ((b0 as bv32) << 24) | ((b1 as bv32) << 16) | ((b2 as bv32) << 8) | (b3 as bv32)
  }

  function Parse(bytes: seq<bv8>): (words: seq<bv32>)
    requires |bytes| == BLOCK
    ensures |words| == 16
  {
    seq(16, i requires 0 <= i < 16 =>
      BigEndian(bytes[4 * i], bytes[4 * i + 1], bytes[4 * i + 2], bytes[4 * i + 3]))
  }

  /** The hash value after all the blocks of a stream of whole blocks. */
  function Absorb(stream: seq<bv8>): Hash
    requires |stream| % BLOCK == 0
  {
    if |stream| == 0 then IV
    else Compress(Absorb(stream[..|stream| - BLOCK]), Parse(stream[|stream| - BLOCK..]))
  }

  function ByteOf(v: nat): bv8 {
    (v % 256) as bv8
  }

  /** The low byte of `n` divided by a power of two. */
  function LowByte(n: nat, divisor: nat): bv8
    requires 0 < divisor
  {
    ByteOf(n / divisor)
  }

  /** The low 64 bits of `n`, most significant byte first. */
  function Length64(n: nat): (s: seq<bv8>)
    ensures |s| == 8
  {
    [LowByte(n, 0x100_0000_0000_0000), LowByte(n, 0x1_0000_0000_0000), LowByte(n, 0x100_0000_0000),
     LowByte(n, 0x1_0000_0000), LowByte(n, 0x100_0000), LowByte(n, 0x1_0000), LowByte(n, 0x100), LowByte(n, 1)]
  }

  lemma ByteThere(w: nat)
    requires w < 256
    ensures (w as bv8) as nat == w
  {
    var c := (w as bv8) as nat;
    assert c < 256;
    assert (w - c) % 256 == 0;
  }

  lemma ByteOfIs(v: nat)
    ensures ByteOf(v) as nat == v % 256
  {
    ByteThere(v % 256);
  }

  /** The number that these bytes write in base 256, the first one most significant. */
  function BigValue(s: seq<bv8>): nat {
    if s == [] then 0 else BigValue(s[..|s| - 1]) * 256 + s[|s| - 1] as nat
  }

  lemma NoBytes()
    ensures BigValue([]) == 0
  {
  }

  lemma {:induction false} OneMoreByte(s: seq<bv8>, c: bv8, v: nat)
    requires BigValue(s) == v / 256 && c == ByteOf(v)
    ensures BigValue(s + [c]) == v
  {
    hide ByteOf;
    ByteOfIs(v);
    assert (s + [c])[..|s|] == s;
  }

  lemma LowDivided(n: nat)
    requires n < 0x1_0000_0000_0000_0000
    ensures n / 1 / 256 == n / 0x100 && n / 0x100 / 256 == n / 0x1_0000 && n / 0x1_0000 / 256 == n / 0x100_0000
    ensures n / 0x100_0000 / 256 == n / 0x1_0000_0000
  {
  }

  lemma HighDivided(n: nat)
    requires n < 0x1_0000_0000_0000_0000
    ensures n / 0x1_0000_0000 / 256 == n / 0x100_0000_0000 && n / 0x100_0000_0000 / 256 == n / 0x1_0000_0000_0000
    ensures n / 0x1_0000_0000_0000 / 256 == n / 0x100_0000_0000_0000 && n / 0x100_0000_0000_0000 / 256 == 0
  {
  }

  lemma {:induction false} HighBytes(n: nat)
    requires n < 0x1_0000_0000_0000_0000
    ensures BigValue([LowByte(n, 0x100_0000_0000_0000), LowByte(n, 0x1_0000_0000_0000), LowByte(n, 0x100_0000_0000),
                      LowByte(n, 0x1_0000_0000)]) == n / 0x1_0000_0000
  {
    hide ByteOf, BigValue;
    NoBytes();
    HighDivided(n);
    var b := [ByteOf(n / 0x100_0000_0000_0000)];
    OneMoreByte([], ByteOf(n / 0x100_0000_0000_0000), n / 0x100_0000_0000_0000);
    assert [] + b == b;
    OneMoreByte(b, ByteOf(n / 0x1_0000_0000_0000), n / 0x1_0000_0000_0000);
    OneMoreByte(b + [ByteOf(n / 0x1_0000_0000_0000)], ByteOf(n / 0x100_0000_0000), n / 0x100_0000_0000);
    var c := b + [ByteOf(n / 0x1_0000_0000_0000)] + [ByteOf(n / 0x100_0000_0000)];
    OneMoreByte(c, ByteOf(n / 0x1_0000_0000), n / 0x1_0000_0000);
    assert c + [ByteOf(n / 0x1_0000_0000)] ==
           [LowByte(n, 0x100_0000_0000_0000), LowByte(n, 0x1_0000_0000_0000), LowByte(n, 0x100_0000_0000),
            LowByte(n, 0x1_0000_0000)];
  }

  /** Those bytes write `n`. */
  lemma {:induction false} Length64Denotes(n: nat)
    requires n < 0x1_0000_0000_0000_0000
    ensures BigValue(Length64(n)) == n
  {
    hide ByteOf, BigValue;
    LowDivided(n);
    HighBytes(n);
    var b := [LowByte(n, 0x100_0000_0000_0000), LowByte(n, 0x1_0000_0000_0000), LowByte(n, 0x100_0000_0000),
              LowByte(n, 0x1_0000_0000)];
    OneMoreByte(b, ByteOf(n / 0x100_0000), n / 0x100_0000);
    OneMoreByte(b + [ByteOf(n / 0x100_0000)], ByteOf(n / 0x1_0000), n / 0x1_0000);
    var c := b + [ByteOf(n / 0x100_0000)] + [ByteOf(n / 0x1_0000)];
    OneMoreByte(c, ByteOf(n / 0x100), n / 0x100);
    OneMoreByte(c + [ByteOf(n / 0x100)], ByteOf(n / 1), n / 1);
    assert Length64(n) == c + [ByteOf(n / 0x100)] + [ByteOf(n / 1)];
  }

  function Zeros(n: nat): seq<bv8> {
    seq(n, _ => 0)
  }

  lemma PaddingFits(n: nat)
    ensures (n + 1 + (55 - n) % BLOCK + 8) % BLOCK == 0
  {
    var k := (55 - n) / BLOCK;
    assert (55 - n) % BLOCK == 55 - n - BLOCK * k;
  }

  /** What padding appends to a message of `n` bytes, given the eight length bytes. */
  function Padding(n: nat, length: seq<bv8>): (s: seq<bv8>)
    requires |length| == 8
    ensures (n + |s|) % BLOCK == 0
  {
    PaddingFits(n);
    [0x80] + Zeros((55 - n) % BLOCK) + length
  }

  lemma LeastFill(n: nat, zeros: nat)
    requires (n + 1 + zeros + 8) % 64 == 0
    ensures (55 - n) % 64 <= zeros
  {
    var k := (n + 9 + zeros) / 64;
    assert 55 - n == zeros - 64 * (k - 1);
    assert (55 - n) % 64 == zeros % 64;
  }

  /** No fewer zeros would fill the last block. */
  lemma PaddingIsLeast(n: nat, length: seq<bv8>, zeros: nat)
    requires |length| == 8 && (n + 1 + zeros + 8) % 64 == 0
    ensures |Padding(n, length)| <= 1 + zeros + 8
    ensures Padding(n, length)[0] == 0x80
    ensures forall i :: 1 <= i < |Padding(n, length)| - 8 ==> Padding(n, length)[i] == 0
    ensures Padding(n, length)[|Padding(n, length)| - 8..] == length
  {
    LeastFill(n, zeros);
  }

  function Pad(msg: seq<bv8>): (s: seq<bv8>)
    ensures |s| % BLOCK == 0
  {
    msg + Padding(|msg|, Length64(8 * |msg|))
  }

  function WordBytes(w: bv32): seq<bv8> {
    [(w >> 24) as bv8, ((w >> 16) & 0xff) as bv8, ((w >> 8) & 0xff) as bv8, (w & 0xff) as bv8]
  }

  function DigestBytes(h: Hash): (s: seq<bv8>)
    ensures |s| == DIGEST
  {
    WordBytes(h.a) + WordBytes(h.b) + WordBytes(h.c) + WordBytes(h.d) + WordBytes(h.e)
  }

  function Sha1(msg: seq<bv8>): (digest: seq<bv8>)
    ensures |digest| == DIGEST
  {
    DigestBytes(Absorb(Pad(msg)))
  }

  // ---------------------------------------------------------------- HMAC, section 2 of RFC 2104

  const IPAD: bv8 := 0x36
  const OPAD: bv8 := 0x5c

  /** The key filled up to a block; long keys are hashed first. */
  function KeyBlock(key: seq<bv8>): (s: seq<bv8>)
    ensures |s| == BLOCK
  {
    var k := if |key| > BLOCK then Sha1(key) else key;
    k + Zeros(BLOCK - |k|)
  }

  function XorWith(s: seq<bv8>, pad: bv8): (r: seq<bv8>)
    ensures |r| == |s|
  {
    seq(|s|, i requires 0 <= i < |s| => s[i] ^ pad)
  }

  function Hmac(key: seq<bv8>, text: seq<bv8>): (mac: seq<bv8>)
    ensures |mac| == DIGEST
  {
    Sha1(XorWith(KeyBlock(key), OPAD) + Sha1(XorWith(KeyBlock(key), IPAD) + text))
  }

  /** What a key stands for: one longer than a block for its digest, and one shorter for itself with zeros behind it;
      one of exactly a block is used as it is. */
  lemma KeysAlike(key: seq<bv8>)
    ensures |key| > 64 ==> KeyBlock(key) == KeyBlock(Sha1(key))
    ensures |key| < 64 ==> KeyBlock(key) == KeyBlock(key + [0])
    ensures |key| == 64 ==> KeyBlock(key) == key
  {
  }
}
