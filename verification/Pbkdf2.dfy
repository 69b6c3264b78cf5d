/** PBKDF2 with HMAC-SHA-1, section 5.2 of RFC 8018: the definition, and the code that derives the key
    block by block from one precomputed keyed context. */
module Pbkdf2 {
  import opened Sha1Spec
  import opened Sha1

  // ---------------------------------------------------------------- the definition

  /** Four bytes of `n`, most significant first. */
  function Int32(n: nat): (s: seq<bv8>)
    ensures |s| == 4
  {
    [LowByte(n, 0x100_0000), LowByte(n, 0x1_0000), LowByte(n, 0x100), LowByte(n, 1)]
  }

  lemma {:induction false} FourBytes(s: seq<bv8>)
    requires |s| == 4
    ensures BigValue(s) == s[0] as nat * 0x100_0000 + s[1] as nat * 0x1_0000 + s[2] as nat * 0x100 + s[3] as nat
  {
    assert s[..3][..2] == s[..2] && s[..2][..1] == s[..1] && s[..1][..0] == [];
    assert BigValue(s[..1]) == s[0] as nat;
    assert BigValue(s[..2]) == BigValue(s[..1]) * 256 + s[1] as nat;
    assert BigValue(s[..3]) == BigValue(s[..2]) * 256 + s[2] as nat;
  }

  /** They write `n` in base 256. */
  lemma {:induction false} Int32Denotes(n: nat)
    requires n < 0x1_0000_0000
    ensures BigValue(Int32(n)) == n
    ensures var s := Int32(n);
            s[0] as nat * 0x100_0000 + s[1] as nat * 0x1_0000 + s[2] as nat * 0x100 + s[3] as nat == n
  {
    hide ByteOf, BigValue;
    LowDivided(n);
    NoBytes();
    var b := [ByteOf(n / 0x100_0000)];
    OneMoreByte([], ByteOf(n / 0x100_0000), n / 0x100_0000);
    assert [] + b == b;
    OneMoreByte(b, ByteOf(n / 0x1_0000), n / 0x1_0000);
    var c := b + [ByteOf(n / 0x1_0000)];
    OneMoreByte(c, ByteOf(n / 0x100), n / 0x100);
    OneMoreByte(c + [ByteOf(n / 0x100)], ByteOf(n / 1), n / 1);
    assert Int32(n) == c + [ByteOf(n / 0x100)] + [ByteOf(n / 1)];
    FourBytes(Int32(n));
  }

  /** U_c for block `i`. */
  function U(pw: seq<bv8>, salt: seq<bv8>, i: nat, c: nat): (u: seq<bv8>)
    requires 1 <= c
    ensures |u| == DIGEST
  {
    if c == 1 then Hmac(pw, salt + Int32(i)) else Hmac(pw, U(pw, salt, i, c - 1))
  }

  function Xor(s: seq<bv8>, t: seq<bv8>): (r: seq<bv8>)
    requires |s| == |t|
    ensures |r| == |s|
  {
    seq(|s|, i requires 0 <= i < |s| => s[i] ^ t[i])
  }

  lemma XorBytes(x: bv8, y: bv8)
    ensures (x ^ y) ^ y == x && x ^ y == y ^ x && x ^ 0 == x
  {
  }

  /** What is mixed in twice is gone, and the order does not matter. */
  lemma XorLaws(s: seq<bv8>, t: seq<bv8>)
    requires |s| == |t|
    ensures Xor(Xor(s, t), t) == s && Xor(s, t) == Xor(t, s) && Xor(s, Zeros(|s|)) == s
  {
    forall i | 0 <= i < |s|
      ensures Xor(Xor(s, t), t)[i] == s[i] && Xor(s, t)[i] == Xor(t, s)[i] && Xor(s, Zeros(|s|))[i] == s[i]
    {
      XorBytes(s[i], t[i]);
    }
  }

  /** Block `i` of the derived key: U_1 xor ... xor U_c. */
  function T(pw: seq<bv8>, salt: seq<bv8>, c: nat, i: nat): (t: seq<bv8>)
    requires 1 <= c
    ensures |t| == DIGEST
  {
    if c == 1 then U(pw, salt, i, 1) else Xor(T(pw, salt, c - 1, i), U(pw, salt, i, c))
  }

  /** T_1 to T_k, one after the other. */
  function Blocks(pw: seq<bv8>, salt: seq<bv8>, c: nat, k: nat): (s: seq<bv8>)
    requires 1 <= c
    ensures |s| == 20 * k
  {
    if k == 0 then [] else Blocks(pw, salt, c, k - 1) + T(pw, salt, c, k)
  }

  /** The derived key of `n` bytes. */
  function DerivedKey(pw: seq<bv8>, salt: seq<bv8>, c: nat, n: nat): (s: seq<bv8>)
    requires 1 <= c
    ensures |s| == n
  {
    Blocks(pw, salt, c, (n + 19) / 20)[..n]
  }

  lemma {:induction false} BlocksExtend(pw: seq<bv8>, salt: seq<bv8>, c: nat, j: nat, k: nat)
    requires 1 <= c && j <= k
    ensures Blocks(pw, salt, c, j) == Blocks(pw, salt, c, k)[..20 * j]
  {
    hide T;
    if j < k {
      BlocksExtend(pw, salt, c, j, k - 1);
      assert Blocks(pw, salt, c, k)[..20 * (k - 1)] == Blocks(pw, salt, c, k - 1);
    }
  }

  /** A shorter key is a prefix of a longer one. */
  lemma ShorterKeyIsPrefix(pw: seq<bv8>, salt: seq<bv8>, c: nat, m: nat, n: nat)
    requires 1 <= c && m <= n
    ensures DerivedKey(pw, salt, c, m) == DerivedKey(pw, salt, c, n)[..m]
  {
    BlocksExtend(pw, salt, c, (m + 19) / 20, (n + 19) / 20);
  }

  /** Byte `j` of the key is byte `j % 20` of block `j / 20 + 1`. */
  lemma KeyByte(pw: seq<bv8>, salt: seq<bv8>, c: nat, n: nat, j: nat)
    requires 1 <= c && j < n
    ensures DerivedKey(pw, salt, c, n)[j] == T(pw, salt, c, j / 20 + 1)[j % 20]
  {
    var k := j / 20 + 1;
    BlocksExtend(pw, salt, c, k, (n + 19) / 20);
    assert DerivedKey(pw, salt, c, n)[j] == Blocks(pw, salt, c, k)[j];
  }

  // ---------------------------------------------------------------- the code

  /** A context that shares no memory with `start`. */
  ghost predicate Separate(ctx: Sha1Info, start: Sha1Info) {
    && ctx.Shape() && start.Shape() && ctx != start && ctx.state != start.state
    && start.Without(ctx.buffer) && start.Without(ctx.keyBuffer) && start.Without(ctx.innerHash)
  }

  lemma Appended(prefix: seq<bv8>, data: seq<bv8>, more: seq<bv8>)
    ensures prefix + [] + data + more == prefix + (data + more)
  {
  }

  /** The keyed context is copied, `data` written, and the copy finished: the same as keying afresh. */
  method CopyAndFinish(ctx: Sha1Info, start: Sha1Info, data: seq<bv8>, more: seq<bv8>, ghost pw: seq<bv8>)
    returns (mac: seq<bv8>)
    requires Separate(ctx, start) && start.Keyed(pw, [])
    requires BLOCK + |data| + |more| < LIMIT
    modifies ctx, ctx.buffer, ctx.state, ctx.keyBuffer, ctx.innerHash
    ensures mac == Hmac(pw, data + more) && start.Keyed(pw, [])
  {
    hide Sha1Spec.Sha1, Hmac, XorWith, KeyBlock, Sha1Spec.Absorb, Hashed, Waiting, Holds;
    ctx.CopyFrom(start);
    assert ctx.Keyed(pw, []);
    ghost var prefix := XorWith(KeyBlock(pw), IPAD);
    ctx.Write(data);
    ctx.Write(more);
    Appended(prefix, data, more);
    mac := ctx.HmacResult(pw, data + more);
  }

  /** `xor_bb` of `out` and `u` into `out`. */
  method XorInto(out: array<bv8>, u: seq<bv8>)
    requires out.Length == DIGEST == |u|
    modifies out
    ensures out[..] == Xor(old(out[..]), u)
  {
    for i := 0 to DIGEST
      invariant forall j :: 0 <= j < DIGEST ==> out[j] == if j < i then old(out[j]) ^ u[j] else old(out[j])
    {
      out[i] := out[i] ^ u[i];
    }
  }

  lemma FirstRound(pw: seq<bv8>, salt: seq<bv8>, i: nat)
    ensures U(pw, salt, i, 1) == Hmac(pw, salt + Int32(i)) == T(pw, salt, 1, i)
  {
  }

  lemma NextRound(pw: seq<bv8>, salt: seq<bv8>, i: nat, c: nat)
    requires 1 <= c
    ensures U(pw, salt, i, c + 1) == Hmac(pw, U(pw, salt, i, c))
    ensures T(pw, salt, c + 1, i) == Xor(T(pw, salt, c, i), U(pw, salt, i, c + 1))
  {
  }

  /** Zero iterations count as one. */
  function AtLeastOnce(iterations: nat): (c: nat)
    ensures c >= 1
  {
    if iterations == 0 then 1 else iterations
  }

  /** `write32_be`: the most significant byte first. */
  method Write32Be(v: nat, buf: array<bv8>)
    requires buf.Length == 4
    modifies buf
    ensures buf[..] == Int32(v)
    ensures v < 0x1_0000_0000 ==> BigValue(buf[..]) == v
  {
    hide ByteOf, BigValue;
    buf[0] := ByteOf(v / 0x100_0000);
    buf[1] := ByteOf(v / 0x1_0000);
    buf[2] := ByteOf(v / 0x100);
    buf[3] := ByteOf(v);
    if v < 0x1_0000_0000 { Int32Denotes(v); }
  }

  /** `F_sha1`: block `counter` of the key into `out`.  Zero iterations count as one. */
  method FSha1(start: Sha1Info, ctx: Sha1Info, counter: nat, salt: seq<bv8>, iterations: nat, out: array<bv8>,
               ghost pw: seq<bv8>)
    requires Separate(ctx, start) && start.Keyed(pw, []) && BLOCK + |salt| + 4 < LIMIT && out.Length == DIGEST
    requires ctx.Without(out) && start.Without(out)
    modifies ctx, ctx.buffer, ctx.state, ctx.keyBuffer, ctx.innerHash, out
    ensures start.Keyed(pw, []) && out[..] == T(pw, salt, AtLeastOnce(iterations), counter)
  {
    hide Hmac, U, T, Xor, Int32, Sha1Info.Keyed;
    FirstRound(pw, salt, counter);
    var countbuf := new bv8[4];
    Write32Be(counter, countbuf);
    var u := CopyAndFinish(ctx, start, salt, countbuf[..], pw);
    forall i | 0 <= i < DIGEST { out[i] := u[i]; }
    assert out[..] == u;
    var i := 1;
    while i < iterations
      invariant 1 <= i && (i <= iterations || (iterations == 0 && i == 1))
      invariant start.Keyed(pw, []) && u == U(pw, salt, counter, i) && out[..] == T(pw, salt, i, counter)
      decreases iterations - i
    {
      assert u + [] == u;
      NextRound(pw, salt, counter, i);
      u := CopyAndFinish(ctx, start, u, [], pw);
      XorInto(out, u);
      i := i + 1;
    }
  }

  /** The arrays of a call: the key being derived, and one block. */
  ghost predicate Apart(ctx: Sha1Info, start: Sha1Info, block: array<bv8>, out: array<bv8>) {
    && block != out && block.Length == DIGEST
    && ctx.Without(block) && start.Without(block) && ctx.Without(out) && start.Without(out)
  }

  method Copy(out: array<bv8>, at: nat, block: array<bv8>, n: nat)
    requires at + n <= out.Length && n <= block.Length && out != block
    modifies out
    ensures out[..at + n] == old(out[..at]) + block[..n]
  {
    for i := 0 to n
      invariant out[..at + i] == old(out[..at]) + block[..i]
    {
      out[at + i] := block[i];
      assert out[..at + i + 1] == out[..at + i] + [block[i]];
    }
  }

  /** The key grows by the bytes taken from its next block. */
  lemma NextBlock(pw: seq<bv8>, salt: seq<bv8>, c: nat, counter: nat, at: nat, taken: nat)
    requires 1 <= c && 1 <= counter && at == 20 * (counter - 1) && 0 < taken <= DIGEST
    ensures DerivedKey(pw, salt, c, at + taken) == DerivedKey(pw, salt, c, at) + T(pw, salt, c, counter)[..taken]
  {
    hide T;
    assert (at + taken + 19) / 20 == counter;
    assert (at + 19) / 20 == counter - 1;
  }

  /** One round of the loop of `pbkdf2_hmac_sha1`: the next `taken` bytes. */
  method DeriveBlock(start: Sha1Info, ctx: Sha1Info, counter: nat, pw: seq<bv8>, salt: seq<bv8>, iterations: nat,
                     block: array<bv8>, out: array<bv8>, at: nat, taken: nat)
    requires Separate(ctx, start) && start.Keyed(pw, []) && BLOCK + |salt| + 4 < LIMIT && Apart(ctx, start, block, out)
    requires 1 <= counter && at == 20 * (counter - 1) && 0 < taken <= DIGEST && at + taken <= out.Length
    requires out[..at] == DerivedKey(pw, salt, AtLeastOnce(iterations), at)
    modifies ctx, ctx.buffer, ctx.state, ctx.keyBuffer, ctx.innerHash, block, out
    ensures start.Keyed(pw, [])
    ensures out[..at + taken] == DerivedKey(pw, salt, AtLeastOnce(iterations), at + taken)
  {
    hide T, DerivedKey, Sha1Info.Keyed, U, Hmac;
    ghost var c := AtLeastOnce(iterations);
    NextBlock(pw, salt, c, counter, at, taken);
    ghost var sofar := out[..at];
    FSha1(start, ctx, counter, salt, iterations, block, pw);
    assert out[..at] == sofar;
    Copy(out, at, block, taken);
  }

  /** `pbkdf2_hmac_sha1`: the derived key of `out.Length` bytes. */
  method Pbkdf2HmacSha1(pw: seq<bv8>, salt: seq<bv8>, iterations: nat, out: array<bv8>)
    requires |pw| < 0x8000_0000 && BLOCK + |salt| + 4 < LIMIT && out.Length < LIMIT
    modifies out
    ensures out[..] == DerivedKey(pw, salt, AtLeastOnce(iterations), out.Length)
  {
    hide Sha1Info.Keyed;
    ghost var c := AtLeastOnce(iterations);
    hide DerivedKey;
    var start := new Sha1Info();
    var ctx := new Sha1Info();
    var block := new bv8[DIGEST];
    start.HmacInit(pw);
    var at: nat, left: nat, counter: nat := 0, out.Length, 1;
    while left > 0
      invariant at + left == out.Length && start.Keyed(pw, []) && Separate(ctx, start)
      invariant out[..at] == DerivedKey(pw, salt, c, at)
      invariant 1 <= counter && (left > 0 ==> at == 20 * (counter - 1))
    {
      var taken := if left < DIGEST then left else DIGEST;
      DeriveBlock(start, ctx, counter, pw, salt, iterations, block, out, at, taken);
      at, left := at + taken, left - taken;
      counter := counter + 1;
    }
    assert out[..out.Length] == out[..];
  }
}
