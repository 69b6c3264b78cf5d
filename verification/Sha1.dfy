/** The streaming SHA-1 of the hash library: a 64-byte buffer of 16 words that is filled byte by byte and
    then overwritten by its own message schedule. */
module Sha1 {
  import opened Sha1Spec
  import Sha1Rounds

  const LIMIT := 0x1_0000_0000  // the byte count is a 32-bit counter

  // ---------------------------------------------------------------- words in little-endian memory

  /** The byte of `w` at little-endian place `lane`. */
  function Lane(w: bv32, lane: nat): bv8
    requires lane < 4
  {
    if lane == 0 then (w & 0xff) as bv8
    else if lane == 1 then ((w >> 8) & 0xff) as bv8
    else if lane == 2 then ((w >> 16) & 0xff) as bv8
    else ((w >> 24) & 0xff) as bv8
  }

  lemma WordOfLanes(w: bv32)
    ensures BigEndian(Lane(w, 3), Lane(w, 2), Lane(w, 1), Lane(w, 0)) == w
  {
  }

  /** Word `j` of the buffer, as a little-endian load. */
  function Load(bytes: seq<bv8>, j: nat): bv32
    requires |bytes| == BLOCK && j < 16
  {
    BigEndian(bytes[4 * j + 3], bytes[4 * j + 2], bytes[4 * j + 1], bytes[4 * j])
  }

  /** The buffer as its 16 words. */
  function Words(bytes: seq<bv8>): (words: seq<bv32>)
    requires |bytes| == BLOCK
    ensures |words| == 16
  {
    seq(16, j requires 0 <= j < 16 => Load(bytes, j))
  }

  function Stored(bytes: seq<bv8>, j: nat, w: bv32): (r: seq<bv8>)
    requires |bytes| == BLOCK && j < 16
    ensures |r| == BLOCK
  {
    bytes[4 * j := Lane(w, 0)][4 * j + 1 := Lane(w, 1)][4 * j + 2 := Lane(w, 2)][4 * j + 3 := Lane(w, 3)]
  }

  lemma StoredWord(bytes: seq<bv8>, j: nat, w: bv32)
    requires |bytes| == BLOCK && j < 16
    ensures Words(Stored(bytes, j, w)) == Words(bytes)[j := w]
  {
    WordOfLanes(w);
    hide Lane, BigEndian;
    var r := Stored(bytes, j, w);
    forall i | 0 <= i < 16 ensures Words(r)[i] == Words(bytes)[j := w][i] {
      assert Load(r, i) == if i == j then w else Load(bytes, i);
    }
  }

  /** `offset ^ 3`: the same word, its bytes counted from the other end. */
  function Flip(offset: nat): nat {
    offset - offset % 4 + (3 - offset % 4)
  }

  // ---------------------------------------------------------------- the stream

  /** The buffer holds the first bytes of a block, each word's bytes in reverse. */
  ghost predicate Holds(buffer: seq<bv8>, bytes: seq<bv8>) {
    |buffer| == BLOCK && |bytes| <= BLOCK &&
    forall i {:trigger bytes[i]} :: 0 <= i < |bytes| ==> Flip(i) < BLOCK && buffer[Flip(i)] == bytes[i]
  }

  lemma FlipPlaces(i: nat, j: nat)
    requires i < BLOCK
    ensures Flip(i) < BLOCK && (i != j ==> Flip(i) != Flip(j))
  {
  }

  /** Storing the next byte of the block. */
  lemma PutNext(buffer: seq<bv8>, bytes: seq<bv8>, data: bv8)
    requires Holds(buffer, bytes) && |bytes| < BLOCK
    ensures Flip(|bytes|) < BLOCK && Holds(buffer[Flip(|bytes|) := data], bytes + [data])
  {
    hide Flip;
    var n := |bytes|;
    FlipPlaces(n, 0);
    forall i | 0 <= i < n + 1 ensures Flip(i) < BLOCK && buffer[Flip(n) := data][Flip(i)] == (bytes + [data])[i] {
      FlipPlaces(i, n);
    }
  }

  lemma FullWord(buffer: seq<bv8>, bytes: seq<bv8>, j: nat)
    requires Holds(buffer, bytes) && |bytes| == BLOCK && j < 16
    ensures Load(buffer, j) == BigEndian(bytes[4 * j], bytes[4 * j + 1], bytes[4 * j + 2], bytes[4 * j + 3])
  {
    hide BigEndian;
    assert bytes[4 * j] == buffer[Flip(4 * j)] && bytes[4 * j + 1] == buffer[Flip(4 * j + 1)];
    assert bytes[4 * j + 2] == buffer[Flip(4 * j + 2)] && bytes[4 * j + 3] == buffer[Flip(4 * j + 3)];
    hide Holds;
    assert Flip(4 * j) == 4 * j + 3 && Flip(4 * j + 1) == 4 * j + 2;
    assert Flip(4 * j + 2) == 4 * j + 1 && Flip(4 * j + 3) == 4 * j;
  }

  /** A full buffer holds the words of its block. */
  lemma FullHolds(buffer: seq<bv8>, bytes: seq<bv8>)
    requires Holds(buffer, bytes) && |bytes| == BLOCK
    ensures Words(buffer) == Parse(bytes)
  {
    forall j | 0 <= j < 16 ensures Words(buffer)[j] == Parse(bytes)[j] {
      FullWord(buffer, bytes, j);
    }
  }

  /** The part of a stream that is already hashed. */
  function Hashed(stream: seq<bv8>): (s: seq<bv8>)
    ensures |s| % BLOCK == 0
  {
    stream[..|stream| - |stream| % BLOCK]
  }

  /** The part that waits in the buffer. */
  function Waiting(stream: seq<bv8>): (s: seq<bv8>)
    ensures |s| == |stream| % BLOCK
  {
    stream[|stream| - |stream| % BLOCK..]
  }

  lemma StreamGrows(stream: seq<bv8>, data: bv8)
    ensures var s := stream + [data];
            if |stream| % BLOCK == BLOCK - 1 then
              Waiting(s) == [] && Hashed(s) == s && s[|s| - BLOCK..] == Waiting(stream) + [data]
              && s[..|s| - BLOCK] == Hashed(stream)
            else
              Waiting(s) == Waiting(stream) + [data] && Hashed(s) == Hashed(stream)
  {
    var n, r := |stream|, |stream| % BLOCK;
    assert (n + 1) % BLOCK == if r == BLOCK - 1 then 0 else r + 1;
  }

  lemma BlockAbsorbed(stream: seq<bv8>)
    requires |stream| > 0 && |stream| % BLOCK == 0
    ensures Absorb(stream) == Compress(Absorb(stream[..|stream| - BLOCK]), Parse(stream[|stream| - BLOCK..]))
  {
  }

  lemma WaitingFits(stream: seq<bv8>)
    ensures |stream + [0]| % BLOCK == if |stream| % BLOCK == BLOCK - 1 then 0 else |stream| % BLOCK + 1
  {
  }

  lemma HoldsNothing(buffer: seq<bv8>)
    requires |buffer| == BLOCK
    ensures Holds(buffer, [])
  {
  }

  lemma NextCount(n: nat)
    ensures (n % LIMIT + 1) % LIMIT == (n + 1) % LIMIT
  {
  }

  lemma ZerosLeft(n: nat, zeros: nat)
    requires zeros <= (56 - n) % BLOCK
    ensures (n + zeros) % BLOCK == 56 <==> zeros == (56 - n) % BLOCK
  {
    var k := (56 - n) / BLOCK;
    assert (56 - n) % BLOCK == 56 - n - BLOCK * k;
    assert n + zeros == 56 - BLOCK * k - ((56 - n) % BLOCK - zeros);
  }

  // ---------------------------------------------------------------- the digest in memory

  function Swap(w: bv32): bv32 {
    ((w << 24) & 0xff000000) | ((w << 8) & 0x00ff0000) | ((w >> 8) & 0x0000ff00) | ((w >> 24) & 0x000000ff)
  }

  function SwapAll(h: Hash): Hash {
    Hash(Swap(h.a), Swap(h.b), Swap(h.c), Swap(h.d), Swap(h.e))
  }

  /** The bytes of a word in (little-endian) memory. */
  function MemoryBytes(w: bv32): seq<bv8> {
    [Lane(w, 0), Lane(w, 1), Lane(w, 2), Lane(w, 3)]
  }

  function HashMemory(h: Hash): seq<bv8> {
    MemoryBytes(h.a) + MemoryBytes(h.b) + MemoryBytes(h.c) + MemoryBytes(h.d) + MemoryBytes(h.e)
  }

  lemma SwapReadsBigEndian(w: bv32)
    ensures MemoryBytes(Swap(w)) == WordBytes(w)
  {
  }

  /** In memory, the swapped state reads as the digest bytes of FIPS 180-4. */
  lemma SwappedMemory(h: Hash)
    ensures HashMemory(SwapAll(h)) == DigestBytes(h)
  {
    hide Swap, MemoryBytes, WordBytes;
    SwapReadsBigEndian(h.a);
    SwapReadsBigEndian(h.b);
    SwapReadsBigEndian(h.c);
    SwapReadsBigEndian(h.d);
    SwapReadsBigEndian(h.e);
  }

  // ---------------------------------------------------------------- the length and the padding

  function HighCount(count: nat): (s: seq<bv8>)
    ensures |s| == 4
  {
    [0, 0, 0, LowByte(count, 0x2000_0000)]
  }

  function LowCount(count: nat): (s: seq<bv8>)
    ensures |s| == 4
  {
    [LowByte(count, 0x20_0000), LowByte(count, 0x2000), LowByte(count, 0x20), LowByte(count * 8, 1)]
  }

  /** The length bytes the code appends, from its 32-bit byte count. */
  function CountBytes(count: nat): (s: seq<bv8>)
    ensures |s| == 8
  {
    HighCount(count) + LowCount(count)
  }

  function CodePad(msg: seq<bv8>): (s: seq<bv8>)
    ensures |s| % BLOCK == 0
  {
    msg + Padding(|msg|, CountBytes(|msg| % LIMIT))
  }

  function CodeDigest(msg: seq<bv8>): (s: seq<bv8>) {
    DigestBytes(Absorb(CodePad(msg)))
  }

  lemma StreamIsWhole(stream: seq<bv8>)
    requires |stream| % BLOCK == 0
    ensures Hashed(stream) == stream && Waiting(stream) == []
  {
  }

  lemma LengthParts(n: nat)
    requires n < LIMIT
    ensures 8 * n / 0x100_0000_0000_0000 == 0 && 8 * n / 0x1_0000_0000_0000 == 0 && 8 * n / 0x100_0000_0000 == 0
    ensures 8 * n / 0x1_0000_0000 == n / 0x2000_0000 && 8 * n / 0x100_0000 == n / 0x20_0000
    ensures 8 * n / 0x1_0000 == n / 0x2000 && 8 * n / 0x100 == n / 0x20
  {
  }

  lemma LowBytesAgree(n: nat, m: nat, d: nat, e: nat)
    requires 0 < d && 0 < e && n / d == m / e
    ensures LowByte(n, d) == LowByte(m, e)
  {
  }

  lemma LengthBytesAgree(n: nat)
    requires n < LIMIT
    ensures CountBytes(n) == Length64(8 * n)
  {
    LengthParts(n);
    LowBytesAgree(8 * n, 0, 0x100_0000_0000_0000, 1);
    LowBytesAgree(8 * n, 0, 0x1_0000_0000_0000, 1);
    LowBytesAgree(8 * n, 0, 0x100_0000_0000, 1);
    LowBytesAgree(n, 8 * n, 0x2000_0000, 0x1_0000_0000);
    LowBytesAgree(n, 8 * n, 0x20_0000, 0x100_0000);
    LowBytesAgree(n, 8 * n, 0x2000, 0x1_0000);
    LowBytesAgree(n, 8 * n, 0x20, 0x100);
    assert LowByte(0, 1) == 0;
    hide LowByte;
  }

  lemma SmallBytes(x: nat, y: nat)
    requires x < 8 && ByteOf(x) == ByteOf(y)
    ensures x == y % 256
  {
    hide ByteOf;
    ByteOfIs(x);
    ByteOfIs(y);
  }

  lemma SameLowBytes(x: nat, d: nat, y: nat, e: nat)
    requires 0 < d && 0 < e && x / d < 8 && LowByte(x, d) == LowByte(y, e)
    ensures x / d == y / e % 256
  {
    hide ByteOf;
    SmallBytes(x / d, y / e);
  }

  lemma LengthTooBig(n: nat)
    requires LIMIT <= n < 0x2000_0000_0000_0000
    requires var m := 8 * n;
             m / 0x100_0000_0000_0000 % 256 == 0 && m / 0x1_0000_0000_0000 % 256 == 0 && m / 0x100_0000_0000 % 256 == 0
    ensures n % LIMIT / 0x2000_0000 != 8 * n / 0x1_0000_0000 % 256
  {
    assert 8 * n < 0x100_0000_0000;
  }

  /** From 2^32 bytes on, up to the 2^61 that FIPS 180-4 allows, the code's length bytes are wrong. */
  lemma LengthBytesDiffer(n: nat)
    requires LIMIT <= n < 0x2000_0000_0000_0000
    ensures CountBytes(n % LIMIT) != Length64(8 * n)
  {
    assert LowByte(0, 1) == 0;
    hide LowByte;
    var c, m := n % LIMIT, 8 * n;
    var code, fips := CountBytes(c), Length64(m);
    if code == fips {
      assert code[0] == 0 && code[1] == 0 && code[2] == 0 && code[3] == LowByte(c, 0x2000_0000);
      SameLowBytes(0, 1, m, 0x100_0000_0000_0000);
      SameLowBytes(0, 1, m, 0x1_0000_0000_0000);
      SameLowBytes(0, 1, m, 0x100_0000_0000);
      SameLowBytes(c, 0x2000_0000, m, 0x1_0000_0000);
      LengthTooBig(n);
    }
  }

  /** The padded message ends in its length bytes. */
  lemma PaddedTail(msg: seq<bv8>, length: seq<bv8>)
    requires |length| == 8
    ensures var s := msg + Padding(|msg|, length); |s| >= 8 && s[|s| - 8..] == length
  {
  }

  /** What the code appends is the padding of FIPS 180-4 if and only if the message is below 2^32 bytes. */
  lemma PaddingExactIff(msg: seq<bv8>)
    requires |msg| < 0x2000_0000_0000_0000
    ensures CodePad(msg) == Sha1Spec.Pad(msg) <==> |msg| < LIMIT
  {
    hide CountBytes, Length64, Padding;
    var n := |msg|;
    PaddedTail(msg, CountBytes(n % LIMIT));
    PaddedTail(msg, Length64(8 * n));
    if n < LIMIT {
      LengthBytesAgree(n);
    } else {
      LengthBytesDiffer(n);
    }
  }

  /** So below 2^32 bytes the code's digest is SHA-1. */
  lemma DigestIsSha1(msg: seq<bv8>)
    requires |msg| < LIMIT
    ensures CodeDigest(msg) == Sha1Spec.Sha1(msg)
  {
    hide CodePad, Pad, Absorb, DigestBytes;
    PaddingExactIff(msg);
  }

  // ---------------------------------------------------------------- the circular schedule

  /** The buffer as a circular schedule: it holds the last 16 schedule words before round `i`. */
  ghost predicate Slots(words: seq<bv32>, block: seq<bv32>, i: nat) {
    |words| == 16 && |block| == 16 && 16 <= i &&
    forall t {:trigger W(block, t)} :: i - 16 <= t < i ==> words[t % 16] == W(block, t)
  }

  lemma RoundsStart(h: Hash, block: seq<bv32>)
    requires |block| == 16
    ensures Rounds(h, block, 0) == h
    ensures Slots(block, block, 16)
  {
  }

  lemma RoundsNext(h: Hash, block: seq<bv32>, i: nat)
    requires |block| == 16
    ensures Rounds(h, block, i + 1) == Round(Rounds(h, block, i), i, W(block, i))
  {
  }

  lemma ScheduleNext(block: seq<bv32>, i: nat)
    requires |block| == 16 && 16 <= i
    ensures W(block, i) == Rotl(W(block, i - 3) ^ W(block, i - 8) ^ W(block, i - 14) ^ W(block, i - 16), 1)
  {
  }

  /** What the round reads is what the schedule of FIPS 180-4 says. */
  lemma SlotsRead(words: seq<bv32>, block: seq<bv32>, i: nat)
    requires Slots(words, block, i)
    ensures W(block, i) == Rotl(words[(i + 13) % 16] ^ words[(i + 8) % 16] ^ words[(i + 2) % 16] ^ words[i % 16], 1)
  {
    hide Rotl;
    ScheduleNext(block, i);
    hide W;
    assert (i + 13) % 16 == (i - 3) % 16 && (i + 8) % 16 == (i - 8) % 16;
    assert (i + 2) % 16 == (i - 14) % 16 && i % 16 == (i - 16) % 16;
    assert words[(i - 3) % 16] == W(block, i - 3) && words[(i - 8) % 16] == W(block, i - 8);
    assert words[(i - 14) % 16] == W(block, i - 14) && words[(i - 16) % 16] == W(block, i - 16);
  }

  lemma SlotsAdvance(words: seq<bv32>, block: seq<bv32>, i: nat)
    requires Slots(words, block, i)
    ensures Slots(words[i % 16 := W(block, i)], block, i + 1)
  {
    hide W;
    forall t | i - 15 <= t < i + 1 ensures words[i % 16 := W(block, i)][t % 16] == W(block, t) {
      if t < i { assert t % 16 != i % 16; }
    }
  }

  // ---------------------------------------------------------------- the structure and its operations

  class Sha1Info {
    const buffer: array<bv8>   // the 16 words, as they lie in memory
    const state: array<bv32>
    const keyBuffer: array<bv8>
    const innerHash: array<bv8>
    var bytecount: nat
    var bufferoffset: nat
    ghost var stream: seq<bv8>  // everything added since the last init

    /** The separate parts of the structure. */
    ghost predicate Shape() {
      && buffer.Length == BLOCK && state.Length == 5 && keyBuffer.Length == BLOCK && innerHash.Length == DIGEST
      && buffer != keyBuffer && buffer != innerHash && keyBuffer != innerHash
    }

    /** `a` is none of the byte arrays of the structure. */
    ghost predicate Without(a: array<bv8>) {
      a != buffer && a != keyBuffer && a != innerHash
    }

    ghost function StateHash(): Hash
      requires state.Length == 5
      reads state
    {
      Hash(state[0], state[1], state[2], state[3], state[4])
    }

    ghost predicate Valid()
      reads this, buffer, state
    {
      && Shape() && bufferoffset == |stream| % BLOCK && bytecount < LIMIT
      && StateHash() == Absorb(Hashed(stream)) && Holds(buffer[..], Waiting(stream))
    }

    /** Only message bytes have been added, each of them counted. */
    ghost predicate Counted()
      reads this
    {
      bytecount == |stream| % LIMIT
    }

    constructor ()
      ensures Shape() && fresh(buffer) && fresh(state) && fresh(keyBuffer) && fresh(innerHash)
    {
      buffer, state := new bv8[BLOCK], new bv32[5];
      keyBuffer, innerHash := new bv8[BLOCK], new bv8[DIGEST];
      bytecount, bufferoffset, stream := 0, 0, [];
    }

    method Init()
      requires Shape()
      modifies this, state
      ensures Valid() && Counted() && stream == []
    {
      state[0], state[1], state[2], state[3], state[4] := 0x67452301, 0xefcdab89, 0x98badcfe, 0x10325476, 0xc3d2e1f0;
      bytecount, bufferoffset := 0, 0;
      stream := [];
    }

    method LoadWord(j: nat) returns (w: bv32)
      requires Shape() && j < 16
      ensures w == Words(buffer[..])[j]
    {
      w := BigEndian(buffer[4 * j + 3], buffer[4 * j + 2], buffer[4 * j + 1], buffer[4 * j]);
    }

    method StoreWord(j: nat, w: bv32)
      requires Shape() && j < 16
      modifies buffer
      ensures Words(buffer[..]) == Words(old(buffer[..]))[j := w]
    {
      ghost var bytes := buffer[..];
      StoredWord(bytes, j, w);
      hide Lane;
      buffer[4 * j] := Lane(w, 0);
      buffer[4 * j + 1] := Lane(w, 1);
      buffer[4 * j + 2] := Lane(w, 2);
      buffer[4 * j + 3] := Lane(w, 3);
      assert buffer[..] == Stored(bytes, j, w);
    }

    /** The schedule word of round `i`, which overwrites the word of round `i - 16`. */
    method Expand(i: nat, ghost block: seq<bv32>)
      requires Shape() && Slots(Words(buffer[..]), block, i)
      modifies buffer
      ensures Slots(Words(buffer[..]), block, i + 1)
    {
      hide W, Rotl, Slots, Words;
      ghost var words := Words(buffer[..]);
      SlotsRead(words, block, i);
      SlotsAdvance(words, block, i);
      var w3 := LoadWord((i + 13) % 16);
      var w8 := LoadWord((i + 8) % 16);
      var w14 := LoadWord((i + 2) % 16);
      var w16 := LoadWord(i % 16);
      StoreWord(i % 16, Rotl(w3 ^ w8 ^ w14 ^ w16, 1));
    }

    method AddTo(a: bv32, b: bv32, c: bv32, d: bv32, e: bv32)
      requires state.Length == 5
      modifies state
      ensures StateHash() == Sum(old(StateHash()), Hash(a, b, c, d, e))
    {
      hide Plus;
      state[0] := Plus(state[0], a);
      state[1] := Plus(state[1], b);
      state[2] := Plus(state[2], c);
      state[3] := Plus(state[3], d);
      state[4] := Plus(state[4], e);
    }

    /** The compression function, run on the buffer in place. */
    method HashBlock()
      requires Shape()
      modifies buffer, state
      ensures StateHash() == Compress(old(StateHash()), Words(old(buffer[..])))
    {
      hide W, Rounds, Rotl, Round, Sum, Words;
      ghost var block, h := Words(buffer[..]), StateHash();
      var a, b, c, d, e := state[0], state[1], state[2], state[3], state[4];
      RoundsStart(h, block);
      for i := 0 to 80
        invariant Hash(a, b, c, d, e) == Rounds(h, block, i)
        invariant StateHash() == h
        invariant Slots(Words(buffer[..]), block, if i < 16 then 16 else i)
      {
        if i >= 16 {
          Expand(i, block);
        }
        var w := LoadWord(i % 16);
        assert w == W(block, i);
        RoundsNext(h, block, i);
        a, b, c, d, e := Sha1Rounds.Step(i, a, b, c, d, e, w);
      }
      AddTo(a, b, c, d, e);
    }

    /** `b[bufferoffset ^ 3] = data`: the next byte of the block, placed for big-endian words. */
    method PutByte(data: bv8)
      requires Valid()
      modifies buffer
      ensures Holds(buffer[..], Waiting(stream) + [data])
    {
      hide Waiting, Hashed, Absorb;
      ghost var before := buffer[..];
      PutNext(before, Waiting(stream), data);
      hide Holds;
      buffer[Flip(bufferoffset)] := data;
      assert buffer[..] == before[Flip(bufferoffset) := data];
    }

    method AddUncounted(data: bv8)
      requires Valid()
      modifies this`bufferoffset, this`stream, buffer, state
      ensures Valid() && stream == old(stream) + [data]
    {
      hide Holds, Absorb, Waiting, Hashed;
      StreamGrows(stream, data);
      WaitingFits(stream);
      PutByte(data);
      ghost var waiting := Waiting(stream) + [data];
      bufferoffset := bufferoffset + 1;
      stream := stream + [data];
      if bufferoffset == BLOCK {
        FullHolds(buffer[..], waiting);
        BlockAbsorbed(stream);
        HashBlock();
        HoldsNothing(buffer[..]);
        bufferoffset := 0;
      }
    }

    method WriteByte(data: bv8)
      requires Valid()
      modifies this, buffer, state
      ensures Valid() && stream == old(stream) + [data] && bytecount == (old(bytecount) + 1) % LIMIT
      ensures old(Counted()) ==> Counted()
    {
      hide Holds, Absorb, Waiting, Hashed;
      NextCount(|stream|);
      bytecount := (bytecount + 1) % LIMIT;
      AddUncounted(data);
    }

    method Write(data: seq<bv8>)
      requires Valid() && Counted()
      modifies this, buffer, state
      ensures Valid() && Counted() && stream == old(stream) + data
    {
      hide Holds, Hashed, Waiting, Absorb, StateHash, Counted;
      for i := 0 to |data|
        invariant Valid() && Counted() && stream == old(stream) + data[..i]
      {
        WriteByte(data[i]);
        assert data[..i + 1] == data[..i] + [data[i]];
      }
      assert data[..|data|] == data;
    }

    /** Zero bytes until eight places are left in the block. */
    method AddZeros()
      requires Valid()
      modifies this`bufferoffset, this`stream, buffer, state
      ensures Valid() && stream == old(stream) + Zeros((56 - |old(stream)|) % BLOCK)
    {
      hide Holds, Hashed, Waiting, Absorb, StateHash;
      ghost var n: nat, zeros: nat := |stream|, 0;
      ghost var wanted := (56 - n) % BLOCK;
      while bufferoffset != 56
        invariant Valid() && stream == old(stream) + Zeros(zeros) && zeros <= wanted
        decreases wanted - zeros
      {
        ZerosLeft(n, zeros);
        AddUncounted(0);
        zeros := zeros + 1;
        assert Zeros(zeros) == Zeros(zeros - 1) + [0];
      }
      ZerosLeft(n, zeros);
    }

    method AddHighCount()
      requires Valid()
      modifies this`bufferoffset, this`stream, buffer, state
      ensures Valid() && stream == old(stream) + HighCount(bytecount)
    {
      hide Holds, Hashed, Waiting, Absorb, StateHash, LowByte;
      AddUncounted(0);
      AddUncounted(0);
      AddUncounted(0);
      AddUncounted(LowByte(bytecount, 0x2000_0000));
    }

    method AddLowCount()
      requires Valid()
      modifies this`bufferoffset, this`stream, buffer, state
      ensures Valid() && stream == old(stream) + LowCount(bytecount)
    {
      hide Holds, Hashed, Waiting, Absorb, StateHash, LowByte;
      AddUncounted(LowByte(bytecount, 0x20_0000));
      AddUncounted(LowByte(bytecount, 0x2000));
      AddUncounted(LowByte(bytecount, 0x20));
      AddUncounted(LowByte(bytecount * 8, 1));
    }

    /** Padding: afterwards the stream is a whole number of blocks, all of them hashed. */
    method Pad()
      requires Valid()
      modifies this, buffer, state
      ensures Valid() && stream == old(stream) + Padding(|old(stream)|, CountBytes(old(bytecount)))
    {
      hide Holds, Hashed, Waiting, Absorb, StateHash, HighCount, LowCount, Zeros;
      AddUncounted(0x80);
      AddZeros();
      AddHighCount();
      AddLowCount();
    }

    /** The byte order of the state reversed, word by word. */
    method SwapState()
      requires state.Length == 5
      modifies state
      ensures StateHash() == SwapAll(old(StateHash()))
    {
      hide Swap;
      for i := 0 to 5
        invariant forall j :: 0 <= j < 5 ==> state[j] == if j < i then Swap(old(state[j])) else old(state[j])
      {
        state[i] := Swap(state[i]);
      }
    }

    /** The bytes of the state in memory, which is what the caller gets a pointer to. */
    method StateBytes() returns (bytes: seq<bv8>)
      requires state.Length == 5
      ensures bytes == HashMemory(StateHash())
    {
      bytes := MemoryBytes(state[0]) + MemoryBytes(state[1]) + MemoryBytes(state[2])
             + MemoryBytes(state[3]) + MemoryBytes(state[4]);
    }

    /** The digest of everything written. */
    method Result() returns (digest: seq<bv8>)
      requires Valid() && Counted()
      modifies this, buffer, state
      ensures Shape() && digest == CodeDigest(old(stream))
    {
      hide Holds, Hashed, Waiting, Absorb, CountBytes, Padding, DigestBytes, HashMemory, SwapAll;
      Pad();
      assert stream == CodePad(old(stream));
      StreamIsWhole(stream);
      ghost var h := StateHash();
      SwapState();
      digest := StateBytes();
      SwappedMemory(h);
    }

    /** `ctx = *other`: the whole structure is copied. */
    method CopyFrom(other: Sha1Info)
      requires Shape() && other.Shape() && other != this
      requires other.Without(buffer) && other.Without(keyBuffer) && other.Without(innerHash) && state != other.state
      modifies this, buffer, state, keyBuffer, innerHash
      ensures buffer[..] == other.buffer[..] && state[..] == other.state[..]
      ensures keyBuffer[..] == other.keyBuffer[..] && innerHash[..] == other.innerHash[..]
      ensures bytecount == other.bytecount && bufferoffset == other.bufferoffset && stream == other.stream
    {
      forall i | 0 <= i < BLOCK { buffer[i] := other.buffer[i]; }
      forall i | 0 <= i < 5 { state[i] := other.state[i]; }
      forall i | 0 <= i < BLOCK { keyBuffer[i] := other.keyBuffer[i]; }
      forall i | 0 <= i < DIGEST { innerHash[i] := other.innerHash[i]; }
      bytecount, bufferoffset, stream := other.bytecount, other.bufferoffset, other.stream;
    }

    // -------------------------------------------------------------- HMAC

    /** The inner hash of HMAC under `key` is under way, with `text` written so far. */
    ghost predicate Keyed(key: seq<bv8>, text: seq<bv8>)
      reads this, buffer, state, keyBuffer
    {
      && Valid() && Counted() && keyBuffer[..] == KeyBlock(key)
      && stream == XorWith(KeyBlock(key), IPAD) + text
    }

    /** The loops over the key block, xored with a constant. */
    method WriteKey(pad: bv8)
      requires Valid() && Counted()
      modifies this, buffer, state
      ensures Valid() && Counted() && stream == old(stream) + XorWith(keyBuffer[..], pad)
    {
      hide Holds, Hashed, Waiting, Absorb, StateHash, Counted;
      ghost var padded := XorWith(keyBuffer[..], pad);
      for i := 0 to BLOCK
        invariant Valid() && Counted() && stream == old(stream) + padded[..i]
        invariant keyBuffer[..] == old(keyBuffer[..])
      {
        assert keyBuffer[i] ^ pad == padded[i];
        WriteByte(keyBuffer[i] ^ pad);
        assert padded[..i + 1] == padded[..i] + [padded[i]];
      }
      assert padded[..BLOCK] == padded;
    }

    /** `memset` of the key block, then `memcpy` of the key or of its digest. */
    method SetKey(k: seq<bv8>)
      requires Shape() && |k| <= BLOCK
      modifies keyBuffer
      ensures keyBuffer[..] == k + Zeros(BLOCK - |k|)
    {
      for i := 0 to BLOCK
        invariant forall j :: 0 <= j < i ==> keyBuffer[j] == 0
      {
        keyBuffer[i] := 0;
      }
      for i := 0 to |k|
        invariant forall j :: 0 <= j < BLOCK ==> keyBuffer[j] == if j < i then k[j] else 0
      {
        keyBuffer[i] := k[i];
      }
    }

    method HmacInit(key: seq<bv8>)
      requires Shape() && |key| < 0x8000_0000
      modifies this, buffer, state, keyBuffer
      ensures Keyed(key, [])
    {
      hide Holds, Hashed, Waiting, Absorb, StateHash, CodeDigest, Sha1Spec.Sha1;
      if |key| > BLOCK {
        Init();
        Write(key);
        var digest := Result();
        assert digest == CodeDigest(key) by { assert [] + key == key; }
        DigestIsSha1(key);
        SetKey(digest);
      } else {
        SetKey(key);
      }
      Init();
      WriteKey(IPAD);
      assert stream == XorWith(KeyBlock(key), IPAD) + [];
    }

    method SetInner(digest: seq<bv8>)
      requires Shape() && |digest| == DIGEST
      modifies innerHash
      ensures innerHash[..] == digest
    {
      for i := 0 to DIGEST
        invariant innerHash[..i] == digest[..i]
      {
        innerHash[i] := digest[i];
      }
    }

    method WriteInner()
      requires Valid() && Counted()
      modifies this, buffer, state
      ensures Valid() && Counted() && stream == old(stream) + innerHash[..]
    {
      hide Holds, Hashed, Waiting, Absorb, StateHash, Counted;
      ghost var inner := innerHash[..];
      for i := 0 to DIGEST
        invariant Valid() && Counted() && stream == old(stream) + inner[..i]
        invariant innerHash[..] == inner
      {
        WriteByte(innerHash[i]);
        assert inner[..i + 1] == inner[..i] + [inner[i]];
      }
      assert inner[..DIGEST] == inner;
    }

    method HmacResult(ghost key: seq<bv8>, ghost text: seq<bv8>) returns (mac: seq<bv8>)
      requires Keyed(key, text) && BLOCK + |text| < LIMIT
      modifies this, buffer, state, innerHash
      ensures Shape() && mac == Hmac(key, text)
    {
      hide Holds, Hashed, Waiting, Absorb, StateHash, CodeDigest, Sha1Spec.Sha1;
      ghost var k := KeyBlock(key);
      var inner := Result();
      DigestIsSha1(XorWith(k, IPAD) + text);
      SetInner(inner);
      Init();
      WriteKey(OPAD);
      WriteInner();
      assert stream == XorWith(k, OPAD) + inner by { assert [] + XorWith(k, OPAD) == XorWith(k, OPAD); }
      mac := Result();
      DigestIsSha1(XorWith(k, OPAD) + inner);
    }
  }
}
