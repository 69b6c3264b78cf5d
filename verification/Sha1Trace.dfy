/** SHA-1 evaluated on given words, sixteen rounds at a time. */
module Sha1Trace {
  import opened Sha1Spec

  // ---------------------------------------------------------------- words and bytes

  /** The bytes of words, one word after the other. */
  function Flat(words: seq<bv32>): (s: seq<bv8>)
    ensures |s| == 4 * |words|
  {
    seq(4 * |words|, i requires 0 <= i < 4 * |words| => WordBytes(words[i / 4])[i % 4])
  }

  lemma WordOfBytes(w: bv32)
    ensures var s := WordBytes(w); BigEndian(s[0], s[1], s[2], s[3]) == w
  {
  }

  lemma FlatAt(words: seq<bv32>, i: nat)
    requires i < |words|
    ensures Flat(words)[4 * i..4 * i + 4] == WordBytes(words[i])
  {
    var s := Flat(words);
    forall k | 0 <= k < 4 ensures s[4 * i + k] == WordBytes(words[i])[k] {
      assert (4 * i + k) / 4 == i && (4 * i + k) % 4 == k;
    }
  }

  /** Reading undoes writing. */
  lemma ParseFlat(words: seq<bv32>)
    requires |words| == 16
    ensures Parse(Flat(words)) == words
  {
    hide BigEndian, WordBytes, Flat;
    var s := Flat(words);
    forall i | 0 <= i < 16 ensures Parse(s)[i] == words[i] {
      FlatAt(words, i);
      WordOfBytes(words[i]);
      var w := s[4 * i..4 * i + 4];
      assert w[0] == s[4 * i] && w[1] == s[4 * i + 1] && w[2] == s[4 * i + 2] && w[3] == s[4 * i + 3];
    }
  }

  lemma FlatAppend(x: seq<bv32>, y: seq<bv32>)
    ensures Flat(x + y) == Flat(x) + Flat(y)
  {
    hide WordBytes;
    assert forall i :: 0 <= i < 4 * |y| ==> (i + 4 * |x|) / 4 == i / 4 + |x| && (i + 4 * |x|) % 4 == i % 4;
  }

  // ---------------------------------------------------------------- eight rounds at a time

  datatype Row = Row(w0: bv32, w1: bv32, w2: bv32, w3: bv32, w4: bv32, w5: bv32, w6: bv32, w7: bv32)

  /** The words of the schedule from `t` on. */
  ghost predicate Window(b: seq<bv32>, t: nat, x: Row) {
    && |b| == 16
    && W(b, t) == x.w0 && W(b, t + 1) == x.w1 && W(b, t + 2) == x.w2 && W(b, t + 3) == x.w3
    && W(b, t + 4) == x.w4 && W(b, t + 5) == x.w5 && W(b, t + 6) == x.w6 && W(b, t + 7) == x.w7
  }

  lemma {:induction false} FirstWord(b: seq<bv32>, t: nat)
    requires |b| == 16 && t < 16
    ensures W(b, t) == b[t]
  {
  }

  /** A block is the first two rows of its schedule. */
  lemma FirstRows(b: seq<bv32>, x: Row, y: Row)
    requires |b| == 16
    requires b[0] == x.w0 && b[1] == x.w1 && b[2] == x.w2 && b[3] == x.w3
    requires b[4] == x.w4 && b[5] == x.w5 && b[6] == x.w6 && b[7] == x.w7
    requires b[8] == y.w0 && b[9] == y.w1 && b[10] == y.w2 && b[11] == y.w3
    requires b[12] == y.w4 && b[13] == y.w5 && b[14] == y.w6 && b[15] == y.w7
    ensures Window(b, 0, x) && Window(b, 8, y)
  {
    hide W;
    FirstWord(b, 0); FirstWord(b, 1); FirstWord(b, 2); FirstWord(b, 3);
    FirstWord(b, 4); FirstWord(b, 5); FirstWord(b, 6); FirstWord(b, 7);
    FirstWord(b, 8); FirstWord(b, 9); FirstWord(b, 10); FirstWord(b, 11);
    FirstWord(b, 12); FirstWord(b, 13); FirstWord(b, 14); FirstWord(b, 15);
  }

  function Mixed(p: bv32, q: bv32, r: bv32, s: bv32): bv32 { Rotl(p ^ q ^ r ^ s, 1) }

  /** Row `z` of a schedule comes after rows `x` and `y`. */
  predicate After(x: Row, y: Row, z: Row) {
    && z.w0 == Mixed(y.w5, y.w0, x.w2, x.w0)
    && z.w1 == Mixed(y.w6, y.w1, x.w3, x.w1)
    && z.w2 == Mixed(y.w7, y.w2, x.w4, x.w2)
    && z.w3 == Mixed(z.w0, y.w3, x.w5, x.w3)
    && z.w4 == Mixed(z.w1, y.w4, x.w6, x.w4)
    && z.w5 == Mixed(z.w2, y.w5, x.w7, x.w5)
    && z.w6 == Mixed(z.w3, y.w6, y.w0, x.w6)
    && z.w7 == Mixed(z.w4, y.w7, y.w1, x.w7)
  }

  lemma {:induction false} NextWord(b: seq<bv32>, t: nat, p: bv32, q: bv32, r: bv32, s: bv32)
    requires |b| == 16 && t >= 16 && W(b, t - 3) == p && W(b, t - 8) == q && W(b, t - 14) == r && W(b, t - 16) == s
    ensures W(b, t) == Mixed(p, q, r, s)
  {
    hide Rotl;
  }

  lemma NextHalf(b: seq<bv32>, t: nat, x: Row, y: Row, z: Row)
    requires Window(b, t, x) && Window(b, t + 8, y) && After(x, y, z)
    ensures W(b, t + 16) == z.w0 && W(b, t + 17) == z.w1 && W(b, t + 18) == z.w2 && W(b, t + 19) == z.w3
  {
    hide W, Mixed;
    NextWord(b, t + 16, y.w5, y.w0, x.w2, x.w0);
    NextWord(b, t + 17, y.w6, y.w1, x.w3, x.w1);
    NextWord(b, t + 18, y.w7, y.w2, x.w4, x.w2);
    NextWord(b, t + 19, z.w0, y.w3, x.w5, x.w3);
  }

  lemma NextRow(b: seq<bv32>, t: nat, x: Row, y: Row, z: Row)
    requires Window(b, t, x) && Window(b, t + 8, y) && After(x, y, z)
    ensures Window(b, t + 16, z)
  {
    hide W, Mixed;
    NextHalf(b, t, x, y, z);
    NextWord(b, t + 20, z.w1, y.w4, x.w6, x.w4);
    NextWord(b, t + 21, z.w2, y.w5, x.w7, x.w5);
    NextWord(b, t + 22, z.w3, y.w6, y.w0, x.w6);
    NextWord(b, t + 23, z.w4, y.w7, y.w1, x.w7);
  }

  lemma {:induction false} OneRound(h: Hash, b: seq<bv32>, t: nat)
    requires |b| == 16
    ensures Rounds(h, b, t + 1) == Round(Rounds(h, b, t), t, W(b, t)) && Rounds(h, b, 0) == h
  {
    hide W, Round;
  }

  function Last(a: Row): Hash {
    Hash(a.w7, a.w6, Rotl(a.w5, 30), Rotl(a.w4, 30), Rotl(a.w3, 30))
  }

  /** Eight rounds from `t` on, with the words `x`, take `s` to `r`. */
  ghost predicate Leads(s: Hash, t: nat, x: Row, r: Hash) {
    forall h, b {:trigger Window(b, t, x), Rounds(h, b, t)} ::
      Window(b, t, x) && Rounds(h, b, t) == s ==> Rounds(h, b, t + 8) == r
  }

  /** It is enough to list in `a` the first component of the hash value after each round; the others follow. */
  lemma Turns(s: Hash, t: nat, x: Row, a: Row)
    requires a.w0 == Sum5(Rotl(s.a, 5), F(t, s.b, s.c, s.d), s.e, K(t), x.w0)
    requires a.w1 == Sum5(Rotl(a.w0, 5), F(t + 1, s.a, Rotl(s.b, 30), s.c), s.d, K(t + 1), x.w1)
    requires a.w2 == Sum5(Rotl(a.w1, 5), F(t + 2, a.w0, Rotl(s.a, 30), Rotl(s.b, 30)), s.c, K(t + 2), x.w2)
    requires a.w3 == Sum5(Rotl(a.w2, 5), F(t + 3, a.w1, Rotl(a.w0, 30), Rotl(s.a, 30)), Rotl(s.b, 30), K(t + 3), x.w3)
    requires a.w4 == Sum5(Rotl(a.w3, 5), F(t + 4, a.w2, Rotl(a.w1, 30), Rotl(a.w0, 30)), Rotl(s.a, 30), K(t + 4), x.w4)
    requires a.w5 == Sum5(Rotl(a.w4, 5), F(t + 5, a.w3, Rotl(a.w2, 30), Rotl(a.w1, 30)), Rotl(a.w0, 30), K(t + 5), x.w5)
    requires a.w6 == Sum5(Rotl(a.w5, 5), F(t + 6, a.w4, Rotl(a.w3, 30), Rotl(a.w2, 30)), Rotl(a.w1, 30), K(t + 6), x.w6)
    requires a.w7 == Sum5(Rotl(a.w6, 5), F(t + 7, a.w5, Rotl(a.w4, 30), Rotl(a.w3, 30)), Rotl(a.w2, 30), K(t + 7), x.w7)
    ensures Leads(s, t, x, Last(a))
  {
    hide Rotl, F, K, W, Sum5, Rounds;
    forall h, b | Window(b, t, x) && Rounds(h, b, t) == s
      ensures Rounds(h, b, t + 8) == Last(a)
    {
      OneRound(h, b, t); OneRound(h, b, t + 1); OneRound(h, b, t + 2); OneRound(h, b, t + 3);
      OneRound(h, b, t + 4); OneRound(h, b, t + 5); OneRound(h, b, t + 6); OneRound(h, b, t + 7);
    }
  }

  /** Eight rounds of a block, and eight more words of its schedule. */
  lemma Eight(h: Hash, b: seq<bv32>, t: nat, s: Hash, x: Row, y: Row, z: Row, r: Hash)
    requires Window(b, t, x) && Window(b, t + 8, y) && After(x, y, z)
    requires Rounds(h, b, t) == s && Leads(s, t, x, r)
    ensures Window(b, t + 16, z) && Rounds(h, b, t + 8) == r
  {
    hide Window, After, W, Rounds;
    NextRow(b, t, x, y, z);
  }

  /** Eight rounds alone. */
  lemma LastEight(h: Hash, b: seq<bv32>, t: nat, s: Hash, x: Row, r: Hash)
    requires Window(b, t, x) && Rounds(h, b, t) == s && Leads(s, t, x, r)
    ensures |b| == 16 && Rounds(h, b, t + 8) == r
  {
    hide W, Rounds;
  }

  lemma {:induction false} CompressIs(h: Hash, b: seq<bv32>)
    requires |b| == 16
    ensures Rounds(h, b, 0) == h && Compress(h, b) == Sum(h, Rounds(h, b, 80))
  {
    hide W, Round;
  }

  // ---------------------------------------------------------------- messages of words

  lemma FlatSame(n: nat, w: bv32, c: bv8)
    requires WordBytes(w) == [c, c, c, c]
    ensures Flat(seq(n, _ => w)) == seq(4 * n, _ => c)
  {
    hide WordBytes;
    assert forall i :: 0 <= i < 4 ==> WordBytes(w)[i] == c;
  }

  lemma FlatZeros(n: nat)
    ensures Flat(seq(n, _ => 0)) == Zeros(4 * n)
  {
    assert WordBytes(0) == [0, 0, 0, 0];
    FlatSame(n, 0, 0);
  }

  lemma FlatOne(w: bv32)
    ensures Flat([w]) == WordBytes(w)
  {
  }

  lemma FlatTwo(u: bv32, v: bv32)
    ensures Flat([u, v]) == WordBytes(u) + WordBytes(v)
  {
    hide Flat, WordBytes;
    assert [u] + [v] == [u, v];
    FlatAppend([u], [v]);
    FlatOne(u);
    FlatOne(v);
  }

  /** One block more is absorbed. */
  lemma {:induction false} AbsorbBlock(prefix: seq<bv8>, words: seq<bv32>)
    requires |prefix| % BLOCK == 0 && |words| == 16
    ensures Absorb([]) == IV && Absorb(prefix + Flat(words)) == Compress(Absorb(prefix), words)
  {
    hide Compress, Parse, Flat;
    ParseFlat(words);
    var s := prefix + Flat(words);
    assert s[..|s| - BLOCK] == prefix && s[|s| - BLOCK..] == Flat(words);
  }
}
