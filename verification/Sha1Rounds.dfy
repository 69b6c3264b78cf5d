/** One round of the compression function as the code computes it. */
module Sha1Rounds {
  import opened Sha1Spec

  lemma ChoiceTrick(b: bv32, c: bv32, d: bv32)
    ensures (d ^ (b & (c ^ d))) == Ch(b, c, d)
  {
  }

  lemma MajorityTrick(b: bv32, c: bv32, d: bv32)
    ensures ((b & c) | (d & (b | c))) == Maj(b, c, d)
  {
  }

  /** The bit-trick forms of the code. */
  function Choice(b: bv32, c: bv32, d: bv32): (f: bv32)
    ensures f == Ch(b, c, d)
  {
    ChoiceTrick(b, c, d);
    d ^ (b & (c ^ d))
  }

  function Majority(b: bv32, c: bv32, d: bv32): (f: bv32)
    ensures f == Maj(b, c, d)
  {
    MajorityTrick(b, c, d);
    (b & c) | (d & (b | c))
  }

  /** The code adds the terms of a round in another order. */
  lemma SumOrder(f: bv32, k: bv32, r: bv32, e: bv32, w: bv32)
    ensures (f + k) + (r + e + w) == Sum5(r, f, e, k, w)
  {
  }

  /** The function and the constant of round `i`, in the bit-trick forms of the code. */
  method Term(i: nat, b: bv32, c: bv32, d: bv32) returns (f: bv32, k: bv32)
    ensures f == F(i, b, c, d) && k == K(i)
  {
    hide Ch, Maj, Parity, Choice, Majority;
    if i < 20 {
      f, k := Choice(b, c, d), 0x5a827999;
    } else if i < 40 {
      f, k := Parity(b, c, d), 0x6ed9eba1;
    } else if i < 60 {
      f, k := Majority(b, c, d), 0x8f1bbcdc;
    } else {
      f, k := Parity(b, c, d), 0xca62c1d6;
    }
  }

  /** One round. */
  method Step(i: nat, a: bv32, b: bv32, c: bv32, d: bv32, e: bv32, w: bv32)
    returns (a': bv32, b': bv32, c': bv32, d': bv32, e': bv32)
    ensures Hash(a', b', c', d', e') == Round(Hash(a, b, c, d, e), i, w)
  {
    hide F, K, Rotl, Sum5;
    var f, k := Term(i, b, c, d);
    var r := Rotl(a, 5);
    SumOrder(f, k, r, e, w);
    var t := (f + k) + (r + e + w);
    return t, a, Rotl(b, 30), c, d;
  }
}
