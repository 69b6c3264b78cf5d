/** Signed numbers as text: `itoa`. */
module SignedNumerals {
  import opened CInt
  import opened Numerals

  // ---------------------------------------------------------------- what it writes

  function Size(v: int): nat {
    if v >= 0 then v else -v
  }

  /** C's division, towards zero. */
  function Quotient(v: int, base: nat): (q: int)
    requires base > 0
  {
    if v >= 0 then v / base else 0 - Size(v) / base
  }

  /** The digits `itoa`'s loop produces: of `v` taken for unsigned, while `v` itself is divided. */
  function LittleSigned(v: int, base: nat): (r: seq<nat>)
    requires base >= 2
    ensures |r| > 0 && forall i :: 0 <= i < |r| ==> r[i] < base
    decreases Size(v)
  {
    Smaller(Size(v), base);
    var d: nat := v % 0x1_0000_0000 % base;
    if Quotient(v, base) == 0 then [d] else [d] + LittleSigned(Quotient(v, base), base)
  }

  lemma {:induction false} LittleSignedPositive(v: int, base: nat)
    requires base >= 2 && 0 <= v < 0x1_0000_0000
    ensures LittleSigned(v, base) == Little(v, base)
    decreases v
  {
    Smaller(v, base);
    if v / base != 0 {
      LittleSignedPositive(v / base, base);
    }
  }

  lemma LittleSignedStep(v: int, base: nat)
    requires 2 <= base <= 16
    ensures 0 <= v % 0x1_0000_0000 % base < 16
    ensures var q := Quotient(v, base);
            (v > 0 ==> 0 <= q < v) && (v < 0 ==> v < q <= 0) && (v == 0 ==> q == 0)
            && LittleSigned(v, base) == [v % 0x1_0000_0000 % base] + if q == 0 then [] else LittleSigned(q, base)
  {
    Smaller(Size(v), base);
  }

  /** `-v`. */
  function Negated(v: int): (r: Int32) {
    Wrap32(-v)
  }

  const MINUS: nat := '-' as nat

  /** The digits of the loop, padded. */
  function Magnitude(v: Int32, base: nat, min: int): (r: seq<nat>)
    requires 2 <= base <= 16
  {
    var digits := Reversed(LittleSigned(v, base));
    Codes(Zeros(min - |digits|) + digits)
  }

  /** The text of a signed number: in base 16 that of the same bits taken for unsigned; otherwise that of the
      magnitude, which for the least number is not a number's; the sign in base 10 only. */
  function SignedText(v: Int32, base: nat, min: int): (r: seq<nat>)
    requires 2 <= base <= 16
  {
    if v < 0 && base == 16 then Text(v + 0x1_0000_0000, base, min)
    else (if v < 0 && base == 10 then [MINUS] else []) + Magnitude(if v < 0 then Negated(v) else v, base, min)
  }

  lemma NegatedIs(v: Int32)
    ensures Negated(v) == if v == INT_MIN then v else 0 - v
  {
  }

  // ---------------------------------------------------------------- writing

  lemma NothingChanged(a: seq<nat>)
    ensures Kept(a, a, 0)
  {
  }

  lemma KeptOn(a: seq<nat>, b: seq<nat>, c: seq<nat>, n: nat)
    requires Kept(a, b, n) && Kept(b, c, n + 1)
    ensures Kept(a, c, n + 1)
  {
  }

  /** The same loop, of a signed value. */
  method WriteSignedDigits(buf: array<nat>, v: Int32, base: nat, min: int) returns (n: nat, left: int)
    requires 2 <= base <= 16 && |LittleSigned(v, base)| <= buf.Length
    modifies buf
    ensures left == Remaining(min, n)
    ensures Written(buf[..], n, LittleSigned(v, base)) && Kept(old(buf[..]), buf[..], n)
  {
    hide Written, LittleSigned, Kept;
    var val := v;
    n, left := 0, min;
    ghost var w: seq<nat> := [];
    NothingWritten(buf[..]);
    assert Kept(old(buf[..]), buf[..], n) by { NothingChanged(buf[..]); }
    while true
      invariant n + |LittleSigned(val, base)| <= buf.Length && w + LittleSigned(val, base) == LittleSigned(v, base)
      invariant left == Remaining(min, n) && Written(buf[..], n, w) && Kept(old(buf[..]), buf[..], n)
      decreases Size(val)
    {
      LittleSignedStep(val, base);
      ghost var d := val % 0x1_0000_0000 % base;
      assert w + LittleSigned(val, base)
          == (w + [d]) + (if Quotient(val, base) == 0 then [] else LittleSigned(Quotient(val, base), base));
      ghost var before := buf[..];
      Put(buf, n, val % 0x1_0000_0000 % base, w);
      KeptOn(old(buf[..]), before, buf[..], n);
      n, w := n + 1, w + [d];
      if left > 0 {
        left := left - 1;
      }
      val := Quotient(val, base);
      if val == 0 {
        assert w + [] == w;
        break;
      }
    }
  }

  lemma HexOfNegative(v: Int32, min: int)
    requires v % 0x1_0000_0000 > 0x7FFF_FFFF
    ensures SignedText(v, 16, min) == Text(v % 0x1_0000_0000, 16, min)
  {
    hide Text, Magnitude, Negated;
    assert v < 0 && v % 0x1_0000_0000 == v + 0x1_0000_0000;
  }

  lemma MagnitudeTurned(v: Int32, base: nat, min: int, w: seq<nat>)
    requires 2 <= base <= 16 && w == LittleSigned(v, base)
    ensures var z := Zeros(Remaining(min, |w|));
            (forall i :: 0 <= i < |w + z| ==> (w + z)[i] < 16)
            && Reversed(Codes(w + z)) == Magnitude(v, base, min) && |Magnitude(v, base, min)| == |w| + |z|
  {
    hide LittleSigned, Codes;
    var z := Zeros(Remaining(min, |w|));
    assert Reversed(w + z) == z + Reversed(w);
    ReversedCodes(w + z);
  }

  method PutSign(buf: array<nat>, n: nat, ghost before: seq<nat>, ghost text: seq<nat>) returns (n': nat)
    requires n < buf.Length && Backwards(buf[..], n, text) && Kept(before, buf[..], n)
    modifies buf
    ensures Backwards(buf[..], n', [MINUS] + text) && Kept(before, buf[..], n')
  {
    buf[n] := MINUS;
    n' := n + 1;
    assert Reversed(buf[..n']) == [MINUS] + text;
  }

  /** The loops of `itoa`, but for the sign. */
  method WriteMagnitude(buf: array<nat>, v: Int32, base: nat, min: int) returns (n: nat)
    requires 2 <= base <= 16 && buf.Length >= |Magnitude(v, base, min)|
    modifies buf
    ensures Backwards(buf[..], n, Magnitude(v, base, min)) && Kept(old(buf[..]), buf[..], n)
  {
    ghost var w := LittleSigned(v, base);
    MagnitudeTurned(v, base, min, w);
    hide *;
    var left;
    n, left := WriteSignedDigits(buf, v, base, min);
    ghost var before := buf[..];
    n := WriteZeros(buf, n, left, w);
    Turned(old(buf[..]), before, buf[..], n - |Zeros(left)|, n, w + Zeros(left), Magnitude(v, base, min));
  }

  method WriteSigned(buf: array<nat>, val: Int32, base: nat, min: int) returns (n: nat)
    requires 2 <= base <= 16 && buf.Length > |SignedText(val, base, min)| && (val >= 0 || base != 16)
    modifies buf
    ensures Backwards(buf[..], n, SignedText(val, base, min)) && Kept(old(buf[..]), buf[..], n)
  {
    var v := val;
    var sign := val;
    if sign < 0 {
      v := Negated(v);
    }
    ghost var text := Magnitude(v, base, min);
    assert SignedText(val, base, min) == if val < 0 && base == 10 then [MINUS] + text else text;
    hide *;
    n := WriteMagnitude(buf, v, base, min);
    BackwardsLength(buf[..], n, text);
    if sign < 0 && base == 10 {
      n := PutSign(buf, n, old(buf[..]), text);
    }
  }

  lemma EmptyStands(a: seq<nat>, b: seq<nat>)
    requires |a| > 0 && b == a[0 := 0]
    ensures Stands(a, b, [])
  {
  }

  /** `itoa`. */
  method Itoa(buf: array<nat>, val: Int32, base: int, min: int)
    requires buf.Length > if 2 <= base <= 16 then |SignedText(val, base, min)| else 0
    modifies buf
    ensures Stands(old(buf[..]), buf[..], if 2 <= base <= 16 then SignedText(val, base, min) else [])
  {
    hide *;
    if base < 2 || base > 16 {
      buf[0] := 0;
      EmptyStands(old(buf[..]), buf[..]);
      return;
    }
    var n;
    var uval: nat := val % 0x1_0000_0000;
    if uval > 0x7FFF_FFFF && base == 16 {
      HexOfNegative(val, min);
      n := WriteUnsigned(buf, uval, base, min);
    } else {
      n := WriteSigned(buf, val, base, min);
    }
    assert n < buf.Length by { BackwardsLength(buf[..], n, SignedText(val, base, min)); }
    Finish(buf, n, old(buf[..]), SignedText(val, base, min));
  }

  // ---------------------------------------------------------------- what it denotes

  /** What a decimal text with a sign denotes. */
  function SignedValue(text: seq<nat>): int {
    if text != [] && text[0] == MINUS then -Horner(Weights(text[1..]), 10) else Horner(Weights(text), 10)
  }

  lemma TextHasNoSign(v: nat, min: int)
    ensures Text(v, 10, min) != [] && Text(v, 10, min)[0] != MINUS
  {
  }

  lemma PositiveText(v: Int32, base: nat, min: int)
    requires v >= 0 && 2 <= base <= 16
    ensures Magnitude(v, base, min) == Text(v, base, min)
  {
    LittleSignedPositive(v, base);
    LittleIsReversed(v, base);
  }

  lemma MoreIsMore(p: int, q: int, r: int, rem: int, base: nat)
    requires 0 <= r < base && 0 <= rem
    ensures p > q ==> p * base + rem > q * base + r
  {
    if p > q {
      Times(1, p - q, base);
      assert (p - q) * base == p * base - q * base;
    }
  }

  lemma DivideBack(q: int, r: int, base: nat)
    requires 0 <= r < base
    ensures (q * base + r) / base == q && (q * base + r) % base == r
  {
    var x := q * base + r;
    assert x == x / base * base + x % base by { assert x == base * (x / base) + x % base; }
    MoreIsMore(x / base, q, r, x % base, base);
    MoreIsMore(q, x / base, x % base, r, base);
  }

  /** Two digits from the right, of the number that digits denote. */
  lemma {:induction false} LastTwo(s: seq<int>, base: nat)
    requires |s| >= 2 && base >= 2 && 0 <= s[|s| - 1] < base && 0 <= s[|s| - 2] < base
    ensures Horner(s, base) / base % base == s[|s| - 2] && Horner(s, base) % base == s[|s| - 1]
  {
    var n := |s|;
    var t, u := s[..n - 1], s[..n - 2];
    assert s == t + [s[n - 1]] && t == u + [s[n - 2]];
    HornerPush(t, s[n - 1], base);
    HornerPush(u, s[n - 2], base);
    DivideBack(Horner(t, base), s[n - 1], base);
    DivideBack(Horner(u, base), s[n - 2], base);
  }

  lemma ValuesOfCodes(d: seq<nat>)
    requires forall i :: 0 <= i < |d| ==> d[i] < 16
    ensures Values(Codes(d)) == d
  {
  }

  lemma PaddingDenotesNothing(n: int, d: seq<nat>, base: nat)
    requires forall i :: 0 <= i < |d| ==> d[i] < 16
    ensures Horner(Values(Codes(Zeros(n) + d)), base) == Horner(d, base)
  {
    hide Horner, Codes;
    var p := Zeros(n) + d;
    ValuesOfCodes(p);
    if n > 0 {
      LeadingZeros(n, d, base);
    } else {
      assert p == d;
    }
  }

  /** Leading zeros do not count. */
  lemma MagnitudeDenotes(v: Int32, base: nat, min: int)
    requires 2 <= base <= 16
    ensures Horner(Values(Magnitude(v, base, min)), base) == Horner(Reversed(LittleSigned(v, base)), base)
  {
    var d := Reversed(LittleSigned(v, base));
    var z := Zeros(min - |d|);
    assert Magnitude(v, base, min) == Codes(z + d);
    PaddingDenotesNothing(min - |d|, d, base);
  }

  lemma QuotientOfLeast(base: nat)
    requires 2 <= base <= 16
    ensures 0 < 0x8000_0000 / base < 0x8000_0000
  {
  }

  /** The second digit from the right that the loop writes of the least number. */
  lemma {:induction false} SecondOfLeast(v: Int32, base: nat)
    requires v == INT_MIN && 2 <= base <= 16
    ensures |LittleSigned(v, base)| >= 2
    ensures LittleSigned(v, base)[1] == (0x1_0000_0000 - 0x8000_0000 / base) % base
  {
    hide LittleSigned;
    var q: int := 0x8000_0000 / base;
    QuotientOfLeast(base);
    assert Quotient(v, base) == 0 - q;
    LittleSignedStep(v, base);
    LittleSignedStep(0 - q, base);
    assert (0 - q) % 0x1_0000_0000 == 0x1_0000_0000 - q;
  }

  lemma SecondDiffersLow(base: nat)
    requires base in {3, 5, 6, 7, 9}
    ensures (0x1_0000_0000 - 0x8000_0000 / base) % base != 0x8000_0000 / base % base
  {
    if base == 3 {
    } else if base == 5 {
    } else if base == 6 {
    } else if base == 7 {
    } else {
      assert base == 9;
    }
  }

  lemma SecondDiffersHigh(base: nat)
    requires 10 <= base <= 15
    ensures (0x1_0000_0000 - 0x8000_0000 / base) % base != 0x8000_0000 / base % base
  {
    if base == 10 {
    } else if base == 11 {
    } else if base == 12 {
    } else if base == 13 {
    } else if base == 14 {
    } else {
      assert base == 15;
    }
  }

  lemma SecondDiffers(base: nat)
    requires 2 <= base <= 16 && base !in {2, 4, 8, 16}
    ensures (0x1_0000_0000 - 0x8000_0000 / base) % base != 0x8000_0000 / base % base
  {
    if base < 10 {
      SecondDiffersLow(base);
    } else {
      SecondDiffersHigh(base);
    }
  }

  /** In a base that is no power of two, the second digit from the right is wrong. */
  lemma LeastWrong(v: Int32, base: nat, min: int)
    requires v == INT_MIN && 2 <= base <= 16 && base !in {2, 4, 8, 16}
    ensures Horner(Values(Magnitude(v, base, min)), base) != 0x8000_0000
  {
    var w := LittleSigned(v, base);
    var d := Reversed(w);
    SecondOfLeast(v, base);
    SecondDiffers(base);
    MagnitudeDenotes(v, base, min);
    assert d[|d| - 2] == w[1];
    hide LittleSigned, Horner, Magnitude, Reversed;
    LastTwo(d, base);
  }

  lemma ProductStep(c: nat, base: nat, n: nat)
    requires c > 0 && base > 0 && n > 0
    ensures c * Power(base, n) == c * Power(base, n - 1) * base && 0 < c * Power(base, n - 1)
  {
    hide Power;
    PowerNext(base, n - 1);
    var p := Power(base, n - 1);
    assert c * (p * base) == c * p * base;
    Times(1, c, p);
  }

  lemma OneDigitIs(v: int, base: nat, c: nat)
    requires base in {2, 4, 8, 16} && 0 < c < base && v == 0 - c * Power(base, 0)
    ensures v % 0x1_0000_0000 == (0x1_0000_0000 / base - 1) * base + (base - c) && Quotient(v, base) == 0
    ensures |Zeros(0)| == 0
  {
    assert Power(base, 0) == 1 && v % 0x1_0000_0000 == 0x1_0000_0000 - c;
  }

  lemma OneDigit(v: int, base: nat, c: nat)
    requires base in {2, 4, 8, 16} && 0 < c < base && v == 0 - c * Power(base, 0)
    ensures LittleSigned(v, base) == Zeros(0) + [base - c]
  {
    hide *;
    OneDigitIs(v, base, c);
    DivideBack(0x1_0000_0000 / base - 1, base - c, base);
    LittleSignedStep(v, base);
    assert Zeros(0) + [base - c] == [base - c];
  }

  lemma DividedByBase(v: int, w: nat, base: nat)
    requires base in {2, 4, 8, 16} && v == 0 - w * base && -0x8000_0000 <= v && w > 0
    ensures v % 0x1_0000_0000 % base == 0 && Quotient(v, base) == 0 - w
  {
  }

  /** In a base that is one, only the first digit is not zero, and it is what is missing to the base. */
  lemma {:induction false} LeastInPower(v: int, base: nat, c: nat, n: nat)
    requires base in {2, 4, 8, 16} && 0 < c < base && v == 0 - c * Power(base, n) && -0x8000_0000 <= v
    ensures LittleSigned(v, base) == Zeros(n) + [base - c]
    decreases n
  {
    if n == 0 {
      OneDigit(v, base, c);
    } else {
      var w := c * Power(base, n - 1);
      ProductStep(c, base, n);
      DividedByBase(v, w, base);
      LittleSignedStep(v, base);
      hide LittleSigned, Power, Quotient;
      LeastInPower(0 - w, base, c, n - 1);
      assert Zeros(n) + [base - c] == [0] + (Zeros(n - 1) + [base - c]);
    }
  }

  /** What `[d]` before `n` zeros denotes. */
  lemma OneThenZeros(d: nat, n: nat, base: nat)
    ensures Horner([d] + Zeros(n), base) == d * Power(base, n)
  {
    HornerFront([d] + Zeros(n), base);
    LeadingZeros(n, [], base);
    assert ([d] + Zeros(n))[1..] == Zeros(n) + [];
    assert Horner([], base) == 0;
    hide Horner;
  }

  lemma ZerosThenOne(n: nat, d: nat)
    ensures Reversed(Zeros(n) + [d]) == [d] + Zeros(n)
  {
  }

  lemma LeastInPowerDenotes(v: Int32, base: nat, c: nat, d: nat, n: nat, min: int)
    requires base in {2, 4, 8, 16} && 0 < c < base && d == base - c && v == 0 - c * Power(base, n)
    ensures Horner(Values(Magnitude(v, base, min)), base) == d * Power(base, n)
  {
    hide *;
    LeastInPower(v, base, c, n);
    ZerosThenOne(n, d);
    MagnitudeDenotes(v, base, min);
    OneThenZeros(d, n, base);
  }

  lemma {:induction false} PowerAdd(base: nat, m: nat, n: nat)
    ensures Power(base, m + n) == Power(base, m) * Power(base, n)
    decreases n
  {
    if n == 0 {
      assert Power(base, 0) == 1;
    } else {
      PowerAdd(base, m, n - 1);
      PowerNext(base, n - 1);
      PowerNext(base, m + n - 1);
      var p, q := Power(base, m), Power(base, n - 1);
      hide Power;
      assert p * q * base == p * (q * base);
    }
  }

  lemma Powers()
    ensures Power(2, 31) == 0x8000_0000 && 2 * Power(4, 15) == 0x8000_0000
    ensures 2 * Power(8, 10) == 0x8000_0000 && 8 * Power(16, 7) == 0x8000_0000
  {
    assert Power(2, 8) == 0x100 && Power(2, 7) == 0x80;
    PowerAdd(2, 8, 8);
    PowerAdd(2, 8, 7);
    PowerAdd(2, 16, 15);
    assert Power(4, 5) == 0x400;
    PowerAdd(4, 5, 5);
    PowerAdd(4, 10, 5);
    assert Power(8, 5) == 0x8000;
    PowerAdd(8, 5, 5);
    assert Power(16, 4) == 0x1_0000 && Power(16, 3) == 0x1000;
    PowerAdd(16, 4, 3);
  }

  /** The text of the least number's magnitude denotes 2^31 in bases 2, 4 and 16 and in no other: not in base 8, where
      it is 6 and ten zeros, and not where the base is no power of two. */
  lemma LeastDenotes(v: Int32, base: nat, min: int)
    requires v == INT_MIN && 2 <= base <= 16
    ensures Horner(Values(Magnitude(v, base, min)), base) == 0x8000_0000 <==> base in {2, 4, 16}
  {
    Powers();
    assert v == -0x8000_0000;
    hide *;
    if base == 2 {
      LeastInPowerDenotes(v, base, 1, 1, 31, min);
    } else if base == 4 {
      LeastInPowerDenotes(v, base, 2, 2, 15, min);
    } else if base == 8 {
      LeastInPowerDenotes(v, base, 2, 6, 10, min);
    } else if base == 16 {
      LeastInPowerDenotes(v, base, 8, 8, 7, min);
    } else {
      LeastWrong(v, base, min);
    }
  }

  // ---------------------------------------------------------------- what `itoa` writes denotes

  lemma SignedValueOf(t: seq<nat>)
    ensures SignedValue([MINUS] + t) == -Horner(Weights(t), 10)
    ensures t != [] && t[0] != MINUS ==> SignedValue(t) == Horner(Weights(t), 10)
  {
    assert ([MINUS] + t)[1..] == t;
  }

  lemma DecimalWeights(v: Int32, min: int)
    ensures Weights(Magnitude(v, 10, min)) == Values(Magnitude(v, 10, min))
  {
    var d := Reversed(LittleSigned(v, 10));
    var p := Zeros(min - |d|) + d;
    hide LittleSigned, Reversed;
    WeightsOfCodes(p);
    ValuesOfCodes(p);
  }

  lemma DigitsOfLeast(v: Int32)
    requires v == INT_MIN
    ensures v % 0x1_0000_0000 % 10 == 8 && (0x1_0000_0000 - 0x8000_0000 / 10) % 10 == 2
    ensures Code(8) == '8' as nat && Code(2) == '2' as nat
  {
    assert v % 0x1_0000_0000 == 0x8000_0000;
  }

  lemma EndOfMagnitude(v: Int32, w: seq<nat>, min: int)
    requires w == LittleSigned(v, 10) && |w| >= 2
    ensures var t := Magnitude(v, 10, min); |t| >= 2 && t[|t| - 2..] == [Code(w[1]), Code(w[0])]
  {
    var d := Reversed(w);
    var p := Zeros(min - |d|) + d;
    hide LittleSigned;
    assert p[|p| - 1] == w[0] && p[|p| - 2] == w[1];
    var t := Magnitude(v, 10, min);
    assert t[|t| - 2..] == [t[|t| - 2], t[|t| - 1]];
  }

  lemma LeastEnd(v: Int32, min: int)
    requires v == INT_MIN
    ensures var t := Magnitude(v, 10, min); |t| >= 2 && t[|t| - 2..] == ['2' as nat, '8' as nat]
  {
    hide *;
    DigitsOfLeast(v);
    SecondOfLeast(v, 10);
    LittleSignedStep(v, 10);
    EndOfMagnitude(v, LittleSigned(v, 10), min);
  }

  lemma EndWithSign(t: seq<nat>)
    requires |t| >= 2
    ensures var u := [MINUS] + t; |u| >= 2 && u[|u| - 2..] == t[|t| - 2..]
  {
  }

  lemma LeastIsSigned(v: Int32, min: int)
    requires v == INT_MIN
    ensures SignedText(v, 10, min) == [MINUS] + Magnitude(v, 10, min)
  {
    NegatedIs(v);
    hide Magnitude, Negated;
  }

  lemma TextHasNoMinus(v: nat, min: int)
    ensures 45 !in Text(v, 10, min)
  {
    hide Digits;
    var p := Padded(v, 10, min);
    forall i | 0 <= i < |p| ensures Codes(p)[i] != 45 {
      assert Codes(p)[i] == Code(p[i]) >= 48;
    }
  }

  /** In base 10 a negative number has code 45, the minus sign, before its digits; other numbers have it nowhere. */
  lemma MinusSign(v: Int32, min: int)
    ensures v < 0 ==> SignedText(v, 10, min) == [45] + Magnitude(Negated(v), 10, min)
    ensures v >= 0 ==> SignedText(v, 10, min) == Text(v, 10, min) && 45 !in SignedText(v, 10, min)
  {
    hide Magnitude, Negated, Text;
    if v >= 0 {
      assert [] + Magnitude(v, 10, min) == Magnitude(v, 10, min);
      PositiveText(v, 10, min);
      TextHasNoMinus(v, min);
    }
  }

  /** -42 in base 10 to a width of five. */
  lemma KnownSigned()
    ensures SignedText(-42, 10, 5) == [45, 48, 48, 48, 52, 50]
  {
    hide Magnitude, SignedText, Text;
    MinusSign(-42, 5);
    NegatedIs(-42);
    PositiveText(42, 10, 5);
    KnownTexts();
    assert [45 as nat] + [48, 48, 48, 52, 50] == [45, 48, 48, 48, 52, 50];
  }

  /** Of the least number it writes, in base 10, a text that ends in 28, and so one of another number. */
  lemma LeastText(v: Int32, min: int)
    requires v == INT_MIN
    ensures var t := SignedText(v, 10, min);
            |t| >= 2 && t[|t| - 2..] == ['2' as nat, '8' as nat] && SignedValue(t) != v
  {
    var text := Magnitude(v, 10, min);
    assert v == -0x8000_0000;
    hide *;
    LeastIsSigned(v, min);
    LeastEnd(v, min);
    EndWithSign(text);
    SignedValueOf(text);
    DecimalWeights(v, min);
    LeastWrong(v, 10, min);
  }

  /** In base 10, `itoa` writes the number it is given, exactly when that is not the least of all. */
  lemma SignedTextDenotes(v: Int32, min: int)
    ensures SignedValue(SignedText(v, 10, min)) == v <==> v != INT_MIN
  {
    if v == INT_MIN {
      LeastText(v, min);
    } else {
      NegatedIs(v);
      var m: Int32 := if v < 0 then 0 - v else v;
      PositiveText(m, 10, min);
      assert SignedText(v, 10, min) == if v < 0 then [MINUS] + Text(m, 10, min) else Text(m, 10, min) by {
        hide Magnitude, Negated, Text;
      }
      hide *;
      TextHasNoSign(m, min);
      AtoiUndoesUitoa(m, min);
      SignedValueOf(Text(m, 10, min));
    }
  }

  /** The number that the text is for, in a base that has no sign: the magnitude, but in base 16 the same bits taken
      for unsigned. */
  function Unsigned(v: Int32, base: nat): nat {
    if v >= 0 then v else if base == 16 then v + 0x1_0000_0000 else 0 - v
  }

  lemma UnsignedMagnitude(v: Int32, m: Int32, base: nat, min: int)
    requires 2 <= base <= 16 && base != 10 && (v >= 0 || base != 16) && m == if v < 0 then Negated(v) else v
    ensures SignedText(v, base, min) == Magnitude(m, base, min)
  {
    hide Magnitude, Negated;
    assert [] + Magnitude(m, base, min) == Magnitude(m, base, min);
  }

  lemma HexDenotes(v: Int32, min: int)
    requires v < 0
    ensures Horner(Values(SignedText(v, 16, min)), 16) == Unsigned(v, 16)
  {
    hide SignedText, Text, Horner;
    var u: nat := v % 0x1_0000_0000;
    assert u == Unsigned(v, 16);
    HexOfNegative(v, min);
    TextDenotes(u, 16, min);
  }

  /** The magnitude `itoa` works on: the number itself, or its negation, which fails for the least. */
  lemma MagnitudeTaken(v: Int32, m: Int32, base: nat)
    requires m == (if v < 0 then Negated(v) else v) && (v >= 0 || base != 16)
    ensures if v != INT_MIN then m >= 0 && m == Unsigned(v, base)
            else m < 0 && m == v && Unsigned(v, base) == 0x8000_0000
  {
    NegatedIs(v);
  }

  /** In a base other than 10 `itoa` writes that number, except for the least number in the bases but 2, 4 and 16. */
  lemma OtherBases(v: Int32, base: nat, min: int)
    requires 2 <= base <= 16 && base != 10
    ensures Horner(Values(SignedText(v, base, min)), base) == Unsigned(v, base) <==> v != INT_MIN || base in {2, 4, 16}
  {
    hide *;
    if v < 0 && base == 16 {
      HexDenotes(v, min);
    } else {
      var m: Int32 := if v < 0 then Negated(v) else v;
      MagnitudeTaken(v, m, base);
      UnsignedMagnitude(v, m, base, min);
      if m >= 0 {
        PositiveText(m, base, min);
        TextDenotes(m, base, min);
      } else {
        LeastDenotes(v, base, min);
      }
    }
  }
}
