/** Numbers as text, and back: `uitoa`, `u64toa`, `itoa` and `atoi`. */
module Numerals {
  import opened CInt

  // ---------------------------------------------------------------- positional notation

  /** The number that digits stand for, the most significant first. */
  function Horner(digits: seq<int>, base: int): int {
    if digits == [] then 0 else Horner(digits[..|digits| - 1], base) * base + digits[|digits| - 1]
  }

  lemma Smaller(v: nat, base: nat)
    requires base >= 2
    ensures 0 <= v / base <= v
    ensures v >= 1 ==> v / base < v
  {
    var q := v / base;
    assert v == base * q + v % base;
    assert q >= 0 && (base - 2) * q >= 0;
  }

  /** The digits of a number, without leading zeros; one, for zero. */
  function Digits(v: nat, base: nat): (r: seq<nat>)
    requires base >= 2
    ensures |r| > 0 && forall i :: 0 <= i < |r| ==> r[i] < base
    decreases v
  {
    if v < base then [v]
    else
      Smaller(v, base);
      Digits(v / base, base) + [v % base]
  }

  lemma Divided(v: nat, base: nat)
    requires base >= 1
    ensures v == v / base * base + v % base && (v >= base ==> v / base > 0)
  {
    assert v == base * (v / base) + v % base;
  }

  lemma {:induction false} HornerPush(s: seq<int>, d: int, base: int)
    ensures Horner(s + [d], base) == Horner(s, base) * base + d
  {
    assert (s + [d])[..|s|] == s;
  }

  lemma {:induction false} DigitsStep(v: nat, base: nat)
    requires base >= 2
    ensures v / base >= 0 && v % base < base && (v > 0 ==> v / base < v)
    ensures Digits(v, base) == (if v < base then [] else Digits(v / base, base)) + [v % base]
    ensures v < base <==> v / base == 0
  {
    Smaller(v, base);
    Divided(v, base);
  }

  /** The digits of a number denote it. */
  lemma {:induction false} HornerOfDigits(v: nat, base: nat)
    requires base >= 2
    ensures Horner(Digits(v, base), base) == v
    decreases v
  {
    DigitsStep(v, base);
    Divided(v, base);
    assert Horner([], base) == 0;
    hide Digits, Horner;
    if v < base {
      HornerPush([], v % base, base);
    } else {
      HornerOfDigits(v / base, base);
      HornerPush(Digits(v / base, base), v % base, base);
    }
  }

  function Power(base: nat, n: nat): (p: nat)
    ensures base > 0 ==> p > 0
  {
    if n == 0 then 1 else Power(base, n - 1) * base
  }

  lemma PowerNext(base: nat, n: nat)
    ensures Power(base, n + 1) == Power(base, n) * base
  {
  }

  lemma Times(a: nat, b: nat, c: nat)
    requires a <= b
    ensures a * c <= b * c
  {
    var d := b - a;
    assert b * c == a * c + d * c by { assert b == a + d; }
  }

  lemma PowerStep(h: nat, r: nat, base: nat, p: nat, q: nat)
    requires r < base && q <= h < p
    ensures q * base <= h * base + r < p * base
  {
    Times(q, h, base);
    Times(h + 1, p, base);
    assert (h + 1) * base == h * base + base;
  }

  /** No fewer digits would do, and these are enough. */
  lemma {:induction false} DigitCount(v: nat, base: nat)
    requires base >= 2
    ensures v < Power(base, |Digits(v, base)|)
    ensures v > 0 ==> Power(base, |Digits(v, base)| - 1) <= v
    decreases v
  {
    var n := |Digits(v, base)|;
    if v < base {
      PowerNext(base, 0);
      assert Power(base, 0) == 1;
    } else {
      Smaller(v, base);
      DigitCount(v / base, base);
      Divided(v, base);
      assert n == |Digits(v / base, base)| + 1;
      PowerNext(base, n - 1);
      PowerNext(base, n - 2);
      hide Power, Digits;
      PowerStep(v / base, v % base, base, Power(base, n - 1), Power(base, n - 2));
    }
  }

  function Zeros(n: int): (r: seq<nat>)
    ensures |r| == if n > 0 then n else 0
    ensures forall i :: 0 <= i < |r| ==> r[i] == 0
  {
    if n > 0 then seq(n, _ => 0) else []
  }

  lemma {:induction false} LeadingZeros(n: nat, s: seq<int>, base: int)
    ensures Horner(Zeros(n) + s, base) == Horner(s, base)
    decreases n + |s|
  {
    var t := Zeros(n) + s;
    if s != [] {
      assert t[..|t| - 1] == Zeros(n) + s[..|s| - 1];
      LeadingZeros(n, s[..|s| - 1], base);
    } else if n > 0 {
      assert t[..|t| - 1] == Zeros(n - 1) + [];
      LeadingZeros(n - 1, [], base);
    } else {
      assert t == s;
    }
  }

  // ---------------------------------------------------------------- text

  /** The table `num`, as character codes. */
  function Code(d: nat): (c: nat)
    requires d < 16
    ensures if d < 10 then c == '0' as nat + d else c == 'A' as nat + (d - 10)
  {
    "0123456789ABCDEF"[d] as nat
  }

  function Codes(digits: seq<nat>): (r: seq<nat>)
    requires forall i :: 0 <= i < |digits| ==> digits[i] < 16
    ensures |r| == |digits|
  {
    seq(|digits|, i requires 0 <= i < |digits| => Code(digits[i]))
  }

  /** The digits padded to a width of at least `min`. */
  function Padded(v: nat, base: nat, min: int): (r: seq<nat>)
    requires 2 <= base <= 16
    ensures forall i :: 0 <= i < |r| ==> r[i] < base
    ensures |r| == if min > |Digits(v, base)| then min else |Digits(v, base)|
  {
    Zeros(min - |Digits(v, base)|) + Digits(v, base)
  }

  function Text(v: nat, base: nat, min: int): (r: seq<nat>)
    requires 2 <= base <= 16
  {
    Codes(Padded(v, base, min))
  }

  lemma DigitsOf42()
    ensures Digits(42, 10) == [4, 2] && Digits(255, 16) == [15, 15]
  {
    assert Digits(4, 10) == [4] && Digits(15, 16) == [15];
  }

  /** 42 in base 10 to a width of five is "00042", and 255 in base 16 "FF". */
  lemma KnownTexts()
    ensures Text(42, 10, 5) == [48, 48, 48, 52, 50] && Text(255, 16, 0) == [70, 70]
  {
    hide Digits;
    DigitsOf42();
    assert Zeros(3) == [0, 0, 0];
  }

  lemma PaddedDenotes(v: nat, base: nat, min: int)
    requires 2 <= base <= 16
    ensures Horner(Padded(v, base, min), base) == v
  {
    HornerOfDigits(v, base);
    var n := min - |Digits(v, base)|;
    if n > 0 {
      LeadingZeros(n, Digits(v, base), base);
    } else {
      assert Padded(v, base, min) == Digits(v, base);
    }
  }

  function Reversed<T>(s: seq<T>): (r: seq<T>)
    ensures |r| == |s|
  {
    seq(|s|, i requires 0 <= i < |s| => s[|s| - 1 - i])
  }

  /** `strreverse`, of the characters from `begin` to `end`. */
  method StrReverse(a: array<nat>, begin: nat, end: nat)
    requires begin <= end < a.Length
    modifies a
    ensures a[..] == old(a[..begin]) + Reversed(old(a[begin..end + 1])) + old(a[end + 1..])
  {
    var b, e: int := begin, end;
    while e > b
      invariant begin <= b <= e + 2 && e <= end && b - begin == end - e
      invariant forall k :: 0 <= k < a.Length ==>
                  a[k] == if begin <= k < b || e < k <= end then old(a[begin + end - k]) else old(a[k])
    {
      var aux := a[e];
      a[e] := a[b];
      e := e - 1;
      a[b] := aux;
      b := b + 1;
    }
  }

  // ---------------------------------------------------------------- writing

  /** The digits from the least significant up, as the loops produce them. */
  function Little(v: nat, base: nat): (r: seq<nat>)
    requires base >= 2
    ensures |r| > 0 && forall i :: 0 <= i < |r| ==> r[i] < base
    decreases v
  {
    if v / base == 0 then [v % base]
    else
      Smaller(v, base);
      [v % base] + Little(v / base, base)
  }

  lemma {:induction false} LittleStep(v: nat, base: nat)
    requires base >= 2
    ensures 0 <= v / base && 0 <= v % base < base && (v > 0 ==> v / base < v)
    ensures Little(v, base) == [v % base] + if v / base == 0 then [] else Little(v / base, base)
  {
    Smaller(v, base);
  }

  lemma ReversedPush<T>(d: T, s: seq<T>)
    ensures Reversed([d] + s) == Reversed(s) + [d]
  {
  }

  lemma {:induction false} LittleIsReversed(v: nat, base: nat)
    requires base >= 2
    ensures Reversed(Little(v, base)) == Digits(v, base)
    decreases v
  {
    LittleStep(v, base);
    DigitsStep(v, base);
    assert Reversed<nat>([]) == [];
    hide Little, Digits, Reversed;
    if v < base {
      ReversedPush(v % base, []);
    } else {
      LittleIsReversed(v / base, base);
      ReversedPush(v % base, Little(v / base, base));
    }
  }

  /** The two agree from place `n` on. */
  predicate Kept(a: seq<nat>, b: seq<nat>, n: nat) {
    |a| == |b| && forall k :: n <= k < |a| ==> a[k] == b[k]
  }

  /** The digits `w` stand in the first `n` places. */
  ghost predicate Written(buf: seq<nat>, n: nat, w: seq<nat>) {
    n <= |buf| && |w| == n && (forall i :: 0 <= i < n ==> w[i] < 16) && buf[..n] == Codes(w)
  }

  /** `*wstr++ = num[d]`. */
  method Put(buf: array<nat>, n: nat, d: nat, ghost w: seq<nat>)
    requires n < buf.Length && d < 16 && Written(buf[..], n, w)
    modifies buf
    ensures Written(buf[..], n + 1, w + [d]) && Kept(old(buf[..]), buf[..], n + 1)
  {
    buf[n] := Code(d);
  }

  lemma NothingWritten(buf: seq<nat>)
    ensures Written(buf, 0, [])
  {
  }

  /** The width still to be filled after `n` characters. */
  function Remaining(min: int, n: nat): int {
    if min <= 0 then min else if n >= min then 0 else min - n
  }

  /** The loop `do ... while (val /= base)`. */
  method WriteDigits(buf: array<nat>, v: nat, base: nat, min: int) returns (n: nat, left: int)
    requires 2 <= base <= 16 && |Little(v, base)| <= buf.Length
    modifies buf
    ensures left == Remaining(min, n)
    ensures Written(buf[..], n, Little(v, base)) && Kept(old(buf[..]), buf[..], n)
  {
    var val: nat := v;
    n, left := 0, min;
    ghost var w: seq<nat> := [];
    NothingWritten(buf[..]);
    hide Written, Little;
    while true
      invariant n + |Little(val, base)| <= buf.Length && w + Little(val, base) == Little(v, base)
      invariant left == Remaining(min, n) && Written(buf[..], n, w) && Kept(old(buf[..]), buf[..], n)
      decreases val
    {
      LittleStep(val, base);
      ghost var d := val % base;
      assert w + Little(val, base) == (w + [d]) + (if val / base == 0 then [] else Little(val / base, base));
      Put(buf, n, val % base, w);
      n, w := n + 1, w + [d];
      if left > 0 {
        left := left - 1;
      }
      val := val / base;
      if val == 0 {
        assert w + [] == w;
        break;
      }
    }
  }

  /** The loop that fills up with zeros. */
  method WriteZeros(buf: array<nat>, n: nat, min: int, ghost w: seq<nat>) returns (n': nat)
    requires Written(buf[..], n, w) && n + |Zeros(min)| <= buf.Length
    modifies buf
    ensures Written(buf[..], n', w + Zeros(min)) && Kept(old(buf[..]), buf[..], n') && n' == n + |Zeros(min)|
  {
    n' := n;
    var left := min;
    hide Written;
    ghost var z := w;
    assert w + [] == w;
    while left > 0
      invariant n' + |Zeros(left)| == n + |Zeros(min)| && z + Zeros(left) == w + Zeros(min)
      invariant Written(buf[..], n', z) && Kept(old(buf[..]), buf[..], n')
    {
      Put(buf, n', 0, z);
      z := z + [0];
      n' := n' + 1;
      assert Zeros(left) == [0] + Zeros(left - 1);
      left := left - 1;
    }
    assert z + Zeros(left) == z;
  }

  /** The text stands backwards in the first `n` places. */
  ghost predicate Backwards(buf: seq<nat>, n: nat, text: seq<nat>) {
    0 < n <= |buf| && n == |text| && Reversed(buf[..n]) == text
  }

  /** The text is in the buffer, with a zero behind it, and nothing else has changed. */
  ghost predicate Stands(before: seq<nat>, buf: seq<nat>, text: seq<nat>) {
    |text| < |buf| && buf[..|text|] == text && buf[|text|] == 0 && Kept(before, buf, |text| + 1)
  }

  /** The end of the three: a zero behind the text, which is then turned round. */
  method Finish(buf: array<nat>, n: nat, ghost before: seq<nat>, ghost text: seq<nat>)
    requires n < buf.Length && Backwards(buf[..], n, text) && Kept(before, buf[..], n)
    modifies buf
    ensures Stands(before, buf[..], text)
  {
    buf[n] := 0;
    StrReverse(buf, 0, n - 1);
  }

  lemma ReversedCodes(w: seq<nat>)
    requires forall i :: 0 <= i < |w| ==> w[i] < 16
    ensures (forall i :: 0 <= i < |w| ==> Reversed(w)[i] < 16) && Reversed(Codes(w)) == Codes(Reversed(w))
  {
  }

  lemma ReversedText(v: nat, base: nat, min: int)
    requires 2 <= base <= 16
    ensures Reversed(Codes(Little(v, base) + Zeros(Remaining(min, |Little(v, base)|)))) == Text(v, base, min)
  {
    hide Little, Digits, Codes;
    LittleIsReversed(v, base);
    var w, z := Little(v, base), Zeros(Remaining(min, |Little(v, base)|));
    assert Reversed(w + z) == z + Reversed(w);
    assert z == Zeros(min - |Digits(v, base)|);
    ReversedCodes(w + z);
  }

  lemma Turned(a: seq<nat>, b: seq<nat>, c: seq<nat>, m: nat, n: nat, w: seq<nat>, text: seq<nat>)
    requires Kept(a, b, m) && Kept(b, c, n) && m <= n && Written(c, n, w) && w != [] && Reversed(Codes(w)) == text
    ensures Backwards(c, n, text) && Kept(a, c, n)
  {
  }

  lemma BackwardsLength(buf: seq<nat>, n: nat, text: seq<nat>)
    requires Backwards(buf, n, text)
    ensures n == |text|
  {
  }

  /** The loops of `uitoa`. */
  method WriteUnsigned(buf: array<nat>, val: nat, base: nat, min: int) returns (n: nat)
    requires 2 <= base <= 16 && buf.Length > |Text(val, base, min)|
    modifies buf
    ensures Backwards(buf[..], n, Text(val, base, min)) && Kept(old(buf[..]), buf[..], n)
  {
    LittleIsReversed(val, base);
    ReversedText(val, base, min);
    assert |Text(val, base, min)| == |Little(val, base)| + |Zeros(Remaining(min, |Little(val, base)|))|;
    hide Little, Text, Digits, Written, Kept, Backwards, Reversed, Codes, Zeros;
    var left;
    n, left := WriteDigits(buf, val, base, min);
    ghost var before := buf[..];
    n := WriteZeros(buf, n, left, Little(val, base));
    Turned(old(buf[..]), before, buf[..], n - |Zeros(left)|, n, Little(val, base) + Zeros(left), Text(val, base, min));
  }

  /** `uitoa` and `u64toa`. */
  method Uitoa(buf: array<nat>, val: nat, base: int, min: int)
    requires buf.Length > if 2 <= base <= 16 then |Text(val, base, min)| else 0
    modifies buf
    ensures Stands(old(buf[..]), buf[..], if 2 <= base <= 16 then Text(val, base, min) else [])
  {
    if base < 2 || base > 16 {
      buf[0] := 0;
      return;
    }
    hide Text, Stands, Kept, Backwards;
    var n := WriteUnsigned(buf, val, base, min);
    BackwardsLength(buf[..], n, Text(val, base, min));
    Finish(buf, n, old(buf[..]), Text(val, base, min));
  }

  // ---------------------------------------------------------------- reading

  /** The value of a character as a digit of base up to 16. */
  function CodeValue(c: int): int {
    if c >= 'A' as int then c - 'A' as int + 10 else c - '0' as int
  }

  function Values(text: seq<int>): (r: seq<int>)
    ensures |r| == |text|
  {
    seq(|text|, i requires 0 <= i < |text| => CodeValue(text[i]))
  }

  lemma TextIsPadded(v: nat, base: nat, min: int)
    requires 2 <= base <= 16
    ensures Values(Text(v, base, min)) == Padded(v, base, min)
    ensures |Text(v, base, min)| == if min > |Digits(v, base)| then min else |Digits(v, base)|
  {
    hide Padded, Digits;
  }

  /** The text of a number denotes it, and is as long as asked for, or else as the digits. */
  lemma TextDenotes(v: nat, base: nat, min: int)
    requires 2 <= base <= 16
    ensures Horner(Values(Text(v, base, min)), base) == v
    ensures |Text(v, base, min)| == if min > |Digits(v, base)| then min else |Digits(v, base)|
  {
    hide *;
    PaddedDenotes(v, base, min);
    TextIsPadded(v, base, min);
  }

  /** What `atoi` takes a character for. */
  function Weights(text: seq<int>): (r: seq<int>)
    ensures |r| == |text|
  {
    seq(|text|, i requires 0 <= i < |text| => text[i] - 48)
  }

  lemma WeightsOfCodes(d: seq<nat>)
    requires forall i :: 0 <= i < |d| ==> d[i] < 10
    ensures Weights(Codes(d)) == d
  {
  }

  lemma Distribute(c: int, p: int, h: int, base: int)
    ensures (c * p + h) * base == c * (p * base) + h * base
  {
    assert c * (p * base) == c * p * base;
  }

  lemma {:induction false} HornerFront(s: seq<int>, base: nat)
    requires s != []
    ensures Horner(s, base) == s[0] * Power(base, |s| - 1) + Horner(s[1..], base)
    decreases |s|
  {
    var n := |s| - 1;
    if n > 0 {
      HornerFront(s[..n], base);
      assert s[1..][..n - 1] == s[..n][1..];
      PowerNext(base, n - 1);
      Distribute(s[0], Power(base, n - 1), Horner(s[..n][1..], base), base);
    } else {
      assert s[..n] == [] && s[1..] == [] && Power(base, 0) == 1;
    }
  }

  const WORD := 0x1_0000_0000

  lemma Shifted(x: int, q: int)
    ensures (x - WORD * q) % WORD == x % WORD
  {
  }

  lemma Modular(c: int, p: int, h: int)
    ensures (h % WORD + c * (p % WORD)) % WORD == (c * p + h) % WORD
  {
    var q, k := p / WORD, h / WORD;
    assert p % WORD == p - WORD * q && h % WORD == h - WORD * k;
    assert c * (p - WORD * q) == c * p - WORD * (c * q);
    Shifted(c * p + h, k + c * q);
  }

  lemma ModularStep(c: int, p: nat, h: int, out: nat, pow: nat)
    requires pow == p % WORD && out == h % WORD
    ensures (out + c * pow) % WORD == (c * p + h) % WORD && pow * 10 % WORD == p * 10 % WORD
  {
    Modular(c, p, h);
    Modular(10, p, 0);
  }

  /** One character more, from the right. */
  lemma AtoiStep(w: seq<int>, c: int, out: nat, pow: nat)
    requires w != [] && c == w[0]
    requires pow == Power(10, |w| - 1) % WORD && out == Horner(w[1..], 10) % WORD
    ensures (out + c * pow) % WORD == Horner(w, 10) % WORD
    ensures pow * 10 % WORD == Power(10, |w|) % WORD
  {
    hide *;
    HornerFront(w, 10);
    PowerNext(10, |w| - 1);
    ModularStep(c, Power(10, |w| - 1), Horner(w[1..], 10), out, pow);
  }

  lemma WrapOfMod(x: int)
    ensures Wrap32(x % WORD) == Wrap32(x)
  {
  }

  /** `atoi`, of the characters of a text: what they denote in base 10, in 32 bits. */
  method Atoi(str: seq<int>) returns (r: Int32)
    ensures r == Wrap32(Horner(Weights(str), 10))
  {
    var len := |str|;
    var out: nat, pow: nat := 0, 1;
    var i := len;
    assert Weights(str)[i..] == [] && Horner([], 10) == 0 && Power(10, 0) == 1;
    hide Horner, Power, Wrap32;
    while i > 0
      invariant 0 <= i <= len && pow == Power(10, len - i) % WORD
      invariant out == Horner(Weights(str)[i..], 10) % WORD
    {
      ghost var w := Weights(str)[i - 1..];
      assert w[1..] == Weights(str)[i..] && |w| - 1 == len - i;
      AtoiStep(w, str[i - 1] - 48, out, pow);
      out := (out + (str[i - 1] - 48) * pow) % WORD;
      pow := pow * 10 % WORD;
      i := i - 1;
    }
    assert Weights(str)[0..] == Weights(str);
    r := Wrap32(out);
    WrapOfMod(Horner(Weights(str), 10));
  }

  /** `atoi` undoes `uitoa` of base 10, for every number and padding, up to 32 bits. */
  lemma AtoiUndoesUitoa(v: nat, min: int)
    ensures Horner(Weights(Text(v, 10, min)), 10) == v
  {
    PaddedDenotes(v, 10, min);
    WeightsOfCodes(Padded(v, 10, min));
  }
}
