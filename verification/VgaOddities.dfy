/** Sequences that are not quite well-formed, in the bytes themselves. */
module VgaOddities {
  import opened VgaColor
  import opened VgaEscapes
  import opened VgaPage
  import opened VgaSafety
  import opened VgaTokens

  // ---------------------------------------------------------------- the bytes of a sequence

  lemma DecimalsAre()
    ensures Decimal(1) == [0x31] && Decimal(31) == [0x33, 0x31]
  {
  }

  lemma RedIsPrinted()
    ensures Text([Sgr([1, 31]), Char(0x41)]) == [0x1B, 0x5B, 0x31, 0x3B, 0x33, 0x31, 0x6D, 0x41, 0]
  {
    hide Decimal;
    DecimalsAre();
    assert Params([1, 31]) == Decimal(1) + [0x3B] + Decimal(31) by { assert [1, 31][1..] == [31]; }
    assert [Sgr([1, 31]), Char(0x41)][1..] == [Char(0x41)] && [Char(0x41)][1..] == [];
    assert Text([Char(0x41)]) == [0x41, 0];
  }

  lemma {:induction false} RedIsDrawn(base: Color)
    ensures Draw([Sgr([1, 31]), Char(0x41)], 0x07, base) == Played([Stroke(0x41, 0x0C)], 0x0C, false)
  {
    assert [1, 31][1..] == [31] && [31][1..] == [];
    assert AfterCodes([31], AfterCode(1, 0x07, base), base) == 0x0C;
    assert [Sgr([1, 31]), Char(0x41)][1..] == [Char(0x41)] && [Char(0x41)][1..] == [];
    assert Draw([Char(0x41)], 0x0C, base) == Then([Stroke(0x41, 0x0C)], Draw([], 0x0C, base));
  }

  /** `ESC [ 1 ; 3 1 m A`, and the zero, draws a bright red A. */
  lemma BrightRed(base: Color)
    ensures Play([0x1B, 0x5B, 0x31, 0x3B, 0x33, 0x31, 0x6D, 0x41, 0], 0x07, base) ==
            Played([Stroke(0x41, 0x0C)], 0x0C, false)
  {
    RedIsPrinted();
    PlayIsDraw([Sgr([1, 31]), Char(0x41)], 0x07, base);
    RedIsDrawn(base);
  }

  lemma {:induction false} SequenceAlike(s: seq<bv8>, t: seq<bv8>, rest: seq<bv8>, codes: seq<int>, color: Color,
                                         base: Color)
    requires |rest| < |s| && |rest| < |t| && |s| > 1 && |t| > 1 && Some10(codes) && !Chain(rest, codes).Broken?
    ensures Sequence(true, s, rest, codes, color, base) == Sequence(true, t, rest, codes, color, base)
    decreases |rest|
  {
    hide Play, Scan, AfterCodes;
    if Scan(rest, codes).Done? {
      var rest', codes' := Scan(rest, codes).rest, Scan(rest, codes).codes;
      if rest' != [] && rest'[0] == BRACKET {
        SequenceAlike(s, t, rest'[1..], codes' + [0], AfterCodes(codes', color, base), base);
      }
    }
  }

  /** The byte 0x9B alone begins a sequence as `ESC [` does, unless the sequence is broken. */
  lemma {:induction false} SingleByteAlike(rest: seq<bv8>, color: Color, base: Color)
    requires rest != [] && !Chain(rest, [0]).Broken?
    ensures Play([0x9B] + rest, color, base) == Play([0x1B, 0x5B] + rest, color, base)
  {
    var s, t := [0x9B] + rest, [0x1B, 0x5B] + rest;
    assert s[1..] == rest && t[1..][1..] == rest;
    SequenceAlike(s, t, rest, [0], color, base);
  }

  // ---------------------------------------------------------------- how many parameters there is room for

  lemma {:induction false} Semicolons(n: nat, codes: seq<int>)
    requires Some10(codes)
    ensures var r := Scan(seq(n, _ => 0x3B) + [0x6D, 0], codes);
            if |codes| + n <= 10 then r.Done? && r.rest == [0] else r == TooMany
    decreases n
  {
    var s := seq(n, _ => 0x3B as bv8) + [0x6D, 0];
    if n == 0 {
      assert s == [0x6D, 0] && s[1..] == [0];
    } else {
      assert s[0] == SEMICOLON && s[1..] == seq(n - 1, _ => 0x3B as bv8) + [0x6D, 0];
      if |codes| <= ROOM {
        Semicolons(n - 1, codes + [0]);
      } else {
        Semicolons(n - 1, codes);
      }
    }
  }

  /** `ESC [`, `n` semicolons and `m`: nine fit, which makes ten parameters; ten are too many. */
  lemma {:induction false} TenParameters(n: nat)
    ensures FateOf([0x1B, 0x5B] + seq(n, _ => 0x3B) + [0x6D, 0]) == if n < 10 then Ends else Overruns
  {
    var s := [0x1B, 0x5B] + seq(n, _ => 0x3B) + [0x6D, 0];
    assert s[2..] == seq(n, _ => 0x3B as bv8) + [0x6D, 0];
    Semicolons(n, [0]);
    hide Scan;
    assert Chain(s[2..], [0]) == Scan(s[2..], [0]);
  }

  // ---------------------------------------------------------------- broken sequences

  /** Every character of a text in one colour. */
  function Drawn(text: seq<bv8>, color: Color): seq<Stroke> {
    if text == [] then [] else [Stroke(text[0], color)] + Drawn(text[1..], color)
  }

  lemma ThenNothing(p: Played)
    ensures Then([], p) == p
  {
    if p.Played? { assert [] + p.strokes == p.strokes; }
  }

  lemma {:induction false} PlainRun(text: seq<bv8>, t: seq<bv8>, color: Color, base: Color)
    requires t != [] && forall i :: 0 <= i < |text| ==> text[i] != ESC && text[i] != CSI
    ensures Play(text + t, color, base) == Then(Drawn(text, color), Play(t, color, base))
    decreases |text|
  {
    if text == [] {
      assert text + t == t;
      ThenNothing(Play(t, color, base));
    } else {
      assert (text + t)[1..] == text[1..] + t;
      PlainRun(text[1..], t, color, base);
      ThenThen([Stroke(text[0], color)], Drawn(text[1..], color), Play(t, color, base));
    }
  }

  /** Digits, semicolons, spaces and code 127: what a sequence may hold before its `m`. */
  predicate IsParameter(c: bv8) {
    0x30 <= c <= 0x39 || c == 0x3B || c == 0x20 || c == 0x7F
  }

  lemma {:induction false} ScanBreaks(params: seq<bv8>, x: bv8, rest: seq<bv8>, codes: seq<int>)
    requires Some10(codes) && !Belongs(x) && forall i :: 0 <= i < |params| ==> IsParameter(params[i])
    ensures Scan(params + [x] + rest, codes).Broken? || Scan(params + [x] + rest, codes).TooMany?
    decreases |params|
  {
    var s := params + [x] + rest;
    if params == [] {
      assert s[0] == x;
    } else {
      assert s[1..] == params[1..] + [x] + rest;
      ScanStep(s, codes);
      ScanBreaks(params[1..], x, rest, Longer(s[0], codes));
    }
  }

  /** A space, or a code 127, anywhere among the parameters changes nothing. */
  lemma {:induction false} SpaceIgnored(params: seq<bv8>, c: bv8, rest: seq<bv8>, codes: seq<int>)
    requires Some10(codes) && (c == 0x20 || c == 0x7F) && forall i :: 0 <= i < |params| ==> IsParameter(params[i])
    ensures Scan(params + [c] + rest, codes) == Scan(params + rest, codes)
    decreases |params|
  {
    var s, t := params + [c] + rest, params + rest;
    if params == [] {
      assert s[1..] == rest == t;
    } else {
      assert s[1..] == params[1..] + [c] + rest && t[1..] == params[1..] + rest;
      ScanStep(s, codes);
      ScanStep(t, codes);
      SpaceIgnored(params[1..], c, rest, Longer(s[0], codes));
    }
  }

  lemma {:induction false} BrokenUnfolds(s: seq<bv8>, color: Color, base: Color)
    requires |s| > 2 && s[0] == ESC && s[1] == BRACKET && s[2] != BRACKET && Scan(s[2..], [0]).Broken?
    ensures Play(s, color, base) == Then(FirstTwo(s, color), Play(s[2..], color, base))
  {
    hide Scan;
    assert s[1..][1..] == s[2..];
    assert Play(s, color, base) == Resume(true, s, s[1..], [0], color, base);
    assert Resume(true, s, s[1..], [0], color, base) == Sequence(true, s, s[2..], [0], color, base);
  }

  lemma {:induction false} DrawnTwo(params: seq<bv8>, color: Color)
    ensures Drawn([0x1B, 0x5B] + params, color) == [Stroke(0x1B, color), Stroke(0x5B, color)] + Drawn(params, color)
  {
    var s := [0x1B, 0x5B] + params;
    assert s[1..] == [0x5B] + params && s[1..][1..] == params;
    assert Drawn(s, color) == [Stroke(0x1B, color)] + Drawn(s[1..], color);
    assert Drawn(s[1..], color) == [Stroke(0x5B, color)] + Drawn(params, color);
  }

  /** A sequence broken by a character that has no place in it is drawn just as it stands, in the colour it found, and
      the text goes on at that character. */
  lemma {:induction false} BrokenIsDrawn(params: seq<bv8>, x: bv8, rest: seq<bv8>, color: Color, base: Color)
    requires !Belongs(x) && forall i :: 0 <= i < |params| ==> IsParameter(params[i])
    requires !Scan(params + [x] + rest, [0]).TooMany?
    ensures Play([0x1B, 0x5B] + params + [x] + rest, color, base)
         == Then(Drawn([0x1B, 0x5B] + params, color), Play([x] + rest, color, base))
  {
    var tail := params + [x] + rest;
    var s := [0x1B, 0x5B] + params + [x] + rest;
    assert s[2..] == tail && s[0] == ESC && s[1] == BRACKET;
    ScanBreaks(params, x, rest, [0]);
    assert tail[0] != BRACKET;
    BrokenUnfolds(s, color, base);
    assert params + ([x] + rest) == tail;
    PlainRun(params, [x] + rest, color, base);
    ThenThen(FirstTwo(s, color), Drawn(params, color), Play([x] + rest, color, base));
    DrawnTwo(params, color);
  }
}
