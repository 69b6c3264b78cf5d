/** Text interleaved with well-formed colour sequences. */
module VgaTokens {
  import opened VgaColor
  import opened VgaEscapes
  import opened VgaPage
  import opened VgaSafety

  datatype Token = Char(c: bv8) | Sgr(codes: seq<nat>)

  function DigitChar(d: nat): (c: bv8)
    requires d < 10
    ensures IsDigit(c)
  {
    if d == 0 then 0x30 else if d == 1 then 0x31 else if d == 2 then 0x32 else if d == 3 then 0x33
    else if d == 4 then 0x34 else if d == 5 then 0x35 else if d == 6 then 0x36 else if d == 7 then 0x37
    else if d == 8 then 0x38 else 0x39
  }

  lemma DigitOfChar(d: nat)
    requires d < 10
    ensures Digit(DigitChar(d)) == d
  {
  }

  function Decimal(n: nat): seq<bv8> {
    (if n < 10 then [] else Decimal(n / 10)) + [DigitChar(n % 10)]
  }

  function Params(codes: seq<nat>): seq<bv8> {
    if codes == [] then []
    else if |codes| == 1 then Decimal(codes[0])
    else Decimal(codes[0]) + [SEMICOLON] + Params(codes[1..])
  }

  function Print(t: Token): seq<bv8> {
    match t
    case Char(c) => [c]
    case Sgr(codes) => [ESC, BRACKET] + Params(codes) + [LETTER_M]
  }

  /** The tokens printed one after the other, and a zero. */
  function Text(tokens: seq<Token>): (s: seq<bv8>)
    ensures s != []
  {
    if tokens == [] then [NUL] else Print(tokens[0]) + Text(tokens[1..])
  }

  /** No escape character among the characters; up to ten codes to a sequence, each a C `int`. */
  predicate Proper(t: Token) {
    match t
    case Char(c) => c != ESC && c != CSI
    case Sgr(codes) => |codes| <= ROOM && forall i :: 0 <= i < |codes| ==> codes[i] < 0x8000_0000
  }

  predicate AllProper(tokens: seq<Token>) {
    forall i :: 0 <= i < |tokens| ==> Proper(tokens[i])
  }

  /** The codes of a sequence; without any, it means 0. */
  function Meant(codes: seq<nat>): (r: seq<nat>)
    ensures |r| > 0
  {
    if codes == [] then [0] else codes
  }

  /** What the tokens say: every character in the colour in force, every sequence its codes from left to right. */
  function Draw(tokens: seq<Token>, color: Color, base: Color): (p: Played)
    ensures p.Played? && !p.open
  {
    if tokens == [] then Played([], color, false)
    else match tokens[0]
         case Char(c) => Then([Stroke(c, color)], Draw(tokens[1..], color, base))
         case Sgr(codes) => Draw(tokens[1..], AfterCodes(Meant(codes), color, base), base)
  }

  /** No sequence is directly followed by a `[`. */
  predicate NoBracketAfter(tokens: seq<Token>) {
    forall i :: 0 <= i < |tokens| - 1 ==> !(tokens[i].Sgr? && tokens[i + 1] == Char(BRACKET))
  }

  // ---------------------------------------------------------------- reading what was printed

  lemma {:induction false} ScanOneDigit(s: seq<bv8>, codes: seq<int>, w: nat)
    requires 1 <= |codes| <= ROOM && s != [] && IsDigit(s[0])
    requires codes[|codes| - 1] * 10 + Digit(s[0]) == w < 0x8000_0000
    ensures Scan(s, codes) == Scan(s[1..], codes[..|codes| - 1] + [w])
  {
    hide Digit;
  }

  lemma {:induction false} ScanDigit(d: bv8, t: seq<bv8>, before: seq<int>, v: nat, w: nat)
    requires IsDigit(d) && |before| < ROOM && v * 10 + Digit(d) == w < 0x8000_0000
    ensures Scan([d] + t, before + [v]) == Scan(t, before + [w])
  {
    hide Digit, Scan;
    var codes := before + [v];
    assert ([d] + t)[1..] == t && codes[..|codes| - 1] == before && codes[|codes| - 1] == v;
    ScanOneDigit([d] + t, codes, w);
  }

  lemma {:induction false} ScanDecimal(n: nat, t: seq<bv8>, before: seq<int>)
    requires n < 0x8000_0000 && |before| < ROOM
    ensures Scan(Decimal(n) + t, before + [0]) == Scan(t, before + [n])
    decreases n
  {
    var d := DigitChar(n % 10);
    DigitOfChar(n % 10);
    if n >= 10 {
      ScanDecimal(n / 10, [d] + t, before);
      assert Decimal(n) + t == Decimal(n / 10) + ([d] + t);
    } else {
      assert Decimal(n) + t == [d] + t;
    }
    ScanDigit(d, t, before, n / 10, n);
  }

  lemma {:induction false} ScanSemicolon(t: seq<bv8>, codes: seq<int>)
    requires 1 <= |codes| < ROOM
    ensures Scan([SEMICOLON] + t, codes) == Scan(t, codes + [0])
  {
    assert ([SEMICOLON] + t)[1..] == t;
  }

  lemma {:induction false} ScanParams(codes: seq<nat>, t: seq<bv8>, before: seq<int>)
    requires codes != [] && Proper(Sgr(codes)) && |before| + |codes| <= ROOM
    ensures Scan(Params(codes) + t, before + [0]) == Scan(t, before + codes)
    decreases |codes|
  {
    hide Decimal, Scan;
    if |codes| == 1 {
      ScanDecimal(codes[0], t, before);
      assert before + codes == before + [codes[0]];
    } else {
      var more := [SEMICOLON] + (Params(codes[1..]) + t);
      assert Params(codes) + t == Decimal(codes[0]) + more;
      ScanDecimal(codes[0], more, before);
      ScanSemicolon(Params(codes[1..]) + t, before + [codes[0]]);
      ScanParams(codes[1..], t, before + [codes[0]]);
      assert before + codes == before + [codes[0]] + codes[1..];
    }
  }

  lemma {:induction false} ScanLetter(t: seq<bv8>, codes: seq<int>)
    requires 1 <= |codes| <= ROOM
    ensures Scan([LETTER_M] + t, codes) == Done(t, codes)
  {
    assert ([LETTER_M] + t)[1..] == t;
  }

  lemma {:induction false} PlayEscape(s: seq<bv8>, rest: seq<bv8>, color: Color, base: Color)
    requires s == [ESC] + ([BRACKET] + rest)
    ensures Play(s, color, base) == Sequence(true, s, rest, [0], color, base)
  {
    hide Sequence;
    assert s[1..] == [BRACKET] + rest && s[1..][1..] == rest;
  }

  lemma {:induction false} ScanPrinted(codes: seq<nat>, t: seq<bv8>)
    requires Proper(Sgr(codes))
    ensures Scan(Params(codes) + ([LETTER_M] + t), [0]) == Done(t, Meant(codes))
  {
    hide Scan;
    ScanLetter(t, Meant(codes));
    if codes == [] {
      assert Params(codes) + ([LETTER_M] + t) == [LETTER_M] + t;
    } else {
      ScanParams(codes, [LETTER_M] + t, []);
      assert [] + [0] == [0] && [] + codes == codes;
    }
  }

  /** A printed sequence is read back, and then what follows is read. */
  lemma {:induction false} PlaySgr(codes: seq<nat>, t: seq<bv8>, color: Color, base: Color)
    requires Proper(Sgr(codes)) && t != []
    ensures var s := Print(Sgr(codes)) + t;
            && |s| > 1 && |t| < |s| && s[0] == ESC
            && Play(s, color, base)
               == Resume(true, s, t, Meant(codes) + [0], AfterCodes(Meant(codes), color, base), base)
  {
    var s, rest := Print(Sgr(codes)) + t, Params(codes) + ([LETTER_M] + t);
    assert s == [ESC] + ([BRACKET] + rest);
    ScanPrinted(codes, t);
    hide Params, Scan, AfterCodes, Print, Play;
    PlayEscape(s, rest, color, base);
  }

  /** The first character of what is printed is a `[` only if the first token is. */
  lemma {:induction false} FirstPrinted(tokens: seq<Token>)
    ensures Text(tokens)[0] == BRACKET <==> tokens != [] && tokens[0] == Char(BRACKET)
  {
  }

  /** Text with colour sequences does what it says, if no sequence is directly followed by a `[`. */
  lemma {:induction false} PlayIsDraw(tokens: seq<Token>, color: Color, base: Color)
    requires AllProper(tokens) && NoBracketAfter(tokens)
    ensures Play(Text(tokens), color, base) == Draw(tokens, color, base)
    decreases |tokens|
  {
    if tokens != [] {
      var t := Text(tokens[1..]);
      match tokens[0]
      case Char(c) =>
        assert Text(tokens)[1..] == t;
        PlayIsDraw(tokens[1..], color, base);
      case Sgr(codes) =>
        PlaySgr(codes, t, color, base);
        FirstPrinted(tokens[1..]);
        PlayIsDraw(tokens[1..], AfterCodes(Meant(codes), color, base), base);
        hide AfterCodes, Scan;
    }
  }

  // ---------------------------------------------------------------- a `[` directly after a sequence

  function Chars(tokens: seq<Token>): nat {
    if tokens == [] then 0 else (if tokens[0].Char? then 1 else 0) + Chars(tokens[1..])
  }

  predicate DrawsEscape(strokes: seq<Stroke>) {
    exists i :: 0 <= i < |strokes| && strokes[i].ch == ESC
  }

  /** Not `n + 1` characters without an escape character. */
  predicate FallsShort(p: Played, n: nat) {
    p.Played? ==> DrawsEscape(p.strokes) || |p.strokes| <= n
  }

  lemma {:induction false} DrawDrawsChars(tokens: seq<Token>, color: Color, base: Color)
    requires AllProper(tokens)
    ensures |Draw(tokens, color, base).strokes| == Chars(tokens) && !DrawsEscape(Draw(tokens, color, base).strokes)
    decreases |tokens|
  {
    if tokens != [] {
      var k := if tokens[0].Sgr? then AfterCodes(Meant(tokens[0].codes), color, base) else color;
      DrawDrawsChars(tokens[1..], k, base);
    }
  }

  /** Reading on as parameters passes over characters only, and stops after one. */
  lemma {:induction false} ScanStops(tokens: seq<Token>, codes: seq<int>) returns (k: nat)
    requires Some10(codes) && Scan(Text(tokens), codes).Done?
    ensures 0 < k <= |tokens| && Scan(Text(tokens), codes).rest == Text(tokens[k..])
    ensures Chars(tokens[k..]) <= Chars(tokens)
    decreases |tokens|
  {
    var s := Text(tokens);
    var c := s[0];
    assert tokens[0] == Char(c);
    assert s[1..] == Text(tokens[1..]);
    assert Belongs(c);
    hide Text, Print, Longer;
    if c == LETTER_M {
      k := 1;
    } else {
      ScanStep(s, codes);
      hide Scan;
      k := ScanStops(tokens[1..], Longer(c, codes));
      assert tokens[1..][k..] == tokens[k + 1..];
      k := k + 1;
    }
  }

  lemma ThenFallsShort(stroke: Stroke, p: Played, n: nat)
    requires FallsShort(p, n)
    ensures FallsShort(Then([stroke], p), n + 1)
  {
    if p.Played? && DrawsEscape(p.strokes) {
      var i :| 0 <= i < |p.strokes| && p.strokes[i].ch == ESC;
      assert ([stroke] + p.strokes)[i + 1].ch == ESC;
    }
  }

  lemma {:induction false} PlayFallsShort(tokens: seq<Token>, color: Color, base: Color)
    requires AllProper(tokens)
    ensures FallsShort(Play(Text(tokens), color, base), Chars(tokens))
    decreases |tokens|, 0
  {
    if tokens != [] {
      var t := Text(tokens[1..]);
      match tokens[0]
      case Char(c) =>
        PlayFallsShort(tokens[1..], color, base);
        assert Text(tokens)[1..] == t;
        ThenFallsShort(Stroke(c, color), Play(t, color, base), Chars(tokens[1..]));
      case Sgr(codes) =>
        PlaySgr(codes, t, color, base);
        ResumeFallsShort(Text(tokens), tokens[1..], Meant(codes) + [0], AfterCodes(Meant(codes), color, base), base);
    }
  }

  lemma PrintedTail(tokens: seq<Token>)
    requires tokens != [] && tokens[0].Char?
    ensures Text(tokens)[1..] == Text(tokens[1..])
  {
  }

  lemma BrokenFallsShort(s: seq<bv8>, p: Played, color: Color, n: nat)
    requires |s| > 1 && s[0] == ESC
    ensures FallsShort(Then(FirstTwo(s, color), p), n)
  {
    if p.Played? {
      assert (FirstTwo(s, color) + p.strokes)[0].ch == ESC;
    }
  }

  lemma {:induction false} ResumeFallsShort(s: seq<bv8>, tokens: seq<Token>, codes: seq<int>, color: Color, base: Color)
    requires AllProper(tokens) && Some10(codes) && |s| > 1 && |Text(tokens)| < |s| && s[0] == ESC
    ensures FallsShort(Resume(true, s, Text(tokens), codes, color, base), Chars(tokens))
    ensures tokens != [] && tokens[0] == Char(BRACKET) ==>
              FallsShort(Resume(true, s, Text(tokens), codes, color, base), Chars(tokens) - 1)
    decreases |tokens|, 1
  {
    var t := Text(tokens);
    FirstPrinted(tokens);
    hide Scan, AfterCodes, Print;
    if tokens != [] && tokens[0] == Char(BRACKET) {
      assert t[1..] == Text(tokens[1..]) by { PrintedTail(tokens); }
      match Scan(t[1..], codes)
      case TooMany =>
      case Open =>
      case Broken(codes') =>
        BrokenFallsShort(s, Resume(false, s, s[2..], codes', color, base), color, Chars(tokens) - 1);
      case Done(rest, codes') =>
        var k := ScanStops(tokens[1..], codes);
        assert tokens[1..][k..] == tokens[k + 1..];
        ResumeFallsShort(s, tokens[k + 1..], codes' + [0], AfterCodes(codes', color, base), base);
    } else {
      PlayFallsShort(tokens, color, base);
    }
  }

  lemma ThenCancels(stroke: Stroke, p: Played, q: Played)
    requires Then([stroke], p) == Then([stroke], q) && q.Played?
    ensures p == q
  {
    assert ([stroke] + p.strokes)[1..] == p.strokes && ([stroke] + q.strokes)[1..] == q.strokes;
  }

  lemma TailOf(tokens: seq<Token>)
    requires tokens != []
    ensures NoBracketAfter(tokens) <==>
              NoBracketAfter(tokens[1..]) && !(tokens[0].Sgr? && |tokens| > 1 && tokens[1] == Char(BRACKET))
  {
    if NoBracketAfter(tokens) {
      forall i | 0 <= i < |tokens[1..]| - 1
        ensures !(tokens[1..][i].Sgr? && tokens[1..][i + 1] == Char(BRACKET))
      {
        assert !(tokens[i + 1].Sgr? && tokens[i + 1 + 1] == Char(BRACKET));
      }
    }
  }

  lemma {:induction false} CharThenRest(tokens: seq<Token>, color: Color, base: Color)
    requires tokens != [] && tokens[0].Char? && Proper(tokens[0])
    requires Play(Text(tokens), color, base) == Draw(tokens, color, base)
    ensures Play(Text(tokens[1..]), color, base) == Draw(tokens[1..], color, base)
  {
    hide Scan, AfterCodes;
    var t := Text(tokens[1..]);
    assert Text(tokens)[1..] == t;
    ThenCancels(Stroke(tokens[0].c, color), Play(t, color, base), Draw(tokens[1..], color, base));
  }

  lemma {:induction false} SgrThenRest(tokens: seq<Token>, color: Color, base: Color)
    requires AllProper(tokens) && tokens != [] && tokens[0].Sgr?
    requires Play(Text(tokens), color, base) == Draw(tokens, color, base)
    ensures !(|tokens| > 1 && tokens[1] == Char(BRACKET))
    ensures var k := AfterCodes(Meant(tokens[0].codes), color, base);
            Play(Text(tokens[1..]), k, base) == Draw(tokens[1..], k, base)
  {
    hide Scan, AfterCodes, Sequence, Print, DrawsEscape, Play;
    var codes, t := tokens[0].codes, Text(tokens[1..]);
    PlaySgr(codes, t, color, base);
    FirstPrinted(tokens[1..]);
    ResumeFallsShort(Text(tokens), tokens[1..], Meant(codes) + [0], AfterCodes(Meant(codes), color, base), base);
    DrawDrawsChars(tokens[1..], AfterCodes(Meant(codes), color, base), base);
  }

  /** Text with colour sequences does what it says exactly when no sequence is directly followed by a `[`. */
  lemma {:induction false} PlayIsDrawIff(tokens: seq<Token>, color: Color, base: Color)
    requires AllProper(tokens)
    ensures Play(Text(tokens), color, base) == Draw(tokens, color, base) <==> NoBracketAfter(tokens)
    decreases |tokens|
  {
    if NoBracketAfter(tokens) {
      PlayIsDraw(tokens, color, base);
    } else if Play(Text(tokens), color, base) == Draw(tokens, color, base) {
      hide Play, Draw, Text, AfterCodes, Proper, NoBracketAfter;
      TailOf(tokens);
      match tokens[0]
      case Char(_) =>
        CharThenRest(tokens, color, base);
        PlayIsDrawIff(tokens[1..], color, base);
      case Sgr(codes) =>
        SgrThenRest(tokens, color, base);
        PlayIsDrawIff(tokens[1..], AfterCodes(Meant(codes), color, base), base);
    }
  }
}
