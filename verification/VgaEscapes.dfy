/** What a text with escape sequences means to the terminal: the characters it draws, and the colours.
    A text is given with the one byte behind it, which the program also looks at and which a string has as its zero. */
module VgaEscapes {
  import opened VgaColor
  import opened VgaPage

  const NUL: bv8 := 0
  const ESC: bv8 := 0x1B
  const CSI: bv8 := 0x9B
  const BRACKET: bv8 := 0x5B
  const SEMICOLON: bv8 := 0x3B
  const DEL: bv8 := 0x7F
  const LETTER_M: bv8 := 0x6D

  /** The number of parameters the terminal has room for. */
  const ROOM := 10

  predicate IsDigit(c: bv8) {
    0x30 <= c <= 0x39
  }

  lemma DigitRange(c: bv8)
    requires IsDigit(c)
    ensures (c - 0x30) as nat <= 9
  {
    var d := c - 0x30;
    assert d <= 9;
  }

  function Digit(c: bv8): (d: nat)
    requires IsDigit(c)
    ensures d <= 9
  {
    DigitRange(c);
    (c - 0x30) as nat
  }

  /** The characters with a place in a sequence. */
  predicate Belongs(c: bv8) {
    c == BRACKET || c == SPACE || c == DEL || c == SEMICOLON || IsDigit(c) || c == LETTER_M
  }

  /** The parameters of a sequence: Done at its `m`, with the codes; Open when the text ends first; Broken at a
      character that has no place in it; TooMany, or one too large for an `int`. */
  datatype Scanned = Done(rest: seq<bv8>, codes: seq<int>) | Open | Broken(codes: seq<int>) | TooMany

  predicate Some10(codes: seq<int>) {
    1 <= |codes| <= ROOM + 1
  }

  function Scan(s: seq<bv8>, codes: seq<int>): (r: Scanned)
    requires Some10(codes)
    ensures r.Done? ==> |r.rest| < |s| && 1 <= |r.codes| <= ROOM
    ensures r.Broken? ==> Some10(r.codes)
    decreases |s|
  {
    if s == [] then Open
    else if s[0] == BRACKET || s[0] == SPACE || s[0] == DEL then Scan(s[1..], codes)
    else if s[0] == SEMICOLON then Scan(s[1..], if |codes| <= ROOM then codes + [0] else codes)
    else if IsDigit(s[0]) then
      var v := codes[|codes| - 1] * 10 + Digit(s[0]);
      if |codes| > ROOM || v >= 0x8000_0000 then TooMany else Scan(s[1..], codes[..|codes| - 1] + [v])
    else if s[0] == LETTER_M then if |codes| > ROOM then TooMany else Done(s[1..], codes)
    else Broken(codes)
  }

  /** What is drawn, the colour at the end, and whether a sequence is left open; or else the program writes outside
      its array or overflows an `int` (Overrun), or comes back to the same place for ever (Endless). */
  datatype Played = Played(strokes: seq<Stroke>, color: Color, open: bool) | Overrun | Endless

  function Then(strokes: seq<Stroke>, p: Played): Played {
    if p.Played? then p.(strokes := strokes + p.strokes) else p
  }

  lemma ThenThen(x: seq<Stroke>, y: seq<Stroke>, p: Played)
    ensures Then(x, Then(y, p)) == Then(x + y, p)
  {
    if p.Played? {
      assert x + (y + p.strokes) == x + y + p.strokes;
    }
  }

  /** The first two characters, drawn. */
  function FirstTwo(s: seq<bv8>, color: Color): seq<Stroke>
    requires |s| > 1
  {
    [Stroke(s[0], color), Stroke(s[1], color)]
  }

  /** What the text `s` does; its last byte is the one behind it. */
  function Play(s: seq<bv8>, color: Color, base: Color): Played
    decreases |s|, 2, 0, 0
  {
    if |s| <= 1 then Played([], color, false)
    else if s[0] == ESC then Resume(true, s, s[1..], [0], color, base)
    else if s[0] == CSI then Sequence(true, s, s[1..], [0], color, base)
    else Then([Stroke(s[0], color)], Play(s[1..], color, base))
  }

  /** What `rest` does, inside a sequence that began at `s` and that a bracket continues. */
  function Resume(first: bool, s: seq<bv8>, rest: seq<bv8>, codes: seq<int>, color: Color, base: Color): Played
    requires |s| > 1 && |rest| < |s| && Some10(codes)
    decreases |s|, if first then 1 else 0, |rest|, 1
  {
    if rest != [] && rest[0] == BRACKET then Sequence(first, s, rest[1..], codes, color, base)
    else Play(rest, color, base)
  }

  /** What `rest` does as parameters of the sequence that began at `s`. A sequence that turns out broken is drawn as
      it stands: its first two characters, and then what follows them is read again. If that breaks it again, the
      program is back where it was. */
  function Sequence(first: bool, s: seq<bv8>, rest: seq<bv8>, codes: seq<int>, color: Color, base: Color): Played
    requires |s| > 1 && |rest| < |s| && Some10(codes)
    decreases |s|, if first then 1 else 0, |rest|, 0
  {
    match Scan(rest, codes)
    case TooMany => Overrun
    case Open => Played([], color, true)
    case Done(rest', codes') => Resume(first, s, rest', codes' + [0], AfterCodes(codes', color, base), base)
    case Broken(codes') =>
      if first then Then(FirstTwo(s, color), Resume(false, s, s[2..], codes', color, base)) else Endless
  }

  /** What a text does while a sequence is left open from before: nothing; and otherwise. */
  function PlayFrom(open: bool, s: seq<bv8>, color: Color, base: Color): Played {
    if open then Played([], color, true) else Play(s, color, base)
  }

  // ---------------------------------------------------------------- the parser, one character at a time

  /** Inside a sequence that began at `s`: `drawn` is done, `rest` is to come, and together they make `goal`.
      `reading`: parameters are being read; otherwise a sequence has just begun or ended. */
  ghost predicate Mid(goal: Played, drawn: seq<Stroke>, first: bool, reading: bool, s: seq<bv8>, rest: seq<bv8>,
                      codes: seq<int>, color: Color, base: Color)
  {
    |s| > 1 && |rest| < |s| && Some10(codes) && goal.Played?
    && goal == Then(drawn, if reading then Sequence(first, s, rest, codes, color, base)
                           else Resume(first, s, rest, codes, color, base))
  }

  lemma MidStart(s: seq<bv8>, color: Color, base: Color)
    requires |s| > 1 && (s[0] == ESC || s[0] == CSI) && Play(s, color, base).Played?
    ensures Mid(Play(s, color, base), [], true, s[0] == CSI, s, s[1..], [0], color, base)
  {
  }

  lemma MidBracket(goal: Played, drawn: seq<Stroke>, first: bool, reading: bool, s: seq<bv8>, rest: seq<bv8>,
                   codes: seq<int>, color: Color, base: Color)
    requires Mid(goal, drawn, first, reading, s, rest, codes, color, base) && rest != [] && rest[0] == BRACKET
    ensures Mid(goal, drawn, first, true, s, rest[1..], codes, color, base)
  {
  }

  lemma MidEnd(goal: Played, drawn: seq<Stroke>, first: bool, reading: bool, s: seq<bv8>, rest: seq<bv8>,
               codes: seq<int>, color: Color, base: Color)
    requires Mid(goal, drawn, first, reading, s, rest, codes, color, base)
    requires rest == [] || (!reading && rest[0] != BRACKET)
    ensures goal == Then(drawn, PlayFrom(reading, rest, color, base))
  {
  }

  lemma MidSkip(goal: Played, drawn: seq<Stroke>, first: bool, s: seq<bv8>, rest: seq<bv8>,
                codes: seq<int>, color: Color, base: Color)
    requires Mid(goal, drawn, first, true, s, rest, codes, color, base)
    requires rest != [] && (rest[0] == SPACE || rest[0] == DEL)
    ensures Mid(goal, drawn, first, true, s, rest[1..], codes, color, base)
  {
  }

  lemma MidNext(goal: Played, drawn: seq<Stroke>, first: bool, s: seq<bv8>, rest: seq<bv8>,
                codes: seq<int>, color: Color, base: Color)
    requires Mid(goal, drawn, first, true, s, rest, codes, color, base) && rest != [] && rest[0] == SEMICOLON
    ensures Mid(goal, drawn, first, true, s, rest[1..], if |codes| <= ROOM then codes + [0] else codes, color, base)
  {
  }

  lemma MidDigit(goal: Played, drawn: seq<Stroke>, first: bool, s: seq<bv8>, rest: seq<bv8>,
                 codes: seq<int>, color: Color, base: Color)
    requires Mid(goal, drawn, first, true, s, rest, codes, color, base) && rest != [] && IsDigit(rest[0])
    ensures 1 <= |codes| <= ROOM
    ensures var v := codes[|codes| - 1] * 10 + Digit(rest[0]);
            v < 0x8000_0000 && Mid(goal, drawn, first, true, s, rest[1..], codes[..|codes| - 1] + [v], color, base)
  {
  }

  lemma MidLetter(goal: Played, drawn: seq<Stroke>, first: bool, s: seq<bv8>, rest: seq<bv8>,
                  codes: seq<int>, color: Color, base: Color)
    requires Mid(goal, drawn, first, true, s, rest, codes, color, base) && rest != [] && rest[0] == LETTER_M
    ensures 1 <= |codes| <= ROOM
    ensures Mid(goal, drawn, first, false, s, rest[1..], codes + [0], AfterCodes(codes, color, base), base)
  {
  }

  lemma MidBroken(goal: Played, drawn: seq<Stroke>, first: bool, s: seq<bv8>, rest: seq<bv8>,
                  codes: seq<int>, color: Color, base: Color)
    requires Mid(goal, drawn, first, true, s, rest, codes, color, base) && rest != [] && !Belongs(rest[0])
    ensures first
    ensures Mid(goal, drawn + FirstTwo(s, color), false, false, s, s[2..], codes, color, base)
  {
    ThenThen(drawn, FirstTwo(s, color), Resume(false, s, s[2..], codes, color, base));
  }
}
