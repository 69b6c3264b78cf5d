/** The state of the parser between two characters, as its loops keep it. */
module VgaReading {
  import opened CInt
  import opened VgaColor
  import opened VgaEscapes
  import opened VgaPage
  import opened VgaSafety

  // ---------------------------------------------------------------- the parameters

  /** The parameters read so far, `ni` of them complete. */
  ghost function Codes(n: seq<Int32>, ni: nat): (r: seq<int>)
    requires ni <= ROOM == |n|
    ensures Some10(r)
  {
    n[..ni] + [if ni < ROOM then n[ni] else 0]
  }

  /** The array has been filled no further than `ni`. */
  ghost predicate Fresh(n: seq<Int32>, ni: nat) {
    ni <= ROOM == |n| && (forall j :: 0 <= j < ROOM ==> n[j] >= 0) && forall j :: ni < j < ROOM ==> n[j] == 0
  }

  lemma CodesNext(n: seq<Int32>, ni: nat)
    requires Fresh(n, ni)
    ensures |Codes(n, ni)| == ni + 1
    ensures ni < ROOM ==> Fresh(n, ni + 1) && Codes(n, ni + 1) == Codes(n, ni) + [0] && n[..ni + 1] == Codes(n, ni)
  {
  }

  lemma CodesAt(n: seq<Int32>, ni: nat)
    requires Fresh(n, ni)
    ensures forall j :: 0 <= j < ROOM ==> n[j] >= 0
    ensures ni < ROOM ==> |Codes(n, ni)| > ni && Codes(n, ni)[ni] == n[ni]
  {
  }

  lemma CodesDigit(n: seq<Int32>, ni: nat, v: Int32)
    requires Fresh(n, ni) && ni < ROOM && v >= 0
    ensures Codes(n, ni)[ni] == n[ni] && Fresh(n[ni := v], ni)
    ensures Codes(n[ni := v], ni) == Codes(n, ni)[..ni] + [v]
  {
  }

  lemma NoCodes(n: seq<Int32>)
    requires |n| == ROOM && forall j :: 0 <= j < ROOM ==> n[j] == 0
    ensures Fresh(n, 0) && Codes(n, 0) == [0]
  {
  }

  // ---------------------------------------------------------------- the text

  /** The text from `i` on; nothing, past its end. */
  function From(s: seq<bv8>, i: nat): seq<bv8> {
    if i <= |s| then s[i..] else []
  }

  lemma FromHere(s: seq<bv8>, i: nat)
    ensures From(s, 0) == s
    ensures i < |s| ==> From(s, i) == s[i..] && From(s, i + 1) == s[i..][1..] && From(s, i)[0] == s[i]
    ensures i < |s| ==> |From(s, i)| == |s| - i
    ensures i >= |s| ==> From(s, i) == []
  {
  }

  lemma RestAfterOne(s: seq<bv8>, i: nat)
    ensures i + 1 >= |s| ==> From(s, i + 1) == From(s, i + 2) == []
    ensures i + 1 < |s| ==>
              From(s, i + 1) != [] && From(s, i + 1)[0] == s[i + 1] && From(s, i + 1)[1..] == From(s, i + 2)
  {
  }

  lemma RestAfterTwo(s: seq<bv8>, i: nat)
    requires i + 1 < |s|
    ensures |From(s, i)| > 1 && From(s, i)[0] == s[i] && From(s, i)[1] == s[i + 1] && From(s, i)[2..] == From(s, i + 2)
  {
  }

  /** `drawn` is done, `rest` is to come, and together they make `goal`. */
  ghost predicate Doing(goal: Played, drawn: seq<Stroke>, open: bool, rest: seq<bv8>, color: Color, base: Color) {
    goal.Played? && goal == Then(drawn, PlayFrom(open, rest, color, base))
  }

  lemma DoingStart(open: bool, s: seq<bv8>, color: Color, base: Color)
    requires PlayFrom(open, s, color, base).Played?
    ensures Doing(PlayFrom(open, s, color, base), [], open, s, color, base)
  {
  }

  /** What is still to come is as safe as the whole. */
  lemma DoingIsSafe(goal: Played, drawn: seq<Stroke>, rest: seq<bv8>, color: Color, base: Color)
    requires Doing(goal, drawn, false, rest, color, base)
    ensures Safe(rest)
  {
    PlayFate(rest, color, base);
  }

  lemma SafePlays(open: bool, s: seq<bv8>, color: Color, base: Color)
    requires open || Safe(s)
    ensures PlayFrom(open, s, color, base).Played?
  {
    PlayFate(s, color, base);
  }

  lemma DoingMore(goal: Played, drawn: seq<Stroke>, rest: seq<bv8>, color: Color, base: Color,
                  now: seq<Stroke>, open: bool, rest': seq<bv8>, color': Color)
    requires Doing(goal, drawn, false, rest, color, base)
    requires Play(rest, color, base) == Then(now, PlayFrom(open, rest', color', base))
    ensures Doing(goal, drawn + now, open, rest', color', base)
  {
    hide Play;
    ThenThen(drawn, now, PlayFrom(open, rest', color', base));
  }

  lemma DoingPlain(goal: Played, drawn: seq<Stroke>, rest: seq<bv8>, color: Color, base: Color)
    requires Doing(goal, drawn, false, rest, color, base) && |rest| > 1 && rest[0] != ESC && rest[0] != CSI
    ensures Doing(goal, drawn + [Stroke(rest[0], color)], false, rest[1..], color, base)
  {
    DoingMore(goal, drawn, rest, color, base, [Stroke(rest[0], color)], false, rest[1..], color);
  }

  lemma DoingOpen(goal: Played, drawn: seq<Stroke>, rest: seq<bv8>, rest': seq<bv8>, color: Color, base: Color)
    requires Doing(goal, drawn, true, rest, color, base)
    ensures Doing(goal, drawn, true, rest', color, base)
  {
  }

  lemma DoingEnd(goal: Played, drawn: seq<Stroke>, open: bool, rest: seq<bv8>, color: Color, base: Color)
    requires Doing(goal, drawn, open, rest, color, base) && |rest| <= 1
    ensures goal == Played(drawn, color, open)
  {
    assert drawn + [] == drawn;
  }

  /** `strlen`: the place of the first zero. */
  function Length(data: seq<bv8>): (n: nat)
    requires NUL in data
    ensures n < |data| && data[n] == NUL && NUL !in data[..n]
  {
    if data[0] == NUL then 0 else 1 + Length(data[1..])
  }

  lemma {:induction false} LengthFrom(data: seq<bv8>, i: nat)
    requires NUL in data && i <= |data| && NUL !in data[..i]
    ensures i <= Length(data)
    decreases i
  {
    if i > 0 {
      assert data[0] == data[..i][0];
      assert data[..i][1..] == data[1..][..i - 1];
      LengthFrom(data[1..], i - 1);
    }
  }

  method StrLen(data: seq<bv8>) returns (i: nat)
    requires NUL in data
    ensures i == Length(data)
  {
    i := 0;
    while data[i] != NUL
      invariant i < |data| && NUL !in data[..i] && i <= Length(data)
      decreases |data| - i
    {
      LengthFrom(data, i + 1);
      i := i + 1;
    }
  }

  // ---------------------------------------------------------------- inside a sequence

  /** Inside the sequence that began at `start` of the text `b`, the characters up to `i` have been seen. */
  ghost predicate Reading(goal: Played, drawn: seq<Stroke>, first: bool, b: seq<bv8>, start: nat, i: nat,
                          reading: bool, n: seq<Int32>, ni: nat, color: Color, base: Color)
  {
    start + 1 < |b| && start <= i < |b| && ni <= ROOM == |n| && Fresh(n, ni)
    && Mid(goal, drawn, first, reading, From(b, start), From(b, i + 1), Codes(n, ni), color, base)
  }

  lemma ReadingInside(goal: Played, drawn: seq<Stroke>, first: bool, b: seq<bv8>, start: nat, i: nat,
                      reading: bool, n: seq<Int32>, ni: nat, color: Color, base: Color)
    requires Reading(goal, drawn, first, b, start, i, reading, n, ni, color, base)
    ensures start + 1 < |b| && start <= i < |b|
  {
  }

  lemma ReadingStarts(b: seq<bv8>, start: nat, n: seq<Int32>, color: Color, base: Color)
    requires start + 1 < |b| && (b[start] == ESC || b[start] == CSI) && Safe(From(b, start))
    requires |n| == ROOM && forall j :: 0 <= j < ROOM ==> n[j] == 0
    ensures Reading(Play(From(b, start), color, base), [], true, b, start, start, b[start] == CSI, n, 0, color, base)
  {
    var s := From(b, start);
    PlayFate(s, color, base);
    hide Play, Mid, Codes, Fresh, FateOf;
    MidStart(s, color, base);
    NoCodes(n);
  }

  lemma ReadingOver(goal: Played, drawn: seq<Stroke>, first: bool, b: seq<bv8>, start: nat, i: nat,
                    reading: bool, n: seq<Int32>, ni: nat, color: Color, base: Color)
    requires Reading(goal, drawn, first, b, start, i, reading, n, ni, color, base)
    requires i + 1 == |b| || (!reading && b[i + 1] != BRACKET)
    ensures goal == Then(drawn, PlayFrom(reading, From(b, i + 1), color, base))
    ensures i + 1 == |b| ==> From(b, i + 2) == From(b, i + 1)
  {
    RestAfterOne(b, i);
    hide Mid, From, Codes, Fresh, Then, PlayFrom;
    MidEnd(goal, drawn, first, reading, From(b, start), From(b, i + 1), Codes(n, ni), color, base);
  }

  lemma ReadingBracket(goal: Played, drawn: seq<Stroke>, first: bool, b: seq<bv8>, start: nat, i: nat,
                       reading: bool, n: seq<Int32>, ni: nat, color: Color, base: Color)
    requires Reading(goal, drawn, first, b, start, i, reading, n, ni, color, base)
    requires i + 1 < |b| && b[i + 1] == BRACKET
    ensures Reading(goal, drawn, first, b, start, i + 1, true, n, ni, color, base)
  {
    RestAfterOne(b, i);
    hide Mid, From, Codes, Fresh;
    MidBracket(goal, drawn, first, reading, From(b, start), From(b, i + 1), Codes(n, ni), color, base);
  }

  lemma ReadingSkip(goal: Played, drawn: seq<Stroke>, first: bool, b: seq<bv8>, start: nat, i: nat,
                    n: seq<Int32>, ni: nat, color: Color, base: Color)
    requires Reading(goal, drawn, first, b, start, i, true, n, ni, color, base)
    requires i + 1 < |b| && (b[i + 1] == SPACE || b[i + 1] == DEL)
    ensures Reading(goal, drawn, first, b, start, i + 1, true, n, ni, color, base)
  {
    RestAfterOne(b, i);
    hide Mid, From, Codes, Fresh;
    MidSkip(goal, drawn, first, From(b, start), From(b, i + 1), Codes(n, ni), color, base);
  }

  lemma ReadingNext(goal: Played, drawn: seq<Stroke>, first: bool, b: seq<bv8>, start: nat, i: nat,
                    n: seq<Int32>, ni: nat, color: Color, base: Color)
    requires Reading(goal, drawn, first, b, start, i, true, n, ni, color, base)
    requires i + 1 < |b| && b[i + 1] == SEMICOLON
    ensures Reading(goal, drawn, first, b, start, i + 1, true, n, if ni < ROOM then ni + 1 else ni, color, base)
  {
    hide Mid, From, Codes, Fresh;
    RestAfterOne(b, i);
    CodesNext(n, ni);
    MidNext(goal, drawn, first, From(b, start), From(b, i + 1), Codes(n, ni), color, base);
  }

  /** A digit fits, and goes to the parameter under way. */
  lemma ReadingDigit(goal: Played, drawn: seq<Stroke>, first: bool, b: seq<bv8>, start: nat, i: nat,
                     n: seq<Int32>, ni: nat, color: Color, base: Color)
    requires Reading(goal, drawn, first, b, start, i, true, n, ni, color, base)
    requires i + 1 < |b| && IsDigit(b[i + 1])
    ensures ni < ROOM == |n| && 0 <= n[ni] * 10 + Digit(b[i + 1]) < 0x8000_0000
    ensures var n' := n[ni := n[ni] * 10 + Digit(b[i + 1])];
            Reading(goal, drawn, first, b, start, i + 1, true, n', ni, color, base)
  {
    hide Mid, From, Codes, Fresh, Digit;
    RestAfterOne(b, i);
    CodesNext(n, ni);
    CodesAt(n, ni);
    MidDigit(goal, drawn, first, From(b, start), From(b, i + 1), Codes(n, ni), color, base);
    CodesDigit(n, ni, n[ni] * 10 + Digit(b[i + 1]));
  }

  /** At its end the parameters read are applied. */
  lemma ReadingLetter(goal: Played, drawn: seq<Stroke>, first: bool, b: seq<bv8>, start: nat, i: nat,
                      n: seq<Int32>, ni: nat, color: Color, base: Color)
    requires Reading(goal, drawn, first, b, start, i, true, n, ni, color, base)
    requires i + 1 < |b| && b[i + 1] == LETTER_M
    ensures ni < ROOM == |n|
    ensures var k := AfterCodes(n[..ni + 1], color, base);
            Reading(goal, drawn, first, b, start, i + 1, false, n, ni + 1, k, base)
  {
    hide Mid, From, Codes, Fresh, AfterCodes;
    RestAfterOne(b, i);
    CodesNext(n, ni);
    MidLetter(goal, drawn, first, From(b, start), From(b, i + 1), Codes(n, ni), color, base);
  }

  lemma ReadingBroken(goal: Played, drawn: seq<Stroke>, first: bool, b: seq<bv8>, start: nat, i: nat,
                      n: seq<Int32>, ni: nat, color: Color, base: Color)
    requires Reading(goal, drawn, first, b, start, i, true, n, ni, color, base)
    requires i + 1 < |b| && !Belongs(b[i + 1])
    ensures first && |From(b, start)| > 1 && From(b, start)[0] == b[start] && From(b, start)[1] == b[start + 1]
    ensures var two := FirstTwo(From(b, start), color);
            Reading(goal, drawn + two, false, b, start, start + 1, false, n, ni, color, base)
  {
    hide Mid, From, Codes, Fresh, FirstTwo, Belongs;
    RestAfterOne(b, i);
    RestAfterTwo(b, start);
    MidBroken(goal, drawn, first, From(b, start), From(b, i + 1), Codes(n, ni), color, base);
  }

  // ---------------------------------------------------------------- the page

  lemma TypeNothing(p: Page, width: nat)
    requires Ok(p, width)
    ensures TypeAll(p, width, []) == p
  {
  }

  lemma TypeOne(p: Page, width: nat, stroke: Stroke)
    requires Ok(p, width)
    ensures TypeAll(p, width, [stroke]) == Type(p, width, stroke.ch, stroke.color)
  {
    TypeNothing(Type(p, width, stroke.ch, stroke.color), width);
  }

  lemma TypeTwo(p: Page, width: nat, two: seq<Stroke>)
    requires Ok(p, width) && |two| == 2
    ensures TypeAll(p, width, two) == Type(Type(p, width, two[0].ch, two[0].color), width, two[1].ch, two[1].color)
  {
    hide Type;
    var q := Type(p, width, two[0].ch, two[0].color);
    assert TypeAll(p, width, two) == TypeAll(q, width, two[1..]);
    assert two[1..][0] == two[1] && two[1..][1..] == [];
    TypeNothing(Type(q, width, two[1].ch, two[1].color), width);
  }

  /** Typing the strokes leads from the one page to the other. */
  ghost predicate Typed(p: Page, q: Page, width: nat, strokes: seq<Stroke>) {
    Ok(p, width) && q == TypeAll(p, width, strokes)
  }

  lemma TypedNothing(p: Page, width: nat)
    requires Ok(p, width)
    ensures Typed(p, p, width, [])
  {
  }

  lemma TypedMore(p: Page, q: Page, r: Page, width: nat, s: seq<Stroke>, t: seq<Stroke>)
    requires Typed(p, q, width, s) && Typed(q, r, width, t)
    ensures Typed(p, r, width, s + t)
  {
    TypeAllJoins(p, width, s, t);
  }

  lemma TypedOne(p: Page, width: nat, stroke: Stroke)
    requires Ok(p, width)
    ensures Typed(p, Type(p, width, stroke.ch, stroke.color), width, [stroke])
  {
    TypeOne(p, width, stroke);
  }

  lemma TypedMeans(p: Page, q: Page, width: nat, strokes: seq<Stroke>)
    requires Typed(p, q, width, strokes)
    ensures Ok(p, width) && q == TypeAll(p, width, strokes)
  {
  }
}
