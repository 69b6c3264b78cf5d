/** For which texts the escape parser stays within its array and ends: a condition on the bytes alone. */
module VgaSafety {
  import opened Wrappers

  import opened VgaColor
  import opened VgaEscapes
  import opened VgaPage

  // ---------------------------------------------------------------- the condition

  /** The parameters from `rest` on, over every `m` that a `[` directly follows. */
  function Chain(rest: seq<bv8>, codes: seq<int>): (r: Scanned)
    requires Some10(codes)
    ensures r.Done? ==> |r.rest| < |rest|
    ensures r.Broken? ==> Some10(r.codes)
    decreases |rest|
  {
    match Scan(rest, codes)
    case Done(rest', codes') =>
      if rest' != [] && rest'[0] == BRACKET then Chain(rest'[1..], codes' + [0]) else Done(rest', codes')
    case other => other
  }

  /** A sequence begins here. */
  predicate Begins(s: seq<bv8>) {
    |s| > 1 && (s[0] == CSI || (s[0] == ESC && s[1] == BRACKET))
  }

  function Body(s: seq<bv8>): (r: seq<bv8>)
    requires Begins(s)
    ensures |r| < |s|
  {
    if s[0] == CSI then s[1..] else s[2..]
  }

  /** How a text fares: it ends, or its parameters are too many or too large, or it comes back for ever. */
  datatype Fate = Ends | Overruns | Loops

  /** The first sequence of a text that begins with one: too many parameters; or broken, with a `[` for its third
      byte, and from there broken again. */
  function SequenceFate(s: seq<bv8>): Fate
    requires Begins(s)
  {
    match Chain(Body(s), [0])
    case TooMany => Overruns
    case Broken(codes) =>
      if |s| > 2 && s[2] == BRACKET then
        match Chain(s[3..], codes)
        case TooMany => Overruns
        case Broken(_) => Loops
        case _ => Ends
      else Ends
    case _ => Ends
  }

  /** What comes after that sequence. */
  function Beyond(s: seq<bv8>): (r: seq<bv8>)
    requires Begins(s)
    ensures |r| < |s|
  {
    match Chain(Body(s), [0])
    case Done(rest, _) => rest
    case Broken(codes) =>
      if |s| > 2 && s[2] == BRACKET then
        match Chain(s[3..], codes)
        case Done(rest, _) => rest
        case _ => []
      else s[2..]
    case _ => []
  }

  function FateOf(s: seq<bv8>): Fate
    decreases |s|
  {
    if |s| <= 1 then Ends
    else if !Begins(s) then FateOf(s[1..])
    else if SequenceFate(s).Ends? then FateOf(Beyond(s))
    else SequenceFate(s)
  }

  predicate Safe(s: seq<bv8>) {
    FateOf(s) == Ends
  }

  // ---------------------------------------------------------------- it is exact

  ghost predicate Agrees(p: Played, f: Fate) {
    (p.Played? <==> f == Ends) && (p == Overrun <==> f == Overruns) && (p == Endless <==> f == Loops)
  }

  /** A chain of parameters, played: where it leads, and in what colour. */
  lemma {:induction false} ChainPlays(first: bool, s: seq<bv8>, rest: seq<bv8>, codes: seq<int>, color: Color,
                                      base: Color)
    returns (k: Color)
    requires |s| > 1 && |rest| < |s| && Some10(codes)
    ensures Sequence(first, s, rest, codes, color, base) ==
            match Chain(rest, codes)
            case TooMany => Overrun
            case Open => Played([], k, true)
            case Done(rest', _) => Play(rest', k, base)
            case Broken(codes') =>
              if first then Then(FirstTwo(s, k), Resume(false, s, s[2..], codes', k, base)) else Endless
    decreases |rest|
  {
    k := color;
    hide Play, Scan, AfterCodes;
    if Scan(rest, codes).Done? {
      var rest', codes' := Scan(rest, codes).rest, Scan(rest, codes).codes;
      k := AfterCodes(codes', color, base);
      if rest' != [] && rest'[0] == BRACKET {
        k := ChainPlays(first, s, rest'[1..], codes' + [0], k, base);
      }
    }
  }

  lemma ThenAgrees(x: seq<Stroke>, p: Played, f: Fate)
    ensures Agrees(Then(x, p), f) <==> Agrees(p, f)
  {
  }

  /** A text runs to its end, overruns, or loops, exactly as its bytes say, in whatever colours. */
  lemma {:induction false} PlayFate(s: seq<bv8>, color: Color, base: Color)
    ensures Agrees(Play(s, color, base), FateOf(s))
    decreases |s|
  {
    if |s| <= 1 {
    } else if !Begins(s) {
      PlayFate(s[1..], color, base);
      ThenAgrees([Stroke(s[0], color)], Play(s[1..], color, base), FateOf(s[1..]));
    } else {
      SequenceAgrees(s, color, base);
    }
  }

  lemma {:induction false} SequenceAgrees(s: seq<bv8>, color: Color, base: Color)
    requires Begins(s)
    ensures Agrees(Play(s, color, base), FateOf(s))
    decreases |s|, 0
  {
    hide Scan, Chain, Sequence;
    var k := ChainPlays(true, s, Body(s), [0], color, base);
    assert Play(s, color, base) == Sequence(true, s, Body(s), [0], color, base);
    match Chain(Body(s), [0])
    case TooMany =>
    case Open =>
    case Done(rest, _) =>
      PlayFate(rest, k, base);
    case Broken(codes) =>
      ThenAgrees(FirstTwo(s, k), Resume(false, s, s[2..], codes, k, base), FateOf(s));
      if |s| > 2 && s[2] == BRACKET {
        var k' := ChainPlays(false, s, s[3..], codes, k, base);
        if Chain(s[3..], codes).Done? {
          PlayFate(Chain(s[3..], codes).rest, k', base);
        }
      } else {
        PlayFate(s[2..], k, base);
      }
  }

  // ---------------------------------------------------------------- texts that a zero ends

  /** The parameters after one more character of them. */
  function Longer(c: bv8, codes: seq<int>): (r: seq<int>)
    requires Some10(codes)
    ensures Some10(r)
  {
    if c == SEMICOLON && |codes| <= ROOM then codes + [0]
    else if IsDigit(c) then codes[..|codes| - 1] + [codes[|codes| - 1] * 10 + Digit(c)]
    else codes
  }

  ghost predicate EndsInZero(s: seq<bv8>) {
    s != [] && s[|s| - 1] == NUL
  }

  lemma {:induction false} ScanStep(s: seq<bv8>, codes: seq<int>)
    requires s != [] && Some10(codes) && Belongs(s[0]) && s[0] != LETTER_M
    ensures Scan(s, codes).TooMany? || Scan(s, codes) == Scan(s[1..], Longer(s[0], codes))
  {
    hide Digit;
  }

  lemma {:induction false} ScanToZero(s: seq<bv8>, codes: seq<int>)
    requires EndsInZero(s) && Some10(codes)
    ensures !Scan(s, codes).Open? && (Scan(s, codes).Done? ==> EndsInZero(Scan(s, codes).rest))
    decreases |s|
  {
    if Scan(s, codes).Open? || Scan(s, codes).Done? {
      assert s[0] != NUL;
      if s[0] != LETTER_M {
        ScanStep(s, codes);
        ScanToZero(s[1..], Longer(s[0], codes));
      }
    }
  }

  lemma {:induction false} ChainToZero(s: seq<bv8>, codes: seq<int>)
    requires EndsInZero(s) && Some10(codes)
    ensures !Chain(s, codes).Open? && (Chain(s, codes).Done? ==> EndsInZero(Chain(s, codes).rest))
    decreases |s|
  {
    ScanToZero(s, codes);
    if Scan(s, codes).Done? {
      var rest := Scan(s, codes).rest;
      if rest[0] == BRACKET {
        ChainToZero(rest[1..], Scan(s, codes).codes + [0]);
      }
    }
  }

  /** A string leaves no sequence open. */
  lemma {:induction false} ZeroCloses(s: seq<bv8>, color: Color, base: Color)
    requires EndsInZero(s)
    ensures Play(s, color, base).Played? ==> !Play(s, color, base).open
    decreases |s|
  {
    if |s| <= 1 {
    } else if !Begins(s) {
      ZeroCloses(s[1..], color, base);
    } else {
      var k := ChainPlays(true, s, Body(s), [0], color, base);
      assert Play(s, color, base) == Sequence(true, s, Body(s), [0], color, base);
      ChainToZero(Body(s), [0]);
      hide Scan, Chain, Sequence;
      match Chain(Body(s), [0])
      case TooMany =>
      case Open =>
      case Done(rest, _) =>
        ZeroCloses(rest, k, base);
      case Broken(codes) =>
        if |s| > 2 && s[2] == BRACKET {
          var k' := ChainPlays(false, s, s[3..], codes, k, base);
          ChainToZero(s[3..], codes);
          if Chain(s[3..], codes).Done? {
            ZeroCloses(Chain(s[3..], codes).rest, k', base);
          }
        } else if |s| > 2 {
          ZeroCloses(s[2..], k, base);
        }
    }
  }

  // ---------------------------------------------------------------- the inner loop, its control alone

  /** Where the inner loop stands before its test: the index, and whether parameters are being read. */
  datatype Control = At(i: nat, reading: bool)

  /** At the first character of a sequence. */
  function Entry(b: seq<bv8>, start: nat): Control
    requires start < |b|
  {
    At(start, b[start] == CSI)
  }

  /** After a broken sequence: both its characters are drawn. */
  function Rewound(start: nat): Control {
    At(start + 1, false)
  }

  /** One round of the loop over the text `b`, of which the last byte is the one behind, in the sequence that began
      at `start`; None when the loop is left. The parameters themselves are never looked at. */
  function Round(b: seq<bv8>, start: nat, c: Control): Option<Control> {
    if c.i + 1 >= |b| then None
    else if b[c.i + 1] == BRACKET then Some(At(c.i + 1, true))
    else if !c.reading then None
    else if b[c.i + 1] == LETTER_M then Some(At(c.i + 1, false))
    else if Belongs(b[c.i + 1]) then Some(At(c.i + 1, true))
    else Some(Rewound(start))
  }

  lemma RoundMeans(b: seq<bv8>, start: nat, i: nat, reading: bool)
    ensures i + 1 >= |b| ==> Round(b, start, At(i, reading)) == None
    ensures i + 1 < |b| ==>
              var c := b[i + 1];
              Round(b, start, At(i, reading)) ==
              if c == BRACKET then Some(At(i + 1, true))
              else if !reading then None
              else if Belongs(c) then Some(At(i + 1, c != LETTER_M))
              else Some(At(start + 1, false))
  {
  }

  function Rounds(b: seq<bv8>, start: nat, c: Control, n: nat): Option<Control>
    decreases n
  {
    if n == 0 then Some(c)
    else match Round(b, start, c)
         case None => None
         case Some(d) => Rounds(b, start, d, n - 1)
  }

  lemma {:induction false} RoundFirst(b: seq<bv8>, start: nat, c: Control, d: Control, n: nat)
    requires Round(b, start, c) == Some(d)
    ensures Rounds(b, start, c, n + 1) == Rounds(b, start, d, n)
  {
    hide Round;
  }

  lemma {:induction false} RoundsAdd(b: seq<bv8>, start: nat, c: Control, m: nat, n: nat)
    requires Rounds(b, start, c, m).Some?
    ensures Rounds(b, start, c, m + n) == Rounds(b, start, Rounds(b, start, c, m).value, n)
    decreases m
  {
    if m > 0 {
      RoundsAdd(b, start, Round(b, start, c).value, m - 1, n);
    }
  }

  lemma {:induction false} OneMoreRound(b: seq<bv8>, start: nat, init: Control, n: nat, c: Control)
    requires Rounds(b, start, init, n) == Some(c)
    ensures Rounds(b, start, init, n + 1) == Round(b, start, c)
  {
    RoundsAdd(b, start, init, n, 1);
  }

  lemma {:induction false} RoundsBefore(b: seq<bv8>, start: nat, c: Control, m: nat, n: nat)
    requires m <= n && Rounds(b, start, c, n).Some?
    ensures Rounds(b, start, c, m).Some?
    decreases m
  {
    if m > 0 {
      RoundsBefore(b, start, Round(b, start, c).value, m - 1, n - 1);
    }
  }

  /** A loop that comes back to a place never ends. */
  lemma {:induction false} ReturnsForEver(b: seq<bv8>, start: nat, c: Control, k: nat, n: nat)
    requires k > 0 && Rounds(b, start, c, k) == Some(c)
    ensures Rounds(b, start, c, n).Some?
    decreases n
  {
    if n <= k {
      RoundsBefore(b, start, c, n, k);
    } else {
      ReturnsForEver(b, start, c, k, n - k);
      RoundsAdd(b, start, c, k, n - k);
    }
  }

  lemma ChainStep(rest: seq<bv8>, codes: seq<int>)
    requires rest != [] && Some10(codes) && Belongs(rest[0]) && rest[0] != LETTER_M
    ensures Chain(rest, codes).TooMany? || Chain(rest, codes) == Chain(rest[1..], Longer(rest[0], codes))
  {
    hide Scan, Longer;
    ScanStep(rest, codes);
  }

  /** Reading a chain that breaks leads back to the second character of the sequence. */
  lemma {:induction false} ChainRewinds(b: seq<bv8>, start: nat, i: nat, codes: seq<int>) returns (n: nat)
    requires i + 1 <= |b| && Some10(codes) && Chain(b[i + 1..], codes).Broken?
    ensures n > 0 && Rounds(b, start, At(i, true), n) == Some(Rewound(start))
    decreases |b| - i
  {
    var rest := b[i + 1..];
    assert rest != [];
    assert rest[1..] == b[i + 2..];
    var c := rest[0];
    if !Belongs(c) {
      n := 1;
      assert Rounds(b, start, Rewound(start), 0) == Some(Rewound(start));
    } else if c == LETTER_M {
      assert rest[1..] != [] && rest[1..][0] == BRACKET && rest[1..][1..] == b[i + 3..];
      n := ChainRewinds(b, start, i + 2, codes + [0]);
      assert Rounds(b, start, At(i + 1, false), n + 1) == Rounds(b, start, At(i + 2, true), n);
      n := n + 2;
    } else {
      ChainStep(rest, codes);
      n := ChainRewinds(b, start, i + 1, Longer(c, codes));
      n := n + 1;
    }
  }

  /** A sequence with the fate Loops: whatever the parameters become, the inner loop never ends. */
  lemma LoopsForEver(b: seq<bv8>, start: nat, n: nat)
    requires start < |b| && Begins(b[start..]) && SequenceFate(b[start..]) == Loops
    ensures Rounds(b, start, Entry(b, start), n).Some?
  {
    hide Chain, Belongs, Rounds;
    var s, init := b[start..], Entry(b, start);
    var codes := Chain(Body(s), [0]).codes;
    // to the first rewind
    var j: nat;
    if b[start] == CSI {
      assert Body(s) == b[start + 1..];
      j := ChainRewinds(b, start, start, [0]);
    } else {
      assert Body(s) == b[start + 2..];
      j := ChainRewinds(b, start, start + 1, [0]);
      assert Round(b, start, init) == Some(At(start + 1, true));
      RoundFirst(b, start, init, At(start + 1, true), j);
      j := j + 1;
    }
    // and from there back
    assert s[3..] == b[start + 3..];
    var k := ChainRewinds(b, start, start + 2, codes);
    assert Round(b, start, Rewound(start)) == Some(At(start + 2, true));
    RoundFirst(b, start, Rewound(start), At(start + 2, true), k);
    ReturnsForEver(b, start, Rewound(start), k + 1, n);
    RoundsAdd(b, start, init, j, n);
    RoundsBefore(b, start, init, n, j + n);
  }

  // ---------------------------------------------------------------- what Endless means

  predicate IsTail(tail: seq<bv8>, s: seq<bv8>) {
    |tail| <= |s| && tail == s[|s| - |tail|..]
  }

  lemma TailOfTail(x: seq<bv8>, y: seq<bv8>, z: seq<bv8>)
    requires IsTail(x, y) && IsTail(y, z)
    ensures IsTail(x, z)
  {
  }

  lemma {:induction false} ScanTail(s: seq<bv8>, codes: seq<int>)
    requires Some10(codes) && Scan(s, codes).Done?
    ensures IsTail(Scan(s, codes).rest, s)
    decreases |s|
  {
    if s[0] != LETTER_M {
      ScanStep(s, codes);
      ScanTail(s[1..], Longer(s[0], codes));
      TailOfTail(Scan(s, codes).rest, s[1..], s);
    }
  }

  lemma {:induction false} ChainTail(s: seq<bv8>, codes: seq<int>)
    requires Some10(codes) && Chain(s, codes).Done?
    ensures IsTail(Chain(s, codes).rest, s)
    decreases |s|
  {
    hide Scan;
    ScanTail(s, codes);
    var rest := Scan(s, codes).rest;
    if rest != [] && rest[0] == BRACKET {
      ChainTail(rest[1..], Scan(s, codes).codes + [0]);
      TailOfTail(Chain(s, codes).rest, rest[1..], rest);
      TailOfTail(Chain(s, codes).rest, rest, s);
    }
  }

  lemma BeyondTail(s: seq<bv8>)
    requires Begins(s)
    ensures IsTail(Beyond(s), s)
  {
    hide Chain;
    if Chain(Body(s), [0]).Done? {
      ChainTail(Body(s), [0]);
      TailOfTail(Beyond(s), Body(s), s);
    } else if Chain(Body(s), [0]).Broken? && |s| > 2 && s[2] == BRACKET {
      var codes := Chain(Body(s), [0]).codes;
      if Chain(s[3..], codes).Done? {
        ChainTail(s[3..], codes);
        TailOfTail(Beyond(s), s[3..], s);
      }
    }
  }

  /** Somewhere in a text that loops, a sequence does. */
  lemma {:induction false} LoopsSomewhere(b: seq<bv8>, s: seq<bv8>) returns (start: nat)
    requires IsTail(s, b) && FateOf(s) == Loops
    ensures start < |b| && Begins(b[start..]) && SequenceFate(b[start..]) == Loops
    decreases |s|
  {
    hide SequenceFate, Beyond;
    if !Begins(s) {
      TailOfTail(s[1..], s, b);
      start := LoopsSomewhere(b, s[1..]);
    } else if SequenceFate(s).Ends? {
      BeyondTail(s);
      TailOfTail(Beyond(s), s, b);
      start := LoopsSomewhere(b, Beyond(s));
    } else {
      start := |b| - |s|;
    }
  }

  /** Endless is meant literally: in such a text there is a sequence in which the inner loop runs for ever. */
  lemma EndlessIsEndless(b: seq<bv8>, color: Color, base: Color) returns (start: nat)
    requires Play(b, color, base) == Endless
    ensures start < |b| && Begins(b[start..])
    ensures forall n: nat :: Rounds(b, start, Entry(b, start), n).Some?
  {
    hide Play, FateOf, SequenceFate, Rounds;
    PlayFate(b, color, base);
    start := LoopsSomewhere(b, b);
    forall n: nat ensures Rounds(b, start, Entry(b, start), n).Some? {
      LoopsForEver(b, start, n);
    }
  }

  // ---------------------------------------------------------------- cases

  /** What breaks once breaks again whatever was read before, or overruns: control never looks at the parameters. */
  lemma {:induction false} BreaksAgain(rest: seq<bv8>, codes: seq<int>, codes': seq<int>)
    requires Some10(codes) && Some10(codes') && Chain(rest, codes).Broken?
    ensures Chain(rest, codes').Broken? || Chain(rest, codes').TooMany?
    decreases |rest|
  {
    assert rest != [];
    if Belongs(rest[0]) && rest[0] != LETTER_M {
      ChainStep(rest, codes);
      ChainStep(rest, codes');
      BreaksAgain(rest[1..], Longer(rest[0], codes), Longer(rest[0], codes'));
    } else if rest[0] == LETTER_M && |codes'| <= ROOM {
      assert rest[1..][1..] == rest[2..];
      BreaksAgain(rest[2..], codes + [0], codes' + [0]);
    }
  }

  /** A second `[` directly after `ESC [`: if the sequence breaks, there is no way out. */
  lemma SecondBracket(s: seq<bv8>)
    requires |s| > 2 && s[0] == ESC && s[1] == s[2] == BRACKET && Chain(Body(s), [0]).Broken?
    ensures SequenceFate(s) != Ends
  {
    assert Body(s)[1..] == s[3..];
    ChainStep(Body(s), [0]);
    BreaksAgain(s[3..], [0], Chain(Body(s), [0]).codes);
  }

  lemma BreaksAtOnce(c: bv8, rest: seq<bv8>, codes: seq<int>)
    requires Some10(codes) && !Belongs(c)
    ensures Chain([c] + rest, codes) == Broken(codes)
  {
  }

  /** `ESC [ [ x`, before the zero. */
  lemma EscapeExample(color: Color, base: Color)
    ensures Play([ESC, BRACKET, BRACKET, 0x78, NUL], color, base) == Endless
  {
    var s: seq<bv8> := [ESC, BRACKET, BRACKET, 0x78, NUL];
    assert s[2..] == [BRACKET] + [0x78, NUL] && s[3..] == [0x78] + [NUL] && s[2..][1..] == s[3..];
    BreaksAtOnce(0x78, [NUL], [0]);
    ChainStep(s[2..], [0]);
    hide Chain, Scan, Play;
    assert SequenceFate(s) == Loops;
    PlayFate(s, color, base);
  }

  /** The byte 0x9B, then `A [ B`, before the zero: no `[` follows another. */
  lemma SingleByteExample(color: Color, base: Color)
    ensures Play([CSI, 0x41, BRACKET, 0x42, NUL], color, base) == Endless
  {
    hide Chain, Scan, Play;
    var s: seq<bv8> := [CSI, 0x41, BRACKET, 0x42, NUL];
    assert s[1..] == [0x41] + s[2..] && s[3..] == [0x42] + [NUL];
    BreaksAtOnce(0x41, s[2..], [0]);
    BreaksAtOnce(0x42, [NUL], [0]);
    assert SequenceFate(s) == Loops;
    PlayFate(s, color, base);
  }

  /** Text without either escape character is safe. */
  lemma {:induction false} PlainIsSafe(s: seq<bv8>)
    requires forall i :: 0 <= i < |s| ==> s[i] != ESC && s[i] != CSI
    ensures Safe(s)
    decreases |s|
  {
    if |s| > 1 {
      PlainIsSafe(s[1..]);
    }
  }
}
