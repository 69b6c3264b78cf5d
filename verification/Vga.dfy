/** The VGA text terminal: a cursor, a scrolling text buffer and a parser of escape sequences. */
module Vga {
  import opened Wrappers

  import opened CInt
  import opened VgaCells
  import opened VgaColor
  import opened VgaEscapes
  import opened VgaPage
  import opened VgaReading
  import opened VgaSafety

  class Terminal {
    var row: nat
    var column: nat
    const width: nat
    const height: nat
    const defaultColor: Color
    var color: Color
    var ansi: bool
    const textbuffer: array<bv8>

    /** The page of all that was ever written. */
    ghost var page: Page

    /** The buffer shows the last `height` rows of the page, and the cursor is at the page's cursor, which may have just
        left the last row. */
    ghost predicate Follows()
      reads `row, `column, `page, textbuffer
    {
      Struck(page, width) && 0 < height <= page.rows && textbuffer.Length == 2 * (height * width)
      && row <= height && page.row == page.rows - height + row && column == page.column
      && Shows(textbuffer[..], page.cells, height * width)
    }

    /** The same, with the cursor inside. */
    ghost predicate Valid()
      reads `row, `column, `page, textbuffer
    {
      Ok(page, width) && Follows() && row < height
    }

    lemma IsOk()
      requires Valid()
      ensures Ok(page, width)
    {
    }

    /** `vga_terminal_putentryat`. */
    method PutEntry(c: bv8, k: Color, index: nat)
      requires 2 * index + 1 < textbuffer.Length
      modifies textbuffer
      ensures CellsOf(textbuffer[..]) == old(CellsOf(textbuffer[..]))[index := Ink(c, k)]
    {
      CollapseIsInk(c, k);
      hide Ink, Collapse, LowByte, HighByte;
      var entry := Collapse(c, k);
      textbuffer[2 * index] := LowByte(entry);
      textbuffer[2 * index + 1] := HighByte(entry);
    }

    /** The inner loop of the initialisation. */
    method BlankRow(start: nat)
      requires textbuffer.Length % 2 == 0 && start + width <= textbuffer.Length / 2
      requires CellsOf(textbuffer[..])[..start] == Blanks(start, color)
      modifies textbuffer
      ensures CellsOf(textbuffer[..])[..start + width] == Blanks(start + width, color)
    {
      SpaceInk(color);
      hide CellsOf, Ink;
      var x := 0;
      while x < width
        invariant x <= width && |CellsOf(textbuffer[..])| == textbuffer.Length / 2
        invariant CellsOf(textbuffer[..])[..start + x] == Blanks(start + x, color)
      {
        PutEntry(SPACE, color, start + x);
        x := x + 1;
      }
    }

    /** The loop of the initialisation. */
    method Clear()
      requires textbuffer.Length == 2 * (height * width)
      modifies textbuffer
      ensures CellsOf(textbuffer[..]) == Blanks(height * width, color)
    {
      var y, start: nat := 0, 0;
      while y < height
        invariant y <= height && start == y * width <= height * width == |CellsOf(textbuffer[..])|
        invariant CellsOf(textbuffer[..])[..start] == Blanks(start, color)
      {
        RowInside(y, height, width);
        BlankRow(start);
        y, start := y + 1, start + width;
      }
      assert CellsOf(textbuffer[..])[..height * width] == CellsOf(textbuffer[..]);
    }

    /** `vga_terminal_initialize`. */
    constructor (width: nat, height: nat, textbuffer: array<bv8>)
      requires width > 0 && height > 0 && textbuffer.Length == 2 * (height * width)
      modifies textbuffer
      ensures Valid() && page == BlankPage(width, height, 0x07)
      ensures this.width == width && this.height == height && this.textbuffer == textbuffer
      ensures color == defaultColor == 0x07 && !ansi
    {
      row, column, color, ansi := 0, 0, 0x07, false;
      this.width, this.height, this.defaultColor, this.textbuffer := width, height, 0x07, textbuffer;
      page := BlankPage(width, height, 0x07);
      new;
      Clear();
    }

    // -------------------------------------------------------------- one character

    /** The last row becomes blank. */
    method ClearRow(start: nat)
      requires textbuffer.Length == 2 * (start + width)
      modifies textbuffer
      ensures CellsOf(textbuffer[..]) == old(CellsOf(textbuffer[..]))[..start] + Blanks(width, color)
    {
      hide CellsOf, Ink;
      ghost var kept := CellsOf(textbuffer[..])[..start];
      SpaceInk(color);
      var x := 0;
      while x < width
        invariant x <= width && |CellsOf(textbuffer[..])| == start + width
        invariant CellsOf(textbuffer[..])[..start + x] == kept + Blanks(x, color)
      {
        PutEntry(SPACE, color, start + x);
        x := x + 1;
      }
      assert CellsOf(textbuffer[..])[..start + x] == CellsOf(textbuffer[..]);
    }

    /** The end of `vga_terminal_putchar`: every row moves up by one, and the last becomes blank. */
    method Scroll()
      requires textbuffer.Length == 2 * (height * width) && height > 0
      modifies textbuffer
      ensures CellsOf(textbuffer[..]) == old(CellsOf(textbuffer[..]))[width..] + Blanks(width, color)
    {
      var kept := width * (height - 1);
      RowInside(height - 1, height, width);
      hide CellsOf;
      Memcpy(textbuffer, 0, 2 * width, kept * 2);
      Shifted(old(textbuffer[..]), textbuffer[..], kept, width);
      ClearRow(kept);
    }

    /** The character goes where the cursor is. */
    method PutGlyph(c: bv8)
      requires Valid()
      modifies textbuffer
      ensures page.row * width + page.column < |page.cells|
      ensures Shows(textbuffer[..], page.cells[page.row * width + page.column := Ink(c, color)], height * width)
    {
      hide CellsOf, Ink, Shows;
      OffsetInside(row, height, column, width);
      PutEntry(c, color, row * width + column);
      Written(old(textbuffer[..]), textbuffer[..], page, height, width, row, Ink(c, color));
    }

    /** A printable character: the cursor goes on behind it. */
    method PutAndAdvance(c: bv8)
      requires Valid() && c != LF && c != CR
      modifies this`row, this`column, this`page, textbuffer
      ensures Follows()
      ensures page == Strike(old(page), width, c, color)
    {
      hide CellsOf, Ink, Shows;
      ghost var struck := Strike(page, width, c, color);
      PutGlyph(c);
      column := column + 1;
      if column == width {
        column := 0;
        row := row + 1;
      }
      page := struck;
    }

    /** The character is struck; the buffer may then have to scroll. */
    method Place(c: bv8)
      requires Valid()
      modifies this`row, this`column, this`page, textbuffer
      ensures Follows()
      ensures page == Strike(old(page), width, c, color)
    {
      hide CellsOf, Ink, Shows;
      if c == LF {
        page := Strike(page, width, c, color);
        column := 0;
        row := row + 1;
      } else if c == CR {
        page := Strike(page, width, c, color);
        column := 0;
      } else {
        PutAndAdvance(c);
      }
    }

    /** `vga_terminal_putchar`: the character is typed on the page, unless an escape sequence is being read. */
    method Putchar(c: bv8)
      requires Valid()
      modifies this`row, this`column, this`page, textbuffer
      ensures Valid()
      ensures page == if ansi then old(page) else Type(old(page), width, c, color)
    {
      hide CellsOf, Ink, Shows, Strike, Blanks;
      if !ansi {
        Place(c);
      }
      label Placed:
      assert height * width == (height - 1) * width + width && (page.rows + 1) * width == page.rows * width + width;
      if row == height {
        row := row - 1;
        Scroll();
        Scrolled(old@Placed(textbuffer[..]), textbuffer[..], page.cells, height * width, width, color);
        page := Extend(page, width, color);
      }
    }

    // -------------------------------------------------------------- escape sequences

    /** The loop over the parameters of a sequence, at its `m`. */
    method ApplyCodes(n: array<Int32>, count: nat)
      requires count <= n.Length
      modifies this`color
      ensures color == AfterCodes(n[..count], old(color), defaultColor)
    {
      var j := 0;
      while j < count
        invariant j <= count
        invariant AfterCodes(n[j..count], color, defaultColor) == AfterCodes(n[..count], old(color), defaultColor)
      {
        assert n[j..count][1..] == n[j + 1..count];
        color := ApplyCode(n[j], color, defaultColor);
        j := j + 1;
      }
    }

    /** A broken sequence: its first two characters are drawn after all. */
    method Redraw(data: seq<bv8>, start: nat, ghost s: seq<bv8>) returns (i: nat)
      requires Valid() && !ansi && start + 1 < |data| && |s| > 1 && s[0] == data[start] && s[1] == data[start + 1]
      modifies this`row, this`column, this`page, textbuffer
      ensures Valid() && i == start + 1 && Typed(old(page), page, width, FirstTwo(s, color))
    {
      i := start;
      Putchar(data[i]);
      i := i + 1;
      Putchar(data[i]);
      TypeTwo(old(page), width, FirstTwo(s, color));
    }

    /** A character with a place among the parameters. */
    method Parameter(c: bv8, n: array<Int32>, ni: nat, ghost goal: Played, ghost drawn: seq<Stroke>, ghost first: bool,
                     ghost b: seq<bv8>, ghost start: nat, ghost i: nat)
      returns (ni': nat)
      requires ansi && n.Length == ROOM
      requires Reading(goal, drawn, first, b, start, i, true, n[..], ni, color, defaultColor)
      requires i + 1 < |b| && c == b[i + 1] && Belongs(c) && c != BRACKET
      modifies this`color, this`ansi, n
      ensures ansi == (c != LETTER_M)
      ensures Reading(goal, drawn, first, b, start, i + 1, ansi, n[..], ni', color, defaultColor)
    {
      hide Reading, AfterCodes, Digit, From;
      ni' := ni;
      if c == SPACE {
        ReadingSkip(goal, drawn, first, b, start, i, n[..], ni, color, defaultColor);
      } else if c == SEMICOLON {
        ReadingNext(goal, drawn, first, b, start, i, n[..], ni, color, defaultColor);
        if ni' < ROOM {
          ni' := ni' + 1;
        }
      } else if IsDigit(c) {
        ReadingDigit(goal, drawn, first, b, start, i, n[..], ni, color, defaultColor);
        ghost var n' := n[..][ni := n[ni] * 10 + Digit(c)];
        n[ni] := n[ni] * 10 + Digit(c);
        assert n[..] == n';
      } else if c == DEL {
        ReadingSkip(goal, drawn, first, b, start, i, n[..], ni, color, defaultColor);
      } else {
        assert c == LETTER_M;
        ReadingLetter(goal, drawn, first, b, start, i, n[..], ni, color, defaultColor);
        ni' := ni' + 1;
        assert n[..][..ni'] == n[..ni'];
        ApplyCodes(n, ni');
        ansi := false;
      }
    }

    /** A character other than `[` while parameters are read: one of them, or it breaks the sequence. */
    method Inside(data: seq<bv8>, start: nat, i: nat, n: array<Int32>, ni: nat, ghost b: seq<bv8>,
                  ghost goal: Played, ghost drawn: seq<Stroke>, ghost first: bool)
      returns (i': nat, ni': nat, ghost first': bool, ghost now: seq<Stroke>)
      requires Valid() && b <= data && i + 1 < |b| && b[i + 1] != BRACKET && start + 1 < |b|
      requires ansi && n.Length == ROOM && n as object != textbuffer as object
      requires Reading(goal, drawn, first, b, start, i, true, n[..], ni, color, defaultColor)
      modifies this`row, this`column, this`color, this`ansi, this`page, textbuffer, n
      ensures Valid() && Typed(old(page), page, width, now)
      ensures Reading(goal, drawn + now, first', b, start, i', ansi, n[..], ni', color, defaultColor)
      ensures Round(b, start, At(i, true)) == Some(At(i', ansi))
      ensures (first' == first && i' == i + 1) || (first && !first' && i' == start + 1)
    {
      hide Shows, CellsOf, Typed, Type, Follows, Ok, Reading, PlayFrom, Then, From, FirstTwo, Round, Belongs, Valid;
      IsOk();
      RoundMeans(b, start, i, true);
      i', ni', first', now := i + 1, ni, first, [];
      if Belongs(data[i']) {
        TypedNothing(page, width);
        assert drawn + [] == drawn;
        ni' := Parameter(data[i'], n, ni, goal, drawn, first, b, start, i);
      } else {
        ReadingBroken(goal, drawn, first, b, start, i, n[..], ni, color, defaultColor);
        ansi := false;
        first', now := false, FirstTwo(From(b, start), color);
        i' := Redraw(data, start, From(b, start));
      }
    }

    /** One round of the inner loop of `vga_terminal_write`, test included, in the sequence that began at `start` of
        the text `b`; `more` when it goes on. */
    method Turn(data: seq<bv8>, length: nat, start: nat, i: nat, n: array<Int32>, ni: nat, ghost b: seq<bv8>,
                ghost goal: Played, ghost drawn: seq<Stroke>, ghost first: bool)
      returns (more: bool, i': nat, ni': nat, ghost first': bool, ghost now: seq<Stroke>)
      requires Valid() && length < |data| && b == data[..length + 1] && start <= i
      requires n.Length == ROOM && n as object != textbuffer as object
      requires Reading(goal, drawn, first, b, start, i, ansi, n[..], ni, color, defaultColor)
      modifies this`row, this`column, this`color, this`ansi, this`page, textbuffer, n
      ensures Valid() && Typed(old(page), page, width, now)
      ensures Round(b, start, At(i, old(ansi))) == if more then Some(At(i', ansi)) else None
      ensures more ==> Reading(goal, drawn + now, first', b, start, i', ansi, n[..], ni', color, defaultColor)
      ensures more ==> start <= i' <= length && ((first' == first && i' == i + 1) || (first && !first'))
      ensures !more ==> i' >= i && goal == Then(drawn + now, PlayFrom(ansi, From(b, i' + 1), color, defaultColor))
    {
      hide Shows, CellsOf, Typed, Type, Follows, Ok, Reading, PlayFrom, Then, From, FirstTwo, Round, Belongs, Valid;
      ReadingInside(goal, drawn, first, b, start, i, ansi, n[..], ni, color, defaultColor);
      IsOk();
      RoundMeans(b, start, i, ansi);
      TypedNothing(page, width);
      assert drawn + [] == drawn;
      more, i', ni', first', now := true, i, ni, first, [];
      more := i' < length;
      i' := i' + 1;
      if !more {
        ReadingOver(goal, drawn, first, b, start, i, ansi, n[..], ni, color, defaultColor);
        return;
      }
      var c := data[i'];
      if c == BRACKET {
        ReadingBracket(goal, drawn, first, b, start, i, ansi, n[..], ni, color, defaultColor);
        ansi := true;
      } else if ansi {
        i', ni', first', now := Inside(data, start, i, n, ni, b, goal, drawn, first);
      } else {
        ReadingOver(goal, drawn, first, b, start, i, ansi, n[..], ni, color, defaultColor);
        more, i' := false, i' - 1;
      }
    }

    /** The inner loop, from the escape character at `start`; its caller goes on after `i`. The loop takes `rounds`
        rounds and one more in which it is left. */
    method Escape(data: seq<bv8>, length: nat, start: nat, ghost b: seq<bv8>)
      returns (i: nat, ghost now: seq<Stroke>, ghost rounds: nat)
      requires Valid() && !ansi && start < length < |data| && b == data[..length + 1]
      requires (data[start] == ESC || data[start] == CSI) && Safe(From(b, start))
      modifies this`row, this`column, this`color, this`ansi, this`page, textbuffer
      ensures Valid() && i >= start && Typed(old(page), page, width, now)
      ensures Play(From(b, start), old(color), defaultColor)
           == Then(now, PlayFrom(ansi, From(b, i + 1), color, defaultColor))
      ensures Rounds(b, start, Entry(b, start), rounds).Some?
      ensures Rounds(b, start, Entry(b, start), rounds + 1) == None
    {
      hide Shows, CellsOf, Typed, Reading, PlayFrom, Play, Then, From, Round, Follows, Ok;
      ghost var s, init := From(b, start), Entry(b, start);
      ghost var goal := Play(s, color, defaultColor);
      var n := new Int32[ROOM](_ => 0);
      var ni: nat := 0;
      ghost var first := true;
      ReadingStarts(b, start, n[..], color, defaultColor);
      TypedNothing(page, width);
      i, now, rounds := start, [], 0;
      if data[i] == CSI {
        ansi := true;
      }
      var more := true;
      while more
        invariant Valid() && Typed(old(page), page, width, now) && start <= i && fresh(n)
        invariant more ==> i <= length && Reading(goal, now, first, b, start, i, ansi, n[..], ni, color, defaultColor)
        invariant more ==> Rounds(b, start, init, rounds) == Some(At(i, ansi))
        invariant !more ==> goal == Then(now, PlayFrom(ansi, From(b, i + 1), color, defaultColor))
        invariant !more ==> Rounds(b, start, init, rounds).Some? && Rounds(b, start, init, rounds + 1) == None
        decreases more, first, length - i
      {
        ghost var strokes;
        ghost var c, before := At(i, ansi), page;
        more, i, ni, first, strokes := Turn(data, length, start, i, n, ni, b, goal, now, first);
        TypedMore(old(page), before, page, width, now, strokes);
        now := now + strokes;
        OneMoreRound(b, start, init, rounds, c);
        if more {
          rounds := rounds + 1;
        }
      }
    }

    /** `vga_terminal_write` of the first `length` characters. The text with the byte behind it must be safe, unless a
        sequence was left open, when nothing happens at all. */
    method Write(data: seq<bv8>, length: nat)
      requires Valid() && length < |data| && (ansi || Safe(data[..length + 1]))
      modifies this`row, this`column, this`color, this`ansi, this`page, textbuffer
      ensures Valid()
      ensures var p := PlayFrom(old(ansi), data[..length + 1], old(color), defaultColor);
              p.Played? && page == TypeAll(old(page), width, p.strokes) && color == p.color && ansi == p.open
    {
      hide Ok, Follows, Typed, Type, Play, PlayFrom, Then, From, Doing, FateOf, Rounds;
      ghost var b := data[..length + 1];
      ghost var goal, drawn: seq<Stroke> := PlayFrom(ansi, b, color, defaultColor), [];
      FromHere(b, 0);
      SafePlays(ansi, b, color, defaultColor);
      DoingStart(ansi, b, color, defaultColor);
      IsOk();
      TypedNothing(page, width);
      var i := 0;
      while i < length
        invariant Valid() && Typed(old(page), page, width, drawn)
        invariant Doing(goal, drawn, ansi, From(b, i), color, defaultColor)
        decreases length - i
      {
        FromHere(b, i);
        ghost var before, c, now, rounds := page, color, [], 0;
        if (data[i] == ESC || data[i] == CSI) && !ansi {
          DoingIsSafe(goal, drawn, From(b, i), color, defaultColor);
          ghost var rest := From(b, i);
          i, now, rounds := Escape(data, length, i, b);
          DoingMore(goal, drawn, rest, c, defaultColor, now, ansi, From(b, i + 1), color);
        } else {
          Putchar(data[i]);
          if ansi {
            DoingOpen(goal, drawn, From(b, i), From(b, i + 1), color, defaultColor);
            TypedNothing(page, width);
            assert drawn + [] == drawn;
          } else {
            DoingPlain(goal, drawn, From(b, i), color, defaultColor);
            now := [Stroke(data[i], color)];
            TypedOne(before, width, Stroke(data[i], color));
          }
        }
        TypedMore(old(page), before, page, width, drawn, now);
        drawn := drawn + now;
        i := i + 1;
      }
      FromHere(b, i);
      TypedMeans(old(page), page, width, drawn);
      DoingEnd(goal, drawn, ansi, From(b, i), color, defaultColor);
    }

    /** `vga_terminal_writestring`: what a string means, the terminal does, and no sequence is left open. */
    method WriteString(data: seq<bv8>)
      requires Valid() && NUL in data && (ansi || Safe(data[..Length(data) + 1]))
      modifies this`row, this`column, this`color, this`ansi, this`page, textbuffer
      ensures Valid() && ansi == old(ansi)
      ensures var p := PlayFrom(ansi, data[..Length(data) + 1], old(color), defaultColor);
              p.Played? && page == TypeAll(old(page), width, p.strokes) && color == p.color
    {
      var length := StrLen(data);
      ZeroCloses(data[..length + 1], color, defaultColor);
      Write(data, length);
    }
  }
}
