/** What a terminal shows, without a terminal: a page that only ever grows downwards and never scrolls. */
module VgaPage {
  import opened VgaColor

  datatype Cell = Cell(ch: bv8, color: Color)

  const LF: bv8 := 10
  const CR: bv8 := 13
  const SPACE: bv8 := 32

  /** `rows` full rows of cells one after the other, and the place of the cursor. */
  datatype Page = Page(cells: seq<Cell>, rows: nat, row: nat, column: nat)

  predicate Ok(p: Page, width: nat) {
    p.row < p.rows && p.column < width && |p.cells| == p.rows * width
  }

  /** The same, but the cursor may have just left the last row. */
  predicate Struck(p: Page, width: nat) {
    p.row <= p.rows && p.column < width && |p.cells| == p.rows * width
  }

  /** What a character leaves in a cell. C widens the signed character to 16 bits, and so a code of 128 and
      above sets every bit of the colour. */
  function Ink(ch: bv8, color: Color): Cell {
    Cell(ch, if ch < 0x80 then color else 0xFF)
  }

  function Blanks(n: nat, color: Color): (r: seq<Cell>)
    ensures |r| == n
  {
    seq(n, _ => Cell(SPACE, color))
  }

  lemma OffsetInside(row: nat, rows: nat, column: nat, width: nat)
    requires row < rows && column < width
    ensures row * width + column < row * width + width <= rows * width
  {
    var more: nat := rows - row - 1;
    assert rows * width == row * width + width + more * width by { assert rows == row + 1 + more; }
  }

  /** A character struck on the page. */
  function Strike(p: Page, width: nat, ch: bv8, color: Color): (q: Page)
    requires Ok(p, width)
    ensures Struck(q, width)
  {
    OffsetInside(p.row, p.rows, p.column, width);
    if ch == LF then p.(row := p.row + 1, column := 0)
    else if ch == CR then p.(column := 0)
    else
      var q := p.(cells := p.cells[p.row * width + p.column := Ink(ch, color)]);
      if p.column + 1 < width then q.(column := p.column + 1) else q.(row := p.row + 1, column := 0)
  }

  /** A blank row is added when the cursor has left the last one. */
  function Extend(p: Page, width: nat, color: Color): (q: Page)
    requires Struck(p, width)
    ensures Ok(q, width)
  {
    assert (p.rows + 1) * width == p.rows * width + width;
    if p.row < p.rows then p else p.(cells := p.cells + Blanks(width, color), rows := p.rows + 1)
  }

  /** One character typed on the page. */
  function Type(p: Page, width: nat, ch: bv8, color: Color): (q: Page)
    requires Ok(p, width)
    ensures Ok(q, width)
  {
    Extend(Strike(p, width, ch, color), width, color)
  }

  /** Typing changes the cell under the cursor and no other; rows are only ever added, blank, at the end. */
  lemma TypeKeeps(p: Page, width: nat, ch: bv8, color: Color)
    requires Ok(p, width)
    ensures var q, at := Type(p, width, ch, color), p.row * width + p.column;
            && |p.cells| <= |q.cells|
            && (forall k :: 0 <= k < |p.cells| && k != at ==> q.cells[k] == p.cells[k])
            && at < |p.cells| && q.cells[at] == (if ch == LF || ch == CR then p.cells[at] else Ink(ch, color))
            && (ch < 0x80 && ch != 10 && ch != 13 ==> q.cells[at] == Cell(ch, color))
            && (forall k :: |p.cells| <= k < |q.cells| ==> q.cells[k] == Cell(32, color))
            && (q.rows == p.rows
                || (q.rows == p.rows + 1 && q.row == p.rows && q.cells[|p.cells|..] == Blanks(width, color)))
  {
    OffsetInside(p.row, p.rows, p.column, width);
  }

  /** Where the cursor goes, counted in cells from the start of the page: code 10 to the start of the next row, code 13
      to the start of its own, and every other character to the next cell, over the end of a row too. */
  lemma CursorMoves(p: Page, width: nat, ch: bv8, color: Color)
    requires Ok(p, width)
    ensures var q, at := Type(p, width, ch, color), p.row * width + p.column;
            && (ch == 10 ==> q.row == p.row + 1 && q.column == 0)
            && (ch == 13 ==> q.row == p.row && q.column == 0)
            && (ch != 10 && ch != 13 ==> q.row * width + q.column == at + 1)
  {
    OffsetInside(p.row, p.rows, p.column, width);
    assert (p.row + 1) * width == p.row * width + width;
    hide Ink, Blanks;
  }

  /** A character and the colour it is written in. */
  datatype Stroke = Stroke(ch: bv8, color: Color)

  function TypeAll(p: Page, width: nat, strokes: seq<Stroke>): (q: Page)
    requires Ok(p, width)
    ensures Ok(q, width)
    decreases |strokes|
  {
    if strokes == [] then p
    else TypeAll(Type(p, width, strokes[0].ch, strokes[0].color), width, strokes[1..])
  }

  lemma {:induction false} TypeAllJoins(p: Page, width: nat, s: seq<Stroke>, t: seq<Stroke>)
    requires Ok(p, width)
    ensures TypeAll(p, width, s + t) == TypeAll(TypeAll(p, width, s), width, t)
    decreases |s|
  {
    if s == [] {
      assert s + t == t;
    } else {
      TypeAllJoins(Type(p, width, s[0].ch, s[0].color), width, s[1..], t);
      assert (s + t)[1..] == s[1..] + t;
    }
  }

  function BlankPage(width: nat, height: nat, color: Color): Page {
    Page(Blanks(height * width, color), height, 0, 0)
  }
}
