/** The text buffer as cells of 16 bits, and the copying of its bytes. */
module VgaCells {
  import opened VgaColor
  import opened VgaPage

  /** `memcpy` within one array: forwards, and so right also when the stretches overlap with the destination below. */
  method Memcpy(a: array<bv8>, dest: nat, src: nat, count: nat)
    requires (dest <= src || src + count <= dest) && src + count <= a.Length && dest + count <= a.Length
    modifies a
    ensures forall k :: 0 <= k < a.Length ==>
              a[k] == if dest <= k < dest + count then old(a[k - dest + src]) else old(a[k])
  {
    var n, dp, sp := count, dest, src;
    while n > 0
      invariant 0 <= n <= count && dp == dest + (count - n) && sp == src + (count - n)
      invariant forall k :: 0 <= k < a.Length ==>
                  a[k] == if dest <= k < dp then old(a[k - dest + src]) else old(a[k])
    {
      n := n - 1;
      a[dp] := a[sp];
      dp, sp := dp + 1, sp + 1;
    }
  }

  // ---------------------------------------------------------------- a cell of the buffer: 16 bits

  function Widen(c: bv8): bv16 {
    if c < 0x80 then c as bv16 else (c as bv16) | 0xFF00
  }

  lemma WidenHigh(c: bv8)
    requires c >= 0x80
    ensures Widen(c) == 0xFF00 + c as bv16
  {
  }

  lemma WidenLow(c: bv8)
    requires c < 0x80
    ensures Widen(c) == c as bv16
  {
  }

  lemma SameNumber(c: bv8)
    ensures (c as bv16) as nat == c as nat
    ensures (0xFF00 + c as bv16) as nat == 0xFF00 + c as nat
  {
  }

  /** The conversion of a signed character to an unsigned 16-bit integer. */
  lemma WidenIsSigned(c: bv8)
    ensures Widen(c) as nat == (if c as nat < 128 then c as int else c as int - 256) % 0x1_0000
  {
    hide Widen;
    SameNumber(c);
    if c >= 0x80 { WidenHigh(c); } else { WidenLow(c); }
  }

  /** `vga_collapse` of a signed character and a colour. */
  function Collapse(c: bv8, k: bv8): bv16 {
    Widen(c) | ((k as bv16) << 8)
  }

  function LowByte(w: bv16): bv8 {
    (w & 0xFF) as bv8
  }

  function HighByte(w: bv16): bv8 {
    (w >> 8) as bv8
  }

  lemma LowOfCollapse(c: bv8, k: bv8)
    ensures LowByte(Collapse(c, k)) == c
  {
  }

  lemma HighOfPlain(c: bv8, k: bv8)
    requires c < 0x80
    ensures HighByte(Collapse(c, k)) == k
  {
  }

  lemma HighOfWide(c: bv8, k: bv8)
    requires c >= 0x80
    ensures HighByte(Collapse(c, k)) == 0xFF
  {
  }

  lemma CollapseIsInk(c: bv8, k: bv8)
    ensures Cell(LowByte(Collapse(c, k)), HighByte(Collapse(c, k))) == Ink(c, k)
  {
    hide LowByte, HighByte, Collapse;
    LowOfCollapse(c, k);
    if c < 0x80 {
      HighOfPlain(c, k);
    } else {
      HighOfWide(c, k);
    }
  }

  /** The cell as the hardware has it: the character in the low byte, the colour in the high one. */
  lemma CollapseInNumbers(c: bv8, k: bv8)
    ensures LowByte(Collapse(c, k)) == c
    ensures c < 0x80 ==> HighByte(Collapse(c, k)) == k
    ensures c >= 0x80 ==> HighByte(Collapse(c, k)) == 0xFF
    ensures Collapse(0x41, 0x1e) == 0x1e41
  {
    LowOfCollapse(c, k);
    if c < 0x80 { HighOfPlain(c, k); } else { HighOfWide(c, k); }
  }

  lemma BytesInNumbers(w: bv16)
    ensures w >> 8 == HighByte(w) as bv16 && w & 0xFF == LowByte(w) as bv16
  {
  }

  /** The cells in the buffer, the low byte of each first. */
  function CellsOf(bytes: seq<bv8>): (r: seq<Cell>)
    ensures |r| == |bytes| / 2
  {
    seq(|bytes| / 2, k requires 0 <= k < |bytes| / 2 => Cell(bytes[2 * k], bytes[2 * k + 1]))
  }

  /** The buffer holds the last `n` of the cells. */
  ghost predicate Shows(bytes: seq<bv8>, cells: seq<Cell>, n: nat) {
    n <= |cells| && CellsOf(bytes) == cells[|cells| - n..]
  }

  lemma Written(bytes: seq<bv8>, bytes': seq<bv8>, p: Page, height: nat, width: nat, row: nat, c: Cell)
    requires Ok(p, width) && height <= p.rows && row == p.row - (p.rows - height) < height
    requires Shows(bytes, p.cells, height * width) && row * width + p.column < height * width
    requires |CellsOf(bytes)| == height * width && CellsOf(bytes') == CellsOf(bytes)[row * width + p.column := c]
    ensures p.row * width + p.column < |p.cells|
    ensures Shows(bytes', p.cells[p.row * width + p.column := c], height * width)
  {
    hide CellsOf;
    var gone: nat := p.rows - height;
    assert p.rows * width == gone * width + height * width by { assert p.rows == gone + height; }
    assert p.row * width == gone * width + row * width by { assert p.row == gone + row; }
  }

  lemma Scrolled(bytes: seq<bv8>, bytes': seq<bv8>, cells: seq<Cell>, n: nat, width: nat, k: Color)
    requires Shows(bytes, cells, n) && width <= n
    requires |CellsOf(bytes)| == n && CellsOf(bytes') == CellsOf(bytes)[width..] + Blanks(width, k)
    ensures Shows(bytes', cells + Blanks(width, k), n)
  {
    hide CellsOf;
  }

  lemma Shifted(bytes: seq<bv8>, bytes': seq<bv8>, kept: nat, width: nat)
    requires |bytes| == |bytes'| == 2 * (kept + width)
    requires forall k :: 0 <= k < 2 * kept ==> bytes'[k] == bytes[k + 2 * width]
    ensures CellsOf(bytes')[..kept] == CellsOf(bytes)[width..]
  {
    forall k | 0 <= k < kept
      ensures CellsOf(bytes')[k] == CellsOf(bytes)[width + k]
    {
      assert bytes'[2 * k] == bytes[2 * k + 2 * width] && bytes'[2 * k + 1] == bytes[2 * k + 1 + 2 * width];
    }
  }

  lemma RowInside(y: nat, height: nat, width: nat)
    requires y < height
    ensures (y + 1) * width == y * width + width <= height * width
  {
    var more: nat := height - y - 1;
    assert height * width == y * width + width + more * width by { assert height == y + 1 + more; }
  }

  lemma SpaceInk(k: Color)
    ensures Ink(SPACE, k) == Cell(SPACE, k)
  {
  }
}
