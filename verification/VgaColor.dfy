/** Colour attributes of the text terminal, and how one SGR code changes them. */
module VgaColor {

  /** A colour byte: bits 0-2 foreground, 3 intensity, 4-6 background, 7 untouched. */
  type Color = bv8

  // ---------------------------------------------------------------- one code

  // C's operators on the byte.
  function And(a: bv8, b: bv8): bv8 { a & b }

  function Or(a: bv8, b: bv8): bv8 { a | b }

  function Plus(a: bv8, b: bv8): bv8 { a + b }

  /** The VGA's three colour bits for an SGR code. */
  function VgaBits(k: nat): (b: bv8)
    requires k < 8
  {
    if k == 0 then 0 else if k == 1 then 4 else if k == 2 then 2 else if k == 3 then 6
    else if k == 4 then 1 else if k == 5 then 5 else if k == 6 then 3 else 7
  }

  function BackBits(k: nat): (b: bv8)
    requires k < 8
  {
    VgaBits(k) << 4
  }

  function WithFore(c: Color, bits: bv8): Color {
    (c & 0xF8) | (bits & 0x07)
  }

  function WithBack(c: Color, bits: bv8): Color {
    (c & 0x8F) | (bits & 0x70)
  }

  /** The colour byte after a code. */
  function AfterCode(code: int, c: Color, base: Color): Color {
    if code == 0 then base
    else if code == 1 then Or(c, 0x08)
    else if code == 21 || code == 22 then And(c, 0xF7)
    else if 30 <= code <= 37 then WithFore(c, VgaBits(code - 30))
    else if code == 39 then WithFore(c, base)
    else if 40 <= code <= 47 then WithBack(c, BackBits(code - 40))
    else if code == 49 then WithBack(c, base)
    else c
  }

  /** Adding to a cleared field is the same as setting it: nothing carries. */
  lemma AddBase(c: Color, base: Color)
    ensures Plus(And(c, 0xF8), And(base, 0x07)) == WithFore(c, base)
    ensures Plus(And(c, 0x8F), And(base, 0x70)) == WithBack(c, base)
  {
  }

  lemma AddFore(c: Color)
    ensures And(c, 0xF8) == WithFore(c, VgaBits(0)) && Plus(And(c, 0xF8), 4) == WithFore(c, VgaBits(1))
    ensures Plus(And(c, 0xF8), 2) == WithFore(c, VgaBits(2)) && Plus(And(c, 0xF8), 6) == WithFore(c, VgaBits(3))
    ensures Plus(And(c, 0xF8), 1) == WithFore(c, VgaBits(4)) && Plus(And(c, 0xF8), 5) == WithFore(c, VgaBits(5))
    ensures Plus(And(c, 0xF8), 3) == WithFore(c, VgaBits(6)) && Plus(And(c, 0xF8), 7) == WithFore(c, VgaBits(7))
  {
  }

  lemma AddBackLow(c: Color)
    ensures And(c, 0x8F) == WithBack(c, BackBits(0)) && Plus(And(c, 0x8F), 0x40) == WithBack(c, BackBits(1))
    ensures Plus(And(c, 0x8F), 0x20) == WithBack(c, BackBits(2)) && Plus(And(c, 0x8F), 0x60) == WithBack(c, BackBits(3))
  {
  }

  lemma AddBackHigh(c: Color)
    ensures Plus(And(c, 0x8F), 0x10) == WithBack(c, BackBits(4)) && Plus(And(c, 0x8F), 0x50) == WithBack(c, BackBits(5))
    ensures Plus(And(c, 0x8F), 0x30) == WithBack(c, BackBits(6)) && Plus(And(c, 0x8F), 0x70) == WithBack(c, BackBits(7))
  {
  }

  lemma AddBack(c: Color)
    ensures And(c, 0x8F) == WithBack(c, BackBits(0)) && Plus(And(c, 0x8F), 0x40) == WithBack(c, BackBits(1))
    ensures Plus(And(c, 0x8F), 0x20) == WithBack(c, BackBits(2)) && Plus(And(c, 0x8F), 0x60) == WithBack(c, BackBits(3))
    ensures Plus(And(c, 0x8F), 0x10) == WithBack(c, BackBits(4)) && Plus(And(c, 0x8F), 0x50) == WithBack(c, BackBits(5))
    ensures Plus(And(c, 0x8F), 0x30) == WithBack(c, BackBits(6)) && Plus(And(c, 0x8F), 0x70) == WithBack(c, BackBits(7))
  {
    AddBackLow(c);
    AddBackHigh(c);
    hide And, Plus, WithBack, BackBits;
  }

  /** `vga_terminal_write`, its inner `switch`: one code of an `ESC [ ... m` sequence. */
  method ApplyCode(code: int, color: Color, base: Color) returns (r: Color)
    ensures r == AfterCode(code, color, base)
  {
    AddBase(color, base);
    if code < 40 {
      AddFore(color);
    } else {
      AddBack(color);
    }
    hide WithFore, WithBack, VgaBits, BackBits, And, Or, Plus;
    r := color;
    match code
    case 0 => r := base;
    case 1 => r := Or(r, 0x08);
    case 21 => r := And(r, 0xF7);
    case 22 => r := And(r, 0xF7);
    case 30 => r := And(r, 0xF8);
    case 31 => r := And(r, 0xF8); r := Plus(r, 4);
    case 32 => r := And(r, 0xF8); r := Plus(r, 2);
    case 33 => r := And(r, 0xF8); r := Plus(r, 6);
    case 34 => r := And(r, 0xF8); r := Plus(r, 1);
    case 35 => r := And(r, 0xF8); r := Plus(r, 5);
    case 36 => r := And(r, 0xF8); r := Plus(r, 3);
    case 37 => r := And(r, 0xF8); r := Plus(r, 7);
    case 39 => r := And(r, 0xF8); r := Plus(r, And(base, 0x07));
    case 40 => r := And(r, 0x8F);
    case 41 => r := And(r, 0x8F); r := Plus(r, 0x40);
    case 42 => r := And(r, 0x8F); r := Plus(r, 0x20);
    case 43 => r := And(r, 0x8F); r := Plus(r, 0x60);
    case 44 => r := And(r, 0x8F); r := Plus(r, 0x10);
    case 45 => r := And(r, 0x8F); r := Plus(r, 0x50);
    case 46 => r := And(r, 0x8F); r := Plus(r, 0x30);
    case 47 => r := And(r, 0x8F); r := Plus(r, 0x70);
    case 49 => r := And(r, 0x8F); r := Plus(r, And(base, 0x70));
    case _ =>
  }

  // ---------------------------------------------------------------- what a colour byte means

  datatype Rgb = Rgb(red: bool, green: bool, blue: bool)

  datatype Attributes = Attributes(fore: Rgb, bright: bool, back: Rgb, top: bool)

  function Meaning(c: Color): Attributes {
    Attributes(Rgb(c & 0x04 != 0, c & 0x02 != 0, c & 0x01 != 0), c & 0x08 != 0,
               Rgb(c & 0x40 != 0, c & 0x20 != 0, c & 0x10 != 0), c & 0x80 != 0)
  }

  lemma MeaningIsFaithful(c: Color, d: Color)
    requires Meaning(c) == Meaning(d)
    ensures c == d
  {
    assert c & 0x01 == d & 0x01 && c & 0x02 == d & 0x02 && c & 0x04 == d & 0x04 && c & 0x08 == d & 0x08;
    assert c & 0x10 == d & 0x10 && c & 0x20 == d & 0x20 && c & 0x40 == d & 0x40 && c & 0x80 == d & 0x80;
  }

  /** The colour of an SGR code: red is its lowest bit, blue its highest, the reverse of the VGA's order. */
  function AnsiColor(k: nat): Rgb {
    Rgb(k % 2 == 1, k / 2 % 2 == 1, k / 4 % 2 == 1)
  }

  /** What an SGR code does to the attributes. */
  function Recoloured(code: int, a: Attributes, base: Attributes): Attributes {
    if code == 0 then base
    else if code == 1 then a.(bright := true)
    else if code == 21 || code == 22 then a.(bright := false)
    else if 30 <= code <= 37 then a.(fore := AnsiColor(code - 30))
    else if code == 39 then a.(fore := base.fore)
    else if 40 <= code <= 47 then a.(back := AnsiColor(code - 40))
    else if code == 49 then a.(back := base.back)
    else a
  }

  lemma ForeMeaning(c: Color, bits: bv8)
    ensures Meaning(WithFore(c, bits)) == Meaning(c).(fore := Meaning(bits).fore)
  {
  }

  lemma BackMeaning(c: Color, bits: bv8)
    ensures Meaning(WithBack(c, bits)) == Meaning(c).(back := Meaning(bits).back)
  {
  }

  lemma BitsMeaning(k: nat)
    requires k < 8
    ensures Meaning(VgaBits(k)).fore == AnsiColor(k)
    ensures Meaning(BackBits(k)).back == AnsiColor(k)
  {
  }

  lemma BrightMeaning(c: Color)
    ensures Meaning(Or(c, 0x08)) == Meaning(c).(bright := true)
    ensures Meaning(And(c, 0xF7)) == Meaning(c).(bright := false)
  {
  }

  lemma ForeCode(code: int, c: Color, base: Color)
    requires 30 <= code <= 37
    ensures Meaning(AfterCode(code, c, base)) == Recoloured(code, Meaning(c), Meaning(base))
  {
    hide Meaning, WithFore, WithBack, VgaBits, BackBits, AnsiColor, And, Or;
    assert AfterCode(code, c, base) == WithFore(c, VgaBits(code - 30));
    ForeMeaning(c, VgaBits(code - 30));
    BitsMeaning(code - 30);
  }

  lemma BackCode(code: int, c: Color, base: Color)
    requires 40 <= code <= 47
    ensures Meaning(AfterCode(code, c, base)) == Recoloured(code, Meaning(c), Meaning(base))
  {
    hide Meaning, WithFore, WithBack, VgaBits, BackBits, AnsiColor, And, Or;
    assert AfterCode(code, c, base) == WithBack(c, BackBits(code - 40));
    BackMeaning(c, BackBits(code - 40));
    BitsMeaning(code - 40);
  }

  lemma DefaultCode(code: int, c: Color, base: Color)
    requires code == 39 || code == 49
    ensures Meaning(AfterCode(code, c, base)) == Recoloured(code, Meaning(c), Meaning(base))
  {
    hide Meaning, WithFore, WithBack;
    if code == 39 {
      ForeMeaning(c, base);
    } else {
      BackMeaning(c, base);
    }
  }

  lemma BrightCode(code: int, c: Color, base: Color)
    requires code == 1 || code == 21 || code == 22
    ensures Meaning(AfterCode(code, c, base)) == Recoloured(code, Meaning(c), Meaning(base))
  {
    hide Meaning, And, Or;
    BrightMeaning(c);
  }

  lemma OtherCode(code: int, c: Color, base: Color)
    requires code !in {1, 21, 22, 39, 49} && !(30 <= code <= 37) && !(40 <= code <= 47)
    ensures Meaning(AfterCode(code, c, base)) == Recoloured(code, Meaning(c), Meaning(base))
  {
    hide Meaning;
  }

  /** No field ever carries into another. */
  lemma MeaningAfterCode(code: int, c: Color, base: Color)
    ensures Meaning(AfterCode(code, c, base)) == Recoloured(code, Meaning(c), Meaning(base))
  {
    hide *;
    if 30 <= code <= 37 {
      ForeCode(code, c, base);
    } else if 40 <= code <= 47 {
      BackCode(code, c, base);
    } else if code in {39, 49} {
      DefaultCode(code, c, base);
    } else if code in {1, 21, 22} {
      BrightCode(code, c, base);
    } else {
      OtherCode(code, c, base);
    }
  }

  /** The codes of one sequence, from left to right. */
  function AfterCodes(codes: seq<int>, c: Color, base: Color): Color {
    if codes == [] then c else AfterCodes(codes[1..], AfterCode(codes[0], c, base), base)
  }

  /** The last code acts last. */
  lemma {:induction false} LastCodeLast(codes: seq<int>, k: int, c: Color, base: Color)
    ensures AfterCodes([], c, base) == c
    ensures AfterCodes(codes + [k], c, base) == AfterCode(k, AfterCodes(codes, c, base), base)
    decreases |codes|
  {
    hide AfterCode;
    if codes == [] {
      assert [] + [k] == [k] && [k][1..] == [];
    } else {
      assert (codes + [k])[1..] == codes[1..] + [k];
      LastCodeLast(codes[1..], k, AfterCode(codes[0], c, base), base);
    }
  }

  /** What a whole sequence does to the attributes: what its last code does to what the others leave. */
  lemma {:induction false} MeaningAfterCodes(codes: seq<int>, k: int, c: Color, base: Color)
    ensures Meaning(AfterCodes(codes + [k], c, base))
         == Recoloured(k, Meaning(AfterCodes(codes, c, base)), Meaning(base))
  {
    hide AfterCode, Meaning, Recoloured;
    LastCodeLast(codes, k, c, base);
    MeaningAfterCode(k, AfterCodes(codes, c, base), base);
  }

  /** Reset and then red, on light grey, is red; red and then reset is light grey. */
  lemma ResetThenRed()
    ensures AfterCodes([0, 31], 0x07, 0x07) == 0x04 && AfterCodes([31, 0], 0x07, 0x07) == 0x07
    ensures AfterCodes([1, 33, 44], 0x07, 0x07) == 0x1e
  {
    assert [0, 31][1..] == [31] && [31, 0][1..] == [0] && [31][1..] == [] && [0][1..] == [];
    assert [1, 33, 44][1..] == [33, 44] && [33, 44][1..] == [44] && [44][1..] == [];
  }
}
