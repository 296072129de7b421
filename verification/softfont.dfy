/**
 * The arithmetic of the VGA soft font: the glyph size a glyph sheet
 * implies, and which glyph-sheet rectangle is copied to which screen
 * rectangle for a cell value.  The sheet holds 128 rows of 256 glyphs; the
 * row for a cell is its seven-bit colour attribute and the column is its
 * character.
 */
module SoftFont {
  import opened Outcomes
  import opened Geometry
  import Cell
  import Arith

  const SHEET_GLYPH_COLUMNS := 256
  const SHEET_GLYPH_ROWS := 128

  /** The character drawn for a code unit above 255. */
  const REPLACEMENT_CHARACTER := 63  // '?'

  /** The pixel size of one glyph. */
  datatype Size = Size(width: int, height: int)

  /**
   * The flag bits of a cell value that the font reads.  Their positions
   * belong to the cell encoding, so the font takes them as given.
   */
  datatype FlagMasks = FlagMasks(inverted: bv32, selected: bv32, blinking: bv32, underlined: bv32)

  /** The flag bits of the cell encoding used by the rest of the model. */
  const CELL_MASKS := FlagMasks(Cell.INVERTED, Cell.SELECTED, Cell.BLINKING, Cell.UNDERLINED)

  /** The glyph whose top pixel row is stretched into the underline. */
  const UNDERLINE_GLYPH := 219

  /**
   * The constructor's checks on a glyph sheet of `width` by `height`
   * pixels: neither may be zero, the width must be a multiple of 256 and the
   * height a multiple of 128; the glyph size is the sheet size divided by
   * the glyph counts.
   */
  function GlyphSize(width: nat, height: nat): (r: Result<Size>)
    ensures r.Err? <==> width == 0 || height == 0 || width % 256 != 0 || height % 128 != 0
    ensures r.Err? ==> r.error == IllegalArgument
    ensures r.Ok? ==> && r.value.width >= 1 && r.value.height >= 1
                      && r.value.width * SHEET_GLYPH_COLUMNS == width
                      && r.value.height * SHEET_GLYPH_ROWS == height
  {
    if width == 0 || height == 0 then Err(IllegalArgument)
    else if width % 256 != 0 || height % 128 != 0 then Err(IllegalArgument)
    else Ok(Size(width / 256, height / 128))
  }

  /** Every pair of positive multiples of 256 and 128 is accepted. */
  lemma GlyphSizeAcceptsMultiples(gw: nat, gh: nat)
    requires gw >= 1 && gh >= 1
    ensures GlyphSize(gw * 256, gh * 128) == Ok(Size(gw, gh))
  {
  }

  /**
   * The glyph-sheet row for a value: bits 16..22, with the low six bits
   * (the two colours) complemented when exactly one of the inverted and
   * selected flags is set.
   */
  function ColorAttribute(value: bv32, m: FlagMasks): (r: int)
    ensures 0 <= r < 128
  {
    var attr := (value & 0x7F_0000) >> 16;
    var flipped := if ((value & m.inverted) != 0) != ((value & m.selected) != 0) then attr ^ 0x3F else attr;
    ByteValue(flipped)
  }

  /** The number a word below 128 stands for. */
  function ByteValue(w: bv32): (r: int)
    requires w < 128
    ensures 0 <= r < 128
  {
    w as int
  }

  /** Whether the colours are swapped: exactly one of inverted and selected. */
  predicate Swapped(value: bv32, m: FlagMasks) {
    ((value & m.inverted) != 0) != ((value & m.selected) != 0)
  }

  /** The bright bit survives the swap and each three-bit colour is complemented. */
  lemma ColorAttributeSwap(value: bv32, m: FlagMasks)
    ensures var plain := ByteValue((value & 0x7F_0000) >> 16);
      var r := ColorAttribute(value, m);
      if Swapped(value, m) then r / 64 == plain / 64 && r % 64 == 63 - plain % 64
      else r == plain
  {
    var attr := (value & 0x7F_0000) >> 16;
    if Swapped(value, m) {
      XorLowSix(attr);
    }
  }

  lemma XorLowSix(a: bv32)
    requires a < 128
    ensures (a ^ 0x3F) < 128
    ensures ByteValue(a ^ 0x3F) / 64 == ByteValue(a) / 64
    ensures ByteValue(a ^ 0x3F) % 64 == 63 - ByteValue(a) % 64
  {
    var x := a ^ 0x3F;
    assert x & 0x40 == a & 0x40 && x & 0x3F == 0x3F - (a & 0x3F);
    assert x == (x & 0x40) + (x & 0x3F) && a == (a & 0x40) + (a & 0x3F);
    assert (a & 0x40) == 0 || (a & 0x40) == 0x40;
    assert (x & 0x3F) as int == 63 - (a & 0x3F) as int;
    assert (x & 0x3F) < 64 && (a & 0x3F) < 64;
  }

  /** The character whose glyph is drawn: the low 16 bits, or `?` beyond 255. */
  function ShownCharacter(value: bv32): (r: int)
    ensures 0 <= r < SHEET_GLYPH_COLUMNS
    ensures value & 0xFFFF > 255 ==> r == REPLACEMENT_CHARACTER
    ensures value & 0xFFFF <= 255 ==> r as bv32 == value & 0xFFFF
  {
    var character := value & 0xFFFF;
    if character > 255 then REPLACEMENT_CHARACTER else ByteValue8(character)
  }

  function ByteValue8(w: bv32): (r: int)
    requires w <= 255
    ensures 0 <= r < 256
  {
    w as int
  }

  /** One copy from the glyph sheet: the screen rectangle and the sheet rectangle. */
  datatype Blit = Blit(destination: Rect, source: Rect)

  /**
   * The copy `drawGlyph(value, blinkOn, graphics, x, y)` makes for the
   * glyph itself: a glyph-sized box at `(x, y)` on screen, taken from the
   * sheet row of the colour attribute and the column of the character, or
   * column 0 when the cell blinks and blinking is in its off phase.
   */
  function Glyph(value: bv32, blinkOn: bool, glyph: Size, x: int, y: int, m: FlagMasks): (r: Blit)
    ensures r.destination == Rect(x, y, glyph.width, glyph.height)
    ensures r.source.width == glyph.width && r.source.height == glyph.height
    ensures r.source.y == ColorAttribute(value, m) * glyph.height
    ensures !blinkOn && value & m.blinking != 0 ==> r.source.x == 0
    ensures blinkOn || value & m.blinking == 0 ==> r.source.x == ShownCharacter(value) * glyph.width
  {
    var colorAttr := ColorAttribute(value, m);
    var destination := Rect(x, y, glyph.width, glyph.height);
    if !blinkOn && value & m.blinking != 0 then
      Blit(destination, Rect(0, colorAttr * glyph.height, glyph.width, glyph.height))
    else
      var character := ShownCharacter(value);
      Blit(destination, Rect(character * glyph.width, colorAttr * glyph.height, glyph.width, glyph.height))
  }

  /** The source rectangle always lies inside the glyph sheet, on the glyph grid. */
  lemma GlyphInsideSheet(value: bv32, blinkOn: bool, glyph: Size, x: int, y: int, m: FlagMasks)
    requires glyph.width >= 1 && glyph.height >= 1
    ensures var s := Glyph(value, blinkOn, glyph, x, y, m).source;
      && ContainsRect(Rect(0, 0, SHEET_GLYPH_COLUMNS * glyph.width, SHEET_GLYPH_ROWS * glyph.height),
                      s.x, s.y, s.width, s.height)
      && s.x % glyph.width == 0 && s.y % glyph.height == 0
  {
    var col := if !blinkOn && value & m.blinking != 0 then 0 else ShownCharacter(value);
    Arith.CellInsideSpan(col, SHEET_GLYPH_COLUMNS, glyph.width);
    Arith.CellInsideSpan(ColorAttribute(value, m), SHEET_GLYPH_ROWS, glyph.height);
  }

  /**
   * For a cell of the model's encoding, the sheet row is the bright bit,
   * background and foreground, each colour complemented when exactly one of
   * inverted and selected is set.
   */
  lemma RowOfEncodedCell(c: Cell.Cell)
    ensures var a := c.attributes;
      var swap := a.inverted != a.selected;
      var fg := if swap then 7 - a.fg as int else a.fg as int;
      var bg := if swap then 7 - a.bg as int else a.bg as int;
      ColorAttribute(Cell.Encode(c), CELL_MASKS) == (if a.bright then 64 else 0) + bg * 8 + fg
  {
    var w := Cell.Encode(c);
    var a := c.attributes;
    EncodedSwap(c);
    EncodedPlain(c);
    ColorAttributeSwap(w, CELL_MASKS);
  }

  lemma EncodedSwap(c: Cell.Cell)
    ensures Swapped(Cell.Encode(c), CELL_MASKS) == (c.attributes.inverted != c.attributes.selected)
  {
    Cell.DecodeEncode(c);
  }

  lemma EncodedPlain(c: Cell.Cell)
    ensures var a := c.attributes;
      ByteValue((Cell.Encode(c) & 0x7F_0000) >> 16)
      == (if a.bright then 64 else 0) + a.bg as int * 8 + a.fg as int
  {
    var a := c.attributes;
    Cell.ColorAttributeOfEncode(c);
    ColorAttributeArithmetic(a.bright, a.fg, a.bg);
  }

  /**
   * For a cell of the model's encoding, a character below 256 is drawn
   * from its own column, any other character from the column of `?`, and a
   * blinking cell in the off phase from column 0.
   */
  lemma ColumnOfEncodedCell(c: Cell.Cell, blinkOn: bool, glyph: Size, x: int, y: int)
    ensures (blinkOn || !c.attributes.blinking) && c.ch <= 255 ==>
      Glyph(Cell.Encode(c), blinkOn, glyph, x, y, CELL_MASKS).source.x == c.ch as int * glyph.width
    ensures (blinkOn || !c.attributes.blinking) && c.ch > 255 ==>
      Glyph(Cell.Encode(c), blinkOn, glyph, x, y, CELL_MASKS).source.x == REPLACEMENT_CHARACTER * glyph.width
    ensures !blinkOn && c.attributes.blinking ==>
      Glyph(Cell.Encode(c), blinkOn, glyph, x, y, CELL_MASKS).source.x == 0
  {
    EncodedFlags(c);
    var w := Cell.Encode(c);
    var g := Glyph(w, blinkOn, glyph, x, y, CELL_MASKS);
    if blinkOn || !c.attributes.blinking {
      assert g.source.x == ShownCharacter(w) * glyph.width;
    }
  }

  /** The blink flag and the drawn character of an encoded cell. */
  lemma EncodedFlags(c: Cell.Cell)
    ensures (Cell.Encode(c) & Cell.BLINKING != 0) == c.attributes.blinking
    ensures c.ch <= 255 ==> ShownCharacter(Cell.Encode(c)) == c.ch as int
    ensures c.ch > 255 ==> ShownCharacter(Cell.Encode(c)) == REPLACEMENT_CHARACTER
  {
    var w := Cell.Encode(c);
    Cell.DecodeEncode(c);
    assert Cell.Decode(w).ch == c.ch && Cell.Decode(w).attributes.blinking == c.attributes.blinking;
    CharacterOfEncoded(w, c.ch);
  }

  lemma CharacterOfEncoded(w: bv32, ch: Cell.CodeUnit)
    requires Cell.CharOf(w) == ch
    ensures ch <= 255 ==> ShownCharacter(w) == ch as int
    ensures ch > 255 ==> ShownCharacter(w) == REPLACEMENT_CHARACTER
  {
    assert w & 0xFFFF == ch as bv32;
  }

  /** The colour attribute of a colour triple, read as a number, and its complement. */
  lemma ColorAttributeArithmetic(bright: bool, fg: Cell.Color, bg: Cell.Color)
    ensures var v := (if bright then 64 else 0) + bg * 8 + fg;
      v < 128
      && ByteValue(v) == (if bright then 64 else 0) + bg as int * 8 + fg as int
      && ByteValue(v) / 64 == (if bright then 1 else 0)
      && ByteValue(v) % 64 == bg as int * 8 + fg as int
  {
  }

  /**
   * The top of the underline inside the glyph box: seven eighths of the glyph
   * height rounded to the nearest pixel (halves up), moved up one pixel when
   * that would put it on the box's bottom edge.
   */
  function UnderlineTop(height: int): (r: int)
    requires height >= 1
    ensures 0 <= r < height
    ensures var u := (7 * height + 4) / 8;
      8 * u <= 7 * height + 4 < 8 * u + 8 && r == (if u == height then u - 1 else u)
  {
    var u := (7 * height + 4) / 8;
    if u == height then u - 1 else u
  }

  /**
   * The thickness of the underline: a sixteenth of the glyph height rounded
   * to the nearest pixel (halves up), but at least one pixel.
   */
  function UnderlineThickness(height: int): (r: int)
    requires height >= 1
    ensures r >= 1
    ensures var u := (height + 8) / 16;
      16 * u <= height + 8 < 16 * u + 16 && r == (if u == 0 then 1 else u)
  {
    var u := (height + 8) / 16;
    if u == 0 then 1 else u
  }

  /** The underline ends inside the glyph box. */
  lemma UnderlineFitsGlyph(height: int)
    requires height >= 1
    ensures UnderlineTop(height) + UnderlineThickness(height) <= height
  {
  }

  /**
   * The second copy `drawGlyph` makes for an underlined cell that is drawn
   * (not blanked by blinking): the top pixel row of glyph 219 in the same
   * sheet row, stretched over a band near the bottom of the glyph box.
   */
  function Underline(value: bv32, blinkOn: bool, glyph: Size, x: int, y: int, m: FlagMasks): (r: Option<Blit>)
    requires glyph.width >= 1 && glyph.height >= 1
    ensures r.Some? <==> (blinkOn || value & m.blinking == 0) && value & m.underlined != 0
    ensures r.Some? ==>
      && r.value.source == Rect(UNDERLINE_GLYPH * glyph.width, ColorAttribute(value, m) * glyph.height, glyph.width, 1)
      && r.value.destination.x == x && r.value.destination.width == glyph.width
      && y <= r.value.destination.y && r.value.destination.height >= 1
  {
    if !blinkOn && value & m.blinking != 0 then None
    else if value & m.underlined == 0 then None
    else
      var top := UnderlineTop(glyph.height);
      Some(Blit(Rect(x, y + top, glyph.width, UnderlineThickness(glyph.height)),
                Rect(UNDERLINE_GLYPH * glyph.width, ColorAttribute(value, m) * glyph.height, glyph.width, 1)))
  }

  /**
   * The underline is drawn inside the glyph's screen box, from the top row
   * of glyph 219 in the glyph's own sheet row.
   */
  lemma UnderlineInsideGlyph(value: bv32, blinkOn: bool, glyph: Size, x: int, y: int, m: FlagMasks)
    requires glyph.width >= 1 && glyph.height >= 1
    ensures var u := Underline(value, blinkOn, glyph, x, y, m);
      var g := Glyph(value, blinkOn, glyph, x, y, m);
      u.Some? ==>
        && ContainsRect(g.destination, u.value.destination.x, u.value.destination.y,
                        u.value.destination.width, u.value.destination.height)
        && u.value.source.y == g.source.y
        && ContainsRect(Rect(0, 0, SHEET_GLYPH_COLUMNS * glyph.width, SHEET_GLYPH_ROWS * glyph.height),
                        u.value.source.x, u.value.source.y, u.value.source.width, u.value.source.height)
  {
    UnderlineFitsGlyph(glyph.height);
    Arith.CellInsideSpan(UNDERLINE_GLYPH, SHEET_GLYPH_COLUMNS, glyph.width);
    Arith.CellInsideSpan(ColorAttribute(value, m), SHEET_GLYPH_ROWS, glyph.height);
  }
}
