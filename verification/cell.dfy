/**
 * The packed VGA cell value: a 32-bit word (the bit pattern of a Java `int`)
 * whose low 16 bits hold a UTF-16 code unit and whose upper 16 bits hold the
 * attributes.
 *
 * The colour attribute occupies bits 16..22: foreground in bits 16..18,
 * background in bits 19..21 and "bright" in bit 22, so that the seven bits
 * are exactly the glyph-sheet row of the soft font.  The four flags follow
 * in bits 23..26.  The flag positions are a choice of this model; the
 * soft font is stated for any flag masks.
 */
module Cell {

  type Word = bv32

  /** A UTF-16 code unit, as held by a Java `char`. */
  type CodeUnit = bv16

  /** One of the eight VGA colours (black, red, green, yellow, blue, magenta, cyan, white). */
  type Color = c: bv32 | c < 8

  const CHAR_MASK: Word := 0x0000_FFFF
  const ATTRIBUTE_MASK: Word := 0xFFFF_0000
  const COLOR_MASK: Word := 0x007F_0000
  const BRIGHT: Word := 0x0040_0000
  const UNDERLINED: Word := 0x0080_0000
  const BLINKING: Word := 0x0100_0000
  const INVERTED: Word := 0x0200_0000
  const SELECTED: Word := 0x0400_0000

  /** The attribute part of a cell, as an explicit record. */
  datatype Attributes = Attributes(
    fg: Color,
    bg: Color,
    bright: bool,
    underlined: bool,
    blinking: bool,
    inverted: bool,
    selected: bool)

  /** A decoded cell: the character code and its attributes. */
  datatype Cell = Cell(ch: CodeUnit, attributes: Attributes)

  /** Light grey on black with no flag set: the attributes of a blank cell. */
  const DEFAULT_ATTRIBUTES: Attributes := Attributes(7, 0, false, false, false, false, false)

  /** The blank cell: character 0 with the default attributes. */
  const DEFAULT_VALUE: Word := 0x0007_0000

  function FlagBits(on: bool, mask: Word): Word { if on then mask else 0 }

  /** Packs a character and its attributes into a word. */
  function Encode(c: Cell): Word {
    var a := c.attributes;
    (c.ch as bv32) | (a.fg << 16) | (a.bg << 19)
    | FlagBits(a.bright, BRIGHT) | FlagBits(a.underlined, UNDERLINED)
    | FlagBits(a.blinking, BLINKING) | FlagBits(a.inverted, INVERTED)
    | FlagBits(a.selected, SELECTED)
  }

  function CharOf(w: Word): CodeUnit { (w & CHAR_MASK) as bv16 }
  function ForegroundOf(w: Word): Color { (w >> 16) & 7 }
  function BackgroundOf(w: Word): Color { (w >> 19) & 7 }

  /** The seven-bit colour attribute of a word, `bright * 64 + background * 8 + foreground`. */
  function ColorAttributeOf(w: Word): Word { (w & COLOR_MASK) >> 16 }

  /** Unpacks a word; bits 27..31 are ignored. */
  function Decode(w: Word): Cell {
    Cell(CharOf(w),
         Attributes(ForegroundOf(w), BackgroundOf(w), w & BRIGHT != 0,
                    w & UNDERLINED != 0, w & BLINKING != 0,
                    w & INVERTED != 0, w & SELECTED != 0))
  }

  lemma DecodeEncode(c: Cell)
    ensures Decode(Encode(c)) == c
  {
  }

  /** The colour attribute of an encoded cell is its glyph-sheet row. */
  lemma ColorAttributeOfEncode(c: Cell)
    ensures ColorAttributeOf(Encode(c))
         == (if c.attributes.bright then 64 else 0) + c.attributes.bg * 8 + c.attributes.fg
  {
  }

  /** The blank value is the encoding of character 0 with default attributes. */
  lemma DefaultValueIsBlank()
    ensures Encode(Cell(0, DEFAULT_ATTRIBUTES)) == DEFAULT_VALUE
    ensures Decode(DEFAULT_VALUE) == Cell(0, DEFAULT_ATTRIBUTES)
  {
  }

  /** Sets or clears the selected flag of a word, leaving every other bit alone. */
  function SetSelected(w: Word, on: bool): (r: Word)
    ensures r & !SELECTED == w & !SELECTED
    ensures (r & SELECTED != 0) == on
  {
    if on then w | SELECTED else w & !SELECTED
  }

  /** Only the selected field of the decoded cell changes. */
  lemma DecodeSetSelected(w: Word, on: bool)
    ensures Decode(SetSelected(w, on))
         == Decode(w).(attributes := Decode(w).attributes.(selected := on))
  {
    var r := SetSelected(w, on);
    assert CharOf(r) == CharOf(w);
    assert ForegroundOf(r) == ForegroundOf(w);
    assert BackgroundOf(r) == BackgroundOf(w);
  }

  /** The attributes of a word live in its upper half only. */
  lemma AttributesInUpperHalf(w: Word, v: Word)
    requires w & ATTRIBUTE_MASK == v & ATTRIBUTE_MASK
    ensures Decode(w).attributes == Decode(v).attributes
  {
    assert ForegroundOf(w) == ForegroundOf(v) by {
      assert (w >> 16) & 7 == ((w & ATTRIBUTE_MASK) >> 16) & 7;
      assert (v >> 16) & 7 == ((v & ATTRIBUTE_MASK) >> 16) & 7;
    }
    assert BackgroundOf(w) == BackgroundOf(v) by {
      assert (w >> 19) & 7 == ((w & ATTRIBUTE_MASK) >> 19) & 7;
      assert (v >> 19) & 7 == ((v & ATTRIBUTE_MASK) >> 19) & 7;
    }
    assert w & BRIGHT == (w & ATTRIBUTE_MASK) & BRIGHT;
    assert v & BRIGHT == (v & ATTRIBUTE_MASK) & BRIGHT;
    assert w & UNDERLINED == (w & ATTRIBUTE_MASK) & UNDERLINED;
    assert v & UNDERLINED == (v & ATTRIBUTE_MASK) & UNDERLINED;
    assert w & BLINKING == (w & ATTRIBUTE_MASK) & BLINKING;
    assert v & BLINKING == (v & ATTRIBUTE_MASK) & BLINKING;
    assert w & INVERTED == (w & ATTRIBUTE_MASK) & INVERTED;
    assert v & INVERTED == (v & ATTRIBUTE_MASK) & INVERTED;
    assert w & SELECTED == (w & ATTRIBUTE_MASK) & SELECTED;
    assert v & SELECTED == (v & ATTRIBUTE_MASK) & SELECTED;
  }
}
