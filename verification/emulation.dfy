/**
 * The demo emulation: a cursor over the scrollback buffer that reacts to
 * the events of an escape-sequence lexer.  The emulator remembers the
 * highest line the cursor has ever reached (`maxLine`), the line of the last
 * page clear (`pageMark`, which the cursor may not move above), a saved
 * cursor position and the attributes given to new text.
 *
 * Each handler is a function from the emulator to the emulator; the ones
 * that write cells return a `Result` because the buffer call they make can
 * throw.  The handlers take their escape sequence as `(s, off, len)` and
 * read its parameters with `Scan`.
 */
module Emulation {
  import opened Outcomes
  import opened Cell
  import opened Geometry
  import opened Scrollback
  import opened Params

  datatype Emulator = Emulator(
    buffer: Buffer,
    columns: int,
    cursor: Point,
    cursorMark: Point,
    pageMark: int,
    maxLine: int,
    attributes: Attributes)

  /**
   * What holds between events when only the emulator drives the buffer:
   * the cursor lies between the page mark and the highest line, the saved
   * position is not below the highest line, and the buffer's window ends
   * exactly after the highest line.
   */
  predicate Inv(e: Emulator) {
    && Valid(e.buffer) && e.columns == e.buffer.columns
    && e.pageMark <= e.cursor.y <= e.maxLine
    && e.cursorMark.y <= e.maxLine
    && e.buffer.origin <= e.maxLine && e.buffer.Tail() == e.maxLine + 1
  }

  /** `r` is a later state of `e`: the highest line, the page mark and the window only move forward. */
  predicate Follows(e: Emulator, r: Emulator) {
    && e.maxLine <= r.maxLine && e.pageMark <= r.pageMark
    && r.columns == e.columns && e.buffer.origin <= r.buffer.origin
    && |r.buffer.store| == |e.buffer.store|
  }

  /** The parameter list of a handler's escape sequence. */
  predicate SliceOk(s: seq<CodeUnit>, off: int, len: int) {
    len <= 0 || (0 <= off && off + len <= |s|)
  }

  /** The word whose upper half carries the current attributes into `write`. */
  function AttributeWord(a: Attributes): Word {
    Encode(Cell(0, a))
  }

  // ----- Construction --------------------------------------------------------

  /**
   * The constructor, as written: the cursor goes to line
   * `extents.x + extents.height`, the buffer is advanced to it, and the page
   * mark, the highest line and the saved position all start there.  Since
   * `extents.x` is always 0, this is the bottom of the buffer only while the
   * window has not slid.
   */
  function Create(b: Buffer): (r: Result<Emulator>)
    requires Valid(b)
    ensures r.Err? <==> b.height < b.origin
    ensures r.Err? ==> r.error == IndexOutOfBounds
    ensures r.Ok? ==> r.value.cursor == r.value.cursorMark == Point(0, b.height)
                      && r.value.pageMark == r.value.maxLine == b.height
                      && r.value.attributes == DEFAULT_ATTRIBUTES
    ensures r.Ok? && b.origin == 0 ==> Inv(r.value) && r.value.cursor.y == b.Tail()
  {
    var extents := GetExtents(b);
    var line := extents.x + extents.height;
    if line < b.origin then Err(IndexOutOfBounds)
    else
      Ok(Emulator(Advance(b, line), extents.width, Point(0, line), Point(0, line),
                  line, line, DEFAULT_ATTRIBUTES))
  }

  /**
   * The constructor with the cursor placed on the line just after the
   * window, `extents.y + extents.height`: it never throws, and the emulator
   * starts on a fresh line with the buffer's retained rows untouched.
   */
  function CreateAtBottom(b: Buffer): (r: Emulator)
    requires Valid(b)
    ensures Inv(r)
    ensures r.cursor == r.cursorMark == Point(0, b.Tail())
    ensures r.pageMark == r.maxLine == b.Tail() && r.attributes == DEFAULT_ATTRIBUTES
    ensures r.buffer.origin >= b.origin && r.columns == b.columns
  {
    var extents := GetExtents(b);
    var line := extents.y + extents.height;
    Emulator(Advance(b, line), extents.width, Point(0, line), Point(0, line),
             line, line, DEFAULT_ATTRIBUTES)
  }

  /** Before the window first slides, the constructor as written is the corrected one. */
  lemma CreateAgreesBeforeSlide(b: Buffer)
    requires Valid(b) && b.origin == 0
    ensures Create(b) == Ok(CreateAtBottom(b))
  {
  }

  /** Once the window has slid past one full store, the constructor throws. */
  lemma CreateThrowsAfterLongSlide(b: Buffer)
    requires Valid(b) && b.origin > |b.store|
    ensures Create(b) == Err(IndexOutOfBounds)
  {
  }

  /**
   * After a shorter slide the constructor succeeds but the cursor lands on a
   * line already inside the window, and the window no longer ends after the
   * highest line.
   */
  lemma CreateMissesBottomAfterSlide(b: Buffer)
    requires Valid(b) && 1 < b.origin <= |b.store|
    ensures Create(b).Ok?
    ensures var e := Create(b).value;
      && e.cursor.y < b.Tail() && e.buffer == b && !Inv(e)
  {
  }

  // ----- Cursor movement -------------------------------------------------------

  /** The step of a relative move: 1 without parameters, `n` with one, none with more. */
  function Steps(p: seq<nat>): nat {
    if |p| == 0 then 1 else if |p| == 1 then p[0] else 0
  }

  /**
   * The position `cursorPosition` asks for before clamping: the parameters
   * are row then column, both 1-based and relative to the page mark.
   */
  function Requested(e: Emulator, p: seq<nat>): Point {
    if |p| == 0 then Point(0, e.pageMark)
    else if |p| == 1 then Point(0, e.pageMark + p[0] - 1)
    else if |p| == 2 then Point(p[1] as int - 1, e.pageMark + p[0] - 1)
    else e.cursor
  }

  /**
   * Moves the cursor down to line `y` at column `x`; a line past the
   * highest one advances the buffer to it and becomes the highest line.
   */
  function MoveTo(e: Emulator, x: int, y: int): (r: Emulator)
    requires Inv(e) && e.pageMark <= y
    ensures Inv(r) && Follows(e, r) && r.cursor == Point(x, y)
    ensures r.maxLine == Max(e.maxLine, y) && r.pageMark == e.pageMark
    ensures r.cursorMark == e.cursorMark && r.attributes == e.attributes
    ensures y <= e.maxLine ==> r.buffer == e.buffer
  {
    if y > e.maxLine then e.(buffer := Advance(e.buffer, y), cursor := Point(x, y), maxLine := y)
    else e.(cursor := Point(x, y))
  }

  /**
   * `cursorPosition` with the lowest allowed line `floor` (the page mark in
   * the source): the requested column is clamped into `[0, columns - 1]`
   * (in that order, so a zero-width buffer gives -1) and the line is raised
   * to `floor`.
   */
  function PositionWithFloor(e: Emulator, p: seq<nat>, floor: int): (r: Emulator)
    requires Inv(e) && e.pageMark <= floor
    ensures Inv(r) && Follows(e, r)
    ensures var q := Requested(e, p);
      r.cursor == Point(Min(Max(q.x, 0), e.columns - 1), Max(q.y, floor))
    ensures r.maxLine == Max(e.maxLine, r.cursor.y) && r.pageMark == e.pageMark
    ensures r.cursorMark == e.cursorMark && r.attributes == e.attributes
  {
    var q := Requested(e, p);
    var x := if q.x < 0 then 0 else q.x;
    var x' := if x >= e.columns then e.columns - 1 else x;
    var y := if q.y < floor then floor else q.y;
    MoveTo(e, x', y)
  }

  /** `cursorPosition(seq, off, len)`, as written. */
  function CursorPosition(e: Emulator, s: seq<CodeUnit>, off: int, len: int): (r: Emulator)
    requires Inv(e) && SliceOk(s, off, len)
    ensures Inv(r) && Follows(e, r)
  {
    PositionWithFloor(e, Scan(s, off, len), e.pageMark)
  }

  /** With a non-empty row the clamped position lies on the page and inside the row. */
  lemma PositionInRange(e: Emulator, p: seq<nat>)
    requires Inv(e) && e.columns > 0
    ensures var r := PositionWithFloor(e, p, e.pageMark);
      0 <= r.cursor.x < e.columns && e.pageMark <= r.cursor.y
  {
  }

  /** The documented cases of `cursorPosition`, on a position that needs no clamping. */
  lemma PositionCases(e: Emulator, p: seq<nat>)
    requires Inv(e)
    ensures var r := PositionWithFloor(e, p, e.pageMark);
      && (|p| == 0 ==> e.columns > 0 ==> r.cursor == Point(0, e.pageMark))
      && (|p| == 1 && p[0] >= 1 && e.columns > 0 ==> r.cursor == Point(0, e.pageMark + p[0] - 1))
      && (|p| == 2 && p[0] >= 1 && 1 <= p[1] <= e.columns ==>
            r.cursor == Point(p[1] as int - 1, e.pageMark + p[0] - 1))
      && (|p| > 2 && 0 <= e.cursor.x < e.columns ==> r.cursor == e.cursor)
  {
  }

  /** `cursorUp` with the lowest allowed line `floor`. */
  function UpWithFloor(e: Emulator, p: seq<nat>, floor: int): (r: Emulator)
    requires Inv(e) && e.pageMark <= floor <= e.maxLine
    ensures Inv(r) && r == e.(cursor := r.cursor)
    ensures r.cursor == Point(e.cursor.x, Max(e.cursor.y - Steps(p), floor))
  {
    var y := e.cursor.y - Steps(p);
    e.(cursor := Point(e.cursor.x, if y < floor then floor else y))
  }

  /** `cursorUp(seq, off, len)`, as written: never above the page mark. */
  function CursorUp(e: Emulator, s: seq<CodeUnit>, off: int, len: int): (r: Emulator)
    requires Inv(e) && SliceOk(s, off, len)
    ensures Inv(r) && r == e.(cursor := r.cursor) && r.cursor.x == e.cursor.x
  {
    UpWithFloor(e, Scan(s, off, len), e.pageMark)
  }

  /**
   * `cursorDown`: no cap; moving past the highest line advances the buffer
   * and raises the highest line.
   */
  function Down(e: Emulator, p: seq<nat>): (r: Emulator)
    requires Inv(e)
    ensures Inv(r) && Follows(e, r)
    ensures r.cursor == Point(e.cursor.x, e.cursor.y + Steps(p))
    ensures r.maxLine == Max(e.maxLine, r.cursor.y) && r.pageMark == e.pageMark
    ensures r.cursorMark == e.cursorMark && r.attributes == e.attributes
  {
    MoveTo(e, e.cursor.x, e.cursor.y + Steps(p))
  }

  function CursorDown(e: Emulator, s: seq<CodeUnit>, off: int, len: int): (r: Emulator)
    requires Inv(e) && SliceOk(s, off, len)
    ensures Inv(r) && Follows(e, r) && r.cursor.x == e.cursor.x && r.cursor.y >= e.cursor.y
  {
    Down(e, Scan(s, off, len))
  }

  /** Moving up undoes moving down by the same parameters. */
  lemma UpUndoesDown(e: Emulator, p: seq<nat>)
    requires Inv(e)
    ensures UpWithFloor(Down(e, p), p, e.pageMark).cursor == e.cursor
  {
  }

  /** `cursorRight`: capped at the last column. */
  function Right(e: Emulator, p: seq<nat>): (r: Emulator)
    requires Inv(e)
    ensures Inv(r) && r == e.(cursor := r.cursor)
    ensures r.cursor == Point(Min(e.cursor.x + Steps(p), e.columns - 1), e.cursor.y)
  {
    var x := e.cursor.x + Steps(p);
    e.(cursor := Point(if x >= e.columns then e.columns - 1 else x, e.cursor.y))
  }

  function CursorRight(e: Emulator, s: seq<CodeUnit>, off: int, len: int): (r: Emulator)
    requires Inv(e) && SliceOk(s, off, len)
    ensures Inv(r) && r == e.(cursor := r.cursor) && r.cursor.y == e.cursor.y
  {
    Right(e, Scan(s, off, len))
  }

  /** `cursorLeft`: floored at column 0. */
  function Left(e: Emulator, p: seq<nat>): (r: Emulator)
    requires Inv(e)
    ensures Inv(r) && r == e.(cursor := r.cursor)
    ensures r.cursor == Point(Max(e.cursor.x - Steps(p), 0), e.cursor.y)
  {
    var x := e.cursor.x - Steps(p);
    e.(cursor := Point(if x < 0 then 0 else x, e.cursor.y))
  }

  function CursorLeft(e: Emulator, s: seq<CodeUnit>, off: int, len: int): (r: Emulator)
    requires Inv(e) && SliceOk(s, off, len)
    ensures Inv(r) && r == e.(cursor := r.cursor) && r.cursor.y == e.cursor.y
  {
    Left(e, Scan(s, off, len))
  }

  /** Moving left undoes moving right when the right move was not capped. */
  lemma LeftUndoesRight(e: Emulator, p: seq<nat>)
    requires Inv(e) && 0 <= e.cursor.x && e.cursor.x + Steps(p) < e.columns
    ensures Left(Right(e, p), p).cursor == e.cursor
  {
  }

  /** `saveCursor`. */
  function SaveCursor(e: Emulator): (r: Emulator)
    requires Inv(e)
    ensures Inv(r) && r == e.(cursorMark := r.cursorMark) && r.cursorMark == e.cursor
  {
    e.(cursorMark := e.cursor)
  }

  /** `restoreCursor` with the lowest allowed line `floor`: a mark above it is ignored. */
  function RestoreWithFloor(e: Emulator, floor: int): (r: Emulator)
    requires Inv(e) && e.pageMark <= floor
    ensures Inv(r) && r == e.(cursor := r.cursor)
    ensures r.cursor == if e.cursorMark.y < floor then e.cursor else e.cursorMark
  {
    if e.cursorMark.y < floor then e else e.(cursor := e.cursorMark)
  }

  /** `restoreCursor`, as written: a mark above the page mark is ignored. */
  function RestoreCursor(e: Emulator): (r: Emulator)
    requires Inv(e)
    ensures Inv(r) && r == e.(cursor := r.cursor)
  {
    RestoreWithFloor(e, e.pageMark)
  }

  /** Restoring right after saving changes nothing but the mark. */
  lemma RestoreAfterSave(e: Emulator)
    requires Inv(e)
    ensures RestoreCursor(SaveCursor(e)) == SaveCursor(e)
  {
  }

  // ----- Page and line ---------------------------------------------------------

  /**
   * `clearScreen`: clears nothing; it opens a new line below everything,
   * which becomes the page mark, and puts the cursor at its start.
   */
  function ClearScreen(e: Emulator): (r: Emulator)
    requires Inv(e)
    ensures Inv(r) && Follows(e, r)
    ensures r.maxLine == e.maxLine + 1 && r.pageMark == r.maxLine && r.cursor == Point(0, r.maxLine)
    ensures r.cursorMark == e.cursorMark && r.attributes == e.attributes
    ensures forall q :: r.buffer.origin <= q <= e.maxLine ==>
              r.buffer.store[q % |e.buffer.store|] == e.buffer.store[q % |e.buffer.store|]
  {
    var line := e.maxLine + 1;
    AdvanceKeepsRetainedRows(e.buffer, line);
    e.(buffer := Advance(e.buffer, line), pageMark := line, cursor := Point(0, line), maxLine := line)
  }

  /** A position saved before a page clear can no longer be restored. */
  lemma ClearScreenVoidsMark(e: Emulator)
    requires Inv(e)
    ensures var c := ClearScreen(SaveCursor(e));
      RestoreCursor(c) == c
  {
  }

  /**
   * `clearLine`: fills the line from the cursor to the last column with the
   * blank value.  A cursor column beyond `columns` makes the fill array's
   * length negative; a cursor line before the window makes the buffer
   * throw.
   */
  function ClearLine(e: Emulator): (r: Result<Emulator>)
    requires Inv(e)
    ensures r.Err? <==> e.cursor.x > e.columns || e.cursor.y < e.buffer.origin
    ensures r.Err? ==> r.error == if e.cursor.x > e.columns then NegativeArraySize else IndexOutOfBounds
    ensures r.Ok? ==> Inv(r.value) && Follows(e, r.value) && r.value == e.(buffer := r.value.buffer)
    ensures r.Ok? ==> var b, y := r.value.buffer, e.cursor.y;
      && b.origin == e.buffer.origin && b.height == e.buffer.height
      && forall i, c :: 0 <= i < |b.store| && 0 <= c < b.columns ==>
           b.store[i][c] == if i == Slot(e.buffer, y) && Max(e.cursor.x, 0) <= c
                            then DEFAULT_VALUE else e.buffer.store[i][c]
  {
    var n := e.columns - e.cursor.x;
    if n < 0 then Err(NegativeArraySize)
    else
      match SetRun(e.buffer, e.cursor.x, e.cursor.y, Fill(n, DEFAULT_VALUE), 0, n)
      case Err(error) => Err(error)
      case Ok(b) => Ok(e.(buffer := b))
  }

  /**
   * `lineFeed`: down one line; from the highest line it opens a new line,
   * advancing the buffer.
   */
  function LineFeed(e: Emulator): (r: Emulator)
    requires Inv(e)
    ensures Inv(r) && Follows(e, r)
    ensures r.cursor == Point(e.cursor.x, e.cursor.y + 1)
    ensures r.maxLine == Max(e.maxLine, e.cursor.y + 1) && r.pageMark == e.pageMark
  {
    var e' := e.(cursor := Point(e.cursor.x, e.cursor.y + 1));
    if e'.cursor.y > e.maxLine then
      var line := e.maxLine + 1;
      e'.(buffer := Advance(e.buffer, line), maxLine := line)
    else e'
  }

  /** `carriageReturn`. */
  function CarriageReturn(e: Emulator): (r: Emulator)
    requires Inv(e)
    ensures Inv(r) && r == e.(cursor := Point(0, e.cursor.y))
  {
    e.(cursor := Point(0, e.cursor.y))
  }

  /** `backspace`: one column left, floored at 0. */
  function Backspace(e: Emulator): (r: Emulator)
    requires Inv(e)
    ensures Inv(r) && r == e.(cursor := r.cursor)
    ensures r.cursor == Point(Max(e.cursor.x - 1, 0), e.cursor.y)
  {
    var x := e.cursor.x - 1;
    e.(cursor := Point(if x < 0 then 0 else x, e.cursor.y))
  }

  /** Java's `%`, whose result takes the sign of the dividend. */
  function JavaRem(x: int, n: int): int
    requires n > 0
  {
    if x >= 0 then x % n else -((-x) % n)
  }

  /** `tab`: to the next multiple of 4, capped at the last column. */
  function Tab(e: Emulator): (r: Emulator)
    requires Inv(e)
    ensures Inv(r) && r == e.(cursor := r.cursor) && r.cursor.y == e.cursor.y
    ensures e.cursor.x >= 0 ==> r.cursor.x == Min((e.cursor.x / 4 + 1) * 4, e.columns - 1)
  {
    var x := e.cursor.x + 4 - JavaRem(e.cursor.x, 4);
    e.(cursor := Point(if x >= e.columns then e.columns - 1 else x, e.cursor.y))
  }

  /** `(x / 4 + 1) * 4` is the smallest multiple of 4 strictly after `x`. */
  lemma NextTabStop(x: int)
    requires x >= 0
    ensures var t := (x / 4 + 1) * 4;
      t % 4 == 0 && x < t && t - 4 <= x
  {
  }

  /** `bell`: nothing the model can observe. */
  function Ignore(e: Emulator): (r: Emulator)
    requires Inv(e)
    ensures Inv(r) && r == e
  {
    e
  }

  /**
   * `unknownEscape(seq, off, len)`: only reports the escape, whose text
   * after the ESC is `seq.subSequence(off + 1, off + len)`; that call throws
   * when the range is reversed or leaves the text, which is the only effect
   * the model can observe.
   */
  function UnknownEscape(e: Emulator, s: seq<CodeUnit>, off: int, len: int): (r: Result<Emulator>)
    requires Inv(e)
    ensures r.Err? <==> off + 1 < 0 || off + len > |s| || len < 1
    ensures r.Err? ==> r.error == IndexOutOfBounds
    ensures r.Ok? ==> r.value == e
  {
    var begin, end := off + 1, off + len;
    if begin < 0 || end > |s| || begin > end then Err(IndexOutOfBounds) else Ok(e)
  }

  // ----- Attributes -----------------------------------------------------------

  /** One parameter of `setAttributes`; an unrecognised code changes nothing. */
  function ApplyAttribute(a: Attributes, p: nat): Attributes {
    if p == 0 then DEFAULT_ATTRIBUTES
    else if p == 1 then a.(bright := true)
    else if p == 2 then a.(bright := false)
    else if p == 4 then a.(underlined := true)
    else if p == 5 then a.(blinking := true)
    else if p == 7 then a.(inverted := true)
    else if 30 <= p <= 37 then a.(fg := (p - 30) as bv32)
    else if 40 <= p <= 47 then a.(bg := (p - 40) as bv32)
    else a
  }

  /** The parameters of `setAttributes`, applied left to right. */
  function ApplyAll(a: Attributes, p: seq<nat>): Attributes
    decreases |p|
  {
    if |p| == 0 then a else ApplyAll(ApplyAttribute(a, p[0]), p[1..])
  }

  /** Applying two lists in turn is applying their concatenation. */
  lemma {:induction false} ApplyAllConcat(a: Attributes, p: seq<nat>, q: seq<nat>)
    ensures ApplyAll(a, p + q) == ApplyAll(ApplyAll(a, p), q)
    decreases |p|
  {
    if |p| > 0 {
      assert (p + q)[1..] == p[1..] + q;
      ApplyAllConcat(ApplyAttribute(a, p[0]), p[1..], q);
    } else {
      assert p + q == q;
    }
  }

  /** A reset parameter makes everything before it irrelevant. */
  lemma ResetForgets(a: Attributes, p: seq<nat>, q: seq<nat>)
    ensures ApplyAll(a, p + [0] + q) == ApplyAll(DEFAULT_ATTRIBUTES, q)
  {
    ApplyAllConcat(a, p + [0], q);
    ApplyAllConcat(a, p, [0]);
    assert [0][1..] == [];
  }

  /** No parameter turns the selected flag on. */
  lemma {:induction false} ApplyAllNeverSelects(a: Attributes, p: seq<nat>)
    requires !a.selected
    ensures !ApplyAll(a, p).selected
    decreases |p|
  {
    if |p| > 0 {
      ApplyAllNeverSelects(ApplyAttribute(a, p[0]), p[1..]);
    }
  }

  /** `setAttributes(seq, off, len)`. */
  function SetAttributes(e: Emulator, s: seq<CodeUnit>, off: int, len: int): (r: Emulator)
    requires Inv(e) && SliceOk(s, off, len)
    ensures Inv(r) && r == e.(attributes := r.attributes)
    ensures Scan(s, off, len) == [] ==> r == e
  {
    e.(attributes := ApplyAll(e.attributes, Scan(s, off, len)))
  }

  // ----- Text -------------------------------------------------------------------

  /**
   * `literalText(seq, off, len)`, as written: writes the text at the cursor
   * with the current attributes, then moves the cursor right by `len`,
   * wrapping to the start of the next line only when it lands exactly on
   * `columns`.
   */
  function LiteralText(e: Emulator, s: seq<CodeUnit>, off: int, len: int): (r: Result<Emulator>)
    requires Inv(e)
    ensures r.Err? <==> off < 0 || len < 0 || off + len > |s| || e.cursor.y < e.buffer.origin
    ensures r.Err? ==> r.error == if off < 0 || len < 0 || off + len > |s| then IllegalArgument
                                  else IndexOutOfBounds
    ensures r.Ok? ==> Inv(r.value) && Follows(e, r.value)
    ensures r.Ok? ==> r.value.cursor == if e.cursor.x + len == e.columns then Point(0, e.cursor.y + 1)
                                        else Point(e.cursor.x + len, e.cursor.y)
  {
    match Write(e.buffer, e.cursor.x, e.cursor.y, s, off, len, AttributeWord(e.attributes))
    case Err(error) => Err(error)
    case Ok(b) =>
      var x := e.cursor.x + len;
      if x == e.columns then Ok(LineFeed(e.(buffer := b, cursor := Point(0, e.cursor.y))))
      else Ok(e.(buffer := b, cursor := Point(x, e.cursor.y)))
  }

  /**
   * `literalText` with the wrap the cursor needs: whenever the cursor ends
   * at or past `columns` it moves to the start of the next line (the text
   * past the last column is clipped by the buffer either way).
   */
  function LiteralTextWrapped(e: Emulator, s: seq<CodeUnit>, off: int, len: int): (r: Result<Emulator>)
    requires Inv(e)
    ensures r.Err? <==> off < 0 || len < 0 || off + len > |s| || e.cursor.y < e.buffer.origin
    ensures r.Ok? ==> Inv(r.value) && Follows(e, r.value)
    ensures r.Ok? && 0 <= e.cursor.x ==> 0 <= r.value.cursor.x && (r.value.cursor.x < e.columns || e.columns == 0)
  {
    match Write(e.buffer, e.cursor.x, e.cursor.y, s, off, len, AttributeWord(e.attributes))
    case Err(error) => Err(error)
    case Ok(b) =>
      var x := e.cursor.x + len;
      if x >= e.columns then Ok(LineFeed(e.(buffer := b, cursor := Point(0, e.cursor.y))))
      else Ok(e.(buffer := b, cursor := Point(x, e.cursor.y)))
  }

  /**
   * Each column the text reaches on the cursor line decodes to the text's
   * character with the current attributes, also after a wrap that scrolls
   * the buffer, as long as the store keeps at least two rows (with one row,
   * the wrap's advance discards the line just written).
   */
  lemma LiteralTextStores(e: Emulator, s: seq<CodeUnit>, off: int, len: int, c: int)
    requires Inv(e) && LiteralText(e, s, off, len).Ok?
    requires e.cursor.x + len != e.columns || |e.buffer.store| >= 2
    requires Max(e.cursor.x, 0) <= c < Min(e.cursor.x + len, e.columns)
    ensures var r := LiteralText(e, s, off, len).value;
      GetCell(r.buffer, c, e.cursor.y).Ok?
      && Decode(GetCell(r.buffer, c, e.cursor.y).value) == Cell(s[off + (c - e.cursor.x)], e.attributes)
  {
    var word := AttributeWord(e.attributes);
    var y := e.cursor.y;
    var b := Write(e.buffer, e.cursor.x, y, s, off, len, word).value;
    WriteReadBack(e.buffer, e.cursor.x, y, s, off, len, word, c);
    LiteralTextReadsWritten(e, s, off, len, c);
    StampedWordDecodes(GetCell(b, c, y).value, e.attributes, s[off + (c - e.cursor.x)]);
  }

  /** On the cursor line, the buffer after `literalText` reads what its write left there. */
  lemma LiteralTextReadsWritten(e: Emulator, s: seq<CodeUnit>, off: int, len: int, c: int)
    requires Inv(e) && LiteralText(e, s, off, len).Ok?
    requires e.cursor.x + len != e.columns || |e.buffer.store| >= 2
    requires 0 <= c < e.columns
    ensures GetCell(LiteralText(e, s, off, len).value.buffer, c, e.cursor.y)
         == GetCell(Write(e.buffer, e.cursor.x, e.cursor.y, s, off, len, AttributeWord(e.attributes)).value,
                    c, e.cursor.y)
  {
    var word := AttributeWord(e.attributes);
    var y := e.cursor.y;
    var b := Write(e.buffer, e.cursor.x, y, s, off, len, word).value;
    if e.cursor.x + len == e.columns {
      WriteEvents(e.buffer, e.cursor.x, y, s, off, len, word);
      assert Advance(e.buffer, y) == e.buffer;
      WrapKeepsCursorLine(e, b, c);
    }
  }

  /**
   * The line feed of a wrap keeps the cursor line readable when the store
   * has at least two rows: the advance it may make drops at most the rows
   * before that line.
   */
  lemma WrapKeepsCursorLine(e: Emulator, b: Buffer, c: int)
    requires Inv(e) && Valid(b) && |b.store| >= 2 && |b.store| == |e.buffer.store| && b.columns == e.columns
    requires b.origin == e.buffer.origin && b.height == e.buffer.height
    requires 0 <= c < b.columns && b.origin <= e.cursor.y
    ensures var r := LineFeed(e.(buffer := b, cursor := Point(0, e.cursor.y)));
      GetCell(r.buffer, c, e.cursor.y) == GetCell(b, c, e.cursor.y)
  {
    var y := e.cursor.y;
    if y == e.maxLine {
      var a := Advance(b, e.maxLine + 1);
      assert a.origin <= y by {
        assert a.Tail() == e.maxLine + 2 && a.height == Min(e.maxLine + 2, |b.store|);
      }
      ReadSurvivesAdvance(b, e.maxLine + 1, c, y);
    }
  }


  /** A word with the upper half of the attribute word and a character decodes to both. */
  lemma StampedWordDecodes(w: Word, a: Attributes, ch: CodeUnit)
    requires w & ATTRIBUTE_MASK == AttributeWord(a) & ATTRIBUTE_MASK && CharOf(w) == ch
    ensures Decode(w) == Cell(ch, a)
  {
    AttributesInUpperHalf(w, AttributeWord(a));
    DecodeEncode(Cell(0, a));
  }

  /**
   * Text that runs past the end of the line without landing exactly on
   * `columns` leaves the cursor past the last column, and the next
   * `clearLine` then throws `NegativeArraySizeException`.
   */
  lemma OvershootBreaksClearLine(e: Emulator, s: seq<CodeUnit>, off: int, len: int)
    requires Inv(e) && 0 <= e.cursor.x < e.columns && e.buffer.origin <= e.cursor.y
    requires 0 <= off && off + len <= |s| && e.cursor.x + len > e.columns
    ensures LiteralText(e, s, off, len).Ok?
    ensures var r := LiteralText(e, s, off, len).value;
      r.cursor.x > r.columns && ClearLine(r) == Err(NegativeArraySize)
  {
  }

  /** With the wrap, the same text leaves the cursor at the start of the next line. */
  lemma WrappedTextKeepsClearLine(e: Emulator, s: seq<CodeUnit>, off: int, len: int)
    requires Inv(e) && 0 <= e.cursor.x < e.columns && e.buffer.origin <= e.cursor.y
    requires 0 <= off && 0 <= len && off + len <= |s|
    ensures LiteralTextWrapped(e, s, off, len).Ok?
    ensures var r := LiteralTextWrapped(e, s, off, len).value;
      0 <= r.cursor.x < r.columns && ClearLine(r).Ok?
  {
  }
}
