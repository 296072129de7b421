/**
 * The lexer's events delivered to the emulation one after another.  `Step`
 * dispatches to the handlers as the source has them; `StepFixed` uses the
 * corrected `literalText` wrap and never lets the cursor above the buffer's
 * window, and with those two changes no event sequence makes a handler
 * throw.
 */
module Session {
  import opened Outcomes
  import opened Cell
  import opened Geometry
  import opened Scrollback
  import opened Params
  import opened Emulation

  /** One lexer event with the characters it matched. */
  datatype Event =
    | CursorPositionEvent(text: seq<CodeUnit>)
    | CursorUpEvent(text: seq<CodeUnit>)
    | CursorDownEvent(text: seq<CodeUnit>)
    | CursorRightEvent(text: seq<CodeUnit>)
    | CursorLeftEvent(text: seq<CodeUnit>)
    | SaveCursorEvent
    | RestoreCursorEvent
    | ClearScreenEvent
    | ClearLineEvent
    | SetAttributesEvent(text: seq<CodeUnit>)
    | UnknownEscapeEvent(text: seq<CodeUnit>)
    | LineFeedEvent
    | CarriageReturnEvent
    | BackspaceEvent
    | TabEvent
    | BellEvent
    | LiteralTextEvent(text: seq<CodeUnit>)

  /** The handler the source calls for an event, over the event's whole text. */
  function Step(e: Emulator, ev: Event): (r: Result<Emulator>)
    requires Inv(e)
    ensures r.Ok? ==> Inv(r.value) && Follows(e, r.value)
    ensures ev == UnknownEscapeEvent([]) ==> r == Err(IndexOutOfBounds)
  {
    match ev
    case CursorPositionEvent(t) => Ok(CursorPosition(e, t, 0, |t|))
    case CursorUpEvent(t) => Ok(CursorUp(e, t, 0, |t|))
    case CursorDownEvent(t) => Ok(CursorDown(e, t, 0, |t|))
    case CursorRightEvent(t) => Ok(CursorRight(e, t, 0, |t|))
    case CursorLeftEvent(t) => Ok(CursorLeft(e, t, 0, |t|))
    case SaveCursorEvent => Ok(SaveCursor(e))
    case RestoreCursorEvent => Ok(RestoreCursor(e))
    case ClearScreenEvent => Ok(ClearScreen(e))
    case ClearLineEvent => ClearLine(e)
    case SetAttributesEvent(t) => Ok(SetAttributes(e, t, 0, |t|))
    case UnknownEscapeEvent(t) => UnknownEscape(e, t, 0, |t|)
    case LineFeedEvent => Ok(LineFeed(e))
    case CarriageReturnEvent => Ok(CarriageReturn(e))
    case BackspaceEvent => Ok(Backspace(e))
    case TabEvent => Ok(Tab(e))
    case BellEvent => Ok(Ignore(e))
    case LiteralTextEvent(t) => LiteralText(e, t, 0, |t|)
  }

  /** The events in order, stopping at the first handler that throws. */
  function Run(e: Emulator, evs: seq<Event>): (r: Result<Emulator>)
    requires Inv(e)
    decreases |evs|
  {
    if |evs| == 0 then Ok(e)
    else
      match Step(e, evs[0])
      case Err(error) => Err(error)
      case Ok(e') => Run(e', evs[1..])
  }

  /**
   * Across any sequence of events the invariant holds, the highest line and
   * the page mark never decrease, and the window ends after the highest line.
   */
  lemma {:induction false} RunPreservesInv(e: Emulator, evs: seq<Event>)
    requires Inv(e)
    ensures Run(e, evs).Ok? ==> Inv(Run(e, evs).value) && Follows(e, Run(e, evs).value)
    decreases |evs|
  {
    if |evs| > 0 {
      var s := Step(e, evs[0]);
      if s.Ok? {
        RunPreservesInv(s.value, evs[1..]);
      }
    }
  }

  // ----- The corrected emulation -------------------------------------------

  /** The lowest line the cursor may take: the page mark, but never above the window. */
  function Floor(e: Emulator): (f: int)
    requires Inv(e)
    ensures e.pageMark <= f <= e.maxLine && e.buffer.origin <= f
  {
    Max(e.pageMark, e.buffer.origin)
  }

  /**
   * What the corrected handlers keep: a non-empty row, the cursor and the
   * saved column inside it, and the cursor line inside the window.
   */
  predicate InvFixed(e: Emulator) {
    && Inv(e) && e.columns > 0
    && 0 <= e.cursor.x < e.columns && e.buffer.origin <= e.cursor.y
    && 0 <= e.cursorMark.x < e.columns
  }

  /**
   * What the lexer guarantees of an event: an unknown escape's text holds
   * at least its ESC character.
   */
  predicate Lexed(ev: Event) {
    ev.UnknownEscapeEvent? ==> |ev.text| >= 1
  }

  /**
   * The handlers with both corrections applied; only an unknown escape
   * with no text at all, which the lexer never produces, throws.
   */
  function StepFixed(e: Emulator, ev: Event): (r: Result<Emulator>)
    requires InvFixed(e)
    ensures r.Ok? <==> Lexed(ev)
    ensures r.Err? ==> r.error == IndexOutOfBounds
    ensures r.Ok? ==> InvFixed(r.value) && Follows(e, r.value)
  {
    match ev
    case CursorPositionEvent(t) => Ok(PositionWithFloor(e, Scan(t, 0, |t|), Floor(e)))
    case CursorUpEvent(t) => Ok(UpWithFloor(e, Scan(t, 0, |t|), Floor(e)))
    case CursorDownEvent(t) => Ok(CursorDown(e, t, 0, |t|))
    case CursorRightEvent(t) => Ok(CursorRight(e, t, 0, |t|))
    case CursorLeftEvent(t) => Ok(CursorLeft(e, t, 0, |t|))
    case SaveCursorEvent => Ok(SaveCursor(e))
    case RestoreCursorEvent => Ok(RestoreWithFloor(e, Floor(e)))
    case ClearScreenEvent => Ok(ClearScreen(e))
    case ClearLineEvent => ClearLine(e)
    case SetAttributesEvent(t) => Ok(SetAttributes(e, t, 0, |t|))
    case UnknownEscapeEvent(t) => UnknownEscape(e, t, 0, |t|)
    case LineFeedEvent => Ok(LineFeed(e))
    case CarriageReturnEvent => Ok(CarriageReturn(e))
    case BackspaceEvent => Ok(Backspace(e))
    case TabEvent => Ok(Tab(e))
    case BellEvent => Ok(Ignore(e))
    case LiteralTextEvent(t) => LiteralTextWrapped(e, t, 0, |t|)
  }

  function RunFixed(e: Emulator, evs: seq<Event>): (r: Result<Emulator>)
    requires InvFixed(e)
    decreases |evs|
  {
    if |evs| == 0 then Ok(e)
    else
      match StepFixed(e, evs[0])
      case Err(error) => Err(error)
      case Ok(e') => RunFixed(e', evs[1..])
  }

  /** With the corrections, no sequence of lexer events makes a handler throw. */
  lemma {:induction false} RunFixedNeverThrows(e: Emulator, evs: seq<Event>)
    requires InvFixed(e) && forall i :: 0 <= i < |evs| ==> Lexed(evs[i])
    ensures RunFixed(e, evs).Ok? && InvFixed(RunFixed(e, evs).value)
    ensures Follows(e, RunFixed(e, evs).value)
    decreases |evs|
  {
    if |evs| > 0 {
      assert Lexed(evs[0]);
      RunFixedNeverThrows(StepFixed(e, evs[0]).value, evs[1..]);
    }
  }

  /** A corrected emulator on a buffer with at least one column starts in the fixed invariant. */
  lemma CreateAtBottomStartsFixed(b: Buffer)
    requires Valid(b) && b.columns > 0
    ensures InvFixed(CreateAtBottom(b))
  {
  }

  /**
   * As written, once the window has slid past the page mark, moving up far
   * enough puts the cursor above the window and the next text throws.
   */
  lemma CursorAboveWindowBreaksText(e: Emulator, t: seq<CodeUnit>, text: seq<CodeUnit>)
    requires Inv(e) && e.pageMark < e.buffer.origin
    requires Steps(Scan(t, 0, |t|)) >= e.cursor.y - e.pageMark
    ensures LiteralText(CursorUp(e, t, 0, |t|), text, 0, |text|) == Err(IndexOutOfBounds)
  {
  }
}
