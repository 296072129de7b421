# JTX core, modelled in Dafny

JTX is a Java terminal-display toolkit. This project models four parts of it:

- **`ScrollbackBuffer`** is a ring of `rows` arrays of `columns` cell values. Its *extents* are a window `(0, origin, columns, height)` over logical rows. Logical row `r` lives in physical row `r % rows`. `advance(row)` grows the window, then slides it forward and blanks the rows it exposes. Every change that completes fires a content or extents event to the observers, in list order; a block write that throws partway has changed rows but fires nothing.
- **`DemoEmulation`** is a cursor over the buffer that reacts to the events of an escape-sequence lexer. It moves, saves and restores the cursor, clears the screen or line, sets the attributes of new text and writes text. It reads each escape's numeric parameters with `scanParams`.
- **`SelectionControl`** turns a drag into a rectangle (`createRectangle`). `setSelection` clips the selection to the extents, sets the selected flag of every cell under it to the requested value and writes the block back.
- **`VgaSoftFont`** checks a glyph sheet's size. It also does the arithmetic that picks, for each cell value, the sheet rectangle (glyph column and colour row) copied to the screen, plus the underline band.

The files, one module each:

| file | module | contents |
|---|---|---|
| `outcomes.dfy` | `Outcomes` | the Java exceptions as `Error`, `Result`, `Option`, `Min`/`Max` |
| `cell.dfy` | `Cell` | the 32-bit cell value: character in bits 0-15, foreground 16-18, background 19-21, bright 22, underlined/blinking/inverted/selected flags 23-26 |
| `geometry.dfy` | `Geometry` | `java.awt.Rectangle`'s `isEmpty`, `contains`, `intersection` |
| `arith.dfy` | `Arith` | modular-arithmetic facts the ring buffer needs |
| `scrollback.dfy` | `Scrollback` | the buffer: `advance`, all reads and writes, observers, events |
| `params.dfy` | `Params` | `scanParams`: a reference definition and the Java loop, proved equal |
| `emulation.dfy` | `Emulation` | the emulator state and every handler |
| `session.dfy` | `Session` | event sequences, as written and with the corrections below |
| `selection.dfy` | `Selection` | `createRectangle` and `setSelection` |
| `softfont.dfy` | `SoftFont` | the size checks and the glyph, colour-row and underline arithmetic |

How the model is built:

- The buffer is an immutable datatype. Each Java method becomes a pure function from the old state to the new one.
- Events are appended to a `log` as a `Delivery(notice, recipients)`, with the recipients in the order they are called.
- A Java exception is an `Err`. A call that can throw after it has already changed the buffer returns `Partial(after, thrown)`, holding the state left behind and the exception.

Where a handler can break the emulator, the model keeps two versions side by side:

- the member as written, with a lemma that shows the failure;
- a corrected member, with the property proved about it.

`Session.StepFixed` uses only the corrected handlers. `Session.RunFixedNeverThrows` proves that with them no sequence of lexer events makes a handler throw, as long as every unknown escape carries at least its ESC character.

## Model

| member | source | states |
|---|---|---|
| Scrollback.Create | src/main/java/com/chalcodes/jtx/ScrollbackBuffer.java:28-32 | throws NegativeArraySize exactly when a dimension is negative; otherwise an empty window at row 0, no observers, every stored value 0 |
| Scrollback.Slide | src/main/java/com/chalcodes/jtx/ScrollbackBuffer.java:199-206 | a full store keeps its height, the origin moves by the number of new rows, and one extents event fires with the new extents |
| Scrollback.Grow | src/main/java/com/chalcodes/jtx/ScrollbackBuffer.java:207-210 | a store that is not full keeps its origin and store, the window ends just after `row`, and one extents event fires |
| Scrollback.Advance | src/main/java/com/chalcodes/jtx/ScrollbackBuffer.java:193-216 | a row inside the window changes nothing; otherwise the window ends just after `row` with height min(row + 1, rows); the origin never moves back; earlier events are kept |
| Scrollback.TryAdvance | src/main/java/com/chalcodes/jtx/ScrollbackBuffer.java:193-194 | throws IndexOutOfBounds exactly for a row before the origin |
| Scrollback.AdvanceWhenFull | src/main/java/com/chalcodes/jtx/ScrollbackBuffer.java:199-206 | when full: each newly exposed row is blank in every column, each row kept from the old window is untouched, one extents event |
| Scrollback.AdvanceWhenGrowing | src/main/java/com/chalcodes/jtx/ScrollbackBuffer.java:207-210 | when growing: origin kept, height grows by the new rows, the store is not written, one extents event |
| Scrollback.AdvanceWhenSplit | src/main/java/com/chalcodes/jtx/ScrollbackBuffer.java:211-215 | a jump past the store's end is a growth to the last physical row, then a slide; exactly two extents events; exposed rows are blank |
| Scrollback.AdvanceKeepsRetainedRows | src/main/java/com/chalcodes/jtx/ScrollbackBuffer.java:184-191 | every row in both the old and the new window keeps its contents |
| Scrollback.GrowthLeavesRowsUnfilled | src/main/java/com/chalcodes/jtx/ScrollbackBuffer.java:207-210 | a row exposed by growth reads whatever the store held there, not the blank value |
| Scrollback.GrowthExposesZero | src/main/java/com/chalcodes/jtx/ScrollbackBuffer.java:186-187 | on a fresh buffer the first row exposed by growth reads 0, which differs from the blank value |
| Scrollback.ReadSurvivesAdvance | src/main/java/com/chalcodes/jtx/ScrollbackBuffer.java:193-216 | a cell of a row still in the window after `advance` reads the same as before |
| Scrollback.ReadExposedRowIsBlank | src/main/java/com/chalcodes/jtx/ScrollbackBuffer.java:199-203 | after a full-store advance, each exposed cell reads the blank value |
| Scrollback.ContainsCell | src/main/java/com/chalcodes/jtx/ScrollbackBuffer.java:162-164 | true exactly for a column in range on a row of the window |
| Scrollback.AddObserver | src/main/java/com/chalcodes/jtx/ScrollbackBuffer.java:170-173 | null throws NullPointer; otherwise the observer is appended and nothing else changes |
| Scrollback.RemoveObserver | src/main/java/com/chalcodes/jtx/ScrollbackBuffer.java:180-182 | returns true exactly when the observer is listed; then exactly its first occurrence is removed and the rest keep their order |
| Scrollback.RemoveUndoesAdd | src/main/java/com/chalcodes/jtx/ScrollbackBuffer.java:170-182 | removing an observer just added (and not listed before) returns true and restores the buffer |
| Scrollback.GetCell | src/main/java/com/chalcodes/jtx/ScrollbackBuffer.java:35-38 | succeeds exactly for origin <= row <= tail (inclusive) and a column in range; returns the value in physical row `row % rows` |
| Scrollback.GetRunInto | src/main/java/com/chalcodes/jtx/ScrollbackBuffer.java:41-44 | the row check, then `len` cells copied to the front of `result`; the rest of `result` kept; every out-of-range copy throws |
| Scrollback.GetRun | src/main/java/com/chalcodes/jtx/ScrollbackBuffer.java:47-51 | a fresh array of the `len` cells from `column`; negative `len` throws NegativeArraySize |
| Scrollback.GetBlockInto | src/main/java/com/chalcodes/jtx/ScrollbackBuffer.java:54-58 | copies physical row `row + r` (no modulo, no window check) into `result[r]`, row by row; throws IndexOutOfBounds exactly when some copied row or column does not exist, and then the rows before the failing one are already filled and the rest of `result` is untouched |
| Scrollback.GetBlock | src/main/java/com/chalcodes/jtx/ScrollbackBuffer.java:61-65 | a fresh block whose cell (i, k) is physical row `row + i`, column `column + k`; the exact failure conditions |
| Scrollback.SetCell | src/main/java/com/chalcodes/jtx/ScrollbackBuffer.java:68-74 | a row before the origin throws with no change; a bad column throws after the advance; otherwise exactly one cell changes and one content event fires |
| Scrollback.ReadAfterSetCell | src/main/java/com/chalcodes/jtx/ScrollbackBuffer.java:68-74 | the cell written reads back as the value written |
| Scrollback.RunReadAgreesWithCells | src/main/java/com/chalcodes/jtx/ScrollbackBuffer.java:35-51 | a non-empty run read succeeds exactly when its first and last cells can be read one by one, and each cell of it equals the single-cell read |
| Scrollback.RunRoundTrip | src/main/java/com/chalcodes/jtx/ScrollbackBuffer.java:77-91 | a run written inside the columns reads back as the source range it was given |
| Scrollback.Clip | src/main/java/com/chalcodes/jtx/ScrollbackBuffer.java:80-87 | the clipped run starts at max(column, 0), its offset moves by the cut, and it ends at min(column + len, columns) |
| Scrollback.SetRun | src/main/java/com/chalcodes/jtx/ScrollbackBuffer.java:77-91 | a bad slice throws IllegalArgument; a row before the origin throws IndexOutOfBounds; otherwise only the clipped cells of the row change, and an event fires only when some cell is written |
| Scrollback.ReadAfterSetRun | src/main/java/com/chalcodes/jtx/ScrollbackBuffer.java:77-91 | each clipped cell reads back the source value written there |
| Scrollback.Stamp | src/main/java/com/chalcodes/jtx/ScrollbackBuffer.java:133-138 | each stamped value has the attributes' upper 16 bits and the character in the lower 16 |
| Scrollback.Write | src/main/java/com/chalcodes/jtx/ScrollbackBuffer.java:121-140 | a bad slice throws IllegalArgument and a row before the origin IndexOutOfBounds, as in the run write; otherwise a valid buffer of the same shape |
| Scrollback.WriteStores | src/main/java/com/chalcodes/jtx/ScrollbackBuffer.java:121-140 | each clipped cell gets the attributes' upper half and the text's character; every other cell keeps its advanced value |
| Scrollback.WriteEvents | src/main/java/com/chalcodes/jtx/ScrollbackBuffer.java:121-140 | the window moves as the advance to the row does; exactly one content event covering the clipped columns fires when some cell is written, none otherwise |
| Scrollback.WriteCell | src/main/java/com/chalcodes/jtx/ScrollbackBuffer.java:121-140 | one cell of a write: stamped with the attributes and character inside the clipped run, its advanced value elsewhere |
| Scrollback.WriteReadBack | src/main/java/com/chalcodes/jtx/ScrollbackBuffer.java:133-137 | a written cell reads back with the attributes' upper half and the character |
| Scrollback.WriteAll | src/main/java/com/chalcodes/jtx/ScrollbackBuffer.java:152-154 | writing the whole text fails only for a row before the origin |
| Scrollback.SetBlock | src/main/java/com/chalcodes/jtx/ScrollbackBuffer.java:94-107 | a short grid, a rectangle outside the extents, or a narrow source row throws IndexOutOfBounds with no change; success exactly when the rectangle also ends by the store's last physical row, and then exactly the rectangle's cells change and one content event fires; a rectangle reaching past the last physical row throws IndexOutOfBounds after copying the rows up to the store's end, with no event |
| Scrollback.ReadPastTailSeesOldestRow | src/main/java/com/chalcodes/jtx/ScrollbackBuffer.java:36 | as written, reading the row just past a full window is accepted and returns the oldest retained row |
| Scrollback.GetCellInWindow | src/main/java/com/chalcodes/jtx/ScrollbackBuffer.java:35-38 | with the exclusive bound, a read succeeds exactly for cells in the window and agrees with the read as written there |
| Scrollback.InWindowReadAfterSetRun | src/main/java/com/chalcodes/jtx/ScrollbackBuffer.java:77-91 | a written cell reads back its value after any later advance that keeps its row |
| Scrollback.BlockReadFailsAfterSlide | src/main/java/com/chalcodes/jtx/ScrollbackBuffer.java:54-58 | once the window has slid, block reads and writes that reach the window's last row throw, though the rectangle is inside the extents |
| Scrollback.BlockReadExample | src/main/java/com/chalcodes/jtx/ScrollbackBuffer.java:54-65 | a two-row, one-column buffer advanced to row 2 keeps rows 1-2, yet reading that block throws |
| Scrollback.GetBlockInWindow | src/main/java/com/chalcodes/jtx/ScrollbackBuffer.java:54-65 | the block read through `(row + r) % rows`: succeeds for every rectangle in the extents; each cell equals the windowed single-cell read |
| Scrollback.BlockReadAgreesBeforeSlide | src/main/java/com/chalcodes/jtx/ScrollbackBuffer.java:54-58 | before the first slide, the as-written block read equals the windowed one |
| Scrollback.SetBlockInWindow | src/main/java/com/chalcodes/jtx/ScrollbackBuffer.java:94-107 | the block write through `(row + r) % rows`: succeeds exactly under the argument checks; one content event |
| Scrollback.SetBlockInWindowWrites | src/main/java/com/chalcodes/jtx/ScrollbackBuffer.java:103-105 | after the windowed block write, each window cell reads the grid inside the rectangle and its old value outside |
| Cell.DecodeEncode | src/main/java/com/chalcodes/jtx/ScrollbackBuffer.java:133-137 | decoding an encoded cell gives back its character and all its attributes |
| Cell.DefaultValueIsBlank | src/main/java/com/chalcodes/jtx/ScrollbackBuffer.java:186-187 | the blank value is the null character with the default attributes |
| Cell.SetSelected | src/main/java/com/chalcodes/jtx/extensions/SelectionControl.java:125 | the selected flag is set to the argument and every other bit is kept |
| Cell.DecodeSetSelected | src/main/java/com/chalcodes/jtx/extensions/SelectionControl.java:125 | after setSelected, the decoded cell differs only in its selected field |
| Cell.ColorAttributeOfEncode | src/main/java/com/chalcodes/jtx/VgaSoftFont.java:23-30 | bits 16-22 of an encoded cell are bright * 64 + background * 8 + foreground |
| Cell.AttributesInUpperHalf | src/main/java/com/chalcodes/jtx/ScrollbackBuffer.java:134 | two values with the same upper 16 bits decode to the same attributes |
| Params.ScanParams | src/main/java/krum/jtx/demo/DemoEmulation.java:241-263 | the loop returns the reference parameter list of the slice, with at most `len` entries |
| Params.ScanSlice | src/main/java/krum/jtx/demo/DemoEmulation.java:244-260 | the loop over a slice equals the run-based reference definition |
| Params.ParamsOfLength | src/main/java/krum/jtx/demo/DemoEmulation.java:246-260 | never more parameters than characters |
| Params.NoParamsWithoutDigitsOrSemicolons | src/main/java/krum/jtx/demo/DemoEmulation.java:246-260 | text with no digit and no semicolon has no parameters |
| Params.ScanExampleBlankMiddle | src/main/java/krum/jtx/demo/DemoEmulation.java:253-254 | `ESC[5;;12H` gives 5, 1, 12: a blank parameter is 1 |
| Params.ScanExampleTrailingSemicolon | src/main/java/krum/jtx/demo/DemoEmulation.java:247-251 | `ESC[5;H` gives just 5: the semicolon that ends a number adds nothing |
| Params.ScanExampleRunAtEnd | src/main/java/krum/jtx/demo/DemoEmulation.java:246-260 | `5;;12` gives 5, 1: a number that reaches the end of the slice is dropped |
| Params.ScanExampleLoneSemicolon | src/main/java/krum/jtx/demo/DemoEmulation.java:253-254 | `;` gives one parameter, 1 |
| Emulation.Create | src/main/java/krum/jtx/demo/DemoEmulation.java:40-50 | as written: throws exactly when the window's height is below its origin; the cursor, mark, page mark and highest line all start on line `height` |
| Emulation.CreateAtBottom | src/main/java/krum/jtx/demo/DemoEmulation.java:40-50 | on the line after the window: never throws, the invariant holds, the cursor starts on a fresh line |
| Emulation.CreateAgreesBeforeSlide | src/main/java/krum/jtx/demo/DemoEmulation.java:45 | before the first slide the constructor as written is the corrected one |
| Emulation.CreateThrowsAfterLongSlide | src/main/java/krum/jtx/demo/DemoEmulation.java:45-47 | after a slide past one full store the constructor throws |
| Emulation.CreateMissesBottomAfterSlide | src/main/java/krum/jtx/demo/DemoEmulation.java:45-48 | after a shorter slide the cursor lands inside the window and the invariant fails |
| Emulation.MoveTo | src/main/java/krum/jtx/demo/DemoEmulation.java:70-73 | a line past the highest advances the buffer to it and becomes the highest line; otherwise the buffer is untouched |
| Emulation.PositionWithFloor | src/main/java/krum/jtx/demo/DemoEmulation.java:53-74 | the requested 1-based row and column relative to the page mark, column clamped to [0, columns-1], line raised to the floor |
| Emulation.CursorPosition | src/main/java/krum/jtx/demo/DemoEmulation.java:53-74 | keeps the invariant; the highest line and page mark do not move back |
| Emulation.PositionInRange | src/main/java/krum/jtx/demo/DemoEmulation.java:67-69 | with at least one column, the cursor ends on the page and inside the row |
| Emulation.PositionCases | src/main/java/krum/jtx/demo/DemoEmulation.java:55-66 | zero, one and two parameters go to the documented positions; more than two leave the cursor |
| Emulation.UpWithFloor | src/main/java/krum/jtx/demo/DemoEmulation.java:77-82 | the line moves up by the step count, not above the floor; nothing else changes |
| Emulation.CursorUp | src/main/java/krum/jtx/demo/DemoEmulation.java:77-82 | only the cursor line changes, and the invariant holds |
| Emulation.Down | src/main/java/krum/jtx/demo/DemoEmulation.java:85-93 | the line moves down by the step count; the highest line becomes the larger of the two |
| Emulation.CursorDown | src/main/java/krum/jtx/demo/DemoEmulation.java:85-93 | the column is kept, the line does not decrease, and the invariant holds |
| Emulation.UpUndoesDown | src/main/java/krum/jtx/demo/DemoEmulation.java:77-93 | moving down then up by the same parameters returns the cursor |
| Emulation.Right | src/main/java/krum/jtx/demo/DemoEmulation.java:96-101 | the column moves right by the step count, capped at the last column |
| Emulation.CursorRight | src/main/java/krum/jtx/demo/DemoEmulation.java:96-101 | only the cursor column changes |
| Emulation.Left | src/main/java/krum/jtx/demo/DemoEmulation.java:104-109 | the column moves left by the step count, floored at 0 |
| Emulation.CursorLeft | src/main/java/krum/jtx/demo/DemoEmulation.java:104-109 | only the cursor column changes |
| Emulation.LeftUndoesRight | src/main/java/krum/jtx/demo/DemoEmulation.java:96-109 | right then left by the same parameters returns the cursor when no cap applied |
| Emulation.SaveCursor | src/main/java/krum/jtx/demo/DemoEmulation.java:112-114 | the mark becomes the cursor; nothing else changes |
| Emulation.RestoreWithFloor | src/main/java/krum/jtx/demo/DemoEmulation.java:117-121 | the cursor returns to the mark unless the mark lies above the floor |
| Emulation.RestoreCursor | src/main/java/krum/jtx/demo/DemoEmulation.java:117-121 | only the cursor changes, and the invariant holds |
| Emulation.RestoreAfterSave | src/main/java/krum/jtx/demo/DemoEmulation.java:112-121 | restoring right after saving changes nothing |
| Emulation.ClearScreen | src/main/java/krum/jtx/demo/DemoEmulation.java:124-129 | opens a new highest line, makes it the page mark and puts the cursor at its start; no retained row is cleared |
| Emulation.ClearScreenVoidsMark | src/main/java/krum/jtx/demo/DemoEmulation.java:117-129 | a position saved before a page clear is not restored after it |
| Emulation.ClearLine | src/main/java/krum/jtx/demo/DemoEmulation.java:132-136 | throws NegativeArraySize exactly when the cursor column is beyond `columns`, and IndexOutOfBounds when it is above the window; otherwise exactly the cursor row's cells from the cursor on become blank |
| Emulation.LineFeed | src/main/java/krum/jtx/demo/DemoEmulation.java:194-200 | down one line; from the highest line it opens a new one |
| Emulation.CarriageReturn | src/main/java/krum/jtx/demo/DemoEmulation.java:203-205 | the column becomes 0 and nothing else changes |
| Emulation.Backspace | src/main/java/krum/jtx/demo/DemoEmulation.java:208-211 | one column left, floored at 0 |
| Emulation.Tab | src/main/java/krum/jtx/demo/DemoEmulation.java:214-218 | from a column >= 0, to the next multiple of 4 strictly after it, capped at the last column |
| Emulation.NextTabStop | src/main/java/krum/jtx/demo/DemoEmulation.java:216 | the tab target is the smallest multiple of 4 above the column |
| Emulation.Ignore | src/main/java/krum/jtx/demo/DemoEmulation.java:221-223 | the bell leaves the emulator unchanged |
| Emulation.UnknownEscape | src/main/java/krum/jtx/demo/DemoEmulation.java:189-191 | throws IndexOutOfBounds exactly when the logged range `off + 1 .. off + len` is reversed (`len < 1`) or leaves the text; otherwise the emulator is unchanged |
| Emulation.ApplyAllConcat | src/main/java/krum/jtx/demo/DemoEmulation.java:141-184 | applying two parameter lists in turn equals applying their concatenation |
| Emulation.ResetForgets | src/main/java/krum/jtx/demo/DemoEmulation.java:143-145 | after a 0 parameter, the result depends only on the parameters after it |
| Emulation.ApplyAllNeverSelects | src/main/java/krum/jtx/demo/DemoEmulation.java:141-184 | no parameter sets the selected flag |
| Emulation.SetAttributes | src/main/java/krum/jtx/demo/DemoEmulation.java:139-186 | only the attributes change; with no parameters nothing changes |
| Emulation.LiteralText | src/main/java/krum/jtx/demo/DemoEmulation.java:226-239 | a bad slice throws IllegalArgument and a cursor above the window throws IndexOutOfBounds; otherwise the cursor moves right by `len` and wraps only when it lands exactly on `columns` |
| Emulation.LiteralTextWrapped | src/main/java/krum/jtx/demo/DemoEmulation.java:226-239 | the same failures; the cursor wraps whenever it reaches `columns`, so it stays inside the row |
| Emulation.LiteralTextStores | src/main/java/krum/jtx/demo/DemoEmulation.java:228-238 | each column the text reaches on the cursor line decodes to the text's character with the current attributes, also when the text ends on `columns` and the line feed scrolls, provided the store has at least two rows |
| Emulation.LiteralTextReadsWritten | src/main/java/krum/jtx/demo/DemoEmulation.java:228-238 | on the cursor line, the buffer after the handler reads what its write left, with or without the wrap's line feed (two rows or more) |
| Emulation.WrapKeepsCursorLine | src/main/java/krum/jtx/demo/DemoEmulation.java:231-237 | the wrap's line feed, even when it advances the window, keeps the line just written when the store has at least two rows |
| Emulation.StampedWordDecodes | src/main/java/com/chalcodes/jtx/ScrollbackBuffer.java:134-137 | a value with the attribute word's upper half and a character decodes to that character with those attributes |
| Emulation.OvershootBreaksClearLine | src/main/java/krum/jtx/demo/DemoEmulation.java:230-231 | text that runs past the line end leaves the cursor past the last column, and the next clearLine throws |
| Emulation.WrappedTextKeepsClearLine | src/main/java/krum/jtx/demo/DemoEmulation.java:230-238 | with the wrap, the same text leaves the cursor inside the row, and clearLine succeeds |
| Session.Step | src/main/java/krum/jtx/demo/DemoEmulation.java:52-239 | every handler that does not throw keeps the invariant and moves only forward; an unknown escape with no text throws IndexOutOfBounds |
| Session.RunPreservesInv | src/main/java/krum/jtx/demo/DemoEmulation.java:52-239 | across any sequence of events that completes, the invariant holds and the state moves only forward |
| Session.Floor | src/main/java/krum/jtx/demo/DemoEmulation.java:118 | the corrected lowest cursor line is at or below the page mark and inside the window |
| Session.StepFixed | src/main/java/krum/jtx/demo/DemoEmulation.java:52-239 | with the corrections, an event succeeds exactly when it is lexed (an unknown escape has at least its ESC); then the cursor stays inside the row and the window; otherwise IndexOutOfBounds |
| Session.RunFixedNeverThrows | src/main/java/krum/jtx/demo/DemoEmulation.java:52-239 | with the corrections, no sequence of lexed events throws |
| Session.CreateAtBottomStartsFixed | src/main/java/krum/jtx/demo/DemoEmulation.java:40-50 | the corrected constructor on a buffer with a column starts in the corrected invariant |
| Session.CursorAboveWindowBreaksText | src/main/java/krum/jtx/demo/DemoEmulation.java:77-82 | as written, once the window has slid past the page mark, moving up far enough makes the next text throw |
| Selection.CreateRectangle | src/main/java/com/chalcodes/jtx/extensions/SelectionControl.java:171-184 | width and height >= 1; the corners are the minimum and maximum of the two points |
| Selection.CreateRectangleContainsBoth | src/main/java/com/chalcodes/jtx/extensions/SelectionControl.java:163-165 | both points lie in the rectangle |
| Selection.CreateRectangleIsSmallest | src/main/java/com/chalcodes/jtx/extensions/SelectionControl.java:163-165 | every rectangle holding both points holds the created one |
| Selection.CreateRectangleSymmetric | src/main/java/com/chalcodes/jtx/extensions/SelectionControl.java:171-184 | the order of the points does not matter |
| Selection.CreateRectangleOfOnePoint | src/main/java/com/chalcodes/jtx/extensions/SelectionControl.java:181-182 | a click without a drag selects exactly one cell |
| Selection.MarkBlock | src/main/java/com/chalcodes/jtx/extensions/SelectionControl.java:123-128 | each cell of the block gets the selected flag; the shape is kept |
| Selection.SetSelection | src/main/java/com/chalcodes/jtx/extensions/SelectionControl.java:117-131 | a selection that misses the extents changes nothing and throws nothing |
| Selection.IntersectionInsideExtents | src/main/java/com/chalcodes/jtx/extensions/SelectionControl.java:119-121 | a non-empty clipped selection lies inside the extents |
| Selection.SetSelectionEffect | src/main/java/com/chalcodes/jtx/extensions/SelectionControl.java:117-131 | past the store's last physical row it throws with no change; otherwise exactly the clipped cells get the flag, and one content event fires |
| Selection.SetSelectionBeforeSlide | src/main/java/com/chalcodes/jtx/extensions/SelectionControl.java:122 | before the window first slides, setSelection never throws |
| Selection.SetSelectionKeepsCharacterAndColours | src/main/java/com/chalcodes/jtx/extensions/SelectionControl.java:125 | inside the selection, only the decoded selected field changes |
| SoftFont.GlyphSize | src/main/java/com/chalcodes/jtx/VgaSoftFont.java:39-48 | throws IllegalArgument exactly for a zero dimension or one that is not a multiple of 256 x 128; otherwise glyph size times glyph counts is the sheet size |
| SoftFont.GlyphSizeAcceptsMultiples | src/main/java/com/chalcodes/jtx/VgaSoftFont.java:45-48 | every positive multiple of 256 x 128 is accepted, and its glyph size is the multiplier |
| SoftFont.ColorAttribute | src/main/java/com/chalcodes/jtx/VgaSoftFont.java:78-81 | the sheet row is one of the 128 rows |
| SoftFont.ColorAttributeSwap | src/main/java/com/chalcodes/jtx/VgaSoftFont.java:79-81 | when exactly one of inverted and selected is set, the bright bit is kept and the six colour bits are complemented; otherwise the row is bits 16-22 |
| SoftFont.ShownCharacter | src/main/java/com/chalcodes/jtx/VgaSoftFont.java:96-97 | a character above 255 is drawn as `?`; any other is drawn as itself |
| SoftFont.Glyph | src/main/java/com/chalcodes/jtx/VgaSoftFont.java:83-106 | a glyph-sized box at (x, y), copied from the colour row and the character's column, or column 0 for a blinking cell in the off phase |
| SoftFont.GlyphInsideSheet | src/main/java/com/chalcodes/jtx/VgaSoftFont.java:23-30 | the source rectangle lies inside the sheet, on the glyph grid |
| SoftFont.RowOfEncodedCell | src/main/java/com/chalcodes/jtx/VgaSoftFont.java:23-30 | a cell's sheet row is bright * 64 + background * 8 + foreground, each colour complemented when exactly one of inverted and selected is set |
| SoftFont.ColumnOfEncodedCell | src/main/java/com/chalcodes/jtx/VgaSoftFont.java:84-102 | a character below 256 is drawn from its own column and one above 255 from the `?` column; a blinking cell in the off phase from column 0 |
| SoftFont.UnderlineTop | src/main/java/com/chalcodes/jtx/VgaSoftFont.java:114-118 | seven eighths of the glyph height, rounded half up, moved off the box's bottom edge |
| SoftFont.UnderlineThickness | src/main/java/com/chalcodes/jtx/VgaSoftFont.java:121-125 | a sixteenth of the glyph height, rounded half up, at least one pixel |
| SoftFont.UnderlineFitsGlyph | src/main/java/com/chalcodes/jtx/VgaSoftFont.java:114-126 | the underline ends inside the glyph box |
| SoftFont.Underline | src/main/java/com/chalcodes/jtx/VgaSoftFont.java:108-129 | drawn exactly for an underlined cell that is not blanked by blinking, from the top row of glyph 219 in the same sheet row |
| SoftFont.UnderlineInsideGlyph | src/main/java/com/chalcodes/jtx/VgaSoftFont.java:108-129 | the underline lies inside the glyph's screen box, and its source inside the sheet |

## Left out

- The `VgaBufferElement` bit layout is not part of this model. The cell layout in `cell.dfy` follows the glyph sheet's row order: colour in bits 16-22, flags above them, character below. The blank value `DEFAULT_VALUE` is taken to be light grey on black with no character, `0x0007_0000`.
- Rendering is not modelled: the `VolatileImage` copy loop in `blit`, the Swing display, the mouse handling of the selection control, and the `SwingTest` demo. The font model stops at the rectangles handed to `blit`.
- Loading the glyph sheet is not modelled: `ImageIO` and the resource constructors of `VgaSoftFont`. The font model takes the sheet's width and height as numbers.
- SoftFont.UnderlineTop and SoftFont.UnderlineThickness compute `Math.round` of a float with exact rational arithmetic. This agrees with Java only while `7 * height` is exact in a float, that is for glyph heights below 2^21.
- Java's 32-bit `int` overflow is not modelled. Rows, columns, cursor positions and offsets are unbounded integers. In Java, the emulator's line counters wrap after 2^31 lines.
- Params.ScanParams: `Integer.parseInt` overflow is not modelled, so a run of digits above 2^31 - 1 yields its value instead of throwing NumberFormatException. `Character.isDigit` is taken to be ASCII `0`-`9`; Java also accepts the other Unicode decimal digits.
- Params.ScanParams requires the slice to lie inside the text. With a bad slice, Java's `charAt` throws. The emulation handlers carry the same precondition (`SliceOk`), and `Session` always passes the whole event text.
- Scrollback.Advance and the other buffer members require a store with at least one row. In Java, a buffer built with zero rows lets `advance` move the origin without storing anything, and every read divides by zero.
- The lexer that produces the events is not part of this model. `Session` takes the events as a sequence.
- Observers are identities, and delivery is recorded in the log. An observer that calls back into the buffer from inside a notification is not modelled.
- The messages `setAttributes` and `unknownEscape` print to standard error do not change any state, so the model drops them. The range `unknownEscape` takes from its text for the message is modelled, because taking it can throw.
- The handlers' `seq, off, len` arguments go to `scanParams` in the parameter handlers, to the buffer's `write` in `literalText` and to `subSequence` in `unknownEscape`. `bell`, `carriageReturn` and the other handlers that ignore them take no text in the model.
- Session.RunFixedNeverThrows: assumes every unknown escape carries at least its ESC character (`Lexed`); the lexer is not part of this model, and an empty unknown escape does throw (Session.Step).
- Emulation.LiteralTextStores: with a one-row store, a text ending exactly on `columns` makes the line feed advance past the line just written, so nothing is promised about that line.
- Differences between the prose description and the code of `scanParams`, where the model follows the code:
  - a lone `;` gives one parameter, 1, not two;
  - `5;;12` at the end of the slice gives 5, 1, because the final number is never terminated and so is dropped.
- `advance`'s comment says rows added to the bottom are filled with the blank value. The code only does that once the store is full. A row exposed while the window grows keeps the store's old contents: 0 on a fresh buffer. The model follows the code (Scrollback.GrowthLeavesRowsUnfilled, Scrollback.GrowthExposesZero).

## Findings

| source | as written | input that shows it | evidently intended | confidence | as-written member | corrected member |
|---|---|---|---|---|---|---|
| src/main/java/krum/jtx/demo/DemoEmulation.java:45 | the cursor starts on line `extents.x + extents.height` | any buffer whose window has slid more than one full store, e.g. origin rows + 1 | start on `extents.y + extents.height`, the line after the window | not executed | Emulation.CreateThrowsAfterLongSlide | Emulation.CreateAtBottom |
| src/main/java/com/chalcodes/jtx/ScrollbackBuffer.java:56 | the block read copies physical row `row + r` | a 2-row, 1-column buffer advanced to row 2, reading column 0, rows 1-2 | read logical row `(row + r) % rows` | not executed | Scrollback.BlockReadExample | Scrollback.GetBlockInWindow |
| src/main/java/com/chalcodes/jtx/ScrollbackBuffer.java:104 | the block write copies into physical row `row + r` | any slid buffer and a rectangle ending on the window's last row | write logical row `(row + r) % rows` | not executed | Scrollback.BlockReadFailsAfterSlide | Scrollback.SetBlockInWindow |
| src/main/java/com/chalcodes/jtx/ScrollbackBuffer.java:36 | the single-cell read accepts `row == extents.y + extents.height` | a full window, reading the row just past it | reject rows at or past the tail, as `contains` does | not executed | Scrollback.ReadPastTailSeesOldestRow | Scrollback.GetCellInWindow |
| src/main/java/krum/jtx/demo/DemoEmulation.java:231 | the cursor wraps only when `cursor.x == columns` | 80 columns, cursor at 78, text of length 5 | wrap whenever `cursor.x >= columns` | not executed | Emulation.OvershootBreaksClearLine | Emulation.LiteralTextWrapped |
| src/main/java/krum/jtx/demo/DemoEmulation.java:81 | the cursor is floored at the page mark only | a window slid past the page mark, then cursor up by the cursor's distance to the page mark, then text | floor the cursor at max(page mark, extents.y) | not executed | Session.CursorAboveWindowBreaksText | Session.StepFixed |
