/**
 * The scrollback buffer: a fixed store of `capacity` rows of `columns` cells,
 * addressed by an unbounded logical row number through `row % capacity`, and
 * a window `[origin, origin + height)` of retained rows that only moves
 * forward.  Notifications to observers are recorded in `log`, one entry per
 * fired event, together with the observer list it was delivered to, in list
 * order.
 */
module Scrollback {
  import opened Outcomes
  import opened Cell
  import opened Geometry
  import Arith

  /** An observer's identity; delivery order is the order of the observer list. */
  type ObserverId = nat

  /** The arguments of `BufferObserver.contentChanged` and `extentsChanged`. */
  datatype Notice =
    | ContentChanged(column: int, row: int, width: int, height: int)
    | ExtentsChanged(column: int, row: int, width: int, height: int)

  /** One fired event and the observers it reached, in the order they were called. */
  datatype Delivery = Delivery(notice: Notice, recipients: seq<ObserverId>)

  datatype Buffer = Buffer(
    store: seq<seq<Word>>,      // the physical rows; logical row r lives in store[r % |store|]
    columns: int,
    origin: int,                // extents.y: the oldest retained logical row
    height: int,                // extents.height: the number of retained rows
    observers: seq<ObserverId>,
    log: seq<Delivery>)
  {
    function Capacity(): int { |store| }

    /** The first logical row past the window. */
    function Tail(): int { origin + height }
  }

  /** A state reachable from the constructor with at least one physical row. */
  predicate Valid(b: Buffer) {
    && |b.store| > 0 && b.columns >= 0
    && (forall i :: 0 <= i < |b.store| ==> |b.store[i]| == b.columns)
    && 0 <= b.origin && 0 <= b.height <= |b.store|
    && (b.origin > 0 ==> b.height == |b.store|)
  }

  /** The physical row holding logical row `row`. */
  function Slot(b: Buffer, row: int): (i: int)
    requires |b.store| > 0 && row >= 0
    ensures 0 <= i < |b.store|
  {
    row % |b.store|
  }

  /** A row of `n` copies of `v`. */
  function Fill(n: int, v: Word): (r: seq<Word>)
    requires n >= 0
    ensures |r| == n && forall c :: 0 <= c < n ==> r[c] == v
  {
    seq(n, _ => v)
  }

  /** `new ScrollbackBuffer(columns, rows)`: an empty window at row 0 over a zeroed store. */
  function Create(columns: int, rows: int): (r: Result<Buffer>)
    ensures r.Err? <==> columns < 0 || rows < 0
    ensures r.Err? ==> r.error == NegativeArraySize
    ensures r.Ok? ==> && r.value.origin == 0 && r.value.height == 0
                      && r.value.columns == columns && |r.value.store| == rows
                      && r.value.observers == [] && r.value.log == []
    ensures r.Ok? && rows > 0 ==> Valid(r.value)
    ensures r.Ok? ==> forall i, c :: 0 <= i < rows && 0 <= c < columns ==> r.value.store[i][c] == 0
  {
    if rows < 0 || columns < 0 then Err(NegativeArraySize)
    else Ok(Buffer(seq(rows, _ => Fill(columns, 0)), columns, 0, 0, [], []))
  }

  /** Appends one event, delivered to the current observers in list order. */
  function Fire(b: Buffer, n: Notice): Buffer
  {
    b.(log := b.log + [Delivery(n, b.observers)])
  }

  /** The event `advance` fires: the new extents `(0, origin, columns, height)`. */
  function ExtentsNotice(b: Buffer): Notice {
    ExtentsChanged(0, b.origin, b.columns, b.height)
  }

  /**
   * The store after clearing `clear` rows to the blank value, starting at
   * logical row `tail`: physical row `i` is cleared when it is one of
   * `tail % n, (tail + 1) % n, ..., (tail + clear - 1) % n`.
   */
  function ClearRows(store: seq<seq<Word>>, tail: int, clear: int, columns: int): (r: seq<seq<Word>>)
    requires |store| > 0 && 0 <= clear <= |store| && columns >= 0
    ensures |r| == |store|
    ensures (forall i :: 0 <= i < |store| ==> |store[i]| == columns) ==>
              forall i :: 0 <= i < |r| ==> |r[i]| == columns
  {
    var r := seq(|store|, i requires 0 <= i < |store| =>
      if (i - tail) % |store| < clear then Fill(columns, DEFAULT_VALUE) else store[i]);
    assert forall i :: 0 <= i < |r| ==>
      r[i] == if (i - tail) % |store| < clear then Fill(columns, DEFAULT_VALUE) else store[i];
    r
  }

  /** Row `tail + j` is among the cleared rows exactly when `j % n < clear`. */
  lemma ClearRowsAt(store: seq<seq<Word>>, tail: int, clear: int, columns: int, q: int)
    requires |store| > 0 && 0 <= clear <= |store| && columns >= 0 && q >= 0
    ensures ClearRows(store, tail, clear, columns)[q % |store|]
         == if (q - tail) % |store| < clear then Fill(columns, DEFAULT_VALUE) else store[q % |store|]
  {
    Arith.ModDifference(q, tail, |store|);
  }

  /** The full case of `advance`: the window slides by `row + 1 - tail` rows. */
  function Slide(b: Buffer, row: int): (r: Buffer)
    requires Valid(b) && b.height == |b.store| && row >= b.Tail()
    ensures Valid(r)
    ensures r.columns == b.columns && |r.store| == |b.store| && r.observers == b.observers
    ensures r.height == b.height && r.origin == b.origin + (row + 1 - b.Tail())
    ensures r.log == b.log + [Delivery(ExtentsNotice(r), b.observers)]
  {
    var tail := b.Tail();
    var newRows := row + 1 - tail;
    var clear := Min(newRows, |b.store|);
    var slid := b.(store := ClearRows(b.store, tail, clear, b.columns), origin := b.origin + newRows);
    Fire(slid, ExtentsNotice(slid))
  }

  /** The growth case of `advance`: the window grows to end at `row`, writing no cell. */
  function Grow(b: Buffer, row: int): (r: Buffer)
    requires Valid(b) && b.height < |b.store| && b.Tail() <= row < |b.store|
    ensures Valid(r)
    ensures r.columns == b.columns && r.store == b.store && r.observers == b.observers
    ensures r.origin == b.origin && r.Tail() == row + 1
    ensures r.log == b.log + [Delivery(ExtentsNotice(r), b.observers)]
  {
    var grown := b.(height := row + 1 - b.origin);
    Fire(grown, ExtentsNotice(grown))
  }

  /**
   * `advance(row)` for a row at or past the origin.  A row inside the window
   * changes nothing.  Otherwise the window grows while the store is not
   * full, slides (clearing the rows it exposes) once it is full, and a jump
   * that must do both is split into a growth to the last physical row
   * followed by a slide.
   */
  function Advance(b: Buffer, row: int): (r: Buffer)
    requires Valid(b) && row >= b.origin
    ensures Valid(r)
    ensures r.columns == b.columns && |r.store| == |b.store| && r.observers == b.observers
    ensures r.origin >= b.origin && r.origin <= row < r.Tail()
    ensures row < b.Tail() ==> r == b
    ensures row >= b.Tail() ==> r.Tail() == row + 1 && r.height == Min(row + 1, |b.store|)
    ensures |r.log| >= |b.log| && r.log[..|b.log|] == b.log
    decreases if b.height < |b.store| then 1 else 0, if row < |b.store| then 0 else 1
  {
    if row < b.Tail() then b
    else if b.Tail() >= |b.store| then Slide(b, row)
    else if row < |b.store| then Grow(b, row)
    else Advance(Advance(b, |b.store| - 1), row)
  }

  /** The public `advance`, which throws for a row before the origin. */
  function TryAdvance(b: Buffer, row: int): (r: Result<Buffer>)
    requires Valid(b)
    ensures r.Err? <==> row < b.origin
    ensures r.Err? ==> r.error == IndexOutOfBounds
    ensures r.Ok? ==> r.value == Advance(b, row)
  {
    if row < b.origin then Err(IndexOutOfBounds) else Ok(Advance(b, row))
  }

  /**
   * Full case: the window keeps its height, the origin moves by exactly
   * `row + 1 - tail`, every newly exposed row is blank in every column,
   * every row kept from the old window is untouched, and one extents event
   * fires.
   */
  lemma AdvanceWhenFull(b: Buffer, row: int)
    requires Valid(b) && b.height == |b.store| && row >= b.Tail()
    ensures var r := Advance(b, row);
      && r.height == |b.store| && r.origin == b.origin + (row + 1 - b.Tail())
      && r.log == b.log + [Delivery(ExtentsChanged(0, r.origin, b.columns, r.height), b.observers)]
      && (forall q :: Max(b.Tail(), r.origin) <= q <= row ==>
            r.store[q % |b.store|] == Fill(b.columns, DEFAULT_VALUE))
      && (forall q :: r.origin <= q < b.Tail() ==> r.store[q % |b.store|] == b.store[q % |b.store|])
  {
    var r := Advance(b, row);
    var n := |b.store|;
    var tail := b.Tail();
    var newRows := row + 1 - tail;
    var clear := Min(newRows, n);
    assert r.store == ClearRows(b.store, tail, clear, b.columns);
    forall q | Max(tail, r.origin) <= q <= row
      ensures r.store[q % n] == Fill(b.columns, DEFAULT_VALUE)
    {
      ClearRowsAt(b.store, tail, clear, b.columns, q);
      if newRows <= n {
        Arith.ModOf(q - tail, n, 0, q - tail);
      } else {
        Arith.DivMod(q - tail, n);
      }
    }
    forall q | r.origin <= q < tail
      ensures r.store[q % n] == b.store[q % n]
    {
      ClearRowsAt(b.store, tail, clear, b.columns, q);
      Arith.ModOf(q - tail, n, -1, q - tail + n);
    }
  }

  /**
   * Growth case: the origin stays, the height grows by `row + 1 - tail`, no
   * cell is written (the exposed rows keep whatever the store held) and one
   * extents event fires.
   */
  lemma AdvanceWhenGrowing(b: Buffer, row: int)
    requires Valid(b) && b.height < |b.store| && b.Tail() <= row < |b.store|
    ensures var r := Advance(b, row);
      && r.origin == b.origin && r.height == b.height + (row + 1 - b.Tail())
      && r.store == b.store
      && r.log == b.log + [Delivery(ExtentsChanged(0, r.origin, b.columns, r.height), b.observers)]
  {
  }

  /**
   * Split case: the jump is an advance to the last physical row followed by
   * an advance to `row`, which slides; exactly two extents events fire, and
   * the rows past the store's end read blank.
   */
  lemma AdvanceWhenSplit(b: Buffer, row: int)
    requires Valid(b) && b.height < |b.store| && row >= |b.store|
    ensures var mid := Advance(b, |b.store| - 1);
      var r := Advance(b, row);
      && r == Advance(mid, row)
      && mid.origin == 0 && mid.height == |b.store| && mid.store == b.store
      && r.height == |b.store| && r.origin == row + 1 - |b.store|
      && r.log == b.log + [Delivery(ExtentsChanged(0, 0, b.columns, |b.store|), b.observers),
                           Delivery(ExtentsChanged(0, r.origin, b.columns, |b.store|), b.observers)]
      && (forall q :: Max(|b.store|, r.origin) <= q <= row ==>
            r.store[q % |b.store|] == Fill(b.columns, DEFAULT_VALUE))
  {
    var mid := Advance(b, |b.store| - 1);
    AdvanceWhenGrowing(b, |b.store| - 1);
    AdvanceWhenFull(mid, row);
  }

  /** Every row that is in both the old and the new window keeps its contents. */
  lemma {:induction false} AdvanceKeepsRetainedRows(b: Buffer, row: int)
    requires Valid(b) && row >= b.origin
    ensures var r := Advance(b, row);
      forall q :: r.origin <= q < b.Tail() ==> r.store[q % |b.store|] == b.store[q % |b.store|]
    decreases if b.height < |b.store| then 1 else 0, if row < |b.store| then 0 else 1
  {
    if row < b.Tail() {
    } else if b.Tail() >= |b.store| {
      AdvanceWhenFull(b, row);
    } else if row < |b.store| {
      AdvanceWhenGrowing(b, row);
    } else {
      var mid := Advance(b, |b.store| - 1);
      AdvanceKeepsRetainedRows(b, |b.store| - 1);
      AdvanceKeepsRetainedRows(mid, row);
    }
  }

  // ----- Extents and observers -------------------------------------------

  /** `getExtents()`: the window as a rectangle `(0, origin, columns, height)`. */
  function GetExtents(b: Buffer): Rect {
    Rect(0, b.origin, b.columns, b.height)
  }

  /** `contains(column, row)`: the cell lies in a retained row and a real column. */
  function ContainsCell(b: Buffer, column: int, row: int): (r: bool)
    requires Valid(b)
    ensures r <==> 0 <= column < b.columns && b.origin <= row < b.Tail()
  {
    ContainsPoint(GetExtents(b), column, row)
  }

  /** `addBufferObserver`: appends to the observer list; a null observer throws. */
  function AddObserver(b: Buffer, o: Option<ObserverId>): (r: Result<Buffer>)
    ensures r.Err? <==> o.None?
    ensures r.Err? ==> r.error == NullPointer
    ensures r.Ok? ==> r.value == b.(observers := b.observers + [o.value])
  {
    if o.None? then Err(NullPointer) else Ok(b.(observers := b.observers + [o.value]))
  }

  /** The index of the first occurrence of `o` in `s`, or `|s|`. */
  function FirstIndex(s: seq<ObserverId>, o: ObserverId): (i: nat)
    ensures i <= |s| && (i < |s| ==> s[i] == o) && o !in s[..i]
  {
    if |s| == 0 then 0
    else if s[0] == o then 0
    else
      var i := 1 + FirstIndex(s[1..], o);
      assert s[..i] == [s[0]] + s[1..][..i - 1];
      i
  }

  /** `removeBufferObserver`: removes the first occurrence and reports whether there was one. */
  function RemoveObserver(b: Buffer, o: ObserverId): (r: (bool, Buffer))
    ensures r.0 <==> o in b.observers
    ensures r.1 == b.(observers := r.1.observers)
    ensures !r.0 ==> r.1.observers == b.observers
    ensures r.0 ==> exists i :: (0 <= i < |b.observers| && b.observers[i] == o
                                 && o !in b.observers[..i]
                                 && r.1.observers == b.observers[..i] + b.observers[i + 1..])
  {
    var i := FirstIndex(b.observers, o);
    if i == |b.observers| then
      assert b.observers[..i] == b.observers;
      (false, b)
    else (true, b.(observers := b.observers[..i] + b.observers[i + 1..]))
  }

  /** Adding an observer that is not yet registered and removing it restores the list. */
  lemma RemoveUndoesAdd(b: Buffer, o: ObserverId)
    requires o !in b.observers
    ensures AddObserver(b, Some(o)).Ok?
    ensures RemoveObserver(AddObserver(b, Some(o)).value, o) == (true, b)
  {
    var s := b.observers + [o];
    var i := FirstIndex(s, o);
    assert s[|b.observers|] == o;
    assert forall j :: 0 <= j < |b.observers| ==> s[j] == b.observers[j];
    assert i == |b.observers|;
    assert s[..i] + s[i + 1..] == b.observers;
  }

  // ----- Reads -------------------------------------------------------------

  /**
   * `getContent(column, row)`.  The row check accepts `row == origin + height`,
   * one past the window.
   */
  function GetCell(b: Buffer, column: int, row: int): (r: Result<Word>)
    requires Valid(b)
    ensures r.Ok? <==> b.origin <= row <= b.Tail() && 0 <= column < b.columns
    ensures r.Err? ==> r.error == IndexOutOfBounds
    ensures r.Ok? ==> r.value == b.store[Slot(b, row)][column]
  {
    if row < b.origin || row > b.Tail() then Err(IndexOutOfBounds)
    else if column < 0 || column >= b.columns then Err(IndexOutOfBounds)
    else Ok(b.store[Slot(b, row)][column])
  }

  /** `getContent(column, row, len, result)`: copies `len` cells into the front of `result`. */
  function GetRunInto(b: Buffer, column: int, row: int, len: int, result: seq<Word>): (r: Result<seq<Word>>)
    requires Valid(b)
    ensures r.Ok? <==> b.origin <= row <= b.Tail()
                       && 0 <= column && 0 <= len && column + len <= b.columns && len <= |result|
    ensures r.Err? ==> r.error == IndexOutOfBounds
    ensures r.Ok? ==> |r.value| == |result|
                      && (forall k :: 0 <= k < len ==> r.value[k] == b.store[Slot(b, row)][column + k])
                      && (forall k :: len <= k < |result| ==> r.value[k] == result[k])
  {
    if row < b.origin || row > b.Tail() then Err(IndexOutOfBounds)
    else if column < 0 || len < 0 || column + len > b.columns || len > |result| then Err(IndexOutOfBounds)
    else Ok(b.store[Slot(b, row)][column..column + len] + result[len..])
  }

  /** `getContent(column, row, len)`: a fresh array of `len` cells. */
  function GetRun(b: Buffer, column: int, row: int, len: int): (r: Result<seq<Word>>)
    requires Valid(b)
    ensures r.Ok? <==> 0 <= len && b.origin <= row <= b.Tail() && 0 <= column && column + len <= b.columns
    ensures r.Err? ==> r.error == (if len < 0 then NegativeArraySize else IndexOutOfBounds)
    ensures r.Ok? ==> |r.value| == len
                      && forall k :: 0 <= k < len ==> r.value[k] == b.store[Slot(b, row)][column + k]
  {
    if len < 0 then Err(NegativeArraySize) else GetRunInto(b, column, row, len, Fill(len, 0))
  }

  /**
   * Whether `getContent(column, row, width, height, result)` copies without
   * an exception: it indexes the store with `row + r` itself, not with
   * `(row + r) % capacity`, and checks nothing against the window.
   */
  predicate BlockCopyFits(b: Buffer, column: int, row: int, width: int, height: int, result: seq<seq<Word>>) {
    height <= 0 ||
      (&& 0 <= row && row + height <= |b.store| && 0 <= column && 0 <= width
       && column + width <= b.columns && height <= |result|
       && forall r :: 0 <= r < height ==> width <= |result[r]|)
  }

  /** Whether the copy of block row `r`, from physical row `row + r` into `result[r]`, succeeds. */
  predicate RowCopyFits(b: Buffer, column: int, row: int, width: int, r: int, result: seq<seq<Word>>) {
    && 0 <= row + r < |b.store| && 0 <= r < |result|
    && 0 <= column && 0 <= width && column + width <= b.columns && width <= |result[r]|
  }

  /** Whether the copies of block rows `0 .. i` all succeed. */
  predicate CopiesThrough(b: Buffer, column: int, row: int, width: int, i: int, result: seq<seq<Word>>) {
    && RowCopyFits(b, column, row, width, i, result)
    && forall j :: 0 <= j < i ==> RowCopyFits(b, column, row, width, j, result)
  }

  /** `result[i]` after the copy of block row `i` into it. */
  function CopiedRow(b: Buffer, column: int, row: int, width: int, i: int, result: seq<seq<Word>>): (r: seq<Word>)
    requires Valid(b) && RowCopyFits(b, column, row, width, i, result)
    ensures |r| == |result[i]|
    ensures forall c :: 0 <= c < width ==> r[c] == b.store[row + i][column + c]
    ensures forall c :: width <= c < |result[i]| ==> r[c] == result[i][c]
  {
    b.store[row + i][column..column + width] + result[i][width..]
  }

  /** The first block row from `r` on whose copy fails, or `height` when none does. */
  function FirstFailedRow(b: Buffer, column: int, row: int, width: int, height: int,
                          result: seq<seq<Word>>, r: int): (k: int)
    requires 0 <= r <= height
    ensures r <= k <= height
    ensures forall i :: r <= i < k ==> RowCopyFits(b, column, row, width, i, result)
    ensures k < height ==> !RowCopyFits(b, column, row, width, k, result)
    decreases height - r
  {
    if r == height || !RowCopyFits(b, column, row, width, r, result) then r
    else FirstFailedRow(b, column, row, width, height, result, r + 1)
  }

  /** Block rows before `k` are copied exactly when every copy up to them succeeds; none fails exactly when the block fits. */
  lemma FirstFailedRowMeans(b: Buffer, column: int, row: int, width: int, height: int, result: seq<seq<Word>>)
    requires height > 0
    ensures var k := FirstFailedRow(b, column, row, width, height, result, 0);
      && (forall i :: 0 <= i < |result| ==>
            (i < k <==> i < height && CopiesThrough(b, column, row, width, i, result)))
      && (k == height <==> BlockCopyFits(b, column, row, width, height, result))
  {
    var k := FirstFailedRow(b, column, row, width, height, result, 0);
    forall i | 0 <= i < |result|
      ensures i < k <==> i < height && CopiesThrough(b, column, row, width, i, result)
    {
      if k <= i < height {
        assert !RowCopyFits(b, column, row, width, k, result);
      }
    }
    if k == height {
      assert RowCopyFits(b, column, row, width, 0, result);
      assert RowCopyFits(b, column, row, width, height - 1, result);
      forall r | 0 <= r < height ensures width <= |result[r]| {
        assert RowCopyFits(b, column, row, width, r, result);
      }
    } else {
      assert !RowCopyFits(b, column, row, width, k, result);
    }
  }

  /** `result` with block rows `0 .. k - 1` copied in. */
  function FillRows(b: Buffer, column: int, row: int, width: int, k: int, result: seq<seq<Word>>): (r: seq<seq<Word>>)
    requires Valid(b) && forall i :: 0 <= i < k ==> RowCopyFits(b, column, row, width, i, result)
    ensures |r| == |result|
    ensures forall i :: 0 <= i < |result| ==>
      if i < k then
        && RowCopyFits(b, column, row, width, i, result)
        && |r[i]| == |result[i]|
        && (forall c :: 0 <= c < width ==> r[i][c] == b.store[row + i][column + c])
        && (forall c :: width <= c < |result[i]| ==> r[i][c] == result[i][c])
      else r[i] == result[i]
  {
    seq(|result|, i requires 0 <= i < |result| =>
      if i < k then CopiedRow(b, column, row, width, i, result) else result[i])
  }

  /** The caller's array as a block read leaves it, and the exception, if any, that ended the read. */
  datatype Filled = Filled(result: seq<seq<Word>>, thrown: Option<Error>)

  /**
   * `getContent(column, row, width, height, result)`, as written: block row
   * `i` is copied from physical row `row + i` into `result[i]`, one row after
   * another, so a failing copy throws after the rows before it were filled.
   */
  function GetBlockInto(b: Buffer, column: int, row: int, width: int, height: int,
                        result: seq<seq<Word>>): (r: Filled)
    requires Valid(b)
    ensures |r.result| == |result|
    ensures r.thrown.None? <==> BlockCopyFits(b, column, row, width, height, result)
    ensures r.thrown.Some? ==> r.thrown == Some(IndexOutOfBounds)
    ensures forall i :: 0 <= i < |result| ==>
      if i < height && CopiesThrough(b, column, row, width, i, result) then
        && |r.result[i]| == |result[i]|
        && (forall c :: 0 <= c < width ==> r.result[i][c] == b.store[row + i][column + c])
        && (forall c :: width <= c < |result[i]| ==> r.result[i][c] == result[i][c])
      else r.result[i] == result[i]
  {
    if height <= 0 then Filled(result, None)
    else
      var k := FirstFailedRow(b, column, row, width, height, result, 0);
      FirstFailedRowMeans(b, column, row, width, height, result);
      Filled(FillRows(b, column, row, width, k, result), if k < height then Some(IndexOutOfBounds) else None)
  }

  /** `getContent(column, row, width, height)`: a fresh `height` by `width` array. */
  function GetBlock(b: Buffer, column: int, row: int, width: int, height: int): (r: Result<seq<seq<Word>>>)
    requires Valid(b)
    ensures r.Err? <==> width < 0 || height < 0
                        || (height > 0 && !(0 <= row && row + height <= |b.store|
                                            && 0 <= column && column + width <= b.columns))
    ensures r.Err? ==> r.error == (if width < 0 || height < 0 then NegativeArraySize else IndexOutOfBounds)
    ensures r.Ok? ==> (
      && |r.value| == height
      && forall i :: 0 <= i < height ==> (
           && |r.value[i]| == width
           && forall k :: 0 <= k < width ==> r.value[i][k] == b.store[row + i][column + k]))
  {
    if width < 0 || height < 0 then Err(NegativeArraySize)
    else
      var filled := GetBlockInto(b, column, row, width, height, seq(height, _ => Fill(width, 0)));
      if filled.thrown.Some? then Err(IndexOutOfBounds) else Ok(filled.result)
  }

  // ----- Writes ------------------------------------------------------------

  /** A buffer state together with the exception, if any, that ended the call. */
  datatype Partial = Partial(after: Buffer, thrown: Option<Error>)

  /** The store with physical row `Slot(row)` overwritten by `cells` from `column` on. */
  function PutRun(b: Buffer, row: int, column: int, cells: seq<Word>): (r: Buffer)
    requires Valid(b) && row >= 0 && 0 <= column && column + |cells| <= b.columns
    ensures Valid(r) && r == b.(store := r.store) && |r.store| == |b.store|
    ensures forall i, c :: 0 <= i < |b.store| && 0 <= c < b.columns ==>
      r.store[i][c] == if i == Slot(b, row) && column <= c < column + |cells|
                       then cells[c - column] else b.store[i][c]
  {
    var s := Slot(b, row);
    var line := b.store[s][..column] + cells + b.store[s][column + |cells|..];
    b.(store := b.store[s := line])
  }

  /**
   * `setContent(column, row, value)`: advances to `row`, then stores the
   * value.  A bad column throws after the window has already moved.
   */
  function SetCell(b: Buffer, column: int, row: int, value: Word): (r: Partial)
    requires Valid(b)
    ensures Valid(r.after) && r.after.columns == b.columns && |r.after.store| == |b.store|
    ensures row < b.origin ==> r == Partial(b, Some(IndexOutOfBounds))
    ensures row >= b.origin && !(0 <= column < b.columns) ==>
              r == Partial(Advance(b, row), Some(IndexOutOfBounds))
    ensures row >= b.origin && 0 <= column < b.columns ==> r.thrown.None?
    ensures r.thrown.None? ==> var a := Advance(b, row);
      && r.after == a.(store := r.after.store,
                       log := a.log + [Delivery(ContentChanged(column, row, 1, 1), a.observers)])
      && forall i, c :: 0 <= i < |b.store| && 0 <= c < b.columns ==>
           r.after.store[i][c] == if i == Slot(a, row) && c == column then value else a.store[i][c]
  {
    if row < b.origin then Partial(b, Some(IndexOutOfBounds))
    else
      var a := Advance(b, row);
      if column < 0 || column >= b.columns then Partial(a, Some(IndexOutOfBounds))
      else Partial(Fire(PutRun(a, row, column, [value]), ContentChanged(column, row, 1, 1)), None)
  }

  /**
   * The clipping of a run written at `column` with source offset `off` and
   * length `len`: columns before 0 and from `columns` on are dropped.
   */
  function Clip(column: int, off: int, len: int, columns: int): (r: (int, int, int))
    ensures r.0 == Max(column, 0)
    ensures r.1 == off + Max(0, -column)
    ensures r.0 + r.2 == Min(column + len, columns)
  {
    var (c1, o1, l1) := if column < 0 then (0, off - column, len + column) else (column, off, len);
    var l2 := if c1 + l1 > columns then l1 - (c1 + l1 - columns) else l1;
    (c1, o1, l2)
  }

  /** The first written column of a clipped run. */
  function ClipStart(column: int): int { Max(column, 0) }

  /** One past the last written column of a clipped run. */
  function ClipEnd(column: int, len: int, columns: int): int { Min(column + len, columns) }

  /**
   * `setContent(column, row, values, off, len)`: checks the source range,
   * advances the window to `row` (even when nothing is left after
   * clipping), writes the clipped columns and fires one content event when
   * at least one cell was written.
   */
  function SetRun(b: Buffer, column: int, row: int, src: seq<Word>, off: int, len: int): (r: Result<Buffer>)
    requires Valid(b)
    ensures r.Err? <==> off < 0 || len < 0 || off + len > |src| || row < b.origin
    ensures r.Err? ==> r.error == (if off < 0 || len < 0 || off + len > |src|
                                   then IllegalArgument else IndexOutOfBounds)
    ensures r.Ok? ==> var a := Advance(b, row);
      var start, end := ClipStart(column), ClipEnd(column, len, b.columns);
      && Valid(r.value) && |r.value.store| == |b.store|
      && r.value == a.(store := r.value.store, log := r.value.log)
      && (forall i, c :: 0 <= i < |b.store| && 0 <= c < b.columns ==>
            r.value.store[i][c] == if i == Slot(a, row) && start <= c < end
                                   then src[off + (c - column)] else a.store[i][c])
      && r.value.log == a.log + (if start < end
                                 then [Delivery(ContentChanged(start, row, end - start, 1), a.observers)]
                                 else [])
  {
    if off < 0 || len < 0 || off + len > |src| then Err(IllegalArgument)
    else if row < b.origin then Err(IndexOutOfBounds)
    else
      var a := Advance(b, row);
      var (c, o, l) := Clip(column, off, len, b.columns);
      if l <= 0 then Ok(a)
      else Ok(Fire(PutRun(a, row, c, src[o..o + l]), ContentChanged(c, row, l, 1)))
  }

  /**
   * The cells `write` stores for a character sequence: the upper half of
   * `attributes` plus the character code.
   */
  function Stamp(text: seq<CodeUnit>, attributes: Word): (r: seq<Word>)
    ensures |r| == |text|
    ensures forall i :: 0 <= i < |text| ==>
      r[i] & ATTRIBUTE_MASK == attributes & ATTRIBUTE_MASK && CharOf(r[i]) == text[i]
  {
    seq(|text|, i requires 0 <= i < |text| => StampOne(text[i], attributes))
  }

  /** One cell of `write`: the upper half of `attributes` plus the character code. */
  function StampOne(ch: CodeUnit, attributes: Word): (w: Word)
    ensures w & ATTRIBUTE_MASK == attributes & ATTRIBUTE_MASK && CharOf(w) == ch
  {
    (attributes & ATTRIBUTE_MASK) + (ch as bv32)
  }

  /**
   * `write(column, row, seq, off, len, attributes)`: the same checks,
   * advance and clipping as the run write, storing
   * `(attributes & 0xFFFF0000) + seq[off + k]`.
   */
  function Write(b: Buffer, column: int, row: int, text: seq<CodeUnit>, off: int, len: int,
                 attributes: Word): (r: Result<Buffer>)
    requires Valid(b)
    ensures r.Err? <==> off < 0 || len < 0 || off + len > |text| || row < b.origin
    ensures r.Err? ==> r.error == (if off < 0 || len < 0 || off + len > |text|
                                   then IllegalArgument else IndexOutOfBounds)
    ensures r.Ok? ==> Valid(r.value) && r.value.columns == b.columns && |r.value.store| == |b.store|
  {
    SetRun(b, column, row, Stamp(text, attributes), off, len)
  }

  /**
   * A successful write moves the window as the advance to its row does and
   * fires exactly one content event, covering the clipped columns, when at
   * least one cell is written.
   */
  lemma WriteEvents(b: Buffer, column: int, row: int, text: seq<CodeUnit>, off: int, len: int,
                    attributes: Word)
    requires Valid(b) && Write(b, column, row, text, off, len, attributes).Ok?
    ensures var r := Write(b, column, row, text, off, len, attributes).value;
      var a := Advance(b, row);
      var start, end := ClipStart(column), ClipEnd(column, len, b.columns);
      && r.origin == a.origin && r.height == a.height && r.observers == a.observers
      && r.log == a.log + (if start < end
                           then [Delivery(ContentChanged(start, row, end - start, 1), a.observers)]
                           else [])
  {
    var r := Write(b, column, row, text, off, len, attributes).value;
    assert r == Advance(b, row).(store := r.store, log := r.log);
  }

  /**
   * Each written cell takes its upper half from the attributes and its lower
   * half from the character; every other cell keeps its advanced value.
   */
  lemma WriteStores(b: Buffer, column: int, row: int, text: seq<CodeUnit>, off: int, len: int,
                    attributes: Word)
    requires Valid(b) && Write(b, column, row, text, off, len, attributes).Ok?
    ensures var r := Write(b, column, row, text, off, len, attributes).value;
      var a := Advance(b, row);
      forall i, c :: 0 <= i < |b.store| && 0 <= c < b.columns ==>
        if i == Slot(a, row) && ClipStart(column) <= c < ClipEnd(column, len, b.columns) then
          && r.store[i][c] & ATTRIBUTE_MASK == attributes & ATTRIBUTE_MASK
          && CharOf(r.store[i][c]) == text[off + (c - column)]
        else r.store[i][c] == a.store[i][c]
  {
    forall i, c | 0 <= i < |b.store| && 0 <= c < b.columns {
      WriteCell(b, column, row, text, off, len, attributes, i, c);
    }
  }

  /** One cell of a successful write: stamped inside the clipped run, its advanced value elsewhere. */
  lemma WriteCell(b: Buffer, column: int, row: int, text: seq<CodeUnit>, off: int, len: int,
                  attributes: Word, i: int, c: int)
    requires Valid(b) && Write(b, column, row, text, off, len, attributes).Ok?
    requires 0 <= i < |b.store| && 0 <= c < b.columns
    ensures var r := Write(b, column, row, text, off, len, attributes).value;
      var a := Advance(b, row);
      if i == Slot(a, row) && ClipStart(column) <= c < ClipEnd(column, len, b.columns) then
        && r.store[i][c] & ATTRIBUTE_MASK == attributes & ATTRIBUTE_MASK
        && CharOf(r.store[i][c]) == text[off + (c - column)]
      else r.store[i][c] == a.store[i][c]
  {
    var stamped := Stamp(text, attributes);
    var a := Advance(b, row);
    if i == Slot(a, row) && ClipStart(column) <= c < ClipEnd(column, len, b.columns) {
      var w := stamped[off + (c - column)];
      assert Write(b, column, row, text, off, len, attributes).value.store[i][c] == w;
    }
  }

  /** A written cell reads back as the attributes' upper half with the character. */
  lemma WriteReadBack(b: Buffer, column: int, row: int, text: seq<CodeUnit>, off: int, len: int,
                      attributes: Word, c: int)
    requires Valid(b) && Write(b, column, row, text, off, len, attributes).Ok?
    requires ClipStart(column) <= c < ClipEnd(column, len, b.columns)
    ensures var r := GetCell(Write(b, column, row, text, off, len, attributes).value, c, row);
      && r.Ok?
      && r.value & ATTRIBUTE_MASK == attributes & ATTRIBUTE_MASK
      && CharOf(r.value) == text[off + (c - column)]
  {
    WriteStores(b, column, row, text, off, len, attributes);
  }

  /** `write(column, row, seq, attributes)`: the whole sequence. */
  function WriteAll(b: Buffer, column: int, row: int, text: seq<CodeUnit>, attributes: Word): (r: Result<Buffer>)
    requires Valid(b)
    ensures r.Err? <==> row < b.origin
  {
    Write(b, column, row, text, 0, |text|, attributes)
  }

  /**
   * `setContent(column, row, values, width, height)`, as written: the
   * rectangle must lie inside the extents and every source row must be wide
   * enough, else nothing changes; then source row `r` is copied to physical
   * row `row + r`, so a rectangle reaching past the last physical row throws
   * after the rows before it were copied.
   */
  function SetBlock(b: Buffer, column: int, row: int, grid: seq<seq<Word>>, width: int, height: int): (r: Partial)
    requires Valid(b)
    ensures Valid(r.after) && r.after.columns == b.columns && |r.after.store| == |b.store|
    ensures |grid| < height || !ContainsRect(GetExtents(b), column, row, width, height)
            || (exists i :: 0 <= i < |grid| && |grid[i]| < width)
            ==> r == Partial(b, Some(IndexOutOfBounds))
    ensures r.thrown.None? <==> (
      && |grid| >= height && ContainsRect(GetExtents(b), column, row, width, height)
      && (forall i :: 0 <= i < |grid| ==> |grid[i]| >= width)
      && row + height <= |b.store|)
    ensures r.thrown.None? ==>
      && r.after == b.(store := r.after.store,
                       log := b.log + [Delivery(ContentChanged(column, row, width, height), b.observers)])
      && forall i, c :: 0 <= i < |b.store| && 0 <= c < b.columns ==>
           r.after.store[i][c] == if row <= i < row + height && column <= c < column + width
                                  then grid[i - row][c - column] else b.store[i][c]
    ensures r.thrown.Some? ==> r.thrown == Some(IndexOutOfBounds)
    ensures
      && |grid| >= height && ContainsRect(GetExtents(b), column, row, width, height)
      && (forall i :: 0 <= i < |grid| ==> |grid[i]| >= width)
      && row + height > |b.store|
      ==>
      && r.after == b.(store := r.after.store)
      && forall i, c :: 0 <= i < |b.store| && 0 <= c < b.columns ==>
           r.after.store[i][c] == if row <= i && column <= c < column + width
                                  then grid[i - row][c - column] else b.store[i][c]
  {
    if |grid| < height || !ContainsRect(GetExtents(b), column, row, width, height) then
      Partial(b, Some(IndexOutOfBounds))
    else if exists i :: 0 <= i < |grid| && |grid[i]| < width then
      Partial(b, Some(IndexOutOfBounds))
    else
      var k := Min(height, |b.store| - row);
      var copied := b.(store := CopyRows(b, row, k, column, grid, width));
      if k < height then Partial(copied, Some(IndexOutOfBounds))
      else Partial(Fire(copied, ContentChanged(column, row, width, height)), None)
  }

  /** Physical rows `row .. row + k - 1` receive source rows `0 .. k - 1` at `column`. */
  function CopyRows(b: Buffer, row: int, k: int, column: int, grid: seq<seq<Word>>, width: int): (r: seq<seq<Word>>)
    requires Valid(b) && 0 <= row && 0 <= column && 0 <= width && column + width <= b.columns
    requires k <= |grid| && forall i :: 0 <= i < |grid| ==> |grid[i]| >= width
    ensures |r| == |b.store| && forall i :: 0 <= i < |r| ==> |r[i]| == b.columns
    ensures forall i, c :: 0 <= i < |b.store| && 0 <= c < b.columns ==>
      r[i][c] == if row <= i < row + k && column <= c < column + width
                 then grid[i - row][c - column] else b.store[i][c]
  {
    seq(|b.store|, i requires 0 <= i < |b.store| =>
      if row <= i < row + k
      then b.store[i][..column] + grid[i - row][..width] + b.store[i][column + width..]
      else b.store[i])
  }

  // ----- Reading back what was written -------------------------------------

  /** A successful run write reads back, cell by cell, from the source it was given. */
  lemma ReadAfterSetRun(b: Buffer, column: int, row: int, src: seq<Word>, off: int, len: int, c: int)
    requires Valid(b) && SetRun(b, column, row, src, off, len).Ok?
    requires ClipStart(column) <= c < ClipEnd(column, len, b.columns)
    ensures GetCell(SetRun(b, column, row, src, off, len).value, c, row) == Ok(src[off + (c - column)])
  {
  }

  /**
   * A run read agrees with single-cell reads: for a non-empty run it succeeds
   * exactly when its first and last cells can be read, and each cell of it is
   * what reading that cell alone returns.
   */
  lemma RunReadAgreesWithCells(b: Buffer, column: int, row: int, len: int)
    requires Valid(b) && len > 0
    ensures GetRun(b, column, row, len).Ok?
        <==> GetCell(b, column, row).Ok? && GetCell(b, column + len - 1, row).Ok?
    ensures GetRun(b, column, row, len).Ok? ==>
      forall k :: 0 <= k < len ==> GetCell(b, column + k, row) == Ok(GetRun(b, column, row, len).value[k])
  {
  }

  /** A run written inside the columns reads back whole from the source range it was given. */
  lemma RunRoundTrip(b: Buffer, column: int, row: int, src: seq<Word>, off: int, len: int)
    requires Valid(b) && SetRun(b, column, row, src, off, len).Ok?
    requires 0 <= column && column + len <= b.columns
    ensures GetRun(SetRun(b, column, row, src, off, len).value, column, row, len) == Ok(src[off..off + len])
  {
    var a := SetRun(b, column, row, src, off, len).value;
    var read := GetRun(a, column, row, len);
    assert read.Ok?;
    assert read.value == src[off..off + len];
  }

  /** A successful single-cell write reads back. */
  lemma ReadAfterSetCell(b: Buffer, column: int, row: int, value: Word)
    requires Valid(b) && SetCell(b, column, row, value).thrown.None?
    ensures GetCell(SetCell(b, column, row, value).after, column, row) == Ok(value)
  {
  }

  /** A cell of a retained row reads the same after any advance that keeps the row. */
  lemma ReadSurvivesAdvance(b: Buffer, target: int, c: int, q: int)
    requires Valid(b) && target >= b.origin && b.origin <= q < b.Tail() && 0 <= c < b.columns
    requires Advance(b, target).origin <= q
    ensures GetCell(Advance(b, target), c, q) == GetCell(b, c, q)
  {
    AdvanceKeepsRetainedRows(b, target);
  }

  /** After a slide, every row the slide exposed reads blank. */
  lemma ReadExposedRowIsBlank(b: Buffer, target: int, c: int, q: int)
    requires Valid(b) && b.height == |b.store| && target >= b.Tail()
    requires 0 <= c < b.columns && Max(b.Tail(), Advance(b, target).origin) <= q <= target
    ensures GetCell(Advance(b, target), c, q) == Ok(DEFAULT_VALUE)
  {
    AdvanceWhenFull(b, target);
  }

  /**
   * The growth case writes no cell: every row it exposes keeps whatever the
   * store held there, rather than reading blank.
   */
  lemma GrowthLeavesRowsUnfilled(b: Buffer, row: int, q: int, c: int)
    requires Valid(b) && b.height < |b.store| && b.Tail() <= row < |b.store|
    requires b.Tail() <= q <= row && 0 <= c < b.columns
    ensures GetCell(Advance(b, row), c, q) == Ok(b.store[q][c])
  {
    AdvanceWhenGrowing(b, row);
    var a := Advance(b, row);
    assert Slot(a, q) == q;
  }

  /** On a fresh buffer the first row exposed by growth reads 0, not the blank value. */
  lemma GrowthExposesZero()
    ensures var b := Create(1, 2).value;
      && GetCell(Advance(b, 0), 0, 0) == Ok(0) && DEFAULT_VALUE != 0
  {
    var b := Create(1, 2).value;
    GrowthLeavesRowsUnfilled(b, 0, 0, 0);
  }

  // ----- The inclusive read bound ------------------------------------------

  /**
   * As written, a read of the row just past a full window is accepted and
   * returns the contents of the oldest retained row, which shares its
   * physical slot.
   */
  lemma ReadPastTailSeesOldestRow(b: Buffer, c: int)
    requires Valid(b) && b.height == |b.store| && 0 <= c < b.columns
    ensures GetCell(b, c, b.Tail()).Ok? && !ContainsCell(b, c, b.Tail())
    ensures GetCell(b, c, b.Tail()) == GetCell(b, c, b.origin)
  {
    Arith.ModOf(b.Tail(), |b.store|, b.origin / |b.store| + 1, b.origin % |b.store|);
    Arith.DivMod(b.origin, |b.store|);
  }

  /** `getContent(column, row)` with the window's own exclusive upper bound. */
  function GetCellInWindow(b: Buffer, column: int, row: int): (r: Result<Word>)
    requires Valid(b)
    ensures r.Ok? <==> ContainsCell(b, column, row)
    ensures r.Ok? ==> GetCell(b, column, row) == r
    ensures r.Err? ==> r.error == IndexOutOfBounds
  {
    if row < b.origin || row >= b.Tail() then Err(IndexOutOfBounds)
    else if column < 0 || column >= b.columns then Err(IndexOutOfBounds)
    else Ok(b.store[Slot(b, row)][column])
  }

  /** With the exclusive bound, a cell reads back its last write as long as its row is retained. */
  lemma InWindowReadAfterSetRun(b: Buffer, column: int, row: int, src: seq<Word>, off: int, len: int,
                                target: int, c: int)
    requires Valid(b) && SetRun(b, column, row, src, off, len).Ok?
    requires ClipStart(column) <= c < ClipEnd(column, len, b.columns)
    requires var w := SetRun(b, column, row, src, off, len).value;
      target >= w.origin && Advance(w, target).origin <= row
    ensures var w := SetRun(b, column, row, src, off, len).value;
      GetCellInWindow(Advance(w, target), c, row) == Ok(src[off + (c - column)])
  {
    var w := SetRun(b, column, row, src, off, len).value;
    ReadAfterSetRun(b, column, row, src, off, len, c);
    ReadSurvivesAdvance(w, target, c, row);
  }

  // ----- Block reads and writes index physical rows directly ----------------

  /**
   * Once the window has slid, its last row lies at or past the physical
   * store's end, so a block read that covers it throws even though the
   * rectangle is inside the extents.
   */
  lemma BlockReadFailsAfterSlide(b: Buffer, column: int, row: int, width: int, height: int)
    requires Valid(b) && b.origin > 0
    requires ContainsRect(GetExtents(b), column, row, width, height) && row + height == b.Tail()
    ensures GetBlock(b, column, row, width, height) == Err(IndexOutOfBounds)
    ensures SetBlock(b, column, row, seq(height, _ => Fill(width, 0)), width, height).thrown
            == Some(IndexOutOfBounds)
  {
  }

  /** A concrete instance: two rows, one column, advanced to row 2; rows 1 and 2 are retained. */
  lemma BlockReadExample()
    ensures var b := Advance(Create(1, 2).value, 2);
      && b.origin == 1 && b.height == 2
      && ContainsRect(GetExtents(b), 0, 1, 1, 2)
      && GetBlock(b, 0, 1, 1, 2) == Err(IndexOutOfBounds)
  {
    var b0 := Create(1, 2).value;
    AdvanceWhenSplit(b0, 2);
    BlockReadFailsAfterSlide(Advance(b0, 2), 0, 1, 1, 2);
  }

  /** The `width` cells of logical row `row` starting at `column`. */
  function RowSlice(b: Buffer, row: int, column: int, width: int): (r: seq<Word>)
    requires Valid(b) && row >= 0 && 0 <= column && 0 <= width && column + width <= b.columns
    ensures |r| == width
    ensures forall k :: 0 <= k < width ==> r[k] == b.store[Slot(b, row)][column + k]
  {
    b.store[Slot(b, row)][column..column + width]
  }

  /** `getContent(column, row, width, height)` through `(row + r) % capacity`, inside the window. */
  function GetBlockInWindow(b: Buffer, column: int, row: int, width: int, height: int)
    : (r: Result<seq<seq<Word>>>)
    requires Valid(b)
    ensures r.Ok? <==> 0 <= width && 0 <= height
                       && (width == 0 || height == 0 || ContainsRect(GetExtents(b), column, row, width, height))
    ensures r.Ok? ==> (
      && |r.value| == height
      && forall i :: 0 <= i < height ==> (
           && |r.value[i]| == width
           && forall k :: 0 <= k < width ==> GetCellInWindow(b, column + k, row + i) == Ok(r.value[i][k])))
  {
    if width < 0 || height < 0 then Err(NegativeArraySize)
    else if width == 0 || height == 0 then Ok(seq(height, _ => []))
    else if !ContainsRect(GetExtents(b), column, row, width, height) then Err(IndexOutOfBounds)
    else
      var block := seq(height, i requires 0 <= i < height => RowSlice(b, row + i, column, width));
      assert forall i :: 0 <= i < height ==> block[i] == RowSlice(b, row + i, column, width);
      assert forall i :: 0 <= i < height ==> |block[i]| == width;
      assert forall i, k :: 0 <= i < height && 0 <= k < width ==>
               GetCellInWindow(b, column + k, row + i) == Ok(block[i][k]) by {
        forall i, k | 0 <= i < height && 0 <= k < width
          ensures GetCellInWindow(b, column + k, row + i) == Ok(block[i][k])
        {
          assert ContainsCell(b, column + k, row + i);
        }
      }
      Ok(block)
  }

  /** Before the window first slides, the literal block read agrees with the windowed one. */
  lemma BlockReadAgreesBeforeSlide(b: Buffer, column: int, row: int, width: int, height: int)
    requires Valid(b) && b.origin == 0 && width > 0 && height > 0
    requires ContainsRect(GetExtents(b), column, row, width, height)
    ensures GetBlock(b, column, row, width, height) == GetBlockInWindow(b, column, row, width, height)
  {
    var lit := GetBlock(b, column, row, width, height);
    var win := GetBlockInWindow(b, column, row, width, height);
    forall i | 0 <= i < height
      ensures lit.value[i] == win.value[i]
    {
      Arith.ModOf(row + i, |b.store|, 0, row + i);
      assert Slot(b, row + i) == row + i;
      assert forall k :: 0 <= k < width ==> lit.value[i][k] == win.value[i][k];
    }
    assert lit.value == win.value;
  }

  /**
   * `setContent(column, row, values, width, height)` writing through
   * `(row + r) % capacity`; it succeeds for every rectangle inside the
   * extents.
   */
  function SetBlockInWindow(b: Buffer, column: int, row: int, grid: seq<seq<Word>>, width: int, height: int)
    : (r: Result<Buffer>)
    requires Valid(b)
    ensures r.Ok? <==> (
      && |grid| >= height && ContainsRect(GetExtents(b), column, row, width, height)
      && forall i :: 0 <= i < |grid| ==> |grid[i]| >= width)
    ensures r.Ok? ==> (
      && Valid(r.value)
      && r.value == b.(store := r.value.store,
                       log := b.log + [Delivery(ContentChanged(column, row, width, height), b.observers)]))
  {
    if |grid| < height || !ContainsRect(GetExtents(b), column, row, width, height) then
      Err(IndexOutOfBounds)
    else if exists i :: 0 <= i < |grid| && |grid[i]| < width then
      Err(IndexOutOfBounds)
    else
      Ok(Fire(b.(store := WrapRows(b, row, column, grid, width, height)),
              ContentChanged(column, row, width, height)))
  }

  /** The windowed block write changes exactly the rectangle's cells. */
  lemma SetBlockInWindowWrites(b: Buffer, column: int, row: int, grid: seq<seq<Word>>,
                               width: int, height: int, q: int, c: int)
    requires Valid(b) && SetBlockInWindow(b, column, row, grid, width, height).Ok?
    requires ContainsCell(b, c, q)
    ensures GetCellInWindow(SetBlockInWindow(b, column, row, grid, width, height).value, c, q)
            == if row <= q < row + height && column <= c < column + width
               then Ok(grid[q - row][c - column]) else GetCellInWindow(b, c, q)
  {
    var r := SetBlockInWindow(b, column, row, grid, width, height).value;
    assert r.store == WrapRows(b, row, column, grid, width, height);
    WrapRowsAt(b, row, column, grid, width, height, q);
    assert GetCellInWindow(r, c, q) == Ok(r.store[Slot(b, q)][c]);
  }

  /** Physical row `i` receives source row `(i - row) % capacity` when that is below `height`. */
  function WrapRows(b: Buffer, row: int, column: int, grid: seq<seq<Word>>, width: int, height: int)
    : (r: seq<seq<Word>>)
    requires Valid(b) && 0 <= column && 0 <= width && column + width <= b.columns
    requires 0 <= height <= |grid| && height <= |b.store|
    requires forall i :: 0 <= i < |grid| ==> |grid[i]| >= width
    ensures |r| == |b.store| && forall i :: 0 <= i < |r| ==> |r[i]| == b.columns
  {
    var r := seq(|b.store|, i requires 0 <= i < |b.store| =>
      var k := (i - row) % |b.store|;
      if k < height then b.store[i][..column] + grid[k][..width] + b.store[i][column + width..]
      else b.store[i]);
    assert forall i :: 0 <= i < |r| ==> |r[i]| == b.columns;
    r
  }

  lemma WrapRowsAt(b: Buffer, row: int, column: int, grid: seq<seq<Word>>, width: int, height: int, q: int)
    requires Valid(b) && 0 <= column && 0 <= width && column + width <= b.columns
    requires 0 <= height <= |grid| && height <= |b.store|
    requires forall i :: 0 <= i < |grid| ==> |grid[i]| >= width
    requires b.origin <= row && row + height <= b.Tail() && b.origin <= q < b.Tail()
    ensures var r := WrapRows(b, row, column, grid, width, height);
      forall c :: 0 <= c < b.columns ==>
        r[Slot(b, q)][c] == if row <= q < row + height && column <= c < column + width
                            then grid[q - row][c - column] else b.store[Slot(b, q)][c]
  {
    var n := |b.store|;
    Arith.ModDifference(q, row, n);
    if row <= q < row + height {
      Arith.ModOf(q - row, n, 0, q - row);
    } else if q < row {
      // q - row lies in [height - n, -1] because the window spans at most n rows
      Arith.ModOf(q - row, n, -1, q - row + n);
    } else {
      Arith.ModOf(q - row, n, 0, q - row);
    }
  }
}
