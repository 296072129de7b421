/**
 * The selection control's geometry: the rectangle a drag spans, and how a
 * selection is applied to the buffer by reading the block under it,
 * flipping each cell's selected flag and writing the block back.
 */
module Selection {
  import opened Outcomes
  import opened Cell
  import opened Geometry
  import opened Scrollback

  /**
   * `createRectangle(p0, p1)`: the smallest rectangle holding both points,
   * arranged so that its width and height are positive.
   */
  function CreateRectangle(p0: Point, p1: Point): (r: Rect)
    ensures r.width >= 1 && r.height >= 1
    ensures r.x == Min(p0.x, p1.x) && r.x + r.width - 1 == Max(p0.x, p1.x)
    ensures r.y == Min(p0.y, p1.y) && r.y + r.height - 1 == Max(p0.y, p1.y)
  {
    var rect := Rect(p0.x, p0.y, p1.x - p0.x, p1.y - p0.y);
    var rect := if rect.width < 0 then rect.(x := rect.x + rect.width, width := -rect.width) else rect;
    var rect := if rect.height < 0 then rect.(y := rect.y + rect.height, height := -rect.height) else rect;
    rect.(width := rect.width + 1, height := rect.height + 1)
  }

  /** Both points lie in the rectangle. */
  lemma CreateRectangleContainsBoth(p0: Point, p1: Point)
    ensures ContainsPoint(CreateRectangle(p0, p1), p0.x, p0.y)
    ensures ContainsPoint(CreateRectangle(p0, p1), p1.x, p1.y)
  {
  }

  /** Every rectangle holding both points holds the whole created rectangle. */
  lemma CreateRectangleIsSmallest(p0: Point, p1: Point, q: Rect)
    requires ContainsPoint(q, p0.x, p0.y) && ContainsPoint(q, p1.x, p1.y)
    ensures var r := CreateRectangle(p0, p1);
      q.x <= r.x && r.x + r.width <= q.x + q.width && q.y <= r.y && r.y + r.height <= q.y + q.height
  {
  }

  /** The order of the two points does not matter. */
  lemma CreateRectangleSymmetric(p0: Point, p1: Point)
    ensures CreateRectangle(p0, p1) == CreateRectangle(p1, p0)
  {
  }

  /** A click without a drag selects exactly one cell. */
  lemma CreateRectangleOfOnePoint(p: Point)
    ensures CreateRectangle(p, p) == Rect(p.x, p.y, 1, 1)
  {
  }

  /** Every cell of a block with its selected flag set to `on`. */
  function MarkBlock(grid: seq<seq<Word>>, on: bool): (r: seq<seq<Word>>)
    ensures |r| == |grid|
    ensures forall i :: 0 <= i < |grid| ==> |r[i]| == |grid[i]|
    ensures forall i, k :: 0 <= i < |grid| && 0 <= k < |grid[i]| ==> r[i][k] == SetSelected(grid[i][k], on)
  {
    seq(|grid|, i requires 0 <= i < |grid| => MarkRow(grid[i], on))
  }

  function MarkRow(row: seq<Word>, on: bool): (r: seq<Word>)
    ensures |r| == |row| && forall k :: 0 <= k < |row| ==> r[k] == SetSelected(row[k], on)
  {
    seq(|row|, k requires 0 <= k < |row| => SetSelected(row[k], on))
  }

  /**
   * `setSelection(selection, selected)`: clips the selection to the
   * buffer's extents; if anything is left, reads that block, sets or clears
   * the selected flag of each cell and writes the block back.  The block
   * read and write are the buffer's own, so their exceptions propagate.
   */
  function SetSelection(b: Buffer, selection: Rect, on: bool): (r: Partial)
    requires Valid(b)
    ensures Valid(r.after) && r.after.columns == b.columns && |r.after.store| == |b.store|
    ensures IsEmpty(Intersection(selection, GetExtents(b))) ==> r == Partial(b, None)
  {
    var u := Intersection(selection, GetExtents(b));
    if IsEmpty(u) then Partial(b, None)
    else
      match GetBlock(b, u.x, u.y, u.width, u.height)
      case Err(error) => Partial(b, Some(error))
      case Ok(copied) => SetBlock(b, u.x, u.y, MarkBlock(copied, on), u.width, u.height)
  }

  /** A non-empty clipped selection lies inside the extents. */
  lemma IntersectionInsideExtents(b: Buffer, selection: Rect)
    requires Valid(b)
    ensures var u := Intersection(selection, GetExtents(b));
      !IsEmpty(u) ==> ContainsRect(GetExtents(b), u.x, u.y, u.width, u.height)
  {
  }

  /**
   * The effect of `setSelection`.  When the clipped selection reaches past
   * the store's last physical row (possible only once the window has slid),
   * the block read throws and nothing changes.  Otherwise exactly the cells
   * of the clipped selection get the selected flag `on`, every other cell
   * keeps its value, and one content event for the clipped selection fires.
   */
  lemma SetSelectionEffect(b: Buffer, selection: Rect, on: bool)
    requires Valid(b)
    ensures var u := Intersection(selection, GetExtents(b));
      var r := SetSelection(b, selection, on);
      !IsEmpty(u) && u.y + u.height > |b.store| ==> r == Partial(b, Some(IndexOutOfBounds))
    ensures var u := Intersection(selection, GetExtents(b));
      var r := SetSelection(b, selection, on);
      !IsEmpty(u) && u.y + u.height <= |b.store| ==>
        && r.thrown.None?
        && r.after == b.(store := r.after.store,
                         log := b.log + [Delivery(ContentChanged(u.x, u.y, u.width, u.height), b.observers)])
        && forall i, c :: 0 <= i < |b.store| && 0 <= c < b.columns ==>
             r.after.store[i][c] == if ContainsPoint(u, c, i) then SetSelected(b.store[i][c], on)
                                    else b.store[i][c]
  {
    var u := Intersection(selection, GetExtents(b));
    IntersectionInsideExtents(b, selection);
    if !IsEmpty(u) && u.y + u.height <= |b.store| {
      var copied := GetBlock(b, u.x, u.y, u.width, u.height).value;
      var marked := MarkBlock(copied, on);
      assert forall i :: 0 <= i < |marked| ==> |marked[i]| >= u.width;
      var r := SetBlock(b, u.x, u.y, marked, u.width, u.height);
      assert SetSelection(b, selection, on) == r;
    }
  }

  /** Before the window first slides, `setSelection` never throws. */
  lemma SetSelectionBeforeSlide(b: Buffer, selection: Rect, on: bool)
    requires Valid(b) && b.origin == 0
    ensures SetSelection(b, selection, on).thrown.None?
  {
    SetSelectionEffect(b, selection, on);
  }

  /** Inside the clipped selection only the selected field of a decoded cell changes. */
  lemma SetSelectionKeepsCharacterAndColours(b: Buffer, selection: Rect, on: bool, i: int, c: int)
    requires Valid(b) && SetSelection(b, selection, on).thrown.None?
    requires 0 <= i < |b.store| && 0 <= c < b.columns
    requires ContainsPoint(Intersection(selection, GetExtents(b)), c, i)
    ensures var w := b.store[i][c];
      Decode(SetSelection(b, selection, on).after.store[i][c])
      == Decode(w).(attributes := Decode(w).attributes.(selected := on))
  {
    SetSelectionEffect(b, selection, on);
    DecodeSetSelected(b.store[i][c], on);
  }
}
