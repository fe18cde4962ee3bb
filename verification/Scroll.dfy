/** Scrolling a region of the screen buffer: copy it, in place, to where it goes and fill what it leaves behind,
    all inside a clip rectangle. */
module Scroll {
  import opened Viewport

  datatype Cell = Cell(ch: char, attr: int)

  type Cells = map<Pos, Cell>

  datatype Clip = NoClip | ClipTo(rect: Rect)

  ghost predicate Fills(cells: Cells, buffer: Rect) {
    buffer.left == 0 && buffer.top == 0 && buffer.Valid() && forall p :: p in cells <==> buffer.Has(p)
  }

  /** Every cell of `target` was replaced, all at once, by the one `d` before it. */
  ghost predicate Moved(old_: Cells, cells: Cells, target: Rect, d: Pos) {
    && cells.Keys == old_.Keys
    && forall p {:trigger cells[p]} :: p in old_ ==>
         cells[p] == if target.Has(p) && Sub(p, d) in old_ then old_[Sub(p, d)] else old_[p]
  }

  // ---------------------------------------------------------------------------------------
  // Copying
  // ---------------------------------------------------------------------------------------

  /** `p` comes before `q` on a walk in the given direction. */
  ghost predicate Earlier(dir: int, p: Pos, q: Pos) {
    if dir >= 0 then Less(p, q) else Less(q, p)
  }

  /** The target is complete up to, but not including, `at`. */
  ghost predicate MovedBefore(old_: Cells, cells: Cells, target: Rect, d: Pos, dir: int, at: Pos) {
    && cells.Keys == old_.Keys
    && forall p {:trigger cells[p]} :: p in old_ ==>
         cells[p] == if target.Has(p) && Earlier(dir, p, at) && Sub(p, d) in old_ then old_[Sub(p, d)] else old_[p]
  }

  /** The walk never overwrites a source cell it has yet to read. */
  lemma SourceStillThere(dir: int, d: Pos, from: Pos, to: Pos)
    requires dir == if Less(d, Pos(0, 0)) then 1 else -1
    requires d != Pos(0, 0)
    requires to == from || Earlier(dir, from, to)
    ensures !Earlier(dir, to, Add(from, d))
  {
  }

  /** What one step of the walk does to a position inside the rectangle. */
  lemma WalkStep(r: Rect, p: Pos, dir: int)
    requires r.Valid() && r.Has(p) && (dir == 1 || dir == -1)
    ensures r.Has(WalkInBounds(r, p, dir).0)
    ensures WalkInBounds(r, p, dir).1 <==> Earlier(dir, p, WalkInBounds(r, p, dir).0)
    ensures !WalkInBounds(r, p, dir).1 ==> WalkInBounds(r, p, dir).0 == p
    ensures !WalkInBounds(r, p, dir).1 ==> forall q :: r.Has(q) ==> q == p || Earlier(dir, q, p)
    ensures WalkInBounds(r, p, dir).1 ==>
              forall q :: r.Has(q) ==> (Earlier(dir, q, WalkInBounds(r, p, dir).0) <==> q == p || Earlier(dir, q, p))
  {
    hide WalkInBounds;
    if dir == 1 {
      WalkForward(r, p);
    } else {
      WalkBackward(r, p);
    }
  }

  /** Rectangles of the same shape are walked in step. */
  lemma WalkInStep(source: Rect, target: Rect, d: Pos, p: Pos, dir: int)
    requires source.Valid() && target.Valid() && source.Has(p) && (dir == 1 || dir == -1)
    requires target == Rect(source.left + d.x, source.top + d.y, source.right + d.x, source.bottom + d.y)
    ensures WalkInBounds(target, Add(p, d), dir).0 == Add(WalkInBounds(source, p, dir).0, d)
  {
    hide WalkInBounds;
    if dir == 1 {
      WalkForward(source, p);
      WalkForward(target, Add(p, d));
    } else {
      WalkBackward(source, p);
      WalkBackward(target, Add(p, d));
    }
  }

  /** The cell by cell part of `_CopyRectangle`, reading one cell ahead of the writes. */
  method CopyCells(old_: Cells, ghost buffer: Rect, source: Rect, target: Rect) returns (cells: Cells)
    requires Fills(old_, buffer) && source.Valid() && target.Valid() && source.Origin() != target.Origin()
    requires source.Width() == target.Width() && source.Height() == target.Height()
    requires source.right <= buffer.right && source.bottom <= buffer.bottom
    requires target.right <= buffer.right && target.bottom <= buffer.bottom
    ensures Moved(old_, cells, target, Sub(target.Origin(), source.Origin()))
  {
    hide WalkInBounds, MovedBefore, Moved;
    ghost var d := Sub(target.Origin(), source.Origin());
    var dir := WalkDirection(source, target);
    var sourcePos, targetPos := WalkOrigin(source, dir), WalkOrigin(target, dir);
    cells := old_;
    var next := cells[sourcePos];
    NothingMoved(old_, target, d, dir, targetPos);
    var more := true;
    while more
      invariant source.Has(sourcePos) && target.Has(targetPos) && cells.Keys == old_.Keys
      invariant more ==> targetPos == Add(sourcePos, d) && next == old_[sourcePos]
      invariant more ==> MovedBefore(old_, cells, target, d, dir, targetPos)
      invariant !more ==> Moved(old_, cells, target, d)
      decreases more, if dir == 1 then target.bottom - targetPos.y else targetPos.y - target.top,
                if dir == 1 then target.right - targetPos.x else targetPos.x - target.left
    {
      var current := next;
      assert buffer.Has(targetPos) && Sub(targetPos, d) == sourcePos && buffer.Has(sourcePos);
      WalkStep(source, sourcePos, dir);
      WalkStep(target, targetPos, dir);
      WalkInStep(source, target, d, sourcePos, dir);
      var ahead := WalkInBounds(source, sourcePos, dir).0;
      SourceStillThere(dir, d, sourcePos, ahead);
      Unread(old_, cells, target, d, dir, targetPos, ahead);
      next := cells[ahead];
      MoveOne(old_, cells, target, d, dir, targetPos, current);
      cells := cells[targetPos := current];
      sourcePos := ahead;
      var step := WalkInBounds(target, targetPos, dir);
      targetPos, more := step.0, step.1;
    }
  }

  lemma NothingMoved(old_: Cells, target: Rect, d: Pos, dir: int, at: Pos)
    requires at == WalkOrigin(target, dir)
    ensures MovedBefore(old_, old_, target, d, dir, at)
  {
  }

  lemma Unread(old_: Cells, cells: Cells, target: Rect, d: Pos, dir: int, at: Pos, p: Pos)
    requires MovedBefore(old_, cells, target, d, dir, at) && p in old_ && !Earlier(dir, p, at)
    ensures p in cells && cells[p] == old_[p]
  {
  }

  lemma MoveOne(old_: Cells, cells: Cells, target: Rect, d: Pos, dir: int, at: Pos, current: Cell)
    requires MovedBefore(old_, cells, target, d, dir, at) && target.Has(at) && at in old_ && (dir == 1 || dir == -1)
    requires target.Valid() && Sub(at, d) in old_ && current == old_[Sub(at, d)]
    ensures WalkInBounds(target, at, dir).1 ==>
              MovedBefore(old_, cells[at := current], target, d, dir, WalkInBounds(target, at, dir).0)
    ensures !WalkInBounds(target, at, dir).1 ==> Moved(old_, cells[at := current], target, d)
  {
    hide WalkInBounds;
    WalkStep(target, at, dir);
  }

  /** `ScrollRows`: move whole rows, starting from the side they move to. */
  method CopyRows(old_: Cells, ghost buffer: Rect, firstRow: int, size: int, delta: int) returns (cells: Cells)
    requires Fills(old_, buffer) && 0 <= firstRow && 0 <= size && firstRow + size <= buffer.bottom + 1
    requires 0 <= firstRow + delta && firstRow + size + delta <= buffer.bottom + 1
    ensures Moved(old_, cells, Rect(0, firstRow + delta, buffer.right, firstRow + size + delta - 1), Pos(0, delta))
  {
    cells := old_;
    if delta == 0 {
      return;
    }
    hide RowsMoved, Fills;
    var y, end, step := 0, 0, 0;
    if delta < 0 {
      y, end, step := firstRow, firstRow + size, 1;
    } else {
      y, end, step := firstRow + size - 1, firstRow - 1, -1;
    }
    ghost var lo, hi := y, y;
    if step == -1 {
      lo, hi := y + 1, y + 1;
    }
    NoRowsMoved(old_, lo, delta);
    while y != end
      invariant firstRow <= lo <= hi <= firstRow + size
      invariant if step == 1 then delta < 0 && lo == firstRow && hi == y && end == firstRow + size
                else step == -1 && delta > 0 && hi == firstRow + size && lo == y + 1 && end == firstRow - 1
      invariant Fills(cells, buffer) && RowsMoved(old_, cells, lo, hi, delta)
      decreases if step == 1 then end - y else y - end
    {
      var copied := CopyRow(cells, buffer, y, y + delta);
      MoveRow(old_, cells, copied, buffer, lo, hi, delta, y);
      cells := copied;
      if step == 1 {
        hi := hi + 1;
      } else {
        lo := lo - 1;
      }
      y := y + step;
    }
    AllRowsMoved(old_, cells, buffer, firstRow, size, delta);
  }

  /** Rows `lo .. hi` have been moved by `delta`. */
  ghost predicate RowsMoved(old_: Cells, cells: Cells, lo: int, hi: int, delta: int) {
    && cells.Keys == old_.Keys
    && forall p {:trigger cells[p]} :: p in old_ ==>
         cells[p] == if lo <= p.y - delta < hi && Pos(p.x, p.y - delta) in old_ then old_[Pos(p.x, p.y - delta)] else old_[p]
  }

  lemma NoRowsMoved(old_: Cells, lo: int, delta: int)
    ensures RowsMoved(old_, old_, lo, lo, delta)
  {
  }

  /** Moving the next row in the direction of travel: the row is still as it was. */
  lemma MoveRow(old_: Cells, cells: Cells, copied: Cells, buffer: Rect, lo: int, hi: int, delta: int, y: int)
    requires Fills(cells, buffer) && RowsMoved(old_, cells, lo, hi, delta) && lo <= hi
    requires 0 <= y <= buffer.bottom && (if delta < 0 then y == hi else y == lo - 1) && delta != 0
    requires copied.Keys == cells.Keys
    requires forall p {:trigger copied[p]} :: p in cells ==> copied[p] == if p.y == y + delta then cells[Pos(p.x, y)] else cells[p]
    ensures Fills(copied, buffer)
    ensures if delta < 0 then RowsMoved(old_, copied, lo, hi + 1, delta) else RowsMoved(old_, copied, lo - 1, hi, delta)
  {
    assert copied.Keys == old_.Keys;
    var lo', hi' := if delta < 0 then lo else lo - 1, if delta < 0 then hi + 1 else hi;
    forall p | p in old_
      ensures copied[p] == if lo' <= p.y - delta < hi' && Pos(p.x, p.y - delta) in old_ then old_[Pos(p.x, p.y - delta)]
                           else old_[p]
    {
      assert p in cells;
      if p.y == y + delta {
        assert Pos(p.x, y) in cells && Pos(p.x, p.y - delta) == Pos(p.x, y);
        assert copied[p] == cells[Pos(p.x, y)] == old_[Pos(p.x, y)];
      } else {
        assert copied[p] == cells[p];
      }
    }
  }

  lemma AllRowsMoved(old_: Cells, cells: Cells, buffer: Rect, firstRow: int, size: int, delta: int)
    requires Fills(old_, buffer) && 0 <= firstRow && 0 <= size && firstRow + size <= buffer.bottom + 1
    requires RowsMoved(old_, cells, firstRow, firstRow + size, delta)
    ensures Moved(old_, cells, Rect(0, firstRow + delta, buffer.right, firstRow + size + delta - 1), Pos(0, delta))
  {
    var target := Rect(0, firstRow + delta, buffer.right, firstRow + size + delta - 1);
    forall p | p in old_
      ensures cells[p] == if target.Has(p) && Sub(p, Pos(0, delta)) in old_ then old_[Sub(p, Pos(0, delta))] else old_[p]
    {
      assert buffer.Has(p) && p in cells;
      assert Sub(p, Pos(0, delta)) == Pos(p.x, p.y - delta);
      var c := cells[p];
    }
  }

  method CopyRow(old_: Cells, ghost buffer: Rect, from: int, to: int) returns (cells: Cells)
    requires Fills(old_, buffer) && 0 <= from <= buffer.bottom
    ensures cells.Keys == old_.Keys
    ensures forall p {:trigger cells[p]} :: p in old_ ==> cells[p] == if p.y == to then old_[Pos(p.x, from)] else old_[p]
  {
    cells := map p | p in old_ :: if p.y == to then old_[Pos(p.x, from)] else old_[p];
  }

  lemma NotMoved(old_: Cells, target: Rect)
    ensures Moved(old_, old_, target, Pos(0, 0))
  {
  }

  /** `_CopyRectangle`, whichever way it takes: the target ends up as if it had been copied all at once. */
  method CopyRectangle(old_: Cells, buffer: Rect, source: Rect, targetOrigin: Pos) returns (cells: Cells)
    requires Fills(old_, buffer) && source.Valid() && source.right <= buffer.right && source.bottom <= buffer.bottom
    requires 0 <= targetOrigin.x && targetOrigin.x + source.Width() - 1 <= buffer.right
    requires 0 <= targetOrigin.y && targetOrigin.y + source.Height() - 1 <= buffer.bottom
    ensures Moved(old_, cells, FromDimensions(targetOrigin, source.Width(), source.Height()),
                  Sub(targetOrigin, source.Origin()))
  {
    hide Moved;
    cells := old_;
    if source.Origin() == targetOrigin {
      NotMoved(old_, FromDimensions(targetOrigin, source.Width(), source.Height()));
      return;
    }
    if source.Width() == buffer.Width() && source.left == 0 && targetOrigin.x == 0 {
      cells := CopyRows(old_, buffer, source.top, source.Height(), targetOrigin.y - source.top);
      return;
    }
    cells := CopyCells(old_, buffer, source, FromDimensions(targetOrigin, source.Width(), source.Height()));
  }

  // ---------------------------------------------------------------------------------------
  // Scrolling
  // ---------------------------------------------------------------------------------------

  /** The cell that revealed space is filled with: a null character with a null attribute asks for the default. */
  ghost function FillCell(ch: char, attr: int, defaultAttr: int): Cell {
    if ch == '\0' && attr == 0 then Cell(' ', defaultAttr) else Cell(ch, attr)
  }

  ghost function ClipArea(clip: Clip, buffer: Rect): Rect {
    match clip
    case NoClip => buffer
    case ClipTo(r) => r
  }

  /** A clip rectangle, if there is one, limits what may change. */
  ghost predicate InClip(clip: Clip, p: Pos) {
    clip.NoClip? || clip.rect.Has(p)
  }

  /** Some cell of the buffer is both in the scrolled region and in the clip area. */
  ghost predicate Meets(buffer: Rect, scroll: Rect, clip: Rect) {
    exists q :: buffer.Has(q) && scroll.Has(q) && clip.Has(q)
  }

  /** Scrolling as one simultaneous assignment: what a cell holds afterwards, from what all cells held before. */
  ghost function Scrolled(old_: Cells, buffer: Rect, scroll: Rect, clip: Rect, d: Pos, fill: Cell, p: Pos): Cell
    requires p in old_
  {
    if !Meets(buffer, scroll, clip) || !clip.Has(p) then old_[p]
    else if scroll.Has(Sub(p, d)) && Sub(p, d) in old_ then old_[Sub(p, d)]
    else if scroll.Has(p) then fill
    else old_[p]
  }

  method WriteRect(old_: Cells, view: Rect, fill: Cell) returns (cells: Cells)
    ensures cells.Keys == old_.Keys
    ensures forall p {:trigger cells[p]} :: p in old_ ==> cells[p] == if view.Has(p) then fill else old_[p]
  {
    cells := map p | p in old_ :: if view.Has(p) then fill else old_[p];
  }

  /** Fill several rectangles in turn. */
  method FillAll(old_: Cells, views: seq<Rect>, fill: Cell) returns (cells: Cells)
    ensures cells.Keys == old_.Keys
    ensures forall p {:trigger cells[p]} :: p in old_ ==> cells[p] == if Covered(views, p) then fill else old_[p]
  {
    cells := old_;
    var i := 0;
    while i < |views|
      invariant i <= |views| && cells.Keys == old_.Keys
      invariant forall p {:trigger cells[p]} :: p in old_ ==> cells[p] == if Covered(views[..i], p) then fill else old_[p]
    {
      forall p
        ensures Covered(views[..i + 1], p) <==> Covered(views[..i], p) || views[i].Has(p)
      {
        assert views[..i + 1] == views[..i] + [views[i]];
        CoveredConcat(views[..i], [views[i]], p);
        assert [views[i]][0] == views[i];
      }
      cells := WriteRect(cells, views[i], fill);
      i := i + 1;
    }
    assert views[..i] == views;
  }

  class Screen {
    const buffer: Rect
    const defaultAttr: int
    var cells: Cells

    ghost predicate Valid()
      reads this
    {
      Fills(cells, buffer)
    }

    constructor (buffer: Rect, defaultAttr: int, cells: Cells)
      requires Fills(cells, buffer)
      ensures Valid() && this.cells == cells && this.buffer == buffer && this.defaultAttr == defaultAttr
    {
      this.buffer, this.defaultAttr, this.cells := buffer, defaultAttr, cells;
    }

    /** `ScrollRegion`, step by step. If no cell of the scrolled region may change, none does. Otherwise every cell that may
        change takes the one from which it is scrolled to, if that is a cell of the region; else it is filled if it is in the
        region itself; all other cells stay as they are. */
    method ScrollRegion(scroll: Rect, clipGiven: Clip, destination: Pos, fillChar: char, fillAttr: int)
      requires Valid()
      modifies this
      ensures Valid() && cells.Keys == old(cells).Keys
      ensures (forall q :: q in old(cells) && scroll.Has(q) ==> !InClip(clipGiven, q)) ==> cells == old(cells)
      ensures (exists q :: q in old(cells) && scroll.Has(q) && InClip(clipGiven, q)) ==>
                forall p {:trigger cells[p]} :: p in cells ==>
                  var from := Pos(p.x - (destination.x - scroll.left), p.y - (destination.y - scroll.top));
                  cells[p] ==
                  if !InClip(clipGiven, p) then old(cells)[p]
                  else if from in old(cells) && scroll.Has(from) then old(cells)[from]
                  else if !scroll.Has(p) then old(cells)[p]
                  else if fillChar == '\0' && fillAttr == 0 then Cell(' ', defaultAttr)
                  else Cell(fillChar, fillAttr)
    {
      hide Intersect, Subtract, Scrolled, Meets, Moved, Covered, Fills, FillCell, ClipArea, Rect.Has, InClip;
      ghost var area, d := ClipArea(clipGiven, buffer), Sub(destination, scroll.Origin());
      var fillCell := Cell(fillChar, fillAttr);
      if fillChar == '\0' && fillAttr == 0 {
        fillCell := Cell(' ', defaultAttr);
      }
      Scroll(scroll, if clipGiven.ClipTo? then clipGiven.rect else buffer, destination, fillCell);
      Prepared(clipGiven, buffer, fillChar, fillAttr, defaultAttr);
      WrittenOut(old(cells), cells, buffer, scroll, clipGiven, destination, fillChar, fillAttr, defaultAttr);
    }

    /** The same, once the fill cell and the clip area are known. */
    method Scroll(scroll: Rect, area: Rect, destination: Pos, fillCell: Cell)
      requires Valid()
      modifies this
      ensures Valid() && cells.Keys == old(cells).Keys
      ensures forall p :: p in cells ==>
                            cells[p] == Scrolled(old(cells), buffer, scroll, area, Sub(destination, scroll.Origin()), fillCell, p)
    {
      hide Intersect, Subtract, Scrolled, Meets, Moved, Covered, Fills, Rect.Has;
      ghost var d := Sub(destination, scroll.Origin());
      var source := Intersect(scroll, buffer);
      if !source.Valid() {
        NothingMeets(cells, buffer, scroll, area, d, fillCell);
        return;
      }
      var clip := Intersect(buffer, area);
      var fill := Intersect(clip, source);
      if !fill.Valid() {
        NothingMeets(cells, buffer, scroll, area, d, fillCell);
        return;
      }
      var targetOrigin := Add(destination, Sub(source.Origin(), scroll.Origin()));
      var unclipped := FromDimensions(targetOrigin, source.Width(), source.Height());
      var target := Intersect(clip, unclipped);
      var sourceOrigin := Add(source.Origin(), Sub(target.Origin(), unclipped.Origin()));
      source := FromDimensions(sourceOrigin, target.Width(), target.Height());
      var moved := cells;
      BufferShape(cells, buffer);
      Areas(buffer, scroll, area, d, clip, fill, unclipped, target, source);
      if target.Valid() {
        moved := CopyRectangle(cells, buffer, source, target.Origin());
      } else {
        NothingToMove(cells, target, d);
      }
      var filled := FillAll(moved, Subtract(fill, target), fillCell);
      Combine(cells, moved, filled, buffer, scroll, area, d, fill, target, fillCell);
      cells := filled;
    }
  }

  lemma Prepared(clip: Clip, buffer: Rect, ch: char, attr: int, defaultAttr: int)
    ensures ClipArea(clip, buffer) == if clip.ClipTo? then clip.rect else buffer
    ensures FillCell(ch, attr, defaultAttr) == if ch == '\0' && attr == 0 then Cell(' ', defaultAttr) else Cell(ch, attr)
  {
  }

  lemma WrittenOut(old_: Cells, cells: Cells, buffer: Rect, scroll: Rect, clip: Clip, destination: Pos,
                   ch: char, attr: int, defaultAttr: int)
    requires Fills(old_, buffer) && cells.Keys == old_.Keys
    requires forall p :: p in cells ==>
                           cells[p] == Scrolled(old_, buffer, scroll, ClipArea(clip, buffer), Sub(destination, scroll.Origin()),
                                                FillCell(ch, attr, defaultAttr), p)
    ensures (forall q :: q in old_ && scroll.Has(q) ==> !InClip(clip, q)) ==> cells == old_
    ensures (exists q :: q in old_ && scroll.Has(q) && InClip(clip, q)) ==>
              forall p {:trigger cells[p]} :: p in cells ==>
                var from := Pos(p.x - (destination.x - scroll.left), p.y - (destination.y - scroll.top));
                cells[p] ==
                if !InClip(clip, p) then old_[p]
                else if from in old_ && scroll.Has(from) then old_[from]
                else if !scroll.Has(p) then old_[p]
                else if ch == '\0' && attr == 0 then Cell(' ', defaultAttr)
                else Cell(ch, attr)
  {
    hide Rect.Has, Scrolled, Meets, InClip, ClipArea, FillCell, Fills;
    var area := ClipArea(clip, buffer);
    MeetsIff(old_, buffer, scroll, clip);
    if Meets(buffer, scroll, area) {
      forall p {:trigger cells[p]} | p in cells
        ensures cells[p] == At(old_, scroll, clip, destination, ch, attr, defaultAttr, p)
      {
        ScrolledAt(old_, buffer, scroll, clip, destination, ch, attr, defaultAttr, p);
      }
    } else {
      forall p | p in cells
        ensures cells[p] == old_[p]
      {
        NotScrolled(old_, buffer, scroll, area, Sub(destination, scroll.Origin()), FillCell(ch, attr, defaultAttr), p);
      }
    }
  }

  lemma MeetsIff(old_: Cells, buffer: Rect, scroll: Rect, clip: Clip)
    requires Fills(old_, buffer)
    ensures Meets(buffer, scroll, ClipArea(clip, buffer)) <==> exists q :: q in old_ && scroll.Has(q) && InClip(clip, q)
  {
    hide Rect.Has;
    var area := ClipArea(clip, buffer);
    if q :| q in old_ && scroll.Has(q) && InClip(clip, q) {
      assert buffer.Has(q) && scroll.Has(q) && area.Has(q);
    }
    if q :| buffer.Has(q) && scroll.Has(q) && area.Has(q) {
      assert q in old_ && scroll.Has(q) && InClip(clip, q);
    }
  }

  /** What a cell holds after scrolling, if anything may change at all. */
  ghost function At(old_: Cells, scroll: Rect, clip: Clip, destination: Pos, ch: char, attr: int, defaultAttr: int, p: Pos): Cell
    requires p in old_
  {
    var from := Pos(p.x - (destination.x - scroll.left), p.y - (destination.y - scroll.top));
    if !InClip(clip, p) then old_[p]
    else if from in old_ && scroll.Has(from) then old_[from]
    else if !scroll.Has(p) then old_[p]
    else if ch == '\0' && attr == 0 then Cell(' ', defaultAttr)
    else Cell(ch, attr)
  }

  lemma ScrolledAt(old_: Cells, buffer: Rect, scroll: Rect, clip: Clip, destination: Pos, ch: char, attr: int,
                   defaultAttr: int, p: Pos)
    requires Fills(old_, buffer) && p in old_ && Meets(buffer, scroll, ClipArea(clip, buffer))
    ensures Scrolled(old_, buffer, scroll, ClipArea(clip, buffer), Sub(destination, scroll.Origin()),
                     FillCell(ch, attr, defaultAttr), p) == At(old_, scroll, clip, destination, ch, attr, defaultAttr, p)
  {
    hide Meets;
  }

  lemma NotScrolled(old_: Cells, buffer: Rect, scroll: Rect, area: Rect, d: Pos, fill: Cell, p: Pos)
    requires p in old_ && !Meets(buffer, scroll, area)
    ensures Scrolled(old_, buffer, scroll, area, d, fill, p) == old_[p]
  {
  }

  lemma BufferShape(cells: Cells, buffer: Rect)
    requires Fills(cells, buffer)
    ensures buffer.left == 0 && buffer.top == 0 && buffer.Valid()
  {
  }

  lemma NothingMeets(old_: Cells, buffer: Rect, scroll: Rect, clip: Rect, d: Pos, fill: Cell)
    requires Fills(old_, buffer)
    requires !Intersect(scroll, buffer).Valid() || !Intersect(Intersect(buffer, clip), Intersect(scroll, buffer)).Valid()
    ensures !Meets(buffer, scroll, clip)
    ensures forall p :: p in old_ ==> old_[p] == Scrolled(old_, buffer, scroll, clip, d, fill, p)
  {
    var s, c := Intersect(scroll, buffer), Intersect(buffer, clip);
    forall q
      ensures buffer.Has(q) && scroll.Has(q) && clip.Has(q) ==> s.Has(q) && Intersect(c, s).Has(q)
    {
    }
  }

  /** What the rectangles computed on the way stand for. */
  lemma Areas(buffer: Rect, scroll: Rect, area: Rect, d: Pos, clip: Rect, fill: Rect, unclipped: Rect, target: Rect, source: Rect)
    requires buffer.left == 0 && buffer.top == 0 && buffer.Valid()
    requires clip == Intersect(buffer, area) && fill == Intersect(clip, Intersect(scroll, buffer)) && fill.Valid()
    requires unclipped == FromDimensions(Add(Add(scroll.Origin(), d), Sub(Intersect(scroll, buffer).Origin(), scroll.Origin())),
                                         Intersect(scroll, buffer).Width(), Intersect(scroll, buffer).Height())
    requires target == Intersect(clip, unclipped)
    requires source == FromDimensions(Add(Intersect(scroll, buffer).Origin(), Sub(target.Origin(), unclipped.Origin())),
                                      target.Width(), target.Height())
    ensures forall p :: fill.Has(p) <==> buffer.Has(p) && area.Has(p) && scroll.Has(p)
    ensures forall p :: target.Has(p) <==> buffer.Has(p) && area.Has(p) && scroll.Has(Sub(p, d)) && buffer.Has(Sub(p, d))
    ensures target.Valid() || target == EMPTY
    ensures target.Valid() ==> target == FromDimensions(target.Origin(), source.Width(), source.Height())
    ensures target.Valid() ==> target.right <= buffer.right && target.bottom <= buffer.bottom
    ensures target.Valid() ==> source.Valid() && source.right <= buffer.right && source.bottom <= buffer.bottom
    ensures target.Valid() ==> Sub(target.Origin(), source.Origin()) == d
  {
    hide Intersect, FromDimensions, Rect.Has;
    forall p
      ensures fill.Has(p) <==> buffer.Has(p) && area.Has(p) && scroll.Has(p)
      ensures target.Has(p) <==> buffer.Has(p) && area.Has(p) && scroll.Has(Sub(p, d)) && buffer.Has(Sub(p, d))
    {
      AreasAt(buffer, scroll, area, d, clip, fill, unclipped, target, p);
    }
    SourceShape(buffer, scroll, area, d, clip, fill, unclipped, target, source);
  }

  lemma AreasAt(buffer: Rect, scroll: Rect, area: Rect, d: Pos, clip: Rect, fill: Rect, unclipped: Rect, target: Rect, p: Pos)
    requires buffer.left == 0 && buffer.top == 0 && buffer.Valid()
    requires clip == Intersect(buffer, area) && fill == Intersect(clip, Intersect(scroll, buffer)) && fill.Valid()
    requires unclipped == FromDimensions(Add(Add(scroll.Origin(), d), Sub(Intersect(scroll, buffer).Origin(), scroll.Origin())),
                                         Intersect(scroll, buffer).Width(), Intersect(scroll, buffer).Height())
    requires target == Intersect(clip, unclipped)
    ensures fill.Has(p) <==> buffer.Has(p) && area.Has(p) && scroll.Has(p)
    ensures target.Has(p) <==> buffer.Has(p) && area.Has(p) && scroll.Has(Sub(p, d)) && buffer.Has(Sub(p, d))
  {
    hide Intersect;
    CutShape(scroll, buffer, clip, area);
    IntersectAt(buffer, area, p);
    IntersectAt(scroll, buffer, p);
    IntersectAt(scroll, buffer, Sub(p, d));
    IntersectAt(clip, Intersect(scroll, buffer), p);
    IntersectAt(clip, unclipped, p);
    var cut := Intersect(scroll, buffer);
    assert unclipped.Has(p) <==> cut.Has(Sub(p, d));
  }

  /** What is common to two rectangles, one of which lies on the screen. */
  lemma IntersectAt(a: Rect, b: Rect, p: Pos)
    requires (0 <= a.left && 0 <= a.top) || (0 <= b.left && 0 <= b.top)
    ensures Intersect(a, b).Has(p) <==> a.Has(p) && b.Has(p)
  {
  }

  lemma CutShape(scroll: Rect, buffer: Rect, clip: Rect, area: Rect)
    requires buffer.left == 0 && buffer.top == 0 && clip == Intersect(buffer, area)
    ensures Intersect(scroll, buffer).left >= 0 && Intersect(scroll, buffer).top >= 0
    ensures clip.left >= 0 && clip.top >= 0
  {
  }

  lemma SourceShape(buffer: Rect, scroll: Rect, area: Rect, d: Pos, clip: Rect, fill: Rect, unclipped: Rect, target: Rect,
                    source: Rect)
    requires buffer.left == 0 && buffer.top == 0 && buffer.Valid()
    requires clip == Intersect(buffer, area) && fill == Intersect(clip, Intersect(scroll, buffer)) && fill.Valid()
    requires unclipped == FromDimensions(Add(Add(scroll.Origin(), d), Sub(Intersect(scroll, buffer).Origin(), scroll.Origin())),
                                         Intersect(scroll, buffer).Width(), Intersect(scroll, buffer).Height())
    requires target == Intersect(clip, unclipped)
    requires source == FromDimensions(Add(Intersect(scroll, buffer).Origin(), Sub(target.Origin(), unclipped.Origin())),
                                      target.Width(), target.Height())
    ensures target.Valid() || target == EMPTY
    ensures target.Valid() ==> target == FromDimensions(target.Origin(), source.Width(), source.Height())
    ensures target.Valid() ==> target.right <= buffer.right && target.bottom <= buffer.bottom
    ensures target.Valid() ==> source.Valid() && source.right <= buffer.right && source.bottom <= buffer.bottom
    ensures target.Valid() ==> Sub(target.Origin(), source.Origin()) == d
  {
  }

  lemma NothingToMove(old_: Cells, target: Rect, d: Pos)
    requires target == EMPTY
    ensures Moved(old_, old_, target, d)
  {
  }

  /** Copying, then filling what the copy did not cover, is the simultaneous assignment. */
  lemma Combine(old_: Cells, moved: Cells, filled: Cells, buffer: Rect, scroll: Rect, area: Rect, d: Pos,
                fill: Rect, target: Rect, cell: Cell)
    requires Fills(old_, buffer) && Moved(old_, moved, target, d) && fill.Valid()
    requires forall p :: fill.Has(p) <==> buffer.Has(p) && area.Has(p) && scroll.Has(p)
    requires forall p :: target.Has(p) <==> buffer.Has(p) && area.Has(p) && scroll.Has(Sub(p, d)) && buffer.Has(Sub(p, d))
    requires filled.Keys == moved.Keys
    requires forall p {:trigger filled[p]} :: p in moved ==>
               filled[p] == if Covered(Subtract(fill, target), p) then cell else moved[p]
    ensures Fills(filled, buffer) && filled.Keys == old_.Keys
    ensures forall p :: p in filled ==> p in old_ && filled[p] == Scrolled(old_, buffer, scroll, area, d, cell, p)
  {
    hide Subtract, Covered;
    var corner := Pos(fill.left, fill.top);
    assert fill.Has(corner);
    assert Meets(buffer, scroll, area);
    assert filled.Keys == old_.Keys;
    forall p | p in old_
      ensures filled[p] == Scrolled(old_, buffer, scroll, area, d, cell, p)
    {
      SubtractMeans(fill, target, p);
      assert buffer.Has(p) && p in moved;
      assert target.Has(p) ==> Sub(p, d) in old_;
      var m := moved[p];
    }
  }
}
