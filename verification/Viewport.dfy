/** Inclusive rectangles on the screen buffer and the walks through them. */
module Viewport {
  import opened Numbers

  datatype Pos = Pos(x: int, y: int)

  /** An inclusive rectangle; it has area only when `Valid`. */
  datatype Rect = Rect(left: int, top: int, right: int, bottom: int) {
    predicate Valid() {
      left >= 0 && top >= 0 && right >= left && bottom >= top
    }

    predicate Has(p: Pos) {
      left <= p.x <= right && top <= p.y <= bottom
    }

    function Origin(): Pos {
      Pos(left, top)
    }

    function Width(): int {
      right + 1 - left
    }

    function Height(): int {
      bottom + 1 - top
    }
  }

  const EMPTY: Rect := Rect(0, 0, -1, -1)

  function Add(p: Pos, d: Pos): Pos {
    Pos(p.x + d.x, p.y + d.y)
  }

  function Sub(p: Pos, d: Pos): Pos {
    Pos(p.x - d.x, p.y - d.y)
  }

  function FromDimensions(origin: Pos, width: int, height: int): Rect {
    Rect(origin.x, origin.y, origin.x + width - 1, origin.y + height - 1)
  }

  /** The rectangles do not meet, or the corner where their common area begins has no negative coordinate. */
  predicate MeetClear(a: Rect, b: Rect) {
    || (Max(a.left, b.left) >= 0 && Max(a.top, b.top) >= 0)
    || Max(a.left, b.left) > Min(a.right, b.right)
    || Max(a.top, b.top) > Min(a.bottom, b.bottom)
  }

  /** The common area, or the empty rectangle whenever it would begin at a negative coordinate. */
  function Intersect(a: Rect, b: Rect): (r: Rect)
    ensures r.Valid() || r == EMPTY
  {
    var r := Rect(Max(a.left, b.left), Max(a.top, b.top), Min(a.right, b.right), Min(a.bottom, b.bottom));
    if r.Valid() then r else EMPTY
  }

  /** It is the set intersection if and only if the rectangles meet clear of negative coordinates, if at all. */
  lemma IntersectIff(a: Rect, b: Rect)
    ensures (forall p :: Intersect(a, b).Has(p) <==> a.Has(p) && b.Has(p)) <==> MeetClear(a, b)
  {
    if !MeetClear(a, b) {
      var p := Pos(Max(a.left, b.left), Max(a.top, b.top));
      assert a.Has(p) && b.Has(p) && !Intersect(a, b).Has(p);
    }
  }

  /** One column to the left of the screen is enough to lose all of a common area that reaches far into it. */
  lemma NegativeCornerLosesAll()
    ensures var r := Rect(-1, 0, 5, 5);
            !MeetClear(r, r) && Intersect(r, r) == EMPTY && r.Has(Pos(5, 5)) && !EMPTY.Has(Pos(5, 5))
  {
  }

  /** The parts of `original` outside `removeMe`: above, below, left and right of it, as far as they have area. */
  function Subtract(original: Rect, removeMe: Rect): seq<Rect> {
    var cut := Intersect(original, removeMe);
    if !original.Valid() then []
    else if !cut.Valid() then [original]
    else if original == cut then []
    else
      IfValid(Rect(original.left, original.top, original.right, cut.top - 1)) +
      IfValid(Rect(original.left, cut.bottom + 1, original.right, original.bottom)) +
      IfValid(Rect(original.left, cut.top, cut.left - 1, cut.bottom)) +
      IfValid(Rect(cut.right + 1, cut.top, original.right, cut.bottom))
  }

  function IfValid(r: Rect): seq<Rect> {
    if r.Valid() then [r] else []
  }

  ghost predicate Covered(views: seq<Rect>, p: Pos) {
    exists i :: 0 <= i < |views| && views[i].Has(p)
  }

  lemma CoveredConcat(a: seq<Rect>, b: seq<Rect>, p: Pos)
    ensures Covered(a + b, p) <==> Covered(a, p) || Covered(b, p)
  {
    if Covered(a, p) {
      var i :| 0 <= i < |a| && a[i].Has(p);
      assert (a + b)[i] == a[i];
    }
    if Covered(b, p) {
      var i :| 0 <= i < |b| && b[i].Has(p);
      assert (a + b)[|a| + i] == b[i];
    }
  }

  lemma CoveredIfValid(r: Rect, p: Pos)
    requires r.left >= 0 && r.top >= 0
    ensures Covered(IfValid(r), p) <==> r.Has(p)
  {
    if r.Has(p) {
      assert IfValid(r)[0].Has(p);
    }
  }

  /** Subtraction is set difference, and the parts lie inside the original. */
  lemma SubtractMeans(original: Rect, removeMe: Rect, p: Pos)
    requires original.Valid()
    ensures Covered(Subtract(original, removeMe), p) <==> original.Has(p) && !removeMe.Has(p)
  {
    hide IfValid;
    var cut := Intersect(original, removeMe);
    if !cut.Valid() {
      assert Covered([original], p) <==> original.Has(p) by {
        assert [original][0] == original;
      }
    } else if original != cut {
      var top := Rect(original.left, original.top, original.right, cut.top - 1);
      var bottom := Rect(original.left, cut.bottom + 1, original.right, original.bottom);
      var left := Rect(original.left, cut.top, cut.left - 1, cut.bottom);
      var right := Rect(cut.right + 1, cut.top, original.right, cut.bottom);
      FourParts(top, bottom, left, right, p);
    }
  }

  lemma FourParts(top: Rect, bottom: Rect, left: Rect, right: Rect, p: Pos)
    requires top.left >= 0 && top.top >= 0 && bottom.left >= 0 && bottom.top >= 0
    requires left.left >= 0 && left.top >= 0 && right.left >= 0 && right.top >= 0
    ensures Covered(IfValid(top) + IfValid(bottom) + IfValid(left) + IfValid(right), p) <==>
            top.Has(p) || bottom.Has(p) || left.Has(p) || right.Has(p)
  {
    hide IfValid, Covered;
    CoveredIfValid(top, p);
    CoveredIfValid(bottom, p);
    CoveredIfValid(left, p);
    CoveredIfValid(right, p);
    CoveredConcat(IfValid(top), IfValid(bottom), p);
    CoveredConcat(IfValid(top) + IfValid(bottom), IfValid(left), p);
    CoveredConcat(IfValid(top) + IfValid(bottom) + IfValid(left), IfValid(right), p);
  }

  // ---------------------------------------------------------------------------------------
  // Walking
  // ---------------------------------------------------------------------------------------

  predicate Less(a: Pos, b: Pos) {
    a.y < b.y || (a.y == b.y && a.x < b.x)
  }

  /** Copy forward when the target lies before the source in reading order, backward otherwise. */
  function WalkDirection(source: Rect, target: Rect): int {
    if Less(target.Origin(), source.Origin()) then 1 else -1
  }

  function WalkOrigin(r: Rect, delta: int): Pos {
    if delta >= 0 then Pos(r.left, r.top) else Pos(r.right, r.bottom)
  }

  /** One step through the cells of `r` numbered in reading order; stays put, and says so, at either end. */
  function WalkInBounds(r: Rect, p: Pos, delta: int): (Pos, bool)
    requires r.Valid()
  {
    var w, h := r.Width(), r.Height();
    var off := w * (p.y - r.top) + (p.x - r.left) + delta;
    var clamped := Max(0, Min(off, w * h - 1));
    (Pos(clamped % w + r.left, clamped / w + r.top), off == clamped)
  }

  lemma DivModOf(w: int, q: int, m: int)
    requires 0 <= m < w
    ensures (w * q + m) / w == q && (w * q + m) % w == m
  {
    var n := w * q + m;
    assert n == w * (n / w) + n % w;
    var d := n / w - q;
    assert w * d == m - n % w;
    if d >= 1 {
      MulMonotone(1, d, w);
    } else if d <= -1 {
      MulMonotone(d, -1, w);
    }
  }

  lemma LastCell(w: int, h: int, a: int, b: int)
    requires 0 <= a < h && 0 <= b < w
    ensures 0 <= w * a + b <= w * h - 1
    ensures w * a + b == w * h - 1 <==> a == h - 1 && b == w - 1
  {
    MulMonotone(0, a, w);
    MulMonotone(a + 1, h, w);
    assert w * (a + 1) == w * a + w;
    if a < h - 1 {
      MulMonotone(a + 2, h, w);
      assert w * (a + 2) == w * a + 2 * w;
    }
  }

  /** Where a step to cell `n` of the rectangle leads. */
  lemma StepTo(r: Rect, p: Pos, delta: int, a: int, b: int)
    requires r.Valid() && 0 <= a < r.Height() && 0 <= b < r.Width()
    requires r.Width() * (p.y - r.top) + (p.x - r.left) + delta == r.Width() * a + b
    ensures WalkInBounds(r, p, delta) == (Pos(b + r.left, a + r.top), true)
  {
    LastCell(r.Width(), r.Height(), a, b);
    DivModOf(r.Width(), a, b);
  }

  /** A forward step goes right, then to the start of the next row. */
  lemma WalkForward(r: Rect, p: Pos)
    requires r.Valid() && r.Has(p)
    ensures WalkInBounds(r, p, 1) ==
            if p.x < r.right then (Pos(p.x + 1, p.y), true)
            else if p.y < r.bottom then (Pos(r.left, p.y + 1), true)
            else (p, false)
  {
    var w, h, a, b := r.Width(), r.Height(), p.y - r.top, p.x - r.left;
    if p.x < r.right {
      StepTo(r, p, 1, a, b + 1);
    } else if p.y < r.bottom {
      assert w * (a + 1) == w * a + w;
      StepTo(r, p, 1, a + 1, 0);
    } else {
      LastCell(w, h, a, b);
      DivModOf(w, a, b);
    }
  }

  /** A backward step goes left, then to the end of the previous row. */
  lemma WalkBackward(r: Rect, p: Pos)
    requires r.Valid() && r.Has(p)
    ensures WalkInBounds(r, p, -1) ==
            if p.x > r.left then (Pos(p.x - 1, p.y), true)
            else if p.y > r.top then (Pos(r.right, p.y - 1), true)
            else (p, false)
  {
    var w, h, a, b := r.Width(), r.Height(), p.y - r.top, p.x - r.left;
    if p.x > r.left {
      StepTo(r, p, -1, a, b - 1);
    } else if p.y > r.top {
      assert w * (a - 1) == w * a - w;
      StepTo(r, p, -1, a - 1, w - 1);
    } else {
      LastCell(w, h, a, b);
      DivModOf(w, 0, 0);
    }
  }
}
