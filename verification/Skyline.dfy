/** The skyline of the rectangle packer as a value: the active node list, read from left to right.

    Segment `i` covers the columns from its own `x` up to the `x` of segment `i + 1`; the last
    segment is the sentinel at the right edge of the target. Everything the packer promises is
    stated here column by column (`Height`, `Roof`, `Waste`), never in terms of list nodes.
 */
module Skyline {
  import opened Numbers

  /** The height of the sentinel, and the packer's "nothing found yet". */
  const INFINITE_Y: int := 0x4000_0000

  datatype Seg = Seg(x: int, y: int)

  /** A rectangle that was given a position. */
  datatype Box = Box(x: int, y: int, w: int, h: int)

  ghost predicate Increasing(s: seq<Seg>) {
    forall i, j :: 0 <= i < j < |s| ==> s[i].x < s[j].x
  }

  ghost predicate IsSkyline(s: seq<Seg>, width: int, height: int) {
    && |s| >= 2
    && s[0].x == 0
    && s[|s| - 1] == Seg(width, INFINITE_Y)
    && Increasing(s)
    && forall i :: 0 <= i < |s| - 1 ==> 0 <= s[i].y <= height
  }

  ghost predicate Covers(s: seq<Seg>, i: int, col: int) {
    0 <= i < |s| - 1 && s[i].x <= col < s[i + 1].x
  }

  ghost predicate InRange(s: seq<Seg>, x0: int, w: nat) {
    |s| >= 2 && Increasing(s) && s[0].x <= x0 && x0 + w <= s[|s| - 1].x
  }

  /** The segment that covers a column. */
  ghost function SegAt(s: seq<Seg>, col: int): (i: nat)
    requires InRange(s, col, 1)
    ensures Covers(s, i, col)
  {
    if col >= s[|s| - 2].x then |s| - 2 else SegAt(s[..|s| - 1], col)
  }

  /** How high the packed area reaches in one column. */
  ghost function Height(s: seq<Seg>, col: int): int
    requires InRange(s, col, 1)
  {
    s[SegAt(s, col)].y
  }

  /** The lowest `y` at which something may rest on columns `x0 .. x0 + w`: the exhaustive
      column by column definition of what the packer computes by walking nodes. */
  ghost function Roof(s: seq<Seg>, x0: int, w: nat): int
    requires InRange(s, x0, w)
  {
    if w == 0 then 0 else Max(Roof(s, x0, w - 1), Height(s, x0 + w - 1))
  }

  /** The area lost below `y` on columns `x0 .. x0 + w`. */
  ghost function Waste(s: seq<Seg>, x0: int, w: nat, y: int): int
    requires InRange(s, x0, w)
  {
    if w == 0 then 0 else Waste(s, x0, w - 1, y) + (y - Height(s, x0 + w - 1))
  }

  /** `(y, x)` is the least resting position, lower first and then further left, over every
      integer column at which the width fits. */
  ghost predicate BottomLeftMost(s: seq<Seg>, width: int, w: nat, x: int, y: int)
    requires 0 <= width && InRange(s, 0, width)
  {
    && 0 <= x <= width - w
    && y == Roof(s, x, w)
    && forall c :: 0 <= c <= width - w ==> y < Roof(s, c, w) || (y == Roof(s, c, w) && x <= c)
  }

  lemma MulStep(n: int, d: int)
    ensures (n + 1) * d == n * d + d
  {
  }

  lemma {:induction false} AdjacentIncreasing(s: seq<Seg>)
    requires forall i :: 0 < i < |s| ==> s[i - 1].x < s[i].x
    ensures Increasing(s)
  {
    if |s| > 1 {
      var t := s[..|s| - 1];
      AdjacentIncreasing(t);
      forall i, j | 0 <= i < j < |s|
        ensures s[i].x < s[j].x
      {
        assert s[|s| - 2].x < s[|s| - 1].x;
        assert i < |t| && t[i] == s[i];
        assert i < |s| - 2 ==> t[i].x < t[|s| - 2].x;
        assert j < |t| ==> t[i].x < t[j].x;
      }
    }
  }

  lemma Ordered(s: seq<Seg>, i: nat, j: nat)
    requires Increasing(s) && i <= j < |s|
    ensures s[i].x <= s[j].x
  {
  }

  lemma SegAtUnique(s: seq<Seg>, col: int, i: int)
    requires InRange(s, col, 1)
    requires Covers(s, i, col)
    ensures SegAt(s, col) == i
  {
    var j := SegAt(s, col);
    if j < i {
      Ordered(s, j + 1, i);
    } else if i < j {
      Ordered(s, i + 1, j);
    }
  }

  lemma {:induction false} RoofBounds(s: seq<Seg>, x0: int, w: nat, col: int)
    requires InRange(s, x0, w)
    requires x0 <= col < x0 + w
    ensures Height(s, col) <= Roof(s, x0, w)
  {
    if col < x0 + w - 1 {
      RoofBounds(s, x0, w - 1, col);
    }
  }

  lemma {:induction false} RoofAttained(s: seq<Seg>, x0: int, w: nat) returns (col: int)
    requires InRange(s, x0, w)
    ensures Roof(s, x0, w) >= 0
    ensures Roof(s, x0, w) > 0 ==> x0 <= col < x0 + w && Height(s, col) == Roof(s, x0, w)
  {
    col := x0;
    if w > 0 {
      col := RoofAttained(s, x0, w - 1);
      if Height(s, x0 + w - 1) >= Roof(s, x0, w - 1) {
        col := x0 + w - 1;
      }
    }
  }

  /** Walking over one more segment raises the roof to that segment's height, or not at all. */
  lemma {:induction false} RoofExtend(s: seq<Seg>, x0: int, a: nat, b: nat, i: nat)
    requires InRange(s, x0, b)
    requires a < b && Covers(s, i, x0 + a) && x0 + b <= s[i + 1].x
    ensures Roof(s, x0, b) == Max(Roof(s, x0, a), s[i].y)
    decreases b
  {
    SegAtUnique(s, x0 + b - 1, i);
    if a < b - 1 {
      RoofExtend(s, x0, a, b - 1, i);
    }
  }

  lemma {:induction false} WasteExtend(s: seq<Seg>, x0: int, a: nat, b: nat, i: nat, y: int)
    requires InRange(s, x0, b)
    requires a < b && Covers(s, i, x0 + a) && x0 + b <= s[i + 1].x
    ensures Waste(s, x0, b, y) == Waste(s, x0, a, y) + (b - a) * (y - s[i].y)
    decreases b
  {
    SegAtUnique(s, x0 + b - 1, i);
    MulStep(b - 1 - a, y - s[i].y);
    if a < b - 1 {
      WasteExtend(s, x0, a, b - 1, i, y);
    }
  }

  lemma {:induction false} WasteRaise(s: seq<Seg>, x0: int, w: nat, y: int, y': int)
    requires InRange(s, x0, w)
    ensures Waste(s, x0, w, y') == Waste(s, x0, w, y) + w * (y' - y)
  {
    if w > 0 {
      WasteRaise(s, x0, w - 1, y, y');
      MulStep(w - 1, y' - y);
    }
  }

  /** The waste after one more segment that lifts the resting height from `y` to its own. */
  lemma WasteLift(s: seq<Seg>, x0: int, a: nat, b: nat, i: nat, y: int)
    requires InRange(s, x0, b)
    requires a < b && Covers(s, i, x0 + a) && x0 + b <= s[i + 1].x
    ensures Waste(s, x0, b, s[i].y) == Waste(s, x0, a, y) + a * (s[i].y - y)
  {
    WasteExtend(s, x0, a, b, i, s[i].y);
    WasteRaise(s, x0, a, y, s[i].y);
  }

  /** Sliding left to the start of the segment under the left edge never raises the roof. This is
      why trying node positions only is as good as trying every column. */
  lemma RoofSlideLeft(s: seq<Seg>, x: int, w: nat, i: int)
    requires w > 0 && InRange(s, x, w) && Covers(s, i, x)
    ensures Roof(s, s[i].x, w) <= Roof(s, x, w)
  {
    assert s[0].x <= s[i].x;
    var col := RoofAttained(s, s[i].x, w);
    SegAtUnique(s, x, i);
    RoofBounds(s, x, w, x);
    var low := RoofAttained(s, x, w);
    if Roof(s, s[i].x, w) > 0 {
      if col < x {
        SegAtUnique(s, col, i);
      } else {
        RoofBounds(s, x, w, col);
      }
    }
  }

  // ---------------------------------------------------------------------------------------
  // Putting a rectangle on the skyline
  // ---------------------------------------------------------------------------------------

  /** The first segment, from `j` on, that reaches beyond `right`: everything before it is freed. */
  ghost function KeepFrom(s: seq<Seg>, j: nat, right: int): (r: nat)
    requires j < |s|
    ensures j <= r < |s|
    ensures r + 1 == |s| || s[r + 1].x > right
    ensures forall i :: j < i <= r ==> s[i].x <= right
    decreases |s| - j
  {
    if j + 1 < |s| && s[j + 1].x <= right then KeepFrom(s, j + 1, right) else j
  }

  /** The number of leading segments that stay in front of a node placed at `x`, found at segment `k`. */
  ghost function Before(s: seq<Seg>, k: nat, x: int): nat
    requires k < |s|
  {
    if s[k].x < x then k + 1 else k
  }

  /** The skyline after a node of height `top` is linked in at `x`, which lies in segment `k`. */
  ghost function Place(s: seq<Seg>, k: nat, x: int, top: int, right: int): seq<Seg>
    requires k + 1 < |s|
  {
    var p := Before(s, k, x);
    var j := KeepFrom(s, p, right);
    s[..p] + [Seg(x, top), Seg(Max(s[j].x, right), s[j].y)] + s[j + 1..]
  }

  /** The column up to which `Place` raises the skyline. */
  ghost function PlaceEnd(s: seq<Seg>, k: nat, x: int, right: int): int
    requires k + 1 < |s|
  {
    Max(s[KeepFrom(s, Before(s, k, x), right)].x, right)
  }

  /** `t` is `s` with segments `p .. j` replaced by one of height `top`, and segment `j` cut to start at `end`. */
  ghost predicate IsSplice(s: seq<Seg>, t: seq<Seg>, p: nat, j: nat, seg: Seg, end: int) {
    && p <= j < |s|
    && |t| == p + 1 + |s| - j
    && (forall i :: 0 <= i < p ==> t[i] == s[i])
    && t[p] == seg
    && t[p + 1] == Seg(end, s[j].y)
    && (forall i :: p + 2 <= i < |t| ==> t[i] == s[i - p - 1 + j])
  }

  /** Where the splice stands relative to the columns of `s`. */
  ghost predicate Seated(s: seq<Seg>, p: nat, j: nat, x: int, end: int) {
    && p <= j < |s|
    && s[0].x <= x
    && (p > 0 ==> s[p - 1].x < x)
    && x <= s[p].x
    && x < end
    && s[j].x <= end
    && (j + 1 < |s| ==> end < s[j + 1].x)
    && (j + 1 == |s| ==> s[j].x == end)
  }

  lemma PlaceAt(s: seq<Seg>, k: nat, x: int, top: int, right: int)
    requires k + 1 < |s|
    ensures IsSplice(s, Place(s, k, x, top, right), Before(s, k, x), KeepFrom(s, Before(s, k, x), right),
                     Seg(x, top), PlaceEnd(s, k, x, right))
  {
  }

  lemma PlaceSeated(s: seq<Seg>, k: nat, x: int, right: int)
    requires |s| >= 2 && Increasing(s) && Covers(s, k, x) && x < right <= s[|s| - 1].x
    ensures Seated(s, Before(s, k, x), KeepFrom(s, Before(s, k, x), right), x, PlaceEnd(s, k, x, right))
  {
    var p := Before(s, k, x);
    var j := KeepFrom(s, p, right);
    assert j + 1 < |s| ==> s[j].x < s[j + 1].x;
    assert p > 0 && p == k ==> s[p - 1].x < s[p].x;
  }

  lemma SpliceIsSkyline(s: seq<Seg>, t: seq<Seg>, width: int, height: int, p: nat, j: nat, seg: Seg, end: int)
    requires IsSkyline(s, width, height)
    requires IsSplice(s, t, p, j, seg, end) && Seated(s, p, j, seg.x, end) && 0 <= seg.y <= height
    ensures IsSkyline(t, width, height)
  {
    hide Increasing;
    forall i | 0 < i < |t|
      ensures t[i - 1].x < t[i].x
    {
      SpliceAscends(s, t, p, j, seg, end, i);
    }
    AdjacentIncreasing(t);
  }

  lemma SpliceAscends(s: seq<Seg>, t: seq<Seg>, p: nat, j: nat, seg: Seg, end: int, i: nat)
    requires Increasing(s) && IsSplice(s, t, p, j, seg, end) && Seated(s, p, j, seg.x, end) && 0 < i < |t|
    ensures t[i - 1].x < t[i].x
  {
    if i < p {
      assert s[i - 1].x < s[i].x;
    } else if i == p + 2 {
      assert t[i] == s[j + 1];
    } else if i > p + 2 {
      assert s[i - p - 2 + j].x < s[i - p - 1 + j].x;
    }
  }

  lemma SpliceHeight(s: seq<Seg>, t: seq<Seg>, p: nat, j: nat, seg: Seg, end: int, col: int)
    requires InRange(s, col, 1) && InRange(t, col, 1)
    requires IsSplice(s, t, p, j, seg, end) && Seated(s, p, j, seg.x, end)
    ensures Height(t, col) == if seg.x <= col < end then seg.y else Height(s, col)
  {
    var i := SegAt(s, col);
    if seg.x <= col < end {
      SegAtUnique(t, col, p);
    } else if col < seg.x {
      CoversOneSide(s, i, p, col);
      SpliceBefore(s, t, p, j, seg, end, col, i);
    } else {
      CoversOneSide(s, i, j, col);
      SpliceBehind(s, t, p, j, seg, end, col, i);
    }
  }

  lemma CoversOneSide(s: seq<Seg>, i: nat, j: nat, col: int)
    requires Increasing(s) && Covers(s, i, col) && j < |s|
    ensures j <= i <==> s[j].x <= col
  {
  }

  lemma SpliceBefore(s: seq<Seg>, t: seq<Seg>, p: nat, j: nat, seg: Seg, end: int, col: int, i: nat)
    requires InRange(t, col, 1) && IsSplice(s, t, p, j, seg, end) && i < p && Covers(s, i, col) && col < seg.x
    ensures SegAt(t, col) == i && t[i] == s[i]
  {
    assert t[i + 1].x == if i + 1 < p then s[i + 1].x else seg.x;
    SegAtUnique(t, col, i);
  }

  lemma SpliceBehind(s: seq<Seg>, t: seq<Seg>, p: nat, j: nat, seg: Seg, end: int, col: int, i: nat)
    requires InRange(t, col, 1) && IsSplice(s, t, p, j, seg, end) && j <= i && Covers(s, i, col) && end <= col
    ensures var n := i - j + p + 1; SegAt(t, col) == n && t[n].y == s[i].y
  {
    assert t[i - j + p + 2] == s[i + 1];
    SegAtUnique(t, col, i - j + p + 1);
  }

  lemma PlaceIsSkyline(s: seq<Seg>, width: int, height: int, k: nat, x: int, top: int, right: int)
    requires IsSkyline(s, width, height)
    requires Covers(s, k, x) && x < right <= width && 0 <= top <= height
    ensures IsSkyline(Place(s, k, x, top, right), width, height)
  {
    PlaceAt(s, k, x, top, right);
    PlaceSeated(s, k, x, right);
    SpliceIsSkyline(s, Place(s, k, x, top, right), width, height, Before(s, k, x),
                    KeepFrom(s, Before(s, k, x), right), Seg(x, top), PlaceEnd(s, k, x, right));
  }

  /** `Place` raises the columns from `x` to `PlaceEnd` to exactly `top` and leaves the others alone. */
  lemma PlaceHeight(s: seq<Seg>, width: int, height: int, k: nat, x: int, top: int, right: int, col: int)
    requires IsSkyline(s, width, height)
    requires Covers(s, k, x) && x < right <= width && 0 <= top <= height
    requires 0 <= col < width
    ensures IsSkyline(Place(s, k, x, top, right), width, height)
    ensures Height(Place(s, k, x, top, right), col)
         == if x <= col < PlaceEnd(s, k, x, right) then top else Height(s, col)
  {
    PlaceAt(s, k, x, top, right);
    PlaceSeated(s, k, x, right);
    PlaceIsSkyline(s, width, height, k, x, top, right);
    SpliceHeight(s, Place(s, k, x, top, right), Before(s, k, x),
                 KeepFrom(s, Before(s, k, x), right), Seg(x, top), PlaceEnd(s, k, x, right), col);
  }

  /** `t` is `s` with the columns from `x` to `end` lifted to `top`, and no other column changed. */
  ghost predicate Raised(s: seq<Seg>, t: seq<Seg>, width: int, height: int, x: int, end: int, top: int) {
    && IsSkyline(s, width, height) && IsSkyline(t, width, height)
    && forall col :: 0 <= col < width ==> Height(t, col) == if x <= col < end then top else Height(s, col)
  }

  /** No column is lower in `t` than in `s`. */
  ghost predicate NeverDrops(s: seq<Seg>, t: seq<Seg>, width: int, height: int) {
    && IsSkyline(s, width, height) && IsSkyline(t, width, height)
    && forall col :: 0 <= col < width ==> Height(s, col) <= Height(t, col)
  }

  lemma NeverDropsOn(s: seq<Seg>, t: seq<Seg>, u: seq<Seg>, width: int, height: int)
    requires NeverDrops(s, t, width, height) && NeverDrops(t, u, width, height)
    ensures NeverDrops(s, u, width, height)
  {
  }

  /** Where a skyline never drops, nothing comes to rest lower. */
  lemma {:induction false} RoofRises(s: seq<Seg>, t: seq<Seg>, width: int, height: int, x: int, w: nat)
    requires NeverDrops(s, t, width, height) && 0 <= x && x + w <= width
    ensures Roof(s, x, w) <= Roof(t, x, w)
  {
    if w > 0 {
      RoofRises(s, t, width, height, x, w - 1);
    }
  }

  lemma PlaceIsRaised(s: seq<Seg>, width: int, height: int, k: nat, x: int, top: int, right: int)
    requires IsSkyline(s, width, height)
    requires Covers(s, k, x) && x < right <= width && 0 <= top <= height
    ensures Raised(s, Place(s, k, x, top, right), width, height, x, PlaceEnd(s, k, x, right), top)
  {
    PlaceIsSkyline(s, width, height, k, x, top, right);
    var t := Place(s, k, x, top, right);
    forall col | 0 <= col < width
      ensures Height(t, col) == if x <= col < PlaceEnd(s, k, x, right) then top else Height(s, col)
    {
      PlaceHeight(s, width, height, k, x, top, right, col);
    }
  }

  /** Raising reaches past the rectangle's own right edge only when the rectangle starts inside a
      segment and ends before that segment does. */
  lemma PlaceEndExact(s: seq<Seg>, k: nat, x: int, right: int)
    requires |s| >= 2 && Increasing(s) && Covers(s, k, x) && x < right
    ensures PlaceEnd(s, k, x, right) == right
        <==> s[k].x == x || s[k + 1].x <= right
  {
    var p := Before(s, k, x);
    var j := KeepFrom(s, p, right);
  }

  lemma NothingUnder(s: seq<Seg>, x: int, y: int)
    requires InRange(s, x, 0)
    ensures Roof(s, x, 0) == 0 && Waste(s, x, 0, y) == 0
  {
  }

  lemma PlaceEndBounds(s: seq<Seg>, k: nat, x: int, right: int)
    requires |s| >= 2 && Increasing(s) && Covers(s, k, x) && right <= s[|s| - 1].x
    ensures right <= PlaceEnd(s, k, x, right) <= s[|s| - 1].x
  {
    Ordered(s, KeepFrom(s, Before(s, k, x), right), |s| - 1);
  }

  // ---------------------------------------------------------------------------------------
  // Everything packed so far
  // ---------------------------------------------------------------------------------------

  ghost predicate Disjoint(a: Box, b: Box) {
    a.x + a.w <= b.x || b.x + b.w <= a.x || a.y + a.h <= b.y || b.y + b.h <= a.y
  }

  /** The packed boxes lie inside the target, below the skyline, and nowhere on one another. */
  ghost predicate Packing(s: seq<Seg>, boxes: seq<Box>, width: int, height: int)
    requires IsSkyline(s, width, height)
  {
    && (forall i :: 0 <= i < |boxes| ==> BoxFits(s, boxes[i], width, height))
    && (forall i, j :: 0 <= i < j < |boxes| ==> Disjoint(boxes[i], boxes[j]))
  }

  ghost predicate BoxFits(s: seq<Seg>, b: Box, width: int, height: int)
    requires IsSkyline(s, width, height)
  {
    && 0 <= b.x && 0 < b.w && b.x + b.w <= width
    && 0 <= b.y && 0 < b.h && b.y + b.h <= height
    && forall col :: b.x <= col < b.x + b.w ==> b.y + b.h <= Height(s, col)
  }

  /** The heart of the packer's safety: a box put at or above the roof of its (aligned) width keeps
      the packing disjoint and the skyline on top of every box, old and new. */
  lemma PlaceKeepsPacking(s: seq<Seg>, boxes: seq<Box>, width: int, height: int, k: nat, b: Box, aligned: nat)
    requires IsSkyline(s, width, height) && Packing(s, boxes, width, height)
    requires Covers(s, k, b.x) && 0 < b.w <= aligned && b.x + aligned <= width
    requires b.y == Roof(s, b.x, aligned) && 0 < b.h && b.y + b.h <= height
    ensures IsSkyline(Place(s, k, b.x, b.y + b.h, b.x + b.w), width, height)
    ensures Packing(Place(s, k, b.x, b.y + b.h, b.x + b.w), boxes + [b], width, height)
  {
    var t := Place(s, k, b.x, b.y + b.h, b.x + b.w);
    var low := RoofAttained(s, b.x, aligned);
    PlaceRaises(s, t, width, height, k, b.x, b.y + b.h, b.x + b.w, aligned);
    RaiseKeepsPacking(s, t, boxes, width, height, b, aligned);
  }

  lemma PlaceRaises(s: seq<Seg>, t: seq<Seg>, width: int, height: int, k: nat, x: int, top: int, right: int, w: nat)
    requires IsSkyline(s, width, height)
    requires Covers(s, k, x) && x < right <= x + w <= width && 0 < w
    requires Roof(s, x, w) <= top && 0 <= top <= height
    requires t == Place(s, k, x, top, right)
    ensures IsSkyline(t, width, height)
    ensures forall col :: 0 <= col < width ==> Height(t, col) >= Height(s, col)
    ensures forall col :: x <= col < right ==> Height(t, col) == top
  {
    PlaceIsSkyline(s, width, height, k, x, top, right);
    forall col | 0 <= col < width
      ensures Height(t, col) >= Height(s, col)
      ensures x <= col < right ==> Height(t, col) == top
    {
      PlaceNeverDrops(s, width, height, k, x, top, right, w, col);
    }
  }

  lemma RaiseKeepsPacking(s: seq<Seg>, t: seq<Seg>, boxes: seq<Box>, width: int, height: int, b: Box, aligned: nat)
    requires IsSkyline(s, width, height) && IsSkyline(t, width, height) && Packing(s, boxes, width, height)
    requires 0 <= b.x && 0 < b.w <= aligned && b.x + aligned <= width
    requires 0 <= b.y && Roof(s, b.x, aligned) <= b.y && 0 < b.h && b.y + b.h <= height
    requires forall col :: 0 <= col < width ==> Height(t, col) >= Height(s, col)
    requires forall col :: b.x <= col < b.x + b.w ==> Height(t, col) == b.y + b.h
    ensures Packing(t, boxes + [b], width, height)
  {
    var all := boxes + [b];
    forall i | 0 <= i < |boxes|
      ensures BoxFits(t, boxes[i], width, height) && Disjoint(boxes[i], b)
    {
      BoxBelowRoof(s, boxes[i], b, width, height, aligned);
      assert BoxFits(s, boxes[i], width, height);
    }
    assert BoxFits(t, b, width, height);
    forall i, j | 0 <= i < j < |all|
      ensures Disjoint(all[i], all[j])
    {
    }
  }

  /** A placed box leaves no column lower. */
  lemma PlaceDropsNothing(s: seq<Seg>, width: int, height: int, k: nat, x: int, top: int, right: int, w: nat)
    requires IsSkyline(s, width, height)
    requires Covers(s, k, x) && x < right <= x + w <= width && 0 < w
    requires Roof(s, x, w) <= top && 0 <= top <= height
    ensures NeverDrops(s, Place(s, k, x, top, right), width, height)
  {
    hide Place, Roof, Height;
    PlaceIsSkyline(s, width, height, k, x, top, right);
    forall col | 0 <= col < width
      ensures Height(s, col) <= Height(Place(s, k, x, top, right), col)
    {
      PlaceNeverDrops(s, width, height, k, x, top, right, w, col);
    }
  }

  lemma PlaceNeverDrops(s: seq<Seg>, width: int, height: int, k: nat, x: int, top: int, right: int, w: nat, col: int)
    requires IsSkyline(s, width, height)
    requires Covers(s, k, x) && x < right <= x + w <= width && 0 < w
    requires Roof(s, x, w) <= top && 0 <= top <= height
    requires 0 <= col < width
    ensures IsSkyline(Place(s, k, x, top, right), width, height)
    ensures Height(Place(s, k, x, top, right), col) >= Height(s, col)
    ensures x <= col < right ==> Height(Place(s, k, x, top, right), col) == top
  {
    PlaceHeight(s, width, height, k, x, top, right, col);
    if x <= col < PlaceEnd(s, k, x, right) {
      RaisedWasBelow(s, k, x, right, w, col);
    }
  }

  /** A box under the skyline cannot touch a box resting on the roof. */
  lemma BoxBelowRoof(s: seq<Seg>, o: Box, b: Box, width: int, height: int, aligned: nat)
    requires IsSkyline(s, width, height) && BoxFits(s, o, width, height)
    requires 0 <= b.x && 0 < b.w <= aligned && b.x + aligned <= width
    requires b.y >= Roof(s, b.x, aligned)
    ensures Disjoint(o, b)
  {
    if b.x < o.x + o.w && o.x < b.x + b.w {
      RoofBounds(s, b.x, aligned, Max(o.x, b.x));
    }
  }

  /** Columns that `Place` raises, even beyond the rectangle, were no higher than where it rests. */
  lemma RaisedWasBelow(s: seq<Seg>, k: nat, x: int, right: int, w: nat, col: int)
    requires Covers(s, k, x) && 0 < w && InRange(s, x, w) && x < right <= x + w
    requires x <= col < PlaceEnd(s, k, x, right) && InRange(s, col, 1)
    ensures Height(s, col) <= Roof(s, x, w)
  {
    if col < x + w {
      RoofBounds(s, x, w, col);
    } else {
      PlaceEndInside(s, k, x, right, col);
      SegAtUnique(s, col, k);
      SegAtUnique(s, x, k);
      RoofBounds(s, x, w, x);
    }
  }

  lemma PlaceEndInside(s: seq<Seg>, k: nat, x: int, right: int, col: int)
    requires |s| >= 2 && Increasing(s) && Covers(s, k, x) && x < right
    requires right <= col < PlaceEnd(s, k, x, right)
    ensures Covers(s, k, col)
  {
    var p := Before(s, k, x);
    var j := KeepFrom(s, p, right);
    assert j == p;
  }

  // ---------------------------------------------------------------------------------------
  // How many nodes a skyline can need
  // ---------------------------------------------------------------------------------------

  /** All nodes except the sentinel stand on multiples of `a`. */
  ghost predicate OnGrid(s: seq<Seg>, a: int)
    requires a > 0
  {
    forall i :: 0 <= i < |s| - 1 ==> s[i].x % a == 0
  }

  lemma {:induction false} GridSpacing(s: seq<Seg>, a: int, i: nat)
    requires a > 0 && |s| >= 2 && Increasing(s) && s[0].x == 0 && OnGrid(s, a)
    requires i < |s| - 1
    ensures i * a <= s[i].x
  {
    if i > 0 {
      GridSpacing(s, a, i - 1);
      assert s[i - 1].x < s[i].x;
      assert s[i - 1].x % a == 0 && s[i].x % a == 0;
      NextMultiple(s[i - 1].x, s[i].x, a);
      MulStep(i - 1, a);
    }
  }

  lemma NextMultiple(u: int, v: int, a: int)
    requires a > 0 && u % a == 0 && v % a == 0 && u < v
    ensures u + a <= v
  {
    var d := v / a - u / a;
    assert u == u / a * a && v == v / a * a;
    assert v - u == d * a;
    assert d >= 1;
  }

  /** Pigeonhole: with all nodes on a grid of pitch `a`, `n` nodes are never too few for a further
      insertion as soon as `n * a` reaches the width. */
  lemma NodesSuffice(s: seq<Seg>, width: int, height: int, a: int, n: int)
    requires IsSkyline(s, width, height)
    requires a > 0 && OnGrid(s, a) && n * a >= width
    ensures |s| <= n + 1
  {
    var last := |s| - 2;
    GridSpacing(s, a, last);
    assert s[last].x < s[|s| - 1].x;
    if n <= last {
      MulMonotone(n, last, a);
    }
  }

  lemma PlaceOnGrid(s: seq<Seg>, width: int, height: int, k: nat, x: int, top: int, right: int, a: int)
    requires IsSkyline(s, width, height) && a > 0 && OnGrid(s, a)
    requires Covers(s, k, x) && x < right <= width && 0 <= top <= height
    requires x % a == 0 && right % a == 0
    ensures OnGrid(Place(s, k, x, top, right), a)
  {
    var p := Before(s, k, x);
    var j := KeepFrom(s, p, right);
    var t := Place(s, k, x, top, right);
    PlaceAt(s, k, x, top, right);
  }

  // ---------------------------------------------------------------------------------------
  // The floor
  // ---------------------------------------------------------------------------------------

  /** Only the last segment can be at floor level. */
  ghost predicate FloorLast(s: seq<Seg>) {
    forall i :: 0 <= i < |s| - 2 ==> s[i].y > 0
  }

  /** An insertion that does not begin inside the floor keeps it in one piece at the end. */
  lemma PlaceKeepsFloorLast(s: seq<Seg>, width: int, height: int, k: nat, x: int, top: int, right: int)
    requires IsSkyline(s, width, height) && FloorLast(s)
    requires Covers(s, k, x) && x < right <= width && 0 < top <= height && (s[k].x == x || s[k].y > 0)
    ensures FloorLast(Place(s, k, x, top, right))
  {
    var p := Before(s, k, x);
    var j := KeepFrom(s, p, right);
    var t := Place(s, k, x, top, right);
    PlaceAt(s, k, x, top, right);
    forall i | 0 <= i < |t| - 2
      ensures t[i].y > 0
    {
      if i > p + 1 {
        assert t[i] == s[j + i - p - 1];
      }
    }
  }

  /** Quantizing the search alone does not keep `n` nodes enough when insertion uses the raw width: in a target of
      width 4 with two nodes and a quantum of 2, two bottom-left insertions of width 1 use up all nodes, although a
      third rectangle would still find room on the floor. */
  lemma RawWidthsExhaustNodes()
    ensures var floor := [Seg(0, 0), Seg(4, INFINITE_Y)];
            var one := Place(floor, 0, 0, 1, 1);
            var two := Place(one, 1, 1, 1, 2);
            && IsSkyline(floor, 4, 9) && BottomLeftMost(floor, 4, 2, 0, 0)
            && IsSkyline(one, 4, 9) && BottomLeftMost(one, 4, 2, 1, 0)
            && IsSkyline(two, 4, 9) && Roof(two, 2, 2) == 0
            && |two| == 2 + 2
  {
    var floor := [Seg(0, 0), Seg(4, INFINITE_Y)];
    var one := [Seg(0, 1), Seg(1, 0), Seg(4, INFINITE_Y)];
    var two := [Seg(0, 1), Seg(1, 1), Seg(2, 0), Seg(4, INFINITE_Y)];
    hide Roof, BottomLeftMost, Place, IsSkyline;
    FirstOfTwo(floor, one);
    SecondOfTwo(one, two);
  }

  lemma FirstOfTwo(floor: seq<Seg>, one: seq<Seg>)
    requires floor == [Seg(0, 0), Seg(4, INFINITE_Y)] && one == [Seg(0, 1), Seg(1, 0), Seg(4, INFINITE_Y)]
    ensures Place(floor, 0, 0, 1, 1) == one && IsSkyline(floor, 4, 9) && BottomLeftMost(floor, 4, 2, 0, 0)
  {
    hide Roof;
    assert KeepFrom(floor, 0, 1) == 0;
    assert Place(floor, 0, 0, 1, 1) == one;
    forall c | 0 <= c <= 2
      ensures Roof(floor, c, 2) == 0
    {
      RoofTwo(floor, c, 0, 0);
    }
  }

  lemma SecondOfTwo(one: seq<Seg>, two: seq<Seg>)
    requires one == [Seg(0, 1), Seg(1, 0), Seg(4, INFINITE_Y)]
    requires two == [Seg(0, 1), Seg(1, 1), Seg(2, 0), Seg(4, INFINITE_Y)]
    ensures Place(one, 1, 1, 1, 2) == two && IsSkyline(one, 4, 9) && BottomLeftMost(one, 4, 2, 1, 0)
    ensures IsSkyline(two, 4, 9) && Roof(two, 2, 2) == 0
  {
    hide Roof;
    assert KeepFrom(one, 1, 2) == 1;
    assert Place(one, 1, 1, 1, 2) == two;
    forall c | 0 <= c <= 2
      ensures Roof(one, c, 2) == if c == 0 then 1 else 0
    {
      RoofTwo(one, c, if c == 0 then 0 else 1, 1);
    }
    RoofTwo(two, 2, 2, 2);
  }

  lemma RoofTwo(s: seq<Seg>, c: int, i: int, j: int)
    requires InRange(s, c, 2) && Covers(s, i, c) && Covers(s, j, c + 1)
    ensures Roof(s, c, 2) == Max(Max(0, s[i].y), s[j].y)
  {
    SegAtUnique(s, c, i);
    SegAtUnique(s, c + 1, j);
    assert Roof(s, c, 1) == Max(Roof(s, c, 0), Height(s, c));
  }
}
