/** What the packer's search means: candidates are the node positions, the claim is about columns. */
module SkylineSearch {
  import opened Skyline

  datatype Heuristic = BottomLeft | BestFit

  ghost predicate Searchable(s: seq<Seg>, w: nat, width: int) {
    0 < w <= width && |s| >= 2 && Increasing(s) && s[0].x == 0 && s[|s| - 1].x == width
  }

  /** The width fits with its left edge on node `i`. */
  ghost predicate Fits(s: seq<Seg>, w: nat, width: int, i: int) {
    0 <= i < |s| && 0 <= s[i].x && s[i].x + w <= width
  }

  /** No node before `n` has room for `w` columns below the cap. */
  ghost predicate NoneBelow(s: seq<Seg>, w: nat, width: int, cap: int, n: nat)
    requires Searchable(s, w, width)
  {
    forall i :: 0 <= i < n && Fits(s, w, width, i) ==> Roof(s, s[i].x, w) >= cap
  }

  /** A position: the node under its left edge, where it rests and what it wastes. */
  datatype Spot = Spot(k: int, y: int, waste: int)

  ghost function SpotAt(s: seq<Seg>, w: nat, width: int, k: int): Spot
    requires Searchable(s, w, width) && Fits(s, w, width, k)
  {
    Spot(k, Roof(s, s[k].x, w), Waste(s, s[k].x, w, Roof(s, s[k].x, w)))
  }

  /** What makes one spot displace another: lower, or (best-fit) as low with less waste. */
  ghost predicate Better(a: Spot, b: Spot, rule: Heuristic) {
    a.y < b.y || (rule.BestFit? && a.y == b.y && a.waste < b.waste)
  }

  /** Node `best.k` is the best left-aligned position among the nodes before `n`, the first one of equals. */
  ghost predicate LeftBest(s: seq<Seg>, w: nat, width: int, cap: int, n: nat, best: Spot, rule: Heuristic)
    requires Searchable(s, w, width)
  {
    && 0 <= best.k < n && Fits(s, w, width, best.k)
    && best == SpotAt(s, w, width, best.k)
    && best.y < cap
    && forall i :: 0 <= i < n && Fits(s, w, width, i) ==>
                     && !Better(SpotAt(s, w, width, i), best, rule)
                     && (i < best.k ==> Better(best, SpotAt(s, w, width, i), rule))
  }

  lemma LeftBestFirst(s: seq<Seg>, w: nat, width: int, cap: int, n: nat, rule: Heuristic)
    requires Searchable(s, w, width) && NoneBelow(s, w, width, cap, n) && Fits(s, w, width, n)
    requires SpotAt(s, w, width, n).y < cap
    ensures LeftBest(s, w, width, cap, n + 1, SpotAt(s, w, width, n), rule)
  {
    hide Roof, Waste, IsSkyline;
    var best := SpotAt(s, w, width, n);
    forall i | 0 <= i < n && Fits(s, w, width, i)
      ensures Better(best, SpotAt(s, w, width, i), rule)
    {
    }
  }

  lemma LeftBestReplace(s: seq<Seg>, w: nat, width: int, cap: int, n: nat, best: Spot, rule: Heuristic)
    requires Searchable(s, w, width) && LeftBest(s, w, width, cap, n, best, rule) && Fits(s, w, width, n)
    requires Better(SpotAt(s, w, width, n), best, rule)
    ensures LeftBest(s, w, width, cap, n + 1, SpotAt(s, w, width, n), rule)
  {
    forall i | 0 <= i < n && Fits(s, w, width, i)
      ensures Better(SpotAt(s, w, width, n), SpotAt(s, w, width, i), rule)
    {
      assert !Better(SpotAt(s, w, width, i), best, rule);
    }
  }

  lemma LeftBestKeep(s: seq<Seg>, w: nat, width: int, cap: int, n: nat, best: Spot, rule: Heuristic)
    requires Searchable(s, w, width) && LeftBest(s, w, width, cap, n, best, rule) && Fits(s, w, width, n)
    requires !Better(SpotAt(s, w, width, n), best, rule)
    ensures LeftBest(s, w, width, cap, n + 1, best, rule)
  {
  }

  /** The node under a column fits whenever the column does, and was tried when the scan stopped at `n`. */
  lemma NodeUnder(s: seq<Seg>, w: nat, width: int, n: nat, c: int) returns (i: nat)
    requires Searchable(s, w, width) && n < |s| && s[n].x + w > width && 0 <= c <= width - w
    ensures i < n && Fits(s, w, width, i) && s[i].x <= c
    ensures Roof(s, s[i].x, w) <= Roof(s, c, w)
  {
    i := SegAt(s, c);
    assert i < n by {
      assert forall m :: n <= m < |s| ==> s[n].x <= s[m].x;
    }
    assert s[0].x <= s[i].x;
    RoofSlideLeft(s, c, w, i);
  }

  /** Nothing acceptable on the nodes means nothing acceptable on any column. */
  lemma NoneBelowAnywhere(s: seq<Seg>, w: nat, width: int, cap: int, n: nat)
    requires Searchable(s, w, width) && n < |s| && s[n].x + w > width
    requires NoneBelow(s, w, width, cap, n)
    ensures forall c :: 0 <= c <= width - w ==> Roof(s, c, w) >= cap
  {
    forall c | 0 <= c <= width - w
      ensures Roof(s, c, w) >= cap
    {
      var i := NodeUnder(s, w, width, n, c);
    }
  }

  /** The best node is the best column, and for bottom-left the leftmost of the lowest columns. */
  lemma LeftBestAnywhere(s: seq<Seg>, w: nat, width: int, cap: int, n: nat, best: Spot, rule: Heuristic)
    requires Searchable(s, w, width) && n < |s| && s[n].x + w > width
    requires LeftBest(s, w, width, cap, n, best, rule)
    ensures forall c :: 0 <= c <= width - w ==> best.y <= Roof(s, c, w)
    ensures rule.BottomLeft? ==> BottomLeftMost(s, width, w, s[best.k].x, best.y)
  {
    forall c | 0 <= c <= width - w
      ensures best.y <= Roof(s, c, w)
      ensures rule.BottomLeft? && best.y == Roof(s, c, w) ==> s[best.k].x <= c
    {
      var i := NodeUnder(s, w, width, n, c);
      assert !Better(SpotAt(s, w, width, i), best, rule);
      if best.k <= i {
        Ordered(s, best.k, i);
      }
    }
  }

  // ---------------------------------------------------------------------------------------
  // Best fit
  // ---------------------------------------------------------------------------------------

  /** Less waste, or the same further left. */
  ghost predicate NoWorse(waste: int, x: int, waste': int, x': int) {
    waste < waste' || (waste == waste' && x <= x')
  }

  /** `(y, waste, x)` is the least resting position, lower first, then with less waste, then further left, over every
      integer column at which the width fits. */
  ghost predicate BestFitMost(s: seq<Seg>, width: int, w: nat, x: int, y: int)
    requires 0 <= width && InRange(s, 0, width)
  {
    && 0 <= x <= width - w
    && y == Roof(s, x, w)
    && forall c :: 0 <= c <= width - w ==>
                     y < Roof(s, c, w) ||
                     (y == Roof(s, c, w) && NoWorse(Waste(s, x, w, y), x, Waste(s, c, w, y), c))
  }

  /** A rectangle at column `c` has an edge on a node. */
  ghost predicate HasEdge(s: seq<Seg>, w: nat, c: int) {
    exists i {:trigger s[i]} :: 0 <= i < |s| && (s[i].x == c || s[i].x == c + w)
  }

  lemma {:induction false} WasteNotNegative(s: seq<Seg>, x: int, w: nat, y: int)
    requires InRange(s, x, w) && Roof(s, x, w) <= y
    ensures Waste(s, x, w, y) >= 0
  {
    if w > 0 {
      WasteNotNegative(s, x, w - 1, y);
    }
  }

  /** One column to the left: the new first column comes in, the old last one goes out. */
  lemma {:induction false} WasteShift(s: seq<Seg>, c: int, w: nat, y: int)
    requires InRange(s, c - 1, w + 1) && w > 0
    ensures Waste(s, c - 1, w, y) == Waste(s, c, w, y) - Height(s, c - 1) + Height(s, c + w - 1)
  {
    if w > 1 {
      WasteShift(s, c, w - 1, y);
    } else {
      assert Waste(s, c - 1, 1, y) == Waste(s, c - 1, 0, y) + (y - Height(s, c - 1));
      assert Waste(s, c, 1, y) == Waste(s, c, 0, y) + (y - Height(s, c));
    }
  }

  /** Without a node in between neighbouring columns are equally high. */
  lemma SameHeight(s: seq<Seg>, c: int)
    requires InRange(s, c - 1, 2) && forall i :: 0 <= i < |s| ==> s[i].x != c
    ensures Height(s, c - 1) == Height(s, c)
  {
    var i := SegAt(s, c);
    SegAtUnique(s, c - 1, i);
    SegAtUnique(s, c, i);
  }

  /** Moving to an equally high column does not raise the roof. */
  lemma RoofShift(s: seq<Seg>, c: int, w: nat)
    requires InRange(s, c - 1, w + 1) && w > 0
    ensures Height(s, c - 1) == Height(s, c) ==> Roof(s, c - 1, w) <= Roof(s, c, w)
    ensures Height(s, c + w - 2) == Height(s, c + w - 1) ==> Roof(s, c, w) <= Roof(s, c - 1, w)
  {
    hide Roof, Height;
    var left := RoofAttained(s, c - 1, w);
    var right := RoofAttained(s, c, w);
    RoofBounds(s, c, w, c);
    RoofBounds(s, c - 1, w, c + w - 2);
    if c <= left < c + w {
      RoofBounds(s, c, w, left);
    }
    if c - 1 <= right < c - 1 + w {
      RoofBounds(s, c - 1, w, right);
    }
  }

  /** From a lowest position with no edge on a node one can slide to a better one: toward the higher side, or left if both
      sides are equally high. In the end there is an edge on a node. */
  lemma {:induction false} SlideToEdge(s: seq<Seg>, width: int, w: nat, y: int, c: int) returns (e: int)
    requires Searchable(s, w, width) && 0 <= c <= width - w && Roof(s, c, w) == y
    requires forall d :: 0 <= d <= width - w ==> y <= Roof(s, d, w)
    ensures 0 <= e <= width - w && Roof(s, e, w) == y && HasEdge(s, w, e)
    ensures NoWorse(Waste(s, e, w, y), e, Waste(s, c, w, y), c)
    decreases Waste(s, c, w, y), c
  {
    hide Roof, Waste, Height;
    if HasEdge(s, w, c) {
      return c;
    }
    assert s[0].x != c && s[|s| - 1].x != c + w;
    SameHeight(s, c);
    SameHeight(s, c + w);
    WasteNotNegative(s, c, w, y);
    if Height(s, c) >= Height(s, c + w) {
      RoofShift(s, c, w);
      WasteShift(s, c, w, y);
      WasteNotNegative(s, c - 1, w, y);
      e := SlideToEdge(s, width, w, y, c - 1);
    } else {
      RoofShift(s, c + 1, w);
      WasteShift(s, c + 1, w, y);
      WasteNotNegative(s, c + 1, w, y);
      e := SlideToEdge(s, width, w, y, c + 1);
    }
  }
}
