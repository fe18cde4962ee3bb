/** The packer's read-only walks over the active list. Every walk is followed in step with the
    skyline `s` that the list shows, and its result is stated about that skyline only. */
module PackerSearch {
  import opened Skyline
  import opened SkylineSearch
  import opened NodePool

  /** A pointer to a link field: the list head, or the `next` field of a node. */
  datatype Link = NoLink | HeadLink | NextOf(node: int)

  /** `stbrp__skyline_find_min_y`: walk the nodes from the one below `x0` to the right edge. The waste is exact when the
      walk starts at the node's own left edge, on a node above the floor, or ends on the node it starts on. With the
      floor at the end, where the packer keeps it, that is always so. */
  method FindMinY(mem: seq<Cell>, head: int, ghost ids: seq<int>, ghost s: seq<Seg>, first: int, ghost k: nat,
                  x0: int, w: nat)
    returns (minY: int, waste: int)
    requires Shows(mem, head, ids, s) && InRange(s, x0, w) && 0 < w
    requires Covers(s, k, x0) && first == ids[k]
    ensures minY == Roof(s, x0, w)
    ensures Exact(s, k, x0, w) ==> waste == Waste(s, x0, w, minY)
    ensures FloorLast(s) ==> waste == Waste(s, x0, w, minY)
  {
    AlwaysExact(s, k, x0, w);
    var node, x1 := first, x0 + w;
    var visited := 0;
    minY, waste := 0, 0;
    ghost var i := k;
    NodeOf(mem, head, ids, s, k);
    while mem[node].x < x1
      invariant k <= i < |s| && node == ids[i] && 0 <= node < |mem| && s[i].x == mem[node].x
      invariant Walked(s, k, i, x0, w, minY, waste, visited)
      decreases |s| - i
    {
      NodeOf(mem, head, ids, s, i);
      var next := mem[node].next;
      minY, waste, visited := Visit(s, k, i, mem[node].x, mem[node].y, mem[next].x, x0, w, minY, waste, visited);
      node := next;
      i := i + 1;
    }
  }

  /** How many of the `w` columns from `x0` the walk has passed when it stands on node `i`. */
  ghost function Reached(s: seq<Seg>, k: nat, i: nat, x0: int, w: nat): (n: nat)
    requires i < |s|
  {
    if i <= k || s[i].x <= x0 then 0 else if s[i].x >= x0 + w then w else s[i].x - x0
  }

  ghost predicate Exact(s: seq<Seg>, k: nat, x0: int, w: nat)
    requires k + 1 < |s|
  {
    s[k].x == x0 || s[k].y > 0 || x0 + w <= s[k + 1].x
  }

  lemma AlwaysExact(s: seq<Seg>, k: nat, x0: int, w: nat)
    requires InRange(s, x0, w) && Covers(s, k, x0)
    ensures FloorLast(s) ==> Exact(s, k, x0, w)
  {
  }

  /** The state of the walk when it stands on node `i`. */
  ghost predicate Walked(s: seq<Seg>, k: nat, i: nat, x0: int, w: nat, minY: int, waste: int, visited: int) {
    && k <= i < |s| && Covers(s, k, x0) && 0 < w && InRange(s, x0, w)
    && (i == k || x0 < s[i].x)
    && minY == Roof(s, x0, Reached(s, k, i, x0, w))
    && (Exact(s, k, x0, w) ==> waste == Waste(s, x0, Reached(s, k, i, x0, w), minY))
    && (Exact(s, k, x0, w) && s[i].x < x0 + w ==> visited == Reached(s, k, i, x0, w))
  }

  /** One round of the walk: the node at `x` is `y` high and ends at `nextX`. */
  method Visit(ghost s: seq<Seg>, ghost k: nat, ghost i: nat, x: int, y: int, nextX: int, x0: int, w: nat,
               minY: int, waste: int, visited: int)
    returns (minY': int, waste': int, visited': int)
    requires Walked(s, k, i, x0, w, minY, waste, visited) && i + 1 < |s|
    requires x == s[i].x < x0 + w && y == s[i].y && nextX == s[i + 1].x
    ensures Walked(s, k, i + 1, x0, w, minY', waste', visited')
  {
    ghost var a, b := Reached(s, k, i, x0, w), Reached(s, k, i + 1, x0, w);
    Ordered(s, k + 1, i + 1);
    RoofExtend(s, x0, a, b, i);
    minY', waste', visited' := minY, waste, visited;
    if y > minY {
      waste' := waste + visited * (y - minY);
      minY' := y;
      if x < x0 {
        visited' := visited + nextX - x0;
      } else {
        visited' := visited + nextX - x;
      }
      WasteLift(s, x0, a, b, i, minY);
    } else {
      var under := nextX - x;
      if under + visited > w {
        under := w - visited;
      }
      assert Exact(s, k, x0, w) ==> under == b - a;
      waste' := waste + under * (minY - y);
      visited' := visited + under;
      WasteExtend(s, x0, a, b, i, minY);
    }
  }

  ghost predicate LinkAt(ids: seq<int>, link: Link, k: int) {
    0 <= k < |ids| && link == if k == 0 then HeadLink else NextOf(ids[k - 1])
  }

  /** Positions whose roof is at or above the cap are never accepted. */
  ghost function Cap(rule: Heuristic, height: int, h: nat): int {
    if rule.BottomLeft? then INFINITE_Y else height - h + 1
  }

  /** The outcome of trying the nodes before `n`. */
  ghost predicate Scanned(s: seq<Seg>, ids: seq<int>, w: nat, width: int, rule: Heuristic, cap: int, n: nat,
                          best: Link, y: int, waste: int, spot: Spot)
  {
    && Searchable(s, w, width)
    && if best.NoLink? then
         y == INFINITE_Y && waste == INFINITE_Y && NoneBelow(s, w, width, cap, n)
       else
         && LeftBest(s, w, width, cap, n, spot, rule)
         && y == spot.y && (rule.BestFit? ==> waste == spot.waste)
         && LinkAt(ids, best, spot.k)
  }

  /** The left-aligned half of `stbrp__skyline_find_best_pos`: the best of all node positions. */
  method ScanLeft(mem: seq<Cell>, head: int, ghost ids: seq<int>, ghost s: seq<Seg>, width: int, height: int,
                  rule: Heuristic, w: nat, h: nat)
    returns (best: Link, y: int, waste: int, ghost spot: Spot)
    requires Shows(mem, head, ids, s) && Searchable(s, w, width) && 0 < h <= height <= INFINITE_Y
    ensures Scanned(s, ids, w, width, rule, Cap(rule, height, h), |s| - 1, best, y, waste, spot)
  {
    ghost var cap := Cap(rule, height, h);
    best, y, waste, spot := NoLink, 0x4000_0000, 0x4000_0000, Spot(0, 0, 0);
    var node, prev := head, HeadLink;
    ghost var i := 0;
    NodeOf(mem, head, ids, s, 0);
    while mem[node].x + w <= width
      invariant 0 <= i < |s| == |ids| && node == ids[i] && 0 <= node < |mem| && s[i].x == mem[node].x
      invariant LinkAt(ids, prev, i)
      invariant Scanned(s, ids, w, width, rule, cap, i, best, y, waste, spot)
      decreases |s| - i
    {
      NodeOf(mem, head, ids, s, i);
      Ordered(s, 0, i);
      var y1, waste1 := FindMinY(mem, head, ids, s, node, i, mem[node].x, w);
      best, y, waste, spot := Consider(s, ids, w, width, i, rule, height, h, prev, y1, waste1, best, y, waste, spot);
      prev := NextOf(node);
      node := mem[node].next;
      i := i + 1;
    }
    ScannedAll(s, ids, w, width, rule, cap, i, best, y, waste, spot);
  }

  /** One round of the scan: node `i` rests at `y1` and wastes `waste1`. */
  method Consider(ghost s: seq<Seg>, ghost ids: seq<int>, ghost w: nat, ghost width: int, ghost i: nat,
                  rule: Heuristic, height: int, h: nat,
                  prev: Link, y1: int, waste1: int, best: Link, y: int, waste: int, ghost spot: Spot)
    returns (best': Link, y': int, waste': int, ghost spot': Spot)
    requires Scanned(s, ids, w, width, rule, Cap(rule, height, h), i, best, y, waste, spot)
    requires Fits(s, w, width, i) && SpotAt(s, w, width, i) == Spot(i, y1, waste1) && LinkAt(ids, prev, i)
    requires 0 < h && height <= INFINITE_Y
    ensures Scanned(s, ids, w, width, rule, Cap(rule, height, h), i + 1, best', y', waste', spot')
  {
    ghost var cap := Cap(rule, height, h);
    if best.NoLink? {
      if y1 < cap {
        LeftBestFirst(s, w, width, cap, i, rule);
      }
    } else if Better(Spot(i, y1, waste1), spot, rule) {
      LeftBestReplace(s, w, width, cap, i, spot, rule);
    } else {
      LeftBestKeep(s, w, width, cap, i, spot, rule);
    }
    best', y', waste', spot' := best, y, waste, spot;
    if rule.BottomLeft? {
      if y1 < y {
        y', best', spot' := y1, prev, Spot(i, y1, waste1);
      }
    } else {
      if y1 + h <= height {
        if y1 < y || (y1 == y && waste1 < waste) {
          y', waste', best', spot' := y1, waste1, prev, Spot(i, y1, waste1);
        }
      }
    }
  }

  /** Nodes from `n` on do not fit, so trying them would not have changed the outcome. */
  lemma ScannedAll(s: seq<Seg>, ids: seq<int>, w: nat, width: int, rule: Heuristic, cap: int, n: nat,
                   best: Link, y: int, waste: int, spot: Spot)
    requires n < |s| && Scanned(s, ids, w, width, rule, cap, n, best, y, waste, spot) && s[n].x + w > width
    ensures Scanned(s, ids, w, width, rule, cap, |s| - 1, best, y, waste, spot)
  {
    assert forall m :: n <= m < |s| ==> s[n].x <= s[m].x;
    assert forall m :: n <= m < |s| ==> !Fits(s, w, width, m);
  }

  /** A position for a width of `w`: its left edge lies in segment `k`, which `link` points at. */
  ghost predicate Rests(s: seq<Seg>, ids: seq<int>, w: nat, width: int, link: Link, k: nat, x: int, y: int) {
    && Searchable(s, w, width)
    && Covers(s, k, x) && 0 <= x && x + w <= width
    && y == Roof(s, x, w)
    && LinkAt(ids, link, k)
  }

  /** No column offers a lower position. */
  ghost predicate Lowest(s: seq<Seg>, w: nat, width: int, y: int)
    requires Searchable(s, w, width)
  {
    forall c :: 0 <= c <= width - w ==> y <= Roof(s, c, w)
  }

  /** A rectangle that ends where node `t` begins starts in segment `k` and rests at `y`. */
  ghost predicate EndsAt(s: seq<Seg>, w: nat, width: int, t: int, k: int, y: int)
    requires Searchable(s, w, width)
  {
    && 0 <= t < |s| && w <= s[t].x <= width && Covers(s, k, s[t].x - w)
    && Roof(s, s[t].x - w, w) == y
  }

  /** Ending at a node before `n` is no better than `waste` at `x`. */
  ghost predicate RightBest(s: seq<Seg>, w: nat, width: int, n: nat, x: int, y: int, waste: int)
    requires Searchable(s, w, width)
  {
    forall t, k :: 0 <= t < n && EndsAt(s, w, width, t, k, y) ==>
                     NoWorse(waste, x, Waste(s, s[t].x - w, w, y), s[t].x - w)
  }

  /** One edge of the rectangle is on a node: the left one on its own segment's, or the right one. */
  ghost predicate OnEdge(s: seq<Seg>, w: nat, k: nat, x: int) {
    (k < |s| && s[k].x == x) || exists t {:trigger s[t]} :: 0 <= t < |s| && s[t].x == x + w
  }

  /** The position in hand while looking at right-aligned candidates. */
  ghost predicate Holding(s: seq<Seg>, ids: seq<int>, w: nat, width: int, link: Link, k: nat, x: int, y: int, waste: int)
  {
    && Rests(s, ids, w, width, link, k, x, y)
    && OnEdge(s, w, k, x)
    && waste == Waste(s, x, w, y)
    && Lowest(s, w, width, y)
  }

  /** The right-aligned half of `stbrp__skyline_find_best_pos`: also try to end where a node begins. */
  method ScanRight(mem: seq<Cell>, head: int, ghost ids: seq<int>, ghost s: seq<Seg>, width: int, height: int,
                   w: nat, h: nat, best0: Link, ghost k0: nat, x0: int, y: int, waste0: int)
    returns (best: Link, ghost k: nat, x: int, waste: int)
    requires Shows(mem, head, ids, s) && Searchable(s, w, width) && FloorLast(s)
    requires Holding(s, ids, w, width, best0, k0, x0, y, waste0) && y + h <= height
    ensures Holding(s, ids, w, width, best, k, x, y, waste)
    ensures NoWorse(waste, x, waste0, x0) && RightBest(s, w, width, |s|, x, y, waste)
  {
    hide Holding, RightBest, Shows, Roof, Waste;
    best, k, x, waste := best0, k0, x0, waste0;
    var node, prev := head, HeadLink;
    var tail, t := FirstAdmissible(mem, head, ids, s, width, w);
    RightBestNone(s, w, width, t, x, y, waste);
    NodeOf(mem, head, ids, s, 0);
    ghost var i := 0;
    NodeOf(mem, head, ids, s, t);
    while tail != NULL
      invariant 0 <= t <= |s| == |ids| && tail == (if t < |s| then ids[t] else NULL)
      invariant t < |s| ==> 0 <= tail
      invariant 0 <= i < |s| - 1 && node == ids[i] && LinkAt(ids, prev, i)
      invariant t < |s| ==> w <= s[t].x && s[i].x <= s[t].x - w
      invariant Holding(s, ids, w, width, best, k, x, y, waste)
      invariant NoWorse(waste, x, waste0, x0) && RightBest(s, w, width, t, x, y, waste)
      decreases |s| - t
    {
      NodeOf(mem, head, ids, s, t);
      var xpos, next := mem[tail].x - w, mem[tail].next;
      Ordered(s, t, |s| - 1);
      node, prev, i := Advance(mem, head, ids, s, width, xpos, node, prev, i);
      best, k, x, waste := TryEnd(mem, head, ids, s, width, height, w, h, node, prev, i, t, xpos, best, k, x, y, waste);
      tail, t := next, t + 1;
      if t < |s| {
        Ordered(s, t - 1, t);
      }
    }
  }

  /** One right-aligned candidate: the rectangle ends at node `t`, its left edge is in segment `i`. */
  method TryEnd(mem: seq<Cell>, head: int, ghost ids: seq<int>, ghost s: seq<Seg>, ghost width: int, height: int,
                w: nat, h: nat, node: int, prev: Link, ghost i: nat, ghost t: nat, xpos: int,
                best0: Link, ghost k0: nat, x0: int, y: int, waste0: int)
    returns (best: Link, ghost k: nat, x: int, waste: int)
    requires Shows(mem, head, ids, s) && Searchable(s, w, width) && FloorLast(s)
    requires t < |s| && xpos == s[t].x - w && 0 <= xpos && s[t].x <= width
    requires Covers(s, i, xpos) && node == ids[i] && LinkAt(ids, prev, i)
    requires Holding(s, ids, w, width, best0, k0, x0, y, waste0) && y + h <= height
    requires RightBest(s, w, width, t, x0, y, waste0)
    ensures Holding(s, ids, w, width, best, k, x, y, waste)
    ensures NoWorse(waste, x, waste0, x0) && RightBest(s, w, width, t + 1, x, y, waste)
  {
    best, k, x, waste := best0, k0, x0, waste0;
    var y1, waste1 := FindMinY(mem, head, ids, s, node, i, xpos, w);
    if y1 + h <= height {
      if y1 <= y {
        if y1 < y || waste1 < waste || (waste1 == waste && xpos < x) {
          best, k, x, waste := prev, i, xpos, waste1;
        }
      }
    }
    assert OnEdge(s, w, i, xpos) by {
      assert s[t].x == xpos + w;
    }
    RightBestStep(s, w, width, t, i, y, x0, waste0, x, waste);
  }

  lemma RightBestNone(s: seq<Seg>, w: nat, width: int, t: nat, x: int, y: int, waste: int)
    requires Searchable(s, w, width) && t <= |s| && forall m :: 0 <= m < t ==> s[m].x < w
    ensures RightBest(s, w, width, t, x, y, waste)
  {
  }

  lemma RightBestStep(s: seq<Seg>, w: nat, width: int, t: nat, i: nat, y: int, x: int, waste: int, x': int, waste': int)
    requires Searchable(s, w, width) && RightBest(s, w, width, t, x, y, waste) && NoWorse(waste', x', waste, x)
    requires t < |s| && w <= s[t].x <= width && Covers(s, i, s[t].x - w)
    requires EndsAt(s, w, width, t, i, y) ==> NoWorse(waste', x', Waste(s, s[t].x - w, w, y), s[t].x - w)
    ensures RightBest(s, w, width, t + 1, x', y, waste')
  {
    hide Waste, Roof;
    forall m, k | 0 <= m < t + 1 && EndsAt(s, w, width, m, k, y)
      ensures NoWorse(waste', x', Waste(s, s[m].x - w, w, y), s[m].x - w)
    {
      if m == t {
        SegAtUnique(s, s[t].x - w, i);
        SegAtUnique(s, s[t].x - w, k);
      }
    }
  }

  /** The first node a rectangle of width `w` can end at. */
  method FirstAdmissible(mem: seq<Cell>, head: int, ghost ids: seq<int>, ghost s: seq<Seg>, ghost width: int, w: nat)
    returns (tail: int, ghost t: nat)
    requires Shows(mem, head, ids, s) && Searchable(s, w, width)
    ensures t < |s| && tail == ids[t] && w <= s[t].x
    ensures forall m :: 0 <= m < t ==> s[m].x < w
  {
    tail, t := head, 0;
    NodeOf(mem, head, ids, s, 0);
    while mem[tail].x < w
      invariant 0 <= t < |s| && tail == ids[t] && 0 <= tail < |mem| && s[t].x == mem[tail].x
      invariant forall m :: 0 <= m < t ==> s[m].x < w
      decreases |s| - t
    {
      NodeOf(mem, head, ids, s, t);
      tail, t := mem[tail].next, t + 1;
    }
  }

  /** Move on to the node that covers `xpos`. */
  method Advance(mem: seq<Cell>, head: int, ghost ids: seq<int>, ghost s: seq<Seg>, ghost width: int, xpos: int,
                 node0: int, prev0: Link, ghost i0: nat)
    returns (node: int, prev: Link, ghost i: nat)
    requires Shows(mem, head, ids, s) && |s| >= 2 && s[|s| - 1].x == width && xpos < width
    requires i0 < |s| - 1 && node0 == ids[i0] && LinkAt(ids, prev0, i0) && s[i0].x <= xpos
    ensures Covers(s, i, xpos) && node == ids[i] && LinkAt(ids, prev, i)
  {
    node, prev, i := node0, prev0, i0;
    NodeOf(mem, head, ids, s, i);
    while mem[mem[node].next].x <= xpos
      invariant 0 <= i < |s| - 1 && node == ids[i] && LinkAt(ids, prev, i) && s[i].x <= xpos
      invariant 0 <= node < |mem| && mem[node].next == ids[i + 1] && 0 <= ids[i + 1] < |mem|
      invariant s[i + 1].x == mem[ids[i + 1]].x
      decreases |s| - i
    {
      NodeOf(mem, head, ids, s, i + 1);
      prev := NextOf(node);
      node := mem[node].next;
      i := i + 1;
    }
  }

  /** No left-aligned position at this height is better than `waste` at `x`. */
  ghost predicate LeftLeast(s: seq<Seg>, w: nat, width: int, x: int, y: int, waste: int)
    requires Searchable(s, w, width)
  {
    forall i :: 0 <= i < |s| - 1 && Fits(s, w, width, i) && Roof(s, s[i].x, w) == y ==>
                  NoWorse(waste, x, Waste(s, s[i].x, w, y), s[i].x)
  }

  /** What a successful search promises: an edge on a node and the lowest position of all columns; for bottom-left the
      leftmost of those; for best-fit, of those that waste least. */
  ghost predicate BestPosition(s: seq<Seg>, ids: seq<int>, w: nat, width: int, rule: Heuristic,
                               link: Link, k: nat, x: int, y: int)
  {
    && Rests(s, ids, w, width, link, k, x, y)
    && Lowest(s, w, width, y)
    && OnEdge(s, w, k, x)
    && (rule.BottomLeft? ==> s[k].x == x && BottomLeftMost(s, width, w, x, y))
    && (rule.BestFit? ==> BestFitMost(s, width, w, x, y))
  }

  /** The best of all positions with an edge on a node is the best of all columns. */
  lemma BestEverywhere(s: seq<Seg>, ids: seq<int>, w: nat, width: int, link: Link, k: nat, x: int, y: int, waste: int)
    requires Holding(s, ids, w, width, link, k, x, y, waste)
    requires LeftLeast(s, w, width, x, y, waste) && RightBest(s, w, width, |s|, x, y, waste)
    ensures BestFitMost(s, width, w, x, y)
  {
    hide Roof, Waste, LinkAt, OnEdge, LeftLeast, RightBest;
    forall c | 0 <= c <= width - w && Roof(s, c, w) == y
      ensures NoWorse(waste, x, Waste(s, c, w, y), c)
    {
      var e := SlideToEdge(s, width, w, y, c);
      EdgeIsTried(s, w, width, x, y, waste, e);
    }
  }

  lemma EdgeIsTried(s: seq<Seg>, w: nat, width: int, x: int, y: int, waste: int, e: int)
    requires Searchable(s, w, width) && 0 <= e <= width - w && Roof(s, e, w) == y && HasEdge(s, w, e)
    requires LeftLeast(s, w, width, x, y, waste) && RightBest(s, w, width, |s|, x, y, waste)
    ensures NoWorse(waste, x, Waste(s, e, w, y), e)
  {
    hide Roof, Waste, NoWorse;
    var i :| 0 <= i < |s| && (s[i].x == e || s[i].x == e + w);
    if s[i].x == e {
      assert Fits(s, w, width, i);
    } else {
      assert EndsAt(s, w, width, i, SegAt(s, e), y);
    }
  }

  /** Best-fit never begins inside the floor: at its start nothing is wasted either, and it is further left. */
  lemma NotInsideFloor(s: seq<Seg>, width: int, height: int, w: nat, k: nat, x: int, y: int)
    requires IsSkyline(s, width, height) && FloorLast(s) && Searchable(s, w, width)
    requires Covers(s, k, x) && BestFitMost(s, width, w, x, y)
    ensures s[k].x == x || s[k].y > 0
  {
    if s[k].x < x && s[k].y == 0 {
      hide Roof, Waste;
      var c := s[k].x;
      Ordered(s, 0, k);
      OnOneSegment(s, x, w, k);
      OnOneSegment(s, c, w, k);
    }
  }

  lemma OnOneSegment(s: seq<Seg>, x: int, w: nat, k: nat)
    requires InRange(s, x, w) && w > 0 && Covers(s, k, x) && x + w <= s[k + 1].x && s[k].y == 0
    ensures Roof(s, x, w) == 0 && Waste(s, x, w, 0) == 0
  {
    NothingUnder(s, x, 0);
    RoofExtend(s, x, 0, w, k);
    WasteExtend(s, x, 0, w, k, 0);
  }

  /** What the left-aligned scan has settled, column by column. */
  lemma LeftOutcome(s: seq<Seg>, ids: seq<int>, w: nat, width: int, height: int, h: nat, rule: Heuristic,
                    best: Link, y: int, waste: int, spot: Spot)
    requires IsSkyline(s, width, height) && Searchable(s, w, width) && 0 < h <= height <= INFINITE_Y
    requires Scanned(s, ids, w, width, rule, Cap(rule, height, h), |s| - 1, best, y, waste, spot)
    ensures best.NoLink? ==> forall c :: 0 <= c <= width - w ==> Roof(s, c, w) + h > height
    ensures !best.NoLink? ==>
              && 0 <= spot.k < |s| && Rests(s, ids, w, width, best, spot.k, s[spot.k].x, y) && Lowest(s, w, width, y)
              && (rule.BottomLeft? ==> BottomLeftMost(s, width, w, s[spot.k].x, y))
              && (rule.BestFit? ==> waste == Waste(s, s[spot.k].x, w, y) && LeftLeast(s, w, width, s[spot.k].x, y, waste) && y + h <= height)
  {
    hide NoneBelow, LeftLeast, BottomLeftMost, Waste;
    var cap := Cap(rule, height, h);
    if best.NoLink? {
      NoneBelowAnywhere(s, w, width, cap, |s| - 1);
    } else {
      LeftBestAnywhere(s, w, width, cap, |s| - 1, spot, rule);
      if rule.BestFit? {
        LeftLeastOf(s, w, width, cap, spot);
      }
    }
  }

  lemma LeftLeastOf(s: seq<Seg>, w: nat, width: int, cap: int, best: Spot)
    requires Searchable(s, w, width) && LeftBest(s, w, width, cap, |s| - 1, best, BestFit)
    ensures LeftLeast(s, w, width, s[best.k].x, best.y, best.waste)
  {
    hide Waste, Roof;
    forall i | 0 <= i < |s| - 1 && Fits(s, w, width, i) && Roof(s, s[i].x, w) == best.y
      ensures NoWorse(best.waste, s[best.k].x, Waste(s, s[i].x, w, best.y), s[i].x)
    {
      assert !Better(SpotAt(s, w, width, i), best, BestFit);
      if best.k <= i {
        Ordered(s, best.k, i);
      }
    }
  }

  /** What is better than a least position is least. */
  lemma LeastMoves(s: seq<Seg>, w: nat, width: int, x: int, y: int, waste: int, x': int, waste': int)
    requires Searchable(s, w, width) && LeftLeast(s, w, width, x, y, waste) && NoWorse(waste', x', waste, x)
    ensures LeftLeast(s, w, width, x', y, waste')
  {
    hide Waste, Roof;
  }

  /** The position of the node that a link points at. */
  method Target(mem: seq<Cell>, head: int, ghost ids: seq<int>, ghost s: seq<Seg>, link: Link, ghost k: nat)
    returns (x: int)
    requires Shows(mem, head, ids, s) && LinkAt(ids, link, k)
    ensures x == s[k].x
  {
    NodeOf(mem, head, ids, s, k);
    if link.NextOf? {
      NodeOf(mem, head, ids, s, k - 1);
    }
    x := mem[if link.HeadLink? then head else mem[link.node].next].x;
  }

  /** `stbrp__skyline_find_best_pos` for an already aligned width. */
  method FindBestPos(mem: seq<Cell>, head: int, ghost ids: seq<int>, ghost s: seq<Seg>, width: int, height: int,
                     rule: Heuristic, w: nat, h: nat)
    returns (best: Link, ghost k: nat, x: int, y: int)
    requires Shows(mem, head, ids, s) && IsSkyline(s, width, height) && FloorLast(s)
    requires 0 < w && 0 < h && height <= INFINITE_Y && 0 < width
    ensures !best.NoLink? ==> w <= width && h <= height && BestPosition(s, ids, w, width, rule, best, k, x, y)
    ensures best.NoLink? && w <= width && h <= height ==>
              forall c :: 0 <= c <= width - w ==> Roof(s, c, w) + h > height
  {
    best, k, x, y := NoLink, 0, 0, 0;
    if w > width || h > height {
      return;
    }
    ghost var spot;
    var bestWaste;
    best, y, bestWaste, spot := ScanLeft(mem, head, ids, s, width, height, rule, w, h);
    LeftOutcome(s, ids, w, width, height, h, rule, best, y, bestWaste, spot);
    if !best.NoLink? {
      k := spot.k;
      x := Target(mem, head, ids, s, best, k);
      // With nothing found so far nothing fits right-aligned either, so the second scan is not begun.
      if rule.BestFit? {
        ghost var x0, waste0 := x, bestWaste;
        best, k, x, bestWaste := ScanRight(mem, head, ids, s, width, height, w, h, best, k, x, y, bestWaste);
        LeastMoves(s, w, width, x0, y, waste0, x, bestWaste);
        BestEverywhere(s, ids, w, width, best, k, x, y, bestWaste);
      }
    }
  }
}
