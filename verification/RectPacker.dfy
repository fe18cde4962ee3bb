/** The skyline rectangle packer: the context that owns the lists, and the packing of rectangle arrays. */
module RectPacker {
  import opened Numbers
  import opened Skyline
  import opened SkylineSearch
  import opened NodePool
  import opened PackerSearch
  import opened PackerUpdate

  /** The largest coordinate, and the one given to rectangles that could not be packed. */
  const MAX_VALUE: int := 0x7fff_ffff

  ghost predicate RoomAt(s: seq<Seg>, width: int, height: int, w: nat, h: nat, c: int)
    requires IsSkyline(s, width, height)
  {
    0 < w <= width && 0 <= c <= width - w && Roof(s, c, w) + h <= height
  }

  /** The search finds a position that fits exactly when some column does. */
  lemma SearchDecides(s: seq<Seg>, ids: seq<int>, w: nat, width: int, height: int, h: nat, rule: Heuristic,
                      link: Link, k: nat, x: int, y: int)
    requires IsSkyline(s, width, height) && 0 < w && 0 < h && 0 < width
    requires !link.NoLink? ==> w <= width && h <= height && BestPosition(s, ids, w, width, rule, link, k, x, y)
    requires link.NoLink? && w <= width && h <= height ==> forall c :: 0 <= c <= width - w ==> Roof(s, c, w) + h > height
    ensures (exists c :: RoomAt(s, width, height, w, h, c)) <==> !link.NoLink? && y + h <= height
  {
    if !link.NoLink? && y + h <= height {
      assert RoomAt(s, width, height, w, h, x);
    }
    forall c | RoomAt(s, width, height, w, h, c)
      ensures !link.NoLink? && y + h <= height
    {
      var low := RoofAttained(s, c, w);
    }
  }

  /** `t` is the skyline after box `b`, whose left edge is in segment `k`, was inserted into `s`: raised from the
      box's left edge to `end`. That is the box's right edge unless the box begins inside a segment and ends in
      it too. Nodes stay on any grid that the box's edges are on. */
  ghost predicate Inserted(s: seq<Seg>, t: seq<Seg>, width: int, height: int, k: nat, b: Box, end: int) {
    && k + 1 < |s|
    && Raised(s, t, width, height, b.x, end, b.y + b.h)
    && NeverDrops(s, t, width, height)
    && b.x + b.w <= end <= width
    && (end == b.x + b.w <==> s[k].x == b.x || s[k + 1].x <= b.x + b.w)
    && forall a {:trigger OnGrid(s, a)} :: a > 0 && OnGrid(s, a) && b.x % a == 0 && (b.x + b.w) % a == 0 ==> OnGrid(t, a)
  }

  lemma InsertedByPlace(s: seq<Seg>, width: int, height: int, k: nat, b: Box, aligned: nat)
    requires IsSkyline(s, width, height) && Covers(s, k, b.x) && 0 < b.w <= aligned && b.x + aligned <= width
    requires b.y == Roof(s, b.x, aligned) && 0 < b.h && b.y + b.h <= height
    ensures Inserted(s, Place(s, k, b.x, b.y + b.h, b.x + b.w), width, height, k, b, PlaceEnd(s, k, b.x, b.x + b.w))
  {
    hide Place, PlaceEnd, Raised, NeverDrops, Roof, OnGrid;
    var low := RoofAttained(s, b.x, aligned);
    PlaceIsRaised(s, width, height, k, b.x, b.y + b.h, b.x + b.w);
    PlaceDropsNothing(s, width, height, k, b.x, b.y + b.h, b.x + b.w, aligned);
    PlaceEndExact(s, k, b.x, b.x + b.w);
    PlaceEndBounds(s, k, b.x, b.x + b.w);
    forall a | a > 0 && OnGrid(s, a) && b.x % a == 0 && (b.x + b.w) % a == 0
      ensures OnGrid(Place(s, k, b.x, b.y + b.h, b.x + b.w), a)
    {
      PlaceOnGrid(s, width, height, k, b.x, b.y + b.h, b.x + b.w, a);
    }
  }

  /** `n` nodes at a pitch of `a` reach across the width. */
  ghost predicate Reaches(n: int, a: int, width: int) {
    n * a >= width
  }

  class Context {
    var width: int
    var height: int
    var align: int
    var rule: Heuristic
    var numNodes: int
    var mem: seq<Cell>
    var activeHead: int
    var freeHead: int
    ghost var active: seq<int>
    ghost var free: seq<int>
    ghost var sky: seq<Seg>
    ghost var placed: seq<Box>

    ghost predicate Valid()
      reads this
    {
      && 0 < width <= MAX_VALUE
      && 0 <= height <= INFINITE_Y
      && 0 < align
      && |mem| == numNodes + 2
      && Pool(mem, activeHead, freeHead, active, free, sky)
      && IsSkyline(sky, width, height) && FloorLast(sky)
      && Packing(sky, placed, width, height)
    }

    /** `stbrp_init_target`: chain the `n` nodes into the free list; the skyline is the floor. */
    constructor (width: int, height: int, n: nat)
      requires 0 < width <= MAX_VALUE && 0 <= height <= INFINITE_Y && 0 < n
      ensures Valid()
      ensures this.width == width && this.height == height && numNodes == n && rule == BottomLeft
      ensures |free| == n && placed == [] && sky == [Seg(0, 0), Seg(width, INFINITE_Y)]
      ensures align == QuantumFor(width, n) && Supplied()
      ensures n * align >= width && forall b :: b > 0 && n * b >= width ==> align <= b
      ensures n >= width ==> align == 1
    {
      hide Pool, Reaches, IsSkyline, Packing, OnGrid, FloorLast;
      QuantumIsLeast(width, n);
      FloorIsFree(width, height, QuantumFor(width, n));
      var cells := ChainNodes(width, n);
      this.width, this.height, numNodes, rule := width, height, n, BottomLeft;
      align := (width + n - 1) / n;
      mem, activeHead, freeHead := cells, n, 0;
      active, free := [n, n + 1], seq(n, i => i);
      sky, placed := [Seg(0, 0), Seg(width, INFINITE_Y)], [];
      Spans(width, n, QuantumFor(width, n));
    }

    static lemma Spans(width: int, n: int, a: int)
      requires n * a >= width
      ensures Reaches(n, a, width)
    {
    }

    static lemma FloorIsFree(width: int, height: int, a: int)
      requires 0 < width && 0 <= height <= INFINITE_Y && a > 0
      ensures var floor := [Seg(0, 0), Seg(width, INFINITE_Y)];
              && IsSkyline(floor, width, height) && FloorLast(floor)
              && Packing(floor, [], width, height) && OnGrid(floor, a)
    {
    }

    /** The free nodes in a chain, behind them the floor and the sentinel. */
    static method ChainNodes(width: int, n: nat) returns (mem: seq<Cell>)
      requires 0 < n
      ensures |mem| == n + 2
      ensures Pool(mem, n, 0, [n, n + 1], seq(n, i => i), [Seg(0, 0), Seg(width, INFINITE_Y)])
    {
      var cells := new Cell[n + 2](_ => Cell(0, 0, NULL));
      var i := 0;
      while i < n - 1
        invariant 0 <= i <= n - 1
        invariant forall j :: 0 <= j < i ==> cells[j].next == j + 1
      {
        cells[i] := cells[i].(next := i + 1);
        i := i + 1;
      }
      cells[i] := cells[i].(next := NULL);
      cells[n] := Cell(0, 0, n + 1);
      cells[n + 1] := Cell(width, 0x4000_0000, NULL);
      mem := cells[..];
    }

    /** `stbrp_setup_allow_out_of_mem`: either quantize widths or accept running out of nodes. */
    method SetupAllowOutOfMem(allow: bool)
      requires Valid() && numNodes > 0
      modifies this`align
      ensures Valid()
      ensures align == if allow then 1 else QuantumFor(width, numNodes)
      ensures Supplied() <==>
                && OnGrid(sky, align) && (rule.BestFit? ==> width % align == 0)
                && (allow ==> width <= numNodes)
    {
      QuantumIsLeast(width, numNodes);
      align := if allow then 1 else (width + numNodes - 1) / numNodes;
    }

    method SetupHeuristic(h: Heuristic)
      requires Valid()
      modifies this`rule
      ensures Valid() && rule == h
      ensures old(Supplied()) ==> (Supplied() <==> h.BottomLeft? || width % align == 0)
    {
      rule := h;
    }

    /** What keeps the nodes from running out: they stand on multiples of the quantum and reach across the target at
        that pitch. Right-aligned positions count from the target's width, which must be a multiple, too. */
    ghost predicate Supplied()
      reads this
    {
      align > 0 && OnGrid(sky, align) && Reaches(numNodes, align, width) && (rule.BestFit? ==> width % align == 0)
    }

    /** While all nodes stand on multiples of `a` and the nodes reach across the target at that pitch, there is always a
        node left for the next insertion. With `a == 1` the first condition is void. */
    lemma FreeNodeLeft(a: int)
      requires Valid() && a > 0 && OnGrid(sky, a) && Reaches(numNodes, a, width)
      ensures free != []
    {
      NodesSuffice(sky, width, height, a, numNodes);
    }

    /** There is a column where a rectangle of (aligned) width `w` fits. */
    ghost predicate HasRoom(w: nat, h: nat)
      requires IsSkyline(sky, width, height)
      reads this
    {
      exists c :: RoomAt(sky, width, height, w, h, c)
    }

    /** `stbrp__skyline_pack_rectangle`: find a position for the aligned width, insert the raw width. */
    method PackAligned(w: nat, h: nat, aligned: nat) returns (ok: bool, x: int, y: int, ghost k: nat, ghost end: int)
      requires Valid() && 0 < w <= aligned && 0 < h
      modifies this`mem, this`activeHead, this`freeHead, this`active, this`free, this`sky, this`placed
      ensures Valid()
      ensures ok <==> old(free != [] && HasRoom(aligned, h))
      ensures !ok ==> unchanged(this)
      ensures ok ==> placed == old(placed) + [Box(x, y, w, h)]
      ensures ok ==> Covers(old(sky), k, x) && x + aligned <= width && OnEdge(old(sky), aligned, k, x)
      ensures ok ==> Inserted(old(sky), sky, width, height, k, Box(x, y, w, h), end)
      ensures ok && rule.BottomLeft? ==> old(sky)[k].x == x && BottomLeftMost(old(sky), width, aligned, x, y)
      ensures ok && rule.BestFit? ==> BestFitMost(old(sky), width, aligned, x, y)
    {
      hide Pool, Shows, LinkAt, Packing, BottomLeftMost, BestFitMost, FloorLast, Inserted, Roof, RoomAt, OnEdge, IsSkyline;
      PoolParts(mem, activeHead, freeHead, active, free, sky);
      var link;
      end := 0;
      link, k, x, y := Locate(mem, activeHead, active, sky, width, height, rule, aligned, h);
      if link.NoLink? || y + h > height || freeHead == NULL {
        ok := false;
        return;
      }
      ok := true;
      var mem', head', freeHead';
      ghost var active', free', sky';
      mem', head', freeHead', active', free', sky', end :=
        Insert(mem, activeHead, freeHead, active, free, sky, placed, width, height, link, k, x, y, w, h, aligned);
      mem, activeHead, freeHead, active, free, sky := mem', head', freeHead', active', free', sky';
      placed := placed + [Box(x, y, w, h)];
    }

    /** Link in a box that rests on the skyline at the position `link`, which is in segment `k`. */
    static method Insert(mem: seq<Cell>, activeHead: int, freeHead: int, ghost active: seq<int>, ghost free: seq<int>,
                         ghost s: seq<Seg>, ghost boxes: seq<Box>, ghost width: int, ghost height: int,
                         link: Link, ghost k: nat, x: int, y: int, w: nat, h: nat, ghost aligned: nat)
      returns (mem': seq<Cell>, activeHead': int, freeHead': int, ghost active': seq<int>, ghost free': seq<int>,
               ghost t: seq<Seg>, ghost end: int)
      requires Pool(mem, activeHead, freeHead, active, free, s) && free != []
      requires IsSkyline(s, width, height) && Packing(s, boxes, width, height)
      requires FloorLast(s) && LinkAt(active, link, k) && Covers(s, k, x) && (s[k].x == x || s[k].y > 0)
      requires 0 < w <= aligned && x + aligned <= width
      requires y == Roof(s, x, aligned) && 0 < h && y + h <= height
      ensures Pool(mem', activeHead', freeHead', active', free', t) && |mem'| == |mem|
      ensures IsSkyline(t, width, height) && FloorLast(t) && Inserted(s, t, width, height, k, Box(x, y, w, h), end)
      ensures Packing(t, boxes + [Box(x, y, w, h)], width, height)
    {
      hide Pool, LinkAt, Packing, Inserted, Roof, Place, PlaceEnd, IsSkyline, FloorLast;
      mem', activeHead', freeHead', active', free' :=
        Relink(mem, activeHead, freeHead, active, free, s, link, k, x, y + h, x + w);
      t, end := Place(s, k, x, y + h, x + w), PlaceEnd(s, k, x, x + w);
      PlaceKeepsPacking(s, boxes, width, height, k, Box(x, y, w, h), aligned);
      InsertedByPlace(s, width, height, k, Box(x, y, w, h), aligned);
      RestsAboveZero(s, width, height, k, x, aligned);
      PlaceKeepsFloorLast(s, width, height, k, x, y + h, x + w);
    }

    static lemma RestsAboveZero(s: seq<Seg>, width: int, height: int, k: nat, x: int, w: nat)
      requires IsSkyline(s, width, height) && Covers(s, k, x) && x + w <= width
      ensures Roof(s, x, w) >= 0
    {
      Ordered(s, 0, k);
      var col := RoofAttained(s, x, w);
    }

    static method Locate(mem: seq<Cell>, head: int, ghost ids: seq<int>, ghost s: seq<Seg>, width: int, height: int,
                         rule: Heuristic, w: nat, h: nat)
      returns (link: Link, ghost k: nat, x: int, y: int)
      requires Shows(mem, head, ids, s) && IsSkyline(s, width, height) && FloorLast(s)
      requires 0 < w && 0 < h && height <= INFINITE_Y && 0 < width
      ensures (exists c :: RoomAt(s, width, height, w, h, c)) <==> !link.NoLink? && y + h <= height
      ensures !link.NoLink? ==> LinkAt(ids, link, k) && Covers(s, k, x) && w <= width && 0 <= x && x + w <= width
      ensures !link.NoLink? ==> y == Roof(s, x, w) && OnEdge(s, w, k, x)
      ensures !link.NoLink? ==> s[k].x == x || s[k].y > 0
      ensures !link.NoLink? && rule.BottomLeft? ==> s[k].x == x && BottomLeftMost(s, width, w, x, y)
      ensures !link.NoLink? && rule.BestFit? ==> BestFitMost(s, width, w, x, y)
    {
      hide BestFitMost, BottomLeftMost, Roof;
      link, k, x, y := FindBestPos(mem, head, ids, s, width, height, rule, w, h);
      SearchDecides(s, ids, w, width, height, h, rule, link, k, x, y);
      if !link.NoLink? && rule.BestFit? {
        NotInsideFloor(s, width, height, w, k, x, y);
      }
    }

    /** The same for a raw width. While the nodes are supplied and widths are multiples of the quantum, a rectangle is
        packed whenever there is room for it, and the nodes stay supplied. */
    method PackRectangle(w: nat, h: nat) returns (ok: bool, x: int, y: int, ghost k: nat, ghost end: int)
      requires Valid() && 0 < w && 0 < h
      modifies this`mem, this`activeHead, this`freeHead, this`active, this`free, this`sky, this`placed
      ensures Valid()
      ensures ok <==> old(free != [] && HasRoom(AlignUp(w, align), h))
      ensures !ok ==> unchanged(this)
      ensures ok ==> placed == old(placed) + [Box(x, y, w, h)]
      ensures ok ==> Covers(old(sky), k, x) && x + AlignUp(w, align) <= width
      ensures ok ==> Inserted(old(sky), sky, width, height, k, Box(x, y, w, h), end)
      ensures ok && rule.BottomLeft? ==> old(sky)[k].x == x && BottomLeftMost(old(sky), width, AlignUp(w, align), x, y)
      ensures ok && rule.BestFit? ==> BestFitMost(old(sky), width, AlignUp(w, align), x, y)
      ensures old(Supplied()) && w % align == 0 ==> Supplied() && (ok <==> old(HasRoom(w, h)))
    {
      hide Pool, Packing, BottomLeftMost, BestFitMost, FloorLast, Inserted, Roof, RoomAt, OnEdge, OnGrid, Reaches, AlignUp, IsSkyline;
      ghost var supplied, s := Supplied() && w % align == 0, sky;
      if supplied {
        MultiplesStay(w, align);
        FreeNodeLeft(align);
      }
      var aligned := w + align - 1;
      aligned := aligned - aligned % align;
      Aligned(w, align);
      ok, x, y, k, end := PackAligned(w, h, aligned);
      if supplied && ok {
        StaysOnGrid(s, sky, width, height, k, Box(x, y, w, h), end, align, rule);
      }
    }

    /** Packing a width that is a multiple of the quantum keeps all nodes on its grid: bottom-left always, best-fit when
        the target's width is a multiple as well. */
    static lemma StaysOnGrid(s: seq<Seg>, t: seq<Seg>, width: int, height: int, k: nat, b: Box, end: int, a: int,
                             rule: Heuristic)
      requires IsSkyline(s, width, height) && a > 0 && OnGrid(s, a) && b.w % a == 0 && b.w > 0
      requires Covers(s, k, b.x) && OnEdge(s, b.w, k, b.x) && Inserted(s, t, width, height, k, b, end)
      requires if rule.BottomLeft? then s[k].x == b.x else width % a == 0
      ensures OnGrid(t, a)
    {
      hide Raised, NeverDrops, Increasing;
      if s[k].x == b.x {
        ModAdd(s[k].x, b.w, a);
      } else {
        var i :| 0 <= i < |s| && s[i].x == b.x + b.w;
        assert s[i].x % a == 0;
        ModSub(s[i].x, b.w, a);
      }
    }

    static lemma ModSub(x: int, w: int, a: int)
      requires a > 0 && x % a == 0 && w % a == 0
      ensures (x - w) % a == 0
    {
      assert x - w == (x / a - w / a) * a;
      MultipleMod(x / a - w / a, a);
    }

    static lemma Aligned(w: nat, a: int)
      requires a > 0
      ensures AlignUp(w, a) == w + a - 1 - (w + a - 1) % a
    {
    }

    /** Rounding leaves multiples alone. */
    static lemma MultiplesStay(w: nat, a: int)
      requires a > 0 && w % a == 0
      ensures AlignUp(w, a) == w
    {
      RoundUp(w, a);
      if w < AlignUp(w, a) {
        NextMultiple(w, AlignUp(w, a), a);
      }
    }

    static lemma ModAdd(x: int, w: int, a: int)
      requires a > 0 && x % a == 0 && w % a == 0
      ensures (x + w) % a == 0
    {
      assert x + w == (x / a + w / a) * a;
      MultipleMod(x / a + w / a, a);
    }

    /** The width quantum: the least pitch at which `n` nodes reach across a target of width `w`. */
    static ghost function QuantumFor(w: int, n: int): (a: int)
      requires w > 0 && n > 0
      ensures a > 0 && n * a >= w
      ensures forall b :: b > 0 && n * b >= w ==> a <= b
    {
      QuantumIsLeast(w, n);
      (w + n - 1) / n
    }

    /** Rounding the quotient up is what gives that pitch. */
    static lemma QuantumIsLeast(w: int, n: int)
      requires w > 0 && n > 0
      ensures var a := (w + n - 1) / n;
              a > 0 && n * a >= w && (forall b :: b > 0 && n * b >= w ==> a <= b) && (n >= w ==> a == 1)
    {
      var a := (w + n - 1) / n;
      Quotient(w + n - 1, n);
      forall b | b > 0 && n * b >= w
        ensures a <= b
      {
        if b < a {
          MulMonotone(b, a - 1, n);
        }
      }
      if n >= w {
        assert n * 1 >= w;
      }
    }

    static lemma Quotient(v: int, n: int)
      requires n > 0
      ensures n * (v / n) <= v < n * (v / n) + n
    {
    }

    /** The width the search works with: the least multiple of `a` that is not below `w`. */
    static ghost function AlignUp(w: nat, a: int): (r: nat)
      requires a > 0
      ensures w <= r < w + a && r % a == 0
    {
      RoundUp(w, a);
      w + a - 1 - (w + a - 1) % a
    }

    static lemma RoundUp(w: nat, a: int)
      requires a > 0
      ensures w <= w + a - 1 - (w + a - 1) % a < w + a
      ensures (w + a - 1 - (w + a - 1) % a) % a == 0
    {
      var v := w + a - 1;
      assert v - v % a == v / a * a;
      MultipleMod(v / a, a);
    }

    static lemma MultipleMod(q: int, a: int)
      requires a > 0
      ensures q * a % a == 0
    {
      var r := q * a;
      assert r == r / a * a + r % a;
      assert (q - r / a) * a == r % a;
      if q - r / a >= 1 {
        MulMonotone(1, q - r / a, a);
      } else if q - r / a <= -1 {
        MulMonotone(q - r / a, -1, a);
      }
    }
  }

  // ---------------------------------------------------------------------------------------
  // Raised beyond the box
  // ---------------------------------------------------------------------------------------

  /** A target of width 14 with three nodes, whose quantum is 5. Best-fit puts widths of 9 (searched as 10) and 2 (as 5) at
      0 and 9. A width of 6 (as 10) then goes to 1, where it wastes least, and inserting it raises columns 7 and 8, which
      it does not cover. */
  lemma RaisedBeyondTheBox()
    ensures var floor := [Seg(0, 0), Seg(14, INFINITE_Y)];
            var one := Place(floor, 0, 0, 1, 9);
            var two := Place(one, 1, 9, 2, 11);
            && Context.QuantumFor(14, 3) == 5
            && Context.AlignUp(9, 5) == 10 && Context.AlignUp(2, 5) == 5 && Context.AlignUp(6, 5) == 10
            && IsSkyline(floor, 14, 20) && BestFitMost(floor, 14, 10, 0, 0)
            && IsSkyline(one, 14, 20) && BestFitMost(one, 14, 5, 9, 0)
            && IsSkyline(two, 14, 20) && BestFitMost(two, 14, 10, 1, 2)
            && PlaceEnd(two, 0, 1, 1 + 6) == 9
  {
    hide BestFitMost, IsSkyline;
    var floor := [Seg(0, 0), Seg(14, INFINITE_Y)];
    var one := [Seg(0, 1), Seg(9, 0), Seg(14, INFINITE_Y)];
    var two := [Seg(0, 1), Seg(9, 2), Seg(11, 0), Seg(14, INFINITE_Y)];
    assert KeepFrom(floor, 0, 9) == 0;
    assert Place(floor, 0, 0, 1, 9) == one;
    assert KeepFrom(one, 1, 11) == 1;
    assert Place(one, 1, 9, 2, 11) == two;
    assert KeepFrom(two, 1, 7) == 1;
    FirstAtZero(floor);
    SecondAtNine(one);
    ThirdAtOne(two);
  }

  lemma FirstAtZero(floor: seq<Seg>)
    requires floor == [Seg(0, 0), Seg(14, INFINITE_Y)]
    ensures IsSkyline(floor, 14, 20) && BestFitMost(floor, 14, 10, 0, 0)
  {
    hide Roof, Waste;
    forall c | 0 <= c <= 4
      ensures Roof(floor, c, 10) == 0 && Waste(floor, c, 10, 0) == 0
    {
      OnOneSegment(floor, c, 10, 0);
    }
  }

  lemma SecondAtNine(one: seq<Seg>)
    requires one == [Seg(0, 1), Seg(9, 0), Seg(14, INFINITE_Y)]
    ensures IsSkyline(one, 14, 20) && BestFitMost(one, 14, 5, 9, 0)
  {
    hide Roof, Waste;
    OnOneSegment(one, 9, 5, 1);
    forall c | 0 <= c < 9
      ensures Roof(one, c, 5) > 0
    {
      SegAtUnique(one, c, 0);
      RoofBounds(one, c, 5, c);
    }
  }

  lemma ThirdAtOne(two: seq<Seg>)
    requires two == [Seg(0, 1), Seg(9, 2), Seg(11, 0), Seg(14, INFINITE_Y)]
    ensures IsSkyline(two, 14, 20) && BestFitMost(two, 14, 10, 1, 2)
  {
    hide Roof, Waste;
    forall c | 0 <= c <= 4
      ensures Roof(two, c, 10) == 2 && Waste(two, c, 10, 2) == 9 - c + if c < 2 then 0 else 2 * (c - 1)
    {
      WasteAt(two, c);
    }
  }

  lemma WasteAt(two: seq<Seg>, c: int)
    requires two == [Seg(0, 1), Seg(9, 2), Seg(11, 0), Seg(14, INFINITE_Y)] && 0 <= c <= 4
    ensures Roof(two, c, 10) == 2 && Waste(two, c, 10, 2) == 9 - c + if c < 2 then 0 else 2 * (c - 1)
  {
    hide Roof, Waste;
    var a, b := 9 - c, if c == 0 then 10 else 11 - c;
    NothingUnder(two, c, 2);
    RoofExtend(two, c, 0, a, 0);
    WasteExtend(two, c, 0, a, 0, 2);
    RoofExtend(two, c, a, b, 1);
    WasteExtend(two, c, a, b, 1, 2);
    if c >= 2 {
      RoofExtend(two, c, b, 10, 2);
      WasteExtend(two, c, b, 10, 2, 2);
    }
  }
}
