/** Green-screen removal: clear every green pixel that is joined to the border through green pixels. */
module FloodFill {

  datatype Pos = Pos(x: int, y: int)

  datatype Pixel = Pixel(r: int, g: int, b: int, a: int)

  type Picture = map<Pos, Pixel>

  ghost const CLEAR: Pixel := Pixel(0, 0, 0, 0)

  /** `is_green_bg`. */
  predicate IsGreen(c: Pixel) {
    c.a > 0 && c.g > 220 && c.r < 60 && c.b < 60
  }

  ghost predicate InBounds(w: int, h: int, p: Pos) {
    0 <= p.x < w && 0 <= p.y < h
  }

  ghost predicate OnBorder(w: int, h: int, p: Pos) {
    InBounds(w, h, p) && (p.x == 0 || p.x == w - 1 || p.y == 0 || p.y == h - 1)
  }

  ghost predicate Adjacent(p: Pos, q: Pos) {
    (p.x == q.x && (p.y - q.y == 1 || q.y - p.y == 1)) || (p.y == q.y && (p.x - q.x == 1 || q.x - p.x == 1))
  }

  ghost predicate IsPicture(pix: Picture, w: int, h: int) {
    forall p :: p in pix <==> InBounds(w, h, p)
  }

  ghost predicate GreenAt(pix: Picture, p: Pos) {
    p in pix && pix[p].a > 0 && pix[p].g > 220 && pix[p].r < 60 && pix[p].b < 60
  }

  /** A walk from the border over green pixels, each next to the one before. */
  ghost predicate GreenPath(pix: Picture, w: int, h: int, path: seq<Pos>) {
    && path != []
    && OnBorder(w, h, path[0])
    && (forall i :: 0 <= i < |path| ==> GreenAt(pix, path[i]))
    && forall i :: 0 < i < |path| ==> Adjacent(path[i - 1], path[i])
  }

  ghost predicate Joined(pix: Picture, w: int, h: int, p: Pos) {
    exists path :: GreenPath(pix, w, h, path) && path[|path| - 1] == p
  }

  lemma BorderIsJoined(pix: Picture, w: int, h: int, p: Pos)
    requires OnBorder(w, h, p) && GreenAt(pix, p)
    ensures Joined(pix, w, h, p)
  {
    assert GreenPath(pix, w, h, [p]);
  }

  lemma NeighbourIsJoined(pix: Picture, w: int, h: int, p: Pos, q: Pos)
    requires Joined(pix, w, h, p) && Adjacent(p, q) && GreenAt(pix, q)
    ensures Joined(pix, w, h, q)
  {
    var path :| GreenPath(pix, w, h, path) && path[|path| - 1] == p;
    assert GreenPath(pix, w, h, path + [q]);
  }

  /** A set of pixels that contains the green border and all green neighbours of its members contains every
      pixel a green path can lead to. */
  lemma {:induction false} PathsStayInside(pix: Picture, w: int, h: int, inside: set<Pos>, path: seq<Pos>)
    requires forall p :: OnBorder(w, h, p) && GreenAt(pix, p) ==> p in inside
    requires forall p, q :: p in inside && Adjacent(p, q) && GreenAt(pix, q) ==> q in inside
    requires GreenPath(pix, w, h, path)
    ensures path[|path| - 1] in inside
    decreases |path|
  {
    if |path| > 1 {
      var front := path[..|path| - 1];
      assert GreenPath(pix, w, h, front);
      PathsStayInside(pix, w, h, inside, front);
      assert Adjacent(front[|front| - 1], path[|path| - 1]);
    }
  }

  /** The worklist while the border is being scanned, and ever after. */
  ghost predicate Started(pix: Picture, w: int, h: int, visited: set<Pos>, queue: seq<Pos>) {
    && (forall p :: p in visited ==> GreenAt(pix, p) && Joined(pix, w, h, p))
    && (forall i :: 0 <= i < |queue| ==> queue[i] in visited)
    && forall p :: p in visited ==> InBounds(w, h, p)
  }

  method Enqueue(pix: Picture, ghost original: Picture, ghost w: int, ghost h: int, p: Pos,
                 visited: set<Pos>, queue: seq<Pos>)
    returns (visited': set<Pos>, queue': seq<Pos>)
    requires IsPicture(original, w, h) && Started(original, w, h, visited, queue)
    requires p in pix && p in original && pix[p] == original[p]
    requires GreenAt(pix, p) ==> Joined(original, w, h, p)
    ensures Started(original, w, h, visited', queue')
    ensures visited <= visited' && queue <= queue'
    ensures visited' == if GreenAt(original, p) then visited + {p} else visited
    ensures p in visited || visited' == visited ==> visited' == visited && queue' == queue
    ensures forall q :: q in visited' && q !in visited ==> q in queue'
  {
    visited', queue' := visited, queue;
    if p !in visited && IsGreen(pix[p]) {
      visited', queue' := visited + {p}, queue + [p];
    }
  }

  /** Seed the worklist with all green border pixels: top and bottom rows, then left and right columns. A pixel outside the
      picture is an error, met exactly in pictures that have rows but no columns or columns but no rows. */
  method ScanBorder(pix: Picture, w: int, h: int) returns (ok: bool, visited: set<Pos>, queue: seq<Pos>)
    requires IsPicture(pix, w, h) && 0 <= w && 0 <= h
    ensures ok <==> (w == 0 <==> h == 0)
    ensures ok ==> Started(pix, w, h, visited, queue)
    ensures ok ==> forall p :: OnBorder(w, h, p) && GreenAt(pix, p) ==> p in visited
    ensures ok ==> forall p :: p in visited ==> p in queue
  {
    hide Started, GreenAt, Joined;
    ok, visited, queue := true, {}, [];
    NotStarted(pix, w, h);
    var x := 0;
    while x < w
      invariant 0 <= x <= w && Started(pix, w, h, visited, queue) && forall p :: p in visited ==> p in queue
      invariant forall p :: GreenAt(pix, p) && 0 <= p.x < x && (p.y == 0 || p.y == h - 1) ==> p in visited
      invariant x > 0 ==> h > 0
    {
      if h == 0 {
        ok := false;
        return;
      }
      visited, queue := Seed(pix, w, h, Pos(x, 0), visited, queue);
      visited, queue := Seed(pix, w, h, Pos(x, h - 1), visited, queue);
      x := x + 1;
    }
    var y := 0;
    while y < h
      invariant 0 <= y <= h && Started(pix, w, h, visited, queue) && forall p :: p in visited ==> p in queue
      invariant forall p :: GreenAt(pix, p) && 0 <= p.x < w && (p.y == 0 || p.y == h - 1) ==> p in visited
      invariant forall p :: GreenAt(pix, p) && 0 <= p.y < y && (p.x == 0 || p.x == w - 1) ==> p in visited
      invariant y > 0 ==> w > 0
    {
      if w == 0 {
        ok := false;
        return;
      }
      visited, queue := Seed(pix, w, h, Pos(0, y), visited, queue);
      visited, queue := Seed(pix, w, h, Pos(w - 1, y), visited, queue);
      y := y + 1;
    }
  }

  lemma NotStarted(pix: Picture, w: int, h: int)
    ensures Started(pix, w, h, {}, [])
  {
  }

  method Seed(pix: Picture, ghost w: int, ghost h: int, p: Pos, visited: set<Pos>, queue: seq<Pos>)
    returns (visited': set<Pos>, queue': seq<Pos>)
    requires IsPicture(pix, w, h) && Started(pix, w, h, visited, queue) && OnBorder(w, h, p)
    requires forall q :: q in visited ==> q in queue
    ensures Started(pix, w, h, visited', queue') && visited <= visited' && (GreenAt(pix, p) ==> p in visited')
    ensures forall q :: q in visited' ==> q in queue'
  {
    if GreenAt(pix, p) {
      BorderIsJoined(pix, w, h, p);
    }
    visited', queue' := Enqueue(pix, pix, w, h, p, visited, queue);
  }

  /** Which pixels have been cleared, which may have been, and what cannot be missing from the worklist. */
  ghost predicate Progress(original: Picture, pix: Picture, w: int, h: int, visited: set<Pos>, queue: seq<Pos>) {
    && pix.Keys == original.Keys
    && (forall p :: p in pix ==> pix[p] == original[p] || (p in visited && pix[p] == CLEAR))
    && (forall p :: p in visited && p !in queue ==> p in pix && pix[p] == CLEAR)
    && forall p, q :: p in visited && p !in queue && Adjacent(p, q) && GreenAt(original, q) ==> q in visited
  }

  ghost function Everywhere(w: int, h: int): set<Pos> {
    set x, y | 0 <= x < w && 0 <= y < h :: Pos(x, y)
  }

  /** One neighbour of a pixel that was just cleared. */
  method TryNeighbour(pix: Picture, ghost original: Picture, w: int, h: int, ghost p: Pos, q: Pos,
                      visited: set<Pos>, queue: seq<Pos>)
    returns (visited': set<Pos>, queue': seq<Pos>)
    requires IsPicture(original, w, h) && pix.Keys == original.Keys
    requires Started(original, w, h, visited, queue) && p in visited && Adjacent(p, q)
    requires forall c :: c in pix && c !in visited ==> pix[c] == original[c]
    ensures Started(original, w, h, visited', queue') && visited <= visited' && queue <= queue'
    ensures visited' == visited ==> queue' == queue
    ensures forall c :: c in visited' && c !in visited ==> c in queue'
    ensures GreenAt(original, q) ==> q in visited'
  {
    visited', queue' := visited, queue;
    if 0 <= q.x < w && 0 <= q.y < h && q !in visited && IsGreen(pix[q]) {
      NeighbourIsJoined(original, w, h, p, q);
      visited', queue' := Enqueue(pix, original, w, h, q, visited, queue);
    }
  }

  /** The worklist loop and everything before it: exactly the joined pixels are cleared, the others keep their value. */
  method RemoveGreen(original: Picture, w: int, h: int) returns (ok: bool, pix: Picture)
    requires IsPicture(original, w, h) && 0 <= w && 0 <= h
    ensures ok <==> (w == 0 <==> h == 0)
    ensures pix.Keys == original.Keys
    ensures ok ==> forall p :: p in original ==>
                     pix[p] == if Joined(original, w, h, p) then Pixel(0, 0, 0, 0) else original[p]
  {
    hide Started, Progress, Joined, GreenAt, Everywhere, OnBorder, IsPicture;
    var visited, queue;
    ok, visited, queue := ScanBorder(original, w, h);
    pix := original;
    if !ok {
      return;
    }
    NothingCleared(original, w, h, visited, queue);
    VisitedInBounds(original, w, h, visited, queue);
    while queue != []
      invariant Started(original, w, h, visited, queue) && Progress(original, pix, w, h, visited, queue)
      invariant forall p :: OnBorder(w, h, p) && GreenAt(original, p) ==> p in visited
      invariant visited <= Everywhere(w, h)
      decreases |Everywhere(w, h) - visited|, |queue|
    {
      var p := queue[0];
      Popped(original, w, h, visited, queue);
      Uncleared(original, pix, w, h, visited, queue);
      var v, q := Spread(pix[p := Pixel(0, 0, 0, 0)], original, w, h, p, visited, queue[1..]);
      ProgressKept(original, pix, w, h, visited, queue, v, q);
      VisitedInBounds(original, w, h, v, q);
      Fewer(w, h, visited, v);
      pix, visited, queue := pix[p := Pixel(0, 0, 0, 0)], v, q;
    }
    Exactly(original, pix, w, h, visited);
  }

  lemma NothingCleared(original: Picture, w: int, h: int, visited: set<Pos>, queue: seq<Pos>)
    requires forall p :: p in visited ==> p in queue
    ensures Progress(original, original, w, h, visited, queue)
  {
  }

  lemma Uncleared(original: Picture, pix: Picture, w: int, h: int, visited: set<Pos>, queue: seq<Pos>)
    requires Progress(original, pix, w, h, visited, queue)
    ensures pix.Keys == original.Keys
    ensures forall c :: c in pix && c !in visited ==> pix[c] == original[c]
  {
  }

  /** All four neighbours of a pixel that was just cleared. */
  method Spread(pix: Picture, ghost original: Picture, w: int, h: int, p: Pos, visited: set<Pos>, queue: seq<Pos>)
    returns (visited': set<Pos>, queue': seq<Pos>)
    requires IsPicture(original, w, h) && pix.Keys == original.Keys
    requires Started(original, w, h, visited, queue) && p in visited
    requires forall c :: c in pix && c !in visited ==> pix[c] == original[c]
    ensures Started(original, w, h, visited', queue') && visited <= visited' && queue <= queue'
    ensures visited' == visited ==> queue' == queue
    ensures forall c :: c in visited' && c !in visited ==> c in queue'
    ensures forall q :: Adjacent(p, q) && GreenAt(original, q) ==> q in visited'
  {
    hide Started, GreenAt, IsPicture;
    visited', queue' := visited, queue;
    visited', queue' := TryNeighbour(pix, original, w, h, p, Pos(p.x + 1, p.y), visited', queue');
    visited', queue' := TryNeighbour(pix, original, w, h, p, Pos(p.x - 1, p.y), visited', queue');
    visited', queue' := TryNeighbour(pix, original, w, h, p, Pos(p.x, p.y + 1), visited', queue');
    visited', queue' := TryNeighbour(pix, original, w, h, p, Pos(p.x, p.y - 1), visited', queue');
  }

  lemma VisitedInBounds(pix: Picture, w: int, h: int, visited: set<Pos>, queue: seq<Pos>)
    requires Started(pix, w, h, visited, queue)
    ensures visited <= Everywhere(w, h)
  {
    forall p | p in visited
      ensures p in Everywhere(w, h)
    {
      assert p == Pos(p.x, p.y);
    }
  }

  lemma Popped(pix: Picture, w: int, h: int, visited: set<Pos>, queue: seq<Pos>)
    requires Started(pix, w, h, visited, queue) && queue != []
    ensures Started(pix, w, h, visited, queue[1..]) && queue[0] in visited && queue[0] in pix
  {
  }

  lemma Fewer(w: int, h: int, before: set<Pos>, after: set<Pos>)
    requires before <= after <= Everywhere(w, h)
    ensures before == after || |Everywhere(w, h) - after| < |Everywhere(w, h) - before|
  {
    if before != after {
      var p :| p in after && p !in before;
      var a, b := Everywhere(w, h) - after, Everywhere(w, h) - before;
      assert a <= b - {p};
      SubsetSize(a, b - {p});
    }
  }

  lemma {:induction false} SubsetSize(a: set<Pos>, b: set<Pos>)
    requires a <= b
    ensures |a| <= |b|
    decreases |a|
  {
    if a != {} {
      var p :| p in a;
      SubsetSize(a - {p}, b - {p});
    }
  }

  lemma ProgressKept(original: Picture, pix: Picture, w: int, h: int, visited: set<Pos>, queue: seq<Pos>,
                     visited': set<Pos>, queue': seq<Pos>)
    requires Progress(original, pix, w, h, visited, queue) && queue != [] && queue[0] in visited && queue[0] in pix
    requires visited <= visited' && queue[1..] <= queue'
    requires forall c :: c in visited' && c !in visited ==> c in queue'
    requires forall q :: Adjacent(queue[0], q) && GreenAt(original, q) ==> q in visited'
    ensures Progress(original, pix[queue[0] := CLEAR], w, h, visited', queue')
  {
    var p := queue[0];
    forall i | 1 <= i < |queue|
      ensures queue[i] in queue'
    {
      assert queue[i] == queue[1..][i - 1] == queue'[i - 1];
    }
  }

  /** With the worklist empty, the cleared pixels are the joined ones. */
  lemma Exactly(original: Picture, pix: Picture, w: int, h: int, visited: set<Pos>)
    requires Started(original, w, h, visited, []) && Progress(original, pix, w, h, visited, [])
    requires forall p :: OnBorder(w, h, p) && GreenAt(original, p) ==> p in visited
    ensures pix.Keys == original.Keys
    ensures forall p :: p in original ==> pix[p] == if Joined(original, w, h, p) then CLEAR else original[p]
  {
    hide GreenAt;
    forall p | p in original
      ensures Joined(original, w, h, p) <==> p in visited
    {
      if Joined(original, w, h, p) {
        var path :| GreenPath(original, w, h, path) && path[|path| - 1] == p;
        PathsStayInside(original, w, h, visited, path);
      }
    }
  }
}
