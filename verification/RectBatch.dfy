/** `stbrp_pack_rects`: sort an array of rectangles, pack them one by one, restore the caller's order. */
module RectBatch {
  import opened Skyline
  import opened SkylineSearch
  import opened RectPacker

  /** `wasPacked` doubles as the original index while the array is reordered. */
  datatype Rect = Rect(id: int, w: nat, h: nat, x: int, y: int, wasPacked: int) {
    ghost predicate Empty() {
      w == 0 || h == 0
    }

    ghost function AsBox(): Box {
      Box(x, y, w, h)
    }

    ghost predicate SameInput(r: Rect) {
      id == r.id && w == r.w && h == r.h
    }
  }

  /** The two orders the array is sorted by. */
  datatype Order = TallestFirst | Original

  ghost predicate Le(o: Order, a: Rect, b: Rect) {
    match o
    case TallestFirst => a.h > b.h || (a.h == b.h && a.w >= b.w)
    case Original => a.wasPacked <= b.wasPacked
  }

  /** `rect_height_compare` and `rect_original_order`: negative, zero or positive. */
  function Compare(o: Order, a: Rect, b: Rect): (c: int)
    ensures c <= 0 <==> Le(o, a, b)
    ensures c == 0 <==> Le(o, a, b) && Le(o, b, a)
  {
    match o
    case TallestFirst =>
      if a.h > b.h then -1
      else if a.h < b.h then 1
      else if a.w > b.w then -1
      else if a.w < b.w then 1
      else 0
    case Original =>
      if a.wasPacked < b.wasPacked then -1 else if a.wasPacked > b.wasPacked then 1 else 0
  }

  ghost predicate Sorted(o: Order, s: seq<Rect>) {
    forall i, j :: 0 <= i < j < |s| ==> Le(o, s[i], s[j])
  }

  ghost predicate IsPermutation(p: seq<int>, n: nat) {
    && |p| == n
    && (forall i :: 0 <= i < n ==> 0 <= p[i] < n)
    && forall i, j :: 0 <= i < j < n ==> p[i] != p[j]
  }

  ghost predicate Rearranged(s: seq<Rect>, r: seq<Rect>, p: seq<int>) {
    && IsPermutation(p, |s|)
    && |r| == |s|
    && forall i :: 0 <= i < |r| ==> r[i] == s[p[i]]
  }

  /** Where a sorted sequence takes the next element. */
  method Rank(o: Order, r: seq<Rect>, e: Rect) returns (q: nat)
    requires Sorted(o, r)
    ensures q <= |r|
    ensures Sorted(o, r[..q] + [e] + r[q..])
  {
    q := 0;
    while q < |r| && Compare(o, r[q], e) <= 0
      invariant q <= |r|
      invariant forall i :: 0 <= i < q ==> Le(o, r[i], e)
    {
      q := q + 1;
    }
  }

  /** Any sorting routine: all that is known is that the result is sorted and a rearrangement. */
  method Sort(o: Order, s: seq<Rect>) returns (r: seq<Rect>, ghost p: seq<int>)
    ensures Sorted(o, r) && Rearranged(s, r, p)
  {
    r, p := [], [];
    var n := 0;
    while n < |s|
      invariant n <= |s| && Sorted(o, r) && Rearranged(s[..n], r, p)
    {
      var q := Rank(o, r, s[n]);
      InsertRearranged(s, n, r, p, q);
      r, p := r[..q] + [s[n]] + r[q..], p[..q] + [n] + p[q..];
      n := n + 1;
    }
    assert s[..n] == s;
  }

  lemma InsertRearranged(s: seq<Rect>, n: nat, r: seq<Rect>, p: seq<int>, q: nat)
    requires n < |s| && Rearranged(s[..n], r, p) && q <= |r|
    ensures Rearranged(s[..n + 1], r[..q] + [s[n]] + r[q..], p[..q] + [n as int] + p[q..])
  {
    var r', p' := r[..q] + [s[n]] + r[q..], p[..q] + [n as int] + p[q..];
    forall i | 0 <= i < n + 1
      ensures 0 <= p'[i] < n + 1 && r'[i] == s[p'[i]]
      ensures p'[i] == if i < q then p[i] else if i == q then n else p[i - 1]
    {
    }
  }

  /** Strictly increasing original indices below `n` can only be `0, 1, .., n - 1`. */
  lemma {:induction false} IndicesRestored(key: seq<int>, i: nat)
    requires i < |key|
    requires forall a :: 0 <= a < |key| ==> 0 <= key[a] < |key|
    requires forall a, b :: 0 <= a < b < |key| ==> key[a] < key[b]
    ensures i <= key[i]
    decreases i
  {
    if i > 0 {
      IndicesRestored(key, i - 1);
      assert key[i - 1] < key[i];
    }
  }

  lemma {:induction false} IndicesFromTop(key: seq<int>, i: nat)
    requires i < |key|
    requires forall a :: 0 <= a < |key| ==> 0 <= key[a] < |key|
    requires forall a, b :: 0 <= a < b < |key| ==> key[a] < key[b]
    ensures key[i] <= i
    decreases |key| - i
  {
    if i + 1 < |key| {
      IndicesFromTop(key, i + 1);
      assert key[i] < key[i + 1];
    }
  }

  /** Sorting a rearranged array by its recorded indices undoes the rearrangement. */
  lemma Undone(p: seq<int>, mid: seq<Rect>, last: seq<Rect>, q: seq<int>)
    requires IsPermutation(p, |mid|) && forall i :: 0 <= i < |mid| ==> mid[i].wasPacked == p[i]
    requires Sorted(Original, last) && Rearranged(mid, last, q)
    ensures forall i :: 0 <= i < |mid| ==> p[q[i]] == i
  {
    var key := seq(|mid|, i requires 0 <= i < |mid| => last[i].wasPacked);
    forall a, b | 0 <= a < b < |key|
      ensures key[a] < key[b]
    {
      assert Le(Original, last[a], last[b]);
      assert q[a] != q[b];
      assert p[q[a]] != p[q[b]];
    }
    forall i | 0 <= i < |mid|
      ensures p[q[i]] == i
    {
      IndicesRestored(key, i);
      IndicesFromTop(key, i);
    }
  }

  /** How a rectangle came out of packing: empty ones sit at the origin, packed ones own the entry `slot` of all
      boxes placed, the others carry the largest coordinate. */
  ghost predicate Settled(r: Rect, slot: int, from: int, placed: seq<Box>) {
    if r.Empty() then
      slot == -1 && r.x == 0 && r.y == 0
    else if slot >= 0 then
      from <= slot < |placed| && placed[slot] == r.AsBox()
    else
      slot == -1 && r.x == MAX_VALUE && r.y == MAX_VALUE
  }

  ghost predicate SlotsAscend(slots: seq<int>) {
    forall i, j :: 0 <= i < j < |slots| && slots[i] >= 0 && slots[j] >= 0 ==> slots[i] < slots[j]
  }

  ghost predicate SlotsDistinct(slots: seq<int>) {
    forall i, j :: 0 <= i < j < |slots| && slots[i] >= 0 ==> slots[i] != slots[j]
  }

  /** The target as it does not change while rectangles are packed. */
  datatype Target = Target(width: int, height: int, align: int, rule: Heuristic)

  ghost function TargetOf(ctx: Context): Target
    reads ctx
  {
    Target(ctx.width, ctx.height, ctx.align, ctx.rule)
  }

  /** What a rectangle finds when its turn comes: the skyline, whether a node is left, and how many boxes there are. */
  datatype Turn = Turn(sky: seq<Seg>, spare: bool, count: nat)

  ghost predicate Room(s: seq<Seg>, t: Target, w: nat, h: nat) {
    && t.align > 0 && IsSkyline(s, t.width, t.height)
    && exists c :: RoomAt(s, t.width, t.height, Context.AlignUp(w, t.align), h, c)
  }

  /** A rectangle gets a place exactly when its turn offers a node and room, and then the best of all columns by the
      rule in force. */
  ghost predicate Fair(r: Rect, slot: int, turn: Turn, placed: seq<Box>, t: Target) {
    && t.align > 0 && IsSkyline(turn.sky, t.width, t.height)
    && turn.count <= |placed| && Packing(turn.sky, placed[..turn.count], t.width, t.height)
    && (!r.Empty() ==> (slot >= 0 <==> turn.spare && Room(turn.sky, t, r.w, r.h)))
    && (!r.Empty() && slot >= 0 ==> slot == turn.count)
    && (!r.Empty() && slot >= 0 ==> LeastPlace(turn.sky, t, Context.AlignUp(r.w, t.align), r.x, r.y))
  }

  /** Lowest, then leftmost; or lowest, then with the least waste, then leftmost. */
  ghost predicate LeastPlace(s: seq<Seg>, t: Target, w: nat, x: int, y: int) {
    && 0 <= t.width && InRange(s, 0, t.width)
    && if t.rule.BottomLeft? then BottomLeftMost(s, t.width, w, x, y) else BestFitMost(s, t.width, w, x, y)
  }

  /** Boxes placed later change nothing about that. */
  lemma StaysFair(r: Rect, slot: int, turn: Turn, before: seq<Box>, after: seq<Box>, t: Target)
    requires Fair(r, slot, turn, before, t) && before <= after
    ensures Fair(r, slot, turn, after, t)
  {
    assert after[..turn.count] == before[..turn.count];
  }

  /** One turn of the packing loop. */
  method PackOne(ctx: Context, given: Rect) returns (r: Rect, ghost slot: int, ghost turn: Turn)
    requires ctx.Valid()
    modifies ctx
    ensures ctx.Valid() && TargetOf(ctx) == old(TargetOf(ctx))
    ensures old(ctx.placed) <= ctx.placed
    ensures r.SameInput(given) && r.wasPacked == given.wasPacked
    ensures Settled(r, slot, |old(ctx.placed)|, ctx.placed)
    ensures turn == old(Turn(ctx.sky, ctx.free != [], |ctx.placed|)) && Fair(r, slot, turn, ctx.placed, TargetOf(ctx))
    ensures NeverDrops(turn.sky, ctx.sky, ctx.width, ctx.height)
    ensures old(ctx.Supplied()) && (given.Empty() || given.w % ctx.align == 0) ==> ctx.Supplied() && turn.spare
  {
    hide Context.Valid, Context.Supplied, Fair, Room, LeastPlace, Packing, BottomLeftMost, BestFitMost, IsSkyline, Context.AlignUp, Inserted;
    turn := Turn(ctx.sky, ctx.free != [], |ctx.placed|);
    ghost var before, t := ctx.placed, TargetOf(ctx);
    Opening(ctx);
    assert before[..|before|] == before;
    if given.w == 0 || given.h == 0 {
      r, slot := given.(x := 0, y := 0), -1;
      FairIf(r, slot, turn, ctx.placed, t, false);
      return;
    }
    RoomFor(ctx, given.w, given.h);
    FloorAtZero(ctx.sky, ctx.width, ctx.height);
    var ok, x, y, k, end := ctx.PackRectangle(given.w, given.h);
    if ok {
      r, slot := given.(x := x, y := y), |ctx.placed| - 1;
      Risen(turn.sky, ctx.sky, ctx.width, ctx.height, k, Box(x, y, given.w, given.h), end);
      LeastOf(turn.sky, t, Context.AlignUp(given.w, t.align), x, y);
    } else {
      r, slot := given.(x := 0x7fff_ffff, y := 0x7fff_ffff), -1;
    }
    assert ctx.placed[..|before|] == before;
    FairIf(r, slot, turn, ctx.placed, t, ok);
  }

  lemma FloorAtZero(s: seq<Seg>, width: int, height: int)
    requires IsSkyline(s, width, height)
    ensures |s| >= 2 && Increasing(s) && forall i :: 0 <= i < |s| ==> 0 <= s[i].x
  {
    forall i | 0 <= i < |s|
      ensures 0 <= s[i].x
    {
      Ordered(s, 0, i);
    }
  }

  lemma Opening(ctx: Context)
    requires ctx.Valid()
    ensures ctx.align > 0 && IsSkyline(ctx.sky, ctx.width, ctx.height)
    ensures Packing(ctx.sky, ctx.placed, ctx.width, ctx.height)
    ensures NeverDrops(ctx.sky, ctx.sky, ctx.width, ctx.height)
    ensures ctx.Supplied() ==> ctx.free != []
  {
    hide Packing;
    NeverDropsAtAll(ctx.sky, ctx.width, ctx.height);
    if ctx.Supplied() {
      ctx.FreeNodeLeft(ctx.align);
    }
  }

  lemma RoomFor(ctx: Context, w: nat, h: nat)
    requires ctx.align > 0 && IsSkyline(ctx.sky, ctx.width, ctx.height)
    ensures ctx.HasRoom(Context.AlignUp(w, ctx.align), h) <==> Room(ctx.sky, TargetOf(ctx), w, h)
  {
  }

  lemma Risen(s: seq<Seg>, t: seq<Seg>, width: int, height: int, k: nat, b: Box, end: int)
    requires Inserted(s, t, width, height, k, b, end)
    ensures NeverDrops(s, t, width, height)
  {
  }

  lemma LeastOf(s: seq<Seg>, t: Target, w: nat, x: int, y: int)
    requires IsSkyline(s, t.width, t.height) && 0 <= t.width
    requires t.rule.BottomLeft? ==> BottomLeftMost(s, t.width, w, x, y)
    requires t.rule.BestFit? ==> BestFitMost(s, t.width, w, x, y)
    ensures LeastPlace(s, t, w, x, y)
  {
    hide BottomLeftMost, BestFitMost;
  }

  /** What makes a turn fair. */
  lemma FairIf(r: Rect, slot: int, turn: Turn, placed: seq<Box>, t: Target, ok: bool)
    requires t.align > 0 && IsSkyline(turn.sky, t.width, t.height) && turn.count <= |placed|
    requires Packing(turn.sky, placed[..turn.count], t.width, t.height)
    requires !r.Empty() ==> (ok <==> turn.spare && Room(turn.sky, t, r.w, r.h)) && slot == if ok then turn.count else -1
    requires !r.Empty() && ok ==> LeastPlace(turn.sky, t, Context.AlignUp(r.w, t.align), r.x, r.y)
    ensures Fair(r, slot, turn, placed, t)
  {
    hide Room, LeastPlace, Packing, IsSkyline;
  }

  lemma NeverDropsAtAll(s: seq<Seg>, width: int, height: int)
    requires IsSkyline(s, width, height)
    ensures NeverDrops(s, s, width, height)
  {
  }

  lemma SlotsGrow(slots: seq<int>, slot: int, n: int)
    requires SlotsAscend(slots) && (forall i :: 0 <= i < |slots| ==> slots[i] < n) && (slot == -1 || slot >= n)
    ensures SlotsAscend(slots + [slot])
  {
  }

  /** Every rectangle was treated fairly on its turn, and the skyline has not dropped since. */
  ghost predicate Judged(rects: seq<Rect>, slots: seq<int>, turns: seq<Turn>, placed: seq<Box>, final: seq<Seg>, t: Target) {
    && |rects| == |slots| == |turns|
    && forall i :: 0 <= i < |rects| ==>
                     Fair(rects[i], slots[i], turns[i], placed, t) && NeverDrops(turns[i].sky, final, t.width, t.height)
  }

  lemma JudgeNext(rects: seq<Rect>, slots: seq<int>, turns: seq<Turn>, before: seq<Box>, s: seq<Seg>, t: Target,
                  r: Rect, slot: int, turn: Turn, after: seq<Box>, s': seq<Seg>)
    requires Judged(rects, slots, turns, before, s, t) && before <= after
    requires turn.sky == s && NeverDrops(s, s', t.width, t.height) && Fair(r, slot, turn, after, t)
    ensures Judged(rects + [r], slots + [slot], turns + [turn], after, s', t)
  {
    hide Fair, NeverDrops;
    forall i | 0 <= i < |rects|
      ensures Fair(rects[i], slots[i], turns[i], after, t) && NeverDrops(turns[i].sky, s', t.width, t.height)
    {
      StaysFair(rects[i], slots[i], turns[i], before, after, t);
      NeverDropsOn(turns[i].sky, s, s', t.width, t.height);
    }
  }

  /** A rectangle that had no room on its turn has none afterwards. */
  lemma NoRoomLater(s: seq<Seg>, final: seq<Seg>, t: Target, w: nat, h: nat)
    requires t.align > 0 && NeverDrops(s, final, t.width, t.height) && Room(final, t, w, h)
    ensures Room(s, t, w, h)
  {
    hide IsSkyline;
    var a := Context.AlignUp(w, t.align);
    var c :| RoomAt(final, t.width, t.height, a, h, c);
    RoofRises(s, final, t.width, t.height, c, a);
    assert RoomAt(s, t.width, t.height, a, h, c);
  }

  /** The packing loop. Nothing but the positions changes. */
  method PackAll(ctx: Context, rects: array<Rect>) returns (ghost slots: seq<int>, ghost turns: seq<Turn>)
    requires ctx.Valid()
    modifies ctx, rects
    ensures ctx.Valid() && TargetOf(ctx) == old(TargetOf(ctx))
    ensures old(ctx.placed) <= ctx.placed
    ensures |slots| == rects.Length && SlotsAscend(slots)
    ensures forall i :: 0 <= i < rects.Length ==>
                          && rects[i].SameInput(old(rects[i])) && rects[i].wasPacked == old(rects[i]).wasPacked
                          && Settled(rects[i], slots[i], |old(ctx.placed)|, ctx.placed)
    ensures Judged(rects[..], slots, turns, ctx.placed, ctx.sky, TargetOf(ctx))
    ensures old(ctx.Supplied() && OnQuantum(rects[..], ctx.align)) ==> ctx.Supplied() && NodesSpared(turns)
  {
    hide Context.Valid, Context.Supplied, Fair, NeverDrops;
    slots, turns := [], [];
    ghost var supplied := ctx.Supplied() && OnQuantum(rects[..], ctx.align);
    var i := 0;
    while i < rects.Length
      invariant i <= rects.Length && ctx.Valid() && TargetOf(ctx) == old(TargetOf(ctx))
      invariant old(ctx.placed) <= ctx.placed
      invariant |slots| == i && SlotsAscend(slots) && forall j :: 0 <= j < i ==> slots[j] < |ctx.placed|
      invariant forall j :: 0 <= j < i ==>
                              && rects[j].SameInput(old(rects[j])) && rects[j].wasPacked == old(rects[j]).wasPacked
                              && Settled(rects[j], slots[j], |old(ctx.placed)|, ctx.placed)
      invariant forall j :: i <= j < rects.Length ==> rects[j] == old(rects[j])
      invariant Judged(rects[..i], slots, turns, ctx.placed, ctx.sky, TargetOf(ctx))
      invariant supplied ==> ctx.Supplied() && NodesSpared(turns)
    {
      ghost var n, before, s, done := |ctx.placed|, ctx.placed, ctx.sky, rects[..i];
      assert rects[i] == old(rects[i]) == old(rects[..])[i];
      var r, slot, turn := PackOne(ctx, rects[i]);
      rects[i] := r;
      SlotsGrow(slots, slot, n);
      JudgeNext(done, slots, turns, before, s, TargetOf(ctx), r, slot, turn, ctx.placed, ctx.sky);
      assert rects[..i + 1] == done + [r];
      slots, turns := slots + [slot], turns + [turn];
      i := i + 1;
    }
    assert rects[..i] == rects[..];
  }

  /** All widths that matter are multiples of the quantum. */
  ghost predicate OnQuantum(rects: seq<Rect>, a: int) {
    a > 0 && forall i :: 0 <= i < |rects| ==> rects[i].Empty() || rects[i].w % a == 0
  }

  ghost predicate NodesSpared(turns: seq<Turn>) {
    forall i :: 0 <= i < |turns| ==> turns[i].spare
  }

  /** The array after all phases, relative to the array handed in: same rectangles in the same order, each
      settled, taller ones earlier, the flag set exactly for those that have a place. */
  ghost predicate Packed(given: seq<Rect>, out: seq<Rect>, slots: seq<int>, from: int, placed: seq<Box>) {
    && |given| == |out| == |slots|
    && SlotsDistinct(slots)
    && (forall i :: 0 <= i < |out| ==> out[i].SameInput(given[i]) && Settled(out[i], slots[i], from, placed))
    && forall i, j :: 0 <= i < |out| && 0 <= j < |out| && slots[i] >= 0 && slots[j] >= 0 ==>
                        !Le(TallestFirst, out[j], out[i]) ==> slots[i] < slots[j]
  }

  /** Numbering, sorting, packing and sorting back compose to `Packed`. */
  lemma PhasesCompose(given: seq<Rect>, sorted: seq<Rect>, p: seq<int>, mid: seq<Rect>, slots: seq<int>,
                      out: seq<Rect>, q: seq<int>, from: int, placed: seq<Box>)
    requires |sorted| == |mid| == |slots| == |given| && Sorted(TallestFirst, sorted) && IsPermutation(p, |given|)
    requires forall i :: 0 <= i < |given| ==> sorted[i].SameInput(given[p[i]]) && sorted[i].wasPacked == p[i]
    requires forall i :: 0 <= i < |given| ==> mid[i].SameInput(sorted[i]) && mid[i].wasPacked == sorted[i].wasPacked
    requires forall i :: 0 <= i < |given| ==> Settled(mid[i], slots[i], from, placed)
    requires SlotsAscend(slots) && Sorted(Original, out) && Rearranged(mid, out, q)
    ensures Packed(given, out, Gather(slots, q), from, placed)
  {
    hide Settled, Sorted;
    Undone(p, mid, out, q);
    var s := Gather(slots, q);
    forall i | 0 <= i < |out|
      ensures out[i].SameInput(given[i]) && Settled(out[i], s[i], from, placed)
    {
      assert mid[q[i]].SameInput(sorted[q[i]]) && sorted[q[i]].SameInput(given[p[q[i]]]);
    }
    forall i, j | 0 <= i < |out| && 0 <= j < |out| && s[i] >= 0 && s[j] >= 0 && !Le(TallestFirst, out[j], out[i])
      ensures s[i] < s[j]
    {
      assert mid[q[i]].SameInput(sorted[q[i]]) && mid[q[j]].SameInput(sorted[q[j]]);
      TallerIsEarlier(sorted, q[i], q[j]);
    }
  }

  lemma TallerIsEarlier(sorted: seq<Rect>, i: int, j: int)
    requires Sorted(TallestFirst, sorted) && 0 <= i < |sorted| && 0 <= j < |sorted|
    requires !Le(TallestFirst, sorted[j], sorted[i])
    ensures i < j
  {
  }

  ghost function Gather<T>(slots: seq<T>, q: seq<int>): (r: seq<T>)
    requires |q| == |slots| && forall i :: 0 <= i < |q| ==> 0 <= q[i] < |slots|
    ensures |r| == |q| && forall i :: 0 <= i < |q| ==> r[i] == slots[q[i]]
  {
    seq(|q|, i requires 0 <= i < |q| => slots[q[i]])
  }

  /** What a caller reads off the array: every non-empty rectangle flagged as packed lies inside the target, and
      no two of them touch one another, nor anything placed by an earlier call. */
  lemma PackedAreDisjoint(given: seq<Rect>, out: seq<Rect>, slots: seq<int>, from: nat, s: seq<Seg>, placed: seq<Box>,
                          width: int, height: int, i: nat, j: nat)
    requires IsSkyline(s, width, height) && Packing(s, placed, width, height) && width <= MAX_VALUE && from <= |placed|
    requires Packed(given, out, slots, from, placed) && i < |out| && !out[i].Empty()
    ensures slots[i] < 0 <==> out[i].x == MAX_VALUE && out[i].y == MAX_VALUE
    ensures slots[i] >= 0 ==> 0 <= out[i].x && out[i].x + out[i].w <= width
    ensures slots[i] >= 0 ==> 0 <= out[i].y && out[i].y + out[i].h <= height
    ensures slots[i] >= 0 && j < |out| && i != j && slots[j] >= 0 ==> Disjoint(out[i].AsBox(), out[j].AsBox())
    ensures slots[i] >= 0 && j < from ==> Disjoint(placed[j], out[i].AsBox())
  {
    hide IsSkyline, Sorted, Le, Height;
    assert Settled(out[i], slots[i], from, placed);
    if slots[i] >= 0 {
      assert BoxFits(s, placed[slots[i]], width, height);
      if j < |out| && i != j && slots[j] >= 0 {
        assert Settled(out[j], slots[j], from, placed);
        assert slots[i] < slots[j] || slots[j] < slots[i];
      }
    }
  }

  /** The judgement follows the rectangles back into the caller's order. */
  lemma JudgedInOrder(mid: seq<Rect>, slots: seq<int>, turns: seq<Turn>, out: seq<Rect>, q: seq<int>,
                      placed: seq<Box>, final: seq<Seg>, t: Target)
    requires Judged(mid, slots, turns, placed, final, t) && Rearranged(mid, out, q)
    ensures Judged(out, Gather(slots, q), Gather(turns, q), placed, final, t)
    ensures NodesSpared(turns) ==> NodesSpared(Gather(turns, q))
  {
    hide Fair, NeverDrops;
  }

  /** Widths are the same in every order. */
  lemma QuantumInOrder(given: seq<Rect>, sorted: seq<Rect>, p: seq<int>, a: int)
    requires OnQuantum(given, a) && IsPermutation(p, |given|) && |sorted| == |given|
    requires forall i :: 0 <= i < |given| ==> sorted[i].SameInput(given[p[i]])
    ensures OnQuantum(sorted, a)
  {
    forall i | 0 <= i < |sorted|
      ensures sorted[i].Empty() || sorted[i].w % a == 0
    {
      assert sorted[i].SameInput(given[p[i]]);
    }
  }

  /** Setting flags does not touch the judgement. */
  lemma JudgedWhenFlagged(before: seq<Rect>, out: seq<Rect>, slots: seq<int>, turns: seq<Turn>, placed: seq<Box>,
                          final: seq<Seg>, t: Target)
    requires Judged(before, slots, turns, placed, final, t) && |out| == |before|
    requires forall i :: 0 <= i < |out| ==> out[i] == before[i].(wasPacked := out[i].wasPacked)
    ensures Judged(out, slots, turns, placed, final, t)
  {
    hide NeverDrops, Room, LeastPlace, Packing, IsSkyline;
    forall i | 0 <= i < |out|
      ensures Fair(out[i], slots[i], turns[i], placed, t)
    {
      assert Fair(before[i], slots[i], turns[i], placed, t);
    }
  }

  /** With nodes to spare, a rectangle that is left over does not fit anywhere in the end. */
  lemma LeftOverHasNoRoom(out: seq<Rect>, slots: seq<int>, turns: seq<Turn>, placed: seq<Box>, final: seq<Seg>, t: Target,
                          i: nat)
    requires Judged(out, slots, turns, placed, final, t) && NodesSpared(turns)
    requires i < |out| && !out[i].Empty() && slots[i] < 0
    ensures !Room(final, t, out[i].w, out[i].h)
  {
    hide NeverDrops, Room, LeastPlace, Packing, IsSkyline;
    assert Fair(out[i], slots[i], turns[i], placed, t);
    if Room(final, t, out[i].w, out[i].h) {
      NoRoomLater(turns[i].sky, final, t, out[i].w, out[i].h);
    }
  }

  /** `stbrp_pack_rects`. Every rectangle is treated fairly on its turn. With the nodes supplied and all widths multiples
      of the quantum they stay supplied, and what is left over does not fit anywhere in the end. */
  method PackRects(ctx: Context, rects: array<Rect>)
    returns (all: bool, ghost slots: seq<int>, ghost turns: seq<Turn>)
    requires ctx.Valid()
    modifies ctx, rects
    ensures ctx.Valid() && TargetOf(ctx) == old(TargetOf(ctx))
    ensures old(ctx.placed) <= ctx.placed
    ensures Packed(old(rects[..]), rects[..], slots, |old(ctx.placed)|, ctx.placed)
    ensures Judged(rects[..], slots, turns, ctx.placed, ctx.sky, TargetOf(ctx))
    ensures forall i :: 0 <= i < rects.Length ==>
                          rects[i].wasPacked == if rects[i].Empty() || slots[i] >= 0 then 1 else 0
    ensures all <==> forall i :: 0 <= i < rects.Length ==> rects[i].wasPacked == 1
    ensures old(ctx.Supplied() && OnQuantum(rects[..], ctx.align)) ==>
              && ctx.Supplied()
              && forall i :: 0 <= i < rects.Length && rects[i].wasPacked == 0 ==>
                               !Room(ctx.sky, TargetOf(ctx), rects[i].w, rects[i].h)
  {
    hide Context.Valid, Context.Supplied, Packed, Settled, Sorted, SlotsAscend, Judged, NodesSpared, OnQuantum, Room;
    ghost var given := rects[..];
    ghost var supplied := ctx.Supplied() && OnQuantum(given, ctx.align);
    ghost var sorted, p, mids, midTurns := PackTallestFirst(ctx, rects);
    ghost var mid := rects[..];
    var restored, q := Sort(Original, rects[..]);
    Store(rects, restored);
    PhasesCompose(given, sorted, p, mid, mids, restored, q, |old(ctx.placed)|, ctx.placed);
    JudgedSizes(mid, mids, midTurns, ctx.placed, ctx.sky, TargetOf(ctx));
    JudgedInOrder(mid, mids, midTurns, restored, q, ctx.placed, ctx.sky, TargetOf(ctx));
    slots, turns := Gather(mids, q), Gather(midTurns, q);
    all := Flag(ctx, rects, given, slots, |old(ctx.placed)|);
    JudgedWhenFlagged(restored, rects[..], slots, turns, ctx.placed, ctx.sky, TargetOf(ctx));
    if supplied {
      LeftOvers(rects[..], slots, turns, ctx.placed, ctx.sky, TargetOf(ctx));
    }
  }

  /** The first half: number, sort and pack. `sorted` is the array in between. */
  method PackTallestFirst(ctx: Context, rects: array<Rect>)
    returns (ghost sorted: seq<Rect>, ghost p: seq<int>, ghost slots: seq<int>, ghost turns: seq<Turn>)
    requires ctx.Valid()
    modifies ctx, rects
    ensures ctx.Valid() && TargetOf(ctx) == old(TargetOf(ctx))
    ensures old(ctx.placed) <= ctx.placed
    ensures |sorted| == |slots| == rects.Length && Sorted(TallestFirst, sorted) && IsPermutation(p, rects.Length)
    ensures forall i :: 0 <= i < rects.Length ==> sorted[i].SameInput(old(rects[..])[p[i]]) && sorted[i].wasPacked == p[i]
    ensures forall i :: 0 <= i < rects.Length ==>
                          rects[..][i].SameInput(sorted[i]) && rects[..][i].wasPacked == sorted[i].wasPacked
    ensures forall i :: 0 <= i < rects.Length ==> Settled(rects[..][i], slots[i], |old(ctx.placed)|, ctx.placed)
    ensures SlotsAscend(slots) && Judged(rects[..], slots, turns, ctx.placed, ctx.sky, TargetOf(ctx))
    ensures old(ctx.Supplied() && OnQuantum(rects[..], ctx.align)) ==> ctx.Supplied() && NodesSpared(turns)
  {
    hide Context.Valid, Context.Supplied, Settled, Sorted, SlotsAscend, Judged, NodesSpared, OnQuantum;
    ghost var given := rects[..];
    Number(rects);
    var inOrder;
    inOrder, p := Sort(TallestFirst, rects[..]);
    Store(rects, inOrder);
    sorted := inOrder;
    if ctx.Supplied() && OnQuantum(given, ctx.align) {
      QuantumInOrder(given, sorted, p, ctx.align);
    }
    slots, turns := PackAll(ctx, rects);
  }

  lemma JudgedSizes(out: seq<Rect>, slots: seq<int>, turns: seq<Turn>, placed: seq<Box>, final: seq<Seg>, t: Target)
    requires Judged(out, slots, turns, placed, final, t)
    ensures |out| == |slots| == |turns|
  {
  }

  lemma LeftOvers(out: seq<Rect>, slots: seq<int>, turns: seq<Turn>, placed: seq<Box>, final: seq<Seg>, t: Target)
    requires Judged(out, slots, turns, placed, final, t) && NodesSpared(turns)
    ensures |slots| == |out|
    ensures forall i :: 0 <= i < |out| && !out[i].Empty() && slots[i] < 0 ==> !Room(final, t, out[i].w, out[i].h)
  {
    hide Fair, NeverDrops, Room;
    forall i | 0 <= i < |out| && !out[i].Empty() && slots[i] < 0
      ensures !Room(final, t, out[i].w, out[i].h)
    {
      LeftOverHasNoRoom(out, slots, turns, placed, final, t, i);
    }
  }

  method Number(rects: array<Rect>)
    modifies rects
    ensures forall i :: 0 <= i < rects.Length ==> rects[i] == old(rects[i]).(wasPacked := i)
  {
    var i := 0;
    while i < rects.Length
      invariant i <= rects.Length
      invariant forall j :: 0 <= j < rects.Length ==>
                              rects[j] == if j < i then old(rects[j]).(wasPacked := j) else old(rects[j])
    {
      rects[i] := rects[i].(wasPacked := i);
      i := i + 1;
    }
  }

  method Store(rects: array<Rect>, s: seq<Rect>)
    requires |s| == rects.Length
    modifies rects
    ensures rects[..] == s
  {
    forall i | 0 <= i < |s| {
      rects[i] := s[i];
    }
  }

  method Flag(ctx: Context, rects: array<Rect>, ghost given: seq<Rect>, ghost slots: seq<int>, ghost from: nat)
    returns (all: bool)
    requires ctx.Valid() && from <= |ctx.placed| && Packed(given, rects[..], slots, from, ctx.placed)
    modifies rects
    ensures Packed(given, rects[..], slots, from, ctx.placed)
    ensures forall i :: 0 <= i < rects.Length ==> rects[i] == old(rects[i]).(wasPacked := rects[i].wasPacked)
    ensures forall i :: 0 <= i < rects.Length ==>
                          rects[i].wasPacked == if rects[i].Empty() || slots[i] >= 0 then 1 else 0
    ensures all <==> forall i :: 0 <= i < rects.Length ==> rects[i].wasPacked == 1
  {
    hide Settled;
    ghost var before := rects[..];
    all := true;
    var i := 0;
    while i < rects.Length
      invariant i <= rects.Length
      invariant forall j :: 0 <= j < rects.Length ==>
                              rects[j] == if j < i then before[j].(wasPacked := Mark(before[j])) else before[j]
      invariant all <==> forall j :: 0 <= j < i ==> Mark(before[j]) == 1
    {
      var placed := !(rects[i].x == 0x7fff_ffff && rects[i].y == 0x7fff_ffff);
      rects[i] := rects[i].(wasPacked := if placed then 1 else 0);
      if !placed {
        all := false;
      }
      i := i + 1;
    }
    MarksAgree(given, before, rects[..], slots, from, ctx.sky, ctx.placed, ctx.width, ctx.height);
  }

  ghost function Mark(r: Rect): int {
    if r.x == MAX_VALUE && r.y == MAX_VALUE then 0 else 1
  }

  lemma MarksAgree(given: seq<Rect>, before: seq<Rect>, out: seq<Rect>, slots: seq<int>, from: nat,
                   s: seq<Seg>, placed: seq<Box>, width: int, height: int)
    requires IsSkyline(s, width, height) && Packing(s, placed, width, height) && width <= MAX_VALUE && from <= |placed|
    requires Packed(given, before, slots, from, placed) && |out| == |before|
    requires forall i :: 0 <= i < |out| ==> out[i] == before[i].(wasPacked := Mark(before[i]))
    ensures Packed(given, out, slots, from, placed)
    ensures forall i :: 0 <= i < |out| ==> Mark(before[i]) == if out[i].Empty() || slots[i] >= 0 then 1 else 0
  {
    hide IsSkyline, Packing;
    forall i | 0 <= i < |out|
      ensures Mark(before[i]) == if out[i].Empty() || slots[i] >= 0 then 1 else 0
      ensures out[i].SameInput(given[i]) && Settled(out[i], slots[i], from, placed)
    {
      assert before[i].SameInput(given[i]) && Settled(before[i], slots[i], from, placed);
      if !before[i].Empty() {
        PackedAreDisjoint(given, before, slots, from, s, placed, width, height, i, i);
      }
    }
    forall i, j | 0 <= i < |out| && 0 <= j < |out| && slots[i] >= 0 && slots[j] >= 0 && !Le(TallestFirst, out[j], out[i])
      ensures slots[i] < slots[j]
    {
      assert !Le(TallestFirst, before[j], before[i]);
    }
  }
}
