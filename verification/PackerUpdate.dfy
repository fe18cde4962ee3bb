/** The packer's list surgery: take a node off the free list, link it into the active list, free the
    nodes it hides and stitch the rest back on. */
module PackerUpdate {
  import opened Numbers
  import opened Skyline
  import opened NodePool
  import opened PackerSearch

  /** Both lists of a pool: acyclic, disjoint, and together all of its cells. */
  ghost predicate Pool(mem: seq<Cell>, activeHead: int, freeHead: int, active: seq<int>, free: seq<int>, s: seq<Seg>) {
    && Shows(mem, activeHead, active, s)
    && IsList(mem, freeHead, free)
    && AllDistinct(active) && AllDistinct(free) && Apart(active, free)
    && |active| + |free| == |mem|
  }

  lemma PoolParts(mem: seq<Cell>, activeHead: int, freeHead: int, active: seq<int>, free: seq<int>, s: seq<Seg>)
    requires Pool(mem, activeHead, freeHead, active, free, s)
    ensures Shows(mem, activeHead, active, s)
    ensures |active| == |s| && |active| + |free| == |mem|
    ensures freeHead == NULL <==> free == []
  {
  }

  /** `old` and `mem` agree on the listed cells. */
  ghost predicate Same(old_: seq<Cell>, mem: seq<Cell>, ids: seq<int>) {
    && |old_| == |mem|
    && forall i {:trigger ids[i]} :: 0 <= i < |ids| ==> 0 <= ids[i] < |mem| && mem[ids[i]] == old_[ids[i]]
  }

  /** Pushing an active cell keeps the free list a list, apart from the cells still active. */
  lemma PushFree(mem: seq<Cell>, freeHead: int, free: seq<int>, cur: int, rest: seq<int>, j: nat)
    requires IsList(mem, freeHead, free) && AllDistinct(free) && 0 <= cur < |mem|
    requires j < |rest| && rest[j] == cur && AllDistinct(rest) && Apart(rest[j..], free)
    ensures IsList(mem[cur := mem[cur].(next := freeHead)], cur, [cur] + free)
    ensures AllDistinct([cur] + free) && Apart(rest[j + 1..], [cur] + free)
  {
    assert rest[j..][0] == cur;
    assert forall i :: 0 <= i < |free| ==> free[i] != cur;
    assert rest[j + 1..] == rest[j..][1..];
  }

  lemma DropFirst(mem0: seq<Cell>, mem: seq<Cell>, rest: seq<int>, j: nat, freeHead: int)
    requires j < |rest| && AllDistinct(rest) && Same(mem0, mem, rest[j..]) && 0 <= rest[j] < |mem|
    ensures Same(mem0, mem[rest[j] := mem[rest[j]].(next := freeHead)], rest[j + 1..])
  {
    assert rest[j + 1..] == rest[j..][1..];
  }

  lemma Unchanged(mem: seq<Cell>, head: int, ids: seq<int>, s: seq<Seg>)
    requires Shows(mem, head, ids, s)
    ensures Same(mem, mem, ids) && |s| == |ids|
  {
  }

  lemma StillThere(mem0: seq<Cell>, mem: seq<Cell>, rest: seq<int>, j: nat)
    requires j < |rest| && Same(mem0, mem, rest[j..])
    ensures |mem| == |mem0| && 0 <= rest[j] < |mem| && mem[rest[j]] == mem0[rest[j]]
    ensures j + 1 < |rest| ==> 0 <= rest[j + 1] < |mem| && mem[rest[j + 1]] == mem0[rest[j + 1]]
  {
    assert rest[j..][0] == rest[j];
    if j + 1 < |rest| {
      assert rest[j..][1] == rest[j + 1];
    }
  }

  /** Move the run of hidden nodes, from `cur` on, to the free list; stop at the first node whose successor
      begins to the right of `right`. */
  method FreeRun(mem0: seq<Cell>, freeHead0: int, ghost free0: seq<int>, cur0: int, ghost rest: seq<int>,
                 ghost s: seq<Seg>, right: int)
    returns (mem: seq<Cell>, freeHead: int, ghost free: seq<int>, cur: int, ghost j: nat)
    requires rest != [] && cur0 == rest[0] && Shows(mem0, cur0, rest, s) && AllDistinct(rest)
    requires IsList(mem0, freeHead0, free0) && AllDistinct(free0) && Apart(rest, free0)
    ensures j == KeepFrom(s, 0, right) && cur == rest[j]
    ensures Same(mem0, mem, rest[j..])
    ensures IsList(mem, freeHead, free) && AllDistinct(free) && Apart(rest[j..], free)
    ensures |free| == |free0| + j
    ensures forall f :: f in free ==> f in free0 || f in rest[..j]
    ensures forall c :: 0 <= c < |mem| && c !in rest ==> mem[c] == mem0[c]
  {
    hide IsList, AllDistinct, Apart, Shows, Same;
    mem, freeHead, free, cur, j := mem0, freeHead0, free0, cur0, 0;
    assert rest[0..] == rest;
    Unchanged(mem0, cur0, rest, s);
    NodeOf(mem0, cur0, rest, s, 0);
    while mem[cur].next != NULL && mem[mem[cur].next].x <= right
      invariant 0 <= j < |rest| == |s| && cur == rest[j] && KeepFrom(s, 0, right) == KeepFrom(s, j, right)
      invariant |mem| == |mem0| && 0 <= cur < |mem| && mem[cur] == mem0[cur]
      invariant mem[cur].next != NULL ==> j + 1 < |rest| && mem[cur].next == rest[j + 1] && 0 <= rest[j + 1] < |mem|
      invariant j + 1 < |rest| ==> mem[cur].next == rest[j + 1] && mem[rest[j + 1]] == mem0[rest[j + 1]] && mem[rest[j + 1]].x == s[j + 1].x
      invariant Same(mem0, mem, rest[j..])
      invariant IsList(mem, freeHead, free) && AllDistinct(free) && Apart(rest[j..], free)
      invariant |free| == |free0| + j
      invariant forall f :: f in free ==> f in free0 || f in rest[..j]
      invariant forall c :: 0 <= c < |mem| && c !in rest ==> mem[c] == mem0[c]
      decreases |rest| - j
    {
      NodeOf(mem0, cur0, rest, s, j);
      var next := mem[cur].next;
      PushFree(mem, freeHead, free, cur, rest, j);
      DropFirst(mem0, mem, rest, j, freeHead);
      mem := mem[cur := mem[cur].(next := freeHead)];
      freeHead, free := cur, [cur] + free;
      cur, j := next, j + 1;
      NodeOf(mem0, cur0, rest, s, j);
      StillThere(mem0, mem, rest, j);
    }
  }

  /** The cells `pre`, in this order, start at `head`, end with a link to `node`, and show `s`. */
  ghost predicate Leads(mem: seq<Cell>, head: int, pre: seq<int>, node: int, s: seq<Seg>) {
    && head == (if pre == [] then node else pre[0])
    && |s| == |pre|
    && forall i {:trigger pre[i]} {:trigger s[i]} :: 0 <= i < |pre| ==>
         && 0 <= pre[i] < |mem|
         && mem[pre[i]] == Cell(s[i].x, s[i].y, if i + 1 < |pre| then pre[i + 1] else node)
  }

  /** A front part, one node and a list make a list. */
  lemma Join(mem: seq<Cell>, head: int, pre: seq<int>, node: int, tail: seq<int>, s: seq<Seg>, seg: Seg, t: seq<Seg>)
    requires Leads(mem, head, pre, node, s) && tail != [] && Shows(mem, tail[0], tail, t)
    requires 0 <= node < |mem| && mem[node] == Cell(seg.x, seg.y, tail[0])
    ensures Shows(mem, head, pre + [node] + tail, s + [seg] + t)
  {
    var ids, r := pre + [node] + tail, s + [seg] + t;
    forall i | 0 <= i < |ids|
      ensures 0 <= ids[i] < |mem|
      ensures mem[ids[i]] == Cell(r[i].x, r[i].y, if i + 1 < |ids| then ids[i + 1] else NULL)
    {
      if i < |pre| {
        assert ids[i] == pre[i] && r[i] == s[i];
        assert i + 1 < |pre| ==> ids[i + 1] == pre[i + 1];
      } else if i > |pre| {
        NodeOf(mem, tail[0], tail, t, i - |pre| - 1);
        assert ids[i] == tail[i - |pre| - 1];
      }
    }
  }

  /** Splitting a list in front of cell `p`, with the front relinked to `node`. */
  lemma Split(mem: seq<Cell>, head: int, ids: seq<int>, s: seq<Seg>, p: nat, node: int)
    requires Shows(mem, head, ids, s) && p < |ids| && AllDistinct(ids)
    ensures p == 0 ==> Leads(mem, node, [], node, [])
    ensures p > 0 ==> Leads(mem[ids[p - 1] := mem[ids[p - 1]].(next := node)], head, ids[..p], node, s[..p])
    ensures p > 0 ==> Shows(mem[ids[p - 1] := mem[ids[p - 1]].(next := node)], ids[p], ids[p..], s[p..])
    ensures p == 0 ==> Shows(mem, head, ids[0..], s[0..])
  {
    if p > 0 {
      SplitFront(mem, head, ids, s, p, node);
      SplitBack(mem, head, ids, s, p, node);
    } else {
      assert ids[0..] == ids && s[0..] == s;
    }
  }

  lemma SplitFront(mem: seq<Cell>, head: int, ids: seq<int>, s: seq<Seg>, p: nat, node: int)
    requires Shows(mem, head, ids, s) && 0 < p < |ids| && AllDistinct(ids)
    ensures Leads(mem[ids[p - 1] := mem[ids[p - 1]].(next := node)], head, ids[..p], node, s[..p])
  {
    forall i | 0 <= i < p
      ensures 0 <= ids[i] < |mem| && mem[ids[i]] == Cell(s[i].x, s[i].y, ids[i + 1])
      ensures i < p - 1 ==> ids[i] != ids[p - 1]
    {
      NodeOf(mem, head, ids, s, i);
    }
  }

  lemma SplitBack(mem: seq<Cell>, head: int, ids: seq<int>, s: seq<Seg>, p: nat, node: int)
    requires Shows(mem, head, ids, s) && 0 < p < |ids| && AllDistinct(ids)
    ensures Shows(mem[ids[p - 1] := mem[ids[p - 1]].(next := node)], ids[p], ids[p..], s[p..])
  {
    var m := mem[ids[p - 1] := mem[ids[p - 1]].(next := node)];
    forall i | p <= i < |ids|
      ensures ids[i] != ids[p - 1] && 0 <= ids[i] < |mem|
      ensures m[ids[i]] == Cell(s[i].x, s[i].y, if i + 1 < |ids| then ids[i + 1] else NULL)
    {
      NodeOf(mem, head, ids, s, i);
    }
    forall i | 0 <= i < |ids[p..]|
      ensures 0 <= ids[p..][i] < |m|
      ensures m[ids[p..][i]].next == if i + 1 < |ids[p..]| then ids[p..][i + 1] else NULL
      ensures s[p..][i] == Seg(m[ids[p..][i]].x, m[ids[p..][i]].y)
    {
      assert ids[p..][i] == ids[p + i];
    }
  }

  /** Cells outside a list may change freely. */
  lemma Frame(mem: seq<Cell>, mem': seq<Cell>, head: int, ids: seq<int>, s: seq<Seg>)
    requires Same(mem, mem', ids)
    ensures IsList(mem, head, ids) ==> IsList(mem', head, ids)
    ensures Shows(mem, head, ids, s) ==> Shows(mem', head, ids, s)
  {
  }

  /** Link a node in front of the cells that begin at `x` or later. The cell that `link` points at starts
      at `x`, or covers it and is kept. */
  method LinkIn(mem0: seq<Cell>, activeHead0: int, ghost active: seq<int>, ghost s: seq<Seg>,
                link: Link, ghost k: nat, x: int, node: int)
    returns (mem: seq<Cell>, activeHead: int, cur: int)
    requires Shows(mem0, activeHead0, active, s) && AllDistinct(active)
    requires LinkAt(active, link, k) && Covers(s, k, x)
    ensures Leads(mem, activeHead, active[..Before(s, k, x)], node, s[..Before(s, k, x)])
    ensures cur == active[Before(s, k, x)]
    ensures Shows(mem, cur, active[Before(s, k, x)..], s[Before(s, k, x)..])
    ensures |mem| == |mem0| && forall c :: 0 <= c < |mem| && c !in active ==> mem[c] == mem0[c]
  {
    NodeOf(mem0, activeHead0, active, s, k);
    if link.NextOf? {
      NodeOf(mem0, activeHead0, active, s, k - 1);
    }
    Split(mem0, activeHead0, active, s, Before(s, k, x), node);
    mem, activeHead := mem0, activeHead0;
    cur := if link.HeadLink? then activeHead0 else mem0[link.node].next;
    if mem[cur].x < x {
      var next := mem[cur].next;
      mem := mem[cur := mem[cur].(next := node)];
      cur := next;
    } else if link.HeadLink? {
      activeHead := node;
    } else {
      mem := mem[link.node := mem[link.node].(next := node)];
    }
  }

  /** Taking the first free node and overwriting it leaves both lists intact. */
  lemma TakeFree(mem: seq<Cell>, activeHead: int, freeHead: int, active: seq<int>, free: seq<int>, s: seq<Seg>, cell: Cell)
    requires Pool(mem, activeHead, freeHead, active, free, s) && free != []
    ensures 0 <= freeHead < |mem| && freeHead !in active && freeHead !in free[1..]
    ensures Shows(mem[freeHead := cell], activeHead, active, s)
    ensures IsList(mem[freeHead := cell], mem[freeHead].next, free[1..])
    ensures Apart(active, free[1..]) && AllDistinct(free[1..])
  {
    var m, rest := mem[freeHead := cell], free[1..];
    assert free[0] == freeHead && mem[free[0]].next == if 1 < |free| then free[1] else NULL;
    Frame(mem, m, activeHead, active, s);
    forall i | 0 <= i < |rest|
      ensures 0 <= rest[i] < |m| && m[rest[i]].next == if i + 1 < |rest| then rest[i + 1] else NULL
    {
      assert rest[i] == free[i + 1] && mem[free[i + 1]] == m[rest[i]];
    }
  }

  /** Moving the first cell of a list to another position. */
  lemma Trim(mem: seq<Cell>, ids: seq<int>, s: seq<Seg>, x: int)
    requires ids != [] && Shows(mem, ids[0], ids, s) && AllDistinct(ids)
    ensures Shows(mem[ids[0] := mem[ids[0]].(x := x)], ids[0], ids, [Seg(x, s[0].y)] + s[1..])
  {
    var m, t := mem[ids[0] := mem[ids[0]].(x := x)], [Seg(x, s[0].y)] + s[1..];
    forall i | 0 <= i < |ids|
      ensures 0 <= ids[i] < |m|
      ensures m[ids[i]].next == (if i + 1 < |ids| then ids[i + 1] else NULL) && t[i] == Seg(m[ids[i]].x, m[ids[i]].y)
    {
      NodeOf(mem, ids[0], ids, s, i);
    }
  }

  lemma KeepFromShift(s: seq<Seg>, p: nat, j: nat, right: int)
    requires p + j < |s|
    ensures p + KeepFrom(s[p..], j, right) == KeepFrom(s, p + j, right)
    decreases |s| - j
  {
    if p + j + 1 < |s| && s[p + j + 1].x <= right {
      KeepFromShift(s, p, j + 1, right);
    }
  }

  lemma Suffix(mem: seq<Cell>, ids: seq<int>, s: seq<Seg>, j: nat)
    requires ids != [] && Shows(mem, ids[0], ids, s) && j < |ids|
    ensures Shows(mem, ids[j], ids[j..], s[j..])
  {
    forall i | 0 <= i < |ids| - j
      ensures 0 <= ids[j..][i] < |mem|
      ensures mem[ids[j..][i]].next == if i + 1 < |ids| - j then ids[j..][i + 1] else NULL
      ensures s[j..][i] == Seg(mem[ids[j..][i]].x, mem[ids[j..][i]].y)
    {
      NodeOf(mem, ids[0], ids, s, j + i);
    }
  }

  /** The new active cells are distinct and none of them is free. */
  lemma StillDisjoint(active: seq<int>, free0: seq<int>, p: nat, j: nat, node: int, free: seq<int>)
    requires p + j < |active| && AllDistinct(active) && node !in active && node !in free
    requires Apart(active, free0)
    requires forall f :: f in free ==> f in free0 || f in active[p..][..j]
    ensures AllDistinct(active[..p] + [node] + active[p + j..])
    ensures Apart(active[..p] + [node] + active[p + j..], free)
  {
    var ids := active[..p] + [node] + active[p + j..];
    forall i, f | 0 <= i < |ids| && 0 <= f < |free|
      ensures ids[i] != free[f]
    {
      assert free[f] in free;
      if i != p {
        var n := if i < p then i else i - 1 + j;
        assert ids[i] == active[n];
        if free[f] in active[p..][..j] {
          var m :| 0 <= m < j && active[p..][..j][m] == free[f];
          assert active[p + m] == free[f];
        }
      }
    }
  }

  /** The lists while the new node is linked from the front but does not lead on yet. */
  ghost predicate Loose(mem: seq<Cell>, activeHead: int, freeHead: int, pre: seq<int>, node: int, tail: seq<int>,
                        free: seq<int>, s: seq<Seg>, seg: Seg, t: seq<Seg>)
  {
    && Leads(mem, activeHead, pre, node, s)
    && 0 <= node < |mem| && mem[node].x == seg.x && mem[node].y == seg.y
    && tail != [] && Shows(mem, tail[0], tail, t)
    && IsList(mem, freeHead, free)
    && AllDistinct(pre + [node] + tail) && AllDistinct(free) && Apart(pre + [node] + tail, free)
    && |pre| + 1 + |tail| + |free| == |mem|
  }

  lemma Loosened(mem0: seq<Cell>, mem: seq<Cell>, activeHead: int, freeHead: int, active: seq<int>, free0: seq<int>,
                 p: nat, j: nat, node: int, free: seq<int>, s: seq<Seg>, seg: Seg)
    requires p + j < |active| == |s| && AllDistinct(active) && node !in active && node !in free0 && Apart(active, free0)
    requires |mem0| == |mem| == |active| + 1 + |free0|
    requires Leads(mem0, activeHead, active[..p], node, s[..p]) && Shows(mem0, active[p], active[p..], s[p..])
    requires 0 <= node < |mem0| && mem0[node].x == seg.x && mem0[node].y == seg.y
    requires Same(mem0, mem, active[p..][j..]) && forall c :: 0 <= c < |mem| && c !in active[p..] ==> mem[c] == mem0[c]
    requires IsList(mem, freeHead, free) && AllDistinct(free) && |free| == |free0| + j
    requires forall f :: f in free ==> f in free0 || f in active[p..][..j]
    ensures Loose(mem, activeHead, freeHead, active[..p], node, active[p + j..], free, s[..p], seg, s[p + j..])
  {
    assert active[p..][j..] == active[p + j..] && s[p..][j..] == s[p + j..];
    Suffix(mem0, active[p..], s[p..], j);
    Frame(mem0, mem, active[p + j], active[p + j..], s[p + j..]);
    assert forall f :: f in active[p..][..j] ==> f in active;
    StillDisjoint(active, free0, p, j, node, free);
    assert forall i, m :: 0 <= i < p <= m < |active| ==> active[i] != active[m];
    assert Leads(mem, activeHead, active[..p], node, s[..p]);
  }

  /** Stitch the list back together and move the first kept node out of the way. */
  method Stitch(mem0: seq<Cell>, ghost activeHead: int, ghost freeHead: int, ghost pre: seq<int>, node: int,
                ghost tail: seq<int>, ghost free: seq<int>, ghost s: seq<Seg>, ghost seg: Seg, ghost t: seq<Seg>,
                cur: int, right: int)
    returns (mem: seq<Cell>)
    requires Loose(mem0, activeHead, freeHead, pre, node, tail, free, s, seg, t) && cur == tail[0]
    ensures |mem| == |mem0|
    ensures Pool(mem, activeHead, freeHead, pre + [node] + tail, free,
                 s + [seg] + ([Seg(Max(t[0].x, right), t[0].y)] + t[1..]))
  {
    hide Shows, Leads, IsList, Pool, AllDistinct, Apart, Loose;
    LooseParts(mem0, activeHead, freeHead, pre, node, tail, free, s, seg, t);
    PartsApart(pre, node, tail, free);
    mem := mem0[node := mem0[node].(next := cur)];
    ghost var mem1 := mem;
    WriteOutside(mem0, node, mem1[node], tail[0], tail, t);
    WriteOutside(mem0, node, mem1[node], freeHead, free, []);
    WriteOutsideFront(mem0, node, mem1[node], activeHead, pre, node, s);
    ghost var kept := [Seg(Max(t[0].x, right), t[0].y)] + t[1..];
    if mem[cur].x < right {
      mem := mem[cur := mem[cur].(x := right)];
      Trim(mem1, tail, t, right);
      WriteOutside(mem1, cur, mem[cur], freeHead, free, []);
      WriteOutsideFront(mem1, cur, mem[cur], activeHead, pre, node, s);
    } else {
      assert kept == t;
    }
    Join(mem, activeHead, pre, node, tail, s, seg, kept);
    Stitched(mem, activeHead, freeHead, pre + [node] + tail, free, s + [seg] + kept);
  }

  lemma LooseParts(mem: seq<Cell>, activeHead: int, freeHead: int, pre: seq<int>, node: int, tail: seq<int>,
                   free: seq<int>, s: seq<Seg>, seg: Seg, t: seq<Seg>)
    requires Loose(mem, activeHead, freeHead, pre, node, tail, free, s, seg, t)
    ensures Leads(mem, activeHead, pre, node, s) && 0 <= node < |mem| && mem[node].x == seg.x && mem[node].y == seg.y
    ensures tail != [] && Shows(mem, tail[0], tail, t) && IsList(mem, freeHead, free)
    ensures AllDistinct(pre + [node] + tail) && AllDistinct(free) && Apart(pre + [node] + tail, free)
    ensures |pre + [node] + tail| + |free| == |mem|
    ensures |t| == |tail| && 0 <= tail[0] < |mem| && t[0] == Seg(mem[tail[0]].x, mem[tail[0]].y)
  {
    hide AllDistinct, Apart;
  }

  /** The node, the first kept cell and the other cells are all different. */
  lemma PartsApart(pre: seq<int>, node: int, tail: seq<int>, free: seq<int>)
    requires tail != [] && AllDistinct(pre + [node] + tail) && Apart(pre + [node] + tail, free)
    ensures node !in pre && node !in tail && node !in free && tail[0] !in pre && tail[0] !in free && AllDistinct(tail)
  {
    var ids := pre + [node] + tail;
    assert ids[|pre|] == node && ids[|pre| + 1] == tail[0];
    assert forall i :: 0 <= i < |pre| ==> ids[i] == pre[i];
    assert forall i :: 0 <= i < |tail| ==> ids[|pre| + 1 + i] == tail[i];
  }

  /** Writing a cell that is not on a list leaves the list alone. */
  lemma WriteOutside(mem: seq<Cell>, c: int, cell: Cell, head: int, ids: seq<int>, s: seq<Seg>)
    requires 0 <= c < |mem| && c !in ids
    ensures IsList(mem, head, ids) ==> IsList(mem[c := cell], head, ids)
    ensures Shows(mem, head, ids, s) ==> Shows(mem[c := cell], head, ids, s)
  {
    if IsList(mem, head, ids) {
      Frame(mem, mem[c := cell], head, ids, s);
    }
  }

  lemma WriteOutsideFront(mem: seq<Cell>, c: int, cell: Cell, head: int, pre: seq<int>, node: int, s: seq<Seg>)
    requires 0 <= c < |mem| && c !in pre && Leads(mem, head, pre, node, s)
    ensures Leads(mem[c := cell], head, pre, node, s)
  {
  }

  lemma Stitched(mem: seq<Cell>, activeHead: int, freeHead: int, active: seq<int>, free: seq<int>, s: seq<Seg>)
    requires Shows(mem, activeHead, active, s) && IsList(mem, freeHead, free)
    requires AllDistinct(active) && AllDistinct(free) && Apart(active, free) && |active| + |free| == |mem|
    ensures Pool(mem, activeHead, freeHead, active, free, s)
  {
  }

  lemma Regroup(s: seq<Seg>, k: nat, x: int, top: int, right: int, p: nat, j: nat)
    requires k + 1 < |s| && p == Before(s, k, x) && j == KeepFrom(s[p..], 0, right)
    ensures p + j < |s|
    ensures Place(s, k, x, top, right)
         == s[..p] + [Seg(x, top)] + ([Seg(Max(s[p + j..][0].x, right), s[p + j..][0].y)] + s[p + j..][1..])
  {
    hide KeepFrom;
    KeepFromShift(s, p, 0, right);
    var tail := s[p + j..];
    assert tail[0] == s[p + j] && tail[1..] == s[p + j + 1..];
    Associate(s[..p], Seg(x, top), Seg(Max(s[p + j].x, right), s[p + j].y), tail[1..]);
  }

  lemma Associate(a: seq<Seg>, b: Seg, c: Seg, d: seq<Seg>)
    ensures a + [b, c] + d == a + [b] + ([c] + d)
  {
  }

  /** Everything `stbrp__skyline_pack_rectangle` does after it has found a position. */
  method Relink(mem0: seq<Cell>, activeHead0: int, freeHead0: int, ghost active0: seq<int>, ghost free0: seq<int>,
                ghost s: seq<Seg>, link: Link, ghost k: nat, x: int, top: int, right: int)
    returns (mem: seq<Cell>, activeHead: int, freeHead: int, ghost active: seq<int>, ghost free: seq<int>)
    requires Pool(mem0, activeHead0, freeHead0, active0, free0, s) && free0 != []
    requires LinkAt(active0, link, k) && Covers(s, k, x)
    ensures |mem| == |mem0| && |active| + |free| == |mem|
    ensures Pool(mem, activeHead, freeHead, active, free, Place(s, k, x, top, right))
  {
    var node := freeHead0;
    ghost var p := Before(s, k, x);
    TakeFree(mem0, activeHead0, freeHead0, active0, free0, s, Cell(x, top, mem0[node].next));
    mem := mem0[node := Cell(x, top, mem0[node].next)];
    freeHead := mem0[node].next;
    var cur;
    ghost var mem1 := mem;
    mem, activeHead, cur := LinkIn(mem, activeHead0, active0, s, link, k, x, node);
    ghost var mem2 := mem;
    ghost var j;
    Frame(mem1, mem2, freeHead, free0[1..], []);
    mem, freeHead, free, cur, j := FreeRun(mem, freeHead, free0[1..], cur, active0[p..], s[p..], right);
    Loosened(mem2, mem, activeHead, freeHead, active0, free0[1..], p, j, node, free, s, Seg(x, top));
    mem := Stitch(mem, activeHead, freeHead, active0[..p], node, active0[p + j..], free, s[..p], Seg(x, top), s[p + j..],
                  cur, right);
    active := active0[..p] + [node] + active0[p + j..];
    Regroup(s, k, x, top, right, p, j);
  }
}
