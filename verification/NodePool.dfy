/** The packer's node storage: one block of cells, linked into lists by cell number. */
module NodePool {
  import opened Skyline

  const NULL: int := -1

  /** A node: `next` is the number of another cell, or `NULL`. */
  datatype Cell = Cell(x: int, y: int, next: int)

  /** The cells `ids`, in this order, are the list that starts at `head` and ends with a null link. */
  ghost predicate IsList(mem: seq<Cell>, head: int, ids: seq<int>) {
    && head == (if ids == [] then NULL else ids[0])
    && (forall i :: 0 <= i < |ids| ==> 0 <= ids[i] < |mem|)
    && forall i {:trigger mem[ids[i]]} :: 0 <= i < |ids| ==>
                                            mem[ids[i]].next == if i + 1 < |ids| then ids[i + 1] else NULL
  }

  ghost predicate AllDistinct(ids: seq<int>) {
    forall i, j :: 0 <= i < j < |ids| ==> ids[i] != ids[j]
  }

  ghost predicate Apart(a: seq<int>, b: seq<int>) {
    forall i, j :: 0 <= i < |a| && 0 <= j < |b| ==> a[i] != b[j]
  }

  /** The list that starts at `head` shows the skyline `s`. */
  ghost predicate Shows(mem: seq<Cell>, head: int, ids: seq<int>, s: seq<Seg>) {
    && IsList(mem, head, ids)
    && |s| == |ids|
    && forall i {:trigger s[i]} :: 0 <= i < |s| ==> s[i] == Seg(mem[ids[i]].x, mem[ids[i]].y)
  }

  lemma NodeOf(mem: seq<Cell>, head: int, ids: seq<int>, s: seq<Seg>, i: nat)
    requires Shows(mem, head, ids, s) && i < |s|
    ensures |s| == |ids| && head == ids[0] && 0 <= ids[i] < |mem|
    ensures s[i] == Seg(mem[ids[i]].x, mem[ids[i]].y)
    ensures mem[ids[i]].next == if i + 1 < |ids| then ids[i + 1] else NULL
    ensures i + 1 < |s| ==> 0 <= ids[i + 1] < |mem| && s[i + 1] == Seg(mem[ids[i + 1]].x, mem[ids[i + 1]].y)
  {
  }
}
